/**
 * Additions by any number of threads to one atomic filter, in any interleaving of their atomic steps.
 * The steps are relaxed: they agree on one order per word and on nothing else. A sequence of steps
 * stands for the orders of all its words, and a thread's own steps may come in it in any order.
 */
module BloomConcurrency {
  import opened BitWords
  import opened BloomFilter

  /** One atomic step: a thread sets one bit. */
  datatype Event = Event(thread: nat, pos: nat)

  /** Every step stays inside the filter. */
  predicate InRange(events: seq<Event>, n: nat) {
    forall i :: 0 <= i < |events| ==> events[i].pos < n
  }

  predicate Touches(events: seq<Event>, pos: nat) {
    exists i :: 0 <= i < |events| && events[i].pos == pos
  }

  /** The words after the steps. */
  function RunWords(words: seq<Word>, n: nat, events: seq<Event>): (r: seq<Word>)
    requires n <= 64 * |words| && InRange(events, n)
    ensures |r| == |words|
  {
    if events == [] then words
    else OrBit(RunWords(words, n, events[..|events| - 1]), events[|events| - 1].pos)
  }

  /** What step `i` reports: its bit was not set. */
  predicate Reports(words: seq<Word>, n: nat, events: seq<Event>, i: nat)
    requires n <= 64 * |words| && InRange(events, n) && i < |events|
  {
    !BitAt(RunWords(words, n, events[..i]), events[i].pos)
  }

  /** What a thread's addition returns: one of its steps reported. */
  ghost predicate Returns(words: seq<Word>, n: nat, events: seq<Event>, thread: nat)
    requires n <= 64 * |words| && InRange(events, n)
  {
    exists i :: 0 <= i < |events| && events[i].thread == thread && Reports(words, n, events, i)
  }

  /** After any steps a bit is set if it was set or some step set it. */
  lemma {:induction false} RunBits(words: seq<Word>, n: nat, events: seq<Event>, p: nat)
    requires n <= 64 * |words| && InRange(events, n) && p < 64 * |words|
    ensures BitAt(RunWords(words, n, events), p) <==> BitAt(words, p) || Touches(events, p)
    decreases |events|
  {
    hide BitAt, Touches;
    if events == [] {
      NoneTouch(p);
    } else {
      var init, last := events[..|events| - 1], events[|events| - 1];
      RunBits(words, n, init, p);
      OrBitAt(RunWords(words, n, init), last.pos, p);
      TouchesLast(events, p);
    }
  }

  lemma NoneTouch(p: nat)
    ensures !Touches([], p)
  {
  }

  lemma TouchesLast(events: seq<Event>, p: nat)
    requires events != []
    ensures Touches(events, p) <==> Touches(events[..|events| - 1], p) || events[|events| - 1].pos == p
  {
    var init := events[..|events| - 1];
    if Touches(init, p) {
      var i :| 0 <= i < |init| && init[i].pos == p;
      assert events[i].pos == p;
    }
    if Touches(events, p) && events[|events| - 1].pos != p {
      var i :| 0 <= i < |events| && events[i].pos == p;
      assert init[i].pos == p;
    }
  }

  lemma RunKeepsPadding(words: seq<Word>, n: nat, events: seq<Event>)
    requires WordsOk(words, n) && InRange(events, n)
    ensures WordsOk(RunWords(words, n, events), n)
  {
    forall p | n <= p < 64 * |words|
      ensures !BitAt(RunWords(words, n, events), p)
    {
      RunBits(words, n, events, p);
    }
  }

  // ---- each new bit is reported once

  /** The step that reports a bit is the first to touch it, and it was not set before. */
  lemma ReportsFirst(words: seq<Word>, n: nat, events: seq<Event>, i: nat)
    requires n <= 64 * |words| && InRange(events, n) && i < |events|
    ensures Reports(words, n, events, i) <==> !BitAt(words, events[i].pos) && !Touches(events[..i], events[i].pos)
  {
    RunBits(words, n, events[..i], events[i].pos);
  }

  /** No bit is reported by two steps. */
  lemma ReportedAtMostOnce(words: seq<Word>, n: nat, events: seq<Event>, i: nat, j: nat)
    requires n <= 64 * |words| && InRange(events, n) && i < j < |events| && events[i].pos == events[j].pos
    ensures !Reports(words, n, events, j)
  {
    ReportsFirst(words, n, events, j);
    assert events[..j][i].pos == events[j].pos;
  }

  /** A bit is reported by some step exactly when it was not set and some step sets it. */
  lemma ReportedIffNew(words: seq<Word>, n: nat, events: seq<Event>, p: nat)
    requires n <= 64 * |words| && InRange(events, n) && p < n
    ensures (exists i :: 0 <= i < |events| && events[i].pos == p && Reports(words, n, events, i))
            <==> !BitAt(words, p) && Touches(events, p)
  {
    if !BitAt(words, p) && Touches(events, p) {
      var i := FirstTouch(events, p);
      ReportsFirst(words, n, events, i);
      assert events[i].pos == p && Reports(words, n, events, i);
    }
    forall i | 0 <= i < |events| && events[i].pos == p && Reports(words, n, events, i)
      ensures !BitAt(words, p) && Touches(events, p)
    {
      ReportsFirst(words, n, events, i);
    }
  }

  lemma {:induction false} FirstTouch(events: seq<Event>, p: nat) returns (i: nat)
    requires Touches(events, p)
    ensures i < |events| && events[i].pos == p && !Touches(events[..i], p)
    decreases |events|
  {
    var j :| 0 <= j < |events| && events[j].pos == p;
    if Touches(events[..j], p) {
      i := FirstTouch(events[..j], p);
      assert events[..j][..i] == events[..i];
    } else {
      i := j;
    }
  }

  // ---- executions

  /** The bits a thread's steps set, in order. */
  function Projection(events: seq<Event>, thread: nat): seq<nat> {
    if events == [] then []
    else
      var last := events[|events| - 1];
      Projection(events[..|events| - 1], thread) + (if last.thread == thread then [last.pos] else [])
  }

  /** Each thread takes exactly the steps of its program; nothing is said about their order across words. */
  ghost predicate Executes(events: seq<Event>, programs: seq<seq<nat>>) {
    && (forall i :: 0 <= i < |events| ==> events[i].thread < |programs|)
    && (forall t :: 0 <= t < |programs| ==> multiset(Projection(events, t)) == multiset(programs[t]))
  }

  lemma StepsAreProgram(events: seq<Event>, programs: seq<seq<nat>>, t: nat, p: nat)
    requires Executes(events, programs) && t < |programs|
    ensures p in Projection(events, t) <==> p in programs[t]
  {
    assert p in Projection(events, t) <==> p in multiset(Projection(events, t));
    assert p in programs[t] <==> p in multiset(programs[t]);
  }

  /** The steps on one word, in its order. */
  function OnWord(events: seq<Event>, w: nat): seq<Event> {
    if events == [] then []
    else
      var last := events[|events| - 1];
      OnWord(events[..|events| - 1], w) + (if last.pos / 64 == w then [last] else [])
  }

  /** A word, and so what a step on it reports, depends on the order of its own steps alone. */
  lemma {:induction false} OwnWordDecides(words: seq<Word>, n: nat, events: seq<Event>, w: nat)
    requires n <= 64 * |words| && InRange(events, n) && w < |words|
    ensures InRange(OnWord(events, w), n)
    ensures RunWords(words, n, events)[w] == RunWords(words, n, OnWord(events, w))[w]
    decreases |events|
  {
    if events != [] {
      var init, last := events[..|events| - 1], events[|events| - 1];
      OwnWordDecides(words, n, init, w);
      if last.pos / 64 == w {
        assert (OnWord(init, w) + [last])[..|OnWord(init, w)|] == OnWord(init, w);
      } else {
        assert OnWord(init, w) + [] == OnWord(init, w);
      }
    }
  }

  /** One order per word, put one after the other. */
  function Join(orders: seq<seq<Event>>): seq<Event> {
    if orders == [] then [] else Join(orders[..|orders| - 1]) + orders[|orders| - 1]
  }

  /** What a thread does, over all words. */
  ghost function StepsOf(orders: seq<seq<Event>>, t: nat): multiset<nat> {
    if orders == [] then multiset{}
    else StepsOf(orders[..|orders| - 1], t) + multiset(Projection(orders[|orders| - 1], t))
  }

  lemma {:induction false} ProjectionAppends(a: seq<Event>, b: seq<Event>, t: nat)
    ensures Projection(a + b, t) == Projection(a, t) + Projection(b, t)
    decreases |b|
  {
    if b == [] {
      assert a + b == a;
    } else {
      ProjectionAppends(a, b[..|b| - 1], t);
      assert (a + b)[..|a + b| - 1] == a + b[..|b| - 1];
    }
  }

  lemma {:induction false} JoinProjects(orders: seq<seq<Event>>, t: nat)
    ensures multiset(Projection(Join(orders), t)) == StepsOf(orders, t)
    decreases |orders|
  {
    if orders != [] {
      var init, last := orders[..|orders| - 1], orders[|orders| - 1];
      JoinProjects(init, t);
      ProjectionAppends(Join(init), last, t);
    }
  }

  ghost predicate ThreadsBelow(events: seq<Event>, n: nat) {
    forall i :: 0 <= i < |events| ==> events[i].thread < n
  }

  lemma {:induction false} JoinThreads(orders: seq<seq<Event>>, n: nat)
    requires forall v :: 0 <= v < |orders| ==> ThreadsBelow(orders[v], n)
    ensures ThreadsBelow(Join(orders), n)
    decreases |orders|
  {
    if orders != [] {
      JoinThreads(orders[..|orders| - 1], n);
      assert ThreadsBelow(orders[|orders| - 1], n);
    }
  }

  /** Any choice of one order for each word that holds the steps of every thread is an execution of the threads. */
  lemma JoinExecutes(orders: seq<seq<Event>>, programs: seq<seq<nat>>)
    requires forall v :: 0 <= v < |orders| ==> ThreadsBelow(orders[v], |programs|)
    requires forall t :: 0 <= t < |programs| ==> StepsOf(orders, t) == multiset(programs[t])
    ensures Executes(Join(orders), programs)
  {
    JoinThreads(orders, |programs|);
    forall t | 0 <= t < |programs|
      ensures multiset(Projection(Join(orders), t)) == multiset(programs[t])
    {
      JoinProjects(orders, t);
    }
  }

  /** In it, each word keeps its order. */
  lemma {:induction false} JoinKeepsOrders(orders: seq<seq<Event>>, w: nat)
    requires forall v, i :: 0 <= v < |orders| && 0 <= i < |orders[v]| ==> orders[v][i].pos / 64 == v
    ensures OnWord(Join(orders), w) == if w < |orders| then orders[w] else []
    decreases |orders|
  {
    if orders != [] {
      var last := |orders| - 1;
      JoinKeepsOrders(orders[..last], w);
      OnWordAppends(Join(orders[..last]), orders[last], w);
      OnlyWord(orders[last], last, w);
    }
  }

  lemma {:induction false} OnWordAppends(a: seq<Event>, b: seq<Event>, w: nat)
    ensures OnWord(a + b, w) == OnWord(a, w) + OnWord(b, w)
    decreases |b|
  {
    if b == [] {
      assert a + b == a;
    } else {
      var init, last := b[..|b| - 1], b[|b| - 1];
      OnWordAppends(a, init, w);
      assert (a + b)[..|a + b| - 1] == a + init;
    }
  }

  lemma {:induction false} OnlyWord(events: seq<Event>, v: nat, w: nat)
    requires forall i :: 0 <= i < |events| ==> events[i].pos / 64 == v
    ensures OnWord(events, w) == if v == w then events else []
    decreases |events|
  {
    if events != [] {
      OnlyWord(events[..|events| - 1], v, w);
    }
  }

  lemma {:induction false} ProjectionHolds(events: seq<Event>, t: nat, p: nat)
    ensures p in Projection(events, t) <==> exists i :: 0 <= i < |events| && events[i] == Event(t, p)
    decreases |events|
  {
    if events != [] {
      var init, last := events[..|events| - 1], events[|events| - 1];
      ProjectionHolds(init, t, p);
      if p in Projection(init, t) {
        var i :| 0 <= i < |init| && init[i] == Event(t, p);
        assert events[i] == Event(t, p);
      } else if last == Event(t, p) {
        assert events[|events| - 1] == Event(t, p);
      } else {
        forall i | 0 <= i < |events|
          ensures events[i] != Event(t, p)
        {
          if i < |init| {
            assert init[i] == events[i];
          }
        }
      }
    }
  }

  /** The steps touch exactly the bits of the programs. */
  lemma ExecutionTouches(events: seq<Event>, programs: seq<seq<nat>>, p: nat)
    requires Executes(events, programs)
    ensures Touches(events, p) <==> exists t :: 0 <= t < |programs| && p in programs[t]
  {
    if Touches(events, p) {
      var i :| 0 <= i < |events| && events[i].pos == p;
      var t := events[i].thread;
      ProjectionHolds(events, t, p);
      StepsAreProgram(events, programs, t, p);
      assert events[i] == Event(t, p);
      assert p in programs[t];
    }
    forall t | 0 <= t < |programs| && p in programs[t]
      ensures Touches(events, p)
    {
      StepsAreProgram(events, programs, t, p);
      ProjectionHolds(events, t, p);
    }
  }

  // ---- concurrent additions

  /** What each thread does: it adds one item. */
  function Programs<K>(hasher: Hasher<K>, keys: seq<Hash>, n: nat, items: seq<K>): (r: seq<seq<nat>>)
    requires keys != [] ==> n > 0
    ensures |r| == |items|
  {
    seq(|items|, t requires 0 <= t < |items| => Positions(hasher, keys, n, items[t]))
  }

  /** Adding items one after the other to the flat filter. */
  function AddItems<K>(hasher: Hasher<K>, keys: seq<Hash>, bits: seq<bool>, items: seq<K>): (r: seq<bool>)
    requires keys != [] ==> |bits| > 0
    ensures |r| == |bits|
  {
    if items == [] then bits
    else SetAll(AddItems(hasher, keys, bits, items[..|items| - 1]), Positions(hasher, keys, |bits|, items[|items| - 1]))
  }

  ghost predicate SomeItemHas<K>(hasher: Hasher<K>, keys: seq<Hash>, n: nat, items: seq<K>, p: nat)
    requires keys != [] ==> n > 0
  {
    exists t :: 0 <= t < |items| && p in Positions(hasher, keys, n, items[t])
  }

  lemma {:induction false} AddItemsAt<K>(hasher: Hasher<K>, keys: seq<Hash>, bits: seq<bool>, items: seq<K>, p: nat)
    requires p < |bits|
    ensures AddItems(hasher, keys, bits, items)[p] <==> bits[p] || SomeItemHas(hasher, keys, |bits|, items, p)
    decreases |items|
  {
    if items != [] {
      var init, last := items[..|items| - 1], items[|items| - 1];
      AddItemsAt(hasher, keys, bits, init, p);
      SetAllAt(AddItems(hasher, keys, bits, init), Positions(hasher, keys, |bits|, last), p);
      assert SomeItemHas(hasher, keys, |bits|, items, p)
        <==> SomeItemHas(hasher, keys, |bits|, init, p) || p in Positions(hasher, keys, |bits|, last) by {
        assert forall t :: 0 <= t < |init| ==> items[t] == init[t];
        assert items[|init|] == last;
      }
    }
  }

  /**
   * Whatever the interleaving, and whatever order the items are added in one after the other, the
   * words end up with the bits of the flat filter, and every item is contained.
   */
  lemma ConcurrentAdds<K(!new)>(hasher: Hasher<K>, keys: seq<Hash>, words: seq<Word>, n: nat, items: seq<K>,
                                events: seq<Event>, order: seq<K>)
    requires (keys != [] ==> n > 0) && WordsOk(words, n) && InRange(events, n)
    requires Executes(events, Programs(hasher, keys, n, items))
    requires forall x :: x in order <==> x in items
    ensures var final := RunWords(words, n, events);
            && WordsOk(final, n)
            && Flat(final, n) == AddItems(hasher, keys, Flat(words, n), order)
            && forall t :: 0 <= t < |items| ==> AllSet(Flat(final, n), Positions(hasher, keys, n, items[t]))
  {
    var final := RunWords(words, n, events);
    RunKeepsPadding(words, n, events);
    forall p: nat | p < n
      ensures Flat(final, n)[p] <==> Flat(words, n)[p] || SomeItemHas(hasher, keys, n, items, p)
      ensures AddItems(hasher, keys, Flat(words, n), order)[p] == Flat(final, n)[p]
    {
      RunBits(words, n, events, p);
      TouchesItems(hasher, keys, n, items, events, p);
      AddItemsAt(hasher, keys, Flat(words, n), order, p);
      SameItems(hasher, keys, n, items, order, p);
    }
    forall t, i | 0 <= t < |items| && 0 <= i < |keys|
      ensures Flat(final, n)[Positions(hasher, keys, n, items[t])[i]]
    {
      var p := Positions(hasher, keys, n, items[t])[i];
      assert p in Positions(hasher, keys, n, items[t]);
      assert SomeItemHas(hasher, keys, n, items, p);
    }
  }

  lemma TouchesItems<K>(hasher: Hasher<K>, keys: seq<Hash>, n: nat, items: seq<K>, events: seq<Event>, p: nat)
    requires (keys != [] ==> n > 0) && Executes(events, Programs(hasher, keys, n, items))
    ensures Touches(events, p) <==> SomeItemHas(hasher, keys, n, items, p)
  {
    var programs := Programs(hasher, keys, n, items);
    ExecutionTouches(events, programs, p);
    if SomeItemHas(hasher, keys, n, items, p) {
      var t :| 0 <= t < |items| && p in Positions(hasher, keys, n, items[t]);
      assert p in programs[t];
    }
    if exists t :: 0 <= t < |programs| && p in programs[t] {
      var t :| 0 <= t < |programs| && p in programs[t];
      assert p in Positions(hasher, keys, n, items[t]);
    }
  }

  lemma SameItems<K(!new)>(hasher: Hasher<K>, keys: seq<Hash>, n: nat, items: seq<K>, order: seq<K>, p: nat)
    requires (keys != [] ==> n > 0) && forall x :: x in order <==> x in items
    ensures SomeItemHas(hasher, keys, n, items, p) <==> SomeItemHas(hasher, keys, n, order, p)
  {
    if SomeItemHas(hasher, keys, n, items, p) {
      var t :| 0 <= t < |items| && p in Positions(hasher, keys, n, items[t]);
      assert items[t] in order;
      var u :| 0 <= u < |order| && order[u] == items[t];
      assert p in Positions(hasher, keys, n, order[u]);
    }
    if SomeItemHas(hasher, keys, n, order, p) {
      var t :| 0 <= t < |order| && p in Positions(hasher, keys, n, order[t]);
      assert order[t] in items;
      var u :| 0 <= u < |items| && items[u] == order[t];
      assert p in Positions(hasher, keys, n, items[u]);
    }
  }

  // ---- what each thread is told

  /** Thread `t` is the first to touch the bit. */
  ghost predicate FirstBy(events: seq<Event>, t: nat, p: nat) {
    exists i :: 0 <= i < |events| && events[i] == Event(t, p) && !Touches(events[..i], p)
  }

  /** An addition returns true if and only if some bit of its item was clear and it was the first to touch it. */
  lemma ThreadIsTold<K>(hasher: Hasher<K>, keys: seq<Hash>, words: seq<Word>, n: nat, items: seq<K>,
                        events: seq<Event>, t: nat)
    requires (keys != [] ==> n > 0) && WordsOk(words, n) && InRange(events, n) && t < |items|
    requires Executes(events, Programs(hasher, keys, n, items))
    ensures Returns(words, n, events, t) <==>
              exists p :: p in Positions(hasher, keys, n, items[t]) && !Flat(words, n)[p] && FirstBy(events, t, p)
  {
    hide Reports, BitAt;
    if Returns(words, n, events, t) {
      var i :| 0 <= i < |events| && events[i].thread == t && Reports(words, n, events, i);
      var p := events[i].pos;
      ReportsFirst(words, n, events, i);
      ProjectionHolds(events, t, p);
      StepsAreProgram(events, Programs(hasher, keys, n, items), t, p);
      assert events[i] == Event(t, p) && p in Programs(hasher, keys, n, items)[t];
      assert p in Positions(hasher, keys, n, items[t]) && !Flat(words, n)[p] && FirstBy(events, t, p);
    }
    forall p | p in Positions(hasher, keys, n, items[t]) && !Flat(words, n)[p] && FirstBy(events, t, p)
      ensures Returns(words, n, events, t)
    {
      var i :| 0 <= i < |events| && events[i] == Event(t, p) && !Touches(events[..i], p);
      ReportsFirst(words, n, events, i);
      assert events[i].thread == t;
    }
  }

  /** Some thread is told that its item is new exactly when some item was not contained before. */
  lemma SomeThreadIsTold<K>(hasher: Hasher<K>, keys: seq<Hash>, words: seq<Word>, n: nat, items: seq<K>,
                            events: seq<Event>)
    requires (keys != [] ==> n > 0) && WordsOk(words, n) && InRange(events, n)
    requires Executes(events, Programs(hasher, keys, n, items))
    ensures (exists t :: 0 <= t < |items| && Returns(words, n, events, t))
            <==> exists t :: 0 <= t < |items| && !AllSet(Flat(words, n), Positions(hasher, keys, n, items[t]))
  {
    hide Returns, FirstBy, Executes, Flat;
    forall t | 0 <= t < |items| && !AllSet(Flat(words, n), Positions(hasher, keys, n, items[t]))
      ensures exists u :: 0 <= u < |items| && Returns(words, n, events, u)
    {
      var i :| 0 <= i < |keys| && !Flat(words, n)[Positions(hasher, keys, n, items[t])[i]];
      var p := Positions(hasher, keys, n, items[t])[i];
      assert p in Positions(hasher, keys, n, items[t]) && SomeItemHas(hasher, keys, n, items, p);
      var u := FirstThread(hasher, keys, n, items, events, p);
      ThreadIsTold(hasher, keys, words, n, items, events, u);
    }
    forall t | 0 <= t < |items| && Returns(words, n, events, t)
      ensures !AllSet(Flat(words, n), Positions(hasher, keys, n, items[t]))
    {
      ThreadIsTold(hasher, keys, words, n, items, events, t);
      var p :| p in Positions(hasher, keys, n, items[t]) && !Flat(words, n)[p] && FirstBy(events, t, p);
      var i :| 0 <= i < |keys| && Positions(hasher, keys, n, items[t])[i] == p;
    }
  }

  /** The thread that touches a bit of some item first, and whose item has that bit. */
  lemma FirstThread<K>(hasher: Hasher<K>, keys: seq<Hash>, n: nat, items: seq<K>, events: seq<Event>, p: nat)
    returns (u: nat)
    requires (keys != [] ==> n > 0) && Executes(events, Programs(hasher, keys, n, items))
    requires SomeItemHas(hasher, keys, n, items, p)
    ensures u < |items| && FirstBy(events, u, p) && p in Positions(hasher, keys, n, items[u])
  {
    TouchesItems(hasher, keys, n, items, events, p);
    var i := FirstTouch(events, p);
    u := events[i].thread;
    assert events[i] == Event(u, p);
    ProjectionHolds(events, u, p);
    StepsAreProgram(events, Programs(hasher, keys, n, items), u, p);
    assert p in Programs(hasher, keys, n, items)[u];
  }

  /** An item under two hash indexes, whose two bits are clear. */
  ghost predicate AbsentTwice<K>(hasher: Hasher<K>, keys: seq<Hash>, words: seq<Word>, n: nat, item: K) {
    && n > 0 && WordsOk(words, n) && |keys| == 2
    && var ps := Positions(hasher, keys, n, item);
    ps[0] != ps[1] && !BitAt(words, ps[0]) && !BitAt(words, ps[1])
  }

  lemma TwiceTheItem<K>(hasher: Hasher<K>, keys: seq<Hash>, words: seq<Word>, n: nat, item: K)
    requires AbsentTwice(hasher, keys, words, n, item)
    ensures var ps := Positions(hasher, keys, n, item);
            Programs(hasher, keys, n, [item, item]) == [[ps[0], ps[1]], [ps[0], ps[1]]]
  {
    hide Pos, BitAt, WordsOk;
    var ps := Positions(hasher, keys, n, item);
    var programs := Programs(hasher, keys, n, [item, item]);
    assert |programs| == 2 && programs[0] == ps && programs[1] == ps;
    hide Positions, Programs;
    assert ps == [ps[0], ps[1]] && programs == [programs[0], programs[1]];
  }

  lemma FollowsPrograms(events: seq<Event>, programs: seq<seq<nat>>)
    requires forall i :: 0 <= i < |events| ==> events[i].thread < |programs|
    requires forall t :: 0 <= t < |programs| ==> Projection(events, t) == programs[t]
    ensures Executes(events, programs)
  {
  }

  /** Two threads that add one absent item can both be told that it is new. */
  lemma BothCanBeTold<K>(hasher: Hasher<K>, keys: seq<Hash>, words: seq<Word>, n: nat, item: K)
    requires AbsentTwice(hasher, keys, words, n, item)
    ensures var ps := Positions(hasher, keys, n, item);
            var events := [Event(0, ps[0]), Event(1, ps[0]), Event(1, ps[1]), Event(0, ps[1])];
            && InRange(events, n) && Executes(events, Programs(hasher, keys, n, [item, item]))
            && Returns(words, n, events, 0) && Returns(words, n, events, 1)
  {
    var ps := Positions(hasher, keys, n, item);
    TwiceTheItem(hasher, keys, words, n, item);
    hide Programs, Positions, Executes, Returns;
    BothToldAt(words, n, ps[0], ps[1]);
  }

  lemma BothToldAt(words: seq<Word>, n: nat, p: nat, q: nat)
    requires n <= 64 * |words| && p < n && q < n && p != q && !BitAt(words, p) && !BitAt(words, q)
    ensures var events := [Event(0, p), Event(1, p), Event(1, q), Event(0, q)];
            && InRange(events, n) && Executes(events, [[p, q], [p, q]])
            && Returns(words, n, events, 0) && Returns(words, n, events, 1)
  {
    hide Projection, BitAt, RunWords, Reports, Executes;
    var events := [Event(0, p), Event(1, p), Event(1, q), Event(0, q)];
    assert InRange(events, n);
    ProjectFour(events);
    FollowsPrograms(events, [[p, q], [p, q]]);
    ReportsFirst(words, n, events, 0);
    ReportsFirst(words, n, events, 2);
    assert Reports(words, n, events, 0) && Reports(words, n, events, 2);
  }

  /** A thread whose item is absent when it starts can be told that the item is not new. */
  lemma AbsentCanBeDenied<K>(hasher: Hasher<K>, keys: seq<Hash>, words: seq<Word>, n: nat, item: K)
    requires AbsentTwice(hasher, keys, words, n, item)
    ensures var ps := Positions(hasher, keys, n, item);
            var events := [Event(0, ps[0]), Event(1, ps[0]), Event(0, ps[1]), Event(1, ps[1])];
            && InRange(events, n) && InRange(events[..1], n)
               && Executes(events, Programs(hasher, keys, n, [item, item]))
            && !BitAt(RunWords(words, n, events[..1]), ps[1]) && !Returns(words, n, events, 1)
  {
    var ps := Positions(hasher, keys, n, item);
    TwiceTheItem(hasher, keys, words, n, item);
    hide Programs, Positions, Executes, Returns, RunWords;
    DeniedAt(words, n, ps[0], ps[1]);
  }

  lemma DeniedAt(words: seq<Word>, n: nat, p: nat, q: nat)
    requires n <= 64 * |words| && p < n && q < n && p != q && !BitAt(words, p) && !BitAt(words, q)
    ensures var events := [Event(0, p), Event(1, p), Event(0, q), Event(1, q)];
            && InRange(events, n) && InRange(events[..1], n) && Executes(events, [[p, q], [p, q]])
            && !BitAt(RunWords(words, n, events[..1]), q) && !Returns(words, n, events, 1)
  {
    hide Projection, BitAt, RunWords, Reports, Executes;
    var events := [Event(0, p), Event(1, p), Event(0, q), Event(1, q)];
    assert InRange(events, n);
    DenialExecutes(p, q);
    assert events[..1][0].pos == p && events[..3][2].pos == q;
    assert Touches(events[..1], p) && Touches(events[..3], q) && !Touches(events[..1], q);
    hide Touches, InRange;
    RunBits(words, n, events[..1], q);
    ReportsFirst(words, n, events, 1);
    ReportsFirst(words, n, events, 3);
  }

  lemma DenialExecutes(p: nat, q: nat)
    ensures Executes([Event(0, p), Event(1, p), Event(0, q), Event(1, q)], [[p, q], [p, q]])
  {
    hide Projection, Executes;
    var events := [Event(0, p), Event(1, p), Event(0, q), Event(1, q)];
    ProjectFour(events);
    FollowsPrograms(events, [[p, q], [p, q]]);
  }

  lemma ProjectFour(events: seq<Event>)
    requires |events| == 4
    ensures forall t :: Projection(events, t) ==
              (if events[0].thread == t then [events[0].pos] else [])
                + (if events[1].thread == t then [events[1].pos] else [])
              + (if events[2].thread == t then [events[2].pos] else [])
                + (if events[3].thread == t then [events[3].pos] else [])
  {
    var three, two, one := events[..3], events[..2], events[..1];
    assert three[..2] == two && two[..1] == one && one[..0] == [];
    forall t
      ensures Projection(one, t) == if events[0].thread == t then [events[0].pos] else []
      ensures Projection(two, t) == Projection(one, t) + if events[1].thread == t then [events[1].pos] else []
      ensures Projection(three, t) == Projection(two, t) + if events[2].thread == t then [events[2].pos] else []
    {
    }
  }

  // ---- lookups during additions

  /** A lookup that loads the bits one by one, each after some number of the steps. */
  predicate Finds(words: seq<Word>, n: nat, events: seq<Event>, ps: seq<nat>, times: seq<nat>)
    requires n <= 64 * |words| && InRange(events, n) && |times| == |ps|
    requires forall i :: 0 <= i < |ps| ==> ps[i] < n && times[i] <= |events|
  {
    forall i :: 0 <= i < |ps| ==> BitAt(RunWords(words, n, events[..times[i]]), ps[i])
  }

  /**
   * A lookup whose every load comes after a completed addition of its item, in the order of the word it
   * loads, finds the item, whatever else goes on.
   */
  lemma LookupFindsAdded(words: seq<Word>, n: nat, events: seq<Event>, ps: seq<nat>, times: seq<nat>, start: nat,
                         t: nat)
    requires n <= 64 * |words| && InRange(events, n) && |times| == |ps|
    requires forall i :: 0 <= i < |ps| ==> ps[i] < n && start <= times[i] <= |events|
    requires start <= |events| && multiset(Projection(events[..start], t)) == multiset(ps)
    ensures Finds(words, n, events, ps, times)
  {
    forall i | 0 <= i < |ps|
      ensures BitAt(RunWords(words, n, events[..times[i]]), ps[i])
    {
      assert ps[i] in multiset(ps) && ps[i] in multiset(Projection(events[..start], t));
      ProjectionHolds(events[..start], t, ps[i]);
      var j :| 0 <= j < start && events[..start][j] == Event(t, ps[i]);
      assert events[..times[i]][j].pos == ps[i];
      RunBits(words, n, events[..times[i]], ps[i]);
    }
  }

  /** A lookup finds an item only if each of its bits was set before or by a step before it was loaded. */
  lemma LookupExactly(words: seq<Word>, n: nat, events: seq<Event>, ps: seq<nat>, times: seq<nat>)
    requires n <= 64 * |words| && InRange(events, n) && |times| == |ps|
    requires forall i :: 0 <= i < |ps| ==> ps[i] < n && times[i] <= |events|
    ensures Finds(words, n, events, ps, times) <==>
              forall i :: 0 <= i < |ps| ==> BitAt(words, ps[i]) || Touches(events[..times[i]], ps[i])
  {
    forall i | 0 <= i < |ps|
      ensures BitAt(RunWords(words, n, events[..times[i]]), ps[i])
              <==> BitAt(words, ps[i]) || Touches(events[..times[i]], ps[i])
    {
      RunBits(words, n, events[..times[i]], ps[i]);
    }
  }
}
