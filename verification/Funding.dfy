/**
 * Funding benchmark accounts through a tree in which every funded account funds four more. The
 * number of accounts, the total to start with and every division by four come out exactly.
 */
module Funding {
  import opened Wrappers

  const MAX_SPENDS_PER_TX: nat := 4

  /** Counts and lamports are 64-bit; exceeding this panics. */
  const AMOUNT_LIMIT: nat := 0x1_0000_0000_0000_0000

  type Key(==, !new) = nat

  // ---- the shape of the tree

  function Pow4(n: nat): (r: nat)
    ensures r > 0
  {
    if n == 0 then 1 else 4 * Pow4(n - 1)
  }

  /** Accounts in `n` layers below the source. */
  function TreeKeys(n: nat): nat {
    if n == 0 then 0 else TreeKeys(n - 1) + Pow4(n)
  }

  /** Accounts, the source included, that have a layer below them and so send a transaction. */
  function TreeSenders(n: nat): nat {
    if n == 0 then 0 else TreeSenders(n - 1) + Pow4(n - 1)
  }

  /** A tree is a root with four trees of one layer less below it. */
  lemma {:induction false} TreeUnfolds(n: nat)
    ensures TreeKeys(n + 1) == 4 * (TreeKeys(n) + 1)
    ensures TreeSenders(n + 1) == 4 * TreeSenders(n) + 1
    ensures TreeKeys(n) == 4 * TreeSenders(n) && 3 * TreeSenders(n) == Pow4(n) - 1
  {
    if n == 0 {
      assert Pow4(0) == 1 && Pow4(1) == 4;
    } else {
      TreeUnfolds(n - 1);
    }
  }

  lemma {:induction false} TreeGrows(m: nat, n: nat)
    requires m <= n
    ensures TreeKeys(m) <= TreeKeys(n) && Pow4(m) <= Pow4(n)
    ensures m < n ==> TreeKeys(m) + Pow4(m + 1) <= TreeKeys(n)
    decreases n
  {
    if m < n {
      TreeGrows(m, n - 1);
      if m < n - 1 {
        TreeGrows(m + 1, n - 1);
      }
    }
  }

  // ---- how many keys to generate

  /** The least number of layers that holds `count` keys, as counts of keys and of senders; overflow panics. */
  method GenerateKeypairs(count: nat) returns (o: Outcome<(nat, nat)>, ghost layers: nat)
    ensures TreeKeys(layers) >= count && forall n: nat :: TreeKeys(n) >= count ==> layers <= n
    ensures TreeKeys(layers) <= 4 * count
    ensures o == if TreeKeys(layers) >= 0x1_0000_0000_0000_0000 then Panicked
                 else Returned((TreeKeys(layers), TreeSenders(layers)))
    ensures o.Panicked? <==> forall n: nat :: TreeKeys(n) >= count ==> TreeKeys(n) >= 0x1_0000_0000_0000_0000
    ensures o.Returned? ==> count <= o.value.0 < 0x1_0000_0000_0000_0000 && o.value.0 == 4 * o.value.1
    ensures o.Returned? ==> forall n: nat :: TreeKeys(n) >= count ==> o.value.0 <= TreeKeys(n)
  {
    layers := LeastLayers(count);
    forall n: nat | TreeKeys(n) >= count
      ensures TreeKeys(layers) <= TreeKeys(n)
    {
      TreeGrows(layers, n);
    }
    TreeUnfolds(layers);
    var totalKeys, extra, delta := 0, 0, 1;
    ghost var done := 0;
    while totalKeys < count
      invariant done <= layers && totalKeys == TreeKeys(done) && extra == TreeSenders(done) && delta == Pow4(done)
      invariant totalKeys < AMOUNT_LIMIT
      decreases layers - done
    {
      LayerBounds(done, layers);
      extra := extra + delta;
      if extra >= AMOUNT_LIMIT {
        return Panicked, layers;
      }
      delta := delta * MAX_SPENDS_PER_TX;
      if delta >= AMOUNT_LIMIT {
        return Panicked, layers;
      }
      totalKeys := totalKeys + delta;
      if totalKeys >= AMOUNT_LIMIT {
        return Panicked, layers;
      }
      done := done + 1;
    }
    assert done == layers;
    o := Returned((totalKeys, extra));
  }

  /** One more layer: its size and the number of senders are bounded by the keys of the whole tree. */
  lemma LayerBounds(done: nat, layers: nat)
    requires done < layers || TreeKeys(done) < TreeKeys(layers)
    ensures done < layers
    ensures TreeKeys(done + 1) == TreeKeys(done) + 4 * Pow4(done) <= TreeKeys(layers)
    ensures TreeSenders(done + 1) == TreeSenders(done) + Pow4(done) <= TreeKeys(done + 1)
  {
    if done >= layers {
      TreeGrows(layers, done);
    }
    TreeGrows(done + 1, layers);
    TreeUnfolds(done + 1);
  }

  lemma LeastLayers(count: nat) returns (layers: nat)
    ensures TreeKeys(layers) >= count && forall n: nat :: TreeKeys(n) >= count ==> layers <= n
    ensures TreeKeys(layers) <= 4 * count
  {
    layers := 0;
    while TreeKeys(layers) < count
      invariant layers > 0 ==> TreeKeys(layers - 1) < count
      decreases count - TreeKeys(layers)
    {
      layers := layers + 1;
    }
    if layers > 0 {
      TreeUnfolds(layers - 1);
    }
    forall n: nat | TreeKeys(n) >= count
      ensures layers <= n
    {
      if n < layers {
        TreeGrows(n, layers - 1);
      }
    }
  }

  /** A balance for every key and for the funding key, and the extra fees. */
  function TotalFunds(keys: nat, extra: nat, lamportsPerAccount: nat, maxFee: nat): nat {
    lamportsPerAccount * (keys + 1) + extra * maxFee
  }

  /** What a tree of `n` layers needs. */
  function TreeFunds(n: nat, lamportsPerAccount: nat, maxFee: nat): nat {
    TotalFunds(TreeKeys(n), TreeSenders(n), lamportsPerAccount, maxFee)
  }

  /** What is left after the root's own share is exactly four times what a subtree needs. */
  lemma FundsSplit(n: nat, lamportsPerAccount: nat, maxFee: nat)
    ensures TreeFunds(n + 1, lamportsPerAccount, maxFee)
            == lamportsPerAccount + maxFee + 4 * TreeFunds(n, lamportsPerAccount, maxFee)
  {
    TreeUnfolds(n);
    OneAndFour(lamportsPerAccount, TreeKeys(n) + 1);
    OneAndFour(maxFee, TreeSenders(n));
  }

  lemma OneAndFour(a: nat, x: nat)
    ensures a * (4 * x + 1) == (4 * x + 1) * a == a + 4 * (a * x) == a + 4 * (x * a)
  {
  }

  // ---- which numbers of keys and which totals can be funded

  /** What each account of layer `r` is given: what is left of the layer above in four equal parts, rounded down. */
  function FundsAt(total: nat, lamportsPerAccount: nat, maxFee: nat, r: nat): nat {
    if r == 0 then total
    else
      var above := FundsAt(total, lamportsPerAccount, maxFee, r - 1);
      if above < lamportsPerAccount + maxFee then 0 else (above - lamportsPerAccount - maxFee) / MAX_SPENDS_PER_TX
  }

  /** No round subtracts more than a funded account was given or drains more keys than are left. */
  predicate GoesThrough(funded: nat, notFunded: nat, funds: nat, lamportsPerAccount: nat, maxFee: nat)
    requires funded > 0
    decreases notFunded
  {
    notFunded == 0
    || (&& funds >= lamportsPerAccount + maxFee && notFunded >= 4 * funded
        && GoesThrough(4 * funded, notFunded - 4 * funded, (funds - lamportsPerAccount - maxFee) / 4,
                       lamportsPerAccount, maxFee))
  }

  /** A whole tree below layer `j`, and a share and a fee for each of its senders. */
  ghost predicate IsFundable(j: nat, n: nat, notFunded: nat, funds: nat, share: nat) {
    n >= j && notFunded == TreeKeys(n) - TreeKeys(j) && funds >= share * TreeSenders(n - j)
  }

  /** One layer down: a quarter of what is left suffices below exactly when the whole suffices here. */
  lemma FundableBelow(j: nat, n: nat, notFunded: nat, funds: nat, share: nat)
    requires notFunded >= Pow4(j + 1) && funds >= share
    ensures IsFundable(j, n, notFunded, funds, share) <==>
              IsFundable(j + 1, n, notFunded - Pow4(j + 1), (funds - share) / 4, share)
  {
    if n > j {
      TreeUnfolds(n - j - 1);
      OneAndFour(share, TreeSenders(n - j - 1));
    }
  }

  ghost predicate SomeFundable(j: nat, notFunded: nat, funds: nat, share: nat) {
    exists n: nat :: IsFundable(j, n, notFunded, funds, share)
  }

  lemma {:induction false} GoesFrom(j: nat, notFunded: nat, funds: nat, lamportsPerAccount: nat, maxFee: nat)
    ensures GoesThrough(Pow4(j), notFunded, funds, lamportsPerAccount, maxFee)
            <==> SomeFundable(j, notFunded, funds, lamportsPerAccount + maxFee)
    decreases notFunded
  {
    hide IsFundable;
    var share := lamportsPerAccount + maxFee;
    if notFunded == 0 {
      NothingToFund(j, funds, share);
    } else if notFunded < Pow4(j + 1) || funds < share {
      forall n: nat
        ensures !IsFundable(j, n, notFunded, funds, share)
      {
        NotFundable(j, n, notFunded, funds, share);
      }
    } else {
      GoesFrom(j + 1, notFunded - Pow4(j + 1), (funds - share) / 4, lamportsPerAccount, maxFee);
      SomeFundableBelow(j, notFunded, funds, share);
    }
  }

  lemma SomeFundableBelow(j: nat, notFunded: nat, funds: nat, share: nat)
    requires notFunded >= Pow4(j + 1) && funds >= share
    ensures SomeFundable(j, notFunded, funds, share)
            <==> SomeFundable(j + 1, notFunded - Pow4(j + 1), (funds - share) / 4, share)
  {
    hide IsFundable;
    var rest, below := notFunded - Pow4(j + 1), (funds - share) / 4;
    if SomeFundable(j, notFunded, funds, share) {
      var n: nat :| IsFundable(j, n, notFunded, funds, share);
      FundableBelow(j, n, notFunded, funds, share);
      assert IsFundable(j + 1, n, rest, below, share);
    }
    if SomeFundable(j + 1, rest, below, share) {
      var n: nat :| IsFundable(j + 1, n, rest, below, share);
      FundableBelow(j, n, notFunded, funds, share);
      assert IsFundable(j, n, notFunded, funds, share);
    }
  }

  lemma NothingToFund(j: nat, funds: nat, share: nat)
    ensures IsFundable(j, j, 0, funds, share)
  {
    assert share * TreeSenders(0) == 0;
  }

  lemma NotFundable(j: nat, n: nat, notFunded: nat, funds: nat, share: nat)
    requires 0 < notFunded && (notFunded < Pow4(j + 1) || funds < share)
    ensures !IsFundable(j, n, notFunded, funds, share)
  {
    if n > j {
      TreeGrows(j, n);
      assert TreeSenders(n - j) >= 1 by {
        TreeUnfolds(n - j - 1);
      }
      assert share * TreeSenders(n - j) >= share * 1;
    }
  }

  /**
   * Funding goes through exactly for the key counts that fill whole layers and the totals that hold a
   * balance and a fee for each sender.
   */
  lemma FundableExactly(keys: nat, total: nat, lamportsPerAccount: nat, maxFee: nat)
    ensures GoesThrough(1, keys, total, lamportsPerAccount, maxFee)
            <==> exists n: nat :: keys == TreeKeys(n) && total >= (lamportsPerAccount + maxFee) * TreeSenders(n)
  {
    var share := lamportsPerAccount + maxFee;
    GoesFrom(0, keys, total, lamportsPerAccount, maxFee);
    assert Pow4(0) == 1 && TreeKeys(0) == 0;
    if SomeFundable(0, keys, total, share) {
      var n: nat :| IsFundable(0, n, keys, total, share);
      assert keys == TreeKeys(n) && total >= share * TreeSenders(n);
    }
    if exists n: nat :: keys == TreeKeys(n) && total >= share * TreeSenders(n) {
      var n: nat :| keys == TreeKeys(n) && total >= share * TreeSenders(n);
      assert IsFundable(0, n, keys, total, share);
    }
  }

  // ---- the ledger

  predicate Distinct(keys: seq<Key>) {
    forall i, j :: 0 <= i < j < |keys| ==> keys[i] != keys[j]
  }

  /** A transaction: the sender and the accounts it pays. */
  datatype Transfer = Transfer(from: Key, dests: seq<Key>)

  class Bank {
    var balances: map<Key, nat>

    function Balance(k: Key): nat
      reads this
    {
      if k in balances then balances[k] else 0
    }

    /** Bring an account up to a desired balance. */
    method Airdrop(k: Key, desired: nat)
      modifies this
      ensures Balance(k) == (if old(Balance(k)) < desired then desired else old(Balance(k)))
      ensures forall k' :: k' != k ==> Balance(k') == old(Balance(k'))
    {
      if Balance(k) < desired {
        balances := balances[k := desired];
      }
    }

    /** Pay `amount` to every recipient, and the fee. */
    method TransferMany(tx: Transfer, amount: nat, fee: nat)
      requires Distinct(tx.dests) && tx.from !in tx.dests && Balance(tx.from) >= |tx.dests| * amount + fee
      modifies this
      ensures forall k :: Balance(k) == old(Balance(k)) - (if k == tx.from then |tx.dests| * amount + fee else 0)
                                        + (if k in tx.dests then amount else 0)
    {
      balances := balances[tx.from := Balance(tx.from) - |tx.dests| * amount - fee];
      for i := 0 to |tx.dests|
        invariant forall k :: Balance(k) == old(Balance(k)) - (if k == tx.from then |tx.dests| * amount + fee else 0)
                                            + (if k in tx.dests[..i] then amount else 0)
      {
        var k := tx.dests[i];
        assert k !in tx.dests[..i];
        balances := balances[k := Balance(k) + amount];
      }
    }
  }

  predicate Sends(txs: seq<Transfer>, k: Key) {
    exists q :: 0 <= q < |txs| && txs[q].from == k
  }

  predicate Receives(txs: seq<Transfer>, k: Key) {
    exists q :: 0 <= q < |txs| && k in txs[q].dests
  }

  /** No account sends twice, receives twice, or does both. */
  ghost predicate Independent(txs: seq<Transfer>) {
    && (forall q :: 0 <= q < |txs| ==> |txs[q].dests| == MAX_SPENDS_PER_TX && Distinct(txs[q].dests))
    && (forall p, q :: 0 <= p < q < |txs| ==> txs[p].from != txs[q].from)
    && (forall p, q, k :: 0 <= p < q < |txs| && k in txs[p].dests ==> k !in txs[q].dests)
    && (forall p, q :: 0 <= p < |txs| && 0 <= q < |txs| ==> txs[p].from !in txs[q].dests)
  }

  /** What the transactions change for account `k`. */
  ghost function Net(txs: seq<Transfer>, k: Key, amount: nat, fee: nat): int {
    (if Receives(txs, k) then amount else 0) - (if Sends(txs, k) then MAX_SPENDS_PER_TX * amount + fee else 0)
  }

  /** One more independent transaction: its accounts have not taken part before. */
  lemma NetStep(txs: seq<Transfer>, i: nat, amount: nat, fee: nat)
    requires Independent(txs) && i < |txs|
    ensures Net(txs[..i], txs[i].from, amount, fee) == 0
    ensures forall k :: Net(txs[..i + 1], k, amount, fee)
                        == Net(txs[..i], k, amount, fee) - (if k == txs[i].from then 4 * amount + fee else 0)
                           + (if k in txs[i].dests then amount else 0)
  {
    OneMore(txs, i);
    assert !Sends(txs[..i], txs[i].from) && !Receives(txs[..i], txs[i].from);
    assert forall k :: k in txs[i].dests ==> !Receives(txs[..i], k) && !Sends(txs[..i], k);
  }

  method SendAll(bank: Bank, txs: seq<Transfer>, amount: nat, fee: nat)
    requires Independent(txs)
    requires forall q :: 0 <= q < |txs| ==> bank.Balance(txs[q].from) >= MAX_SPENDS_PER_TX * amount + fee
    modifies bank
    ensures forall k :: bank.Balance(k) == old(bank.Balance(k)) + Net(txs, k, amount, fee)
  {
    assert forall k :: Net(txs[..0], k, amount, fee) == 0;
    hide Net;
    for i := 0 to |txs|
      invariant forall k :: bank.Balance(k) == old(bank.Balance(k)) + Net(txs[..i], k, amount, fee)
    {
      NetStep(txs, i, amount, fee);
      bank.TransferMany(txs[i], amount, fee);
    }
    assert txs[..|txs|] == txs;
  }

  lemma OneMore(txs: seq<Transfer>, i: nat)
    requires i < |txs|
    ensures forall k :: Sends(txs[..i + 1], k) <==> Sends(txs[..i], k) || k == txs[i].from
    ensures forall k :: Receives(txs[..i + 1], k) <==> Receives(txs[..i], k) || k in txs[i].dests
  {
    var a, b := txs[..i], txs[..i + 1];
    forall k
      ensures Sends(b, k) <==> Sends(a, k) || k == txs[i].from
      ensures Receives(b, k) <==> Receives(a, k) || k in txs[i].dests
    {
      if Sends(a, k) {
        var q :| 0 <= q < i && a[q].from == k;
        assert b[q].from == k;
      }
      if Receives(a, k) {
        var q :| 0 <= q < i && k in a[q].dests;
        assert k in b[q].dests;
      }
      assert b[i] == txs[i];
    }
  }

  // ---- a round

  /** Every funded account takes the last four accounts that are left; too few left panics. */
  method PlanRound(funded: seq<Key>, notFunded: seq<Key>)
    returns (ok: bool, toFund: seq<Transfer>, newFunded: seq<Key>, left: seq<Key>)
    ensures ok <==> |notFunded| >= MAX_SPENDS_PER_TX * |funded|
    ensures ok ==> IsPlan(funded, notFunded, toFund, newFunded)
    ensures ok ==> left == notFunded[..|notFunded| - MAX_SPENDS_PER_TX * |funded|]
  {
    ok, toFund, newFunded, left := true, [], [], notFunded;
    for i := 0 to |funded|
      invariant ok && 4 * i <= |notFunded| && left == notFunded[..|notFunded| - 4 * i]
      invariant IsPlan(funded[..i], notFunded, toFund, newFunded)
    {
      if |left| < MAX_SPENDS_PER_TX {
        ok := false;
        return;
      }
      var start := |left| - MAX_SPENDS_PER_TX;
      var dests := left[start..];
      assert dests == Chunk(notFunded, i);
      toFund := toFund + [Transfer(funded[i], dests)];
      newFunded := newFunded + dests;
      left := left[..start];
    }
    assert funded[..|funded|] == funded;
  }

  /** The `q`-th group of four, counted from the end. */
  function Chunk(keys: seq<Key>, q: nat): (r: seq<Key>)
    requires 4 * (q + 1) <= |keys|
    ensures |r| == 4
  {
    keys[|keys| - 4 * (q + 1)..|keys| - 4 * q]
  }

  /** The plan of a round. */
  ghost predicate IsPlan(funded: seq<Key>, notFunded: seq<Key>, toFund: seq<Transfer>, newFunded: seq<Key>) {
    && |notFunded| >= 4 * |funded| && |toFund| == |funded| && |newFunded| == 4 * |funded|
    && (forall q :: 0 <= q < |funded| ==> toFund[q] == Transfer(funded[q], Chunk(notFunded, q)))
    && (forall p :: 0 <= p < |newFunded| ==> newFunded[p] == Chunk(notFunded, p / 4)[p % 4])
  }

  lemma PlanSenders(funded: seq<Key>, notFunded: seq<Key>, toFund: seq<Transfer>, newFunded: seq<Key>)
    requires IsPlan(funded, notFunded, toFund, newFunded)
    ensures forall k :: Sends(toFund, k) <==> k in funded
  {
    forall k | k in funded
      ensures Sends(toFund, k)
    {
      var q :| 0 <= q < |funded| && funded[q] == k;
      assert toFund[q].from == k;
    }
  }

  /** The accounts paid are those drained, which are the last of those not funded. */
  lemma PlanRecipients(funded: seq<Key>, notFunded: seq<Key>, toFund: seq<Transfer>, newFunded: seq<Key>)
    requires IsPlan(funded, notFunded, toFund, newFunded)
    ensures forall k :: Receives(toFund, k) <==> k in newFunded
    ensures forall k :: k in newFunded <==> k in notFunded[|notFunded| - 4 * |funded|..]
  {
    var drained := notFunded[|notFunded| - 4 * |funded|..];
    hide IsPlan, Receives;
    forall k
      ensures Receives(toFund, k) ==> k in newFunded
      ensures k in newFunded ==> Receives(toFund, k) && k in drained
      ensures k in drained ==> k in newFunded
    {
      if Receives(toFund, k) {
        PaidIsNew(funded, notFunded, toFund, newFunded, k);
      }
      if k in newFunded {
        NewIsPaid(funded, notFunded, toFund, newFunded, k);
      }
      if k in drained {
        DrainedIsNew(funded, notFunded, toFund, newFunded, k);
      }
    }
  }

  lemma PaidIsNew(funded: seq<Key>, notFunded: seq<Key>, toFund: seq<Transfer>, newFunded: seq<Key>, k: Key)
    requires IsPlan(funded, notFunded, toFund, newFunded) && Receives(toFund, k)
    ensures k in newFunded
  {
    var q :| 0 <= q < |toFund| && k in toFund[q].dests;
    var r :| 0 <= r < 4 && Chunk(notFunded, q)[r] == k;
    PlanAt(funded, notFunded, toFund, newFunded, q, r);
  }

  lemma NewIsPaid(funded: seq<Key>, notFunded: seq<Key>, toFund: seq<Transfer>, newFunded: seq<Key>, k: Key)
    requires IsPlan(funded, notFunded, toFund, newFunded) && k in newFunded
    ensures Receives(toFund, k) && k in notFunded[|notFunded| - 4 * |funded|..]
  {
    var p :| 0 <= p < |newFunded| && newFunded[p] == k;
    PlanAt(funded, notFunded, toFund, newFunded, p / 4, p % 4);
  }

  lemma DrainedIsNew(funded: seq<Key>, notFunded: seq<Key>, toFund: seq<Transfer>, newFunded: seq<Key>, k: Key)
    requires IsPlan(funded, notFunded, toFund, newFunded) && k in notFunded[|notFunded| - 4 * |funded|..]
    ensures k in newFunded
  {
    var n := |notFunded|;
    var i :| n - 4 * |funded| <= i < n && notFunded[i] == k;
    var q := (n - 1 - i) / 4;
    PlanAt(funded, notFunded, toFund, newFunded, q, i - (n - 4 * (q + 1)));
  }

  /** The `r`-th account paid by the `q`-th sender, in each of the lists. */
  lemma PlanAt(funded: seq<Key>, notFunded: seq<Key>, toFund: seq<Transfer>, newFunded: seq<Key>, q: nat, r: nat)
    requires IsPlan(funded, notFunded, toFund, newFunded) && q < |funded| && r < 4
    ensures newFunded[4 * q + r] == Chunk(notFunded, q)[r] == notFunded[|notFunded| - 4 * (q + 1) + r]
    ensures newFunded[4 * q + r] in toFund[q].dests
    ensures newFunded[4 * q + r] in newFunded && newFunded[4 * q + r] in notFunded[|notFunded| - 4 * |funded|..]
  {
    assert (4 * q + r) / 4 == q && (4 * q + r) % 4 == r;
    assert notFunded[|notFunded| - 4 * |funded|..][4 * |funded| - 4 * (q + 1) + r] == newFunded[4 * q + r];
  }

  /** The transactions of a round are independent of one another. */
  lemma PlanFundsOnce(funded: seq<Key>, notFunded: seq<Key>, toFund: seq<Transfer>, newFunded: seq<Key>)
    requires IsPlan(funded, notFunded, toFund, newFunded) && Distinct(notFunded)
    ensures Distinct(newFunded)
  {
    var n := |notFunded|;
    forall p, p' | 0 <= p < p' < |newFunded|
      ensures newFunded[p] != newFunded[p']
    {
      assert newFunded[p] == notFunded[n - 4 * (p / 4 + 1) + p % 4];
      assert newFunded[p'] == notFunded[n - 4 * (p' / 4 + 1) + p' % 4];
    }
  }

  lemma PlanIsIndependent(funded: seq<Key>, notFunded: seq<Key>, toFund: seq<Transfer>, newFunded: seq<Key>)
    requires IsPlan(funded, notFunded, toFund, newFunded)
    requires Distinct(funded) && Distinct(notFunded) && forall k :: k in funded ==> k !in notFunded
    ensures Independent(toFund) && Distinct(newFunded)
  {
    forall p, q, k | 0 <= p < q < |toFund| && k in toFund[p].dests
      ensures k !in toFund[q].dests
    {
      ChunksDisjoint(notFunded, p, q, k);
    }
    PlanFundsOnce(funded, notFunded, toFund, newFunded);
    forall q | 0 <= q < |toFund|
      ensures |toFund[q].dests| == MAX_SPENDS_PER_TX && Distinct(toFund[q].dests)
      ensures forall k :: k in toFund[q].dests ==> k in notFunded
    {
      assert toFund[q].dests == Chunk(notFunded, q);
    }
  }

  lemma ChunksDisjoint(keys: seq<Key>, p: nat, q: nat, k: Key)
    requires p < q && 4 * (q + 1) <= |keys| && Distinct(keys) && k in Chunk(keys, p)
    ensures k !in Chunk(keys, q)
  {
    var i :| |keys| - 4 * (p + 1) <= i < |keys| - 4 * p && keys[i] == k;
  }

  // ---- all rounds

  /** Layer `r` of the tree over `dests`: the source, then the last four keys, the sixteen before them, and so on. */
  ghost predicate InLayer(k: Key, source: Key, dests: seq<Key>, r: nat) {
    if r == 0 then k == source
    else TreeKeys(r) <= |dests| && k in dests[|dests| - TreeKeys(r)..|dests| - TreeKeys(r - 1)]
  }

  /** What account `k` has gained after `r` rounds: what it was paid, less what it sent and the fee. */
  ghost function Gained(k: Key, source: Key, dests: seq<Key>, total: nat, lamportsPerAccount: nat, maxFee: nat,
                        fee: nat, r: nat): int
  {
    if r == 0 then 0
    else
      var paid := FundsAt(total, lamportsPerAccount, maxFee, r);
      Gained(k, source, dests, total, lamportsPerAccount, maxFee, fee, r - 1)
      - (if InLayer(k, source, dests, r - 1) then 4 * paid + fee else 0)
      + (if InLayer(k, source, dests, r) then paid else 0)
  }

  /** Layers are disjoint. */
  lemma LayersApart(k: Key, source: Key, dests: seq<Key>, r: nat, q: nat)
    requires Distinct(dests) && source !in dests && r < q && InLayer(k, source, dests, r)
    ensures !InLayer(k, source, dests, q)
  {
    var n := |dests|;
    if r > 0 && TreeKeys(q) <= n {
      TreeGrows(r, q - 1);
      TreeGrows(q - 1, q);
      TreeGrows(r - 1, r);
      var i :| n - TreeKeys(r) <= i < n - TreeKeys(r - 1) && dests[i] == k;
      forall j | n - TreeKeys(q) <= j < n - TreeKeys(q - 1)
        ensures dests[j] != k
      {
        assert j < i;
      }
    }
  }

  /** An account of layer `j` has gained what it was given, and once it has paid, what is left of that. */
  lemma {:induction false} GainedAt(k: Key, source: Key, dests: seq<Key>, total: nat, lamportsPerAccount: nat,
                                    maxFee: nat, fee: nat, j: nat, r: nat)
    requires Distinct(dests) && source !in dests && InLayer(k, source, dests, j)
    ensures Gained(k, source, dests, total, lamportsPerAccount, maxFee, fee, r)
            == (if 0 < j <= r then FundsAt(total, lamportsPerAccount, maxFee, j) else 0)
               - (if j < r then 4 * FundsAt(total, lamportsPerAccount, maxFee, j + 1) + fee else 0)
    decreases r
  {
    hide InLayer, FundsAt;
    if r > 0 {
      GainedAt(k, source, dests, total, lamportsPerAccount, maxFee, fee, j, r - 1);
      OnlyLayer(k, source, dests, j, r - 1);
      OnlyLayer(k, source, dests, j, r);
    }
  }

  lemma OnlyLayer(k: Key, source: Key, dests: seq<Key>, j: nat, r: nat)
    requires Distinct(dests) && source !in dests && InLayer(k, source, dests, j)
    ensures InLayer(k, source, dests, r) <==> r == j
  {
    if r < j && InLayer(k, source, dests, r) {
      LayersApart(k, source, dests, r, j);
    } else if j < r {
      LayersApart(k, source, dests, j, r);
    }
  }

  /** Nobody else gains or loses. */
  lemma {:induction false} OthersGainNothing(k: Key, source: Key, dests: seq<Key>, total: nat, lamportsPerAccount: nat,
                                             maxFee: nat, fee: nat, r: nat)
    requires k != source && k !in dests
    ensures Gained(k, source, dests, total, lamportsPerAccount, maxFee, fee, r) == 0
    decreases r
  {
    if r > 0 {
      OthersGainNothing(k, source, dests, total, lamportsPerAccount, maxFee, fee, r - 1);
    }
  }

  /** Where the funding stands after `r` rounds. */
  ghost predicate AfterRounds(source: Key, dests: seq<Key>, funded: seq<Key>, notFunded: seq<Key>, r: nat) {
    && TreeKeys(r) <= |dests| && notFunded == dests[..|dests| - TreeKeys(r)]
    && |funded| == Pow4(r) && Distinct(funded)
    && (forall k :: k in funded <==> InLayer(k, source, dests, r))
    && (forall k :: k in funded ==> k !in notFunded)
  }

  lemma RoundDone(source: Key, dests: seq<Key>, funded: seq<Key>, notFunded: seq<Key>, r: nat, newFunded: seq<Key>)
    requires AfterRounds(source, dests, funded, notFunded, r) && Distinct(dests)
    requires |notFunded| >= 4 * |funded| && |newFunded| == 4 * |funded| && Distinct(newFunded)
    requires forall k :: k in newFunded <==> k in notFunded[|notFunded| - 4 * |funded|..]
    ensures AfterRounds(source, dests, newFunded, notFunded[..|notFunded| - 4 * |funded|], r + 1)
  {
    var n, m := |dests|, |notFunded| - 4 * |funded|;
    assert TreeKeys(r + 1) == TreeKeys(r) + Pow4(r + 1) && Pow4(r + 1) == 4 * Pow4(r);
    assert m == n - TreeKeys(r + 1);
    assert notFunded[..m] == dests[..m] && notFunded[m..] == dests[m..n - TreeKeys(r)];
    forall k | k in newFunded
      ensures k !in notFunded[..m]
    {
      var i :| m <= i < n - TreeKeys(r) && dests[i] == k;
    }
  }

  /** One round: every funded account passes what it can on in four equal parts. */
  method FundRound(bank: Bank, funded: seq<Key>, notFunded: seq<Key>, toLamports: nat, fee: nat)
    returns (ok: bool, toFund: seq<Transfer>, newFunded: seq<Key>, left: seq<Key>)
    requires Distinct(funded) && Distinct(notFunded) && (forall k :: k in funded ==> k !in notFunded)
    requires forall k :: k in funded ==> bank.Balance(k) >= 4 * toLamports + fee
    modifies bank
    ensures ok <==> |notFunded| >= 4 * |funded|
    ensures !ok ==> bank.balances == old(bank.balances)
    ensures ok ==>
              && left == notFunded[..|notFunded| - 4 * |funded|]
              && |newFunded| == 4 * |funded| && Distinct(newFunded) && |toFund| == |funded| && Independent(toFund)
              && (forall k :: k in newFunded <==> k in notFunded[|notFunded| - 4 * |funded|..])
              && (forall k :: Receives(toFund, k) <==> k in newFunded)
              && (forall k ::
                    bank.Balance(k) == old(bank.Balance(k)) - (if k in funded then 4 * toLamports + fee else 0)
                                       + (if k in newFunded then toLamports else 0))
  {
    ok, toFund, newFunded, left := PlanRound(funded, notFunded);
    if ok {
      PlanSenders(funded, notFunded, toFund, newFunded);
      PlanRecipients(funded, notFunded, toFund, newFunded);
      PlanIsIndependent(funded, notFunded, toFund, newFunded);
      assert forall q :: 0 <= q < |toFund| ==> toFund[q].from in funded;
      SendAll(bank, toFund, toLamports, fee);
    }
  }

  /** What a funded account holds on top of its old balance covers what it has to send. */
  lemma SendersCanPay(source: Key, dests: seq<Key>, total: nat, lamportsPerAccount: nat, maxFee: nat, fee: nat,
                      r: nat, k: Key)
    requires Distinct(dests) && source !in dests && InLayer(k, source, dests, r) && fee <= maxFee
    requires FundsAt(total, lamportsPerAccount, maxFee, r) >= lamportsPerAccount + maxFee
    ensures Gained(k, source, dests, total, lamportsPerAccount, maxFee, fee, r) + (if k == source then total else 0)
            >= 4 * FundsAt(total, lamportsPerAccount, maxFee, r + 1) + fee
  {
    GainedAt(k, source, dests, total, lamportsPerAccount, maxFee, fee, r, r);
    if r > 0 && k == source {
      assert InLayer(k, source, dests, 0);
      LayersApart(k, source, dests, 0, r);
    }
  }

  /**
   * Fund `dests` from `source` layer by layer. It panics exactly when it cannot go through; every
   * account has then gained what the finished rounds gave it. Otherwise every key is paid exactly once.
   */
  method FundKeys(bank: Bank, source: Key, dests: seq<Key>, total: nat, maxFee: nat, fee: nat, lamportsPerAccount: nat)
    returns (o: Outcome<seq<Transfer>>, ghost rounds: nat)
    requires Distinct(dests) && source !in dests && fee <= maxFee && bank.Balance(source) >= total
    modifies bank
    ensures o.Panicked? <==> !GoesThrough(1, |dests|, total, lamportsPerAccount, maxFee)
    ensures forall k :: bank.Balance(k) == old(bank.Balance(k))
                                           + Gained(k, source, dests, total, lamportsPerAccount, maxFee, fee, rounds)
    ensures o.Panicked? ==>
              && TreeKeys(rounds) < |dests|
              && (|| FundsAt(total, lamportsPerAccount, maxFee, rounds) < lamportsPerAccount + maxFee
                  || |dests| < TreeKeys(rounds + 1))
    ensures o.Returned? ==>
              && |dests| == TreeKeys(rounds) && |o.value| == TreeSenders(rounds)
              && PaidOnce(o.value) && forall k :: Receives(o.value, k) <==> k in dests
  {
    hide TreeKeys, TreeSenders, Pow4, Independent, PaidOnce, Receives, InLayer, Distinct, FundsAt, Gained, GoesThrough;
    var funded, fundedFunds, notFunded := [source], total, dests;
    var sent: seq<Transfer> := [];
    rounds := 0;
    NothingFunded(source, dests);
    NothingGained(source, dests, total, lamportsPerAccount, maxFee, fee);
    while notFunded != []
      invariant AfterRounds(source, dests, funded, notFunded, rounds) && Distinct(notFunded)
      invariant |funded| > 0 && fundedFunds == FundsAt(total, lamportsPerAccount, maxFee, rounds)
      invariant GoesThrough(1, |dests|, total, lamportsPerAccount, maxFee)
                <==> GoesThrough(|funded|, |notFunded|, fundedFunds, lamportsPerAccount, maxFee)
      invariant forall k :: bank.Balance(k) == old(bank.Balance(k))
                  + Gained(k, source, dests, total, lamportsPerAccount, maxFee, fee, rounds)
      invariant |sent| == TreeSenders(rounds) && PaidOnce(sent)
      invariant forall k :: Receives(sent, k) <==> k in dests && k !in notFunded
      decreases |notFunded|
    {
      GoesStep(|funded|, |notFunded|, fundedFunds, lamportsPerAccount, maxFee);
      if fundedFunds < lamportsPerAccount + maxFee {
        return Panicked, rounds;
      }
      var toLamports := (fundedFunds - lamportsPerAccount - maxFee) / MAX_SPENDS_PER_TX;
      GainedStep(source, dests, total, lamportsPerAccount, maxFee, fee, rounds);
      forall k | k in funded
        ensures bank.Balance(k) >= 4 * toLamports + fee
      {
        SendersCanPay(source, dests, total, lamportsPerAccount, maxFee, fee, rounds, k);
      }
      var ok, toFund, newFunded, left := FundRound(bank, funded, notFunded, toLamports, fee);
      LayerBounds(rounds, rounds + 1);
      if !ok {
        return Panicked, rounds;
      }
      RoundDone(source, dests, funded, notFunded, rounds, newFunded);
      LogStep(sent, toFund, dests, notFunded, left, newFunded);
      SendersGrow(rounds);
      sent := sent + toFund;
      funded, fundedFunds, notFunded := newFunded, toLamports, left;
      rounds := rounds + 1;
    }
    GoesStep(|funded|, |notFunded|, fundedFunds, lamportsPerAccount, maxFee);
    o := Returned(sent);
  }

  lemma GoesStep(funded: nat, notFunded: nat, funds: nat, lamportsPerAccount: nat, maxFee: nat)
    requires funded > 0
    ensures GoesThrough(funded, notFunded, funds, lamportsPerAccount, maxFee) <==>
              || notFunded == 0
              || (&& funds >= lamportsPerAccount + maxFee && notFunded >= 4 * funded
                  && GoesThrough(4 * funded, notFunded - 4 * funded, (funds - lamportsPerAccount - maxFee) / 4,
                                 lamportsPerAccount, maxFee))
  {
  }

  lemma NothingGained(source: Key, dests: seq<Key>, total: nat, lamportsPerAccount: nat, maxFee: nat, fee: nat)
    ensures FundsAt(total, lamportsPerAccount, maxFee, 0) == total
    ensures forall k :: Gained(k, source, dests, total, lamportsPerAccount, maxFee, fee, 0) == 0
  {
  }

  lemma GainedStep(source: Key, dests: seq<Key>, total: nat, lamportsPerAccount: nat, maxFee: nat, fee: nat, r: nat)
    requires FundsAt(total, lamportsPerAccount, maxFee, r) >= lamportsPerAccount + maxFee
    ensures FundsAt(total, lamportsPerAccount, maxFee, r + 1)
            == (FundsAt(total, lamportsPerAccount, maxFee, r) - lamportsPerAccount - maxFee) / 4
    ensures forall k :: Gained(k, source, dests, total, lamportsPerAccount, maxFee, fee, r + 1)
                        == Gained(k, source, dests, total, lamportsPerAccount, maxFee, fee, r)
                           - (if InLayer(k, source, dests, r)
                              then 4 * FundsAt(total, lamportsPerAccount, maxFee, r + 1) + fee else 0)
                           + (if InLayer(k, source, dests, r + 1)
                              then FundsAt(total, lamportsPerAccount, maxFee, r + 1) else 0)
  {
  }

  lemma NothingFunded(source: Key, dests: seq<Key>)
    requires Distinct(dests) && source !in dests
    ensures AfterRounds(source, dests, [source], dests, 0)
    ensures PaidOnce([]) && TreeSenders(0) == 0 && forall k :: !Receives([], k)
  {
    assert dests[..|dests|] == dests && TreeKeys(0) == 0;
  }

  lemma SendersGrow(r: nat)
    ensures TreeSenders(r + 1) == TreeSenders(r) + Pow4(r) && Pow4(r) > 0
  {
  }

  /** A round adds its payments to those made before. */
  lemma LogStep(sent: seq<Transfer>, toFund: seq<Transfer>, dests: seq<Key>, notFunded: seq<Key>, left: seq<Key>,
                newFunded: seq<Key>)
    requires PaidOnce(sent) && Independent(toFund) && Distinct(notFunded) && left <= notFunded
    requires forall k :: k in notFunded ==> k in dests
    requires forall k :: Receives(sent, k) <==> k in dests && k !in notFunded
    requires forall k :: Receives(toFund, k) <==> k in newFunded
    requires forall k :: k in newFunded <==> k in notFunded[|left|..]
    ensures PaidOnce(sent + toFund) && Distinct(left)
    ensures forall k :: Receives(sent + toFund, k) <==> k in dests && k !in left
  {
    assert notFunded == left + notFunded[|left|..];
    forall k | k in notFunded
      ensures k in notFunded[|left|..] <==> k !in left
    {
      var i :| 0 <= i < |notFunded| && notFunded[i] == k;
      forall j | 0 <= j < |notFunded| && j != i
        ensures notFunded[j] != k
      {
      }
    }
    hide Receives;
    LogGrows(sent, toFund);
  }

  // ---- the totals the generator asks for

  /** What each account gains: its balance, plus what a sender's fee left over. */
  function Share(sender: bool, lamportsPerAccount: nat, maxFee: nat, fee: nat): nat
    requires fee <= maxFee
  {
    lamportsPerAccount + (if sender then maxFee - fee else 0)
  }

  /** Every division comes out exactly. */
  lemma {:induction false} FundsAreExact(n: nat, lamportsPerAccount: nat, maxFee: nat, r: nat)
    requires r <= n
    ensures FundsAt(TreeFunds(n, lamportsPerAccount, maxFee), lamportsPerAccount, maxFee, r)
            == TreeFunds(n - r, lamportsPerAccount, maxFee)
    decreases r
  {
    hide TreeFunds;
    if r > 0 {
      FundsAreExact(n, lamportsPerAccount, maxFee, r - 1);
      FundsSplit(n - r, lamportsPerAccount, maxFee);
    }
  }

  /** The layer of a key by its position: the first keys are the last layer. */
  lemma {:induction false} LayerOf(i: nat, n: nat) returns (j: nat)
    requires i < TreeKeys(n)
    ensures 0 < j <= n && TreeKeys(n) - TreeKeys(j) <= i < TreeKeys(n) - TreeKeys(j - 1)
    ensures j == n <==> i < Pow4(n)
  {
    j := n;
    while TreeKeys(n) - TreeKeys(j - 1) <= i
      invariant 0 < j <= n && TreeKeys(n) - TreeKeys(j) <= i && (j < n ==> i >= Pow4(n))
      decreases j
    {
      j := j - 1;
    }
  }

  /**
   * With the total the generator asks for, funding goes through, every account gains exactly its
   * balance, and every sender what its fee left over besides.
   */
  lemma FundingIsExact(source: Key, dests: seq<Key>, n: nat, lamportsPerAccount: nat, maxFee: nat, fee: nat, i: nat)
    requires Distinct(dests) && source !in dests && |dests| == TreeKeys(n) && i < |dests| && fee <= maxFee
    ensures var total := TreeFunds(n, lamportsPerAccount, maxFee);
            && Gained(source, source, dests, total, lamportsPerAccount, maxFee, fee, n)
               == Share(true, lamportsPerAccount, maxFee, fee) - total
            && Gained(dests[i], source, dests, total, lamportsPerAccount, maxFee, fee, n)
               == Share(i >= Pow4(n), lamportsPerAccount, maxFee, fee)
  {
    hide FundsAt, Gained, Distinct, TreeFunds, TreeKeys, Pow4, InLayer;
    var total := TreeFunds(n, lamportsPerAccount, maxFee);
    var j := KeyLayer(source, dests, n, i);
    GainedAt(dests[i], source, dests, total, lamportsPerAccount, maxFee, fee, j, n);
    GainedAt(source, source, dests, total, lamportsPerAccount, maxFee, fee, 0, n);
    LayerKeeps(n, lamportsPerAccount, maxFee, fee, 0);
    LayerKeeps(n, lamportsPerAccount, maxFee, fee, j);
    FundsAreExact(n, lamportsPerAccount, maxFee, 0);
  }

  lemma KeyLayer(source: Key, dests: seq<Key>, n: nat, i: nat) returns (j: nat)
    requires |dests| == TreeKeys(n) && i < |dests|
    ensures 0 < j <= n && InLayer(dests[i], source, dests, j) && InLayer(source, source, dests, 0)
    ensures j == n <==> i < Pow4(n)
  {
    j := LayerOf(i, n);
    TreeGrows(j, n);
    assert dests[i] in dests[|dests| - TreeKeys(j)..|dests| - TreeKeys(j - 1)];
  }

  lemma LayerKeeps(n: nat, lamportsPerAccount: nat, maxFee: nat, fee: nat, j: nat)
    requires j <= n && fee <= maxFee
    ensures var total := TreeFunds(n, lamportsPerAccount, maxFee);
            FundsAt(total, lamportsPerAccount, maxFee, j)
            - (if j < n then 4 * FundsAt(total, lamportsPerAccount, maxFee, j + 1) + fee else 0)
            == Share(j < n, lamportsPerAccount, maxFee, fee)
  {
    FundsAreExact(n, lamportsPerAccount, maxFee, j);
    if j < n {
      hide TreeFunds;
      FundsAreExact(n, lamportsPerAccount, maxFee, j + 1);
      FundsSplit(n - j - 1, lamportsPerAccount, maxFee);
    } else {
      assert TreeFunds(0, lamportsPerAccount, maxFee) == lamportsPerAccount;
    }
  }

  lemma EnoughForSenders(l: nat, f: nat, s: nat)
    ensures l * (4 * s + 1) + s * f >= (l + f) * s
  {
    assert (l + f) * s == l * s + s * f;
    assert l * (4 * s + 1) == l * s + l * (3 * s + 1);
  }

  lemma TreeGoesThrough(n: nat, lamportsPerAccount: nat, maxFee: nat)
    ensures GoesThrough(1, TreeKeys(n), TreeFunds(n, lamportsPerAccount, maxFee), lamportsPerAccount, maxFee)
  {
    hide GoesThrough, TreeKeys, TreeSenders;
    TreeUnfolds(n);
    EnoughForSenders(lamportsPerAccount, maxFee, TreeSenders(n));
    FundableExactly(TreeKeys(n), TreeFunds(n, lamportsPerAccount, maxFee), lamportsPerAccount, maxFee);
  }

  /** What is spent on top of what the accounts gain is exactly one fee per transaction. */
  lemma {:induction false} FundsConserved(layers: nat, lamportsPerAccount: nat, maxFee: nat, fee: nat)
    requires layers > 0 && fee <= maxFee
    ensures Pow4(layers) <= TreeKeys(layers)
    ensures TreeFunds(layers, lamportsPerAccount, maxFee)
            == Share(true, lamportsPerAccount, maxFee, fee) * TreeSenders(layers)
               + Share(false, lamportsPerAccount, maxFee, fee) * Pow4(layers)
               + fee * TreeSenders(layers)
  {
    TreeUnfolds(layers);
    var l, s, p := lamportsPerAccount, TreeSenders(layers), Pow4(layers);
    assert TreeKeys(layers) + 1 == s + p;
    Expand(l, s, p, maxFee, fee);
  }

  lemma Expand(l: nat, s: nat, p: nat, maxFee: nat, fee: nat)
    requires fee <= maxFee
    ensures l * (s + p) + s * maxFee == (l + (maxFee - fee)) * s + l * p + fee * s
  {
    assert (l + (maxFee - fee)) * s == l * s + maxFee * s - fee * s;
  }

  /** The 64-bit products and sums of the funding overflow. */
  predicate Overflows(layers: nat, lamportsPerAccount: nat, maxFee: nat, funds: bool) {
    || TreeKeys(layers) >= 0x1_0000_0000_0000_0000
    || 8 * lamportsPerAccount >= 0x1_0000_0000_0000_0000
    || (funds && TreeFunds(layers, lamportsPerAccount, maxFee) >= 0x1_0000_0000_0000_0000)
  }

  /**
   * Generate enough keys to fill whole layers, fund them unless the first and the last wanted key
   * still hold four fifths of their balance, and return the keys that were asked for. It panics
   * exactly when no key is asked for, an amount exceeds 64 bits, or the funding account falls short and
   * there is no faucet, and then nothing has been paid.
   */
  method GenerateAndFundKeypairs(bank: Bank, fundingKey: Key, generated: seq<Key>, keypairCount: nat,
                                 maxFee: nat, fee: nat, lamportsPerAccount: nat, hasFaucet: bool)
    returns (o: Outcome<seq<Key>>, ghost layers: nat)
    requires |generated| >= 4 * keypairCount && Distinct(generated) && fundingKey !in generated && fee <= maxFee
    modifies bank
    ensures keypairCount <= TreeKeys(layers) <= |generated|
    ensures forall n: nat :: TreeKeys(n) >= keypairCount ==> layers <= n
    ensures var enough := 8 * lamportsPerAccount / 10;
            var funds := keypairCount > 0 && !(&& old(bank.Balance(generated[0])) >= enough
                                               && old(bank.Balance(generated[keypairCount - 1])) >= enough);
            && (o.Panicked? <==>
                  || keypairCount == 0
                  || Overflows(layers, lamportsPerAccount, maxFee, funds)
                  || (&& funds && !hasFaucet
                      && old(bank.Balance(fundingKey)) < TreeFunds(layers, lamportsPerAccount, maxFee)))
            && (o.Returned? ==> o.value == generated[..keypairCount])
            && if o.Panicked? || !funds then bank.balances == old(bank.balances)
               else
                 var total := TreeFunds(layers, lamportsPerAccount, maxFee);
                 var held := if old(bank.Balance(fundingKey)) < total then total else old(bank.Balance(fundingKey));
                 && bank.Balance(fundingKey) == held - total + Share(true, lamportsPerAccount, maxFee, fee)
                 && (forall i :: 0 <= i < TreeKeys(layers) ==>
                       bank.Balance(generated[i])
                       == old(bank.Balance(generated[i])) + Share(i >= Pow4(layers), lamportsPerAccount, maxFee, fee))
                 && (forall k :: k != fundingKey && k !in generated[..TreeKeys(layers)] ==>
                       bank.Balance(k) == old(bank.Balance(k)))
  {
    hide TreeKeys, TreeSenders, Pow4, Share, PaidOnce, Receives, GoesThrough, Gained, FundsAt, TotalFunds;
    var sizes;
    sizes, layers := GenerateKeypairs(keypairCount);
    if sizes.Panicked? {
      return Panicked, layers;
    }
    var (totalKeys, extra) := sizes.value;
    var keys := generated[..totalKeys];
    if keypairCount == 0 || 8 * lamportsPerAccount >= AMOUNT_LIMIT {
      return Panicked, layers;
    }
    var enough := 8 * lamportsPerAccount / 10;
    if bank.Balance(keys[0]) < enough || bank.Balance(keys[keypairCount - 1]) < enough {
      TotalOverflow(|keys|, extra, lamportsPerAccount, maxFee);
      if extra * maxFee >= AMOUNT_LIMIT || lamportsPerAccount * (|keys| + 1) >= AMOUNT_LIMIT {
        return Panicked, layers;
      }
      var total := TotalFunds(|keys|, extra, lamportsPerAccount, maxFee);
      if total >= AMOUNT_LIMIT {
        return Panicked, layers;
      }
      if bank.Balance(fundingKey) < total {
        if !hasFaucet {
          return Panicked, layers;
        }
        bank.Airdrop(fundingKey, total);
      }
      TreeGoesThrough(layers, lamportsPerAccount, maxFee);
      var funded;
      ghost var rounds;
      funded, rounds := FundKeys(bank, fundingKey, keys, total, maxFee, fee, lamportsPerAccount);
      SameLayers(rounds, layers);
      forall i | 0 <= i < totalKeys
        ensures generated[i] == keys[i] != fundingKey
      {
      }
      GainsOfAll(fundingKey, keys, layers, lamportsPerAccount, maxFee, fee);
    }
    o := Returned(generated[..keypairCount]);
  }

  lemma TotalOverflow(keys: nat, extra: nat, lamportsPerAccount: nat, maxFee: nat)
    ensures TotalFunds(keys, extra, lamportsPerAccount, maxFee) >= extra * maxFee
    ensures TotalFunds(keys, extra, lamportsPerAccount, maxFee) >= lamportsPerAccount * (keys + 1)
  {
  }

  lemma SameLayers(m: nat, n: nat)
    requires TreeKeys(m) == TreeKeys(n)
    ensures m == n
  {
    if m < n {
      TreeGrows(m, n);
    } else if n < m {
      TreeGrows(n, m);
    }
  }

  lemma GainsOfAll(source: Key, dests: seq<Key>, n: nat, lamportsPerAccount: nat, maxFee: nat, fee: nat)
    requires Distinct(dests) && source !in dests && |dests| == TreeKeys(n) > 0 && fee <= maxFee
    ensures var total := TreeFunds(n, lamportsPerAccount, maxFee);
            && Gained(source, source, dests, total, lamportsPerAccount, maxFee, fee, n)
               == Share(true, lamportsPerAccount, maxFee, fee) - total
            && (forall i :: 0 <= i < |dests| ==>
                  Gained(dests[i], source, dests, total, lamportsPerAccount, maxFee, fee, n)
                  == Share(i >= Pow4(n), lamportsPerAccount, maxFee, fee))
            && (forall k :: k != source && k !in dests ==>
                  Gained(k, source, dests, total, lamportsPerAccount, maxFee, fee, n) == 0)
  {
    hide Gained, TreeFunds, TreeKeys, Share, Pow4;
    var total := TreeFunds(n, lamportsPerAccount, maxFee);
    FundingIsExact(source, dests, n, lamportsPerAccount, maxFee, fee, 0);
    forall i | 0 <= i < |dests|
      ensures Gained(dests[i], source, dests, total, lamportsPerAccount, maxFee, fee, n)
              == Share(i >= Pow4(n), lamportsPerAccount, maxFee, fee)
    {
      FundingIsExact(source, dests, n, lamportsPerAccount, maxFee, fee, i);
    }
    forall k | k != source && k !in dests
      ensures Gained(k, source, dests, total, lamportsPerAccount, maxFee, fee, n) == 0
    {
      OthersGainNothing(k, source, dests, total, lamportsPerAccount, maxFee, fee, n);
    }
  }

  /** No account is paid by two transactions. */
  ghost predicate PaidOnce(txs: seq<Transfer>) {
    forall p, q, k :: 0 <= p < q < |txs| && k in txs[p].dests ==> k !in txs[q].dests
  }

  lemma LogGrows(sent: seq<Transfer>, toFund: seq<Transfer>)
    requires PaidOnce(sent) && PaidOnce(toFund) && forall k :: Receives(sent, k) ==> !Receives(toFund, k)
    ensures PaidOnce(sent + toFund)
    ensures forall k :: Receives(sent + toFund, k) <==> Receives(sent, k) || Receives(toFund, k)
  {
    var both := sent + toFund;
    assert forall q :: 0 <= q < |sent| ==> both[q] == sent[q];
    assert forall q :: 0 <= q < |toFund| ==> both[|sent| + q] == toFund[q];
    forall p, q, k | 0 <= p < q < |both| && k in both[p].dests
      ensures k !in both[q].dests
    {
      if p < |sent| <= q {
        assert Receives(sent, k);
        assert !Receives(toFund, k);
        assert both[q] == toFund[q - |sent|];
      } else if |sent| <= p {
        assert both[p] == toFund[p - |sent|] && both[q] == toFund[q - |sent|];
      }
    }
  }
}
