/**
 * The order in which workspace crates must be published: every crate after the crates it depends on.
 * The script looks at dependencies with one name prefix only, so what it promises for the whole
 * workspace depends on the dependencies it drops.
 */
module CrateOrder {

  type Name = string

  datatype Package = Package(name: Name, manifestPath: string, dependencies: seq<Name>)

  datatype Outcome =
    | Ordered(order: seq<(Name, string)>)
    | DirectCycle(pairs: set<set<Name>>)
    | SuspectedCycle(remaining: seq<Name>)

  type Graph = map<Name, seq<Name>>

  predicate StartsWith(s: string, prefix: string) {
    prefix <= s
  }

  // ---- the dependency graph

  function SolanaOnly(names: seq<Name>): seq<Name> {
    if names == [] then []
    else (if StartsWith(names[0], "solana") then [names[0]] else []) + SolanaOnly(names[1..])
  }

  /** Each package with its dependencies of interest; a later package of the same name replaces an earlier one. */
  function GraphOf(packages: seq<Package>): Graph {
    if packages == [] then map[]
    else
      var last := packages[|packages| - 1];
      GraphOf(packages[..|packages| - 1])[last.name := SolanaOnly(last.dependencies)]
  }

  function ManifestsOf(packages: seq<Package>): map<Name, string> {
    if packages == [] then map[]
    else
      var last := packages[|packages| - 1];
      ManifestsOf(packages[..|packages| - 1])[last.name := last.manifestPath]
  }

  lemma {:induction false} SolanaOnlyExact(names: seq<Name>, x: Name)
    ensures x in SolanaOnly(names) <==> x in names && StartsWith(x, "solana")
  {
    if names != [] {
      SolanaOnlyExact(names[1..], x);
    }
  }

  ghost predicate IsSolana(x: Name) {
    exists rest: string :: x == "solana" + rest
  }

  lemma PrefixIsSolana(x: Name)
    ensures StartsWith(x, "solana") <==> IsSolana(x)
  {
    if StartsWith(x, "solana") {
      assert x == "solana" + x[6..];
    }
  }

  /** A package is recorded as its last listing gives it, with the dependencies that start with the prefix. */
  lemma {:induction false} RecordedIsLast(packages: seq<Package>, k: nat, x: Name)
    requires k < |packages| && forall j :: k < j < |packages| ==> packages[j].name != packages[k].name
    ensures packages[k].name in GraphOf(packages) && packages[k].name in ManifestsOf(packages)
    ensures ManifestsOf(packages)[packages[k].name] == packages[k].manifestPath
    ensures x in GraphOf(packages)[packages[k].name]
            <==> x in packages[k].dependencies && exists rest: string :: x == "solana" + rest
  {
    var n := |packages| - 1;
    if k == n {
      SolanaOnlyExact(packages[k].dependencies, x);
      PrefixIsSolana(x);
    } else {
      RecordedIsLast(packages[..n], k, x);
    }
  }

  /** Each package with all its dependencies: what publishing really has to respect. */
  function WorkspaceOf(packages: seq<Package>): Graph {
    if packages == [] then map[]
    else
      var last := packages[|packages| - 1];
      WorkspaceOf(packages[..|packages| - 1])[last.name := last.dependencies]
  }

  lemma {:induction false} RecordedIsFiltered(packages: seq<Package>, a: Name)
    ensures a in GraphOf(packages) <==> a in WorkspaceOf(packages)
    ensures a in GraphOf(packages) ==> GraphOf(packages)[a] == SolanaOnly(WorkspaceOf(packages)[a])
  {
    if packages != [] {
      RecordedIsFiltered(packages[..|packages| - 1], a);
    }
  }

  /** `a` depends on `b`, and both are in the graph. */
  ghost predicate Edge(g: Graph, a: Name, b: Name) {
    a in g && b in g && b in g[a]
  }

  ghost predicate IsPath(g: Graph, p: seq<Name>) {
    forall i :: 0 <= i < |p| - 1 ==> Edge(g, p[i], p[i + 1])
  }

  /** Some crate depends on itself through a chain of dependencies. */
  ghost predicate Cyclic(g: Graph) {
    exists p: seq<Name> :: |p| >= 2 && p[0] == p[|p| - 1] && IsPath(g, p)
  }

  // ---- the graph in terms of the listings

  /** Package `k` is the last listing of its name. */
  ghost predicate IsLast(packages: seq<Package>, k: int) {
    0 <= k < |packages| && forall j :: k < j < |packages| ==> packages[j].name != packages[k].name
  }

  /** Package `k` depends on package `j`, both in their last listings. */
  ghost predicate Needs(packages: seq<Package>, k: int, j: int) {
    IsLast(packages, k) && IsLast(packages, j) && packages[j].name in packages[k].dependencies
  }

  lemma {:induction false} WorkspaceIsLast(packages: seq<Package>, k: nat)
    requires IsLast(packages, k)
    ensures packages[k].name in WorkspaceOf(packages)
    ensures WorkspaceOf(packages)[packages[k].name] == packages[k].dependencies
    decreases |packages|
  {
    var n := |packages| - 1;
    if k < n {
      assert IsLast(packages[..n], k);
      WorkspaceIsLast(packages[..n], k);
    }
  }

  lemma {:induction false} HasLast(packages: seq<Package>, x: Name) returns (k: nat)
    requires x in WorkspaceOf(packages)
    ensures IsLast(packages, k) && packages[k].name == x
    decreases |packages|
  {
    var n := |packages| - 1;
    k := n;
    if packages[n].name != x {
      k := HasLast(packages[..n], x);
      assert packages[..n][k] == packages[k];
      assert forall j :: k < j < n ==> packages[..n][j] == packages[j];
    }
  }

  /** The workspace has exactly the dependencies between last listings. */
  lemma WorkspaceEdges(packages: seq<Package>, a: Name, b: Name)
    ensures Edge(WorkspaceOf(packages), a, b) <==>
              exists k, j :: Needs(packages, k, j) && packages[k].name == a && packages[j].name == b
  {
    hide WorkspaceOf;
    if Edge(WorkspaceOf(packages), a, b) {
      var k := HasLast(packages, a);
      var j := HasLast(packages, b);
      WorkspaceIsLast(packages, k);
      assert Needs(packages, k, j);
    }
    forall k, j | Needs(packages, k, j) && packages[k].name == a && packages[j].name == b
      ensures Edge(WorkspaceOf(packages), a, b)
    {
      WorkspaceIsLast(packages, k);
      WorkspaceIsLast(packages, j);
    }
  }

  /** The recorded graph has those of them whose target has the prefix. */
  lemma GraphEdges(packages: seq<Package>, a: Name, b: Name)
    ensures Edge(GraphOf(packages), a, b) <==>
              && (exists k, j :: Needs(packages, k, j) && packages[k].name == a && packages[j].name == b)
              && exists rest: string :: b == "solana" + rest
  {
    WorkspaceEdges(packages, a, b);
    KeptEdges(packages, a, b);
    hide Needs, Edge;
  }

  // ---- orders

  predicate Distinct(names: seq<Name>) {
    forall i, j :: 0 <= i < j < |names| ==> names[i] != names[j]
  }

  lemma DistinctJoin(a: seq<Name>, b: seq<Name>)
    requires Distinct(a) && Distinct(b) && forall x :: x in a ==> x !in b
    ensures Distinct(a + b)
  {
    forall i, j | 0 <= i < j < |a + b|
      ensures (a + b)[i] != (a + b)[j]
    {
      if i < |a| <= j {
        assert a[i] in a && b[j - |a|] in b;
      }
    }
  }

  /** Every crate comes after the crates it depends on. */
  ghost predicate DependenciesFirst(g: Graph, order: seq<Name>) {
    forall i, d :: 0 <= i < |order| && Edge(g, order[i], d) ==> d in order[..i]
  }

  ghost predicate IsOrder(g: Graph, order: seq<Name>) {
    Distinct(order) && (forall x :: x in order <==> x in g) && DependenciesFirst(g, order)
  }

  /** Along a path, crates come strictly earlier in the order. */
  lemma {:induction false} PathDescends(g: Graph, order: seq<Name>, p: seq<Name>, i: nat) returns (j: nat)
    requires IsOrder(g, order) && |p| >= 2 && IsPath(g, p) && i < |order| && order[i] == p[0]
    ensures j < i && order[j] == p[|p| - 1]
    decreases |p|
  {
    assert Edge(g, p[0], p[1]);
    var k :| 0 <= k < i && order[k] == p[1];
    if |p| == 2 {
      j := k;
    } else {
      var q := p[1..];
      assert IsPath(g, q) by {
        forall m | 0 <= m < |q| - 1
          ensures Edge(g, q[m], q[m + 1])
        {
          assert Edge(g, p[m + 1], p[m + 2]);
        }
      }
      j := PathDescends(g, order, q, k);
    }
  }

  /** A graph with such an order has no cycle. */
  lemma OrderedIsAcyclic(g: Graph, order: seq<Name>)
    requires IsOrder(g, order)
    ensures !Cyclic(g)
  {
    forall p: seq<Name> | |p| >= 2 && p[0] == p[|p| - 1] && IsPath(g, p)
      ensures false
    {
      assert Edge(g, p[0], p[1]);
      var i :| 0 <= i < |order| && order[i] == p[0];
      var j := PathDescends(g, order, p, i);
    }
  }

  // ---- depth and listing order

  /** A chain of `n` dependencies starts at `x`. */
  ghost predicate HasChain(g: Graph, x: Name, n: nat) {
    exists p: seq<Name> :: |p| == n + 1 && p[0] == x && IsPath(g, p)
  }

  lemma ChainOfNone(g: Graph, x: Name)
    ensures HasChain(g, x, 0)
  {
    assert IsPath(g, [x]) && |[x]| == 1;
  }

  /** A longer chain starts with a dependency that a chain starts at. */
  lemma ChainStep(g: Graph, x: Name, n: nat)
    ensures HasChain(g, x, n + 1) <==> exists d :: Edge(g, x, d) && HasChain(g, d, n)
  {
    if HasChain(g, x, n + 1) {
      var p: seq<Name> :| |p| == n + 2 && p[0] == x && IsPath(g, p);
      PathTail(g, p);
      assert |p[1..]| == n + 1 && p[1..][0] == p[1];
      assert Edge(g, p[0], p[0 + 1]) && HasChain(g, p[1], n);
    }
    forall d | Edge(g, x, d) && HasChain(g, d, n)
      ensures HasChain(g, x, n + 1)
    {
      var q: seq<Name> :| |q| == n + 1 && q[0] == d && IsPath(g, q);
      PathGrows(g, x, q);
      assert |[x] + q| == n + 2 && ([x] + q)[0] == x;
    }
  }

  lemma PathTail(g: Graph, p: seq<Name>)
    requires IsPath(g, p) && p != []
    ensures IsPath(g, p[1..]) && IsPath(g, p[..|p| - 1])
  {
    forall i | 0 <= i < |p[1..]| - 1
      ensures Edge(g, p[1..][i], p[1..][i + 1])
    {
      assert Edge(g, p[i + 1], p[i + 1 + 1]);
    }
  }

  lemma PathGrows(g: Graph, x: Name, q: seq<Name>)
    requires q != [] && IsPath(g, q) && Edge(g, x, q[0])
    ensures IsPath(g, [x] + q)
  {
    var p := [x] + q;
    forall i | 0 <= i < |p| - 1
      ensures Edge(g, p[i], p[i + 1])
    {
      if i > 0 {
        assert Edge(g, q[i - 1], q[i - 1 + 1]);
      }
    }
  }

  lemma {:induction false} ChainShortens(g: Graph, x: Name, m: nat, n: nat)
    requires m <= n && HasChain(g, x, n)
    ensures HasChain(g, x, m)
    decreases n
  {
    if m < n {
      var p: seq<Name> :| |p| == n + 1 && p[0] == x && IsPath(g, p);
      PathTail(g, p);
      assert |p[..n]| == n && p[..n][0] == x;
      assert HasChain(g, x, n - 1);
      ChainShortens(g, x, m, n - 1);
    }
  }

  /** Where a package is first listed. */
  function FirstListing(packages: seq<Package>, x: Name): nat {
    if packages == [] || packages[0].name == x then 0 else 1 + FirstListing(packages[1..], x)
  }

  lemma {:induction false} FirstListingIs(packages: seq<Package>, x: Name, i: nat)
    requires i < |packages| && packages[i].name == x && forall j :: 0 <= j < i ==> packages[j].name != x
    ensures FirstListing(packages, x) == i
  {
    if i > 0 {
      FirstListingIs(packages[1..], x, i - 1);
    }
  }

  /** All chains from `b` are shorter than some chain from `a`. */
  ghost predicate Shallower(g: Graph, b: Name, a: Name) {
    exists n: nat :: HasChain(g, a, n) && !HasChain(g, b, n)
  }

  ghost predicate SameDepth(g: Graph, b: Name, a: Name) {
    forall n: nat :: HasChain(g, a, n) <==> HasChain(g, b, n)
  }

  /** `b` is published before `a`: it lies less deep, or as deep and is listed first. */
  ghost predicate Earlier(g: Graph, packages: seq<Package>, b: Name, a: Name) {
    Shallower(g, b, a) || (SameDepth(g, b, a) && FirstListing(packages, b) < FirstListing(packages, a))
  }

  lemma EarlierIsStrict(g: Graph, packages: seq<Package>, b: Name, a: Name)
    requires Earlier(g, packages, b, a)
    ensures !Earlier(g, packages, a, b)
  {
    hide HasChain;
    if Shallower(g, b, a) {
      var n: nat :| HasChain(g, a, n) && !HasChain(g, b, n);
      forall m: nat | HasChain(g, b, m)
        ensures HasChain(g, a, m)
      {
        if m <= n {
          ChainShortens(g, a, m, n);
        } else {
          ChainShortens(g, b, n, m);
        }
      }
    }
  }

  /** The names in the order of their first listing. */
  ghost predicate AsListed(packages: seq<Package>, names: seq<Name>) {
    forall i, j :: 0 <= i < j < |names| ==> FirstListing(packages, names[i]) < FirstListing(packages, names[j])
  }

  lemma AsListedAppends(packages: seq<Package>, names: seq<Name>, i: nat, some: seq<Name>)
    requires AsListed(packages, names) && i < |names| && AsListed(packages, some)
    requires forall x :: x in some ==> x in names[..i]
    ensures AsListed(packages, some + [names[i]])
  {
    var more := some + [names[i]];
    forall k, l | 0 <= k < l < |more|
      ensures FirstListing(packages, more[k]) < FirstListing(packages, more[l])
    {
      if l == |some| {
        assert some[k] in names[..i];
        var m :| 0 <= m < i && names[m] == some[k];
      }
    }
  }

  /** The names of the first `i` packages, each once and in the order of their first listing. */
  ghost predicate Seen(packages: seq<Package>, names: seq<Name>, i: nat)
    requires i <= |packages|
  {
    && AsListed(packages, names)
    && (forall x :: x in names ==> FirstListing(packages, x) < i)
    && (forall j :: 0 <= j < i ==> packages[j].name in names)
  }

  lemma SeesNone(packages: seq<Package>)
    ensures Seen(packages, [], 0)
  {
  }

  lemma SeenIsAsListed(packages: seq<Package>, names: seq<Name>)
    requires Seen(packages, names, |packages|)
    ensures AsListed(packages, names)
  {
  }

  lemma SeesOneMore(packages: seq<Package>, names: seq<Name>, i: nat)
    requires i < |packages| && Seen(packages, names, i)
    ensures Seen(packages, if packages[i].name in names then names else names + [packages[i].name], i + 1)
  {
    if packages[i].name !in names {
      FirstListingIs(packages, packages[i].name, i);
    }
  }

  ghost predicate Sorted(g: Graph, packages: seq<Package>, order: seq<Name>) {
    forall i, j :: 0 <= i < j < |order| ==> Earlier(g, packages, order[i], order[j])
  }

  // ---- getting stuck

  /** Every one of these crates still waits for another of them. */
  ghost predicate Stuck(g: Graph, names: seq<Name>) {
    forall x :: x in names ==> exists d :: d in names && Edge(g, x, d)
  }

  ghost function NextOf(g: Graph, names: seq<Name>, x: Name): (d: Name)
    requires Stuck(g, names) && x in names
    ensures d in names && Edge(g, x, d)
  {
    var d :| d in names && Edge(g, x, d);
    d
  }

  /** A walk of `k` steps that never leaves the stuck crates. */
  ghost function Walk(g: Graph, names: seq<Name>, x: Name, k: nat): (w: seq<Name>)
    requires Stuck(g, names) && x in names
    ensures |w| == k + 1 && w[0] == x && forall y :: y in w ==> y in names
    decreases k
  {
    if k == 0 then [x] else [x] + Walk(g, names, NextOf(g, names, x), k - 1)
  }

  lemma {:induction false} WalkIsPath(g: Graph, names: seq<Name>, x: Name, k: nat)
    requires Stuck(g, names) && x in names
    ensures IsPath(g, Walk(g, names, x, k))
    decreases k
  {
    hide Stuck;
    if k > 0 {
      var y := NextOf(g, names, x);
      var rest := Walk(g, names, y, k - 1);
      WalkIsPath(g, names, y, k - 1);
      var w := Walk(g, names, x, k);
      forall i | 0 <= i < |w| - 1
        ensures Edge(g, w[i], w[i + 1])
      {
        if i > 0 {
          assert w[i] == rest[i - 1] && w[i + 1] == rest[i];
        }
      }
    }
  }

  /** A sequence longer than the set it draws from repeats an element. */
  lemma {:induction false} Pigeonhole(w: seq<Name>, s: set<Name>) returns (i: nat, j: nat)
    requires |w| > |s| && forall y :: y in w ==> y in s
    ensures i < j < |w| && w[i] == w[j]
    decreases |w|
  {
    var last := w[|w| - 1];
    var init := w[..|w| - 1];
    if last in init {
      i :| 0 <= i < |init| && init[i] == last;
      j := |w| - 1;
    } else {
      assert |s - {last}| == |s| - 1;
      i, j := Pigeonhole(init, s - {last});
    }
  }

  /** A path that comes back to a crate contains a cycle. */
  lemma RepeatIsCycle(g: Graph, w: seq<Name>, i: nat, j: nat)
    requires IsPath(g, w) && i < j < |w| && w[i] == w[j]
    ensures Cyclic(g)
  {
    var p := w[i..j + 1];
    forall m | 0 <= m < |p| - 1
      ensures Edge(g, p[m], p[m + 1])
    {
      assert Edge(g, w[i + m], w[i + m + 1]);
    }
    assert IsPath(g, p);
    assert |p| >= 2 && p[0] == p[|p| - 1];
  }

  /** Crates that all wait for one another contain a cycle. */
  lemma StuckIsCyclic(g: Graph, names: seq<Name>)
    requires names != [] && Stuck(g, names)
    ensures Cyclic(g)
  {
    hide Stuck, IsPath, Cyclic, Walk;
    var s := set x | x in names;
    var w := Walk(g, names, names[0], |s|);
    WalkIsPath(g, names, names[0], |s|);
    var i, j := Pigeonhole(w, s);
    RepeatIsCycle(g, w, i, j);
  }

  /** Crates that wait for one another are never among crates listed after their dependencies. */
  lemma {:induction false} StuckStaysOut(g: Graph, order: seq<Name>, names: seq<Name>, i: nat)
    requires DependenciesFirst(g, order) && Stuck(g, names) && i < |order|
    ensures order[i] !in names
  {
    hide Stuck;
    if order[i] in names {
      var d := NextOf(g, names, order[i]);
      var j :| 0 <= j < i && order[j] == d;
      StuckStaysOut(g, order, names, j);
    }
  }

  // ---- the script

  ghost predicate DirectPair(g: Graph, a: Name, b: Name) {
    Edge(g, a, b) && Edge(g, b, a)
  }

  lemma DirectIsCyclic(g: Graph, a: Name, b: Name)
    requires DirectPair(g, a, b)
    ensures Cyclic(g)
  {
    var p := [a, b, a];
    assert IsPath(g, p);
    assert |p| >= 2 && p[0] == p[|p| - 1];
  }

  /** Packages in the order they were first seen, with what is recorded for each. */
  method ReadPackages(packages: seq<Package>) returns (names: seq<Name>, graph: Graph, manifests: map<Name, string>)
    ensures graph == GraphOf(packages) && manifests == ManifestsOf(packages) && graph.Keys == manifests.Keys
    ensures Distinct(names) && AsListed(packages, names) && forall x :: x in names <==> x in graph
  {
    hide SolanaOnly, Seen;
    SeesNone(packages);
    names, graph, manifests := [], map[], map[];
    for i := 0 to |packages|
      invariant graph == GraphOf(packages[..i]) && manifests == ManifestsOf(packages[..i])
                && graph.Keys == manifests.Keys
      invariant Distinct(names) && forall x :: x in names <==> x in graph
      invariant Seen(packages, names, i)
    {
      var pkg := packages[i];
      assert packages[..i + 1][..i] == packages[..i];
      SeesOneMore(packages, names, i);
      if pkg.name !in names {
        names := names + [pkg.name];
      }
      manifests := manifests[pkg.name := pkg.manifestPath];
      graph := graph[pkg.name := SolanaOnly(pkg.dependencies)];
    }
    assert packages[..|packages|] == packages;
    SeenIsAsListed(packages, names);
  }

  /** Pairs of crates that depend on each other, one crate on itself included. */
  method DirectCycles(names: seq<Name>, graph: Graph) returns (pairs: set<set<Name>>)
    requires forall x :: x in names <==> x in graph
    ensures forall a, b :: DirectPair(graph, a, b) ==> {a, b} in pairs
    ensures forall s :: s in pairs ==> exists a, b :: s == {a, b} && DirectPair(graph, a, b)
  {
    pairs := {};
    for i := 0 to |names|
      invariant forall a, b :: a in names[..i] && DirectPair(graph, a, b) ==> {a, b} in pairs
      invariant forall s :: s in pairs ==> exists a, b :: s == {a, b} && DirectPair(graph, a, b)
    {
      var package := names[i];
      var dependencies := graph[package];
      for j := 0 to |dependencies|
        invariant forall a, b :: a in names[..i] && DirectPair(graph, a, b) ==> {a, b} in pairs
        invariant forall b :: b in dependencies[..j] && DirectPair(graph, package, b) ==> {package, b} in pairs
        invariant forall s :: s in pairs ==> exists a, b :: s == {a, b} && DirectPair(graph, a, b)
      {
        var dependency := dependencies[j];
        if dependency in graph && package in graph[dependency] {
          assert DirectPair(graph, package, dependency);
          pairs := pairs + {{package, dependency}};
        }
      }
    }
  }

  /** Where the ordering loop stands: what is listed, what remains, and how many rounds are left. */
  ghost predicate Progress(g: Graph, listed: seq<Name>, remaining: seq<Name>, rounds: nat) {
    && Distinct(listed)
    && Distinct(remaining)
    && (forall x :: x in g <==> x in listed || x in remaining)
    && (forall x :: x in listed ==> x !in remaining)
    && DependenciesFirst(g, listed)
    && (Stuck(g, remaining) || rounds >= |remaining|)
  }

  ghost predicate NoneOf(names: seq<Name>, remaining: seq<Name>) {
    forall d :: d in names ==> d !in remaining
  }

  /** One layer: exactly the crates that wait for none that remains. */
  ghost predicate IsLayer(g: Graph, remaining: seq<Name>, layer: seq<Name>)
    requires forall x :: x in remaining ==> x in g
  {
    Distinct(layer) && forall x :: x in layer <==> x in remaining && NoneOf(g[x], remaining)
  }

  lemma LayerKeepsOrder(g: Graph, listed: seq<Name>, remaining: seq<Name>, layer: seq<Name>, rounds: nat)
    requires Progress(g, listed, remaining, rounds) && IsLayer(g, remaining, layer)
    ensures Distinct(listed + layer) && DependenciesFirst(g, listed + layer)
  {
    hide Stuck;
    DistinctJoin(listed, layer);
    var order := listed + layer;
    forall i, d | 0 <= i < |order| && Edge(g, order[i], d)
      ensures d in order[..i]
    {
      if i < |listed| {
        assert order[i] == listed[i] && order[..i] == listed[..i];
      } else {
        assert order[i] in layer && d in listed;
        assert order[..|listed|] == listed && order[..i] == listed + order[|listed|..i];
      }
    }
  }

  /** A round lists at least one crate, unless the remaining crates are stuck. */
  lemma RoundAdvances(g: Graph, remaining: seq<Name>, layer: seq<Name>)
    requires (forall x :: x in remaining ==> x in g) && IsLayer(g, remaining, layer)
    ensures Stuck(g, remaining) <==> layer == []
  {
    if layer == [] {
      forall x | x in remaining
        ensures exists d :: d in remaining && Edge(g, x, d)
      {
        assert x !in layer;
        var d :| d in g[x] && d in remaining;
        assert Edge(g, x, d);
      }
    } else {
      var x := layer[0];
      assert x in layer;
      assert forall d :: d in remaining ==> !Edge(g, x, d);
      assert !Stuck(g, remaining);
    }
  }

  /** After `done` rounds what remains are the crates that a chain of that length starts at, as they were listed. */
  ghost predicate AtDepth(g: Graph, packages: seq<Package>, listed: seq<Name>, remaining: seq<Name>, done: nat) {
    && (forall x :: x in remaining <==> x in g && HasChain(g, x, done))
    && (forall x :: x in listed ==> !HasChain(g, x, done))
    && AsListed(packages, remaining) && Sorted(g, packages, listed)
  }

  lemma StartsAtDepth(g: Graph, packages: seq<Package>, names: seq<Name>)
    requires AsListed(packages, names) && forall x :: x in names <==> x in g
    ensures AtDepth(g, packages, [], names, 0)
  {
    forall x
      ensures HasChain(g, x, 0)
    {
      ChainOfNone(g, x);
    }
  }

  /** A layer holds the crates whose longest chain has this length. */
  lemma LayerIsDepth(g: Graph, remaining: seq<Name>, done: nat, layer: seq<Name>)
    requires forall x :: x in remaining <==> x in g && HasChain(g, x, done)
    requires IsLayer(g, remaining, layer)
    ensures forall x :: x in layer <==> x in g && HasChain(g, x, done) && !HasChain(g, x, done + 1)
  {
    hide HasChain;
    forall x | x in remaining
      ensures NoneOf(g[x], remaining) <==> !HasChain(g, x, done + 1)
    {
      ChainStep(g, x, done);
      if !NoneOf(g[x], remaining) {
        var d :| d in g[x] && d in remaining;
        assert Edge(g, x, d) && HasChain(g, d, done);
      }
      if HasChain(g, x, done + 1) {
        var d :| Edge(g, x, d) && HasChain(g, d, done);
        assert d in g[x] && d in remaining;
      }
    }
  }

  lemma LayerIsSorted(g: Graph, packages: seq<Package>, done: nat, x: Name, y: Name)
    requires HasChain(g, x, done) && !HasChain(g, x, done + 1) && HasChain(g, y, done) && !HasChain(g, y, done + 1)
    ensures SameDepth(g, x, y)
  {
    hide HasChain;
    forall n: nat
      ensures HasChain(g, y, n) <==> HasChain(g, x, n)
    {
      if n <= done {
        ChainShortens(g, x, n, done);
        ChainShortens(g, y, n, done);
      } else {
        if HasChain(g, x, n) {
          ChainShortens(g, x, done + 1, n);
        }
        if HasChain(g, y, n) {
          ChainShortens(g, y, done + 1, n);
        }
      }
    }
  }

  lemma RoundDeepens(g: Graph, packages: seq<Package>, listed: seq<Name>, remaining: seq<Name>, done: nat,
                     layer: seq<Name>, rest: seq<Name>)
    requires AtDepth(g, packages, listed, remaining, done) && IsLayer(g, remaining, layer)
    requires AsListed(packages, layer) && AsListed(packages, rest)
    requires forall x :: x in rest <==> x in remaining && x !in layer
    ensures AtDepth(g, packages, listed + layer, rest, done + 1)
  {
    LayerIsDepth(g, remaining, done, layer);
    hide HasChain, IsLayer, NoneOf;
    forall x
      ensures HasChain(g, x, done + 1) ==> HasChain(g, x, done)
    {
      if HasChain(g, x, done + 1) {
        ChainShortens(g, x, done, done + 1);
      }
    }
    SortedAppends(g, packages, listed, done, layer);
  }

  lemma SortedAppends(g: Graph, packages: seq<Package>, listed: seq<Name>, done: nat, layer: seq<Name>)
    requires Sorted(g, packages, listed) && AsListed(packages, layer)
    requires forall x :: x in listed ==> !HasChain(g, x, done)
    requires forall x :: x in layer ==> HasChain(g, x, done) && !HasChain(g, x, done + 1)
    ensures Sorted(g, packages, listed + layer)
  {
    hide HasChain;
    var order := listed + layer;
    forall i, j | 0 <= i < j < |order|
      ensures Earlier(g, packages, order[i], order[j])
    {
      if i < |listed| <= j {
        assert order[i] in listed && order[j] in layer;
        assert Shallower(g, order[i], order[j]);
      } else if |listed| <= i {
        assert order[i] in layer && order[j] in layer;
        LayerIsSorted(g, packages, done, order[i], order[j]);
      }
    }
  }

  function NamesOf(order: seq<(Name, string)>): seq<Name> {
    seq(|order|, i requires 0 <= i < |order| => order[i].0)
  }

  ghost predicate Located(manifests: map<Name, string>, order: seq<(Name, string)>) {
    forall i :: 0 <= i < |order| ==> order[i].0 in manifests && order[i].1 == manifests[order[i].0]
  }

  lemma NoneLocated(manifests: map<Name, string>)
    ensures NamesOf([]) == [] && Located(manifests, [])
  {
  }

  lemma OneLocated(manifests: map<Name, string>, x: Name)
    requires x in manifests
    ensures NamesOf([(x, manifests[x])]) == [x] && Located(manifests, [(x, manifests[x])])
  {
  }

  lemma LocatedAppends(manifests: map<Name, string>, a: seq<(Name, string)>, b: seq<(Name, string)>)
    requires Located(manifests, a) && Located(manifests, b)
    ensures Located(manifests, a + b) && NamesOf(a + b) == NamesOf(a) + NamesOf(b)
  {
  }

  /** What the script promises of an outcome. */
  ghost predicate Correct(g: Graph, manifests: map<Name, string>, r: Outcome) {
    match r
    case Ordered(order) =>
      && IsOrder(g, NamesOf(order))
      && Located(manifests, order)
    case DirectCycle(pairs) =>
      && pairs != {}
      && (forall a, b :: DirectPair(g, a, b) ==> {a, b} in pairs)
      && (forall s :: s in pairs ==> exists a, b :: s == {a, b} && DirectPair(g, a, b))
    case SuspectedCycle(remaining) =>
      && (forall a, b :: !DirectPair(g, a, b))
      && remaining != []
      && Stuck(g, remaining)
      && (forall names :: Stuck(g, names) ==> forall x :: x in names && x in g ==> x in remaining)
  }

  lemma StartsInProgress(g: Graph, names: seq<Name>)
    requires Distinct(names) && forall x :: x in names <==> x in g
    ensures |names| * |names| >= |names| && Progress(g, [], names, |names| * |names|)
  {
    assert |names| == 0 || |names| * |names| >= 1 * |names|;
  }

  lemma RoundKeeps(g: Graph, listed: seq<Name>, remaining: seq<Name>, layer: seq<Name>, rest: seq<Name>, rounds: nat)
    requires Progress(g, listed, remaining, rounds) && rounds > 0 && IsLayer(g, remaining, layer)
    requires Distinct(rest) && forall x :: x in rest <==> x in remaining && x !in layer
    requires layer == [] ==> rest == remaining
    requires layer != [] ==> |rest| < |remaining|
    ensures Progress(g, listed + layer, rest, rounds - 1)
  {
    hide Stuck, Distinct, DependenciesFirst;
    LayerKeepsOrder(g, listed, remaining, layer, rounds);
    RoundAdvances(g, remaining, layer);
    assert layer == [] ==> listed + layer == listed;
  }

  /** When the rounds run out, what remains is stuck and holds every stuck crate. */
  lemma GuardIsRight(g: Graph, listed: seq<Name>, remaining: seq<Name>)
    requires Progress(g, listed, remaining, 0) && remaining != []
    ensures Stuck(g, remaining)
    ensures forall names :: Stuck(g, names) ==> forall x :: x in names && x in g ==> x in remaining
  {
    forall names, x | Stuck(g, names) && x in names && x in g
      ensures x in remaining
    {
      if x in listed {
        var i :| 0 <= i < |listed| && listed[i] == x;
        StuckStaysOut(g, listed, names, i);
      }
    }
  }

  /** Whether none of the dependencies is among the crates that remain. */
  method IsReady(dependencies: seq<Name>, remaining: seq<Name>) returns (ready: bool)
    ensures ready <==> NoneOf(dependencies, remaining)
  {
    for i := 0 to |dependencies|
      invariant forall d :: d in dependencies[..i] ==> d !in remaining
    {
      if dependencies[i] in remaining {
        return false;
      }
    }
    return true;
  }

  /** Lists the crates of one layer: those that wait for none that remains. */
  method Layer(graph: Graph, manifests: map<Name, string>, remaining: seq<Name>, ghost packages: seq<Package>)
    returns (deleted: seq<Name>, appended: seq<(Name, string)>)
    requires Distinct(remaining) && AsListed(packages, remaining)
    requires (forall x :: x in remaining ==> x in graph) && graph.Keys == manifests.Keys
    ensures IsLayer(graph, remaining, deleted) && AsListed(packages, deleted)
    ensures NamesOf(appended) == deleted && Located(manifests, appended)
  {
    hide NamesOf, Located, NoneOf, AsListed;
    NoneListed(packages);
    NoneLocated(manifests);
    deleted, appended := [], [];
    for i := 0 to |remaining|
      invariant Distinct(deleted) && AsListed(packages, deleted)
      invariant forall x :: x in deleted <==> x in remaining[..i] && NoneOf(graph[x], remaining)
      invariant NamesOf(appended) == deleted && Located(manifests, appended)
    {
      var package := remaining[i];
      if package in deleted {
        continue;
      }
      var ready := IsReady(graph[package], remaining);
      if ready {
        AsListedAppends(packages, remaining, i, deleted);
        deleted := deleted + [package];
        OneLocated(manifests, package);
        LocatedAppends(manifests, appended, [(package, manifests[package])]);
        appended := appended + [(package, manifests[package])];
      }
    }
  }

  lemma NoneListed(packages: seq<Package>)
    ensures AsListed(packages, [])
  {
  }

  method Without(names: seq<Name>, deleted: seq<Name>, ghost packages: seq<Package>) returns (rest: seq<Name>)
    requires Distinct(names) && AsListed(packages, names)
    ensures AsListed(packages, rest)
    ensures Distinct(rest) && forall x :: x in rest <==> x in names && x !in deleted
    ensures |rest| <= |names| && ((exists x :: x in names && x in deleted) ==> |rest| < |names|)
    ensures (forall x :: x in names ==> x !in deleted) ==> rest == names
  {
    hide AsListed;
    NoneListed(packages);
    rest := [];
    for i := 0 to |names|
      invariant AsListed(packages, rest)
      invariant Distinct(rest) && forall x :: x in rest <==> x in names[..i] && x !in deleted
      invariant |rest| <= i && ((exists x :: x in names[..i] && x in deleted) ==> |rest| < i)
      invariant (forall x :: x in names[..i] ==> x !in deleted) ==> rest == names[..i]
    {
      if names[i] !in deleted {
        AsListedAppends(packages, names, i, rest);
        rest := rest + [names[i]];
      }
    }
    assert names[..|names|] == names;
  }

  /** Publishes in layers, for at most as many rounds as the square of the number of crates. */
  method OrderLayers(names: seq<Name>, graph: Graph, manifests: map<Name, string>, ghost packages: seq<Package>)
    returns (r: Outcome)
    requires Distinct(names) && AsListed(packages, names) && (forall x :: x in names <==> x in graph)
             && graph.Keys == manifests.Keys
    requires forall a, b :: !DirectPair(graph, a, b)
    ensures Correct(graph, manifests, r) && !r.DirectCycle?
    ensures r.Ordered? ==> Sorted(graph, packages, NamesOf(r.order))
  {
    hide Stuck, DirectPair, NoneOf, Distinct, DependenciesFirst, NamesOf, Located, HasChain, AsListed, Sorted;
    NoneLocated(manifests);
    StartsInProgress(graph, names);
    StartsAtDepth(graph, packages, names);
    ghost var done := 0;
    var order: seq<(Name, string)> := [];
    var remaining := names;
    var rounds: nat := |names| * |names|;
    while remaining != []
      invariant Progress(graph, NamesOf(order), remaining, rounds) && Located(manifests, order)
      invariant AtDepth(graph, packages, NamesOf(order), remaining, done)
      decreases rounds
    {
      if rounds == 0 {
        GuardIsRight(graph, NamesOf(order), remaining);
        return SuspectedCycle(remaining);
      }
      rounds := rounds - 1;
      var deleted, appended := Layer(graph, manifests, remaining, packages);
      var rest := Without(remaining, deleted, packages);
      assert deleted != [] ==> deleted[0] in deleted && deleted[0] in remaining;
      RoundKeeps(graph, NamesOf(order), remaining, deleted, rest, rounds + 1);
      RoundDeepens(graph, packages, NamesOf(order), remaining, done, deleted, rest);
      LocatedAppends(manifests, order, appended);
      done := done + 1;
      order := order + appended;
      remaining := rest;
    }
    return Ordered(order);
  }

  // ---- what the result means for the whole workspace

  /** A dependency between listed packages that the script does not look at. */
  ghost predicate Dropped(packages: seq<Package>, a: Name, b: Name) {
    Edge(WorkspaceOf(packages), a, b) && !IsSolana(b)
  }

  lemma KeptEdges(packages: seq<Package>, a: Name, b: Name)
    ensures Edge(GraphOf(packages), a, b) <==> Edge(WorkspaceOf(packages), a, b) && !Dropped(packages, a, b)
  {
    RecordedIsFiltered(packages, a);
    RecordedIsFiltered(packages, b);
    if a in GraphOf(packages) {
      SolanaOnlyExact(WorkspaceOf(packages)[a], b);
      PrefixIsSolana(b);
    }
  }

  ghost predicate DropsOneOf(packages: seq<Package>, p: seq<Name>) {
    exists i :: 0 <= i < |p| - 1 && Dropped(packages, p[i], p[i + 1])
  }

  lemma KeptPaths(packages: seq<Package>, p: seq<Name>)
    ensures IsPath(GraphOf(packages), p) <==> IsPath(WorkspaceOf(packages), p) && !DropsOneOf(packages, p)
  {
    hide Edge, Dropped;
    forall i | 0 <= i < |p| - 1
      ensures Edge(GraphOf(packages), p[i], p[i + 1])
              <==> Edge(WorkspaceOf(packages), p[i], p[i + 1]) && !Dropped(packages, p[i], p[i + 1])
    {
      KeptEdges(packages, p[i], p[i + 1]);
    }
  }

  /** Every dependency cycle of the workspace runs through a dropped dependency. */
  ghost predicate EveryCycleDrops(packages: seq<Package>) {
    forall p: seq<Name> :: |p| >= 2 && p[0] == p[|p| - 1] && IsPath(WorkspaceOf(packages), p) ==>
      DropsOneOf(packages, p)
  }

  lemma CyclesKept(packages: seq<Package>)
    ensures !Cyclic(GraphOf(packages)) <==> EveryCycleDrops(packages)
    ensures Cyclic(GraphOf(packages)) ==> Cyclic(WorkspaceOf(packages))
  {
    hide IsPath, DropsOneOf;
    forall p: seq<Name>
      ensures IsPath(GraphOf(packages), p) <==> IsPath(WorkspaceOf(packages), p) && !DropsOneOf(packages, p)
    {
      KeptPaths(packages, p);
    }
  }

  /** Every dropped dependency is published before the crate that has it. */
  ghost predicate DroppedComeFirst(packages: seq<Package>) {
    forall a, b :: Dropped(packages, a, b) ==> Earlier(GraphOf(packages), packages, b, a)
  }

  /** The order the script lists is an order of the workspace exactly when its dropped dependencies come first. */
  lemma RespectsExactly(packages: seq<Package>, order: seq<Name>)
    requires IsOrder(GraphOf(packages), order) && Sorted(GraphOf(packages), packages, order)
    ensures IsOrder(WorkspaceOf(packages), order) <==> DroppedComeFirst(packages)
  {
    hide Earlier, Edge;
    forall x
      ensures x in GraphOf(packages) <==> x in WorkspaceOf(packages)
    {
      RecordedIsFiltered(packages, x);
    }
    if DroppedComeFirst(packages) {
      forall i, d | 0 <= i < |order| && Edge(WorkspaceOf(packages), order[i], d)
        ensures d in order[..i]
      {
        KeptEdges(packages, order[i], d);
        if Dropped(packages, order[i], d) {
          DroppedIsListed(packages, order[i], d);
          EarlierIsBefore(packages, order, i, d);
        }
      }
    }
    if IsOrder(WorkspaceOf(packages), order) {
      forall a, b | Dropped(packages, a, b)
        ensures Earlier(GraphOf(packages), packages, b, a)
      {
        DroppedIsListed(packages, a, b);
        var i :| 0 <= i < |order| && order[i] == a;
        assert b in order[..i];
      }
    }
  }

  lemma DroppedIsListed(packages: seq<Package>, a: Name, b: Name)
    requires Dropped(packages, a, b)
    ensures a in WorkspaceOf(packages) && b in WorkspaceOf(packages) && Edge(WorkspaceOf(packages), a, b)
  {
  }

  lemma EarlierIsBefore(packages: seq<Package>, order: seq<Name>, i: nat, d: Name)
    requires Sorted(GraphOf(packages), packages, order) && i < |order| && d in order
    requires Earlier(GraphOf(packages), packages, d, order[i])
    ensures d in order[..i]
  {
    hide Earlier;
    var j :| 0 <= j < |order| && order[j] == d;
    EarlierIsStrict(GraphOf(packages), packages, d, order[i]);
  }

  ghost function Listing(p: Package): (Name, string) {
    (p.name, p.manifestPath)
  }

  ghost predicate ComesBefore(order: seq<(Name, string)>, x: (Name, string), y: (Name, string)) {
    exists i, j :: 0 <= i < j < |order| && order[i] == x && order[j] == y
  }

  /** Every package once, as last listed, and after the packages it needs, as far as these have the prefix. */
  ghost predicate Publishes(packages: seq<Package>, order: seq<(Name, string)>) {
    && Distinct(NamesOf(order))
    && (forall x :: x in order <==> exists k :: IsLast(packages, k) && x == Listing(packages[k]))
    && (forall k, j :: Needs(packages, k, j) && (exists rest: string :: packages[j].name == "solana" + rest) ==>
          ComesBefore(order, Listing(packages[j]), Listing(packages[k])))
  }

  lemma ManifestIsLast(packages: seq<Package>, k: nat)
    requires IsLast(packages, k)
    ensures packages[k].name in GraphOf(packages) && packages[k].name in ManifestsOf(packages)
    ensures ManifestsOf(packages)[packages[k].name] == packages[k].manifestPath
  {
    RecordedIsLast(packages, k, "");
  }

  lemma ListedAt(packages: seq<Package>, order: seq<(Name, string)>, k: nat) returns (i: nat)
    requires IsOrder(GraphOf(packages), NamesOf(order)) && Located(ManifestsOf(packages), order)
    requires IsLast(packages, k)
    ensures i < |order| && order[i] == Listing(packages[k])
  {
    hide GraphOf, ManifestsOf, DependenciesFirst, Distinct;
    ManifestIsLast(packages, k);
    assert packages[k].name in NamesOf(order);
    i :| 0 <= i < |order| && NamesOf(order)[i] == packages[k].name;
  }

  lemma OrderPublishes(packages: seq<Package>, order: seq<(Name, string)>)
    requires IsOrder(GraphOf(packages), NamesOf(order)) && Located(ManifestsOf(packages), order)
    ensures Publishes(packages, order)
  {
    hide GraphOf, ManifestsOf;
    forall x
      ensures x in order <==> exists k :: IsLast(packages, k) && x == Listing(packages[k])
    {
      if x in order {
        var i :| 0 <= i < |order| && order[i] == x;
        assert NamesOf(order)[i] in GraphOf(packages);
        RecordedIsFiltered(packages, x.0);
        var k := HasLast(packages, x.0);
        ManifestIsLast(packages, k);
      }
      forall k | IsLast(packages, k) && x == Listing(packages[k])
        ensures x in order
      {
        var i := ListedAt(packages, order, k);
      }
    }
    forall k, j | Needs(packages, k, j) && exists rest: string :: packages[j].name == "solana" + rest
      ensures ComesBefore(order, Listing(packages[j]), Listing(packages[k]))
    {
      NeededComesBefore(packages, order, k, j);
    }
  }

  lemma NeededComesBefore(packages: seq<Package>, order: seq<(Name, string)>, k: int, j: int)
    requires IsOrder(GraphOf(packages), NamesOf(order)) && Located(ManifestsOf(packages), order)
    requires Needs(packages, k, j) && exists rest: string :: packages[j].name == "solana" + rest
    ensures ComesBefore(order, Listing(packages[j]), Listing(packages[k]))
  {
    hide GraphOf, ManifestsOf;
    GraphEdges(packages, packages[k].name, packages[j].name);
    var at := ListedAt(packages, order, k);
    var from := ListedAt(packages, order, j);
    assert NamesOf(order)[at] == packages[k].name && NamesOf(order)[from] == packages[j].name;
    assert packages[j].name in NamesOf(order)[..at];
  }

  /** Packages `k` and `j` need each other, and both names have the prefix. */
  ghost predicate NeedEachOther(packages: seq<Package>, k: int, j: int) {
    && Needs(packages, k, j) && Needs(packages, j, k)
    && (exists rest: string :: packages[k].name == "solana" + rest)
    && exists rest: string :: packages[j].name == "solana" + rest
  }

  lemma DirectPairsNeedEachOther(packages: seq<Package>)
    ensures (exists a, b :: DirectPair(GraphOf(packages), a, b)) <==> exists k, j :: NeedEachOther(packages, k, j)
  {
    hide GraphOf, Edge;
    if exists a, b :: DirectPair(GraphOf(packages), a, b) {
      var a, b :| DirectPair(GraphOf(packages), a, b);
      GraphEdges(packages, a, b);
      GraphEdges(packages, b, a);
      var k, j :| Needs(packages, k, j) && packages[k].name == a && packages[j].name == b;
      var j', k' :| Needs(packages, j', k') && packages[j'].name == b && packages[k'].name == a;
      assert k' == k && j' == j;
      assert NeedEachOther(packages, k, j);
    }
    if exists k, j :: NeedEachOther(packages, k, j) {
      var k, j :| NeedEachOther(packages, k, j);
      GraphEdges(packages, packages[k].name, packages[j].name);
      GraphEdges(packages, packages[j].name, packages[k].name);
      assert DirectPair(GraphOf(packages), packages[k].name, packages[j].name);
    }
  }

  /** The result is right for a workspace: an order of it, or a refusal because of a cycle in it. */
  ghost predicate RightFor(w: Graph, r: Outcome) {
    if r.Ordered? then IsOrder(w, NamesOf(r.order)) else Cyclic(w)
  }

  /** When no dependency is dropped, the script sees the whole workspace. */
  lemma NothingDropped(packages: seq<Package>)
    requires forall a, b :: !Dropped(packages, a, b)
    ensures DroppedComeFirst(packages) && (Cyclic(GraphOf(packages)) <==> Cyclic(WorkspaceOf(packages)))
  {
    CyclesKept(packages);
    hide Dropped, IsPath;
    assert forall p: seq<Name> :: !DropsOneOf(packages, p);
  }

  lemma TwoPackages(a: Package, b: Package)
    requires a.name != b.name
    ensures WorkspaceOf([a, b]) == map[a.name := a.dependencies, b.name := b.dependencies]
    ensures GraphOf([a, b]) == map[a.name := SolanaOnly(a.dependencies), b.name := SolanaOnly(b.dependencies)]
  {
    assert [a, b][..1] == [a] && [a][..0] == [];
    assert WorkspaceOf([a]) == WorkspaceOf([])[a.name := a.dependencies];
    assert GraphOf([a]) == GraphOf([])[a.name := SolanaOnly(a.dependencies)];
  }

  lemma OneName(x: Name)
    ensures SolanaOnly([x]) == if StartsWith(x, "solana") then [x] else []
  {
    assert [x][1..] == [];
  }

  /** Two crates of which the second may depend on the first are ordered. */
  lemma TwoInOrder(g: Graph, x: Name, y: Name)
    requires x != y && g.Keys == {x, y} && x !in g[x] && y !in g[x] && y !in g[y]
    ensures IsOrder(g, [x, y])
  {
    var order := [x, y];
    forall i, d | 0 <= i < |order| && Edge(g, order[i], d)
      ensures d in order[..i]
    {
      assert d == x || d == y;
      if i == 1 {
        assert order[..i][0] == x;
      }
    }
  }

  /** Two crates that depend on each other, one of them without the prefix: a cycle the script does not see. */
  lemma UnseenCycle(path: string, path': string)
    ensures var packages := [Package("solana-a", path, ["b"]), Package("b", path', ["solana-a"])];
            Cyclic(WorkspaceOf(packages)) && !Cyclic(GraphOf(packages))
  {
    var a, b := Package("solana-a", path, ["b"]), Package("b", path', ["solana-a"]);
    assert |a.name| != |b.name|;
    TwoPackages(a, b);
    OneName("b");
    OneName("solana-a");
    var w, g := WorkspaceOf([a, b]), GraphOf([a, b]);
    DirectIsCyclic(w, a.name, b.name);
    TwoInOrder(g, a.name, b.name);
    OrderedIsAcyclic(g, [a.name, b.name]);
  }

  /** A crate that needs one without the prefix, listed first: the workspace has an order, and another one is found. */
  lemma WrongOrder(path: string, path': string)
    ensures var packages := [Package("solana-a", path, ["b"]), Package("b", path', [])];
            !Cyclic(WorkspaceOf(packages)) && !Cyclic(GraphOf(packages)) && !DroppedComeFirst(packages)
  {
    var a, b := Package("solana-a", path, ["b"]), Package("b", path', []);
    var packages := [a, b];
    assert |a.name| != |b.name|;
    TwoPackages(a, b);
    OneName("b");
    var w, g := WorkspaceOf(packages), GraphOf(packages);
    TwoInOrder(w, b.name, a.name);
    OrderedIsAcyclic(w, [b.name, a.name]);
    CyclesKept(packages);
    assert Dropped(packages, a.name, b.name);
    FirstListingIs(packages, a.name, 0);
    FirstListingIs(packages, b.name, 1);
    NoDependencies(g, a.name, b.name);
    assert Earlier(g, packages, a.name, b.name);
    EarlierIsStrict(g, packages, a.name, b.name);
  }

  lemma NoDependencies(g: Graph, x: Name, y: Name)
    requires x in g && y in g && g[x] == [] && g[y] == []
    ensures SameDepth(g, x, y)
  {
    hide HasChain;
    forall n: nat
      ensures HasChain(g, y, n) <==> HasChain(g, x, n)
    {
      if n > 0 {
        ChainStep(g, x, n - 1);
        ChainStep(g, y, n - 1);
      } else {
        ChainOfNone(g, x);
        ChainOfNone(g, y);
      }
    }
  }

  /**
   * An order comes out exactly when every dependency cycle of the workspace runs through a dropped
   * dependency. It lists crates by depth and then as they were listed. For the workspace the result
   * is right exactly when a cycle is kept or the dropped dependencies come first.
   */
  method GetPackages(packages: seq<Package>) returns (r: Outcome)
    ensures Correct(GraphOf(packages), ManifestsOf(packages), r)
    ensures r.Ordered? <==> !Cyclic(GraphOf(packages))
    ensures r.Ordered? <==> EveryCycleDrops(packages)
    ensures r.DirectCycle? <==> exists a, b :: DirectPair(GraphOf(packages), a, b)
    ensures r.DirectCycle? <==> exists k, j :: NeedEachOther(packages, k, j)
    ensures r.Ordered? ==> Publishes(packages, r.order)
    ensures r.Ordered? ==> Sorted(GraphOf(packages), packages, NamesOf(r.order))
    ensures RightFor(WorkspaceOf(packages), r) <==> Cyclic(GraphOf(packages)) || DroppedComeFirst(packages)
  {
    hide Cyclic, IsOrder, Stuck, DirectPair, Distinct, AsListed, Sorted, EveryCycleDrops, DroppedComeFirst, Publishes,
         NeedEachOther;
    CyclesKept(packages);
    DirectPairsNeedEachOther(packages);
    var names, graph, manifests := ReadPackages(packages);
    var pairs := DirectCycles(names, graph);
    if pairs != {} {
      ghost var s :| s in pairs;
      ghost var a, b :| s == {a, b} && DirectPair(graph, a, b);
      DirectIsCyclic(graph, a, b);
      return DirectCycle(pairs);
    }
    r := OrderLayers(names, graph, manifests, packages);
    if r.Ordered? {
      OrderedIsAcyclic(graph, NamesOf(r.order));
      OrderPublishes(packages, r.order);
      RespectsExactly(packages, NamesOf(r.order));
    } else {
      StuckIsCyclic(graph, r.remaining);
    }
  }
}
