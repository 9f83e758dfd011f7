/** Kahn's algorithm over resources, proved equal to a function of the graph. */
module TopoSort {
  import opened Common
  import opened Blueprint

  // ------------------------------------------------------------------ the graph

  /** The dependency graph: addresses in declaration order, and what each depends on. */
  datatype Graph<A(==)> = Graph(names: seq<A>, deps: map<A, set<A>>) {
    ghost predicate Valid() {
      && NoDuplicates(names)
      && deps.Keys == Elements(names)
    }
  }

  ghost predicate DependsOn<A(!new)>(g: Graph<A>, a: A, b: A) {
    a in g.deps && b in g.deps[a]
  }

  /** A nonempty walk along the dependency relation that ends where it started. */
  ghost predicate IsCycle<A(!new)>(g: Graph<A>, p: seq<A>) {
    && |p| >= 2
    && p[0] == p[|p| - 1]
    && forall i | 0 <= i < |p| - 1 :: DependsOn(g, p[i], p[i + 1])
  }

  ghost predicate Acyclic<A(!new)>(g: Graph<A>) {
    forall p :: !IsCycle(g, p)
  }

  ghost predicate Closed<A(!new)>(g: Graph<A>) {
    forall a | a in g.deps :: g.deps[a] <= Elements(g.names)
  }

  /** What a caller wants of the order: every resource once, after all it depends on. */
  ghost predicate IsTopologicalOrder<A(!new)>(g: Graph<A>, order: seq<A>) {
    && multiset(order) == multiset(g.names)
    && Ready(g, order)
  }

  ghost predicate Ready<A(!new)>(g: Graph<A>, order: seq<A>) {
    forall i | 0 <= i < |order| :: order[i] in g.deps && g.deps[order[i]] <= Elements(order[..i])
  }

  // ------------------------------------------------------------- Kahn's machine

  datatype State<A(==)> = State(inDegree: map<A, int>, queue: seq<A>, order: seq<A>)

  /** The resources that depend on a, in declaration order. */
  function Dependents<A(==)>(names: seq<A>, deps: map<A, set<A>>, a: A): seq<A> {
    if names == [] then []
    else
      var rest := Dependents(names[..|names| - 1], deps, a);
      var n := names[|names| - 1];
      if n in deps && a in deps[n] then rest + [n] else rest
  }

  /** One pass over a dependents list: decrement, and enqueue what reaches zero. */
  function Relax<A(==)>(inDegree: map<A, int>, queue: seq<A>, ds: seq<A>): (map<A, int>, seq<A>) {
    if ds == [] then (inDegree, queue)
    else
      var (m, q) := Relax(inDegree, queue, ds[..|ds| - 1]);
      var d := ds[|ds| - 1];
      if d !in m then (m, q)
      else (m[d := m[d] - 1], if m[d] == 1 then q + [d] else q)
  }

  function Step<A(==)>(g: Graph<A>, s: State<A>): State<A> {
    if s.queue == [] then s
    else
      var a := s.queue[0];
      var (m, q) := Relax(s.inDegree, s.queue[1..], Dependents(g.names, g.deps, a));
      State(m, q, s.order + [a])
  }

  function Init<A(==)>(g: Graph<A>): State<A> {
    var m := map a | a in g.deps :: |g.deps[a]|;
    State(m, Zeros(g.names, m), [])
  }

  function Zeros<A(==)>(names: seq<A>, m: map<A, int>): seq<A> {
    if names == [] then []
    else
      var rest := Zeros(names[..|names| - 1], m);
      var n := names[|names| - 1];
      if n in m && m[n] == 0 then rest + [n] else rest
  }

  function Run<A(==)>(g: Graph<A>, n: nat): State<A> {
    if n == 0 then Init(g) else Step(g, Run(g, n - 1))
  }

  /** The sort as a function of the graph: as many steps as there are resources. */
  function Kahn<A(==)>(g: Graph<A>): Result<seq<A>> {
    var order := Run(g, |g.names|).order;
    if |order| == |g.names| then Ok(order) else Err
  }

  // ------------------------------------------------------------- the invariant

  /** Popped or queued resources are exactly those with no outstanding dependency,
      and an in-degree counts the dependencies not yet popped. */
  ghost predicate Inv<A(!new)>(g: Graph<A>, s: State<A>) {
    && NoDuplicates(s.order) && NoDuplicates(s.queue)
    && (forall x | x in s.order :: x !in s.queue && x in g.deps)
    && (forall x | x in s.queue :: x in g.deps)
    && Counts(g, s.inDegree, Elements(s.order))
    && (forall x | x in g.deps :: (x in s.order || x in s.queue) <==> s.inDegree[x] == 0)
    && Ready(g, s.order)
  }

  ghost predicate Counts<A(!new)>(g: Graph<A>, m: map<A, int>, popped: set<A>) {
    && m.Keys == g.deps.Keys
    && forall x | x in g.deps :: m[x] == |g.deps[x] - popped|
  }

  lemma {:induction false} DependentsCharacterized<A(!new)>(names: seq<A>, deps: map<A, set<A>>, a: A)
    requires NoDuplicates(names)
    ensures var ds := Dependents(names, deps, a);
            NoDuplicates(ds) && forall x :: x in ds <==> x in names && x in deps && a in deps[x]
  {
    if names != [] {
      var front, n := names[..|names| - 1], names[|names| - 1];
      DependentsCharacterized(front, deps, a);
      var rest := Dependents(front, deps, a);
      assert names == front + [n];
      assert n !in front;
      assert n !in rest;
    }
  }

  lemma {:induction false} ZerosCharacterized<A(!new)>(names: seq<A>, m: map<A, int>)
    requires NoDuplicates(names)
    ensures var zs := Zeros(names, m);
            NoDuplicates(zs) && forall x :: x in zs <==> x in names && x in m && m[x] == 0
  {
    if names != [] {
      var front, n := names[..|names| - 1], names[|names| - 1];
      ZerosCharacterized(front, m);
      assert names == front + [n];
      assert n !in front;
      assert n !in Zeros(front, m);
    }
  }

  /** What a whole pass does: every listed in-degree drops by one, and the new queue
      entries are the listed ones that were at one. */
  lemma {:induction false} RelaxCharacterized<A(!new)>(m0: map<A, int>, q0: seq<A>, ds: seq<A>)
    requires NoDuplicates(ds) && NoDuplicates(q0)
    requires forall d | d in ds :: d in m0 && d !in q0
    ensures var (m, q) := Relax(m0, q0, ds);
            && m.Keys == m0.Keys
            && (forall x | x in m0 :: m[x] == if x in ds then m0[x] - 1 else m0[x])
            && NoDuplicates(q)
            && (forall x :: x in q <==> x in q0 || (x in ds && m0[x] == 1))
  {
    if ds != [] {
      var front, d := ds[..|ds| - 1], ds[|ds| - 1];
      assert ds == front + [d];
      assert d !in front;
      RelaxCharacterized(m0, q0, front);
      var (m, q) := Relax(m0, q0, front);
      assert m[d] == m0[d];
      assert d !in q;
    }
  }

  lemma InitInv<A(!new)>(g: Graph<A>)
    requires g.Valid()
    ensures Inv(g, Init(g))
  {
    var s := Init(g);
    ZerosCharacterized(g.names, s.inDegree);
    forall x | x in g.deps ensures g.deps[x] - Elements(s.order) == g.deps[x] {}
  }

  /** One step, by what it does to each resource. */
  ghost predicate Stepped<A(!new)>(s: State<A>, t: State<A>, ds: seq<A>) {
    && s.queue != [] && t.order == s.order + [s.queue[0]]
    && NoDuplicates(t.queue) && t.inDegree.Keys == s.inDegree.Keys
    && (forall x | x in ds :: x in s.inDegree && s.inDegree[x] > 0)
    && (forall x | x in s.inDegree :: t.inDegree[x] == if x in ds then s.inDegree[x] - 1 else s.inDegree[x])
    && (forall x :: x in t.queue <==> x in s.queue[1..] || (x in ds && s.inDegree[x] == 1))
  }

  lemma StepSteps<A(!new)>(g: Graph<A>, s: State<A>)
    requires g.Valid() && Inv(g, s) && s.queue != []
    ensures Stepped(s, Step(g, s), Dependents(g.names, g.deps, s.queue[0]))
  {
    var a, rest := s.queue[0], s.queue[1..];
    var ds := Dependents(g.names, g.deps, a);
    DependentsCharacterized(g.names, g.deps, a);
    DependentsOutstanding(g, s, a);
    NotYetQueued(s, ds);
    RelaxCharacterized(s.inDegree, rest, ds);
  }

  lemma NotYetQueued<A(!new)>(s: State<A>, ds: seq<A>)
    requires s.queue != [] && NoDuplicates(s.queue)
    requires forall x | x in ds :: x in s.inDegree && s.inDegree[x] > 0
    requires forall x | x in s.queue && x in s.inDegree :: s.inDegree[x] == 0
    ensures NoDuplicates(s.queue[1..]) && forall x | x in ds :: x !in s.queue[1..]
  {
    assert forall i | 0 <= i < |s.queue[1..]| :: s.queue[1..][i] == s.queue[i + 1];
  }

  lemma StepInv<A(!new)>(g: Graph<A>, s: State<A>)
    requires g.Valid() && Inv(g, s) && s.queue != []
    ensures Inv(g, Step(g, s))
    ensures |Step(g, s).order| == |s.order| + 1
  {
    var a, t := s.queue[0], Step(g, s);
    StepSteps(g, s);
    ElementsAppend(s.order, a);
    StepCounts(g, s, t.inDegree, a);
    StepReady(g, s.order, a);
    StepQueue(s, t, Dependents(g.names, g.deps, a), g.deps.Keys);
  }

  /** Popping the head and enqueuing what reached zero keeps order and queue apart,
      and keeps them the resources whose in-degree is zero. */
  lemma StepQueue<A(!new)>(s: State<A>, t: State<A>, ds: seq<A>, all: set<A>)
    requires NoDuplicates(s.order) && NoDuplicates(s.queue) && Stepped(s, t, ds)
    requires forall x | x in s.order :: x !in s.queue && x in all
    requires forall x | x in s.queue :: x in all
    requires s.inDegree.Keys == all
    requires forall x | x in all :: (x in s.order || x in s.queue) <==> s.inDegree[x] == 0
    ensures NoDuplicates(t.order)
    ensures forall x | x in t.order :: x !in t.queue && x in all
    ensures forall x | x in t.queue :: x in all
    ensures forall x | x in all :: (x in t.order || x in t.queue) <==> t.inDegree[x] == 0
  {
    assert s.queue == [s.queue[0]] + s.queue[1..];
    assert forall x :: x in t.order <==> x in s.order || x == s.queue[0];
    assert s.queue[0] !in s.queue[1..];
  }

  lemma DependentsOutstanding<A(!new)>(g: Graph<A>, s: State<A>, a: A)
    requires g.Valid() && Inv(g, s) && a in s.queue
    ensures forall d | d in Dependents(g.names, g.deps, a) :: d in s.inDegree && s.inDegree[d] > 0
  {
    DependentsCharacterized(g.names, g.deps, a);
    forall d | d in Dependents(g.names, g.deps, a) ensures d in s.inDegree && s.inDegree[d] > 0 {
      assert a in g.deps[d] - Elements(s.order);
    }
  }

  lemma StepCounts<A(!new)>(g: Graph<A>, s: State<A>, m: map<A, int>, a: A)
    requires g.Valid() && Counts(g, s.inDegree, Elements(s.order)) && a !in s.order
    requires m.Keys == s.inDegree.Keys
    requires forall x | x in m ::
               m[x] == if x in Dependents(g.names, g.deps, a) then s.inDegree[x] - 1 else s.inDegree[x]
    ensures Counts(g, m, Elements(s.order) + {a})
  {
    DependentsCharacterized(g.names, g.deps, a);
    forall x | x in g.deps ensures m[x] == |g.deps[x] - (Elements(s.order) + {a})| {
      var before := g.deps[x] - Elements(s.order);
      assert g.deps[x] - (Elements(s.order) + {a}) == before - {a};
      assert x in g.names;
    }
  }

  lemma StepReady<A(!new)>(g: Graph<A>, order: seq<A>, a: A)
    requires Ready(g, order) && a in g.deps && |g.deps[a] - Elements(order)| == 0
    ensures Ready(g, order + [a])
  {
    var longer := order + [a];
    assert g.deps[a] <= Elements(order) by {
      assert forall d | d in g.deps[a] :: d in g.deps[a] - Elements(order) || d in Elements(order);
    }
    forall i | 0 <= i < |longer| ensures longer[i] in g.deps && g.deps[longer[i]] <= Elements(longer[..i]) {
      assert longer[..i] == order[..i];
    }
  }

  /** After n steps the machine has popped n resources, or its queue has run dry. */
  lemma {:induction false} RunInv<A(!new)>(g: Graph<A>, n: nat)
    requires g.Valid()
    ensures Inv(g, Run(g, n))
    ensures |Run(g, n).order| <= n
    ensures Run(g, n).queue == [] || |Run(g, n).order| == n
  {
    if n == 0 {
      InitInv(g);
    } else {
      RunInv(g, n - 1);
      if Run(g, n - 1).queue != [] {
        StepInv(g, Run(g, n - 1));
      }
    }
  }

  /** Popping is bounded by the number of resources, so |names| steps are enough. */
  lemma OrderBounded<A(!new)>(order: seq<A>, queue: seq<A>, names: seq<A>)
    requires NoDuplicates(order) && NoDuplicates(queue) && NoDuplicates(names)
    requires forall x | x in order :: x !in queue && x in names
    requires forall x | x in queue :: x in names
    ensures |order| + |queue| <= |names|
    ensures |order| == |names| <==> Elements(order) == Elements(names)
  {
    DistinctCardinality(order);
    DistinctCardinality(queue);
    DistinctCardinality(names);
    var both := Elements(order) + Elements(queue);
    assert Elements(order) !! Elements(queue);
    SubsetCardinality(both, Elements(names));
    SubsetCardinality(Elements(order), Elements(names));
  }

  lemma FinalState<A(!new)>(g: Graph<A>) returns (s: State<A>)
    requires g.Valid()
    ensures s == Run(g, |g.names|) && Inv(g, s) && s.queue == []
    ensures |s.order| <= |g.names|
    ensures |s.order| == |g.names| <==> Elements(s.order) == Elements(g.names)
  {
    s := Run(g, |g.names|);
    RunInv(g, |g.names|);
    OrderBounded(s.order, s.queue, g.names);
  }

  // ------------------------------------------------------------ main theorems

  /** A successful sort returns every resource exactly once, each strictly after
      everything it depends on. */
  lemma SortedOrderIsTopological<A(!new)>(g: Graph<A>)
    requires g.Valid() && Kahn(g).Ok?
    ensures IsTopologicalOrder(g, Kahn(g).value)
  {
    var s := FinalState(g);
    SameElementsSameMultiset(s.order, g.names);
  }

  lemma SameElementsSameMultiset<A(!new)>(a: seq<A>, b: seq<A>)
    requires NoDuplicates(a) && NoDuplicates(b) && Elements(a) == Elements(b)
    ensures multiset(a) == multiset(b)
  {
    forall x ensures multiset(a)[x] == multiset(b)[x] {
      AtMostOnce(a, x);
      AtMostOnce(b, x);
      assert x in Elements(a) <==> x in Elements(b);
    }
  }

  lemma {:induction false} AtMostOnce<A(!new)>(s: seq<A>, x: A)
    requires NoDuplicates(s)
    ensures multiset(s)[x] == if x in s then 1 else 0
  {
    if s != [] {
      var front, last := s[..|s| - 1], s[|s| - 1];
      assert s == front + [last];
      assert last !in front;
      AtMostOnce(front, x);
    }
  }

  /** Success and failure are decided by the graph: the sort succeeds if and only if
      every dependency names a listed resource and no chain of dependencies loops. */
  lemma SortSucceedsIffAcyclic<A(!new)>(g: Graph<A>)
    requires g.Valid()
    ensures Kahn(g).Ok? <==> Closed(g) && Acyclic(g)
  {
    var s := FinalState(g);
    if Kahn(g).Ok? {
      ReadyIsClosed(g, s.order);
      ReadyIsAcyclic(g, s.order);
    } else if Closed(g) {
      var p := StuckHasCycle(g, s);
    }
  }

  lemma ReadyIsClosed<A(!new)>(g: Graph<A>, order: seq<A>)
    requires g.Valid() && Ready(g, order) && Elements(order) == Elements(g.names)
    ensures Closed(g)
  {
    forall a | a in g.deps ensures g.deps[a] <= Elements(g.names) {
      assert a in Elements(order);
      var i :| 0 <= i < |order| && order[i] == a;
      assert Elements(order[..i]) <= Elements(order);
    }
  }

  lemma ReadyIsAcyclic<A(!new)>(g: Graph<A>, order: seq<A>)
    requires g.Valid() && Ready(g, order) && NoDuplicates(order) && Elements(order) == Elements(g.names)
    ensures Acyclic(g)
  {
    forall p ensures !IsCycle(g, p) {
      if IsCycle(g, p) {
        assert DependsOn(g, p[0], p[0 + 1]);
        assert p[0] in Elements(order);
        CycleContradictsOrder(g, order, p, |p| - 1);
      }
    }
  }

  /** Walking along dependencies strictly descends in a topological order. */
  lemma {:induction false} CycleContradictsOrder<A(!new)>(g: Graph<A>, order: seq<A>, p: seq<A>, n: nat)
    requires Ready(g, order) && NoDuplicates(order)
    requires n < |p| && p[0] in order
    requires forall i | 0 <= i < |p| - 1 :: DependsOn(g, p[i], p[i + 1])
    ensures exists i, j :: 0 <= i < |order| && 0 <= j < |order| && order[i] == p[0] && order[j] == p[n] && j + n <= i
  {
    if n == 0 {
      var i :| 0 <= i < |order| && order[i] == p[0];
    } else {
      CycleContradictsOrder(g, order, p, n - 1);
      var i, j :| 0 <= i < |order| && 0 <= j < |order| && order[i] == p[0] && order[j] == p[n - 1] && j + (n - 1) <= i;
      assert DependsOn(g, p[n - 1], p[n - 1 + 1]);
      assert p[n] in order[..j];
      var k :| 0 <= k < j && order[k] == p[n];
    }
  }

  /** A resource outside the final order has a dependency that is outside it too. */
  ghost function NextStuck<A(!new)>(g: Graph<A>, popped: set<A>, x: A): (y: A)
    requires Closed(g) && g.Valid() && x in g.deps && !(g.deps[x] <= popped)
    ensures DependsOn(g, x, y) && y in g.deps && y !in popped
  {
    var y :| y in g.deps[x] && y !in popped; y
  }

  /** A walk along dependencies, none of it in the final order. */
  ghost predicate StuckAlong<A(!new)>(g: Graph<A>, popped: set<A>, p: seq<A>) {
    p != [] && p[0] in g.deps && p[0] !in popped
    && (|p| > 1 ==> DependsOn(g, p[0], p[1]) && StuckAlong(g, popped, p[1..]))
  }

  ghost function StuckWalk<A(!new)>(g: Graph<A>, popped: set<A>, x: A, n: nat): (p: seq<A>)
    requires Closed(g) && g.Valid()
    requires x in g.deps && x !in popped
    requires forall y | y in g.deps && y !in popped :: !(g.deps[y] <= popped)
    ensures |p| == n + 1 && p[0] == x && StuckAlong(g, popped, p)
    decreases n
  {
    if n == 0 then [x]
    else
      var rest := StuckWalk(g, popped, NextStuck(g, popped, x), n - 1);
      assert ([x] + rest)[1..] == rest;
      [x] + rest
  }

  lemma {:induction false} StuckAlongMeans<A(!new)>(g: Graph<A>, popped: set<A>, p: seq<A>)
    requires StuckAlong(g, popped, p)
    ensures forall i | 0 <= i < |p| :: p[i] in g.deps && p[i] !in popped
    ensures forall i | 0 <= i < |p| - 1 :: DependsOn(g, p[i], p[i + 1])
  {
    if |p| > 1 {
      StuckAlongMeans(g, popped, p[1..]);
      assert forall i | 0 < i < |p| :: p[i] == p[1..][i - 1];
    }
  }

  lemma StuckHasCycle<A(!new)>(g: Graph<A>, s: State<A>) returns (p: seq<A>)
    requires g.Valid() && Closed(g) && Inv(g, s) && s.queue == []
    requires Elements(s.order) != Elements(g.names)
    ensures IsCycle(g, p)
  {
    var popped := Elements(s.order);
    forall y | y in g.deps && y !in popped ensures !(g.deps[y] <= popped) {
      var outstanding := g.deps[y] - popped;
      assert |outstanding| != 0;
      var d :| d in outstanding;
    }
    var x :| x in g.deps && x !in popped;
    var walk := StuckWalk(g, popped, x, |g.deps.Keys|);
    StuckAlongMeans(g, popped, walk);
    var i, j := Pigeonhole(walk, g.deps.Keys);
    p := walk[i..j + 1];
    SliceOfWalk(g, walk, i, j);
  }

  lemma SliceOfWalk<A(!new)>(g: Graph<A>, walk: seq<A>, i: nat, j: nat)
    requires i < j < |walk| && walk[i] == walk[j]
    requires forall k | 0 <= k < |walk| - 1 :: DependsOn(g, walk[k], walk[k + 1])
    ensures IsCycle(g, walk[i..j + 1])
  {
    var p := walk[i..j + 1];
    forall k | 0 <= k < |p| - 1 ensures DependsOn(g, p[k], p[k + 1]) {
      assert DependsOn(g, walk[i + k], walk[i + k + 1]);
    }
  }

  // ---------------------------------------------------- the resources' own sort

  function Names(rs: seq<DecodedResource>): (names: seq<string>)
    ensures |names| == |rs|
    ensures forall i | 0 <= i < |rs| :: names[i] == rs[i].Address()
  {
    seq(|rs|, i requires 0 <= i < |rs| => rs[i].Address())
  }

  function ByAddress(rs: seq<DecodedResource>): (m: map<string, DecodedResource>)
    ensures forall a | a in m :: m[a] in rs && m[a].Address() == a
    ensures forall r | r in rs :: r.Address() in m
  {
    if rs == [] then map[]
    else
      var last := rs[|rs| - 1];
      var m := ByAddress(rs[..|rs| - 1]);
      assert rs == rs[..|rs| - 1] + [last];
      m[last.Address() := last]
  }

  function GraphOf(rs: seq<DecodedResource>): Graph<string> {
    var m := ByAddress(rs);
    Graph(Names(rs), map a | a in m :: m[a].deps)
  }

  lemma {:induction false} ByAddressFinds(rs: seq<DecodedResource>, i: nat)
    requires NoDuplicates(Names(rs)) && i < |rs|
    ensures ByAddress(rs)[rs[i].Address()] == rs[i]
  {
    var front := rs[..|rs| - 1];
    if i < |rs| - 1 {
      assert Names(front) == Names(rs)[..|rs| - 1];
      ByAddressFinds(front, i);
      assert front[i] == rs[i];
      assert Names(rs)[i] != Names(rs)[|rs| - 1];
    }
  }

  lemma GraphOfValid(rs: seq<DecodedResource>)
    requires NoDuplicates(Names(rs))
    ensures GraphOf(rs).Valid()
    ensures forall i | 0 <= i < |rs| ::
              rs[i].Address() in GraphOf(rs).deps && GraphOf(rs).deps[rs[i].Address()] == rs[i].deps
  {
    forall a ensures a in ByAddress(rs) <==> a in Names(rs) {
      if a in Names(rs) {
        var i :| 0 <= i < |rs| && Names(rs)[i] == a;
        assert rs[i] in rs;
      }
    }
    forall i | 0 <= i < |rs|
      ensures rs[i].Address() in GraphOf(rs).deps && GraphOf(rs).deps[rs[i].Address()] == rs[i].deps
    {
      ByAddressFinds(rs, i);
      assert rs[i] in rs;
    }
  }

  /** The resource at a node of the graph. */
  lemma GraphAt(rs: seq<DecodedResource>, a: string) returns (i: nat)
    requires NoDuplicates(Names(rs)) && a in GraphOf(rs).deps
    ensures i < |rs| && rs[i].Address() == a && GraphOf(rs).deps[a] == rs[i].deps
  {
    GraphOfValid(rs);
    assert a in Elements(Names(rs));
    i :| 0 <= i < |rs| && Names(rs)[i] == a;
  }

  /** The specification of topoSortResources. */
  function Sorted(rs: seq<DecodedResource>): (r: Result<seq<DecodedResource>>) {
    match Kahn(GraphOf(rs))
    case Err => Err
    case Ok(order) => Ok(Resources(rs, order))
  }

  function Resources(rs: seq<DecodedResource>, order: seq<string>): (out: seq<DecodedResource>) {
    var m := ByAddress(rs);
    if order == [] then []
    else
      var a := order[|order| - 1];
      Resources(rs, order[..|order| - 1]) + (if a in m then [m[a]] else [])
  }

  lemma {:induction false} ResourcesAt(rs: seq<DecodedResource>, order: seq<string>)
    requires forall a | a in order :: a in ByAddress(rs)
    ensures Names(Resources(rs, order)) == order
    ensures forall r | r in Resources(rs, order) :: r in rs
  {
    if order != [] {
      var front, a := order[..|order| - 1], order[|order| - 1];
      LastSplits(order);
      ResourcesAt(rs, front);
      NamesSnoc(Resources(rs, front), ByAddress(rs)[a]);
      assert Resources(rs, order) == Resources(rs, front) + [ByAddress(rs)[a]];
    }
  }

  lemma NamesSnoc(rs: seq<DecodedResource>, r: DecodedResource)
    ensures Names(rs + [r]) == Names(rs) + [r.Address()]
  {
  }

  /** The sort, about resources: it fails exactly on a cycle or a dangling dependency,
      and otherwise lists every resource once with its dependencies strictly earlier. */
  lemma SortedCorrect(rs: seq<DecodedResource>)
    requires NoDuplicates(Names(rs))
    ensures Sorted(rs).Ok? <==> Closed(GraphOf(rs)) && Acyclic(GraphOf(rs))
    ensures Sorted(rs).Ok? ==>
              && multiset(Sorted(rs).value) == multiset(rs)
              && |Sorted(rs).value| == |rs|
              && forall i | 0 <= i < |rs| :: Sorted(rs).value[i].deps <= Elements(Names(Sorted(rs).value)[..i])
  {
    var g := GraphOf(rs);
    GraphOfValid(rs);
    SortSucceedsIffAcyclic(g);
    if Kahn(g).Ok? {
      SortedOrderIsTopological(g);
      var order := Kahn(g).value;
      ResourcesAt(rs, order);
      var out := Resources(rs, order);
      OrderIsPermutation(rs, out);
      forall i | 0 <= i < |rs| ensures out[i].deps <= Elements(Names(out)[..i]) {
        assert out[i] in rs;
        var k :| 0 <= k < |rs| && rs[k] == out[i];
      }
    }
  }

  lemma OrderIsPermutation(rs: seq<DecodedResource>, out: seq<DecodedResource>)
    requires NoDuplicates(Names(rs)) && multiset(Names(out)) == multiset(Names(rs))
    requires forall r | r in out :: r in rs
    ensures multiset(out) == multiset(rs) && |out| == |rs|
  {
    assert |multiset(Names(out))| == |Names(out)|;
    forall a ensures multiset(Names(out))[a] <= 1 { AtMostOnce(Names(rs), a); }
    DistinctFromMultiset(Names(out));
    NoDuplicatesFromNames(rs);
    NoDuplicatesFromNames(out);
    forall r ensures r in Elements(out) <==> r in Elements(rs) {
      if r in rs {
        assert r.Address() in Names(rs) by {
          var i :| 0 <= i < |rs| && rs[i] == r;
          assert Names(rs)[i] == r.Address();
        }
        assert r.Address() in multiset(Names(out));
        var k :| 0 <= k < |out| && Names(out)[k] == r.Address();
        assert out[k] in rs;
        SameAddressSameResource(rs, r, out[k]);
      }
    }
    SameElementsSameMultiset(out, rs);
  }

  lemma {:induction false} DistinctFromMultiset<A(!new)>(s: seq<A>)
    requires forall x :: multiset(s)[x] <= 1
    ensures NoDuplicates(s)
  {
    forall i, j | 0 <= i < j < |s| ensures s[i] != s[j] {
      assert s == s[..i] + [s[i]] + s[i + 1..j] + [s[j]] + s[j + 1..];
      assert multiset(s)[s[i]] <= 1;
    }
  }

  lemma NoDuplicatesFromNames(rs: seq<DecodedResource>)
    requires NoDuplicates(Names(rs))
    ensures NoDuplicates(rs)
  {
    forall i, j | 0 <= i < j < |rs| ensures rs[i] != rs[j] {
      assert Names(rs)[i] != Names(rs)[j];
    }
  }

  lemma SameAddressSameResource(rs: seq<DecodedResource>, r: DecodedResource, s: DecodedResource)
    requires NoDuplicates(Names(rs)) && r in rs && s in rs && r.Address() == s.Address()
    ensures r == s
  {
    forall i, j | 0 <= i < j < |rs| ensures rs[i].Address() != rs[j].Address() {
      assert Names(rs)[i] != Names(rs)[j];
    }
    var i :| 0 <= i < |rs| && rs[i] == r;
    var j :| 0 <= j < |rs| && rs[j] == s;
  }

  // ------------------------------------------------------------ the imperative form

  function Listed<A(==)>(dependents: map<A, seq<A>>, a: A): seq<A> {
    if a in dependents then dependents[a] else []
  }

  lemma {:induction false} RunStaysStuck<A(!new)>(g: Graph<A>, k: nat, n: nat)
    requires k <= n && Run(g, k).queue == []
    ensures Run(g, n) == Run(g, k)
    decreases n
  {
    if k < n {
      RunStaysStuck(g, k, n - 1);
    }
  }

  /** A waiter has joined the waiting lists of these. */
  ghost predicate Joined<A(!new)>(before: map<A, seq<A>>, after: map<A, seq<A>>, deps: seq<A>, waiter: A) {
    forall a :: Listed(after, a) == Listed(before, a) + if a in deps then [waiter] else []
  }

  lemma JoinedMore<A(!new)>(before: map<A, seq<A>>, after: map<A, seq<A>>, deps: seq<A>, d: A, waiter: A)
    requires Joined(before, after, deps, waiter) && d !in deps
    ensures Joined(before, after[d := Listed(after, d) + [waiter]], deps + [d], waiter)
  {
    assert Listed(before, d) + [] == Listed(before, d);
    assert forall a :: a in deps + [d] <==> a in deps || a == d;
  }

  /** The inner counting loop for one resource: its in-degree grows by one for every
      dependency, and it joins the waiting list of each. */
  method AddEdges<A(==, !new)>(inDegree0: map<A, int>, dependents0: map<A, seq<A>>, deps: seq<A>, waiter: A)
    returns (inDegree: map<A, int>, dependents: map<A, seq<A>>)
    requires NoDuplicates(deps) && waiter in inDegree0
    ensures inDegree == inDegree0[waiter := inDegree0[waiter] + |deps|]
    ensures Joined(dependents0, dependents, deps, waiter)
  {
    inDegree, dependents := inDegree0, dependents0;
    for j := 0 to |deps|
      invariant inDegree == inDegree0[waiter := inDegree0[waiter] + j]
      invariant Joined(dependents0, dependents, deps[..j], waiter)
    {
      assert deps[..j + 1] == deps[..j] + [deps[j]];
      assert deps[j] !in deps[..j];
      JoinedMore(dependents0, dependents, deps[..j], deps[j], waiter);
      inDegree := inDegree[waiter := inDegree[waiter] + 1];
      dependents := dependents[deps[j] := Listed(dependents, deps[j]) + [waiter]];
    }
    assert deps[..|deps|] == deps;
  }

  method ZeroDegrees<A(==, !new)>(names: seq<A>) returns (inDegree: map<A, int>)
    ensures inDegree.Keys == Elements(names) && forall a | a in inDegree :: inDegree[a] == 0
  {
    inDegree := map[];
    for i := 0 to |names|
      invariant inDegree.Keys == Elements(names[..i])
      invariant forall a | a in inDegree :: inDegree[a] == 0
    {
      inDegree := inDegree[names[i] := 0];
      assert names[..i + 1] == names[..i] + [names[i]];
      ElementsAppend(names[..i], names[i]);
    }
    assert names[..|names|] == names;
  }

  /** The counting loops have dealt with the first n resources. */
  ghost predicate Counted<A(!new)>(g: Graph<A>, n: nat, inDegree: map<A, int>, dependents: map<A, seq<A>>)
    requires g.Valid() && n <= |g.names|
  {
    && inDegree.Keys == g.deps.Keys
    && (forall k | 0 <= k < |g.names| :: inDegree[g.names[k]] == if k < n then |g.deps[g.names[k]]| else 0)
    && forall a :: Listed(dependents, a) == Dependents(g.names[..n], g.deps, a)
  }

  lemma CountStep<A(!new)>(g: Graph<A>, n: nat, deps: seq<A>,
                           m: map<A, int>, ds: map<A, seq<A>>, m': map<A, int>, ds': map<A, seq<A>>)
    requires g.Valid() && n < |g.names| && Counted(g, n, m, ds)
    requires Elements(deps) == g.deps[g.names[n]] && NoDuplicates(deps)
    requires m' == m[g.names[n] := m[g.names[n]] + |deps|]
    requires Joined(ds, ds', deps, g.names[n])
    ensures Counted(g, n + 1, m', ds')
  {
    var waiter, longer := g.names[n], g.names[..n + 1];
    DistinctCardinality(deps);
    forall a ensures Listed(ds', a) == Dependents(longer, g.deps, a) {
      DependentsStep(g, n, a);
      assert a in deps <==> a in Elements(deps);
    }
  }

  lemma DependentsStep<A(!new)>(g: Graph<A>, n: nat, a: A)
    requires g.Valid() && n < |g.names| && g.names[n] in g.deps
    ensures Dependents(g.names[..n + 1], g.deps, a)
            == Dependents(g.names[..n], g.deps, a) + if a in g.deps[g.names[n]] then [g.names[n]] else []
  {
    assert g.names[..n + 1][..n] == g.names[..n];
  }

  lemma CountedAll<A(!new)>(g: Graph<A>, m: map<A, int>, ds: map<A, seq<A>>)
    requires g.Valid() && Counted(g, |g.names|, m, ds)
    ensures m == Init(g).inDegree
    ensures forall a :: Listed(ds, a) == Dependents(g.names, g.deps, a)
  {
    assert g.names[..|g.names|] == g.names;
    forall a | a in g.deps ensures m[a] == |g.deps[a]| {
      assert a in Elements(g.names);
    }
  }

  /** One resource of the counting loops.  Its dependency set is walked in an
      arbitrary order: the source sorts it, and the outcome does not need that. */
  method CountResource<A(==, !new)>(g: Graph<A>, n: nat, m: map<A, int>, ds: map<A, seq<A>>)
    returns (inDegree: map<A, int>, dependents: map<A, seq<A>>)
    requires g.Valid() && n < |g.names| && Counted(g, n, m, ds)
    ensures Counted(g, n + 1, inDegree, dependents)
  {
    var deps := InSomeOrder(g.deps[g.names[n]]);
    inDegree, dependents := AddEdges(m, ds, deps, g.names[n]);
    CountStep(g, n, deps, m, ds, inDegree, dependents);
  }

  method CountDependencies<A(==, !new)>(g: Graph<A>) returns (inDegree: map<A, int>, dependents: map<A, seq<A>>)
    requires g.Valid()
    ensures inDegree == Init(g).inDegree
    ensures forall a :: Listed(dependents, a) == Dependents(g.names, g.deps, a)
  {
    inDegree := ZeroDegrees(g.names);
    dependents := map[];
    CountedNone(g, inDegree);
    var i := 0;
    while i < |g.names|
      invariant i <= |g.names| && Counted(g, i, inDegree, dependents)
    {
      inDegree, dependents := CountResource(g, i, inDegree, dependents);
      i := i + 1;
    }
    CountedAll(g, inDegree, dependents);
  }

  lemma CountedNone<A(!new)>(g: Graph<A>, m: map<A, int>)
    requires g.Valid() && m.Keys == g.deps.Keys && forall a | a in m :: m[a] == 0
    ensures Counted(g, 0, m, map[])
  {
    assert g.names[..0] == [];
  }

  /** One pass of the main loop over a waiting list: decrement, enqueue at zero. */
  method Release<A(==, !new)>(m0: map<A, int>, q0: seq<A>, waiting: seq<A>)
    returns (inDegree: map<A, int>, queue: seq<A>)
    requires forall d | d in waiting :: d in m0
    ensures (inDegree, queue) == Relax(m0, q0, waiting)
  {
    inDegree, queue := m0, q0;
    for k := 0 to |waiting|
      invariant (inDegree, queue) == Relax(m0, q0, waiting[..k])
      invariant inDegree.Keys == m0.Keys
    {
      var d := waiting[k];
      assert waiting[..k + 1][..k] == waiting[..k];
      inDegree := inDegree[d := inDegree[d] - 1];
      if inDegree[d] == 0 {
        queue := queue + [d];
      }
    }
    assert waiting[..|waiting|] == waiting;
  }

  method InitialQueue<A(==, !new)>(g: Graph<A>, inDegree: map<A, int>) returns (queue: seq<A>)
    requires g.Valid() && inDegree.Keys == g.deps.Keys
    ensures queue == Zeros(g.names, inDegree)
  {
    queue := [];
    for i := 0 to |g.names|
      invariant queue == Zeros(g.names[..i], inDegree)
    {
      assert g.names[..i + 1][..i] == g.names[..i];
      if inDegree[g.names[i]] == 0 {
        queue := queue + [g.names[i]];
      }
    }
    assert g.names[..|g.names|] == g.names;
  }

  lemma PopIsSafe<A(!new)>(g: Graph<A>, s: State<A>)
    requires g.Valid() && s == Run(g, |s.order|) && s.queue != []
    ensures forall d | d in Dependents(g.names, g.deps, s.queue[0]) :: d in s.inDegree
    ensures |s.order| < |g.names|
  {
    RunInv(g, |s.order|);
    DependentsCharacterized(g.names, g.deps, s.queue[0]);
    OrderBounded(s.order, s.queue, g.names);
  }

  /** The sort on addresses.  The result is Kahn(g), a function of the graph alone,
      whatever order the dependency sets are walked in. */
  method SortAddresses<A(==, !new)>(g: Graph<A>) returns (r: Result<seq<A>>)
    requires g.Valid()
    ensures r == Kahn(g)
  {
    var inDegree, dependents := CountDependencies(g);
    var queue := InitialQueue(g, inDegree);
    var order: seq<A> := [];
    while queue != []
      invariant State(inDegree, queue, order) == Run(g, |order|)
      invariant |order| <= |g.names|
      decreases |g.names| - |order|
    {
      PopIsSafe(g, State(inDegree, queue, order));
      var addr, rest := queue[0], queue[1..];
      order := order + [addr];
      inDegree, queue := Release(inDegree, rest, Listed(dependents, addr));
    }
    RunStaysStuck(g, |order|, |g.names|);
    if |order| != |g.names| {
      return Err;
    }
    return Ok(order);
  }

  /** topoSortResources. */
  method TopoSortResources(rs: seq<DecodedResource>) returns (r: Result<seq<DecodedResource>>)
    requires NoDuplicates(Names(rs))
    ensures r == Sorted(rs)
  {
    GraphOfValid(rs);
    var order := SortAddresses(GraphOf(rs));
    match order {
      case Err => return Err;
      case Ok(addresses) => return Ok(Resources(rs, addresses));
    }
  }
}
