/** Which order the sort gives: what was ready sooner stands first, and of two that became
    ready at one moment, what is declared first. */
module SortOrder {
  import opened Common
  import opened Blueprint
  import opened TopoSort

  /** x is listed before y. */
  ghost predicate Earlier<A(!new)>(names: seq<A>, x: A, y: A) {
    exists p, q :: 0 <= p < q < |names| && names[p] == x && names[q] == y
  }

  ghost predicate InOrderOf<A(!new)>(names: seq<A>, s: seq<A>) {
    forall i, j | 0 <= i < j < |s| :: Earlier(names, s[i], s[j])
  }

  /** Everything x depends on is among the first n, and not among fewer. */
  ghost predicate ReadySince<A(!new)>(g: Graph<A>, order: seq<A>, x: A, n: nat) {
    && x in g.deps && n <= |order| && g.deps[x] <= Elements(order[..n])
    && (n > 0 ==> !(g.deps[x] <= Elements(order[..n - 1])))
  }

  /** x was ready sooner than y, or at the same moment and is declared first. */
  ghost predicate Precedes<A(!new)>(g: Graph<A>, order: seq<A>, x: A, y: A) {
    forall n, m | ReadySince(g, order, x, n) && ReadySince(g, order, y, m) ::
      n < m || (n == m && Earlier(g.names, x, y))
  }

  /** The first ready come first, and then the first declared. */
  ghost predicate FirstReadyFirst<A(!new)>(g: Graph<A>, order: seq<A>, all: seq<A>) {
    forall i, j | 0 <= i < j < |all| :: Precedes(g, order, all[i], all[j])
  }

  // ------------------------------------------------------ lists in declared order

  lemma EarlierMore<A(!new)>(names: seq<A>, more: seq<A>, x: A, y: A)
    requires Earlier(names, x, y)
    ensures Earlier(names + more, x, y)
  {
    var p, q :| 0 <= p < q < |names| && names[p] == x && names[q] == y;
    assert (names + more)[p] == x && (names + more)[q] == y;
  }

  lemma EarlierThanLast<A(!new)>(front: seq<A>, x: A, n: A)
    requires x in front
    ensures Earlier(front + [n], x, n)
  {
    var p :| 0 <= p < |front| && front[p] == x;
    assert (front + [n])[p] == x && (front + [n])[|front|] == n;
  }

  lemma InOrderMore<A(!new)>(front: seq<A>, n: A, s: seq<A>)
    requires InOrderOf(front, s) && forall x | x in s :: x in front
    ensures InOrderOf(front + [n], s) && InOrderOf(front + [n], s + [n])
  {
    forall i, j | 0 <= i < j < |s + [n]| ensures Earlier(front + [n], (s + [n])[i], (s + [n])[j]) {
      if j < |s| {
        EarlierMore(front, [n], s[i], s[j]);
      } else {
        EarlierThanLast(front, s[i], n);
      }
    }
    forall i, j | 0 <= i < j < |s| ensures Earlier(front + [n], s[i], s[j]) {
      assert (s + [n])[i] == s[i] && (s + [n])[j] == s[j];
    }
  }

  lemma {:induction false} DependentsInOrder<A(!new)>(names: seq<A>, deps: map<A, set<A>>, a: A)
    ensures InOrderOf(names, Dependents(names, deps, a))
    ensures forall x | x in Dependents(names, deps, a) :: x in names
  {
    if names != [] {
      var front, n := names[..|names| - 1], names[|names| - 1];
      DependentsInOrder(front, deps, a);
      InOrderMore(front, n, Dependents(front, deps, a));
      assert names == front + [n];
    }
  }

  lemma {:induction false} ZerosInOrder<A(!new)>(names: seq<A>, m: map<A, int>)
    ensures InOrderOf(names, Zeros(names, m))
    ensures forall x | x in Zeros(names, m) :: x in names
  {
    if names != [] {
      var front, n := names[..|names| - 1], names[|names| - 1];
      ZerosInOrder(front, m);
      InOrderMore(front, n, Zeros(front, m));
      assert names == front + [n];
    }
  }

  /** A pass appends what it releases, in the order of the list it walks. */
  lemma {:induction false} RelaxAppends<A(!new)>(m0: map<A, int>, q0: seq<A>, ds: seq<A>) returns (released: seq<A>)
    ensures Relax(m0, q0, ds).1 == q0 + released
    ensures InOrderOf(ds, released) && forall x | x in released :: x in ds
  {
    if ds == [] {
      released := [];
    } else {
      var front, d := ds[..|ds| - 1], ds[|ds| - 1];
      assert ds == front + [d];
      released := RelaxAppends(m0, q0, front);
      InOrderMore(front, d, released);
      var m := Relax(m0, q0, front).0;
      if d in m && m[d] == 1 {
        assert q0 + released + [d] == q0 + (released + [d]);
        released := released + [d];
      }
    }
  }

  lemma InOrderWithin<A(!new)>(names: seq<A>, ds: seq<A>, s: seq<A>)
    requires InOrderOf(names, ds) && InOrderOf(ds, s)
    ensures InOrderOf(names, s)
  {
    forall i, j | 0 <= i < j < |s| ensures Earlier(names, s[i], s[j]) {
      assert Earlier(ds, s[i], s[j]);
      var p, q :| 0 <= p < q < |ds| && ds[p] == s[i] && ds[q] == s[j];
      assert Earlier(names, ds[p], ds[q]);
    }
  }

  // -------------------------------------------------------------- the invariant

  /** What has been popped and what waits, as one list, stands in order. */
  ghost predicate Lined<A(!new)>(g: Graph<A>, s: State<A>) { FirstReadyFirst(g, s.order, s.order + s.queue) }

  ghost predicate ReadyAll<A(!new)>(g: Graph<A>, order: seq<A>, all: seq<A>) {
    forall x | x in all :: x in g.deps && g.deps[x] <= Elements(order)
  }

  ghost predicate NoneReady<A(!new)>(g: Graph<A>, order: seq<A>, some: seq<A>) {
    forall x | x in some :: x in g.deps && !(g.deps[x] <= Elements(order))
  }

  /** Popping one more resource does not change since when the others were ready. */
  lemma SinceStays<A(!new)>(g: Graph<A>, order: seq<A>, a: A, x: A, n: nat)
    requires x in g.deps && g.deps[x] <= Elements(order)
    ensures ReadySince(g, order + [a], x, n) <==> ReadySince(g, order, x, n)
  {
    var longer := order + [a];
    if n <= |order| {
      assert longer[..n] == order[..n];
      assert n > 0 ==> longer[..n - 1] == order[..n - 1];
    } else if n == |longer| {
      assert longer[..n - 1] == order;
    }
  }

  lemma SinceNow<A(!new)>(g: Graph<A>, order: seq<A>, a: A, x: A, n: nat)
    requires x in g.deps && !(g.deps[x] <= Elements(order)) && ReadySince(g, order + [a], x, n)
    ensures n == |order| + 1
  {
    NotSinceBefore(g, order, a, x);
  }

  lemma NotSinceBefore<A(!new)>(g: Graph<A>, order: seq<A>, a: A, x: A)
    requires x in g.deps && !(g.deps[x] <= Elements(order))
    ensures forall n | 0 <= n <= |order| :: !ReadySince(g, order + [a], x, n)
  {
    forall n | 0 <= n <= |order| ensures !ReadySince(g, order + [a], x, n) {
      assert (order + [a])[..n] == order[..n];
      assert Elements(order[..n]) <= Elements(order);
    }
  }

  lemma PrecedesStays<A(!new)>(g: Graph<A>, order: seq<A>, a: A, x: A, y: A)
    requires x in g.deps && g.deps[x] <= Elements(order) && y in g.deps && g.deps[y] <= Elements(order)
    requires Precedes(g, order, x, y)
    ensures Precedes(g, order + [a], x, y)
  {
    forall n, m | ReadySince(g, order + [a], x, n) && ReadySince(g, order + [a], y, m)
      ensures n < m || (n == m && Earlier(g.names, x, y))
    {
      SinceStays(g, order, a, x, n);
      SinceStays(g, order, a, y, m);
    }
  }

  lemma OldPrecedesNew<A(!new)>(g: Graph<A>, order: seq<A>, a: A, x: A, y: A)
    requires x in g.deps && g.deps[x] <= Elements(order) && y in g.deps && !(g.deps[y] <= Elements(order))
    ensures Precedes(g, order + [a], x, y)
  {
    forall n, m | ReadySince(g, order + [a], x, n) && ReadySince(g, order + [a], y, m) ensures n < m {
      SinceStays(g, order, a, x, n);
      SinceNow(g, order, a, y, m);
    }
  }

  lemma NewPrecedesNew<A(!new)>(g: Graph<A>, order: seq<A>, a: A, x: A, y: A)
    requires x in g.deps && !(g.deps[x] <= Elements(order)) && y in g.deps && !(g.deps[y] <= Elements(order))
    requires Earlier(g.names, x, y)
    ensures Precedes(g, order + [a], x, y)
  {
    forall n, m | ReadySince(g, order + [a], x, n) && ReadySince(g, order + [a], y, m) ensures n == m {
      SinceNow(g, order, a, x, n);
      SinceNow(g, order, a, y, m);
    }
  }

  /** One step lines up what it releases behind the rest. */
  lemma LinesUp<A(!new)>(g: Graph<A>, order: seq<A>, a: A, was: seq<A>, released: seq<A>)
    requires ReadyAll(g, order, was) && NoneReady(g, order, released)
    requires FirstReadyFirst(g, order, was) && InOrderOf(g.names, released)
    ensures FirstReadyFirst(g, order + [a], was + released)
  {
    var now := was + released;
    forall i, j | 0 <= i < j < |now| ensures Precedes(g, order + [a], now[i], now[j]) {
      if j < |was| {
        PrecedesStays(g, order, a, was[i], was[j]);
      } else if i < |was| {
        OldPrecedesNew(g, order, a, was[i], released[j - |was|]);
      } else {
        NewPrecedesNew(g, order, a, released[i - |was|], released[j - |was|]);
      }
    }
  }

  /** What one step appends to the line. */
  lemma StepAppends<A(!new)>(g: Graph<A>, s: State<A>) returns (released: seq<A>)
    requires s.queue != []
    ensures Step(g, s).order == s.order + [s.queue[0]]
    ensures Step(g, s).order + Step(g, s).queue == (s.order + s.queue) + released
    ensures InOrderOf(g.names, released)
    ensures forall x | x in released :: x in Dependents(g.names, g.deps, s.queue[0])
  {
    var a := s.queue[0];
    var ds := Dependents(g.names, g.deps, a);
    released := RelaxAppends(s.inDegree, s.queue[1..], ds);
    DependentsInOrder(g.names, g.deps, a);
    InOrderWithin(g.names, ds, released);
    assert s.queue == [a] + s.queue[1..];
  }

  lemma AllReady<A(!new)>(g: Graph<A>, s: State<A>)
    requires Inv(g, s)
    ensures ReadyAll(g, s.order, s.order + s.queue)
  {
    forall x | x in s.order + s.queue ensures x in g.deps && g.deps[x] <= Elements(s.order) {
      ZeroIsReady(g, s, x);
    }
  }

  lemma ReleasedWereNotReady<A(!new)>(g: Graph<A>, s: State<A>, released: seq<A>)
    requires g.Valid() && Inv(g, s) && s.queue != []
    requires forall x | x in released :: x in Dependents(g.names, g.deps, s.queue[0])
    ensures NoneReady(g, s.order, released)
  {
    DependentsOutstanding(g, s, s.queue[0]);
    forall x | x in released ensures x in g.deps && !(g.deps[x] <= Elements(s.order)) {
      OutstandingIsNotReady(g, s, x);
    }
  }

  lemma StepLines<A(!new)>(g: Graph<A>, s: State<A>)
    requires g.Valid() && Inv(g, s) && s.queue != [] && Lined(g, s)
    ensures Lined(g, Step(g, s))
  {
    var released := StepAppends(g, s);
    AllReady(g, s);
    ReleasedWereNotReady(g, s, released);
    LinesUp(g, s.order, s.queue[0], s.order + s.queue, released);
  }

  lemma NothingLeft<A>(a: set<A>, b: set<A>)
    ensures a <= b ==> |a - b| == 0
  {
    assert a <= b ==> a - b == {};
  }

  lemma OutstandingIsNotReady<A(!new)>(g: Graph<A>, s: State<A>, x: A)
    requires Inv(g, s) && x in s.inDegree && s.inDegree[x] > 0
    ensures x in g.deps && !(g.deps[x] <= Elements(s.order))
  {
    NothingLeft(g.deps[x], Elements(s.order));
  }

  lemma ZeroIsReady<A(!new)>(g: Graph<A>, s: State<A>, x: A)
    requires Inv(g, s) && x in s.order + s.queue
    ensures x in g.deps && g.deps[x] <= Elements(s.order)
  {
    assert x in s.order || x in s.queue;
    assert |g.deps[x] - Elements(s.order)| == 0;
    forall d | d in g.deps[x] ensures d in Elements(s.order) {
      assert d in g.deps[x] - Elements(s.order) || d in Elements(s.order);
    }
  }

  lemma InitLines<A(!new)>(g: Graph<A>)
    requires g.Valid()
    ensures Lined(g, Init(g))
  {
    var s := Init(g);
    InitInv(g);
    ZerosInOrder(g.names, s.inDegree);
    assert s.order + s.queue == s.queue;
    forall i, j | 0 <= i < j < |s.queue| ensures Precedes(g, s.order, s.queue[i], s.queue[j]) {
      assert Earlier(g.names, s.queue[i], s.queue[j]);
    }
  }

  lemma {:induction false} RunLines<A(!new)>(g: Graph<A>, n: nat) returns (s: State<A>)
    requires g.Valid()
    ensures s == Run(g, n) && Lined(g, s)
  {
    if n == 0 {
      s := Init(g);
      InitLines(g);
    } else {
      var m: nat := n - 1;
      var before := RunLines(g, m);
      RunInv(g, m);
      s := Step(g, before);
      NextLines(g, before, s);
    }
  }

  lemma NextLines<A(!new)>(g: Graph<A>, s: State<A>, t: State<A>)
    requires g.Valid() && Inv(g, s) && Lined(g, s) && t == Step(g, s)
    ensures Lined(g, t)
  {
    if s.queue != [] {
      StepLines(g, s);
    }
  }

  // ------------------------------------------------------------ the order it gives

  /** The order the sort promises. */
  ghost predicate Promised<A(!new)>(g: Graph<A>, order: seq<A>) {
    IsTopologicalOrder(g, order) && FirstReadyFirst(g, order, order)
  }

  lemma SortGivesPromised<A(!new)>(g: Graph<A>)
    requires g.Valid() && Kahn(g).Ok?
    ensures Promised(g, Kahn(g).value)
  {
    var s := FinalState(g);
    SortedOrderIsTopological(g);
    var lined := RunLines(g, |g.names|);
    assert s.order + s.queue == s.order;
  }

  lemma {:induction false} SinceWhen<A(!new)>(g: Graph<A>, order: seq<A>, x: A, k: nat) returns (n: nat)
    requires x in g.deps && k <= |order| && g.deps[x] <= Elements(order[..k])
    ensures n <= k && ReadySince(g, order, x, n)
    decreases k
  {
    if k > 0 && g.deps[x] <= Elements(order[..k - 1]) {
      n := SinceWhen(g, order, x, k - 1);
    } else {
      n := k;
    }
  }

  lemma SameSince<A(!new)>(g: Graph<A>, o: seq<A>, p: seq<A>, k: nat, x: A, n: nat)
    requires k <= |o| && k <= |p| && o[..k] == p[..k] && n <= k && ReadySince(g, o, x, n)
    ensures ReadySince(g, p, x, n)
  {
    assert o[..n] == o[..k][..n] && p[..n] == p[..k][..n];
    assert n > 0 ==> o[..n - 1] == o[..k][..n - 1] && p[..n - 1] == p[..k][..n - 1];
  }

  lemma SamePlace<A(!new)>(names: seq<A>, i: nat, j: nat)
    requires NoDuplicates(names) && i < |names| && j < |names|
    ensures names[i] == names[j] ==> i == j
  {
  }

  lemma NotBothEarlier<A(!new)>(names: seq<A>, x: A, y: A)
    requires NoDuplicates(names) && Earlier(names, x, y)
    ensures !Earlier(names, y, x)
  {
    var p, q :| 0 <= p < q < |names| && names[p] == x && names[q] == y;
    forall i, j | 0 <= i < j < |names| ensures !(names[i] == y && names[j] == x) {
      SamePlace(names, i, q);
      SamePlace(names, j, p);
    }
  }

  /** Two resources that both could come next cannot each come before the other. */
  lemma NextIsTheSame<A(!new)>(g: Graph<A>, o: seq<A>, p: seq<A>, k: nat)
    requires g.Valid() && Promised(g, o) && Promised(g, p) && k < |o| && k < |p| && o[..k] == p[..k]
    ensures o[k] == p[k]
  {
    var x, y := o[k], p[k];
    if x != y {
      var j := FoundLater(g, o, p, k);
      var i := FoundLater(g, p, o, k);
      assert Precedes(g, o, o[k], o[j]) && Precedes(g, p, p[k], p[i]);
      var n := SinceWhen(g, o, x, k);
      var m := SinceWhen(g, p, y, k);
      SameSince(g, o, p, k, x, n);
      SameSince(g, p, o, k, y, m);
      if n == m {
        NotBothEarlier(g.names, x, y);
      }
    }
  }

  /** What comes next in one order comes later in the other. */
  lemma FoundLater<A(!new)>(g: Graph<A>, o: seq<A>, p: seq<A>, k: nat) returns (j: nat)
    requires multiset(o) == multiset(g.names) == multiset(p) && NoDuplicates(g.names)
    requires k < |o| && k < |p| && o[..k] == p[..k] && o[k] != p[k]
    ensures k < j < |o| && o[j] == p[k]
  {
    SameMembers(o, p);
    DistinctAs(g.names, p);
    assert forall i | 0 <= i < k :: o[i] == o[..k][i] && p[i] == p[..k][i];
    assert p[k] in p;
    j :| 0 <= j < |o| && o[j] == p[k];
  }

  lemma DistinctAs<A(!new)>(names: seq<A>, p: seq<A>)
    requires NoDuplicates(names) && multiset(p) == multiset(names)
    ensures NoDuplicates(p)
  {
    forall x ensures multiset(p)[x] <= 1 { AtMostOnce(names, x); }
    DistinctFromMultiset(p);
  }

  lemma {:induction false} PrefixesAgree<A(!new)>(g: Graph<A>, o: seq<A>, p: seq<A>, k: nat)
    requires g.Valid() && Promised(g, o) && Promised(g, p) && k <= |o| && k <= |p|
    ensures o[..k] == p[..k]
  {
    if k > 0 {
      var m: nat := k - 1;
      PrefixesAgree(g, o, p, m);
      NextIsTheSame(g, o, p, m);
      assert o[..k] == o[..m] + [o[m]] && p[..k] == p[..m] + [p[m]];
    }
  }

  /** The order is determined: the sort gives an order if and only if it is the one in
      which dependencies come first, then what was ready first, then what was declared
      first. */
  lemma SortedIffPromised<A(!new)>(g: Graph<A>, order: seq<A>)
    requires g.Valid()
    ensures Kahn(g) == Ok(order) <==> Promised(g, order)
  {
    if Kahn(g).Ok? {
      SortGivesPromised(g);
    }
    if Promised(g, order) {
      PromisedSorts(g, order);
      var o := Kahn(g).value;
      assert |o| == |multiset(o)| == |multiset(order)| == |order|;
      PrefixesAgree(g, o, order, |o|);
      assert o[..|o|] == o && order[..|order|] == order;
    }
  }

  lemma PromisedSorts<A(!new)>(g: Graph<A>, order: seq<A>)
    requires g.Valid() && IsTopologicalOrder(g, order)
    ensures Kahn(g).Ok? && Promised(g, Kahn(g).value)
  {
    DistinctAs(g.names, order);
    SameMembers(order, g.names);
    assert Elements(order) == Elements(g.names);
    ReadyIsClosed(g, order);
    ReadyIsAcyclic(g, order);
    SortSucceedsIffAcyclic(g);
    SortGivesPromised(g);
  }

  /** So the resources stand in the order their addresses are promised. */
  lemma ResourcesInPromisedOrder(rs: seq<DecodedResource>)
    requires NoDuplicates(Names(rs)) && Sorted(rs).Ok?
    ensures Promised(GraphOf(rs), Names(Sorted(rs).value))
  {
    GraphOfValid(rs);
    var order := Kahn(GraphOf(rs)).value;
    SortedIffPromised(GraphOf(rs), order);
    SameMembers(order, Names(rs));
    ResourcesAt(rs, order);
  }
}
