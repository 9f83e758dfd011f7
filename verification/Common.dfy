/** Failure-carrying results and the small facts about sequences and sets that
    several components share. */
module Common {

  datatype Option<+T> = None | Some(value: T)

  /** The outcome of an operation that returns (value, error) in Go.  Error texts
      are not modelled: only whether the operation fails. */
  datatype Result<+T> = Ok(value: T) | Err

  ghost predicate NoDuplicates<T>(s: seq<T>) {
    forall i, j | 0 <= i < j < |s| :: s[i] != s[j]
  }

  function Elements<T>(s: seq<T>): (r: set<T>) {
    set x | x in s
  }

  lemma Regroup<T>(a: seq<T>, b: seq<T>, c: seq<T>)
    ensures (a + b) + c == a + (b + c)
  {
  }

  lemma ConsSnoc<T>(x: T, front: seq<T>, y: T)
    ensures [x] + (front + [y]) == ([x] + front) + [y]
  {
  }

  lemma LastSplits<T>(s: seq<T>)
    requires s != []
    ensures s == s[..|s| - 1] + [s[|s| - 1]]
  {
  }

  lemma FirstSplits<T>(s: seq<T>)
    requires s != []
    ensures s == [s[0]] + s[1..]
  {
  }

  lemma CutAt<T>(s: seq<T>, i: nat, j: nat, k: nat)
    requires i <= j <= k <= |s|
    ensures s[i..k] == s[i..j] + s[j..k]
  {
  }

  lemma CancelPrefix<T>(a: seq<T>, x: seq<T>, y: seq<T>)
    requires a + x == a + y
    ensures x == y
  {
    assert (a + x)[|a|..] == x && (a + y)[|a|..] == y;
  }

  lemma SameMembers<T(!new)>(a: seq<T>, b: seq<T>)
    requires multiset(a) == multiset(b)
    ensures forall x :: x in a <==> x in b
  {
    forall x ensures x in a <==> x in b {
      assert x in a <==> x in multiset(a);
      assert x in b <==> x in multiset(b);
    }
  }

  lemma ElementsAppend<T>(s: seq<T>, x: T)
    ensures Elements(s + [x]) == Elements(s) + {x}
  {
    forall y | y in Elements(s) + {x} ensures y in s + [x] {
      if y == x { assert (s + [x])[|s|] == x; }
    }
  }

  lemma {:induction false} DistinctCardinality<T>(s: seq<T>)
    requires NoDuplicates(s)
    ensures |Elements(s)| == |s|
  {
    if s == [] {
    } else {
      var rest := s[..|s| - 1];
      DistinctCardinality(rest);
      ElementsAppend(rest, s[|s| - 1]);
      assert s == rest + [s[|s| - 1]];
      assert s[|s| - 1] !in rest;
    }
  }

  /** Pigeonhole: a sequence longer than the set it draws from repeats an element. */
  lemma {:induction false} Pigeonhole<T>(s: seq<T>, bound: set<T>) returns (i: nat, j: nat)
    requires forall k | 0 <= k < |s| :: s[k] in bound
    requires |bound| < |s|
    ensures i < j < |s| && s[i] == s[j]
  {
    if NoDuplicates(s) {
      DistinctCardinality(s);
      SubsetCardinality(Elements(s), bound);
      assert false;
    } else {
      i, j :| 0 <= i < j < |s| && s[i] == s[j];
    }
  }

  lemma {:induction false} SubsetCardinality<T>(a: set<T>, b: set<T>)
    requires a <= b
    ensures |a| <= |b|
    ensures |a| == |b| ==> a == b
  {
    assert |b| == |a| + |b - a| by {
      assert b == a + (b - a);
    }
    if |a| == |b| {
      assert b - a == {};
    }
  }

  /** Walks a Go map or set: the elements come out in an order the program does not
      choose, so nothing but membership and distinctness is promised. */
  method InSomeOrder<T(==)>(s: set<T>) returns (q: seq<T>)
    ensures Elements(q) == s && NoDuplicates(q)
  {
    q := [];
    var rest := s;
    while rest != {}
      invariant rest <= s
      invariant Elements(q) == s - rest
      invariant NoDuplicates(q)
      decreases |rest|
    {
      var x :| x in rest;
      rest := rest - {x};
      assert x !in Elements(q);
      ElementsAppend(q, x);
      q := q + [x];
    }
  }
}
