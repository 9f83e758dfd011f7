/** A text in another stack: the stack names of the addresses in it, replaced. */
module Restacking {
  import opened Common
  import Splice

  /** Where stack names are written: chars[start..end], one after the other. */
  type Places = seq<(nat, nat)>

  /** An address in another stack is the same but for the name it starts with. */
  function Restacked(s: string, at: Places, from: nat, stack: string): string {
    if at == [] then Splice.Slice(s, from, |s|)
    else Splice.Slice(s, from, at[0].0) + stack + Restacked(s, at[1..], at[0].1, stack)
  }

  lemma RestackedCons(s: string, at: Places, rest: Places, from: nat, stack: string, start: nat, end: nat)
    requires at != [] && at[0] == (start, end) && at[1..] == rest
    ensures Restacked(s, at, from, stack)
            == Splice.Slice(s, from, start) + stack + Restacked(s, rest, end, stack)
  {
  }

  ghost predicate Ordered(s: string, at: Places, from: nat) {
    if at == [] then from <= |s|
    else from <= at[0].0 <= at[0].1 <= |s| && Ordered(s, at[1..], at[0].1)
  }

  /** Moving the cursor over text before the first place only splits a slice. */
  lemma RestackedFrom(s: string, at: Places, from: nat, mid: nat, stack: string)
    requires from <= mid && Ordered(s, at, mid)
    ensures Restacked(s, at, from, stack) == Splice.Slice(s, from, mid) + Restacked(s, at, mid, stack)
  {
    if at == [] {
      CutAt(s, from, mid, |s|);
    } else {
      CutAt(s, from, mid, at[0].0);
      Regroup(s[from..mid], s[mid..at[0].0], stack);
      Regroup(s[from..mid], s[mid..at[0].0] + stack, Restacked(s, at[1..], at[0].1, stack));
    }
  }

  // ------------------------------------------------------------ telling places apart

  function Width(at: Places): int {
    if at == [] then 0 else at[0].1 - at[0].0 + Width(at[1..])
  }

  lemma {:induction false} RestackedLength(s: string, at: Places, from: nat, stack: string)
    requires Ordered(s, at, from) && |stack| <= 1
    ensures |Restacked(s, at, from, stack)| == |s| - from - Width(at) + if stack == [] then 0 else |at|
  {
    if at != [] {
      RestackedLength(s, at[1..], at[0].1, stack);
    }
  }

  ghost predicate WidthsAtLeast(at: Places, width: nat) {
    forall i | 0 <= i < |at| :: at[i].0 + width <= at[i].1
  }

  ghost predicate WidthsAre(at: Places, width: nat) {
    forall i | 0 <= i < |at| :: at[i].0 + width == at[i].1
  }

  function Times(n: nat, width: nat): nat { if n == 0 then 0 else width + Times(n - 1, width) }

  lemma WidthsTail(at: Places, width: nat)
    requires at != []
    ensures WidthsAtLeast(at, width) <==> at[0].0 + width <= at[0].1 && WidthsAtLeast(at[1..], width)
    ensures WidthsAre(at, width) <==> at[0].0 + width == at[0].1 && WidthsAre(at[1..], width)
  {
    assert forall i | 0 <= i < |at[1..]| :: at[1..][i] == at[i + 1];
  }

  lemma {:induction false} WidthTight(at: Places, width: nat)
    requires WidthsAtLeast(at, width)
    ensures Width(at) >= Times(|at|, width)
    ensures Width(at) == Times(|at|, width) <==> WidthsAre(at, width)
  {
    if at != [] {
      WidthsTail(at, width);
      WidthTight(at[1..], width);
    }
  }

  /** The first place that only one of the two lists has shows in the text, under some name
      of one character. */
  lemma {:induction false} SplitName(s: string, p: Places, q: Places, from: nat, width: nat) returns (c: char)
    requires Ordered(s, p, from) && Ordered(s, q, from) && WidthsAre(p, width) && WidthsAre(q, width)
    requires |p| == |q| && p != q
    ensures Restacked(s, p, from, [c]) != Restacked(s, q, from, [c])
  {
    if p[0] == q[0] {
      FirstSplits(p);
      FirstSplits(q);
      WidthsTail(p, width);
      WidthsTail(q, width);
      c := SplitName(s, p[1..], q[1..], p[0].1, width);
      var head := Splice.Slice(s, from, p[0].0) + [c];
      if head + Restacked(s, p[1..], p[0].1, [c]) == head + Restacked(s, q[1..], p[0].1, [c]) {
        CancelPrefix(head, Restacked(s, p[1..], p[0].1, [c]), Restacked(s, q[1..], p[0].1, [c]));
      }
    } else if p[0].0 < q[0].0 {
      c := Other(s[p[0].0]);
      FirstPlaceShows(s, p, q, from, c);
    } else {
      assert q[0].0 < p[0].0;
      c := Other(s[q[0].0]);
      FirstPlaceShows(s, q, p, from, c);
    }
  }

  function Other(c: char): (d: char)
    ensures d != c
  {
    if c == 'x' then 'y' else 'x'
  }

  lemma AfterHead<T>(head: seq<T>, x: T, rest: seq<T>)
    ensures (head + [x] + rest)[|head|] == x
  {
  }

  lemma InHead<T>(head: seq<T>, middle: seq<T>, rest: seq<T>, k: nat)
    requires k < |head|
    ensures (head + middle + rest)[k] == head[k]
  {
  }

  lemma FirstPlaceShows(s: string, p: Places, q: Places, from: nat, c: char)
    requires Ordered(s, p, from) && Ordered(s, q, from) && p != [] && q != []
    requires p[0].0 < q[0].0 && c != s[p[0].0]
    ensures Restacked(s, p, from, [c]) != Restacked(s, q, from, [c])
  {
    var k := p[0].0 - from;
    AfterHead(s[from..p[0].0], c, Restacked(s, p[1..], p[0].1, [c]));
    InHead(s[from..q[0].0], [c], Restacked(s, q[1..], q[0].1, [c]), k);
    assert s[from..q[0].0][k] == s[p[0].0];
  }

  predicate Alike(s: string, p: Places, q: Places, name: string) {
    Restacked(s, p, 0, name) == Restacked(s, q, 0, name)
  }

  lemma SameShape(s: string, p: Places, q: Places, width: nat)
    requires Ordered(s, p, 0) && Ordered(s, q, 0) && WidthsAre(p, width) && WidthsAtLeast(q, width)
    requires Alike(s, p, q, []) && Alike(s, p, q, "x")
    ensures |p| == |q| && WidthsAre(q, width)
  {
    RestackedLength(s, p, 0, []);
    RestackedLength(s, q, 0, []);
    RestackedLength(s, p, 0, "x");
    RestackedLength(s, q, 0, "x");
    WidthTight(p, width);
    WidthTight(q, width);
  }

  /** Different places, of which one list holds places of one width and the other none
      narrower, give different texts under some stack name. */
  lemma TellsApart(s: string, p: Places, q: Places, width: nat) returns (name: string)
    requires Ordered(s, p, 0) && Ordered(s, q, 0) && WidthsAre(p, width) && WidthsAtLeast(q, width)
    requires p != q
    ensures !Alike(s, p, q, name)
  {
    if !Alike(s, p, q, []) {
      name := [];
    } else if !Alike(s, p, q, "x") {
      name := "x";
    } else {
      SameShape(s, p, q, width);
      var c := SplitName(s, p, q, 0, width);
      name := [c];
    }
  }

  /** Two such lists give one text under every stack name if and only if they are the same
      list. */
  lemma RestackedAlikeIff(s: string, p: Places, q: Places, width: nat)
    requires Ordered(s, p, 0) && Ordered(s, q, 0) && WidthsAre(p, width) && WidthsAtLeast(q, width)
    ensures (forall name :: Alike(s, p, q, name)) <==> p == q
  {
    if p != q {
      var name := TellsApart(s, p, q, width);
    }
  }
}
