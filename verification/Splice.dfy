/** renderEmbeddedRefString: a JSON text with references as literals and addresses. */
module Splice {
  import opened Common
  import opened Blueprint

  /** One operand of the emitted concatenation: source text, or the runtime address of
      what the captured text names. */
  datatype Piece = Literal(text: string) | Address(captured: string)

  /** The regular expression reports its matches left to right and non-overlapping,
      with the captured address inside the match. */
  ghost predicate ValidSpans(s: string, spans: seq<RefSpan>, from: nat) {
    if spans == [] then from <= |s|
    else
      && from <= spans[0].start <= spans[0].addrStart <= spans[0].addrEnd <= spans[0].end <= |s|
      && ValidSpans(s, spans[1..], spans[0].end)
  }

  function Slice(s: string, i: nat, j: nat): string {
    if i <= j <= |s| then s[i..j] else []
  }

  /** What one match contributes, the cursor standing before it: the text since the
      cursor, when there is any, and the marker around the captured address. */
  function MatchPieces(s: string, cursor: nat, m: RefSpan): seq<Piece> {
    (if m.start > cursor then [Literal(Slice(s, cursor, m.start))] else [])
    + [Literal(Slice(s, m.start, m.addrStart)),
       Address(Slice(s, m.addrStart, m.addrEnd)),
       Literal(Slice(s, m.addrEnd, m.end))]
  }

  /** What is emitted for the matches of spans and the text after them. */
  function Pieces(s: string, spans: seq<RefSpan>, from: nat): seq<Piece> {
    if spans == [] then
      if from < |s| then [Literal(Slice(s, from, |s|))] else []
    else
      MatchPieces(s, from, spans[0]) + Pieces(s, spans[1..], spans[0].end)
  }

  /** Evaluating the concatenation, addresses being replaced by what address yields. */
  function Joined(pieces: seq<Piece>, address: string -> string): string {
    if pieces == [] then []
    else
      (match pieces[0] case Literal(t) => t case Address(c) => address(c)) + Joined(pieces[1..], address)
  }

  /** The source text from a position on, with each captured address replaced. */
  function Replaced(s: string, spans: seq<RefSpan>, from: nat, address: string -> string): string {
    if spans == [] then Slice(s, from, |s|)
    else
      Slice(s, from, spans[0].addrStart) + address(Slice(s, spans[0].addrStart, spans[0].addrEnd))
      + Replaced(s, spans[1..], spans[0].addrEnd, address)
  }

  lemma {:induction false} JoinedAppend(p: seq<Piece>, q: seq<Piece>, address: string -> string)
    ensures Joined(p + q, address) == Joined(p, address) + Joined(q, address)
  {
    if p == [] {
      assert p + q == q;
    } else {
      JoinedAppend(p[1..], q, address);
      assert (p + q)[1..] == p[1..] + q;
      Regroup(match p[0] case Literal(t) => t case Address(c) => address(c), Joined(p[1..], address),
              Joined(q, address));
    }
  }

  /** Replacing skips no text: moving the cursor over text before the first capture
      only splits a slice. */
  lemma {:induction false} ReplacedFrom(s: string, spans: seq<RefSpan>, from: nat, mid: nat, address: string -> string)
    requires from <= mid && ValidSpans(s, spans, mid)
    ensures Replaced(s, spans, from, address) == Slice(s, from, mid) + Replaced(s, spans, mid, address)
  {
    if spans == [] {
      CutAt(s, from, mid, |s|);
    } else {
      var a, b := spans[0].addrStart, spans[0].addrEnd;
      CutAt(s, from, mid, a);
      var captured, after := address(Slice(s, a, b)), Replaced(s, spans[1..], b, address);
      Regroup(s[from..mid], s[mid..a], captured);
      Regroup(s[from..mid], s[mid..a] + captured, after);
    }
  }

  lemma JoinedThree(p: seq<Piece>, address: string -> string)
    requires |p| == 3 && p[0].Literal? && p[1].Address? && p[2].Literal?
    ensures Joined(p, address) == p[0].text + address(p[1].captured) + p[2].text
  {
    assert p[1..][0] == p[1] && p[1..][1..] == [p[2]];
    assert Joined([p[2]], address) == p[2].text;
    assert Joined(p[1..], address) == address(p[1].captured) + Joined([p[2]], address);
  }

  lemma JoinedMatch(s: string, cursor: nat, m: RefSpan, address: string -> string)
    requires cursor <= m.start <= m.addrStart <= m.addrEnd <= m.end <= |s|
    ensures Joined(MatchPieces(s, cursor, m), address) ==
            Slice(s, cursor, m.addrStart) + address(Slice(s, m.addrStart, m.addrEnd)) + Slice(s, m.addrEnd, m.end)
  {
    var before := if m.start > cursor then [Literal(Slice(s, cursor, m.start))] else [];
    var marker := [Literal(s[m.start..m.addrStart]), Address(s[m.addrStart..m.addrEnd]), Literal(s[m.addrEnd..m.end])];
    JoinedAppend(before, marker, address);
    JoinedThree(marker, address);
    assert Joined(before, address) == s[cursor..m.start];
    assert s[cursor..m.addrStart] == s[cursor..m.start] + s[m.start..m.addrStart];
  }

  /** At run time the emitted concatenation is the source text with exactly the captured
      addresses replaced, for any way of computing addresses. */
  lemma {:induction false} PiecesReplaceAddresses(s: string, spans: seq<RefSpan>, from: nat, address: string -> string)
    requires ValidSpans(s, spans, from)
    ensures Joined(Pieces(s, spans, from), address) == Replaced(s, spans, from, address)
  {
    if spans == [] {
      assert s[from..|s|] == s[from..];
    } else {
      var m, rest := spans[0], spans[1..];
      var head, tail := Slice(s, from, m.addrStart), Slice(s, m.addrEnd, m.end);
      var captured := address(Slice(s, m.addrStart, m.addrEnd));
      calc {
        Joined(Pieces(s, spans, from), address);
        { JoinedAppend(MatchPieces(s, from, m), Pieces(s, rest, m.end), address); }
        Joined(MatchPieces(s, from, m), address) + Joined(Pieces(s, rest, m.end), address);
        { JoinedMatch(s, from, m, address); PiecesReplaceAddresses(s, rest, m.end, address); }
        (head + captured + tail) + Replaced(s, rest, m.end, address);
        { Regroup(head + captured, tail, Replaced(s, rest, m.end, address)); }
        head + captured + (tail + Replaced(s, rest, m.end, address));
        { ReplacedFrom(s, rest, m.addrEnd, m.end, address); }
        head + captured + Replaced(s, rest, m.addrEnd, address);
      }
    }
  }

  lemma ThreeCuts<T>(s: seq<T>, i: nat, j: nat, k: nat)
    requires i <= j <= k <= |s|
    ensures s[i..j] + s[j..k] + s[k..] == s[i..]
  {
  }

  lemma {:induction false} ReplacedByItself(s: string, spans: seq<RefSpan>, from: nat, address: string -> string)
    requires ValidSpans(s, spans, from) && forall t :: address(t) == t
    ensures Replaced(s, spans, from, address) == s[from..]
  {
    if spans == [] {
      assert s[from..|s|] == s[from..];
    } else {
      var m, rest := spans[0], spans[1..];
      ReplacedByItself(s, rest, m.end, address);
      ReplacedFrom(s, rest, m.addrEnd, m.end, address);
      ThreeCuts(s, m.addrEnd, m.end, |s|);
      assert Replaced(s, rest, m.addrEnd, address) == s[m.addrEnd..];
      ThreeCuts(s, from, m.addrStart, m.addrEnd);
    }
  }

  /** Nothing of the source is lost or repeated: with each reference put back as the
      text it was captured from, the emitted pieces concatenate to the source. */
  lemma PiecesRestoreSource(s: string, spans: seq<RefSpan>)
    requires ValidSpans(s, spans, 0)
    ensures Joined(Pieces(s, spans, 0), a => a) == s
  {
    PiecesReplaceAddresses(s, spans, 0, a => a);
    ReplacedByItself(s, spans, 0, a => a);
    assert s[0..] == s;
  }

  /** Where the loop's cursor stands after the matches of spans. */
  function Cursor(spans: seq<RefSpan>, from: nat): nat {
    if spans == [] then from else Cursor(spans[1..], spans[0].end)
  }

  /** The parts the loop has appended after the matches of spans. */
  function Emitted(s: string, spans: seq<RefSpan>, from: nat): seq<Piece> {
    if spans == [] then [] else MatchPieces(s, from, spans[0]) + Emitted(s, spans[1..], spans[0].end)
  }

  lemma {:induction false} EmittedAppend(s: string, spans: seq<RefSpan>, from: nat, m: RefSpan)
    ensures Emitted(s, spans + [m], from) == Emitted(s, spans, from) + MatchPieces(s, Cursor(spans, from), m)
    ensures Cursor(spans + [m], from) == m.end
  {
    if spans == [] {
      assert spans + [m] == [m] && [m][1..] == [];
    } else {
      EmittedAppend(s, spans[1..], spans[0].end, m);
      assert (spans + [m])[1..] == spans[1..] + [m];
    }
  }

  lemma {:induction false} EmittedAll(s: string, spans: seq<RefSpan>, from: nat)
    ensures Pieces(s, spans, from) == Emitted(s, spans, from) + Pieces(s, [], Cursor(spans, from))
  {
    if spans == [] {
    } else {
      EmittedAll(s, spans[1..], spans[0].end);
    }
  }

  /** The cursor loop of renderEmbeddedRefString. */
  method RenderEmbedded(s: string, spans: seq<RefSpan>) returns (parts: seq<Piece>)
    requires ValidSpans(s, spans, 0)
    ensures parts == Pieces(s, spans, 0)
  {
    parts := [];
    var cursor := 0;
    for i := 0 to |spans|
      invariant parts == Emitted(s, spans[..i], 0) && cursor == Cursor(spans[..i], 0)
    {
      var m := spans[i];
      ghost var emitted := parts;
      ghost var text := if m.start > cursor then [Literal(Slice(s, cursor, m.start))] else [];
      EmittedAppend(s, spans[..i], 0, m);
      assert spans[..i + 1] == spans[..i] + [m];
      if m.start > cursor {
        parts := parts + [Literal(Slice(s, cursor, m.start))];
      }
      assert parts == emitted + text;
      var marker := [Literal(Slice(s, m.start, m.addrStart)),
                     Address(Slice(s, m.addrStart, m.addrEnd)),
                     Literal(Slice(s, m.addrEnd, m.end))];
      Regroup(emitted, text, marker);
      parts := parts + marker;
      cursor := m.end;
    }
    assert spans[..|spans|] == spans;
    EmittedAll(s, spans, 0);
    if cursor < |s| {
      parts := parts + [Literal(Slice(s, cursor, |s|))];
    }
  }
}
