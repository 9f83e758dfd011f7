/** What the code for one string evaluates to, and when that is what the string means.

    The code for a JSON text that holds references replaces the stack names of the
    addresses the regular expression captures; the text means itself with the stack names
    of the references decoding collects replaced.  The two agree in every stack exactly
    when they are the same places. */
module CodegenTexts {
  import opened Common
  import opened Blueprint
  import opened Decode
  import opened Codegen
  import opened CodegenProofs
  import opened Restacking
  import Interpolation
  import Splice

  /** The local of every listed resource holds that resource's own handle. */
  ghost predicate HandlesBound(c: Ctx, targets: set<string>, f: Frame) {
    forall a | a in targets :: a in c.names.local && c.names.local[a] in f && f[c.names.local[a]] == VHandle(a, [])
  }

  /** Every token that may be referenced here evaluates to its argument. */
  ghost predicate TokensBound(c: Ctx, f: Frame, args: Args) {
    forall n | ParamRef(c, n).Ok? :: n in args && ParamRef(c, n).value in f && f[ParamRef(c, n).value] == args[n]
  }

  // -------------------------------------------------------- what is given of a text

  /** Where the stack names of the captured addresses stand. */
  function Captured(stack: string, refs: seq<RefSpan>): (at: Places)
    ensures |at| == |refs|
  {
    seq(|refs|, i requires 0 <= i < |refs| => (refs[i].addrStart, refs[i].addrStart + |stack|))
  }

  /** An operator and a number, as the second regular expression matches them. */
  predicate PlainToken(t: Token) {
    t.op == "" || (|t.op| == 1 && t.op[0] in "+-*/" && forall i | 0 <= i < |t.literal| :: '0' <= t.literal[i] <= '9')
  }

  /** What the decoder and the expressions guarantee of a leaf: matches in order, and for a
      JSON text the references it holds, in order, no stack name written shorter than it
      is. */
  ghost predicate ValidText(stack: string, t: Text) {
    && Splice.ValidSpans(t.chars, t.refs, 0)
    && (forall i | 0 <= i < |t.tokens| :: PlainToken(t.tokens[i]))
    && (IsEmbedded(t) ==>
          && Ordered(t.chars, Marked(t), 0) && WidthsAtLeast(Marked(t), |stack|)
          && (set m | m in t.marks :: m.address) == CollectRefs(Str(t)))
  }

  /** A generator's identifiers hold nothing that ends a hole or splits it. */
  predicate PlainIdent(x: string) { Interpolation.PlainExpr(x) && ' ' !in x && '(' !in x }

  ghost predicate PlainNames(n: Names) {
    PlainIdent(n.value) && PlainIdent(n.index) && forall p | p in n.param :: PlainIdent(n.param[p])
  }

  // --------------------------------------------------------------- embedded markers

  lemma CutAround<T>(s: seq<T>, k: nat)
    requires k < |s|
    ensures s == s[..k] + ([s[k]] + s[k + 1..])
  {
  }

  lemma JoinDotsCons(parts: seq<string>)
    requires parts != []
    ensures JoinDots(parts) == "." + (parts[0] + JoinDots(parts[1..]))
  {
    Regroup(".", parts[0], JoinDots(parts[1..]));
  }

  lemma JoinDotsOne(part: string)
    ensures part + JoinDots([part][1..]) == part
  {
    assert [part][1..] == [] && part + [] == part;
  }

  lemma {:induction false} SplitJoins(s: string)
    ensures s == SplitDots(s)[0] + JoinDots(SplitDots(s)[1..])
  {
    var k := FirstDot(s);
    if k < |s| {
      var rest := SplitDots(s[k + 1..]);
      SplitJoins(s[k + 1..]);
      JoinDotsCons(rest);
      CutAround(s, k);
      ConsTail(s[..k], rest);
    } else {
      JoinDotsOne(s);
    }
  }

  lemma ConsTail<T>(x: T, rest: seq<T>)
    ensures ([x] + rest)[0] == x && ([x] + rest)[1..] == rest
  {
  }

  /** An address that resolves is its target's address in the blueprint's own stack. */
  lemma ResolvedIsAddress(stack: string, known: set<string>, addr: string)
    requires ResolveAddress(stack, known, addr).Ok?
    ensures var t := ResolveAddress(stack, known, addr).value;
      addr == RuntimeAddress(stack, t.address, t.path)
  {
    var parts := SplitDots(addr);
    SplitJoins(addr);
    var tail := parts[1..];
    assert tail[0] == parts[1] && tail[1..][0] == parts[2] && tail[1..][1..] == parts[3..];
    assert JoinDots(tail) == "." + parts[1] + ("." + parts[2] + JoinDots(parts[3..]));
    DotsRegroup(stack, parts[1], parts[2], JoinDots(parts[3..]));
  }

  lemma DotsRegroup(stack: string, a: string, b: string, rest: string)
    ensures stack + ("." + a + ("." + b + rest)) == stack + "." + (a + "." + b) + rest
  {
  }

  /** The same address, in the calling stack instead of the blueprint's own. */
  function Relocate(bp: Decoded, h: Host): string -> string {
    (captured: string) =>
      match ResolveAddress(bp.stack, bp.Known(), captured)
      case Err => captured
      case Ok(t) => RuntimeAddress(h.stack, t.address, t.path)
  }

  ghost predicate Resolves(bp: Decoded, s: string, refs: seq<RefSpan>) {
    forall i | 0 <= i < |refs| ::
      ResolveAddress(bp.stack, bp.Known(), Splice.Slice(s, refs[i].addrStart, refs[i].addrEnd)).Ok?
  }

  /** Relocating replaces the stack name and nothing else. */
  lemma RelocateRestacks(bp: Decoded, h: Host, addr: string)
    requires ResolveAddress(bp.stack, bp.Known(), addr).Ok?
    ensures |bp.stack| <= |addr| && Relocate(bp, h)(addr) == h.stack + addr[|bp.stack|..]
  {
    var t := ResolveAddress(bp.stack, bp.Known(), addr).value;
    ResolvedIsAddress(bp.stack, bp.Known(), addr);
    var rest := "." + t.address + JoinDots(t.path);
    assert RuntimeAddress(bp.stack, t.address, t.path) == bp.stack + rest;
    assert RuntimeAddress(h.stack, t.address, t.path) == h.stack + rest;
    assert (bp.stack + rest)[|bp.stack|..] == rest;
  }

  lemma CapturedTail(stack: string, refs: seq<RefSpan>)
    requires refs != []
    ensures Captured(stack, refs)[1..] == Captured(stack, refs[1..])
  {
  }

  lemma {:induction false} CapturedOrderedIn(s: string, refs: seq<RefSpan>, from: nat, stack: string)
    requires Splice.ValidSpans(s, refs, from) && Wide(refs, |stack|)
    ensures Ordered(s, Captured(stack, refs), from)
  {
    if refs != [] {
      WideTail(refs, |stack|);
      CapturedTail(stack, refs);
      CapturedOrderedIn(s, refs[1..], refs[0].end, stack);
      OrderedEarlier(s, Captured(stack, refs)[1..], refs[0].addrStart + |stack|, refs[0].end);
    }
  }

  /** Every captured address is at least this long. */
  ghost predicate Wide(refs: seq<RefSpan>, width: nat) {
    forall i | 0 <= i < |refs| :: refs[i].addrStart + width <= refs[i].addrEnd
  }

  lemma WideTail(refs: seq<RefSpan>, width: nat)
    requires refs != [] && Wide(refs, width)
    ensures Wide(refs[1..], width)
  {
    assert forall i | 0 <= i < |refs[1..]| :: refs[1..][i] == refs[i + 1];
  }

  /** An address with another name for its first characters. */
  function Renamed(width: nat, name: string): string -> string {
    (addr: string) => if width <= |addr| then name + addr[width..] else addr
  }

  lemma {:induction false} ReplacedSame(s: string, refs: seq<RefSpan>, from: nat, f: string -> string,
                                        g: string -> string)
    requires forall i | 0 <= i < |refs| ::
               var addr := Splice.Slice(s, refs[i].addrStart, refs[i].addrEnd); f(addr) == g(addr)
    ensures Splice.Replaced(s, refs, from, f) == Splice.Replaced(s, refs, from, g)
  {
    if refs != [] {
      assert forall i | 0 <= i < |refs[1..]| :: refs[1..][i] == refs[i + 1];
      ReplacedSame(s, refs[1..], refs[0].addrEnd, f, g);
    }
  }

  lemma Assembled<T>(head: seq<T>, name: seq<T>, rest: seq<T>, tail: seq<T>, after: seq<T>)
    requires after == rest + tail
    ensures head + (name + rest) + tail == head + name + after
  {
    Rejoined(head, name, rest, tail);
  }

  lemma RenamedSlice(s: string, a: nat, b: nat, width: nat, name: string)
    requires a + width <= b <= |s|
    ensures Renamed(width, name)(Splice.Slice(s, a, b)) == name + Splice.Slice(s, a + width, b)
  {
    assert s[a..b][width..] == s[a + width..b];
  }

  /** Both ways of rewriting copy what stands before the next address. */
  lemma SameEarlier(s: string, refs: seq<RefSpan>, from: nat, mid: nat, stack: string, name: string)
    requires from <= mid && Splice.ValidSpans(s, refs, mid) && Ordered(s, Captured(stack, refs), mid)
    requires Splice.Replaced(s, refs, mid, Renamed(|stack|, name)) == Restacked(s, Captured(stack, refs), mid, name)
    ensures Splice.Replaced(s, refs, from, Renamed(|stack|, name)) == Restacked(s, Captured(stack, refs), from, name)
  {
    Splice.ReplacedFrom(s, refs, from, mid, Renamed(|stack|, name));
    RestackedFrom(s, Captured(stack, refs), from, mid, name);
  }

  lemma ReplacedUnfolds(s: string, refs: seq<RefSpan>, from: nat, address: string -> string)
    requires refs != []
    ensures Splice.Replaced(s, refs, from, address)
            == Splice.Slice(s, from, refs[0].addrStart) + address(Splice.Slice(s, refs[0].addrStart, refs[0].addrEnd))
               + Splice.Replaced(s, refs[1..], refs[0].addrEnd, address)
  {
  }

  lemma RestackedUnfolds(stack: string, s: string, refs: seq<RefSpan>, from: nat, name: string)
    requires refs != []
    ensures Restacked(s, Captured(stack, refs), from, name)
            == Splice.Slice(s, from, refs[0].addrStart) + name
               + Restacked(s, Captured(stack, refs[1..]), refs[0].addrStart + |stack|, name)
  {
    CapturedTail(stack, refs);
    RestackedCons(s, Captured(stack, refs), Captured(stack, refs[1..]), from, name,
                  refs[0].addrStart, refs[0].addrStart + |stack|);
  }

  /** The parts the two texts are made of, up to the first address and after it. */
  lemma PartsOf(s: string, refs: seq<RefSpan>, from: nat, stack: string, name: string)
      returns (head: string, mid: string, tail: string, after: string)
    requires Splice.ValidSpans(s, refs, from) && Wide(refs, |stack|) && refs != []
    requires Ordered(s, Captured(stack, refs[1..]), refs[0].end)
    requires Splice.Replaced(s, refs[1..], refs[0].addrEnd, Renamed(|stack|, name))
             == Restacked(s, Captured(stack, refs[1..]), refs[0].addrEnd, name)
    ensures Splice.Replaced(s, refs, from, Renamed(|stack|, name)) == head + (name + mid) + tail
    ensures Restacked(s, Captured(stack, refs), from, name) == head + name + after
    ensures after == mid + tail
  {
    var m, k, at := refs[0], refs[0].addrStart + |stack|, Captured(stack, refs[1..]);
    head, mid := Splice.Slice(s, from, m.addrStart), Splice.Slice(s, k, m.addrEnd);
    tail, after := Splice.Replaced(s, refs[1..], m.addrEnd, Renamed(|stack|, name)), Restacked(s, at, k, name);
    ReplacedUnfolds(s, refs, from, Renamed(|stack|, name));
    RenamedSlice(s, m.addrStart, m.addrEnd, |stack|, name);
    RestackedUnfolds(stack, s, refs, from, name);
    OrderedEarlier(s, at, m.addrEnd, m.end);
    RestackedFrom(s, at, k, m.addrEnd, name);
  }

  lemma RenamedMatch(s: string, refs: seq<RefSpan>, from: nat, stack: string, name: string)
    requires Splice.ValidSpans(s, refs, from) && Wide(refs, |stack|) && refs != []
    requires Ordered(s, Captured(stack, refs[1..]), refs[0].end)
    requires Splice.Replaced(s, refs[1..], refs[0].addrEnd, Renamed(|stack|, name))
             == Restacked(s, Captured(stack, refs[1..]), refs[0].addrEnd, name)
    ensures Splice.Replaced(s, refs, from, Renamed(|stack|, name)) == Restacked(s, Captured(stack, refs), from, name)
  {
    var head, mid, tail, after := PartsOf(s, refs, from, stack, name);
    Assembled(head, name, mid, tail, after);
  }

  /** Renaming every captured address is replacing every captured stack name. */
  lemma {:induction false} RenamedIsRestacked(s: string, refs: seq<RefSpan>, from: nat, stack: string, name: string)
    requires Splice.ValidSpans(s, refs, from) && Wide(refs, |stack|)
    ensures Splice.Replaced(s, refs, from, Renamed(|stack|, name)) == Restacked(s, Captured(stack, refs), from, name)
  {
    if refs != [] {
      var m, rest := refs[0], refs[1..];
      WideTail(refs, |stack|);
      RenamedIsRestacked(s, rest, m.end, stack, name);
      CapturedOrderedIn(s, rest, m.end, stack);
      SameEarlier(s, rest, m.addrEnd, m.end, stack, name);
      RenamedMatch(s, refs, from, stack, name);
    }
  }

  lemma {:induction false} SpanAt(s: string, refs: seq<RefSpan>, from: nat, i: nat)
    requires Splice.ValidSpans(s, refs, from) && i < |refs|
    ensures refs[i].addrStart <= refs[i].addrEnd <= |s|
  {
    if i > 0 {
      SpanAt(s, refs[1..], refs[0].end, i - 1);
    }
  }

  lemma ReplacedIsRestacked(bp: Decoded, h: Host, s: string, refs: seq<RefSpan>)
    requires Splice.ValidSpans(s, refs, 0) && Resolves(bp, s, refs)
    ensures Ordered(s, Captured(bp.stack, refs), 0)
    ensures Splice.Replaced(s, refs, 0, Relocate(bp, h)) == Restacked(s, Captured(bp.stack, refs), 0, h.stack)
  {
    forall i | 0 <= i < |refs|
      ensures refs[i].addrStart + |bp.stack| <= refs[i].addrEnd
      ensures Relocate(bp, h)(Splice.Slice(s, refs[i].addrStart, refs[i].addrEnd))
              == Renamed(|bp.stack|, h.stack)(Splice.Slice(s, refs[i].addrStart, refs[i].addrEnd))
    {
      SpanAt(s, refs, 0, i);
      RelocateRestacks(bp, h, Splice.Slice(s, refs[i].addrStart, refs[i].addrEnd));
    }
    CapturedOrderedIn(s, refs, 0, bp.stack);
    ReplacedSame(s, refs, 0, Relocate(bp, h), Renamed(|bp.stack|, h.stack));
    RenamedIsRestacked(s, refs, 0, bp.stack, h.stack);
  }

  lemma Rejoined<T>(a: seq<T>, b: seq<T>, c: seq<T>, d: seq<T>)
    ensures a + (b + c) + d == a + b + (c + d)
  {
  }

  lemma OrderedEarlier(s: string, at: Places, from: nat, mid: nat)
    requires from <= mid && Ordered(s, at, mid)
    ensures Ordered(s, at, from) && forall k | from <= k <= mid :: Ordered(s, at, k)
  {
  }

  // ------------------------------------------------------ the code for a JSON text

  function Values(es: seq<Expr>, f: Frame, h: Host): seq<Value>
    requires forall i | 0 <= i < |es| :: Eval(es[i], f, h).Ok?
  {
    seq(|es|, i requires 0 <= i < |es| => Eval(es[i], f, h).value)
  }

  lemma ConcatShows(es: seq<Expr>, f: Frame, h: Host)
    requires forall i | 0 <= i < |es| :: Eval(es[i], f, h).Ok?
    ensures Eval(EConcat(es), f, h) == Ok(VText(ShowAll(h, Values(es, f, h))))
  {
    assert Values(es, f, h) == seq(|es|, i requires 0 <= i < |es| => Eval(es[i], f, h).value);
  }

  lemma ValuesCons(e: Expr, es: seq<Expr>, f: Frame, h: Host)
    requires Eval(e, f, h).Ok? && forall i | 0 <= i < |es| :: Eval(es[i], f, h).Ok?
    ensures forall i | 0 <= i < |[e] + es| :: Eval(([e] + es)[i], f, h).Ok?
    ensures ShowAll(h, Values([e] + es, f, h)) == Show(h, Eval(e, f, h).value) + ShowAll(h, Values(es, f, h))
  {
    assert Values([e] + es, f, h)[1..] == Values(es, f, h);
  }

  ghost predicate PieceBound(c: Ctx, p: Splice.Piece, f: Frame) {
    p.Address? && ResolveAddress(c.bp.stack, c.bp.Known(), p.captured).Ok? ==>
      HandlesBound(c, {ResolveAddress(c.bp.stack, c.bp.Known(), p.captured).value.address}, f)
  }

  lemma {:induction false} PiecesMean(c: Ctx, pieces: seq<Splice.Piece>, f: Frame, h: Host)
    requires RenderPieces(c, pieces).Ok?
    requires forall i | 0 <= i < |pieces| :: PieceBound(c, pieces[i], f)
    ensures var es := RenderPieces(c, pieces).value;
            && (forall i | 0 <= i < |es| :: Eval(es[i], f, h).Ok?)
            && ShowAll(h, Values(es, f, h)) == Splice.Joined(pieces, Relocate(c.bp, h))
  {
    if pieces != [] {
      var e, es := RenderPiece(c, pieces[0]).value, RenderPieces(c, pieces[1..]).value;
      PiecesMean(c, pieces[1..], f, h);
      PieceMeans(c, pieces[0], f, h);
      ValuesCons(e, es, f, h);
    }
  }

  lemma PieceMeans(c: Ctx, p: Splice.Piece, f: Frame, h: Host)
    requires RenderPiece(c, p).Ok? && PieceBound(c, p, f)
    ensures Eval(RenderPiece(c, p).value, f, h) ==
            Ok(VText(if p.Literal? then p.text else Relocate(c.bp, h)(p.captured)))
  {
    if p.Address? {
      var t := ResolveAddress(c.bp.stack, c.bp.Known(), p.captured).value;
      LocalAddress(c, t, f, h);
      assert Relocate(c.bp, h)(p.captured) == RuntimeAddress(h.stack, t.address, t.path);
    }
  }

  lemma LocalAddress(c: Ctx, t: Target, f: Frame, h: Host)
    requires HandlesBound(c, {t.address}, f)
    ensures t.address in c.names.local
    ensures Eval(EAddress(c.names.local[t.address], t.path), f, h)
            == Ok(VText(RuntimeAddress(h.stack, t.address, t.path)))
    ensures Eval(EField(c.names.local[t.address], t.path), f, h) == Ok(VHandle(t.address, t.path))
  {
    assert t.address in {t.address};
    assert f[c.names.local[t.address]] == VHandle(t.address, []);
    assert [] + t.path == t.path;
  }

  lemma {:induction false} PiecesCapture(s: string, spans: seq<RefSpan>, from: nat)
    ensures forall p | p in Splice.Pieces(s, spans, from) && p.Address? ::
              exists m | m in spans :: p.captured == Splice.Slice(s, m.addrStart, m.addrEnd)
  {
    if spans != [] {
      PiecesCapture(s, spans[1..], spans[0].end);
      assert spans == [spans[0]] + spans[1..];
    }
  }

  /** What rendering has checked of every captured address. */
  lemma {:induction false} RenderedResolves(c: Ctx, s: string, refs: seq<RefSpan>, from: nat)
    requires RenderPieces(c, Splice.Pieces(s, refs, from)).Ok?
    ensures Resolves(c.bp, s, refs)
  {
    if refs != [] {
      var m, rest := refs[0], Splice.Pieces(s, refs[1..], refs[0].end);
      PiecesRenderBoth(c, Splice.MatchPieces(s, from, m), rest);
      var ps := Splice.MatchPieces(s, from, m);
      assert ps[|ps| - 2] == Splice.Address(Splice.Slice(s, m.addrStart, m.addrEnd));
      RenderedResolves(c, s, refs[1..], m.end);
      forall i | 0 <= i < |refs|
        ensures ResolveAddress(c.bp.stack, c.bp.Known(), Splice.Slice(s, refs[i].addrStart, refs[i].addrEnd)).Ok?
      {
        assert i == 0 || refs[i] == refs[1..][i - 1];
      }
    }
  }

  lemma {:induction false} PiecesRenderBoth(c: Ctx, a: seq<Splice.Piece>, b: seq<Splice.Piece>)
    requires RenderPieces(c, a + b).Ok?
    ensures RenderPieces(c, b).Ok? && forall i | 0 <= i < |a| :: RenderPiece(c, a[i]).Ok?
  {
    if a == [] {
      assert a + b == b;
    } else {
      assert (a + b)[1..] == a[1..] + b;
      PiecesRenderBoth(c, a[1..], b);
      assert forall i | 0 < i < |a| :: a[i] == a[1..][i - 1];
    }
  }

  /** The code for a JSON text evaluates to the text with the stack names of the captured
      addresses replaced. */
  lemma EmbeddedEval(c: Ctx, t: Text, f: Frame, h: Host)
    requires IsEmbedded(t) && RenderString(c, t).Ok? && Splice.ValidSpans(t.chars, t.refs, 0)
    requires HandlesBound(c, CapturedTargets(c.bp, t), f)
    ensures Eval(RenderString(c, t).value, f, h)
            == Ok(VText(Restacked(t.chars, Captured(c.bp.stack, t.refs), 0, h.stack)))
    ensures Ordered(t.chars, Captured(c.bp.stack, t.refs), 0)
  {
    var pieces := Splice.Pieces(t.chars, t.refs, 0);
    PiecesCapture(t.chars, t.refs, 0);
    forall i | 0 <= i < |pieces| ensures PieceBound(c, pieces[i], f) {
      assert pieces[i] in pieces;
      if pieces[i].Address? {
        assert pieces[i].captured in CapturedTexts(t);
      }
    }
    PiecesMean(c, pieces, f, h);
    ConcatShows(RenderPieces(c, pieces).value, f, h);
    Splice.PiecesReplaceAddresses(t.chars, t.refs, 0, Relocate(c.bp, h));
    RenderedResolves(c, t.chars, t.refs, 0);
    ReplacedIsRestacked(c.bp, h, t.chars, t.refs);
  }

  // ------------------------------------------------------- the code for a template

  /** The expressions placeholders are rendered to. */
  predicate IsHole(e: Expr) {
    (e.EVar? && PlainIdent(e.ident))
    || (e.EArith? && PlainIdent(e.ident) && |e.op| == 1 && e.op[0] in "+-*/"
        && forall i | 0 <= i < |e.literal| :: '0' <= e.literal[i] <= '9')
  }

  lemma TokenIsHole(c: Ctx, t: Token)
    requires ParamExpr(c, t).Ok? && PlainToken(t) && PlainNames(c.names)
    ensures IsHole(ParamExpr(c, t).value)
  {
  }

  lemma HoleIsPlain(e: Expr)
    requires IsHole(e)
    ensures Interpolation.PlainExpr(HoleText(e))
  {
    if e.EArith? {
      assert forall i | 0 <= i < |e.literal| :: e.literal[i] !in {'{', '}', '`', '\"', '\\', ':', '!', '='};
      assert e.op[0] in "+-*/" && "+-*/" == ['+', '-', '*', '/'];
      var text := HoleText(e);
      assert text == "(" + e.ident + " " + (e.op + " " + e.literal) + ")";
    }
  }

  lemma {:induction false} UpToHere(a: string, c: char, rest: string)
    requires c !in a
    ensures Interpolation.UpTo(a + [c] + rest, c) == |a|
  {
    if a == [] {
      assert (a + [c] + rest)[0] == c;
    } else {
      assert a[0] in a;
      UpToHere(a[1..], c, rest);
      assert (a + [c] + rest)[1..] == a[1..] + [c] + rest;
    }
  }

  lemma UpToSpace(a: string, b: string, x: string, y: string)
    requires ' ' !in a && ' ' !in b && a + " " + x == b + " " + y
    ensures a == b && x == y
  {
    UpToHere(a, ' ', x);
    UpToHere(b, ' ', y);
    assert (a + " " + x)[..|a|] == a && (b + " " + y)[..|b|] == b;
    CancelPrefix(a + " ", x, y);
  }

  lemma Unwrapped<T>(open: seq<T>, x: seq<T>, y: seq<T>, close: seq<T>)
    requires open + x + close == open + y + close
    ensures x == y
  {
    assert (open + x + close)[|open|..|open| + |x|] == x && (open + y + close)[|open|..|open| + |y|] == y;
  }

  lemma OpThenLiteral(a: string, b: string, x: string, y: string)
    requires |a| == |b| == 1 && a + " " + x == b + " " + y
    ensures a == b && x == y
  {
    assert (a + " " + x)[..1] == a && (b + " " + y)[..1] == b;
    CancelPrefix(a + " ", x, y);
  }

  /** Two holes written alike are the same expression. */
  lemma SameHole(d: Expr, e: Expr)
    requires IsHole(d) && IsHole(e) && HoleText(d) == HoleText(e)
    ensures d == e
  {
    HoleStarts(d);
    HoleStarts(e);
    if d.EArith? {
      SameArithmetic(d, e);
    }
  }

  lemma HoleStarts(e: Expr)
    requires IsHole(e)
    ensures HoleText(e) != [] && (HoleText(e)[0] == '(' <==> e.EArith?)
  {
    if e.EVar? {
      assert e.ident[0] in e.ident;
    }
  }

  lemma SameArithmetic(d: Expr, e: Expr)
    requires d.EArith? && e.EArith? && IsHole(d) && IsHole(e) && HoleText(d) == HoleText(e)
    ensures d == e
  {
    var x, y := d.op + " " + d.literal, e.op + " " + e.literal;
    ArithText(d);
    ArithText(e);
    Unwrapped("(", d.ident + " " + x, e.ident + " " + y, ")");
    UpToSpace(d.ident, e.ident, x, y);
    OpThenLiteral(d.op, e.op, d.literal, e.literal);
  }

  lemma ArithText(e: Expr)
    requires e.EArith?
    ensures HoleText(e) == "(" + (e.ident + " " + (e.op + " " + e.literal)) + ")"
  {
  }

  /** The expressions of a text's placeholders. */
  function Holes(c: Ctx, tokens: seq<Token>): (es: seq<Expr>)
    requires forall i | 0 <= i < |tokens| :: ParamExpr(c, tokens[i]).Ok?
    ensures |es| == |tokens|
  {
    seq(|tokens|, i requires 0 <= i < |tokens| => ParamExpr(c, tokens[i]).value)
  }

  function Filling(args: Args, h: Host, tokens: seq<Token>): (texts: seq<string>)
    ensures |texts| == |tokens|
  {
    seq(|tokens|, i requires 0 <= i < |tokens| => Show(h, DenoteToken(args, h, tokens[i])))
  }

  /** What a text with placeholders means is its segments with its arguments' values in the
      holes. */
  lemma {:induction false} MeaningIsFilled(args: Args, h: Host, s: string, tokens: seq<Token>, from: nat)
    ensures DenoteTemplate(args, h, s, tokens, from)
            == Interpolation.Filled(Interpolation.Literals(s, tokens, from), Filling(args, h, tokens))
  {
    if tokens != [] {
      MeaningIsFilled(args, h, s, tokens[1..], tokens[0].end);
      assert Filling(args, h, tokens)[1..] == Filling(args, h, tokens[1..]);
    }
  }

  lemma TokenMeans(c: Ctx, t: Token, f: Frame, args: Args, h: Host)
    requires ParamExpr(c, t).Ok? && TokensBound(c, f, args)
    ensures Eval(ParamExpr(c, t).value, f, h) == Ok(DenoteToken(args, h, t))
  {
  }

  ghost predicate PlainTokens(tokens: seq<Token>) { forall i | 0 <= i < |tokens| :: PlainToken(tokens[i]) }

  /** Holes are plain expressions, and those written alike hold one value. */
  lemma HolesConsistent(c: Ctx, tokens: seq<Token>, f: Frame, args: Args, h: Host)
    requires forall i | 0 <= i < |tokens| :: ParamExpr(c, tokens[i]).Ok?
    requires PlainTokens(tokens) && PlainNames(c.names) && TokensBound(c, f, args)
    ensures Interpolation.PlainExprs(HoleTexts(Holes(c, tokens)))
    ensures Interpolation.Consistent(HoleTexts(Holes(c, tokens)), Filling(args, h, tokens))
  {
    var es := Holes(c, tokens);
    forall i | 0 <= i < |es| ensures IsHole(es[i]) && Interpolation.PlainExpr(HoleText(es[i])) {
      TokenIsHole(c, tokens[i]);
      HoleIsPlain(es[i]);
    }
    forall i, j | 0 <= i < |es| && 0 <= j < |es| && HoleTexts(es)[i] == HoleTexts(es)[j]
      ensures Filling(args, h, tokens)[i] == Filling(args, h, tokens)[j]
    {
      SameHole(es[i], es[j]);
      TokenMeans(c, tokens[i], f, args, h);
      TokenMeans(c, tokens[j], f, args, h);
    }
  }

  lemma HolesShow(c: Ctx, tokens: seq<Token>, f: Frame, args: Args, h: Host)
    requires forall i | 0 <= i < |tokens| :: ParamExpr(c, tokens[i]).Ok?
    requires TokensBound(c, f, args)
    ensures var es := Holes(c, tokens);
      && (forall i | 0 <= i < |es| :: Eval(es[i], f, h).Ok?)
      && Shown(h, Values(es, f, h)) == Filling(args, h, tokens)
  {
    var es := Holes(c, tokens);
    forall i | 0 <= i < |es| ensures Eval(es[i], f, h) == Ok(DenoteToken(args, h, tokens[i])) {
      TokenMeans(c, tokens[i], f, args, h);
    }
  }

  /** The code for a template evaluates to what the language makes of its characters. */
  lemma TemplateEval(c: Ctx, s: string, tokens: seq<Token>, f: Frame, args: Args, h: Host)
    requires RenderTemplate(c, s, tokens).Ok? && TokensBound(c, f, args)
    ensures var lits, holes := Interpolation.Literals(s, tokens, 0), HoleTexts(Holes(c, tokens));
      Eval(RenderTemplate(c, s, tokens).value, f, h)
      == match Interpolation.ReadTemplate(c.lang, Interpolation.TemplateSource(c.lang, lits, holes),
                                          holes, Filling(args, h, tokens))
         case None => Err
         case Some(text) => Ok(VText(text))
  {
    HolesShow(c, tokens, f, args, h);
    var es := Holes(c, tokens);
    assert Values(es, f, h) == seq(|es|, i requires 0 <= i < |es| => Eval(es[i], f, h).value);
  }

  // --------------------------------------------------------------- all texts alike

  /** The text reads as what it means in a stack of this name. */
  ghost predicate TextReads(lang: Lang, stack: string, t: Text, name: string) {
    if IsEmbedded(t) then Alike(t.chars, Captured(stack, t.refs), Marked(t), name)
    else IsWholeToken(t) || t.tokens == []
         || Interpolation.TemplateFits(lang, Interpolation.Literals(t.chars, t.tokens, 0))
  }

  /** A check on the draft alone: the addresses the regular expression captures are exactly
      the references decoding collects, and the text around placeholders is one the
      language's template reads back. */
  ghost predicate FaithfulText(lang: Lang, stack: string, t: Text) {
    if IsEmbedded(t) then Captured(stack, t.refs) == Marked(t)
    else IsWholeToken(t) || t.tokens == []
         || Interpolation.TemplateFits(lang, Interpolation.Literals(t.chars, t.tokens, 0))
  }

  lemma CapturedWidths(stack: string, refs: seq<RefSpan>)
    ensures WidthsAre(Captured(stack, refs), |stack|)
  {
  }

  /** Some stack's name shows the difference. */
  lemma UnfaithfulText(lang: Lang, stack: string, t: Text) returns (name: string)
    requires ValidText(stack, t) && !FaithfulText(lang, stack, t)
    requires IsEmbedded(t) ==> Ordered(t.chars, Captured(stack, t.refs), 0)
    ensures !TextReads(lang, stack, t, name)
  {
    name := [];
    if IsEmbedded(t) {
      CapturedWidths(stack, t.refs);
      name := TellsApart(t.chars, Captured(stack, t.refs), Marked(t), |stack|);
    }
  }

  /** The code for a string evaluates to what the string means exactly where it reads. */
  lemma StringMeansIff(c: Ctx, t: Text, f: Frame, args: Args, h: Host)
    requires RenderString(c, t).Ok? && ValidText(c.bp.stack, t) && PlainNames(c.names)
    requires HandlesBound(c, CapturedTargets(c.bp, t), f) && TokensBound(c, f, args)
    ensures Eval(RenderString(c, t).value, f, h) == Ok(DenoteString(args, h, t))
            <==> TextReads(c.lang, c.bp.stack, t, h.stack)
  {
    if IsEmbedded(t) {
      EmbeddedEval(c, t, f, h);
    } else if IsWholeToken(t) {
      TokenMeans(c, t.tokens[0], f, args, h);
    } else if t.tokens == [] {
      assert Splice.Slice(t.chars, 0, |t.chars|) == t.chars;
    } else {
      TemplateMeansIff(c, t, f, args, h);
    }
  }

  lemma TemplateMeansIff(c: Ctx, t: Text, f: Frame, args: Args, h: Host)
    requires RenderTemplate(c, t.chars, t.tokens).Ok? && PlainTokens(t.tokens) && PlainNames(c.names)
    requires TokensBound(c, f, args)
    ensures Eval(RenderTemplate(c, t.chars, t.tokens).value, f, h)
            == Ok(VText(DenoteTemplate(args, h, t.chars, t.tokens, 0)))
            <==> Interpolation.TemplateFits(c.lang, Interpolation.Literals(t.chars, t.tokens, 0))
  {
    var lits := Interpolation.Literals(t.chars, t.tokens, 0);
    TemplateEval(c, t.chars, t.tokens, f, args, h);
    HolesConsistent(c, t.tokens, f, args, h);
    Interpolation.TemplateReadsIff(c.lang, lits, HoleTexts(Holes(c, t.tokens)), Filling(args, h, t.tokens));
    MeaningIsFilled(args, h, t.chars, t.tokens, 0);
  }
}
