/** Static scoping of the emitted body, before anything is executed.

    Uses collects the locals an expression reads, and WellScoped asks that each one a
    statement reads is bound by an earlier statement that is neither conditional nor a
    loop.  That is a check a compiler of the target language could make; the theorem of
    this file says which accepted blueprints pass it.  What the reads evaluate to is the
    subject of CodegenTheorem.  The two rest on the same facts about what decoding
    collected and in which order the statements stand. */
module CodegenScoping {
  import opened Common
  import opened Blueprint
  import opened Decode
  import opened Codegen
  import opened CodegenProofs
  import opened CodegenTexts
  import opened CodegenMeaning
  import opened CodegenTheorem
  import Splice

  /** The local variables an expression reads. */
  function Uses(e: Expr): set<string> {
    match e
    case EField(x, _) => {x}
    case EAddress(x, _) => {x}
    case EMap(fields) => set k, x | k in fields && x in Uses(fields[k]) :: x
    case EList(items) => set i, x | 0 <= i < |items| && x in Uses(items[i]) :: x
    case EConcat(parts) => set i, x | 0 <= i < |parts| && x in Uses(parts[i]) :: x
    case ETemplate(_, _, holes) => set i, x | 0 <= i < |holes| && x in Uses(holes[i]) :: x
    case ECall(_, args) => set i, x | 0 <= i < |args| && x in Uses(args[i]) :: x
    case _ => {}
  }

  function CallUses(c: Call): set<string> {
    Uses(c.name) + set k, x | k in c.config && x in Uses(c.config[k]) :: x
  }

  /** What evaluates has found all it reads. */
  lemma {:induction false} EvaluatedUses(e: Expr, f: Frame, h: Host)
    requires Eval(e, f, h).Ok?
    ensures Uses(e) <= f.Keys
  {
    match e
    case EMap(fields) =>
      forall k | k in fields ensures Uses(fields[k]) <= f.Keys { EvaluatedUses(fields[k], f, h); }
    case EList(items) =>
      forall i | 0 <= i < |items| ensures Uses(items[i]) <= f.Keys { EvaluatedUses(items[i], f, h); }
    case EConcat(parts) =>
      forall i | 0 <= i < |parts| ensures Uses(parts[i]) <= f.Keys { EvaluatedUses(parts[i], f, h); }
    case ETemplate(_, _, holes) =>
      forall i | 0 <= i < |holes| ensures Uses(holes[i]) <= f.Keys { EvaluatedUses(holes[i], f, h); }
    case ECall(_, args) =>
      forall i | 0 <= i < |args| ensures Uses(args[i]) <= f.Keys { EvaluatedUses(args[i], f, h); }
    case _ =>
  }

  lemma EvaluatedCall(call: Call, f: Frame, h: Host)
    requires EvalCall(call, f, h).Ok?
    ensures CallUses(call) <= f.Keys
  {
    EvaluatedUses(call.name, f, h);
    forall k | k in call.config ensures Uses(call.config[k]) <= f.Keys { EvaluatedUses(call.config[k], f, h); }
  }

  /** Every local a statement reads is bound by an earlier statement, unconditionally and
      outside any loop. */
  ghost predicate BodyScoped(body: seq<Stmt>) {
    forall i, x | 0 <= i < |body| && x in CallUses(body[i].call) :: BoundBefore(body, i, x)
  }

  /** A returned expression reads locals the body binds, or is the list a loop collects. */
  ghost predicate ResultScoped(body: seq<Stmt>, e: Expr) {
    if e.EVar? then exists j | 0 <= j < |body| :: body[j].SFor? && body[j].accum == e.ident
    else forall x | x in Uses(e) :: BoundBefore(body, |body|, x)
  }

  /** No local is read before it is bound, in the statements or in what is returned. */
  ghost predicate WellScoped(p: Program) {
    BodyScoped(p.body) && forall i | 0 <= i < |p.results| :: ResultScoped(p.body, p.results[i])
  }

  ghost predicate BoundBefore(body: seq<Stmt>, i: nat, x: string)
    requires i <= |body|
  {
    exists j | 0 <= j < i :: body[j].SBind? && body[j].ident == x
  }

  /** x is the local of one of the targets. */
  ghost predicate LocalAmong(n: Names, targets: set<string>, x: string) {
    exists a | a in targets :: a in n.local && n.local[a] == x
  }

  ghost predicate UsesExactly(c: Ctx, uses: set<string>, targets: set<string>) {
    && (forall a | a in targets :: a in c.names.local && c.names.local[a] in uses)
    && (forall x | x in uses :: LocalAmong(c.names, targets, x))
  }

  function UnionUses(es: seq<Expr>): set<string> {
    set i, x | 0 <= i < |es| && x in Uses(es[i]) :: x
  }

  function UnionReads(bp: Decoded, items: seq<Json>): set<string> {
    set i, a | 0 <= i < |items| && a in Reads(bp, items[i]) :: a
  }

  function CapturedIn(s: string, spans: seq<RefSpan>): set<string> {
    set m | m in spans :: Splice.Slice(s, m.addrStart, m.addrEnd)
  }

  lemma TargetCaptured(bp: Decoded, addrs: set<string>, a: string) returns (t: string)
    requires a in TargetsOf(bp.stack, bp.Known(), addrs)
    ensures t in addrs && ResolveAddress(bp.stack, bp.Known(), t).Ok?
    ensures ResolveAddress(bp.stack, bp.Known(), t).value.address == a
  {
    t :| t in addrs && ResolveAddress(bp.stack, bp.Known(), t).Ok?
         && ResolveAddress(bp.stack, bp.Known(), t).value.address == a;
  }

  lemma CapturedTarget(bp: Decoded, addrs: set<string>, t: string)
    requires t in addrs && ResolveAddress(bp.stack, bp.Known(), t).Ok?
    ensures ResolveAddress(bp.stack, bp.Known(), t).value.address in TargetsOf(bp.stack, bp.Known(), addrs)
  {
  }

  /** An address piece reads the local of what the address names; text reads nothing. */
  lemma PieceUses(c: Ctx, p: Splice.Piece)
    requires RenderPiece(c, p).Ok?
    ensures p.Literal? ==> Uses(RenderPiece(c, p).value) == {}
    ensures p.Address? ==>
      var r := ResolveAddress(c.bp.stack, c.bp.Known(), p.captured);
      && r.Ok? && r.value.address in c.names.local
      && Uses(RenderPiece(c, p).value) == {c.names.local[r.value.address]}
  {
  }

  lemma TargetUsed(c: Ctx, s: string, spans: seq<RefSpan>, a: string)
    requires RenderPieces(c, Splice.Pieces(s, spans, 0)).Ok?
    requires a in TargetsOf(c.bp.stack, c.bp.Known(), CapturedIn(s, spans))
    ensures a in c.names.local && c.names.local[a] in UnionUses(RenderPieces(c, Splice.Pieces(s, spans, 0)).value)
  {
    var pieces := Splice.Pieces(s, spans, 0);
    var t := TargetCaptured(c.bp, CapturedIn(s, spans), a);
    var k := CapturedPiece(s, spans, t);
    RenderedPieces(c, pieces);
    PieceUses(c, pieces[k]);
    assert c.names.local[a] in Uses(RenderPieces(c, pieces).value[k]);
  }

  lemma UseTargeted(c: Ctx, s: string, spans: seq<RefSpan>, x: string)
    requires RenderPieces(c, Splice.Pieces(s, spans, 0)).Ok?
    requires x in UnionUses(RenderPieces(c, Splice.Pieces(s, spans, 0)).value)
    ensures LocalAmong(c.names, TargetsOf(c.bp.stack, c.bp.Known(), CapturedIn(s, spans)), x)
  {
    var pieces := Splice.Pieces(s, spans, 0);
    var es := RenderPieces(c, pieces).value;
    var k :| 0 <= k < |es| && x in Uses(es[k]);
    RenderedPieces(c, pieces);
    PieceUses(c, pieces[k]);
    PieceCaptured(s, spans, k);
    CapturedTarget(c.bp, CapturedIn(s, spans), pieces[k].captured);
  }

  lemma PiecesUse(c: Ctx, s: string, spans: seq<RefSpan>)
    requires RenderPieces(c, Splice.Pieces(s, spans, 0)).Ok?
    ensures UsesExactly(c, UnionUses(RenderPieces(c, Splice.Pieces(s, spans, 0)).value),
                        TargetsOf(c.bp.stack, c.bp.Known(), CapturedIn(s, spans)))
  {
    forall a | a in TargetsOf(c.bp.stack, c.bp.Known(), CapturedIn(s, spans))
      ensures a in c.names.local && c.names.local[a] in UnionUses(RenderPieces(c, Splice.Pieces(s, spans, 0)).value)
    {
      TargetUsed(c, s, spans, a);
    }
    forall x | x in UnionUses(RenderPieces(c, Splice.Pieces(s, spans, 0)).value)
      ensures LocalAmong(c.names, TargetsOf(c.bp.stack, c.bp.Known(), CapturedIn(s, spans)), x)
    {
      UseTargeted(c, s, spans, x);
    }
  }

  lemma CapturedPiece(s: string, spans: seq<RefSpan>, t: string) returns (k: nat)
    requires t in CapturedIn(s, spans)
    ensures k < |Splice.Pieces(s, spans, 0)| && Splice.Pieces(s, spans, 0)[k] == Splice.Address(t)
  {
    PiecesCover(s, spans, 0);
    assert Splice.Address(t) in Splice.Pieces(s, spans, 0);
    k :| k < |Splice.Pieces(s, spans, 0)| && Splice.Pieces(s, spans, 0)[k] == Splice.Address(t);
  }

  lemma PieceCaptured(s: string, spans: seq<RefSpan>, k: nat)
    requires k < |Splice.Pieces(s, spans, 0)|
    ensures Splice.Pieces(s, spans, 0)[k].Address? ==> Splice.Pieces(s, spans, 0)[k].captured in CapturedIn(s, spans)
  {
    PiecesCapture(s, spans, 0);
    assert Splice.Pieces(s, spans, 0)[k] in Splice.Pieces(s, spans, 0);
  }

  lemma {:induction false} RenderedPieces(c: Ctx, pieces: seq<Splice.Piece>)
    requires RenderPieces(c, pieces).Ok?
    ensures |RenderPieces(c, pieces).value| == |pieces|
    ensures forall k | 0 <= k < |pieces| ::
              RenderPiece(c, pieces[k]).Ok? && RenderPieces(c, pieces).value[k] == RenderPiece(c, pieces[k]).value
  {
    if pieces != [] {
      RenderedPieces(c, pieces[1..]);
      forall k | 0 <= k < |pieces|
        ensures RenderPiece(c, pieces[k]).Ok? && RenderPieces(c, pieces).value[k] == RenderPiece(c, pieces[k]).value
      {
        if k > 0 {
          assert pieces[k] == pieces[1..][k - 1];
        }
      }
    }
  }

  lemma {:induction false} PiecesCover(s: string, spans: seq<RefSpan>, from: nat)
    ensures forall m | m in spans ::
              Splice.Address(Splice.Slice(s, m.addrStart, m.addrEnd)) in Splice.Pieces(s, spans, from)
  {
    if spans != [] {
      PiecesCover(s, spans[1..], spans[0].end);
      var m := spans[0];
      assert Splice.Address(Splice.Slice(s, m.addrStart, m.addrEnd)) in Splice.MatchPieces(s, from, m);
    }
  }

  /** Placeholders are parameters and loop variables, not resources. */
  lemma TemplateUsesNothing(c: Ctx, s: string, tokens: seq<Token>)
    requires RenderTemplate(c, s, tokens).Ok?
    ensures Uses(RenderTemplate(c, s, tokens).value) == {}
  {
    var e := RenderTemplate(c, s, tokens).value;
    forall i | 0 <= i < |e.holes| ensures Uses(e.holes[i]) == {} {
      assert e.holes[i] == ParamExpr(c, tokens[i]).value;
    }
  }

  lemma EmbeddedUses(c: Ctx, t: Text)
    requires RenderString(c, t).Ok? && IsEmbedded(t)
    ensures UsesExactly(c, Uses(RenderString(c, t).value), CapturedTargets(c.bp, t))
  {
    PiecesUse(c, t.chars, t.refs);
    assert CapturedIn(t.chars, t.refs) == CapturedTexts(t);
    var es := RenderPieces(c, Splice.Pieces(t.chars, t.refs, 0)).value;
    assert Uses(EConcat(es)) == UnionUses(es);
  }

  lemma PlainStringUses(c: Ctx, t: Text)
    requires RenderString(c, t).Ok? && !IsEmbedded(t)
    ensures Uses(RenderString(c, t).value) == {}
  {
    if !IsWholeToken(t) && t.tokens != [] {
      TemplateUsesNothing(c, t.chars, t.tokens);
    }
  }

  lemma StringUses(c: Ctx, t: Text)
    requires RenderString(c, t).Ok?
    ensures UsesExactly(c, Uses(RenderString(c, t).value), CapturedTargets(c.bp, t))
  {
    if IsEmbedded(t) {
      EmbeddedUses(c, t);
    } else {
      PlainStringUses(c, t);
    }
  }

  lemma {:induction false} ValueUses(c: Ctx, j: Json)
    requires RenderAny(c, j).Ok?
    ensures UsesExactly(c, Uses(RenderAny(c, j).value), Reads(c.bp, j))
    decreases j, 1
  {
    match j
    case Str(t) => StringUses(c, t);
    case Arr(items) => ArrayUses(c, j);
    case Obj(fields) =>
      if RefTarget(j).Some? {
        RefUses(c, j);
      } else if FnMarker(j).Some? {
        FnUses(c, j);
      } else {
        ObjectUses(c, j);
      }
    case _ =>
  }

  lemma RefUses(c: Ctx, j: Json)
    requires RenderAny(c, j).Ok? && RefTarget(j).Some?
    ensures UsesExactly(c, Uses(RenderAny(c, j).value), Reads(c.bp, j))
  {
    assert RefTarget(j).value in {RefTarget(j).value};
  }

  lemma RenderArray(c: Ctx, j: Json)
    requires RenderAny(c, j).Ok? && j.Arr?
    ensures var e := RenderAny(c, j).value;
      && e.EList? && |e.items| == |j.items|
      && Uses(e) == UnionUses(e.items) && Reads(c.bp, j) == UnionReads(c.bp, j.items)
      && forall i | 0 <= i < |j.items| :: RenderAny(c, j.items[i]) == Ok(e.items[i])
  {
  }

  lemma ArrayUses(c: Ctx, j: Json)
    requires RenderAny(c, j).Ok? && j.Arr?
    ensures UsesExactly(c, Uses(RenderAny(c, j).value), Reads(c.bp, j))
    decreases j, 0
  {
    RenderArray(c, j);
    forall i | 0 <= i < |j.items|
      ensures UsesExactly(c, Uses(RenderAny(c, j).value.items[i]), Reads(c.bp, j.items[i]))
    {
      ValueUses(c, j.items[i]);
    }
    ListUses(c, j.items, RenderAny(c, j).value.items);
  }

  lemma RenderFn(c: Ctx, j: Json)
    requires RenderAny(c, j).Ok? && j.Obj? && RefTarget(j).None? && FnMarker(j).Some?
    ensures var args := FnMarker(j).value.1; var e := RenderAny(c, j).value;
      && e.ECall? && |e.args| == |args| && Uses(e) == UnionUses(e.args) && Reads(c.bp, j) == UnionReads(c.bp, args)
      && forall i | 0 <= i < |args| :: RenderAny(c, args[i]) == Ok(e.args[i])
  {
  }

  lemma FnUses(c: Ctx, j: Json)
    requires RenderAny(c, j).Ok? && j.Obj? && RefTarget(j).None? && FnMarker(j).Some?
    ensures UsesExactly(c, Uses(RenderAny(c, j).value), Reads(c.bp, j))
    decreases j, 0
  {
    var args := FnMarker(j).value.1;
    assert args == j.fields["$fn"].fields["args"].items;
    RenderFn(c, j);
    forall i | 0 <= i < |args| ensures UsesExactly(c, Uses(RenderAny(c, j).value.args[i]), Reads(c.bp, args[i])) {
      ValueUses(c, args[i]);
    }
    ListUses(c, args, RenderAny(c, j).value.args);
  }

  lemma ObjectUses(c: Ctx, j: Json)
    requires RenderAny(c, j).Ok? && j.Obj? && RefTarget(j).None? && FnMarker(j).None?
    ensures UsesExactly(c, Uses(RenderAny(c, j).value), Reads(c.bp, j))
    decreases j, 0
  {
    RenderObject(c, j);
    forall k | k in j.fields ensures UsesExactly(c, Uses(RenderAny(c, j.fields[k]).value), Reads(c.bp, j.fields[k])) {
      ValueUses(c, j.fields[k]);
    }
    MapUses(c, j.fields, RenderAny(c, j).value.fields);
  }

  lemma ListUses(c: Ctx, items: seq<Json>, es: seq<Expr>)
    requires |es| == |items|
    requires forall i | 0 <= i < |items| :: UsesExactly(c, Uses(es[i]), Reads(c.bp, items[i]))
    ensures UsesExactly(c, UnionUses(es), UnionReads(c.bp, items))
  {
    forall x | x in UnionUses(es) ensures LocalAmong(c.names, UnionReads(c.bp, items), x) {
      var i :| 0 <= i < |es| && x in Uses(es[i]);
      var a :| a in Reads(c.bp, items[i]) && a in c.names.local && c.names.local[a] == x;
      assert a in UnionReads(c.bp, items);
    }
    forall a | a in UnionReads(c.bp, items) ensures a in c.names.local && c.names.local[a] in UnionUses(es) {
      var i :| 0 <= i < |items| && a in Reads(c.bp, items[i]);
      assert c.names.local[a] in Uses(es[i]);
    }
  }

  lemma MapUses(c: Ctx, fields: map<string, Json>, es: map<string, Expr>)
    requires es.Keys == fields.Keys
    requires forall k | k in fields :: UsesExactly(c, Uses(es[k]), Reads(c.bp, fields[k]))
    ensures UsesExactly(c, Uses(EMap(es)), set k, a | k in fields && a in Reads(c.bp, fields[k]) :: a)
  {
    var targets := set k, a | k in fields && a in Reads(c.bp, fields[k]) :: a;
    forall x | x in Uses(EMap(es)) ensures LocalAmong(c.names, targets, x) {
      var k :| k in es && x in Uses(es[k]);
      var a :| a in Reads(c.bp, fields[k]) && a in c.names.local && c.names.local[a] == x;
      assert a in targets;
    }
    forall a | a in targets ensures a in c.names.local && c.names.local[a] in Uses(EMap(es)) {
      var k :| k in fields && a in Reads(c.bp, fields[k]);
      assert c.names.local[a] in Uses(es[k]);
    }
  }

  /** A statement's call reads exactly the locals of the resources its template reads. */
  lemma StmtUses(c: Ctx)
    requires RenderCall(c).Ok?
    ensures forall a | a in ReadsOf(c.bp, c.current) ::
              a in c.names.local && c.names.local[a] in CallUses(RenderCall(c).value)
    ensures forall x | x in CallUses(RenderCall(c).value) :: LocalAmong(c.names, ReadsOf(c.bp, c.current), x)
  {
    var config := c.current.ri.config;
    var call := RenderCall(c).value;
    if c.InLoop() {
      StringUses(c, c.current.ri.name);
    }
    forall k | k in config ensures UsesExactly(c, Uses(call.config[k]), Reads(c.bp, config[k])) {
      ValueUses(c, config[k]);
    }
    MapUses(c, config, call.config);
  }

  /** A body emitted for the first n resources. */
  ghost predicate EmittedFor(c: Ctx, order: seq<DecodedResource>, n: nat, body: seq<Stmt>)
    requires n <= |order|
  {
    |body| == n && forall i | 0 <= i < n :: RenderStmt(c.(current := order[i])) == Ok(body[i])
  }

  lemma EmittedSnoc(c: Ctx, order: seq<DecodedResource>, n: nat, body: seq<Stmt>, s: Stmt)
    requires n < |order| && EmittedFor(c, order, n, body) && RenderStmt(c.(current := order[n])) == Ok(s)
    ensures EmittedFor(c, order, n + 1, body + [s])
  {
  }

  lemma {:induction false} BodyIsEmitted(c: Ctx, order: seq<DecodedResource>, n: nat)
    requires n <= |order| && RenderBody(c, order[..n]).Ok?
    ensures EmittedFor(c, order, n, RenderBody(c, order[..n]).value)
  {
    if n > 0 {
      var m: nat := n - 1;
      assert order[..n] == order[..m + 1];
      BodySplits(c, order, m);
      BodyIsEmitted(c, order, m);
      EmittedSnoc(c, order, m, RenderBody(c, order[..m]).value, RenderStmt(c.(current := order[m])).value);
    }
  }

  /** Which local a statement binds: its resource's own, exactly when the resource is
      referenced. */
  lemma StmtBinds(c: Ctx, a: string)
    requires RenderStmt(c).Ok? && Apart(c.names) && SoundResource(c.bp, c.current) && a in c.names.local
    ensures (RenderStmt(c).value.SBind? && RenderStmt(c).value.ident == c.names.local[a])
            <==> (c.current.Address() == a && a in c.bp.referenced)
  {
  }

  lemma BoundIffBoundBefore(c: Ctx, body: seq<Stmt>, i: nat, a: string)
    requires Sound(c.bp) && Apart(c.names) && a in c.names.local && Emits(c, body) && i <= |body|
    ensures a in Bound(c.bp, i) <==> BoundBefore(body, i, c.names.local[a])
  {
    forall j | 0 <= j < i
      ensures (body[j].SBind? && body[j].ident == c.names.local[a])
              <==> (c.bp.order[j].Address() == a && a in c.bp.referenced)
    {
      assert SoundResource(c.bp, c.bp.order[j]);
      StmtBinds(c.(current := c.bp.order[j]), a);
    }
    if a in Bound(c.bp, i) {
      var j :| 0 <= j < i && c.bp.order[j].Address() in c.bp.referenced && c.bp.order[j].Address() == a;
      assert body[j].SBind? && body[j].ident == c.names.local[a];
    }
  }

  lemma StatementScoped(c: Ctx, body: seq<Stmt>, i: nat)
    requires Sound(c.bp) && Apart(c.names) && Emits(c, body) && i < |body|
    ensures (forall x | x in CallUses(body[i].call) :: BoundBefore(body, i, x))
            <==> ReadsOf(c.bp, c.bp.order[i]) <= Bound(c.bp, i)
  {
    var targets := ReadsOf(c.bp, c.bp.order[i]);
    var uses := CallUses(body[i].call);
    StmtUses(c.(current := c.bp.order[i]));
    assert Ok(body[i]) == RenderStmt(c.(current := c.bp.order[i]));
    assert RenderCall(c.(current := c.bp.order[i])) == Ok(body[i].call);
    forall a | a in targets
      ensures a in c.names.local && (a in Bound(c.bp, i) <==> BoundBefore(body, i, c.names.local[a]))
    {
      BoundIffBoundBefore(c, body, i, a);
    }
    forall x | x in uses && targets <= Bound(c.bp, i) ensures BoundBefore(body, i, x) {
      var a :| a in targets && a in c.names.local && c.names.local[a] == x;
    }
  }

  /** The body, statement by statement. */
  ghost predicate Emits(c: Ctx, body: seq<Stmt>) { EmittedFor(c, c.bp.order, |c.bp.order|, body) }

  lemma CompileEmits(c: Ctx)
    requires Compile(c).Ok?
    ensures Emits(c, Compile(c).value.body)
  {
    var order := c.bp.order;
    assert order[..|order|] == order;
    BodyIsEmitted(c, order, |order|);
  }

  lemma BodyScopedIff(c: Ctx, body: seq<Stmt>)
    requires Sound(c.bp) && Apart(c.names) && Emits(c, body)
    ensures BodyScoped(body) <==> ReadsBound(c.bp)
  {
    forall i | 0 <= i < |body|
      ensures (forall x | x in CallUses(body[i].call) :: BoundBefore(body, i, x))
              <==> ReadsOf(c.bp, c.bp.order[i]) <= Bound(c.bp, i)
    {
      StatementScoped(c, body, i);
    }
  }

  /** The collected list is returned only where a loop collects one. */
  lemma AccumScoped(c: Ctx, body: seq<Stmt>)
    requires Sound(c.bp) && Emits(c, body) && c.bp.forEach.Some?
    ensures ResultScoped(body, EVar(c.names.accum))
  {
    SameMembers(c.bp.order, c.bp.resources);
    assert c.bp.forEach.value in c.bp.order;
    var m :| 0 <= m < |c.bp.order| && c.bp.order[m] == c.bp.forEach.value;
    assert body[m].SFor? && body[m].accum == c.names.accum;
  }

  lemma OutputBound(bp: Decoded, o: DecodedOutput)
    requires Sound(bp) && o in bp.outputs
    ensures o.target.address in Bound(bp, |bp.order|)
  {
    var i :| 0 <= i < |bp.outputs| && bp.outputs[i] == o;
    KnownIsBound(bp, o.target.address);
  }

  lemma OutputScoped(c: Ctx, body: seq<Stmt>, o: DecodedOutput)
    requires Sound(c.bp) && Apart(c.names) && Emits(c, body) && o in c.bp.outputs && o.target.address in c.names.local
    ensures ResultScoped(body, EField(c.names.local[o.target.address], o.target.path))
  {
    OutputBound(c.bp, o);
    BoundIffBoundBefore(c, body, |body|, o.target.address);
  }

  /** What is returned is bound, whatever was captured. */
  lemma ResultsScoped(c: Ctx, body: seq<Stmt>)
    requires Sound(c.bp) && Apart(c.names) && Emits(c, body) && RenderReturns(c).Ok?
    ensures forall i | 0 <= i < |RenderReturns(c).value| :: ResultScoped(body, RenderReturns(c).value[i])
  {
    if c.bp.forEach.Some? {
      AccumScoped(c, body);
    } else {
      var outs := c.bp.outputs;
      forall i | 0 <= i < |outs|
        ensures ResultScoped(body, EField(c.names.local[outs[i].target.address], outs[i].target.path))
      {
        OutputScoped(c, body, outs[i]);
      }
    }
  }

  /** The exact condition for a well-scoped program: for an accepted blueprint and
      identifiers that do not clash, every read in the emitted statements is of a local
      bound by an earlier, unconditional, top-level statement, and every returned value
      of one the body binds, if and only if the addresses the regular expression captured
      belong to earlier referenced resources. */
  lemma CompiledCodeScopedIff(draft: Draft, params: seq<Param>, outputs: seq<Output>, c: Ctx)
    requires DecodeBlueprint(draft, params, outputs) == Ok(c.bp) && Compile(c).Ok? && Apart(c.names)
    ensures WellScoped(Compile(c).value) <==> CapturesBound(c.bp)
  {
    AcceptedIsSound(draft, params, outputs);
    ScopedIffCapturesBound(draft, params, outputs);
    CompileEmits(c);
    BodyScopedIff(c, Compile(c).value.body);
    ResultsScoped(c, Compile(c).value.body);
  }

  // ------------------------------------------------------ locals nothing reads

  /** The program reads the local, in a statement or in what it returns. */
  ghost predicate IsRead(p: Program, x: string) {
    || (exists i | 0 <= i < |p.body| :: x in CallUses(p.body[i].call))
    || (exists k | 0 <= k < |p.results| :: x in Uses(p.results[k]))
  }

  /** No local is bound in vain, which Go refuses to compile. */
  ghost predicate NoUnusedLocal(p: Program) {
    forall j | 0 <= j < |p.body| && p.body[j].SBind? :: IsRead(p, p.body[j].ident)
  }

  /** Some statement's rendering reads the resource, or an output is an attribute of it. */
  ghost predicate Needed(bp: Decoded, a: string) {
    || (exists i | 0 <= i < |bp.order| :: a in ReadsOf(bp, bp.order[i]))
    || (exists k | 0 <= k < |bp.outputs| :: bp.outputs[k].target.address == a)
  }

  lemma StatementReads(c: Ctx, body: seq<Stmt>, i: nat, a: string)
    requires Apart(c.names) && Emits(c, body) && i < |body| && a in c.names.local
    ensures c.names.local[a] in CallUses(body[i].call) <==> a in ReadsOf(c.bp, c.bp.order[i])
  {
    StmtUses(c.(current := c.bp.order[i]));
    assert Ok(body[i]) == RenderStmt(c.(current := c.bp.order[i]));
    assert RenderCall(c.(current := c.bp.order[i])) == Ok(body[i].call);
    if c.names.local[a] in CallUses(body[i].call) {
      assert LocalAmong(c.names, ReadsOf(c.bp, c.bp.order[i]), c.names.local[a]);
    }
  }

  lemma ResultReads(c: Ctx, a: string)
    requires Sound(c.bp) && Apart(c.names) && a in c.names.local && RenderReturns(c).Ok?
    requires c.bp.forEach.Some? ==> c.bp.outputs == []
    ensures (exists k | 0 <= k < |RenderReturns(c).value| :: c.names.local[a] in Uses(RenderReturns(c).value[k]))
            <==> exists k | 0 <= k < |c.bp.outputs| :: c.bp.outputs[k].target.address == a
  {
    var es := RenderReturns(c).value;
    if c.bp.forEach.None? {
      forall k | 0 <= k < |es|
        ensures c.names.local[a] in Uses(es[k]) <==> c.bp.outputs[k].target.address == a
      {
        assert Uses(es[k]) == {c.names.local[c.bp.outputs[k].target.address]};
      }
    }
  }

  lemma ReadIffNeeded(c: Ctx, p: Program, a: string)
    requires Sound(c.bp) && Apart(c.names) && a in c.names.local && Compile(c) == Ok(p) && Emits(c, p.body)
    requires c.bp.forEach.Some? ==> c.bp.outputs == []
    ensures IsRead(p, c.names.local[a]) <==> Needed(c.bp, a)
  {
    forall i | 0 <= i < |p.body|
      ensures c.names.local[a] in CallUses(p.body[i].call) <==> a in ReadsOf(c.bp, c.bp.order[i])
    {
      StatementReads(c, p.body, i, a);
    }
    ResultReads(c, a);
  }

  /** A bound local is the local of a referenced resource, and each has one. */
  lemma BoundLocals(c: Ctx, body: seq<Stmt>, x: string)
    requires Sound(c.bp) && Apart(c.names) && Emits(c, body) && c.bp.referenced <= c.bp.Known()
    ensures (exists j | 0 <= j < |body| :: body[j].SBind? && body[j].ident == x)
            <==> LocalAmong(c.names, c.bp.referenced, x)
  {
    if j :| 0 <= j < |body| && body[j].SBind? && body[j].ident == x {
      BoundIsReferenced(c, body, j);
    }
    if LocalAmong(c.names, c.bp.referenced, x) {
      var a :| a in c.bp.referenced && a in c.names.local && c.names.local[a] == x;
      KnownIsBound(c.bp, a);
      BoundIffBoundBefore(c, body, |body|, a);
    }
  }

  lemma BoundIsReferenced(c: Ctx, body: seq<Stmt>, j: nat)
    requires Emits(c, body) && j < |body| && body[j].SBind?
    ensures LocalAmong(c.names, c.bp.referenced, body[j].ident)
  {
    var c' := c.(current := c.bp.order[j]);
    assert RenderStmt(c') == Ok(body[j]);
    assert c.bp.order[j].Address() in c.bp.referenced;
  }

  lemma LocalsAllRead(c: Ctx, p: Program)
    requires Sound(c.bp) && Apart(c.names) && Compile(c) == Ok(p) && Emits(c, p.body)
    requires (c.bp.forEach.Some? ==> c.bp.outputs == []) && c.bp.referenced <= c.bp.Known()
    ensures NoUnusedLocal(p) <==> forall a | a in c.bp.referenced :: Needed(c.bp, a)
  {
    forall a | a in c.bp.referenced
      ensures a in c.names.local && (IsRead(p, c.names.local[a]) <==> Needed(c.bp, a))
      ensures exists j :: 0 <= j < |p.body| && p.body[j].SBind? && p.body[j].ident == c.names.local[a]
    {
      ReferencedHasLocal(c, p.body, a);
      ReadIffNeeded(c, p, a);
    }
    forall j | 0 <= j < |p.body| && p.body[j].SBind? ensures LocalAmong(c.names, c.bp.referenced, p.body[j].ident) {
      BoundIsReferenced(c, p.body, j);
    }
  }

  lemma ReferencedHasLocal(c: Ctx, body: seq<Stmt>, a: string)
    requires Sound(c.bp) && Apart(c.names) && Emits(c, body) && a in c.bp.referenced && a in c.bp.Known()
    ensures a in c.names.local
    ensures exists j :: 0 <= j < |body| && body[j].SBind? && body[j].ident == c.names.local[a]
  {
    KnownIsBound(c.bp, a);
    var j :| 0 <= j < |c.bp.order| && c.bp.order[j].Address() in c.bp.referenced && c.bp.order[j].Address() == a;
    assert SoundResource(c.bp, c.bp.order[j]);
    assert RenderStmt(c.(current := c.bp.order[j])) == Ok(body[j]);
    BoundIffBoundBefore(c, body, |body|, a);
  }

  lemma AcceptedShape(draft: Draft, params: seq<Param>, outputs: seq<Output>, bp: Decoded)
    requires DecodeBlueprint(draft, params, outputs) == Ok(bp)
    ensures bp.forEach.Some? ==> bp.outputs == []
    ensures bp.referenced <= bp.Known()
  {
    AcceptedParts(draft, params, outputs, bp);
    AcceptedIsSound(draft, params, outputs);
    LoopHasNoOutputs(draft, params, outputs, bp);
    ReferencedKnown(bp);
  }

  lemma LoopHasNoOutputs(draft: Draft, params: seq<Param>, outputs: seq<Output>, bp: Decoded)
    requires WellShaped(draft, params, outputs) && bp.resources == WithDeps(draft)
    requires ResolveOutputs(bp.resources, outputs) == Ok(bp.outputs) && bp.forEach == ForEachOf(bp.resources)
    ensures bp.forEach.Some? ==> bp.outputs == []
  {
    if bp.forEach.Some? {
      var k :| 0 <= k < |bp.resources| && bp.resources[k] == bp.forEach.value;
      assert ValidForEach(draft.resources[k], ParamsByName(params), outputs);
    }
  }

  lemma ReferencedKnown(bp: Decoded)
    requires Sound(bp) && bp.referenced == DepsUnion(bp.resources) + OutputTargets(bp.outputs)
    ensures bp.referenced <= bp.Known()
  {
    forall a | a in bp.referenced ensures a in bp.Known() {
      if a in DepsUnion(bp.resources) {
        var r :| r in bp.resources && a in r.deps;
        SameMembers(bp.order, bp.resources);
        assert r in bp.order;
        assert SoundResource(bp, r);
      } else {
        var o :| o in bp.outputs && o.target.address == a;
      }
    }
  }

  /** The references that ask for an order or stand where the code does not look: those in
      depends_on, and those decoding collects but rendering does not read. */
  ghost predicate UnreadAreNeeded(bp: Decoded, dr: DecodedResource) {
    && (forall a | a in TargetsOf(bp.stack, bp.Known(), Elements(dr.ri.dependsOn)) :: Needed(bp, a))
    && (forall k, a | k in dr.ri.config && a in Missed(bp, dr.ri.config[k]) :: Needed(bp, a))
  }

  lemma DepsNeeded(bp: Decoded, i: nat)
    requires i < |bp.order| && SoundResource(bp, bp.order[i])
    ensures (forall a | a in bp.order[i].deps :: Needed(bp, a)) <==> UnreadAreNeeded(bp, bp.order[i])
  {
    var dr := bp.order[i];
    forall k, a | k in dr.ri.config && a in Missed(bp, dr.ri.config[k]) ensures a in dr.deps {
      MissedIsCollected(bp, dr.ri.config[k]);
      TargetsGrow(bp.stack, bp.Known(), CollectRefs(dr.ri.config[k]), Mentions(dr.ri));
    }
    TargetsGrow(bp.stack, bp.Known(), Elements(dr.ri.dependsOn), Mentions(dr.ri));
    if UnreadAreNeeded(bp, dr) {
      forall a | a in dr.deps ensures Needed(bp, a) {
        var t := TargetCaptured(bp, Mentions(dr.ri), a);
        if t in dr.ri.dependsOn {
          CapturedTarget(bp, Elements(dr.ri.dependsOn), t);
        } else {
          var k :| k in dr.ri.config && t in CollectRefs(dr.ri.config[k]);
          CapturedTarget(bp, CollectRefs(dr.ri.config[k]), t);
          CollectedIsReadOrMissed(bp, dr.ri.config[k], a);
          assert a in Reads(bp, dr.ri.config[k]) ==> a in ReadsOf(bp, dr);
        }
      }
    }
  }

  lemma ReferencedNeeded(bp: Decoded)
    requires Sound(bp) && bp.referenced == DepsUnion(bp.resources) + OutputTargets(bp.outputs)
    ensures (forall a | a in bp.referenced :: Needed(bp, a))
            <==> forall i | 0 <= i < |bp.order| :: UnreadAreNeeded(bp, bp.order[i])
  {
    SameMembers(bp.order, bp.resources);
    forall i | 0 <= i < |bp.order|
      ensures (forall a | a in bp.order[i].deps :: Needed(bp, a)) <==> UnreadAreNeeded(bp, bp.order[i])
      ensures bp.order[i].deps <= bp.referenced
    {
      assert bp.order[i] in bp.order;
      DepsNeeded(bp, i);
    }
    if forall i | 0 <= i < |bp.order| :: UnreadAreNeeded(bp, bp.order[i]) {
      forall a | a in bp.referenced ensures Needed(bp, a) {
        if a in DepsUnion(bp.resources) {
          var r :| r in bp.resources && a in r.deps;
          assert r in bp.order;
          var i :| 0 <= i < |bp.order| && bp.order[i] == r;
        } else {
          var o :| o in bp.outputs && o.target.address == a;
        }
      }
    }
  }

  /** A local is meant to be bound only where something reads it.  It is, if and only if
      every resource that is named in a depends_on, or by a collected reference the code
      does not read, is also read by some statement or is the target of an output. */
  lemma NoUnusedLocalIff(draft: Draft, params: seq<Param>, outputs: seq<Output>, c: Ctx)
    requires DecodeBlueprint(draft, params, outputs) == Ok(c.bp) && Compile(c).Ok? && Apart(c.names)
    ensures NoUnusedLocal(Compile(c).value)
            <==> forall i | 0 <= i < |c.bp.order| :: UnreadAreNeeded(c.bp, c.bp.order[i])
  {
    AcceptedIsSound(draft, params, outputs);
    AcceptedParts(draft, params, outputs, c.bp);
    AcceptedShape(draft, params, outputs, c.bp);
    CompileEmits(c);
    LocalsAllRead(c, Compile(c).value);
    ReferencedNeeded(c.bp);
  }
}
