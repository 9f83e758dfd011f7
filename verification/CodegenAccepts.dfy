/** Which accepted drafts code is generated for.

    Decoding checks references, conditions and the loop.  It does not look at placeholders,
    at what only the regular expression captures, or at ported function calls, and there
    every generator may still refuse.  ValueFits says what a generator takes, value by
    value and in terms of the draft; references need nothing more, since decoding has
    resolved them.  The theorem of this file is that code is emitted for an accepted draft
    exactly when all its values fit. */
module CodegenAccepts {
  import opened Common
  import opened Blueprint
  import opened Decode
  import opened Codegen
  import opened CodegenProofs
  import opened CodegenTexts
  import opened CodegenMeaning
  import opened CodegenTheorem
  import opened CodegenScoping
  import Splice
  import TopoSort

  /** Where a value of a draft stands: the language, what addresses and placeholders may
      name, the list the blueprint iterates over, and whether this is the resource that
      iterates. */
  datatype Scope = Scope(
    lang: Lang,
    stack: string,
    known: set<string>,
    params: map<string, Param>,
    loop: Option<string>,
    inLoop: bool)
  {
    predicate Loops(name: string) { loop.Some? && (name == loop.value || name == loop.value + "_index") }
  }

  /** A placeholder the generators accept: the loop's own in the resource that iterates,
      elsewhere a declared parameter that is not a list, and arithmetic on numbers only. */
  predicate TokenFits(s: Scope, t: Token) {
    if s.Loops(t.name) then s.inLoop && t.op == ""
    else t.name in s.params && !s.params[t.name].ptype.IsList() && (t.op != "" ==> s.params[t.name].ptype.NumberType?)
  }

  /** A text they accept: a JSON text that holds references has a match, and each match
      names a resource of the blueprint; any other text has only placeholders that fit. */
  predicate TextFits(s: Scope, t: Text) {
    if IsEmbedded(t) then
      && t.refs != []
      && forall i | 0 <= i < |t.refs| ::
           ResolveAddress(s.stack, s.known, Splice.Slice(t.chars, t.refs[i].addrStart, t.refs[i].addrEnd)).Ok?
    else forall i | 0 <= i < |t.tokens| :: TokenFits(s, t.tokens[i])
  }

  /** A value they accept.  References need nothing, and a ported function call is a
      cidrsubnet of three arguments, in Go. */
  predicate ValueFits(s: Scope, j: Json) {
    match j
    case Str(t) => TextFits(s, t)
    case Arr(items) => forall i | 0 <= i < |items| :: ValueFits(s, items[i])
    case Obj(fields) =>
      if RefTarget(j).Some? then true
      else if FnMarker(j).Some? then
        var (fn, items) := FnMarker(j).value;
        s.lang.Go? && fn == "cidrsubnet" && |items| == 3 && forall i | 0 <= i < |items| :: ValueFits(s, items[i])
      else forall k | k in fields :: ValueFits(s, fields[k])
    case _ => true
  }

  predicate IntentFits(s: Scope, ri: ResourceIntent) {
    (forall k | k in ri.config :: ValueFits(s, ri.config[k])) && (ri.forEach != "" ==> TextFits(s, ri.name))
  }

  function LoopOf(ris: seq<ResourceIntent>): Option<string> {
    if ris == [] then None
    else if ris[0].forEach != "" then Some(ris[0].forEach)
    else LoopOf(ris[1..])
  }

  function ScopeOf(lang: Lang, draft: Draft, params: seq<Param>, ri: ResourceIntent): Scope {
    Scope(lang, draft.stack, KnownAddresses(draft.resources), ParamsByName(params), LoopOf(draft.resources),
          ri.forEach != "")
  }

  /** A check on the draft alone. */
  predicate DraftFits(lang: Lang, draft: Draft, params: seq<Param>) {
    forall i | 0 <= i < |draft.resources| ::
      IntentFits(ScopeOf(lang, draft, params, draft.resources[i]), draft.resources[i])
  }

  // ---------------------------------------------------------------- value by value

  function ScopeFor(c: Ctx): Scope {
    Scope(c.lang, c.bp.stack, c.bp.Known(), c.params,
          if c.bp.forEach.Some? then Some(c.bp.forEach.value.ri.forEach) else None,
          c.bp.forEach.Some? && c.current == c.bp.forEach.value)
  }

  /** Every resource has a local and every parameter an identifier, and the loop's names are
      a list and nothing else. */
  ghost predicate Covers(c: Ctx) {
    && c.bp.Known() <= c.names.local.Keys && c.names.param.Keys == c.params.Keys
    && (c.bp.forEach.Some? ==>
          var base := c.bp.forEach.value.ri.forEach;
          base in c.params && c.params[base].ptype.IsList() && base + "_index" !in c.params)
  }

  lemma TokenRendersIff(c: Ctx, t: Token)
    requires Covers(c)
    ensures ParamExpr(c, t).Ok? <==> TokenFits(ScopeFor(c), t)
  {
  }

  lemma PieceRendersIff(c: Ctx, p: Splice.Piece)
    requires Covers(c)
    ensures RenderPiece(c, p).Ok? <==> p.Literal? || ResolveAddress(c.bp.stack, c.bp.Known(), p.captured).Ok?
  {
  }

  lemma {:induction false} PiecesRenderIff(c: Ctx, pieces: seq<Splice.Piece>)
    ensures RenderPieces(c, pieces).Ok? <==> forall p | p in pieces :: RenderPiece(c, p).Ok?
  {
    if pieces != [] {
      PiecesRenderIff(c, pieces[1..]);
      FirstSplits(pieces);
      assert forall p :: p in pieces <==> p == pieces[0] || p in pieces[1..];
    }
  }

  lemma EmbeddedRendersIff(c: Ctx, t: Text)
    requires Covers(c)
    ensures RenderPieces(c, Splice.Pieces(t.chars, t.refs, 0)).Ok? <==> Resolves(c.bp, t.chars, t.refs)
  {
    var pieces := Splice.Pieces(t.chars, t.refs, 0);
    PiecesRenderIff(c, pieces);
    if RenderPieces(c, pieces).Ok? {
      RenderedResolves(c, t.chars, t.refs, 0);
    }
    if Resolves(c.bp, t.chars, t.refs) {
      PiecesCapture(t.chars, t.refs, 0);
      forall p | p in pieces ensures RenderPiece(c, p).Ok? {
        PieceRendersIff(c, p);
        if p.Address? {
          var m :| m in t.refs && p.captured == Splice.Slice(t.chars, m.addrStart, m.addrEnd);
          var i :| 0 <= i < |t.refs| && t.refs[i] == m;
        }
      }
    }
  }

  lemma TextRendersIff(c: Ctx, t: Text)
    requires Covers(c)
    ensures RenderString(c, t).Ok? <==> TextFits(ScopeFor(c), t)
  {
    if IsEmbedded(t) {
      EmbeddedRendersIff(c, t);
    } else {
      forall i | 0 <= i < |t.tokens| ensures ParamExpr(c, t.tokens[i]).Ok? <==> TokenFits(ScopeFor(c), t.tokens[i]) {
        TokenRendersIff(c, t.tokens[i]);
      }
    }
  }

  lemma AllResolveSome(stack: string, known: set<string>, a: set<string>, b: set<string>)
    requires AllResolve(stack, known, b) && a <= b
    ensures AllResolve(stack, known, a)
  {
  }

  lemma {:induction false} ValueRendersIff(c: Ctx, j: Json)
    requires Covers(c) && AllResolve(c.bp.stack, c.bp.Known(), CollectRefs(j))
    ensures RenderAny(c, j).Ok? <==> ValueFits(ScopeFor(c), j)
    decreases j
  {
    match j
    case Str(t) => TextRendersIff(c, t);
    case Arr(items) =>
      forall i | 0 <= i < |items| ensures RenderAny(c, items[i]).Ok? <==> ValueFits(ScopeFor(c), items[i]) {
        AllResolveSome(c.bp.stack, c.bp.Known(), CollectRefs(items[i]), CollectRefs(j));
        ValueRendersIff(c, items[i]);
      }
    case Obj(fields) =>
      if RefTarget(j).Some? {
        assert RefTarget(j).value in CollectRefs(j);
      } else if FnMarker(j).Some? {
        var items := FnMarker(j).value.1;
        assert items == fields["$fn"].fields["args"].items;
        forall i | 0 <= i < |items| ensures RenderAny(c, items[i]).Ok? <==> ValueFits(ScopeFor(c), items[i]) {
          FnArgsCollected(j, i);
          AllResolveSome(c.bp.stack, c.bp.Known(), CollectRefs(items[i]), CollectRefs(j));
          ValueRendersIff(c, items[i]);
        }
      } else {
        forall k | k in fields ensures RenderAny(c, fields[k]).Ok? <==> ValueFits(ScopeFor(c), fields[k]) {
          AllResolveSome(c.bp.stack, c.bp.Known(), CollectRefs(fields[k]), CollectRefs(j));
          ValueRendersIff(c, fields[k]);
        }
      }
    case _ =>
  }

  // -------------------------------------------------------------------- statements

  lemma CallRendersIff(c: Ctx)
    requires Covers(c) && AllResolve(c.bp.stack, c.bp.Known(), Mentions(c.current.ri))
    ensures RenderCall(c).Ok? <==> IntentFits(ScopeFor(c), c.current.ri)
  {
    var ri := c.current.ri;
    forall k | k in ri.config ensures RenderAny(c, ri.config[k]).Ok? <==> ValueFits(ScopeFor(c), ri.config[k]) {
      AllResolveSome(c.bp.stack, c.bp.Known(), CollectRefs(ri.config[k]), Mentions(ri));
      ValueRendersIff(c, ri.config[k]);
    }
    if ri.forEach != "" {
      TextRendersIff(c, ri.name);
    }
  }

  /** What decoding has checked of the conditions and the loop. */
  ghost predicate StatementNames(c: Ctx) {
    && c.current.Address() in c.bp.Known()
    && (c.current.ri.forEach != "" ==> c.current.ri.forEach in c.params)
    && forall i | 0 <= i < |c.current.ri.createIf| :: ConditionFits(c, c.current.ri.createIf[i])
  }

  lemma TermsRender(c: Ctx)
    requires Covers(c) && StatementNames(c)
    ensures RenderTerms(c, c.current.ri.createIf).Ok?
  {
    var terms := c.current.ri.createIf;
    forall i | 0 <= i < |terms| ensures ParamRef(c, TermName(terms[i])).Ok? {
      assert ConditionFits(c, terms[i]);
    }
  }

  lemma StatementRendersIff(c: Ctx)
    requires Covers(c) && StatementNames(c) && AllResolve(c.bp.stack, c.bp.Known(), Mentions(c.current.ri))
    ensures RenderStmt(c).Ok? <==> IntentFits(ScopeFor(c), c.current.ri)
  {
    CallRendersIff(c);
    TermsRender(c);
  }

  lemma {:induction false} BodyRendersIff(c: Ctx, order: seq<DecodedResource>)
    ensures RenderBody(c, order).Ok? <==> forall r | r in order :: RenderStmt(c.(current := r)).Ok?
  {
    if order != [] {
      var front, last := order[..|order| - 1], order[|order| - 1];
      BodyRendersIff(c, front);
      LastSplits(order);
      assert forall r :: r in order <==> r in front || r == last;
    }
  }

  lemma ReturnsRender(c: Ctx)
    requires Sound(c.bp) && c.bp.Known() <= c.names.local.Keys
    ensures RenderReturns(c).Ok?
  {
  }

  // ------------------------------------------------------------- the draft's own scope

  lemma {:induction false} LoopIs(ris: seq<ResourceIntent>, rs: seq<DecodedResource>)
    requires |ris| == |rs| && forall i | 0 <= i < |rs| :: rs[i].ri == ris[i]
    ensures LoopOf(ris) == if ForEachOf(rs).Some? then Some(ForEachOf(rs).value.ri.forEach) else None
  {
    if ris != [] {
      LoopIs(ris[1..], rs[1..]);
    }
  }

  /** The context of a generator for a decoded draft. */
  ghost predicate ContextFor(draft: Draft, params: seq<Param>, outputs: seq<Output>, c: Ctx) {
    && DecodeBlueprint(draft, params, outputs) == Ok(c.bp)
    && c.params == ParamsByName(params) && c.names.param.Keys == c.params.Keys
    && c.bp.Known() <= c.names.local.Keys
  }

  lemma ContextCovers(draft: Draft, params: seq<Param>, outputs: seq<Output>, c: Ctx)
    requires ContextFor(draft, params, outputs, c)
    ensures Covers(c)
  {
    AcceptedParts(draft, params, outputs, c.bp);
    if c.bp.forEach.Some? {
      var k :| 0 <= k < |c.bp.resources| && c.bp.resources[k] == c.bp.forEach.value;
      assert ValidForEach(draft.resources[k], ParamsByName(params), outputs);
    }
  }

  lemma SameScope(draft: Draft, params: seq<Param>, outputs: seq<Output>, c: Ctx, n: nat)
    requires ContextFor(draft, params, outputs, c) && n < |c.bp.order|
    ensures ScopeFor(c.(current := c.bp.order[n])) == ScopeOf(c.lang, draft, params, c.bp.order[n].ri)
  {
    AcceptedIsSound(draft, params, outputs);
    AcceptedParts(draft, params, outputs, c.bp);
    KnownMatches(draft);
    LoopIs(draft.resources, c.bp.resources);
    TheLoopResource(c.bp, n);
  }

  lemma NamesOfStatement(draft: Draft, params: seq<Param>, outputs: seq<Output>, c: Ctx, n: nat)
    requires ContextFor(draft, params, outputs, c) && n < |c.bp.order|
    ensures StatementNames(c.(current := c.bp.order[n]))
    ensures AllResolve(c.bp.stack, c.bp.Known(), Mentions(c.bp.order[n].ri))
  {
    AcceptedIsSound(draft, params, outputs);
    AcceptedParts(draft, params, outputs, c.bp);
    KnownMatches(draft);
    var k := DeclaredAt(c.bp.order, c.bp.resources, n);
    var c' := c.(current := c.bp.order[n]);
    assert c.bp.resources[k] in c.bp.resources;
    assert ValidForEach(draft.resources[k], ParamsByName(params), outputs);
    assert ValidCreateIf(draft.resources[k], ParamsByName(params));
    forall i | 0 <= i < |c'.current.ri.createIf| ensures ConditionFits(c', c'.current.ri.createIf[i]) {
      assert ValidTerm(draft.resources[k].createIf[i], ParamsByName(params));
    }
  }

  lemma StatementFitsIff(draft: Draft, params: seq<Param>, outputs: seq<Output>, c: Ctx, n: nat)
    requires ContextFor(draft, params, outputs, c) && n < |c.bp.order|
    ensures RenderStmt(c.(current := c.bp.order[n])).Ok?
            <==> IntentFits(ScopeOf(c.lang, draft, params, c.bp.order[n].ri), c.bp.order[n].ri)
  {
    ContextCovers(draft, params, outputs, c);
    SameScope(draft, params, outputs, c, n);
    NamesOfStatement(draft, params, outputs, c, n);
    StatementRendersIff(c.(current := c.bp.order[n]));
  }

  /** The order lists the draft's resources. */
  lemma OrderIsDraft(draft: Draft, bp: Decoded, ri: ResourceIntent)
    requires multiset(bp.order) == multiset(bp.resources) && bp.resources == WithDeps(draft)
    ensures ri in draft.resources <==> exists n :: 0 <= n < |bp.order| && bp.order[n].ri == ri
  {
    SameMembers(bp.order, bp.resources);
    if i :| 0 <= i < |draft.resources| && draft.resources[i] == ri {
      assert bp.resources[i] in bp.order;
      var n :| 0 <= n < |bp.order| && bp.order[n] == bp.resources[i];
    }
    if n :| 0 <= n < |bp.order| && bp.order[n].ri == ri {
      var k := DeclaredAt(bp.order, bp.resources, n);
      assert draft.resources[k] == ri;
    }
  }

  lemma AcceptedOrderIsDraft(draft: Draft, params: seq<Param>, outputs: seq<Output>, bp: Decoded, ri: ResourceIntent)
    requires DecodeBlueprint(draft, params, outputs) == Ok(bp)
    ensures ri in draft.resources <==> exists n :: 0 <= n < |bp.order| && bp.order[n].ri == ri
  {
    AcceptedIsSound(draft, params, outputs);
    AcceptedParts(draft, params, outputs, bp);
    OrderIsDraft(draft, bp, ri);
  }

  /** The exact condition for generation: code is emitted for an accepted draft, in Go,
      TypeScript or Python, if and only if its texts and function calls fit. */
  lemma CompilesIff(draft: Draft, params: seq<Param>, outputs: seq<Output>, c: Ctx)
    requires ContextFor(draft, params, outputs, c)
    ensures Compile(c).Ok? <==> DraftFits(c.lang, draft, params)
  {
    AcceptedIsSound(draft, params, outputs);
    ReturnsRender(c);
    BodyRendersIff(c, c.bp.order);
    assert Compile(c).Ok? <==> RenderBody(c, c.bp.order).Ok?;
    if DraftFits(c.lang, draft, params) {
      forall r | r in c.bp.order ensures RenderStmt(c.(current := r)).Ok? {
        FittingStatement(draft, params, outputs, c, r);
      }
    }
    if Compile(c).Ok? {
      forall i | 0 <= i < |draft.resources|
        ensures IntentFits(ScopeOf(c.lang, draft, params, draft.resources[i]), draft.resources[i])
      {
        EmittedIntent(draft, params, outputs, c, draft.resources[i]);
      }
    }
  }

  lemma FittingStatement(draft: Draft, params: seq<Param>, outputs: seq<Output>, c: Ctx, r: DecodedResource)
    requires ContextFor(draft, params, outputs, c) && DraftFits(c.lang, draft, params) && r in c.bp.order
    ensures RenderStmt(c.(current := r)).Ok?
  {
    var n :| 0 <= n < |c.bp.order| && c.bp.order[n] == r;
    AcceptedOrderIsDraft(draft, params, outputs, c.bp, r.ri);
    assert r.ri in draft.resources;
    var i :| 0 <= i < |draft.resources| && draft.resources[i] == r.ri;
    StatementFitsIff(draft, params, outputs, c, n);
  }

  lemma EmittedIntent(draft: Draft, params: seq<Param>, outputs: seq<Output>, c: Ctx, ri: ResourceIntent)
    requires ContextFor(draft, params, outputs, c) && ri in draft.resources
    requires forall r | r in c.bp.order :: RenderStmt(c.(current := r)).Ok?
    ensures IntentFits(ScopeOf(c.lang, draft, params, ri), ri)
  {
    AcceptedOrderIsDraft(draft, params, outputs, c.bp, ri);
    var n :| 0 <= n < |c.bp.order| && c.bp.order[n].ri == ri;
    assert c.bp.order[n] in c.bp.order;
    StatementFitsIff(draft, params, outputs, c, n);
  }
}
