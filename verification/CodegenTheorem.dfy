/** The compiler theorem: running the emitted body produces exactly the resources and
    outputs the blueprint means.

    The proof follows the body.  Each of the four forms of a statement - looping,
    conditional, bound, bare - creates its resource's instances and leaves the frame in
    order for the next: parameters unchanged, every referenced resource so far under its
    own local, and the collected list where a loop has run.  The body is then an
    induction over its statements, and the returned outputs are read off the final
    frame. */
module CodegenTheorem {
  import opened Common
  import opened Blueprint
  import opened Decode
  import opened Codegen
  import opened CodegenProofs
  import opened CodegenTexts
  import opened CodegenMeaning

  /** What the frame holds after the statements of the first n resources. */
  ghost predicate FrameOk(c: Ctx, f: Frame, args: Args, h: Host, n: nat)
    requires n <= |c.bp.order|
  {
    && ParamsIn(c, f, args)
    && HandlesBound(c, Bound(c.bp, n), f)
    && (forall i | 0 <= i < n && c.bp.order[i].ri.forEach != "" ::
          c.names.accum in f && f[c.names.accum] == VList(Handles(Instances(c.bp, args, h, c.bp.order[i]))))
  }

  /** A statement whose reads are bound in time and whose texts read in this stack. */
  ghost predicate ReadyAt(c: Ctx, i: nat, name: string)
    requires i < |c.bp.order|
  {
    && ReadsOf(c.bp, c.bp.order[i]) <= Bound(c.bp, i) && ValidResource(c.bp.stack, c.bp.order[i])
    && CallReads(c.lang, c.bp.stack, c.bp.order[i], name)
  }

  /** Everything the theorem about the first n statements rests on. */
  ghost predicate Ready(c: Ctx, n: nat, args: Args, h: Host) {
    && n <= |c.bp.order|
    && Sound(c.bp) && Apart(c.names) && PlainNames(c.names) && Fits(c, args)
    && (forall i | 0 <= i < n :: ReadyAt(c, i, h.stack))
  }

  /** About to run the statement of the n-th resource. */
  ghost predicate AtStep(c: Ctx, n: nat, f: Frame, args: Args, h: Host) {
    n < |c.bp.order| && c.current == c.bp.order[n] && RenderStmt(c).Ok?
    && Ready(c, n + 1, args, h) && FrameOk(c, f, args, h, n)
  }

  /** The statement creates exactly the resource's instances and leaves the frame in
      order for the next. */
  ghost predicate StepDone(c: Ctx, n: nat, f: Frame, args: Args, h: Host)
    requires n < |c.bp.order| && RenderStmt(c).Ok?
  {
    var r := ExecStmt(RenderStmt(c).value, f, h);
    r.Ok? && r.value.created == Instances(c.bp, args, h, c.current) && FrameOk(c, r.value.frame, args, h, n + 1)
  }

  lemma TheLoopResource(bp: Decoded, n: nat)
    requires Sound(bp) && n < |bp.order|
    ensures bp.order[n].ri.forEach != "" <==> bp.forEach == Some(bp.order[n])
  {
    SameMembers(bp.order, bp.resources);
    assert bp.order[n] in bp.resources;
    if bp.forEach.Some? {
      assert bp.forEach.value in bp.order;
      var m :| 0 <= m < |bp.order| && bp.order[m] == bp.forEach.value;
    }
  }

  lemma BoundGrows(bp: Decoded, n: nat)
    requires n < |bp.order|
    ensures var a := bp.order[n].Address();
      Bound(bp, n + 1) == Bound(bp, n) + if a in bp.referenced then {a} else {}
  {
  }

  /** The call of an ordinary resource, where the frame stands. */
  lemma OrdinaryCall(c: Ctx, n: nat, f: Frame, args: Args, h: Host)
    requires AtStep(c, n, f, args, h) && c.current.ri.forEach == ""
    ensures RenderCall(c).Ok? && EvalCall(RenderCall(c).value, f, h) == Ok(DenoteResource(c.bp, args, h, c.current))
  {
    TheLoopResource(c.bp, n);
    TokensAreParams(c, f, args);
    assert ReadyAt(c, n, h.stack);
    CallCreates(c, f, args, h);
  }

  lemma FrameKept(c: Ctx, f: Frame, args: Args, h: Host, n: nat)
    requires n < |c.bp.order| && FrameOk(c, f, args, h, n)
    requires c.bp.order[n].ri.forEach == "" && c.bp.order[n].Address() !in c.bp.referenced
    ensures FrameOk(c, f, args, h, n + 1)
  {
    BoundGrows(c.bp, n);
    assert Bound(c.bp, n + 1) == Bound(c.bp, n);
  }

  lemma ConditionalStep(c: Ctx, n: nat, f: Frame, args: Args, h: Host)
    requires AtStep(c, n, f, args, h) && c.current.ri.forEach == "" && c.current.ri.createIf != []
    ensures StepDone(c, n, f, args, h)
  {
    OrdinaryCall(c, n, f, args, h);
    assert SoundResource(c.bp, c.bp.order[n]);
    FrameKept(c, f, args, h, n);
    ConditionMeans(c, n, f, args, h);
    ConditionRuns(c, f, args, h);
  }

  ghost predicate TermsDecide(terms: seq<Term>, f: Frame, holds: bool) {
    && (forall i | 0 <= i < |terms| :: terms[i].ident in f && f[terms[i].ident].VBool?)
    && ((exists i | 0 <= i < |terms| :: f[terms[i].ident].b == terms[i].negated) <==> !holds)
  }

  lemma ConditionRuns(c: Ctx, f: Frame, args: Args, h: Host)
    requires c.current.ri.forEach == "" && c.current.ri.createIf != []
    requires RenderStmt(c).Ok? && RenderCall(c).Ok? && RenderTerms(c, c.current.ri.createIf).Ok?
    requires EvalCall(RenderCall(c).value, f, h) == Ok(DenoteResource(c.bp, args, h, c.current))
    requires TermsDecide(RenderTerms(c, c.current.ri.createIf).value, f, Holds(args, c.current.ri.createIf))
    ensures ExecStmt(RenderStmt(c).value, f, h) == Ok(Outcome(f, Instances(c.bp, args, h, c.current)))
  {
  }

  lemma BareStep(c: Ctx, n: nat, f: Frame, args: Args, h: Host)
    requires AtStep(c, n, f, args, h) && c.current.ri.forEach == "" && c.current.ri.createIf == []
    requires c.current.Address() !in c.bp.referenced
    ensures StepDone(c, n, f, args, h)
  {
    OrdinaryCall(c, n, f, args, h);
    FrameKept(c, f, args, h, n);
  }

  lemma BoundStep(c: Ctx, n: nat, f: Frame, args: Args, h: Host)
    requires AtStep(c, n, f, args, h) && c.current.ri.forEach == "" && c.current.ri.createIf == []
    requires c.current.Address() in c.bp.referenced
    ensures StepDone(c, n, f, args, h)
  {
    OrdinaryCall(c, n, f, args, h);
    BindStep(c, n, f, args, h);
  }

  lemma BindStep(c: Ctx, n: nat, f: Frame, args: Args, h: Host)
    requires Apart(c.names) && n < |c.bp.order| && FrameOk(c, f, args, h, n)
    requires c.current == c.bp.order[n] && c.current.ri.forEach == "" && c.current.Address() in c.bp.referenced
    requires c.current.Address() in c.names.local
    ensures FrameOk(c, f[c.names.local[c.current.Address()] := VHandle(c.current.Address(), [])], args, h, n + 1)
  {
    var x := c.names.local[c.current.Address()];
    assert !LoopVariable(c.names, x);
    BoundGrows(c.bp, n);
    var f' := f[x := VHandle(c.current.Address(), [])];
    forall a | a in Bound(c.bp, n + 1)
      ensures a in c.names.local && c.names.local[a] in f' && f'[c.names.local[a]] == VHandle(a, [])
    {
      if a != c.current.Address() {
        assert a in Bound(c.bp, n);
      }
    }
  }

  lemma ConditionMeans(c: Ctx, n: nat, f: Frame, args: Args, h: Host)
    requires Fits(c, args) && ParamsIn(c, f, args) && n < |c.bp.order| && c.current == c.bp.order[n]
    requires RenderTerms(c, c.current.ri.createIf).Ok?
    ensures TermsDecide(RenderTerms(c, c.current.ri.createIf).value, f, Holds(args, c.current.ri.createIf))
  {
    var names := c.current.ri.createIf;
    var terms := RenderTerms(c, names).value;
    forall i | 0 <= i < |names|
      ensures terms[i].ident in f && f[terms[i].ident] == args[TermName(names[i])] && args[TermName(names[i])].VBool?
    {
      assert ConditionFits(c, c.bp.order[n].ri.createIf[i]);
    }
  }

  lemma LoopStep(c: Ctx, n: nat, f: Frame, args: Args, h: Host)
    requires AtStep(c, n, f, args, h) && c.current.ri.forEach != ""
    ensures StepDone(c, n, f, args, h)
  {
    TheLoopResource(c.bp, n);
    var base := c.current.ri.forEach;
    var s := RenderStmt(c).value;
    var items := args[base].items;
    assert ReadyAt(c, n, h.stack);
    LoopCreates(c, s, items, f, args, h);
    AccumStep(c, n, f, args, h);
  }

  lemma AccumStep(c: Ctx, n: nat, f: Frame, args: Args, h: Host)
    requires Apart(c.names) && Sound(c.bp) && n < |c.bp.order| && FrameOk(c, f, args, h, n)
    requires c.current == c.bp.order[n] && c.current.ri.forEach != ""
    ensures FrameOk(c, f[c.names.accum := VList(Handles(Instances(c.bp, args, h, c.current)))], args, h, n + 1)
  {
    var v := VList(Handles(Instances(c.bp, args, h, c.current)));
    LoopIsUnbound(c.bp, n);
    AccumApart(c, Bound(c.bp, n), f, args, v);
    forall i | 0 <= i < n + 1 && c.bp.order[i].ri.forEach != ""
      ensures VList(Handles(Instances(c.bp, args, h, c.bp.order[i]))) == v
    {
      OneLoop(c.bp, i, n);
    }
  }

  lemma OneLoop(bp: Decoded, i: nat, n: nat)
    requires Sound(bp) && i <= n < |bp.order| && bp.order[i].ri.forEach != "" && bp.order[n].ri.forEach != ""
    ensures i == n
  {
  }

  lemma LoopIsUnbound(bp: Decoded, n: nat)
    requires Sound(bp) && n < |bp.order| && bp.order[n].ri.forEach != ""
    ensures Bound(bp, n + 1) == Bound(bp, n)
  {
    BoundGrows(bp, n);
    assert SoundResource(bp, bp.order[n]);
  }

  /** The collected list touches no parameter and no resource local. */
  lemma AccumApart(c: Ctx, bound: set<string>, f: Frame, args: Args, v: Value)
    requires Apart(c.names) && ParamsIn(c, f, args) && HandlesBound(c, bound, f)
    ensures ParamsIn(c, f[c.names.accum := v], args) && HandlesBound(c, bound, f[c.names.accum := v])
  {
    assert forall a | a in c.names.local :: !LoopVariable(c.names, c.names.local[a]);
    assert forall p | p in c.names.param :: !LoopVariable(c.names, c.names.param[p]);
  }

  lemma FrameElsewhere(c: Ctx, dr: DecodedResource, f: Frame, args: Args, h: Host, n: nat)
    requires n <= |c.bp.order|
    ensures FrameOk(c, f, args, h, n) <==> FrameOk(c.(current := dr), f, args, h, n)
  {
  }

  lemma ReadyElsewhere(c: Ctx, dr: DecodedResource, n: nat, args: Args, h: Host)
    requires Ready(c, n, args, h)
    ensures Ready(c.(current := dr), n, args, h)
  {
    var c' := c.(current := dr);
    assert forall i | 0 <= i < n :: ReadyAt(c, i, h.stack) ==> ReadyAt(c', i, h.stack);
    assert forall t :: ConditionFits(c, t) ==> ConditionFits(c', t);
  }

  lemma ExecAppend(front: seq<Stmt>, s: Stmt, f: Frame, h: Host)
    requires Exec(front, f, h).Ok? && ExecStmt(s, Exec(front, f, h).value.frame, h).Ok?
    ensures var o := Exec(front, f, h).value; var o' := ExecStmt(s, o.frame, h).value;
            Exec(front + [s], f, h) == Ok(Outcome(o'.frame, o.created + o'.created))
  {
    assert (front + [s])[..|front|] == front;
  }

  lemma BodySplits(c: Ctx, order: seq<DecodedResource>, n: nat)
    requires n < |order| && RenderBody(c, order[..n + 1]).Ok?
    ensures RenderBody(c, order[..n]).Ok? && RenderStmt(c.(current := order[n])).Ok?
    ensures RenderBody(c, order[..n + 1]).value
            == RenderBody(c, order[..n]).value + [RenderStmt(c.(current := order[n])).value]
  {
    assert order[..n + 1][..n] == order[..n];
  }

  /** What the first n statements leave. */
  ghost predicate BodyDone(c: Ctx, n: nat, f0: Frame, args: Args, h: Host, o: Outcome)
    requires n <= |c.bp.order| && RenderBody(c, c.bp.order[..n]).Ok?
  {
    && Exec(RenderBody(c, c.bp.order[..n]).value, f0, h) == Ok(o)
    && o.created == AllInstances(c.bp, args, h, c.bp.order[..n]) && FrameOk(c, o.frame, args, h, n)
  }

  lemma BodyStep(c: Ctx, n: nat, f0: Frame, args: Args, h: Host, o: Outcome) returns (next: Outcome)
    requires n < |c.bp.order| && Ready(c, n + 1, args, h) && RenderBody(c, c.bp.order[..n + 1]).Ok?
    requires RenderBody(c, c.bp.order[..n]).Ok? && BodyDone(c, n, f0, args, h, o)
    ensures BodyDone(c, n + 1, f0, args, h, next)
  {
    var c' := c.(current := c.bp.order[n]);
    BodySplits(c, c.bp.order, n);
    ResourceCreates(c, n, o.frame, args, h);
    var o' := ExecStmt(RenderStmt(c').value, o.frame, h).value;
    ExecAppend(RenderBody(c, c.bp.order[..n]).value, RenderStmt(c').value, f0, h);
    InstancesSnoc(c.bp, args, h, n);
    next := Outcome(o'.frame, o.created + o'.created);
  }

  lemma InstancesSnoc(bp: Decoded, args: Args, h: Host, n: nat)
    requires n < |bp.order|
    ensures AllInstances(bp, args, h, bp.order[..n + 1])
            == AllInstances(bp, args, h, bp.order[..n]) + Instances(bp, args, h, bp.order[n])
  {
    assert bp.order[..n + 1][..n] == bp.order[..n];
  }

  /** The body, statement by statement. */
  lemma {:induction false} BodyCreates(c: Ctx, n: nat, f0: Frame, args: Args, h: Host) returns (o: Outcome)
    requires n <= |c.bp.order| && Ready(c, n, args, h) && ParamsIn(c, f0, args)
    requires RenderBody(c, c.bp.order[..n]).Ok?
    ensures BodyDone(c, n, f0, args, h, o)
  {
    if n == 0 {
      assert Bound(c.bp, 0) == {};
      o := Outcome(f0, []);
    } else {
      var m: nat := n - 1;
      assert c.bp.order[..n] == c.bp.order[..m + 1];
      BodySplits(c, c.bp.order, m);
      o := BodyCreates(c, m, f0, args, h);
      o := BodyStep(c, m, f0, args, h, o);
    }
  }

  /** The statement of the n-th resource, whatever resource the context stood at. */
  lemma ResourceCreates(c: Ctx, n: nat, f: Frame, args: Args, h: Host)
    requires n < |c.bp.order| && Ready(c, n + 1, args, h) && FrameOk(c, f, args, h, n)
    requires RenderStmt(c.(current := c.bp.order[n])).Ok?
    ensures var r := ExecStmt(RenderStmt(c.(current := c.bp.order[n])).value, f, h);
      r.Ok? && r.value.created == Instances(c.bp, args, h, c.bp.order[n]) && FrameOk(c, r.value.frame, args, h, n + 1)
  {
    var dr := c.bp.order[n];
    var c' := c.(current := dr);
    ReadyElsewhere(c, dr, n + 1, args, h);
    FrameElsewhere(c, dr, f, args, h, n);
    StepCreates(c', n, f, args, h);
    FrameElsewhere(c, dr, ExecStmt(RenderStmt(c').value, f, h).value.frame, args, h, n + 1);
  }

  /** Whichever form its statement takes, a resource's step creates its instances. */
  lemma StepCreates(c: Ctx, n: nat, f: Frame, args: Args, h: Host)
    requires AtStep(c, n, f, args, h)
    ensures StepDone(c, n, f, args, h)
  {
    if c.current.ri.forEach != "" {
      LoopStep(c, n, f, args, h);
    } else if c.current.ri.createIf != [] {
      ConditionalStep(c, n, f, args, h);
    } else if c.current.Address() in c.bp.referenced {
      BoundStep(c, n, f, args, h);
    } else {
      BareStep(c, n, f, args, h);
    }
  }

  // ------------------------------------------------------------------ the theorem

  /** The identifiers and parameters a generator hands to the theorem: its context is
      built from the declared parameters, and the arguments have their types. */
  ghost predicate ArgumentsFit(c: Ctx, params: seq<Param>, args: Args) {
    && c.params == ParamsByName(params)
    && c.names.param.Keys == c.params.Keys
    && forall p | p in c.params ::
         && p in args
         && (c.params[p].ptype.BoolType? ==> args[p].VBool?)
         && (c.params[p].ptype.IsList() ==> args[p].VList?)
  }

  lemma AcceptedFits(draft: Draft, params: seq<Param>, outputs: seq<Output>, c: Ctx, args: Args)
    requires WellShaped(draft, params, outputs)
    requires c.bp.resources == WithDeps(draft) && c.bp.forEach == ForEachOf(c.bp.resources)
    requires multiset(c.bp.order) == multiset(c.bp.resources) && ArgumentsFit(c, params, args)
    ensures Fits(c, args)
  {
    if c.bp.forEach.Some? {
      var k :| 0 <= k < |c.bp.resources| && c.bp.resources[k] == c.bp.forEach.value;
      assert ValidForEach(draft.resources[k], ParamsByName(params), outputs);
    }
    forall i, k | 0 <= i < |c.bp.order| && 0 <= k < |c.bp.order[i].ri.createIf|
      ensures ConditionFits(c, c.bp.order[i].ri.createIf[k])
    {
      var m := DeclaredAt(c.bp.order, c.bp.resources, i);
      assert ValidCreateIf(draft.resources[m], ParamsByName(params));
    }
  }

  lemma KnownIsBound(bp: Decoded, a: string)
    requires Sound(bp) && a in bp.Known() && a in bp.referenced
    ensures a in Bound(bp, |bp.order|)
  {
    SameMembers(bp.order, bp.resources);
    var r :| r in bp.resources && r.Address() == a;
    assert r in bp.order;
    var i :| 0 <= i < |bp.order| && bp.order[i] == r;
  }

  ghost predicate ReturnsAre(es: seq<Expr>, vs: seq<Value>, f: Frame, h: Host) {
    |es| == |vs| && forall i | 0 <= i < |es| :: Eval(es[i], f, h) == Ok(vs[i])
  }

  lemma CollectedReturn(c: Ctx, f: Frame, args: Args, h: Host)
    requires Sound(c.bp) && FrameOk(c, f, args, h, |c.bp.order|) && c.bp.forEach.Some?
    ensures ReturnsAre([EVar(c.names.accum)], Returned(c.bp, args, h), f, h)
  {
    SameMembers(c.bp.order, c.bp.resources);
    assert c.bp.forEach.value in c.bp.order;
    var m :| 0 <= m < |c.bp.order| && c.bp.order[m] == c.bp.forEach.value;
  }

  lemma OutputReturn(c: Ctx, f: Frame, args: Args, h: Host, t: Target)
    requires Sound(c.bp) && FrameOk(c, f, args, h, |c.bp.order|)
    requires t.address in c.bp.referenced && t.address in c.bp.Known() && t.address in c.names.local
    ensures Eval(EField(c.names.local[t.address], t.path), f, h) == Ok(VHandle(t.address, t.path))
  {
    KnownIsBound(c.bp, t.address);
    LocalAddress(c, t, f, h);
  }

  lemma ReturnsMean(c: Ctx, f: Frame, args: Args, h: Host)
    requires Sound(c.bp) && FrameOk(c, f, args, h, |c.bp.order|) && RenderReturns(c).Ok?
    ensures ReturnsAre(RenderReturns(c).value, Returned(c.bp, args, h), f, h)
  {
    if c.bp.forEach.Some? {
      CollectedReturn(c, f, args, h);
    } else {
      forall i | 0 <= i < |c.bp.outputs|
        ensures Eval(RenderReturns(c).value[i], f, h) == Ok(Returned(c.bp, args, h)[i])
      {
        OutputReturn(c, f, args, h, c.bp.outputs[i].target);
      }
    }
  }

  lemma ProgramProduces(p: Program, f: Frame, h: Host, o: Outcome, vs: seq<Value>)
    requires Exec(p.body, f, h) == Ok(o) && ReturnsAre(p.results, vs, o.frame, h)
    ensures RunProgram(p, f, h) == Ok(Produced(o.created, vs))
  {
    assert RunProgram(p, f, h).value.returned == vs;
  }

  /** A check on the draft alone, text by text. */
  ghost predicate FaithfulBlueprint(c: Ctx) {
    forall i | 0 <= i < |c.bp.order| :: FaithfulResource(c.lang, c.bp.stack, c.bp.order[i])
  }

  ghost predicate ValidBlueprint(bp: Decoded) {
    forall i | 0 <= i < |bp.order| :: ValidResource(bp.stack, bp.order[i])
  }

  /** The compiler theorem.  Take any blueprint decodeBlueprint accepts and any code the
      generator emits for it, with identifiers that do not clash, captured addresses bound
      in time and faithful texts.  Called with any arguments of the declared types, in any
      stack, the code never reads an unbound variable, creates exactly the resources the
      blueprint means, in dependency order, with every reference decoding collects -
      nested, inside a function argument or inside a JSON text - denoting the resource it
      names, and returns the declared outputs. */
  lemma CompiledCodeMeansBlueprint(draft: Draft, params: seq<Param>, outputs: seq<Output>,
                                   c: Ctx, f: Frame, args: Args, h: Host)
    requires DecodeBlueprint(draft, params, outputs) == Ok(c.bp) && Compile(c).Ok?
    requires Apart(c.names) && PlainNames(c.names) && ValidBlueprint(c.bp)
    requires CapturesBound(c.bp) && FaithfulBlueprint(c)
    requires ArgumentsFit(c, params, args) && ParamsIn(c, f, args)
    ensures RunProgram(Compile(c).value, f, h) == Ok(Meaning(c.bp, args, h))
  {
    AcceptedIsSound(draft, params, outputs);
    AcceptedParts(draft, params, outputs, c.bp);
    ScopedIffCapturesBound(draft, params, outputs);
    AcceptedFits(draft, params, outputs, c, args);
    forall i | 0 <= i < |c.bp.order| ensures ReadyAt(c, i, h.stack) {
      FaithfulCallReads(c.lang, c.bp.stack, c.bp.order[i], h.stack);
    }
    ReadyCodeRuns(c, f, args, h);
  }

  lemma ReadyCodeRuns(c: Ctx, f: Frame, args: Args, h: Host)
    requires Ready(c, |c.bp.order|, args, h) && ParamsIn(c, f, args) && Compile(c).Ok?
    ensures RunProgram(Compile(c).value, f, h) == Ok(Meaning(c.bp, args, h))
  {
    assert c.bp.order[..|c.bp.order|] == c.bp.order;
    var o := BodyCreates(c, |c.bp.order|, f, args, h);
    var p := Compile(c).value;
    ReturnsMean(c, o.frame, args, h);
    ProgramProduces(p, f, h, o, Returned(c.bp, args, h));
  }

  // --------------------------------------------------- conditions and iterations

  /** What one create_if term says: "!p" that p is false, any other p that it is true. */
  ghost predicate Says(args: Args, term: string) {
    if term != "" && term[0] == '!' then term[1..] in args && args[term[1..]] == VBool(false)
    else term in args && args[term] == VBool(true)
  }

  ghost predicate AllSay(args: Args, terms: seq<string>) { forall i | 0 <= i < |terms| :: Says(args, terms[i]) }

  lemma HoldsIffAllSay(args: Args, terms: seq<string>)
    ensures Holds(args, terms) <==> AllSay(args, terms)
  {
    forall i | 0 <= i < |terms|
      ensures Says(args, terms[i])
              <==> TermName(terms[i]) in args && args[TermName(terms[i])] == VBool(!TermNegated(terms[i]))
    {
    }
  }

  /** How often a resource is made: once for each element, in order, under the element and
      its position counted from zero; once if every term says so, and otherwise not. */
  ghost predicate MadeAsDeclared(bp: Decoded, args: Args, h: Host, dr: DecodedResource, made: seq<Created>) {
    if dr.ri.forEach != "" then
      dr.ri.forEach in args && args[dr.ri.forEach].VList? ==>
        && var items := args[dr.ri.forEach].items;
           |made| == |items|
           && forall i | 0 <= i < |items| ::
                made[i] == DenoteResource(bp, args + map[dr.ri.forEach := items[i],
                                                         dr.ri.forEach + "_index" := VNum(i as real)], h, dr)
    else made == if AllSay(args, dr.ri.createIf) then [DenoteResource(bp, args, h, dr)] else []
  }

  lemma InstancesAreDeclared(bp: Decoded, args: Args, h: Host, dr: DecodedResource)
    ensures MadeAsDeclared(bp, args, h, dr, Instances(bp, args, h, dr))
  {
    var base := dr.ri.forEach;
    if base != "" && base in args && args[base].VList? {
      var items := args[base].items;
      forall i | 0 <= i < |items|
        ensures IterationArgs(args, base, items, i) == args + map[base := items[i], base + "_index" := VNum(i as real)]
      {
        assert |base + "_index"| != |base|;
      }
    } else {
      HoldsIffAllSay(args, dr.ri.createIf);
    }
  }

  /** One declared flag: under create_if [p] the resource is made exactly when p is true,
      under ["!p"] exactly when it is false. */
  lemma OneFlagDecides(bp: Decoded, args: Args, h: Host, dr: DecodedResource, p: string)
    requires dr.ri.forEach == "" && p != "" && p[0] != '!' && p in args && args[p].VBool?
    ensures dr.ri.createIf == [p] ==> (|Instances(bp, args, h, dr)| == 1 <==> args[p] == VBool(true))
    ensures dr.ri.createIf == ["!" + p] ==> (|Instances(bp, args, h, dr)| == 1 <==> args[p] == VBool(false))
  {
    InstancesAreDeclared(bp, args, h, dr);
    assert ("!" + p)[1..] == p;
    assert Says(args, p) <==> args[p] == VBool(true);
    assert Says(args, "!" + p) <==> args[p] == VBool(false);
    if dr.ri.createIf == [p] {
      assert AllSay(args, [p]) <==> Says(args, [p][0]);
    } else if dr.ri.createIf == ["!" + p] {
      assert AllSay(args, ["!" + p]) <==> Says(args, ["!" + p][0]);
    }
  }

  lemma {:induction false} InstancesConcat(bp: Decoded, args: Args, h: Host, a: seq<DecodedResource>,
                                           b: seq<DecodedResource>)
    ensures AllInstances(bp, args, h, a + b) == AllInstances(bp, args, h, a) + AllInstances(bp, args, h, b)
    decreases |b|
  {
    if b == [] {
      assert a + b == a;
    } else {
      var front, last := b[..|b| - 1], b[|b| - 1];
      assert b == front + [last];
      InstancesConcat(bp, args, h, a, front);
      InstancesConcatStep(bp, args, h, a, front, last);
    }
  }

  lemma InstancesConcatStep(bp: Decoded, args: Args, h: Host, a: seq<DecodedResource>, front: seq<DecodedResource>,
                            last: DecodedResource)
    requires AllInstances(bp, args, h, a + front) == AllInstances(bp, args, h, a) + AllInstances(bp, args, h, front)
    ensures AllInstances(bp, args, h, a + (front + [last]))
         == AllInstances(bp, args, h, a) + AllInstances(bp, args, h, front + [last])
  {
    InstancesOneMore(bp, args, h, a + front, last);
    InstancesOneMore(bp, args, h, front, last);
    Regrouped(a, front, [last], front + [last]);
    Regrouped(AllInstances(bp, args, h, a), AllInstances(bp, args, h, front), Instances(bp, args, h, last),
              AllInstances(bp, args, h, front + [last]));
  }

  lemma Regrouped<T>(a: seq<T>, b: seq<T>, c: seq<T>, bc: seq<T>)
    requires bc == b + c
    ensures (a + b) + c == a + bc
  {
  }

  lemma InstancesOneMore(bp: Decoded, args: Args, h: Host, front: seq<DecodedResource>, dr: DecodedResource)
    ensures AllInstances(bp, args, h, front + [dr]) == AllInstances(bp, args, h, front) + Instances(bp, args, h, dr)
  {
    assert (front + [dr])[..|front|] == front;
  }

  lemma InstancesAround(bp: Decoded, args: Args, h: Host, order: seq<DecodedResource>, i: nat)
    requires i < |order|
    ensures AllInstances(bp, args, h, order)
         == AllInstances(bp, args, h, order[..i]) + Instances(bp, args, h, order[i])
            + AllInstances(bp, args, h, order[i + 1..])
  {
    assert order == order[..i + 1] + order[i + 1..];
    InstancesConcat(bp, args, h, order[..i + 1], order[i + 1..]);
    assert order[..i + 1][..i] == order[..i];
  }

  /** So running the emitted code makes each resource as often as its for_each or its
      create_if declares, between what the resources before it and after it make. */
  lemma RunMakesAsDeclared(draft: Draft, params: seq<Param>, outputs: seq<Output>, c: Ctx, f: Frame, args: Args,
                           h: Host, i: nat)
    returns (made: seq<Created>)
    requires DecodeBlueprint(draft, params, outputs) == Ok(c.bp) && Compile(c).Ok?
    requires Apart(c.names) && PlainNames(c.names) && ValidBlueprint(c.bp)
    requires CapturesBound(c.bp) && FaithfulBlueprint(c)
    requires ArgumentsFit(c, params, args) && ParamsIn(c, f, args) && i < |c.bp.order|
    ensures MadeAsDeclared(c.bp, args, h, c.bp.order[i], made)
    ensures RunProgram(Compile(c).value, f, h).Ok?
         && RunProgram(Compile(c).value, f, h).value.created
            == AllInstances(c.bp, args, h, c.bp.order[..i]) + made + AllInstances(c.bp, args, h, c.bp.order[i + 1..])
  {
    made := Instances(c.bp, args, h, c.bp.order[i]);
    CompiledCodeMeansBlueprint(draft, params, outputs, c, f, args, h);
    InstancesAreDeclared(c.bp, args, h, c.bp.order[i]);
    InstancesAround(c.bp, args, h, c.bp.order, i);
  }
}
