/** The compiler theorem, both ways: when emitted code means its blueprint.

    CodegenTheorem gives one half.  For the other, take the first statement that reads a
    local not bound in time or renders a text that is not faithful.  Arguments exist under
    which it is reached: its conditions hold, and lists have one element.  The statements
    before it do what they should, so the frame it runs in is known.  In a stack whose name
    shows the difference its first call creates nothing, or something else, and so the
    program as a whole is wrong. */
module CodegenExact {
  import opened Common
  import opened Blueprint
  import opened Decode
  import opened Codegen
  import opened CodegenProofs
  import opened CodegenTexts
  import opened CodegenMeaning
  import opened CodegenTheorem
  import opened CodegenScoping

  /** Arguments of the declared types, in a frame that holds them. */
  ghost predicate Admissible(c: Ctx, params: seq<Param>, f: Frame, args: Args) {
    ArgumentsFit(c, params, args) && ParamsIn(c, f, args)
  }

  /** The generated function, called so, produces what the blueprint means. */
  ghost predicate Correct(c: Ctx, f: Frame, args: Args, h: Host)
    requires Compile(c).Ok?
  {
    RunProgram(Compile(c).value, f, h) == Ok(Meaning(c.bp, args, h))
  }

  // ------------------------------------------------------- one call, where it fails

  /** A call with a text that does not read creates something else. */
  lemma CallMisreads(c: Ctx, f: Frame, args: Args, h: Host)
    requires RenderCall(c).Ok? && ValidResource(c.bp.stack, c.current) && PlainNames(c.names)
    requires HandlesBound(c, ReadsOf(c.bp, c.current), f) && TokensBound(c, f, args)
    requires !CallReads(c.lang, c.bp.stack, c.current, h.stack) && TellsCallsApart(h)
    ensures EvalCall(RenderCall(c).value, f, h) != Ok(DenoteResource(c.bp, args, h, c.current))
  {
    CallShape(c);
    if k :| k in c.current.ri.config && !ValueReads(c.lang, c.bp.stack, c.current.ri.config[k], h.stack) {
      assert Reads(c.bp, c.current.ri.config[k]) <= ReadsOf(c.bp, c.current);
      ValueMisreads(c, c.current.ri.config[k], f, args, h);
      FieldMisreads(c, f, args, h, k);
    } else {
      NameMisreads(c, f, args, h);
    }
  }

  lemma FieldMisreads(c: Ctx, f: Frame, args: Args, h: Host, k: string)
    requires RenderCall(c).Ok? && k in c.current.ri.config && !Means(c, c.current.ri.config[k], f, args, h)
    ensures EvalCall(RenderCall(c).value, f, h) != Ok(DenoteResource(c.bp, args, h, c.current))
  {
    CallShape(c);
    MeantFields(c, args, h);
    var call := RenderCall(c).value;
    if EvalCall(call, f, h).Ok? {
      assert EvalCall(call, f, h).value.config[k] == Eval(call.config[k], f, h).value;
    }
  }

  lemma NameMisreads(c: Ctx, f: Frame, args: Args, h: Host)
    requires RenderCall(c).Ok? && c.current.ri.forEach != "" && PlainNames(c.names)
    requires ValidText(c.bp.stack, c.current.ri.name) && !TextReads(c.lang, c.bp.stack, c.current.ri.name, h.stack)
    requires HandlesBound(c, NameCaptures(c.bp, c.current), f) && TokensBound(c, f, args)
    ensures EvalCall(RenderCall(c).value, f, h) != Ok(DenoteResource(c.bp, args, h, c.current))
  {
    var t := c.current.ri.name;
    StringMeansIff(c, t, f, args, h);
    StringShows(c, t, f, args, h);
  }

  /** A string that is not a lone placeholder evaluates to text, if at all. */
  lemma StringShows(c: Ctx, t: Text, f: Frame, args: Args, h: Host)
    requires RenderString(c, t).Ok? && (IsEmbedded(t) || !IsWholeToken(t))
    ensures Eval(RenderString(c, t).value, f, h).Ok? ==> Eval(RenderString(c, t).value, f, h).value.VText?
    ensures DenoteString(args, h, t).VText?
  {
  }

  /** A call that reads a local nobody bound creates nothing. */
  lemma CallUnbound(c: Ctx, f: Frame, h: Host, a: string)
    requires RenderCall(c).Ok? && a in ReadsOf(c.bp, c.current)
    requires a in c.names.local ==> c.names.local[a] !in f
    ensures EvalCall(RenderCall(c).value, f, h).Err?
  {
    StmtUses(c);
    if EvalCall(RenderCall(c).value, f, h).Ok? {
      EvaluatedCall(RenderCall(c).value, f, h);
    }
  }

  // ---------------------------------------------------------- the first bad statement

  /** Reads in time, and faithful texts. */
  ghost predicate GoodAt(c: Ctx, i: nat)
    requires i < |c.bp.order|
  {
    ReadsOf(c.bp, c.bp.order[i]) <= Bound(c.bp, i) && FaithfulResource(c.lang, c.bp.stack, c.bp.order[i])
  }

  ghost predicate GoodBefore(c: Ctx, n: nat)
    requires n <= |c.bp.order|
  {
    forall i | 0 <= i < n :: GoodAt(c, i)
  }

  lemma {:induction false} FirstBad(c: Ctx, n: nat) returns (i: nat)
    requires n <= |c.bp.order| && !GoodBefore(c, n)
    ensures i < n && GoodBefore(c, i) && !GoodAt(c, i)
    decreases n
  {
    if GoodBefore(c, n - 1) {
      i := n - 1;
    } else {
      i := FirstBad(c, n - 1);
    }
  }

  /** A stack whose name shows an unfaithful text of a call. */
  lemma CallSplits(c: Ctx) returns (name: string)
    requires RenderCall(c).Ok? && ValidResource(c.bp.stack, c.current)
    requires !FaithfulResource(c.lang, c.bp.stack, c.current)
    ensures !CallReads(c.lang, c.bp.stack, c.current, name)
  {
    CallShape(c);
    if k :| k in c.current.ri.config && !Faithful(c.lang, c.bp.stack, c.current.ri.config[k]) {
      name := SomeStackMisreads(c, c.current.ri.config[k]);
    } else {
      name := SomeStackMisreadsText(c, c.current.ri.name);
    }
  }

  // -------------------------------------------------- arguments that reach a statement

  predicate Wanted(terms: seq<string>, p: string) {
    exists i | 0 <= i < |terms| :: TermName(terms[i]) == p && !TermNegated(terms[i])
  }

  /** Arguments of the declared types under which the conditions hold and lists have one
      element. */
  function Reaching(params: map<string, Param>, terms: seq<string>): Args {
    map p | p in params ::
      if params[p].ptype.BoolType? then VBool(Wanted(terms, p))
      else if params[p].ptype.IsList() then VList([VNull])
      else VNull
  }

  ghost predicate DistinctTerms(terms: seq<string>) {
    forall i, j | 0 <= i < j < |terms| :: TermName(terms[i]) != TermName(terms[j])
  }

  lemma ReachingHolds(params: map<string, Param>, terms: seq<string>)
    requires DistinctTerms(terms)
    requires forall i | 0 <= i < |terms| :: TermName(terms[i]) in params && params[TermName(terms[i])].ptype.BoolType?
    ensures Holds(Reaching(params, terms), terms)
  {
    forall i | 0 <= i < |terms| ensures Wanted(terms, TermName(terms[i])) <==> !TermNegated(terms[i]) {
      if j :| 0 <= j < |terms| && TermName(terms[j]) == TermName(terms[i]) && !TermNegated(terms[j]) {
        assert i == j;
      }
    }
  }

  /** No two parameters share an identifier. */
  ghost predicate ParamsApart(n: Names) {
    forall p, q | p in n.param && q in n.param && p != q :: n.param[p] != n.param[q]
  }

  /** The frame a call starts in: the parameters and nothing else. */
  ghost function Entering(c: Ctx, args: Args): Frame
    requires ParamsApart(c.names) && c.names.param.Keys == c.params.Keys == args.Keys
  {
    map p | p in c.params :: c.names.param[p] := args[p]
  }

  lemma EnteringHolds(c: Ctx, args: Args)
    requires ParamsApart(c.names) && c.names.param.Keys == c.params.Keys == args.Keys
    ensures ParamsIn(c, Entering(c, args), args)
  {
  }

  lemma ReachingFits(params: map<string, Param>, terms: seq<string>)
    ensures Reaching(params, terms).Keys == params.Keys
    ensures forall p | p in params ::
              var v := Reaching(params, terms)[p];
              (params[p].ptype.BoolType? ==> v.VBool?) && (params[p].ptype.IsList() ==> v.VList?)
  {
  }

  lemma EnteringAdmissible(c: Ctx, params: seq<Param>, terms: seq<string>)
    requires ParamsApart(c.names) && c.params == ParamsByName(params) && c.names.param.Keys == c.params.Keys
    ensures Reaching(c.params, terms).Keys == c.params.Keys
    ensures Admissible(c, params, Entering(c, Reaching(c.params, terms)), Reaching(c.params, terms))
  {
    ReachingFits(c.params, terms);
    EnteringHolds(c, Reaching(c.params, terms));
  }

  // ------------------------------------------------------------- running up to it

  lemma {:induction false} PrefixRenders(c: Ctx, order: seq<DecodedResource>, n: nat, k: nat)
    requires n <= k <= |order| && RenderBody(c, order[..k]).Ok?
    ensures RenderBody(c, order[..n]).Ok? && |RenderBody(c, order[..k]).value| == k
    ensures RenderBody(c, order[..n]).value == RenderBody(c, order[..k]).value[..n]
    decreases k
  {
    BodyIsEmitted(c, order, k);
    if n < k {
      var m: nat := k - 1;
      assert order[..k] == order[..m + 1];
      BodySplits(c, order, m);
      PrefixRenders(c, order, n, m);
    }
  }

  /** Running a body runs its first statements, which create the first resources. */
  lemma {:induction false} ExecPrefix(body: seq<Stmt>, f: Frame, h: Host, n: nat)
    requires n <= |body| && Exec(body, f, h).Ok?
    ensures Exec(body[..n], f, h).Ok? && Exec(body[..n], f, h).value.created <= Exec(body, f, h).value.created
    decreases |body|
  {
    if n == |body| {
      assert body[..n] == body;
    } else {
      ExecPrefix(body[..|body| - 1], f, h, n);
      assert body[..|body| - 1][..n] == body[..n];
    }
  }

  lemma {:induction false} InstancesPrefix(bp: Decoded, args: Args, h: Host, n: nat, k: nat)
    requires n <= k <= |bp.order|
    ensures AllInstances(bp, args, h, bp.order[..n]) <= AllInstances(bp, args, h, bp.order[..k])
    decreases k
  {
    if n < k {
      var m: nat := k - 1;
      assert bp.order[..k] == bp.order[..m + 1];
      InstancesPrefix(bp, args, h, n, m);
      InstancesSnoc(bp, args, h, m);
      StillPrefix(AllInstances(bp, args, h, bp.order[..n]), AllInstances(bp, args, h, bp.order[..m]),
                  Instances(bp, args, h, bp.order[m]));
    }
  }

  lemma StillPrefix<T>(a: seq<T>, b: seq<T>, c: seq<T>)
    requires a <= b
    ensures a <= b + c
  {
  }

  /** The only locals in a frame are those bound so far. */
  lemma {:induction false} NotYetBound(c: Ctx, n: nat, f0: Frame, h: Host, a: string)
    requires Sound(c.bp) && Apart(c.names) && n <= |c.bp.order| && RenderBody(c, c.bp.order[..n]).Ok?
    requires Exec(RenderBody(c, c.bp.order[..n]).value, f0, h).Ok?
    requires a in c.names.local && a !in Bound(c.bp, n) && c.names.local[a] !in f0
    ensures c.names.local[a] !in Exec(RenderBody(c, c.bp.order[..n]).value, f0, h).value.frame
  {
    if n > 0 {
      var m: nat := n - 1;
      assert c.bp.order[..n] == c.bp.order[..m + 1];
      BodySplits(c, c.bp.order, m);
      var front := RenderBody(c, c.bp.order[..m]).value;
      var s := RenderStmt(c.(current := c.bp.order[m])).value;
      ExecSplits(front, s, f0, h);
      assert a !in Bound(c.bp, m);
      NotYetBound(c, m, f0, h, a);
      assert SoundResource(c.bp, c.bp.order[m]);
      StmtBinds(c.(current := c.bp.order[m]), a);
      StmtAddsOnly(c.(current := c.bp.order[m]), Exec(front, f0, h).value.frame, h, c.names.local[a]);
    }
  }

  lemma ExecSplits(front: seq<Stmt>, s: Stmt, f: Frame, h: Host)
    requires Exec(front + [s], f, h).Ok?
    ensures Exec(front, f, h).Ok? && ExecStmt(s, Exec(front, f, h).value.frame, h).Ok?
    ensures Exec(front + [s], f, h).value.frame == ExecStmt(s, Exec(front, f, h).value.frame, h).value.frame
    ensures Exec(front + [s], f, h).value.created
            == Exec(front, f, h).value.created + ExecStmt(s, Exec(front, f, h).value.frame, h).value.created
  {
    assert (front + [s])[..|front|] == front;
  }

  lemma StmtAddsOnly(c: Ctx, f: Frame, h: Host, x: string)
    requires RenderStmt(c).Ok? && ExecStmt(RenderStmt(c).value, f, h).Ok? && x !in f && x != c.names.accum
    requires !(RenderStmt(c).value.SBind? && RenderStmt(c).value.ident == x)
    ensures x !in ExecStmt(RenderStmt(c).value, f, h).value.frame
  {
  }

  // ------------------------------------------------------------ the bad call itself

  /** Where the first call of a statement is evaluated. */
  function CallFrame(c: Ctx, f: Frame): Frame {
    if c.current.ri.forEach != "" then f[c.names.value := VNull][c.names.index := VNum(0 as real)] else f
  }

  function CallArgs(c: Ctx, args: Args): Args {
    if c.current.ri.forEach != "" then IterationArgs(args, c.current.ri.forEach, [VNull], 0) else args
  }

  /** A statement that creates something makes its first call there. */
  lemma FirstCall(c: Ctx, f: Frame, h: Host)
    requires RenderStmt(c).Ok? && ExecStmt(RenderStmt(c).value, f, h).Ok?
    requires c.current.ri.forEach != "" ==> var src := c.names.param[c.current.ri.forEach];
               src in f && f[src] == VList([VNull])
    requires c.current.ri.forEach == "" && c.current.ri.createIf != [] ==>
               RenderTerms(c, c.current.ri.createIf).Ok?
               && TermsDecide(RenderTerms(c, c.current.ri.createIf).value, f, true)
    ensures var made := ExecStmt(RenderStmt(c).value, f, h).value.created;
      && RenderCall(c).Ok? && made != []
      && EvalCall(RenderCall(c).value, CallFrame(c, f), h) == Ok(made[0])
  {
    var s := RenderStmt(c).value;
    if s.SFor? {
      OneTurn(s, [VNull], f, h);
    }
  }

  lemma OneTurn(s: Stmt, items: seq<Value>, f: Frame, h: Host)
    requires s.SFor? && |items| == 1 && ExecLoop(s, items, 1, f, h).Ok?
    ensures EvalCall(s.call, f[s.value := items[0]][s.index := VNum(0 as real)], h).Ok?
    ensures ExecLoop(s, items, 1, f, h).value
            == [EvalCall(s.call, f[s.value := items[0]][s.index := VNum(0 as real)], h).value]
  {
    assert ExecLoop(s, items, 0, f, h) == Ok([]);
  }

  /** What the blueprint means there. */
  lemma FirstInstance(c: Ctx, args: Args, h: Host)
    requires c.current.ri.forEach != "" ==>
               c.current.ri.forEach in args && args[c.current.ri.forEach] == VList([VNull])
    requires c.current.ri.forEach == "" ==> Holds(args, c.current.ri.createIf)
    ensures var meant := Instances(c.bp, args, h, c.current);
      meant != [] && meant[0] == DenoteResource(c.bp, CallArgs(c, args), h, c.current)
  {
  }

  lemma UnboundCall(c: Ctx, f: Frame, h: Host, a: string)
    requires RenderCall(c).Ok? && Apart(c.names) && a in ReadsOf(c.bp, c.current)
    requires a in c.names.local ==> c.names.local[a] !in f
    ensures EvalCall(RenderCall(c).value, CallFrame(c, f), h).Err?
  {
    assert a in c.names.local ==> !LoopVariable(c.names, c.names.local[a]);
    CallUnbound(c, CallFrame(c, f), h, a);
  }

  lemma MisreadCall(c: Ctx, n: nat, f: Frame, args: Args, h: Host)
    requires n < |c.bp.order| && c.current == c.bp.order[n] && RenderCall(c).Ok?
    requires Sound(c.bp) && Apart(c.names) && PlainNames(c.names) && Fits(c, args) && FrameOk(c, f, args, h, n)
    requires ReadsOf(c.bp, c.current) <= Bound(c.bp, n) && ValidResource(c.bp.stack, c.current)
    requires !CallReads(c.lang, c.bp.stack, c.current, h.stack) && TellsCallsApart(h)
    ensures EvalCall(RenderCall(c).value, CallFrame(c, f), h)
            != Ok(DenoteResource(c.bp, CallArgs(c, args), h, c.current))
  {
    TheLoopResource(c.bp, n);
    if c.current.ri.forEach != "" {
      TokensInLoop(c, f, args, [VNull], 0);
      assert forall a | a in c.names.local :: !LoopVariable(c.names, c.names.local[a]);
      HandlesSurvive(c, ReadsOf(c.bp, c.current), f, c.names.value, VNull);
      HandlesSurvive(c, ReadsOf(c.bp, c.current), f[c.names.value := VNull], c.names.index, VNum(0 as real));
    } else {
      TokensAreParams(c, f, args);
    }
    CallMisreads(c, CallFrame(c, f), CallArgs(c, args), h);
  }

  /** The arguments that reach the statement of the current resource. */
  ghost predicate Reaches(c: Ctx, args: Args) {
    && (c.current.ri.forEach != "" ==>
          c.current.ri.forEach in args && args[c.current.ri.forEach] == VList([VNull]))
    && (c.current.ri.forEach == "" ==> Holds(args, c.current.ri.createIf))
  }

  lemma ReachedStatement(c: Ctx, n: nat, f: Frame, args: Args, h: Host)
    requires n < |c.bp.order| && c.current == c.bp.order[n] && RenderStmt(c).Ok? && Reaches(c, args)
    requires Fits(c, args) && ParamsIn(c, f, args)
    ensures c.current.ri.forEach != "" ==> var src := c.names.param[c.current.ri.forEach];
              src in f && f[src] == VList([VNull])
    ensures c.current.ri.forEach == "" && c.current.ri.createIf != [] ==>
              RenderTerms(c, c.current.ri.createIf).Ok?
              && TermsDecide(RenderTerms(c, c.current.ri.createIf).value, f, true)
  {
    if c.current.ri.forEach != "" {
      ListedParam(c, args);
    } else if c.current.ri.createIf != [] {
      ConditionMeans(c, n, f, args, NamedHost([]));
    }
  }

  lemma ListedParam(c: Ctx, args: Args)
    requires RenderStmt(c).Ok? && Fits(c, args) && c.current.ri.forEach != ""
    ensures c.current.ri.forEach in c.params
  {
  }

  /** Sequences that agree up to a point agree at the next element. */
  lemma SameNext<T>(all: seq<T>, before: seq<T>, a: seq<T>, b: seq<T>)
    requires before + a <= all && before + b <= all && a != [] && b != []
    ensures a[0] == b[0]
  {
    assert (before + a)[|before|] == a[0] && (before + b)[|before|] == b[0];
    assert all[|before|] == a[0];
  }

  /** Where the whole program is correct, so is the first call of each statement reached. */
  lemma CorrectCallsRight(c: Ctx, n: nat, f0: Frame, args: Args, h: Host, o: Outcome)
    requires Compile(c).Ok? && Correct(c, f0, args, h) && n < |c.bp.order|
    requires RenderBody(c, c.bp.order[..n]).Ok? && BodyDone(c, n, f0, args, h, o)
    requires Fits(c, args) && ParamsIn(c, o.frame, args) && Reaches(c.(current := c.bp.order[n]), args)
    ensures var c' := c.(current := c.bp.order[n]);
      RenderCall(c').Ok?
      && EvalCall(RenderCall(c').value, CallFrame(c', o.frame), h)
         == Ok(DenoteResource(c.bp, CallArgs(c', args), h, c.bp.order[n]))
  {
    var order, body := c.bp.order, Compile(c).value.body;
    var c' := c.(current := order[n]);
    assert order[..|order|] == order;
    PrefixRenders(c, order, n + 1, |order|);
    BodySplits(c, order, n);
    var front, s := RenderBody(c, order[..n]).value, RenderStmt(c').value;
    ExecPrefix(body, f0, h, n + 1);
    ExecSplits(front, s, f0, h);
    InstancesPrefix(c.bp, args, h, n + 1, |order|);
    InstancesSnoc(c.bp, args, h, n);
    ReadyElsewhereFits(c, order[n], args);
    ReachedStatement(c', n, o.frame, args, h);
    FirstCall(c', o.frame, h);
    FirstInstance(c', args, h);
    SameNext(AllInstances(c.bp, args, h, order), o.created, ExecStmt(s, o.frame, h).value.created,
             Instances(c.bp, args, h, order[n]));
  }

  lemma ReadyElsewhereFits(c: Ctx, dr: DecodedResource, args: Args)
    requires Fits(c, args)
    ensures Fits(c.(current := dr), args)
  {
    assert forall t :: ConditionFits(c, t) ==> ConditionFits(c.(current := dr), t);
  }

  // ------------------------------------------------------------------ the theorem

  /** What an emitted program's context takes from the generator. */
  ghost predicate Generated(c: Ctx, params: seq<Param>) {
    && Apart(c.names) && PlainNames(c.names) && ParamsApart(c.names)
    && c.params == ParamsByName(params) && c.names.param.Keys == c.params.Keys
  }

  /** Arguments that reach any one resource's statement. */
  lemma ReachingReaches(draft: Draft, params: seq<Param>, outputs: seq<Output>, c: Ctx, n: nat)
    requires DecodeBlueprint(draft, params, outputs) == Ok(c.bp) && Generated(c, params) && n < |c.bp.order|
    ensures Reaches(c.(current := c.bp.order[n]), Reaching(c.params, c.bp.order[n].ri.createIf))
  {
    AcceptedIsSound(draft, params, outputs);
    AcceptedParts(draft, params, outputs, c.bp);
    var k := DeclaredAt(c.bp.order, c.bp.resources, n);
    IntentReaches(draft.resources[k], ParamsByName(params), outputs);
  }

  lemma IntentReaches(ri: ResourceIntent, params: map<string, Param>, outputs: seq<Output>)
    requires ValidForEach(ri, params, outputs) && ValidCreateIf(ri, params)
    ensures var args := Reaching(params, ri.createIf);
      && (ri.forEach != "" ==> ri.forEach in args && args[ri.forEach] == VList([VNull]))
      && Holds(args, ri.createIf)
  {
    ReachingHolds(params, ri.createIf);
  }

  /** The frame before the first bad statement. */
  lemma RunsToBad(draft: Draft, params: seq<Param>, outputs: seq<Output>, c: Ctx, n: nat,
                  f0: Frame, args: Args, h: Host) returns (o: Outcome)
    requires DecodeBlueprint(draft, params, outputs) == Ok(c.bp) && Compile(c).Ok?
    requires Generated(c, params) && ValidBlueprint(c.bp) && Admissible(c, params, f0, args)
    requires n < |c.bp.order| && GoodBefore(c, n)
    ensures Sound(c.bp) && Fits(c, args) && RenderBody(c, c.bp.order[..n]).Ok? && BodyDone(c, n, f0, args, h, o)
  {
    AcceptedContext(draft, params, outputs, c, args);
    GoodIsReady(c, n, h.stack);
    CompileRenders(c, n);
    o := BodyCreates(c, n, f0, args, h);
  }

  lemma AcceptedContext(draft: Draft, params: seq<Param>, outputs: seq<Output>, c: Ctx, args: Args)
    requires DecodeBlueprint(draft, params, outputs) == Ok(c.bp) && ArgumentsFit(c, params, args)
    ensures Sound(c.bp) && Fits(c, args)
  {
    AcceptedIsSound(draft, params, outputs);
    AcceptedParts(draft, params, outputs, c.bp);
    AcceptedFits(draft, params, outputs, c, args);
  }

  lemma GoodIsReady(c: Ctx, n: nat, name: string)
    requires n <= |c.bp.order| && GoodBefore(c, n) && ValidBlueprint(c.bp)
    ensures forall i | 0 <= i < n :: ReadyAt(c, i, name)
  {
    forall i | 0 <= i < n ensures ReadyAt(c, i, name) {
      assert GoodAt(c, i);
      FaithfulCallReads(c.lang, c.bp.stack, c.bp.order[i], name);
    }
  }

  lemma CompileRenders(c: Ctx, n: nat)
    requires Compile(c).Ok? && n <= |c.bp.order|
    ensures RenderBody(c, c.bp.order[..n]).Ok?
  {
    assert c.bp.order[..|c.bp.order|] == c.bp.order;
    PrefixRenders(c, c.bp.order, n, |c.bp.order|);
  }

  /** A bad statement shows, with some arguments in some stack. */
  lemma BadShows(draft: Draft, params: seq<Param>, outputs: seq<Output>, c: Ctx, n: nat)
      returns (f0: Frame, args: Args, h: Host)
    requires DecodeBlueprint(draft, params, outputs) == Ok(c.bp) && Compile(c).Ok?
    requires Generated(c, params) && ValidBlueprint(c.bp)
    requires n < |c.bp.order| && GoodBefore(c, n) && !GoodAt(c, n)
    ensures Admissible(c, params, f0, args) && !Correct(c, f0, args, h)
  {
    var dr := c.bp.order[n];
    var c' := c.(current := dr);
    args := Reaching(c.params, dr.ri.createIf);
    EnteringAdmissible(c, params, dr.ri.createIf);
    f0 := Entering(c, args);
    ReachingReaches(draft, params, outputs, c, n);
    CompileEmits(c);
    CallOfStatement(c');
    if a :| a in ReadsOf(c.bp, dr) && a !in Bound(c.bp, n) {
      h := NamedHost([]);
      var o := RunsToBad(draft, params, outputs, c, n, f0, args, h);
      if a in c.names.local {
        NotYetBound(c, n, f0, h, a);
      }
      UnboundCall(c', o.frame, h, a);
      if Correct(c, f0, args, h) { CorrectCallsRight(c, n, f0, args, h, o); }
    } else {
      var name := CallSplits(c');
      h := NamedHost(name);
      var o := RunsToBad(draft, params, outputs, c, n, f0, args, h);
      ReadyElsewhereFits(c, dr, args);
      FrameElsewhere(c, dr, o.frame, args, h, n);
      MisreadCall(c', n, o.frame, args, h);
      if Correct(c, f0, args, h) { CorrectCallsRight(c, n, f0, args, h, o); }
    }
  }

  lemma CallOfStatement(c: Ctx)
    requires RenderStmt(c).Ok?
    ensures RenderCall(c).Ok?
  {
  }

  /** The exact condition for a whole program.  For any accepted blueprint and any code
      emitted for it with identifiers that do not clash: the code means the blueprint, for
      all arguments, in all stacks and runtimes, if and only if the captured addresses are
      bound in time and every text is faithful. */
  lemma CompiledCodeMeansBlueprintIff(draft: Draft, params: seq<Param>, outputs: seq<Output>, c: Ctx)
    requires DecodeBlueprint(draft, params, outputs) == Ok(c.bp) && Compile(c).Ok?
    requires Generated(c, params) && ValidBlueprint(c.bp)
    ensures (forall f, args, h | Admissible(c, params, f, args) :: Correct(c, f, args, h))
            <==> CapturesBound(c.bp) && FaithfulBlueprint(c)
  {
    ScopedIffCapturesBound(draft, params, outputs);
    if CapturesBound(c.bp) && FaithfulBlueprint(c) {
      forall f, args, h | Admissible(c, params, f, args) ensures Correct(c, f, args, h) {
        CompiledCodeMeansBlueprint(draft, params, outputs, c, f, args, h);
      }
    } else {
      BadSomewhere(c);
      var n := FirstBad(c, |c.bp.order|);
      var f, args, h := BadShows(draft, params, outputs, c, n);
    }
  }

  lemma BadSomewhere(c: Ctx)
    requires !ReadsBound(c.bp) || !FaithfulBlueprint(c)
    ensures !GoodBefore(c, |c.bp.order|)
  {
    if i :| 0 <= i < |c.bp.order| && !(ReadsOf(c.bp, c.bp.order[i]) <= Bound(c.bp, i)) {
      assert !GoodAt(c, i);
    } else {
      var i :| 0 <= i < |c.bp.order| && !FaithfulResource(c.lang, c.bp.stack, c.bp.order[i]);
      assert !GoodAt(c, i);
    }
  }
}
