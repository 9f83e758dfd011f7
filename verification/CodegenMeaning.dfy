/** What emitted expressions, calls and loops evaluate to.

    Every rendered config value - plain, nested, inside a function argument or inside a
    string - evaluates to what the value means, wherever the frame binds the locals it
    reads and the tokens in force.  A call then creates the resource of its template, and
    a loop one resource per element. */
module CodegenMeaning {
  import opened Common
  import opened Blueprint
  import opened Decode
  import opened Codegen
  import opened CodegenProofs
  import opened CodegenTexts
  import Identifiers
  import TopoSort

  // ------------------------------------------------------------------ expressions

  /** What is given of texts, at every string leaf. */
  ghost predicate ValidTexts(stack: string, j: Json) {
    match j
    case Str(t) => ValidText(stack, t)
    case Arr(items) => forall i | 0 <= i < |items| :: ValidTexts(stack, items[i])
    case Obj(fields) => forall k | k in fields :: ValidTexts(stack, fields[k])
    case _ => true
  }

  /** Every text that is rendered reads as what it means in a stack of this name. */
  ghost predicate ValueReads(lang: Lang, stack: string, j: Json, name: string) {
    match j
    case Str(t) => TextReads(lang, stack, t, name)
    case Arr(items) => forall i | 0 <= i < |items| :: ValueReads(lang, stack, items[i], name)
    case Obj(fields) =>
      if RefTarget(j).Some? then true
      else if FnMarker(j).Some? then
        var items := FnMarker(j).value.1;
        forall i | 0 <= i < |items| :: ValueReads(lang, stack, items[i], name)
      else forall k | k in fields :: ValueReads(lang, stack, fields[k], name)
    case _ => true
  }

  /** Every text that is rendered is faithful. */
  ghost predicate Faithful(lang: Lang, stack: string, j: Json) {
    match j
    case Str(t) => FaithfulText(lang, stack, t)
    case Arr(items) => forall i | 0 <= i < |items| :: Faithful(lang, stack, items[i])
    case Obj(fields) =>
      if RefTarget(j).Some? then true
      else if FnMarker(j).Some? then
        var items := FnMarker(j).value.1;
        forall i | 0 <= i < |items| :: Faithful(lang, stack, items[i])
      else forall k | k in fields :: Faithful(lang, stack, fields[k])
    case _ => true
  }

  lemma FnArgsValid(stack: string, j: Json)
    requires RefTarget(j).None? && FnMarker(j).Some? && ValidTexts(stack, j)
    ensures j.Obj? && FnMarker(j).value.1 == j.fields["$fn"].fields["args"].items
    ensures forall i | 0 <= i < |FnMarker(j).value.1| :: ValidTexts(stack, FnMarker(j).value.1[i])
  {
    assert ValidTexts(stack, j.fields["$fn"]) && ValidTexts(stack, j.fields["$fn"].fields["args"]);
  }

  lemma {:induction false} FaithfulReads(lang: Lang, stack: string, j: Json, name: string)
    requires Faithful(lang, stack, j)
    ensures ValueReads(lang, stack, j, name)
    decreases j
  {
    match j
    case Arr(items) =>
      forall i | 0 <= i < |items| ensures ValueReads(lang, stack, items[i], name) {
        FaithfulReads(lang, stack, items[i], name);
      }
    case Obj(fields) =>
      if RefTarget(j).None? && FnMarker(j).Some? {
        var items := FnMarker(j).value.1;
        assert items == fields["$fn"].fields["args"].items;
        forall i | 0 <= i < |items| ensures ValueReads(lang, stack, items[i], name) {
          FaithfulReads(lang, stack, items[i], name);
        }
      } else if RefTarget(j).None? {
        forall k | k in fields ensures ValueReads(lang, stack, fields[k], name) {
          FaithfulReads(lang, stack, fields[k], name);
        }
      }
    case _ =>
  }

  /** Fields that evaluate to those of a value. */
  ghost predicate FieldsEvaluate(fields: map<string, Expr>, config: map<string, Value>, f: Frame, h: Host) {
    fields.Keys == config.Keys && forall k | k in fields :: Eval(fields[k], f, h) == Ok(config[k])
  }

  /** A rendered value evaluates to what the value means. */
  ghost predicate Means(c: Ctx, j: Json, f: Frame, args: Args, h: Host) {
    RenderAny(c, j).Ok? && Eval(RenderAny(c, j).value, f, h) == Ok(Denote(c.bp, args, h, j))
  }

  lemma RenderObject(c: Ctx, j: Json)
    requires j.Obj? && RefTarget(j).None? && FnMarker(j).None? && RenderAny(c, j).Ok?
    ensures RenderAny(c, j).value.EMap? && RenderAny(c, j).value.fields.Keys == j.fields.Keys
    ensures forall k | k in j.fields :: RenderAny(c, j.fields[k]) == Ok(RenderAny(c, j).value.fields[k])
  {
  }

  lemma EvalObject(es: map<string, Expr>, config: map<string, Value>, f: Frame, h: Host)
    requires FieldsEvaluate(es, config, f, h)
    ensures Eval(EMap(es), f, h) == Ok(VMap(config))
  {
    assert Eval(EMap(es), f, h).Ok?;
    assert Eval(EMap(es), f, h).value.fields == config;
  }

  lemma DenoteObject(c: Ctx, j: Json, args: Args, h: Host)
    requires j.Obj? && RefTarget(j).None? && FnMarker(j).None?
    ensures Denote(c.bp, args, h, j).VMap? && Denote(c.bp, args, h, j).fields.Keys == j.fields.Keys
    ensures forall k | k in j.fields :: Denote(c.bp, args, h, j).fields[k] == Denote(c.bp, args, h, j.fields[k])
  {
  }

  lemma ObjectMeans(c: Ctx, j: Json, f: Frame, args: Args, h: Host)
    requires j.Obj? && RefTarget(j).None? && FnMarker(j).None? && RenderAny(c, j).Ok?
    requires forall k | k in j.fields :: Means(c, j.fields[k], f, args, h)
    ensures Means(c, j, f, args, h)
  {
    RenderObject(c, j);
    DenoteObject(c, j, args, h);
    EvalObject(RenderAny(c, j).value.fields, Denote(c.bp, args, h, j).fields, f, h);
  }

  lemma ListMeans(c: Ctx, j: Json, f: Frame, args: Args, h: Host)
    requires j.Arr? && RenderAny(c, j).Ok?
    requires forall i | 0 <= i < |j.items| :: Means(c, j.items[i], f, args, h)
    ensures Means(c, j, f, args, h)
  {
    var es := RenderAny(c, j).value.items;
    assert forall i | 0 <= i < |es| :: es[i] == RenderAny(c, j.items[i]).value;
    assert Eval(EList(es), f, h).value.items == Denote(c.bp, args, h, j).items;
  }

  lemma RefMeans(c: Ctx, j: Json, f: Frame, args: Args, h: Host)
    requires RefTarget(j).Some? && RenderAny(c, j).Ok? && HandlesBound(c, Reads(c.bp, j), f)
    ensures Means(c, j, f, args, h)
  {
    var t := ResolveAddress(c.bp.stack, c.bp.Known(), RefTarget(j).value).value;
    assert RefTarget(j).value in {RefTarget(j).value};
    assert t.address in Reads(c.bp, j);
    LocalAddress(c, t, f, h);
  }

  lemma CallMeans(c: Ctx, j: Json, f: Frame, args: Args, h: Host)
    requires RefTarget(j).None? && FnMarker(j).Some? && RenderAny(c, j).Ok?
    requires var items := FnMarker(j).value.1; forall i | 0 <= i < |items| :: Means(c, items[i], f, args, h)
    ensures Means(c, j, f, args, h)
  {
    var (fn, items) := FnMarker(j).value;
    var es := RenderAny(c, j).value.args;
    assert forall i | 0 <= i < |es| :: es[i] == RenderAny(c, items[i]).value;
    assert seq(|es|, i requires 0 <= i < |es| => Eval(es[i], f, h).value)
        == seq(|items|, i requires 0 <= i < |items| => Denote(c.bp, args, h, items[i]));
  }

  /** Expressions: the code for a value whose texts read evaluates to what the value means. */
  lemma {:induction false} ValueMeans(c: Ctx, j: Json, f: Frame, args: Args, h: Host)
    requires RenderAny(c, j).Ok? && ValidTexts(c.bp.stack, j) && PlainNames(c.names)
    requires HandlesBound(c, Reads(c.bp, j), f) && TokensBound(c, f, args)
    requires ValueReads(c.lang, c.bp.stack, j, h.stack)
    ensures Means(c, j, f, args, h)
    decreases j
  {
    match j
    case Str(t) => StringMeansIff(c, t, f, args, h);
    case Arr(items) =>
      forall i | 0 <= i < |items| ensures Means(c, items[i], f, args, h) {
        ValueMeans(c, items[i], f, args, h);
      }
      ListMeans(c, j, f, args, h);
    case Obj(fields) =>
      if RefTarget(j).Some? {
        RefMeans(c, j, f, args, h);
      } else if FnMarker(j).Some? {
        FnArgsValid(c.bp.stack, j);
        var items := FnMarker(j).value.1;
        forall i | 0 <= i < |items| ensures Means(c, items[i], f, args, h) {
          ValueMeans(c, items[i], f, args, h);
        }
        CallMeans(c, j, f, args, h);
      } else {
        forall k | k in fields ensures Means(c, fields[k], f, args, h) {
          ValueMeans(c, fields[k], f, args, h);
        }
        ObjectMeans(c, j, f, args, h);
      }
    case _ =>
  }

  // ------------------------------------------------------------------- where it fails

  /** A runtime whose ported functions tell all arguments apart. */
  ghost predicate TellsCallsApart(h: Host) {
    forall fn, vs, ws :: h.call(fn, vs) == h.call(fn, ws) ==> vs == ws
  }

  lemma PartsMean(c: Ctx, j: Json, f: Frame, args: Args, h: Host, k: string)
    requires j.Obj? && RefTarget(j).None? && FnMarker(j).None? && Means(c, j, f, args, h) && k in j.fields
    ensures Means(c, j.fields[k], f, args, h)
  {
    RenderObject(c, j);
    DenoteObject(c, j, args, h);
    var es := RenderAny(c, j).value.fields;
    assert Eval(EMap(es), f, h).value.fields[k] == Eval(es[k], f, h).value;
  }

  lemma ItemsMean(c: Ctx, j: Json, f: Frame, args: Args, h: Host, i: nat)
    requires j.Arr? && Means(c, j, f, args, h) && i < |j.items|
    ensures Means(c, j.items[i], f, args, h)
  {
    var es := RenderAny(c, j).value.items;
    assert es[i] == RenderAny(c, j.items[i]).value;
    assert Eval(EList(es), f, h).value.items[i] == Eval(es[i], f, h).value;
    assert Denote(c.bp, args, h, j).items[i] == Denote(c.bp, args, h, j.items[i]);
  }

  lemma ArgumentsMean(c: Ctx, j: Json, f: Frame, args: Args, h: Host, i: nat)
    requires RefTarget(j).None? && FnMarker(j).Some? && Means(c, j, f, args, h) && TellsCallsApart(h)
    requires i < |FnMarker(j).value.1|
    ensures Means(c, FnMarker(j).value.1[i], f, args, h)
  {
    var (fn, items) := FnMarker(j).value;
    var es := RenderAny(c, j).value.args;
    var got := seq(|es|, k requires 0 <= k < |es| => Eval(es[k], f, h).value);
    var meant := seq(|items|, k requires 0 <= k < |items| => Denote(c.bp, args, h, items[k]));
    assert h.call(fn, got) == h.call(fn, meant);
    assert got[i] == meant[i] && es[i] == RenderAny(c, items[i]).value;
  }

  /** A value with a text that does not read evaluates to something else, in a runtime that
      tells calls apart. */
  lemma {:induction false} ValueMisreads(c: Ctx, j: Json, f: Frame, args: Args, h: Host)
    requires RenderAny(c, j).Ok? && ValidTexts(c.bp.stack, j) && PlainNames(c.names)
    requires HandlesBound(c, Reads(c.bp, j), f) && TokensBound(c, f, args)
    requires !ValueReads(c.lang, c.bp.stack, j, h.stack) && TellsCallsApart(h)
    ensures !Means(c, j, f, args, h)
    decreases j
  {
    match j
    case Str(t) => StringMeansIff(c, t, f, args, h);
    case Arr(items) =>
      var i :| 0 <= i < |items| && !ValueReads(c.lang, c.bp.stack, items[i], h.stack);
      ValueMisreads(c, items[i], f, args, h);
      if Means(c, j, f, args, h) { ItemsMean(c, j, f, args, h, i); }
    case Obj(fields) =>
      if FnMarker(j).Some? {
        FnArgsValid(c.bp.stack, j);
        var items := FnMarker(j).value.1;
        var i :| 0 <= i < |items| && !ValueReads(c.lang, c.bp.stack, items[i], h.stack);
        ValueMisreads(c, items[i], f, args, h);
        if Means(c, j, f, args, h) { ArgumentsMean(c, j, f, args, h, i); }
      } else {
        var k :| k in fields && !ValueReads(c.lang, c.bp.stack, fields[k], h.stack);
        ValueMisreads(c, fields[k], f, args, h);
        if Means(c, j, f, args, h) { PartsMean(c, j, f, args, h, k); }
      }
    case _ =>
  }

  /** A text that is not faithful fails to read in some stack. */
  lemma {:induction false} SomeStackMisreads(c: Ctx, j: Json) returns (name: string)
    requires RenderAny(c, j).Ok? && ValidTexts(c.bp.stack, j) && !Faithful(c.lang, c.bp.stack, j)
    ensures !ValueReads(c.lang, c.bp.stack, j, name)
    decreases j
  {
    name := [];
    match j
    case Str(t) => name := SomeStackMisreadsText(c, t);
    case Arr(items) =>
      var i :| 0 <= i < |items| && !Faithful(c.lang, c.bp.stack, items[i]);
      name := SomeStackMisreads(c, items[i]);
    case Obj(fields) =>
      if FnMarker(j).Some? {
        FnArgsValid(c.bp.stack, j);
        var items := FnMarker(j).value.1;
        var i :| 0 <= i < |items| && !Faithful(c.lang, c.bp.stack, items[i]);
        name := SomeStackMisreads(c, items[i]);
      } else {
        var k :| k in fields && !Faithful(c.lang, c.bp.stack, fields[k]);
        name := SomeStackMisreads(c, fields[k]);
      }
    case _ =>
  }

  lemma SomeStackMisreadsText(c: Ctx, t: Text) returns (name: string)
    requires RenderString(c, t).Ok? && ValidText(c.bp.stack, t) && !FaithfulText(c.lang, c.bp.stack, t)
    ensures !TextReads(c.lang, c.bp.stack, t, name)
  {
    if IsEmbedded(t) {
      RenderedResolves(c, t.chars, t.refs, 0);
      ReplacedIsRestacked(c.bp, NamedHost([]), t.chars, t.refs);
    }
    name := UnfaithfulText(c.lang, c.bp.stack, t);
  }

  /** A plain runtime in a stack of this name. */
  function NamedHost(name: string): Host {
    Host(name, v => [], (v, op, literal) => VNull, (fn, vs) => VList(vs))
  }

  /** The exact condition for a value, at any nesting: its code evaluates to what it means in
      every runtime and every stack if and only if its texts are faithful. */
  lemma ValueMeansIff(c: Ctx, j: Json, f: Frame, args: Args)
    requires RenderAny(c, j).Ok? && ValidTexts(c.bp.stack, j) && PlainNames(c.names)
    requires HandlesBound(c, Reads(c.bp, j), f) && TokensBound(c, f, args)
    ensures (forall h :: Means(c, j, f, args, h)) <==> Faithful(c.lang, c.bp.stack, j)
  {
    if Faithful(c.lang, c.bp.stack, j) {
      forall h ensures Means(c, j, f, args, h) {
        FaithfulReads(c.lang, c.bp.stack, j, h.stack);
        ValueMeans(c, j, f, args, h);
      }
    } else {
      var name := SomeStackMisreads(c, j);
      ValueMisreads(c, j, f, args, NamedHost(name));
    }
  }

  // ------------------------------------------------------------------- statements

  /** No two identifiers of the generated function clash: locals with one another, with
      parameters, or with the loop's own variables. */
  ghost predicate Apart(n: Names) {
    && (forall a, b | a in n.local && b in n.local && a != b :: n.local[a] != n.local[b])
    && (forall a, p | a in n.local && p in n.param :: n.local[a] != n.param[p])
    && n.value != n.index
    && (forall a | a in n.local :: !LoopVariable(n, n.local[a]))
    && (forall p | p in n.param :: !LoopVariable(n, n.param[p]))
  }

  /** The local of every resource is its wrapped identifier with the first letter
      lowered, as Go and TypeScript have it. */
  ghost predicate LocalsFromWrap(n: Names, rs: seq<DecodedResource>)
    requires Identifiers.AllSourcesConvert(rs)
  {
    && n.local.Keys == Elements(TopoSort.Names(rs))
    && forall i | 0 <= i < |rs| ::
         rs[i].Address() in n.local && n.local[rs[i].Address()] == Identifiers.LowerFirst(Identifiers.Idents(rs)[i])
  }

  /** When wrap accepts the resources, their locals satisfy what the theorem asks of
      them; only the parameters and loop variables remain for the caller to keep apart. */
  lemma WrapSeparatesLocals(n: Names, rs: seq<DecodedResource>, a: string, b: string)
    requires Identifiers.AllSourcesConvert(rs) && NoDuplicates(Identifiers.Idents(rs))
    requires LocalsFromWrap(n, rs) && a in n.local && b in n.local && a != b
    ensures n.local[a] != n.local[b]
  {
    var i := LocalOf(n, rs, a);
    var j := LocalOf(n, rs, b);
    Identifiers.WrappedLocalsDiffer(rs, i, j);
  }

  lemma LocalOf(n: Names, rs: seq<DecodedResource>, a: string) returns (i: nat)
    requires Identifiers.AllSourcesConvert(rs) && LocalsFromWrap(n, rs) && a in n.local
    ensures i < |rs| && rs[i].Address() == a && n.local[a] == Identifiers.LowerFirst(Identifiers.Idents(rs)[i])
  {
    assert a in TopoSort.Names(rs);
    i :| 0 <= i < |rs| && TopoSort.Names(rs)[i] == a;
  }

  predicate LoopVariable(n: Names, x: string) { x == n.value || x == n.index || x == n.accum }

  /** The context fits the declared parameters, and the arguments their types. */
  ghost predicate Fits(c: Ctx, args: Args) {
    && c.names.param.Keys == c.params.Keys
    && (forall p | p in c.params ::
          && p in args
          && (c.params[p].ptype.BoolType? ==> args[p].VBool?)
          && (c.params[p].ptype.IsList() ==> args[p].VList?))
    && (c.bp.forEach.Some? ==>
          var base := c.bp.forEach.value.ri.forEach;
          base in c.params && c.params[base].ptype.IsList() && base + "_index" !in c.params)
    && (forall i, k | 0 <= i < |c.bp.order| && 0 <= k < |c.bp.order[i].ri.createIf| ::
          ConditionFits(c, c.bp.order[i].ri.createIf[k]))
  }

  ghost predicate ConditionFits(c: Ctx, term: string) {
    TermName(term) in c.params && c.params[TermName(term)].ptype.BoolType?
  }

  ghost predicate ParamsIn(c: Ctx, f: Frame, args: Args) {
    forall p | p in c.params ::
      p in args && p in c.names.param && c.names.param[p] in f && f[c.names.param[p]] == args[p]
  }

  ghost predicate ValidResource(stack: string, dr: DecodedResource) {
    (forall k | k in dr.ri.config :: ValidTexts(stack, dr.ri.config[k])) && ValidText(stack, dr.ri.name)
  }

  /** Every text a resource's call renders reads; only an iterated name is one. */
  ghost predicate CallReads(lang: Lang, stack: string, dr: DecodedResource, name: string) {
    && (forall k | k in dr.ri.config :: ValueReads(lang, stack, dr.ri.config[k], name))
    && (dr.ri.forEach != "" ==> TextReads(lang, stack, dr.ri.name, name))
  }

  ghost predicate FaithfulResource(lang: Lang, stack: string, dr: DecodedResource) {
    && (forall k | k in dr.ri.config :: Faithful(lang, stack, dr.ri.config[k]))
    && (dr.ri.forEach != "" ==> FaithfulText(lang, stack, dr.ri.name))
  }

  lemma FaithfulCallReads(lang: Lang, stack: string, dr: DecodedResource, name: string)
    requires FaithfulResource(lang, stack, dr)
    ensures CallReads(lang, stack, dr, name)
  {
    forall k | k in dr.ri.config ensures ValueReads(lang, stack, dr.ri.config[k], name) {
      FaithfulReads(lang, stack, dr.ri.config[k], name);
    }
  }

  lemma NameMeans(c: Ctx, f: Frame, args: Args, h: Host)
    requires RenderName(c).Ok? && ValidText(c.bp.stack, c.current.ri.name) && PlainNames(c.names)
    requires HandlesBound(c, NameCaptures(c.bp, c.current), f) && TokensBound(c, f, args)
    requires c.current.ri.forEach != "" ==> TextReads(c.lang, c.bp.stack, c.current.ri.name, h.stack)
    ensures Eval(RenderName(c).value, f, h).Ok?
    ensures Show(h, Eval(RenderName(c).value, f, h).value) == DenoteResource(c.bp, args, h, c.current).name
  {
    if c.InLoop() {
      StringMeansIff(c, c.current.ri.name, f, args, h);
    }
  }

  lemma CallShape(c: Ctx)
    requires RenderCall(c).Ok?
    ensures var call := RenderCall(c).value; var config := c.current.ri.config;
      && call.rtype == c.current.ri.rtype && RenderName(c) == Ok(call.name) && call.config.Keys == config.Keys
      && forall k | k in config :: RenderAny(c, config[k]) == Ok(call.config[k])
  {
  }

  lemma MeantFields(c: Ctx, args: Args, h: Host)
    ensures var made := DenoteResource(c.bp, args, h, c.current); var config := c.current.ri.config;
      && made.config.Keys == config.Keys
      && forall k | k in config :: made.config[k] == Denote(c.bp, args, h, config[k])
  {
  }

  lemma ConfigMeans(c: Ctx, f: Frame, args: Args, h: Host)
    requires RenderCall(c).Ok? && ValidResource(c.bp.stack, c.current) && PlainNames(c.names)
    requires HandlesBound(c, ReadsOf(c.bp, c.current), f) && TokensBound(c, f, args)
    requires CallReads(c.lang, c.bp.stack, c.current, h.stack)
    ensures FieldsEvaluate(RenderCall(c).value.config, DenoteResource(c.bp, args, h, c.current).config, f, h)
  {
    var config := c.current.ri.config;
    CallShape(c);
    MeantFields(c, args, h);
    forall k | k in config
      ensures Eval(RenderCall(c).value.config[k], f, h) == Ok(DenoteResource(c.bp, args, h, c.current).config[k])
    {
      assert Reads(c.bp, config[k]) <= ReadsOf(c.bp, c.current);
      ValueMeans(c, config[k], f, args, h);
    }
  }

  lemma EvalCallParts(call: Call, f: Frame, h: Host, name: string, config: map<string, Value>)
    requires Eval(call.name, f, h).Ok? && Show(h, Eval(call.name, f, h).value) == name
    requires FieldsEvaluate(call.config, config, f, h)
    ensures EvalCall(call, f, h) == Ok(Created(call.rtype, name, config))
  {
    assert EvalCall(call, f, h).value.config == config;
  }

  /** One resource call creates the resource the template means. */
  lemma CallCreates(c: Ctx, f: Frame, args: Args, h: Host)
    requires RenderCall(c).Ok? && ValidResource(c.bp.stack, c.current) && PlainNames(c.names)
    requires HandlesBound(c, ReadsOf(c.bp, c.current), f) && TokensBound(c, f, args)
    requires CallReads(c.lang, c.bp.stack, c.current, h.stack)
    ensures EvalCall(RenderCall(c).value, f, h) == Ok(DenoteResource(c.bp, args, h, c.current))
  {
    var made := DenoteResource(c.bp, args, h, c.current);
    NameMeans(c, f, args, h);
    ConfigMeans(c, f, args, h);
    CallShape(c);
    EvalCallParts(RenderCall(c).value, f, h, made.name, made.config);
  }

  /** Outside the loop, tokens are parameters. */
  lemma TokensAreParams(c: Ctx, f: Frame, args: Args)
    requires ParamsIn(c, f, args)
    requires c.bp.forEach.Some? ==> c.current != c.bp.forEach.value
    ensures TokensBound(c, f, args)
  {
  }

  /** Inside an iteration, the two synthetic tokens are the loop's variables. */
  lemma TokensInLoop(c: Ctx, f: Frame, args: Args, items: seq<Value>, i: nat)
    requires Fits(c, args) && ParamsIn(c, f, args) && Apart(c.names)
    requires c.bp.forEach == Some(c.current) && i < |items|
    ensures TokensBound(c, f[c.names.value := items[i]][c.names.index := VNum(i as real)],
                        IterationArgs(args, c.current.ri.forEach, items, i))
  {
    var base := c.current.ri.forEach;
    var f' := f[c.names.value := items[i]][c.names.index := VNum(i as real)];
    var args' := IterationArgs(args, base, items, i);
    forall n | ParamRef(c, n).Ok?
      ensures n in args' && ParamRef(c, n).value in f' && f'[ParamRef(c, n).value] == args'[n]
    {
      if n != base && n != base + "_index" {
        assert !LoopVariable(c.names, c.names.param[n]);
      }
    }
  }

  lemma HandlesSurvive(c: Ctx, targets: set<string>, f: Frame, x: string, v: Value)
    requires HandlesBound(c, targets, f)
    requires forall a | a in c.names.local :: c.names.local[a] != x
    ensures HandlesBound(c, targets, f[x := v])
  {
  }

  lemma {:induction false} LoopRuns(s: Stmt, items: seq<Value>, n: nat, f: Frame, h: Host, made: seq<Created>)
    requires s.SFor? && n <= |items| == |made|
    requires forall i | 0 <= i < |items| ::
               EvalCall(s.call, f[s.value := items[i]][s.index := VNum(i as real)], h) == Ok(made[i])
    ensures ExecLoop(s, items, n, f, h) == Ok(made[..n])
  {
    if n > 0 {
      LoopRuns(s, items, n - 1, f, h, made);
      PrefixGrows(made, n);
    }
  }

  lemma PrefixGrows<T>(s: seq<T>, n: nat)
    requires 0 < n <= |s|
    ensures s[..n] == s[..n - 1] + [s[n - 1]]
  {
  }

  lemma LoopCreates(c: Ctx, s: Stmt, items: seq<Value>, f: Frame, args: Args, h: Host)
    requires s.SFor? && RenderCall(c) == Ok(s.call) && s.value == c.names.value && s.index == c.names.index
    requires ValidResource(c.bp.stack, c.current) && PlainNames(c.names)
    requires CallReads(c.lang, c.bp.stack, c.current, h.stack)
    requires Apart(c.names) && Fits(c, args) && ParamsIn(c, f, args)
    requires c.bp.forEach == Some(c.current) && items == ListItems(args, c.current.ri.forEach)
             && c.current.ri.forEach != ""
    requires HandlesBound(c, ReadsOf(c.bp, c.current), f)
    ensures ExecLoop(s, items, |items|, f, h) == Ok(Instances(c.bp, args, h, c.current))
  {
    var made := Instances(c.bp, args, h, c.current);
    forall i | 0 <= i < |items|
      ensures EvalCall(s.call, f[s.value := items[i]][s.index := VNum(i as real)], h) == Ok(made[i])
    {
      IterationCreates(c, items, i, f, args, h);
    }
    LoopRuns(s, items, |items|, f, h, made);
    assert made[..|items|] == made;
  }

  lemma IterationCreates(c: Ctx, items: seq<Value>, i: nat, f: Frame, args: Args, h: Host)
    requires RenderCall(c).Ok? && ValidResource(c.bp.stack, c.current) && PlainNames(c.names)
    requires CallReads(c.lang, c.bp.stack, c.current, h.stack)
    requires Apart(c.names) && Fits(c, args) && ParamsIn(c, f, args)
    requires c.bp.forEach == Some(c.current) && i < |items|
    requires HandlesBound(c, ReadsOf(c.bp, c.current), f)
    ensures EvalCall(RenderCall(c).value, f[c.names.value := items[i]][c.names.index := VNum(i as real)], h)
            == Ok(DenoteResource(c.bp, IterationArgs(args, c.current.ri.forEach, items, i), h, c.current))
  {
    TokensInLoop(c, f, args, items, i);
    assert forall a | a in c.names.local :: !LoopVariable(c.names, c.names.local[a]);
    HandlesSurvive(c, ReadsOf(c.bp, c.current), f, c.names.value, items[i]);
    HandlesSurvive(c, ReadsOf(c.bp, c.current), f[c.names.value := items[i]], c.names.index, VNum(i as real));
    CallCreates(c, f[c.names.value := items[i]][c.names.index := VNum(i as real)],
                IterationArgs(args, c.current.ri.forEach, items, i), h);
  }

  // ------------------------------------------------------ addresses within one loop

  ghost predicate SameTokens(tokens: seq<Token>, a: Args, b: Args) {
    forall i | 0 <= i < |tokens| ::
      (tokens[i].name in a <==> tokens[i].name in b) && (tokens[i].name in a ==> a[tokens[i].name] == b[tokens[i].name])
  }

  lemma {:induction false} SameTemplate(a: Args, b: Args, h: Host, s: string, tokens: seq<Token>, from: nat)
    requires SameTokens(tokens, a, b)
    ensures DenoteTemplate(a, h, s, tokens, from) == DenoteTemplate(b, h, s, tokens, from)
  {
    if tokens != [] {
      assert SameTokens(tokens[1..], a, b) by {
        assert forall i | 0 <= i < |tokens[1..]| :: tokens[1..][i] == tokens[i + 1];
      }
      SameTemplate(a, b, h, s, tokens[1..], tokens[0].end);
    }
  }

  /** Decoding asks that an iterated name mentions its element or its position.  That does
      not make the addresses distinct: equal elements give one address, unless the name
      mentions the position. */
  lemma EqualElementsOneAddress(bp: Decoded, args: Args, h: Host, dr: DecodedResource, i: nat, j: nat)
    requires dr.ri.forEach != "" && i < |Instances(bp, args, h, dr)| && j < |Instances(bp, args, h, dr)|
    requires ListItems(args, dr.ri.forEach)[i] == ListItems(args, dr.ri.forEach)[j]
    requires forall k | 0 <= k < |dr.ri.name.tokens| :: dr.ri.name.tokens[k].name != dr.ri.forEach + "_index"
    ensures Instances(bp, args, h, dr)[i].Handle() == Instances(bp, args, h, dr)[j].Handle()
  {
    var items := ListItems(args, dr.ri.forEach);
    var a, b := IterationArgs(args, dr.ri.forEach, items, i), IterationArgs(args, dr.ri.forEach, items, j);
    assert SameTokens(dr.ri.name.tokens, a, b);
    SameTemplate(a, b, h, dr.ri.name.chars, dr.ri.name.tokens, 0);
    SameName(a, b, h, dr.ri.name);
  }

  lemma SameName(a: Args, b: Args, h: Host, t: Text)
    requires SameTokens(t.tokens, a, b)
    requires DenoteTemplate(a, h, t.chars, t.tokens, 0) == DenoteTemplate(b, h, t.chars, t.tokens, 0)
    ensures DenoteString(a, h, t) == DenoteString(b, h, t)
  {
  }
}
