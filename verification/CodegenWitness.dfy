/** Accepted drafts for which generation does not do what it is for.

    In the first the emitted code reads a local nothing bound, and gets stuck.  In the
    second, which differs in one depends_on, it runs, and leaves an address of the
    blueprint's own stack in a JSON text.  The third is accepted by decoding and refused by
    every generator.  The first two hold a text from which decoding collects one resource
    and the regular expression captures another; a marker inside a marker is such a text. */
module CodegenWitness {
  import opened Common
  import opened Blueprint
  import opened Decode
  import opened Codegen
  import opened CodegenProofs
  import opened CodegenTexts
  import opened CodegenMeaning
  import opened CodegenScoping
  import opened CodegenTheorem
  import opened CodegenAccepts
  import opened CodegenExact
  import Restacking
  import Splice
  import TopoSort

  // ------------------------------------------- running only what is well scoped

  /** Straight-line code: no loops and no conditions. */
  ghost predicate Straight(body: seq<Stmt>) {
    forall i | 0 <= i < |body| :: body[i].SBind? || body[i].SCall?
  }

  ghost predicate OnlyBound(body: seq<Stmt>, n: nat, f: Frame)
    requires n <= |body|
  {
    forall x | x in f :: BoundBefore(body, n, x)
  }

  lemma {:induction false} StraightRuns(body: seq<Stmt>, n: nat, h: Host)
    requires Straight(body) && n <= |body| && Exec(body[..n], map[], h).Ok?
    ensures forall i, x | 0 <= i < n && x in CallUses(body[i].call) :: BoundBefore(body, i, x)
    ensures OnlyBound(body, n, Exec(body[..n], map[], h).value.frame)
  {
    if n > 0 {
      var m: nat := n - 1;
      assert body[..n][..m] == body[..m];
      StraightRuns(body, m, h);
      StraightStep(body, m, Exec(body[..m], map[], h).value.frame, h);
    }
  }

  lemma StraightStep(body: seq<Stmt>, n: nat, f: Frame, h: Host)
    requires Straight(body) && n < |body| && OnlyBound(body, n, f) && ExecStmt(body[n], f, h).Ok?
    ensures forall x | x in CallUses(body[n].call) :: BoundBefore(body, n, x)
    ensures OnlyBound(body, n + 1, ExecStmt(body[n], f, h).value.frame)
  {
    EvaluatedCall(body[n].call, f, h);
    BoundLater(body, n, f);
  }

  lemma BoundLater(body: seq<Stmt>, n: nat, f: Frame)
    requires n < |body| && OnlyBound(body, n, f)
    ensures OnlyBound(body, n + 1, f)
    ensures body[n].SBind? ==> BoundBefore(body, n + 1, body[n].ident)
  {
    forall x | x in f ensures BoundBefore(body, n + 1, x) {
      assert BoundBefore(body, n, x);
      var j :| 0 <= j < n && body[j].SBind? && body[j].ident == x;
    }
    if body[n].SBind? {
      assert body[n].SBind? && body[n].ident == body[n].ident;
    }
  }

  /** Straight-line code that is not well scoped gets stuck, whatever the runtime. */
  lemma UnscopedCodeIsStuck(p: Program, h: Host)
    requires Straight(p.body) && !BodyScoped(p.body)
    ensures RunProgram(p, map[], h) == Err
  {
    assert p.body[..|p.body|] == p.body;
    if Exec(p.body, map[], h).Ok? {
      StraightRuns(p.body, |p.body|, h);
      assert false;
    }
  }

  // --------------------------------------------------- drafts that decoding accepts

  predicate OrdinaryIntent(ri: ResourceIntent) { ri.isCreate && ri.forEach == "" && ri.createIf == [] }

  /** Ordinary resources, and none that another depends on depends on anything. */
  ghost predicate Shallow(d: Draft) {
    && (forall i | 0 <= i < |d.resources| :: OrdinaryIntent(d.resources[i]))
    && DistinctIntents(d.resources) && ReferencesResolve(d)
    && var rs := WithDeps(d);
       forall i, j | 0 <= i < |rs| && 0 <= j < |rs| && rs[j].Address() in rs[i].deps :: rs[j].deps == {}
  }

  lemma OrdinaryIsValid(ri: ResourceIntent, params: map<string, Param>)
    requires OrdinaryIntent(ri)
    ensures ValidForEach(ri, params, []) && ValidCreateIf(ri, params)
  {
  }

  lemma ShallowIsShaped(d: Draft)
    requires Shallow(d)
    ensures WellShaped(d, [], []) && NoDuplicates(TopoSort.Names(WithDeps(d)))
  {
    forall i | 0 <= i < |d.resources|
      ensures ValidForEach(d.resources[i], ParamsByName([]), []) && ValidCreateIf(d.resources[i], ParamsByName([]))
    {
      OrdinaryIsValid(d.resources[i], ParamsByName([]));
    }
    WellShapedNames(d, [], []);
  }

  /** Where nothing depended on depends on anything, there is no cycle. */
  lemma ShallowIsAcyclic(g: TopoSort.Graph<string>)
    requires forall a, b | TopoSort.DependsOn(g, a, b) :: b in g.deps && g.deps[b] == {}
    ensures TopoSort.Acyclic(g)
  {
    forall p ensures !TopoSort.IsCycle(g, p) {
      if |p| >= 2 && p[0] == p[|p| - 1] && TopoSort.DependsOn(g, p[|p| - 2], p[|p| - 2 + 1]) {
        assert !TopoSort.DependsOn(g, p[0], p[0 + 1]);
      }
    }
  }

  lemma TargetKnown(d: Draft, i: nat, b: string) returns (j: nat)
    requires i < |d.resources| && b in WithDeps(d)[i].deps
    ensures j < |d.resources| && WithDeps(d)[j].Address() == b
  {
    assert b in KnownAddresses(d.resources);
    j :| 0 <= j < |d.resources| && d.resources[j].Address() == b;
  }

  lemma ShallowSorts(d: Draft)
    requires Shallow(d)
    ensures TopoSort.Sorted(WithDeps(d)).Ok?
  {
    var rs := WithDeps(d);
    var g := TopoSort.GraphOf(rs);
    ShallowIsShaped(d);
    TopoSort.GraphOfValid(rs);
    forall a, b | TopoSort.DependsOn(g, a, b) ensures b in Elements(g.names) && b in g.deps && g.deps[b] == {} {
      var i := TopoSort.GraphAt(rs, a);
      var j := TargetKnown(d, i, b);
      assert TopoSort.Names(rs)[j] == b;
    }
    ShallowIsAcyclic(g);
    forall a, b | a in g.deps && b in g.deps[a] ensures b in Elements(g.names) {
      assert TopoSort.DependsOn(g, a, b);
    }
    TopoSort.SortedCorrect(rs);
  }

  /** What decoding makes of such a draft. */
  ghost predicate DecodedAs(d: Draft, bp: Decoded) {
    && bp.stack == d.stack && bp.resources == WithDeps(d) && bp.referenced == DepsUnion(WithDeps(d))
    && bp.outputs == [] && bp.forEach == None && bp.Known() == KnownAddresses(d.resources)
  }

  lemma OrdinaryAllowed(rs: seq<DecodedResource>, referenced: set<string>)
    requires forall i | 0 <= i < |rs| :: OrdinaryIntent(rs[i].ri)
    ensures ReferencesAllowed(rs, referenced) && ForEachOf(rs) == None
  {
  }

  /** It is accepted. */
  lemma ShallowAccepted(d: Draft)
    requires Shallow(d)
    ensures DecodeBlueprint(d, [], []).Ok? && DecodedAs(d, DecodeBlueprint(d, [], []).value)
  {
    ShallowIsShaped(d);
    ShallowSorts(d);
    OrdinaryFinishes(d.stack, WithDeps(d));
    KnownMatches(d);
  }

  lemma OrdinaryFinishes(stack: string, rs: seq<DecodedResource>)
    requires TopoSort.Sorted(rs).Ok? && forall i | 0 <= i < |rs| :: OrdinaryIntent(rs[i].ri)
    ensures Finished(stack, rs, []).Ok?
    ensures var bp := Finished(stack, rs, []).value;
      && bp.stack == stack && bp.resources == rs && bp.referenced == DepsUnion(rs)
      && bp.outputs == [] && bp.forEach == None
  {
    OrdinaryAllowed(rs, DepsUnion(rs));
    assert OutputTargets([]) == {};
  }

  // ------------------------------------------------------------------ the drafts

  function At(z: char): string { "t" + "." + [z] }

  function Full(z: char): string { ['s', '.', 't', '.', z] }

  function Intent(z: char, config: map<string, Json>, after: seq<string>): ResourceIntent {
    ResourceIntent(true, "t", Text([z], None, [], [], []), config, after, "", [])
  }

  /** Three resources, the last holding a text and depending on what is listed. */
  function DraftOf(x: Text, after: seq<string>): Draft {
    Draft("s", [Intent('a', map[], []), Intent('c', map[], []), Intent('b', map["x" := Str(x)], after)])
  }

  /** A text from which decoding collects t.a and the regular expression captures t.c. */
  ghost predicate Hides(x: Text) {
    IsEmbedded(x) && x.refs != [] && CollectRefs(Str(x)) == {Full('a')} && CapturedTexts(x) == {Full('c')}
  }

  lemma AtIsShort(z: char)
    ensures At(z) == ['t', '.', z]
  {
  }

  lemma AtsDiffer(y: char, z: char)
    requires y != z
    ensures At(y) != At(z)
  {
    assert At(y)[2] == y && At(z)[2] == z;
  }

  lemma ThreeAddresses()
    ensures At('a') != At('c') && At('a') != At('b') && At('c') != At('b')
  {
    AtsDiffer('a', 'c');
    AtsDiffer('a', 'b');
    AtsDiffer('c', 'b');
  }

  lemma FullResolves(known: set<string>, z: char)
    requires z != '.' && At(z) in known
    ensures ResolveAddress("s", known, Full(z)) == Ok(Target(At(z), []))
  {
    AtIsShort(z);
    ResolveShort(known, z);
  }

  lemma IntentIs(z: char, config: map<string, Json>, after: seq<string>)
    ensures OrdinaryIntent(Intent(z, config, after)) && Intent(z, config, after).Address() == At(z)
  {
  }

  lemma NoMentions(z: char)
    ensures Mentions(Intent(z, map[], [])) == {}
  {
  }

  lemma OneFieldMentions(x: Text, after: seq<string>)
    ensures Mentions(Intent('b', map["x" := Str(x)], after)) == CollectRefs(Str(x)) + Elements(after)
  {
    var config := map["x" := Str(x)];
    assert config.Keys == {"x"} && config["x"] == Str(x);
  }

  /** Either nothing but the text, or t.c as well. */
  predicate After(after: seq<string>) { after == [] || after == [Full('c')] }

  function Dependencies(after: seq<string>): set<string> {
    if after == [] then {At('a')} else {At('a'), At('c')}
  }

  lemma AddressesOf(x: Text, after: seq<string>)
    ensures KnownAddresses(DraftOf(x, after).resources) == {At('a'), At('c'), At('b')}
  {
    var ris := DraftOf(x, after).resources;
    IntentIs('a', map[], []);
    IntentIs('c', map[], []);
    IntentIs('b', map["x" := Str(x)], after);
    MembersOfThree(ris);
  }

  lemma MembersOfThree<T>(s: seq<T>)
    requires |s| == 3
    ensures forall x :: x in s <==> x == s[0] || x == s[1] || x == s[2]
  {
  }

  lemma TwoMentions(stack: string, known: set<string>, p: string, q: string, a: string, b: string)
    requires ResolveAddress(stack, known, p) == Ok(Target(a, []))
    requires ResolveAddress(stack, known, q) == Ok(Target(b, []))
    ensures TargetsOf(stack, known, {p, q}) == {a, b} && AllResolve(stack, known, {p, q})
  {
    assert p in {p, q} && q in {p, q};
  }

  lemma TargetsAre(known: set<string>, after: seq<string>)
    requires After(after) && At('a') in known && At('c') in known
    ensures TargetsOf("s", known, {Full('a')} + Elements(after)) == Dependencies(after)
    ensures AllResolve("s", known, {Full('a')} + Elements(after))
  {
    FullResolves(known, 'a');
    FullResolves(known, 'c');
    if after == [] {
      TwoMentions("s", known, Full('a'), Full('a'), At('a'), At('a'));
      assert {Full('a')} + Elements(after) == {Full('a'), Full('a')};
    } else {
      TwoMentions("s", known, Full('a'), Full('c'), At('a'), At('c'));
      assert {Full('a')} + Elements(after) == {Full('a'), Full('c')};
    }
  }

  lemma NoTargets(stack: string, known: set<string>)
    ensures TargetsOf(stack, known, {}) == {}
  {
  }

  lemma DecodesAt(d: Draft, known: set<string>, i: nat)
    requires known == KnownAddresses(d.resources) && i < |d.resources|
    ensures WithDeps(d)[i] == DecodedResource(d.resources[i], TargetsOf(d.stack, known, Mentions(d.resources[i])))
  {
  }

  /** The resources, once decoded. */
  ghost predicate Trio(rs: seq<DecodedResource>, x: Text, after: seq<string>) {
    && |rs| == 3
    && rs[0] == DecodedResource(Intent('a', map[], []), {})
    && rs[1] == DecodedResource(Intent('c', map[], []), {})
    && rs[2] == DecodedResource(Intent('b', map["x" := Str(x)], after), Dependencies(after))
  }

  lemma DraftDecodes(x: Text, after: seq<string>)
    requires Hides(x) && After(after)
    ensures Trio(WithDeps(DraftOf(x, after)), x, after) && ReferencesResolve(DraftOf(x, after))
  {
    var d, known := DraftOf(x, after), {At('a'), At('c'), At('b')};
    AddressesOf(x, after);
    TargetsAre(known, after);
    NoTargets("s", known);
    NoMentions('a');
    NoMentions('c');
    OneFieldMentions(x, after);
    DecodesAt(d, known, 0);
    DecodesAt(d, known, 1);
    DecodesAt(d, known, 2);
    MentionsResolve(d, known);
  }

  lemma MentionsResolve(d: Draft, known: set<string>)
    requires |d.resources| == 3 && known == KnownAddresses(d.resources)
    requires Mentions(d.resources[0]) == {} && Mentions(d.resources[1]) == {}
    requires AllResolve(d.stack, known, Mentions(d.resources[2]))
    ensures ReferencesResolve(d)
  {
    forall i | 0 <= i < 3 ensures AllResolve(d.stack, known, Mentions(d.resources[i])) {
      assert i == 0 || i == 1 || i == 2;
    }
  }

  lemma TrioAddresses(rs: seq<DecodedResource>, x: Text, after: seq<string>)
    requires Trio(rs, x, after)
    ensures rs[0].Address() == At('a') && rs[1].Address() == At('c') && rs[2].Address() == At('b')
    ensures forall i | 0 <= i < 3 :: OrdinaryIntent(rs[i].ri)
  {
    IntentIs('a', map[], []);
    IntentIs('c', map[], []);
    IntentIs('b', map["x" := Str(x)], after);
  }

  lemma ThreeDistinct(ris: seq<ResourceIntent>, a: string, b: string, c: string)
    requires |ris| == 3 && ris[0].Address() == a && ris[1].Address() == b && ris[2].Address() == c
    requires a != b && a != c && b != c
    ensures DistinctIntents(ris)
  {
  }

  lemma OnlyLastDepends(rs: seq<DecodedResource>, deps: set<string>)
    requires |rs| == 3 && rs[0].deps == {} && rs[1].deps == {} && rs[2].deps == deps && rs[2].Address() !in deps
    ensures forall i, j | 0 <= i < |rs| && 0 <= j < |rs| && rs[j].Address() in rs[i].deps :: rs[j].deps == {}
  {
    forall i, j | 0 <= i < |rs| && 0 <= j < |rs| && rs[j].Address() in rs[i].deps ensures rs[j].deps == {} {
      assert i == 2;
      assert j == 0 || j == 1 || j == 2;
    }
  }

  lemma TrioIsShallow(d: Draft, x: Text, after: seq<string>)
    requires Trio(WithDeps(d), x, after) && After(after) && ReferencesResolve(d)
    ensures Shallow(d)
  {
    var rs := WithDeps(d);
    TrioAddresses(rs, x, after);
    ThreeAddresses();
    assert d.resources[0] == rs[0].ri && d.resources[1] == rs[1].ri && d.resources[2] == rs[2].ri;
    ThreeDistinct(d.resources, At('a'), At('c'), At('b'));
    OnlyLastDepends(rs, Dependencies(after));
  }

  lemma DraftIsShallow(x: Text, after: seq<string>)
    requires Hides(x) && After(after)
    ensures Shallow(DraftOf(x, after))
  {
    DraftDecodes(x, after);
    TrioIsShallow(DraftOf(x, after), x, after);
  }

  const NAMES: Names := Names(map[At('a') := "a", At('b') := "b", At('c') := "c"], map[], "value", "index", "items")

  /** A generator's context for the draft, in any language. */
  ghost predicate ForDraft(c: Ctx, x: Text, after: seq<string>) {
    && Hides(x) && After(after) && c.names == NAMES && c.params == map[]
    && DecodeBlueprint(DraftOf(x, after), [], []) == Ok(c.bp)
  }

  /** What decoding makes of it. */
  ghost predicate DraftFacts(c: Ctx, x: Text, after: seq<string>) {
    && Hides(x) && After(after) && c.names == NAMES && c.params == map[]
    && c.bp.stack == "s" && c.bp.Known() == {At('a'), At('c'), At('b')}
    && Trio(c.bp.resources, x, after) && c.bp.referenced == Dependencies(after) && c.bp.forEach == None
    && multiset(c.bp.order) == multiset(c.bp.resources)
  }

  lemma DraftAccepted(x: Text, after: seq<string>)
    requires Hides(x) && After(after)
    ensures DecodeBlueprint(DraftOf(x, after), [], []).Ok?
    ensures DecodedAs(DraftOf(x, after), DecodeBlueprint(DraftOf(x, after), [], []).value)
  {
    DraftIsShallow(x, after);
    ShallowAccepted(DraftOf(x, after));
  }

  lemma TrioUnion(rs: seq<DecodedResource>, x: Text, after: seq<string>)
    requires Trio(rs, x, after)
    ensures DepsUnion(rs) == Dependencies(after)
  {
    MembersOfThree(rs);
  }

  lemma FactsOf(c: Ctx, x: Text, after: seq<string>)
    requires ForDraft(c, x, after)
    ensures DraftFacts(c, x, after)
  {
    DraftAccepted(x, after);
    DraftDecodes(x, after);
    AddressesOf(x, after);
    TrioUnion(WithDeps(DraftOf(x, after)), x, after);
    AcceptedIsSound(DraftOf(x, after), [], []);
  }

  // -------------------------------------------------------------- what it captures

  lemma CapturesHere(c: Ctx, x: Text, after: seq<string>)
    requires DraftFacts(c, x, after)
    ensures Captures(c.bp, Str(x)) == {At('c')}
  {
    FullResolves(c.bp.Known(), 'c');
    TwoMentions("s", c.bp.Known(), Full('c'), Full('c'), At('c'), At('c'));
    assert {Full('c')} == {Full('c'), Full('c')};
  }

  lemma OneFieldCaptures(bp: Decoded, dr: DecodedResource, x: Json)
    requires dr.ri.config == map["x" := x] && dr.ri.forEach == ""
    ensures CapturesOf(bp, dr) == Captures(bp, x)
  {
    assert dr.ri.config.Keys == {"x"} && dr.ri.config["x"] == x;
  }

  lemma NoFieldCaptures(bp: Decoded, dr: DecodedResource)
    requires dr.ri.config == map[] && dr.ri.forEach == ""
    ensures CapturesOf(bp, dr) == {}
  {
  }

  lemma ResourceCaptures(c: Ctx, x: Text, after: seq<string>, r: DecodedResource)
    requires DraftFacts(c, x, after) && r in c.bp.resources
    ensures CapturesOf(c.bp, r) == if r == c.bp.resources[2] then {At('c')} else {}
  {
    MembersOfThree(c.bp.resources);
    CapturesHere(c, x, after);
    if r == c.bp.resources[2] {
      OneFieldCaptures(c.bp, r, Str(x));
    } else {
      NoFieldCaptures(c.bp, r);
    }
  }

  lemma UnboundWithout(c: Ctx, x: Text)
    requires DraftFacts(c, x, [])
    ensures !CapturesBound(c.bp)
  {
    var last := c.bp.resources[2];
    SameMembers(c.bp.order, c.bp.resources);
    assert last in c.bp.order;
    var i :| 0 <= i < |c.bp.order| && c.bp.order[i] == last;
    ResourceCaptures(c, x, [], last);
    ThreeAddresses();
    assert At('c') !in Bound(c.bp, i);
  }

  lemma BoundWith(c: Ctx, x: Text)
    requires DraftFacts(c, x, [Full('c')])
    ensures CapturesCollected(c.bp)
  {
    SameMembers(c.bp.order, c.bp.resources);
    forall i | 0 <= i < |c.bp.order| ensures CapturesOf(c.bp, c.bp.order[i]) <= c.bp.order[i].deps {
      assert c.bp.order[i] in c.bp.resources;
      ResourceCaptures(c, x, [Full('c')], c.bp.order[i]);
    }
  }

  // ------------------------------------------------------------------- its code

  lemma NamesFit()
    ensures Apart(NAMES) && PlainNames(NAMES) && ParamsApart(NAMES)
    ensures NAMES.local.Keys == {At('a'), At('b'), At('c')}
  {
    ThreeAddresses();
    LoopNamesFit();
    ThreeLocals(NAMES, At('a'), At('b'), At('c'));
  }

  lemma ThreeLocals(n: Names, a: string, b: string, c: string)
    requires n.local.Keys == {a, b, c} && n.param == map[] && n.value != n.index
    requires n.local[a] != n.local[b] && n.local[a] != n.local[c] && n.local[b] != n.local[c]
    requires !LoopVariable(n, n.local[a]) && !LoopVariable(n, n.local[b]) && !LoopVariable(n, n.local[c])
    ensures Apart(n)
  {
  }

  lemma LoopNamesFit()
    ensures PlainIdent("value") && PlainIdent("index") && |"value"| == |"index"| == |"items"| == 5 && "value" != "index"
  {
    assert "value" == ['v', 'a', 'l', 'u', 'e'] && "index" == ['i', 'n', 'd', 'e', 'x'];
  }

  lemma HiddenFits(s: Scope, x: Text)
    requires Hides(x) && s.stack == "s" && At('c') in s.known
    ensures TextFits(s, x)
  {
    FullResolves(s.known, 'c');
    forall i | 0 <= i < |x.refs|
      ensures Splice.Slice(x.chars, x.refs[i].addrStart, x.refs[i].addrEnd) == Full('c')
    {
      assert x.refs[i] in x.refs;
      assert Splice.Slice(x.chars, x.refs[i].addrStart, x.refs[i].addrEnd) in CapturedTexts(x);
    }
  }

  lemma IntentsFit(s: Scope, x: Text, after: seq<string>)
    requires Hides(x) && s.stack == "s" && At('c') in s.known
    ensures IntentFits(s, Intent('a', map[], [])) && IntentFits(s, Intent('c', map[], []))
    ensures IntentFits(s, Intent('b', map["x" := Str(x)], after))
  {
    HiddenFits(s, x);
  }

  lemma DraftCompiles(c: Ctx, x: Text, after: seq<string>)
    requires ForDraft(c, x, after)
    ensures Compile(c).Ok?
  {
    var d := DraftOf(x, after);
    FactsOf(c, x, after);
    NamesFit();
    AddressesOf(x, after);
    forall i | 0 <= i < |d.resources| ensures IntentFits(ScopeOf(c.lang, d, [], d.resources[i]), d.resources[i]) {
      IntentsFit(ScopeOf(c.lang, d, [], d.resources[i]), x, after);
      assert i == 0 || i == 1 || i == 2;
    }
    CompilesIff(d, [], [], c);
  }

  lemma OrdinaryIsStraight(c: Ctx)
    requires RenderStmt(c).Ok? && OrdinaryIntent(c.current.ri)
    ensures RenderStmt(c).value.SBind? || RenderStmt(c).value.SCall?
  {
  }

  lemma DraftIsStraight(c: Ctx, x: Text, after: seq<string>, body: seq<Stmt>)
    requires DraftFacts(c, x, after) && Emits(c, body)
    ensures Straight(body)
  {
    SameMembers(c.bp.order, c.bp.resources);
    TrioAddresses(c.bp.resources, x, after);
    forall i | 0 <= i < |body| ensures body[i].SBind? || body[i].SCall? {
      assert c.bp.order[i] in c.bp.resources;
      MembersOfThree(c.bp.resources);
      OrdinaryIsStraight(c.(current := c.bp.order[i]));
    }
  }

  /** With any such text, in every language: the draft is accepted, generated without error
      and with no clash of names, and its code reads a local nothing bound, and gets stuck
      on it in every runtime. */
  lemma AcceptedCodeGetsStuck(c: Ctx, x: Text, h: Host)
    requires ForDraft(c, x, [])
    ensures !CapturesBound(c.bp) && Apart(c.names) && Compile(c).Ok?
    ensures !WellScoped(Compile(c).value) && RunProgram(Compile(c).value, map[], h) == Err
  {
    FactsOf(c, x, []);
    UnboundWithout(c, x);
    NamesFit();
    DraftCompiles(c, x, []);
    CompileEmits(c);
    DraftIsStraight(c, x, [], Compile(c).value.body);
    AcceptedIsSound(DraftOf(x, []), [], []);
    ScopedIffCapturesBound(DraftOf(x, []), [], []);
    BodyScopedIff(c, Compile(c).value.body);
    UnscopedCodeIsStuck(Compile(c).value, h);
  }

  // ------------------------------------------------ code that keeps the old stack

  /** Such a text whose collected reference is not where the captured one is. */
  ghost predicate Misplaced(x: Text) { Hides(x) && ValidText("s", x) && Captured("s", x.refs) != Marked(x) }

  lemma PlainIsValid(z: char)
    ensures ValidText("s", Text([z], None, [], [], []))
  {
  }

  lemma DraftIsValid(c: Ctx, x: Text, after: seq<string>)
    requires DraftFacts(c, x, after) && Misplaced(x)
    ensures ValidBlueprint(c.bp)
  {
    SameMembers(c.bp.order, c.bp.resources);
    PlainIsValid('a');
    PlainIsValid('b');
    PlainIsValid('c');
    forall i | 0 <= i < |c.bp.order| ensures ValidResource("s", c.bp.order[i]) {
      assert c.bp.order[i] in c.bp.resources;
      MembersOfThree(c.bp.resources);
    }
  }

  lemma DraftIsUnfaithful(c: Ctx, x: Text, after: seq<string>)
    requires DraftFacts(c, x, after) && Misplaced(x)
    ensures !FaithfulBlueprint(c)
  {
    var last := c.bp.resources[2];
    SameMembers(c.bp.order, c.bp.resources);
    assert last in c.bp.order;
    var i :| 0 <= i < |c.bp.order| && c.bp.order[i] == last;
    assert last.ri.config["x"] == Str(x) && !Faithful(c.lang, "s", Str(x));
    assert !FaithfulResource(c.lang, "s", last);
  }

  /** With one depends_on more, the code of such a draft runs with every read bound, in every
      language, and yet does not mean the blueprint. */
  lemma AcceptedCodeKeepsOldStack(c: Ctx, x: Text)
    requires ForDraft(c, x, [Full('c')]) && Misplaced(x)
    ensures CapturesBound(c.bp) && Generated(c, []) && ValidBlueprint(c.bp) && Compile(c).Ok?
    ensures WellScoped(Compile(c).value)
    ensures exists f, args, h :: Admissible(c, [], f, args) && !Correct(c, f, args, h)
  {
    FactsOf(c, x, [Full('c')]);
    BoundWith(c, x);
    NamesFit();
    CollectedCapturesAreBound(DraftOf(x, [Full('c')]), [], []);
    ScopedIffCapturesBound(DraftOf(x, [Full('c')]), [], []);
    DraftCompiles(c, x, [Full('c')]);
    CompiledCodeScopedIff(DraftOf(x, [Full('c')]), [], [], c);
    DraftIsValid(c, x, [Full('c')]);
    DraftIsUnfaithful(c, x, [Full('c')]);
    CompiledCodeMeansBlueprintIff(DraftOf(x, [Full('c')]), [], [], c);
  }

  /** A marker inside a marker is such a text. */
  lemma NestedIsMisplaced()
    ensures Misplaced(NESTED)
  {
    NestedCollects();
    NestedCaptures();
    assert Captured("s", NESTED.refs)[0] == (41, 42) && Marked(NESTED)[0] == (15, 16);
    assert NESTED.refs[1..] == [] && Marked(NESTED)[1..] == [];
    assert (set m | m in NESTED.marks :: m.address) == {"s.t.a"};
  }

  /** In another stack the code gives the text with only the captured address relocated,
      and the collected one as it was written. */
  lemma OnlyCaptureMoves(c: Ctx, x: Text, m: RefSpan, f: Frame, h: Host)
    requires DraftFacts(c, x, [Full('c')]) && HandlesBound(c, {At('c')}, f)
    requires x.refs == [m] && Splice.ValidSpans(x.chars, x.refs, 0)
    ensures RenderString(c, x).Ok? && m.addrStart < |x.chars|
    ensures Eval(RenderString(c, x).value, f, h) == Ok(VText(MovedAt(x.chars, m.addrStart, h.stack)))
  {
    HiddenRenders(c, x);
    CapturesHere(c, x, [Full('c')]);
    OneMatchEval(c, x, m, f, h);
  }

  lemma OneMatchEval(c: Ctx, t: Text, m: RefSpan, f: Frame, h: Host)
    requires IsEmbedded(t) && RenderString(c, t).Ok? && t.refs == [m] && Splice.ValidSpans(t.chars, t.refs, 0)
    requires HandlesBound(c, CapturedTargets(c.bp, t), f) && |c.bp.stack| == 1
    ensures m.addrStart < |t.chars|
    ensures Eval(RenderString(c, t).value, f, h) == Ok(VText(MovedAt(t.chars, m.addrStart, h.stack)))
  {
    EmbeddedEval(c, t, f, h);
    OneCaptured(c.bp.stack, m);
    OrderedOne(t.chars, m.addrStart, m.addrStart + 1);
    OnePlace(t.chars, m.addrStart, h.stack);
  }

  lemma OneCaptured(stack: string, m: RefSpan)
    ensures Captured(stack, [m]) == [(m.addrStart, m.addrStart + |stack|)]
  {
  }

  lemma OrderedOne(s: string, k: nat, end: nat)
    requires Restacking.Ordered(s, [(k, end)], 0)
    ensures k <= end <= |s|
  {
  }

  /** A text with one character replaced by a name. */
  function MovedAt(s: string, k: nat, name: string): string
    requires k < |s|
  {
    s[..k] + name + s[k + 1..]
  }

  lemma OnePlace(s: string, k: nat, name: string)
    requires k < |s|
    ensures Restacking.Restacked(s, [(k, k + 1)], 0, name) == MovedAt(s, k, name)
  {
    assert [(k, k + 1)][1..] == [];
  }

  lemma HiddenRenders(c: Ctx, x: Text)
    requires DraftFacts(c, x, [Full('c')])
    ensures RenderString(c, x).Ok?
  {
    NamesFit();
    HiddenFits(ScopeFor(c), x);
    TextRendersIff(c, x);
  }

  lemma NestedKeepsOldStack(c: Ctx, f: Frame, h: Host)
    requires ForDraft(c, NESTED, [Full('c')]) && HandlesBound(c, {At('c')}, f)
    ensures RenderString(c, NESTED).Ok? && |NESTED.chars| == 51
    ensures Eval(RenderString(c, NESTED).value, f, h) == Ok(VText(MovedAt(NESTED.chars, 41, h.stack)))
    ensures NESTED.chars[15..20] == "s.t.a" && NESTED.marks == [Mark(15, 16, "s.t.a")]
  {
    FactsOf(c, NESTED, [Full('c')]);
    NestedSpans();
    OnlyCaptureMoves(c, NESTED, RefSpan(26, 41, 46, 49), f, h);
  }

  lemma NestedSpells(s: string)
    requires s == "{\"$ref\":{\"to\":\"s.t.a\",\"n\":{\"$ref\":{\"to\":\"s.t.c\"}}}}"
    ensures s[15..20] == "s.t.a"
  {
    assert s[15] == 's';
    assert s[16] == '.';
    assert s[17] == 't';
    assert s[18] == '.';
    assert s[19] == 'a';
  }

  lemma NestedSpans()
    ensures NESTED.refs == [RefSpan(26, 41, 46, 49)] && Splice.ValidSpans(NESTED.chars, NESTED.refs, 0)
    ensures NESTED.chars[15..20] == "s.t.a" && NESTED.marks == [Mark(15, 16, "s.t.a")]
  {
    assert NESTED.refs[1..] == [];
    NestedSpells(NESTED.chars);
  }

  // -------------------------------------------------- a draft no generator takes

  const UNDECLARED: Text := Text("{n}", None, [], [], [Token(0, 3, "n", "", "")])

  const LONE: Draft := Draft("s", [Intent('a', map["x" := Str(UNDECLARED)], [])])

  lemma LoneIsShallow()
    ensures Shallow(LONE)
  {
    OneFieldNoMentions();
    NoTargets("s", KnownAddresses(LONE.resources));
    DecodesAt(LONE, KnownAddresses(LONE.resources), 0);
    IntentIs('a', map["x" := Str(UNDECLARED)], []);
  }

  lemma OneFieldNoMentions()
    ensures Mentions(Intent('a', map["x" := Str(UNDECLARED)], [])) == {}
  {
    assert CollectRefs(Str(UNDECLARED)) == {};
  }

  /** A placeholder that names no parameter is accepted by decoding and refused by every
      generator. */
  lemma AcceptedButNotGenerated(c: Ctx)
    ensures DecodeBlueprint(LONE, [], []).Ok?
    ensures ContextFor(LONE, [], [], c) ==> Compile(c).Err?
  {
    LoneIsShallow();
    ShallowAccepted(LONE);
    var ri := LONE.resources[0];
    assert ri.config["x"] == Str(UNDECLARED);
    assert !TokenFits(ScopeOf(c.lang, LONE, [], ri), UNDECLARED.tokens[0]);
    assert !TextFits(ScopeOf(c.lang, LONE, [], ri), UNDECLARED);
    assert !DraftFits(c.lang, LONE, []);
    if ContextFor(LONE, [], [], c) {
      CompilesIff(LONE, [], [], c);
    }
  }

  // -------------------------------------------------------- a local nothing reads

  /** Two resources, the second only placed after the first. */
  const ORDERED: Draft := Draft("s", [Intent('a', map[], []), Intent('b', map[], [Full('a')])])

  lemma OrderedAddresses()
    ensures KnownAddresses(ORDERED.resources) == {At('a'), At('b')}
  {
    IntentIs('a', map[], []);
    IntentIs('b', map[], [Full('a')]);
    MembersOfTwo(ORDERED.resources);
  }

  lemma MembersOfTwo<T>(s: seq<T>)
    requires |s| == 2
    ensures forall x :: x in s <==> x == s[0] || x == s[1]
  {
  }

  lemma OnlyAfter()
    ensures Mentions(Intent('b', map[], [Full('a')])) == {Full('a')}
    ensures TargetsOf("s", {At('a'), At('b')}, {Full('a')}) == {At('a')}
    ensures AllResolve("s", {At('a'), At('b')}, {Full('a')})
  {
    FullResolves({At('a'), At('b')}, 'a');
    TwoMentions("s", {At('a'), At('b')}, Full('a'), Full('a'), At('a'), At('a'));
    assert {Full('a')} == {Full('a'), Full('a')} && {At('a')} == {At('a'), At('a')};
  }

  /** The two resources, once decoded. */
  ghost predicate Pair(rs: seq<DecodedResource>) {
    && |rs| == 2
    && rs[0] == DecodedResource(Intent('a', map[], []), {})
    && rs[1] == DecodedResource(Intent('b', map[], [Full('a')]), {At('a')})
  }

  lemma OrderedDecodes()
    ensures Pair(WithDeps(ORDERED)) && ReferencesResolve(ORDERED)
  {
    var known := {At('a'), At('b')};
    OrderedAddresses();
    OnlyAfter();
    NoMentions('a');
    NoTargets("s", known);
    PairDecodes(known);
    PairResolves(ORDERED, known);
  }

  lemma PairDecodes(known: set<string>)
    requires known == KnownAddresses(ORDERED.resources)
    requires TargetsOf("s", known, Mentions(Intent('a', map[], []))) == {}
    requires TargetsOf("s", known, Mentions(Intent('b', map[], [Full('a')]))) == {At('a')}
    ensures Pair(WithDeps(ORDERED))
  {
    DecodesAt(ORDERED, known, 0);
    DecodesAt(ORDERED, known, 1);
  }

  lemma PairResolves(d: Draft, known: set<string>)
    requires |d.resources| == 2 && known == KnownAddresses(d.resources)
    requires Mentions(d.resources[0]) == {} && AllResolve(d.stack, known, Mentions(d.resources[1]))
    ensures ReferencesResolve(d)
  {
  }

  lemma OrderedIsShallow()
    ensures Shallow(ORDERED)
  {
    OrderedDecodes();
    OrderedIsOrdinary();
    PairIsFlat(WithDeps(ORDERED));
  }

  lemma OrderedIsOrdinary()
    ensures DistinctIntents(ORDERED.resources)
    ensures forall i | 0 <= i < |ORDERED.resources| :: OrdinaryIntent(ORDERED.resources[i])
  {
    IntentIs('a', map[], []);
    IntentIs('b', map[], [Full('a')]);
    ThreeAddresses();
  }

  lemma PairIsFlat(rs: seq<DecodedResource>)
    requires Pair(rs)
    ensures forall i, j | 0 <= i < |rs| && 0 <= j < |rs| && rs[j].Address() in rs[i].deps :: rs[j].deps == {}
  {
    ThreeAddresses();
    IntentIs('a', map[], []);
    IntentIs('b', map[], [Full('a')]);
    assert At('b') !in rs[0].deps && At('b') !in rs[1].deps && rs[1].Address() == At('b');
  }

  lemma BareReadsNothing(bp: Decoded, dr: DecodedResource)
    requires dr.ri.config == map[] && dr.ri.forEach == ""
    ensures ReadsOf(bp, dr) == {}
  {
  }

  lemma OrderedNeedsNothing(bp: Decoded)
    requires multiset(bp.order) == multiset(bp.resources) && Pair(bp.resources) && bp.outputs == []
    ensures forall a :: !Needed(bp, a)
  {
    SameMembers(bp.order, bp.resources);
    MembersOfTwo(bp.resources);
    forall i | 0 <= i < |bp.order| ensures ReadsOf(bp, bp.order[i]) == {} {
      assert bp.order[i] in bp.resources;
      BareReadsNothing(bp, bp.order[i]);
    }
  }

  lemma OrderedCompiles(c: Ctx)
    requires c.names == NAMES && c.params == map[] && DecodeBlueprint(ORDERED, [], []) == Ok(c.bp)
    ensures Compile(c).Ok?
  {
    NamesFit();
    OrderedAddresses();
    OrderedIsShallow();
    ShallowAccepted(ORDERED);
    forall i | 0 <= i < |ORDERED.resources|
      ensures IntentFits(ScopeOf(c.lang, ORDERED, [], ORDERED.resources[i]), ORDERED.resources[i])
    {
      assert i == 0 || i == 1;
    }
    CompilesIff(ORDERED, [], [], c);
  }

  lemma SecondIsUnneeded(bp: Decoded)
    requires multiset(bp.order) == multiset(bp.resources) && Pair(bp.resources) && bp.outputs == []
    requires bp.stack == "s" && bp.Known() == {At('a'), At('b')}
    ensures exists i :: 0 <= i < |bp.order| && !UnreadAreNeeded(bp, bp.order[i])
  {
    OrderedNeedsNothing(bp);
    OnlyAfter();
    SameMembers(bp.order, bp.resources);
    assert bp.resources[1] in bp.order;
    var i :| 0 <= i < |bp.order| && bp.order[i] == bp.resources[1];
    assert Elements([Full('a')]) == {Full('a')};
    assert At('a') in TargetsOf(bp.stack, bp.Known(), Elements(bp.order[i].ri.dependsOn));
  }

  /** A resource that another is only placed after gets a local all the same, and nothing
      reads it. */
  lemma DependsOnLeavesALocalUnread(c: Ctx)
    requires c.names == NAMES && c.params == map[] && DecodeBlueprint(ORDERED, [], []) == Ok(c.bp)
    ensures Apart(c.names) && Compile(c).Ok? && !NoUnusedLocal(Compile(c).value)
  {
    NamesFit();
    OrderedCompiles(c);
    OrderedIsShallow();
    ShallowAccepted(ORDERED);
    OrderedDecodes();
    OrderedAddresses();
    AcceptedIsSound(ORDERED, [], []);
    NoUnusedLocalIff(ORDERED, [], [], c);
    SecondIsUnneeded(c.bp);
  }

  lemma OrderedAccepted()
    ensures DecodeBlueprint(ORDERED, [], []).Ok?
  {
    OrderedIsShallow();
    ShallowAccepted(ORDERED);
  }
}
