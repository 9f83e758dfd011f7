/** When a draft is accepted, stated condition by condition as an author would read them,
    and what its outputs come to. */
module Acceptance {
  import opened Common
  import opened Blueprint
  import opened Decode
  import opened CodegenProofs
  import opened Readings
  import SortOrder
  import TopoSort

  // ----------------------------------------------------------------- parameters

  /** The declaration a parameter name stands for: the last of that name. */
  ghost predicate Declares(params: seq<Param>, name: string, p: Param) {
    exists i :: DeclaresAt(params, i, name, p)
  }

  ghost predicate DeclaresAt(params: seq<Param>, i: int, name: string, p: Param) {
    0 <= i < |params| && params[i] == p && p.name == name && forall j | i < j < |params| :: params[j].name != name
  }

  lemma {:induction false} DeclaredIff(params: seq<Param>, name: string, p: Param)
    ensures name in ParamsByName(params) && ParamsByName(params)[name] == p <==> Declares(params, name, p)
  {
    if params != [] {
      var front, last := params[..|params| - 1], params[|params| - 1];
      DeclaredIff(front, name, p);
      if last.name == name {
        LastDeclares(params, name, p);
      } else {
        EarlierDeclares(params, name, p);
      }
    }
  }

  lemma LastDeclares(params: seq<Param>, name: string, p: Param)
    requires params != [] && params[|params| - 1].name == name
    ensures Declares(params, name, p) <==> p == params[|params| - 1]
  {
    assert DeclaresAt(params, |params| - 1, name, params[|params| - 1]);
  }

  lemma EarlierDeclares(params: seq<Param>, name: string, p: Param)
    requires params != [] && params[|params| - 1].name != name
    ensures Declares(params, name, p) <==> Declares(params[..|params| - 1], name, p)
  {
    var front := params[..|params| - 1];
    if i :| DeclaresAt(params, i, name, p) {
      assert DeclaresAt(front, i, name, p);
    }
    if i :| DeclaresAt(front, i, name, p) {
      assert DeclaresAt(params, i, name, p);
    }
  }

  ghost predicate IsDeclared(params: seq<Param>, name: string) { exists p :: p in params && p.name == name }

  lemma DeclaredNames(params: seq<Param>, name: string)
    ensures name in ParamsByName(params) <==> IsDeclared(params, name)
  {
    if name in ParamsByName(params) {
      assert ParamsByName(params)[name] in params;
    }
  }

  // ----------------------------------------------------------------- conditions

  /** A create_if term reads "p" or "!p". */
  ghost predicate Flags(term: string, p: string) {
    term == "!" + p || (term == p && !(p != "" && p[0] == '!'))
  }

  lemma FlagsOne(term: string, p: string)
    ensures Flags(term, p) <==> p == TermName(term)
  {
    if term != [] && term[0] == '!' {
      assert term == "!" + term[1..];
      assert term == "!" + p ==> p == term[1..];
    } else {
      assert ("!" + p)[0] == '!';
    }
  }

  /** Each term names a declared flag, and no flag is named twice. */
  ghost predicate FlagsDeclared(params: seq<Param>, terms: seq<string>) {
    && (forall i | 0 <= i < |terms| :: FlagDeclared(params, terms[i]))
    && (forall i, j, p | 0 <= i < j < |terms| && Flags(terms[i], p) :: !Flags(terms[j], p))
  }

  ghost predicate FlagDeclared(params: seq<Param>, term: string) {
    exists p, d :: p != "" && Flags(term, p) && Declares(params, p, d) && d.ptype.BoolType?
  }

  lemma TermIff(params: seq<Param>, term: string)
    ensures ValidTerm(term, ParamsByName(params)) <==> FlagDeclared(params, term)
  {
    var name := TermName(term);
    FlagsOne(term, name);
    if ValidTerm(term, ParamsByName(params)) {
      DeclaredIff(params, name, ParamsByName(params)[name]);
    }
    if p, d :| p != "" && Flags(term, p) && Declares(params, p, d) && d.ptype.BoolType? {
      FlagsOne(term, p);
      DeclaredIff(params, p, d);
    }
  }

  lemma TermsIff(params: seq<Param>, terms: seq<string>)
    ensures FlagsDeclared(params, terms) <==>
      && (forall i | 0 <= i < |terms| :: ValidTerm(terms[i], ParamsByName(params)))
      && (forall i, j | 0 <= i < j < |terms| :: TermName(terms[i]) != TermName(terms[j]))
  {
    forall i | 0 <= i < |terms| ensures ValidTerm(terms[i], ParamsByName(params)) <==> FlagDeclared(params, terms[i]) {
      TermIff(params, terms[i]);
    }
    forall i, j | 0 <= i < j < |terms|
      ensures TermName(terms[i]) == TermName(terms[j]) <==> exists p :: Flags(terms[i], p) && Flags(terms[j], p)
    {
      SameFlag(terms[i], terms[j]);
    }
  }

  lemma SameFlag(s: string, t: string)
    ensures TermName(s) == TermName(t) <==> exists p :: Flags(s, p) && Flags(t, p)
  {
    FlagsOne(s, TermName(s));
    FlagsOne(t, TermName(s));
    forall p | Flags(s, p) && Flags(t, p) ensures TermName(s) == TermName(t) {
      FlagsOne(s, p);
      FlagsOne(t, p);
    }
  }

  /** The list a for_each names is declared, its index name is free, and no output is. */
  ghost predicate LoopDeclared(params: seq<Param>, outputs: seq<Output>, base: string) {
    && (exists d :: Declares(params, base, d) && d.ptype.IsList())
    && !IsDeclared(params, base + "_index") && outputs == []
  }

  lemma LoopIff(ri: ResourceIntent, params: seq<Param>, outputs: seq<Output>)
    ensures ValidForEach(ri, ParamsByName(params), outputs)
            <==> (ri.forEach != "" ==> LoopDeclared(params, outputs, ri.forEach))
  {
    DeclaredNames(params, ri.forEach + "_index");
    if ri.forEach in ParamsByName(params) {
      DeclaredIff(params, ri.forEach, ParamsByName(params)[ri.forEach]);
    }
    forall d | Declares(params, ri.forEach, d)
      ensures ri.forEach in ParamsByName(params) && ParamsByName(params)[ri.forEach] == d
    {
      DeclaredIff(params, ri.forEach, d);
    }
  }

  /** One resource as its author must write it. */
  ghost predicate WellWritten(ri: ResourceIntent, params: seq<Param>, outputs: seq<Output>) {
    && ri.isCreate
    && (ri.forEach != "" ==> LoopDeclared(params, outputs, ri.forEach))
    && (ri.createIf != [] ==> FlagsDeclared(params, ri.createIf) && ri.forEach == "")
  }

  lemma WrittenResource(ri: ResourceIntent, params: seq<Param>, outputs: seq<Output>)
    ensures WellWritten(ri, params, outputs)
            <==> ri.isCreate && ValidForEach(ri, ParamsByName(params), outputs)
                 && ValidCreateIf(ri, ParamsByName(params))
  {
    LoopIff(ri, params, outputs);
    TermsIff(params, ri.createIf);
  }

  /** No two resources have one address, and at most one is iterated. */
  ghost predicate WellSorted(ris: seq<ResourceIntent>) {
    forall i, j | 0 <= i < j < |ris| ::
      && !(ris[i].rtype + "." + ris[i].name.chars == ris[j].rtype + "." + ris[j].name.chars)
      && (ris[i].forEach == "" || ris[j].forEach == "")
  }

  lemma ShapeIff(draft: Draft, params: seq<Param>, outputs: seq<Output>)
    ensures WellShaped(draft, params, outputs)
            <==> WellSorted(draft.resources) && forall ri | ri in draft.resources :: WellWritten(ri, params, outputs)
  {
    var ris := draft.resources;
    forall ri ensures WellWritten(ri, params, outputs)
                <==> ri.isCreate && ValidForEach(ri, ParamsByName(params), outputs)
                     && ValidCreateIf(ri, ParamsByName(params))
    {
      WrittenResource(ri, params, outputs);
    }
    assert forall i | 0 <= i < |ris| :: ris[i] in ris;
    assert WellSorted(ris) <==>
      DistinctIntents(ris) && forall i, j | 0 <= i < j < |ris| :: ris[i].forEach == "" || ris[j].forEach == "";
  }

  // ----------------------------------------------------------------- references

  /** A resource mentions an address, in a depends_on or anywhere in its config. */
  ghost predicate Mentioned(ri: ResourceIntent, addr: string) {
    addr in ri.dependsOn || exists k :: k in ri.config && Stands(ri.config[k], addr)
  }

  lemma MentionedIff(ri: ResourceIntent, addr: string)
    ensures addr in Mentions(ri) <==> Mentioned(ri, addr)
  {
    forall k | k in ri.config ensures addr in CollectRefs(ri.config[k]) <==> Stands(ri.config[k], addr) {
      CollectedIffStands(ri.config[k], addr);
    }
  }

  ghost predicate Has(ris: seq<ResourceIntent>, a: string) { exists ri :: ri in ris && ri.Address() == a }

  lemma KnownIff(ris: seq<ResourceIntent>, a: string)
    ensures a in KnownAddresses(ris) <==> Has(ris, a)
  {
  }

  /** The address is written as this stack's address of a resource of the draft. */
  ghost predicate Refers(draft: Draft, addr: string, a: string) {
    Has(draft.resources, a) && exists path :: Readings.Names(addr, draft.stack, a, path)
  }

  lemma RefersIff(draft: Draft, addr: string, a: string)
    ensures Refers(draft, addr, a)
            <==> var r := ResolveAddress(draft.stack, KnownAddresses(draft.resources), addr);
                 r.Ok? && r.value.address == a
  {
    var known := KnownAddresses(draft.resources);
    var r := ResolveAddress(draft.stack, known, addr);
    KnownIff(draft.resources, a);
    if r.Ok? && r.value.address == a {
      AddressResolvesIff(draft.stack, known, addr, a, r.value.path);
    }
    if path :| Has(draft.resources, a) && Readings.Names(addr, draft.stack, a, path) {
      AddressResolvesIff(draft.stack, known, addr, a, path);
    }
  }

  /** Every mention refers to a resource. */
  ghost predicate MentionsRefer(draft: Draft) {
    forall ri, addr | ri in draft.resources && Mentioned(ri, addr) :: exists a :: Refers(draft, addr, a)
  }

  lemma ReferencesIff(draft: Draft)
    ensures ReferencesResolve(draft) <==> MentionsRefer(draft)
  {
    var known := KnownAddresses(draft.resources);
    forall ri, addr ensures addr in Mentions(ri) <==> Mentioned(ri, addr) { MentionedIff(ri, addr); }
    forall addr
      ensures ResolveAddress(draft.stack, known, addr).Ok? <==> exists a :: Refers(draft, addr, a)
    {
      SomeReferent(draft, addr);
    }
    if ReferencesResolve(draft) {
      forall ri, addr | ri in draft.resources && Mentioned(ri, addr) ensures exists a :: Refers(draft, addr, a) {
        var i :| 0 <= i < |draft.resources| && draft.resources[i] == ri;
        assert AllResolve(draft.stack, known, Mentions(draft.resources[i]));
      }
    }
  }

  lemma SomeReferent(draft: Draft, addr: string)
    ensures ResolveAddress(draft.stack, KnownAddresses(draft.resources), addr).Ok?
            <==> exists a :: Refers(draft, addr, a)
  {
    var r := ResolveAddress(draft.stack, KnownAddresses(draft.resources), addr);
    if r.Ok? {
      RefersIff(draft, addr, r.value.address);
    }
    if a :| Refers(draft, addr, a) {
      RefersIff(draft, addr, a);
    }
  }

  /** A resource waits for another that it mentions. */
  ghost predicate WaitsFor(draft: Draft, ri: ResourceIntent, a: string) {
    exists addr :: Mentioned(ri, addr) && Refers(draft, addr, a)
  }

  lemma DepsAreMentioned(draft: Draft, i: nat, a: string)
    requires i < |draft.resources|
    ensures a in WithDeps(draft)[i].deps <==> WaitsFor(draft, draft.resources[i], a)
  {
    var ri := draft.resources[i];
    forall addr ensures (addr in Mentions(ri) <==> Mentioned(ri, addr)) { MentionedIff(ri, addr); }
    forall addr ensures Refers(draft, addr, a)
      <==> var r := ResolveAddress(draft.stack, KnownAddresses(draft.resources), addr); r.Ok? && r.value.address == a
    {
      RefersIff(draft, addr, a);
    }
  }

  /** One address waits for another. */
  ghost predicate Waits(draft: Draft, a: string, b: string) {
    exists ri :: ri in draft.resources && ri.Address() == a && WaitsFor(draft, ri, b)
  }

  /** A chain of resources, each waiting for the next, that comes back to its start. */
  ghost predicate Loops(draft: Draft, p: seq<string>) {
    |p| >= 2 && p[0] == p[|p| - 1] && forall i | 0 <= i < |p| - 1 :: Waits(draft, p[i], p[i + 1])
  }

  lemma GraphWaits(draft: Draft, a: string, b: string)
    requires DistinctIntents(draft.resources)
    ensures TopoSort.DependsOn(TopoSort.GraphOf(WithDeps(draft)), a, b) <==> Waits(draft, a, b)
  {
    DistinctNames(draft);
    if TopoSort.DependsOn(TopoSort.GraphOf(WithDeps(draft)), a, b) {
      EdgeWaits(draft, a, b);
    }
    if Waits(draft, a, b) {
      WaitsEdge(draft, a, b);
    }
  }

  lemma WaitsEdge(draft: Draft, a: string, b: string)
    requires NoDuplicates(TopoSort.Names(WithDeps(draft))) && Waits(draft, a, b)
    ensures TopoSort.DependsOn(TopoSort.GraphOf(WithDeps(draft)), a, b)
  {
    var ri :| ri in draft.resources && ri.Address() == a && WaitsFor(draft, ri, b);
    var i :| 0 <= i < |draft.resources| && draft.resources[i] == ri;
    DepsAreMentioned(draft, i, b);
    NodeDeps(WithDeps(draft), i, b);
  }

  lemma EdgeWaits(draft: Draft, a: string, b: string)
    requires NoDuplicates(TopoSort.Names(WithDeps(draft)))
    requires TopoSort.DependsOn(TopoSort.GraphOf(WithDeps(draft)), a, b)
    ensures Waits(draft, a, b)
  {
    var i := TopoSort.GraphAt(WithDeps(draft), a);
    DepsAreMentioned(draft, i, b);
    assert draft.resources[i] in draft.resources;
  }

  lemma NodeDeps(rs: seq<DecodedResource>, i: nat, b: string)
    requires NoDuplicates(TopoSort.Names(rs)) && i < |rs| && b in rs[i].deps
    ensures TopoSort.DependsOn(TopoSort.GraphOf(rs), rs[i].Address(), b)
  {
    TopoSort.GraphOfValid(rs);
  }

  lemma DistinctNames(draft: Draft)
    requires DistinctIntents(draft.resources)
    ensures NoDuplicates(TopoSort.Names(WithDeps(draft)))
  {
    var names := TopoSort.Names(WithDeps(draft));
    forall i, j | 0 <= i < j < |names| ensures names[i] != names[j] {
      assert draft.resources[i].Address() != draft.resources[j].Address();
    }
  }

  lemma CyclesAreLoops(draft: Draft, p: seq<string>)
    requires DistinctIntents(draft.resources)
    ensures TopoSort.IsCycle(TopoSort.GraphOf(WithDeps(draft)), p) <==> Loops(draft, p)
  {
    var g := TopoSort.GraphOf(WithDeps(draft));
    forall a, b ensures TopoSort.DependsOn(g, a, b) <==> Waits(draft, a, b) { GraphWaits(draft, a, b); }
  }

  lemma DependenciesClosed(draft: Draft)
    requires DistinctIntents(draft.resources)
    ensures TopoSort.Closed(TopoSort.GraphOf(WithDeps(draft)))
  {
    var rs := WithDeps(draft);
    var g := TopoSort.GraphOf(rs);
    DistinctNames(draft);
    forall a | a in g.deps ensures g.deps[a] <= Elements(g.names) {
      var i := TopoSort.GraphAt(rs, a);
      forall b | b in rs[i].deps ensures b in Elements(g.names) {
        WaitedForIsNode(draft, i, b);
      }
    }
  }

  lemma WaitedForIsNode(draft: Draft, i: nat, b: string)
    requires i < |draft.resources| && b in WithDeps(draft)[i].deps
    ensures b in TopoSort.Names(WithDeps(draft))
  {
    DepsAreMentioned(draft, i, b);
    var ri :| ri in draft.resources && ri.Address() == b;
    var j :| 0 <= j < |draft.resources| && draft.resources[j] == ri;
    assert TopoSort.Names(WithDeps(draft))[j] == b;
  }

  /** The sort succeeds exactly when no chain of mentions comes back to its start. */
  lemma OrderExistsIff(draft: Draft)
    requires DistinctIntents(draft.resources)
    ensures TopoSort.Sorted(WithDeps(draft)).Ok? <==> forall p :: !Loops(draft, p)
  {
    DistinctNames(draft);
    DependenciesClosed(draft);
    TopoSort.SortedCorrect(WithDeps(draft));
    forall p ensures TopoSort.IsCycle(TopoSort.GraphOf(WithDeps(draft)), p) <==> Loops(draft, p) {
      CyclesAreLoops(draft, p);
    }
  }

  // -------------------------------------------------------------------- outputs

  /** The i-th resource is the only one of its name. */
  ghost predicate OnlyNamed(rs: seq<DecodedResource>, i: int, slug: string) {
    0 <= i < |rs| && forall j | 0 <= j < |rs| :: rs[j].ri.name.chars == slug <==> j == i
  }

  lemma {:induction false} NoSlug(rs: seq<DecodedResource>, slug: string)
    ensures WithSlug(rs, slug) == [] <==> NoneNamed(rs, slug)
  {
    if rs != [] {
      NoSlug(rs[1..], slug);
      assert forall j | 0 <= j < |rs[1..]| :: rs[1..][j] == rs[j + 1];
      assert forall j | 0 < j < |rs| :: rs[j] == rs[1..][j - 1];
    }
  }

  lemma OnlyNamedFirst(rs: seq<DecodedResource>, slug: string, i: int)
    requires rs != [] && rs[0].ri.name.chars == slug
    ensures OnlyNamed(rs, i, slug) <==> i == 0 && NoneNamed(rs[1..], slug)
  {
    assert forall j | 0 <= j < |rs[1..]| :: rs[1..][j] == rs[j + 1];
    assert forall j | 0 < j < |rs| :: rs[j] == rs[1..][j - 1];
  }

  lemma OnlyNamedLater(rs: seq<DecodedResource>, slug: string, i: int)
    requires rs != [] && rs[0].ri.name.chars != slug
    ensures OnlyNamed(rs, i, slug) <==> OnlyNamed(rs[1..], i - 1, slug)
  {
    assert forall j | 0 <= j < |rs[1..]| :: rs[1..][j] == rs[j + 1];
    assert forall j | 0 < j < |rs| :: rs[j] == rs[1..][j - 1];
  }

  lemma {:induction false} OneSlug(rs: seq<DecodedResource>, slug: string, i: int)
    ensures OnlyNamed(rs, i, slug) ==> WithSlug(rs, slug) == [rs[i]]
  {
    if rs != [] {
      if rs[0].ri.name.chars == slug {
        OnlyNamedFirst(rs, slug, i);
        NoSlug(rs[1..], slug);
      } else {
        OnlyNamedLater(rs, slug, i);
        OneSlug(rs[1..], slug, i - 1);
      }
    }
  }

  lemma {:induction false} SlugIsOne(rs: seq<DecodedResource>, slug: string) returns (i: int)
    requires |WithSlug(rs, slug)| == 1
    ensures OnlyNamed(rs, i, slug)
  {
    if rs[0].ri.name.chars == slug {
      i := 0;
      OnlyNamedFirst(rs, slug, i);
      NoSlug(rs[1..], slug);
    } else {
      i := SlugIsOne(rs[1..], slug);
      i := i + 1;
      OnlyNamedLater(rs, slug, i);
    }
  }

  ghost predicate NoneNamed(rs: seq<DecodedResource>, slug: string) {
    forall j | 0 <= j < |rs| :: rs[j].ri.name.chars != slug
  }

  /** A target is written "<slug>.<attribute>[.<nested>...]", for the only resource of that
      name. */
  ghost predicate TargetWritten(rs: seq<DecodedResource>, target: string, i: int, path: seq<string>) {
    && 0 <= i < |rs| && OnlyNamed(rs, i, rs[i].ri.name.chars) && Dotless(rs[i].ri.name.chars)
    && path != [] && AllDotless(path) && target == rs[i].ri.name.chars + JoinDots(path)
  }

  lemma TargetSplits(rs: seq<DecodedResource>, target: string, i: int, path: seq<string>)
    requires 0 <= i < |rs|
    ensures TargetWritten(rs, target, i, path)
            <==> OnlyNamed(rs, i, rs[i].ri.name.chars) && path != []
                 && SplitDots(target) == [rs[i].ri.name.chars] + path
  {
    var parts := [rs[i].ri.name.chars] + path;
    SplitIff(target, parts);
    assert parts[0] == rs[i].ri.name.chars && parts[1..] == path;
    assert forall k | 0 <= k < |path| :: parts[k + 1] == path[k];
    assert AllDotless(parts) <==> Dotless(rs[i].ri.name.chars) && AllDotless(path);
  }

  /** An output's target resolves to a resource and a path exactly when it is written as
      that resource's name, borne by no other, followed by the path. */
  lemma OutputResolvesIff(rs: seq<DecodedResource>, target: string, t: Target)
    ensures ResolveOutput(rs, target) == Ok(t)
            <==> exists i :: TargetWritten(rs, target, i, t.path) && rs[i].Address() == t.address
  {
    var parts := SplitDots(target);
    if ResolveOutput(rs, target) == Ok(t) {
      var i := SlugIsOne(rs, parts[0]);
      OneSlug(rs, parts[0], i);
      assert parts == [parts[0]] + parts[1..];
      TargetSplits(rs, target, i, t.path);
    }
    if i :| TargetWritten(rs, target, i, t.path) && rs[i].Address() == t.address {
      TargetSplits(rs, target, i, t.path);
      OneSlug(rs, parts[0], i);
      assert parts[1..] == t.path;
    }
  }

  ghost predicate OutputWritten(rs: seq<DecodedResource>, o: Output) {
    exists i, path :: TargetWritten(rs, o.target, i, path)
  }

  lemma OutputWrittenIff(rs: seq<DecodedResource>, o: Output)
    ensures ResolveOutput(rs, o.target).Ok? <==> OutputWritten(rs, o)
  {
    if ResolveOutput(rs, o.target).Ok? {
      OutputResolvesIff(rs, o.target, ResolveOutput(rs, o.target).value);
    }
    if i, path :| TargetWritten(rs, o.target, i, path) {
      OutputResolvesIff(rs, o.target, Target(rs[i].Address(), path));
    }
  }

  /** The outputs as they are declared: in order, under their names, each an attribute of
      the resource its target is written for. */
  ghost predicate OutputsAre(rs: seq<DecodedResource>, outputs: seq<Output>, decoded: seq<DecodedOutput>) {
    |decoded| == |outputs| && forall k | 0 <= k < |outputs| :: OutputIs(rs, outputs[k], decoded[k])
  }

  ghost predicate OutputIs(rs: seq<DecodedResource>, o: Output, d: DecodedOutput) {
    d.name == o.name && exists i :: TargetWritten(rs, o.target, i, d.target.path) && rs[i].Address() == d.target.address
  }

  lemma {:induction false} OutputsInOrder(rs: seq<DecodedResource>, outputs: seq<Output>)
    ensures ResolveOutputs(rs, outputs).Ok? <==> forall o | o in outputs :: OutputWritten(rs, o)
    ensures ResolveOutputs(rs, outputs).Ok? ==> OutputsAre(rs, outputs, ResolveOutputs(rs, outputs).value)
  {
    if outputs != [] {
      var front, last := outputs[..|outputs| - 1], outputs[|outputs| - 1];
      assert outputs == front + [last];
      OutputsInOrder(rs, front);
      OutputWrittenIff(rs, last);
      if ResolveOutput(rs, last.target).Ok? {
        OutputResolvesIff(rs, last.target, ResolveOutput(rs, last.target).value);
      }
    }
  }

  // ----------------------------------------------------------------- the theorem

  /** A resource that may exist many times or not at all is neither mentioned nor an
      output's, and an iterated name has a placeholder for the element or its position. */
  ghost predicate StandsAlone(draft: Draft, outputs: seq<Output>, ri: ResourceIntent) {
    ri.createIf != [] || ri.forEach != "" ==>
      && (forall other | other in draft.resources :: !WaitsFor(draft, other, ri.Address()))
      && (forall o | o in outputs :: !TargetOf(draft, o, ri.Address()))
      && (ri.forEach != "" ==>
            exists t :: t in ri.name.tokens && (t.name == ri.forEach || t.name == ri.forEach + "_index"))
  }

  /** The output is an attribute of the resource at this address. */
  ghost predicate TargetOf(draft: Draft, o: Output, a: string) {
    exists i, path :: TargetWritten(WithDeps(draft), o.target, i, path) && WithDeps(draft)[i].Address() == a
  }

  /** Everything asked of a draft. */
  ghost predicate Acceptable(draft: Draft, params: seq<Param>, outputs: seq<Output>) {
    && WellSorted(draft.resources)
    && (forall ri | ri in draft.resources :: WellWritten(ri, params, outputs))
    && MentionsRefer(draft)
    && (forall p :: !Loops(draft, p))
    && (forall o | o in outputs :: OutputWritten(WithDeps(draft), o))
    && (forall ri | ri in draft.resources :: StandsAlone(draft, outputs, ri))
  }

  lemma MentionedSomewhere(draft: Draft, a: string)
    ensures a in DepsUnion(WithDeps(draft)) <==> exists ri :: ri in draft.resources && WaitsFor(draft, ri, a)
  {
    var rs := WithDeps(draft);
    if a in DepsUnion(rs) {
      var r :| r in rs && a in r.deps;
      var i :| 0 <= i < |rs| && rs[i] == r;
      DepsAreMentioned(draft, i, a);
      assert draft.resources[i] in draft.resources;
    }
    if ri :| ri in draft.resources && WaitsFor(draft, ri, a) {
      var i :| 0 <= i < |rs| && draft.resources[i] == ri;
      DepsAreMentioned(draft, i, a);
      assert rs[i] in rs;
    }
  }

  lemma TargetedSomewhere(draft: Draft, outputs: seq<Output>, a: string)
    requires ResolveOutputs(WithDeps(draft), outputs).Ok?
    ensures a in OutputTargets(ResolveOutputs(WithDeps(draft), outputs).value)
            <==> exists o :: o in outputs && TargetOf(draft, o, a)
  {
    var rs := WithDeps(draft);
    var decoded := ResolveOutputs(rs, outputs).value;
    OutputsInOrder(rs, outputs);
    if a in OutputTargets(decoded) {
      var d :| d in decoded && d.target.address == a;
      var k :| 0 <= k < |decoded| && decoded[k] == d;
      assert OutputIs(rs, outputs[k], decoded[k]) && outputs[k] in outputs;
    }
    if o :| o in outputs && TargetOf(draft, o, a) {
      var k :| 0 <= k < |outputs| && outputs[k] == o;
      assert OutputIs(rs, outputs[k], decoded[k]);
      SameTarget(draft, o, decoded[k], a);
      assert decoded[k] in decoded;
    }
  }

  lemma SameTarget(draft: Draft, o: Output, d: DecodedOutput, a: string)
    requires OutputIs(WithDeps(draft), o, d) && TargetOf(draft, o, a)
    ensures d.target.address == a
  {
    var rs := WithDeps(draft);
    var i, path :| TargetWritten(rs, o.target, i, path) && rs[i].Address() == a;
    OutputResolvesIff(rs, o.target, Target(a, path));
    OutputResolvesIff(rs, o.target, d.target);
  }

  /** What ReferencesAllowed asks of one resource. */
  predicate AloneIn(r: DecodedResource, referenced: set<string>) {
    && (r.ri.createIf != [] ==> r.Address() !in referenced)
    && (r.ri.forEach != "" ==> r.Address() !in referenced && Varies(r.ri))
  }

  lemma AloneIff(draft: Draft, outputs: seq<Output>, i: nat)
    requires i < |draft.resources| && ResolveOutputs(WithDeps(draft), outputs).Ok?
    ensures var rs := WithDeps(draft);
      AloneIn(rs[i], DepsUnion(rs) + OutputTargets(ResolveOutputs(rs, outputs).value))
      <==> StandsAlone(draft, outputs, draft.resources[i])
  {
    var ri := draft.resources[i];
    MentionedSomewhere(draft, ri.Address());
    TargetedSomewhere(draft, outputs, ri.Address());
    VariesIff(ri);
  }

  lemma VariesIff(ri: ResourceIntent)
    ensures Varies(ri)
      <==> exists t :: t in ri.name.tokens && (t.name == ri.forEach || t.name == ri.forEach + "_index")
  {
  }

  lemma AllowedIff(draft: Draft, outputs: seq<Output>)
    requires ResolveOutputs(WithDeps(draft), outputs).Ok?
    ensures var rs := WithDeps(draft);
      ReferencesAllowed(rs, DepsUnion(rs) + OutputTargets(ResolveOutputs(rs, outputs).value))
      <==> forall ri | ri in draft.resources :: StandsAlone(draft, outputs, ri)
  {
    var rs := WithDeps(draft);
    var referenced := DepsUnion(rs) + OutputTargets(ResolveOutputs(rs, outputs).value);
    forall i | 0 <= i < |rs|
      ensures AloneIn(rs[i], referenced) <==> StandsAlone(draft, outputs, draft.resources[i])
    {
      AloneIff(draft, outputs, i);
    }
    assert ReferencesAllowed(rs, referenced) <==> forall i | 0 <= i < |rs| :: AloneIn(rs[i], referenced);
    assert forall i | 0 <= i < |draft.resources| :: draft.resources[i] in draft.resources;
  }

  /** Decoding accepts a draft if and only if it meets every condition. */
  lemma AcceptedIff(draft: Draft, params: seq<Param>, outputs: seq<Output>)
    ensures DecodeBlueprint(draft, params, outputs).Ok? <==> Acceptable(draft, params, outputs)
  {
    ShapeIff(draft, params, outputs);
    ReferencesIff(draft);
    if WellShaped(draft, params, outputs) && ReferencesResolve(draft) {
      FinishedIff(draft, outputs);
    }
  }

  lemma FinishedIff(draft: Draft, outputs: seq<Output>)
    requires DistinctIntents(draft.resources)
    ensures Finished(draft.stack, WithDeps(draft), outputs).Ok? <==>
      && (forall p :: !Loops(draft, p))
      && (forall o | o in outputs :: OutputWritten(WithDeps(draft), o))
      && (forall ri | ri in draft.resources :: StandsAlone(draft, outputs, ri))
  {
    OrderExistsIff(draft);
    OutputsInOrder(WithDeps(draft), outputs);
    if ResolveOutputs(WithDeps(draft), outputs).Ok? {
      AllowedIff(draft, outputs);
    }
  }

  /** What an accepted draft decodes to: each resource with what it mentions, in the order
      the sort promises, and the outputs as declared. */
  lemma AcceptedMeans(draft: Draft, params: seq<Param>, outputs: seq<Output>)
    requires DecodeBlueprint(draft, params, outputs).Ok?
    ensures var bp := DecodeBlueprint(draft, params, outputs).value;
      && bp.stack == draft.stack && |bp.resources| == |draft.resources|
      && (forall i | 0 <= i < |bp.resources| ::
            && bp.resources[i].ri == draft.resources[i]
            && forall a :: a in bp.resources[i].deps <==> WaitsFor(draft, draft.resources[i], a))
      && multiset(bp.order) == multiset(bp.resources)
      && SortOrder.Promised(TopoSort.GraphOf(bp.resources), TopoSort.Names(bp.order))
      && OutputsAre(bp.resources, outputs, bp.outputs)
  {
    var bp := DecodeBlueprint(draft, params, outputs).value;
    AcceptedParts(draft, params, outputs, bp);
    forall i, a | 0 <= i < |bp.resources|
      ensures a in bp.resources[i].deps <==> WaitsFor(draft, draft.resources[i], a)
    {
      DepsAreMentioned(draft, i, a);
    }
    TopoSort.SortedCorrect(bp.resources);
    SortOrder.ResourcesInPromisedOrder(bp.resources);
    OutputsInOrder(bp.resources, outputs);
  }
}
