/** decodeBlueprint as the source runs it: its loops, each against the specification. */
module DecodeLoops {
  import opened Common
  import opened Blueprint
  import opened Decode
  import TopoSort

  // -------------------------------------------------------------------- validation

  method IndexParams(params: seq<Param>) returns (byName: map<string, Param>)
    ensures byName == ParamsByName(params)
  {
    byName := map[];
    for i := 0 to |params|
      invariant byName == ParamsByName(params[..i])
    {
      assert params[..i + 1][..i] == params[..i];
      byName := byName[params[i].name := params[i]];
    }
    assert params[..|params|] == params;
  }

  /** The first loop: only creations, and no address twice. */
  method AcceptResources(ris: seq<ResourceIntent>) returns (ok: bool)
    ensures ok <==> (forall i | 0 <= i < |ris| :: ris[i].isCreate) && DistinctIntents(ris)
  {
    var seen: set<string> := {};
    for i := 0 to |ris|
      invariant forall k | 0 <= k < i :: ris[k].isCreate
      invariant DistinctIntents(ris[..i])
      invariant forall a :: a in seen <==> exists k :: 0 <= k < i && ris[k].Address() == a
    {
      var address := ris[i].Address();
      if !ris[i].isCreate || address in seen {
        return false;
      }
      seen := seen + {address};
    }
    assert ris[..|ris|] == ris;
    return true;
  }

  /** Whether an iterated resource names a declared list parameter. */
  predicate NamesList(ri: ResourceIntent, byName: map<string, Param>) {
    ri.forEach in byName && byName[ri.forEach].ptype.IsList()
  }

  ghost predicate OneLoop(ris: seq<ResourceIntent>) {
    forall i, j | 0 <= i < j < |ris| :: ris[i].forEach == "" || ris[j].forEach == ""
  }

  /** The for_each loop and the two checks after it: at most one iterated resource, over a
      declared list, with no parameter of the index token's name and no outputs. */
  method FindForEach(ris: seq<ResourceIntent>, byName: map<string, Param>, outputs: seq<Output>)
      returns (r: Result<Option<nat>>)
    ensures r.Ok? <==> OneLoop(ris) && forall i | 0 <= i < |ris| :: ValidForEach(ris[i], byName, outputs)
    ensures r.Ok? && r.value.Some? ==> r.value.value < |ris| && ris[r.value.value].forEach != ""
    ensures r.Ok? && r.value.None? ==> forall i | 0 <= i < |ris| :: ris[i].forEach == ""
  {
    var found: Option<nat> := None;
    for i := 0 to |ris|
      invariant found.Some? ==> found.value < i && ris[found.value].forEach != "" && NamesList(ris[found.value], byName)
      invariant forall k | 0 <= k < i && ris[k].forEach != "" :: found == Some(k)
    {
      if ris[i].forEach != "" {
        if found.Some? || !NamesList(ris[i], byName) {
          return Err;
        }
        found := Some(i);
      }
    }
    if found.Some? && (ris[found.value].forEach + "_index" in byName || |outputs| > 0) {
      return Err;
    }
    return Ok(found);
  }

  /** The create_if terms of one resource: named, declared, boolean, and none twice. */
  method CheckCreateIf(ri: ResourceIntent, byName: map<string, Param>) returns (ok: bool)
    ensures ok <==> ValidCreateIf(ri, byName)
  {
    var seen: set<string> := {};
    for i := 0 to |ri.createIf|
      invariant forall k | 0 <= k < i :: ValidTerm(ri.createIf[k], byName)
      invariant forall j, k | 0 <= j < k < i :: TermName(ri.createIf[j]) != TermName(ri.createIf[k])
      invariant forall n :: n in seen <==> exists k :: 0 <= k < i && TermName(ri.createIf[k]) == n
    {
      var name := TermName(ri.createIf[i]);
      if name == "" || name !in byName || !byName[name].ptype.BoolType? || name in seen {
        return false;
      }
      seen := seen + {name};
    }
    return ri.createIf == [] || ri.forEach == "";
  }

  method CheckConditions(ris: seq<ResourceIntent>, byName: map<string, Param>) returns (ok: bool)
    ensures ok <==> forall i | 0 <= i < |ris| :: ValidCreateIf(ris[i], byName)
  {
    for i := 0 to |ris|
      invariant forall k | 0 <= k < i :: ValidCreateIf(ris[k], byName)
    {
      var valid := CheckCreateIf(ris[i], byName);
      if !valid {
        return false;
      }
    }
    return true;
  }

  // -------------------------------------------------------------------- references

  /** The reference loops of decodeFields and decodeBlueprint for one resource: the
      config keys and the addresses of each come out in an arbitrary order. */
  method FillDeps(stack: string, known: set<string>, ri: ResourceIntent) returns (r: Result<set<string>>)
    ensures r == if AllResolve(stack, known, Mentions(ri)) then Ok(TargetsOf(stack, known, Mentions(ri))) else Err
  {
    var addrs: set<string> := {};
    var keys := InSomeOrder(ri.config.Keys);
    for i := 0 to |keys|
      invariant forall a :: a in addrs <==> exists k | k in keys[..i] :: a in CollectRefs(ri.config[k])
    {
      assert keys[..i + 1] == keys[..i] + [keys[i]];
      addrs := addrs + CollectRefs(ri.config[keys[i]]);
    }
    assert keys[..|keys|] == keys;
    assert forall a :: a in addrs <==> exists k | k in ri.config :: a in CollectRefs(ri.config[k]);
    addrs := addrs + Elements(ri.dependsOn);
    assert addrs == Mentions(ri);
    r := ResolveAll(stack, known, addrs);
  }

  /** Resolves every address, collecting the resources they name. */
  method ResolveAll(stack: string, known: set<string>, addrs: set<string>) returns (r: Result<set<string>>)
    ensures r == if AllResolve(stack, known, addrs) then Ok(TargetsOf(stack, known, addrs)) else Err
  {
    var todo := InSomeOrder(addrs);
    var deps: set<string> := {};
    for i := 0 to |todo|
      invariant AllResolve(stack, known, Elements(todo[..i]))
      invariant deps == TargetsOf(stack, known, Elements(todo[..i]))
    {
      var t := ResolveAddress(stack, known, todo[i]);
      assert todo[i] in addrs;
      if t.Err? {
        return Err;
      }
      ElementsAppend(todo[..i], todo[i]);
      assert todo[..i + 1] == todo[..i] + [todo[i]];
      deps := deps + {t.value.address};
    }
    assert todo[..|todo|] == todo;
    return Ok(deps);
  }

  lemma DepsUnionSnoc(rs: seq<DecodedResource>, r: DecodedResource)
    ensures DepsUnion(rs + [r]) == DepsUnion(rs) + r.deps
  {
    assert forall x :: x in rs + [r] <==> x in rs || x == r;
  }

  method FillAllDeps(draft: Draft) returns (r: Result<seq<DecodedResource>>, referenced: set<string>)
    ensures r == if ReferencesResolve(draft) then Ok(WithDeps(draft)) else Err
    ensures r.Ok? ==> referenced == DepsUnion(r.value)
  {
    var known := KnownAddresses(draft.resources);
    var rs: seq<DecodedResource> := [];
    referenced := {};
    for i := 0 to |draft.resources|
      invariant rs == WithDeps(draft)[..i]
      invariant referenced == DepsUnion(rs)
      invariant forall k | 0 <= k < i :: AllResolve(draft.stack, known, Mentions(draft.resources[k]))
    {
      var deps := FillDeps(draft.stack, known, draft.resources[i]);
      if deps.Err? {
        return Err, referenced;
      }
      var dr := DecodedResource(draft.resources[i], deps.value);
      DepsUnionSnoc(rs, dr);
      assert WithDeps(draft)[..i + 1] == WithDeps(draft)[..i] + [dr];
      rs := rs + [dr];
      referenced := referenced + deps.value;
    }
    assert WithDeps(draft)[..|draft.resources|] == WithDeps(draft);
    return Ok(rs), referenced;
  }

  // ----------------------------------------------------------- outputs and last checks

  /** The slug loop of resolveOutputTarget. */
  method ResolveOutputTarget(rs: seq<DecodedResource>, target: string) returns (r: Result<Target>)
    ensures r == ResolveOutput(rs, target)
  {
    var parts := SplitDots(target);
    if |parts| < 2 {
      return Err;
    }
    var found: seq<DecodedResource> := [];
    for i := 0 to |rs|
      invariant found == WithSlug(rs[..i], parts[0]) && |found| <= 1
    {
      WithSlugSnoc(rs, i, parts[0]);
      if rs[i].ri.name.chars == parts[0] {
        if found != [] {
          WithSlugGrows(rs, i + 1, parts[0]);
          return Err;
        }
        found := [rs[i]];
      }
    }
    assert rs[..|rs|] == rs;
    return if found == [] then Err else Ok(Target(found[0].Address(), parts[1..]));
  }

  lemma {:induction false} WithSlugAppend(a: seq<DecodedResource>, b: seq<DecodedResource>, slug: string)
    ensures WithSlug(a + b, slug) == WithSlug(a, slug) + WithSlug(b, slug)
  {
    if a == [] {
      assert a + b == b;
    } else {
      WithSlugAppend(a[1..], b, slug);
      assert (a + b)[1..] == a[1..] + b;
    }
  }

  lemma WithSlugSnoc(rs: seq<DecodedResource>, i: nat, slug: string)
    requires i < |rs|
    ensures WithSlug(rs[..i + 1], slug) == WithSlug(rs[..i], slug) + if rs[i].ri.name.chars == slug then [rs[i]] else []
  {
    assert rs[..i + 1] == rs[..i] + [rs[i]];
    WithSlugAppend(rs[..i], [rs[i]], slug);
    assert [rs[i]][1..] == [];
  }

  lemma WithSlugGrows(rs: seq<DecodedResource>, n: nat, slug: string)
    requires n <= |rs|
    ensures |WithSlug(rs[..n], slug)| <= |WithSlug(rs, slug)|
  {
    assert rs == rs[..n] + rs[n..];
    WithSlugAppend(rs[..n], rs[n..], slug);
  }

  /** The output loop, and the resources it adds to the referenced ones. */
  method ResolveDeclaredOutputs(rs: seq<DecodedResource>, outputs: seq<Output>)
      returns (r: Result<seq<DecodedOutput>>, targets: set<string>)
    ensures r == ResolveOutputs(rs, outputs)
    ensures r.Ok? ==> targets == OutputTargets(r.value)
  {
    var decoded: seq<DecodedOutput> := [];
    targets := {};
    for i := 0 to |outputs|
      invariant ResolveOutputs(rs, outputs[..i]) == Ok(decoded) && targets == OutputTargets(decoded)
    {
      assert outputs[..i + 1][..i] == outputs[..i];
      var t := ResolveOutputTarget(rs, outputs[i].target);
      if t.Err? {
        OutputsFail(rs, outputs, i + 1);
        return Err, targets;
      }
      var o := DecodedOutput(outputs[i].name, t.value);
      assert OutputTargets(decoded + [o]) == OutputTargets(decoded) + {t.value.address};
      targets := targets + {t.value.address};
      decoded := decoded + [o];
    }
    assert outputs[..|outputs|] == outputs;
    return Ok(decoded), targets;
  }

  lemma {:induction false} OutputsFail(rs: seq<DecodedResource>, outputs: seq<Output>, n: nat)
    requires n <= |outputs| && ResolveOutputs(rs, outputs[..n]).Err?
    ensures ResolveOutputs(rs, outputs).Err?
    decreases |outputs|
  {
    if n == |outputs| {
      assert outputs[..n] == outputs;
    } else {
      var front := outputs[..|outputs| - 1];
      assert front[..n] == outputs[..n];
      OutputsFail(rs, front, n);
    }
  }

  /** The checks on the finished reference set: the iterated resource first, then the
      conditional ones, then whether the iterated name varies. */
  method CheckReferences(rs: seq<DecodedResource>, referenced: set<string>, loop: Option<nat>) returns (ok: bool)
    requires IsLoop(rs, loop)
    ensures ok <==> ReferencesAllowed(rs, referenced)
  {
    if loop.Some? && rs[loop.value].Address() in referenced {
      return false;
    }
    for i := 0 to |rs|
      invariant forall k | 0 <= k < i :: rs[k].ri.createIf != [] ==> rs[k].Address() !in referenced
    {
      if rs[i].ri.createIf != [] && rs[i].Address() in referenced {
        return false;
      }
    }
    if loop.Some? {
      var varies := NameVaries(rs[loop.value].ri);
      return varies;
    }
    return true;
  }

  method NameVaries(ri: ResourceIntent) returns (varies: bool)
    ensures varies <==> Varies(ri)
  {
    for k := 0 to |ri.name.tokens|
      invariant forall j | 0 <= j < k ::
                  ri.name.tokens[j].name != ri.forEach && ri.name.tokens[j].name != ri.forEach + "_index"
    {
      if ri.name.tokens[k].name == ri.forEach || ri.name.tokens[k].name == ri.forEach + "_index" {
        return true;
      }
    }
    return false;
  }

  lemma {:induction false} ForEachIs(rs: seq<DecodedResource>, n: nat)
    requires n < |rs| && rs[n].ri.forEach != "" && forall i | 0 <= i < n :: rs[i].ri.forEach == ""
    ensures ForEachOf(rs) == Some(rs[n])
  {
    if n > 0 {
      ForEachIs(rs[1..], n - 1);
    }
  }

  // ----------------------------------------------------------------- decodeBlueprint

  /** The three validation loops. */
  method Validate(draft: Draft, params: seq<Param>, outputs: seq<Output>) returns (r: Result<Option<nat>>)
    ensures r.Ok? <==> WellShaped(draft, params, outputs)
    ensures r.Ok? && r.value.Some? ==> r.value.value < |draft.resources| && draft.resources[r.value.value].forEach != ""
    ensures r.Ok? && r.value.None? ==> forall i | 0 <= i < |draft.resources| :: draft.resources[i].forEach == ""
  {
    var byName := IndexParams(params);
    var accepted := AcceptResources(draft.resources);
    if !accepted {
      return Err;
    }
    r := FindForEach(draft.resources, byName, outputs);
    if r.Err? {
      return;
    }
    var valid := CheckConditions(draft.resources, byName);
    if !valid {
      return Err;
    }
  }

  /** Which resource, if any, the validation found to be the iterated one. */
  ghost predicate IsLoop(rs: seq<DecodedResource>, loop: Option<nat>) {
    match loop
    case Some(n) => n < |rs| && rs[n].ri.forEach != "" && forall i | 0 <= i < |rs| && i != n :: rs[i].ri.forEach == ""
    case None => forall i | 0 <= i < |rs| :: rs[i].ri.forEach == ""
  }

  /** What is left once the resources are known: the order, the outputs, the last checks. */
  method Finish(stack: string, rs: seq<DecodedResource>, deps: set<string>, outputs: seq<Output>, loop: Option<nat>)
      returns (r: Result<Decoded>)
    requires NoDuplicates(TopoSort.Names(rs)) && IsLoop(rs, loop) && deps == DepsUnion(rs)
    ensures r == Finished(stack, rs, outputs)
  {
    var order := TopoSort.TopoSortResources(rs);
    if order.Err? {
      return Err;
    }
    var outs, targets := ResolveDeclaredOutputs(rs, outputs);
    if outs.Err? {
      return Err;
    }
    var allowed := CheckReferences(rs, deps + targets, loop);
    if !allowed {
      return Err;
    }
    if loop.Some? {
      ForEachIs(rs, loop.value);
    }
    var forEach := if loop.Some? then Some(rs[loop.value]) else None;
    return Ok(Decoded(stack, rs, order.value, deps + targets, outs.value, forEach));
  }

  lemma DraftNames(draft: Draft)
    requires DistinctIntents(draft.resources)
    ensures NoDuplicates(TopoSort.Names(WithDeps(draft)))
  {
  }

  /** decodeBlueprint. */
  method DecodeDraft(draft: Draft, params: seq<Param>, outputs: seq<Output>) returns (r: Result<Decoded>)
    ensures r == DecodeBlueprint(draft, params, outputs)
  {
    var loop := Validate(draft, params, outputs);
    if loop.Err? {
      return Err;
    }
    var rs, deps := FillAllDeps(draft);
    if rs.Err? {
      return Err;
    }
    DraftNames(draft);
    r := Finish(draft.stack, rs.value, deps, outputs, loop.value);
  }
}
