/** decodeBlueprint: a resolved draft is validated, its references are resolved, and
    its resources are put in dependency order. */
module Decode {
  import opened Common
  import opened Blueprint
  import TopoSort

  datatype ParamType = StringType | NumberType | BoolType | ListStringType | ListNumberType | CrossRefType {
    predicate IsList() { ListStringType? || ListNumberType? }
  }

  datatype Param = Param(name: string, ptype: ParamType, required: bool)

  datatype Output = Output(name: string, target: string)

  datatype Draft = Draft(stack: string, resources: seq<ResourceIntent>)

  /** A resolved address: one of the blueprint's own resources, and a path into it. */
  datatype Target = Target(address: string, path: seq<string>)

  datatype DecodedOutput = DecodedOutput(name: string, target: Target)

  datatype Decoded = Decoded(
    stack: string,
    resources: seq<DecodedResource>,
    order: seq<DecodedResource>,
    referenced: set<string>,
    outputs: seq<DecodedOutput>,
    forEach: Option<DecodedResource>)
  {
    function Known(): set<string> { set r | r in resources :: r.Address() }
  }

  // ---------------------------------------------------------------- addresses

  function FirstDot(s: string): (k: nat)
    ensures k <= |s| && (k < |s| ==> s[k] == '.')
  {
    if s == [] || s[0] == '.' then 0 else 1 + FirstDot(s[1..])
  }

  /** strings.Split at dots. */
  function SplitDots(s: string): (parts: seq<string>)
    ensures parts != []
  {
    var k := FirstDot(s);
    if k < |s| then [s[..k]] + SplitDots(s[k + 1..]) else [s]
  }

  function JoinDots(parts: seq<string>): string {
    if parts == [] then [] else "." + parts[0] + JoinDots(parts[1..])
  }

  /** resolveAddress: "<stack>.<type>.<name>[.<path>...]" against the known resources. */
  function ResolveAddress(stack: string, known: set<string>, addr: string): (r: Result<Target>)
    ensures r.Ok? ==> r.value.address in known
  {
    var parts := SplitDots(addr);
    if |parts| < 3 then Err
    else if parts[0] != stack then Err
    else if parts[1] + "." + parts[2] !in known then Err
    else Ok(Target(parts[1] + "." + parts[2], parts[3..]))
  }

  // --------------------------------------------------------------- references

  /** refTarget: exactly a {"$ref": {"to": "..."}} marker. */
  function RefTarget(j: Json): Option<string> {
    if j.Obj? && |j.fields| == 1 && "$ref" in j.fields && j.fields["$ref"].Obj?
       && "to" in j.fields["$ref"].fields && j.fields["$ref"].fields["to"].Str?
    then Some(j.fields["$ref"].fields["to"].text.chars)
    else None
  }

  predicate ContainsRefMarker(j: Json) {
    match j
    case Obj(fields) => RefTarget(j).Some? || exists k | k in fields :: ContainsRefMarker(fields[k])
    case Arr(items) => exists i | 0 <= i < |items| :: ContainsRefMarker(items[i])
    case _ => false
  }

  /** collectRefs: every reference address in a value, at any depth and inside strings
      that are JSON text themselves.  A set, because only membership is ever used. */
  function CollectRefs(j: Json): set<string> {
    match j
    case Obj(fields) =>
      if RefTarget(j).Some? then {RefTarget(j).value}
      else set k, a | k in fields && a in CollectRefs(fields[k]) :: a
    case Arr(items) => set i, a | 0 <= i < |items| && a in CollectRefs(items[i]) :: a
    case Str(t) =>
      if t.decoded.Some? && ContainsRefMarker(t.decoded.value) then CollectRefs(t.decoded.value) else {}
    case _ => {}
  }

  /** Every address one resource names, in its config or in depends_on. */
  function Mentions(ri: ResourceIntent): set<string> {
    (set k, a | k in ri.config && a in CollectRefs(ri.config[k]) :: a) + Elements(ri.dependsOn)
  }

  function TargetsOf(stack: string, known: set<string>, addrs: set<string>): set<string> {
    set a | a in addrs && ResolveAddress(stack, known, a).Ok? :: ResolveAddress(stack, known, a).value.address
  }

  predicate AllResolve(stack: string, known: set<string>, addrs: set<string>) {
    forall a | a in addrs :: ResolveAddress(stack, known, a).Ok?
  }

  // --------------------------------------------------------------- validation

  function ParamsByName(params: seq<Param>): (m: map<string, Param>)
    ensures forall n | n in m :: m[n] in params && m[n].name == n
    ensures forall p | p in params :: p.name in m
  {
    if params == [] then map[]
    else
      var last := params[|params| - 1];
      assert params == params[..|params| - 1] + [last];
      ParamsByName(params[..|params| - 1])[last.name := last]
  }

  /** parseCreateIfTerm. */
  function TermName(term: string): string { if term != [] && term[0] == '!' then term[1..] else term }

  predicate TermNegated(term: string) { term != [] && term[0] == '!' }

  predicate ValidTerm(term: string, params: map<string, Param>) {
    TermName(term) != "" && TermName(term) in params && params[TermName(term)].ptype.BoolType?
  }

  predicate ValidCreateIf(ri: ResourceIntent, params: map<string, Param>) {
    && (forall i | 0 <= i < |ri.createIf| :: ValidTerm(ri.createIf[i], params))
    && (forall i, j | 0 <= i < j < |ri.createIf| :: TermName(ri.createIf[i]) != TermName(ri.createIf[j]))
    && (ri.createIf != [] ==> ri.forEach == "")
  }

  predicate ValidForEach(ri: ResourceIntent, params: map<string, Param>, outputs: seq<Output>) {
    ri.forEach != "" ==>
      && ri.forEach in params && params[ri.forEach].ptype.IsList()
      && ri.forEach + "_index" !in params
      && outputs == []
  }

  predicate DistinctIntents(ris: seq<ResourceIntent>) {
    forall i, j | 0 <= i < j < |ris| :: ris[i].Address() != ris[j].Address()
  }

  /** Everything decodeBlueprint checks before it looks at references. */
  predicate WellShaped(draft: Draft, params: seq<Param>, outputs: seq<Output>) {
    var byName := ParamsByName(params);
    && (forall i | 0 <= i < |draft.resources| ::
          && draft.resources[i].isCreate
          && ValidForEach(draft.resources[i], byName, outputs)
          && ValidCreateIf(draft.resources[i], byName))
    && DistinctIntents(draft.resources)
    && (forall i, j | 0 <= i < j < |draft.resources| ::
         draft.resources[i].forEach == "" || draft.resources[j].forEach == "")
  }

  function KnownAddresses(ris: seq<ResourceIntent>): set<string> { set ri | ri in ris :: ri.Address() }

  function WithDeps(draft: Draft): (rs: seq<DecodedResource>)
    ensures |rs| == |draft.resources|
    ensures forall i | 0 <= i < |rs| :: rs[i].ri == draft.resources[i]
  {
    var known := KnownAddresses(draft.resources);
    seq(|draft.resources|, i requires 0 <= i < |draft.resources| =>
      DecodedResource(draft.resources[i], TargetsOf(draft.stack, known, Mentions(draft.resources[i]))))
  }

  predicate ReferencesResolve(draft: Draft) {
    var known := KnownAddresses(draft.resources);
    forall i | 0 <= i < |draft.resources| :: AllResolve(draft.stack, known, Mentions(draft.resources[i]))
  }

  function DepsUnion(rs: seq<DecodedResource>): set<string> {
    set r, d | r in rs && d in r.deps :: d
  }

  function WithSlug(rs: seq<DecodedResource>, slug: string): seq<DecodedResource> {
    if rs == [] then []
    else if rs[0].ri.name.chars == slug then [rs[0]] + WithSlug(rs[1..], slug)
    else WithSlug(rs[1..], slug)
  }

  lemma {:induction false} WithSlugMember(rs: seq<DecodedResource>, slug: string)
    ensures forall r :: r in WithSlug(rs, slug) <==> r in rs && r.ri.name.chars == slug
  {
    if rs != [] {
      WithSlugMember(rs[1..], slug);
      assert rs == [rs[0]] + rs[1..];
    }
  }

  /** resolveOutputTarget: the one resource with the slug, and the path after it. */
  function ResolveOutput(rs: seq<DecodedResource>, target: string): Result<Target> {
    var parts := SplitDots(target);
    if |parts| < 2 then Err
    else
      var found := WithSlug(rs, parts[0]);
      if |found| == 1 then Ok(Target(found[0].Address(), parts[1..])) else Err
  }

  function ResolveOutputs(rs: seq<DecodedResource>, outputs: seq<Output>): Result<seq<DecodedOutput>> {
    if outputs == [] then Ok([])
    else
      match ResolveOutputs(rs, outputs[..|outputs| - 1])
      case Err => Err
      case Ok(front) =>
        var o := outputs[|outputs| - 1];
        match ResolveOutput(rs, o.target)
        case Err => Err
        case Ok(t) => Ok(front + [DecodedOutput(o.name, t)])
  }

  function OutputTargets(outputs: seq<DecodedOutput>): set<string> {
    set o | o in outputs :: o.target.address
  }

  function ForEachOf(rs: seq<DecodedResource>): (r: Option<DecodedResource>)
    ensures r.Some? ==> r.value in rs && r.value.ri.forEach != ""
    ensures r.None? ==> forall x | x in rs :: x.ri.forEach == ""
  {
    if rs == [] then None
    else if rs[0].ri.forEach != "" then Some(rs[0])
    else ForEachOf(rs[1..])
  }

  /** The checks that need the whole reference graph: what may not exist exactly once
      may not be referenced, and an iterated name must vary. */
  predicate ReferencesAllowed(rs: seq<DecodedResource>, referenced: set<string>) {
    forall i | 0 <= i < |rs| ::
      && (rs[i].ri.createIf != [] ==> rs[i].Address() !in referenced)
      && (rs[i].ri.forEach != "" ==> rs[i].Address() !in referenced && Varies(rs[i].ri))
  }

  /** The name of an iterated resource names its element or its position. */
  predicate Varies(ri: ResourceIntent) {
    exists k | 0 <= k < |ri.name.tokens| ::
      ri.name.tokens[k].name == ri.forEach || ri.name.tokens[k].name == ri.forEach + "_index"
  }

  /** What follows once the resources and their dependencies are known. */
  function Finished(stack: string, rs: seq<DecodedResource>, outputs: seq<Output>): Result<Decoded> {
    match TopoSort.Sorted(rs)
    case Err => Err
    case Ok(order) =>
      match ResolveOutputs(rs, outputs)
      case Err => Err
      case Ok(outs) =>
        var referenced := DepsUnion(rs) + OutputTargets(outs);
        if ReferencesAllowed(rs, referenced)
        then Ok(Decoded(stack, rs, order, referenced, outs, ForEachOf(rs)))
        else Err
  }

  /** decodeBlueprint as a function of the draft. */
  function DecodeBlueprint(draft: Draft, params: seq<Param>, outputs: seq<Output>): Result<Decoded> {
    if !WellShaped(draft, params, outputs) || !ReferencesResolve(draft) then Err
    else Finished(draft.stack, WithDeps(draft), outputs)
  }
}
