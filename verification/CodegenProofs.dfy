/** What acceptance guarantees about the order of statements and the locals they read.

    An accepted blueprint lists each resource after all it depends on.  What rendering
    reads is what decoding collected, save for addresses that only the regular expression
    captures; so reads are in order exactly when those captures are.  A text with a marker
    inside a marker shows that the two sets differ. */
module CodegenProofs {
  import opened Common
  import opened Blueprint
  import opened Decode
  import opened Codegen
  import Splice
  import TopoSort

  // -------------------------------------------------- what rendering a value reads

  function CapturedTexts(t: Text): set<string> {
    set m | m in t.refs :: Splice.Slice(t.chars, m.addrStart, m.addrEnd)
  }

  function CapturedTargets(bp: Decoded, t: Text): set<string> {
    if IsEmbedded(t) then TargetsOf(bp.stack, bp.Known(), CapturedTexts(t)) else {}
  }

  /** The resources whose local variable the code for j reads. */
  function Reads(bp: Decoded, j: Json): set<string> {
    match j
    case Str(t) => CapturedTargets(bp, t)
    case Arr(items) => set i, a | 0 <= i < |items| && a in Reads(bp, items[i]) :: a
    case Obj(fields) =>
      if RefTarget(j).Some? then TargetsOf(bp.stack, bp.Known(), {RefTarget(j).value})
      else if FnMarker(j).Some? then
        var args := FnMarker(j).value.1;
        set i, a | 0 <= i < |args| && a in Reads(bp, args[i]) :: a
      else set k, a | k in fields && a in Reads(bp, fields[k]) :: a
    case _ => {}
  }

  /** Of those, the ones read because a regular expression captured their address in a
      string, rather than because the decoded value holds a marker. */
  function Captures(bp: Decoded, j: Json): set<string> {
    match j
    case Str(t) => CapturedTargets(bp, t)
    case Arr(items) => set i, a | 0 <= i < |items| && a in Captures(bp, items[i]) :: a
    case Obj(fields) =>
      if RefTarget(j).Some? then {}
      else if FnMarker(j).Some? then
        var args := FnMarker(j).value.1;
        set i, a | 0 <= i < |args| && a in Captures(bp, args[i]) :: a
      else set k, a | k in fields && a in Captures(bp, fields[k]) :: a
    case _ => {}
  }

  function NameCaptures(bp: Decoded, dr: DecodedResource): set<string> {
    if dr.ri.forEach != "" then CapturedTargets(bp, dr.ri.name) else {}
  }

  function ReadsOf(bp: Decoded, dr: DecodedResource): set<string> {
    (set k, a | k in dr.ri.config && a in Reads(bp, dr.ri.config[k]) :: a) + NameCaptures(bp, dr)
  }

  function CapturesOf(bp: Decoded, dr: DecodedResource): set<string> {
    (set k, a | k in dr.ri.config && a in Captures(bp, dr.ri.config[k]) :: a) + NameCaptures(bp, dr)
  }

  /** Resources bound to a local by one of the first n statements. */
  function Bound(bp: Decoded, n: nat): set<string>
    requires n <= |bp.order|
  {
    set i | 0 <= i < n && bp.order[i].Address() in bp.referenced :: bp.order[i].Address()
  }

  /** Every statement reads only locals bound before it. */
  ghost predicate ReadsBound(bp: Decoded) {
    forall i | 0 <= i < |bp.order| :: ReadsOf(bp, bp.order[i]) <= Bound(bp, i)
  }

  ghost predicate CapturesBound(bp: Decoded) {
    forall i | 0 <= i < |bp.order| :: CapturesOf(bp, bp.order[i]) <= Bound(bp, i)
  }

  /** Whatever rendering reads was collected while decoding, except what only the
      regular expression sees. */
  lemma {:induction false} ReadsAreCollected(bp: Decoded, j: Json)
    ensures Reads(bp, j) <= TargetsOf(bp.stack, bp.Known(), CollectRefs(j)) + Captures(bp, j)
    ensures Captures(bp, j) <= Reads(bp, j)
  {
    match j
    case Arr(items) =>
      forall i | 0 <= i < |items|
        ensures Captures(bp, items[i]) <= Reads(bp, items[i])
        ensures Reads(bp, items[i]) <= TargetsOf(bp.stack, bp.Known(), CollectRefs(j)) + Captures(bp, items[i])
      {
        ReadsAreCollected(bp, items[i]);
      }
    case Obj(fields) =>
      if RefTarget(j).Some? {
      } else if FnMarker(j).Some? {
        var args := FnMarker(j).value.1;
        forall i | 0 <= i < |args|
          ensures Captures(bp, args[i]) <= Reads(bp, args[i])
          ensures Reads(bp, args[i]) <= TargetsOf(bp.stack, bp.Known(), CollectRefs(j)) + Captures(bp, args[i])
        {
          ReadsAreCollected(bp, args[i]);
          FnArgsCollected(j, i);
        }
      } else {
        forall k | k in fields
          ensures Captures(bp, fields[k]) <= Reads(bp, fields[k])
          ensures Reads(bp, fields[k]) <= TargetsOf(bp.stack, bp.Known(), CollectRefs(j)) + Captures(bp, fields[k])
        {
          ReadsAreCollected(bp, fields[k]);
        }
      }
    case _ =>
  }

  /** The resources whose references the code does not read, though decoding collected them:
      those a text names outside the matches of the regular expression, and those beside
      the arguments of a ported function. */
  function Missed(bp: Decoded, j: Json): set<string> {
    match j
    case Str(t) => TargetsOf(bp.stack, bp.Known(), CollectRefs(j)) - CapturedTargets(bp, t)
    case Arr(items) => set i, a | 0 <= i < |items| && a in Missed(bp, items[i]) :: a
    case Obj(fields) =>
      if RefTarget(j).Some? then {}
      else if FnMarker(j).Some? then
        var args := FnMarker(j).value.1;
        (set i, a | 0 <= i < |args| && a in Missed(bp, args[i]) :: a)
        + (TargetsOf(bp.stack, bp.Known(), CollectRefs(j)) - TargetsOf(bp.stack, bp.Known(), CollectRefs(Arr(args))))
      else set k, a | k in fields && a in Missed(bp, fields[k]) :: a
    case _ => {}
  }

  lemma CollectedInItems(bp: Decoded, items: seq<Json>, a: string) returns (i: nat)
    requires a in TargetsOf(bp.stack, bp.Known(), CollectRefs(Arr(items)))
    ensures i < |items| && a in TargetsOf(bp.stack, bp.Known(), CollectRefs(items[i]))
  {
    var t :| t in CollectRefs(Arr(items)) && ResolveAddress(bp.stack, bp.Known(), t).Ok?
             && ResolveAddress(bp.stack, bp.Known(), t).value.address == a;
    i :| 0 <= i < |items| && t in CollectRefs(items[i]);
  }

  lemma CollectedInFields(bp: Decoded, j: Json, a: string) returns (k: string)
    requires j.Obj? && RefTarget(j).None? && a in TargetsOf(bp.stack, bp.Known(), CollectRefs(j))
    ensures k in j.fields && a in TargetsOf(bp.stack, bp.Known(), CollectRefs(j.fields[k]))
  {
    var t :| t in CollectRefs(j) && ResolveAddress(bp.stack, bp.Known(), t).Ok?
             && ResolveAddress(bp.stack, bp.Known(), t).value.address == a;
    k :| k in j.fields && t in CollectRefs(j.fields[k]);
  }

  /** Every reference decoding collects is read by the code, or missed. */
  lemma {:induction false} CollectedIsReadOrMissed(bp: Decoded, j: Json, a: string)
    requires a in TargetsOf(bp.stack, bp.Known(), CollectRefs(j))
    ensures a in Reads(bp, j) || a in Missed(bp, j)
    decreases j
  {
    match j
    case Arr(items) =>
      var i := CollectedInItems(bp, items, a);
      CollectedIsReadOrMissed(bp, items[i], a);
    case Obj(fields) =>
      if RefTarget(j).None? && FnMarker(j).Some? {
        var args := FnMarker(j).value.1;
        assert args == fields["$fn"].fields["args"].items;
        if a in TargetsOf(bp.stack, bp.Known(), CollectRefs(Arr(args))) {
          var i := CollectedInItems(bp, args, a);
          CollectedIsReadOrMissed(bp, args[i], a);
        }
      } else if RefTarget(j).None? {
        var k := CollectedInFields(bp, j, a);
        CollectedIsReadOrMissed(bp, fields[k], a);
      }
    case _ =>
  }

  lemma TargetsGrow(stack: string, known: set<string>, a: set<string>, b: set<string>)
    requires a <= b
    ensures TargetsOf(stack, known, a) <= TargetsOf(stack, known, b)
  {
  }

  lemma {:induction false} MissedIsCollected(bp: Decoded, j: Json)
    ensures Missed(bp, j) <= TargetsOf(bp.stack, bp.Known(), CollectRefs(j))
    decreases j
  {
    match j
    case Arr(items) =>
      forall i | 0 <= i < |items| ensures Missed(bp, items[i]) <= TargetsOf(bp.stack, bp.Known(), CollectRefs(j)) {
        MissedIsCollected(bp, items[i]);
        TargetsGrow(bp.stack, bp.Known(), CollectRefs(items[i]), CollectRefs(j));
      }
    case Obj(fields) =>
      if RefTarget(j).None? && FnMarker(j).Some? {
        var args := FnMarker(j).value.1;
        assert args == fields["$fn"].fields["args"].items;
        forall i | 0 <= i < |args| ensures Missed(bp, args[i]) <= TargetsOf(bp.stack, bp.Known(), CollectRefs(j)) {
          MissedIsCollected(bp, args[i]);
          FnArgsCollected(j, i);
          TargetsGrow(bp.stack, bp.Known(), CollectRefs(args[i]), CollectRefs(j));
        }
      } else if RefTarget(j).None? {
        forall k | k in fields ensures Missed(bp, fields[k]) <= TargetsOf(bp.stack, bp.Known(), CollectRefs(j)) {
          MissedIsCollected(bp, fields[k]);
          TargetsGrow(bp.stack, bp.Known(), CollectRefs(fields[k]), CollectRefs(j));
        }
      }
    case _ =>
  }

  /** The other half: the code reads every reference decoding collected if and only if it
      reads, elsewhere in the value, those it missed. */
  lemma CollectedAreReadIff(bp: Decoded, j: Json)
    ensures TargetsOf(bp.stack, bp.Known(), CollectRefs(j)) <= Reads(bp, j) <==> Missed(bp, j) <= Reads(bp, j)
  {
    MissedIsCollected(bp, j);
    forall a | a in TargetsOf(bp.stack, bp.Known(), CollectRefs(j)) ensures a in Reads(bp, j) || a in Missed(bp, j) {
      CollectedIsReadOrMissed(bp, j, a);
    }
  }

  lemma FnArgsCollected(j: Json, i: nat)
    requires RefTarget(j).None? && FnMarker(j).Some? && i < |FnMarker(j).value.1|
    ensures CollectRefs(FnMarker(j).value.1[i]) <= CollectRefs(j)
  {
    var inner := j.fields["$fn"];
    var args := inner.fields["args"];
    assert CollectRefs(args.items[i]) <= CollectRefs(args);
    assert RefTarget(inner).None? by {
      assert {"name", "args"} <= inner.fields.Keys;
      SubsetCardinality({"name", "args"}, inner.fields.Keys);
    }
    assert CollectRefs(args) <= CollectRefs(inner);
    assert CollectRefs(inner) <= CollectRefs(j);
  }

  // ------------------------------------------------ scoping, before any execution

  /** What acceptance guarantees about the order: dependencies come first, they are
      referenced, and referenced resources exist exactly once. */
  ghost predicate Sound(bp: Decoded) {
    && multiset(bp.order) == multiset(bp.resources)
    && NoDuplicates(TopoSort.Names(bp.order))
    && (forall i | 0 <= i < |bp.order| :: bp.order[i].deps <= Bound(bp, i))
    && (forall i | 0 <= i < |bp.order| :: SoundResource(bp, bp.order[i]))
    && bp.forEach == ForEachOf(bp.resources)
    && (forall i, j | 0 <= i < j < |bp.order| :: bp.order[i].ri.forEach == "" || bp.order[j].ri.forEach == "")
    && (forall i | 0 <= i < |bp.outputs| ::
         bp.outputs[i].target.address in bp.referenced && bp.outputs[i].target.address in bp.Known())
  }

  ghost predicate SoundResource(bp: Decoded, r: DecodedResource) {
    && (r.ri.createIf != [] || r.ri.forEach != "" ==> r.Address() !in bp.referenced)
    && (r.ri.createIf != [] ==> r.ri.forEach == "")
    && r.deps == TargetsOf(bp.stack, bp.Known(), Mentions(r.ri))
  }

  lemma AcceptedIsSound(draft: Draft, params: seq<Param>, outputs: seq<Output>)
    requires DecodeBlueprint(draft, params, outputs).Ok?
    ensures Sound(DecodeBlueprint(draft, params, outputs).value)
  {
    var bp := DecodeBlueprint(draft, params, outputs).value;
    AcceptedParts(draft, params, outputs, bp);
    AcceptedOrder(bp);
    ResourcesSound(draft, params, outputs, bp);
    LoopsAreOne(draft, params, outputs, bp);
    AcceptedOutputs(bp, outputs);
  }

  lemma AcceptedParts(draft: Draft, params: seq<Param>, outputs: seq<Output>, bp: Decoded)
    requires DecodeBlueprint(draft, params, outputs) == Ok(bp)
    ensures WellShaped(draft, params, outputs) && bp.stack == draft.stack && bp.resources == WithDeps(draft)
    ensures NoDuplicates(TopoSort.Names(bp.resources)) && TopoSort.Sorted(bp.resources) == Ok(bp.order)
    ensures ResolveOutputs(bp.resources, outputs) == Ok(bp.outputs)
    ensures bp.referenced == DepsUnion(bp.resources) + OutputTargets(bp.outputs)
    ensures ReferencesAllowed(bp.resources, bp.referenced) && bp.forEach == ForEachOf(bp.resources)
  {
    WellShapedNames(draft, params, outputs);
  }

  lemma WellShapedNames(draft: Draft, params: seq<Param>, outputs: seq<Output>)
    requires WellShaped(draft, params, outputs)
    ensures NoDuplicates(TopoSort.Names(WithDeps(draft)))
  {
    var names := TopoSort.Names(WithDeps(draft));
    forall i, j | 0 <= i < j < |names| ensures names[i] != names[j] {
      assert draft.resources[i].Address() != draft.resources[j].Address();
    }
  }

  lemma AcceptedOrder(bp: Decoded)
    requires NoDuplicates(TopoSort.Names(bp.resources)) && TopoSort.Sorted(bp.resources) == Ok(bp.order)
    requires DepsUnion(bp.resources) <= bp.referenced
    ensures multiset(bp.order) == multiset(bp.resources)
    ensures NoDuplicates(TopoSort.Names(bp.order))
    ensures forall i | 0 <= i < |bp.order| :: bp.order[i].deps <= Bound(bp, i)
  {
    TopoSort.SortedCorrect(bp.resources);
    SamePermutation(bp.order, bp.resources);
  }

  lemma AcceptedOutputs(bp: Decoded, outputs: seq<Output>)
    requires ResolveOutputs(bp.resources, outputs) == Ok(bp.outputs) && OutputTargets(bp.outputs) <= bp.referenced
    ensures forall i | 0 <= i < |bp.outputs| ::
              bp.outputs[i].target.address in bp.referenced && bp.outputs[i].target.address in bp.Known()
  {
    OutputsKnown(bp.resources, outputs);
    forall i | 0 <= i < |bp.outputs|
      ensures bp.outputs[i].target.address in bp.referenced && bp.outputs[i].target.address in bp.Known()
    {
      assert bp.outputs[i] in bp.outputs;
    }
  }

  lemma SamePermutation(a: seq<DecodedResource>, b: seq<DecodedResource>)
    requires multiset(a) == multiset(b) && NoDuplicates(TopoSort.Names(b))
    ensures NoDuplicates(TopoSort.Names(a))
    ensures forall r :: r in a <==> r in b
  {
    SameMembers(a, b);
    TopoSort.NoDuplicatesFromNames(b);
    forall r ensures multiset(a)[r] <= 1 { TopoSort.AtMostOnce(b, r); }
    TopoSort.DistinctFromMultiset(a);
    forall i, j | 0 <= i < j < |a| ensures a[i].Address() != a[j].Address() {
      if a[i].Address() == a[j].Address() {
        TopoSort.SameAddressSameResource(b, a[i], a[j]);
      }
    }
  }

  lemma ResourceSoundAt(draft: Draft, params: seq<Param>, outputs: seq<Output>, bp: Decoded, k: nat)
    requires WellShaped(draft, params, outputs) && bp.stack == draft.stack && bp.resources == WithDeps(draft)
    requires ReferencesAllowed(bp.resources, bp.referenced) && k < |bp.resources|
    ensures SoundResource(bp, bp.resources[k])
  {
    KnownMatches(draft);
    assert ValidCreateIf(draft.resources[k], ParamsByName(params));
    assert bp.resources[k] in bp.resources;
  }

  /** Where the i-th resource of the order was declared. */
  lemma DeclaredAt(order: seq<DecodedResource>, resources: seq<DecodedResource>, i: nat) returns (k: nat)
    requires multiset(order) == multiset(resources) && i < |order|
    ensures k < |resources| && resources[k] == order[i]
  {
    SameMembers(order, resources);
    assert order[i] in resources;
    k :| k < |resources| && resources[k] == order[i];
  }

  lemma ResourcesSound(draft: Draft, params: seq<Param>, outputs: seq<Output>, bp: Decoded)
    requires WellShaped(draft, params, outputs) && bp.stack == draft.stack && bp.resources == WithDeps(draft)
    requires ReferencesAllowed(bp.resources, bp.referenced)
    requires multiset(bp.order) == multiset(bp.resources)
    ensures forall i | 0 <= i < |bp.order| :: SoundResource(bp, bp.order[i])
  {
    forall i | 0 <= i < |bp.order| ensures SoundResource(bp, bp.order[i]) {
      var k := DeclaredAt(bp.order, bp.resources, i);
      ResourceSoundAt(draft, params, outputs, bp, k);
    }
  }

  lemma LoopsAreOne(draft: Draft, params: seq<Param>, outputs: seq<Output>, bp: Decoded)
    requires WellShaped(draft, params, outputs) && bp.resources == WithDeps(draft)
    requires multiset(bp.order) == multiset(bp.resources)
    requires NoDuplicates(TopoSort.Names(bp.order))
    ensures forall i, j | 0 <= i < j < |bp.order| :: bp.order[i].ri.forEach == "" || bp.order[j].ri.forEach == ""
  {
    forall i, j | 0 <= i < j < |bp.order| ensures bp.order[i].ri.forEach == "" || bp.order[j].ri.forEach == "" {
      var k := DeclaredAt(bp.order, bp.resources, i);
      var l := DeclaredAt(bp.order, bp.resources, j);
      assert TopoSort.Names(bp.order)[i] != TopoSort.Names(bp.order)[j];
    }
  }

  lemma KnownMatches(draft: Draft)
    ensures KnownAddresses(draft.resources) == set r | r in WithDeps(draft) :: r.Address()
    ensures forall r | r in WithDeps(draft) ::
              r.deps == TargetsOf(draft.stack, KnownAddresses(draft.resources), Mentions(r.ri))
  {
    var rs := WithDeps(draft);
    forall a | a in KnownAddresses(draft.resources) ensures a in set r | r in rs :: r.Address() {
      var i :| 0 <= i < |draft.resources| && draft.resources[i].Address() == a;
      assert rs[i] in rs && rs[i].Address() == a;
    }
  }

  lemma {:induction false} OutputsKnown(rs: seq<DecodedResource>, outputs: seq<Output>)
    requires ResolveOutputs(rs, outputs).Ok?
    ensures forall o | o in ResolveOutputs(rs, outputs).value :: exists r | r in rs :: r.Address() == o.target.address
  {
    if outputs != [] {
      OutputsKnown(rs, outputs[..|outputs| - 1]);
      WithSlugMember(rs, SplitDots(outputs[|outputs| - 1].target)[0]);
    }
  }

  /** The exact condition: the code of an accepted blueprint reads only locals bound by
      earlier statements if and only if that is so of the addresses the regular
      expression captured.  References the decoder saw are always in order. */
  lemma ScopedIffCapturesBound(draft: Draft, params: seq<Param>, outputs: seq<Output>)
    requires DecodeBlueprint(draft, params, outputs).Ok?
    ensures var bp := DecodeBlueprint(draft, params, outputs).value;
            ReadsBound(bp) <==> CapturesBound(bp)
  {
    var bp := DecodeBlueprint(draft, params, outputs).value;
    AcceptedIsSound(draft, params, outputs);
    forall i | 0 <= i < |bp.order|
      ensures CapturesOf(bp, bp.order[i]) <= ReadsOf(bp, bp.order[i]) <= bp.order[i].deps + CapturesOf(bp, bp.order[i])
      ensures bp.order[i].deps <= Bound(bp, i)
    {
      ResourceReads(bp, bp.order[i]);
    }
  }

  lemma ResourceReads(bp: Decoded, dr: DecodedResource)
    requires dr.deps == TargetsOf(bp.stack, bp.Known(), Mentions(dr.ri))
    ensures CapturesOf(bp, dr) <= ReadsOf(bp, dr) <= dr.deps + CapturesOf(bp, dr)
  {
    forall k | k in dr.ri.config
      ensures Captures(bp, dr.ri.config[k]) <= Reads(bp, dr.ri.config[k]) <= dr.deps + Captures(bp, dr.ri.config[k])
    {
      ReadsAreCollected(bp, dr.ri.config[k]);
    }
  }

  /** A check on the draft alone: every captured address is one the decoder collected. */
  ghost predicate CapturesCollected(bp: Decoded) {
    forall i | 0 <= i < |bp.order| :: CapturesOf(bp, bp.order[i]) <= bp.order[i].deps
  }

  lemma CollectedCapturesAreBound(draft: Draft, params: seq<Param>, outputs: seq<Output>)
    requires DecodeBlueprint(draft, params, outputs).Ok?
    requires CapturesCollected(DecodeBlueprint(draft, params, outputs).value)
    ensures ReadsBound(DecodeBlueprint(draft, params, outputs).value)
  {
    AcceptedIsSound(draft, params, outputs);
    ScopedIffCapturesBound(draft, params, outputs);
  }

  // ------------------------------------------- where capture and collection differ

  function Leaf(s: string): Json { Str(Text(s, None, [], [], [])) }

  function Marker(address: string): Json { Obj(map["$ref" := Obj(map["to" := Leaf(address)])]) }

  /** A marker with a second marker inside it: decoding stops at the outer one, while
      the regular expression matches only the inner one. */
  const NESTED: Text := Text(
    "{\"$ref\":{\"to\":\"s.t.a\",\"n\":{\"$ref\":{\"to\":\"s.t.c\"}}}}",
    Some(Obj(map["$ref" := Obj(map["to" := Leaf("s.t.a"), "n" := Marker("s.t.c")])])),
    [Mark(15, 16, "s.t.a")],
    [RefSpan(26, 41, 46, 49)],
    [])

  lemma ShortAddress(x: char, y: char, z: char)
    requires x != '.' && y != '.' && z != '.'
    ensures SplitDots([x, '.', y, '.', z]) == [[x], [y], [z]]
  {
    var s := [x, '.', y, '.', z];
    assert s[1..] == ['.', y, '.', z] && s[2..] == [y, '.', z];
    assert FirstDot(s[1..]) == 0 && FirstDot(s) == 1;
    var r := s[2..];
    assert r[1..] == ['.', z] && r[2..] == [z];
    assert FirstDot(r[1..]) == 0 && FirstDot(r) == 1;
    assert [z][1..] == [] && FirstDot([z]) == 1;
    assert SplitDots([z]) == [[z]];
    assert r[..1] == [y] && s[..1] == [x];
  }

  lemma ResolveShort(known: set<string>, z: char)
    requires z != '.' && ['t', '.', z] in known
    ensures ResolveAddress("s", known, ['s', '.', 't', '.', z]) == Ok(Target(['t', '.', z], []))
  {
    ShortAddress('s', 't', z);
    var addr := ['s', '.', 't', '.', z];
    var parts := SplitDots(addr);
    assert parts == [['s'], ['t'], [z]];
    assert parts[1] + "." + parts[2] == ['t', '.', z];
    assert parts[3..] == [];
    assert "s" == ['s'];
  }

  lemma NestedCaptures()
    ensures CapturedTexts(NESTED) == {"s.t.c"}
  {
    assert Splice.Slice(NESTED.chars, 41, 46) == "s.t.c";
    assert NESTED.refs == [RefSpan(26, 41, 46, 49)];
  }

  lemma NestedCollects()
    ensures CollectRefs(Str(NESTED)) == {"s.t.a"}
    ensures IsEmbedded(NESTED)
  {
    var outer := NESTED.decoded.value;
    assert RefTarget(outer) == Some("s.t.a");
  }

  /** The generated code for this text reads the local of t.c, which the decoder never
      recorded as a dependency, and not that of t.a, which it did. */
  lemma NestedMarkerEscapesCollection(bp: Decoded)
    requires bp.stack == "s" && "t.a" in bp.Known() && "t.c" in bp.Known()
    ensures Captures(bp, Str(NESTED)) == Reads(bp, Str(NESTED)) == {"t.c"}
    ensures TargetsOf(bp.stack, bp.Known(), CollectRefs(Str(NESTED))) == Missed(bp, Str(NESTED)) == {"t.a"}
  {
    NestedTargets(bp);
    NestedCollects();
    LeafReads(bp, NESTED);
    AIsNotC();
  }

  lemma NestedTargets(bp: Decoded)
    requires bp.stack == "s" && "t.a" in bp.Known() && "t.c" in bp.Known()
    ensures TargetsOf(bp.stack, bp.Known(), CapturedTexts(NESTED)) == {"t.c"}
    ensures TargetsOf(bp.stack, bp.Known(), CollectRefs(Str(NESTED))) == {"t.a"}
  {
    NestedCaptures();
    NestedCollects();
    OneTarget(bp.Known(), 'c');
    OneTarget(bp.Known(), 'a');
  }

  lemma LeafReads(bp: Decoded, t: Text)
    requires IsEmbedded(t)
    ensures Captures(bp, Str(t)) == Reads(bp, Str(t)) == TargetsOf(bp.stack, bp.Known(), CapturedTexts(t))
    ensures Missed(bp, Str(t))
            == TargetsOf(bp.stack, bp.Known(), CollectRefs(Str(t))) - TargetsOf(bp.stack, bp.Known(), CapturedTexts(t))
  {
  }

  lemma AIsNotC()
    ensures "t.a" != "t.c"
  {
    assert "t.a"[2] == 'a' && "t.c"[2] == 'c';
  }

  lemma OneTarget(known: set<string>, z: char)
    requires z != '.' && ['t', '.', z] in known
    ensures TargetsOf("s", known, {['s', '.', 't', '.', z]}) == {['t', '.', z]}
  {
    ResolveShort(known, z);
    var addr := ['s', '.', 't', '.', z];
    assert addr in {addr};
  }
}
