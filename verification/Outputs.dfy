/** Blueprint outputs resolved to addresses, and provisional output markers replaced. */
module Outputs {
  import opened Common
  import opened Blueprint

  const PREFIX := "$blueprint_output:"

  /** A resource of a document.  A config of None is bytes that are not JSON. */
  datatype Resource = Resource(rtype: string, name: string, config: Option<Json>) {
    function Address(): string { rtype + "." + name }
  }

  predicate Provisional(address: string) { PREFIX <= address }

  function RefTo(address: string): Json {
    Obj(map["$ref" := Obj(map["to" := Str(Text(address, None, [], [], []))])])
  }

  /** The key of a provisional marker: an object holding just "$ref", itself an object
      holding just "to", a string that starts with the prefix. */
  function MarkerKey(v: Json): Option<string> {
    if v.Obj? && |v.fields| == 1 && "$ref" in v.fields && v.fields["$ref"].Obj?
       && |v.fields["$ref"].fields| == 1 && "to" in v.fields["$ref"].fields
       && v.fields["$ref"].fields["to"].Str?
       && Provisional(v.fields["$ref"].fields["to"].text.chars)
    then Some(v.fields["$ref"].fields["to"].text.chars[|PREFIX|..])
    else None
  }

  /** {"$ref": {"to": target}} and nothing else. */
  ghost predicate IsRef(v: Json, target: string) {
    && v.Obj? && v.fields.Keys == {"$ref"}
    && v.fields["$ref"].Obj? && v.fields["$ref"].fields.Keys == {"to"}
    && v.fields["$ref"].fields["to"].Str? && v.fields["$ref"].fields["to"].text.chars == target
  }

  lemma OneKey<V>(m: map<string, V>, name: string)
    ensures |m| == 1 && name in m <==> m.Keys == {name}
  {
    assert |m| == |m.Keys|;
    if |m| == 1 && name in m {
      assert |m.Keys - {name}| == 0;
    }
  }

  /** A marker is written {"$ref": {"to": "$blueprint_output:<key>"}}. */
  lemma MarkerIsWritten(v: Json, key: string)
    ensures MarkerKey(v) == Some(key) <==> IsRef(v, "$blueprint_output:" + key)
  {
    if v.Obj? {
      OneKey(v.fields, "$ref");
      if "$ref" in v.fields && v.fields["$ref"].Obj? {
        OneKey(v.fields["$ref"].fields, "to");
      }
    }
  }

  lemma RefToIsRef(address: string)
    ensures IsRef(RefTo(address), address)
  {
    assert RefTo(address).fields["$ref"].Obj?;
  }

  predicate Settled(addr: map<string, string>, key: string) { key in addr && addr[key] != "" }

  /** The rewritten value, or failure. */
  ghost function Rewritten(v: Json, addr: map<string, string>): Result<Json>
    decreases v
  {
    if MarkerKey(v).Some? then
      (if Settled(addr, MarkerKey(v).value) then Ok(RefTo(addr[MarkerKey(v).value])) else Err)
    else if v.Obj? then
      (if forall k | k in v.fields :: Rewritten(v.fields[k], addr).Ok?
       then Ok(Obj(map k | k in v.fields :: Rewritten(v.fields[k], addr).value)) else Err)
    else if v.Arr? then
      (if forall i | 0 <= i < |v.items| :: Rewritten(v.items[i], addr).Ok?
       then Ok(Arr(seq(|v.items|, i requires 0 <= i < |v.items| => Rewritten(v.items[i], addr).value))) else Err)
    else Ok(v)
  }

  /** A marker with this key stands somewhere in a value, at any depth. */
  ghost predicate Occurs(v: Json, key: string)
    decreases v
  {
    MarkerKey(v) == Some(key)
    || (MarkerKey(v).None? && v.Obj? && exists k :: k in v.fields && Occurs(v.fields[k], key))
    || (MarkerKey(v).None? && v.Arr? && exists i :: 0 <= i < |v.items| && Occurs(v.items[i], key))
  }

  ghost predicate HasMarker(v: Json) { exists key :: Occurs(v, key) }

  // ------------------------------------------------------------- when it fails

  /** The rewrite fails exactly when some marker names an output that is undeclared, or
      declared but not set. */
  lemma {:induction false} RewriteFailsIff(v: Json, addr: map<string, string>)
    ensures Rewritten(v, addr).Err? <==> exists key :: Occurs(v, key) && !Settled(addr, key)
    decreases v
  {
    if MarkerKey(v).Some? {
      var key := MarkerKey(v).value;
      assert Occurs(v, key) && forall other :: Occurs(v, other) ==> other == key;
    } else if v.Obj? {
      forall k | k in v.fields
        ensures Rewritten(v.fields[k], addr).Err? <==> exists key :: Occurs(v.fields[k], key) && !Settled(addr, key)
      {
        RewriteFailsIff(v.fields[k], addr);
      }
      if key :| Occurs(v, key) && !Settled(addr, key) {
        var k :| k in v.fields && Occurs(v.fields[k], key);
      }
      if Rewritten(v, addr).Err? {
        var k :| k in v.fields && Rewritten(v.fields[k], addr).Err?;
        var key :| Occurs(v.fields[k], key) && !Settled(addr, key);
        assert Occurs(v, key);
      }
    } else if v.Arr? {
      forall i | 0 <= i < |v.items|
        ensures Rewritten(v.items[i], addr).Err? <==> exists key :: Occurs(v.items[i], key) && !Settled(addr, key)
      {
        RewriteFailsIff(v.items[i], addr);
      }
      if key :| Occurs(v, key) && !Settled(addr, key) {
        var i :| 0 <= i < |v.items| && Occurs(v.items[i], key);
      }
      if Rewritten(v, addr).Err? {
        var i :| 0 <= i < |v.items| && Rewritten(v.items[i], addr).Err?;
        var key :| Occurs(v.items[i], key) && !Settled(addr, key);
        assert Occurs(v, key);
      }
    }
  }

  // -------------------------------------------------------- which markers are left

  lemma OccursInSingle(name: string, w: Json, key: string)
    requires MarkerKey(Obj(map[name := w])).None?
    ensures Occurs(Obj(map[name := w]), key) <==> Occurs(w, key)
  {
    var v := Obj(map[name := w]);
    assert v.fields[name] == w;
  }

  lemma MarkerOfRef(address: string)
    ensures MarkerKey(RefTo(address)) == if Provisional(address) then Some(address[|PREFIX|..]) else None
    ensures HasMarker(RefTo(address)) <==> Provisional(address)
  {
    var leaf := Str(Text(address, None, [], [], []));
    var inner := Obj(map["to" := leaf]);
    assert RefTo(address).fields["$ref"] == inner && inner.fields["to"] == leaf;
    if Provisional(address) {
      assert Occurs(RefTo(address), address[|PREFIX|..]);
    } else {
      assert "$ref" !in inner.fields;
      forall key ensures !Occurs(RefTo(address), key) {
        OccursInSingle("$ref", inner, key);
        OccursInSingle("to", leaf, key);
      }
    }
  }

  lemma RewrittenFields(v: Json, addr: map<string, string>)
    requires v.Obj? && MarkerKey(v).None? && Rewritten(v, addr).Ok?
    ensures var r := Rewritten(v, addr).value;
      r.Obj? && r.fields.Keys == v.fields.Keys && |r.fields| == |v.fields|
      && forall k | k in v.fields :: Rewritten(v.fields[k], addr) == Ok(r.fields[k])
  {
    var r := Rewritten(v, addr).value;
    assert |r.fields.Keys| == |r.fields| && |v.fields.Keys| == |v.fields|;
  }

  lemma StringsStay(v: Json, addr: map<string, string>)
    requires Rewritten(v, addr).Ok? && Rewritten(v, addr).value.Str?
    ensures Rewritten(v, addr).value == v
  {
  }

  /** What an object holding just a string target was rewritten from. */
  lemma TargetStays(v: Json, addr: map<string, string>, r: Json)
    requires Rewritten(v, addr) == Ok(r) && r.Obj? && "to" in r.fields && r.fields["to"].Str?
    ensures v.Obj? && |v.fields| == |r.fields| && "to" in v.fields && v.fields["to"] == r.fields["to"]
  {
    if MarkerKey(v).None? {
      RewrittenFields(v, addr);
      StringsStay(v.fields["to"], addr);
    }
  }

  /** Rewriting the parts of a value that is not a marker does not make it one. */
  lemma NotMadeAMarker(v: Json, addr: map<string, string>)
    requires MarkerKey(v).None? && Rewritten(v, addr).Ok?
    ensures MarkerKey(Rewritten(v, addr).value).None?
  {
    var r := Rewritten(v, addr).value;
    if v.Obj? {
      RewrittenFields(v, addr);
      if "$ref" in r.fields {
        SameMarker(v, r, addr);
      }
    }
  }

  lemma SameMarker(v: Json, r: Json, addr: map<string, string>)
    requires v.Obj? && r.Obj? && |v.fields| == |r.fields| && "$ref" in v.fields && "$ref" in r.fields
    requires Rewritten(v.fields["$ref"], addr) == Ok(r.fields["$ref"]) && MarkerKey(v).None?
    ensures MarkerKey(r).None?
  {
    var inner := r.fields["$ref"];
    if inner.Obj? && "to" in inner.fields && inner.fields["to"].Str? {
      TargetStays(v.fields["$ref"], addr, inner);
    }
  }

  /** Some marker's replacement is itself provisional. */
  ghost predicate LeavesMarker(v: Json, addr: map<string, string>) {
    exists key :: Occurs(v, key) && key in addr && Provisional(addr[key])
  }

  /** Every marker left stands for one whose address was itself provisional: with no such
      address, none is left at any depth. */
  lemma {:induction false} MarkersLeftIff(v: Json, addr: map<string, string>)
    requires Rewritten(v, addr).Ok?
    ensures HasMarker(Rewritten(v, addr).value) <==> LeavesMarker(v, addr)
    decreases v
  {
    var r := Rewritten(v, addr).value;
    if MarkerKey(v).Some? {
      var key := MarkerKey(v).value;
      MarkerOfRef(addr[key]);
      assert Occurs(v, key) && forall other :: Occurs(v, other) ==> other == key;
    } else {
      NotMadeAMarker(v, addr);
      if v.Obj? {
        RewrittenFields(v, addr);
        forall k | k in v.fields ensures HasMarker(r.fields[k]) <==> LeavesMarker(v.fields[k], addr) {
          MarkersLeftIff(v.fields[k], addr);
        }
        MarkerInField(r);
      } else if v.Arr? {
        forall i | 0 <= i < |v.items| ensures HasMarker(r.items[i]) <==> LeavesMarker(v.items[i], addr) {
          MarkersLeftIff(v.items[i], addr);
        }
        MarkerInItem(r);
        LeavesInItem(v, addr);
      }
    }
  }

  lemma MarkerInField(v: Json)
    requires v.Obj? && MarkerKey(v).None?
    ensures HasMarker(v) <==> exists k :: k in v.fields && HasMarker(v.fields[k])
  {
    if key :| Occurs(v, key) {
      var k :| k in v.fields && Occurs(v.fields[k], key);
      assert HasMarker(v.fields[k]);
    }
    if k :| k in v.fields && HasMarker(v.fields[k]) {
      var key :| Occurs(v.fields[k], key);
      assert Occurs(v, key);
    }
  }

  lemma MarkerInItem(v: Json)
    requires v.Arr?
    ensures HasMarker(v) <==> exists i :: 0 <= i < |v.items| && HasMarker(v.items[i])
  {
    if key :| Occurs(v, key) {
      var i :| 0 <= i < |v.items| && Occurs(v.items[i], key);
      assert HasMarker(v.items[i]);
    }
    if i :| 0 <= i < |v.items| && HasMarker(v.items[i]) {
      var key :| Occurs(v.items[i], key);
      assert Occurs(v, key);
    }
  }

  lemma LeavesInItem(v: Json, addr: map<string, string>)
    requires v.Arr?
    ensures LeavesMarker(v, addr) <==> exists i :: 0 <= i < |v.items| && LeavesMarker(v.items[i], addr)
  {
    if key :| Occurs(v, key) && key in addr && Provisional(addr[key]) {
      var i :| 0 <= i < |v.items| && Occurs(v.items[i], key);
      assert LeavesMarker(v.items[i], addr);
    }
    if i :| 0 <= i < |v.items| && LeavesMarker(v.items[i], addr) {
      var key :| Occurs(v.items[i], key) && key in addr && Provisional(addr[key]);
      assert Occurs(v, key);
    }
  }

  // ---------------------------------------------------- nothing else is touched

  lemma {:induction false} NoMarkerNoChange(v: Json, addr: map<string, string>)
    requires !HasMarker(v)
    ensures Rewritten(v, addr) == Ok(v)
    decreases v
  {
    assert MarkerKey(v).None? by {
      if MarkerKey(v).Some? {
        assert Occurs(v, MarkerKey(v).value);
      }
    }
    if v.Obj? {
      forall k | k in v.fields ensures Rewritten(v.fields[k], addr) == Ok(v.fields[k]) {
        forall key ensures !Occurs(v.fields[k], key) {
          assert Occurs(v.fields[k], key) ==> Occurs(v, key);
        }
        NoMarkerNoChange(v.fields[k], addr);
      }
      assert Rewritten(v, addr).value.fields == v.fields;
    } else if v.Arr? {
      forall i | 0 <= i < |v.items| ensures Rewritten(v.items[i], addr) == Ok(v.items[i]) {
        forall key ensures !Occurs(v.items[i], key) {
          assert Occurs(v.items[i], key) ==> Occurs(v, key);
        }
        NoMarkerNoChange(v.items[i], addr);
      }
      assert Rewritten(v, addr).value.items == v.items;
    }
  }

  ghost predicate NoneProvisional(addr: map<string, string>) { forall key | key in addr :: !Provisional(addr[key]) }

  /** With no provisional address, a successful rewrite leaves no marker at any depth,
      changes the value exactly when it held one, and is the identity the second time. */
  lemma RewriteIsFinal(v: Json, addr: map<string, string>, again: map<string, string>)
    requires Rewritten(v, addr).Ok? && NoneProvisional(addr)
    ensures !HasMarker(Rewritten(v, addr).value)
    ensures Rewritten(v, addr).value != v <==> HasMarker(v)
    ensures Rewritten(Rewritten(v, addr).value, again) == Ok(Rewritten(v, addr).value)
  {
    MarkersLeftIff(v, addr);
    NoMarkerNoChange(Rewritten(v, addr).value, again);
    if !HasMarker(v) {
      NoMarkerNoChange(v, addr);
    }
  }

  /** A step into a value: a field of an object, an item of an array. */
  datatype Step = Field(name: string) | Item(index: nat)

  function Into(v: Json, step: Step): Option<Json> {
    match step
    case Field(k) => if v.Obj? && k in v.fields then Some(v.fields[k]) else None
    case Item(i) => if v.Arr? && i < |v.items| then Some(v.items[i]) else None
  }

  function At(v: Json, path: seq<Step>): Option<Json>
    decreases |path|
  {
    if path == [] then Some(v)
    else match Into(v, path[0]) case None => None case Some(w) => At(w, path[1..])
  }

  /** No step of the path goes through a marker. */
  ghost predicate ClearOfMarkers(v: Json, path: seq<Step>)
    decreases |path|
  {
    path != [] ==>
      MarkerKey(v).None? && match Into(v, path[0]) case None => true case Some(w) => ClearOfMarkers(w, path[1..])
  }

  /** What stands at each node: a marker becomes the reference to its own output's
      address, a scalar stays, and any other node keeps its keys or its length. */
  ghost predicate NodeKept(before: Json, after: Json, addr: map<string, string>) {
    match MarkerKey(before)
    case Some(key) => Settled(addr, key) && after == RefTo(addr[key])
    case None =>
      if before.Obj? then after.Obj? && after.fields.Keys == before.fields.Keys
      else if before.Arr? then after.Arr? && |after.items| == |before.items|
      else after == before
  }

  /** Node by node, the rewrite touches markers and nothing else. */
  lemma {:induction false} OnlyMarkersAreReplaced(v: Json, addr: map<string, string>, path: seq<Step>)
    requires Rewritten(v, addr).Ok? && ClearOfMarkers(v, path)
    ensures var after := At(Rewritten(v, addr).value, path);
      match At(v, path) case None => after.None? case Some(w) => after.Some? && NodeKept(w, after.value, addr)
    decreases |path|
  {
    if path != [] && Into(v, path[0]).Some? {
      var w := Into(v, path[0]).value;
      assert Into(Rewritten(v, addr).value, path[0]) == Some(Rewritten(w, addr).value);
      OnlyMarkersAreReplaced(w, addr, path[1..]);
    }
  }

  // ------------------------------------------------------------------- the code

  /** rewriteOutputRefsInValue: maps are walked in whatever order the runtime gives. */
  method RewriteOutputRefsInValue(v: Json, addr: map<string, string>) returns (r: Result<(Json, bool)>)
    ensures r.Ok? <==> Rewritten(v, addr).Ok?
    ensures r.Ok? ==> r.value.0 == Rewritten(v, addr).value && (r.value.1 <==> HasMarker(v))
    decreases v, 1
  {
    var key := MarkerKey(v);
    if key.Some? {
      assert Occurs(v, key.value);
      if key.value !in addr || addr[key.value] == "" {
        return Err;
      }
      return Ok((RefTo(addr[key.value]), true));
    } else if v.Obj? {
      r := RewriteFields(v, addr);
    } else if v.Arr? {
      r := RewriteItems(v, addr);
    } else {
      return Ok((v, false));
    }
  }

  ghost predicate FieldsDone(v: Json, addr: map<string, string>, keys: seq<string>, out: map<string, Json>)
    requires v.Obj?
  {
    out.Keys == Elements(keys)
    && forall k | k in out :: k in v.fields && Rewritten(v.fields[k], addr) == Ok(out[k])
  }

  ghost predicate AmongFields(v: Json, ks: set<string>)
    requires v.Obj?
  {
    exists k :: k in ks && k in v.fields && HasMarker(v.fields[k])
  }

  lemma FieldsFinal(v: Json, addr: map<string, string>, keys: seq<string>, out: map<string, Json>)
    requires v.Obj? && MarkerKey(v).None? && FieldsDone(v, addr, keys, out) && Elements(keys) == v.fields.Keys
    ensures Rewritten(v, addr) == Ok(Obj(out))
    ensures HasMarker(v) <==> AmongFields(v, Elements(keys))
  {
    assert Rewritten(v, addr).value.fields == out;
    MarkerInField(v);
  }

  method RewriteFields(v: Json, addr: map<string, string>) returns (r: Result<(Json, bool)>)
    requires v.Obj? && MarkerKey(v).None?
    ensures r.Ok? <==> Rewritten(v, addr).Ok?
    ensures r.Ok? ==> r.value.0 == Rewritten(v, addr).value && (r.value.1 <==> HasMarker(v))
    decreases v, 0
  {
    var changedAny := false;
    var out: map<string, Json> := map[];
    var keys := InSomeOrder(v.fields.Keys);
    for i := 0 to |keys|
      invariant FieldsDone(v, addr, keys[..i], out)
      invariant changedAny <==> AmongFields(v, Elements(keys[..i]))
    {
      var k := keys[i];
      assert k in Elements(keys);
      var rv := RewriteOutputRefsInValue(v.fields[k], addr);
      if rv.Err? {
        return Err;
      }
      assert keys[..i + 1] == keys[..i] + [k];
      out := out[k := rv.value.0];
      changedAny := changedAny || rv.value.1;
    }
    assert keys[..|keys|] == keys;
    FieldsFinal(v, addr, keys, out);
    return Ok((Obj(out), changedAny));
  }

  ghost predicate AmongItems(v: Json, n: nat)
    requires v.Arr?
  {
    exists i :: 0 <= i < n && i < |v.items| && HasMarker(v.items[i])
  }

  method RewriteItems(v: Json, addr: map<string, string>) returns (r: Result<(Json, bool)>)
    requires v.Arr?
    ensures r.Ok? <==> Rewritten(v, addr).Ok?
    ensures r.Ok? ==> r.value.0 == Rewritten(v, addr).value && (r.value.1 <==> HasMarker(v))
    decreases v, 0
  {
    var changedAny := false;
    var out: seq<Json> := [];
    for i := 0 to |v.items|
      invariant |out| == i && forall j | 0 <= j < i :: Rewritten(v.items[j], addr) == Ok(out[j])
      invariant changedAny <==> AmongItems(v, i)
    {
      var rv := RewriteOutputRefsInValue(v.items[i], addr);
      if rv.Err? {
        return Err;
      }
      out := out + [rv.value.0];
      changedAny := changedAny || rv.value.1;
    }
    assert Rewritten(v, addr).value.items == out;
    MarkerInItem(v);
    return Ok((Arr(out), changedAny));
  }

  // ------------------------------------------------------------ a whole document

  /** One resource after the rewrite. */
  ghost function RewrittenResource(r: Resource, addr: map<string, string>): Result<Resource> {
    if r.config.None? then Err
    else match Rewritten(r.config.value, addr) case Err => Err case Ok(c) => Ok(r.(config := Some(c)))
  }

  ghost predicate Clean(r: Resource) { r.config.Some? ==> !HasMarker(r.config.value) }

  /** What a successful pass over the document leaves. */
  ghost function RewrittenDocument(rs: seq<Resource>, addr: map<string, string>): Result<seq<Resource>> {
    if addr == map[] then Ok(rs)
    else if forall i | 0 <= i < |rs| :: RewrittenResource(rs[i], addr).Ok?
    then Ok(seq(|rs|, i requires 0 <= i < |rs| => RewrittenResource(rs[i], addr).value)) else Err
  }

  /** Whether markers survive a successful pass: with no provisional address, exactly when
      the output map is empty and there were some, since the pass is then skipped. */
  lemma DocumentCleanIff(rs: seq<Resource>, addr: map<string, string>)
    requires RewrittenDocument(rs, addr).Ok? && NoneProvisional(addr)
    ensures (forall i | 0 <= i < |rs| :: Clean(RewrittenDocument(rs, addr).value[i]))
            <==> addr != map[] || (forall i | 0 <= i < |rs| :: Clean(rs[i]))
  {
    if addr != map[] {
      forall i | 0 <= i < |rs| ensures Clean(RewrittenDocument(rs, addr).value[i]) {
        assert RewrittenResource(rs[i], addr).Ok?;
        RewriteIsFinal(rs[i].config.value, addr, addr);
      }
    }
  }

  // ------------------------------------------------------- one call's own outputs

  /** A declared output with its "<resource-slug>.<attribute>" target. */
  datatype Output = Output(name: string, target: string)

  /** strings.Cut at the first dot. */
  function Cut(s: string): Option<(string, string)> {
    if s == [] then None
    else if s[0] == '.' then Some(([], s[1..]))
    else match Cut(s[1..]) case None => None case Some((a, b)) => Some(([s[0]] + a, b))
  }

  lemma {:induction false} CutAtFirstDot(s: string)
    ensures Cut(s).None? <==> '.' !in s
    ensures Cut(s).Some? ==> '.' !in Cut(s).value.0 && s == Cut(s).value.0 + "." + Cut(s).value.1
  {
    if s != [] {
      assert s == [s[0]] + s[1..];
      if s[0] != '.' {
        CutAtFirstDot(s[1..]);
        if Cut(s).Some? {
          var (a, b) := Cut(s[1..]).value;
          assert ([s[0]] + a) + "." + b == [s[0]] + (a + "." + b);
        }
      }
    }
  }

  ghost predicate OneNamed(rs: seq<Resource>, name: string) {
    (exists i :: 0 <= i < |rs| && rs[i].name == name)
    && forall i, j | 0 <= i < j < |rs| :: !(rs[i].name == name && rs[j].name == name)
  }

  /** An output resolves: its target has a dot, and just one resource of the call carries
      the slug before it. */
  ghost predicate Resolvable(o: Output, rs: seq<Resource>) {
    Cut(o.target).Some? && OneNamed(rs, Cut(o.target).value.0)
  }

  function Attribute(stack: string, r: Resource, attr: string): string {
    stack + "." + r.rtype + "." + r.name + "." + attr
  }

  /** The address an output stands for: the attribute, in the calling stack, of a resource
      of the call that carries the slug. */
  ghost predicate AddressOf(o: Output, stack: string, rs: seq<Resource>, address: string) {
    Cut(o.target).Some?
    && exists r :: r in rs && r.name == Cut(o.target).value.0 && address == Attribute(stack, r, Cut(o.target).value.1)
  }

  method IndexByName(rs: seq<Resource>) returns (byName: map<string, Resource>, ambiguous: set<string>)
    ensures forall n | n in byName :: byName[n].name == n && byName[n] in rs
    ensures forall n :: n in byName && n !in ambiguous <==> OneNamed(rs, n)
  {
    byName, ambiguous := map[], {};
    for i := 0 to |rs|
      invariant forall n | n in byName :: byName[n].name == n && byName[n] in rs
      invariant forall n :: n in byName <==> exists k :: 0 <= k < i && rs[k].name == n
      invariant forall n :: n in ambiguous <==> exists j, k :: 0 <= j < k < i && rs[j].name == n && rs[k].name == n
    {
      if rs[i].name in byName {
        ambiguous := ambiguous + {rs[i].name};
      }
      byName := byName[rs[i].name := rs[i]];
    }
  }

  /** The map holds, for each name among the outputs, the address of the last one. */
  ghost predicate Resolves(outputs: seq<Output>, stack: string, rs: seq<Resource>, out: map<string, string>) {
    (forall i | 0 <= i < |outputs| :: outputs[i].name in out)
    && forall k | k in out :: LastNamed(outputs, k).Some? && AddressOf(LastNamed(outputs, k).value, stack, rs, out[k])
  }

  function LastNamed(outputs: seq<Output>, name: string): Option<Output> {
    if outputs == [] then None
    else if outputs[|outputs| - 1].name == name then Some(outputs[|outputs| - 1])
    else LastNamed(outputs[..|outputs| - 1], name)
  }

  /** It is an output of that name, and none of the name follows it. */
  lemma {:induction false} LastNamedIs(outputs: seq<Output>, name: string, o: Output)
    ensures LastNamed(outputs, name) == Some(o)
            <==> exists i :: 0 <= i < |outputs| && outputs[i] == o && o.name == name && NoneAfter(outputs, i, name)
  {
    if outputs != [] {
      var init, last := outputs[..|outputs| - 1], outputs[|outputs| - 1];
      LastNamedIs(init, name, o);
      if last.name == name {
        assert NoneAfter(outputs, |outputs| - 1, name);
      } else {
        forall i | 0 <= i < |init| ensures NoneAfter(outputs, i, name) <==> NoneAfter(init, i, name) {
          assert forall j | i < j < |init| :: init[j] == outputs[j];
        }
      }
    }
  }

  ghost predicate NoneAfter(outputs: seq<Output>, i: int, name: string) {
    forall j | 0 <= i < j < |outputs| :: outputs[j].name != name
  }

  lemma LastNamedSnoc(outputs: seq<Output>, o: Output, name: string)
    ensures LastNamed(outputs + [o], name) == if o.name == name then Some(o) else LastNamed(outputs, name)
  {
    assert (outputs + [o])[..|outputs|] == outputs;
  }

  lemma ResolvesSnoc(outputs: seq<Output>, o: Output, stack: string, rs: seq<Resource>, out: map<string, string>,
                     address: string)
    requires Resolves(outputs, stack, rs, out) && AddressOf(o, stack, rs, address)
    ensures Resolves(outputs + [o], stack, rs, out[o.name := address])
  {
    forall k | k in out[o.name := address]
      ensures LastNamed(outputs + [o], k) == if o.name == k then Some(o) else LastNamed(outputs, k)
    {
      LastNamedSnoc(outputs, o, k);
    }
  }

  /** One output, through the index of names. */
  method ResolveOutput(stack: string, o: Output, byName: map<string, Resource>, ambiguous: set<string>,
                       ghost rs: seq<Resource>)
      returns (address: Option<string>)
    requires forall n | n in byName :: byName[n].name == n && byName[n] in rs
    requires forall n :: n in byName && n !in ambiguous <==> OneNamed(rs, n)
    ensures address.Some? <==> Resolvable(o, rs)
    ensures address.Some? ==> AddressOf(o, stack, rs, address.value)
  {
    var cut := Cut(o.target);
    if cut.None? || cut.value.0 in ambiguous || cut.value.0 !in byName {
      return None;
    }
    return Some(Attribute(stack, byName[cut.value.0], cut.value.1));
  }

  /** What a call's outputs are resolved from: its declarations, and for a blueprint
      described by a schema the addresses its evaluation reported. */
  datatype Declared = Declared(outputs: seq<Output>, reported: Option<map<string, string>>)

  /** Every declared output, with the reported address or the empty one. */
  ghost predicate Reports(outputs: seq<Output>, reported: map<string, string>, out: map<string, string>) {
    && (forall k :: k in out <==> LastNamed(outputs, k).Some?)
    && forall k | k in out :: out[k] == if k in reported then reported[k] else ""
  }

  ghost predicate CallResolves(d: Declared, stack: string, rs: seq<Resource>, out: map<string, string>) {
    match d.reported
    case None => Resolves(d.outputs, stack, rs, out)
    case Some(reported) => Reports(d.outputs, reported, out)
  }

  method ReportOutputs(outputs: seq<Output>, reported: map<string, string>) returns (out: map<string, string>)
    ensures Reports(outputs, reported, out)
  {
    out := map[];
    for i := 0 to |outputs|
      invariant Reports(outputs[..i], reported, out)
    {
      var name := outputs[i].name;
      assert outputs[..i + 1] == outputs[..i] + [outputs[i]];
      forall k ensures LastNamed(outputs[..i + 1], k).Some? <==> k == name || LastNamed(outputs[..i], k).Some? {
        LastNamedSnoc(outputs[..i], outputs[i], k);
      }
      out := out[name := if name in reported then reported[name] else ""];
    }
    assert outputs[..|outputs|] == outputs;
  }

  /** resolveCallOutputs: every output becomes the address of the one resource its slug
      names, or the call fails; a schema-described blueprint's are taken as reported, and
      never fail. */
  method ResolveCallOutputs(stack: string, d: Declared, rs: seq<Resource>) returns (r: Result<map<string, string>>)
    ensures r.Ok? <==> d.reported.Some? || AllResolvable(d.outputs, rs)
    ensures r.Ok? ==> CallResolves(d, stack, rs, r.value)
  {
    if |d.outputs| == 0 {
      return Ok(map[]);
    }
    if d.reported.Some? {
      var out := ReportOutputs(d.outputs, d.reported.value);
      return Ok(out);
    }
    r := ResolveTargets(stack, d.outputs, rs);
  }

  ghost predicate AllResolvable(outputs: seq<Output>, rs: seq<Resource>) {
    forall i | 0 <= i < |outputs| :: Resolvable(outputs[i], rs)
  }

  lemma ResolvableSnoc(outputs: seq<Output>, o: Output, rs: seq<Resource>)
    requires AllResolvable(outputs, rs) && Resolvable(o, rs)
    ensures AllResolvable(outputs + [o], rs)
  {
  }

  method ResolveTargets(stack: string, outputs: seq<Output>, rs: seq<Resource>) returns (r: Result<map<string, string>>)
    ensures r.Ok? <==> AllResolvable(outputs, rs)
    ensures r.Ok? ==> Resolves(outputs, stack, rs, r.value)
  {
    var out: map<string, string> := map[];
    var byName, ambiguous := IndexByName(rs);
    for i := 0 to |outputs|
      invariant AllResolvable(outputs[..i], rs)
      invariant Resolves(outputs[..i], stack, rs, out)
    {
      var o := outputs[i];
      var address := ResolveOutput(stack, o, byName, ambiguous, rs);
      if address.None? {
        return Err;
      }
      ResolvesSnoc(outputs[..i], o, stack, rs, out, address.value);
      ResolvableSnoc(outputs[..i], o, rs);
      assert outputs[..i + 1] == outputs[..i] + [o];
      out := out[o.name := address.value];
    }
    assert outputs[..|outputs|] == outputs;
    return Ok(out);
  }
}
