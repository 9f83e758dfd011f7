/** What decoding reads out of addresses, markers and values, stated by how they are written.

    Decoding and rendering share these readings, so that the two agree says nothing of what
    they read. */
module Readings {
  import opened Common
  import opened Blueprint
  import opened Decode
  import Codegen
  import CodegenTexts

  // ---------------------------------------------------------------- dotted text

  ghost predicate Dotless(s: string) { '.' !in s }

  ghost predicate AllDotless(parts: seq<string>) { forall i | 0 <= i < |parts| :: Dotless(parts[i]) }

  lemma {:induction false} FirstDotAfter(a: string, b: string)
    requires Dotless(a) && (b == [] || b[0] == '.')
    ensures FirstDot(a + b) == |a|
  {
    if a != [] {
      assert a[0] in a && (a + b)[1..] == a[1..] + b;
      FirstDotAfter(a[1..], b);
    } else {
      assert a + b == b;
    }
  }

  lemma {:induction false} BeforeFirstDot(s: string)
    ensures Dotless(s[..FirstDot(s)])
  {
    if s != [] && s[0] != '.' {
      BeforeFirstDot(s[1..]);
      assert s[..FirstDot(s)] == [s[0]] + s[1..][..FirstDot(s[1..])];
    }
  }

  lemma {:induction false} SplitIsDotless(s: string)
    ensures AllDotless(SplitDots(s))
    decreases |s|
  {
    var k := FirstDot(s);
    BeforeFirstDot(s);
    if k < |s| {
      SplitIsDotless(s[k + 1..]);
    } else {
      assert s[..k] == s;
    }
  }

  lemma SplitLone(s: string)
    requires Dotless(s)
    ensures SplitDots(s) == [s]
  {
    FirstDotAfter(s, []);
    assert s + [] == s;
  }

  lemma SplitAfter(first: string, tail: string)
    requires Dotless(first)
    ensures SplitDots(first + ("." + tail)) == [first] + SplitDots(tail)
  {
    var s := first + ("." + tail);
    FirstDotAfter(first, "." + tail);
    assert s[..|first|] == first && s[|first| + 1..] == tail;
  }

  lemma {:induction false} JoinedSplits(first: string, rest: seq<string>)
    requires Dotless(first) && AllDotless(rest)
    ensures SplitDots(first + JoinDots(rest)) == [first] + rest
    decreases |rest|
  {
    if rest == [] {
      SplitLone(first);
      assert first + [] == first;
    } else {
      CodegenTexts.JoinDotsCons(rest);
      SplitAfter(first, rest[0] + JoinDots(rest[1..]));
      JoinedSplits(rest[0], rest[1..]);
      FirstSplits(rest);
    }
  }

  /** The parts of a text are determined: dotless, and the text is they with dots between. */
  lemma SplitIff(s: string, parts: seq<string>)
    ensures SplitDots(s) == parts <==> parts != [] && AllDotless(parts) && s == parts[0] + JoinDots(parts[1..])
  {
    SplitIsDotless(s);
    CodegenTexts.SplitJoins(s);
    if parts != [] && AllDotless(parts) && s == parts[0] + JoinDots(parts[1..]) {
      JoinedSplits(parts[0], parts[1..]);
      assert [parts[0]] + parts[1..] == parts;
    }
  }

  // ------------------------------------------------------------------ addresses

  /** addr is written "<stack>.<type>.<name>[.<path>...]", for the resource "<type>.<name>". */
  ghost predicate WrittenAs(addr: string, stack: string, rtype: string, name: string, path: seq<string>) {
    && Dotless(stack) && Dotless(rtype) && Dotless(name) && AllDotless(path)
    && addr == stack + "." + rtype + "." + name + JoinDots(path)
  }

  ghost predicate Names(addr: string, stack: string, address: string, path: seq<string>) {
    exists rtype, name :: WrittenAs(addr, stack, rtype, name, path) && address == rtype + "." + name
  }

  lemma JoinThree(a: string, b: string, c: string, path: seq<string>)
    ensures a + JoinDots([b, c] + path) == a + "." + b + "." + c + JoinDots(path)
  {
    assert ([b, c] + path)[1..] == [c] + path && ([c] + path)[1..] == path;
    assert JoinDots([c] + path) == "." + c + JoinDots(path);
    assert JoinDots([b, c] + path) == "." + b + JoinDots([c] + path);
    Regrouped(a, ".", b, ".", c, JoinDots(path));
  }

  lemma Regrouped(a: string, d: string, b: string, e: string, c: string, j: string)
    ensures a + (d + b + (e + c + j)) == a + d + b + e + c + j
  {
  }

  lemma WrittenIff(addr: string, stack: string, rtype: string, name: string, path: seq<string>)
    ensures WrittenAs(addr, stack, rtype, name, path) <==> SplitDots(addr) == [stack, rtype, name] + path
  {
    var parts := [stack, rtype, name] + path;
    SplitIff(addr, parts);
    JoinThree(stack, rtype, name, path);
    assert parts[1..] == [rtype, name] + path;
    assert parts[0] == stack && parts[1] == rtype && parts[2] == name;
    assert forall i | 0 <= i < |path| :: parts[i + 3] == path[i];
    assert AllDotless(parts) <==> Dotless(stack) && Dotless(rtype) && Dotless(name) && AllDotless(path);
  }

  /** An address resolves to a known resource and a path exactly when it is written as
      this stack's address of that resource followed by the path. */
  lemma AddressResolvesIff(stack: string, known: set<string>, addr: string, address: string, path: seq<string>)
    ensures ResolveAddress(stack, known, addr) == Ok(Target(address, path))
            <==> address in known && Names(addr, stack, address, path)
  {
    var parts := SplitDots(addr);
    if ResolveAddress(stack, known, addr) == Ok(Target(address, path)) {
      assert parts == [stack, parts[1], parts[2]] + path;
      WrittenIff(addr, stack, parts[1], parts[2], path);
    }
    if address in known && Names(addr, stack, address, path) {
      var rtype, name :| WrittenAs(addr, stack, rtype, name, path) && address == rtype + "." + name;
      WrittenIff(addr, stack, rtype, name, path);
      assert parts[3..] == path;
    }
  }

  // -------------------------------------------------------------------- markers

  /** {"$ref": {"to": address, ...}} and nothing beside "$ref". */
  ghost predicate IsMarker(j: Json, address: string) {
    && j.Obj? && j.fields.Keys == {"$ref"} && j.fields["$ref"].Obj?
    && "to" in j.fields["$ref"].fields && j.fields["$ref"].fields["to"].Str?
    && j.fields["$ref"].fields["to"].text.chars == address
  }

  /** {"$fn": {"name": fn, "args": [args...], ...}} and nothing beside "$fn". */
  ghost predicate IsCall(j: Json, fn: string, args: seq<Json>) {
    && j.Obj? && j.fields.Keys == {"$fn"} && j.fields["$fn"].Obj?
    && "name" in j.fields["$fn"].fields && j.fields["$fn"].fields["name"].Str?
    && j.fields["$fn"].fields["name"].text.chars == fn
    && "args" in j.fields["$fn"].fields && j.fields["$fn"].fields["args"] == Arr(args)
  }

  lemma OneKey<V>(m: map<string, V>, name: string)
    ensures |m| == 1 && name in m <==> m.Keys == {name}
  {
    assert |m| == |m.Keys|;
    if |m| == 1 && name in m {
      assert |m.Keys - {name}| == 0;
    }
  }

  /** What rendering and decoding take for a reference, and for a call of a ported
      function. */
  lemma MarkersAreWritten(j: Json, address: string, fn: string, args: seq<Json>)
    ensures RefTarget(j) == Some(address) <==> IsMarker(j, address)
    ensures Codegen.FnMarker(j) == Some((fn, args)) <==> IsCall(j, fn, args)
  {
    if j.Obj? {
      OneKey(j.fields, "$ref");
      OneKey(j.fields, "$fn");
    }
  }

  // ------------------------------------------------------ references in a value

  /** A step into a value: a field, an item, or what a string holds as JSON text. */
  datatype Step = Field(name: string) | Item(index: nat) | InText

  function Into(j: Json, step: Step): Option<Json> {
    match step
    case Field(k) => if j.Obj? && k in j.fields then Some(j.fields[k]) else None
    case Item(i) => if j.Arr? && i < |j.items| then Some(j.items[i]) else None
    case InText => if j.Str? then j.text.decoded else None
  }

  function Walk(j: Json, path: seq<Step>): Option<Json>
    decreases |path|
  {
    if path == [] then Some(j)
    else match Into(j, path[0]) case None => None case Some(w) => Walk(w, path[1..])
  }

  ghost predicate MarkerAt(j: Json, path: seq<Step>, address: string) {
    Walk(j, path).Some? && IsMarker(Walk(j, path).value, address)
  }

  ghost predicate StaysOutside(path: seq<Step>) { forall i | 0 <= i < |path| :: !path[i].InText? }

  /** A reference stands in the value, outside any text. */
  ghost predicate ShowsMarker(j: Json) { exists path, a :: StaysOutside(path) && MarkerAt(j, path, a) }

  /** No step goes through a marker, and texts are entered only where they show one. */
  ghost predicate Open(j: Json, path: seq<Step>)
    decreases |path|
  {
    path != [] ==>
      && (forall a :: !IsMarker(j, a))
      && (path[0].InText? && j.Str? && j.text.decoded.Some? ==> ShowsMarker(j.text.decoded.value))
      && (Into(j, path[0]).Some? ==> Open(Into(j, path[0]).value, path[1..]))
  }

  lemma NoMarkerIff(j: Json)
    ensures RefTarget(j).None? <==> forall a :: !IsMarker(j, a)
  {
    forall a ensures RefTarget(j) == Some(a) <==> IsMarker(j, a) {
      MarkersAreWritten(j, a, "", []);
    }
    if RefTarget(j).Some? {
      assert IsMarker(j, RefTarget(j).value);
    }
  }

  lemma StepOn(j: Json, step: Step, path: seq<Step>, a: string)
    requires Into(j, step).Some?
    ensures MarkerAt(j, [step] + path, a) <==> MarkerAt(Into(j, step).value, path, a)
    ensures !step.InText? && StaysOutside(path) ==> StaysOutside([step] + path)
  {
    assert ([step] + path)[1..] == path;
  }

  lemma ShowsThrough(j: Json, step: Step)
    requires Into(j, step).Some? && !step.InText? && ShowsMarker(Into(j, step).value)
    ensures ShowsMarker(j)
  {
    var path, a :| StaysOutside(path) && MarkerAt(Into(j, step).value, path, a);
    StepOn(j, step, path, a);
  }

  lemma ShowsHere(j: Json)
    requires RefTarget(j).Some?
    ensures ShowsMarker(j)
  {
    MarkersAreWritten(j, RefTarget(j).value, "", []);
    assert StaysOutside([]) && MarkerAt(j, [], RefTarget(j).value);
  }

  lemma {:induction false} ContainsShows(j: Json)
    requires ContainsRefMarker(j)
    ensures ShowsMarker(j)
    decreases j
  {
    if RefTarget(j).Some? {
      ShowsHere(j);
    } else if j.Obj? {
      var k :| k in j.fields && ContainsRefMarker(j.fields[k]);
      ContainsShows(j.fields[k]);
      ShowsThrough(j, Field(k));
    } else {
      var i :| 0 <= i < |j.items| && ContainsRefMarker(j.items[i]);
      ContainsShows(j.items[i]);
      ShowsThrough(j, Item(i));
    }
  }

  lemma {:induction false} ShowsContains(j: Json, path: seq<Step>, a: string)
    requires StaysOutside(path) && MarkerAt(j, path, a)
    ensures ContainsRefMarker(j)
    decreases |path|
  {
    if path == [] {
      MarkersAreWritten(j, a, "", []);
    } else {
      var w := Into(j, path[0]).value;
      ShowsContains(w, path[1..], a);
      match path[0]
      case Field(k) => assert w == j.fields[k];
      case Item(i) => assert w == j.items[i];
    }
  }

  lemma ContainsIffShows(j: Json)
    ensures ContainsRefMarker(j) <==> ShowsMarker(j)
  {
    if ContainsRefMarker(j) {
      ContainsShows(j);
    }
    if path, a :| StaysOutside(path) && MarkerAt(j, path, a) {
      ShowsContains(j, path, a);
    }
  }

  /** A reference stands where decoding looks. */
  ghost predicate Stands(j: Json, address: string) { exists path :: Open(j, path) && MarkerAt(j, path, address) }

  lemma StandsThrough(j: Json, step: Step, a: string)
    requires RefTarget(j).None? && Into(j, step).Some? && Stands(Into(j, step).value, a)
    requires step.InText? ==> ShowsMarker(Into(j, step).value)
    ensures Stands(j, a)
  {
    var path :| Open(Into(j, step).value, path) && MarkerAt(Into(j, step).value, path, a);
    NoMarkerIff(j);
    StepOn(j, step, path, a);
    assert ([step] + path)[1..] == path;
    assert Open(j, [step] + path);
  }

  lemma {:induction false} CollectedStands(j: Json, a: string)
    requires a in CollectRefs(j)
    ensures Stands(j, a)
    decreases j
  {
    match j
    case Obj(fields) =>
      if RefTarget(j).Some? {
        MarkersAreWritten(j, a, "", []);
        assert Open(j, []) && MarkerAt(j, [], a);
      } else {
        var k :| k in fields && a in CollectRefs(fields[k]);
        CollectedStands(fields[k], a);
        StandsThrough(j, Field(k), a);
      }
    case Arr(items) =>
      var i :| 0 <= i < |items| && a in CollectRefs(items[i]);
      CollectedStands(items[i], a);
      StandsThrough(j, Item(i), a);
    case Str(t) =>
      CollectedStands(t.decoded.value, a);
      ContainsIffShows(t.decoded.value);
      StandsThrough(j, InText, a);
    case _ =>
  }

  lemma {:induction false} StandsCollected(j: Json, path: seq<Step>, a: string)
    requires Open(j, path) && MarkerAt(j, path, a)
    ensures a in CollectRefs(j)
    decreases |path|
  {
    if path == [] {
      MarkersAreWritten(j, a, "", []);
    } else {
      var w := Into(j, path[0]).value;
      NoMarkerIff(j);
      StandsCollected(w, path[1..], a);
      match path[0]
      case Field(k) => assert w == j.fields[k];
      case Item(i) => assert w == j.items[i];
      case InText => ContainsIffShows(w);
    }
  }

  /** Decoding collects exactly the references that stand in a value at any depth, or in
      a text that shows one, and not inside another reference. */
  lemma CollectedIffStands(j: Json, a: string)
    ensures a in CollectRefs(j) <==> Stands(j, a)
  {
    if a in CollectRefs(j) {
      CollectedStands(j, a);
    }
    if path :| Open(j, path) && MarkerAt(j, path, a) {
      StandsCollected(j, path, a);
    }
  }
}
