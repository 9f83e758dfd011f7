/** A document's blueprint calls expanded into resources, its output markers resolved and
    its overrides applied, in place. */
module Expansion {
  import opened Common
  import opened Blueprint
  import opened Outputs

  /** A blueprint call: the name it is called by, and what invoking it gives, resources
      and resolved outputs.  None is an invocation that failed. */
  datatype Call = Call(callName: string, invoked: Option<(seq<Resource>, map<string, string>)>)

  datatype Override = Override(address: string, config: map<string, Json>)

  // ------------------------------------------------------------------ expansion

  function Addresses(rs: seq<Resource>): (a: seq<string>)
    ensures |a| == |rs| && forall i | 0 <= i < |rs| :: a[i] == rs[i].Address()
  {
    seq(|rs|, i requires 0 <= i < |rs| => rs[i].Address())
  }

  ghost predicate DistinctAddresses(rs: seq<Resource>) { NoDuplicates(Addresses(rs)) }

  ghost predicate AllInvoked(calls: seq<Call>) { forall i | 0 <= i < |calls| :: calls[i].invoked.Some? }

  /** Every call's resources, call by call. */
  function Produced(calls: seq<Call>): seq<Resource> {
    if calls == [] then []
    else Produced(calls[..|calls| - 1]) + (match calls[|calls| - 1].invoked case None => [] case Some((rs, _)) => rs)
  }

  /** What one call gives. */
  function Given(call: Call): seq<Resource> { match call.invoked case None => [] case Some((rs, _)) => rs }

  /** Earlier calls' resources come first. */
  lemma {:induction false} ProducedInCallOrder(earlier: seq<Call>, later: seq<Call>)
    ensures Produced(earlier + later) == Produced(earlier) + Produced(later)
    ensures |later| == 1 ==> Produced(later) == Given(later[0])
    decreases |later|
  {
    if later == [] {
      assert earlier + later == earlier;
    } else {
      var n: nat := |later| - 1;
      ProducedInCallOrder(earlier, later[..n]);
      assert (earlier + later)[..|earlier + later| - 1] == earlier + later[..n];
      assert later[..0] == [];
      Regroup(Produced(earlier), Produced(later[..n]), Given(later[n]));
    }
  }

  /** No produced resource has the address of a resource before it. */
  ghost predicate NoCollision(before: seq<Resource>, produced: seq<Resource>) {
    forall i, j | 0 <= i < j < |before + produced| && |before| <= j ::
      (before + produced)[i].Address() != (before + produced)[j].Address()
  }

  /** "<CallName>:<output>" for every named call's outputs, a later call winning. */
  function OutputAddresses(calls: seq<Call>): map<string, string> {
    if calls == [] then map[]
    else OutputAddresses(calls[..|calls| - 1]) + Qualified(calls[|calls| - 1])
  }

  function Qualified(call: Call): map<string, string> {
    match call.invoked
    case None => map[]
    case Some((_, outputs)) =>
      if call.callName == "" then map[]
      else Keyed(call.callName, outputs)
  }

  function Keyed(callName: string, outputs: map<string, string>): (r: map<string, string>)
    ensures forall o | o in outputs :: OutputKey(callName, o) in r && r[OutputKey(callName, o)] == outputs[o]
    ensures forall k | k in r :: exists o :: o in outputs && OutputKey(callName, o) == k
  {
    map o | o in outputs :: OutputKey(callName, o) := outputs[o]
  }

  function OutputKey(callName: string, output: string): (k: string)
    ensures |k| > |callName| && k[|callName| + 1..] == output
  {
    callName + ":" + output
  }

  /** What expansion leaves of a document's resources, or failure.  A document without
      calls is not touched, markers included. */
  ghost function Expanded(rs: seq<Resource>, calls: seq<Call>): Result<seq<Resource>> {
    if calls == [] then Ok(rs)
    else if AllInvoked(calls) && NoCollision(rs, Produced(calls))
    then RewrittenDocument(rs + Produced(calls), OutputAddresses(calls)) else Err
  }

  /** A call gives an output under the key a marker would name it by. */
  ghost predicate Gives(call: Call, output: string, key: string) {
    && call.callName != "" && call.invoked.Some? && output in call.invoked.value.1
    && key == call.callName + ":" + output
  }

  ghost predicate Silent(call: Call, key: string) { forall o :: !Gives(call, o, key) }

  /** Call i gives the output, and no later call gives anything under that key. */
  ghost predicate LastGives(calls: seq<Call>, i: int, output: string, key: string) {
    0 <= i < |calls| && Gives(calls[i], output, key) && forall j | i < j < |calls| :: Silent(calls[j], key)
  }

  lemma QualifiedGives(call: Call, key: string)
    ensures key in Qualified(call) <==> exists o :: Gives(call, o, key)
    ensures forall o | Gives(call, o, key) :: Qualified(call)[key] == call.invoked.value.1[o]
  {
    forall o | Gives(call, o, key) ensures key in Qualified(call) && Qualified(call)[key] == call.invoked.value.1[o] {
      assert key == OutputKey(call.callName, o);
    }
    if key in Qualified(call) {
      var o :| o in call.invoked.value.1 && OutputKey(call.callName, o) == key;
      assert Gives(call, o, key);
    }
  }

  lemma GivenEarlier(calls: seq<Call>, i: int, output: string, key: string)
    requires calls != [] && Silent(calls[|calls| - 1], key)
    ensures LastGives(calls, i, output, key) <==> LastGives(calls[..|calls| - 1], i, output, key)
  {
    var init := calls[..|calls| - 1];
    assert forall j | 0 <= j < |init| :: init[j] == calls[j];
    assert !Gives(calls[|calls| - 1], output, key);
  }

  lemma GivenByLast(calls: seq<Call>, key: string, output: string)
    requires calls != [] && Gives(calls[|calls| - 1], output, key)
    ensures LastGives(calls, |calls| - 1, output, key)
    ensures forall i, o | LastGives(calls, i, o, key) :: i == |calls| - 1
  {
    assert !Silent(calls[|calls| - 1], key);
  }

  /** The output map holds, under "<call name>:<output>", what the last call to give it
      gives, and nothing else. */
  lemma {:induction false} LastGivenIsKept(calls: seq<Call>, key: string)
    ensures key in OutputAddresses(calls) <==> exists i, o :: LastGives(calls, i, o, key)
    ensures forall i, o | LastGives(calls, i, o, key) ::
              OutputAddresses(calls)[key] == calls[i].invoked.value.1[o]
    decreases |calls|
  {
    if calls != [] {
      var n: nat := |calls| - 1;
      QualifiedGives(calls[n], key);
      if o :| Gives(calls[n], o, key) {
        GivenByLast(calls, key, o);
      } else {
        assert Silent(calls[n], key);
        LastGivenIsKept(calls[..n], key);
        forall i, o ensures LastGives(calls, i, o, key) <==> LastGives(calls[..n], i, o, key) {
          GivenEarlier(calls, i, o, key);
        }
      }
    }
  }

  /** How a document names a call's output. */
  function MarkerTo(callName: string, output: string): string {
    "$blueprint_output:" + (callName + ":" + output)
  }

  /** What a marker becomes: the address the last call of that name gives the output, if
      there is one that is not empty, and otherwise the document is refused. */
  lemma MarkerBecomesOutput(v: Json, calls: seq<Call>, callName: string, output: string)
    requires IsRef(v, MarkerTo(callName, output))
    ensures var r := Rewritten(v, OutputAddresses(calls));
      && (r.Ok? <==> exists i, o :: LastGives(calls, i, o, callName + ":" + output)
                                 && calls[i].invoked.value.1[o] != "")
      && forall i, o | LastGives(calls, i, o, callName + ":" + output) && calls[i].invoked.value.1[o] != "" ::
           r.Ok? && IsRef(r.value, calls[i].invoked.value.1[o])
  {
    var key := callName + ":" + output;
    MarkerIsWritten(v, key);
    LastGivenIsKept(calls, key);
    if key in OutputAddresses(calls) {
      RefToIsRef(OutputAddresses(calls)[key]);
    }
  }

  /** A reference to the target stands at a path of a resource's config. */
  ghost predicate RefAt(r: Resource, path: seq<Step>, target: string) {
    r.config.Some? && At(r.config.value, path).Some? && IsRef(At(r.config.value, path).value, target)
  }

  /** At any depth of any resource's config, expansion turns a reference to a call's output
      into a reference to the address that call gave it. */
  lemma ExpansionResolvesMarkers(rs: seq<Resource>, calls: seq<Call>, k: nat, path: seq<Step>, i: int, output: string)
    requires Expanded(rs, calls).Ok? && k < |rs + Produced(calls)| && 0 <= i < |calls|
    requires LastGives(calls, i, output, calls[i].callName + ":" + output)
    requires RefAt((rs + Produced(calls))[k], path, MarkerTo(calls[i].callName, output))
    ensures k < |Expanded(rs, calls).value| && calls[i].invoked.value.1[output] != ""
    ensures RefAt(Expanded(rs, calls).value[k], path, calls[i].invoked.value.1[output])
  {
    var addr, key := OutputAddresses(calls), calls[i].callName + ":" + output;
    LastGivenIsKept(calls, key);
    MarkerResolved(rs + Produced(calls), addr, k, path, key);
  }

  /** A reference does not stand inside a marker. */
  lemma {:induction false} RefIsClear(v: Json, path: seq<Step>, target: string)
    requires At(v, path).Some? && IsRef(At(v, path).value, target)
    ensures ClearOfMarkers(v, path)
    decreases |path|
  {
    if path != [] {
      RefIsClear(Into(v, path[0]).value, path[1..], target);
      if MarkerKey(v).Some? {
        MarkerIsWritten(v, MarkerKey(v).value);
        NothingInside(v, path, "$blueprint_output:" + MarkerKey(v).value, target);
      }
    }
  }

  lemma NothingInside(v: Json, path: seq<Step>, outer: string, target: string)
    requires IsRef(v, outer) && path != [] && At(v, path).Some?
    ensures !IsRef(At(v, path).value, target)
  {
    var inner := v.fields["$ref"];
    assert At(v, path) == At(inner, path[1..]);
    if |path| > 1 {
      assert At(inner, path[1..]) == At(inner.fields["to"], path[1..][1..]);
    } else {
      assert "$ref" !in inner.fields.Keys;
    }
  }

  lemma MarkerResolved(all: seq<Resource>, addr: map<string, string>, k: nat, path: seq<Step>, key: string)
    requires RewrittenDocument(all, addr).Ok? && k < |all| && key in addr
    requires RefAt(all[k], path, "$blueprint_output:" + key)
    ensures k < |RewrittenDocument(all, addr).value| && addr[key] != ""
    ensures RefAt(RewrittenDocument(all, addr).value[k], path, addr[key])
  {
    assert RewrittenResource(all[k], addr).Ok?;
    RefIsClear(all[k].config.value, path, "$blueprint_output:" + key);
    OnlyMarkersAreReplaced(all[k].config.value, addr, path);
    MarkerIsWritten(At(all[k].config.value, path).value, key);
    RefToIsRef(addr[key]);
  }

  /** Every config is JSON, and every marker in it names an output some call gives, last
      to a nonempty address. */
  ghost predicate AllAnswered(rs: seq<Resource>, calls: seq<Call>) {
    forall k | 0 <= k < |rs| :: AnsweredIn(rs[k], calls)
  }

  ghost predicate AnsweredIn(r: Resource, calls: seq<Call>) {
    r.config.Some? && forall key | Occurs(r.config.value, key) :: Answered(calls, key)
  }

  ghost predicate Answered(calls: seq<Call>, key: string) {
    exists i, o :: LastGives(calls, i, o, key) && calls[i].invoked.value.1[o] != ""
  }

  lemma SettledIsAnswered(calls: seq<Call>, key: string)
    ensures Settled(OutputAddresses(calls), key) <==> Answered(calls, key)
  {
    LastGivenIsKept(calls, key);
  }

  ghost predicate NothingGiven(calls: seq<Call>) { forall i, o, key :: !LastGives(calls, i, o, key) }

  lemma EmptyIffNothingGiven(calls: seq<Call>)
    ensures OutputAddresses(calls) == map[] <==> NothingGiven(calls)
  {
    var addr := OutputAddresses(calls);
    forall i, o, key | LastGives(calls, i, o, key) ensures key in addr {
      LastGivenIsKept(calls, key);
    }
    if key :| key in addr {
      LastGivenIsKept(calls, key);
      var i, o :| LastGives(calls, i, o, key);
    }
  }

  /** When expansion succeeds: there is nothing to expand, or every call was invoked, no
      produced address is taken, and (unless no output is given at all) every marker is
      answered. */
  lemma ExpansionSucceedsIff(rs: seq<Resource>, calls: seq<Call>)
    ensures Expanded(rs, calls).Ok? <==>
      calls == []
      || (AllInvoked(calls) && NoCollision(rs, Produced(calls))
          && (NothingGiven(calls) || AllAnswered(rs + Produced(calls), calls)))
  {
    var all, addr := rs + Produced(calls), OutputAddresses(calls);
    EmptyIffNothingGiven(calls);
    forall k | 0 <= k < |all| ensures RewrittenResource(all[k], addr).Ok? <==> AnsweredIn(all[k], calls) {
      ResourceAnswered(all[k], calls);
    }
  }

  lemma ResourceAnswered(r: Resource, calls: seq<Call>)
    ensures RewrittenResource(r, OutputAddresses(calls)).Ok? <==> AnsweredIn(r, calls)
  {
    if r.config.Some? {
      RewriteFailsIff(r.config.value, OutputAddresses(calls));
      forall key ensures Settled(OutputAddresses(calls), key) <==> Answered(calls, key) {
        SettledIsAnswered(calls, key);
      }
    }
  }

  lemma RewriteKeepsAddresses(rs: seq<Resource>, addr: map<string, string>)
    requires RewrittenDocument(rs, addr).Ok?
    ensures Addresses(RewrittenDocument(rs, addr).value) == Addresses(rs)
  {
    var out := RewrittenDocument(rs, addr).value;
    assert |out| == |rs|;
    forall i | 0 <= i < |rs| ensures out[i].Address() == rs[i].Address() {
      assert addr != map[] ==> RewrittenResource(rs[i], addr).Ok?;
    }
  }

  /** Expansion keeps distinct addresses distinct, earlier resources first and in order,
      then each call's resources in call order. */
  lemma ExpansionAppendsInCallOrder(rs: seq<Resource>, calls: seq<Call>)
    requires Expanded(rs, calls).Ok?
    ensures Addresses(Expanded(rs, calls).value) == Addresses(rs) + Addresses(Produced(calls))
    ensures DistinctAddresses(rs) ==> DistinctAddresses(Expanded(rs, calls).value)
  {
    var all := rs + Produced(calls);
    if calls != [] {
      RewriteKeepsAddresses(all, OutputAddresses(calls));
    }
    assert Addresses(all) == Addresses(rs) + Addresses(Produced(calls));
    var out := Addresses(Expanded(rs, calls).value);
    if DistinctAddresses(rs) {
      forall i, j | 0 <= i < j < |out| ensures out[i] != out[j] {
        assert out[i] == all[i].Address() && out[j] == all[j].Address();
        if j < |rs| {
          assert Addresses(rs)[i] != Addresses(rs)[j];
        }
      }
    }
  }

  /** What resolveCallOutputs promises of each call, given its declarations. */
  ghost predicate OutputsResolved(calls: seq<Call>, stack: string, declared: seq<Declared>)
    requires |declared| == |calls|
  {
    forall i | 0 <= i < |calls| && calls[i].invoked.Some? ::
      CallResolves(declared[i], stack, calls[i].invoked.value.0, calls[i].invoked.value.1)
  }

  ghost predicate NamesProduced(address: string, stack: string, produced: seq<Resource>) {
    exists r, attr :: r in produced && address == Attribute(stack, r, attr)
  }

  /** An evaluation reported this address, or nothing for some declared output. */
  ghost predicate ReportedBy(address: string, d: Declared) {
    d.reported.Some? && (address == "" || exists k :: k in d.reported.value && d.reported.value[k] == address)
  }

  ghost predicate FromReport(address: string, declared: seq<Declared>) {
    exists i :: 0 <= i < |declared| && ReportedBy(address, declared[i])
  }

  lemma OneCallNamesProduced(call: Call, stack: string, d: Declared, key: string)
    requires call.invoked.Some? && CallResolves(d, stack, call.invoked.value.0, call.invoked.value.1)
    requires key in Qualified(call)
    ensures ReportedBy(Qualified(call)[key], d) || NamesProduced(Qualified(call)[key], stack, call.invoked.value.0)
  {
    var o :| o in call.invoked.value.1 && OutputKey(call.callName, o) == key;
    if d.reported.None? {
      var last := LastNamed(d.outputs, o).value;
      var r :| r in call.invoked.value.0 && call.invoked.value.1[o] == Attribute(stack, r, Cut(last.target).value.1);
      assert Qualified(call)[key] == Attribute(stack, r, Cut(last.target).value.1);
    }
  }

  lemma MoreProduced(address: string, stack: string, some: seq<Resource>, more: seq<Resource>)
    requires NamesProduced(address, stack, some) && forall r | r in some :: r in more
    ensures NamesProduced(address, stack, more)
  {
  }

  lemma MoreReported(address: string, declared: seq<Declared>)
    requires declared != [] && FromReport(address, declared[..|declared| - 1])
    ensures FromReport(address, declared)
  {
    var i :| 0 <= i < |declared| - 1 && ReportedBy(address, declared[..|declared| - 1][i]);
    assert declared[i] == declared[..|declared| - 1][i];
  }

  /** Every address the markers can be replaced by is an attribute of a resource some call
      produced, in the document's own stack, unless a schema-described blueprint reported
      it. */
  lemma {:induction false} OutputsNameProducedResources(calls: seq<Call>, stack: string, declared: seq<Declared>,
                                                        key: string)
    requires |declared| == |calls| && OutputsResolved(calls, stack, declared) && key in OutputAddresses(calls)
    ensures FromReport(OutputAddresses(calls)[key], declared)
            || NamesProduced(OutputAddresses(calls)[key], stack, Produced(calls))
    decreases calls, 1
  {
    var n := |calls| - 1;
    if key in Qualified(calls[n]) {
      OneCallNamesProduced(calls[n], stack, declared[n], key);
      if NamesProduced(Qualified(calls[n])[key], stack, calls[n].invoked.value.0) {
        MoreProduced(Qualified(calls[n])[key], stack, calls[n].invoked.value.0, Produced(calls));
      }
    } else {
      EarlierCalls(calls, stack, declared, key);
    }
  }

  lemma EarlierCalls(calls: seq<Call>, stack: string, declared: seq<Declared>, key: string)
    requires |declared| == |calls| > 0 && OutputsResolved(calls, stack, declared)
    requires key in OutputAddresses(calls) && key !in Qualified(calls[|calls| - 1])
    ensures FromReport(OutputAddresses(calls)[key], declared)
            || NamesProduced(OutputAddresses(calls)[key], stack, Produced(calls))
    decreases calls, 0
  {
    var n := |calls| - 1;
    OutputsNameProducedResources(calls[..n], stack, declared[..n], key);
    var address := OutputAddresses(calls)[key];
    if FromReport(address, declared[..n]) {
      MoreReported(address, declared);
    } else {
      MoreProduced(address, stack, Produced(calls[..n]), Produced(calls));
    }
  }

  /** No evaluation reports a provisional address. */
  ghost predicate ReportsSettled(declared: seq<Declared>) {
    forall i, k | 0 <= i < |declared| && declared[i].reported.Some? && k in declared[i].reported.value ::
      !Provisional(declared[i].reported.value[k])
  }

  lemma NothingProvisional(calls: seq<Call>, stack: string, declared: seq<Declared>, key: string)
    requires |declared| == |calls| && OutputsResolved(calls, stack, declared) && ReportsSettled(declared)
    requires stack != "" && stack[0] != '$' && key in OutputAddresses(calls)
    ensures !Provisional(OutputAddresses(calls)[key])
  {
    OutputsNameProducedResources(calls, stack, declared, key);
    var address := OutputAddresses(calls)[key];
    if !FromReport(address, declared) {
      var r, attr :| r in Produced(calls) && address == Attribute(stack, r, attr);
      assert Attribute(stack, r, attr)[0] == stack[0] && PREFIX[0] == '$';
    }
  }

  /** So in a stack whose name does not start with a dollar sign no address is itself
      provisional, and expansion leaves markers exactly when it had no outputs at all. */
  lemma ExpansionSettlesMarkersIff(rs: seq<Resource>, calls: seq<Call>, stack: string, declared: seq<Declared>)
    requires |declared| == |calls| && OutputsResolved(calls, stack, declared) && ReportsSettled(declared)
    requires stack != "" && stack[0] != '$' && calls != [] && Expanded(rs, calls).Ok?
    ensures (forall i | 0 <= i < |Expanded(rs, calls).value| :: Clean(Expanded(rs, calls).value[i]))
            <==> OutputAddresses(calls) != map[] || (forall r | r in rs + Produced(calls) :: Clean(r))
  {
    var addr := OutputAddresses(calls);
    forall key | key in addr ensures !Provisional(addr[key]) {
      NothingProvisional(calls, stack, declared, key);
    }
    DocumentCleanIff(rs + Produced(calls), addr);
  }

  // ------------------------------------------------------------------ overrides

  /** core.ParseAddress: SplitN at the first two dots, no part empty. */
  function ParseAddress(s: string): Option<(string, string, string)> {
    match Cut(s)
    case None => None
    case Some((stack, rest)) =>
      match Cut(rest)
      case None => None
      case Some((rtype, name)) => if stack == "" || rtype == "" || name == "" then None else Some((stack, rtype, name))
  }

  /** The document address an override names, if it names one of this stack's. */
  function Target(ov: Override, stack: string): Option<string> {
    match ParseAddress(ov.address)
    case None => None
    case Some((s, rtype, name)) => if s == stack then Some(rtype + "." + name) else None
  }

  lemma {:induction false} CutConcat(a: string, b: string)
    requires '.' !in a
    ensures Cut(a + "." + b) == Some((a, b))
  {
    if a == [] {
      assert a + "." + b == "." + b;
    } else {
      CutConcat(a[1..], b);
      assert (a + "." + b)[1..] == a[1..] + "." + b;
      assert a[0] in a && a == [a[0]] + a[1..];
    }
  }

  /** "<stack>.<type>.<name>" names the resource it is read off, whatever dots its name
      holds. */
  lemma FullAddressNamesResource(stack: string, r: Resource)
    requires stack != "" && '.' !in stack && r.rtype != "" && '.' !in r.rtype && r.name != ""
    ensures forall config :: Target(Override(stack + "." + r.Address(), config), stack) == Some(r.Address())
  {
    CutConcat(stack, r.Address());
    CutConcat(r.rtype, r.name);
  }

  /** An override names a document address exactly when it is written as this stack's
      "<stack>.<type>.<name>". */
  lemma TargetIff(ov: Override, stack: string, a: string)
    ensures Target(ov, stack) == Some(a) <==> exists rtype, name :: Overrides(ov, stack, rtype, name, a)
  {
    if Target(ov, stack) == Some(a) {
      CutAtFirstDot(ov.address);
      CutAtFirstDot(Cut(ov.address).value.1);
      var (s, rtype, name) := ParseAddress(ov.address).value;
      assert ov.address == stack + "." + (rtype + "." + name);
      assert Overrides(ov, stack, rtype, name, a);
    }
    if rtype, name :| Overrides(ov, stack, rtype, name, a) {
      CutConcat(stack, rtype + "." + name);
      CutConcat(rtype, name);
    }
  }

  ghost predicate Overrides(ov: Override, stack: string, rtype: string, name: string, a: string) {
    && stack != "" && '.' !in stack && rtype != "" && '.' !in rtype && name != ""
    && a == rtype + "." + name && ov.address == stack + "." + a
  }

  /** An output's address reads "<stack>.<type>.<name>.<attribute>". */
  lemma AttributeNamesResource(stack: string, r: Resource, attr: string)
    requires stack != "" && '.' !in stack && r.rtype != "" && '.' !in r.rtype && r.name != ""
    ensures ParseAddress(Attribute(stack, r, attr)) == Some((stack, r.rtype, r.name + "." + attr))
  {
    var rest := r.rtype + "." + (r.name + "." + attr);
    CutConcat(stack, rest);
    CutConcat(r.rtype, r.name + "." + attr);
    assert Attribute(stack, r, attr) == stack + "." + rest;
  }

  /** A config as the override merge decodes it: null is an empty object. */
  function FieldsOf(config: Option<Json>): Option<map<string, Json>> {
    match config
    case Some(Obj(fields)) => Some(fields)
    case Some(Null) => Some(map[])
    case Some(_) => None
    case None => None
  }

  /** Where the address index points: the last resource of that address. */
  function LastAt(rs: seq<Resource>, address: string): Option<nat> {
    if rs == [] then None
    else if rs[|rs| - 1].Address() == address then Some(|rs| - 1)
    else LastAt(rs[..|rs| - 1], address)
  }

  lemma {:induction false} LastAtMeans(rs: seq<Resource>, address: string)
    ensures LastAt(rs, address).Some? <==> exists i :: 0 <= i < |rs| && rs[i].Address() == address
    ensures LastAt(rs, address).Some?
            ==> LastAt(rs, address).value < |rs| && rs[LastAt(rs, address).value].Address() == address
                && forall j | LastAt(rs, address).value < j < |rs| :: rs[j].Address() != address
  {
    if rs != [] && rs[|rs| - 1].Address() != address {
      var init := rs[..|rs| - 1];
      LastAtMeans(init, address);
      assert forall i | 0 <= i < |init| :: init[i] == rs[i];
    }
  }

  /** An override that applies to a document: it names one of its resources, whose config
      decodes to an object. */
  ghost predicate Applies(ov: Override, stack: string, rs: seq<Resource>) {
    && Target(ov, stack).Some?
    && LastAt(rs, Target(ov, stack).value).Some?
    && LastAt(rs, Target(ov, stack).value).value < |rs|
    && FieldsOf(rs[LastAt(rs, Target(ov, stack).value).value].config).Some?
  }

  /** The i-th resource is the last of its address, and its config is an object or null. */
  ghost predicate Overridable(rs: seq<Resource>, i: int, a: string) {
    && 0 <= i < |rs| && rs[i].Address() == a && (forall j | i < j < |rs| :: rs[j].Address() != a)
    && rs[i].config.Some? && (rs[i].config.value.Obj? || rs[i].config.value.Null?)
  }

  /** An override applies exactly when its address is written for a resource of this stack
      that can be overridden. */
  lemma AppliesIff(ov: Override, stack: string, rs: seq<Resource>)
    ensures Applies(ov, stack, rs)
            <==> exists rtype, name, i :: Overrides(ov, stack, rtype, name, rtype + "." + name)
                                       && Overridable(rs, i, rtype + "." + name)
  {
    if Applies(ov, stack, rs) {
      var a := Target(ov, stack).value;
      TargetIff(ov, stack, a);
      LastAtMeans(rs, a);
      var rtype, name :| Overrides(ov, stack, rtype, name, a);
      assert Overridable(rs, LastAt(rs, a).value, rtype + "." + name);
    }
    if rtype, name, i :| Overrides(ov, stack, rtype, name, rtype + "." + name)
                         && Overridable(rs, i, rtype + "." + name) {
      var a := rtype + "." + name;
      TargetIff(ov, stack, a);
      LastAtMeans(rs, a);
    }
  }

  /** One override merged into its target's config. */
  function Merged(r: Resource, ov: Override): Resource
    requires FieldsOf(r.config).Some?
  {
    r.(config := Some(Obj(FieldsOf(r.config).value + ov.config)))
  }

  ghost function AfterOverride(rs: seq<Resource>, stack: string, ov: Override): (out: seq<Resource>)
    requires Applies(ov, stack, rs)
    ensures |out| == |rs|
  {
    var i := LastAt(rs, Target(ov, stack).value).value;
    rs[i := Merged(rs[i], ov)]
  }

  /** The resources after each override in turn, or failure at the first that does not
      apply. */
  ghost function Overridden(rs: seq<Resource>, stack: string, ovs: seq<Override>): (out: Result<seq<Resource>>)
    ensures out.Ok? ==> |out.value| == |rs|
  {
    if ovs == [] then Ok(rs)
    else
      var ov := ovs[|ovs| - 1];
      match Overridden(rs, stack, ovs[..|ovs| - 1])
      case Err => Err
      case Ok(mid) =>
        if Applies(ov, stack, mid) then Ok(AfterOverride(mid, stack, ov)) else Err
  }

  lemma {:induction false} SameAddressesSameIndex(a: seq<Resource>, b: seq<Resource>, address: string)
    requires Addresses(a) == Addresses(b)
    ensures LastAt(a, address) == LastAt(b, address)
  {
    assert |a| == |Addresses(a)| == |b|;
    if a != [] {
      var n := |a| - 1;
      assert a[n].Address() == Addresses(a)[n] == b[n].Address();
      assert Addresses(a[..n]) == Addresses(a)[..n] == Addresses(b[..n]);
      SameAddressesSameIndex(a[..n], b[..n], address);
    }
  }

  lemma {:induction false} OverridesKeepAddresses(rs: seq<Resource>, stack: string, ovs: seq<Override>)
    requires Overridden(rs, stack, ovs).Ok?
    ensures Addresses(Overridden(rs, stack, ovs).value) == Addresses(rs)
    ensures forall i | 0 <= i < |rs| ::
              FieldsOf(Overridden(rs, stack, ovs).value[i].config).Some? <==> FieldsOf(rs[i].config).Some?
  {
    if ovs != [] {
      OverridesKeepAddresses(rs, stack, ovs[..|ovs| - 1]);
      var mid, out := Overridden(rs, stack, ovs[..|ovs| - 1]).value, Overridden(rs, stack, ovs).value;
      forall i | 0 <= i < |rs|
        ensures out[i].Address() == rs[i].Address()
        ensures FieldsOf(out[i].config).Some? <==> FieldsOf(rs[i].config).Some?
      {
        assert Addresses(mid)[i] == Addresses(rs)[i];
      }
    }
  }

  lemma SameApplies(ov: Override, stack: string, rs: seq<Resource>, mid: seq<Resource>)
    requires Addresses(mid) == Addresses(rs) && |mid| == |rs|
    requires forall i | 0 <= i < |rs| :: FieldsOf(mid[i].config).Some? <==> FieldsOf(rs[i].config).Some?
    ensures Applies(ov, stack, mid) <==> Applies(ov, stack, rs)
  {
    if Target(ov, stack).Some? {
      SameAddressesSameIndex(mid, rs, Target(ov, stack).value);
    }
  }

  /** The overrides fail exactly when one of them does not apply to the document as it
      was expanded: a bad address, another stack's, an unknown resource, or a config that
      is not an object. */
  lemma {:induction false} OverridesFailIff(rs: seq<Resource>, stack: string, ovs: seq<Override>)
    ensures Overridden(rs, stack, ovs).Ok? <==> forall i | 0 <= i < |ovs| :: Applies(ovs[i], stack, rs)
  {
    if ovs != [] {
      var init := ovs[..|ovs| - 1];
      OverridesFailIff(rs, stack, init);
      assert forall i | 0 <= i < |init| :: init[i] == ovs[i];
      if Overridden(rs, stack, init).Ok? {
        OverridesKeepAddresses(rs, stack, init);
        SameApplies(ovs[|ovs| - 1], stack, rs, Overridden(rs, stack, init).value);
      }
    }
  }

  /** The last override of a list that names this address and this field. */
  function LastValue(ovs: seq<Override>, stack: string, address: string, field: string): Option<Json> {
    if ovs == [] then None
    else
      var ov := ovs[|ovs| - 1];
      if Target(ov, stack) == Some(address) && field in ov.config then Some(ov.config[field])
      else LastValue(ovs[..|ovs| - 1], stack, address, field)
  }

  predicate Targeted(ovs: seq<Override>, stack: string, address: string) {
    exists i :: 0 <= i < |ovs| && Target(ovs[i], stack) == Some(address)
  }

  lemma TargetedSnoc(ovs: seq<Override>, stack: string, address: string)
    requires ovs != []
    ensures Targeted(ovs, stack, address)
            <==> Targeted(ovs[..|ovs| - 1], stack, address) || Target(ovs[|ovs| - 1], stack) == Some(address)
  {
    var init := ovs[..|ovs| - 1];
    assert forall i | 0 <= i < |init| :: init[i] == ovs[i];
  }

  /** A field of a config that decodes. */
  function FieldAt(config: Option<Json>, field: string): Option<Json> {
    match FieldsOf(config)
    case None => None
    case Some(fields) => if field in fields then Some(fields[field]) else None
  }

  /** Each config field is the last override naming it, else its expanded value; a
      resource no override names is unchanged. */
  lemma {:induction false} FieldFollowsLastOverride(rs: seq<Resource>, stack: string, ovs: seq<Override>, i: nat,
                                                    field: string)
    requires Overridden(rs, stack, ovs).Ok? && DistinctAddresses(rs) && i < |rs|
    ensures !Targeted(ovs, stack, rs[i].Address()) ==> Overridden(rs, stack, ovs).value[i] == rs[i]
    ensures var last := LastValue(ovs, stack, rs[i].Address(), field);
      FieldAt(Overridden(rs, stack, ovs).value[i].config, field)
      == if last.Some? then last else FieldAt(rs[i].config, field)
  {
    if ovs != [] {
      var init, ov := ovs[..|ovs| - 1], ovs[|ovs| - 1];
      FieldFollowsLastOverride(rs, stack, init, i, field);
      TargetedSnoc(ovs, stack, rs[i].Address());
      OverridesKeepAddresses(rs, stack, init);
      var mid := Overridden(rs, stack, init).value;
      OverrideStep(mid, stack, ov, rs, i);
      if Target(ov, stack) == Some(rs[i].Address()) {
        MergedField(mid[i], ov, field);
      }
    }
  }

  /** One override changes the one resource of its address. */
  lemma OverrideStep(mid: seq<Resource>, stack: string, ov: Override, rs: seq<Resource>, i: nat)
    requires Applies(ov, stack, mid) && Addresses(mid) == Addresses(rs) && DistinctAddresses(rs) && i < |rs| == |mid|
    ensures Target(ov, stack) == Some(rs[i].Address()) ==> FieldsOf(mid[i].config).Some?
    ensures AfterOverride(mid, stack, ov)[i]
            == if Target(ov, stack) == Some(rs[i].Address()) then Merged(mid[i], ov) else mid[i]
  {
    var t := Target(ov, stack).value;
    LastAtMeans(mid, t);
    var k := LastAt(mid, t).value;
    assert Addresses(mid)[k] == Addresses(rs)[k] && Addresses(mid)[i] == Addresses(rs)[i];
    assert k == i <==> t == rs[i].Address();
  }

  lemma MergedField(r: Resource, ov: Override, field: string)
    requires FieldsOf(r.config).Some?
    ensures FieldAt(Merged(r, ov).config, field)
            == if field in ov.config then Some(ov.config[field]) else FieldAt(r.config, field)
  {
  }

  /** The whole pass, from distinct addresses: they stay distinct, in document order then
      call order, and every config field is the last override's or the expansion's. */
  lemma ExpandThenOverride(rs: seq<Resource>, calls: seq<Call>, stack: string, ovs: seq<Override>, i: nat,
                           field: string)
    requires DistinctAddresses(rs) && Expanded(rs, calls).Ok? && Overridden(Expanded(rs, calls).value, stack, ovs).Ok?
    ensures var mid := Expanded(rs, calls).value; var out := Overridden(mid, stack, ovs).value;
      && DistinctAddresses(out) && Addresses(out) == Addresses(rs) + Addresses(Produced(calls))
      && (i < |mid| ==>
        var last := LastValue(ovs, stack, mid[i].Address(), field);
        && FieldAt(out[i].config, field) == (if last.Some? then last else FieldAt(mid[i].config, field))
        && (!Targeted(ovs, stack, mid[i].Address()) ==> out[i] == mid[i]))
  {
    ExpansionAppendsInCallOrder(rs, calls);
    var mid := Expanded(rs, calls).value;
    OverridesKeepAddresses(mid, stack, ovs);
    if i < |mid| {
      FieldFollowsLastOverride(mid, stack, ovs, i, field);
    }
  }

  // ------------------------------------------------------------------- the document

  class Document {
    const stack: string
    var resources: seq<Resource>
    var calls: seq<Call>
    var overrides: seq<Override>

    constructor (stack: string, resources: seq<Resource>, calls: seq<Call>, overrides: seq<Override>)
      ensures this.stack == stack && this.resources == resources && this.calls == calls && this.overrides == overrides
    {
      this.stack, this.resources, this.calls, this.overrides := stack, resources, calls, overrides;
    }

    /** An empty output map skips everything, even a config that would not decode; a
        failure may leave earlier resources rewritten. */
    method RewriteBlueprintOutputRefs(addr: map<string, string>) returns (ok: bool)
      modifies `resources
      ensures ok <==> RewrittenDocument(old(resources), addr).Ok?
      ensures ok ==> RewrittenDocument(old(resources), addr) == Ok(resources)
      ensures |resources| == |old(resources)|
      ensures forall i | 0 <= i < |resources| ::
                resources[i] == old(resources)[i] || RewrittenResource(old(resources)[i], addr) == Ok(resources[i])
    {
      if |addr| == 0 {
        return true;
      }
      for n := 0 to |resources|
        invariant |resources| == |old(resources)|
        invariant forall i | 0 <= i < n :: RewrittenResource(old(resources)[i], addr) == Ok(resources[i])
        invariant forall i | n <= i < |resources| :: resources[i] == old(resources)[i]
      {
        if resources[n].config.None? {
          return false;
        }
        var rewritten := RewriteOutputRefsInValue(resources[n].config.value, addr);
        if rewritten.Err? {
          return false;
        }
        if rewritten.value.1 {
          resources := resources[n := resources[n].(config := Some(rewritten.value.0))];
        } else {
          NoMarkerNoChange(resources[n].config.value, addr);
        }
      }
      assert RewrittenDocument(old(resources), addr).value == resources;
      return true;
    }

    /** One call's resources appended, refusing an address already seen. */
    method AppendResources(added: seq<Resource>, seen: set<string>) returns (ok: bool, now: set<string>)
      requires seen == Elements(Addresses(resources))
      modifies `resources
      ensures ok <==> NoCollision(old(resources), added)
      ensures ok ==> resources == old(resources) + added && now == Elements(Addresses(resources))
    {
      now := seen;
      for i := 0 to |added|
        invariant resources == old(resources) + added[..i]
        invariant now == Elements(Addresses(resources))
        invariant NoCollision(old(resources), added[..i])
      {
        var address := added[i].Address();
        NoCollisionStep(old(resources), added, i);
        if address in now {
          return false, now;
        }
        now := now + {address};
        AddressesAppend(resources, added[i]);
        assert added[..i + 1] == added[..i] + [added[i]];
        Regroup(old(resources), added[..i], [added[i]]);
        resources := resources + [added[i]];
      }
      assert added[..|added|] == added;
      return true, now;
    }

    /** The call loop: each call invoked, its resources appended, its outputs gathered. */
    method AppendCalls() returns (ok: bool, outputAddr: map<string, string>)
      modifies `resources
      ensures ok <==> AllInvoked(calls) && NoCollision(old(resources), Produced(calls))
      ensures ok ==> resources == old(resources) + Produced(calls) && outputAddr == OutputAddresses(calls)
    {
      var seen := Elements(Addresses(resources));
      outputAddr := map[];
      assert resources + [] == resources;
      for i := 0 to |calls|
        invariant AllInvoked(calls[..i]) && outputAddr == OutputAddresses(calls[..i])
        invariant resources == old(resources) + Produced(calls[..i]) && seen == Elements(Addresses(resources))
        invariant NoCollision(old(resources), Produced(calls[..i]))
      {
        var call := calls[i];
        if call.invoked.None? {
          return false, outputAddr;
        }
        var (added, outputs) := call.invoked.value;
        CallStep(old(resources), calls, i);
        var appended, now := AppendResources(added, seen);
        if !appended {
          return false, outputAddr;
        }
        seen := now;
        outputAddr := outputAddr + Qualified(call);
      }
      assert calls[..|calls|] == calls;
      return true, outputAddr;
    }

    method ExpandCalls() returns (ok: bool)
      modifies `resources, `calls
      ensures ok <==> Expanded(old(resources), old(calls)).Ok?
      ensures ok ==> Expanded(old(resources), old(calls)) == Ok(resources) && calls == []
    {
      if |calls| == 0 {
        return true;
      }
      var appended, outputAddr := AppendCalls();
      if !appended {
        return false;
      }
      calls := [];
      ok := RewriteBlueprintOutputRefs(outputAddr);
    }

    method ApplyOverrides() returns (ok: bool)
      modifies `resources, `overrides
      ensures ok <==> Overridden(old(resources), stack, old(overrides)).Ok?
      ensures ok ==> Overridden(old(resources), stack, old(overrides)) == Ok(resources) && overrides == []
    {
      if |overrides| == 0 {
        return true;
      }
      var byAddr := IndexByAddress(resources);
      for i := 0 to |overrides|
        invariant overrides == old(overrides)
        invariant Overridden(old(resources), stack, overrides[..i]) == Ok(resources)
        invariant Indexes(byAddr, resources)
      {
        assert overrides[..i + 1][..i] == overrides[..i];
        OverriddenPrefix(old(resources), stack, overrides, i + 1);
        var applied := ApplyOverride(overrides[i], byAddr);
        if !applied {
          return false;
        }
      }
      assert overrides[..|overrides|] == overrides;
      overrides := [];
      return true;
    }

    /** One override, through the index of addresses. */
    method ApplyOverride(ov: Override, byAddr: map<string, nat>) returns (ok: bool)
      requires Indexes(byAddr, resources)
      modifies `resources
      ensures ok <==> Applies(ov, stack, old(resources))
      ensures ok ==> resources == AfterOverride(old(resources), stack, ov) && Indexes(byAddr, resources)
    {
      var target := Target(ov, stack);
      if target.None? || target.value !in byAddr {
        return false;
      }
      LastAtMeans(resources, target.value);
      var idx := byAddr[target.value];
      var config := FieldsOf(resources[idx].config);
      if config.None? {
        return false;
      }
      var merged := MergeFields(config.value, ov.config);
      ghost var before := resources;
      resources := resources[idx := resources[idx].(config := Some(Obj(merged)))];
      SameIndexes(byAddr, before, resources);
      return true;
    }
  }

  /** The address index: the last position of every address. */
  ghost predicate Indexes(byAddr: map<string, nat>, rs: seq<Resource>) {
    forall a :: LastAt(rs, a) == if a in byAddr then Some(byAddr[a]) else None
  }

  lemma SameIndexes(byAddr: map<string, nat>, a: seq<Resource>, b: seq<Resource>)
    requires Indexes(byAddr, a) && |a| == |b| && forall i | 0 <= i < |a| :: a[i].Address() == b[i].Address()
    ensures Indexes(byAddr, b)
  {
    assert Addresses(a) == Addresses(b);
    forall address ensures LastAt(b, address) == LastAt(a, address) {
      SameAddressesSameIndex(a, b, address);
    }
  }

  method IndexByAddress(rs: seq<Resource>) returns (byAddr: map<string, nat>)
    ensures Indexes(byAddr, rs)
  {
    byAddr := map[];
    for i := 0 to |rs|
      invariant Indexes(byAddr, rs[..i])
    {
      assert rs[..i + 1][..i] == rs[..i];
      byAddr := byAddr[rs[i].Address() := i];
    }
    assert rs[..|rs|] == rs;
  }

  /** The field loop of one override, in whatever order the map gives. */
  method MergeFields(config: map<string, Json>, changes: map<string, Json>) returns (merged: map<string, Json>)
    ensures merged == config + changes
  {
    merged := config;
    var fields := InSomeOrder(changes.Keys);
    for i := 0 to |fields|
      invariant merged == config + Among(changes, Elements(fields[..i]))
    {
      var f := fields[i];
      assert f in Elements(fields);
      assert fields[..i + 1] == fields[..i] + [f];
      ElementsAppend(fields[..i], f);
      OneFieldMore(config, changes, Elements(fields[..i]), f);
      merged := merged[f := changes[f]];
    }
    assert fields[..|fields|] == fields;
    assert Among(changes, changes.Keys) == changes;
  }

  /** The changes to some fields. */
  function Among(changes: map<string, Json>, done: set<string>): map<string, Json> {
    map f | f in changes && f in done :: changes[f]
  }

  lemma OneFieldMore(config: map<string, Json>, changes: map<string, Json>, done: set<string>, f: string)
    requires f in changes
    ensures config + Among(changes, done + {f}) == (config + Among(changes, done))[f := changes[f]]
  {
  }

  lemma AddressesAppend(rs: seq<Resource>, r: Resource)
    ensures Elements(Addresses(rs + [r])) == Elements(Addresses(rs)) + {r.Address()}
  {
    assert Addresses(rs + [r]) == Addresses(rs) + [r.Address()];
    ElementsAppend(Addresses(rs), r.Address());
  }

  lemma NoCollisionStep(before: seq<Resource>, added: seq<Resource>, i: nat)
    requires i < |added| && NoCollision(before, added[..i])
    ensures added[i].Address() in Elements(Addresses(before + added[..i])) ==> !NoCollision(before, added)
    ensures added[i].Address() !in Elements(Addresses(before + added[..i])) ==> NoCollision(before, added[..i + 1])
  {
    var seen := before + added[..i];
    var all, next := before + added, before + added[..i + 1];
    assert all[|before| + i] == added[i] && next == seen + [added[i]];
    if added[i].Address() in Elements(Addresses(seen)) {
      var k :| 0 <= k < |seen| && Addresses(seen)[k] == added[i].Address();
      assert all[k] == seen[k];
    } else {
      forall k | 0 <= k < |seen| ensures seen[k].Address() != added[i].Address() {
        assert Addresses(seen)[k] in Elements(Addresses(seen));
      }
    }
  }

  lemma NoCollisionSplit(before: seq<Resource>, middle: seq<Resource>, added: seq<Resource>)
    requires NoCollision(before, middle)
    ensures NoCollision(before, middle + added) <==> NoCollision(before + middle, added)
  {
    Regroup(before, middle, added);
    var all, first := before + middle + added, before + middle;
    assert forall i | 0 <= i < |first| :: all[i] == first[i];
  }

  /** One turn of the call loop: what is produced and gathered so far, and that a
      collision here is a collision of the whole document. */
  lemma CallStep(before: seq<Resource>, calls: seq<Call>, i: nat)
    requires i < |calls| && calls[i].invoked.Some? && NoCollision(before, Produced(calls[..i]))
    ensures var added := calls[i].invoked.value.0;
      && before + Produced(calls[..i + 1]) == before + Produced(calls[..i]) + added
      && OutputAddresses(calls[..i + 1]) == OutputAddresses(calls[..i]) + Qualified(calls[i])
      && (NoCollision(before + Produced(calls[..i]), added) <==> NoCollision(before, Produced(calls[..i + 1])))
      && (NoCollision(before, Produced(calls)) ==> NoCollision(before, Produced(calls[..i + 1])))
  {
    var added := calls[i].invoked.value.0;
    assert calls[..i + 1][..i] == calls[..i];
    Regroup(before, Produced(calls[..i]), added);
    NoCollisionSplit(before, Produced(calls[..i]), added);
    ProducedPrefix(calls, i + 1);
    NoCollisionPrefix(before, Produced(calls[..i + 1]), Produced(calls));
  }

  lemma NoCollisionPrefix(before: seq<Resource>, a: seq<Resource>, b: seq<Resource>)
    requires a <= b
    ensures NoCollision(before, b) ==> NoCollision(before, a)
  {
    assert forall i | 0 <= i < |before + a| :: (before + a)[i] == (before + b)[i];
  }

  lemma {:induction false} ProducedPrefix(calls: seq<Call>, n: nat)
    requires n <= |calls|
    ensures Produced(calls[..n]) <= Produced(calls)
    decreases |calls|
  {
    if n == |calls| {
      assert calls[..n] == calls;
    } else {
      ProducedPrefix(calls[..|calls| - 1], n);
      assert calls[..|calls| - 1][..n] == calls[..n];
    }
  }

  lemma {:induction false} OverriddenPrefix(rs: seq<Resource>, stack: string, ovs: seq<Override>, n: nat)
    requires n <= |ovs|
    ensures Overridden(rs, stack, ovs).Ok? ==> Overridden(rs, stack, ovs[..n]).Ok?
    decreases |ovs|
  {
    if n == |ovs| {
      assert ovs[..n] == ovs;
    } else {
      OverriddenPrefix(rs, stack, ovs[..|ovs| - 1], n);
      assert ovs[..|ovs| - 1][..n] == ovs[..n];
    }
  }
}
