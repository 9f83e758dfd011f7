/** Each language's own rules for binding a call's arguments to the generated signature,
    and the three calls binding the same environment. */
module CallBinding {
  import opened Common
  import opened Calling

  // -------------------------------------------------------- the generated signatures

  /** One parameter of a generated TypeScript or Python function. */
  datatype Slot = Slot(ident: string, fallback: Option<Value>)

  function SlotFor(p: Param, naming: Naming): Slot {
    Slot(naming(p.name), if p.Defaulted? then Some(p.fallback) else None)
  }

  function Signature(params: seq<Param>, naming: Naming): (sig: seq<Slot>)
    ensures |sig| == |params|
  {
    seq(|params|, i requires 0 <= i < |params| => SlotFor(params[i], naming))
  }

  type Env = map<string, Value>

  /** A positional call: values in order, a default where the call stops short.  None is
      a call the language refuses. */
  function BindPositional(sig: seq<Slot>, vals: seq<Value>): Option<Env> {
    if sig == [] then (if vals == [] then Some(map[]) else None)
    else
      var head := if vals != [] then Some(vals[0]) else sig[0].fallback;
      var rest := BindPositional(sig[1..], if vals != [] then vals[1..] else []);
      if head.None? || rest.None? then None else Some(rest.value[sig[0].ident := head.value])
  }

  function Lookup(ks: seq<(string, Value)>, ident: string): Option<Value> {
    if ks == [] then None else if ks[0].0 == ident then Some(ks[0].1) else Lookup(ks[1..], ident)
  }

  function FillSlots(sig: seq<Slot>, ks: seq<(string, Value)>): Option<Env> {
    if sig == [] then Some(map[])
    else
      var head := SlotValue(sig[0], ks);
      var rest := FillSlots(sig[1..], ks);
      if head.None? || rest.None? then None else Some(rest.value[sig[0].ident := head.value])
  }

  /** A keyword call: no keyword twice, none the function does not have. */
  ghost function BindKeywords(sig: seq<Slot>, ks: seq<(string, Value)>): Option<Env> {
    if (forall i, j | 0 <= i < j < |ks| :: ks[i].0 != ks[j].0)
       && (forall i | 0 <= i < |ks| :: exists j :: 0 <= j < |sig| && sig[j].ident == ks[i].0)
    then FillSlots(sig, ks) else None
  }

  /** A Go option constructor: its name, the options field it sets, the field's seed. */
  datatype Setter = Setter(option: string, field: string, seed: Value)

  function SetterFor(p: Param, camel: Naming, pascal: Naming): Setter
    requires p.Defaulted?
  {
    Setter(pascal(p.name), camel(p.name), p.fallback)
  }

  function Setters(params: seq<Param>, camel: Naming, pascal: Naming): (s: seq<Setter>)
    requires forall i | 0 <= i < |params| :: params[i].Defaulted?
    ensures |s| == |params|
  {
    seq(|params|, i requires 0 <= i < |params| => SetterFor(params[i], camel, pascal))
  }

  /** A Go call's two places for parameters: locals, and the options struct. */
  datatype Frame = Frame(locals: Env, cfg: Env)

  function Seeded(setters: seq<Setter>): Env {
    if setters == [] then map[] else Seeded(setters[1..])[setters[0].field := setters[0].seed]
  }

  function FieldOf(setters: seq<Setter>, option: string): Option<string> {
    if setters == [] then None
    else if setters[0].option == option then Some(setters[0].field)
    else FieldOf(setters[1..], option)
  }

  function ApplyOptions(setters: seq<Setter>, cfg: Env, args: seq<GoArg>): Option<Env>
    decreases args
  {
    if args == [] then Some(cfg)
    else if args[0].Plain? then None
    else
      match FieldOf(setters, args[0].option)
      case None => None
      case Some(field) => ApplyOptions(setters, cfg[field := args[0].value], args[1..])
  }

  function BindGo(sig: seq<Slot>, setters: seq<Setter>, args: seq<GoArg>): Option<Frame> {
    if sig == [] then
      match ApplyOptions(setters, Seeded(setters), args)
      case None => None
      case Some(cfg) => Some(Frame(map[], cfg))
    else if args == [] || args[0].With? then None
    else
      match BindGo(sig[1..], setters, args[1..])
      case None => None
      case Some(f) => Some(Frame(f.locals[sig[0].ident := args[0].value], f.cfg))
  }

  /** How the generated Go body reads a parameter. */
  ghost predicate GoReads(f: Frame, p: Param, camel: Naming, v: Value) {
    var env := if p.Required? then f.locals else f.cfg;
    camel(p.name) in env && env[camel(p.name)] == v
  }

  ghost predicate EnvReads(env: Env, p: Param, naming: Naming, v: Value) {
    naming(p.name) in env && env[naming(p.name)] == v
  }

  // --------------------------------------------------------------------- TypeScript

  lemma {:induction false} PositionalValues(args: seq<Arg>, read: Reader)
    ensures Positional(args, read).Ok? <==> forall i | 0 <= i < |args| :: Literal(args[i], read).Ok?
    ensures Positional(args, read).Ok? ==>
              |Positional(args, read).value| == |args|
              && forall i | 0 <= i < |args| :: Literal(args[i], read) == Ok(Positional(args, read).value[i])
  {
    if args != [] {
      PositionalValues(args[1..], read);
      assert forall i | 0 < i < |args| :: args[i] == args[1..][i - 1];
    }
  }

  ghost predicate DistinctSlots(sig: seq<Slot>) {
    forall i, j | 0 <= i < j < |sig| :: sig[i].ident != sig[j].ident
  }

  lemma {:induction false} PositionalBinds(sig: seq<Slot>, vals: seq<Value>)
    requires |vals| == |sig| && DistinctSlots(sig)
    ensures var e := BindPositional(sig, vals);
      e.Some? && forall i | 0 <= i < |sig| :: sig[i].ident in e.value && e.value[sig[i].ident] == vals[i]
  {
    if sig != [] {
      PositionalBinds(sig[1..], vals[1..]);
      assert forall i | 0 < i < |sig| :: sig[i] == sig[1..][i - 1] && vals[i] == vals[1..][i - 1];
    }
  }

  lemma TSValues(params: seq<Param>, given: map<string, string>, read: Reader)
    requires Complete(params, given) && Readable(params, given, read)
    ensures var order := RequiredFirst(params); var call := Positional(ArgsFor(order, given), read);
      && call.Ok? && |call.value| == |order|
      && forall i | 0 <= i < |order| :: Intended(order[i], given, read) == Ok(call.value[i])
  {
    var order := RequiredFirst(params);
    RequiredFirstIsPermutation(params);
    SameMembers(order, params);
    PositionalValues(ArgsFor(order, given), read);
    forall i | 0 <= i < |order|
      ensures Literal(ArgsFor(order, given)[i], read) == Intended(order[i], given, read)
      ensures Intended(order[i], given, read).Ok?
    {
      IntendedReads(params, given, read, order[i]);
    }
  }

  lemma IntendedReads(params: seq<Param>, given: map<string, string>, read: Reader, p: Param)
    requires Complete(params, given) && Readable(params, given, read) && p in params
    ensures Literal(ArgFor(p, given), read) == Intended(p, given, read) && Intended(p, given, read).Ok?
  {
    var k :| 0 <= k < |params| && params[k] == p;
  }

  /** The positional TypeScript call binds every parameter as intended. */
  lemma TSCallBinds(params: seq<Param>, given: map<string, string>, read: Reader, camel: Naming, p: Param)
    requires Complete(params, given) && Readable(params, given, read) && DistinctUnder(camel, params) && p in params
    ensures var call := Positional(ArgsFor(RequiredFirst(params), given), read);
      && call.Ok?
      && var env := BindPositional(Signature(RequiredFirst(params), camel), call.value);
      && env.Some? && Intended(p, given, read).Ok? && EnvReads(env.value, p, camel, Intended(p, given, read).value)
  {
    var sig := Signature(RequiredFirst(params), camel);
    TSValues(params, given, read);
    GroupsKeepDistinct(camel, params);
    PositionalBinds(sig, Positional(ArgsFor(RequiredFirst(params), given), read).value);
    var k := PlaceOf(params, p);
    assert sig[k].ident == camel(p.name);
  }

  // ------------------------------------------------------------------------- Python

  ghost predicate DistinctArgs(naming: Naming, args: seq<Arg>) {
    forall i, j | 0 <= i < j < |args| :: naming(args[i].param.name) != naming(args[j].param.name)
  }

  ghost predicate ReadsGiven(args: seq<Arg>, read: Reader) {
    forall i | 0 <= i < |args| :: args[i].raw.Some? ==> Literal(args[i], read).Ok?
  }

  ghost predicate IsParameter(args: seq<Arg>, naming: Naming, ident: string) {
    exists j :: 0 <= j < |args| && naming(args[j].param.name) == ident
  }

  /** The keywords are distinct and each is some parameter's. */
  ghost predicate KeywordsFit(args: seq<Arg>, naming: Naming, ks: seq<(string, Value)>) {
    && (forall i | 0 <= i < |ks| :: IsParameter(args, naming, ks[i].0))
    && (forall i, j | 0 <= i < j < |ks| :: ks[i].0 != ks[j].0)
  }

  lemma MoreParameters(args: seq<Arg>, naming: Naming, ident: string)
    requires args != [] && DistinctArgs(naming, args) && IsParameter(args[1..], naming, ident)
    ensures IsParameter(args, naming, ident) && ident != naming(args[0].param.name)
  {
    var j :| 0 <= j < |args[1..]| && naming(args[1..][j].param.name) == ident;
    assert args[j + 1] == args[1..][j];
  }

  lemma KeywordsFitCons(args: seq<Arg>, naming: Naming, rest: seq<(string, Value)>, v: Value)
    requires args != [] && DistinctArgs(naming, args) && KeywordsFit(args[1..], naming, rest)
    ensures KeywordsFit(args, naming, [(naming(args[0].param.name), v)] + rest) && KeywordsFit(args, naming, [] + rest)
  {
    forall i | 0 <= i < |rest|
      ensures IsParameter(args, naming, rest[i].0) && rest[i].0 != naming(args[0].param.name)
    {
      MoreParameters(args, naming, rest[i].0);
    }
    assert [] + rest == rest;
    assert IsParameter(args, naming, naming(args[0].param.name));
  }

  lemma {:induction false} KeywordsLookup(args: seq<Arg>, naming: Naming, read: Reader)
    requires DistinctArgs(naming, args) && ReadsGiven(args, read)
    ensures Keywords(args, naming, read).Ok? && KeywordsFit(args, naming, Keywords(args, naming, read).value)
  {
    if args != [] {
      KeywordsLookup(args[1..], naming, read);
      var rest := Keywords(args[1..], naming, read).value;
      KeywordsFitCons(args, naming, rest, if args[0].raw.Some? then Literal(args[0], read).value else TextValue(""));
    }
  }

  lemma LookupStep(args: seq<Arg>, naming: Naming, read: Reader, ident: string)
    requires args != [] && Keywords(args, naming, read).Ok?
    ensures Keywords(args[1..], naming, read).Ok? && (args[0].raw.Some? ==> Literal(args[0], read).Ok?)
    ensures Lookup(Keywords(args, naming, read).value, ident)
            == if args[0].raw.Some? && naming(args[0].param.name) == ident then Some(Literal(args[0], read).value)
               else Lookup(Keywords(args[1..], naming, read).value, ident)
  {
    var rest := Keywords(args[1..], naming, read).value;
    if args[0].raw.None? {
      assert [] + rest == rest;
    } else {
      var kv := (naming(args[0].param.name), Literal(args[0], read).value);
      assert Keywords(args, naming, read).value == [kv] + rest && ([kv] + rest)[1..] == rest;
    }
  }

  lemma {:induction false} LookupAbsent(args: seq<Arg>, naming: Naming, read: Reader, ident: string)
    requires forall i | 0 <= i < |args| :: naming(args[i].param.name) != ident
    requires Keywords(args, naming, read).Ok?
    ensures Lookup(Keywords(args, naming, read).value, ident) == None
  {
    if args != [] {
      LookupStep(args, naming, read, ident);
      LookupAbsent(args[1..], naming, read, ident);
    }
  }

  /** What the keyword list holds for one parameter: its value, if the call gives it. */
  lemma {:induction false} LookupOf(args: seq<Arg>, naming: Naming, read: Reader, n: nat)
    requires n < |args| && DistinctArgs(naming, args) && Keywords(args, naming, read).Ok?
    ensures args[n].raw.Some? ==> Literal(args[n], read).Ok?
    ensures Lookup(Keywords(args, naming, read).value, naming(args[n].param.name))
            == if args[n].raw.Some? then Some(Literal(args[n], read).value) else None
  {
    LookupStep(args, naming, read, naming(args[n].param.name));
    if n == 0 {
      LookupAbsent(args[1..], naming, read, naming(args[0].param.name));
    } else {
      LookupOf(args[1..], naming, read, n - 1);
      assert args[1..][n - 1] == args[n];
    }
  }

  lemma {:induction false} SlotsFill(sig: seq<Slot>, ks: seq<(string, Value)>)
    requires DistinctSlots(sig) && forall i | 0 <= i < |sig| :: SlotValue(sig[i], ks).Some?
    ensures var e := FillSlots(sig, ks);
      && e.Some?
      && forall i | 0 <= i < |sig| ::
           sig[i].ident in e.value && SlotValue(sig[i], ks) == Some(e.value[sig[i].ident])
  {
    if sig != [] {
      SlotsFill(sig[1..], ks);
      assert forall i | 0 < i < |sig| :: sig[i] == sig[1..][i - 1];
    }
  }

  /** What one slot of the signature takes: its keyword's value, else its default. */
  function SlotValue(s: Slot, ks: seq<(string, Value)>): Option<Value> {
    if Lookup(ks, s.ident).Some? then Lookup(ks, s.ident) else s.fallback
  }

  lemma PySlotValue(params: seq<Param>, given: map<string, string>, read: Reader, snake: Naming, p: Param)
    requires Complete(params, given) && Readable(params, given, read) && DistinctUnder(snake, params) && p in params
    requires Keywords(ArgsFor(params, given), snake, read).Ok?
    ensures Intended(p, given, read).Ok?
    ensures SlotValue(SlotFor(p, snake), Keywords(ArgsFor(params, given), snake, read).value)
            == Some(Intended(p, given, read).value)
  {
    var k :| 0 <= k < |params| && params[k] == p;
    LookupOf(ArgsFor(params, given), snake, read, k);
  }

  lemma PyKeywordsFit(params: seq<Param>, given: map<string, string>, read: Reader, snake: Naming)
    requires Readable(params, given, read) && DistinctUnder(snake, params)
    ensures var ks := Keywords(ArgsFor(params, given), snake, read); var sig := Signature(RequiredFirst(params), snake);
      ks.Ok? && BindKeywords(sig, ks.value) == FillSlots(sig, ks.value)
  {
    var args := ArgsFor(params, given);
    var sig := Signature(RequiredFirst(params), snake);
    assert ReadsGiven(args, read) && DistinctArgs(snake, args);
    KeywordsLookup(args, snake, read);
    var ks := Keywords(args, snake, read).value;
    forall i | 0 <= i < |ks| ensures exists j :: 0 <= j < |sig| && sig[j].ident == ks[i].0 {
      assert IsParameter(args, snake, ks[i].0);
      var k :| 0 <= k < |args| && snake(args[k].param.name) == ks[i].0;
      var j := PlaceOf(params, params[k]);
      assert sig[j].ident == ks[i].0;
    }
  }

  lemma PySlotsHaveValues(params: seq<Param>, given: map<string, string>, read: Reader, snake: Naming)
    requires Complete(params, given) && Readable(params, given, read) && DistinctUnder(snake, params)
    requires Keywords(ArgsFor(params, given), snake, read).Ok?
    ensures var sig := Signature(RequiredFirst(params), snake);
      forall i | 0 <= i < |sig| :: SlotValue(sig[i], Keywords(ArgsFor(params, given), snake, read).value).Some?
  {
    var order := RequiredFirst(params);
    RequiredFirstIsPermutation(params);
    SameMembers(order, params);
    forall i | 0 <= i < |order|
      ensures SlotValue(SlotFor(order[i], snake), Keywords(ArgsFor(params, given), snake, read).value).Some?
    {
      PySlotValue(params, given, read, snake, order[i]);
    }
  }

  /** The keyword Python call binds every parameter as intended. */
  lemma PyCallBinds(params: seq<Param>, given: map<string, string>, read: Reader, snake: Naming, p: Param)
    requires Complete(params, given) && Readable(params, given, read) && DistinctUnder(snake, params) && p in params
    ensures var call := Keywords(ArgsFor(params, given), snake, read);
      && call.Ok?
      && var env := BindKeywords(Signature(RequiredFirst(params), snake), call.value);
      && env.Some? && Intended(p, given, read).Ok? && EnvReads(env.value, p, snake, Intended(p, given, read).value)
  {
    var sig := Signature(RequiredFirst(params), snake);
    PyKeywordsFit(params, given, read, snake);
    var ks := Keywords(ArgsFor(params, given), snake, read).value;
    PySlotsHaveValues(params, given, read, snake);
    GroupsKeepDistinct(snake, params);
    SlotsFill(sig, ks);
    PySlotValue(params, given, read, snake, p);
    var k := PlaceOf(params, p);
    assert sig[k] == SlotFor(p, snake);
  }

  // ----------------------------------------------------------------------------- Go

  lemma {:induction false} GoArgsOfRequired(params: seq<Param>, given: map<string, string>, naming: Naming,
                                            read: Reader)
    requires Complete(params, given) && Readable(params, given, read)
    requires forall i | 0 <= i < |params| :: params[i].Required?
    ensures var gs := GoArgs(ArgsFor(params, given), naming, read);
      && gs.Ok? && |gs.value| == |params|
      && forall i | 0 <= i < |params| :: Ok(gs.value[i]) == GoOf(params[i], given, read)
  {
    if params != [] {
      var tail := params[1..];
      assert Complete(tail, given) && Readable(tail, given, read) by {
        assert forall i | 0 <= i < |tail| :: tail[i] == params[i + 1];
      }
      GoArgsOfRequired(tail, given, naming, read);
      assert ArgsFor(params, given)[1..] == ArgsFor(tail, given);
    }
  }

  function GoOf(p: Param, given: map<string, string>, read: Reader): Result<GoArg> {
    match Intended(p, given, read) case Err => Err case Ok(v) => Ok(Plain(v))
  }

  lemma {:induction false} FieldFound(setters: seq<Setter>, n: nat)
    requires n < |setters| && forall i, j | 0 <= i < j < |setters| :: setters[i].option != setters[j].option
    ensures FieldOf(setters, setters[n].option) == Some(setters[n].field)
  {
    if n > 0 {
      FieldFound(setters[1..], n - 1);
    }
  }

  lemma {:induction false} SeededFields(setters: seq<Setter>)
    requires forall i, j | 0 <= i < j < |setters| :: setters[i].field != setters[j].field
    ensures forall i | 0 <= i < |setters| ::
              setters[i].field in Seeded(setters) && Seeded(setters)[setters[i].field] == setters[i].seed
  {
    if setters != [] {
      SeededFields(setters[1..]);
      assert forall i | 0 < i < |setters| :: setters[i] == setters[1..][i - 1];
    }
  }

  /** One option applied, or none written, for a defaulted parameter. */
  lemma OptionStep(p: Param, tail: seq<Param>, setters: seq<Setter>, cfg: Env, given: map<string, string>,
                   camel: Naming, pascal: Naming, read: Reader)
    requires p.Defaulted? && FieldOf(setters, pascal(p.name)) == Some(camel(p.name))
    requires Intended(p, given, read).Ok? && camel(p.name) in cfg && cfg[camel(p.name)] == p.fallback
    requires GoArgs(ArgsFor(tail, given), pascal, read).Ok?
    ensures var gs := GoArgs(ArgsFor([p] + tail, given), pascal, read);
      && gs.Ok?
      && ApplyOptions(setters, cfg, gs.value)
         == ApplyOptions(setters, cfg[camel(p.name) := Intended(p, given, read).value],
                         GoArgs(ArgsFor(tail, given), pascal, read).value)
  {
    var rest := GoArgs(ArgsFor(tail, given), pascal, read).value;
    assert ArgsFor([p] + tail, given)[1..] == ArgsFor(tail, given);
    if p.name in given {
      var w := With(pascal(p.name), read(p.typ, given[p.name]).value);
      assert GoArgs(ArgsFor([p] + tail, given), pascal, read) == Ok([w] + rest);
      assert ([w] + rest)[1..] == rest;
    } else {
      assert [] + rest == rest;
      assert cfg[camel(p.name) := p.fallback] == cfg;
    }
  }

  /** Some defaulted parameters about to be set over their seeds. */
  ghost predicate OptionsReady(ps: seq<Param>, setters: seq<Setter>, cfg: Env, given: map<string, string>,
                               camel: Naming, pascal: Naming, read: Reader) {
    && DistinctUnder(camel, ps)
    && (forall i | 0 <= i < |ps| :: ps[i].Defaulted? && Intended(ps[i], given, read).Ok?)
    && (forall i | 0 <= i < |ps| :: FieldOf(setters, pascal(ps[i].name)) == Some(camel(ps[i].name)))
    && (forall i | 0 <= i < |ps| :: camel(ps[i].name) in cfg && cfg[camel(ps[i].name)] == ps[i].fallback)
  }

  /** Their fields set as intended, and no other. */
  ghost predicate OptionsSet(ps: seq<Param>, cfg: Env, out: Env, given: map<string, string>, camel: Naming,
                             read: Reader) {
    && cfg.Keys <= out.Keys
    && (forall f | f in cfg && (forall i | 0 <= i < |ps| :: camel(ps[i].name) != f) :: out[f] == cfg[f])
    && (forall i | 0 <= i < |ps| ::
         camel(ps[i].name) in out && Intended(ps[i], given, read) == Ok(out[camel(ps[i].name)]))
  }

  lemma ReadyTail(ps: seq<Param>, setters: seq<Setter>, cfg: Env, given: map<string, string>,
                  camel: Naming, pascal: Naming, read: Reader, v: Value)
    requires ps != [] && OptionsReady(ps, setters, cfg, given, camel, pascal, read)
    ensures OptionsReady(ps[1..], setters, cfg[camel(ps[0].name) := v], given, camel, pascal, read)
  {
    assert forall i | 0 <= i < |ps[1..]| :: ps[1..][i] == ps[i + 1];
  }

  lemma SetTail(ps: seq<Param>, cfg: Env, out: Env, given: map<string, string>, camel: Naming, read: Reader, v: Value)
    requires ps != [] && DistinctUnder(camel, ps) && Intended(ps[0], given, read) == Ok(v)
    requires OptionsSet(ps[1..], cfg[camel(ps[0].name) := v], out, given, camel, read)
    ensures OptionsSet(ps, cfg, out, given, camel, read)
  {
    var tail := ps[1..];
    assert forall i | 0 <= i < |tail| :: tail[i] == ps[i + 1];
    assert out[camel(ps[0].name)] == v;
    forall i | 0 <= i < |ps|
      ensures camel(ps[i].name) in out && Intended(ps[i], given, read) == Ok(out[camel(ps[i].name)])
    {
      assert i > 0 ==> ps[i] == tail[i - 1];
    }
  }

  /** Applying the options of some defaulted parameters sets exactly the given fields. */
  lemma {:induction false} OptionsApply(ps: seq<Param>, setters: seq<Setter>, cfg: Env, given: map<string, string>,
                                        camel: Naming, pascal: Naming, read: Reader)
    requires OptionsReady(ps, setters, cfg, given, camel, pascal, read)
    ensures var gs := GoArgs(ArgsFor(ps, given), pascal, read);
      && gs.Ok?
      && var out := ApplyOptions(setters, cfg, gs.value);
      && out.Some? && OptionsSet(ps, cfg, out.value, given, camel, read)
  {
    if ps != [] {
      var p, tail, v := ps[0], ps[1..], Intended(ps[0], given, read).value;
      ReadyTail(ps, setters, cfg, given, camel, pascal, read, v);
      OptionsApply(tail, setters, cfg[camel(p.name) := v], given, camel, pascal, read);
      FirstSplits(ps);
      OptionStep(p, tail, setters, cfg, given, camel, pascal, read);
      SetTail(ps, cfg, ApplyOptions(setters, cfg, GoArgs(ArgsFor(ps, given), pascal, read).value).value,
              given, camel, read, v);
    }
  }

  ghost predicate LocalsAre(sig: seq<Slot>, plain: seq<GoArg>, locals: Env)
    requires |plain| == |sig| && forall i | 0 <= i < |plain| :: plain[i].Plain?
  {
    forall i | 0 <= i < |sig| :: sig[i].ident in locals && locals[sig[i].ident] == plain[i].value
  }

  lemma {:induction false} BindGoSplits(sig: seq<Slot>, setters: seq<Setter>, plain: seq<GoArg>, options: seq<GoArg>)
    requires |plain| == |sig| && DistinctSlots(sig) && forall i | 0 <= i < |plain| :: plain[i].Plain?
    requires ApplyOptions(setters, Seeded(setters), options).Some?
    ensures var f := BindGo(sig, setters, plain + options);
      && f.Some? && Some(f.value.cfg) == ApplyOptions(setters, Seeded(setters), options)
      && LocalsAre(sig, plain, f.value.locals)
  {
    if sig == [] {
      assert plain + options == options;
    } else {
      BindGoSplits(sig[1..], setters, plain[1..], options);
      assert (plain + options)[1..] == plain[1..] + options;
      assert forall i | 0 < i < |sig| :: sig[i] == sig[1..][i - 1] && plain[i] == plain[1..][i - 1];
    }
  }

  lemma GoOptionsBind(ds: seq<Param>, given: map<string, string>, read: Reader, camel: Naming, pascal: Naming)
    requires forall i | 0 <= i < |ds| :: ds[i].Defaulted?
    requires Readable(ds, given, read) && DistinctUnder(camel, ds) && DistinctUnder(pascal, ds)
    ensures var gs := GoArgs(ArgsFor(ds, given), pascal, read); var ss := Setters(ds, camel, pascal);
      && gs.Ok?
      && var out := ApplyOptions(ss, Seeded(ss), gs.value);
      && out.Some? && EnvHasAll(out.value, ds, given, read, camel)
  {
    var ss := Setters(ds, camel, pascal);
    SeededFields(ss);
    forall i | 0 <= i < |ds|
      ensures FieldOf(ss, pascal(ds[i].name)) == Some(camel(ds[i].name))
      ensures camel(ds[i].name) in Seeded(ss) && Seeded(ss)[camel(ds[i].name)] == ds[i].fallback
    {
      FieldFound(ss, i);
      assert ss[i] == SetterFor(ds[i], camel, pascal);
    }
    assert OptionsReady(ds, ss, Seeded(ss), given, camel, pascal, read);
    OptionsApply(ds, ss, Seeded(ss), given, camel, pascal, read);
  }

  lemma GoArgsSplit(params: seq<Param>, given: map<string, string>, read: Reader, pascal: Naming)
    ensures GoArgs(ArgsFor(RequiredFirst(params), given), pascal, read)
            == Chain(GoArgs(ArgsFor(Requireds(params), given), pascal, read),
                     GoArgs(ArgsFor(Defaulteds(params), given), pascal, read))
  {
    var rs, ds := Requireds(params), Defaulteds(params);
    assert ArgsFor(RequiredFirst(params), given) == ArgsFor(rs, given) + ArgsFor(ds, given);
    WrittenAppend(GoPiece(pascal, read), ArgsFor(rs, given), ArgsFor(ds, given));
  }

  /** The intended values, in order, as plain arguments. */
  ghost predicate PlainsFor(gs: seq<GoArg>, rs: seq<Param>, given: map<string, string>, read: Reader) {
    && |gs| == |rs| && (forall i | 0 <= i < |gs| :: gs[i].Plain?)
    && forall i | 0 <= i < |gs| :: Intended(rs[i], given, read) == Ok(gs[i].value)
  }

  lemma PlainsOfRequired(rs: seq<Param>, given: map<string, string>, naming: Naming, read: Reader)
    requires Complete(rs, given) && Readable(rs, given, read) && forall i | 0 <= i < |rs| :: rs[i].Required?
    ensures var gs := GoArgs(ArgsFor(rs, given), naming, read);
      gs.Ok? && PlainsFor(gs.value, rs, given, read)
  {
    GoArgsOfRequired(rs, given, naming, read);
    var gs := GoArgs(ArgsFor(rs, given), naming, read).value;
    forall i | 0 <= i < |rs| ensures gs[i].Plain? && Intended(rs[i], given, read) == Ok(gs[i].value) {
      assert Ok(gs[i]) == GoOf(rs[i], given, read);
    }
  }

  /** The Go frame of a call: every required parameter among the locals, every defaulted
      one among the options. */
  lemma GoFrame(rs: seq<Param>, ds: seq<Param>, given: map<string, string>, read: Reader, camel: Naming, pascal: Naming)
    requires Complete(rs, given) && Readable(rs, given, read) && Readable(ds, given, read)
    requires forall i | 0 <= i < |rs| :: rs[i].Required?
    requires forall i | 0 <= i < |ds| :: ds[i].Defaulted?
    requires DistinctUnder(camel, rs) && DistinctUnder(camel, ds) && DistinctUnder(pascal, ds)
    ensures var call := Chain(GoArgs(ArgsFor(rs, given), pascal, read), GoArgs(ArgsFor(ds, given), pascal, read));
      && call.Ok?
      && var f := BindGo(Signature(rs, camel), Setters(ds, camel, pascal), call.value);
      && f.Some?
      && EnvHasAll(f.value.locals, rs, given, read, camel) && EnvHasAll(f.value.cfg, ds, given, read, camel)
  {
    PlainsOfRequired(rs, given, pascal, read);
    GoOptionsBind(ds, given, read, camel, pascal);
    var plain := GoArgs(ArgsFor(rs, given), pascal, read).value;
    var options := GoArgs(ArgsFor(ds, given), pascal, read).value;
    var sig, ss := Signature(rs, camel), Setters(ds, camel, pascal);
    BindGoSplits(sig, ss, plain, options);
    LocalsHave(rs, plain, BindGo(sig, ss, plain + options).value.locals, given, read, camel);
  }

  lemma LocalsHave(rs: seq<Param>, plain: seq<GoArg>, locals: Env, given: map<string, string>, read: Reader,
                   camel: Naming)
    requires PlainsFor(plain, rs, given, read) && LocalsAre(Signature(rs, camel), plain, locals)
    ensures EnvHasAll(locals, rs, given, read, camel)
  {
    forall i | 0 <= i < |rs| ensures EnvHas(locals, rs[i], given, read, camel) {
      assert Signature(rs, camel)[i].ident == camel(rs[i].name);
    }
  }

  ghost predicate EnvHasAll(env: Env, ps: seq<Param>, given: map<string, string>, read: Reader, naming: Naming) {
    forall i | 0 <= i < |ps| :: EnvHas(env, ps[i], given, read, naming)
  }

  ghost predicate EnvHas(env: Env, p: Param, given: map<string, string>, read: Reader, naming: Naming) {
    Intended(p, given, read).Ok? && EnvReads(env, p, naming, Intended(p, given, read).value)
  }

  /** The Go call, positional values then options over a seeded struct, binds every
      parameter as intended. */
  lemma GoCallBinds(params: seq<Param>, given: map<string, string>, read: Reader, camel: Naming, pascal: Naming,
                    p: Param)
    requires Complete(params, given) && Readable(params, given, read) && p in params
    requires DistinctUnder(camel, params) && DistinctUnder(pascal, Defaulteds(params))
    ensures var call := GoArgs(ArgsFor(RequiredFirst(params), given), pascal, read);
      && call.Ok?
      && var f := BindGo(Signature(Requireds(params), camel), Setters(Defaulteds(params), camel, pascal), call.value);
      && f.Some? && Intended(p, given, read).Ok? && GoReads(f.value, p, camel, Intended(p, given, read).value)
  {
    GroupsKeepDistinct(camel, params);
    GoArgsSplit(params, given, read, pascal);
    GoFrame(Requireds(params), Defaulteds(params), given, read, camel, pascal);
    GroupOf(params, p);
  }

  lemma GroupOf(params: seq<Param>, p: Param)
    requires p in params
    ensures if p.Required? then p in Requireds(params) else p in Defaulteds(params)
  {
    var k := PlaceOf(params, p);
    var n := |Requireds(params)|;
    assert p == if k < n then Requireds(params)[k] else Defaulteds(params)[k - n];
  }

  // -------------------------------------------------------------- the three together

  /** The generated code exists: every language's identifiers are distinct. */
  ghost predicate Generated(params: seq<Param>, camel: Naming, pascal: Naming, snake: Naming) {
    DistinctUnder(camel, params) && DistinctUnder(pascal, Defaulteds(params)) && DistinctUnder(snake, params)
  }

  /** For any mix of required and defaulted parameters and any complete arguments that
      read, the three calls bind every parameter to the same value: the given one, else
      the default. */
  lemma ThreeCallsBindTheSame(params: seq<Param>, given: map<string, string>, read: Reader,
                              camel: Naming, pascal: Naming, snake: Naming, p: Param)
    requires Complete(params, given) && Readable(params, given, read) && Generated(params, camel, pascal, snake)
    requires p in params
    ensures var order := ArgsFor(RequiredFirst(params), given);
      var ts, py, go := Positional(order, read), Keywords(ArgsFor(params, given), snake, read),
          GoArgs(order, pascal, read);
      && ts.Ok? && py.Ok? && go.Ok?
      && var tsEnv := BindPositional(Signature(RequiredFirst(params), camel), ts.value);
      && var pyEnv := BindKeywords(Signature(RequiredFirst(params), snake), py.value);
      && var goFrame := BindGo(Signature(Requireds(params), camel), Setters(Defaulteds(params), camel, pascal),
                               go.value);
      && tsEnv.Some? && pyEnv.Some? && goFrame.Some?
      && exists v :: Intended(p, given, read) == Ok(v)
           && EnvReads(tsEnv.value, p, camel, v) && EnvReads(pyEnv.value, p, snake, v)
           && GoReads(goFrame.value, p, camel, v)
  {
    TSCallBinds(params, given, read, camel, p);
    PyCallBinds(params, given, read, snake, p);
    GoCallBinds(params, given, read, camel, pascal, p);
    var v := Intended(p, given, read).value;
    assert Intended(p, given, read) == Ok(v);
  }

  predicate Reads(p: Param, given: map<string, string>, read: Reader) {
    p.name in given ==> read(p.typ, given[p.name]).Ok?
  }

  /** A caller that each argument stops only if it is given and does not read. */
  lemma CallerReads<T>(piece: Arg -> Result<seq<T>>, ps: seq<Param>, given: map<string, string>, read: Reader)
    requires forall p | p in ps :: piece(ArgFor(p, given)).Ok? <==> Reads(p, given, read)
    ensures Written(piece, ArgsFor(ps, given)).Ok? <==> Readable(ps, given, read)
  {
    WrittenOk(piece, ArgsFor(ps, given));
    forall i | 0 <= i < |ps|
      ensures piece(ArgsFor(ps, given)[i]).Ok? <==> Reads(ps[i], given, read)
    {
      assert ps[i] in ps;
    }
  }

  lemma PieceReads(p: Param, given: map<string, string>, read: Reader, pascal: Naming, snake: Naming)
    requires p.Required? ==> p.name in given
    ensures PositionalPiece(read)(ArgFor(p, given)).Ok? <==> Reads(p, given, read)
    ensures KeywordPiece(snake, read)(ArgFor(p, given)).Ok? <==> Reads(p, given, read)
    ensures GoPiece(pascal, read)(ArgFor(p, given)).Ok? <==> Reads(p, given, read)
  {
  }

  lemma PiecesRead(ps: seq<Param>, given: map<string, string>, read: Reader, pascal: Naming, snake: Naming)
    requires Complete(ps, given)
    ensures Positional(ArgsFor(ps, given), read).Ok? <==> Readable(ps, given, read)
    ensures Keywords(ArgsFor(ps, given), snake, read).Ok? <==> Readable(ps, given, read)
    ensures GoArgs(ArgsFor(ps, given), pascal, read).Ok? <==> Readable(ps, given, read)
  {
    forall p | p in ps
      ensures PositionalPiece(read)(ArgFor(p, given)).Ok? <==> Reads(p, given, read)
      ensures KeywordPiece(snake, read)(ArgFor(p, given)).Ok? <==> Reads(p, given, read)
      ensures GoPiece(pascal, read)(ArgFor(p, given)).Ok? <==> Reads(p, given, read)
    {
      PieceReads(p, given, read, pascal, snake);
    }
    CallerReads(PositionalPiece(read), ps, given, read);
    CallerReads(KeywordPiece(snake, read), ps, given, read);
    CallerReads(GoPiece(pascal, read), ps, given, read);
  }

  lemma SameParamsSameReading(a: seq<Param>, b: seq<Param>, given: map<string, string>, read: Reader)
    requires forall p :: p in a <==> p in b
    ensures Readable(a, given, read) <==> Readable(b, given, read)
    ensures Complete(a, given) <==> Complete(b, given)
  {
    assert forall i | 0 <= i < |a| :: a[i] in b;
    assert forall i | 0 <= i < |b| :: b[i] in a;
  }

  /** The three callers accept exactly the same complete arguments: those that read. */
  lemma CallersAgreeOnWhatReads(params: seq<Param>, given: map<string, string>, read: Reader, pascal: Naming,
                                snake: Naming)
    requires Complete(params, given)
    ensures var order := ArgsFor(RequiredFirst(params), given);
      && (Positional(order, read).Ok? <==> Readable(params, given, read))
      && (Keywords(ArgsFor(params, given), snake, read).Ok? <==> Readable(params, given, read))
      && (GoArgs(order, pascal, read).Ok? <==> Readable(params, given, read))
  {
    RequiredFirstIsPermutation(params);
    SameMembers(RequiredFirst(params), params);
    SameParamsSameReading(RequiredFirst(params), params, given, read);
    PiecesRead(RequiredFirst(params), given, read, pascal, snake);
    PiecesRead(params, given, read, pascal, snake);
  }
}
