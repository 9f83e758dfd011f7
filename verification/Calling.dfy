/** One list of parameters, one set of arguments, and three ways to write the call. */
module Calling {
  import opened Common

  datatype ParamType = StringParam | NumberParam | BoolParam | StringListParam | NumberListParam | CrossRefParam

  datatype Value =
    | TextValue(text: string)
    | NumberValue(number: real)
    | BoolValue(truth: bool)
    | ListValue(items: seq<Value>)
    | CrossValue(stack: string, target: string)

  datatype Param =
    | Required(name: string, typ: ParamType)
    | Defaulted(name: string, typ: ParamType, fallback: Value)

  /** A declared parameter with the call's own text for it, if the call gives one. */
  datatype Arg = Arg(param: Param, raw: Option<string>)

  /** What an argument's text denotes as a value of a type; it fails on text that is not
      of the type. The same for every language. */
  type Reader = (ParamType, string) -> Result<Value>

  /** A language's rule for turning a parameter's name into an identifier. */
  type Naming = string -> string

  ghost predicate UniqueNames(params: seq<Param>) {
    forall i, j | 0 <= i < j < |params| :: params[i].name != params[j].name
  }

  /** What the generators' identifier checks establish before they emit a signature. */
  ghost predicate DistinctUnder(naming: Naming, params: seq<Param>) {
    forall i, j | 0 <= i < j < |params| :: naming(params[i].name) != naming(params[j].name)
  }

  // ------------------------------------------------------------------ declarations

  /** parseParams: entries in file order, each with what its spec text parses to. */
  method ParseParams(entries: seq<(string, Option<Param>)>) returns (r: Result<seq<Param>>)
    requires forall i | 0 <= i < |entries| :: entries[i].1.Some? ==> entries[i].1.value.name == entries[i].0
    ensures r.Ok? <==> (forall i, j | 0 <= i < j < |entries| :: entries[i].0 != entries[j].0)
                       && (forall i | 0 <= i < |entries| :: entries[i].1.Some?)
    ensures r.Ok? ==> UniqueNames(r.value) && |r.value| == |entries|
                      && forall i | 0 <= i < |entries| :: entries[i].1 == Some(r.value[i])
  {
    var params: seq<Param> := [];
    var seen: set<string> := {};
    for i := 0 to |entries|
      invariant |params| == i
      invariant forall k | 0 <= k < i :: entries[k].1 == Some(params[k])
      invariant seen == set k | 0 <= k < i :: entries[k].0
      invariant forall j, k | 0 <= j < k < i :: entries[j].0 != entries[k].0
    {
      var (name, spec) := entries[i];
      if name in seen || spec.None? {
        return Err;
      }
      seen := seen + {name};
      params := params + [spec.value];
    }
    return Ok(params);
  }

  // ----------------------------------------------------------- required first order

  function Kept<T>(keep: T -> bool, s: seq<T>): (r: seq<T>)
    ensures forall i | 0 <= i < |r| :: keep(r[i]) && r[i] in s
  {
    if s == [] then [] else (if keep(s[0]) then [s[0]] else []) + Kept(keep, s[1..])
  }

  predicate IsRequired(p: Param) { p.Required? }

  predicate IsDefaulted(p: Param) { p.Defaulted? }

  function Requireds(params: seq<Param>): (r: seq<Param>)
    ensures forall i | 0 <= i < |r| :: r[i].Required?
  {
    Kept(IsRequired, params)
  }

  function Defaulteds(params: seq<Param>): (r: seq<Param>)
    ensures forall i | 0 <= i < |r| :: r[i].Defaulted?
  {
    Kept(IsDefaulted, params)
  }

  function RequiredFirst(params: seq<Param>): seq<Param> { Requireds(params) + Defaulteds(params) }

  lemma {:induction false} KeptAppend<T>(keep: T -> bool, a: seq<T>, b: seq<T>)
    ensures Kept(keep, a + b) == Kept(keep, a) + Kept(keep, b)
  {
    if a == [] {
      assert a + b == b;
    } else {
      KeptAppend(keep, a[1..], b);
      assert (a + b)[1..] == a[1..] + b;
      Regroup(if keep(a[0]) then [a[0]] else [], Kept(keep, a[1..]), Kept(keep, b));
    }
  }

  lemma {:induction false} KeptAllOrNone<T>(keep: T -> bool, s: seq<T>)
    ensures (forall x | x in s :: keep(x)) ==> Kept(keep, s) == s
    ensures (forall x | x in s :: !keep(x)) ==> Kept(keep, s) == []
  {
    if s != [] {
      KeptAllOrNone(keep, s[1..]);
      assert s == [s[0]] + s[1..];
    }
  }

  lemma KeptSnoc<T>(keep: T -> bool, s: seq<T>, i: nat)
    requires i < |s|
    ensures Kept(keep, s[..i + 1]) == Kept(keep, s[..i]) + (if keep(s[i]) then [s[i]] else [])
  {
    assert s[..i + 1] == s[..i] + [s[i]];
    KeptAppend(keep, s[..i], [s[i]]);
  }

  method RequiredFirstOrder(params: seq<Param>) returns (ordered: seq<Param>)
    ensures ordered == RequiredFirst(params)
  {
    ordered := [];
    for i := 0 to |params|
      invariant ordered == Requireds(params[..i])
    {
      KeptSnoc(IsRequired, params, i);
      if params[i].Required? {
        ordered := ordered + [params[i]];
      }
    }
    assert params[..|params|] == params;
    for i := 0 to |params|
      invariant ordered == Requireds(params) + Defaulteds(params[..i])
    {
      KeptSnoc(IsDefaulted, params, i);
      if params[i].Defaulted? {
        ordered := ordered + [params[i]];
      }
    }
  }

  lemma {:induction false} RequiredFirstIsPermutation(params: seq<Param>)
    ensures multiset(RequiredFirst(params)) == multiset(params)
  {
    if params != [] {
      var rs, ds := Requireds(params[1..]), Defaulteds(params[1..]);
      RequiredFirstIsPermutation(params[1..]);
      OneMoreMember(params[0], rs, ds);
      FirstSplits(params);
      assert Requireds(params) == (if params[0].Required? then [params[0]] else []) + rs;
      assert Defaulteds(params) == (if params[0].Required? then [] else [params[0]]) + ds;
    }
  }

  lemma OneMoreMember<T>(x: T, a: seq<T>, b: seq<T>)
    ensures multiset(([x] + a) + ([] + b)) == multiset([x]) + multiset(a + b)
    ensures multiset(([] + a) + ([x] + b)) == multiset([x]) + multiset(a + b)
  {
    assert [] + a == a && [] + b == b;
  }

  lemma GroupsOfGroups(params: seq<Param>)
    ensures var r := RequiredFirst(params); Requireds(r) == Requireds(params) && Defaulteds(r) == Defaulteds(params)
  {
    KeptOfGroups(IsRequired, Requireds(params), Defaulteds(params));
    KeptOfGroups(IsDefaulted, Requireds(params), Defaulteds(params));
  }

  /** A choice that keeps all of one group and none of the other. */
  lemma KeptOfGroups<T>(keep: T -> bool, a: seq<T>, b: seq<T>)
    ensures (forall x | x in a :: keep(x)) && (forall x | x in b :: !keep(x)) ==> Kept(keep, a + b) == a
    ensures (forall x | x in a :: !keep(x)) && (forall x | x in b :: keep(x)) ==> Kept(keep, a + b) == b
  {
    KeptAppend(keep, a, b);
    KeptAllOrNone(keep, a);
    KeptAllOrNone(keep, b);
    assert a + [] == a && [] + b == b;
  }

  /** The reordering is a stable grouping: a permutation, every required parameter before
      every defaulted one, and each group in declaration order. */
  lemma RequiredFirstIsStableGrouping(params: seq<Param>)
    ensures var r := RequiredFirst(params);
      && multiset(r) == multiset(params)
      && (forall i, j | 0 <= i < j < |r| :: r[j].Required? ==> r[i].Required?)
      && Requireds(r) == Requireds(params) && Defaulteds(r) == Defaulteds(params)
  {
    RequiredFirstIsPermutation(params);
    GroupsOfGroups(params);
  }

  /** Where a parameter stands after the reordering. */
  lemma PlaceOf(params: seq<Param>, p: Param) returns (k: nat)
    requires p in params
    ensures k < |RequiredFirst(params)| && RequiredFirst(params)[k] == p
  {
    RequiredFirstIsPermutation(params);
    SameMembers(RequiredFirst(params), params);
    k :| 0 <= k < |RequiredFirst(params)| && RequiredFirst(params)[k] == p;
  }

  lemma {:induction false} KeptDistinct(naming: Naming, keep: Param -> bool, params: seq<Param>)
    requires DistinctUnder(naming, params)
    ensures DistinctUnder(naming, Kept(keep, params))
  {
    if params != [] {
      var tail := params[1..];
      KeptDistinct(naming, keep, tail);
      forall p | p in Kept(keep, tail) ensures naming(p.name) != naming(params[0].name) {
        var k :| 0 <= k < |tail| && tail[k] == p;
        assert params[k + 1] == p;
      }
    }
  }

  lemma GroupsKeepDistinct(naming: Naming, params: seq<Param>)
    requires DistinctUnder(naming, params)
    ensures DistinctUnder(naming, Requireds(params)) && DistinctUnder(naming, Defaulteds(params))
    ensures DistinctUnder(naming, RequiredFirst(params))
  {
    KeptDistinct(naming, IsRequired, params);
    KeptDistinct(naming, IsDefaulted, params);
    forall p, q | p in Requireds(params) && q in Defaulteds(params) ensures naming(p.name) != naming(q.name) {
      var i :| 0 <= i < |params| && params[i] == p;
      var j :| 0 <= j < |params| && params[j] == q;
      assert i != j;
    }
  }

  // ------------------------------------------------------------------ the arguments

  function ArgFor(p: Param, given: map<string, string>): Arg {
    Arg(p, if p.name in given then Some(given[p.name]) else None)
  }

  function ArgsFor(params: seq<Param>, given: map<string, string>): (args: seq<Arg>)
    ensures |args| == |params|
  {
    seq(|params|, i requires 0 <= i < |params| => ArgFor(params[i], given))
  }

  ghost predicate Complete(params: seq<Param>, given: map<string, string>) {
    forall i | 0 <= i < |params| :: params[i].Required? ==> params[i].name in given
  }

  /** resolveCallArgs: a missing required parameter is the only failure. */
  method ResolveCallArgs(params: seq<Param>, given: map<string, string>) returns (r: Result<seq<Arg>>)
    ensures r.Ok? <==> Complete(params, given)
    ensures r.Ok? ==> r.value == ArgsFor(params, given)
  {
    var out: seq<Arg> := [];
    for i := 0 to |params|
      invariant Complete(params[..i], given)
      invariant out == ArgsFor(params[..i], given)
    {
      var p := params[i];
      var raw := if p.name in given then Some(given[p.name]) else None;
      if raw.None? && p.Required? {
        return Err;
      }
      out := out + [Arg(p, raw)];
      assert params[..i + 1] == params[..i] + [p];
    }
    assert params[..|params|] == params;
    return Ok(out);
  }

  /** argLiteralOrDefault. */
  function Literal(a: Arg, read: Reader): Result<Value> {
    match a.raw
    case Some(raw) => read(a.param.typ, raw)
    case None => if a.param.Defaulted? then Ok(a.param.fallback) else Err
  }

  /** The value a parameter must get: the given one, else its default. */
  function Intended(p: Param, given: map<string, string>, read: Reader): Result<Value> {
    if p.name in given then read(p.typ, given[p.name])
    else if p.Defaulted? then Ok(p.fallback)
    else Err
  }

  /** Every argument the call gives for a declared parameter reads as its type. */
  ghost predicate Readable(params: seq<Param>, given: map<string, string>, read: Reader) {
    forall i | 0 <= i < |params| :: params[i].name in given ==> read(params[i].typ, given[params[i].name]).Ok?
  }

  /** Every argument under its parameter's name. */
  ghost predicate IndexedByName(byName: map<string, Arg>, params: seq<Param>, given: map<string, string>) {
    forall k | 0 <= k < |params| :: params[k].name in byName && byName[params[k].name] == ArgFor(params[k], given)
  }

  /** The reordering both positional callers do, through a map keyed by name. */
  method OrderArgs(args: seq<Arg>, ghost params: seq<Param>, ghost given: map<string, string>)
      returns (ordered: seq<Arg>)
    requires UniqueNames(params) && args == ArgsFor(params, given)
    ensures ordered == ArgsFor(RequiredFirst(params), given)
  {
    var byName, ps := IndexArgs(args, params, given);
    var order := RequiredFirstOrder(ps);
    ordered := [];
    for i := 0 to |order|
      invariant ordered == ArgsFor(order[..i], given)
    {
      IndexedUnder(byName, params, given, order[i]);
      ordered := ordered + [byName[order[i].name]];
      ArgsForStep(order, i, given);
    }
    assert order[..|order|] == order;
  }

  method IndexArgs(args: seq<Arg>, ghost params: seq<Param>, ghost given: map<string, string>)
      returns (byName: map<string, Arg>, ps: seq<Param>)
    requires UniqueNames(params) && args == ArgsFor(params, given)
    ensures ps == params && IndexedByName(byName, params, given)
  {
    byName, ps := map[], [];
    for i := 0 to |args|
      invariant ps == params[..i] && IndexedByName(byName, params[..i], given)
    {
      byName := byName[args[i].param.name := args[i]];
      ps := ps + [args[i].param];
    }
    assert params[..|args|] == params;
  }

  lemma IndexedUnder(byName: map<string, Arg>, params: seq<Param>, given: map<string, string>, p: Param)
    requires IndexedByName(byName, params, given) && p in params
    ensures p.name in byName && byName[p.name] == ArgFor(p, given)
  {
    var k :| 0 <= k < |params| && params[k] == p;
  }

  lemma ArgsForStep(order: seq<Param>, i: nat, given: map<string, string>)
    requires i < |order|
    ensures ArgsFor(order[..i + 1], given) == ArgsFor(order[..i], given) + [ArgFor(order[i], given)]
  {
  }

  // ------------------------------------------------------------- the three call forms

  function Chain<T>(a: Result<seq<T>>, b: Result<seq<T>>): Result<seq<T>> {
    if a.Err? || b.Err? then Err else Ok(a.value + b.value)
  }

  /** What a caller writes for a list of arguments, given what it writes for each one. */
  function Written<T>(piece: Arg -> Result<seq<T>>, args: seq<Arg>): Result<seq<T>> {
    if args == [] then Ok([]) else Chain(piece(args[0]), Written(piece, args[1..]))
  }

  /** TypeScript: every argument, as a value. */
  function PositionalPiece(read: Reader): Arg -> Result<seq<Value>> {
    (a: Arg) => match Literal(a, read) case Err => Err case Ok(v) => Ok([v])
  }

  /** Python: a keyword for every parameter the call gives. */
  function KeywordPiece(naming: Naming, read: Reader): Arg -> Result<seq<(string, Value)>> {
    (a: Arg) =>
      if a.raw.None? then Ok([])
      else match Literal(a, read) case Err => Err case Ok(v) => Ok([(naming(a.param.name), v)])
  }

  datatype GoArg = Plain(value: Value) | With(option: string, value: Value)

  /** Go: a plain value for a required parameter, an option for a given default. */
  function GoPiece(naming: Naming, read: Reader): Arg -> Result<seq<GoArg>> {
    (a: Arg) =>
      if a.param.Defaulted? && a.raw.None? then Ok([])
      else
        match Literal(a, read)
        case Err => Err
        case Ok(v) => Ok([if a.param.Required? then Plain(v) else With(naming(a.param.name), v)])
  }

  function Positional(args: seq<Arg>, read: Reader): Result<seq<Value>> { Written(PositionalPiece(read), args) }

  function Keywords(args: seq<Arg>, naming: Naming, read: Reader): Result<seq<(string, Value)>> {
    Written(KeywordPiece(naming, read), args)
  }

  function GoArgs(args: seq<Arg>, naming: Naming, read: Reader): Result<seq<GoArg>> {
    Written(GoPiece(naming, read), args)
  }

  lemma {:induction false} WrittenAppend<T>(piece: Arg -> Result<seq<T>>, a: seq<Arg>, b: seq<Arg>)
    ensures Written(piece, a + b) == Chain(Written(piece, a), Written(piece, b))
  {
    if a == [] {
      assert a + b == b;
      if Written(piece, b).Ok? {
        assert [] + Written(piece, b).value == Written(piece, b).value;
      }
    } else {
      WrittenAppend(piece, a[1..], b);
      assert (a + b)[1..] == a[1..] + b;
      if piece(a[0]).Ok? && Written(piece, a[1..]).Ok? && Written(piece, b).Ok? {
        Regroup(piece(a[0]).value, Written(piece, a[1..]).value, Written(piece, b).value);
      }
    }
  }

  lemma WrittenSnoc<T>(piece: Arg -> Result<seq<T>>, args: seq<Arg>, i: nat)
    requires i < |args|
    ensures Written(piece, args[..i + 1]) == Chain(Written(piece, args[..i]), piece(args[i]))
    ensures piece(args[i]).Err? ==> Written(piece, args).Err?
  {
    assert args[..i + 1] == args[..i] + [args[i]];
    WrittenAppend(piece, args[..i], [args[i]]);
    assert [args[i]][1..] == [];
    if piece(args[i]).Ok? {
      assert piece(args[i]).value + [] == piece(args[i]).value;
    }
    assert args == args[..i + 1] + args[i + 1..];
    WrittenAppend(piece, args[..i + 1], args[i + 1..]);
  }

  lemma {:induction false} WrittenOk<T>(piece: Arg -> Result<seq<T>>, args: seq<Arg>)
    ensures Written(piece, args).Ok? <==> forall i | 0 <= i < |args| :: piece(args[i]).Ok?
  {
    if args != [] {
      WrittenOk(piece, args[1..]);
      assert forall i | 0 < i < |args| :: args[i] == args[1..][i - 1];
    }
  }

  /** The argument loop of writeTSCaller. */
  method WriteTSCaller(args: seq<Arg>, read: Reader, ghost params: seq<Param>, ghost given: map<string, string>)
      returns (r: Result<seq<Value>>)
    requires UniqueNames(params) && args == ArgsFor(params, given)
    ensures r == Positional(ArgsFor(RequiredFirst(params), given), read)
  {
    var ordered := OrderArgs(args, params, given);
    var exprs: seq<Value> := [];
    for i := 0 to |ordered|
      invariant Positional(ordered[..i], read) == Ok(exprs)
    {
      WrittenSnoc(PositionalPiece(read), ordered, i);
      var lit := Literal(ordered[i], read);
      if lit.Err? {
        return Err;
      }
      exprs := exprs + [lit.value];
    }
    assert ordered[..|ordered|] == ordered;
    return Ok(exprs);
  }

  /** The argument loop of writePyCaller, over the declaration order. */
  method WritePyCaller(args: seq<Arg>, naming: Naming, read: Reader) returns (r: Result<seq<(string, Value)>>)
    ensures r == Keywords(args, naming, read)
  {
    var parts: seq<(string, Value)> := [];
    for i := 0 to |args|
      invariant Keywords(args[..i], naming, read) == Ok(parts)
    {
      var a := args[i];
      WrittenSnoc(KeywordPiece(naming, read), args, i);
      if a.raw.Some? {
        var lit := Literal(a, read);
        if lit.Err? {
          return Err;
        }
        parts := parts + [(naming(a.param.name), lit.value)];
      } else {
        assert parts + [] == parts;
      }
    }
    assert args[..|args|] == args;
    return Ok(parts);
  }

  /** The argument loop of writeGoCaller. */
  method WriteGoCaller(args: seq<Arg>, naming: Naming, read: Reader, ghost params: seq<Param>,
                       ghost given: map<string, string>) returns (r: Result<seq<GoArg>>)
    requires UniqueNames(params) && args == ArgsFor(params, given)
    ensures r == GoArgs(ArgsFor(RequiredFirst(params), given), naming, read)
  {
    var ordered := OrderArgs(args, params, given);
    var callArgs: seq<GoArg> := [];
    for i := 0 to |ordered|
      invariant GoArgs(ordered[..i], naming, read) == Ok(callArgs)
    {
      var a := ordered[i];
      WrittenSnoc(GoPiece(naming, read), ordered, i);
      if a.param.Required? || a.raw.Some? {
        var lit := Literal(a, read);
        if lit.Err? {
          return Err;
        }
        callArgs := callArgs + [if a.param.Required? then Plain(lit.value) else With(naming(a.param.name), lit.value)];
      } else {
        assert callArgs + [] == callArgs;
      }
    }
    assert ordered[..|ordered|] == ordered;
    return Ok(callArgs);
  }
}
