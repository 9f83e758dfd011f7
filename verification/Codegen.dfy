/** The code a generator emits for a decoded blueprint, as a small syntax tree with an
    evaluator, next to what the blueprint itself means.

    The three generators share this shape.  They differ in which identifiers they pick
    (Names), in how they write a string with placeholders, and in whether a ported
    function call may be emitted at all. */
module Codegen {
  import opened Common
  import opened Blueprint
  import opened Decode
  import Interpolation
  import Restacking
  import Splice

  // ------------------------------------------------------------- emitted syntax

  datatype Expr =
    | ENull
    | EBool(b: bool)
    | ENum(n: real)
    | EText(s: string)
    | EMap(fields: map<string, Expr>)
    | EList(items: seq<Expr>)
    | EVar(ident: string)
    | EArith(ident: string, op: string, literal: string)
    | EField(ident: string, path: seq<string>)
    | EAddress(ident: string, path: seq<string>)
    | EConcat(parts: seq<Expr>)
    | ETemplate(lang: Lang, source: string, holes: seq<Expr>)
    | ECall(fn: string, args: seq<Expr>)

  /** sdk.Resource(binding, name, config). */
  datatype Call = Call(rtype: string, name: Expr, config: map<string, Expr>)

  datatype Term = Term(ident: string, negated: bool)

  datatype Stmt =
    | SBind(ident: string, call: Call)
    | SCall(call: Call)
    | SIf(terms: seq<Term>, call: Call)
    | SFor(source: string, value: string, index: string, accum: string, call: Call)

  datatype Program = Program(body: seq<Stmt>, results: seq<Expr>)

  // ------------------------------------------------------------------ run time

  /** VHandle is the SDK's Computed: a resource and a path of attributes into it. */
  datatype Value =
    | VNull
    | VBool(b: bool)
    | VNum(n: real)
    | VText(s: string)
    | VMap(fields: map<string, Value>)
    | VList(items: seq<Value>)
    | VHandle(address: string, path: seq<string>)

  type Frame = map<string, Value>

  /** The language runtime: the calling stack's name, how a value prints inside a
      string, placeholder arithmetic, and ported functions. */
  datatype Host = Host(
    stack: string,
    show: Value -> string,
    arith: (Value, string, string) -> Value,
    call: (string, seq<Value>) -> Value)

  datatype Created = Created(rtype: string, name: string, config: map<string, Value>) {
    function Handle(): Value { VHandle(rtype + "." + name, []) }
  }

  function Show(h: Host, v: Value): string { if v.VText? then v.s else h.show(v) }

  function ShowAll(h: Host, vs: seq<Value>): string {
    if vs == [] then [] else Show(h, vs[0]) + ShowAll(h, vs[1..])
  }

  /** The address text of a handle, which names the calling stack. */
  function RuntimeAddress(stack: string, address: string, path: seq<string>): string {
    stack + "." + address + JoinDots(path)
  }

  /** How an expression is written in the hole of a template. */
  function HoleText(e: Expr): string {
    match e
    case EVar(x) => x
    case EArith(x, op, lit) => "(" + x + " " + (op + " " + lit) + ")"
    case _ => []
  }

  function HoleTexts(es: seq<Expr>): (texts: seq<string>)
    ensures |texts| == |es|
  {
    seq(|es|, i requires 0 <= i < |es| => HoleText(es[i]))
  }

  function Shown(h: Host, vs: seq<Value>): (texts: seq<string>)
    ensures |texts| == |vs|
  {
    seq(|vs|, i requires 0 <= i < |vs| => Show(h, vs[i]))
  }

  function Eval(e: Expr, f: Frame, h: Host): Result<Value> {
    match e
    case ENull => Ok(VNull)
    case EBool(b) => Ok(VBool(b))
    case ENum(n) => Ok(VNum(n))
    case EText(s) => Ok(VText(s))
    case EMap(fields) =>
      if forall k | k in fields :: Eval(fields[k], f, h).Ok?
      then Ok(VMap(map k | k in fields :: Eval(fields[k], f, h).value)) else Err
    case EList(items) =>
      if forall i | 0 <= i < |items| :: Eval(items[i], f, h).Ok?
      then Ok(VList(seq(|items|, i requires 0 <= i < |items| => Eval(items[i], f, h).value))) else Err
    case EVar(x) => if x in f then Ok(f[x]) else Err
    case EArith(x, op, lit) => if x in f then Ok(h.arith(f[x], op, lit)) else Err
    case EField(x, path) =>
      if x in f && f[x].VHandle? then Ok(VHandle(f[x].address, f[x].path + path)) else Err
    case EAddress(x, path) =>
      if x in f && f[x].VHandle? then Ok(VText(RuntimeAddress(h.stack, f[x].address, f[x].path + path))) else Err
    case EConcat(parts) =>
      if forall i | 0 <= i < |parts| :: Eval(parts[i], f, h).Ok?
      then Ok(VText(ShowAll(h, seq(|parts|, i requires 0 <= i < |parts| => Eval(parts[i], f, h).value)))) else Err
    case ETemplate(lang, source, holes) =>
      if forall i | 0 <= i < |holes| :: Eval(holes[i], f, h).Ok? then
        var vs := seq(|holes|, i requires 0 <= i < |holes| => Eval(holes[i], f, h).value);
        match Interpolation.ReadTemplate(lang, source, HoleTexts(holes), Shown(h, vs))
        case None => Err
        case Some(s) => Ok(VText(s))
      else Err
    case ECall(fn, args) =>
      if forall i | 0 <= i < |args| :: Eval(args[i], f, h).Ok?
      then Ok(h.call(fn, seq(|args|, i requires 0 <= i < |args| => Eval(args[i], f, h).value))) else Err
  }

  function EvalCall(c: Call, f: Frame, h: Host): Result<Created> {
    if Eval(c.name, f, h).Ok? && forall k | k in c.config :: Eval(c.config[k], f, h).Ok?
    then Ok(Created(c.rtype, Show(h, Eval(c.name, f, h).value), map k | k in c.config :: Eval(c.config[k], f, h).value))
    else Err
  }

  datatype Outcome = Outcome(frame: Frame, created: seq<Created>)

  /** The first n iterations of a loop. */
  function ExecLoop(s: Stmt, items: seq<Value>, n: nat, f: Frame, h: Host): Result<seq<Created>>
    requires s.SFor? && n <= |items|
  {
    if n == 0 then Ok([])
    else
      match ExecLoop(s, items, n - 1, f, h)
      case Err => Err
      case Ok(before) =>
        match EvalCall(s.call, f[s.value := items[n - 1]][s.index := VNum((n - 1) as real)], h)
        case Err => Err
        case Ok(c) => Ok(before + [c])
  }

  function Handles(created: seq<Created>): seq<Value> {
    seq(|created|, i requires 0 <= i < |created| => created[i].Handle())
  }

  function ExecStmt(s: Stmt, f: Frame, h: Host): Result<Outcome> {
    match s
    case SBind(x, call) =>
      (match EvalCall(call, f, h)
       case Err => Err
       case Ok(c) => Ok(Outcome(f[x := c.Handle()], [c])))
    case SCall(call) =>
      (match EvalCall(call, f, h)
       case Err => Err
       case Ok(c) => Ok(Outcome(f, [c])))
    case SIf(terms, call) =>
      if exists i | 0 <= i < |terms| :: terms[i].ident !in f || !f[terms[i].ident].VBool? then Err
      else if exists i | 0 <= i < |terms| :: f[terms[i].ident].b == terms[i].negated then Ok(Outcome(f, []))
      else
        (match EvalCall(call, f, h)
         case Err => Err
         case Ok(c) => Ok(Outcome(f, [c])))
    case SFor(src, _, _, accum, _) =>
      if src !in f || !f[src].VList? then Err
      else
        match ExecLoop(s, f[src].items, |f[src].items|, f, h)
        case Err => Err
        case Ok(cs) => Ok(Outcome(f[accum := VList(Handles(cs))], cs))
  }

  function Exec(body: seq<Stmt>, f: Frame, h: Host): Result<Outcome> {
    if body == [] then Ok(Outcome(f, []))
    else
      match Exec(body[..|body| - 1], f, h)
      case Err => Err
      case Ok(o) =>
        match ExecStmt(body[|body| - 1], o.frame, h)
        case Err => Err
        case Ok(o') => Ok(Outcome(o'.frame, o.created + o'.created))
  }

  /** What a call of the generated function produces: the resources it creates, in
      order, and the values it returns.  Err is a program that does not compile or
      gets stuck on an unbound variable. */
  datatype Produced = Produced(created: seq<Created>, returned: seq<Value>)

  function RunProgram(p: Program, f: Frame, h: Host): Result<Produced> {
    match Exec(p.body, f, h)
    case Err => Err
    case Ok(o) =>
      if forall i | 0 <= i < |p.results| :: Eval(p.results[i], o.frame, h).Ok?
      then Ok(Produced(o.created,
                       seq(|p.results|, i requires 0 <= i < |p.results| => Eval(p.results[i], o.frame, h).value)))
      else Err
  }

  // ----------------------------------------------------------------- rendering

  /** The identifiers a generator uses: a local variable per resource address, an
      expression per parameter, and the loop's own variables. */
  datatype Names = Names(
    local: map<string, string>,
    param: map<string, string>,
    value: string,
    index: string,
    accum: string)

  /** What rendering consults: the decoded blueprint, the declared parameters, and the
      resource being rendered. */
  datatype Ctx = Ctx(lang: Lang, bp: Decoded, params: map<string, Param>, names: Names, current: DecodedResource) {
    predicate InLoop() { current.ri.forEach != "" }
  }

  function FnMarker(j: Json): Option<(string, seq<Json>)> {
    if j.Obj? && |j.fields| == 1 && "$fn" in j.fields && j.fields["$fn"].Obj?
       && "name" in j.fields["$fn"].fields && j.fields["$fn"].fields["name"].Str?
       && "args" in j.fields["$fn"].fields && j.fields["$fn"].fields["args"].Arr?
    then Some((j.fields["$fn"].fields["name"].text.chars, j.fields["$fn"].fields["args"].items))
    else None
  }

  /** forEachTokenIdent and paramRef: what a {name} token refers to. */
  function ParamRef(c: Ctx, name: string): Result<string> {
    if c.bp.forEach.Some?
       && (name == c.bp.forEach.value.ri.forEach || name == c.bp.forEach.value.ri.forEach + "_index") then
      if c.current != c.bp.forEach.value then Err
      else if name == c.bp.forEach.value.ri.forEach then Ok(c.names.value)
      else Ok(c.names.index)
    else if name !in c.params || c.params[name].ptype.IsList() || name !in c.names.param then Err
    else Ok(c.names.param[name])
  }

  /** paramExpr. */
  function ParamExpr(c: Ctx, t: Token): Result<Expr> {
    match ParamRef(c, t.name)
    case Err => Err
    case Ok(ident) =>
      if t.op == "" then Ok(EVar(ident))
      else if t.name !in c.params || !c.params[t.name].ptype.NumberType? then Err
      else Ok(EArith(ident, t.op, t.literal))
  }

  function RenderPiece(c: Ctx, p: Splice.Piece): Result<Expr> {
    match p
    case Literal(text) => Ok(EText(text))
    case Address(captured) =>
      match ResolveAddress(c.bp.stack, c.bp.Known(), captured)
      case Err => Err
      case Ok(t) => if t.address in c.names.local then Ok(EAddress(c.names.local[t.address], t.path)) else Err
  }

  function RenderPieces(c: Ctx, pieces: seq<Splice.Piece>): Result<seq<Expr>> {
    if pieces == [] then Ok([])
    else
      match (RenderPiece(c, pieces[0]), RenderPieces(c, pieces[1..]))
      case (Ok(e), Ok(es)) => Ok([e] + es)
      case _ => Err
  }

  /** The template for a string with placeholders in literal text: a Sprintf call, a
      template literal or an f-string. */
  function RenderTemplate(c: Ctx, s: string, tokens: seq<Token>): Result<Expr> {
    if forall i | 0 <= i < |tokens| :: ParamExpr(c, tokens[i]).Ok? then
      var holes := seq(|tokens|, i requires 0 <= i < |tokens| => ParamExpr(c, tokens[i]).value);
      var lits := Interpolation.Literals(s, tokens, 0);
      Ok(ETemplate(c.lang, Interpolation.TemplateSource(c.lang, lits, HoleTexts(holes)), holes))
    else Err
  }

  predicate IsEmbedded(t: Text) { t.decoded.Some? && ContainsRefMarker(t.decoded.value) }

  predicate IsWholeToken(t: Text) { |t.tokens| == 1 && t.tokens[0].start == 0 && t.tokens[0].end == |t.chars| }

  /** renderString: embedded references first, then a lone placeholder, then a template. */
  function RenderString(c: Ctx, t: Text): Result<Expr> {
    if IsEmbedded(t) then
      if t.refs == [] then Err
      else
        match RenderPieces(c, Splice.Pieces(t.chars, t.refs, 0))
        case Err => Err
        case Ok(es) => Ok(EConcat(es))
    else if IsWholeToken(t) then ParamExpr(c, t.tokens[0])
    else if t.tokens == [] then Ok(EText(t.chars))
    else RenderTemplate(c, t.chars, t.tokens)
  }

  /** renderRef and propertyExpr. */
  function RenderRef(c: Ctx, addr: string): Result<Expr> {
    match ResolveAddress(c.bp.stack, c.bp.Known(), addr)
    case Err => Err
    case Ok(t) => if t.address in c.names.local then Ok(EField(c.names.local[t.address], t.path)) else Err
  }

  /** renderAny. */
  function RenderAny(c: Ctx, j: Json): Result<Expr> {
    match j
    case Null => Ok(ENull)
    case Bool(b) => Ok(EBool(b))
    case Num(n) => Ok(ENum(n))
    case Str(t) => RenderString(c, t)
    case Arr(items) =>
      if forall i | 0 <= i < |items| :: RenderAny(c, items[i]).Ok?
      then Ok(EList(seq(|items|, i requires 0 <= i < |items| => RenderAny(c, items[i]).value))) else Err
    case Obj(fields) =>
      if RefTarget(j).Some? then RenderRef(c, RefTarget(j).value)
      else if FnMarker(j).Some? then
        var (fn, args) := FnMarker(j).value;
        if c.lang.Go? && fn == "cidrsubnet" && |args| == 3 && forall i | 0 <= i < |args| :: RenderAny(c, args[i]).Ok?
        then Ok(ECall(fn, seq(|args|, i requires 0 <= i < |args| => RenderAny(c, args[i]).value))) else Err
      else if forall k | k in fields :: RenderAny(c, fields[k]).Ok?
      then Ok(EMap(map k | k in fields :: RenderAny(c, fields[k]).value)) else Err
  }

  /** renderResourceName: only an iterated resource's name is a template. */
  function RenderName(c: Ctx): Result<Expr> {
    if c.InLoop() then RenderString(c, c.current.ri.name) else Ok(EText(c.current.ri.name.chars))
  }

  function RenderCall(c: Ctx): Result<Call> {
    var config := c.current.ri.config;
    if RenderName(c).Ok? && forall k | k in config :: RenderAny(c, config[k]).Ok?
    then Ok(Call(c.current.ri.rtype, RenderName(c).value, map k | k in config :: RenderAny(c, config[k]).value))
    else Err
  }

  function RenderTerms(c: Ctx, terms: seq<string>): Result<seq<Term>> {
    if forall i | 0 <= i < |terms| :: ParamRef(c, TermName(terms[i])).Ok?
    then Ok(seq(|terms|,
                i requires 0 <= i < |terms| => Term(ParamRef(c, TermName(terms[i])).value, TermNegated(terms[i]))))
    else Err
  }

  /** The statement for one resource: a loop, a conditional, a bound call when anything
      refers to it, and otherwise a bare call. */
  function RenderStmt(c: Ctx): Result<Stmt> {
    var ri := c.current.ri;
    match RenderCall(c)
    case Err => Err
    case Ok(call) =>
      if ri.forEach != "" then
        if ri.forEach in c.names.param
        then Ok(SFor(c.names.param[ri.forEach], c.names.value, c.names.index, c.names.accum, call)) else Err
      else if ri.createIf != [] then
        match RenderTerms(c, ri.createIf)
        case Err => Err
        case Ok(terms) => Ok(SIf(terms, call))
      else if ri.Address() in c.bp.referenced then
        if ri.Address() in c.names.local then Ok(SBind(c.names.local[ri.Address()], call)) else Err
      else Ok(SCall(call))
  }

  function RenderBody(c: Ctx, order: seq<DecodedResource>): Result<seq<Stmt>> {
    if order == [] then Ok([])
    else
      match (RenderBody(c, order[..|order| - 1]), RenderStmt(c.(current := order[|order| - 1])))
      case (Ok(front), Ok(s)) => Ok(front + [s])
      case _ => Err
  }

  function RenderReturns(c: Ctx): Result<seq<Expr>> {
    var outs := c.bp.outputs;
    if c.bp.forEach.Some? then Ok([EVar(c.names.accum)])
    else if forall i | 0 <= i < |outs| :: outs[i].target.address in c.names.local
    then Ok(seq(|outs|,
                i requires 0 <= i < |outs| => EField(c.names.local[outs[i].target.address], outs[i].target.path)))
    else Err
  }

  /** renderGoFunction and renderTSFunction, as far as the body goes. */
  function Compile(c: Ctx): Result<Program> {
    match (RenderBody(c, c.bp.order), RenderReturns(c))
    case (Ok(body), Ok(results)) => Ok(Program(body, results))
    case _ => Err
  }

  // ------------------------------------------------------- what a blueprint means

  /** The arguments in force: parameter values by declared name, and inside an iteration
      the element and its position under the two synthetic names. */
  type Args = map<string, Value>

  function DenoteToken(args: Args, h: Host, t: Token): Value {
    var v := if t.name in args then args[t.name] else VNull;
    if t.op == "" then v else h.arith(v, t.op, t.literal)
  }

  /** The text with each placeholder replaced by its argument, printed. */
  function DenoteTemplate(args: Args, h: Host, s: string, tokens: seq<Token>, from: nat): string {
    if tokens == [] then Splice.Slice(s, from, |s|)
    else
      Splice.Slice(s, from, tokens[0].start) + Show(h, DenoteToken(args, h, tokens[0]))
      + DenoteTemplate(args, h, s, tokens[1..], tokens[0].end)
  }

  /** Where the stack names of the references that decoding collects are written. */
  function Marked(t: Text): (at: Restacking.Places)
    ensures |at| == |t.marks|
  {
    seq(|t.marks|, i requires 0 <= i < |t.marks| => (t.marks[i].start, t.marks[i].end))
  }

  /** A JSON text that holds references means itself, with each reference it holds as an
      address in the calling stack; a whole placeholder means its argument, and any other
      text itself with its placeholders filled. */
  function DenoteString(args: Args, h: Host, t: Text): Value {
    if IsEmbedded(t) then VText(Restacking.Restacked(t.chars, Marked(t), 0, h.stack))
    else if IsWholeToken(t) then DenoteToken(args, h, t.tokens[0])
    else VText(DenoteTemplate(args, h, t.chars, t.tokens, 0))
  }

  /** A config value with every reference standing for the resource it names. */
  function Denote(bp: Decoded, args: Args, h: Host, j: Json): Value {
    match j
    case Null => VNull
    case Bool(b) => VBool(b)
    case Num(n) => VNum(n)
    case Str(t) => DenoteString(args, h, t)
    case Arr(items) => VList(seq(|items|, i requires 0 <= i < |items| => Denote(bp, args, h, items[i])))
    case Obj(fields) =>
      if RefTarget(j).Some? then
        match ResolveAddress(bp.stack, bp.Known(), RefTarget(j).value)
        case Err => VNull
        case Ok(t) => VHandle(t.address, t.path)
      else if FnMarker(j).Some? then
        var (fn, args') := FnMarker(j).value;
        h.call(fn, seq(|args'|, i requires 0 <= i < |args'| => Denote(bp, args, h, args'[i])))
      else VMap(map k | k in fields :: Denote(bp, args, h, fields[k]))
  }

  function DenoteResource(bp: Decoded, args: Args, h: Host, dr: DecodedResource): Created {
    var name := if dr.ri.forEach != "" then Show(h, DenoteString(args, h, dr.ri.name)) else dr.ri.name.chars;
    Created(dr.ri.rtype, name, map k | k in dr.ri.config :: Denote(bp, args, h, dr.ri.config[k]))
  }

  function IterationArgs(args: Args, base: string, items: seq<Value>, i: nat): Args
    requires i < |items|
  {
    args[base := items[i]][base + "_index" := VNum(i as real)]
  }

  function ListItems(args: Args, base: string): seq<Value> {
    if base in args && args[base].VList? then args[base].items else []
  }

  predicate Holds(args: Args, terms: seq<string>) {
    forall i | 0 <= i < |terms| ::
      TermName(terms[i]) in args && args[TermName(terms[i])] == VBool(!TermNegated(terms[i]))
  }

  /** The resources one template resource stands for: one per list element, one or none
      under a condition, and otherwise exactly one. */
  function Instances(bp: Decoded, args: Args, h: Host, dr: DecodedResource): seq<Created> {
    if dr.ri.forEach != "" then
      var items := ListItems(args, dr.ri.forEach);
      seq(|items|,
          i requires 0 <= i < |items| => DenoteResource(bp, IterationArgs(args, dr.ri.forEach, items, i), h, dr))
    else if Holds(args, dr.ri.createIf) then [DenoteResource(bp, args, h, dr)]
    else []
  }

  function AllInstances(bp: Decoded, args: Args, h: Host, order: seq<DecodedResource>): seq<Created> {
    if order == [] then []
    else AllInstances(bp, args, h, order[..|order| - 1]) + Instances(bp, args, h, order[|order| - 1])
  }

  function Returned(bp: Decoded, args: Args, h: Host): seq<Value> {
    if bp.forEach.Some? then [VList(Handles(Instances(bp, args, h, bp.forEach.value)))]
    else seq(|bp.outputs|,
             i requires 0 <= i < |bp.outputs| => VHandle(bp.outputs[i].target.address, bp.outputs[i].target.path))
  }

  /** The meaning of a blueprint: its resources in dependency order, each reference the
      resource it names, and the declared outputs. */
  function Meaning(bp: Decoded, args: Args, h: Host): Produced {
    Produced(AllInstances(bp, args, h, bp.order), Returned(bp, args, h))
  }
}
