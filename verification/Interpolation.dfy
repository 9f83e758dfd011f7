/** Strings with placeholders, down to the characters each generator writes.

    For each language the segment as it is written stands beside a reader for that language's
    literals, and the theorems say when the reader gives the segment back. */
module Interpolation {
  import opened Common
  import opened Blueprint
  import KeyPath
  import Splice

  // ----------------------------------------------------- literal text and holes

  /** Matches come left to right and do not overlap. */
  ghost predicate ValidTokens(s: string, tokens: seq<Token>, from: nat) {
    if tokens == [] then from <= |s|
    else from <= tokens[0].start <= tokens[0].end <= |s| && ValidTokens(s, tokens[1..], tokens[0].end)
  }

  /** The literal segments around the placeholders: one more than there are holes. */
  function Literals(s: string, tokens: seq<Token>, from: nat): (lits: seq<string>)
    ensures |lits| == |tokens| + 1
  {
    if tokens == [] then [Splice.Slice(s, from, |s|)]
    else [Splice.Slice(s, from, tokens[0].start)] + Literals(s, tokens[1..], tokens[0].end)
  }

  /** Literal segments with values in the holes: what the string is meant to read. */
  function Filled(lits: seq<string>, vals: seq<string>): string
    requires |lits| == |vals| + 1
  {
    if vals == [] then lits[0] else lits[0] + vals[0] + Filled(lits[1..], vals[1..])
  }

  function TokenTexts(s: string, tokens: seq<Token>): seq<string> {
    seq(|tokens|, i requires 0 <= i < |tokens| => Splice.Slice(s, tokens[i].start, tokens[i].end))
  }

  /** The segments and the matched texts together are the whole source string. */
  lemma {:induction false} LiteralsCoverSource(s: string, tokens: seq<Token>, from: nat)
    requires ValidTokens(s, tokens, from)
    ensures Filled(Literals(s, tokens, from), TokenTexts(s, tokens)) == s[from..]
  {
    if tokens != [] {
      LiteralsCoverSource(s, tokens[1..], tokens[0].end);
      assert TokenTexts(s, tokens)[1..] == TokenTexts(s, tokens[1..]);
      assert s[from..] == s[from..tokens[0].start] + s[tokens[0].start..tokens[0].end] + s[tokens[0].end..];
    }
  }

  /** A rendered parameter expression: an identifier, a selector or one arithmetic
      operation.  It holds no brace, quote or backquote, nor any of the characters that
      start a conversion, a format or a self-documenting field in an f-string. */
  predicate PlainExpr(e: string) {
    e != [] && forall i | 0 <= i < |e| :: e[i] !in {'{', '}', '`', '\"', '\\', ':', '!', '='}
  }

  ghost predicate PlainExprs(es: seq<string>) { forall i | 0 <= i < |es| :: PlainExpr(es[i]) }

  function Values(es: seq<string>, env: string -> string): seq<string> {
    seq(|es|, i requires 0 <= i < |es| => env(es[i]))
  }

  lemma ValuesTail(es: seq<string>, env: string -> string)
    requires es != []
    ensures Values(es, env)[0] == env(es[0]) && Values(es, env)[1..] == Values(es[1..], env)
  {
  }

  /** The expression up to the closing brace, and what follows it. */
  function UpTo(s: string, c: char): (k: nat)
    ensures k <= |s|
  {
    if s == [] || s[0] == c then 0 else 1 + UpTo(s[1..], c)
  }

  lemma {:induction false} UpToBrace(e: string, rest: string)
    requires forall i | 0 <= i < |e| :: e[i] != '}'
    ensures UpTo(e + "}" + rest, '}') == |e|
  {
    if e == [] {
      assert (e + "}" + rest)[0] == '}';
    } else {
      UpToBrace(e[1..], rest);
      assert (e + "}" + rest)[1..] == e[1..] + "}" + rest;
    }
  }

  lemma TakeExpr(e: string, rest: string)
    requires PlainExpr(e)
    ensures var s := e + "}" + rest; var k := UpTo(s, '}'); k < |s| && s[..k] == e && s[k + 1..] == rest
  {
    UpToBrace(e, rest);
  }

  // ----------------------------------------------------- TypeScript template literals

  /** templateLiteralEscape: one pass, backslash, backquote and "${" each preceded by a
      backslash. */
  function TSEscape(s: string): string {
    if s == [] then []
    else if s[0] == '\\' then "\\\\" + TSEscape(s[1..])
    else if s[0] == '`' then "\\`" + TSEscape(s[1..])
    else if s[0] == '$' && |s| > 1 && s[1] == '{' then "\\${" + TSEscape(s[2..])
    else [s[0]] + TSEscape(s[1..])
  }

  /** The inside of the emitted template, closing backquote included. */
  function TSBody(lits: seq<string>, exprs: seq<string>): string
    requires |lits| == |exprs| + 1
  {
    if exprs == [] then TSEscape(lits[0]) + "`"
    else TSEscape(lits[0]) + ("${" + exprs[0] + "}" + TSBody(lits[1..], exprs[1..]))
  }

  /** Reading a template literal's characters after the opening backquote, as section
      12.9.6 of ECMA-262 has it: escapes, substitutions, and carriage returns becoming
      line feeds.  None is a literal that does not end, or an escape outside this model. */
  function TSRead(s: string, env: string -> string): Option<string>
    decreases |s|
  {
    if s == [] then None
    else if s[0] == '`' then (if |s| == 1 then Some([]) else None)
    else if s[0] == '\\' then
      if |s| < 2 || s[1] !in {'\\', '`', '$'} then None else Prepend([s[1]], TSRead(s[2..], env))
    else if s[0] == '$' && |s| > 1 && s[1] == '{' then
      var k := UpTo(s[2..], '}');
      if k < |s[2..]| then Prepend(env(s[2..][..k]), TSRead(s[2..][k + 1..], env)) else None
    else if s[0] == '\r' then Prepend("\n", TSRead(if |s| > 1 && s[1] == '\n' then s[2..] else s[1..], env))
    else Prepend([s[0]], TSRead(s[1..], env))
  }

  function Prepend(s: string, r: Option<string>): Option<string> {
    match r case None => None case Some(t) => Some(s + t)
  }

  lemma PrependTwice(s: string, t: string, r: Option<string>)
    ensures Prepend(s, Prepend(t, r)) == Prepend(s + t, r)
  {
    if r.Some? {
      Regroup(s, t, r.value);
    }
  }

  lemma PrependNothing(r: Option<string>)
    ensures Prepend([], r) == r
  {
    if r.Some? {
      assert [] + r.value == r.value;
    }
  }

  lemma EndsHere(s: string, r: Option<string>)
    requires r == Some([])
    ensures Prepend(s, r) == Some(s)
  {
    assert s + [] == s;
  }

  /** Carriage returns, alone or before a line feed, read back as line feeds. */
  function Normalized(s: string): (r: string)
    ensures |r| <= |s|
    decreases |s|
  {
    if s == [] then []
    else if s[0] == '\r' then "\n" + Normalized(if |s| > 1 && s[1] == '\n' then s[2..] else s[1..])
    else [s[0]] + Normalized(s[1..])
  }

  /** What can follow a literal segment: the end, or a substitution. */
  predicate TSNext(rest: string) { rest != [] && (rest[0] == '`' || (|rest| > 1 && rest[0] == '$' && rest[1] == '{')) }

  /** The first character of a text, or the first two where they are dealt with together:
      how many they are, what they are written as, and what that reads back as. */
  datatype Chunk = Chunk(size: nat, escaped: string, text: string)

  function FirstChunk(lit: string): (c: Chunk)
    requires lit != []
    ensures 1 <= c.size <= |lit| && c.escaped != []
  {
    if lit[0] == '\\' || lit[0] == '`' then Chunk(1, ['\\', lit[0]], [lit[0]])
    else if lit[0] == '$' && |lit| > 1 && lit[1] == '{' then Chunk(2, ['\\', '$', '{'], ['$', '{'])
    else if lit[0] == '\r' && |lit| > 1 && lit[1] == '\n' then Chunk(2, ['\r', '\n'], ['\n'])
    else if lit[0] == '\r' then Chunk(1, ['\r'], ['\n'])
    else Chunk(1, [lit[0]], [lit[0]])
  }

  lemma ChunkEscapes(lit: string)
    requires lit != []
    ensures TSEscape(lit) == FirstChunk(lit).escaped + TSEscape(lit[FirstChunk(lit).size..])
  {
    if |lit| > 1 {
      assert lit[1..][1..] == lit[2..];
    }
  }

  lemma ChunkNormalizes(lit: string)
    requires lit != []
    ensures Normalized(lit) == FirstChunk(lit).text + Normalized(lit[FirstChunk(lit).size..])
  {
    if |lit| > 1 {
      assert lit[1..][1..] == lit[2..];
    }
  }

  /** What may not follow a chunk: a line feed after a lone carriage return, an opening
      brace after a lone dollar sign. */
  predicate Fits(c: Chunk, after: string) {
    after != [] && (c.escaped == ['\r'] ==> after[0] != '\n') && (c.escaped == ['$'] ==> after[0] != '{')
  }

  lemma RestFits(lit: string, rest: string)
    requires TSNext(rest) && lit != []
    ensures Fits(FirstChunk(lit), TSEscape(lit[FirstChunk(lit).size..]) + rest)
  {
    var tail := lit[FirstChunk(lit).size..];
    if tail == [] {
      assert TSEscape(tail) + rest == rest;
    } else {
      assert (TSEscape(tail) + rest)[0] == TSEscape(tail)[0];
      assert TSEscape(tail)[0] in {'\\', tail[0]};
    }
  }

  lemma OneReads(c: char, after: string, env: string -> string)
    requires c !in {'\\', '`', '\r'} && (c == '$' ==> after == [] || after[0] != '{')
    ensures TSRead([c] + after, env) == Prepend([c], TSRead(after, env))
  {
    assert ([c] + after)[1..] == after;
  }

  lemma EscapeReads(c: char, after: string, env: string -> string)
    requires c in {'\\', '`', '$'}
    ensures TSRead(['\\', c] + after, env) == Prepend([c], TSRead(after, env))
  {
    assert (['\\', c] + after)[2..] == after;
  }

  lemma ReturnReads(after: string, env: string -> string)
    requires after != []
    ensures TSRead(['\r'] + after, env) == Prepend(['\n'], TSRead(if after[0] == '\n' then after[1..] else after, env))
  {
    var s := ['\r'] + after;
    assert s[1..] == after && s[2..] == after[1..];
  }

  lemma ChunkReads(lit: string, after: string, env: string -> string)
    requires lit != [] && Fits(FirstChunk(lit), after)
    ensures TSRead(FirstChunk(lit).escaped + after, env) == Prepend(FirstChunk(lit).text, TSRead(after, env))
  {
    var c := FirstChunk(lit);
    if c.escaped == ['\\', '$', '{'] {
      assert c.escaped + after == ['\\', '$'] + (['{'] + after);
      EscapeReads('$', ['{'] + after, env);
      OneReads('{', after, env);
      PrependTwice(['$'], ['{'], TSRead(after, env));
      assert |c.escaped| == 3 && c.text == ['$'] + ['{'];
    } else if lit[0] == '\\' || lit[0] == '`' {
      EscapeReads(lit[0], after, env);
    } else if c.escaped == ['\r', '\n'] {
      assert c.escaped + after == ['\r'] + (['\n'] + after);
      ReturnReads(['\n'] + after, env);
      assert (['\n'] + after)[0] == '\n' && (['\n'] + after)[1..] == after;
    } else if lit[0] == '\r' {
      ReturnReads(after, env);
    } else {
      OneReads(lit[0], after, env);
    }
  }

  /** An escaped segment reads back as its own text: it neither ends the literal nor opens
      a substitution, wherever it stands. */
  lemma {:induction false} TSSegmentReads(lit: string, rest: string, env: string -> string)
    requires TSNext(rest)
    ensures TSRead(TSEscape(lit) + rest, env) == Prepend(Normalized(lit), TSRead(rest, env))
    decreases |lit|
  {
    if lit == [] {
      assert TSEscape(lit) + rest == rest;
      PrependNothing(TSRead(rest, env));
    } else {
      var c := FirstChunk(lit);
      var tail := lit[c.size..];
      ChunkEscapes(lit);
      Regroup(c.escaped, TSEscape(tail), rest);
      RestFits(lit, rest);
      ChunkReads(lit, TSEscape(tail) + rest, env);
      TSSegmentReads(tail, rest, env);
      PrependTwice(c.text, Normalized(tail), TSRead(rest, env));
      ChunkNormalizes(lit);
    }
  }

  function NormalizedAll(lits: seq<string>): seq<string> {
    seq(|lits|, i requires 0 <= i < |lits| => Normalized(lits[i]))
  }

  /** The whole template, for any text: every hole takes its value, every segment its own
      text with line ends normalized. */
  lemma {:induction false} TSTemplateReads(lits: seq<string>, exprs: seq<string>, env: string -> string)
    requires |lits| == |exprs| + 1 && PlainExprs(exprs)
    ensures TSRead(TSBody(lits, exprs), env) == Some(Filled(NormalizedAll(lits), Values(exprs, env)))
  {
    if exprs == [] {
      TSSegmentReads(lits[0], "`", env);
      EndsHere(Normalized(lits[0]), TSRead("`", env));
    } else {
      var rest := TSBody(lits[1..], exprs[1..]);
      TSTemplateReads(lits[1..], exprs[1..], env);
      TSSegmentReads(lits[0], "${" + exprs[0] + "}" + rest, env);
      HoleReads(exprs[0], rest, env);
      ValuesTail(exprs, env);
      assert NormalizedAll(lits)[1..] == NormalizedAll(lits[1..]);
      PrependTwice(Normalized(lits[0]), env(exprs[0]), TSRead(rest, env));
    }
  }

  lemma HoleReads(e: string, rest: string, env: string -> string)
    requires PlainExpr(e)
    ensures TSRead("${" + e + "}" + rest, env) == Prepend(env(e), TSRead(rest, env))
  {
    assert ("${" + e + "}" + rest)[2..] == e + "}" + rest;
    TakeExpr(e, rest);
  }

  ghost predicate NoReturns(lits: seq<string>) { forall i | 0 <= i < |lits| :: '\r' !in lits[i] }

  lemma {:induction false} NormalizedIsIdentity(s: string)
    ensures Normalized(s) == s <==> '\r' !in s
    decreases |s|
  {
    if s != [] {
      assert s == [s[0]] + s[1..];
      if s[0] != '\r' {
        NormalizedIsIdentity(s[1..]);
        if Normalized(s) == s {
          CancelPrefix([s[0]], Normalized(s[1..]), s[1..]);
        }
      } else {
        assert Normalized(s)[0] == '\n';
      }
    }
  }

  lemma {:induction false} FilledLength(lits: seq<string>, vals: seq<string>)
    requires |lits| == |vals| + 1
    ensures |Filled(NormalizedAll(lits), vals)| <= |Filled(lits, vals)|
  {
    if vals != [] {
      FilledLength(lits[1..], vals[1..]);
      assert NormalizedAll(lits)[1..] == NormalizedAll(lits[1..]);
    }
  }

  lemma {:induction false} SameFillingSameLiterals(lits: seq<string>, vals: seq<string>)
    requires |lits| == |vals| + 1
    ensures Filled(NormalizedAll(lits), vals) == Filled(lits, vals) <==> NoReturns(lits)
  {
    NormalizedIsIdentity(lits[0]);
    if vals != [] {
      var inner, outer := Filled(NormalizedAll(lits[1..]), vals[1..]), Filled(lits[1..], vals[1..]);
      assert NormalizedAll(lits)[1..] == NormalizedAll(lits[1..]);
      SameFillingSameLiterals(lits[1..], vals[1..]);
      FilledLength(lits[1..], vals[1..]);
      assert NoReturns(lits) <==> '\r' !in lits[0] && NoReturns(lits[1..]) by {
        assert forall i | 0 < i < |lits| :: lits[i] == lits[1..][i - 1];
      }
      var n, l := Normalized(lits[0]), lits[0];
      if n + vals[0] + inner == l + vals[0] + outer {
        assert |n| + |inner| == |l| + |outer|;
        assert |n| == |l|;
        assert (n + vals[0] + inner)[..|n|] == n && (l + vals[0] + outer)[..|n|] == l;
        CancelPrefix(n + vals[0], inner, outer);
      }
    }
  }

  /** The exact condition for TypeScript: the template evaluates to the source with every
      placeholder replaced by its parameter's value if and only if the literal text holds
      no carriage return. */
  lemma TSTemplateFaithfulIff(s: string, tokens: seq<Token>, exprs: seq<string>, env: string -> string)
    requires |exprs| == |tokens| && PlainExprs(exprs)
    ensures TSRead(TSBody(Literals(s, tokens, 0), exprs), env)
            == Some(Filled(Literals(s, tokens, 0), Values(exprs, env)))
            <==> NoReturns(Literals(s, tokens, 0))
  {
    var lits := Literals(s, tokens, 0);
    TSTemplateReads(lits, exprs, env);
    SameFillingSameLiterals(lits, Values(exprs, env));
  }

  // --------------------------------------------------------------- Python f-strings

  /** One character as encoding/json writes it inside a string. */
  function JsonChar(c: char): (s: string)
    ensures s != []
    ensures forall i | 0 <= i < |s| :: s[i] == '{' || s[i] == '}' ==> s == [c]
  {
    if c == '\"' then "\\\""
    else if c == '\\' then "\\\\"
    else if c == '\n' then "\\n"
    else if c == '\r' then "\\r"
    else if c == '\t' then "\\t"
    else if c == 8 as char then "\\b"
    else if c == 12 as char then "\\f"
    else if c < ' ' || c in {'<', '>', '&'} || (c as int) in {0x2028, 0x2029} then
      HexHasNoBrace(c as nat, 4);
      "\\u" + KeyPath.Hex(c as nat, 4)
    else [c]
  }

  lemma {:induction false} HexHasNoBrace(n: nat, width: nat)
    ensures forall i | 0 <= i < width :: KeyPath.Hex(n, width)[i] != '{' && KeyPath.Hex(n, width)[i] != '}'
  {
    if width > 0 {
      HexHasNoBrace(n / 16, width - 1);
      assert KeyPath.DIGITS == ['0', '1', '2', '3', '4', '5', '6', '7', '8', '9', 'a', 'b', 'c', 'd', 'e', 'f'];
    }
  }

  function JsonInner(s: string): string {
    if s == [] then [] else JsonChar(s[0]) + JsonInner(s[1..])
  }

  /** strings.ReplaceAll of each brace by two. */
  function DoubleBraces(s: string): string {
    if s == [] then []
    else (if s[0] == '{' || s[0] == '}' then [s[0], s[0]] else [s[0]]) + DoubleBraces(s[1..])
  }

  /** pyFStringLiteralSegment. */
  function PySegment(s: string): string { DoubleBraces(JsonInner(s)) }

  function PyChar(c: char): (s: string)
    ensures s != []
  {
    if c == '{' || c == '}' then [c, c] else JsonChar(c)
  }

  lemma {:induction false} DoubleBracesAppend(s: string, t: string)
    ensures DoubleBraces(s + t) == DoubleBraces(s) + DoubleBraces(t)
  {
    if s == [] {
      assert s + t == t;
    } else {
      DoubleBracesAppend(s[1..], t);
      assert (s + t)[1..] == s[1..] + t;
      Regroup(if s[0] == '{' || s[0] == '}' then [s[0], s[0]] else [s[0]], DoubleBraces(s[1..]), DoubleBraces(t));
    }
  }

  lemma {:induction false} NoBraceNoDoubling(s: string)
    requires forall i | 0 <= i < |s| :: s[i] != '{' && s[i] != '}'
    ensures DoubleBraces(s) == s
  {
    if s != [] {
      NoBraceNoDoubling(s[1..]);
      assert s == [s[0]] + s[1..];
    }
  }

  /** Doubling braces after escaping touches only braces of the text itself. */
  lemma PySegmentStep(s: string)
    requires s != []
    ensures PySegment(s) == PyChar(s[0]) + PySegment(s[1..])
  {
    DoubleBracesAppend(JsonChar(s[0]), JsonInner(s[1..]));
    if s[0] == '{' || s[0] == '}' {
      assert JsonChar(s[0]) == [s[0]];
      assert DoubleBraces([s[0]]) == [s[0], s[0]] + DoubleBraces([]);
    } else {
      NoBraceNoDoubling(JsonChar(s[0]));
    }
  }

  function PyBody(lits: seq<string>, exprs: seq<string>): string
    requires |lits| == |exprs| + 1
  {
    if exprs == [] then PySegment(lits[0]) + "\""
    else PySegment(lits[0]) + ("{" + exprs[0] + "}" + PyBody(lits[1..], exprs[1..]))
  }

  function PyEscapeValue(c: char): Option<char> {
    match c
    case '\\' => Some('\\')
    case '\"' => Some('\"')
    case 'n' => Some('\n')
    case 'r' => Some('\r')
    case 't' => Some('\t')
    case 'b' => Some(8 as char)
    case 'f' => Some(12 as char)
    case _ => None
  }

  function CharOf(n: nat): string { if n < 0xD800 then [n as char] else [] }

  /** Reading an f-string's characters after the opening quote: backslash escapes, doubled
      braces, and replacement fields.  None is a literal that does not end or does not
      parse, or an escape outside this model. */
  function PyRead(s: string, env: string -> string): Option<string>
    decreases |s|
  {
    if s == [] then None
    else if s[0] == '\"' then (if |s| == 1 then Some([]) else None)
    else if s[0] == '\n' || s[0] == '\r' then None
    else if s[0] == '\\' then
      if |s| >= 6 && s[1] == 'u' then Prepend(CharOf(KeyPath.HexValue(s[2..6])), PyRead(s[6..], env))
      else if |s| >= 2 && PyEscapeValue(s[1]).Some? then Prepend([PyEscapeValue(s[1]).value], PyRead(s[2..], env))
      else None
    else if s[0] == '{' then
      if |s| > 1 && s[1] == '{' then Prepend("{", PyRead(s[2..], env))
      else
        var k := UpTo(s[1..], '}');
        if k < |s[1..]| then Prepend(env(s[1..][..k]), PyRead(s[1..][k + 1..], env)) else None
    else if s[0] == '}' then
      if |s| > 1 && s[1] == '}' then Prepend("}", PyRead(s[2..], env)) else None
    else Prepend([s[0]], PyRead(s[1..], env))
  }

  lemma PyCharReads(c: char, rest: string, env: string -> string)
    ensures PyRead(PyChar(c) + rest, env) == Prepend([c], PyRead(rest, env))
  {
    var s := PyChar(c) + rest;
    if |PyChar(c)| == 1 {
      assert s[1..] == rest;
    } else if |PyChar(c)| == 2 {
      assert s[2..] == rest;
    } else {
      KeyPath.PowersOf16();
      KeyPath.HexRoundTrip(c as nat, 4);
      assert s[2..6] == KeyPath.Hex(c as nat, 4) && s[6..] == rest;
    }
  }

  /** A segment reads back as its own text, whatever it holds. */
  lemma {:induction false} PySegmentReads(lit: string, rest: string, env: string -> string)
    ensures PyRead(PySegment(lit) + rest, env) == Prepend(lit, PyRead(rest, env))
  {
    if lit == [] {
      assert PySegment(lit) + rest == rest;
      if PyRead(rest, env).Some? {
        assert [] + PyRead(rest, env).value == PyRead(rest, env).value;
      }
    } else {
      PySegmentStep(lit);
      Regroup(PyChar(lit[0]), PySegment(lit[1..]), rest);
      PyCharReads(lit[0], PySegment(lit[1..]) + rest, env);
      PySegmentReads(lit[1..], rest, env);
      PrependTwice([lit[0]], lit[1..], PyRead(rest, env));
      assert lit == [lit[0]] + lit[1..];
    }
  }

  lemma PyHoleReads(e: string, rest: string, env: string -> string)
    requires PlainExpr(e)
    ensures PyRead("{" + e + "}" + rest, env) == Prepend(env(e), PyRead(rest, env))
  {
    var s := "{" + e + "}" + rest;
    assert s[1..] == e + "}" + rest && s[1] == e[0];
    TakeExpr(e, rest);
  }

  /** Python, with no condition: the f-string evaluates to the source with every
      placeholder replaced by its parameter's value. */
  lemma {:induction false} PyTemplateFaithful(lits: seq<string>, exprs: seq<string>, env: string -> string)
    requires |lits| == |exprs| + 1 && PlainExprs(exprs)
    ensures PyRead(PyBody(lits, exprs), env) == Some(Filled(lits, Values(exprs, env)))
  {
    if exprs == [] {
      PySegmentReads(lits[0], "\"", env);
      EndsHere(lits[0], PyRead("\"", env));
    } else {
      var rest := PyBody(lits[1..], exprs[1..]);
      PyTemplateFaithful(lits[1..], exprs[1..], env);
      PySegmentReads(lits[0], "{" + exprs[0] + "}" + rest, env);
      PyHoleReads(exprs[0], rest, env);
      ValuesTail(exprs, env);
      PrependTwice(lits[0], env(exprs[0]), PyRead(rest, env));
    }
  }

  // ------------------------------------------------------------- Go format strings

  /** The format: the source with every match replaced by the verb. */
  function GoFormat(lits: seq<string>): string
    requires lits != []
  {
    if |lits| == 1 then lits[0] else lits[0] + "%v" + GoFormat(lits[1..])
  }

  /** fmt.Sprintf over already printed arguments, for formats whose only directives are
      %v and %%.  None stands for whatever else Sprintf would make of the format, which is
      not modelled: another verb, a flag or an argument index, a missing or surplus
      argument. */
  function Sprintf(format: string, args: seq<string>): Option<string> {
    if format == [] then (if args == [] then Some([]) else None)
    else if format[0] != '%' then Prepend([format[0]], Sprintf(format[1..], args))
    else if |format| < 2 then None
    else if format[1] == '%' then Prepend("%", Sprintf(format[2..], args))
    else if format[1] == 'v' && args != [] then Prepend(args[0], Sprintf(format[2..], args[1..]))
    else None
  }

  /** How many %% directives Sprintf reads. */
  function Doubled(format: string): nat {
    if |format| < 2 then 0
    else if format[0] != '%' then Doubled(format[1..])
    else (if format[1] == '%' then 1 else 0) + Doubled(format[2..])
  }

  function Percents(s: string): nat {
    if s == [] then 0 else (if s[0] == '%' then 1 else 0) + Percents(s[1..])
  }

  function Length(ss: seq<string>): nat { if ss == [] then 0 else |ss[0]| + Length(ss[1..]) }

  /** Each %% loses one character, and every percent sign is accounted for. */
  lemma {:induction false} SprintfCounts(format: string, args: seq<string>)
    requires Sprintf(format, args).Some?
    ensures |Sprintf(format, args).value| + 2 * |args| + Doubled(format) == |format| + Length(args)
    ensures Percents(format) == |args| + 2 * Doubled(format)
    decreases |format|
  {
    if format != [] {
      if format[0] != '%' {
        SprintfCounts(format[1..], args);
        assert |format| < 2 ==> format[1..] == [];
      } else if format[1] == '%' {
        SprintfCounts(format[2..], args);
        assert format[1..][1..] == format[2..];
      } else {
        SprintfCounts(format[2..], args[1..]);
        assert format[1..][1..] == format[2..];
      }
    }
  }

  lemma {:induction false} PercentsAppend(s: string, t: string)
    ensures Percents(s + t) == Percents(s) + Percents(t)
  {
    if s == [] {
      assert s + t == t;
    } else {
      PercentsAppend(s[1..], t);
      assert (s + t)[1..] == s[1..] + t;
    }
  }

  lemma {:induction false} PercentsZero(s: string)
    ensures Percents(s) == 0 <==> '%' !in s
  {
    if s != [] {
      PercentsZero(s[1..]);
      assert s == [s[0]] + s[1..];
    }
  }

  ghost predicate NoPercents(lits: seq<string>) { forall i | 0 <= i < |lits| :: '%' !in lits[i] }

  /** The format has one percent sign per hole, plus those of the text. */
  lemma {:induction false} FormatCounts(lits: seq<string>, vals: seq<string>)
    requires |lits| == |vals| + 1
    ensures |GoFormat(lits)| + Length(vals) == |Filled(lits, vals)| + 2 * |vals|
    ensures Percents(GoFormat(lits)) >= |vals|
    ensures Percents(GoFormat(lits)) == |vals| <==> NoPercents(lits)
  {
    PercentsZero(lits[0]);
    if vals != [] {
      FormatCounts(lits[1..], vals[1..]);
      PercentsAppend(lits[0] + "%v", GoFormat(lits[1..]));
      PercentsAppend(lits[0], "%v");
      assert "%v"[1..] == "v" && "v"[1..] == "";
      assert Percents("%v") == 1;
      assert NoPercents(lits) <==> '%' !in lits[0] && NoPercents(lits[1..]) by {
        assert forall i | 0 < i < |lits| :: lits[i] == lits[1..][i - 1];
      }
    }
  }

  lemma {:induction false} SprintfPlain(lit: string, rest: string, args: seq<string>)
    requires '%' !in lit
    ensures Sprintf(lit + rest, args) == Prepend(lit, Sprintf(rest, args))
  {
    if lit == [] {
      assert lit + rest == rest;
      if Sprintf(rest, args).Some? {
        assert [] + Sprintf(rest, args).value == Sprintf(rest, args).value;
      }
    } else {
      assert (lit + rest)[1..] == lit[1..] + rest;
      assert lit[0] in lit;
      SprintfPlain(lit[1..], rest, args);
      PrependTwice([lit[0]], lit[1..], Sprintf(rest, args));
      assert lit == [lit[0]] + lit[1..];
    }
  }

  lemma {:induction false} SprintfFills(lits: seq<string>, vals: seq<string>)
    requires |lits| == |vals| + 1 && NoPercents(lits)
    ensures Sprintf(GoFormat(lits), vals) == Some(Filled(lits, vals))
  {
    if vals == [] {
      SprintfPlain(lits[0], [], []);
      assert lits[0] + [] == lits[0];
    } else {
      var rest := GoFormat(lits[1..]);
      assert forall i | 0 <= i < |lits[1..]| :: lits[1..][i] == lits[i + 1];
      SprintfFills(lits[1..], vals[1..]);
      SprintfPlain(lits[0], "%v" + rest, vals);
      Regroup(lits[0], "%v", rest);
      assert ("%v" + rest)[2..] == rest;
      PrependTwice(lits[0], vals[0], Sprintf(rest, vals[1..]));
    }
  }

  /** Where every directive of the format is one of the two modelled, the formatted string
      is the source with its placeholders replaced if and only if the literal text holds no
      percent sign. */
  lemma GoFormatWithinDirectives(lits: seq<string>, vals: seq<string>)
    requires |lits| == |vals| + 1 && Sprintf(GoFormat(lits), vals).Some?
    ensures Sprintf(GoFormat(lits), vals) == Some(Filled(lits, vals)) <==> NoPercents(lits)
  {
    FormatCounts(lits, vals);
    if NoPercents(lits) {
      SprintfFills(lits, vals);
    } else {
      SprintfCounts(GoFormat(lits), vals);
    }
  }

  ghost predicate GoFaithful(lits: seq<string>, vals: seq<string>)
    requires |lits| == |vals| + 1
  {
    Sprintf(GoFormat(lits), vals) == Some(Filled(lits, vals))
  }

  /** For Go: a text is filled faithfully whatever its placeholders' values are if and only
      if it holds no percent sign, which nothing escapes. */
  lemma GoFormatFaithfulIff(lits: seq<string>)
    requires lits != []
    ensures (forall vals | |vals| == |lits| - 1 :: GoFaithful(lits, vals)) <==> NoPercents(lits)
  {
    if NoPercents(lits) {
      forall vals | |vals| == |lits| - 1 ensures GoFaithful(lits, vals) {
        SprintfFills(lits, vals);
      }
    } else {
      var vals := seq(|lits| - 1, _ => "");
      assert !GoFaithful(lits, vals) by {
        if Sprintf(GoFormat(lits), vals).Some? {
          GoFormatWithinDirectives(lits, vals);
        }
      }
    }
  }

  // ----------------------------------------------------- one template, per language

  /** The characters a generator writes between the delimiters of a template. */
  function TemplateSource(lang: Lang, lits: seq<string>, exprs: seq<string>): string
    requires |lits| == |exprs| + 1
  {
    match lang
    case Go => GoFormat(lits)
    case TypeScript => TSBody(lits, exprs)
    case Python => PyBody(lits, exprs)
  }

  /** The value printed for the hole that is written so. */
  function ValueNamed(exprs: seq<string>, vals: seq<string>, e: string): string
    requires |exprs| == |vals|
  {
    if exprs == [] then [] else if exprs[0] == e then vals[0] else ValueNamed(exprs[1..], vals[1..], e)
  }

  /** What the language makes of a template's characters.  Go takes the values as further
      arguments; the other two find the expressions in the text. */
  function ReadTemplate(lang: Lang, source: string, exprs: seq<string>, vals: seq<string>): Option<string>
    requires |exprs| == |vals|
  {
    match lang
    case Go => Sprintf(source, vals)
    case TypeScript => TSRead(source, e => ValueNamed(exprs, vals, e))
    case Python => PyRead(source, e => ValueNamed(exprs, vals, e))
  }

  /** The literal text a language's template reads back unchanged. */
  ghost predicate TemplateFits(lang: Lang, lits: seq<string>) {
    match lang
    case Go => NoPercents(lits)
    case TypeScript => NoReturns(lits)
    case Python => true
  }

  /** Holes written alike hold the same value. */
  ghost predicate Consistent(exprs: seq<string>, vals: seq<string>) {
    && |exprs| == |vals|
    && forall i, j | 0 <= i < |exprs| && 0 <= j < |exprs| && exprs[i] == exprs[j] :: vals[i] == vals[j]
  }

  lemma {:induction false} NamedAt(exprs: seq<string>, vals: seq<string>, i: nat)
    requires Consistent(exprs, vals) && i < |exprs|
    ensures ValueNamed(exprs, vals, exprs[i]) == vals[i]
  {
    if exprs[0] != exprs[i] {
      var es, vs := exprs[1..], vals[1..];
      assert Consistent(es, vs) by {
        assert forall k | 0 <= k < |es| :: es[k] == exprs[k + 1] && vs[k] == vals[k + 1];
      }
      NamedAt(es, vs, i - 1);
    }
  }

  lemma NamedValues(exprs: seq<string>, vals: seq<string>)
    requires Consistent(exprs, vals)
    ensures Values(exprs, e => ValueNamed(exprs, vals, e)) == vals
  {
    forall i | 0 <= i < |exprs| ensures ValueNamed(exprs, vals, exprs[i]) == vals[i] {
      NamedAt(exprs, vals, i);
    }
  }

  /** In each language the template reads as the filled text if its literal text fits, and
      otherwise, as far as the reading is modelled, as something else. */
  lemma TemplateReadsIff(lang: Lang, lits: seq<string>, exprs: seq<string>, vals: seq<string>)
    requires |lits| == |exprs| + 1 && PlainExprs(exprs) && Consistent(exprs, vals)
    ensures ReadTemplate(lang, TemplateSource(lang, lits, exprs), exprs, vals) == Some(Filled(lits, vals))
            <==> TemplateFits(lang, lits)
  {
    NamedValues(exprs, vals);
    match lang
    case Go => GoTemplateReads(lits, vals);
    case TypeScript =>
      TSTemplateReads(lits, exprs, e => ValueNamed(exprs, vals, e));
      SameFillingSameLiterals(lits, vals);
    case Python => PyTemplateFaithful(lits, exprs, e => ValueNamed(exprs, vals, e));
  }

  lemma GoTemplateReads(lits: seq<string>, vals: seq<string>)
    requires |lits| == |vals| + 1
    ensures Sprintf(GoFormat(lits), vals) == Some(Filled(lits, vals)) <==> NoPercents(lits)
  {
    if NoPercents(lits) {
      SprintfFills(lits, vals);
    } else if Sprintf(GoFormat(lits), vals).Some? {
      GoFormatWithinDirectives(lits, vals);
    }
  }

  // --------------------------------------------------------------- the emitting loops

  lemma {:induction false} LiteralsSplit(s: string, tokens: seq<Token>, from: nat, n: nat)
    requires n < |tokens|
    ensures Literals(s, tokens, from)[n] == Splice.Slice(s, if n == 0 then from else tokens[n - 1].end, tokens[n].start)
  {
    if n > 0 {
      LiteralsSplit(s, tokens[1..], tokens[0].end, n - 1);
    }
  }

  lemma {:induction false} LastLiteral(s: string, tokens: seq<Token>, from: nat)
    ensures Literals(s, tokens, from)[|tokens|]
            == Splice.Slice(s, if tokens == [] then from else tokens[|tokens| - 1].end, |s|)
  {
    if tokens != [] {
      LastLiteral(s, tokens[1..], tokens[0].end);
    }
  }

  /** What the loop has written before the n-th literal. */
  function TSPrefix(lits: seq<string>, exprs: seq<string>, n: nat): string
    requires |lits| == |exprs| + 1 && n <= |exprs|
  {
    if n == 0 then [] else TSPrefix(lits, exprs, n - 1) + TSPiece(lits[n - 1], exprs[n - 1])
  }

  function TSPiece(lit: string, expr: string): string { TSEscape(lit) + ("${" + expr + "}") }

  lemma TSBodyStep(lits: seq<string>, exprs: seq<string>)
    requires |lits| == |exprs| + 1 && exprs != []
    ensures TSBody(lits, exprs) == TSPiece(lits[0], exprs[0]) + TSBody(lits[1..], exprs[1..])
  {
    Regroup(TSEscape(lits[0]), "${" + exprs[0] + "}", TSBody(lits[1..], exprs[1..]));
  }

  lemma {:induction false} TSPrefixThenBody(lits: seq<string>, exprs: seq<string>, n: nat)
    requires |lits| == |exprs| + 1 && n <= |exprs|
    ensures TSPrefix(lits, exprs, n) + TSBody(lits[n..], exprs[n..]) == TSBody(lits, exprs)
  {
    if n == 0 {
      assert lits[0..] == lits && exprs[0..] == exprs;
      assert [] + TSBody(lits, exprs) == TSBody(lits, exprs);
    } else {
      TSPrefixThenBody(lits, exprs, n - 1);
      var ls, es := lits[n - 1..], exprs[n - 1..];
      assert ls[1..] == lits[n..] && es[1..] == exprs[n..] && ls[0] == lits[n - 1] && es[0] == exprs[n - 1];
      TSBodyStep(ls, es);
      Regroup(TSPrefix(lits, exprs, n - 1), TSPiece(ls[0], es[0]), TSBody(lits[n..], exprs[n..]));
    }
  }

  /** The cursor loop of the TypeScript renderString. */
  method RenderTSTemplate(s: string, tokens: seq<Token>, exprs: seq<string>) returns (b: string)
    requires ValidTokens(s, tokens, 0) && |exprs| == |tokens|
    ensures b == "`" + TSBody(Literals(s, tokens, 0), exprs)
  {
    ghost var lits := Literals(s, tokens, 0);
    b := "`";
    var cursor := 0;
    for i := 0 to |tokens|
      invariant b == "`" + TSPrefix(lits, exprs, i)
      invariant cursor == if i == 0 then 0 else tokens[i - 1].end
    {
      LiteralsSplit(s, tokens, 0, i);
      var lit := Splice.Slice(s, cursor, tokens[i].start);
      Appended("`", TSPrefix(lits, exprs, i), TSEscape(lit), "${" + exprs[i] + "}");
      b := b + TSEscape(lit) + ("${" + exprs[i] + "}");
      cursor := tokens[i].end;
    }
    LastLiteral(s, tokens, 0);
    TSPrefixThenBody(lits, exprs, |exprs|);
    var last := Splice.Slice(s, cursor, |s|);
    assert lits[|exprs|..] == [last] && exprs[|exprs|..] == [];
    Appended("`", TSPrefix(lits, exprs, |exprs|), TSEscape(last), "`");
    b := b + TSEscape(last) + "`";
  }

  lemma Appended<T>(a: seq<T>, b: seq<T>, c: seq<T>, d: seq<T>)
    ensures (a + b) + c + d == a + (b + (c + d))
  {
  }
}
