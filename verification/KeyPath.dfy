/** Key paths as the cascade's side maps spell them: joined with dots, and quoted where a
    key is not a plain identifier.

    Reading a path back is not something the program does; it is how the proofs know that
    no two paths are spelled alike. */
module KeyPath {
  import opened Common

  /** Which characters above ASCII print as themselves inside a quoted key: Go's Unicode
      table, left as a parameter. */
  type Printable = char -> bool

  predicate IsIdentStart(c: char) { 'A' <= c <= 'Z' || 'a' <= c <= 'z' || c == '_' }

  predicate IsIdentChar(c: char) { IsIdentStart(c) || '0' <= c <= '9' }

  predicate IsIdentifier(key: string) {
    key != [] && IsIdentStart(key[0]) && forall i | 0 <= i < |key| :: IsIdentChar(key[i])
  }

  // ----------------------------------------------------------------- quoting

  const DIGITS: string := "0123456789abcdef"

  /** n as exactly width lower-case hexadecimal digits. */
  function Hex(n: nat, width: nat): (s: string)
    ensures |s| == width
  {
    if width == 0 then [] else Hex(n / 16, width - 1) + [DIGITS[n % 16]]
  }

  function DigitValue(c: char): nat {
    if '0' <= c <= '9' then c as nat - '0' as nat else if 'a' <= c <= 'f' then c as nat - 'a' as nat + 10 else 0
  }

  function HexValue(s: string): nat {
    if s == [] then 0 else HexValue(s[..|s| - 1]) * 16 + DigitValue(s[|s| - 1])
  }

  function Power16(w: nat): nat { if w == 0 then 1 else 16 * Power16(w - 1) }

  lemma {:induction false} HexRoundTrip(n: nat, width: nat)
    requires n < Power16(width)
    ensures HexValue(Hex(n, width)) == n
  {
    if width > 0 {
      HexRoundTrip(n / 16, width - 1);
      var s := Hex(n, width);
      assert s[..|s| - 1] == Hex(n / 16, width - 1);
      DigitRoundTrip(n % 16);
    }
  }

  lemma DigitRoundTrip(k: nat)
    requires k < 16
    ensures DigitValue(DIGITS[k]) == k
  {
    assert DIGITS == ['0', '1', '2', '3', '4', '5', '6', '7', '8', '9', 'a', 'b', 'c', 'd', 'e', 'f'];
  }

  /** The short escape of a control character, quote or backslash. */
  function ShortEscape(c: char): Option<char> {
    if c == '\"' then Some('\"')
    else if c == '\\' then Some('\\')
    else if c == 7 as char then Some('a')
    else if c == 8 as char then Some('b')
    else if c == 12 as char then Some('f')
    else if c == '\n' then Some('n')
    else if c == '\r' then Some('r')
    else if c == '\t' then Some('t')
    else if c == 11 as char then Some('v')
    else None
  }

  /** One character of strconv.Quote. */
  function Escape(pr: Printable, c: char): (s: string)
    ensures s != [] && s[0] != '\"'
  {
    if ShortEscape(c).Some? then ['\\', ShortEscape(c).value]
    else if ' ' <= c <= '~' || (c > 127 as char && pr(c)) then [c]
    else if c <= 127 as char then ['\\', 'x'] + Hex(c as nat, 2)
    else if (c as nat) < 0x10000 then ['\\', 'u'] + Hex(c as nat, 4)
    else ['\\', 'U'] + Hex(c as nat, 8)
  }

  function Escaped(pr: Printable, key: string): string {
    if key == [] then [] else Escape(pr, key[0]) + Escaped(pr, key[1..])
  }

  function Quote(pr: Printable, key: string): string { "\"" + Escaped(pr, key) + "\"" }

  /** Reads the escape at the head of s back, with what follows it. */
  function Unescape(s: string): (nat, string) {
    if s == [] then (0, [])
    else if s[0] != '\\' || |s| < 2 then (s[0] as nat, s[1..])
    else if s[1] == 'x' && |s| >= 4 then (HexValue(s[2..4]), s[4..])
    else if s[1] == 'u' && |s| >= 6 then (HexValue(s[2..6]), s[6..])
    else if s[1] == 'U' && |s| >= 10 then (HexValue(s[2..10]), s[10..])
    else (ShortValue(s[1]), s[2..])
  }

  function ShortValue(c: char): nat {
    match c
    case 'a' => 7
    case 'b' => 8
    case 'f' => 12
    case 'n' => 10
    case 'r' => 13
    case 't' => 9
    case 'v' => 11
    case _ => c as nat
  }

  lemma UnescapeEscape(pr: Printable, c: char, rest: string)
    ensures Unescape(Escape(pr, c) + rest) == (c as nat, rest)
  {
    var s := Escape(pr, c) + rest;
    if ShortEscape(c).Some? {
      assert s[2..] == rest;
    } else if |Escape(pr, c)| == 1 {
      assert s[1..] == rest;
    } else if c <= 127 as char {
      HexEscape('x', c as nat, 2, rest);
    } else if (c as nat) < 0x10000 {
      HexEscape('u', c as nat, 4, rest);
    } else {
      HexEscape('U', c as nat, 8, rest);
    }
  }

  lemma HexEscape(kind: char, n: nat, width: nat, rest: string)
    requires (kind == 'x' && width == 2 && n < 256) || (kind == 'u' && width == 4 && n < 0x10000)
             || (kind == 'U' && width == 8 && n < 0x110000)
    ensures Unescape(['\\', kind] + Hex(n, width) + rest) == (n, rest)
  {
    var s := ['\\', kind] + Hex(n, width) + rest;
    PowersOf16();
    HexRoundTrip(n, width);
    assert s[2..2 + width] == Hex(n, width);
    assert s[2 + width..] == rest;
  }

  lemma PowersOf16()
    ensures Power16(2) == 256 && Power16(4) == 0x10000 && Power16(8) >= 0x110000
  {
    assert Power16(1) == 16;
    assert Power16(3) == 4096;
    assert Power16(5) == 0x100000;
    assert Power16(6) == 0x1000000;
    assert Power16(7) == 0x10000000;
  }

  lemma EscapeUnique(pr: Printable, c: char, d: char, x: string, y: string)
    requires Escape(pr, c) + x == Escape(pr, d) + y
    ensures c == d && x == y
  {
    UnescapeEscape(pr, c, x);
    UnescapeEscape(pr, d, y);
  }

  /** The text from inside a quoted key to its end and beyond. */
  function Closed(pr: Printable, key: string, after: string): string { Escaped(pr, key) + ("\"" + after) }

  lemma ClosedStep(pr: Printable, key: string, after: string)
    requires key != []
    ensures Closed(pr, key, after) == Escape(pr, key[0]) + Closed(pr, key[1..], after)
  {
    Regroup(Escape(pr, key[0]), Escaped(pr, key[1..]), "\"" + after);
  }

  /** A quoted key ends where it ends: the closing quote cannot be mistaken, and the
      escapes before it determine the key. */
  lemma {:induction false} QuotedUnique(pr: Printable, a: string, b: string, x: string, y: string)
    requires Closed(pr, a, x) == Closed(pr, b, y)
    ensures a == b && x == y
  {
    if a != [] {
      ClosedStep(pr, a, x);
    }
    if b != [] {
      ClosedStep(pr, b, y);
    }
    if a == [] || b == [] {
      ClosingQuote(pr, a, b, x, y);
    } else {
      EscapeUnique(pr, a[0], b[0], Closed(pr, a[1..], x), Closed(pr, b[1..], y));
      QuotedUnique(pr, a[1..], b[1..], x, y);
      assert a == [a[0]] + a[1..] && b == [b[0]] + b[1..];
    }
  }

  lemma ClosedHead(pr: Printable, key: string, after: string)
    ensures Closed(pr, key, after) != [] && (Closed(pr, key, after)[0] == '\"' <==> key == [])
  {
    if key != [] {
      ClosedStep(pr, key, after);
    }
  }

  lemma ClosingQuote(pr: Printable, a: string, b: string, x: string, y: string)
    requires Closed(pr, a, x) == Closed(pr, b, y) && (a == [] || b == [])
    ensures a == b && x == y
  {
    ClosedHead(pr, a, x);
    ClosedHead(pr, b, y);
    assert Closed(pr, [], x) == "\"" + x && Closed(pr, [], y) == "\"" + y;
    CancelPrefix("\"", x, y);
  }

  // ------------------------------------------------------------------- segments

  function Segment(pr: Printable, key: string): (s: string)
    ensures s != []
  {
    if IsIdentifier(key) then key else Quote(pr, key)
  }

  /** joinProvenancePath. */
  function Join(pr: Printable, base: string, key: string): string {
    if base == "" then Segment(pr, key) else base + "." + Segment(pr, key)
  }

  /** A path, joined key by key from the top. */
  function Render(pr: Printable, path: seq<string>): string {
    if path == [] then "" else Join(pr, Render(pr, path[..|path| - 1]), path[|path| - 1])
  }

  function Tail(pr: Printable, path: seq<string>): string {
    if path == [] then "" else "." + Segment(pr, path[0]) + Tail(pr, path[1..])
  }

  lemma {:induction false} TailAppend(pr: Printable, path: seq<string>, key: string)
    ensures Tail(pr, path + [key]) == Tail(pr, path) + ("." + Segment(pr, key))
  {
    if path == [] {
      assert path + [key] == [key];
      assert Tail(pr, [key]) == "." + Segment(pr, key) + Tail(pr, []);
    } else {
      TailAppend(pr, path[1..], key);
      assert (path + [key])[1..] == path[1..] + [key];
      Regroup("." + Segment(pr, path[0]), Tail(pr, path[1..]), "." + Segment(pr, key));
    }
  }

  lemma RenderStep(pr: Printable, front: seq<string>, key: string)
    requires Render(pr, front) != ""
    ensures Render(pr, front + [key]) == Render(pr, front) + ("." + Segment(pr, key))
  {
    var path := front + [key];
    assert path[..|path| - 1] == front && path[|path| - 1] == key;
    Regroup(Render(pr, front), ".", Segment(pr, key));
  }

  lemma {:induction false} RenderFromFront(pr: Printable, first: string, rest: seq<string>)
    ensures Render(pr, [first] + rest) == Segment(pr, first) + Tail(pr, rest)
  {
    if rest == [] {
      assert [first] + rest == [first];
      RenderOne(pr, first);
    } else {
      var front, key := rest[..|rest| - 1], rest[|rest| - 1];
      RenderFromFront(pr, first, front);
      RenderExtends(pr, first, front, key);
      LastSplits(rest);
    }
  }

  lemma RenderOne(pr: Printable, first: string)
    ensures Render(pr, [first]) == Segment(pr, first)
  {
    assert [first][..0] == [];
  }

  lemma RenderExtends(pr: Printable, first: string, front: seq<string>, key: string)
    requires Render(pr, [first] + front) == Segment(pr, first) + Tail(pr, front)
    ensures Render(pr, [first] + (front + [key])) == Segment(pr, first) + Tail(pr, front + [key])
  {
    ConsSnoc(first, front, key);
    RenderStep(pr, [first] + front, key);
    TailAppend(pr, front, key);
    Regroup(Segment(pr, first), Tail(pr, front), "." + Segment(pr, key));
  }

  lemma RenderFirst(pr: Printable, p: seq<string>)
    requires p != []
    ensures Render(pr, p) == Segment(pr, p[0]) + Tail(pr, p[1..])
    ensures Render(pr, p) != ""
  {
    FirstSplits(p);
    RenderFromFront(pr, p[0], p[1..]);
  }

  lemma Across(a: string, x: string, k: nat)
    requires k < |a + x|
    ensures (a + x)[k] == if k < |a| then a[k] else x[k - |a|]
  {
  }

  lemma IdentifierNotShorter(a: string, b: string, x: string, y: string)
    requires forall i | 0 <= i < |b| :: IsIdentChar(b[i])
    requires x == "" || x[0] == '.'
    requires a + x == b + y
    ensures |b| <= |a|
  {
    var k: nat := |a|;
    if k < |b| {
      Across(a, x, k);
      Across(b, y, k);
      assert false;
    }
  }

  lemma IdentifierEnds(a: string, b: string, x: string, y: string)
    requires forall i | 0 <= i < |a| :: IsIdentChar(a[i])
    requires forall i | 0 <= i < |b| :: IsIdentChar(b[i])
    requires (x == "" || x[0] == '.') && (y == "" || y[0] == '.')
    requires a + x == b + y
    ensures a == b && x == y
  {
    IdentifierNotShorter(a, b, x, y);
    IdentifierNotShorter(b, a, y, x);
    assert (a + x)[..|a|] == a && (b + y)[..|a|] == b;
    CancelPrefix(a, x, y);
  }

  lemma QuoteRegrouped(pr: Printable, k: string, x: string)
    ensures Quote(pr, k) + x == "\"" + Closed(pr, k, x)
  {
    Regroup("\"" + Escaped(pr, k), "\"", x);
    Regroup("\"", Escaped(pr, k), "\"" + x);
  }

  lemma SegmentUnique(pr: Printable, j: string, k: string, x: string, y: string)
    requires (x == "" || x[0] == '.') && (y == "" || y[0] == '.')
    requires Segment(pr, j) + x == Segment(pr, k) + y
    ensures j == k && x == y
  {
    if IsIdentifier(j) && IsIdentifier(k) {
      IdentifierEnds(j, k, x, y);
    } else if IsIdentifier(j) || IsIdentifier(k) {
      FirstCharacter(pr, j, x);
      FirstCharacter(pr, k, y);
      assert false;
    } else {
      QuoteRegrouped(pr, j, x);
      QuoteRegrouped(pr, k, y);
      CancelPrefix("\"", Closed(pr, j, x), Closed(pr, k, y));
      QuotedUnique(pr, j, k, x, y);
    }
  }

  lemma FirstCharacter(pr: Printable, k: string, x: string)
    ensures (Segment(pr, k) + x)[0] == '\"' <==> !IsIdentifier(k)
  {
    if IsIdentifier(k) {
      assert IsIdentStart(k[0]) && (Segment(pr, k) + x)[0] == k[0];
    }
  }

  lemma TailRegrouped(pr: Printable, p: seq<string>)
    requires p != []
    ensures Tail(pr, p) == "." + (Segment(pr, p[0]) + Tail(pr, p[1..]))
  {
    Regroup(".", Segment(pr, p[0]), Tail(pr, p[1..]));
  }

  lemma {:induction false} TailUnique(pr: Printable, p: seq<string>, q: seq<string>)
    requires Tail(pr, p) == Tail(pr, q)
    ensures p == q
  {
    if p == [] || q == [] {
    } else {
      TailRegrouped(pr, p);
      TailRegrouped(pr, q);
      CancelPrefix(".", Segment(pr, p[0]) + Tail(pr, p[1..]), Segment(pr, q[0]) + Tail(pr, q[1..]));
      SegmentUnique(pr, p[0], q[0], Tail(pr, p[1..]), Tail(pr, q[1..]));
      TailUnique(pr, p[1..], q[1..]);
      assert p == [p[0]] + p[1..] && q == [q[0]] + q[1..];
    }
  }

  /** Two different key paths never render alike, whatever dots, quotes, backslashes or
      control characters their keys hold. */
  lemma RenderInjective(pr: Printable, p: seq<string>, q: seq<string>)
    requires Render(pr, p) == Render(pr, q)
    ensures p == q
  {
    if p != [] {
      RenderFirst(pr, p);
    }
    if q != [] {
      RenderFirst(pr, q);
    }
    if p != [] && q != [] {
      SegmentUnique(pr, p[0], q[0], Tail(pr, p[1..]), Tail(pr, q[1..]));
      TailUnique(pr, p[1..], q[1..]);
      FirstSplits(p);
      FirstSplits(q);
    }
  }

  // ---------------------------------------------------------------- bare keys

  /** Letters, digits and underscores, not a digit first. */
  ghost predicate Bare(key: string) {
    && key != "" && !('0' <= key[0] <= '9')
    && forall i | 0 <= i < |key| ::
         'A' <= key[i] <= 'Z' || 'a' <= key[i] <= 'z' || key[i] == '_' || '0' <= key[i] <= '9'
  }

  lemma {:induction false} EscapedNotShorter(pr: Printable, key: string)
    ensures |Escaped(pr, key)| >= |key|
  {
    if key != [] {
      EscapedNotShorter(pr, key[1..]);
    }
  }

  /** A key is written as it is exactly when it is bare, and otherwise in quotes. */
  lemma BareIff(pr: Printable, key: string)
    ensures Segment(pr, key) == key <==> Bare(key)
    ensures !Bare(key) ==> Segment(pr, key)[0] == '\"' && Segment(pr, key)[|Segment(pr, key)| - 1] == '\"'
  {
    EscapedNotShorter(pr, key);
    assert IsIdentifier(key) <==> Bare(key) by {
      if key != [] {
        assert IsIdentChar(key[0]) && !('0' <= key[0] <= '9') ==> IsIdentStart(key[0]);
      }
    }
  }

  function Dotted(path: seq<string>): string {
    if path == [] then "" else "." + path[0] + Dotted(path[1..])
  }

  ghost predicate AllBare(path: seq<string>) { forall i | 0 <= i < |path| :: Bare(path[i]) }

  lemma AllBareCons(path: seq<string>)
    requires path != [] && AllBare(path)
    ensures Bare(path[0]) && AllBare(path[1..])
  {
  }

  lemma {:induction false} BareTail(pr: Printable, path: seq<string>)
    requires AllBare(path)
    ensures Tail(pr, path) == Dotted(path)
  {
    if path != [] {
      AllBareCons(path);
      BareIff(pr, path[0]);
      BareTail(pr, path[1..]);
    }
  }

  /** A path of bare keys is those keys with dots between. */
  lemma BarePathIsDotted(pr: Printable, path: seq<string>)
    requires path != [] && AllBare(path)
    ensures Render(pr, path) == path[0] + Dotted(path[1..])
  {
    AllBareCons(path);
    BareTail(pr, path[1..]);
    BareIff(pr, path[0]);
    StartsAndGoesOn(pr, path, path[0], Dotted(path[1..]));
  }

  lemma StartsAndGoesOn(pr: Printable, path: seq<string>, first: string, rest: string)
    requires path != [] && Segment(pr, path[0]) == first && Tail(pr, path[1..]) == rest
    ensures Render(pr, path) == first + rest
  {
    RenderFirst(pr, path);
  }
}
