/** How an authored name reads as an identifier, letter by letter.

    Identifiers computes by parts; here the result is read off the characters of the name:
    which of them it keeps, which become capitals, what a type in front adds, and what
    taking a loop's placeholders out leaves. */
module AuthoredNames {
  import opened Common
  import opened Blueprint
  import opened Identifiers

  predicate Separates(c: char) { c == '-' || c == '_' }

  predicate IsLetter(c: char) { 'a' <= c <= 'z' || '0' <= c <= '9' }

  /** A part of the name starts here. */
  predicate StartsPart(name: string, i: nat)
    requires i < |name|
  {
    !Separates(name[i]) && (i == 0 || Separates(name[i - 1]))
  }

  function Capital(c: char): char { if 'a' <= c <= 'z' then ('A' as int + (c as int - 'a' as int)) as char else c }

  /** The letters of the first n characters, capital where a part starts. */
  function CasedTo(name: string, n: nat): string
    requires n <= |name|
  {
    if n == 0 then []
    else
      CasedTo(name, n - 1)
      + (if Separates(name[n - 1]) then [] else [LetterOf(name, n - 1)])
  }

  /** A letter of the name as the identifier has it. */
  function LetterOf(name: string, m: nat): char
    requires m < |name|
  {
    if StartsPart(name, m) then Capital(name[m]) else name[m]
  }

  // ----------------------------------------------------------------- its parts

  function Cap(p: string): string
    requires p != []
  {
    [Upper(p[0])] + p[1..]
  }

  lemma CapitalizedSnoc(front: seq<string>, last: string)
    requires last != [] && forall i | 0 <= i < |front| :: front[i] != []
    ensures forall i | 0 <= i < |front + [last]| :: (front + [last])[i] != []
    ensures Capitalized(front + [last]) == Capitalized(front) + Cap(last)
  {
    assert (front + [last])[..|front|] == front;
    Regroup(Capitalized(front), [Upper(last[0])], last[1..]);
  }

  ghost predicate Nonempty(parts: seq<string>) { forall i | 0 <= i < |parts| :: parts[i] != [] }

  lemma {:induction false} CapitalizedConcat(a: seq<string>, b: seq<string>)
    requires Nonempty(a) && Nonempty(b)
    ensures Nonempty(a + b) && Capitalized(a + b) == Capitalized(a) + Capitalized(b)
    decreases |b|
  {
    if b == [] {
      assert a + b == a;
    } else {
      var front, last := b[..|b| - 1], b[|b| - 1];
      LastSplits(b);
      CapitalizedConcat(a, front);
      CapitalizedSnoc(a + front, last);
      CapitalizedSnoc(front, last);
      Regroup(a, front, [last]);
      Regroup(Capitalized(a), Capitalized(front), Cap(last));
    }
  }

  lemma CapitalizedCons(p: string, rest: seq<string>)
    requires p != [] && Nonempty(rest)
    ensures Nonempty([p] + rest) && Capitalized([p] + rest) == Cap(p) + Capitalized(rest)
  {
    CapitalizedConcat([p], rest);
    CapitalizedOne(p);
  }

  lemma CapitalizedOne(p: string)
    requires p != []
    ensures Capitalized([p]) == Cap(p)
  {
    assert [p][..0] == [];
  }

  lemma {:induction false} PartEnds(s: string)
    ensures forall i | 0 <= i < FieldLength(s) :: !Separates(s[i])
    ensures FieldLength(s) < |s| ==> Separates(s[FieldLength(s)])
  {
    if s != [] && !IsSeparator(s[0]) {
      PartEnds(s[1..]);
      assert forall i | 0 < i < FieldLength(s) :: s[i] == s[1..][i - 1];
    }
  }

  lemma {:induction false} PartCased(name: string, i: nat, k: nat)
    requires 0 < k && i + k <= |name| && StartsPart(name, i)
    requires forall j | i <= j < i + k :: !Separates(name[j])
    ensures CasedTo(name, i + k) == CasedTo(name, i) + ([Capital(name[i])] + name[i + 1..i + k])
    decreases k
  {
    if k > 1 {
      PartCased(name, i, k - 1);
      assert name[i + 1..i + k] == name[i + 1..i + k - 1] + [name[i + k - 1]];
    } else {
      assert name[i + 1..i + k] == [];
    }
  }

  lemma FieldsHere(name: string, i: nat)
    requires i < |name|
    ensures Separates(name[i]) ==> Fields(name[i..]) == Fields(name[i + 1..])
    ensures !Separates(name[i]) ==>
              var n := FieldLength(name[i..]);
              0 < n && i + n <= |name| && Fields(name[i..]) == [name[i..i + n]] + Fields(name[i + n..])
              && (i + n < |name| ==> Separates(name[i + n]))
              && forall j | i <= j < i + n :: !Separates(name[j])
  {
    var s := name[i..];
    assert s[1..] == name[i + 1..];
    PartEnds(s);
    var n := FieldLength(s);
    assert s[..n] == name[i..i + n] && s[n..] == name[i + n..];
    assert forall j | i <= j < |name| :: name[j] == s[j - i];
  }

  /** What is still to come from the i-th character on. */
  ghost predicate CasedFrom(name: string, i: nat)
    requires i <= |name|
  {
    CasedTo(name, |name|) == CasedTo(name, i) + Capitalized(Fields(name[i..]))
  }

  /** No part goes on across the i-th character's left edge. */
  predicate Edge(name: string, i: nat) {
    i <= |name| && (i == 0 || i == |name| || Separates(name[i - 1]) || Separates(name[i]))
  }

  lemma {:induction false} PartsCased(name: string, i: nat)
    requires Edge(name, i)
    ensures CasedFrom(name, i)
    decreases |name| - i, 1
  {
    if i == |name| {
      NoMoreParts(name);
    } else if Separates(name[i]) {
      SeparatorCased(name, i);
    } else {
      PartAndRestCased(name, i);
    }
  }

  lemma SeparatorCased(name: string, i: nat)
    requires i < |name| && Separates(name[i])
    ensures CasedFrom(name, i)
    decreases |name| - i, 0
  {
    PartsCased(name, i + 1);
    SeparatorThenRest(name, i);
  }

  lemma PartAndRestCased(name: string, i: nat)
    requires i < |name| && Edge(name, i) && !Separates(name[i])
    ensures CasedFrom(name, i)
    decreases |name| - i, 0
  {
    var n := PartHere(name, i);
    PartsCased(name, i + n);
    PartThenRest(name, i, n);
  }

  lemma PartHere(name: string, i: nat) returns (n: nat)
    requires i < |name| && !Separates(name[i])
    ensures IsPart(name, i, n) && Edge(name, i + n)
  {
    FieldsHere(name, i);
    n := FieldLength(name[i..]);
  }

  ghost predicate IsPart(name: string, i: nat, n: nat) {
    && 0 < n && i + n <= |name| && Fields(name[i..]) == [name[i..i + n]] + Fields(name[i + n..])
    && forall j | i <= j < i + n :: !Separates(name[j])
  }

  lemma SeparatorThenRest(name: string, i: nat)
    requires i < |name| && Separates(name[i])
    ensures CasedFrom(name, i + 1) ==> CasedFrom(name, i)
  {
    FieldsHere(name, i);
    CasedNext(name, i);
  }

  lemma CasedNext(name: string, m: nat)
    requires m < |name|
    ensures CasedTo(name, m + 1)
         == if Separates(name[m]) then CasedTo(name, m) else CasedTo(name, m) + [LetterOf(name, m)]
  {
  }

  lemma NoMoreParts(name: string)
    ensures CasedFrom(name, |name|)
  {
    assert Fields(name[|name|..]) == [];
  }

  lemma PartThenRest(name: string, i: nat, n: nat)
    requires i < |name| && Edge(name, i) && IsPart(name, i, n)
    ensures CasedFrom(name, i + n) ==> CasedFrom(name, i)
  {
    var p := name[i..i + n];
    assert StartsPart(name, i);
    PartCased(name, i, n);
    assert p[0] == name[i] && p[1..] == name[i + 1..i + n];
    CapitalizedCons(p, Fields(name[i + n..]));
    Regroup(CasedTo(name, i), Cap(p), Capitalized(Fields(name[i + n..])));
  }

  lemma CapitalizedIsCased(name: string)
    ensures Capitalized(Fields(name)) == CasedTo(name, |name|)
  {
    PartsCased(name, 0);
    FromStart(name);
  }

  lemma FromStart(name: string)
    requires CasedFrom(name, 0)
    ensures Capitalized(Fields(name)) == CasedTo(name, |name|)
  {
    WholeOf(name);
    Prepended(CasedTo(name, 0), Capitalized(Fields(name)));
  }

  lemma WholeOf<T>(s: seq<T>)
    ensures s[0..] == s
  {
  }

  lemma Prepended<T>(a: seq<T>, b: seq<T>)
    ensures a == [] ==> a + b == b
  {
  }

  // ------------------------------------------------------------ when it converts

  lemma {:induction false} LettersOfParts(name: string, i: nat)
    requires i <= |name|
    ensures Fields(name[i..]) == [] <==> forall j | i <= j < |name| :: Separates(name[j])
    ensures AllLetters(Fields(name[i..])) <==> forall j | i <= j < |name| :: Separates(name[j]) || IsLetter(name[j])
    decreases |name| - i
  {
    if i < |name| {
      FieldsHere(name, i);
      if Separates(name[i]) {
        LettersOfParts(name, i + 1);
      } else {
        var n := FieldLength(name[i..]);
        LettersOfParts(name, i + n);
        LettersCons(name[i..i + n], Fields(name[i + n..]));
        assert forall j | i <= j < i + n :: name[j] == name[i..i + n][j - i];
      }
    } else {
      assert name[i..] == [];
    }
  }

  ghost predicate OnlyLetters(part: string) { forall i | 0 <= i < |part| :: IsLetter(part[i]) }

  ghost predicate AllLetters(parts: seq<string>) { forall k | 0 <= k < |parts| :: OnlyLetters(parts[k]) }

  lemma LettersCons(p: string, rest: seq<string>)
    ensures AllLetters([p] + rest) <==> OnlyLetters(p) && AllLetters(rest)
  {
    assert ([p] + rest)[0] == p;
    assert forall k | 0 <= k < |rest| :: ([p] + rest)[k + 1] == rest[k];
  }

  /** A name that can be converted: a letter or digit at least, and besides those only
      hyphens and underscores. */
  ghost predicate Convertible(name: string) {
    && (exists i :: 0 <= i < |name| && IsLetter(name[i]))
    && forall i | 0 <= i < |name| :: Separates(name[i]) || IsLetter(name[i])
  }

  lemma SplitsIff(name: string)
    ensures SplitAuthored(name).Ok? <==> Convertible(name)
    ensures SplitAuthored(name).Ok? ==> SplitAuthored(name).value == Fields(name)
  {
    LettersOfParts(name, 0);
    assert name[0..] == name;
    var parts := Fields(name);
    assert AllLetters(parts) <==>
      !exists k | 0 <= k < |parts| :: exists i | 0 <= i < |parts[k]| :: !IsLower(parts[k][i]) && !IsDigit(parts[k][i]);
  }

  /** The identifier is the name without its separators, capital where a part starts. */
  lemma PascalIs(name: string)
    ensures Pascal(name) == if Convertible(name) then Ok(CasedTo(name, |name|)) else Err
  {
    SplitsIff(name);
    CapitalizedIsCased(name);
  }

  /** Which characters of the name the identifier is made of: all but the separators, in
      order. */
  ghost predicate LettersAt(name: string, n: nat, at: seq<nat>) {
    && n <= |name|
    && (forall k | 0 <= k < |at| :: at[k] < n && !Separates(name[at[k]]))
    && (forall j, k | 0 <= j < k < |at| :: at[j] < at[k])
    && (forall i | 0 <= i < n && !Separates(name[i]) :: i in at)
  }

  ghost predicate ReadOff(name: string, at: seq<nat>, s: string)
    requires forall k | 0 <= k < |at| :: at[k] < |name|
  {
    && |s| == |at|
    && forall k | 0 <= k < |at| :: s[k] == LetterOf(name, at[k])
  }

  lemma ReadOffMore(name: string, at: seq<nat>, s: string, i: nat, c: char)
    requires (forall k | 0 <= k < |at| :: at[k] < |name|) && i < |name| && ReadOff(name, at, s)
    requires c == LetterOf(name, i)
    ensures (forall k | 0 <= k < |at + [i]| :: (at + [i])[k] < |name|) && ReadOff(name, at + [i], s + [c])
  {
  }

  lemma LettersMore(name: string, n: nat, at: seq<nat>)
    requires n < |name| && LettersAt(name, n, at)
    ensures LettersAt(name, n + 1, if Separates(name[n]) then at else at + [n])
  {
    var more := if Separates(name[n]) then at else at + [n];
    forall i | 0 <= i < n + 1 && !Separates(name[i]) ensures i in more {
      if i == n {
        assert more[|at|] == n;
      }
    }
  }

  ghost predicate ReadTo(name: string, n: nat, at: seq<nat>) {
    LettersAt(name, n, at) && ReadOff(name, at, CasedTo(name, n))
  }

  lemma ReadOn(name: string, m: nat, before: seq<nat>) returns (at: seq<nat>)
    requires m < |name| && ReadTo(name, m, before)
    ensures ReadTo(name, m + 1, at)
  {
    LettersMore(name, m, before);
    CasedNext(name, m);
    if Separates(name[m]) {
      at := before;
    } else {
      at := before + [m];
      ReadOffMore(name, before, CasedTo(name, m), m, LetterOf(name, m));
    }
  }

  lemma CasedReads(name: string, n: nat) returns (at: seq<nat>)
    requires n <= |name|
    ensures ReadTo(name, n, at)
  {
    at := [];
    NothingRead(name);
    for m := 0 to n
      invariant ReadTo(name, m, at)
    {
      at := ReadOn(name, m, at);
    }
  }

  lemma NothingRead(name: string)
    ensures ReadTo(name, 0, [])
  {
  }

  lemma {:induction false} LetterBefore(name: string, i: nat) returns (j: nat)
    requires i < |name| && !Separates(name[i])
    ensures j <= i && StartsPart(name, j)
  {
    if StartsPart(name, i) {
      j := i;
    } else {
      j := LetterBefore(name, i - 1);
    }
  }

  lemma FirstStarts(name: string, at: seq<nat>)
    requires LettersAt(name, |name|, at) && at != []
    ensures StartsPart(name, at[0])
  {
    var j := LetterBefore(name, at[0]);
    assert j in at;
    var k :| 0 <= k < |at| && at[k] == j;
  }

  /** Letter by letter: an identifier is made of the name's letters and digits in order,
      capital exactly where a part starts; its local is the same with the first letter as
      the name has it; and there is one exactly for a convertible name. */
  lemma PascalReads(name: string) returns (at: seq<nat>)
    ensures Pascal(name).Ok? <==> Convertible(name)
    ensures LettersAt(name, |name|, at)
    ensures Pascal(name).Ok? ==>
      var ident := Pascal(name).value;
      && at != [] && ReadOff(name, at, ident)
      && LowerFirst(ident) != [] && LowerFirst(ident)[0] == name[at[0]] && LowerFirst(ident)[1..] == ident[1..]
  {
    PascalIs(name);
    at := CasedReads(name, |name|);
    if Convertible(name) {
      var i :| 0 <= i < |name| && IsLetter(name[i]);
      assert i in at;
      FirstStarts(name, at);
      LocalIs(CasedTo(name, |name|), name[at[0]]);
    }
  }

  lemma LocalIs(ident: string, c: char)
    requires ident != [] && IsLetter(c) && ident[0] == Capital(c)
    ensures LowerFirst(ident) != [] && LowerFirst(ident)[0] == c && LowerFirst(ident)[1..] == ident[1..]
  {
  }

  // ---------------------------------------------------------- names put together

  /** Separators only part a name. */
  lemma {:induction false} PartsConcat(a: string, sep: char, b: string)
    requires Separates(sep)
    ensures Fields(a + [sep] + b) == Fields(a) + Fields(b)
    decreases |a|
  {
    var s := a + [sep] + b;
    if a == [] {
      assert s[1..] == b && s[0] == sep;
    } else if IsSeparator(a[0]) {
      assert s[1..] == a[1..] + [sep] + b;
      PartsConcat(a[1..], sep, b);
    } else {
      var n := FieldLength(a);
      SameField(a, sep, b);
      assert s[..n] == a[..n] && s[n..] == a[n..] + [sep] + b;
      PartsConcat(a[n..], sep, b);
    }
  }

  lemma {:induction false} SameField(a: string, sep: char, b: string)
    requires Separates(sep)
    ensures FieldLength(a + [sep] + b) == FieldLength(a)
    decreases |a|
  {
    if a != [] {
      assert (a + [sep] + b)[1..] == a[1..] + [sep] + b;
      SameField(a[1..], sep, b);
    }
  }

  /** A contested name is told apart by its resource's type, which comes first. */
  lemma QualifiedIdentifier(rtype: string, name: string)
    requires Pascal(rtype).Ok? && Pascal(name).Ok?
    ensures Pascal(rtype + "_" + name) == Ok(Pascal(rtype).value + Pascal(name).value)
  {
    SplitsIff(rtype);
    SplitsIff(name);
    PartsConcat(rtype, '_', name);
    SplitsIff(rtype + "_" + name);
    CapitalizedConcat(Fields(rtype), Fields(name));
    var i :| 0 <= i < |name| && IsLetter(name[i]);
    assert (rtype + "_" + name)[|rtype| + 1 + i] == name[i];
    assert Convertible(rtype + "_" + name);
  }

  /** So a resource whose own identifier another also derives is called by type and name,
      and any other by name alone. */
  lemma SourceIdentifier(rs: seq<DecodedResource>, i: nat)
    requires AllDerive(rs) && i < |rs|
    ensures !Contested(rs, i) ==> Pascal(Source(rs, i)) == Derived(rs[i])
    ensures Contested(rs, i) && Pascal(rs[i].ri.rtype).Ok? ==>
              Pascal(Source(rs, i)) == Ok(Pascal(rs[i].ri.rtype).value + Derived(rs[i]).value)
  {
    ContestedRepeats(rs, i);
    if Contested(rs, i) && Pascal(rs[i].ri.rtype).Ok? {
      QualifiedIdentifier(rs[i].ri.rtype, Basis(rs[i]).value);
    }
  }

  lemma ContestedRepeats(rs: seq<DecodedResource>, i: nat)
    requires AllDerive(rs) && i < |rs|
    ensures Contested(rs, i) <==> Repeats(DerivedIdents(rs), i)
  {
    if j :| 0 <= j < |rs| && j != i && Derived(rs[j]) == Derived(rs[i]) {
      assert DerivedIdents(rs)[j] == DerivedIdents(rs)[i];
    }
  }

  ghost predicate Contested(rs: seq<DecodedResource>, i: nat)
    requires AllDerive(rs) && i < |rs|
  {
    exists j | 0 <= j < |rs| :: j != i && Derived(rs[j]) == Derived(rs[i])
  }

  // ------------------------------------------------------------- iterated names

  /** Whether a part starts at once. */
  predicate AtPart(s: string) { s != [] && !Separates(s[0]) }

  lemma PartsCons(c: char, s: string)
    ensures Separates(c) ==> Fields([c] + s) == Fields(s)
    ensures !Separates(c) && !AtPart(s) ==> Fields([c] + s) == [[c]] + Fields(s)
    ensures !Separates(c) && AtPart(s) ==>
              Fields(s) != [] && Fields([c] + s) == [[c] + Fields(s)[0]] + Fields(s)[1..]
  {
    var t := [c] + s;
    assert t[1..] == s;
    if !Separates(c) {
      var n := FieldLength(s);
      assert FieldLength(t) == 1 + n;
      assert t[1 + n..] == s[n..] && t[..1 + n] == [c] + s[..n];
      if !AtPart(s) {
        assert s[0..] == s && s[..0] == [] && [c] + [] == [c];
      }
    }
  }

  lemma {:induction false} RunHasNoParts(s: string)
    ensures Fields(s) == Fields(s[SeparatorRun(s)..])
  {
    if s != [] && IsSeparator(s[0]) {
      RunHasNoParts(s[1..]);
      assert s[SeparatorRun(s)..] == s[1..][SeparatorRun(s[1..])..];
    } else {
      assert s[0..] == s;
    }
  }

  lemma {:induction false} CollapseKeepsParts(s: string)
    ensures Fields(CollapseSeparators(s)) == Fields(s) && (AtPart(CollapseSeparators(s)) <==> AtPart(s))
    decreases |s|
  {
    if s != [] {
      if SeparatorRun(s) >= 2 {
        RunHasNoParts(s);
        CollapseKeepsParts(s[SeparatorRun(s)..]);
        PartsCons('-', CollapseSeparators(s[SeparatorRun(s)..]));
      } else {
        CollapseKeepsParts(s[1..]);
        FirstSplits(s);
        PartsCons(s[0], s[1..]);
        PartsCons(s[0], CollapseSeparators(s[1..]));
      }
    }
  }

  lemma {:induction false} TrimKeepsParts(s: string)
    ensures Fields(TrimSeparators(s)) == Fields(s)
    decreases |s|
  {
    if s != [] {
      if IsSeparator(s[0]) {
        TrimKeepsParts(s[1..]);
      } else if IsSeparator(s[|s| - 1]) {
        TrimKeepsParts(s[..|s| - 1]);
        PartsConcat(s[..|s| - 1], s[|s| - 1], []);
        assert s == s[..|s| - 1] + [s[|s| - 1]] + [];
      }
    }
  }

  lemma SamePartsSameName(a: string, b: string)
    requires Fields(a) == Fields(b)
    ensures Pascal(a) == Pascal(b)
  {
  }

  /** An iterated resource's identifier is its name's with the placeholders taken out. */
  lemma LoopIdentifier(dr: DecodedResource)
    requires dr.ri.forEach != ""
    ensures Derived(dr) == Pascal(StripPlaceholders(dr.ri.name.chars))
  {
    var stripped := StripPlaceholders(dr.ri.name.chars);
    var basis := TrimSeparators(CollapseSeparators(stripped));
    CollapseKeepsParts(stripped);
    TrimKeepsParts(CollapseSeparators(stripped));
    SamePartsSameName(basis, stripped);
  }

  lemma {:induction false} NothingStripped(s: string)
    requires '{' !in s || '}' !in s
    ensures StripPlaceholders(s) == s
  {
    if s != [] {
      FirstSplits(s);
      NothingStripped(s[1..]);
    }
  }

  lemma {:induction false} ClosingAt(x: string, b: string)
    requires '}' !in x
    ensures IndexOf(x + ("}" + b), '}') == |x|
  {
    if x != [] {
      assert x[0] in x && (x + ("}" + b))[1..] == x[1..] + ("}" + b);
      ClosingAt(x[1..], b);
    } else {
      assert x + ("}" + b) == "}" + b;
    }
  }

  lemma StripFirst(x: string, b: string)
    requires '}' !in x
    ensures StripPlaceholders("{" + (x + ("}" + b))) == StripPlaceholders(b)
  {
    var s := "{" + (x + ("}" + b));
    assert s[1..] == x + ("}" + b);
    ClosingAt(x, b);
    assert s[|x| + 1] == '}';
    assert IndexOf(s, '}') == |x| + 1;
    assert s[|x| + 2..] == b;
  }

  /** A placeholder runs from an opening brace to the first closing one after it. */
  lemma {:induction false} PlaceholderStripped(a: string, x: string, b: string)
    requires '{' !in a && '}' !in x
    ensures StripPlaceholders(a + ("{" + (x + ("}" + b)))) == a + StripPlaceholders(b)
    decreases |a|
  {
    var s := a + ("{" + (x + ("}" + b)));
    if a == [] {
      StripFirst(x, b);
      assert s == "{" + (x + ("}" + b));
    } else {
      assert s[0] == a[0] && a[0] in a && s[1..] == a[1..] + ("{" + (x + ("}" + b)));
      PlaceholderStripped(a[1..], x, b);
      assert a == [a[0]] + a[1..];
    }
  }

  /** "subnet-{zones}" and "subnet-{zones_index}" are both called by what "subnet-" is. */
  lemma OnePlaceholderIdentifier(dr: DecodedResource, a: string, x: string, b: string)
    requires dr.ri.forEach != "" && dr.ri.name.chars == a + ("{" + (x + ("}" + b)))
    requires '{' !in a && '}' !in x && '{' !in b
    ensures Derived(dr) == Pascal(a + b)
  {
    LoopIdentifier(dr);
    PlaceholderStripped(a, x, b);
    NothingStripped(b);
  }
}
