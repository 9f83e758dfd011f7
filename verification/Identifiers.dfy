/** Names to identifiers: casing, qualification of contested names, and wrap's check. */
module Identifiers {
  import opened Common
  import opened Blueprint

  predicate IsSeparator(c: char) { c == '-' || c == '_' }

  predicate IsLower(c: char) { 'a' <= c <= 'z' }

  predicate IsDigit(c: char) { '0' <= c <= '9' }

  function Upper(c: char): char { if IsLower(c) then ('A' as int + (c as int - 'a' as int)) as char else c }

  function Lower(c: char): char { if 'A' <= c <= 'Z' then ('a' as int + (c as int - 'A' as int)) as char else c }

  /** The maximal separator-free runs of name, left to right. */
  function Fields(name: string): (parts: seq<string>)
    ensures forall i | 0 <= i < |parts| :: parts[i] != []
  {
    if name == [] then []
    else if IsSeparator(name[0]) then Fields(name[1..])
    else
      var n := FieldLength(name);
      [name[..n]] + Fields(name[n..])
  }

  function FieldLength(name: string): (n: nat)
    ensures n <= |name|
    ensures name != [] && !IsSeparator(name[0]) ==> n > 0
  {
    if name == [] || IsSeparator(name[0]) then 0 else 1 + FieldLength(name[1..])
  }

  ghost predicate WellFormed(parts: seq<string>) {
    forall i | 0 <= i < |parts| :: parts[i] != [] && (IsLower(parts[i][0]) || IsDigit(parts[i][0]))
  }

  /** splitAuthoredNameParts. */
  function SplitAuthored(name: string): (r: Result<seq<string>>)
    ensures r.Ok? ==> r.value != [] && WellFormed(r.value)
  {
    var parts := Fields(name);
    if parts == [] then Err
    else if exists k | 0 <= k < |parts| ::
              exists i | 0 <= i < |parts[k]| :: !IsLower(parts[k][i]) && !IsDigit(parts[k][i]) then Err
    else Ok(parts)
  }

  function Capitalized(parts: seq<string>): string
    requires forall i | 0 <= i < |parts| :: parts[i] != []
  {
    if parts == [] then []
    else Capitalized(parts[..|parts| - 1]) + [Upper(parts[|parts| - 1][0])] + parts[|parts| - 1][1..]
  }

  /** pascalCaseAuthored, as a function of the name. */
  function Pascal(name: string): Result<string> {
    match SplitAuthored(name)
    case Err => Err
    case Ok(parts) => Ok(Capitalized(parts))
  }

  method PascalCaseAuthored(name: string) returns (r: Result<string>)
    ensures r == Pascal(name)
  {
    var split := SplitAuthored(name);
    if split.Err? {
      return Err;
    }
    var parts, b := split.value, "";
    for i := 0 to |parts|
      invariant b == Capitalized(parts[..i])
    {
      b := b + [Upper(parts[i][0])] + parts[i][1..];
      assert parts[..i + 1][..i] == parts[..i];
    }
    assert parts[..|parts|] == parts;
    return Ok(b);
  }

  function LowerFirst(s: string): string {
    if s == [] then [] else [Lower(s[0])] + s[1..]
  }

  lemma {:induction false} CapitalizedStart(parts: seq<string>)
    requires parts != [] && WellFormed(parts)
    ensures Capitalized(parts) != [] && !IsLower(Capitalized(parts)[0])
  {
    if |parts| > 1 {
      CapitalizedStart(parts[..|parts| - 1]);
    }
  }

  /** Lower-casing the first letter loses nothing on identifiers pascalCaseAuthored
      produces, so distinct binding identifiers give distinct local variables. */
  lemma LocalsFollowIdentifiers(a: string, b: string)
    requires Pascal(a).Ok? && Pascal(b).Ok?
    ensures LowerFirst(Pascal(a).value) == LowerFirst(Pascal(b).value) ==> Pascal(a).value == Pascal(b).value
  {
    var p, q := Pascal(a).value, Pascal(b).value;
    CapitalizedStart(SplitAuthored(a).value);
    CapitalizedStart(SplitAuthored(b).value);
    if LowerFirst(p) == LowerFirst(q) {
      assert LowerFirst(p)[0] == Lower(p[0]) && LowerFirst(q)[0] == Lower(q[0]);
      assert LowerFirst(p)[1..] == p[1..] && LowerFirst(q)[1..] == q[1..];
      assert p == [p[0]] + p[1..] && q == [q[0]] + q[1..];
    }
  }

  // -------------------------------------------------- names of iterated resources

  function IndexOf(s: string, c: char): (k: nat)
    ensures k <= |s| && (k < |s| <==> c in s) && (k < |s| ==> s[k] == c)
  {
    if s == [] then 0 else if s[0] == c then 0 else 1 + IndexOf(s[1..], c)
  }

  /** Removes every {...} token; an opening brace that is never closed stays. */
  function StripPlaceholders(s: string): string {
    if s == [] then []
    else if s[0] == '{' && '}' in s then StripPlaceholders(s[IndexOf(s, '}') + 1..])
    else [s[0]] + StripPlaceholders(s[1..])
  }

  function SeparatorRun(s: string): (n: nat)
    ensures n <= |s|
  {
    if s == [] || !IsSeparator(s[0]) then 0 else 1 + SeparatorRun(s[1..])
  }

  /** Replaces every run of two or more separators by one hyphen. */
  function CollapseSeparators(s: string): string {
    if s == [] then []
    else if SeparatorRun(s) >= 2 then "-" + CollapseSeparators(s[SeparatorRun(s)..])
    else [s[0]] + CollapseSeparators(s[1..])
  }

  function TrimSeparators(s: string): string {
    if s == [] then []
    else if IsSeparator(s[0]) then TrimSeparators(s[1..])
    else if IsSeparator(s[|s| - 1]) then TrimSeparators(s[..|s| - 1])
    else s
  }

  /** forEachIdentifierBasis. */
  function ForEachBasis(name: string): Result<string> {
    var basis := TrimSeparators(CollapseSeparators(StripPlaceholders(name)));
    if basis == "" then Err else Ok(basis)
  }

  // ------------------------------------------------------------ identifier sources

  /** The name an identifier derives from before any qualification. */
  function Basis(dr: DecodedResource): Result<string> {
    if dr.ri.forEach != "" then ForEachBasis(dr.ri.name.chars) else Ok(dr.ri.name.chars)
  }

  function Derived(dr: DecodedResource): Result<string> {
    match Basis(dr) case Err => Err case Ok(b) => Pascal(b)
  }

  predicate AllDerive(rs: seq<DecodedResource>) {
    forall i | 0 <= i < |rs| :: Derived(rs[i]).Ok?
  }

  function DerivedIdents(rs: seq<DecodedResource>): (out: seq<string>)
    requires AllDerive(rs)
  {
    seq(|rs|, i requires 0 <= i < |rs| => Derived(rs[i]).value)
  }

  /** Some other position holds the same element. */
  predicate Repeats<A(==)>(s: seq<A>, i: nat)
    requires i < |s|
  {
    exists j | 0 <= j < |s| :: j != i && s[j] == s[i]
  }

  lemma CountDetectsRepeat<A>(s: seq<A>, i: nat)
    requires i < |s|
    ensures multiset(s)[s[i]] > 1 <==> Repeats(s, i)
  {
    var before, after := s[..i], s[i + 1..];
    assert s == before + [s[i]] + after;
    assert multiset(s)[s[i]] == multiset(before)[s[i]] + 1 + multiset(after)[s[i]];
    if Repeats(s, i) {
      var j :| 0 <= j < |s| && j != i && s[j] == s[i];
      if j < i {
        assert before[j] == s[i];
      } else {
        assert after[j - i - 1] == s[i];
      }
    } else {
      assert s[i] !in before;
      assert forall k | 0 <= k < |after| :: after[k] == s[i + 1 + k];
    }
  }

  /** identSources: the resource's own name, qualified by its type exactly when another
      resource derives the same identifier. */
  function Source(rs: seq<DecodedResource>, i: nat): string
    requires i < |rs| && AllDerive(rs)
  {
    var b := Basis(rs[i]).value;
    if Repeats(DerivedIdents(rs), i) then rs[i].ri.rtype + "_" + b else b
  }

  function CountOf(count: map<string, nat>, s: string): nat {
    if s in count then count[s] else 0
  }

  ghost predicate DerivedTo(rs: seq<DecodedResource>, derived: seq<string>) {
    |derived| <= |rs| && forall k | 0 <= k < |derived| :: Derived(rs[k]) == Ok(derived[k])
  }

  ghost predicate CountsOf(count: map<string, nat>, derived: seq<string>) {
    forall s :: CountOf(count, s) == multiset(derived)[s]
  }

  lemma CountMore(count: map<string, nat>, derived: seq<string>, ident: string)
    requires CountsOf(count, derived)
    ensures CountsOf(count[ident := CountOf(count, ident) + 1], derived + [ident])
  {
    assert multiset(derived + [ident]) == multiset(derived) + multiset{ident};
  }

  /** The first loop of identSources: derive an identifier for every resource and count
      how often each occurs. */
  method CountDerived(rs: seq<DecodedResource>) returns (r: Result<seq<string>>, count: map<string, nat>)
    ensures r.Ok? <==> AllDerive(rs)
    ensures r.Ok? ==> r.value == DerivedIdents(rs) && CountsOf(count, r.value)
  {
    count := map[];
    var derived: seq<string> := [];
    for i := 0 to |rs|
      invariant |derived| == i && DerivedTo(rs, derived)
      invariant CountsOf(count, derived)
    {
      var b := Basis(rs[i]);
      if b.Err? {
        return Err, count;
      }
      var ident := PascalCaseAuthored(b.value);
      if ident.Err? {
        return Err, count;
      }
      CountMore(count, derived, ident.value);
      derived := derived + [ident.value];
      count := count[ident.value := CountOf(count, ident.value) + 1];
    }
    return Ok(derived), count;
  }

  lemma SourceOf(rs: seq<DecodedResource>, i: nat)
    requires AllDerive(rs) && i < |rs|
    ensures Basis(rs[i]).Ok?
    ensures Source(rs, i) == if multiset(DerivedIdents(rs))[DerivedIdents(rs)[i]] > 1
                             then rs[i].ri.rtype + "_" + Basis(rs[i]).value
                             else Basis(rs[i]).value
  {
    CountDetectsRepeat(DerivedIdents(rs), i);
    assert Derived(rs[i]).Ok?;
  }

  /** identSources. */
  method IdentSources(rs: seq<DecodedResource>) returns (r: Result<seq<string>>)
    ensures r.Ok? <==> AllDerive(rs)
    ensures r.Ok? ==> |r.value| == |rs| && forall i | 0 <= i < |rs| :: r.value[i] == Source(rs, i)
  {
    var derived, count := CountDerived(rs);
    if derived.Err? {
      return Err;
    }
    var out: seq<string> := [];
    for i := 0 to |rs|
      invariant |out| == i && SourcesTo(rs, out)
    {
      SourceOf(rs, i);
      var b := Basis(rs[i]).value;
      var source := if CountOf(count, derived.value[i]) > 1 then rs[i].ri.rtype + "_" + b else b;
      SourcesMore(rs, out, source);
      out := out + [source];
    }
    return Ok(out);
  }

  ghost predicate SourcesTo(rs: seq<DecodedResource>, out: seq<string>)
    requires AllDerive(rs)
  {
    |out| <= |rs| && forall k | 0 <= k < |out| :: out[k] == Source(rs, k)
  }

  lemma SourcesMore(rs: seq<DecodedResource>, out: seq<string>, x: string)
    requires AllDerive(rs) && SourcesTo(rs, out) && |out| < |rs| && x == Source(rs, |out|)
    ensures SourcesTo(rs, out + [x])
  {
  }

  predicate AllSourcesConvert(rs: seq<DecodedResource>) {
    AllDerive(rs) && forall i | 0 <= i < |rs| :: Pascal(Source(rs, i)).Ok?
  }

  /** The binding identifier of every resource. */
  function Idents(rs: seq<DecodedResource>): (out: seq<string>)
    requires AllSourcesConvert(rs)
  {
    seq(|rs|, i requires 0 <= i < |rs| => Pascal(Source(rs, i)).value)
  }

  /** The collision loop of wrap. */
  method ClaimIdents(sources: seq<string>) returns (r: Result<seq<string>>)
    ensures r.Ok? ==> |r.value| == |sources| && forall i | 0 <= i < |sources| :: Pascal(sources[i]) == Ok(r.value[i])
    ensures r.Ok? ==> NoDuplicates(r.value)
    ensures r.Err? ==> (exists i :: 0 <= i < |sources| && Pascal(sources[i]).Err?)
                       || (exists i, j :: 0 <= i < j < |sources| && Pascal(sources[i]) == Pascal(sources[j]))
  {
    var seen: set<string> := {};
    var idents: seq<string> := [];
    for i := 0 to |sources|
      invariant |idents| == i && forall k | 0 <= k < i :: Pascal(sources[k]) == Ok(idents[k])
      invariant seen == Elements(idents)
      invariant NoDuplicates(idents)
    {
      var ident := PascalCaseAuthored(sources[i]);
      if ident.Err? {
        return Err;
      }
      if ident.value in seen {
        var k :| 0 <= k < i && idents[k] == ident.value;
        return Err;
      }
      ElementsAppend(idents, ident.value);
      seen := seen + {ident.value};
      idents := idents + [ident.value];
    }
    return Ok(idents);
  }

  /** wrap: one identifier per resource, refused exactly when a name does not convert or
      two resources claim the same identifier. */
  method Wrap(rs: seq<DecodedResource>) returns (r: Result<seq<string>>)
    ensures r.Ok? <==> AllSourcesConvert(rs) && NoDuplicates(Idents(rs))
    ensures r.Ok? ==> r.value == Idents(rs)
  {
    var sources := IdentSources(rs);
    if sources.Err? {
      return Err;
    }
    r := ClaimIdents(sources.value);
    if r.Err? && AllSourcesConvert(rs) {
      ghost var i, j :| 0 <= i < j < |rs| && Pascal(sources.value[i]) == Pascal(sources.value[j]);
      assert Idents(rs)[i] == Idents(rs)[j];
    }
  }

  /** What wrap's check buys: no two resources share a local variable. */
  lemma WrappedLocalsDistinct(rs: seq<DecodedResource>, i: nat, j: nat)
    requires AllSourcesConvert(rs) && NoDuplicates(Idents(rs)) && i < j < |rs|
    ensures LowerFirst(Idents(rs)[i]) != LowerFirst(Idents(rs)[j])
  {
    LocalsFollowIdentifiers(Source(rs, i), Source(rs, j));
  }

  lemma WrappedLocalsDiffer(rs: seq<DecodedResource>, i: nat, j: nat)
    requires AllSourcesConvert(rs) && NoDuplicates(Idents(rs)) && i < |rs| && j < |rs| && i != j
    ensures LowerFirst(Idents(rs)[i]) != LowerFirst(Idents(rs)[j])
  {
    if i < j {
      WrappedLocalsDistinct(rs, i, j);
    } else {
      WrappedLocalsDistinct(rs, j, i);
    }
  }
}
