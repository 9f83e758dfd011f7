/** Comparing the blueprints a head used with those a stack declares now. */
module Reconcile {
  import opened Common

  // ------------------------------------------------------- the identity of a source

  function StripSlashes(s: string): string {
    if s != [] && s[|s| - 1] == '/' then StripSlashes(s[..|s| - 1]) else s
  }

  function LastSegment(s: string): string {
    if s == [] || s[|s| - 1] == '/' then [] else LastSegment(s[..|s| - 1]) + [s[|s| - 1]]
  }

  /** filepath.Base. */
  function Base(s: string): string {
    if s == [] then "."
    else if StripSlashes(s) == [] then "/"
    else LastSegment(StripSlashes(s))
  }

  function TrimSuffix(s: string, suffix: string): string {
    if |suffix| <= |s| && s[|s| - |suffix|..] == suffix then s[..|s| - |suffix|] else s
  }

  /** What stands before the first c, or everything. */
  function Before(s: string, c: char): string {
    if s == [] || s[0] == c then [] else [s[0]] + Before(s[1..], c)
  }

  /** NameFromSource: the version-independent identity of a source. */
  function NameFromSource(source: string, path: string): string {
    if path != "" && path != "." then Base(path)
    else
      var base := Base(TrimSuffix(TrimSuffix(source, "/"), ".git"));
      if "oci://" <= source then Before(Before(base, '@'), ':') else base
  }

  lemma {:induction false} LastSegmentOf(head: string, seg: string)
    requires '/' !in seg
    ensures LastSegment(head + "/" + seg) == seg
  {
    var s := head + "/" + seg;
    if seg == [] {
      assert s[|s| - 1] == '/';
    } else {
      assert s[..|s| - 1] == head + "/" + seg[..|seg| - 1] && s[|s| - 1] == seg[|seg| - 1];
      assert seg[|seg| - 1] in seg;
      LastSegmentOf(head, seg[..|seg| - 1]);
    }
  }

  lemma {:induction false} BeforeStops(s: string, c: char, rest: string)
    requires c !in s && (rest == [] || rest[0] == c)
    ensures Before(s + rest, c) == s
  {
    if s == [] {
      assert s + rest == rest;
    } else {
      assert s[0] in s;
      BeforeStops(s[1..], c, rest);
      assert (s + rest)[1..] == s[1..] + rest;
    }
  }

  predicate TrimmedTo(head: string, name: string, sep: char, tag: string, t: string) {
    TrimSuffix(TrimSuffix(head + "/" + (name + [sep] + tag), "/"), ".git") == head + "/" + (name + [sep] + t)
  }

  /** A ".git" ending stands after any other separator. */
  lemma EndsAfter(s: string, k: nat)
    requires k < |s| && s[k] !in {'.', 'g', 'i', 't'} && 4 <= |s| && s[|s| - 4..] == ".git"
    ensures k < |s| - 4
  {
    var n := |s| - 4;
    forall i | n <= i < |s| ensures s[i] in ".git" {
      assert s[i] == s[n..][i - n];
    }
  }

  lemma EndOfTag(before: string, sep: char, tag: string)
    requires '/' !in tag && sep != '/'
    ensures TrimSuffix(before + [sep] + tag, "/") == before + [sep] + tag
  {
    var s := before + [sep] + tag;
    if tag != [] {
      assert s[|s| - 1] == tag[|tag| - 1] && tag[|tag| - 1] in tag;
    }
    assert s[|s| - 1..][0] == s[|s| - 1];
  }

  /** A segment that starts with a name and a separator keeps the name when a ".git"
      ending is taken off. */
  lemma TrimKeepsName(head: string, name: string, sep: char, tag: string)
    requires '/' !in tag && sep !in {'/', '.', 'g', 'i', 't'}
    ensures exists t :: '/' !in t && TrimmedTo(head, name, sep, tag, t)
  {
    var before := head + "/" + name;
    var s := before + [sep] + tag;
    assert s == head + "/" + (name + [sep] + tag);
    EndOfTag(before, sep, tag);
    if TrimSuffix(s, ".git") == s {
      assert TrimmedTo(head, name, sep, tag, tag);
    } else {
      EndsAfter(s, |before|);
      var t := tag[..|tag| - 4];
      assert s[..|s| - 4] == before + [sep] + t == head + "/" + (name + [sep] + t);
      assert TrimmedTo(head, name, sep, tag, t);
    }
  }

  lemma BaseOfSegment(head: string, seg: string)
    requires '/' !in seg && seg != []
    ensures Base(head + "/" + seg) == seg
  {
    var s := head + "/" + seg;
    assert s[|s| - 1] == seg[|seg| - 1] && seg[|seg| - 1] in seg;
    LastSegmentOf(head, seg);
  }

  // ------------------------------------------------ what a path or a source is called

  predicate AllSlashes(s: string) { forall i | 0 <= i < |s| :: s[i] == '/' }

  /** Nothing, or what ends in a slash. */
  predicate Above(pre: string) { pre == [] || pre[|pre| - 1] == '/' }

  lemma {:induction false} StripsSlashes(s: string, slashes: string)
    requires s != [] && s[|s| - 1] != '/' && AllSlashes(slashes)
    ensures StripSlashes(s + slashes) == s
    decreases |slashes|
  {
    if slashes == [] {
      assert s + slashes == s;
    } else {
      var front := slashes[..|slashes| - 1];
      assert (s + slashes)[|s + slashes| - 1] == slashes[|slashes| - 1];
      assert (s + slashes)[..|s + slashes| - 1] == s + front;
      StripsSlashes(s, front);
    }
  }

  lemma {:induction false} LastSegmentIs(pre: string, seg: string)
    requires Above(pre) && '/' !in seg
    ensures LastSegment(pre + seg) == seg
    decreases |seg|
  {
    if seg == [] {
      assert pre + seg == pre;
    } else {
      var front, last := seg[..|seg| - 1], seg[|seg| - 1];
      assert last in seg;
      assert (pre + seg)[|pre + seg| - 1] == last && (pre + seg)[..|pre + seg| - 1] == pre + front;
      LastSegmentIs(pre, front);
    }
  }

  /** The last segment of a path, whatever slashes follow it. */
  lemma BaseIs(pre: string, seg: string, slashes: string)
    requires Above(pre) && seg != [] && '/' !in seg && AllSlashes(slashes)
    ensures Base(pre + seg + slashes) == seg
  {
    var s := pre + seg;
    assert s[|s| - 1] == seg[|seg| - 1] && seg[|seg| - 1] in seg;
    StripsSlashes(s, slashes);
    LastSegmentIs(pre, seg);
  }

  predicate EndsInGit(s: string) { |s| >= 4 && s[|s| - 4..] == ".git" }

  lemma TrimGit(s: string)
    ensures TrimSuffix(s + ".git", ".git") == s
    ensures !EndsInGit(s) ==> TrimSuffix(s, ".git") == s
  {
    var t := s + ".git";
    assert t[|t| - 4..] == ".git" && t[..|t| - 4] == s;
  }

  lemma TrimSlash(s: string, slashes: string) returns (fewer: string)
    requires s != [] && s[|s| - 1] != '/' && AllSlashes(slashes)
    ensures TrimSuffix(s + slashes, "/") == s + fewer && AllSlashes(fewer)
    ensures |slashes| <= 1 ==> fewer == []
  {
    var t := s + slashes;
    if slashes == [] {
      fewer := [];
      assert t == s && s + [] == s && s[|s| - 1..] == [s[|s| - 1]];
    } else {
      fewer := slashes[..|slashes| - 1];
      assert t[|t| - 1..] == "/" && t[..|t| - 1] == s + fewer;
    }
  }

  lemma SlashIsNotGit(s: string, slashes: string)
    requires AllSlashes(slashes) && (slashes == [] ==> !EndsInGit(s))
    ensures !EndsInGit(s + slashes)
  {
    var t := s + slashes;
    if slashes != [] && |t| >= 4 {
      assert t[|t| - 4..][3] == slashes[|slashes| - 1];
    } else if slashes == [] {
      assert t == s;
    }
  }

  /** A blueprint inside a repository is called by the last segment of its path. */
  lemma PathNames(source: string, pre: string, seg: string, slashes: string)
    requires Above(pre) && seg != [] && '/' !in seg && AllSlashes(slashes) && pre + seg + slashes != "."
    ensures NameFromSource(source, pre + seg + slashes) == seg
  {
    BaseIs(pre, seg, slashes);
  }

  /** A directory is called by its last segment, whatever slashes follow. */
  lemma DirectoryNames(pre: string, seg: string, slashes: string, path: string)
    requires Above(pre) && seg != [] && '/' !in seg && !EndsInGit(pre + seg) && AllSlashes(slashes)
    requires path in {"", "."} && !("oci://" <= pre + seg + slashes)
    ensures NameFromSource(pre + seg + slashes, path) == seg
  {
    var s := pre + seg;
    assert s[|s| - 1] == seg[|seg| - 1] && seg[|seg| - 1] in seg;
    var fewer := TrimSlash(s, slashes);
    SlashIsNotGit(s, fewer);
    TrimGit(s + fewer);
    BaseIs(pre, seg, fewer);
  }

  /** A repository is called by its last segment without ".git". */
  lemma RepositoryNames(pre: string, seg: string, slash: string, path: string)
    requires Above(pre) && seg != [] && '/' !in seg && slash in {"", "/"}
    requires path in {"", "."} && !("oci://" <= pre + seg + ".git" + slash)
    ensures NameFromSource(pre + seg + ".git" + slash, path) == seg
  {
    var s := pre + seg + ".git";
    assert s[|s| - 1] == 't';
    var fewer := TrimSlash(s, slash);
    assert s + [] == s;
    TrimGit(pre + seg);
    BaseIs(pre, seg, []);
    assert pre + seg + [] == pre + seg;
  }

  /** A registry reference's identity is its repository's name, whatever its digest, with a
      tag before it or without. */
  lemma DigestDoesNotMatter(head: string, repo: string, tagged: string, digest: string)
    requires "oci://" <= head + "/" && '/' !in repo && ':' !in repo && '@' !in repo && repo != []
    requires (tagged == [] || tagged[0] == ':') && '/' !in tagged && '@' !in tagged && '/' !in digest
    ensures NameFromSource(head + "/" + ((repo + tagged) + "@" + digest), "") == repo
  {
    var source := head + "/" + ((repo + tagged) + "@" + digest);
    assert "oci://" <= source by {
      assert (head + "/")[..6] == source[..6];
    }
    TrimKeepsName(head, repo + tagged, '@', digest);
    var t :| '/' !in t && TrimmedTo(head, repo + tagged, '@', digest, t);
    BaseOfSegment(head, (repo + tagged) + "@" + t);
    DigestCut(repo, tagged, t);
  }

  lemma DigestCut(repo: string, tagged: string, t: string)
    requires ':' !in repo && '@' !in repo && (tagged == [] || tagged[0] == ':') && '@' !in tagged
    ensures Before(Before((repo + tagged) + "@" + t, '@'), ':') == repo
  {
    BeforeStops(repo + tagged, '@', "@" + t);
    Regroup(repo + tagged, "@", t);
    BeforeStops(repo, ':', tagged);
  }

  /** A registry reference's identity is its repository's name, whatever its tag. */
  lemma TagDoesNotMatter(head: string, repo: string, tag: string)
    requires "oci://" <= head + "/" && '/' !in repo && ':' !in repo && '@' !in repo
    requires '/' !in tag && '@' !in tag
    ensures NameFromSource(head + "/" + (repo + ":" + tag), "") == repo
  {
    var source := head + "/" + (repo + ":" + tag);
    assert "oci://" <= source by {
      assert (head + "/")[..6] == source[..6];
    }
    TrimKeepsName(head, repo, ':', tag);
    var t :| '/' !in t && TrimmedTo(head, repo, ':', tag, t);
    BaseOfSegment(head, repo + ":" + t);
    TrimmedHasNoAt(source, head, repo, tag, t);
    BeforeStops(repo + ":" + t, '@', []);
    assert repo + ":" + t + [] == repo + ":" + t;
    BeforeStops(repo, ':', ":" + t);
    assert repo + (":" + t) == repo + ":" + t;
  }

  lemma TrimmedHasNoAt(source: string, head: string, repo: string, tag: string, t: string)
    requires source == head + "/" + (repo + ":" + tag) && '@' !in repo && '@' !in tag
    requires TrimSuffix(TrimSuffix(source, "/"), ".git") == head + "/" + (repo + ":" + t)
    ensures '@' !in repo + ":" + t
  {
    var short := head + "/" + (repo + ":" + t);
    assert short <= source;
    forall i | 0 <= i < |t| ensures t[i] in tag {
      assert t[i] == short[|head| + 1 + |repo| + 1 + i] == source[|head| + 1 + |repo| + 1 + i] == tag[i];
    }
  }

  // --------------------------------------------------------------- the two sides

  /** One blueprint a stack declares. */
  datatype Decl = Decl(source: string, hash: string, fromLock: bool)

  /** What a head records of one blueprint it used. */
  datatype Use = Use(hashes: set<string>, calledNames: set<string>, declarations: seq<string>, undeclared: nat)

  /** One provenance record: the packaged name and hash of the blueprint, and what was
      recorded of the declaration it came from. */
  datatype Record = Record(name: string, hash: string, declaration: string, path: string, inlineSource: string)

  function Noted(u: Use, r: Record): Use {
    NotedAs(u, r, NameFromSource(r.declaration, r.path))
  }

  function NotedAs(u: Use, r: Record, called: string): Use {
    Use(
      if r.hash != "" then u.hashes + {r.hash} else u.hashes,
      if r.declaration != "" && called != "" then u.calledNames + {called} else u.calledNames,
      if r.declaration == "" || r.declaration in u.declarations then u.declarations
      else u.declarations + [r.declaration],
      if r.declaration == "" && r.inlineSource == "" then u.undeclared + 1 else u.undeclared)
  }

  const UNUSED := Use({}, {}, [], 0)

  /** Everything the records say of one name. */
  function UseOf(records: seq<Record>, name: string): Use {
    if records == [] then UNUSED
    else
      var u, r := UseOf(records[..|records| - 1], name), records[|records| - 1];
      if r.name == name then Noted(u, r) else u
  }

  /** One record noted, with the set of sources already seen beside it. */
  method Note(u: Use, was: set<string>, s: Record) returns (v: Use, now: set<string>)
    requires was == Elements(u.declarations)
    ensures v == Noted(u, s) && now == Elements(v.declarations)
  {
    v, now := u, was;
    if s.hash != "" {
      v := v.(hashes := v.hashes + {s.hash});
    }
    if s.declaration != "" {
      var called := NameFromSource(s.declaration, s.path);
      if called != "" {
        v := v.(calledNames := v.calledNames + {called});
      }
    }
    if s.declaration == "" {
      if s.inlineSource == "" {
        v := v.(undeclared := v.undeclared + 1);
      }
    } else if s.declaration !in now {
      ElementsAppend(u.declarations, s.declaration);
      now := now + {s.declaration};
      v := v.(declarations := v.declarations + [s.declaration]);
    }
  }

  // ------------------------------------------------- what a use gathers, record by record

  /** The i-th record is of this blueprint and declares it so. */
  ghost predicate DeclaredAt(records: seq<Record>, name: string, i: int, d: string) {
    0 <= i < |records| && records[i].name == name && records[i].declaration == d
  }

  ghost predicate HashedBy(records: seq<Record>, name: string, h: string) {
    h != "" && exists i :: 0 <= i < |records| && records[i].name == name && records[i].hash == h
  }

  ghost predicate CalledBy(records: seq<Record>, name: string, c: string) {
    c != "" && exists i :: 0 <= i < |records| && records[i].name == name && records[i].declaration != ""
                        && NameFromSource(records[i].declaration, records[i].path) == c
  }

  ghost predicate DeclaredBy(records: seq<Record>, name: string, d: string) {
    d != "" && exists i :: DeclaredAt(records, name, i, d)
  }

  /** Some record declares d, and none up to it declares e. */
  ghost predicate DeclaredSooner(records: seq<Record>, name: string, d: string, e: string) {
    exists i :: DeclaredAt(records, name, i, d) && forall j :: j <= i ==> !DeclaredAt(records, name, j, e)
  }

  /** Records that say nothing of where the blueprint came from. */
  function Undeclared(records: seq<Record>, name: string): set<nat> {
    set i: nat | i < |records| && records[i].name == name && records[i].declaration == ""
                 && records[i].inlineSource == ""
  }

  /** The hashes and names a blueprint was used by, its declarations in the order they
      first appear, and how often none was recorded. */
  ghost predicate Gathers(records: seq<Record>, name: string, u: Use) {
    && (forall h :: h in u.hashes <==> HashedBy(records, name, h))
    && (forall c :: c in u.calledNames <==> CalledBy(records, name, c))
    && DeclaresInTurn(records, name, u.declarations)
    && u.undeclared == |Undeclared(records, name)|
  }

  ghost predicate DeclaresInTurn(records: seq<Record>, name: string, ds: seq<string>) {
    && NoDuplicates(ds) && (forall d :: d in ds <==> DeclaredBy(records, name, d))
    && (forall j, k | 0 <= j < k < |ds| :: DeclaredSooner(records, name, ds[j], ds[k]))
  }

  lemma DeclaredAtMore(rs: seq<Record>, r: Record, name: string, d: string)
    ensures forall i :: DeclaredAt(rs + [r], name, i, d)
                        <==> DeclaredAt(rs, name, i, d) || (i == |rs| && r.name == name && r.declaration == d)
  {
  }

  lemma HashedMore(rs: seq<Record>, r: Record, name: string, h: string)
    ensures HashedBy(rs + [r], name, h) <==> HashedBy(rs, name, h) || (h != "" && r.name == name && r.hash == h)
  {
    if HashedBy(rs, name, h) {
      var i :| 0 <= i < |rs| && rs[i].name == name && rs[i].hash == h;
      assert (rs + [r])[i] == rs[i];
    }
    assert (rs + [r])[|rs|] == r;
  }

  lemma CalledMore(rs: seq<Record>, r: Record, name: string, c: string)
    ensures CalledBy(rs + [r], name, c) <==>
      CalledBy(rs, name, c)
      || (c != "" && r.name == name && r.declaration != "" && NameFromSource(r.declaration, r.path) == c)
  {
    if CalledBy(rs, name, c) {
      var i :| 0 <= i < |rs| && rs[i].name == name && rs[i].declaration != ""
               && NameFromSource(rs[i].declaration, rs[i].path) == c;
      assert (rs + [r])[i] == rs[i];
    }
    assert (rs + [r])[|rs|] == r;
  }

  lemma UndeclaredMore(rs: seq<Record>, r: Record, name: string)
    ensures |Undeclared(rs + [r], name)|
         == |Undeclared(rs, name)| + if r.name == name && r.declaration == "" && r.inlineSource == "" then 1 else 0
  {
    var more: set<nat> := if r.name == name && r.declaration == "" && r.inlineSource == "" then {|rs|} else {};
    assert Undeclared(rs + [r], name) == Undeclared(rs, name) + more;
  }

  lemma SoonerStays(rs: seq<Record>, r: Record, name: string, d: string, e: string)
    requires DeclaredSooner(rs, name, d, e)
    ensures DeclaredSooner(rs + [r], name, d, e)
  {
    var i :| DeclaredAt(rs, name, i, d) && forall j :: j <= i ==> !DeclaredAt(rs, name, j, e);
    DeclaredAtMore(rs, r, name, d);
    DeclaredAtMore(rs, r, name, e);
    assert DeclaredAt(rs + [r], name, i, d);
  }

  lemma SoonerThanNew(rs: seq<Record>, r: Record, name: string, d: string)
    requires DeclaredBy(rs, name, d) && r.declaration != "" && !DeclaredBy(rs, name, r.declaration)
    ensures DeclaredSooner(rs + [r], name, d, r.declaration)
  {
    var i :| DeclaredAt(rs, name, i, d);
    DeclaredAtMore(rs, r, name, d);
    DeclaredAtMore(rs, r, name, r.declaration);
    assert DeclaredAt(rs + [r], name, i, d);
  }

  lemma TurnsMore(rs: seq<Record>, r: Record, name: string, ds: seq<string>)
    requires DeclaresInTurn(rs, name, ds)
    ensures DeclaresInTurn(rs + [r], name,
                           if r.name != name || r.declaration == "" || r.declaration in ds then ds
                           else ds + [r.declaration])
  {
    var more := if r.name != name || r.declaration == "" || r.declaration in ds then ds else ds + [r.declaration];
    forall d ensures d in more <==> DeclaredBy(rs + [r], name, d) {
      DeclaredAtMore(rs, r, name, d);
      assert d in ds <==> DeclaredBy(rs, name, d);
      if i :| DeclaredAt(rs, name, i, d) {
        assert DeclaredAt(rs + [r], name, i, d);
      }
      if r.name == name && r.declaration == d {
        assert DeclaredAt(rs + [r], name, |rs|, d);
      }
    }
    forall j, k | 0 <= j < k < |more| ensures DeclaredSooner(rs + [r], name, more[j], more[k]) {
      if k < |ds| {
        SoonerStays(rs, r, name, ds[j], ds[k]);
      } else {
        assert ds[j] in ds;
        SoonerThanNew(rs, r, name, ds[j]);
      }
    }
  }

  /** What BlueprintsUsedAt reports of a blueprint, read off the records. */
  lemma {:induction false} UseMeans(records: seq<Record>, name: string)
    ensures Gathers(records, name, UseOf(records, name))
  {
    if records == [] {
      assert Undeclared([], name) == {};
    } else {
      var front, r := records[..|records| - 1], records[|records| - 1];
      LastSplits(records);
      UseMeans(front, name);
      UseMeansStep(front, r, name, UseOf(front, name));
    }
  }

  lemma UseMeansStep(rs: seq<Record>, r: Record, name: string, u: Use)
    requires Gathers(rs, name, u)
    ensures Gathers(rs + [r], name, if r.name == name then Noted(u, r) else u)
  {
    var v := if r.name == name then Noted(u, r) else u;
    forall h ensures h in v.hashes <==> HashedBy(rs + [r], name, h) { HashedMore(rs, r, name, h); }
    forall c ensures c in v.calledNames <==> CalledBy(rs + [r], name, c) { CalledMore(rs, r, name, c); }
    UndeclaredMore(rs, r, name);
    TurnsMore(rs, r, name, u.declarations);
  }

  ghost predicate Named(records: seq<Record>, name: string) {
    exists i :: 0 <= i < |records| && records[i].name == name
  }

  lemma UseOfStep(done: seq<Record>, s: Record)
    ensures forall n :: UseOf(done + [s], n) == if s.name == n then Noted(UseOf(done, n), s) else UseOf(done, n)
    ensures forall n :: Named(done + [s], n) <==> n == s.name || Named(done, n)
  {
    var all := done + [s];
    assert all[..|all| - 1] == done;
    forall n ensures Named(all, n) <==> n == s.name || Named(done, n) {
      NamedSnoc(done, s, n);
    }
  }

  lemma NamedSnoc(done: seq<Record>, s: Record, n: string)
    ensures Named(done + [s], n) <==> n == s.name || Named(done, n)
  {
    var all := done + [s];
    assert all[|done|] == s && forall i | 0 <= i < |done| :: all[i] == done[i];
  }

  /** The record loop of blueprintsUsedAt, before the sources are sorted. */
  method BlueprintsUsedAt(records: seq<Record>) returns (used: map<string, Use>)
    ensures forall n :: n in used <==> Named(records, n)
    ensures forall n | n in used :: used[n] == UseOf(records, n)
  {
    used := map[];
    var seen: map<string, set<string>> := map[];
    for i := 0 to |records|
      invariant forall n :: n in used <==> Named(records[..i], n)
      invariant forall n :: UseOf(records[..i], n) == if n in used then used[n] else UNUSED
      invariant seen.Keys == used.Keys && forall n | n in used :: seen[n] == Elements(used[n].declarations)
    {
      var s := records[i];
      UseOfStep(records[..i], s);
      assert records[..i + 1] == records[..i] + [s];
      var u := if s.name in used then used[s.name] else UNUSED;
      var was := if s.name in used then seen[s.name] else {};
      var v, now := Note(u, was, s);
      used := used[s.name := v];
      seen := seen[s.name := now];
    }
    assert records[..|records|] == records;
  }

  ghost predicate FromSource(r: Record, source: string) {
    r.declaration == "" || (r.declaration == source && r.path in {"", "."})
  }

  /** Every record of a name either has no declaration or has this one, without a path. */
  ghost predicate OneSource(records: seq<Record>, name: string, source: string) {
    forall i | 0 <= i < |records| && records[i].name == name :: FromSource(records[i], source)
  }

  ghost predicate Recorded(records: seq<Record>, name: string, source: string) {
    exists i :: 0 <= i < |records| && records[i].name == name && records[i].declaration == source
  }

  function SourceName(source: string): string { NameFromSource(source, "") }

  /** One source, of this identity, or none. */
  predicate UsesOnly(u: Use, source: string, id: string, any: bool) {
    u.declarations == (if any then [source] else []) && u.calledNames == (if any then {id} else {})
  }

  lemma RecordedSnoc(records: seq<Record>, r: Record, name: string, source: string)
    ensures Recorded(records + [r], name, source)
            <==> Recorded(records, name, source) || (r.name == name && r.declaration == source)
    ensures OneSource(records + [r], name, source) ==> OneSource(records, name, source)
  {
    var all := records + [r];
    assert all[|records|] == r && forall i | 0 <= i < |records| :: all[i] == records[i];
  }

  lemma NotedSource(u: Use, r: Record, called: string, source: string, id: string, any: bool)
    requires UsesOnly(u, source, id, any) && source != "" && id != ""
    requires r.declaration == "" || (r.declaration == source && called == id)
    ensures UsesOnly(NotedAs(u, r, called), source, id, any || r.declaration == source)
  {
  }

  /** A use whose records with a declaration all name one source, called by its own name:
      what the report then compares. */
  lemma {:induction false} OneRecordedSource(records: seq<Record>, name: string, source: string)
    requires OneSource(records, name, source) && source != "" && SourceName(source) != ""
    ensures UsesOnly(UseOf(records, name), source, SourceName(source), Recorded(records, name, source))
  {
    if records != [] {
      var init, last := records[..|records| - 1], records[|records| - 1];
      assert records == init + [last];
      RecordedSnoc(init, last, name, source);
      OneRecordedSource(init, name, source);
      if last.name == name {
        assert FromSource(records[|records| - 1], source);
        NotedSource(UseOf(init, name), last, NameFromSource(last.declaration, last.path), source, SourceName(source),
                    Recorded(init, name, source));
      }
    }
  }

  lemma PrefixStep<T>(s: seq<T>, i: nat)
    requires i < |s| && NoDuplicates(s)
    ensures s[i] !in s[..i] && s[..i + 1] == s[..i] + [s[i]]
    ensures Elements(s[..i + 1]) == Elements(s[..i]) + {s[i]}
  {
    assert s[..i + 1] == s[..i] + [s[i]];
    ElementsAppend(s[..i], s[i]);
  }

  function TableDecl(source: string): Decl { Decl(source, "", false) }

  function LockDecl(entry: (string, string)): Decl { Decl(entry.0, entry.1, true) }

  /** stackDeclarations: the table's own entries, and the lock's for the names the table
      does not mention. */
  method StackDeclarations(table: map<string, string>, lock: map<string, (string, string)>)
      returns (out: map<string, Decl>)
    ensures out.Keys == table.Keys + lock.Keys
    ensures forall n | n in table :: out[n] == Decl(table[n], "", false)
    ensures forall n | n in lock && n !in table :: out[n] == Decl(lock[n].0, lock[n].1, true)
  {
    out := map[];
    var names := InSomeOrder(table.Keys);
    for i := 0 to |names|
      invariant out.Keys == Elements(names[..i])
      invariant forall n | n in out :: n in table && out[n] == TableDecl(table[n])
    {
      assert names[i] in Elements(names);
      assert names[..i + 1] == names[..i] + [names[i]];
      ElementsAppend(names[..i], names[i]);
      out := out[names[i] := TableDecl(table[names[i]])];
    }
    assert names[..|names|] == names;
    out := AddLocked(out, lock);
  }

  method AddLocked(declared: map<string, Decl>, lock: map<string, (string, string)>) returns (out: map<string, Decl>)
    ensures out.Keys == declared.Keys + lock.Keys
    ensures forall n | n in declared :: out[n] == declared[n]
    ensures forall n | n in lock && n !in declared :: out[n] == LockDecl(lock[n])
  {
    out := declared;
    var locked := InSomeOrder(lock.Keys);
    for i := 0 to |locked|
      invariant out.Keys == declared.Keys + Elements(locked[..i])
      invariant forall n | n in declared :: out[n] == declared[n]
      invariant forall n | n in out && n !in declared :: n in lock && out[n] == LockDecl(lock[n])
    {
      assert locked[i] in Elements(locked);
      PrefixStep(locked, i);
      if locked[i] !in declared {
        out := out[locked[i] := LockDecl(lock[locked[i]])];
      }
    }
    assert locked[..|locked|] == locked;
  }

  // ------------------------------------------------------------------------ pairing

  function HashOf(d: Decl): string { d.hash }

  function SourceID(d: Decl): string { SourceName(d.source) }

  /** A walk over every declaration, in some order of the map. */
  ghost predicate Walks(order: seq<string>, declared: map<string, Decl>) {
    NoDuplicates(order) && Elements(order) == declared.Keys
  }

  ghost predicate Listed(order: seq<string>, declared: map<string, Decl>) {
    forall i | 0 <= i < |order| :: order[i] in declared
  }

  /** The index a walk leaves: of the declarations with one key, the last walked. */
  ghost function Indexed(order: seq<string>, declared: map<string, Decl>, key: Decl -> string): map<string, string>
    requires Listed(order, declared)
  {
    if order == [] then map[]
    else
      var n := order[|order| - 1];
      Noting(Indexed(order[..|order| - 1], declared, key), key(declared[n]), n)
  }

  lemma WalksLists(order: seq<string>, declared: map<string, Decl>)
    requires Walks(order, declared)
    ensures Listed(order, declared)
  {
    forall i | 0 <= i < |order| ensures order[i] in declared {
      assert order[i] in Elements(order);
    }
  }

  lemma {:induction false} IndexedAnswers(order: seq<string>, declared: map<string, Decl>, key: Decl -> string,
                                          k: string)
    requires Listed(order, declared) && k in Indexed(order, declared, key)
    ensures var n := Indexed(order, declared, key)[k]; k != "" && n in order && n in declared && key(declared[n]) == k
  {
    var init, n := order[..|order| - 1], order[|order| - 1];
    if k in Indexed(init, declared, key) {
      IndexedAnswers(init, declared, key, k);
    }
  }

  /** A declaration walked after all others of its key is the answer. */
  lemma {:induction false} LastAnswers(order: seq<string>, declared: map<string, Decl>, key: Decl -> string, i: nat)
    requires Listed(order, declared) && i < |order| && key(declared[order[i]]) != ""
    requires forall j | i < j < |order| :: key(declared[order[j]]) != key(declared[order[i]])
    ensures var k := key(declared[order[i]]);
      k in Indexed(order, declared, key) && Indexed(order, declared, key)[k] == order[i]
  {
    if i < |order| - 1 {
      LastAnswers(order[..|order| - 1], declared, key, i);
    }
  }

  lemma {:induction false} EveryKeyAnswers(order: seq<string>, declared: map<string, Decl>, key: Decl -> string,
                                           n: string)
    requires Listed(order, declared) && n in order && n in declared && key(declared[n]) != ""
    ensures key(declared[n]) in Indexed(order, declared, key)
  {
    if n != order[|order| - 1] {
      EveryKeyAnswers(order[..|order| - 1], declared, key, n);
    }
  }

  /** An index with one more declaration walked. */
  function Noting(index: map<string, string>, k: string, n: string): map<string, string> {
    if k == "" then index else index[k := n]
  }

  lemma IndexedStep(order: seq<string>, i: nat, declared: map<string, Decl>, key: Decl -> string)
    requires Listed(order, declared) && i < |order|
    ensures Listed(order[..i], declared) && Listed(order[..i + 1], declared)
    ensures Indexed(order[..i + 1], declared, key)
            == Noting(Indexed(order[..i], declared, key), key(declared[order[i]]), order[i])
  {
    assert order[..i + 1][..i] == order[..i];
  }

  /** The two indexes one walk leaves. */
  ghost predicate LeftBy(order: seq<string>, declared: map<string, Decl>, byID: map<string, string>,
                         byHash: map<string, string>) {
    && Walks(order, declared) && Listed(order, declared)
    && byID == Indexed(order, declared, SourceID) && byHash == Indexed(order, declared, HashOf)
  }

  /** The loop over the declarations. */
  method IndexDeclarations(declared: map<string, Decl>) returns (byHash: map<string, string>, byID: map<string, string>)
    ensures exists order :: LeftBy(order, declared, byID, byHash)
  {
    byHash, byID := map[], map[];
    var names := InSomeOrder(declared.Keys);
    WalksLists(names, declared);
    for i := 0 to |names|
      invariant Listed(names[..i], declared)
      invariant byHash == Indexed(names[..i], declared, HashOf)
      invariant byID == Indexed(names[..i], declared, SourceID)
    {
      IndexedStep(names, i, declared, HashOf);
      IndexedStep(names, i, declared, SourceID);
      var d := declared[names[i]];
      if d.hash != "" {
        byHash := byHash[d.hash := names[i]];
      }
      var id := SourceID(d);
      if id != "" {
        byID := byID[id := names[i]];
      }
    }
    assert names[..|names|] == names;
    assert LeftBy(names, declared, byID, byHash);
  }

  predicate Leads(declared: map<string, Decl>, byID: map<string, string>, c: string, name: string) {
    if c in byID then name == byID[c] else c in declared && name == c
  }

  ghost predicate BySource(u: Use, declared: map<string, Decl>, byID: map<string, string>, name: string) {
    exists c :: c in u.calledNames && Leads(declared, byID, c, name)
  }

  ghost predicate ByHash(u: Use, byHash: map<string, string>, name: string) {
    exists h :: h in u.hashes && h in byHash && name == byHash[h]
  }

  /** What pairDeclaration can return: the packaged name, else a declaration of the same
      source, else one of the same bytes, else the name itself.  Sets are walked in any
      order, so within one kind of match any may be taken. */
  ghost predicate MayPair(n: string, u: Use, declared: map<string, Decl>, byID: map<string, string>,
                          byHash: map<string, string>, name: string) {
    if n in declared then name == n
    else if exists other :: BySource(u, declared, byID, other) then BySource(u, declared, byID, name)
    else if exists other :: ByHash(u, byHash, other) then ByHash(u, byHash, name)
    else name == n
  }

  method PairDeclaration(n: string, u: Use, declared: map<string, Decl>, byID: map<string, string>,
                         byHash: map<string, string>) returns (name: string)
    ensures MayPair(n, u, declared, byID, byHash, name)
  {
    if n in declared {
      return n;
    }
    var called := InSomeOrder(u.calledNames);
    for i := 0 to |called|
      invariant forall j | 0 <= j < i :: called[j] !in byID && called[j] !in declared
    {
      assert called[i] in Elements(called);
      if called[i] in byID {
        assert Leads(declared, byID, called[i], byID[called[i]]);
        return byID[called[i]];
      }
      if called[i] in declared {
        assert Leads(declared, byID, called[i], called[i]);
        return called[i];
      }
    }
    forall other ensures !BySource(u, declared, byID, other) {
      assert forall c | c in u.calledNames :: c in Elements(called);
    }
    var hashes := InSomeOrder(u.hashes);
    for i := 0 to |hashes|
      invariant forall j | 0 <= j < i :: hashes[j] !in byHash
    {
      assert hashes[i] in Elements(hashes);
      if hashes[i] in byHash {
        assert ByHash(u, byHash, byHash[hashes[i]]);
        return byHash[hashes[i]];
      }
    }
    forall other ensures !ByHash(u, byHash, other) {
      assert forall h | h in u.hashes :: h in Elements(hashes);
    }
    return n;
  }

  /** What pairing can return when the declarations are walked in this order. */
  ghost predicate Pairs(n: string, u: Use, declared: map<string, Decl>, order: seq<string>, name: string) {
    && Walks(order, declared) && Listed(order, declared)
    && MayPair(n, u, declared, Indexed(order, declared, SourceID), Indexed(order, declared, HashOf), name)
  }

  /** The declarations of one key. */
  ghost predicate Of(declared: map<string, Decl>, key: Decl -> string, k: string, name: string) {
    k != "" && name in declared && key(declared[name]) == k
  }

  /** What one called name leads to: a declaration of that identity, else of that name. */
  ghost predicate CalledFor(declared: map<string, Decl>, c: string, name: string) {
    Of(declared, SourceID, c, name) || (c in declared && name == c && !exists e :: Of(declared, SourceID, c, e))
  }

  ghost predicate SourceCandidate(u: Use, declared: map<string, Decl>, name: string) {
    exists c :: c in u.calledNames && CalledFor(declared, c, name)
  }

  ghost predicate HashCandidate(u: Use, declared: map<string, Decl>, name: string) {
    exists h :: h in u.hashes && Of(declared, HashOf, h, name)
  }

  /** The declaration's source is called so. */
  ghost predicate IsCalled(declared: map<string, Decl>, c: string, name: string) {
    c != "" && name in declared && NameFromSource(declared[name].source, "") == c
  }

  /** The declaration is locked to this content hash. */
  ghost predicate IsHashed(declared: map<string, Decl>, h: string, name: string) {
    h != "" && name in declared && declared[name].hash == h
  }

  ghost predicate CallsFor(declared: map<string, Decl>, c: string, name: string) {
    IsCalled(declared, c, name) || (name == c && forall e :: !IsCalled(declared, c, e))
  }

  /** A candidate's source is called what the use was called, or it bears that name where
      no source is called so; failing that, it is locked to a hash the use had. */
  lemma CandidatesRead(u: Use, declared: map<string, Decl>, name: string)
    ensures SourceCandidate(u, declared, name)
            <==> name in declared && exists c :: c in u.calledNames && CallsFor(declared, c, name)
    ensures HashCandidate(u, declared, name) <==> exists h :: h in u.hashes && IsHashed(declared, h, name)
  {
    forall c, e ensures Of(declared, SourceID, c, e) <==> IsCalled(declared, c, e) {}
    forall h ensures Of(declared, HashOf, h, name) <==> IsHashed(declared, h, name) {}
    forall c ensures CalledFor(declared, c, name) <==> name in declared && CallsFor(declared, c, name) {
      assert (exists e :: Of(declared, SourceID, c, e)) <==> (exists e :: IsCalled(declared, c, e));
    }
  }

  /** The outcomes of pairing, with no word of indexes or orders. */
  ghost predicate Outcome(n: string, u: Use, declared: map<string, Decl>, name: string) {
    if n in declared then name == n
    else if exists e :: SourceCandidate(u, declared, e) then SourceCandidate(u, declared, name)
    else if exists e :: HashCandidate(u, declared, e) then HashCandidate(u, declared, name)
    else name == n
  }

  lemma IndexedIff(order: seq<string>, declared: map<string, Decl>, key: Decl -> string, k: string)
    requires Walks(order, declared) && Listed(order, declared)
    ensures k in Indexed(order, declared, key) <==> exists e :: Of(declared, key, k, e)
    ensures k in Indexed(order, declared, key) ==> Of(declared, key, k, Indexed(order, declared, key)[k])
  {
    if k in Indexed(order, declared, key) {
      IndexedAnswers(order, declared, key, k);
      assert Of(declared, key, k, Indexed(order, declared, key)[k]);
    }
    if e :| Of(declared, key, k, e) {
      assert e in Elements(order);
      EveryKeyAnswers(order, declared, key, e);
    }
  }

  lemma BySourceIsCandidate(u: Use, declared: map<string, Decl>, order: seq<string>, name: string)
    requires Walks(order, declared) && Listed(order, declared)
    requires BySource(u, declared, Indexed(order, declared, SourceID), name)
    ensures SourceCandidate(u, declared, name)
  {
    var byID := Indexed(order, declared, SourceID);
    var c :| c in u.calledNames && Leads(declared, byID, c, name);
    IndexedIff(order, declared, SourceID, c);
  }

  lemma ByHashIsCandidate(u: Use, declared: map<string, Decl>, order: seq<string>, name: string)
    requires Walks(order, declared) && Listed(order, declared)
    requires ByHash(u, Indexed(order, declared, HashOf), name)
    ensures HashCandidate(u, declared, name)
  {
    var h :| h in u.hashes && h in Indexed(order, declared, HashOf) && name == Indexed(order, declared, HashOf)[h];
    IndexedIff(order, declared, HashOf, h);
  }

  /** Where there is a candidate, every order offers one. */
  lemma SomeBySource(u: Use, declared: map<string, Decl>, order: seq<string>, name: string) returns (other: string)
    requires Walks(order, declared) && Listed(order, declared) && SourceCandidate(u, declared, name)
    ensures BySource(u, declared, Indexed(order, declared, SourceID), other)
  {
    var byID := Indexed(order, declared, SourceID);
    var c :| c in u.calledNames && CalledFor(declared, c, name);
    IndexedIff(order, declared, SourceID, c);
    other := if c in byID then byID[c] else c;
    assert Leads(declared, byID, c, other);
  }

  lemma SomeByHash(u: Use, declared: map<string, Decl>, order: seq<string>, name: string) returns (other: string)
    requires Walks(order, declared) && Listed(order, declared) && HashCandidate(u, declared, name)
    ensures ByHash(u, Indexed(order, declared, HashOf), other)
  {
    var h :| h in u.hashes && Of(declared, HashOf, h, name);
    IndexedIff(order, declared, HashOf, h);
    other := Indexed(order, declared, HashOf)[h];
  }

  lemma PairsOnlyOutcomes(n: string, u: Use, declared: map<string, Decl>, order: seq<string>, name: string)
    requires Pairs(n, u, declared, order, name)
    ensures Outcome(n, u, declared, name)
  {
    var byID, byHash := Indexed(order, declared, SourceID), Indexed(order, declared, HashOf);
    if n !in declared {
      if e :| SourceCandidate(u, declared, e) {
        var other := SomeBySource(u, declared, order, e);
        BySourceIsCandidate(u, declared, order, name);
      } else if e :| HashCandidate(u, declared, e) {
        NoneBySource(u, declared, order);
        var other := SomeByHash(u, declared, order, e);
        ByHashIsCandidate(u, declared, order, name);
      } else {
        NoneBySource(u, declared, order);
        NoneByHash(u, declared, order);
      }
    }
  }

  lemma NoneBySource(u: Use, declared: map<string, Decl>, order: seq<string>)
    requires Walks(order, declared) && Listed(order, declared) && !exists e :: SourceCandidate(u, declared, e)
    ensures !exists other :: BySource(u, declared, Indexed(order, declared, SourceID), other)
  {
    if other :| BySource(u, declared, Indexed(order, declared, SourceID), other) {
      BySourceIsCandidate(u, declared, order, other);
      assert false;
    }
  }

  lemma NoneByHash(u: Use, declared: map<string, Decl>, order: seq<string>)
    requires Walks(order, declared) && Listed(order, declared) && !exists e :: HashCandidate(u, declared, e)
    ensures !exists other :: ByHash(u, Indexed(order, declared, HashOf), other)
  {
    if other :| ByHash(u, Indexed(order, declared, HashOf), other) {
      ByHashIsCandidate(u, declared, order, other);
      assert false;
    }
  }

  lemma {:induction false} SomeSequence(s: set<string>) returns (q: seq<string>)
    ensures NoDuplicates(q) && Elements(q) == s
  {
    q := [];
    if x :| x in s {
      q := SomeSequence(s - {x});
      assert x !in Elements(q);
      ElementsAppend(q, x);
      q := q + [x];
    }
  }

  /** A walk that comes to this name last, if it is declared. */
  lemma WalkEndingIn(declared: map<string, Decl>, name: string) returns (order: seq<string>)
    ensures Walks(order, declared) && Listed(order, declared)
    ensures name in declared ==> order != [] && order[|order| - 1] == name
  {
    order := SomeSequence(declared.Keys - {name});
    if name in declared {
      assert name !in Elements(order);
      ElementsAppend(order, name);
      order := order + [name];
    }
    WalksLists(order, declared);
  }

  lemma CandidateIsBySource(u: Use, declared: map<string, Decl>, order: seq<string>, name: string)
    requires Walks(order, declared) && Listed(order, declared) && SourceCandidate(u, declared, name)
    requires name in declared ==> order != [] && order[|order| - 1] == name
    ensures BySource(u, declared, Indexed(order, declared, SourceID), name)
  {
    var c :| c in u.calledNames && CalledFor(declared, c, name);
    IndexedIff(order, declared, SourceID, c);
    if Of(declared, SourceID, c, name) {
      LastAnswers(order, declared, SourceID, |order| - 1);
    }
    assert Leads(declared, Indexed(order, declared, SourceID), c, name);
  }

  lemma CandidateIsByHash(u: Use, declared: map<string, Decl>, order: seq<string>, name: string)
    requires Walks(order, declared) && Listed(order, declared) && HashCandidate(u, declared, name)
    requires name in declared ==> order != [] && order[|order| - 1] == name
    ensures ByHash(u, Indexed(order, declared, HashOf), name)
  {
    var h :| h in u.hashes && Of(declared, HashOf, h, name);
    LastAnswers(order, declared, HashOf, |order| - 1);
  }

  lemma OutcomePairs(n: string, u: Use, declared: map<string, Decl>, name: string) returns (order: seq<string>)
    requires Outcome(n, u, declared, name)
    ensures Pairs(n, u, declared, order, name)
  {
    order := WalkEndingIn(declared, name);
    if n !in declared {
      if e :| SourceCandidate(u, declared, e) {
        CandidateIsBySource(u, declared, order, name);
      } else if e :| HashCandidate(u, declared, e) {
        NoneBySource(u, declared, order);
        CandidateIsByHash(u, declared, order, name);
      } else {
        NoneBySource(u, declared, order);
        NoneByHash(u, declared, order);
      }
    }
  }

  /** The pairings some order of the maps gives, exactly. */
  lemma PairingOutcomes(n: string, u: Use, declared: map<string, Decl>, name: string)
    ensures (exists order :: Pairs(n, u, declared, order, name)) <==> Outcome(n, u, declared, name)
  {
    if order :| Pairs(n, u, declared, order, name) {
      PairsOnlyOutcomes(n, u, declared, order, name);
    }
    if Outcome(n, u, declared, name) {
      var order := OutcomePairs(n, u, declared, name);
    }
  }

  /** No other declaration has this one's source identity. */
  ghost predicate SoleSource(declared: map<string, Decl>, d: string)
    requires d in declared
  {
    forall e | e in declared && SourceID(declared[e]) == SourceID(declared[d]) :: e == d
  }

  lemma SharedSource(n: string, u: Use, declared: map<string, Decl>, d: string, name: string)
    requires d in declared && SourceID(declared[d]) != "" && u.calledNames == {SourceID(declared[d])}
    ensures Outcome(n, u, declared, name) <==>
            if n in declared then name == n else Of(declared, SourceID, SourceID(declared[d]), name)
  {
    var id := SourceID(declared[d]);
    assert Of(declared, SourceID, id, d);
    assert id in u.calledNames;
    assert SourceCandidate(u, declared, d);
  }

  /** A use whose one called name is a declaration's identity pairs with that declaration
      in every order of the maps, exactly when it is packaged under that name, or under no
      declared one and the identity is no other declaration's. */
  lemma PairsInEveryOrderIff(n: string, u: Use, declared: map<string, Decl>, d: string)
    requires d in declared && SourceID(declared[d]) != "" && u.calledNames == {SourceID(declared[d])}
    ensures (forall order, name | Pairs(n, u, declared, order, name) :: name == d)
            <==> n == d || (n !in declared && SoleSource(declared, d))
  {
    if n == d || (n !in declared && SoleSource(declared, d)) {
      forall order, name | Pairs(n, u, declared, order, name) ensures name == d {
        PairsOnlyOutcomes(n, u, declared, order, name);
        SharedSource(n, u, declared, d, name);
      }
    } else {
      var e := if n in declared then n
               else var e :| e in declared && SourceID(declared[e]) == SourceID(declared[d]) && e != d; e;
      SharedSource(n, u, declared, d, e);
      var order := OutcomePairs(n, u, declared, e);
      assert Pairs(n, u, declared, order, e) && e != d;
    }
  }

  // ------------------------------------------------------------------------ the report

  datatype Diff = Diff(name: string, declared: string, used: string, fromLock: bool)

  datatype Report =
    Report(differs: seq<Diff>, missing: seq<string>, extra: seq<string>, conflict: seq<string>, unknown: seq<string>)

  const EMPTY := Report([], [], [], [], [])

  /** What one use adds to the report, given the name it paired with. */
  function Reported(r: Report, n: string, u: Use, declared: map<string, Decl>, name: string): Report {
    if |u.declarations| > 1 then r.(conflict := r.conflict + [n])
    else if |u.declarations| == 0 then
      if u.undeclared == 0 then r
      else r.(unknown := r.unknown + [n], missing := if name in declared then r.missing else r.missing + [n])
    else if name !in declared then r.(missing := r.missing + [n])
    else if declared[name].source != u.declarations[0]
    then r.(differs := r.differs + [Diff(n, declared[name].source, u.declarations[0], declared[name].fromLock)])
    else r
  }

  ghost predicate Covered(names: seq<string>, used: map<string, Use>, pairing: map<string, string>) {
    forall i | 0 <= i < |names| :: names[i] in used && names[i] in pairing
  }

  /** A report over some uses, before the unused declarations are listed. */
  ghost function ReportOf(names: seq<string>, used: map<string, Use>, declared: map<string, Decl>,
                          pairing: map<string, string>): Report
    requires Covered(names, used, pairing)
  {
    if names == [] then EMPTY
    else
      var n := names[|names| - 1];
      Reported(ReportOf(names[..|names| - 1], used, declared, pairing), n, used[n], declared, pairing[n])
  }

  /** The declarations some use paired with, as the loop collects them. */
  ghost function MatchedBy(names: seq<string>, declared: map<string, Decl>, pairing: map<string, string>): set<string>
    requires forall i | 0 <= i < |names| :: names[i] in pairing
  {
    if names == [] then {}
    else
      var name := pairing[names[|names| - 1]];
      var before := MatchedBy(names[..|names| - 1], declared, pairing);
      if name in declared then before + {name} else before
  }

  /** Every use paired as one order of the declarations allows. */
  ghost predicate PairedThrough(used: map<string, Use>, declared: map<string, Decl>, pairing: map<string, string>,
                                order: seq<string>) {
    forall n | n in pairing :: n in used && Pairs(n, used[n], declared, order, pairing[n])
  }

  /** A report some iteration order gives: the uses walked in one order, each paired as an
      order of the declarations allows, and what the walk did not match listed unused. */
  ghost predicate IsReport(r: Report, names: seq<string>, used: map<string, Use>, declared: map<string, Decl>,
                           pairing: map<string, string>) {
    && Elements(names) == used.Keys == pairing.Keys && NoDuplicates(names)
    && Covered(names, used, pairing)
    && (exists order :: PairedThrough(used, declared, pairing, order))
    && r.(extra := []) == ReportOf(names, used, declared, pairing)
    && NoDuplicates(r.extra) && Elements(r.extra) == declared.Keys - MatchedBy(names, declared, pairing)
  }

  /** reconcileBlueprints.  Where the source sorts names this takes them in any order. */
  method ReconcileBlueprints(used: map<string, Use>, declared: map<string, Decl>) returns (r: Report)
    ensures exists names, pairing :: IsReport(r, names, used, declared, pairing)
  {
    var names := InSomeOrder(used.Keys);
    var byHash, byID := IndexDeclarations(declared);
    ghost var order :| LeftBy(order, declared, byID, byHash);
    var matched;
    ghost var pairing;
    assert forall i | 0 <= i < |names| :: names[i] in Elements(names);
    r, matched, pairing := ReportUses(names, used, declared, byID, byHash, order);
    var extra := ListUnmatched(declared, matched);
    assert r.(extra := []) == r;
    r := r.(extra := extra);
    assert IsReport(r, names, used, declared, pairing);
  }

  /** What the loop has built after some of the uses. */
  ghost predicate Lines(r: Report, matched: set<string>, done: seq<string>, used: map<string, Use>,
                        declared: map<string, Decl>, pairing: map<string, string>) {
    && Covered(done, used, pairing)
    && r == ReportOf(done, used, declared, pairing) && r.extra == []
    && matched == MatchedBy(done, declared, pairing)
  }

  method ReportUse(r: Report, n: string, u: Use, declared: map<string, Decl>, name: string) returns (after: Report)
    ensures after == Reported(r, n, u, declared, name)
  {
    after := r;
    if |u.declarations| > 1 {
      after := after.(conflict := after.conflict + [n]);
    } else if |u.declarations| == 0 {
      if u.undeclared > 0 {
        after := after.(unknown := after.unknown + [n]);
      }
      if name !in declared && u.undeclared > 0 {
        after := after.(missing := after.missing + [n]);
      }
    } else if name !in declared {
      after := after.(missing := after.missing + [n]);
    } else if declared[name].source != u.declarations[0] {
      var line := Diff(n, declared[name].source, u.declarations[0], declared[name].fromLock);
      after := after.(differs := after.differs + [line]);
    }
  }

  lemma ReportOfSnoc(done: seq<string>, n: string, used: map<string, Use>, declared: map<string, Decl>,
                     pairing: map<string, string>)
    requires Covered(done, used, pairing) && Covered(done + [n], used, pairing)
    ensures ReportOf(done + [n], used, declared, pairing)
            == Reported(ReportOf(done, used, declared, pairing), n, used[n], declared, pairing[n])
    ensures MatchedBy(done + [n], declared, pairing)
            == MatchedBy(done, declared, pairing) + if pairing[n] in declared then {pairing[n]} else {}
  {
    assert (done + [n])[..|done|] == done;
  }

  lemma CoveredSnoc(done: seq<string>, n: string, used: map<string, Use>, pairing: map<string, string>, name: string)
    requires Covered(done, used, pairing) && n !in done && n in used
    ensures Covered(done + [n], used, pairing[n := name]) && Covered(done, used, pairing[n := name])
    ensures forall i | 0 <= i < |done| :: pairing[n := name][done[i]] == pairing[done[i]]
  {
  }

  lemma LinesStep(r: Report, matched: set<string>, done: seq<string>, n: string, used: map<string, Use>,
                  declared: map<string, Decl>, pairing: map<string, string>, name: string)
    requires Lines(r, matched, done, used, declared, pairing) && n !in done && n in used
    ensures Lines(Reported(r, n, used[n], declared, name), if name in declared then matched + {name} else matched,
                  done + [n], used, declared, pairing[n := name])
  {
    CoveredSnoc(done, n, used, pairing, name);
    SamePairing(done, used, declared, pairing, pairing[n := name]);
    ReportOfSnoc(done, n, used, declared, pairing[n := name]);
  }

  lemma PairedStep(used: map<string, Use>, declared: map<string, Decl>, pairing: map<string, string>,
                   order: seq<string>, n: string, name: string)
    requires PairedThrough(used, declared, pairing, order) && n in used && Pairs(n, used[n], declared, order, name)
    ensures PairedThrough(used, declared, pairing[n := name], order)
  {
  }

  /** One turn of the loop over the uses. */
  method ReportNext(ghost done: seq<string>, n: string, used: map<string, Use>, declared: map<string, Decl>,
                    byID: map<string, string>, byHash: map<string, string>, ghost order: seq<string>,
                    r: Report, matched: set<string>, ghost pairing: map<string, string>)
      returns (after: Report, nowMatched: set<string>, ghost next: map<string, string>)
    requires n in used && n !in done && n !in pairing
    requires LeftBy(order, declared, byID, byHash)
    requires PairedThrough(used, declared, pairing, order) && Lines(r, matched, done, used, declared, pairing)
    ensures next.Keys == pairing.Keys + {n} && PairedThrough(used, declared, next, order)
    ensures Lines(after, nowMatched, done + [n], used, declared, next)
  {
    var name := PairDeclaration(n, used[n], declared, byID, byHash);
    PairedStep(used, declared, pairing, order, n, name);
    LinesStep(r, matched, done, n, used, declared, pairing, name);
    nowMatched := if name in declared then matched + {name} else matched;
    after := ReportUse(r, n, used[n], declared, name);
    next := pairing[n := name];
  }

  /** The loop over the uses. */
  method ReportUses(names: seq<string>, used: map<string, Use>, declared: map<string, Decl>,
                    byID: map<string, string>, byHash: map<string, string>, ghost order: seq<string>)
      returns (r: Report, matched: set<string>, ghost pairing: map<string, string>)
    requires NoDuplicates(names) && forall i | 0 <= i < |names| :: names[i] in used
    requires LeftBy(order, declared, byID, byHash)
    ensures pairing.Keys == Elements(names) && PairedThrough(used, declared, pairing, order)
    ensures Lines(r, matched, names, used, declared, pairing)
  {
    r, matched, pairing := EMPTY, {}, map[];
    for i := 0 to |names|
      invariant pairing.Keys == Elements(names[..i]) && PairedThrough(used, declared, pairing, order)
      invariant Lines(r, matched, names[..i], used, declared, pairing)
    {
      PrefixStep(names, i);
      assert names[i] !in pairing.Keys;
      r, matched, pairing :=
        ReportNext(names[..i], names[i], used, declared, byID, byHash, order, r, matched, pairing);
    }
    assert names[..|names|] == names;
  }

  lemma {:induction false} SamePairing(names: seq<string>, used: map<string, Use>, declared: map<string, Decl>,
                                       a: map<string, string>, b: map<string, string>)
    requires Covered(names, used, a) && Covered(names, used, b)
    requires forall i | 0 <= i < |names| :: a[names[i]] == b[names[i]]
    ensures ReportOf(names, used, declared, a) == ReportOf(names, used, declared, b)
    ensures MatchedBy(names, declared, a) == MatchedBy(names, declared, b)
  {
    if names != [] {
      SamePairing(names[..|names| - 1], used, declared, a, b);
    }
  }

  method ListUnmatched(declared: map<string, Decl>, matched: set<string>) returns (extra: seq<string>)
    ensures NoDuplicates(extra) && forall d :: d in extra <==> d in declared && d !in matched
  {
    extra := [];
    var names := InSomeOrder(declared.Keys);
    for i := 0 to |names|
      invariant NoDuplicates(extra)
      invariant forall d :: d in extra <==> d in names[..i] && d !in matched
    {
      assert names[..i + 1] == names[..i] + [names[i]];
      assert names[i] !in names[..i];
      if names[i] !in matched {
        extra := extra + [names[i]];
      }
    }
    assert names[..|names|] == names;
    assert forall d :: d in names <==> d in Elements(names);
  }

  ghost predicate Missed(u: Use, declared: map<string, Decl>, name: string) {
    name !in declared && (|u.declarations| == 1 || (|u.declarations| == 0 && u.undeclared > 0))
  }

  ghost predicate Moved(u: Use, declared: map<string, Decl>, name: string) {
    |u.declarations| == 1 && name in declared && declared[name].source != u.declarations[0]
  }

  lemma ListsStep(r: Report, m: string, u: Use, declared: map<string, Decl>, name: string, n: string)
    ensures var after := Reported(r, m, u, declared, name);
      && (n in after.missing <==> n in r.missing || (n == m && Missed(u, declared, name)))
      && (n in after.conflict <==> n in r.conflict || (n == m && |u.declarations| > 1))
      && (n in after.unknown <==> n in r.unknown || (n == m && |u.declarations| == 0 && u.undeclared > 0))
  {
  }

  lemma MovedStep(r: Report, m: string, u: Use, declared: map<string, Decl>, name: string, n: string)
    ensures Count(Reported(r, m, u, declared, name).differs, n)
            == Count(r.differs, n) + if n == m && Moved(u, declared, name) then 1 else 0
  {
    var before, after := r.differs, Reported(r, m, u, declared, name).differs;
    if Moved(u, declared, name) {
      assert after[..|after| - 1] == before;
    }
  }

  lemma {:induction false} ListsIff(names: seq<string>, used: map<string, Use>, declared: map<string, Decl>,
                                    pairing: map<string, string>, n: string)
    requires Covered(names, used, pairing)
    ensures var r := ReportOf(names, used, declared, pairing);
      && (n in r.missing <==> n in names && Missed(used[n], declared, pairing[n]))
      && (n in r.conflict <==> n in names && |used[n].declarations| > 1)
      && (n in r.unknown <==> n in names && |used[n].declarations| == 0 && used[n].undeclared > 0)
  {
    if names != [] {
      var init, last := names[..|names| - 1], names[|names| - 1];
      ListsIff(init, used, declared, pairing, n);
      ListsStep(ReportOf(init, used, declared, pairing), last, used[last], declared, pairing[last], n);
      assert n in names <==> n in init || n == last;
    }
  }

  lemma {:induction false} DiffersOnce(names: seq<string>, used: map<string, Use>, declared: map<string, Decl>,
                                       pairing: map<string, string>, n: string)
    requires Covered(names, used, pairing) && NoDuplicates(names)
    ensures Count(ReportOf(names, used, declared, pairing).differs, n)
            == if n in names && Moved(used[n], declared, pairing[n]) then 1 else 0
  {
    if names != [] {
      var init, last := names[..|names| - 1], names[|names| - 1];
      DiffersOnce(init, used, declared, pairing, n);
      MovedStep(ReportOf(init, used, declared, pairing), last, used[last], declared, pairing[last], n);
      assert n in names <==> n in init || n == last;
      assert last !in init;
    }
  }

  function MovedLine(n: string, d: Decl, source: string): Diff { Diff(n, d.source, source, d.fromLock) }

  lemma {:induction false} DiffersHolds(names: seq<string>, used: map<string, Use>, declared: map<string, Decl>,
                                        pairing: map<string, string>, n: string)
    requires Covered(names, used, pairing) && n in names && Moved(used[n], declared, pairing[n])
    ensures MovedLine(n, declared[pairing[n]], used[n].declarations[0])
            in ReportOf(names, used, declared, pairing).differs
  {
    var init, last := names[..|names| - 1], names[|names| - 1];
    if n in init {
      DiffersHolds(init, used, declared, pairing, n);
    } else {
      assert n == last;
    }
  }

  /** The lines of a list that are about one name. */
  function Count(ds: seq<Diff>, n: string): nat {
    if ds == [] then 0 else Count(ds[..|ds| - 1], n) + if ds[|ds| - 1].name == n then 1 else 0
  }

  lemma {:induction false} MatchedByIff(names: seq<string>, declared: map<string, Decl>, pairing: map<string, string>,
                                        d: string)
    requires forall i | 0 <= i < |names| :: names[i] in pairing
    ensures d in MatchedBy(names, declared, pairing) <==> d in declared && exists n :: n in names && pairing[n] == d
  {
    if names != [] {
      var init, last := names[..|names| - 1], names[|names| - 1];
      MatchedByIff(init, declared, pairing, d);
      assert forall n :: n in names <==> n in init || n == last;
      if pairing[last] == d {
        assert last in names;
      }
    }
  }

  /** In every report a declaration is unused exactly when no use paired with it. */
  lemma UnusedIffUnpaired(r: Report, names: seq<string>, used: map<string, Use>, declared: map<string, Decl>,
                          pairing: map<string, string>, d: string)
    requires IsReport(r, names, used, declared, pairing)
    ensures d in r.extra <==> d in declared && forall n | n in used :: pairing[n] != d
  {
    MatchedByIff(names, declared, pairing, d);
    assert d in r.extra <==> d in Elements(r.extra);
    assert forall n :: n in names <==> n in Elements(names);
  }

  lemma PairsWithOneOrNone(r: Report, names: seq<string>, used: map<string, Use>, declared: map<string, Decl>,
                           pairing: map<string, string>, n: string)
    requires IsReport(r, names, used, declared, pairing) && n in used
    ensures pairing[n] in declared || pairing[n] == n
  {
    var order :| PairedThrough(used, declared, pairing, order);
    PairsOnlyOutcomes(n, used[n], declared, order, pairing[n]);
  }

  /** The lists of a report.  A use of several sources is a conflict; one with no recorded
      source is unknown; one paired with nothing is missing, and no other. */
  lemma EveryUseIsListed(r: Report, names: seq<string>, used: map<string, Use>, declared: map<string, Decl>,
                         pairing: map<string, string>, n: string)
    requires IsReport(r, names, used, declared, pairing) && n in used
    ensures n in r.conflict <==> |used[n].declarations| > 1
    ensures n in r.unknown <==> |used[n].declarations| == 0 && used[n].undeclared > 0
    ensures n in r.missing <==> n !in r.conflict && pairing[n] !in declared
                                && (|used[n].declarations| == 1 || n in r.unknown)
  {
    ListsIff(names, used, declared, pairing, n);
    assert r.missing == r.(extra := []).missing && r.conflict == r.(extra := []).conflict;
    assert r.unknown == r.(extra := []).unknown;
    assert n in Elements(names);
  }

  /** A line of the differences: a use of one recorded source, paired with a declaration
      of another. */
  ghost predicate Differs(line: Diff, used: map<string, Use>, declared: map<string, Decl>, pairing: map<string, string>)
  {
    && line.name in used && |used[line.name].declarations| == 1
    && line.name in pairing && pairing[line.name] in declared
    && line.declared == declared[pairing[line.name]].source && line.used == used[line.name].declarations[0]
    && line.declared != line.used && line.fromLock == declared[pairing[line.name]].fromLock
  }

  lemma {:induction false} DiffersIff(names: seq<string>, used: map<string, Use>, declared: map<string, Decl>,
                                      pairing: map<string, string>, line: Diff)
    requires Covered(names, used, pairing)
    ensures line in ReportOf(names, used, declared, pairing).differs
            <==> line.name in names && Differs(line, used, declared, pairing)
  {
    if names != [] {
      var init, last := names[..|names| - 1], names[|names| - 1];
      DiffersIff(init, used, declared, pairing, line);
      DiffersStep(ReportOf(init, used, declared, pairing), last, used, declared, pairing, line);
      assert line.name in names <==> line.name in init || line.name == last;
    }
  }

  lemma DiffersStep(r: Report, n: string, used: map<string, Use>, declared: map<string, Decl>,
                    pairing: map<string, string>, line: Diff)
    requires n in used && n in pairing
    ensures line in Reported(r, n, used[n], declared, pairing[n]).differs
            <==> line in r.differs || (line.name == n && Differs(line, used, declared, pairing))
  {
  }

  /** The differences of a report are those lines, and no others. */
  lemma DifferencesAre(r: Report, names: seq<string>, used: map<string, Use>, declared: map<string, Decl>,
                       pairing: map<string, string>, line: Diff)
    requires IsReport(r, names, used, declared, pairing)
    ensures line in r.differs <==> Differs(line, used, declared, pairing)
  {
    DiffersIff(names, used, declared, pairing, line);
    assert r.differs == r.(extra := []).differs;
    assert line.name in names <==> line.name in Elements(names);
  }

  /** A paired use is never missing, and a use pairs with a declaration or with nothing. */
  lemma PairedIsNeverMissing(r: Report, names: seq<string>, used: map<string, Use>, declared: map<string, Decl>,
                             pairing: map<string, string>, n: string)
    requires IsReport(r, names, used, declared, pairing) && n in used
    ensures if pairing[n] in declared then n !in r.missing else pairing[n] == n
  {
    EveryUseIsListed(r, names, used, declared, pairing, n);
    PairsWithOneOrNone(r, names, used, declared, pairing, n);
  }

  /** A use with one recorded source, of a declaration's identity but not its text, that
      pairs with it in every order: one difference, in every report, and neither a missing
      nor an unused line. */
  lemma VersionMoveIsOneDifference(r: Report, names: seq<string>, used: map<string, Use>, declared: map<string, Decl>,
                                   pairing: map<string, string>, n: string, d: string)
    requires IsReport(r, names, used, declared, pairing) && n in used && d in declared
    requires SourceID(declared[d]) != "" && used[n].calledNames == {SourceID(declared[d])}
    requires |used[n].declarations| == 1 && used[n].declarations[0] != declared[d].source
    requires n == d || (n !in declared && SoleSource(declared, d))
    ensures Count(r.differs, n) == 1 && MovedLine(n, declared[d], used[n].declarations[0]) in r.differs
    ensures n !in r.missing && d !in r.extra
  {
    var order :| PairedThrough(used, declared, pairing, order);
    PairsInEveryOrderIff(n, used[n], declared, d);
    assert pairing[n] == d;
    DiffersOnce(names, used, declared, pairing, n);
    DiffersHolds(names, used, declared, pairing, n);
    assert r.differs == r.(extra := []).differs;
    PairedIsNeverMissing(r, names, used, declared, pairing, n);
    UnusedIffUnpaired(r, names, used, declared, pairing, d);
    assert n in Elements(names);
  }

  /** A reference to a repository in a registry, by tag. */
  function Tagged(head: string, repo: string, tag: string): string { head + "/" + (repo + ":" + tag) }

  predicate IsRepository(head: string, repo: string) {
    "oci://" <= head + "/" && repo != "" && '/' !in repo && ':' !in repo && '@' !in repo
  }

  predicate IsTag(tag: string) { '/' !in tag && '@' !in tag }

  lemma TagsTellApart(head: string, repo: string, a: string, b: string)
    requires a != b
    ensures Tagged(head, repo, a) != Tagged(head, repo, b)
  {
    var k := |head| + 1 + |repo| + 1;
    assert Tagged(head, repo, a)[k..] == a && Tagged(head, repo, b)[k..] == b;
  }

  /** From the records themselves: every record of a blueprint that names a declaration
      names one registry reference, some record does, and the stack declares that
      repository under another tag. */
  lemma TagMoveIsOneDifference(r: Report, names: seq<string>, records: seq<Record>, used: map<string, Use>,
                               declared: map<string, Decl>, pairing: map<string, string>, n: string, d: string,
                               head: string, repo: string, oldTag: string, newTag: string)
    requires IsReport(r, names, used, declared, pairing)
    requires n in used && used[n] == UseOf(records, n)
    requires IsRepository(head, repo) && IsTag(oldTag) && IsTag(newTag) && oldTag != newTag
    requires OneSource(records, n, Tagged(head, repo, oldTag)) && Recorded(records, n, Tagged(head, repo, oldTag))
    requires d in declared && declared[d].source == Tagged(head, repo, newTag)
    requires n == d || (n !in declared && SoleSource(declared, d))
    ensures Count(r.differs, n) == 1
            && MovedLine(n, declared[d], Tagged(head, repo, oldTag)) in r.differs
    ensures n !in r.missing && d !in r.extra
  {
    TagDoesNotMatter(head, repo, oldTag);
    TagDoesNotMatter(head, repo, newTag);
    OneRecordedSource(records, n, Tagged(head, repo, oldTag));
    TagsTellApart(head, repo, oldTag, newTag);
    VersionMoveIsOneDifference(r, names, used, declared, pairing, n, d);
  }
}
