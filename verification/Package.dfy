/** A blueprint directory packaged, archived, extracted and verified, over directory trees. */
module Package {
  import opened Common

  type Bytes = string

  datatype Node = File(bytes: Bytes) | Dir(entries: Tree)

  type Tree = map<string, Node>

  /** A relative path, component by component. */
  type Path = seq<string>

  const MANIFEST: string := "blueprint.lock.json"

  /** skipEntry: hidden entries and dependency directories. */
  predicate Skip(name: string) {
    (name != [] && name[0] == '.') || name == "node_modules" || name == "vendor" || name == "venv"
    || name == "__pycache__"
  }

  /** What the operating system guarantees of entry names. */
  ghost predicate ValidName(name: string) { name != [] && '/' !in name }

  ghost predicate ValidNode(n: Node) {
    n.Dir? ==> forall k | k in n.entries :: ValidName(k) && ValidNode(n.entries[k])
  }

  ghost predicate ValidTree(d: Tree) { ValidNode(Dir(d)) }

  // ------------------------------------------------------------- what a walk sees

  /** The file a walk reaches at a path, skipping what skipEntry skips. */
  function Visible(d: Tree, p: Path): Option<Bytes>
    decreases |p|
  {
    if p == [] || p[0] !in d || Skip(p[0]) then None
    else
      match d[p[0]]
      case File(b) => if |p| == 1 then Some(b) else None
      case Dir(es) => Visible(es, p[1..])
  }

  function NodePaths(n: Node): set<Path> {
    match n
    case File(_) => {[]}
    case Dir(es) => set k, p | k in es && !Skip(k) && p in NodePaths(es[k]) :: [k] + p
  }

  function Paths(d: Tree): set<Path> { NodePaths(Dir(d)) }

  lemma {:induction false} PathsAreVisible(d: Tree, p: Path)
    ensures p in Paths(d) <==> Visible(d, p).Some?
    decreases |p|
  {
    if p in Paths(d) {
      var k, q :| k in d && !Skip(k) && q in NodePaths(d[k]) && p == [k] + q;
      assert p[1..] == q;
      if d[k].Dir? {
        assert q in Paths(d[k].entries);
        PathsAreVisible(d[k].entries, q);
      }
    }
    if Visible(d, p).Some? {
      assert p == [p[0]] + p[1..];
      if d[p[0]].Dir? {
        PathsAreVisible(d[p[0]].entries, p[1..]);
      }
      assert p[1..] in NodePaths(d[p[0]]);
    }
  }

  /** hashFiles' file set: everything a walk reaches but the root manifest. */
  function Covered(d: Tree): map<Path, Bytes> {
    map p | p in Paths(d) && p != [MANIFEST] :: Contents(d, p)
  }

  function Contents(d: Tree, p: Path): Bytes {
    if Visible(d, p).Some? then Visible(d, p).value else []
  }

  ghost predicate SameCovered(d: Tree, e: Tree) {
    forall p | p != [MANIFEST] :: Visible(d, p) == Visible(e, p)
  }

  lemma SameVisibleSameCovered(d: Tree, e: Tree)
    requires SameCovered(d, e)
    ensures Covered(d) == Covered(e)
  {
    forall p | p != [MANIFEST] ensures p in Paths(d) <==> p in Paths(e) {
      PathsAreVisible(d, p);
      PathsAreVisible(e, p);
    }
  }

  // ------------------------------------------------------------------- manifests

  datatype Manifest = Manifest(name: string, files: map<Path, string>, contentHash: string)

  /** The hash of one file, the hash of a whole manifest, and the manifest's JSON form. */
  datatype Format = Format(
    fileHash: Bytes -> string,
    digest: (string, map<Path, string>) -> string,
    encode: Manifest -> Bytes,
    decode: Bytes -> Option<Manifest>)

  ghost predicate RoundTrips(f: Format) { forall m: Manifest :: f.decode(f.encode(m)) == Some(m) }

  function FileHashes(f: Format, d: Tree): map<Path, string> {
    var files := Covered(d);
    map p | p in files :: f.fileHash(files[p])
  }

  /** buildManifest. */
  function BuildManifest(f: Format, d: Tree, name: string): Manifest {
    Manifest(name, FileHashes(f, d), f.digest(name, FileHashes(f, d)))
  }

  /** readManifest. */
  function ReadManifest(f: Format, d: Tree): Option<Manifest> {
    if MANIFEST in d && d[MANIFEST].File? then f.decode(d[MANIFEST].bytes) else None
  }

  /** Verify: recompute under the declared name and compare content hashes. */
  function Verify(f: Format, d: Tree): Result<Manifest> {
    match ReadManifest(f, d)
    case None => Err
    case Some(declared) =>
      if BuildManifest(f, d, declared.name).contentHash == declared.contentHash then Ok(declared) else Err
  }

  // ------------------------------------------------------------------ distribution

  /** copyDir. */
  function CopyNode(n: Node): Node {
    match n
    case File(b) => File(b)
    case Dir(es) => Dir(map k | k in es && !Skip(k) :: CopyNode(es[k]))
  }

  function Copy(d: Tree): Tree { CopyNode(Dir(d)).entries }

  lemma {:induction false} CopyKeepsVisible(d: Tree, p: Path)
    ensures Visible(Copy(d), p) == Visible(d, p)
    decreases |p|
  {
    if p != [] && p[0] in d && !Skip(p[0]) {
      assert Copy(d)[p[0]] == CopyNode(d[p[0]]);
      if d[p[0]].Dir? {
        assert d[p[0]] == Dir(d[p[0]].entries);
        CopyKeepsVisible(d[p[0]].entries, p[1..]);
      }
    }
  }

  /** Package: write the manifest, then archive the files it names and the manifest.  A
      directory in the manifest's place cannot be overwritten and fails. */
  function Packaged(f: Format, d: Tree, name: string): Result<Tree> {
    if MANIFEST in d && d[MANIFEST].Dir? then Err
    else Ok(d[MANIFEST := File(f.encode(BuildManifest(f, d, name)))])
  }

  /** One archive member.  Only regular members are ever written or extracted. */
  datatype Member = Member(name: string, regular: bool, bytes: Bytes)

  function Slashed(p: Path): string {
    if p == [] then [] else if |p| == 1 then p[0] else p[0] + "/" + Slashed(p[1..])
  }

  // ------------------------------------------------------- names inside an archive

  function FirstSlash(s: string): (k: nat)
    ensures k <= |s| && '/' !in s[..k] && (k < |s| ==> s[k] == '/')
  {
    if s == [] || s[0] == '/' then 0 else 1 + FirstSlash(s[1..])
  }

  function SplitSlash(s: string): seq<string> {
    var k := FirstSlash(s);
    if k < |s| then [s[..k]] + SplitSlash(s[k + 1..]) else [s]
  }

  /** The component rules of filepath.Clean for a relative name. */
  function CleanParts(parts: seq<string>, done: Path): Path {
    if parts == [] then done
    else if parts[0] == "" || parts[0] == "." then CleanParts(parts[1..], done)
    else if parts[0] == ".." && done != [] && done[|done| - 1] != ".." then CleanParts(parts[1..], done[..|done| - 1])
    else CleanParts(parts[1..], done + [parts[0]])
  }

  /** Where extraction puts a member: nowhere when the cleaned name is absolute or climbs
      out of the destination. */
  function Destination(name: string): Option<Path> {
    if name != [] && name[0] == '/' then None
    else
      var p := CleanParts(SplitSlash(name), []);
      if p != [] && p[0] == ".." then None else Some(p)
  }

  /** The paths packaging ever archives. */
  ghost predicate Archivable(p: Path) {
    p != [] && forall i | 0 <= i < |p| :: ValidName(p[i]) && !Skip(p[i])
  }

  lemma {:induction false} VisibleIsArchivable(d: Tree, p: Path)
    requires ValidTree(d) && Visible(d, p).Some?
    ensures Archivable(p)
    decreases |p|
  {
    if d[p[0]].Dir? {
      VisibleIsArchivable(d[p[0]].entries, p[1..]);
      assert forall i | 0 < i < |p| :: p[i] == p[1..][i - 1];
    }
  }

  lemma {:induction false} SplitFirst(head: string, rest: string)
    requires '/' !in head
    ensures FirstSlash(head) == |head|
    ensures FirstSlash(head + "/" + rest) == |head|
  {
    var s := head + "/" + rest;
    if head == [] {
      assert s[0] == '/';
    } else {
      SplitFirst(head[1..], rest);
      assert s[1..] == head[1..] + "/" + rest;
      assert s[0] == head[0] && head[0] in head;
    }
  }

  lemma SplitTwo(head: string, rest: string)
    requires '/' !in head
    ensures SplitSlash(head) == [head]
    ensures SplitSlash(head + "/" + rest) == [head] + SplitSlash(rest)
  {
    var s := head + "/" + rest;
    SplitFirst(head, rest);
    assert s[..|head|] == head && s[|head| + 1..] == rest;
  }

  lemma {:induction false} SplitSlashed(p: Path)
    requires Archivable(p)
    ensures SplitSlash(Slashed(p)) == p
  {
    assert p == [p[0]] + p[1..];
    if |p| == 1 {
      SplitTwo(p[0], "");
    } else {
      var rest := p[1..];
      assert Archivable(rest) by {
        assert forall i | 0 <= i < |rest| :: rest[i] == p[i + 1];
      }
      SplitSlashed(rest);
      SplitTwo(p[0], Slashed(rest));
    }
  }

  lemma {:induction false} CleanKeeps(p: Path, done: Path)
    requires forall i | 0 <= i < |p| :: ValidName(p[i]) && !Skip(p[i])
    ensures CleanParts(p, done) == done + p
  {
    if p != [] {
      var rest := p[1..];
      assert forall i | 0 <= i < |rest| :: rest[i] == p[i + 1];
      CleanKeeps(rest, done + [p[0]]);
      assert p[0][0] != '.' && p[0] != "." && p[0] != "..";
      assert done + [p[0]] + rest == done + p;
    } else {
      assert done + p == done;
    }
  }

  /** Every name packaging writes is accepted by extraction and lands at exactly the path
      it was archived from. */
  lemma ArchivedNamesComeBack(p: Path)
    requires Archivable(p)
    ensures Destination(Slashed(p)) == Some(p)
  {
    SplitSlashed(p);
    CleanKeeps(p, []);
    assert [] + p == p;
    assert p[0][0] != '.' && p[0][0] != '/';
    assert Slashed(p)[0] == p[0][0];
    assert p[0] != "..";
  }

  // -------------------------------------------------------------------- extraction

  /** Creating the missing directories and writing one file. */
  function WriteAt(d: Tree, p: Path, b: Bytes): Result<Tree>
    decreases |p|
  {
    if p == [] then Err
    else if |p| == 1 then
      if p[0] in d && d[p[0]].Dir? then Err else Ok(d[p[0] := File(b)])
    else if p[0] in d && d[p[0]].File? then Err
    else
      match WriteAt(if p[0] in d then d[p[0]].entries else map[], p[1..], b)
      case Err => Err
      case Ok(es) => Ok(d[p[0] := Dir(es)])
  }

  lemma {:induction false} WriteVisible(d: Tree, p: Path, b: Bytes, q: Path)
    requires WriteAt(d, p, b).Ok? && forall i | 0 <= i < |p| :: !Skip(p[i])
    ensures Visible(WriteAt(d, p, b).value, q) == if q == p then Some(b) else Visible(d, q)
    decreases |p|
  {
    if |p| > 1 {
      var es := if p[0] in d then d[p[0]].entries else map[];
      assert forall i | 0 <= i < |p[1..]| :: p[1..][i] == p[i + 1];
      if q != [] && q[0] == p[0] {
        WriteVisible(es, p[1..], b, q[1..]);
        assert q == p <==> q[1..] == p[1..] by {
          assert q == [q[0]] + q[1..] && p == [p[0]] + p[1..];
        }
        NothingVisible(q[1..]);
      }
    } else if q != [] && q[0] == p[0] {
      assert q == p <==> |q| == 1;
      if p[0] in d && d[p[0]].File? && |q| > 1 {
        assert Visible(d, q) == None;
      }
    }
  }

  lemma NothingVisible(p: Path)
    ensures Visible(map[], p) == None
  {
  }

  ghost predicate ProperPrefix(p: Path, q: Path) { |p| < |q| && q[..|p|] == p }

  /** In a tree, no file's path runs through another file. */
  lemma {:induction false} FilesDoNotNest(d: Tree, p: Path, q: Path)
    requires Visible(d, p).Some? && Visible(d, q).Some?
    ensures !ProperPrefix(p, q)
    decreases |p|
  {
    if ProperPrefix(p, q) {
      assert q[..|p|][0] == q[0] == p[0];
      if d[p[0]].Dir? {
        assert q[1..][..|p[1..]|] == p[1..] by {
          assert q[..|p|][1..] == q[1..][..|p| - 1];
        }
        FilesDoNotNest(d[p[0]].entries, p[1..], q[1..]);
      }
    }
  }

  /** What extraction builds: nothing hidden, and no directory without a file in it. */
  ghost predicate TidyNode(n: Node) {
    n.Dir? ==> forall k | k in n.entries ::
      !Skip(k) && TidyNode(n.entries[k]) && (n.entries[k].Dir? ==> exists q :: Visible(n.entries[k].entries, q).Some?)
  }

  ghost predicate Tidy(d: Tree) { TidyNode(Dir(d)) }

  ghost predicate Compatible(d: Tree, p: Path) {
    forall q | Visible(d, q).Some? :: !ProperPrefix(q, p) && !ProperPrefix(p, q)
  }

  lemma PrefixCons(k: string, p: Path, q: Path)
    ensures ProperPrefix([k] + p, [k] + q) <==> ProperPrefix(p, q)
  {
    if |p| < |q| {
      assert ([k] + q)[..|p| + 1] == [k] + q[..|p|];
      if ([k] + q)[..|p| + 1] == [k] + p {
        CancelPrefix([k], q[..|p|], p);
      }
    }
  }

  lemma CompatibleBelow(d: Tree, p: Path)
    requires Compatible(d, p) && |p| > 1 && p[0] in d && !Skip(p[0]) && d[p[0]].Dir?
    ensures Compatible(d[p[0]].entries, p[1..])
  {
    var es := d[p[0]].entries;
    assert p == [p[0]] + p[1..];
    forall q | Visible(es, q).Some? ensures !ProperPrefix(q, p[1..]) && !ProperPrefix(p[1..], q) {
      var longer := [p[0]] + q;
      assert longer[1..] == q && Visible(d, longer).Some?;
      PrefixCons(p[0], q, p[1..]);
      PrefixCons(p[0], p[1..], q);
    }
  }

  lemma NotAFile(d: Tree, p: Path)
    requires Compatible(d, p) && |p| > 1 && p[0] in d && !Skip(p[0])
    ensures d[p[0]].Dir?
  {
    assert p[..1] == [p[0]];
    assert ProperPrefix([p[0]], p);
    assert d[p[0]].File? ==> Visible(d, [p[0]]).Some?;
  }

  lemma NotADirectory(d: Tree, p: Path)
    requires Compatible(d, p) && Tidy(d) && |p| == 1 && p[0] in d
    ensures d[p[0]].File?
  {
    if d[p[0]].Dir? {
      var q :| Visible(d[p[0]].entries, q).Some?;
      var longer := [p[0]] + q;
      assert longer[..1] == p && longer[1..] == q;
      assert Visible(d, longer).Some?;
    }
  }

  /** A compatible write succeeds and leaves a tidy tree. */
  lemma {:induction false} WriteSucceeds(d: Tree, p: Path, b: Bytes)
    requires Tidy(d) && Compatible(d, p) && p != [] && forall i | 0 <= i < |p| :: !Skip(p[i])
    ensures WriteAt(d, p, b).Ok? && Tidy(WriteAt(d, p, b).value)
    decreases |p|
  {
    if |p| == 1 {
      if p[0] in d {
        NotADirectory(d, p);
      }
      TidyUpdate(d, p[0], File(b));
    } else {
      if p[0] in d {
        NotAFile(d, p);
        CompatibleBelow(d, p);
      }
      var es := if p[0] in d then d[p[0]].entries else map[];
      assert forall i | 0 <= i < |p[1..]| :: p[1..][i] == p[i + 1];
      WriteSucceeds(es, p[1..], b);
      WriteVisible(es, p[1..], b, p[1..]);
      TidyUpdate(d, p[0], Dir(WriteAt(es, p[1..], b).value));
    }
  }

  lemma TidyUpdate(d: Tree, k: string, n: Node)
    requires Tidy(d) && !Skip(k) && TidyNode(n) && (n.Dir? ==> exists q :: Visible(n.entries, q).Some?)
    ensures Tidy(d[k := n])
  {
    assert TidyNode(Dir(d));
  }

  /** Extraction of members in turn, starting from what is already there. */
  function Extracted(members: seq<Member>, d: Tree): Result<Tree> {
    if members == [] then Ok(d)
    else
      match Extracted(members[..|members| - 1], d)
      case Err => Err
      case Ok(e) =>
        var m := members[|members| - 1];
        if !m.regular then Ok(e)
        else
          match Destination(m.name)
          case None => Err
          case Some(p) => WriteAt(e, p, m.bytes)
  }

  /** extractTarGz. */
  method ExtractTarGz(members: seq<Member>) returns (r: Result<Tree>)
    ensures r == Extracted(members, map[])
  {
    var d: Tree := map[];
    for i := 0 to |members|
      invariant Extracted(members[..i], map[]) == Ok(d)
    {
      assert members[..i + 1][..i] == members[..i];
      if members[i].regular {
        var p := Destination(members[i].name);
        if p.None? {
          ExtractionStops(members, i, |members|);
          return Err;
        }
        var w := WriteAt(d, p.value, members[i].bytes);
        if w.Err? {
          ExtractionStops(members, i, |members|);
          return Err;
        }
        d := w.value;
      }
    }
    assert members[..|members|] == members;
    return Ok(d);
  }

  lemma {:induction false} ExtractionStops(members: seq<Member>, i: nat, n: nat)
    requires i < n <= |members| && Extracted(members[..i + 1], map[]).Err?
    ensures Extracted(members[..n], map[]).Err?
    ensures n == |members| ==> Extracted(members, map[]).Err?
  {
    if i + 1 < n {
      ExtractionStops(members, i, n - 1);
      assert members[..n][..n - 1] == members[..n - 1];
    }
    assert members[..|members|] == members;
  }

  /** writeTarGz over a list of relative paths. */
  method WriteTarGz(d: Tree, paths: seq<Path>) returns (members: seq<Member>)
    ensures members == Archive(d, paths)
  {
    members := [];
    for i := 0 to |paths|
      invariant members == Archive(d, paths)[..i]
    {
      members := members + [Member(Slashed(paths[i]), true, Contents(d, paths[i]))];
    }
  }

  function Archive(d: Tree, paths: seq<Path>): seq<Member> {
    seq(|paths|, i requires 0 <= i < |paths| => Member(Slashed(paths[i]), true, Contents(d, paths[i])))
  }

  /** PackageReportingExclusions from the manifest on: the directory it leaves, and the
      archive of the manifest's files and the manifest itself, in some order. */
  method PackageBlueprint(f: Format, d: Tree, name: string)
      returns (r: Result<Tree>, archive: seq<Member>, ghost order: seq<Path>)
    ensures r == Packaged(f, d, name)
    ensures r.Ok? ==> archive == Archive(r.value, order) && ListsAll(r.value, order)
  {
    archive, order := [], [];
    if MANIFEST in d && d[MANIFEST].Dir? {
      return Err, archive, order;
    }
    var m := BuildManifest(f, d, name);
    var d' := d[MANIFEST := File(f.encode(m))];
    PackageKeepsCovered(f, d, name);
    ManifestVisible(d');
    var paths := InSomeOrder(m.files.Keys + {[MANIFEST]});
    archive := WriteTarGz(d', paths);
    return Ok(d'), archive, paths;
  }

  /** The archive lists every file of the packaged directory once. */
  ghost predicate ListsAll(d: Tree, order: seq<Path>) {
    NoDuplicates(order) && Elements(order) == Paths(d)
  }

  // ---------------------------------------------------------------- main theorems

  lemma ManifestVisible(d: Tree)
    requires MANIFEST in d && d[MANIFEST].File?
    ensures Visible(d, [MANIFEST]) == Some(d[MANIFEST].bytes)
    ensures Paths(d) == Covered(d).Keys + {[MANIFEST]}
  {
    PathsAreVisible(d, [MANIFEST]);
  }

  /** Writing the manifest changes nothing the hash covers. */
  lemma PackageKeepsCovered(f: Format, d: Tree, name: string)
    requires Packaged(f, d, name).Ok?
    ensures Covered(Packaged(f, d, name).value) == Covered(d)
  {
    var d' := Packaged(f, d, name).value;
    forall p | p != [MANIFEST] ensures Visible(d', p) == Visible(d, p) {
      if p != [] && p[0] == MANIFEST {
        assert |p| == 1 ==> p == [MANIFEST];
      }
    }
    SameVisibleSameCovered(d', d);
  }

  /** Packaging, then verifying in place. */
  lemma PackagedVerifies(f: Format, d: Tree, name: string)
    requires RoundTrips(f) && Packaged(f, d, name).Ok?
    ensures Verify(f, Packaged(f, d, name).value) == Ok(BuildManifest(f, d, name))
  {
    PackageKeepsCovered(f, d, name);
  }

  /** Packaging, copying anywhere, verifying there. */
  lemma CopyVerifies(f: Format, d: Tree, name: string)
    requires RoundTrips(f) && Packaged(f, d, name).Ok?
    ensures Verify(f, Copy(Packaged(f, d, name).value)) == Ok(BuildManifest(f, d, name))
  {
    var d' := Packaged(f, d, name).value;
    forall p ensures Visible(Copy(d'), p) == Visible(d', p) { CopyKeepsVisible(d', p); }
    SameVisibleSameCovered(Copy(d'), d');
    assert Copy(d')[MANIFEST] == CopyNode(d'[MANIFEST]);
    PackagedVerifies(f, d, name);
  }

  /** What extraction has rebuilt after the first n members of an archive. */
  ghost predicate Rebuilt(d: Tree, order: seq<Path>, n: nat, e: Tree)
    requires n <= |order|
  {
    && Tidy(e)
    && forall p :: Visible(e, p) == if p in order[..n] then Visible(d, p) else None
  }

  lemma ExtractedSnoc(members: seq<Member>, n: nat, d: Tree)
    requires 0 < n <= |members| && Extracted(members[..n - 1], d).Ok?
    requires members[n - 1].regular && Destination(members[n - 1].name).Some?
    ensures Extracted(members[..n], d)
            == WriteAt(Extracted(members[..n - 1], d).value, Destination(members[n - 1].name).value,
                       members[n - 1].bytes)
  {
    assert members[..n][..n - 1] == members[..n - 1];
  }

  lemma {:induction false} ArchiveExtracts(d: Tree, order: seq<Path>, n: nat)
    requires ValidTree(d) && ListsAll(d, order) && n <= |order|
    ensures Extracted(Archive(d, order)[..n], map[]).Ok?
    ensures Rebuilt(d, order, n, Extracted(Archive(d, order)[..n], map[]).value)
  {
    var members := Archive(d, order);
    if n == 0 {
      forall p ensures Visible(map[], p) == None { NothingVisible(p); }
    } else {
      ArchiveExtracts(d, order, n - 1);
      MemberExtracts(d, order, n - 1, Extracted(members[..n - 1], map[]).value);
      ExtractedSnoc(members, n, map[]);
    }
  }

  lemma MemberExtracts(d: Tree, order: seq<Path>, n: nat, e: Tree)
    requires ValidTree(d) && ListsAll(d, order) && n < |order| && Rebuilt(d, order, n, e)
    ensures Destination(Slashed(order[n])) == Some(order[n])
    ensures WriteAt(e, order[n], Contents(d, order[n])).Ok?
    ensures Rebuilt(d, order, n + 1, WriteAt(e, order[n], Contents(d, order[n])).value)
  {
    var p := order[n];
    assert p in Elements(order);
    PathsAreVisible(d, p);
    VisibleIsArchivable(d, p);
    ArchivedNamesComeBack(p);
    forall q | Visible(e, q).Some? ensures !ProperPrefix(q, p) && !ProperPrefix(p, q) {
      FilesDoNotNest(d, q, p);
      FilesDoNotNest(d, p, q);
    }
    WriteSucceeds(e, p, Contents(d, p));
    assert order[..n + 1] == order[..n] + [p];
    forall q
      ensures Visible(WriteAt(e, p, Contents(d, p)).value, q) == if q in order[..n + 1] then Visible(d, q) else None
    {
      WriteVisible(e, p, Contents(d, p), q);
    }
  }

  /** Packaging, archiving in any order, extracting into an empty directory, verifying
      there: every member is accepted, and the result is the packaged content with the
      packaged content's hash. */
  lemma ArchiveVerifies(f: Format, d: Tree, name: string, order: seq<Path>)
    requires RoundTrips(f) && Packaged(f, d, name).Ok? && ValidTree(Packaged(f, d, name).value)
    requires ListsAll(Packaged(f, d, name).value, order)
    ensures var d' := Packaged(f, d, name).value;
            && Extracted(Archive(d', order), map[]).Ok?
            && SameCovered(Extracted(Archive(d', order), map[]).value, d')
            && Verify(f, Extracted(Archive(d', order), map[]).value) == Ok(BuildManifest(f, d, name))
  {
    var d' := Packaged(f, d, name).value;
    WholeArchive(d', order);
    var e := Extracted(Archive(d', order), map[]).value;
    SameVisibleSameCovered(e, d');
    SameManifest(f, d', e);
    PackagedVerifies(f, d, name);
  }

  lemma WholeArchive(d: Tree, order: seq<Path>)
    requires ValidTree(d) && ListsAll(d, order)
    ensures Extracted(Archive(d, order), map[]).Ok?
    ensures forall p :: Visible(Extracted(Archive(d, order), map[]).value, p) == Visible(d, p)
  {
    ArchiveExtracts(d, order, |order|);
    assert Archive(d, order)[..|order|] == Archive(d, order) && order[..|order|] == order;
    forall p ensures Visible(Extracted(Archive(d, order), map[]).value, p) == Visible(d, p) {
      PathsAreVisible(d, p);
      assert p in order <==> p in Elements(order);
    }
  }

  lemma SameManifest(f: Format, d: Tree, e: Tree)
    requires MANIFEST in d && d[MANIFEST].File? && Visible(e, [MANIFEST]) == Visible(d, [MANIFEST])
    ensures ReadManifest(f, e) == ReadManifest(f, d)
  {
    ManifestVisible(d);
    assert [MANIFEST][1..] == [];
    assert e[MANIFEST] == d[MANIFEST];
  }

  /** Packaging a packaged directory again changes nothing. */
  lemma PackagingIsAFixpoint(f: Format, d: Tree, name: string)
    requires Packaged(f, d, name).Ok?
    ensures Packaged(f, Packaged(f, d, name).value, name) == Packaged(f, d, name)
  {
    var d' := Packaged(f, d, name).value;
    PackageKeepsCovered(f, d, name);
    assert BuildManifest(f, d', name) == BuildManifest(f, d, name);
    assert d'[MANIFEST := d'[MANIFEST]] == d';
  }

  /** Two contents, or two lists of files under one name, with one hash are the same. */
  ghost predicate CollisionFree(f: Format) {
    && (forall a, b :: f.fileHash(a) == f.fileHash(b) ==> a == b)
    && (forall name, a, b :: f.digest(name, a) == f.digest(name, b) ==> a == b)
  }

  /** Trees that agree on what a walk covers have one manifest. */
  lemma HashIgnoresSkipped(f: Format, d: Tree, e: Tree, name: string)
    requires SameCovered(d, e)
    ensures BuildManifest(f, d, name) == BuildManifest(f, e, name)
  {
    SameVisibleSameCovered(d, e);
  }

  /** The content hash tells trees apart exactly by what a walk covers. */
  lemma HashSeesExactlyCovered(f: Format, d: Tree, e: Tree, name: string)
    requires CollisionFree(f)
    ensures BuildManifest(f, d, name).contentHash == BuildManifest(f, e, name).contentHash <==> SameCovered(d, e)
  {
    if SameCovered(d, e) {
      HashIgnoresSkipped(f, d, e, name);
    }
    if BuildManifest(f, d, name).contentHash == BuildManifest(f, e, name).contentHash {
      assert FileHashes(f, d) == FileHashes(f, e);
      forall p | p != [MANIFEST] ensures Visible(d, p) == Visible(e, p) {
        SameHashSameFile(f, d, e, p);
      }
    }
  }

  lemma SameHashSameFile(f: Format, d: Tree, e: Tree, p: Path)
    requires CollisionFree(f) && FileHashes(f, d) == FileHashes(f, e) && p != [MANIFEST]
    ensures Visible(d, p) == Visible(e, p)
  {
    PathsAreVisible(d, p);
    PathsAreVisible(e, p);
    assert p in Covered(d) <==> p in FileHashes(f, d);
    assert p in Covered(e) <==> p in FileHashes(f, e);
    if p in Covered(d) {
      assert f.fileHash(Covered(d)[p]) == FileHashes(f, d)[p] == f.fileHash(Covered(e)[p]);
    }
  }

  /** Trees with one copy have one manifest. */
  lemma SameCopySameManifest(f: Format, d: Tree, e: Tree, name: string)
    requires Copy(d) == Copy(e)
    ensures BuildManifest(f, d, name) == BuildManifest(f, e, name)
  {
    forall p ensures Visible(d, p) == Visible(e, p) {
      CopyKeepsVisible(d, p);
      CopyKeepsVisible(e, p);
    }
    HashIgnoresSkipped(f, d, e, name);
  }

  /** One entry, at any depth below existing directories, set or removed. */
  function UpdatedAt(d: Tree, p: Path, change: Option<Node>): Tree
    decreases |p|
  {
    if p == [] then d
    else if |p| == 1 then
      match change
      case Some(n) => d[p[0] := n]
      case None => d - {p[0]}
    else if p[0] in d && d[p[0]].Dir? then
      d[p[0] := Dir(UpdatedAt(d[p[0]].entries, p[1..], change))]
    else d
  }

  lemma CopyEntry(d: Tree, k: string, n: Node)
    requires Skip(k) || (k in d && CopyNode(n) == CopyNode(d[k]))
    ensures Copy(d[k := n]) == Copy(d)
  {
  }

  lemma CopyWithout(d: Tree, k: string)
    requires Skip(k)
    ensures Copy(d - {k}) == Copy(d)
  {
  }

  /** A skipped entry, or anything below one, can come, change or go at any depth: the copy
      and the manifest are as they were. */
  lemma {:induction false} SkippedEntriesAreInvisible(f: Format, d: Tree, p: Path, i: nat, change: Option<Node>,
                                                      name: string)
    requires i < |p| && Skip(p[i])
    ensures Copy(UpdatedAt(d, p, change)) == Copy(d)
    ensures BuildManifest(f, UpdatedAt(d, p, change), name) == BuildManifest(f, d, name)
    decreases |p|
  {
    if |p| == 1 {
      if change.Some? { CopyEntry(d, p[0], change.value); } else { CopyWithout(d, p[0]); }
    } else if p[0] in d && d[p[0]].Dir? {
      var es := UpdatedAt(d[p[0]].entries, p[1..], change);
      if i > 0 {
        SkippedEntriesAreInvisible(f, d[p[0]].entries, p[1..], i - 1, change, name);
        SameEntriesSameCopy(d[p[0]].entries, es);
        assert d[p[0]] == Dir(d[p[0]].entries);
      }
      CopyEntry(d, p[0], Dir(es));
    }
    SameCopySameManifest(f, UpdatedAt(d, p, change), d, name);
  }

  lemma SameEntriesSameCopy(a: Tree, b: Tree)
    requires Copy(a) == Copy(b)
    ensures CopyNode(Dir(a)) == CopyNode(Dir(b))
  {
  }

  // ---------------------------------------------------------------- tamper evidence

  /** What verification answers of any directory: the manifest that stands in it, exactly
      when that can be read and declares the content hash of the files under its name. */
  lemma VerifyAnswers(f: Format, e: Tree, m: Manifest)
    ensures Verify(f, e) == Ok(m)
            <==> MANIFEST in e && e[MANIFEST].File? && f.decode(e[MANIFEST].bytes) == Some(m)
                 && m.contentHash == f.digest(m.name, FileHashes(f, e))
  {
  }

  /** Without a manifest, or with one that is no file or cannot be read, it fails. */
  lemma UnreadableManifestFails(f: Format, e: Tree)
    requires MANIFEST !in e || e[MANIFEST].Dir? || f.decode(e[MANIFEST].bytes) == None
    ensures Verify(f, e) == Err
  {
    if Verify(f, e).Ok? {
      VerifyAnswers(f, e, Verify(f, e).value);
    }
  }

  /** Tamper evidence: a directory that still holds the manifest it was packaged with
      verifies if and only if nothing a walk covers has been added, changed or removed. */
  lemma TamperingIsEvident(f: Format, d: Tree, name: string, e: Tree)
    requires RoundTrips(f) && CollisionFree(f) && Packaged(f, d, name).Ok?
    requires MANIFEST in e && e[MANIFEST] == Packaged(f, d, name).value[MANIFEST]
    ensures Verify(f, e).Ok? <==> SameCovered(e, Packaged(f, d, name).value)
    ensures Verify(f, e).Ok? ==> Verify(f, e).value == BuildManifest(f, d, name)
  {
    var d', m := Packaged(f, d, name).value, BuildManifest(f, d, name);
    PackageKeepsCovered(f, d, name);
    assert ReadManifest(f, e) == Some(m);
    HashSeesExactlyCovered(f, e, d', name);
    assert BuildManifest(f, d', name).contentHash == m.contentHash;
  }

  /** Any other manifest of the same name that declares another hash is refused too. */
  lemma ForgedManifestFails(f: Format, e: Tree, m: Manifest)
    requires RoundTrips(f) && MANIFEST in e && e[MANIFEST] == File(f.encode(m))
    requires m.contentHash != f.digest(m.name, FileHashes(f, e))
    ensures Verify(f, e) == Err
  {
    if Verify(f, e).Ok? {
      VerifyAnswers(f, e, Verify(f, e).value);
    }
  }
}
