/** Which files a package covers, where an archive's members land, and what an extracted
    directory holds.

    Files are looked up by path here, whatever a walk would skip, so the statements name the
    skipped entries themselves. */
module Extraction {
  import opened Common
  import opened Package

  // ---------------------------------------------------------- files, as they stand

  /** What stands at a path, skipped or not. */
  function NodeAt(d: Tree, p: Path): Option<Node>
    decreases |p|
  {
    if p == [] then Some(Dir(d))
    else if p[0] !in d then None
    else if |p| == 1 then Some(d[p[0]])
    else if d[p[0]].Dir? then NodeAt(d[p[0]].entries, p[1..])
    else None
  }

  ghost predicate FileAt(d: Tree, p: Path, b: Bytes) { NodeAt(d, p) == Some(File(b)) }

  ghost predicate IsFile(d: Tree, p: Path) { exists b :: FileAt(d, p, b) }

  ghost predicate IsDir(d: Tree, p: Path) { NodeAt(d, p).Some? && NodeAt(d, p).value.Dir? }

  /** Neither hidden nor a dependency directory. */
  predicate Plain(name: string) {
    !("." <= name) && name !in {"node_modules", "vendor", "venv", "__pycache__"}
  }

  ghost predicate PlainPath(p: Path) { forall i | 0 <= i < |p| :: Plain(p[i]) }

  lemma {:induction false} VisibleIff(d: Tree, p: Path, b: Bytes)
    ensures Visible(d, p) == Some(b) <==> FileAt(d, p, b) && PlainPath(p)
    decreases |p|
  {
    if p != [] {
      assert PlainPath(p) <==> Plain(p[0]) && PlainPath(p[1..]) by {
        PlainCons(p);
      }
      assert Plain(p[0]) <==> !Skip(p[0]);
      if p[0] in d && d[p[0]].Dir? {
        VisibleIff(d[p[0]].entries, p[1..], b);
      } else if |p| == 1 {
        assert PlainPath(p[1..]);
      }
    }
  }

  lemma PlainCons(p: Path)
    requires p != []
    ensures PlainPath(p) <==> Plain(p[0]) && PlainPath(p[1..])
  {
    assert forall i | 0 < i < |p| :: p[i] == p[1..][i - 1];
    assert forall i | 0 <= i < |p[1..]| :: p[1..][i] == p[i + 1];
  }

  /** A package covers exactly the files that are reached through no hidden entry and no
      dependency directory, but for the manifest at its root. */
  lemma CoveredIff(d: Tree, p: Path, b: Bytes)
    ensures p in Covered(d) && Covered(d)[p] == b
            <==> FileAt(d, p, b) && PlainPath(p) && p != ["blueprint.lock.json"]
  {
    PathsAreVisible(d, p);
    if Visible(d, p).Some? {
      VisibleIff(d, p, Visible(d, p).value);
    }
    VisibleIff(d, p, b);
  }

  // ------------------------------------------------------- where a member may land

  /** How far a segment moves from the directory: up for "..", nowhere for "" and ".". */
  function Descent(segment: string): int {
    if segment == ".." then -1 else if segment == "" || segment == "." then 0 else 1
  }

  /** Followed from this depth, some segment leads above the directory. */
  predicate Escapes(segments: seq<string>, depth: int) {
    depth < 0 || (segments != [] && Escapes(segments[1..], depth + Descent(segments[0])))
  }

  ghost predicate Inside(p: Path) { forall i | 0 <= i < |p| :: p[i] !in {"", ".", ".."} && '/' !in p[i] }

  ghost predicate NoSlashes(segments: seq<string>) { forall i | 0 <= i < |segments| :: '/' !in segments[i] }

  lemma {:induction false} StaysOut(parts: seq<string>, done: Path)
    requires done != [] && done[0] == ".."
    ensures CleanParts(parts, done) != [] && CleanParts(parts, done)[0] == ".."
  {
    if parts != [] {
      if parts[0] == "" || parts[0] == "." {
        StaysOut(parts[1..], done);
      } else if parts[0] == ".." && done[|done| - 1] != ".." {
        StaysOut(parts[1..], done[..|done| - 1]);
      } else {
        StaysOut(parts[1..], done + [parts[0]]);
      }
    }
  }

  /** Cleaning keeps what stays inside, and starts with ".." what does not. */
  ghost predicate CleansTo(p: Path, escapes: bool) { if escapes then p != [] && p[0] == ".." else Inside(p) }

  lemma {:induction false} CleanIff(parts: seq<string>, done: Path)
    requires Inside(done) && NoSlashes(parts)
    ensures CleansTo(CleanParts(parts, done), Escapes(parts, |done|))
  {
    if parts != [] {
      var rest := parts[1..];
      if parts[0] == "" || parts[0] == "." {
        CleanIff(rest, done);
      } else if parts[0] == ".." {
        if done != [] {
          CleanIff(rest, done[..|done| - 1]);
        } else {
          StaysOut(rest, [".."]);
          assert [] + [".."] == [".."];
          assert Escapes(rest, 0 + Descent(parts[0]));
        }
      } else {
        CleanIff(rest, done + [parts[0]]);
      }
    }
  }

  lemma {:induction false} SegmentsHaveNoSlash(s: string)
    ensures NoSlashes(SplitSlash(s))
    decreases |s|
  {
    var k := FirstSlash(s);
    if k < |s| {
      SegmentsHaveNoSlash(s[k + 1..]);
    } else {
      assert s[..k] == s;
    }
  }

  /** A member has a destination unless its name is absolute or leads out of the
      directory, and it is then a path inside it. */
  lemma DestinationIff(name: string)
    ensures Destination(name).Some? <==> !("/" <= name) && !Escapes(SplitSlash(name), 0)
    ensures Destination(name).Some? ==> Inside(Destination(name).value)
  {
    SegmentsHaveNoSlash(name);
    CleanIff(SplitSlash(name), []);
    var p := CleanParts(SplitSlash(name), []);
    assert Inside(p) && p != [] ==> p[0] != "..";
  }

  // ------------------------------------------------------------- what a write does

  ghost predicate Under(p: Path, q: Path) { |p| < |q| && q[..|p|] == p }

  /** A file may be written at p: no file stands above it, and no directory at it. */
  ghost predicate Writable(d: Tree, p: Path) {
    p != [] && !IsDir(d, p) && forall q | Under(q, p) :: !IsFile(d, q)
  }

  lemma NodeBelow(d: Tree, k: string, q: Path)
    ensures NodeAt(d, [k] + q)
         == if k !in d then None
            else if q == [] then Some(d[k])
            else if d[k].Dir? then NodeAt(d[k].entries, q) else None
  {
    assert ([k] + q)[1..] == q;
  }

  lemma FileAbove(d: Tree, p: Path)
    requires |p| > 1 && p[0] in d && d[p[0]].File?
    ensures !Writable(d, p)
  {
    assert Under([p[0]], p) && FileAt(d, [p[0]], d[p[0]].bytes);
  }

  lemma WritableBelow(d: Tree, p: Path)
    requires |p| > 1 && (p[0] in d ==> d[p[0]].Dir?)
    ensures Writable(d, p) <==> Writable(if p[0] in d then d[p[0]].entries else map[], p[1..])
  {
    var es: Tree := if p[0] in d then d[p[0]].entries else map[];
    assert p == [p[0]] + p[1..];
    NodeBelow(d, p[0], p[1..]);
    NothingAt(p[1..]);
    forall q | Under(q, p[1..]) ensures Under([p[0]] + q, p) && (IsFile(es, q) ==> IsFile(d, [p[0]] + q)) {
      NodeBelow(d, p[0], q);
      NothingAt(q);
      assert ([p[0]] + q)[..1 + |q|] == p[..1 + |q|];
      if b :| FileAt(es, q, b) {
        assert FileAt(d, [p[0]] + q, b);
      }
    }
    forall q | Under(q, p) && IsFile(d, q) ensures q != [] && Under(q[1..], p[1..]) && IsFile(es, q[1..]) {
      assert q != [] && q[0] == p[0];
      assert q == [q[0]] + q[1..];
      NodeBelow(d, p[0], q[1..]);
      var b :| FileAt(d, q, b);
      assert FileAt(es, q[1..], b);
    }
  }

  lemma NothingAt(q: Path)
    ensures NodeAt(map[], q) == if q == [] then Some(Dir(map[])) else None
  {
  }

  /** What a write leaves at a path: the new file at its own, and elsewhere the files that
      were there. */
  ghost predicate WroteOnly(d: Tree, e: Tree, p: Path, b: Bytes) {
    forall q, x :: FileAt(e, q, x) <==> if q == p then x == b else FileAt(d, q, x)
  }

  lemma WroteBelow(d: Tree, p: Path, b: Bytes, es: Tree)
    requires |p| > 1 && (p[0] in d ==> d[p[0]].Dir?)
    requires WroteOnly(if p[0] in d then d[p[0]].entries else map[], es, p[1..], b)
    ensures WroteOnly(d, d[p[0] := Dir(es)], p, b)
  {
    var e := d[p[0] := Dir(es)];
    var was: Tree := if p[0] in d then d[p[0]].entries else map[];
    forall q, x ensures FileAt(e, q, x) <==> if q == p then x == b else FileAt(d, q, x) {
      if q != [] {
        assert q == [q[0]] + q[1..] && p == [p[0]] + p[1..];
        NodeBelow(e, q[0], q[1..]);
        NodeBelow(d, q[0], q[1..]);
        NothingAt(q[1..]);
        assert FileAt(es, q[1..], x) <==> if q[1..] == p[1..] then x == b else FileAt(was, q[1..], x);
      }
    }
  }

  lemma {:induction false} WriteIff(d: Tree, p: Path, b: Bytes)
    ensures WriteAt(d, p, b).Ok? <==> Writable(d, p)
    ensures WriteAt(d, p, b).Ok? ==> WroteOnly(d, WriteAt(d, p, b).value, p, b)
    decreases |p|
  {
    if |p| == 1 {
      WriteHere(d, p, b);
    } else if |p| > 1 {
      if p[0] in d && d[p[0]].File? {
        FileAbove(d, p);
      } else {
        var es: Tree := if p[0] in d then d[p[0]].entries else map[];
        WriteIff(es, p[1..], b);
        WritableBelow(d, p);
        if WriteAt(es, p[1..], b).Ok? {
          WroteBelow(d, p, b, WriteAt(es, p[1..], b).value);
        }
      }
    }
  }

  lemma WriteHere(d: Tree, p: Path, b: Bytes)
    requires |p| == 1
    ensures WriteAt(d, p, b).Ok? <==> Writable(d, p)
    ensures WriteAt(d, p, b).Ok? ==> WroteOnly(d, WriteAt(d, p, b).value, p, b)
  {
    assert p == [p[0]];
    forall q | Under(q, p) ensures q == [] {}
    if !(p[0] in d && d[p[0]].Dir?) {
      var e := d[p[0] := File(b)];
      forall q, x ensures FileAt(e, q, x) <==> if q == p then x == b else FileAt(d, q, x) {
        if q != [] {
          assert q == [q[0]] + q[1..];
          NodeBelow(e, q[0], q[1..]);
          NodeBelow(d, q[0], q[1..]);
        }
      }
    }
  }

  // ---------------------------------------------------- what an extraction leaves

  /** The i-th member is a file that lands at p. */
  ghost predicate LandsAt(members: seq<Member>, i: int, p: Path) {
    0 <= i < |members| && members[i].regular && Destination(members[i].name) == Some(p)
  }

  /** It is the last that does. */
  ghost predicate LastAt(members: seq<Member>, i: int, p: Path) {
    LandsAt(members, i, p) && forall j | i < j < |members| :: !LandsAt(members, j, p)
  }

  /** A directory holds what the archive's members say: at each path the last file that
      lands there, and nothing else. */
  ghost predicate Holds(members: seq<Member>, e: Tree) {
    forall p, b :: FileAt(e, p, b) <==> exists i :: LastAt(members, i, p) && members[i].bytes == b
  }

  lemma LandsMore(front: seq<Member>, m: Member, p: Path)
    ensures forall j :: (LandsAt(front + [m], j, p)
              <==> LandsAt(front, j, p) || (j == |front| && m.regular && Destination(m.name) == Some(p)))
  {
  }

  lemma LastAtMore(front: seq<Member>, m: Member, i: int, p: Path)
    ensures LastAt(front + [m], i, p)
            <==> if m.regular && Destination(m.name) == Some(p) then i == |front| else LastAt(front, i, p)
  {
    var all := front + [m];
    LandsMore(front, m, p);
    if m.regular && Destination(m.name) == Some(p) {
      assert LandsAt(all, |front|, p);
    }
  }

  lemma HoldsMore(front: seq<Member>, m: Member, d: Tree, e: Tree)
    requires Holds(front, d)
    requires if m.regular then Destination(m.name).Some? && WroteOnly(d, e, Destination(m.name).value, m.bytes)
             else e == d
    ensures Holds(front + [m], e)
  {
    var all := front + [m];
    forall p, b ensures FileAt(e, p, b) <==> exists i :: LastAt(all, i, p) && all[i].bytes == b {
      forall i ensures LastAt(all, i, p)
          <==> if m.regular && Destination(m.name) == Some(p) then i == |front| else LastAt(front, i, p)
      {
        LastAtMore(front, m, i, p);
      }
      if m.regular && Destination(m.name) == Some(p) {
        assert LastAt(all, |front|, p) && all[|front|] == m;
      } else {
        assert FileAt(d, p, b) <==> exists i :: LastAt(front, i, p) && front[i].bytes == b;
        if i :| LastAt(front, i, p) && front[i].bytes == b {
          assert LastAt(all, i, p) && all[i] == front[i];
        }
        if i :| LastAt(all, i, p) && all[i].bytes == b {
          assert LastAt(front, i, p) && all[i] == front[i];
        }
      }
    }
  }

  lemma {:induction false} ExtractionMeans(members: seq<Member>)
    requires Extracted(members, map[]).Ok?
    ensures Holds(members, Extracted(members, map[]).value)
  {
    if members == [] {
      NothingHeld();
    } else {
      var front, m := members[..|members| - 1], members[|members| - 1];
      LastSplits(members);
      ExtractionMeans(front);
      var d := Extracted(front, map[]).value;
      if m.regular {
        WriteIff(d, Destination(m.name).value, m.bytes);
      }
      HoldsMore(front, m, d, Extracted(members, map[]).value);
    }
  }

  lemma NothingHeld()
    ensures Holds([], map[])
  {
    forall p, b ensures !FileAt(map[], p, b) { NothingAt(p); }
    forall p, i ensures !LastAt([], i, p) {}
  }

  // --------------------------------------------------- when an extraction succeeds

  ghost predicate WroteDirs(d: Tree, e: Tree, p: Path) { forall q :: IsDir(e, q) <==> IsDir(d, q) || Under(q, p) }

  lemma UnderCons(k: string, q: Path, p: Path)
    ensures Under([k] + q, [k] + p) <==> Under(q, p)
    ensures Under([k], [k] + p) <==> p != []
  {
    if Under([k] + q, [k] + p) {
      assert ([k] + p)[..1 + |q|] == [k] + p[..|q|];
      assert ([k] + q)[1..] == q && ([k] + p[..|q|])[1..] == p[..|q|];
    }
    if Under(q, p) {
      assert ([k] + p)[..1 + |q|] == [k] + p[..|q|];
    }
  }

  lemma DirsBelow(d: Tree, k: string, es: Tree, p: Path)
    requires p != [] && (k in d ==> d[k].Dir?) && WroteDirs(if k in d then d[k].entries else map[], es, p)
    ensures WroteDirs(d, d[k := Dir(es)], [k] + p)
  {
    var e := d[k := Dir(es)];
    var was: Tree := if k in d then d[k].entries else map[];
    forall q ensures IsDir(e, q) <==> IsDir(d, q) || Under(q, [k] + p) {
      if q != [] {
        assert q == [q[0]] + q[1..];
        NodeBelow(e, q[0], q[1..]);
        NodeBelow(d, q[0], q[1..]);
        NothingAt(q[1..]);
        if q[0] == k {
          UnderCons(k, q[1..], p);
          assert IsDir(es, q[1..]) <==> IsDir(was, q[1..]) || Under(q[1..], p);
        }
      }
    }
  }

  lemma {:induction false} WriteMakesDirs(d: Tree, p: Path, b: Bytes)
    requires WriteAt(d, p, b).Ok?
    ensures WroteDirs(d, WriteAt(d, p, b).value, p)
    decreases |p|
  {
    assert p == [p[0]] + p[1..];
    if |p| == 1 {
      DirsHere(d, p[0], b);
    } else {
      var es: Tree := if p[0] in d then d[p[0]].entries else map[];
      WriteMakesDirs(es, p[1..], b);
      DirsBelow(d, p[0], WriteAt(es, p[1..], b).value, p[1..]);
    }
  }

  lemma DirsHere(d: Tree, k: string, b: Bytes)
    requires k in d ==> d[k].File?
    ensures WroteDirs(d, d[k := File(b)], [k])
  {
    var e := d[k := File(b)];
    forall q ensures IsDir(e, q) <==> IsDir(d, q) || Under(q, [k]) {
      if q != [] {
        assert q == [q[0]] + q[1..];
        NodeBelow(e, q[0], q[1..]);
        NodeBelow(d, q[0], q[1..]);
      }
    }
  }

  ghost predicate Lands(members: seq<Member>, p: Path) { exists i :: LandsAt(members, i, p) }

  ghost predicate LandsUnder(members: seq<Member>, q: Path) { exists p :: Lands(members, p) && Under(q, p) }

  /** Files stand where members landed, and directories above them. */
  ghost predicate Laid(members: seq<Member>, d: Tree) {
    && (forall p :: IsFile(d, p) <==> Lands(members, p))
    && (forall p :: IsDir(d, p) <==> p == [] || LandsUnder(members, p))
  }

  lemma LandsMoreThan(front: seq<Member>, m: Member, p: Path)
    ensures Lands(front + [m], p) <==> Lands(front, p) || (m.regular && Destination(m.name) == Some(p))
  {
    LandsMore(front, m, p);
    if i :| LandsAt(front, i, p) {
      assert LandsAt(front + [m], i, p);
    }
    if m.regular && Destination(m.name) == Some(p) {
      assert LandsAt(front + [m], |front|, p);
    }
  }

  lemma LaidMore(front: seq<Member>, m: Member, d: Tree, e: Tree, p: Path)
    requires Laid(front, d) && m.regular && Destination(m.name) == Some(p)
    requires WroteOnly(d, e, p, m.bytes) && WroteDirs(d, e, p)
    ensures Laid(front + [m], e)
  {
    forall q ensures IsFile(e, q) <==> Lands(front + [m], q) {
      LandsMoreThan(front, m, q);
      WroteFiles(d, e, p, m.bytes, q);
    }
    forall q ensures IsDir(e, q) <==> q == [] || LandsUnder(front + [m], q) {
      LandsUnderMore(front, m, p, q);
    }
  }

  lemma WroteFiles(d: Tree, e: Tree, p: Path, b: Bytes, q: Path)
    requires WroteOnly(d, e, p, b)
    ensures IsFile(e, q) <==> IsFile(d, q) || q == p
  {
    if x :| FileAt(d, q, x) {
      assert FileAt(e, q, if q == p then b else x);
    }
    if q == p {
      assert FileAt(e, q, b);
    }
  }

  lemma LandsUnderMore(front: seq<Member>, m: Member, p: Path, q: Path)
    requires m.regular && Destination(m.name) == Some(p)
    ensures LandsUnder(front + [m], q) <==> LandsUnder(front, q) || Under(q, p)
  {
    forall x ensures Lands(front + [m], x) <==> Lands(front, x) || x == p { LandsMoreThan(front, m, x); }
    if Under(q, p) {
      assert Lands(front + [m], p);
    }
    if x :| Lands(front, x) && Under(q, x) {
      assert Lands(front + [m], x);
    }
  }

  lemma LaidSame(front: seq<Member>, m: Member, d: Tree)
    requires Laid(front, d) && !m.regular
    ensures Laid(front + [m], d)
  {
    forall x ensures Lands(front + [m], x) <==> Lands(front, x) { LandsMoreThan(front, m, x); }
    forall q ensures LandsUnder(front + [m], q) <==> LandsUnder(front, q) {
      if x :| Lands(front, x) && Under(q, x) {
        assert Lands(front + [m], x);
      }
    }
  }

  /** A member has a place among those before it: it stays inside, at a path of its own
      that neither runs through a file already there nor names a directory. */
  ghost predicate HasPlace(before: seq<Member>, m: Member) {
    m.regular ==>
      && Destination(m.name).Some? && Destination(m.name).value != []
      && forall q | Lands(before, q) ::
           !Under(q, Destination(m.name).value) && !Under(Destination(m.name).value, q)
  }

  ghost predicate AllHavePlaces(members: seq<Member>) {
    forall i | 0 <= i < |members| :: HasPlace(members[..i], members[i])
  }

  lemma PlacesMore(front: seq<Member>, m: Member)
    ensures AllHavePlaces(front + [m]) <==> AllHavePlaces(front) && HasPlace(front, m)
  {
    var all := front + [m];
    assert all[..|front|] == front && all[|front|] == m;
    forall i | 0 <= i < |front| ensures HasPlace(all[..i], all[i]) <==> HasPlace(front[..i], front[i]) {
      assert all[..i] == front[..i];
    }
    if AllHavePlaces(all) {
      assert HasPlace(all[..|front|], all[|front|]);
      forall i | 0 <= i < |front| ensures HasPlace(front[..i], front[i]) {
        assert HasPlace(all[..i], all[i]);
      }
    }
  }

  lemma PlaceIsWritable(before: seq<Member>, d: Tree, p: Path)
    requires Laid(before, d)
    ensures Writable(d, p) <==> p != [] && forall q | Lands(before, q) :: !Under(q, p) && !Under(p, q)
  {
    if Writable(d, p) {
      forall q | Lands(before, q) ensures !Under(q, p) && !Under(p, q) {
        assert IsFile(d, q);
        assert Under(p, q) ==> LandsUnder(before, p);
      }
    }
    if p != [] && forall q | Lands(before, q) :: !Under(q, p) && !Under(p, q) {
      assert !LandsUnder(before, p);
    }
  }

  lemma NothingLaid()
    ensures Laid([], map[])
  {
    forall p ensures !IsFile(map[], p) && (IsDir(map[], p) <==> p == []) { NothingAt(p); }
    forall p ensures !Lands([], p) {}
  }

  lemma {:induction false} ExtractionLays(members: seq<Member>)
    ensures Extracted(members, map[]).Ok? <==> AllHavePlaces(members)
    ensures Extracted(members, map[]).Ok? ==> Laid(members, Extracted(members, map[]).value)
  {
    if members == [] {
      NothingLaid();
    } else {
      var front, m := members[..|members| - 1], members[|members| - 1];
      LastSplits(members);
      ExtractionLays(front);
      PlacesMore(front, m);
      if Extracted(front, map[]).Ok? {
        MemberLays(front, m, Extracted(front, map[]).value);
      }
    }
  }

  /** One more member, on what the others left. */
  function Landed(d: Tree, m: Member): Result<Tree> {
    if !m.regular then Ok(d)
    else match Destination(m.name) case None => Err case Some(p) => WriteAt(d, p, m.bytes)
  }

  lemma MemberLays(front: seq<Member>, m: Member, d: Tree)
    requires Laid(front, d)
    ensures Landed(d, m).Ok? <==> HasPlace(front, m)
    ensures Landed(d, m).Ok? ==> Laid(front + [m], Landed(d, m).value)
  {
    if !m.regular {
      LaidSame(front, m, d);
    } else if Destination(m.name).Some? {
      var p := Destination(m.name).value;
      PlaceIsWritable(front, d, p);
      WriteIff(d, p, m.bytes);
      if WriteAt(d, p, m.bytes).Ok? {
        WriteMakesDirs(d, p, m.bytes);
        LaidMore(front, m, d, WriteAt(d, p, m.bytes).value, p);
      }
    }
  }

  /** An archive extracts if and only if every member that is a file stays inside the
      directory and has a place among those before it; the directory then holds, at each
      path, the last file that lands there, and no other file. */
  lemma ExtractionIff(members: seq<Member>)
    ensures Extracted(members, map[]).Ok? <==> AllHavePlaces(members)
    ensures Extracted(members, map[]).Ok? ==> Holds(members, Extracted(members, map[]).value)
  {
    ExtractionLays(members);
    if Extracted(members, map[]).Ok? {
      ExtractionMeans(members);
    }
  }
}
