/** The content-addressed store, filled by concurrent processes step by step. */
module ContentStore {
  import opened Common

  datatype Manifest = Manifest(name: string, files: map<string, string>, contentHash: string)

  /** A blueprint directory: its lock file, the files the hash covers, and what it
      ignores. */
  datatype Content = Content(manifest: Manifest, files: map<string, string>, ignored: map<string, string>)

  /** The digest of a name and a file set, as hexadecimal text.  Only its being nonempty
      is used, except where collision-freeness is stated. */
  type Digest = (string, map<string, string>) -> string

  ghost predicate Usable(d: Digest) { forall n, f :: d(n, f) != [] }

  function ContentHash(d: Digest, name: string, files: map<string, string>): string { "sha256:" + d(name, files) }

  /** Verify: the declared manifest, if the recomputed hash is the declared one. */
  function VerifyDir(d: Digest, c: Content): Option<Manifest> {
    if ContentHash(d, c.manifest.name, c.files) == c.manifest.contentHash then Some(c.manifest) else None
  }

  /** hashHex. */
  function HashHex(hash: string): string {
    if |hash| > 7 && hash[..7] == "sha256:" then hash[7..] else hash
  }

  datatype IndexEntry = IndexEntry(name: string, sources: seq<string>)

  type Index = map<string, IndexEntry>

  /** Where a fetch stands between two steps. */
  datatype Phase =
    | Idle
    | Looking(url: string, want: string)
    | Pulling(url: string)
    | Staged(url: string, content: Content)
    | Verified(url: string, content: Content)
    | Recording(url: string, manifest: Manifest, dir: string)
    | Saving(url: string, manifest: Manifest, dir: string, index: Index)
    | Returned(url: string, manifest: Manifest, dir: string)
    | Failed

  /** resolved is history: which source was seen to resolve to which content hash. */
  datatype State = State(dirs: map<string, Content>, index: Index, procs: map<nat, Phase>,
                         resolved: set<(string, string)>)

  const EMPTY := State(map[], map[], map[], {})

  /** One scheduled step.  The payloads are the adversary's choices. */
  datatype Move =
    | Begin(url: string, want: string)
    | Look
    | Pull(pulled: Option<Content>)
    | Check
    | Rename(renamed: bool)
    | ReadIndex(readable: bool)
    | WriteIndex(written: bool)
    | Crash

  function PhaseOf(s: State, p: nat): Phase { if p in s.procs then s.procs[p] else Idle }

  function At(s: State, p: nat, ph: Phase): State { s.(procs := s.procs[p := ph]) }

  /** recordInIndex's change to the entry of one content hash. */
  function WithSource(index: Index, m: Manifest, source: string): Index {
    var listed := if m.contentHash in index then index[m.contentHash].sources else [];
    index[m.contentHash := IndexEntry(m.name, if source != "" && source !in listed then listed + [source] else listed)]
  }

  /** A fetch found its content: only the index remains to be told. */
  function Found(s: State, p: nat, url: string, m: Manifest): State {
    At(s.(resolved := s.resolved + {(url, m.contentHash)}), p, Recording(url, m, HashHex(m.contentHash)))
  }

  /** What one step does; a step that is not enabled does nothing. */
  function Apply(d: Digest, s: State, p: nat, move: Move): State {
    match (PhaseOf(s, p), move)
    case (Idle, Begin(url, want)) => At(s, p, if want == "" then Pulling(url) else Looking(url, want))
    case (Returned(_, _, _), Begin(url, want)) => At(s, p, if want == "" then Pulling(url) else Looking(url, want))
    case (Failed, Begin(url, want)) => At(s, p, if want == "" then Pulling(url) else Looking(url, want))
    case (Looking(url, want), Look) =>
      var hit := HashHex(want);
      if hit in s.dirs && VerifyDir(d, s.dirs[hit]).Some? && s.dirs[hit].manifest.contentHash == want
      then Found(s, p, url, s.dirs[hit].manifest)
      else At(s, p, Pulling(url))
    case (Pulling(url), Pull(pulled)) => At(s, p, if pulled.Some? then Staged(url, pulled.value) else Failed)
    case (Staged(url, c), Check) => At(s, p, if VerifyDir(d, c).Some? then Verified(url, c) else Failed)
    case (Verified(url, c), Rename(renamed)) =>
      var hex := HashHex(c.manifest.contentHash);
      if hex in s.dirs then Found(s, p, url, c.manifest)
      else if renamed then Found(s.(dirs := s.dirs[hex := c]), p, url, c.manifest)
      else At(s, p, Failed)
    case (Recording(url, m, dir), ReadIndex(readable)) =>
      At(s, p, if readable then Saving(url, m, dir, WithSource(s.index, m, url)) else Returned(url, m, dir))
    case (Saving(url, m, dir, index), WriteIndex(written)) =>
      At(if written then s.(index := index) else s, p, Returned(url, m, dir))
    case (_, Crash) => At(s, p, Failed)
    case _ => s
  }

  /** The state after a schedule. */
  function Play(d: Digest, s: State, schedule: seq<(nat, Move)>): State {
    if schedule == [] then s
    else
      var last := schedule[|schedule| - 1];
      Apply(d, Play(d, s, schedule[..|schedule| - 1]), last.0, last.1)
  }

  // ---------------------------------------------------------------- the invariant

  /** The directory named by a hash holds content that verifies to that hash. */
  ghost predicate Holds(d: Digest, dirs: map<string, Content>, hash: string) {
    var hex := HashHex(hash);
    hex in dirs && VerifyDir(d, dirs[hex]).Some? && dirs[hex].manifest.contentHash == hash
  }

  ghost predicate DirsSound(d: Digest, dirs: map<string, Content>) {
    forall hex | hex in dirs :: VerifyDir(d, dirs[hex]).Some? && HashHex(dirs[hex].manifest.contentHash) == hex
  }

  /** Every source an index lists resolved to that hash. */
  ghost predicate IndexSound(index: Index, resolved: set<(string, string)>) {
    forall h, src | h in index && src in index[h].sources :: (src, h) in resolved
  }

  ghost predicate PhaseSound(d: Digest, s: State, ph: Phase) {
    match ph
    case Verified(_, c) => VerifyDir(d, c).Some?
    case Recording(url, m, dir) => dir == HashHex(m.contentHash) && (url, m.contentHash) in s.resolved
    case Saving(url, m, dir, index) =>
      dir == HashHex(m.contentHash) && (url, m.contentHash) in s.resolved && IndexSound(index, s.resolved)
    case Returned(url, m, dir) => dir == HashHex(m.contentHash) && (url, m.contentHash) in s.resolved
    case _ => true
  }

  ghost predicate Inv(d: Digest, s: State) {
    && DirsSound(d, s.dirs)
    && IndexSound(s.index, s.resolved)
    && (forall r | r in s.resolved :: Holds(d, s.dirs, r.1))
    && (forall p | p in s.procs :: PhaseSound(d, s, s.procs[p]))
  }

  /** Two verified hashes that share a directory are the same hash. */
  lemma HashFromHex(d: Digest, a: Content, b: Content)
    requires Usable(d) && VerifyDir(d, a).Some? && VerifyDir(d, b).Some?
    requires HashHex(a.manifest.contentHash) == HashHex(b.manifest.contentHash)
    ensures a.manifest.contentHash == b.manifest.contentHash
  {
    Prefixed(d(a.manifest.name, a.files));
    Prefixed(d(b.manifest.name, b.files));
  }

  lemma Prefixed(x: string)
    requires x != []
    ensures HashHex("sha256:" + x) == x
  {
    var h := "sha256:" + x;
    assert h[..7] == "sha256:" && h[7..] == x;
  }

  lemma PhasesKept(d: Digest, s: State, s': State, p: nat, ph: Phase)
    requires Inv(d, s) && s'.procs == s.procs[p := ph] && s.resolved <= s'.resolved
    requires PhaseSound(d, s', ph)
    ensures forall q | q in s'.procs :: PhaseSound(d, s', s'.procs[q])
  {
    forall q | q in s'.procs ensures PhaseSound(d, s', s'.procs[q]) {
      if q != p {
        assert PhaseSound(d, s, s.procs[q]);
      }
    }
  }

  lemma FoundKeepsInv(d: Digest, s: State, dirs: map<string, Content>, p: nat, url: string, m: Manifest)
    requires Inv(d, s) && DirsSound(d, dirs) && Holds(d, dirs, m.contentHash)
    requires forall hex | hex in s.dirs :: hex in dirs && dirs[hex] == s.dirs[hex]
    ensures Inv(d, Found(s.(dirs := dirs), p, url, m))
  {
    var s' := Found(s.(dirs := dirs), p, url, m);
    PhasesKept(d, s, s', p, Recording(url, m, HashHex(m.contentHash)));
    forall r | r in s'.resolved ensures Holds(d, s'.dirs, r.1) {
      if r in s.resolved {
        assert Holds(d, s.dirs, r.1);
      }
    }
  }

  lemma MoveKeepsInv(d: Digest, s: State, p: nat, ph: Phase)
    requires Inv(d, s) && PhaseSound(d, s, ph)
    ensures Inv(d, At(s, p, ph))
  {
    PhasesKept(d, s, At(s, p, ph), p, ph);
  }

  lemma RenameKeepsInv(d: Digest, s: State, p: nat, url: string, c: Content, renamed: bool)
    requires Usable(d) && Inv(d, s) && VerifyDir(d, c).Some? && PhaseOf(s, p) == Verified(url, c)
    ensures Inv(d, Apply(d, s, p, Rename(renamed)))
  {
    var hex := HashHex(c.manifest.contentHash);
    if hex in s.dirs {
      HashFromHex(d, s.dirs[hex], c);
      FoundKeepsInv(d, s, s.dirs, p, url, c.manifest);
    } else if renamed {
      FoundKeepsInv(d, s, s.dirs[hex := c], p, url, c.manifest);
    } else {
      MoveKeepsInv(d, s, p, Failed);
    }
  }

  lemma ReadKeepsIndexSound(s: State, m: Manifest, url: string)
    requires IndexSound(s.index, s.resolved) && (url, m.contentHash) in s.resolved
    ensures IndexSound(WithSource(s.index, m, url), s.resolved)
  {
  }

  lemma WriteKeepsInv(d: Digest, s: State, p: nat, ph: Phase, written: bool)
    requires Inv(d, s) && ph.Saving? && PhaseSound(d, s, ph)
    ensures Inv(d, At(if written then s.(index := ph.index) else s, p, Returned(ph.url, ph.manifest, ph.dir)))
  {
    var s1 := if written then s.(index := ph.index) else s;
    assert Inv(d, s1) by {
      forall q | q in s1.procs ensures PhaseSound(d, s1, s1.procs[q]) {
        assert PhaseSound(d, s, s.procs[q]);
      }
    }
    MoveKeepsInv(d, s1, p, Returned(ph.url, ph.manifest, ph.dir));
  }

  /** Every step of every process keeps the invariant. */
  lemma StepKeepsInv(d: Digest, s: State, p: nat, move: Move)
    requires Usable(d) && Inv(d, s)
    ensures Inv(d, Apply(d, s, p, move))
  {
    var ph := PhaseOf(s, p);
    assert PhaseSound(d, s, ph);
    if move.Crash? {
      CrashKeepsInv(d, s, p);
    } else if ph.Verified? && move.Rename? {
      RenameKeepsInv(d, s, p, ph.url, ph.content, move.renamed);
    } else if ph.Recording? && move.ReadIndex? {
      ReadKeepsIndexSound(s, ph.manifest, ph.url);
      var next := if move.readable then Saving(ph.url, ph.manifest, ph.dir, WithSource(s.index, ph.manifest, ph.url))
                  else Returned(ph.url, ph.manifest, ph.dir);
      MoveKeepsInv(d, s, p, next);
    } else if ph.Saving? && move.WriteIndex? {
      WriteKeepsInv(d, s, p, ph, move.written);
    } else if ph.Looking? && move.Look? {
      LookKeepsInv(d, s, p, ph);
    } else {
      QuietStepKeepsInv(d, s, p, move);
    }
  }

  lemma CrashKeepsInv(d: Digest, s: State, p: nat)
    requires Inv(d, s)
    ensures Inv(d, Apply(d, s, p, Crash))
  {
    MoveKeepsInv(d, s, p, Failed);
  }

  lemma LookKeepsInv(d: Digest, s: State, p: nat, ph: Phase)
    requires Inv(d, s) && ph == PhaseOf(s, p) && ph.Looking?
    ensures Inv(d, Apply(d, s, p, Look))
  {
    var hit := HashHex(ph.want);
    if hit in s.dirs && VerifyDir(d, s.dirs[hit]).Some? && s.dirs[hit].manifest.contentHash == ph.want {
      FoundKeepsInv(d, s, s.dirs, p, ph.url, s.dirs[hit].manifest);
    } else {
      MoveKeepsInv(d, s, p, Pulling(ph.url));
    }
  }

  /** The steps that touch nothing shared. */
  lemma QuietStepKeepsInv(d: Digest, s: State, p: nat, move: Move)
    requires Inv(d, s) && !move.Crash?
    requires !(PhaseOf(s, p).Looking? && move.Look?) && !(PhaseOf(s, p).Verified? && move.Rename?)
    requires !(PhaseOf(s, p).Recording? && move.ReadIndex?) && !(PhaseOf(s, p).Saving? && move.WriteIndex?)
    ensures Inv(d, Apply(d, s, p, move))
  {
    var ph := PhaseOf(s, p);
    if Apply(d, s, p, move) != s {
      match move {
        case Begin(url, want) => MoveKeepsInv(d, s, p, if want == "" then Pulling(url) else Looking(url, want));
        case Pull(pulled) => MoveKeepsInv(d, s, p, if pulled.Some? then Staged(ph.url, pulled.value) else Failed);
        case Check =>
          MoveKeepsInv(d, s, p, if VerifyDir(d, ph.content).Some? then Verified(ph.url, ph.content) else Failed);
        case _ =>
      }
    }
  }

  // -------------------------------------------------------------- over whole runs

  /** Safety in every interleaving: whatever is scheduled and whatever is pulled, a
      directory named by a hash only ever holds content that verifies to it, everything
      returned is such a directory, and the index lists only sources that resolved to
      stored content. */
  lemma {:induction false} EveryScheduleIsSafe(d: Digest, schedule: seq<(nat, Move)>)
    requires Usable(d)
    ensures Inv(d, Play(d, EMPTY, schedule))
  {
    if schedule != [] {
      var front, last := schedule[..|schedule| - 1], schedule[|schedule| - 1];
      EveryScheduleIsSafe(d, front);
      StepKeepsInv(d, Play(d, EMPTY, front), last.0, last.1);
    }
  }

  /** What a caller may rely on when a fetch returns: the directory verifies, to exactly
      the hash of the manifest it was handed. */
  lemma ReturnedDirectoryMatchesManifest(d: Digest, schedule: seq<(nat, Move)>, p: nat)
    requires Usable(d) && PhaseOf(Play(d, EMPTY, schedule), p).Returned?
    ensures var s := Play(d, EMPTY, schedule);
            var ph := PhaseOf(s, p);
            && ph.dir in s.dirs && ph.dir == HashHex(ph.manifest.contentHash)
            && VerifyDir(d, s.dirs[ph.dir]).Some?
            && s.dirs[ph.dir].manifest.contentHash == ph.manifest.contentHash
  {
    EveryScheduleIsSafe(d, schedule);
    var s := Play(d, EMPTY, schedule);
    var ph := PhaseOf(s, p);
    assert PhaseSound(d, s, ph);
    assert Holds(d, s.dirs, (ph.url, ph.manifest.contentHash).1);
  }

  /** The index is never wrong: a listed source did resolve to that hash, and the content
      is in the store. */
  lemma IndexedSourcesResolved(d: Digest, schedule: seq<(nat, Move)>, hash: string, source: string)
    requires Usable(d)
    requires var s := Play(d, EMPTY, schedule); hash in s.index && source in s.index[hash].sources
    ensures var s := Play(d, EMPTY, schedule);
            (source, hash) in s.resolved && Holds(d, s.dirs, hash)
  {
    EveryScheduleIsSafe(d, schedule);
    var s := Play(d, EMPTY, schedule);
    assert (source, hash) in s.resolved;
    assert Holds(d, s.dirs, (source, hash).1);
  }

  /** A stored directory is never replaced or removed, so what a fetch returned stays
      what it was through any further schedule. */
  lemma {:induction false} StoreOnlyGrows(d: Digest, s: State, schedule: seq<(nat, Move)>)
    ensures forall hex | hex in s.dirs ::
              hex in Play(d, s, schedule).dirs && Play(d, s, schedule).dirs[hex] == s.dirs[hex]
  {
    if schedule != [] {
      var init, last := schedule[..|schedule| - 1], schedule[|schedule| - 1];
      StoreOnlyGrows(d, s, init);
      StepGrows(d, Play(d, s, init), last.0, last.1);
    }
  }

  lemma StepGrows(d: Digest, s: State, p: nat, move: Move)
    ensures forall hex | hex in s.dirs ::
              hex in Apply(d, s, p, move).dirs && Apply(d, s, p, move).dirs[hex] == s.dirs[hex]
  {
  }

  /** With a digest that does not collide, losing the rename race costs nothing: the
      directory another process put there holds the same name and files. */
  lemma LostRaceIsHarmless(d: Digest, s: State, p: nat, url: string, c: Content)
    requires Usable(d) && Inv(d, s) && PhaseOf(s, p) == Verified(url, c)
    requires forall n, f, n', f' :: d(n, f) == d(n', f') ==> n == n' && f == f'
    requires HashHex(c.manifest.contentHash) in s.dirs
    ensures var kept := s.dirs[HashHex(c.manifest.contentHash)];
            kept.manifest.name == c.manifest.name && kept.files == c.files
  {
    var kept := s.dirs[HashHex(c.manifest.contentHash)];
    assert PhaseSound(d, s, PhaseOf(s, p));
    HashFromHex(d, kept, c);
    var x, y := d(kept.manifest.name, kept.files), d(c.manifest.name, c.files);
    assert x == ("sha256:" + x)[7..] && y == ("sha256:" + y)[7..];
  }

  lemma PlayedTo(d: Digest, s: State, schedule: seq<(nat, Move)>, n: nat)
    requires n < |schedule|
    ensures Play(d, s, schedule[..n + 1]) == Apply(d, Play(d, s, schedule[..n]), schedule[n].0, schedule[n].1)
  {
    assert schedule[..n + 1][..n] == schedule[..n];
  }

  lemma PlayedTwo(d: Digest, s: State, m: seq<(nat, Move)>, n: nat)
    requires n + 1 < |m|
    ensures Play(d, s, m[..n + 2])
         == Apply(d, Apply(d, Play(d, s, m[..n]), m[n].0, m[n].1), m[n + 1].0, m[n + 1].1)
  {
    PlayedTo(d, s, m, n);
    PlayedTo(d, s, m, n + 1);
  }

  /** Both processes have read the index, and neither has written it. */
  lemma BothRead(d: Digest, s: State, a: Phase, b: Phase)
    requires a.Recording? && b.Recording? && PhaseOf(s, 1) == a && PhaseOf(s, 2) == b
    ensures var t := Apply(d, Apply(d, s, 1, ReadIndex(true)), 2, ReadIndex(true));
      && PhaseOf(t, 1) == Saving(a.url, a.manifest, a.dir, WithSource(s.index, a.manifest, a.url))
      && PhaseOf(t, 2) == Saving(b.url, b.manifest, b.dir, WithSource(s.index, b.manifest, b.url))
  {
  }

  lemma LaterWriteWins(d: Digest, t: State, a: Phase, b: Phase, hash: string)
    requires a.Saving? && b.Saving? && PhaseOf(t, 1) == a && PhaseOf(t, 2) == b
    requires hash in a.index && hash !in b.index
    ensures var u := Apply(d, t, 1, WriteIndex(true));
      hash in u.index && hash !in Apply(d, u, 2, WriteIndex(true)).index
  {
  }

  /** Losing entries is real: two fetches that read the index before either writes leave
      only the later one's entry. */
  lemma AnEntryCanBeLost(d: Digest, s: State, a: Phase, b: Phase)
    requires a.Recording? && b.Recording? && PhaseOf(s, 1) == a && PhaseOf(s, 2) == b
    requires a.manifest.contentHash != b.manifest.contentHash
    requires a.manifest.contentHash !in s.index
    ensures var schedule: seq<(nat, Move)> :=
              [(1, ReadIndex(true)), (2, ReadIndex(true)), (1, WriteIndex(true)), (2, WriteIndex(true))];
            && a.manifest.contentHash in Play(d, s, schedule[..3]).index
            && a.manifest.contentHash !in Play(d, s, schedule).index
  {
    var schedule: seq<(nat, Move)> :=
      [(1, ReadIndex(true)), (2, ReadIndex(true)), (1, WriteIndex(true)), (2, WriteIndex(true))];
    Overlapped(d, s, a, b, schedule);
  }

  lemma BothReadIn(d: Digest, s: State, a: Phase, b: Phase, m: seq<(nat, Move)>) returns (t: State)
    requires a.Recording? && b.Recording? && PhaseOf(s, 1) == a && PhaseOf(s, 2) == b
    requires |m| == 4 && m[0] == (1, ReadIndex(true)) && m[1] == (2, ReadIndex(true))
    ensures t == Play(d, s, m[..2])
    ensures PhaseOf(t, 1) == Saving(a.url, a.manifest, a.dir, WithSource(s.index, a.manifest, a.url))
    ensures PhaseOf(t, 2) == Saving(b.url, b.manifest, b.dir, WithSource(s.index, b.manifest, b.url))
  {
    t := Play(d, s, m[..2]);
    PlayedTwo(d, s, m, 0);
    assert m[..0] == [];
    BothRead(d, s, a, b);
  }

  lemma Overlapped(d: Digest, s: State, a: Phase, b: Phase, m: seq<(nat, Move)>)
    requires a.Recording? && b.Recording? && PhaseOf(s, 1) == a && PhaseOf(s, 2) == b
    requires a.manifest.contentHash != b.manifest.contentHash
    requires a.manifest.contentHash !in s.index
    requires |m| == 4 && m[0] == (1, ReadIndex(true)) && m[1] == (2, ReadIndex(true))
    requires m[2] == (1, WriteIndex(true)) && m[3] == (2, WriteIndex(true))
    ensures a.manifest.contentHash in Play(d, s, m[..3]).index && a.manifest.contentHash !in Play(d, s, m).index
  {
    var t := BothReadIn(d, s, a, b, m);
    PlayedTo(d, s, m, 2);
    PlayedTo(d, s, m, 3);
    assert m[..4] == m;
    LaterWriteWins(d, t, PhaseOf(t, 1), PhaseOf(t, 2), a.manifest.contentHash);
  }

  // ------------------------------------------------------------- that a fetch returns

  /** A process that may begin a fetch. */
  predicate Free(ph: Phase) { ph.Idle? || ph.Returned? || ph.Failed? }

  /** The recomputed hash is the declared one. */
  predicate Genuine(d: Digest, c: Content) { c.manifest.contentHash == "sha256:" + d(c.manifest.name, c.files) }

  /** The index lists a source under a content hash once, with the blueprint's name, and is
      otherwise as it was. */
  ghost predicate Lists(before: Index, after: Index, m: Manifest, source: string) {
    && after.Keys == before.Keys + {m.contentHash}
    && (forall k | k in before && k != m.contentHash :: after[k] == before[k])
    && after[m.contentHash].name == m.name
    && var listed := if m.contentHash in before then before[m.contentHash].sources else [];
       after[m.contentHash].sources == if source == "" || source in listed then listed else listed + [source]
  }

  /** Where a process ends that found its content. */
  ghost predicate Ends(s: State, t: State, p: nat, url: string, m: Manifest, hex: string, recorded: bool) {
    && PhaseOf(t, p) == Returned(url, m, hex)
    && (if recorded then Lists(s.index, t.index, m, url) else t.index == s.index)
  }

  lemma HexOfGenuine(d: Digest, c: Content)
    requires Usable(d) && Genuine(d, c)
    ensures HashHex(c.manifest.contentHash) == d(c.manifest.name, c.files)
  {
    var x := d(c.manifest.name, c.files);
    assert ("sha256:" + x)[..7] == "sha256:" && ("sha256:" + x)[7..] == x;
  }

  /** The two steps that tell the index. */
  lemma Recorded(d: Digest, s: State, p: nat, url: string, m: Manifest, hex: string, readable: bool, written: bool)
    requires PhaseOf(s, p) == Recording(url, m, hex)
    ensures var t := Apply(d, Apply(d, s, p, ReadIndex(readable)), p, WriteIndex(written));
      t.dirs == s.dirs && Ends(s, t, p, url, m, hex, readable && written)
  {
  }

  /** The steps of one fetch that asks the registry, undisturbed. */
  function FetchSteps(p: nat, url: string, pulled: Option<Content>, renamed: bool, readable: bool, written: bool)
    : seq<(nat, Move)>
  {
    [(p, Begin(url, "")), (p, Pull(pulled)), (p, Check), (p, Rename(renamed)), (p, ReadIndex(readable)),
     (p, WriteIndex(written))]
  }

  /** The two ends of a fetch from the registry. */
  ghost predicate Fetched(d: Digest, s: State, t: State, p: nat, url: string, pulled: Option<Content>, renamed: bool,
                          recorded: bool)
  {
    if pulled.Some? && Genuine(d, pulled.value)
       && (renamed || d(pulled.value.manifest.name, pulled.value.files) in s.dirs) then
      var c, hex := pulled.value, d(pulled.value.manifest.name, pulled.value.files);
      && Ends(s, t, p, url, c.manifest, hex, recorded)
      && t.dirs == (if hex in s.dirs then s.dirs else s.dirs[hex := c])
    else
      PhaseOf(t, p) == Failed && t.dirs == s.dirs && t.index == s.index
  }

  lemma Settled(d: Digest, s: State, p: nat, readable: bool, written: bool)
    requires PhaseOf(s, p) == Failed
    ensures Apply(d, Apply(d, s, p, ReadIndex(readable)), p, WriteIndex(written)) == s
  {
  }

  /** What a fetch from the registry comes to, in any store and whatever the adversary
      gives.  It returns the pulled directory's manifest and its place in the store if and
      only if something was pulled, its recomputed hash is the declared one, and it could
      be moved in or was there already; the store then holds it, and the index lists the
      source if it could be read and written.  Otherwise it fails and changes nothing. */
  lemma FetchOutcome(d: Digest, s: State, p: nat, url: string, pulled: Option<Content>, renamed: bool, readable: bool,
                     written: bool)
    requires Usable(d) && Free(PhaseOf(s, p))
    ensures Fetched(d, s, Play(d, s, FetchSteps(p, url, pulled, renamed, readable, written)), p, url, pulled, renamed,
                    readable && written)
  {
    var m := FetchSteps(p, url, pulled, renamed, readable, written);
    Played(d, s, p, url, pulled, renamed, readable, written, m);
  }

  lemma Played(d: Digest, s: State, p: nat, url: string, pulled: Option<Content>, renamed: bool, readable: bool,
               written: bool, m: seq<(nat, Move)>)
    requires Usable(d) && Free(PhaseOf(s, p))
    requires |m| == 6 && m[0] == (p, Begin(url, "")) && m[1] == (p, Pull(pulled))
    requires m[2] == (p, Check) && m[3] == (p, Rename(renamed))
    requires m[4] == (p, ReadIndex(readable)) && m[5] == (p, WriteIndex(written))
    ensures Fetched(d, s, Play(d, s, m), p, url, pulled, renamed, readable && written)
  {
    var s4 := FetchedOrFailed(d, s, p, url, pulled, renamed, m);
    PlayedLast(d, s, m, s4);
    Concluded(d, s, s4, p, url, pulled, renamed, readable, written);
  }

  lemma PlayedLast(d: Digest, s: State, m: seq<(nat, Move)>, s4: State)
    requires |m| == 6 && s4 == Play(d, s, m[..4])
    ensures Play(d, s, m) == Apply(d, Apply(d, s4, m[4].0, m[4].1), m[5].0, m[5].1)
  {
    PlayedTwo(d, s, m, 4);
    assert m[..6] == m;
  }

  lemma Concluded(d: Digest, s: State, s4: State, p: nat, url: string, pulled: Option<Content>, renamed: bool,
                  readable: bool, written: bool)
    requires Usable(d) && InOrFailed(d, s, s4, p, url, pulled, renamed)
    ensures Fetched(d, s, Apply(d, Apply(d, s4, p, ReadIndex(readable)), p, WriteIndex(written)), p, url, pulled,
                    renamed, readable && written)
  {
    if PhaseOf(s4, p) == Failed {
      Settled(d, s4, p, readable, written);
    } else {
      var c := pulled.value;
      Recorded(d, s4, p, url, c.manifest, d(c.manifest.name, c.files), readable, written);
    }
  }

  /** Where a pull leaves the store and its process before the index is told. */
  ghost predicate InOrFailed(d: Digest, s: State, t: State, p: nat, url: string, pulled: Option<Content>, renamed: bool)
  {
    && t.index == s.index
    && if pulled.Some? && Genuine(d, pulled.value)
          && (renamed || d(pulled.value.manifest.name, pulled.value.files) in s.dirs) then
         var c, hex := pulled.value, d(pulled.value.manifest.name, pulled.value.files);
         && PhaseOf(t, p) == Recording(url, c.manifest, hex)
         && t.dirs == (if hex in s.dirs then s.dirs else s.dirs[hex := c])
       else PhaseOf(t, p) == Failed && t.dirs == s.dirs
  }

  /** The first four steps. */
  lemma FetchedOrFailed(d: Digest, s: State, p: nat, url: string, pulled: Option<Content>, renamed: bool,
                        m: seq<(nat, Move)>)
    returns (s4: State)
    requires Usable(d) && Free(PhaseOf(s, p))
    requires |m| == 6 && m[0] == (p, Begin(url, "")) && m[1] == (p, Pull(pulled))
    requires m[2] == (p, Check) && m[3] == (p, Rename(renamed))
    ensures s4 == Play(d, s, m[..4]) && InOrFailed(d, s, s4, p, url, pulled, renamed)
  {
    s4 := Play(d, s, m[..4]);
    var s2 := PulledIn(d, s, p, url, pulled, m);
    PlayedTwo(d, s, m, 2);
    Checked(d, s, s2, p, url, pulled, renamed);
  }

  lemma PulledIn(d: Digest, s: State, p: nat, url: string, pulled: Option<Content>, m: seq<(nat, Move)>)
    returns (s2: State)
    requires |m| == 6 && Free(PhaseOf(s, p)) && m[0] == (p, Begin(url, "")) && m[1] == (p, Pull(pulled))
    ensures s2 == Play(d, s, m[..2]) && s2.dirs == s.dirs && s2.index == s.index
    ensures PhaseOf(s2, p) == if pulled.Some? then Staged(url, pulled.value) else Failed
  {
    s2 := Play(d, s, m[..2]);
    PlayedTwo(d, s, m, 0);
    assert m[..0] == [];
    Asked(d, s, p, url, pulled);
  }

  lemma Checked(d: Digest, s: State, s2: State, p: nat, url: string, pulled: Option<Content>, renamed: bool)
    requires Usable(d) && s2.dirs == s.dirs && s2.index == s.index
    requires PhaseOf(s2, p) == if pulled.Some? then Staged(url, pulled.value) else Failed
    ensures InOrFailed(d, s, Apply(d, Apply(d, s2, p, Check), p, Rename(renamed)), p, url, pulled, renamed)
  {
    if pulled.Some? {
      CheckedIn(d, s2, p, url, pulled.value, renamed);
    } else {
      assert Apply(d, s2, p, Check) == s2;
    }
  }

  /** The pull gives a directory to check, or none. */
  lemma Asked(d: Digest, s: State, p: nat, url: string, pulled: Option<Content>)
    requires Free(PhaseOf(s, p))
    ensures var t := Apply(d, Apply(d, s, p, Begin(url, "")), p, Pull(pulled));
      t.dirs == s.dirs && t.index == s.index
      && PhaseOf(t, p) == if pulled.Some? then Staged(url, pulled.value) else Failed
  {
  }

  /** A pulled directory enters the store exactly when it is genuine and there is room. */
  lemma CheckedIn(d: Digest, s: State, p: nat, url: string, c: Content, renamed: bool)
    requires Usable(d) && PhaseOf(s, p) == Staged(url, c)
    ensures var t := Apply(d, Apply(d, s, p, Check), p, Rename(renamed));
      var hex := d(c.manifest.name, c.files);
      && t.index == s.index
      && if Genuine(d, c) && (renamed || hex in s.dirs) then
           && PhaseOf(t, p) == Recording(url, c.manifest, hex)
           && t.dirs == (if hex in s.dirs then s.dirs else s.dirs[hex := c])
         else PhaseOf(t, p) == Failed && t.dirs == s.dirs
  {
    if Genuine(d, c) {
      HexOfGenuine(d, c);
    }
  }

  /** A fetch that knows which content it wants. */
  function LookupSteps(p: nat, url: string, want: string, readable: bool, written: bool): seq<(nat, Move)> {
    [(p, Begin(url, want)), (p, Look), (p, ReadIndex(readable)), (p, WriteIndex(written))]
  }

  /** The store holds a wanted content, genuine and under its own hash. */
  ghost predicate InStore(d: Digest, s: State, want: string) {
    && |want| > 7 && want[..7] == "sha256:" && want[7..] in s.dirs
    && Genuine(d, s.dirs[want[7..]]) && s.dirs[want[7..]].manifest.contentHash == want
  }

  lemma OnlyPrefixedIsGenuine(d: Digest, c: Content)
    requires Usable(d) && Genuine(d, c)
    ensures |c.manifest.contentHash| > 7 && c.manifest.contentHash[..7] == "sha256:"
  {
  }

  /** The look into the store. */
  lemma Looked(d: Digest, s: State, p: nat, url: string, want: string)
    requires Usable(d) && want != "" && Free(PhaseOf(s, p))
    ensures var t := Apply(d, Apply(d, s, p, Begin(url, want)), p, Look);
      && t.dirs == s.dirs && t.index == s.index
      && PhaseOf(t, p) == if InStore(d, s, want) then Recording(url, s.dirs[want[7..]].manifest, want[7..])
                          else Pulling(url)
  {
    var hit := HashHex(want);
    if hit in s.dirs && Genuine(d, s.dirs[hit]) {
      OnlyPrefixedIsGenuine(d, s.dirs[hit]);
    }
  }

  /** What a fetch of known content comes to: it is returned from the store without a pull
      if and only if the store holds it, and otherwise the registry is asked. */
  lemma LookupOutcome(d: Digest, s: State, p: nat, url: string, want: string, readable: bool, written: bool)
    requires Usable(d) && want != "" && Free(PhaseOf(s, p))
    ensures var m := LookupSteps(p, url, want, readable, written);
      var t := Play(d, s, m);
      && t.dirs == s.dirs
      && if InStore(d, s, want) then
           Ends(s, t, p, url, s.dirs[want[7..]].manifest, want[7..], readable && written)
         else PhaseOf(Play(d, s, m[..2]), p) == Pulling(url) && t.index == s.index
  {
    var m := LookupSteps(p, url, want, readable, written);
    Looked(d, s, p, url, want);
    PlayedTwo(d, s, m, 0);
    PlayedTwo(d, s, m, 2);
    assert m[..0] == [] && m[..4] == m;
    var s2 := Play(d, s, m[..2]);
    if InStore(d, s, want) {
      Recorded(d, s2, p, url, s.dirs[want[7..]].manifest, want[7..], readable, written);
    } else {
      StillPulling(d, s2, p, url, readable, written);
    }
  }

  lemma StillPulling(d: Digest, s: State, p: nat, url: string, readable: bool, written: bool)
    requires PhaseOf(s, p) == Pulling(url)
    ensures Apply(d, Apply(d, s, p, ReadIndex(readable)), p, WriteIndex(written)) == s
  {
  }
}
