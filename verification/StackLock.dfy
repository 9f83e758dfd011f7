/** The stack lock: what each blueprint resolved to, and what the four modes do with it. */
module StackLock {
  import opened Common

  datatype Entry = Entry(source: string, hash: string)

  type Stacks = map<string, map<string, Entry>>

  /** .ubx/blueprints.lock on disk.  Unreadable covers a file that does not parse or
      declares another schema version. */
  datatype LockFile = Absent | Unreadable | Present(stacks: Stacks)

  datatype Mode = Off | Verify | Write | Update

  /** One declaration: a blueprint name and the source it is declared under. */
  datatype Dep = Dep(name: string, url: string)

  /** What pulling and verifying one declaration found: the blueprint's own name and its
      content hash.  Nothing is assumed about either. */
  datatype Fetched = Fetched(name: string, hash: string)

  /** One invocation.  answers holds, per declaration, what the registry or the store
      produced, or None when the pull or its verification failed.  A declared blueprint
      must carry the declared name; a called one is adopted under its own.  A document
      without calls never gets as far as an invocation. */
  datatype Invocation = Invocation(mode: Mode, stack: string, deps: seq<Dep>, answers: seq<Option<Fetched>>,
                                   requireName: bool) {
    predicate Valid() { |answers| == |deps| }

    predicate Writes() { mode.Write? || mode.Update? }

    function Declares(): set<string> { set d | d in deps :: d.name }
  }

  function Lookup(stacks: Stacks, stack: string, name: string): Option<Entry> {
    if stack in stacks && name in stacks[stack] then Some(stacks[stack][name]) else None
  }

  function Entries(stacks: Stacks, stack: string): map<string, Entry> {
    if stack in stacks then stacks[stack] else map[]
  }

  function WithEntry(stacks: Stacks, stack: string, name: string, e: Entry): Stacks {
    stacks[stack := Entries(stacks, stack)[name := e]]
  }

  function Pruned(stacks: Stacks, stack: string, declared: set<string>): Stacks {
    if stack !in stacks then stacks
    else
      var kept := map n | n in stacks[stack] && n in declared :: stacks[stack][n];
      if kept == map[] then stacks - {stack} else stacks[stack := kept]
  }

  /** CheckLocked: neither the declared source nor the content moved. */
  predicate Agrees(locked: Entry, url: string, hash: string) { locked.source == url && locked.hash == hash }

  datatype Step = Step(stacks: Stacks, hashes: seq<string>)

  /** One turn of the resolution loop: fetch, check the name, apply the lock policy. */
  function ResolveOne(inv: Invocation, existed: bool, stacks: Stacks, dep: Dep,
                      answer: Option<Fetched>): Result<(Stacks, string)> {
    if answer.None? || (inv.requireName && answer.value.name != dep.name) then Err
    else
      var hash := answer.value.hash;
      var locked := Lookup(stacks, inv.stack, dep.name);
      match inv.mode
      case Off => Ok((stacks, hash))
      case Update => Ok((WithEntry(stacks, inv.stack, dep.name, Entry(dep.url, hash)), hash))
      case _ =>
        if !existed && inv.mode.Verify? then Ok((stacks, hash))
        else if locked.Some? then
          if Agrees(locked.value, dep.url, hash) then Ok((stacks, hash)) else Err
        else if inv.mode.Write? then Ok((WithEntry(stacks, inv.stack, dep.name, Entry(dep.url, hash)), hash))
        else Err
  }

  /** The loop over the first n declarations. */
  function ResolveMany(inv: Invocation, existed: bool, stacks: Stacks, n: nat): Result<Step>
    requires inv.Valid() && n <= |inv.deps|
  {
    if n == 0 then Ok(Step(stacks, []))
    else
      match ResolveMany(inv, existed, stacks, n - 1)
      case Err => Err
      case Ok(s) =>
        match ResolveOne(inv, existed, s.stacks, inv.deps[n - 1], inv.answers[n - 1])
        case Err => Err
        case Ok((stacks', hash)) => Ok(Step(stacks', s.hashes + [hash]))
  }

  function Load(mode: Mode, file: LockFile): Result<(bool, Stacks)> {
    if mode.Off? then Ok((false, map[]))
    else
      match file
      case Absent => Ok((false, map[]))
      case Unreadable => Err
      case Present(stacks) => Ok((true, stacks))
  }

  /** A whole invocation: the file it leaves and the hashes it resolved. */
  function Run(inv: Invocation, file: LockFile): (LockFile, Result<seq<string>>)
    requires inv.Valid()
  {
    match Load(inv.mode, file)
    case Err => (file, Err)
    case Ok((existed, stacks)) =>
      match ResolveMany(inv, existed, stacks, |inv.deps|)
      case Err => (file, Err)
      case Ok(s) =>
        (if inv.Writes() then Present(Pruned(s.stacks, inv.stack, inv.Declares())) else file, Ok(s.hashes))
  }

  // ----------------------------------------------------------- what a run records

  /** The last of the first n declarations of a name. */
  ghost predicate LastOf(deps: seq<Dep>, n: nat, name: string, i: nat) {
    i < n <= |deps| && deps[i].name == name && forall k | i < k < n :: deps[k].name != name
  }

  lemma {:induction false} LastExists(deps: seq<Dep>, n: nat, name: string) returns (i: nat)
    requires n <= |deps| && exists k :: 0 <= k < n && deps[k].name == name
    ensures LastOf(deps, n, name, i)
  {
    if deps[n - 1].name == name {
      i := n - 1;
    } else {
      i := LastExists(deps, n - 1, name);
    }
  }

  /** After n declarations of a writing run, each declared name is on record with its
      last declaration; everything else is as it was. */
  ghost predicate Recorded(inv: Invocation, before: Stacks, s: Step, n: nat)
    requires n <= |inv.deps|
  {
    && |s.hashes| == n
    && (forall name, i: nat | LastOf(inv.deps, n, name, i) ::
          Lookup(s.stacks, inv.stack, name) == Some(Entry(inv.deps[i].url, s.hashes[i])))
    && (forall name | forall k | 0 <= k < n :: inv.deps[k].name != name ::
          Lookup(s.stacks, inv.stack, name) == Lookup(before, inv.stack, name))
    && (forall stack, name | stack != inv.stack :: Lookup(s.stacks, stack, name) == Lookup(before, stack, name))
  }

  lemma {:induction false} LoopRecords(inv: Invocation, existed: bool, before: Stacks, n: nat)
    requires inv.Valid() && inv.Writes() && n <= |inv.deps| && ResolveMany(inv, existed, before, n).Ok?
    ensures Recorded(inv, before, ResolveMany(inv, existed, before, n).value, n)
  {
    if n > 0 {
      LoopRecords(inv, existed, before, n - 1);
      var s0 := ResolveMany(inv, existed, before, n - 1).value;
      var s := ResolveMany(inv, existed, before, n).value;
      var dep := inv.deps[n - 1];
      var hash := ResolveOne(inv, existed, s0.stacks, dep, inv.answers[n - 1]).value.1;
      forall stack, name
        ensures Lookup(s.stacks, stack, name) ==
                if stack == inv.stack && name == dep.name then Some(Entry(dep.url, hash))
                else Lookup(s0.stacks, stack, name)
      {
      }
      TurnExtends(inv, before, s0, s, n, hash);
    }
  }

  lemma TurnExtends(inv: Invocation, before: Stacks, s0: Step, s: Step, n: nat, hash: string)
    requires 0 < n <= |inv.deps| && Recorded(inv, before, s0, n - 1) && s.hashes == s0.hashes + [hash]
    requires forall stack, name :: Lookup(s.stacks, stack, name) ==
               if stack == inv.stack && name == inv.deps[n - 1].name then Some(Entry(inv.deps[n - 1].url, hash))
               else Lookup(s0.stacks, stack, name)
    ensures Recorded(inv, before, s, n)
  {
    forall name, i: nat | LastOf(inv.deps, n, name, i)
      ensures Lookup(s.stacks, inv.stack, name) == Some(Entry(inv.deps[i].url, s.hashes[i]))
    {
      if i < n - 1 {
        assert LastOf(inv.deps, n - 1, name, i);
      }
    }
    forall name | forall k | 0 <= k < n :: inv.deps[k].name != name
      ensures Lookup(s.stacks, inv.stack, name) == Lookup(before, inv.stack, name)
    {
      assert inv.deps[n - 1].name != name;
    }
  }

  lemma PrunedLookup(stacks: Stacks, stack: string, declared: set<string>, other: string, name: string)
    ensures Lookup(Pruned(stacks, stack, declared), other, name) ==
            if other == stack && name !in declared then None else Lookup(stacks, other, name)
  {
    if stack in stacks {
      var kept := map n | n in stacks[stack] && n in declared :: stacks[stack][n];
      if other == stack && name in stacks[stack] && name in declared {
        assert name in kept;
      }
    }
  }

  /** A stack is left only with something in it. */
  lemma PrunedKeepsStack(stacks: Stacks, stack: string, declared: set<string>)
    ensures stack in Pruned(stacks, stack, declared) <==> exists n :: n in declared && Lookup(stacks, stack, n).Some?
  {
    if stack in stacks {
      var kept := map n | n in stacks[stack] && n in declared :: stacks[stack][n];
      if n :| n in declared && Lookup(stacks, stack, n).Some? {
        assert n in kept;
      }
      if kept != map[] {
        var n :| n in kept;
        assert n in declared && Lookup(stacks, stack, n).Some?;
      }
    }
  }

  /** A successful write or update leaves, for its stack, exactly the declared names,
      each with its last declaration's source and the hash that resolved; every entry of
      every other stack is untouched. */
  lemma WriteRecordsExactlyTheDeclared(inv: Invocation, file: LockFile)
    requires inv.Valid() && inv.Writes() && Run(inv, file).1.Ok?
    ensures var (file', r) := Run(inv, file);
            && file'.Present? && |r.value| == |inv.deps|
            && (inv.stack in file'.stacks <==> inv.deps != [])
            && (forall name :: Lookup(file'.stacks, inv.stack, name).Some? <==> name in inv.Declares())
            && (forall name, i: nat | LastOf(inv.deps, |inv.deps|, name, i) ::
                  Lookup(file'.stacks, inv.stack, name) == Some(Entry(inv.deps[i].url, r.value[i])))
            && (forall stack, name | stack != inv.stack ::
                  Lookup(file'.stacks, stack, name) == if file.Present? then Lookup(file.stacks, stack, name) else None)
  {
    var (existed, before) := Load(inv.mode, file).value;
    var s := ResolveMany(inv, existed, before, |inv.deps|).value;
    LoopRecords(inv, existed, before, |inv.deps|);
    var file' := Run(inv, file).0;
    forall stack, name
      ensures Lookup(file'.stacks, stack, name) ==
              if stack == inv.stack && name !in inv.Declares() then None else Lookup(s.stacks, stack, name)
    {
      PrunedLookup(s.stacks, inv.stack, inv.Declares(), stack, name);
    }
    PrunedKeepsStack(s.stacks, inv.stack, inv.Declares());
    if inv.deps != [] {
      var last := LastExists(inv.deps, |inv.deps|, inv.deps[0].name);
      assert inv.deps[0] in inv.deps;
    }
    forall name | name in inv.Declares() ensures Lookup(file'.stacks, inv.stack, name).Some? {
      var d :| d in inv.deps && d.name == name;
      var k :| 0 <= k < |inv.deps| && inv.deps[k] == d;
      var i := LastExists(inv.deps, |inv.deps|, name);
    }
    forall name, i: nat | LastOf(inv.deps, |inv.deps|, name, i)
      ensures Lookup(file'.stacks, inv.stack, name) == Some(Entry(inv.deps[i].url, s.hashes[i]))
    {
      assert inv.deps[i] in inv.deps;
    }
  }

  // ------------------------------------------------------------- what a run refuses

  /** A declaration was pulled and verified, and is the blueprint it says it is where that
      is asked. */
  predicate Answered(inv: Invocation, i: nat)
    requires inv.Valid() && i < |inv.deps|
  {
    inv.answers[i].Some? && (inv.requireName ==> inv.answers[i].value.name == inv.deps[i].name)
  }

  /** What a declaration would be recorded as. */
  function Wanted(inv: Invocation, i: nat): Entry
    requires inv.Valid() && i < |inv.deps| && Answered(inv, i)
  {
    Entry(inv.deps[i].url, inv.answers[i].value.hash)
  }

  ghost predicate AllAnswered(inv: Invocation, n: nat)
    requires inv.Valid() && n <= |inv.deps|
  {
    forall i | 0 <= i < n :: Answered(inv, i)
  }

  /** Every declaration is on record as it was found. */
  ghost predicate AllLocked(inv: Invocation, stacks: Stacks, n: nat)
    requires inv.Valid() && n <= |inv.deps|
  {
    forall i | 0 <= i < n :: Answered(inv, i) && Lookup(stacks, inv.stack, inv.deps[i].name) == Some(Wanted(inv, i))
  }

  /** Every declaration is on record as it was found or not at all, and two declarations of
      one name were found alike. */
  ghost predicate AllConsistent(inv: Invocation, stacks: Stacks, n: nat)
    requires inv.Valid() && n <= |inv.deps|
  {
    && AllAnswered(inv, n)
    && (forall i | 0 <= i < n ::
          var locked := Lookup(stacks, inv.stack, inv.deps[i].name); locked.Some? ==> locked.value == Wanted(inv, i))
    && (forall i, j | 0 <= i < j < n && inv.deps[i].name == inv.deps[j].name :: Wanted(inv, i) == Wanted(inv, j))
  }

  lemma {:induction false} CheckedLoop(inv: Invocation, stacks: Stacks, n: nat)
    requires inv.Valid() && n <= |inv.deps| && inv.mode.Verify?
    ensures ResolveMany(inv, true, stacks, n).Ok? <==> AllLocked(inv, stacks, n)
    ensures ResolveMany(inv, true, stacks, n).Ok? ==> ResolveMany(inv, true, stacks, n).value.stacks == stacks
  {
    if n > 0 {
      CheckedLoop(inv, stacks, n - 1);
    }
  }

  lemma {:induction false} UncheckedLoop(inv: Invocation, existed: bool, stacks: Stacks, n: nat)
    requires inv.Valid() && n <= |inv.deps|
    requires inv.mode.Off? || inv.mode.Update? || (inv.mode.Verify? && !existed)
    ensures ResolveMany(inv, existed, stacks, n).Ok? <==> AllAnswered(inv, n)
  {
    if n > 0 {
      UncheckedLoop(inv, existed, stacks, n - 1);
      assert AllAnswered(inv, n) <==> AllAnswered(inv, n - 1) && Answered(inv, n - 1);
    }
  }

  /** What is on record after n declarations of a write: what was, and what was declared. */
  ghost predicate WrittenTo(inv: Invocation, before: Stacks, now: Stacks, n: nat)
    requires inv.Valid() && n <= |inv.deps| && AllAnswered(inv, n)
  {
    && (forall i | 0 <= i < n :: Lookup(now, inv.stack, inv.deps[i].name) == Some(Wanted(inv, i)))
    && (forall name | (forall i | 0 <= i < n :: inv.deps[i].name != name) ::
          Lookup(now, inv.stack, name) == Lookup(before, inv.stack, name))
  }

  /** How n declarations of a write end. */
  ghost predicate WroteSo(inv: Invocation, before: Stacks, r: Result<Step>, n: nat)
    requires inv.Valid() && n <= |inv.deps|
  {
    && (r.Ok? <==> AllConsistent(inv, before, n))
    && (r.Ok? ==> WrittenTo(inv, before, r.value.stacks, n))
  }

  lemma {:induction false} WriteLoop(inv: Invocation, existed: bool, stacks: Stacks, n: nat)
    requires inv.Valid() && n <= |inv.deps| && inv.mode.Write?
    ensures WroteSo(inv, stacks, ResolveMany(inv, existed, stacks, n), n)
  {
    if n > 0 {
      WriteLoop(inv, existed, stacks, n - 1);
      if ResolveMany(inv, existed, stacks, n - 1).Ok? {
        WriteTurn(inv, existed, stacks, ResolveMany(inv, existed, stacks, n - 1).value.stacks, n);
        TurnOf(inv, existed, stacks, n);
      } else if AllConsistent(inv, stacks, n) {
        ConsistentShorter(inv, stacks, n);
      }
    }
  }

  lemma ConsistentShorter(inv: Invocation, stacks: Stacks, n: nat)
    requires inv.Valid() && 0 < n <= |inv.deps| && AllConsistent(inv, stacks, n)
    ensures AllConsistent(inv, stacks, n - 1)
  {
  }

  lemma TurnOf(inv: Invocation, existed: bool, stacks: Stacks, n: nat)
    requires inv.Valid() && 0 < n <= |inv.deps| && ResolveMany(inv, existed, stacks, n - 1).Ok?
    ensures var now := ResolveMany(inv, existed, stacks, n - 1).value.stacks;
      var r := ResolveOne(inv, existed, now, inv.deps[n - 1], inv.answers[n - 1]);
      && (ResolveMany(inv, existed, stacks, n).Ok? <==> r.Ok?)
      && (r.Ok? ==> ResolveMany(inv, existed, stacks, n).value.stacks == r.value.0)
  {
  }

  lemma WriteTurn(inv: Invocation, existed: bool, before: Stacks, now: Stacks, n: nat)
    requires inv.Valid() && 0 < n <= |inv.deps| && inv.mode.Write?
    requires AllConsistent(inv, before, n - 1) && WrittenTo(inv, before, now, n - 1)
    ensures var r := ResolveOne(inv, existed, now, inv.deps[n - 1], inv.answers[n - 1]);
      && (r.Ok? <==> AllConsistent(inv, before, n))
      && (r.Ok? ==> WrittenTo(inv, before, r.value.0, n))
  {
    var name := inv.deps[n - 1].name;
    if Answered(inv, n - 1) {
      LockedThen(inv, before, now, n);
    }
  }

  /** Whether the n-th declaration finds its name locked, and as what. */
  lemma LockedThen(inv: Invocation, before: Stacks, now: Stacks, n: nat)
    requires inv.Valid() && 0 < n <= |inv.deps| && Answered(inv, n - 1)
    requires AllConsistent(inv, before, n - 1) && WrittenTo(inv, before, now, n - 1)
    ensures var locked := Lookup(now, inv.stack, inv.deps[n - 1].name);
      (locked.Some? ==> locked.value == Wanted(inv, n - 1)) <==> AllConsistent(inv, before, n)
  {
    var name := inv.deps[n - 1].name;
    if i :| 0 <= i < n - 1 && inv.deps[i].name == name {
      assert Lookup(now, inv.stack, inv.deps[i].name) == Some(Wanted(inv, i));
    }
  }

  /** Everything was pulled, and is the blueprint asked for where one is. */
  ghost predicate Pulled(inv: Invocation)
    requires inv.Valid()
  {
    forall i | 0 <= i < |inv.deps| ::
      inv.answers[i].Some? && (inv.requireName ==> inv.answers[i].value.name == inv.deps[i].name)
  }

  lemma PulledMeans(inv: Invocation)
    requires inv.Valid()
    ensures Pulled(inv) <==> AllAnswered(inv, |inv.deps|)
  {
    if AllAnswered(inv, |inv.deps|) {
      forall i | 0 <= i < |inv.deps|
        ensures inv.answers[i].Some? && (inv.requireName ==> inv.answers[i].value.name == inv.deps[i].name)
      {
        assert Answered(inv, i);
      }
    }
  }

  /** A checking run against a lock succeeds if and only if every declaration was pulled,
      is the blueprint asked for, and is locked at that very source and content.  A name
      the lock does not hold is refused. */
  lemma VerifyRunSucceedsIff(inv: Invocation, stacks: Stacks)
    requires inv.Valid() && inv.mode.Verify?
    ensures Run(inv, Present(stacks)).1.Ok?
            <==> Pulled(inv)
                 && forall i | 0 <= i < |inv.deps| ::
                      Lookup(stacks, inv.stack, inv.deps[i].name)
                      == Some(Entry(inv.deps[i].url, inv.answers[i].value.hash))
    ensures Run(inv, Present(stacks)).0 == Present(stacks)
  {
    CheckedLoop(inv, stacks, |inv.deps|);
    PulledMeans(inv);
    if AllLocked(inv, stacks, |inv.deps|) {
      forall i | 0 <= i < |inv.deps|
        ensures Lookup(stacks, inv.stack, inv.deps[i].name)
                == Some(Entry(inv.deps[i].url, inv.answers[i].value.hash))
      {
        assert Answered(inv, i);
      }
    }
  }

  /** The two declarations were found at one source with one content. */
  predicate Alike(inv: Invocation, i: nat, j: nat)
    requires inv.Valid() && i < |inv.deps| && j < |inv.deps|
  {
    && inv.answers[i].Some? && inv.answers[j].Some? && inv.deps[i].url == inv.deps[j].url
    && inv.answers[i].value.hash == inv.answers[j].value.hash
  }

  /** A writing run succeeds if and only if every declaration was pulled, is the blueprint
      asked for, and agrees with the lock where it is locked, and declarations of one name
      agree with each other.  On failure the file is as it was. */
  lemma WriteRunSucceedsIff(inv: Invocation, file: LockFile)
    requires inv.Valid() && inv.mode.Write? && !file.Unreadable?
    ensures Run(inv, file).1.Ok?
            <==> && Pulled(inv)
                 && (forall i | 0 <= i < |inv.deps| && file.Present? ::
                       var locked := Lookup(file.stacks, inv.stack, inv.deps[i].name);
                       locked == None || locked == Some(Entry(inv.deps[i].url, inv.answers[i].value.hash)))
                 && (forall i, j | 0 <= i < j < |inv.deps| && inv.deps[i].name == inv.deps[j].name :: Alike(inv, i, j))
    ensures Run(inv, file).1.Err? ==> Run(inv, file).0 == file
  {
    var stacks := if file.Present? then file.stacks else map[];
    WriteLoop(inv, file.Present?, stacks, |inv.deps|);
    PulledMeans(inv);
    if Pulled(inv) {
      ConsistentMeans(inv, file, stacks);
    }
  }

  lemma ConsistentMeans(inv: Invocation, file: LockFile, stacks: Stacks)
    requires inv.Valid() && Pulled(inv) && AllAnswered(inv, |inv.deps|)
    requires stacks == if file.Present? then file.stacks else map[]
    ensures AllConsistent(inv, stacks, |inv.deps|)
            <==> && (forall i | 0 <= i < |inv.deps| && file.Present? ::
                       var locked := Lookup(file.stacks, inv.stack, inv.deps[i].name);
                       locked == None || locked == Some(Entry(inv.deps[i].url, inv.answers[i].value.hash)))
                 && (forall i, j | 0 <= i < j < |inv.deps| && inv.deps[i].name == inv.deps[j].name :: Alike(inv, i, j))
  {
    forall i, j | 0 <= i < j < |inv.deps| ensures Alike(inv, i, j) <==> Wanted(inv, i) == Wanted(inv, j) {
      assert Answered(inv, i) && Answered(inv, j);
    }
    forall i | 0 <= i < |inv.deps|
      ensures Answered(inv, i) && Wanted(inv, i) == Entry(inv.deps[i].url, inv.answers[i].value.hash)
    {
    }
  }

  /** Other runs check only what was pulled: an update, a run without the lock, and a
      checking run of a stack that has none. */
  lemma UncheckedRunSucceedsIff(inv: Invocation, file: LockFile)
    requires inv.Valid()
    requires inv.mode.Off? || (inv.mode.Update? && !file.Unreadable?) || (inv.mode.Verify? && file.Absent?)
    ensures Run(inv, file).1.Ok? <==> Pulled(inv)
    ensures Run(inv, file).1.Err? || !inv.mode.Update? ==> Run(inv, file).0 == file
  {
    var (existed, stacks) := Load(inv.mode, file).value;
    UncheckedLoop(inv, existed, stacks, |inv.deps|);
    PulledMeans(inv);
  }

  /** A lock file that cannot be read stops every run that needs it, and is left alone. */
  lemma UnreadableLockStops(inv: Invocation)
    requires inv.Valid() && !inv.mode.Off?
    ensures Run(inv, Unreadable) == (Unreadable, Err)
  {
  }

  // -------------------------------------------------------------- pins over history

  /** The file pins a blueprint of a stack to an entry. */
  ghost predicate Pins(file: LockFile, stack: string, name: string, e: Entry) {
    file.Present? && Lookup(file.stacks, stack, name) == Some(e)
  }

  /** If the run is of this stack and writes, it is an ordinary write that still declares
      the name.  Any other run is unrestricted. */
  ghost predicate KeepsDeclaring(inv: Invocation, stack: string, name: string) {
    inv.stack == stack && inv.Writes() ==> inv.mode.Write? && name in inv.Declares()
  }

  /** Wherever a checked run of this stack declares the name, it does so under the pinned
      source and resolves it to the pinned content. */
  ghost predicate Honours(inv: Invocation, r: Result<seq<string>>, stack: string, name: string, e: Entry) {
    r.Ok? && inv.stack == stack && (inv.mode.Verify? || inv.mode.Write?) ==>
      && |r.value| == |inv.deps|
      && forall i | 0 <= i < |inv.deps| && inv.deps[i].name == name ::
           inv.deps[i].url == e.source && r.value[i] == e.hash
  }

  lemma {:induction false} LoopHonoursPin(inv: Invocation, stacks: Stacks, n: nat, name: string, e: Entry)
    requires inv.Valid() && n <= |inv.deps| && (inv.mode.Verify? || inv.mode.Write?)
    requires Lookup(stacks, inv.stack, name) == Some(e) && ResolveMany(inv, true, stacks, n).Ok?
    ensures var s := ResolveMany(inv, true, stacks, n).value;
            && Lookup(s.stacks, inv.stack, name) == Some(e) && |s.hashes| == n
            && forall i | 0 <= i < n && inv.deps[i].name == name :: inv.deps[i].url == e.source && s.hashes[i] == e.hash
  {
    if n > 0 {
      LoopHonoursPin(inv, stacks, n - 1, name, e);
    }
  }

  lemma {:induction false} LoopKeepsOthers(inv: Invocation, existed: bool, stacks: Stacks, n: nat, stack: string,
                                           name: string)
    requires inv.Valid() && n <= |inv.deps| && inv.stack != stack && ResolveMany(inv, existed, stacks, n).Ok?
    ensures Lookup(ResolveMany(inv, existed, stacks, n).value.stacks, stack, name) == Lookup(stacks, stack, name)
  {
    if n > 0 {
      LoopKeepsOthers(inv, existed, stacks, n - 1, stack, name);
    }
  }

  /** Whatever a run is served, it honours the pins of the file it starts from. */
  lemma RunHonoursPin(inv: Invocation, file: LockFile, stack: string, name: string, e: Entry)
    requires inv.Valid() && Pins(file, stack, name, e)
    ensures Honours(inv, Run(inv, file).1, stack, name, e)
  {
    if Run(inv, file).1.Ok? && inv.stack == stack && (inv.mode.Verify? || inv.mode.Write?) {
      LoopHonoursPin(inv, file.stacks, |inv.deps|, name, e);
    }
  }

  /** What makes a successful run of this stack let go of the pin, all of it known before
      the run: an ordinary write that does not declare the name, or an update whose last
      declaration of it is not the pinned source with the pinned content behind it. */
  ghost predicate Releases(inv: Invocation, stack: string, name: string, e: Entry)
    requires inv.Valid()
  {
    inv.stack == stack
    && ((inv.mode.Write? && name !in inv.Declares()) || (inv.mode.Update? && !Redeclares(inv, name, e)))
  }

  ghost predicate Redeclares(inv: Invocation, name: string, e: Entry)
    requires inv.Valid()
  {
    exists i: nat :: LastOf(inv.deps, |inv.deps|, name, i) && inv.answers[i].Some?
      && Entry(inv.deps[i].url, inv.answers[i].value.hash) == e
  }

  /** A run resolves each declaration to what it was served, or not at all. */
  lemma {:induction false} HashesAreAnswers(inv: Invocation, existed: bool, stacks: Stacks, n: nat)
    requires inv.Valid() && n <= |inv.deps| && ResolveMany(inv, existed, stacks, n).Ok?
    ensures var s := ResolveMany(inv, existed, stacks, n).value;
            |s.hashes| == n
            && forall i | 0 <= i < n :: inv.answers[i].Some? && s.hashes[i] == inv.answers[i].value.hash
  {
    if n > 0 {
      HashesAreAnswers(inv, existed, stacks, n - 1);
    }
  }

  /** A successful write of the stack keeps the pin exactly when its last declaration of
      the name is the pinned entry again. */
  lemma WriteKeepsPinIff(inv: Invocation, file: LockFile, name: string, e: Entry)
    requires inv.Valid() && inv.Writes() && Run(inv, file).1.Ok?
    ensures Pins(Run(inv, file).0, inv.stack, name, e) <==> Redeclares(inv, name, e)
  {
    var (existed, stacks) := Load(inv.mode, file).value;
    HashesAreAnswers(inv, existed, stacks, |inv.deps|);
    WriteRecordsExactlyTheDeclared(inv, file);
    if Pins(Run(inv, file).0, inv.stack, name, e) {
      var d :| d in inv.deps && d.name == name;
      var k :| 0 <= k < |inv.deps| && inv.deps[k] == d;
      var i := LastExists(inv.deps, |inv.deps|, name);
      assert Redeclares(inv, name, e);
    }
  }

  /** The exact condition for one run: a pinned blueprint stays pinned if and only if the
      run fails or does not release it. */
  lemma RunKeepsPinIff(inv: Invocation, file: LockFile, stack: string, name: string, e: Entry)
    requires inv.Valid() && Pins(file, stack, name, e)
    ensures Pins(Run(inv, file).0, stack, name, e) <==> Run(inv, file).1.Err? || !Releases(inv, stack, name, e)
  {
    if Run(inv, file).1.Ok? && inv.Writes() {
      if inv.stack != stack {
        LoopKeepsOthers(inv, true, file.stacks, |inv.deps|, stack, name);
        WriteRecordsExactlyTheDeclared(inv, file);
      } else if inv.mode.Update? {
        WriteKeepsPinIff(inv, file, name, e);
      } else {
        LoopHonoursPin(inv, file.stacks, |inv.deps|, name, e);
        var s := ResolveMany(inv, true, file.stacks, |inv.deps|).value;
        PrunedLookup(s.stacks, inv.stack, inv.Declares(), stack, name);
      }
    }
  }

  /** The file after a sequence of runs. */
  function After(runs: seq<Invocation>, file: LockFile): LockFile
    requires forall i | 0 <= i < |runs| :: runs[i].Valid()
  {
    if runs == [] then file else Run(runs[|runs| - 1], After(runs[..|runs| - 1], file)).0
  }

  /** The k-th run lets the pin go: it succeeds and releases it. */
  ghost predicate ReleasesAt(runs: seq<Invocation>, k: nat, file: LockFile, stack: string, name: string, e: Entry)
    requires k < |runs| && forall i | 0 <= i < |runs| :: runs[i].Valid()
  {
    Run(runs[k], After(runs[..k], file)).1.Ok? && Releases(runs[k], stack, name, e)
  }

  lemma AfterOneMore(runs: seq<Invocation>, k: nat, file: LockFile)
    requires k < |runs| && forall i | 0 <= i < |runs| :: runs[i].Valid()
    ensures After(runs[..k + 1], file) == Run(runs[k], After(runs[..k], file)).0
  {
    assert runs[..k + 1][..k] == runs[..k];
  }

  lemma {:induction false} HeldUntilReleased(runs: seq<Invocation>, n: nat, file: LockFile, stack: string,
                                             name: string, e: Entry)
    requires n <= |runs| && forall i | 0 <= i < |runs| :: runs[i].Valid()
    requires Pins(file, stack, name, e) && forall k: nat | k < n :: !ReleasesAt(runs, k, file, stack, name, e)
    ensures Pins(After(runs[..n], file), stack, name, e)
  {
    if n > 0 {
      HeldUntilReleased(runs, n - 1, file, stack, name, e);
      AfterOneMore(runs, n - 1, file);
      RunKeepsPinIff(runs[n - 1], After(runs[..n - 1], file), stack, name, e);
      assert !ReleasesAt(runs, n - 1, file, stack, name, e);
    } else {
      assert runs[..0] == [];
    }
  }

  /** The exact condition over whole histories - of any stacks, in any modes, fed
      anything by registry and store: a pin is held all the way if and only if no run
      releases it.  It is lost exactly at such a run. */
  lemma PinHeldThroughoutIff(runs: seq<Invocation>, file: LockFile, stack: string, name: string, e: Entry)
    requires Pins(file, stack, name, e) && forall i | 0 <= i < |runs| :: runs[i].Valid()
    ensures (forall k: nat | k <= |runs| :: Pins(After(runs[..k], file), stack, name, e))
            <==> (forall k: nat | k < |runs| :: !ReleasesAt(runs, k, file, stack, name, e))
  {
    if forall k: nat | k <= |runs| :: Pins(After(runs[..k], file), stack, name, e) {
      forall k: nat | k < |runs| ensures !ReleasesAt(runs, k, file, stack, name, e) {
        AfterOneMore(runs, k, file);
        RunKeepsPinIff(runs[k], After(runs[..k], file), stack, name, e);
      }
    }
    if forall k: nat | k < |runs| :: !ReleasesAt(runs, k, file, stack, name, e) {
      forall k: nat | k <= |runs| ensures Pins(After(runs[..k], file), stack, name, e) {
        HeldUntilReleased(runs, k, file, stack, name, e);
      }
    }
  }

  /** The lock's promise.  As long as no run of the history has released the pin, every
      successful verify or write run of the stack resolves the blueprint to the first
      recorded content. */
  lemma PinHoldsThroughHistory(runs: seq<Invocation>, file: LockFile, stack: string, name: string, e: Entry, n: nat)
    requires Pins(file, stack, name, e) && forall i | 0 <= i < |runs| :: runs[i].Valid()
    requires n < |runs| && forall k: nat | k < n :: !ReleasesAt(runs, k, file, stack, name, e)
    ensures Honours(runs[n], Run(runs[n], After(runs[..n], file)).1, stack, name, e)
  {
    HeldUntilReleased(runs, n, file, stack, name, e);
    RunHonoursPin(runs[n], After(runs[..n], file), stack, name, e);
  }

  /** In particular no run releases it that, if it writes this stack's lock, is an ordinary
      write still declaring the name. */
  lemma DeclaringRunsNeverRelease(runs: seq<Invocation>, file: LockFile, stack: string, name: string, e: Entry)
    requires Pins(file, stack, name, e)
    requires forall i | 0 <= i < |runs| :: runs[i].Valid() && KeepsDeclaring(runs[i], stack, name)
    ensures forall k: nat | k <= |runs| :: Pins(After(runs[..k], file), stack, name, e)
  {
    forall k: nat | k <= |runs| ensures Pins(After(runs[..k], file), stack, name, e) {
      HeldUntilReleased(runs, k, file, stack, name, e);
    }
  }

  /** Where a pin comes from: a successful write run pins everything it declares. */
  lemma WritePinsWhatItDeclares(inv: Invocation, file: LockFile, i: nat)
    requires inv.Valid() && inv.Writes() && Run(inv, file).1.Ok?
    requires i < |inv.deps| && LastOf(inv.deps, |inv.deps|, inv.deps[i].name, i)
    ensures |Run(inv, file).1.value| == |inv.deps|
    ensures Pins(Run(inv, file).0, inv.stack, inv.deps[i].name, Entry(inv.deps[i].url, Run(inv, file).1.value[i]))
  {
    WriteRecordsExactlyTheDeclared(inv, file);
  }

  /** How a pin is released without anyone asking.  Declared and called blueprints share
      one lock and each write prunes what it does not itself declare, so a write run for
      the calls of a stack forgets the pins of its declarations, and the next write
      accepts different content under the same source. */
  lemma AWriteThatOmitsTheNameReleasesThePin(stack: string, dep: Dep, other: Dep, h1: string, h2: string)
    requires dep.name != other.name && h1 != h2
    ensures var declared := (h: string) => Invocation(Write, stack, [dep], [Some(Fetched(dep.name, h))], true);
            var called := Invocation(Write, stack, [other], [Some(Fetched(other.name, h1))], false);
            var runs := [declared(h1), called, declared(h2)];
            && Run(declared(h1), Absent).1 == Ok([h1])
            && Run(declared(h2), After([declared(h1), called], Absent)).1 == Ok([h2])
  {
    var first := Invocation(Write, stack, [dep], [Some(Fetched(dep.name, h1))], true);
    var called := Invocation(Write, stack, [other], [Some(Fetched(other.name, h1))], false);
    var third := Invocation(Write, stack, [dep], [Some(Fetched(dep.name, h2))], true);
    OneWrite(first, Absent, dep, h1);
    var file1 := Run(first, Absent).0;
    WriteRecordsExactlyTheDeclared(first, Absent);
    OneWrite(called, file1, other, h1);
    WriteRecordsExactlyTheDeclared(called, file1);
    var file2 := Run(called, file1).0;
    OneWrite(third, file2, dep, h2);
    assert [first, called][..1] == [first] && [first][..0] == [];
    assert After([first], Absent) == file1;
  }

  lemma OneWrite(inv: Invocation, file: LockFile, dep: Dep, h: string)
    requires inv.deps == [dep] && inv.answers == [Some(Fetched(dep.name, h))] && inv.mode.Write?
    requires file.Absent? || (file.Present? && Lookup(file.stacks, inv.stack, dep.name).None?)
    ensures inv.Valid() && Run(inv, file).1 == Ok([h])
  {
    var (existed, stacks) := Load(inv.mode, file).value;
    assert ResolveMany(inv, existed, stacks, 0) == Ok(Step(stacks, []));
    assert ResolveOne(inv, existed, stacks, inv.deps[0], inv.answers[0]).Ok?;
    assert |inv.deps| == 1;
    assert [] + [h] == [h];
    assert ResolveMany(inv, existed, stacks, |inv.deps|).value.hashes == [h];
  }
}
