/** Byte-level progress of a transfer under concurrent goroutines, one atomic operation a step. */
module Transfer {
  import opened Common

  /** Where a stream stands: opened, marked as seen (already says whether its digest was
      there before), or being read.  pending is a moved total waiting to be reported. */
  datatype Phase =
    | Opening
    | Marked(already: bool)
    | Reading(first: bool, read: nat, pending: Option<int>)

  datatype Stream = Stream(digest: string, size: int, phase: Phase)

  /** The counter, the seen set, every stream and every report made so far. */
  datatype State = State(seen: set<string>, total: int, transferred: int, streams: seq<Stream>,
                         reports: seq<(int, int)>)

  datatype Move =
    | Open(digest: string, size: int)
    | Mark(i: nat)
    | Declare(i: nat)
    | Read(i: nat, n: nat)
    | Report(i: nat)

  const INITIAL := State({}, 0, 0, [], [])

  predicate Enabled(s: State, m: Move) {
    match m
    case Open(_, _) => true
    case Mark(i) => i < |s.streams| && s.streams[i].phase.Opening?
    case Declare(i) => i < |s.streams| && s.streams[i].phase.Marked?
    case Read(i, _) => i < |s.streams| && s.streams[i].phase.Reading? && s.streams[i].phase.pending.None?
    case Report(i) => i < |s.streams| && s.streams[i].phase.Reading? && s.streams[i].phase.pending.Some?
  }

  /** addTotal ignores a size that is not positive. */
  function Counted(size: int): nat { if size > 0 then size else 0 }

  /** One atomic step of one goroutine: the marking under the mutex, the add to the
      total, the add to the bytes moved, the load of the total that a report makes. */
  function Next(s: State, m: Move): State
    requires Enabled(s, m)
  {
    match m
    case Open(digest, size) => s.(streams := s.streams + [Stream(digest, size, Opening)])
    case Mark(i) =>
      var t := s.streams[i];
      s.(seen := s.seen + {t.digest}, streams := s.streams[i := t.(phase := Marked(t.digest in s.seen))])
    case Declare(i) =>
      var t := s.streams[i];
      s.(total := if t.phase.already then s.total else s.total + Counted(t.size),
         streams := s.streams[i := t.(phase := Reading(!t.phase.already, 0, None))])
    case Read(i, n) =>
      if n == 0 then s
      else
        var t := s.streams[i];
        s.(transferred := s.transferred + n,
           streams := s.streams[i := t.(phase := Reading(t.phase.first, t.phase.read + n, Some(s.transferred + n)))])
    case Report(i) =>
      var t := s.streams[i];
      s.(reports := s.reports + [(t.phase.pending.value, s.total)],
         streams := s.streams[i := t.(phase := t.phase.(pending := None))])
  }

  /** The store and its counter as one goroutine drives them, with no other between: each
      method is its steps, one after another. */
  class CountingStore {
    var seen: set<string>
    var total: int
    var transferred: int
    var reports: seq<(int, int)>
    ghost var streams: seq<Stream>

    ghost function View(): State
      reads this
    {
      State(seen, total, transferred, streams, reports)
    }

    constructor ()
      ensures View() == INITIAL
    {
      seen, total, transferred, reports, streams := {}, 0, 0, [], [];
    }

    /** expect, on the descriptor of a stream being opened. */
    method Expect(digest: string, size: int) returns (ghost i: nat)
      modifies this
      ensures i == |old(View()).streams|
      ensures var start := Next(old(View()), Open(digest, size));
        View() == Next(Next(start, Mark(i)), Declare(i))
    {
      i := |streams|;
      var already := digest in seen;
      seen := seen + {digest};
      if !already && size > 0 {
        total := total + size;
      }
      streams := streams + [Stream(digest, size, Reading(!already, 0, None))];
      assert streams
             == (old(streams) + [Stream(digest, size, Opening)])[i := Stream(digest, size, Reading(!already, 0, None))];
    }

    /** add, after a read of n bytes from stream i. */
    method Add(ghost i: nat, n: nat)
      requires Enabled(View(), Read(i, n))
      modifies this
      ensures var after := Next(old(View()), Read(i, n));
        View() == if n == 0 then after else Next(after, Report(i))
    {
      if n == 0 {
        return;
      }
      var moved := transferred + n;
      transferred := moved;
      reports := reports + [(moved, total)];
      streams := streams[i := streams[i].(phase := Reading(streams[i].phase.first, streams[i].phase.read + n, None))];
    }
  }

  /** A schedule runs its moves in order; a move that is not enabled is skipped. */
  function Run(schedule: seq<Move>): State {
    if schedule == [] then INITIAL
    else
      var s, m := Run(schedule[..|schedule| - 1]), schedule[|schedule| - 1];
      if Enabled(s, m) then Next(s, m) else s
  }

  // ---------------------------------------------------------------------- sums

  function Sum<T>(f: T -> int, s: seq<T>): int { if s == [] then 0 else f(s[0]) + Sum(f, s[1..]) }

  lemma {:induction false} SumUpdate<T>(f: T -> int, s: seq<T>, i: nat, x: T)
    requires i < |s|
    ensures Sum(f, s[i := x]) == Sum(f, s) - f(s[i]) + f(x)
  {
    if i == 0 {
      assert s[0 := x][1..] == s[1..];
    } else {
      SumUpdate(f, s[1..], i - 1, x);
      assert s[i := x][1..] == s[1..][i - 1 := x];
    }
  }

  lemma {:induction false} SumAppend<T>(f: T -> int, s: seq<T>, x: T)
    ensures Sum(f, s + [x]) == Sum(f, s) + f(x)
  {
    if s == [] {
      assert [x][1..] == [];
    } else {
      SumAppend(f, s[1..], x);
      assert (s + [x])[1..] == s[1..] + [x];
    }
  }

  lemma {:induction false} SumAtMost<T>(f: T -> int, g: T -> int, s: seq<T>)
    requires forall i | 0 <= i < |s| :: f(s[i]) <= g(s[i])
    ensures Sum(f, s) <= Sum(g, s)
  {
    if s != [] {
      SumAtMost(f, g, s[1..]);
    }
  }

  function BytesRead(t: Stream): int { if t.phase.Reading? then t.phase.read else 0 }

  /** What a stream has added to the total: its size, if it was the first of its digest. */
  function Added(t: Stream): int { if t.phase.Reading? && t.phase.first then Counted(t.size) else 0 }

  // ------------------------------------------------------------------- the invariant

  /** The first stream to mark a digest. */
  predicate Leads(t: Stream) {
    match t.phase
    case Opening => false
    case Marked(already) => !already
    case Reading(first, _, _) => first
  }

  ghost predicate Inv(s: State) {
    && s.transferred == Sum(BytesRead, s.streams)
    && s.total == Sum(Added, s.streams)
    && SeenIsLed(s)
    && OneLeaderEach(s.streams)
    && (forall i | 0 <= i < |s.streams| && s.streams[i].phase.Reading? && s.streams[i].phase.pending.Some? ::
          s.streams[i].phase.pending.value <= s.transferred)
  }

  /** How a step changes the two sums. */
  lemma StepSums(s: State, m: Move)
    requires Enabled(s, m) && s.transferred == Sum(BytesRead, s.streams) && s.total == Sum(Added, s.streams)
    ensures Next(s, m).transferred == Sum(BytesRead, Next(s, m).streams)
    ensures Next(s, m).total == Sum(Added, Next(s, m).streams)
  {
    var r := Next(s, m);
    if m.Open? {
      SumAppend(BytesRead, s.streams, Stream(m.digest, m.size, Opening));
      SumAppend(Added, s.streams, Stream(m.digest, m.size, Opening));
    } else if r != s {
      SumUpdate(BytesRead, s.streams, m.i, r.streams[m.i]);
      SumUpdate(Added, s.streams, m.i, r.streams[m.i]);
    }
  }

  ghost predicate SeenIsLed(s: State) {
    && (forall i | 0 <= i < |s.streams| :: !s.streams[i].phase.Opening? ==> s.streams[i].digest in s.seen)
    && (forall d | d in s.seen :: Led(s.streams, d))
  }

  ghost predicate Led(streams: seq<Stream>, d: string) {
    exists i :: 0 <= i < |streams| && Leads(streams[i]) && streams[i].digest == d
  }

  ghost predicate OneLeaderEach(streams: seq<Stream>) {
    forall i, j | 0 <= i < j < |streams| && Leads(streams[i]) && Leads(streams[j]) ::
      streams[i].digest != streams[j].digest
  }

  lemma StepKeepsLed(s: State, m: Move, d: string)
    requires Enabled(s, m) && Led(s.streams, d)
    ensures Led(Next(s, m).streams, d)
  {
    var i :| 0 <= i < |s.streams| && Leads(s.streams[i]) && s.streams[i].digest == d;
    assert Leads(Next(s, m).streams[i]) && Next(s, m).streams[i].digest == d;
  }

  lemma StepKeepsSeenLed(s: State, m: Move)
    requires Enabled(s, m) && SeenIsLed(s)
    ensures SeenIsLed(Next(s, m))
  {
    var r := Next(s, m);
    forall d | d in r.seen ensures Led(r.streams, d) {
      if d in s.seen {
        StepKeepsLed(s, m, d);
      } else {
        assert Leads(r.streams[m.i]) && r.streams[m.i].digest == d;
      }
    }
  }

  lemma StepKeepsOneLeader(s: State, m: Move)
    requires Enabled(s, m) && SeenIsLed(s) && OneLeaderEach(s.streams)
    ensures OneLeaderEach(Next(s, m).streams)
  {
    var r := Next(s, m);
    if m.Open? {
      assert !Leads(r.streams[|s.streams|]);
    } else if r != s {
      assert forall k | 0 <= k < |s.streams| && k != m.i :: r.streams[k] == s.streams[k];
      assert Leads(r.streams[m.i]) ==> Leads(s.streams[m.i]) || s.streams[m.i].digest !in s.seen;
    }
  }

  lemma StepKeepsInv(s: State, m: Move)
    requires Inv(s) && Enabled(s, m)
    ensures Inv(Next(s, m))
  {
    StepSums(s, m);
    StepKeepsSeenLed(s, m);
    StepKeepsOneLeader(s, m);
  }

  /** In every interleaving, whatever is opened twice or overruns: the bytes moved are the
      bytes read so far. */
  lemma {:induction false} EveryRunKeepsInv(schedule: seq<Move>)
    ensures Inv(Run(schedule))
  {
    if schedule != [] {
      EveryRunKeepsInv(schedule[..|schedule| - 1]);
      var s, m := Run(schedule[..|schedule| - 1]), schedule[|schedule| - 1];
      if Enabled(s, m) {
        StepKeepsInv(s, m);
      }
    }
  }

  // --------------------------------------------- the total is what was announced

  /** The sizes of the first opening of every digest, in opening order. */
  function AnnouncedSize(streams: seq<Stream>): int { Sum(LeaderSize, streams) }

  function LeaderSize(t: Stream): int { if Leads(t) && t.size > 0 then t.size else 0 }

  predicate Announcing(t: Stream) { t.phase.Marked? }

  lemma {:induction false} AddedIsAnnounced(streams: seq<Stream>)
    ensures Sum(Added, streams) <= AnnouncedSize(streams)
    ensures (forall i | 0 <= i < |streams| :: !Announcing(streams[i])) ==> Sum(Added, streams) == AnnouncedSize(streams)
  {
    if streams != [] {
      AddedIsAnnounced(streams[1..]);
      assert forall i | 0 < i < |streams| :: streams[i] == streams[1..][i - 1];
    }
  }

  /** In every interleaving the total is the size of one stream per distinct digest marked
      so far, short only of the announcements still under way; no digest counts twice. */
  lemma TotalIsDistinctAnnounced(schedule: seq<Move>)
    ensures var s := Run(schedule);
      && s.total <= AnnouncedSize(s.streams)
      && ((forall i | 0 <= i < |s.streams| :: !Announcing(s.streams[i])) ==> s.total == AnnouncedSize(s.streams))
      && (forall d :: d in s.seen <==> Led(s.streams, d))
      && OneLeaderEach(s.streams)
      && s.transferred == Sum(BytesRead, s.streams)
  {
    EveryRunKeepsInv(schedule);
    AddedIsAnnounced(Run(schedule).streams);
  }

  // ------------------------------------------------------- no report past the total

  ghost predicate OpenedOnce(s: State) {
    forall i, j | 0 <= i < j < |s.streams| :: s.streams[i].digest != s.streams[j].digest
  }

  ghost predicate WithinSize(s: State) {
    forall i | 0 <= i < |s.streams| :: BytesRead(s.streams[i]) <= Counted(s.streams[i].size)
  }

  ghost predicate WithinTotal(s: State) {
    forall k | 0 <= k < |s.reports| :: s.reports[k].0 <= s.reports[k].1
  }

  /** Opening once and staying within size are read off the last state: they can be lost
      along a run, never regained. */
  lemma ConditionsOnlyGetLost(s: State, m: Move)
    requires Enabled(s, m) && OpenedOnce(Next(s, m)) && WithinSize(Next(s, m))
    ensures OpenedOnce(s) && WithinSize(s)
  {
    var r := Next(s, m);
    assert |s.streams| <= |r.streams|;
    assert forall i | 0 <= i < |s.streams| ::
        s.streams[i].digest == r.streams[i].digest && s.streams[i].size == r.streams[i].size
        && BytesRead(s.streams[i]) <= BytesRead(r.streams[i]);
  }

  lemma TransferredWithinTotal(s: State)
    requires Inv(s) && OpenedOnce(s) && WithinSize(s)
    ensures s.transferred <= s.total
  {
    forall i | 0 <= i < |s.streams| ensures BytesRead(s.streams[i]) <= Added(s.streams[i]) {
      var t := s.streams[i];
      if t.phase.Reading? {
        assert t.digest in s.seen;
        var k :| 0 <= k < |s.streams| && Leads(s.streams[k]) && s.streams[k].digest == t.digest;
        assert k == i;
      }
    }
    SumAtMost(BytesRead, Added, s.streams);
  }

  /** In every interleaving where each digest is opened once and no stream yields more
      than its declared size, every report ever made has at most the total moved. */
  lemma {:induction false} ReportsStayWithinTotal(schedule: seq<Move>)
    requires OpenedOnce(Run(schedule)) && WithinSize(Run(schedule))
    ensures WithinTotal(Run(schedule)) && Run(schedule).transferred <= Run(schedule).total
  {
    EveryRunKeepsInv(schedule);
    TransferredWithinTotal(Run(schedule));
    if schedule != [] {
      var init := schedule[..|schedule| - 1];
      var s, m := Run(init), schedule[|schedule| - 1];
      EveryRunKeepsInv(init);
      if Enabled(s, m) {
        ConditionsOnlyGetLost(s, m);
        ReportsStayWithinTotal(init);
      } else {
        ReportsStayWithinTotal(init);
      }
    }
  }

  lemma RunStep(schedule: seq<Move>, m: Move, s: State)
    requires Run(schedule) == s && Enabled(s, m)
    ensures Run(schedule + [m]) == Next(s, m)
  {
    assert (schedule + [m])[..|schedule|] == schedule;
  }

  /** A stream of declared size 1, opened and read once, n bytes. */
  lemma OneRead(n: nat) returns (schedule: seq<Move>)
    requires n > 0
    ensures Run(schedule) == State({"d"}, 1, n, [Stream("d", 1, Reading(true, n, None))], [(n, 1)])
  {
    schedule := [];
    schedule := FullRead(schedule, INITIAL, n);
  }

  /** Any idle run extended by one more stream of that digest, read once. */
  lemma FullRead(before: seq<Move>, s: State, n: nat) returns (schedule: seq<Move>)
    requires Run(before) == s && n > 0
    ensures var first := "d" !in s.seen; var total := if first then s.total + 1 else s.total;
      Run(schedule) == State(s.seen + {"d"}, total, s.transferred + n,
                             s.streams + [Stream("d", 1, Reading(first, n, None))],
                             s.reports + [(s.transferred + n, total)])
  {
    var i := |s.streams|;
    var first := "d" !in s.seen;
    var total := if first then s.total + 1 else s.total;
    schedule := before + [Open("d", 1)];
    RunStep(before, Open("d", 1), s);
    var s1 := s.(streams := s.streams + [Stream("d", 1, Opening)]);
    RunStep(schedule, Mark(i), s1);
    schedule := schedule + [Mark(i)];
    var s2 := s.(seen := s.seen + {"d"}, streams := s.streams + [Stream("d", 1, Marked(!first))]);
    RunStep(schedule, Declare(i), s2);
    schedule := schedule + [Declare(i)];
    var s3 := s2.(total := total, streams := s.streams + [Stream("d", 1, Reading(first, 0, None))]);
    RunStep(schedule, Read(i, n), s3);
    schedule := schedule + [Read(i, n)];
    var reading := Stream("d", 1, Reading(first, n, Some(s.transferred + n)));
    var s4 := s3.(transferred := s.transferred + n, streams := s.streams + [reading]);
    RunStep(schedule, Report(i), s4);
    schedule := schedule + [Report(i)];
    assert Next(s4, Report(i)).streams == s.streams + [Stream("d", 1, Reading(first, n, None))];
  }

  /** Neither condition can be dropped: one digest fetched twice is announced once and
      counted twice, within its size each time. */
  lemma ReopenedDigestOverReports()
    ensures exists schedule: seq<Move> :: WithinSize(Run(schedule)) && !WithinTotal(Run(schedule))
  {
    var once := OneRead(1);
    var twice := FullRead(once, Run(once), 1);
    assert Run(twice).reports[1] == (2, 1);
  }

  lemma OverlongStreamOverReports()
    ensures exists schedule: seq<Move> :: OpenedOnce(Run(schedule)) && !WithinTotal(Run(schedule))
  {
    var schedule := OneRead(2);
    assert Run(schedule).reports[0] == (2, 1);
  }
}
