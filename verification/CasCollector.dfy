/** The garbage collector beside puts and gets. Marking and sweeping take no lock and ask for occupancy again before
    every file, so each is cut into steps and any number of them run interleaved with installs and with gets that move
    a damaged object aside. */
module CasCollector {
  import opened BlobCodec
  import opened CasFiles
  import CivilDate

  /** Who moves objects: a marking run, which asks before it moves, or a get that found its object damaged. */
  datatype Origin = Marking(reachable: set<Hex>) | Reading

  /** `kept` is what the entry held when the mover had linked it. */
  datatype MovePhase = Between | Cleared(hex: Hex) | Linked(moving: Hex, kept: Bytes) | Stopped

  /** A mover and the clock reading that dated its folder. */
  datatype Mover = Mover(origin: Origin, ms: int, date: Date, phase: MovePhase)

  datatype SweepPhase = Idle | Doomed(date: Date, hex: Hex)

  datatype Sweep = Sweep(now: int, phase: SweepPhase)

  datatype State = State(files: Files, movers: seq<Mover>, sweeps: seq<Sweep>)

  datatype Step =
    | Install(hex: Hex, bytes: Bytes)                      // a put links its staged file in
    | StartMark(ms: int, date: Date, reachable: set<Hex>)
    | AskMark(mover: nat, hex: Hex, forbidden: bool)       // the occupancy answer for one stored digest
    | StartMove(ms: int, date: Date, hex: Hex)             // a get decides to move its object aside
    | Link(mover: nat)                                     // or an exclusive copy
    | UnlinkSource(mover: nat)
    | Stop(mover: nat)                                     // the mover ends or fails
    | StartSweep(now: int)
    | AskSweep(sweep: nat, date: Date, hex: Hex, forbidden: bool)
    | UnlinkEntry(sweep: nat)

  ghost predicate Enabled(s: State, step: Step) {
    match step
    case Install(hex, _) => ObjectFile(hex) !in s.files
    case StartMark(ms, date, _) => IsDateOf(date, ms)
    case AskMark(k, hex, _) =>
      k < |s.movers| && s.movers[k].phase == Between && s.movers[k].origin.Marking? && hex !in s.movers[k].origin.reachable
    case StartMove(ms, date, _) => IsDateOf(date, ms)
    case Link(k) => k < |s.movers| && s.movers[k].phase.Cleared?
    case UnlinkSource(k) => k < |s.movers| && s.movers[k].phase.Linked?
    case Stop(k) => k < |s.movers|
    case StartSweep(_) => true
    case AskSweep(k, date, _, _) => k < |s.sweeps| && s.sweeps[k].phase == Idle && OldEnough(date, s.sweeps[k].now)
    case UnlinkEntry(k) => k < |s.sweeps| && s.sweeps[k].phase.Doomed?
  }

  function AfterMove(m: Mover): MovePhase {
    if m.origin.Marking? then Between else Stopped
  }

  function WithMover(s: State, k: nat, phase: MovePhase): State
    requires k < |s.movers|
  {
    s.(movers := s.movers[k := s.movers[k].(phase := phase)])
  }

  function WithSweep(s: State, k: nat, phase: SweepPhase): State
    requires k < |s.sweeps|
  {
    s.(sweeps := s.sweeps[k := s.sweeps[k].(phase := phase)])
  }

  /** Linking fails softly when the object is gone, and keeps an entry that is already there. */
  function AfterLink(s: State, k: nat): State
    requires k < |s.movers| && s.movers[k].phase.Cleared?
  {
    var m := s.movers[k];
    var source, dest := ObjectFile(m.phase.hex), QuarantineFile(m.date, m.phase.hex);
    if source !in s.files then WithMover(s, k, AfterMove(m))
    else
      var kept := Kept(s.files, m.date, m.phase.hex);
      WithMover(s.(files := s.files[dest := kept]), k, Linked(m.phase.hex, kept))
  }

  /** What a link leaves in the entry: the bytes of an entry that is there, else those of the object. */
  function Kept(files: Files, date: Date, hex: Hex): Bytes
    requires ObjectFile(hex) in files
  {
    if QuarantineFile(date, hex) in files then files[QuarantineFile(date, hex)] else files[ObjectFile(hex)]
  }

  ghost function Apply(s: State, step: Step): State
    requires Enabled(s, step)
  {
    match step
    case Install(hex, bytes) => s.(files := s.files[ObjectFile(hex) := bytes])
    case StartMark(ms, date, reachable) => s.(movers := s.movers + [Mover(Marking(reachable), ms, date, Between)])
    case AskMark(k, hex, forbidden) => WithMover(s, k, if forbidden then Between else Cleared(hex))
    case StartMove(ms, date, hex) => s.(movers := s.movers + [Mover(Reading, ms, date, Cleared(hex))])
    case Link(k) => AfterLink(s, k)
    case UnlinkSource(k) =>
      WithMover(s.(files := s.files - {ObjectFile(s.movers[k].phase.moving)}), k, AfterMove(s.movers[k]))
    case Stop(k) => WithMover(s, k, Stopped)
    case StartSweep(now) => s.(sweeps := s.sweeps + [Sweep(now, Idle)])
    case AskSweep(k, date, hex, forbidden) => WithSweep(s, k, if forbidden then Idle else Doomed(date, hex))
    case UnlinkEntry(k) =>
      var p := s.sweeps[k].phase;
      WithSweep(s.(files := s.files - {QuarantineFile(p.date, p.hex)}), k, Idle)
  }

  // ---------- the invariant ----------

  /** No sweep so far has read a clock that makes this folder old enough. */
  ghost predicate Unswept(s: State, date: Date) {
    forall k :: 0 <= k < |s.sweeps| ==> !OldEnough(date, s.sweeps[k].now)
  }

  /** A mover past its link still has its entry, unchanged, unless some sweep has found its folder old enough. */
  ghost predicate MoverOk(s: State, m: Mover) {
    && IsDateOf(m.date, m.ms)
    && (m.phase.Linked? && Unswept(s, m.date) ==>
          var entry := QuarantineFile(m.date, m.phase.moving);
          entry in s.files && s.files[entry] == m.phase.kept)
  }

  ghost predicate SweepOk(sweep: Sweep) {
    sweep.phase.Doomed? ==> OldEnough(sweep.phase.date, sweep.now)
  }

  ghost predicate Inv(s: State) {
    && (forall k :: 0 <= k < |s.movers| ==> MoverOk(s, s.movers[k]))
    && (forall k :: 0 <= k < |s.sweeps| ==> SweepOk(s.sweeps[k]))
  }

  ghost predicate Initial(s: State) {
    s.movers == [] && s.sweeps == []
  }

  lemma UnsweptBefore(s: State, step: Step, date: Date)
    requires Enabled(s, step) && Unswept(Apply(s, step), date)
    ensures Unswept(s, date)
  {
    hide OldEnough;
    var t := Apply(s, step);
    forall k | 0 <= k < |s.sweeps| ensures !OldEnough(date, s.sweeps[k].now) {
      assert t.sweeps[k].now == s.sweeps[k].now;
    }
  }

  lemma StepKeepsMover(s: State, step: Step, k: nat)
    requires Inv(s) && Enabled(s, step) && k < |Apply(s, step).movers|
    ensures MoverOk(Apply(s, step), Apply(s, step).movers[k])
  {
    hide OldEnough, IsDateOf;
    var t := Apply(s, step);
    var m := t.movers[k];
    if k < |s.movers| { assert MoverOk(s, s.movers[k]); }
    if m.phase.Linked? && Unswept(t, m.date) {
      UnsweptBefore(s, step, m.date);
      if step.UnlinkEntry? { assert SweepOk(s.sweeps[step.sweep]); }
    }
  }

  /** Every step of every actor keeps the invariant. */
  lemma StepKeeps(s: State, step: Step)
    requires Inv(s) && Enabled(s, step)
    ensures Inv(Apply(s, step))
  {
    var t := Apply(s, step);
    forall k | 0 <= k < |t.movers| ensures MoverOk(t, t.movers[k]) { StepKeepsMover(s, step, k); }
    hide MoverOk, OldEnough;
    forall k | 0 <= k < |t.sweeps| ensures SweepOk(t.sweeps[k]) {
      if k < |s.sweeps| { assert SweepOk(s.sweeps[k]); }
    }
  }

  // ---------- runs ----------

  ghost predicate Moves(s: State, step: Step, t: State) {
    Enabled(s, step) && t == Apply(s, step)
  }

  ghost predicate IsRun(states: seq<State>, steps: seq<Step>) {
    && |states| == |steps| + 1 && Initial(states[0])
    && forall i :: 0 <= i < |steps| ==> Moves(states[i], steps[i], states[i + 1])
  }

  lemma {:induction false} RunInv(states: seq<State>, steps: seq<Step>, k: nat)
    requires IsRun(states, steps) && k < |states|
    ensures Inv(states[k])
  {
    if k > 0 {
      RunInv(states, steps, k - 1);
      assert Moves(states[k - 1], steps[k - 1], states[k - 1 + 1]);
      hide Enabled, Apply, Inv;
      StepKeeps(states[k - 1], steps[k - 1]);
    }
  }

  /** The last answer mover `k` got before step `i` was for `hex`, and it was not forbidden. */
  ghost predicate MarkAsked(steps: seq<Step>, i: nat, k: nat, hex: Hex) {
    exists j :: 0 <= j < i <= |steps| && steps[j] == AskMark(k, hex, false) &&
                forall n :: j < n < i ==> !(steps[n].AskMark? && steps[n].mover == k)
  }

  ghost predicate SweepAsked(steps: seq<Step>, i: nat, k: nat, date: Date, hex: Hex) {
    exists j :: 0 <= j < i <= |steps| && steps[j] == AskSweep(k, date, hex, false) &&
                forall n :: j < n < i ==> !(steps[n].AskSweep? && steps[n].sweep == k)
  }

  lemma MarkAskedNow(steps: seq<Step>, i: nat, k: nat, hex: Hex)
    requires i < |steps| && steps[i] == AskMark(k, hex, false)
    ensures MarkAsked(steps, i + 1, k, hex)
  {
  }

  lemma SweepAskedNow(steps: seq<Step>, i: nat, k: nat, date: Date, hex: Hex)
    requires i < |steps| && steps[i] == AskSweep(k, date, hex, false)
    ensures SweepAsked(steps, i + 1, k, date, hex)
  {
  }

  lemma MarkAskedLater(steps: seq<Step>, i: nat, k: nat, hex: Hex)
    requires i < |steps| && MarkAsked(steps, i, k, hex) && !(steps[i].AskMark? && steps[i].mover == k)
    ensures MarkAsked(steps, i + 1, k, hex)
  {
    var j :| 0 <= j < i <= |steps| && steps[j] == AskMark(k, hex, false) &&
             forall n :: j < n < i ==> !(steps[n].AskMark? && steps[n].mover == k);
    assert forall n :: j < n < i + 1 ==> !(steps[n].AskMark? && steps[n].mover == k);
  }

  lemma SweepAskedLater(steps: seq<Step>, i: nat, k: nat, date: Date, hex: Hex)
    requires i < |steps| && SweepAsked(steps, i, k, date, hex) && !(steps[i].AskSweep? && steps[i].sweep == k)
    ensures SweepAsked(steps, i + 1, k, date, hex)
  {
    var j :| 0 <= j < i <= |steps| && steps[j] == AskSweep(k, date, hex, false) &&
             forall n :: j < n < i ==> !(steps[n].AskSweep? && steps[n].sweep == k);
    assert forall n :: j < n < i + 1 ==> !(steps[n].AskSweep? && steps[n].sweep == k);
  }

  predicate AboutToMove(m: Mover, hex: Hex) {
    m.phase == Cleared(hex) || (m.phase.Linked? && m.phase.moving == hex)
  }

  lemma MovingBefore(s: State, step: Step, k: nat, hex: Hex)
    requires Enabled(s, step) && k < |Apply(s, step).movers| && step != AskMark(k, hex, false)
    requires Apply(s, step).movers[k].origin.Marking? && AboutToMove(Apply(s, step).movers[k], hex)
    ensures k < |s.movers| && AboutToMove(s.movers[k], hex) && s.movers[k].origin == Apply(s, step).movers[k].origin
    ensures !(step.AskMark? && step.mover == k)
  {
  }

  /** What a marking run is about to move it was told not to spare, by its own last answer. */
  lemma {:induction false} MarkingAsked(states: seq<State>, steps: seq<Step>, i: nat, k: nat, hex: Hex)
    requires IsRun(states, steps) && i < |states| && k < |states[i].movers|
    requires states[i].movers[k].origin.Marking? && AboutToMove(states[i].movers[k], hex)
    ensures hex !in states[i].movers[k].origin.reachable && MarkAsked(steps, i, k, hex)
  {
    if i > 0 {
      var s, step, t := states[i - 1], steps[i - 1], states[i - 1 + 1];
      assert Moves(s, step, t);
      if step == AskMark(k, hex, false) {
        MarkAskedNow(steps, i - 1, k, hex);
      } else {
        MovingBefore(s, step, k, hex);
        hide Enabled, Apply;
        MarkingAsked(states, steps, i - 1, k, hex);
        MarkAskedLater(steps, i - 1, k, hex);
      }
    }
  }

  lemma {:induction false} SweepingAsked(states: seq<State>, steps: seq<Step>, i: nat, k: nat)
    requires IsRun(states, steps) && i < |states| && k < |states[i].sweeps| && states[i].sweeps[k].phase.Doomed?
    ensures var p := states[i].sweeps[k].phase; SweepAsked(steps, i, k, p.date, p.hex)
  {
    if i > 0 {
      var s, step, t := states[i - 1], steps[i - 1], states[i - 1 + 1];
      assert Moves(s, step, t);
      var p := t.sweeps[k].phase;
      if step == AskSweep(k, p.date, p.hex, false) {
        SweepAskedNow(steps, i - 1, k, p.date, p.hex);
      } else {
        assert k < |s.sweeps| && s.sweeps[k].phase == p;
        SweepingAsked(states, steps, i - 1, k);
        SweepAskedLater(steps, i - 1, k, p.date, p.hex);
      }
    }
  }

  /** In every run an object leaves the store only by a mover that linked it. A marking run had it unreachable and was
      answered not forbidden at its own last check; and unless some sweep has found the mover's folder old enough, the
      object's entry of that day is there at that moment. */
  lemma ObjectsLeaveJustified(states: seq<State>, steps: seq<Step>, i: nat, hex: Hex)
    requires IsRun(states, steps) && i < |steps|
    requires ObjectFile(hex) in states[i].files && ObjectFile(hex) !in states[i + 1].files
    ensures steps[i].UnlinkSource? && steps[i].mover < |states[i].movers|
    ensures var m := states[i].movers[steps[i].mover];
            && m.phase.Linked? && m.phase.moving == hex
            && (m.origin.Marking? ==> hex !in m.origin.reachable && MarkAsked(steps, i, steps[i].mover, hex))
            && (Unswept(states[i], m.date) ==> QuarantineFile(m.date, hex) in states[i + 1].files)
  {
    assert Moves(states[i], steps[i], states[i + 1]);
    RunInv(states, steps, i);
    var k := steps[i].mover;
    assert MoverOk(states[i], states[i].movers[k]);
    if states[i].movers[k].origin.Marking? { MarkingAsked(states, steps, i, k, hex); }
  }

  /** Step `j` is the last link of mover `k` before step `i`, of the digest it is moving. */
  ghost predicate LastLink(states: seq<State>, steps: seq<Step>, i: nat, k: nat, j: nat)
    requires |states| == |steps| + 1
  {
    && j < i < |states| && steps[j] == Link(k) && k < |states[j].movers| && k < |states[i].movers|
    && states[j].movers[k].date == states[i].movers[k].date && states[i].movers[k].phase.Linked?
    && ObjectFile(states[i].movers[k].phase.moving) in states[j].files
    && forall n :: j < n < i ==> steps[n] != Link(k)
  }

  /** A mover past its link keeps in mind what that link left. */
  lemma {:induction false} LinkedOnce(states: seq<State>, steps: seq<Step>, i: nat, k: nat) returns (j: nat)
    requires IsRun(states, steps) && i < |states| && k < |states[i].movers| && states[i].movers[k].phase.Linked?
    ensures LastLink(states, steps, i, k, j)
    ensures var m := states[i].movers[k]; m.phase.kept == Kept(states[j].files, m.date, m.phase.moving)
  {
    assert i > 0;
    var s, step, t := states[i - 1], steps[i - 1], states[i - 1 + 1];
    assert Moves(s, step, t);
    if step == Link(k) {
      j := i - 1;
    } else {
      LinkedBefore(s, step, k);
      hide Enabled, Apply;
      j := LinkedOnce(states, steps, i - 1, k);
    }
  }

  lemma LinkedBefore(s: State, step: Step, k: nat)
    requires Enabled(s, step) && step != Link(k) && k < |Apply(s, step).movers| && Apply(s, step).movers[k].phase.Linked?
    ensures k < |s.movers| && s.movers[k] == Apply(s, step).movers[k]
  {
  }

  /** What an object's entry holds when it leaves: while no sweep has found the folder old enough, its bytes exactly when
      the entry found or made by the mover's last link held them. Where the object was not replaced since, that is when
      the folder held no entry of its name then, or one with the same bytes. */
  lemma EntryHoldsExactly(states: seq<State>, steps: seq<Step>, i: nat, j: nat, hex: Hex)
    requires IsRun(states, steps) && i < |steps| && steps[i].UnlinkSource?
    requires ObjectFile(hex) in states[i].files && ObjectFile(hex) !in states[i + 1].files
    requires LastLink(states, steps, i, steps[i].mover, j) && Unswept(states[i], states[i].movers[steps[i].mover].date)
    ensures var source, entry := ObjectFile(hex), QuarantineFile(states[i].movers[steps[i].mover].date, hex);
      var removed := states[i].files[source];
      && entry in states[i + 1].files && source in states[j].files
      && (states[i + 1].files[entry] == removed <==>
            if entry in states[j].files then states[j].files[entry] == removed else states[j].files[source] == removed)
      && (states[j].files[source] == removed ==>
            (states[i + 1].files[entry] == removed <==>
               entry !in states[j].files || states[j].files[entry] == states[j].files[source]))
  {
    ObjectsLeaveJustified(states, steps, i, hex);
    RunInv(states, steps, i);
    var k := steps[i].mover;
    var m := states[i].movers[k];
    assert MoverOk(states[i], m);
    var last := LinkedOnce(states, steps, i, k);
    assert last == j;
    assert Moves(states[i], steps[i], states[i + 1]);
  }

  /** So it is when every sweep so far read its clock within 29 days of the mover's reading, as they do for 29 days
      where the clock never runs back. */
  lemma EntryThereFor29Days(states: seq<State>, steps: seq<Step>, i: nat, hex: Hex)
    requires IsRun(states, steps) && i < |steps|
    requires ObjectFile(hex) in states[i].files && ObjectFile(hex) !in states[i + 1].files
    ensures steps[i].UnlinkSource? && steps[i].mover < |states[i].movers|
    ensures var m := states[i].movers[steps[i].mover];
            (forall k :: 0 <= k < |states[i].sweeps| ==> states[i].sweeps[k].now - m.ms <= 29 * MS_PER_DAY) ==>
              QuarantineFile(m.date, hex) in states[i + 1].files
  {
    ObjectsLeaveJustified(states, steps, i, hex);
    RunInv(states, steps, i);
    var m := states[i].movers[steps[i].mover];
    assert MoverOk(states[i], m);
    forall k | 0 <= k < |states[i].sweeps| && states[i].sweeps[k].now - m.ms <= 29 * MS_PER_DAY
      ensures !OldEnough(m.date, states[i].sweeps[k].now)
    {
      SweepAge(m.date, m.ms, states[i].sweeps[k].now);
    }
    hide OldEnough;
  }

  /** An entry leaves quarantine only by a sweep whose reading is past its folder's 30 days and which was answered not
      forbidden at its own last check. */
  lemma EntriesLeaveJustified(states: seq<State>, steps: seq<Step>, i: nat, date: Date, hex: Hex)
    requires IsRun(states, steps) && i < |steps|
    requires QuarantineFile(date, hex) in states[i].files && QuarantineFile(date, hex) !in states[i + 1].files
    ensures steps[i].UnlinkEntry? && steps[i].sweep < |states[i].sweeps|
    ensures OldEnough(date, states[i].sweeps[steps[i].sweep].now) && SweepAsked(steps, i, steps[i].sweep, date, hex)
  {
    assert Moves(states[i], steps[i], states[i + 1]);
    RunInv(states, steps, i);
    assert SweepOk(states[i].sweeps[steps[i].sweep]);
    SweepingAsked(states, steps, i, steps[i].sweep);
  }

  /** No step overwrites a file. */
  lemma NothingOverwritten(states: seq<State>, steps: seq<Step>, i: nat, path: Path)
    requires IsRun(states, steps) && i < |steps| && path in states[i].files && path in states[i + 1].files
    ensures states[i + 1].files[path] == states[i].files[path]
  {
    assert Moves(states[i], steps[i], states[i + 1]);
  }

  // ---------- the bound is exact ----------

  /** A marking run that stalls between its link and its unlink while a sweep takes the entry away. */
  function StalledSteps(hex: Hex, date: Date, ms: int, now: int): seq<Step> {
    [StartMark(ms, date, {}), AskMark(0, hex, false), Link(0),
     StartSweep(now), AskSweep(0, date, hex, false), UnlinkEntry(0), UnlinkSource(0)]
  }

  function StalledStates(hex: Hex, bytes: Bytes, date: Date, ms: int, now: int): seq<State> {
    var source, entry := ObjectFile(hex), QuarantineFile(date, hex);
    var m := Mover(Marking({}), ms, date, Between);
    var linked := m.(phase := Linked(hex, bytes));
    var sweep := Sweep(now, Idle);
    [State(map[source := bytes], [], []),
     State(map[source := bytes], [m], []),
     State(map[source := bytes], [m.(phase := Cleared(hex))], []),
     State(map[source := bytes, entry := bytes], [linked], []),
     State(map[source := bytes, entry := bytes], [linked], [sweep]),
     State(map[source := bytes, entry := bytes], [linked], [sweep.(phase := Doomed(date, hex))]),
     State(map[source := bytes], [linked], [sweep]),
     State(map[], [m], [sweep])]
  }

  /** Whatever the readings, one sweep that finds a stalled mover's folder old enough can lose the object: every answer
      was not forbidden, and at the end it is nowhere. */
  lemma StalledMarkLosesObject(hex: Hex, bytes: Bytes, date: Date, ms: int, now: int)
    requires IsDateOf(date, ms) && OldEnough(date, now)
    ensures var states, steps := StalledStates(hex, bytes, date, ms, now), StalledSteps(hex, date, ms, now);
            && IsRun(states, steps) && ObjectFile(hex) in states[0].files && states[7].files == map[]
  {
    hide OldEnough, IsDateOf;
    var states, steps := StalledStates(hex, bytes, date, ms, now), StalledSteps(hex, date, ms, now);
    forall i | 0 <= i < |steps| ensures Moves(states[i], steps[i], states[i + 1]) {
      StalledMoves(hex, bytes, date, ms, now, i);
    }
  }

  lemma StalledMoves(hex: Hex, bytes: Bytes, date: Date, ms: int, now: int, i: nat)
    requires IsDateOf(date, ms) && OldEnough(date, now) && i < 7
    ensures var states, steps := StalledStates(hex, bytes, date, ms, now), StalledSteps(hex, date, ms, now);
            Moves(states[i], steps[i], states[i + 1])
  {
    hide OldEnough, IsDateOf;
    var states, steps := StalledStates(hex, bytes, date, ms, now), StalledSteps(hex, date, ms, now);
    if i == 5 {
      assert states[5].files - {QuarantineFile(date, hex)} == states[6].files;
    } else if i == 6 {
      assert states[6].files - {ObjectFile(hex)} == states[7].files;
    }
    if i in {1, 2, 6} { assert Apply(states[i], steps[i]).movers == states[i + 1].movers; }
    if i in {4, 5} { assert Apply(states[i], steps[i]).sweeps == states[i + 1].sweeps; }
  }

  /** The stalled run exists: marked at the epoch, swept thirty days on. */
  lemma StalledMarkExists(hex: Hex, bytes: Bytes)
    ensures exists states: seq<State>, steps: seq<Step> :: IsRun(states, steps) &&
              ObjectFile(hex) in states[0].files && states[|steps|].files == map[]
  {
    var date := CivilDate.Date(1970, 1, 1);
    assert IsDateOf(date, 0) && OldEnough(date, 30 * MS_PER_DAY) by {
      assert CivilDate.DaysBeforeYear(1970) == 719162 && CivilDate.DaysBeforeMonth(1970, 1) == 0;
      hide CivilDate.DaysBeforeYear, CivilDate.DaysBeforeMonth;
      assert CivilDate.DayNumber(date) == 0;
    }
    StalledMarkLosesObject(hex, bytes, date, 0, 30 * MS_PER_DAY);
    hide IsRun;
  }

  // ---------- an object replaced under a mover ----------

  /** A marking run links; a get moves the same object aside; a put installs it anew; the marking run unlinks that. */
  function ReplacedSteps(hex: Hex, renewed: Bytes, date: Date, ms: int): seq<Step> {
    [StartMark(ms, date, {}), AskMark(0, hex, false), Link(0), StartMove(ms, date, hex), Link(1), UnlinkSource(1),
     Install(hex, renewed), UnlinkSource(0)]
  }

  function ReplacedStates(hex: Hex, bytes: Bytes, renewed: Bytes, date: Date, ms: int): seq<State> {
    var source, entry := ObjectFile(hex), QuarantineFile(date, hex);
    var m, g := Mover(Marking({}), ms, date, Between), Mover(Reading, ms, date, Cleared(hex));
    var linked, held := m.(phase := Linked(hex, bytes)), g.(phase := Linked(hex, bytes));
    var gone := g.(phase := Stopped);
    var both := map[source := bytes, entry := bytes];
    [State(map[source := bytes], [], []),
     State(map[source := bytes], [m], []),
     State(map[source := bytes], [m.(phase := Cleared(hex))], []),
     State(both, [linked], []),
     State(both, [linked, g], []),
     State(both, [linked, held], []),
     State(map[entry := bytes], [linked, gone], []),
     State(map[entry := bytes, source := renewed], [linked, gone], []),
     State(map[entry := bytes], [m, gone], [])]
  }

  /** The losing run: the bytes of the object put last are nowhere, although no sweep has run. */
  lemma ReplacedObjectLost(hex: Hex, bytes: Bytes, renewed: Bytes, date: Date, ms: int)
    requires IsDateOf(date, ms) && bytes != renewed
    ensures var states, steps := ReplacedStates(hex, bytes, renewed, date, ms), ReplacedSteps(hex, renewed, date, ms);
            && IsRun(states, steps) && states[7].files[ObjectFile(hex)] == renewed
            && states[8].files == map[QuarantineFile(date, hex) := bytes]
  {
    hide IsDateOf;
    var states, steps := ReplacedStates(hex, bytes, renewed, date, ms), ReplacedSteps(hex, renewed, date, ms);
    forall i | 0 <= i < |steps| ensures Moves(states[i], steps[i], states[i + 1]) {
      ReplacedMoves(hex, bytes, renewed, date, ms, i);
    }
  }

  lemma ReplacedMoves(hex: Hex, bytes: Bytes, renewed: Bytes, date: Date, ms: int, i: nat)
    requires IsDateOf(date, ms) && i < 8
    ensures var states, steps := ReplacedStates(hex, bytes, renewed, date, ms), ReplacedSteps(hex, renewed, date, ms);
            Moves(states[i], steps[i], states[i + 1])
  {
    hide IsDateOf, OldEnough;
    var states, steps := ReplacedStates(hex, bytes, renewed, date, ms), ReplacedSteps(hex, renewed, date, ms);
    if i == 5 || i == 7 { assert states[i].files - {ObjectFile(hex)} == states[i + 1].files; }
    assert Apply(states[i], steps[i]).files == states[i + 1].files;
    assert Apply(states[i], steps[i]).movers == states[i + 1].movers;
  }
}
