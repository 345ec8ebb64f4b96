/** The sweep of the incoming area beside running puts. Every await is a point where the others may act, so puts and
    sweeps are cut into steps and any number of both run interleaved. */
module CasIncoming {

  type Name = string

  const INCOMING_SWEEP_MIN_MS := 60 * 60 * 1000

  /** A sweep: it lists the directory once, then takes the entries one by one through the protection check, the stat and
      the unlink. */
  datatype Phase = Scanning | Checked(name: Name) | Doomed(victim: Name) | Ended

  datatype Sweep = Sweep(now: int, entries: set<Name>, phase: Phase)

  /** Incoming files with their modification times, the protected names, all names ever drawn, and the sweeps. */
  datatype State = State(files: map<Name, int>, inFlight: set<Name>, drawn: set<Name>, sweeps: seq<Sweep>)

  datatype Step =
    | Register(name: Name)              // a put draws a fresh name and protects it before the file exists
    | Create(name: Name, mtime: int)    // the put writes its file
    | OwnerUnlink(name: Name)           // the put installs or discards its file
    | Finish(name: Name)                // the put ends its protection
    | StartSweep(now: int)
    | TakeEntry(sweep: nat, name: Name)
    | Stat(sweep: nat)
    | SweepUnlink(sweep: nat)
    | EndSweep(sweep: nat)

  predicate Enabled(s: State, step: Step) {
    match step
    case Register(name) => name !in s.drawn
    case Create(name, _) => name in s.inFlight && name !in s.files
    case OwnerUnlink(name) => name in s.drawn
    case Finish(name) => name in s.inFlight
    case StartSweep(_) => true
    case TakeEntry(k, name) => k < |s.sweeps| && s.sweeps[k].phase == Scanning && name in s.sweeps[k].entries
    case Stat(k) => k < |s.sweeps| && s.sweeps[k].phase.Checked?
    case SweepUnlink(k) => k < |s.sweeps| && s.sweeps[k].phase.Doomed?
    case EndSweep(k) => k < |s.sweeps| && s.sweeps[k].phase == Scanning && s.sweeps[k].entries == {}
  }

  function WithPhase(s: State, k: nat, phase: Phase): State
    requires k < |s.sweeps|
  {
    s.(sweeps := s.sweeps[k := s.sweeps[k].(phase := phase)])
  }

  function Apply(s: State, step: Step): State
    requires Enabled(s, step)
  {
    match step
    case Register(name) => s.(inFlight := s.inFlight + {name}, drawn := s.drawn + {name})
    case Create(name, mtime) => s.(files := s.files[name := mtime])
    case OwnerUnlink(name) => s.(files := s.files - {name})
    case Finish(name) => s.(inFlight := s.inFlight - {name})
    case StartSweep(now) => s.(sweeps := s.sweeps + [Sweep(now, s.files.Keys, Scanning)])
    case TakeEntry(k, name) =>
      var sweep := s.sweeps[k];
      s.(sweeps := s.sweeps[k := Sweep(sweep.now, sweep.entries - {name}, if name in s.inFlight then Scanning else Checked(name))])
    case Stat(k) =>
      var name := s.sweeps[k].phase.name;
      if name !in s.files || s.sweeps[k].now - s.files[name] < INCOMING_SWEEP_MIN_MS then WithPhase(s, k, Scanning)
      else WithPhase(s, k, Doomed(name))
    case SweepUnlink(k) =>
      WithPhase(s.(files := s.files - {s.sweeps[k].phase.victim}), k, Scanning)
    case EndSweep(k) => WithPhase(s, k, Ended)
  }

  /** What a sweep holds: names drawn before, a name past the check is unprotected, and one past the stat is old. */
  ghost predicate SweepOk(s: State, sweep: Sweep) {
    && sweep.entries <= s.drawn
    && match sweep.phase
      case Checked(name) => name in s.drawn && name !in s.inFlight
      case Doomed(name) =>
        && name in s.drawn && name !in s.inFlight
        && (name in s.files ==> sweep.now - s.files[name] >= INCOMING_SWEEP_MIN_MS)
      case _ => true
  }

  ghost predicate Inv(s: State) {
    && s.inFlight <= s.drawn && s.files.Keys <= s.drawn
    && forall k :: 0 <= k < |s.sweeps| ==> SweepOk(s, s.sweeps[k])
  }

  /** At the start nothing is protected and the names on disk count as drawn. */
  ghost predicate Initial(s: State) {
    s.inFlight == {} && s.files.Keys <= s.drawn && s.sweeps == []
  }

  lemma StepKeeps(s: State, step: Step)
    requires Inv(s) && Enabled(s, step)
    ensures Inv(Apply(s, step))
  {
    var t := Apply(s, step);
    forall k | 0 <= k < |t.sweeps| ensures SweepOk(t, t.sweeps[k]) {
      if k < |s.sweeps| { assert SweepOk(s, s.sweeps[k]); }
    }
  }

  ghost predicate IsRun(states: seq<State>, steps: seq<Step>) {
    && |states| == |steps| + 1 && Initial(states[0])
    && forall i, j :: 0 <= i && j == i + 1 && j < |states| ==> Enabled(states[i], steps[i]) && states[j] == Apply(states[i], steps[i])
  }

  lemma RunStep(states: seq<State>, steps: seq<Step>, i: nat)
    requires IsRun(states, steps) && i < |steps|
    ensures Enabled(states[i], steps[i]) && states[i + 1] == Apply(states[i], steps[i])
  {
    hide Enabled, Apply;
    var j := i + 1;
    assert states[j] == states[i + 1];
  }

  lemma {:induction false} RunInv(states: seq<State>, steps: seq<Step>, k: nat)
    requires IsRun(states, steps) && k < |states|
    ensures Inv(states[k])
  {
    if k > 0 {
      RunInv(states, steps, k - 1);
      RunStep(states, steps, k - 1);
      hide Enabled, Apply, Inv;
      StepKeeps(states[k - 1], steps[k - 1]);
    }
  }

  /** In every run, a sweep unlinks only names that are not in flight at that moment, and only files last written at
      least an hour before the sweep read the clock. */
  lemma SweepSparesInFlight(states: seq<State>, steps: seq<Step>, i: nat)
    requires IsRun(states, steps) && i < |steps| && steps[i].SweepUnlink?
    ensures Enabled(states[i], steps[i])
    ensures var sweep := states[i].sweeps[steps[i].sweep];
      && sweep.phase.victim !in states[i].inFlight
      && (sweep.phase.victim in states[i].files ==> sweep.now - states[i].files[sweep.phase.victim] >= 3_600_000)
  {
    RunInv(states, steps, i);
    RunStep(states, steps, i);
    assert SweepOk(states[i], states[i].sweeps[steps[i].sweep]);
  }

  /** A protected file disappears only by the hand of its own put. */
  lemma InFlightFilesStay(states: seq<State>, steps: seq<Step>, i: nat, name: Name)
    requires IsRun(states, steps) && i < |steps| && name in states[i].inFlight && name in states[i].files
    requires steps[i] != OwnerUnlink(name)
    ensures name in states[i + 1].files && states[i + 1].files[name] == states[i].files[name]
  {
    RunInv(states, steps, i);
    RunStep(states, steps, i);
    if steps[i].SweepUnlink? { SweepSparesInFlight(states, steps, i); }
  }

  /** A file last written at `mtime` is gone, or the sweep has yet to deal with it. */
  ghost predicate Pursued(s: State, k: nat, now: int, name: Name, mtime: int) {
    && k < |s.sweeps| && s.sweeps[k].now == now && (s.sweeps[k].phase == Ended ==> s.sweeps[k].entries == {})
    && (name in s.files ==>
          && s.files[name] == mtime
          && (name in s.sweeps[k].entries || s.sweeps[k].phase == Checked(name) || s.sweeps[k].phase == Doomed(name)))
  }

  lemma StepPursues(s: State, step: Step, k: nat, now: int, name: Name, mtime: int)
    requires Enabled(s, step) && Pursued(s, k, now, name, mtime) && name !in s.inFlight && now - mtime >= 3_600_000
    ensures Pursued(Apply(s, step), k, now, name, mtime)
  {
  }

  lemma {:induction false} RunPursues(states: seq<State>, steps: seq<Step>, i: nat, j: nat, name: Name)
    requires IsRun(states, steps) && i < j < |states| && steps[i].StartSweep? && name in states[i].files
    requires steps[i].now - states[i].files[name] >= 3_600_000
    requires forall t :: i <= t <= j ==> name !in states[t].inFlight
    ensures Pursued(states[j], |states[i].sweeps|, steps[i].now, name, states[i].files[name])
    decreases j
  {
    RunStep(states, steps, j - 1);
    if j > i + 1 {
      RunPursues(states, steps, i, j - 1, name);
      hide Enabled, Apply, Pursued;
      StepPursues(states[j - 1], steps[j - 1], |states[i].sweeps|, steps[i].now, name, states[i].files[name]);
    }
  }

  /** A sweep that has ended has left no stale file: one that was an hour old when it read the clock and listed the
      directory, and that no put has protected since, is gone, whatever ran beside it. */
  lemma EndedSweepLeavesNothingStale(states: seq<State>, steps: seq<Step>, i: nat, j: nat, name: Name)
    requires IsRun(states, steps) && i < j < |states| && steps[i].StartSweep? && name in states[i].files
    requires steps[i].now - states[i].files[name] >= 3_600_000
    requires forall t :: i <= t <= j ==> name !in states[t].inFlight
    requires |states[i].sweeps| < |states[j].sweeps| && states[j].sweeps[|states[i].sweeps|].phase == Ended
    ensures name !in states[j].files
  {
    RunPursues(states, steps, i, j, name);
    hide Enabled, Apply;
  }
}
