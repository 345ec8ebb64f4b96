/** The per-key lock made of chained promises: each caller waits for the promise of the caller before it and
    leaves one of its own. A call is cut at its awaits into arriving, entering and leaving. */
module CasLock {

  type Key = string

  datatype Phase = Waiting | Running | Finished

  /** One call of withLock: the promise it waits for, by the index of the call that made it, and how far it is.
      Without a predecessor it waits for a promise that is resolved from the start. */
  datatype Call = Call(key: Key, prior: Option<nat>, phase: Phase)

  datatype Option<+T> = None | Some(value: T)

  /** Calls by order of arrival, the last promise per key, and the keys whose body runs. */
  datatype State = State(calls: seq<Call>, lockWaiters: map<Key, nat>, heldLocks: set<Key>)

  datatype Step = Arrive(key: Key) | Enter(call: nat) | Leave(call: nat)

  const START := State([], map[], {})

  /** The promise a call leaves behind resolves after its predecessor's and after its own gate was released. */
  predicate Resolved(calls: seq<Call>, i: nat)
    decreases i
  {
    i < |calls| && calls[i].phase == Finished && PriorResolved(calls, i)
  }

  predicate PriorResolved(calls: seq<Call>, i: nat)
    decreases i, 0
  {
    i < |calls| &&
    match calls[i].prior
    case None => true
    case Some(p) => p < i && Resolved(calls, p)
  }

  predicate Enabled(s: State, step: Step) {
    match step
    case Arrive(_) => true
    case Enter(i) => i < |s.calls| && s.calls[i].phase == Waiting && PriorResolved(s.calls, i)
    case Leave(i) => i < |s.calls| && s.calls[i].phase == Running
  }

  function Without(m: map<Key, nat>, key: Key): map<Key, nat> {
    map k | k in m && k != key :: m[k]
  }

  function Apply(s: State, step: Step): State
    requires Enabled(s, step)
  {
    match step
    case Arrive(key) =>
      var prior := if key in s.lockWaiters then Some(s.lockWaiters[key]) else None;
      State(s.calls + [Call(key, prior, Waiting)], s.lockWaiters[key := |s.calls|], s.heldLocks)
    case Enter(i) =>
      State(s.calls[i := s.calls[i].(phase := Running)], s.lockWaiters, s.heldLocks + {s.calls[i].key})
    case Leave(i) =>
      var key := s.calls[i].key;
      State(s.calls[i := s.calls[i].(phase := Finished)],
            if key in s.lockWaiters && s.lockWaiters[key] == i then Without(s.lockWaiters, key) else s.lockWaiters,
            s.heldLocks - {key})
  }

  // ---------- the invariant ----------

  /** Call i waits for the call of its key that arrived last before it, unless all earlier ones had finished. */
  ghost predicate Chained(calls: seq<Call>, i: nat)
    requires i < |calls|
  {
    match calls[i].prior
    case None => forall j :: 0 <= j < i && calls[j].key == calls[i].key ==> calls[j].phase == Finished
    case Some(p) => p < i && calls[p].key == calls[i].key && forall j :: p < j < i ==> calls[j].key != calls[i].key
  }

  ghost predicate AllChained(calls: seq<Call>) {
    forall i :: 0 <= i < |calls| ==> Chained(calls, i)
  }

  /** Calls run and finish in their order of arrival. */
  ghost predicate InTurn(calls: seq<Call>) {
    forall i, j :: 0 <= i < j < |calls| && calls[i].key == calls[j].key && calls[j].phase != Waiting ==>
      calls[i].phase == Finished
  }

  /** A key has an entry exactly while a call for it is unfinished, and the entry names the last such call. */
  ghost predicate EntriesRight(s: State) {
    && (forall key :: key in s.lockWaiters ==> LastCall(s.calls, key, s.lockWaiters[key]))
    && (forall i :: 0 <= i < |s.calls| && s.calls[i].phase != Finished ==> s.calls[i].key in s.lockWaiters)
  }

  ghost predicate HeldRight(s: State) {
    && (forall key :: key in s.heldLocks ==> exists i :: 0 <= i < |s.calls| && s.calls[i].key == key && s.calls[i].phase == Running)
    && (forall i :: 0 <= i < |s.calls| && s.calls[i].phase == Running ==> s.calls[i].key in s.heldLocks)
  }

  ghost predicate Inv(s: State) {
    AllChained(s.calls) && InTurn(s.calls) && EntriesRight(s) && HeldRight(s)
  }

  /** A resolved promise means that every call of the key up to its maker has finished, and the other way round. */
  lemma {:induction false} ResolvedExactly(calls: seq<Call>, i: nat)
    requires AllChained(calls) && i < |calls|
    ensures Resolved(calls, i) <==> forall j :: 0 <= j <= i && calls[j].key == calls[i].key ==> calls[j].phase == Finished
    decreases i
  {
    assert Chained(calls, i);
    match calls[i].prior
    case None => { }
    case Some(p) => ResolvedExactly(calls, p);
  }

  lemma PriorExactly(calls: seq<Call>, i: nat)
    requires AllChained(calls) && i < |calls|
    ensures PriorResolved(calls, i) <==> forall j :: 0 <= j < i && calls[j].key == calls[i].key ==> calls[j].phase == Finished
  {
    assert Chained(calls, i);
    match calls[i].prior
    case None => { }
    case Some(p) => ResolvedExactly(calls, p);
  }

  lemma ChainedKeeps(calls: seq<Call>, next: seq<Call>)
    requires AllChained(calls) && |calls| <= |next|
    requires forall j :: 0 <= j < |calls| ==>
               next[j].key == calls[j].key && next[j].prior == calls[j].prior
               && (calls[j].phase == Finished ==> next[j].phase == Finished)
    ensures forall j :: 0 <= j < |calls| ==> Chained(next, j)
  {
    forall j | 0 <= j < |calls| ensures Chained(next, j) { assert Chained(calls, j); }
  }

  lemma ArriveKeepsHeld(s: State, key: Key)
    requires HeldRight(s)
    ensures HeldRight(Apply(s, Arrive(key)))
  {
    var t := Apply(s, Arrive(key));
    forall k | k in t.heldLocks ensures exists j :: 0 <= j < |t.calls| && t.calls[j].key == k && t.calls[j].phase == Running {
      var j :| 0 <= j < |s.calls| && s.calls[j].key == k && s.calls[j].phase == Running;
      assert t.calls[j] == s.calls[j];
    }
  }

  /** The entry of a key names a call of it that is unfinished and the last. */
  ghost predicate LastCall(calls: seq<Call>, key: Key, w: nat) {
    w < |calls| && calls[w].key == key && calls[w].phase != Finished && forall j :: w < j < |calls| ==> calls[j].key != key
  }

  lemma ArriveKeepsEntries(s: State, key: Key)
    requires EntriesRight(s)
    ensures EntriesRight(Apply(s, Arrive(key)))
  {
    var t := Apply(s, Arrive(key));
    forall k | k in t.lockWaiters ensures LastCall(t.calls, k, t.lockWaiters[k]) {
      if k != key { assert LastCall(s.calls, k, s.lockWaiters[k]); }
    }
  }

  lemma ArrivesChained(s: State, key: Key)
    requires EntriesRight(s)
    ensures Chained(Apply(s, Arrive(key)).calls, |s.calls|)
  {
    if key in s.lockWaiters { assert LastCall(s.calls, key, s.lockWaiters[key]); }
  }

  lemma ArriveKeeps(s: State, key: Key)
    requires Inv(s)
    ensures Inv(Apply(s, Arrive(key)))
  {
    var t := Apply(s, Arrive(key));
    ChainedKeeps(s.calls, t.calls);
    ArrivesChained(s, key);
    hide HeldRight, EntriesRight, Chained;
    ArriveKeepsEntries(s, key);
    ArriveKeepsHeld(s, key);
  }

  lemma EnterKeeps(s: State, i: nat)
    requires Inv(s) && Enabled(s, Enter(i))
    ensures Inv(Apply(s, Enter(i)))
  {
    PriorExactly(s.calls, i);
    var t := Apply(s, Enter(i));
    ChainedKeeps(s.calls, t.calls);
    hide Chained, PriorResolved;
    assert t.calls[i].phase == Running;
  }

  lemma LeaveKeeps(s: State, i: nat)
    requires Inv(s) && Enabled(s, Leave(i))
    ensures Inv(Apply(s, Leave(i)))
  {
    var t := Apply(s, Leave(i));
    ChainedKeeps(s.calls, t.calls);
    hide Chained, PriorResolved;
    forall k | k in t.heldLocks ensures exists j :: 0 <= j < |t.calls| && t.calls[j].key == k && t.calls[j].phase == Running {
      var j :| 0 <= j < |s.calls| && s.calls[j].key == k && s.calls[j].phase == Running;
      assert t.calls[j].key == k && t.calls[j].phase == Running;
    }
  }

  lemma StepKeeps(s: State, step: Step)
    requires Inv(s) && Enabled(s, step)
    ensures Inv(Apply(s, step))
  {
    match step
    case Arrive(key) => ArriveKeeps(s, key);
    case Enter(i) => EnterKeeps(s, i);
    case Leave(i) => LeaveKeeps(s, i);
  }

  // ---------- whole runs ----------

  ghost predicate IsRun(states: seq<State>, steps: seq<Step>) {
    && |states| == |steps| + 1 && states[0] == START
    && forall i, j :: 0 <= i && j == i + 1 && j < |states| ==> Enabled(states[i], steps[i]) && states[j] == Apply(states[i], steps[i])
  }

  lemma {:induction false} RunInv(states: seq<State>, steps: seq<Step>, k: nat)
    requires IsRun(states, steps) && k < |states|
    ensures Inv(states[k])
  {
    if k > 0 {
      RunInv(states, steps, k - 1);
      StepKeeps(states[k - 1], steps[k - 1]);
    }
  }

  /** In every reachable state two bodies of one key never run at once, bodies run in order of arrival, and the entry
      of a key is there exactly while the key is in use. */
  lemma MutualExclusion(states: seq<State>, steps: seq<Step>, k: nat)
    requires IsRun(states, steps) && k < |states|
    ensures var calls := states[k].calls;
      && (forall i, j :: 0 <= i < j < |calls| && calls[i].key == calls[j].key ==>
           !(calls[i].phase == Running && calls[j].phase == Running))
      && (forall i, j :: 0 <= i < j < |calls| && calls[i].key == calls[j].key && calls[j].phase != Waiting ==>
           calls[i].phase == Finished)
      && (forall key :: key in states[k].lockWaiters <==>
           exists i :: 0 <= i < |calls| && calls[i].key == key && calls[i].phase != Finished)
      && (forall key :: key in states[k].heldLocks <==>
           exists i :: 0 <= i < |calls| && calls[i].key == key && calls[i].phase == Running)
  {
    RunInv(states, steps, k);
    hide Apply, Enabled, AllChained;
  }

  // ---------- a queue per key ----------

  /** The unfinished calls of a key in order of arrival. */
  function QueueOf(calls: seq<Call>, key: Key): seq<nat> {
    if calls == [] then []
    else
      var n := |calls| - 1;
      QueueOf(calls[..n], key) + (if calls[n].key == key && calls[n].phase != Finished then [n] else [])
  }

  lemma {:induction false} QueueEmpty(calls: seq<Call>, key: Key)
    requires forall j :: 0 <= j < |calls| && calls[j].key == key ==> calls[j].phase == Finished
    ensures QueueOf(calls, key) == []
  {
    if calls != [] { QueueEmpty(calls[..|calls| - 1], key); }
  }

  lemma {:induction false} QueueSame(calls: seq<Call>, next: seq<Call>, key: Key)
    requires |calls| == |next|
    requires forall j :: 0 <= j < |calls| ==> calls[j].key == next[j].key
    requires forall j :: 0 <= j < |calls| && calls[j].key == key ==> (calls[j].phase == Finished <==> next[j].phase == Finished)
    ensures QueueOf(calls, key) == QueueOf(next, key)
  {
    if calls != [] { QueueSame(calls[..|calls| - 1], next[..|next| - 1], key); }
  }

  /** The first unfinished call heads the queue; finishing it removes it and nothing else. */
  lemma {:induction false} QueueHead(calls: seq<Call>, i: nat)
    requires i < |calls| && calls[i].phase != Finished
    requires forall j :: 0 <= j < i && calls[j].key == calls[i].key ==> calls[j].phase == Finished
    ensures QueueOf(calls, calls[i].key) == [i] + QueueOf(calls[i := calls[i].(phase := Finished)], calls[i].key)
    decreases |calls|
  {
    var n, done := |calls| - 1, calls[i].(phase := Finished);
    if i == n {
      QueueEmpty(calls[..n], calls[i].key);
      assert calls[i := done][..n] == calls[..n];
    } else {
      QueueHead(calls[..n], i);
      assert calls[i := done][..n] == calls[..n][i := done];
    }
  }

  ghost predicate SomeRuns(calls: seq<Call>, key: Key) {
    exists i :: 0 <= i < |calls| && calls[i].key == key && calls[i].phase == Running
  }

  /** Every step of the promise chain is the step of a first-in, first-out queue: arrivals join the tail, only the head
      enters, and only while nobody runs, and only the head leaves. Other keys are not touched. */
  lemma StepIsQueueStep(s: State, step: Step, key: Key)
    requires Inv(s) && Enabled(s, step)
    ensures var before, after := QueueOf(s.calls, key), QueueOf(Apply(s, step).calls, key);
      match step
      case Arrive(k) => after == if k == key then before + [|s.calls|] else before
      case Enter(i) =>
        && after == before
        && (s.calls[i].key == key ==> before != [] && before[0] == i && !SomeRuns(s.calls, key))
      case Leave(i) => if s.calls[i].key == key then before == [i] + after else after == before
  {
    var t := Apply(s, step);
    match step
    case Arrive(k) => assert t.calls[..|s.calls|] == s.calls;
    case Enter(i) =>
      PriorExactly(s.calls, i);
      QueueSame(s.calls, t.calls, key);
      hide PriorResolved, Chained, EntriesRight, HeldRight;
      if s.calls[i].key == key { QueueHead(s.calls, i); }
    case Leave(i) =>
      hide Chained, EntriesRight, HeldRight;
      if s.calls[i].key == key { QueueHead(s.calls, i); } else { QueueSame(s.calls, t.calls, key); }
  }

  /** While a key is in use, the first of its unfinished calls can always move. */
  lemma Progress(s: State, key: Key)
    requires Inv(s) && key in s.lockWaiters
    ensures QueueOf(s.calls, key) != []
    ensures var head := QueueOf(s.calls, key)[0];
      Enabled(s, Enter(head)) || Enabled(s, Leave(head))
  {
    var i := FirstUnfinished(s.calls, key, s.lockWaiters[key]);
    QueueHead(s.calls, i);
    PriorExactly(s.calls, i);
  }

  ghost function FirstUnfinished(calls: seq<Call>, key: Key, bound: nat): (i: nat)
    requires bound < |calls| && calls[bound].key == key && calls[bound].phase != Finished
    ensures i <= bound && calls[i].key == key && calls[i].phase != Finished
    ensures forall j :: 0 <= j < i && calls[j].key == key ==> calls[j].phase == Finished
    decreases bound
  {
    if exists j :: 0 <= j < bound && calls[j].key == key && calls[j].phase != Finished then
      var j :| 0 <= j < bound && calls[j].key == key && calls[j].phase != Finished;
      FirstUnfinished(calls, key, j)
    else bound
  }

  // ---------- the object ----------

  /** The fields withLock updates. A call is known by its order of arrival, which stands for the identity of its promise. */
  class LockTable {
    var calls: seq<Call>
    var lockWaiters: map<Key, nat>
    var heldLocks: set<Key>

    ghost function Abstract(): State
      reads this
    {
      State(calls, lockWaiters, heldLocks)
    }

    constructor ()
      ensures Abstract() == START && Inv(Abstract())
    {
      calls, lockWaiters, heldLocks := [], map[], {};
    }

    /** Up to the first await: take the last promise of the key and leave one's own. */
    method BeginCall(key: Key) returns (call: nat)
      requires Inv(Abstract())
      modifies this
      ensures Inv(Abstract()) && Abstract() == Apply(old(Abstract()), Arrive(key)) && call == |old(calls)|
    {
      StepKeeps(Abstract(), Arrive(key));
      var prior := if key in lockWaiters then Some(lockWaiters[key]) else None;
      call := |calls|;
      calls := calls + [Call(key, prior, Waiting)];
      lockWaiters := lockWaiters[key := call];
    }

    /** After the await: the body starts. No other body of the key runs, and every earlier call of it has finished. */
    method EnterBody(call: nat)
      requires Inv(Abstract()) && Enabled(Abstract(), Enter(call))
      modifies this
      ensures Inv(Abstract()) && Abstract() == Apply(old(Abstract()), Enter(call))
      ensures forall j :: 0 <= j < call && calls[j].key == calls[call].key ==> calls[j].phase == Finished
      ensures forall j :: call < j < |calls| && calls[j].key == calls[call].key ==> calls[j].phase == Waiting
    {
      StepKeeps(Abstract(), Enter(call));
      PriorExactly(calls, call);
      hide Chained, PriorResolved;
      heldLocks := heldLocks + {calls[call].key};
      calls := calls[call := calls[call].(phase := Running)];
    }

    /** The finally block: release the gate, drop the entry if no later call replaced it. */
    method LeaveBody(call: nat)
      requires Inv(Abstract()) && Enabled(Abstract(), Leave(call))
      modifies this
      ensures Inv(Abstract()) && Abstract() == Apply(old(Abstract()), Leave(call))
    {
      StepKeeps(Abstract(), Leave(call));
      var key := calls[call].key;
      heldLocks := heldLocks - {key};
      calls := calls[call := calls[call].(phase := Finished)];
      if key in lockWaiters && lockWaiters[key] == call {
        lockWaiters := Without(lockWaiters, key);
      }
    }
  }
}
