/** The outbound mutation outbox: durable rows, the guarded updates of the local
    store, and the signed call that drives them around one network roundtrip.
    A call carries the semantic digest of its body; a stored response is the
    response itself. */
module Outbox {

  type OpId = string
  type CallerId = nat
  type Body = string
  type Digest = string
  type Response = string

  datatype Option<+T> = None | Some(value: T)

  datatype OutboundState = Prepared | InFlight | Completed | OutcomeUnknown

  datatype Row = Row(digest: Digest, body: Body, state: OutboundState, response: Option<Response>)

  type Rows = map<OpId, Row>

  // ---------- the store's statements ----------

  datatype Prepare = Missing | Conflict | Send | ResumeCompleted(response: Response) | UnknownOutcome | Damaged

  /** The part of `prepare_mutation` that reads an existing row. */
  function Loaded(rows: Rows, op: OpId, digest: Digest): Prepare {
    if op !in rows then Missing
    else if rows[op].digest != digest then Conflict
    else match rows[op].state
         case Prepared => Send
         case Completed => if rows[op].response.Some? then ResumeCompleted(rows[op].response.value) else Damaged
         case InFlight => UnknownOutcome
         case OutcomeUnknown => UnknownOutcome
  }

  /** Inserting fails where a row of the id exists. */
  function Inserted(rows: Rows, op: OpId, digest: Digest, body: Body): Option<Rows> {
    if op in rows then None else Some(rows[op := Row(digest, body, Prepared, None)])
  }

  /** A guarded update: only a prepared row goes in flight. */
  function MarkedInFlight(rows: Rows, op: OpId): Option<Rows> {
    if op in rows && rows[op].state == Prepared then Some(rows[op := rows[op].(state := InFlight)]) else None
  }

  /** A guarded update: only a prepared row or one in flight completes. */
  function MarkedCompleted(rows: Rows, op: OpId, response: Response): Option<Rows> {
    if op in rows && (rows[op].state == Prepared || rows[op].state == InFlight)
    then Some(rows[op := rows[op].(state := Completed, response := Some(response))])
    else None
  }

  /** A guarded update: only a row in flight becomes unknown; changing nothing is not an error. */
  function MarkedUnknown(rows: Rows, op: OpId): Rows {
    if op in rows && rows[op].state == InFlight then rows[op := rows[op].(state := OutcomeUnknown)] else rows
  }

  /** `reconcile_on_open`: every row left in flight has an unknown outcome. */
  function Reconciled(rows: Rows): Rows {
    map op | op in rows :: if rows[op].state == InFlight then rows[op].(state := OutcomeUnknown) else rows[op]
  }

  // ---------- the step system ----------

  /** A signed call: `op`, `body` and `digest` are its arguments. */
  datatype Call = Call(op: OpId, body: Body, digest: Digest)

  datatype Pc =
    | Loading(call: Call)
    | Inserting(call: Call)
    | Marking(call: Call)
    | Sending(call: Call)
    | Awaiting(call: Call)
    | Answered(call: Call, response: Response)
    | Losing(call: Call)
    | Done(call: Call, result: Option<Response>)

  /** `sent`, `answers` and `returned` record what happened on the network and what
      calls returned; no step reads them. */
  datatype State = State(
    rows: Rows,
    callers: map<CallerId, Pc>,
    sent: seq<Call>,
    answers: map<OpId, Response>,
    returned: seq<(Call, Response)>)

  datatype Step =
    | Begin(c: CallerId, call: Call)
    | Load(c: CallerId)
    | Insert(c: CallerId)
    | MarkInFlight(c: CallerId)
    | StartRoundtrip(c: CallerId)
    | Answer(c: CallerId, response: Response)
    | NetworkError(c: CallerId)
    | Complete(c: CallerId)
    | CompleteThenError(c: CallerId)
    | CompleteError(c: CallerId)
    | MarkUnknown(c: CallerId)
    | Abort(c: CallerId)
    | CrashAndReopen

  predicate Enabled(s: State, t: Step) {
    match t
    case Begin(c, _) => c !in s.callers
    case Load(c) => c in s.callers && s.callers[c].Loading?
    case Insert(c) => c in s.callers && s.callers[c].Inserting?
    case MarkInFlight(c) => c in s.callers && s.callers[c].Marking?
    case StartRoundtrip(c) => c in s.callers && s.callers[c].Sending?
    case Answer(c, _) => c in s.callers && s.callers[c].Awaiting?
    case NetworkError(c) => c in s.callers && s.callers[c].Awaiting?
    case Complete(c) => c in s.callers && s.callers[c].Answered?
    case CompleteThenError(c) => c in s.callers && s.callers[c].Answered?
    case CompleteError(c) => c in s.callers && s.callers[c].Answered?
    case MarkUnknown(c) => c in s.callers && s.callers[c].Losing?
    case Abort(c) => c in s.callers && !s.callers[c].Done?
    case CrashAndReopen => true
  }

  function Goto(s: State, c: CallerId, pc: Pc): State {
    s.(callers := s.callers[c := pc])
  }

  function Return(s: State, c: CallerId, call: Call, response: Response): State {
    Goto(s, c, Done(call, Some(response))).(returned := s.returned + [(call, response)])
  }

  function Apply(s: State, t: Step): State
    requires Enabled(s, t)
  {
    match t
    case Begin(c, call) => Goto(s, c, Loading(call))
    case Load(c) =>
      var call := s.callers[c].call;
      (match Loaded(s.rows, call.op, call.digest)
       case Missing => Goto(s, c, Inserting(call))
       case Send => Goto(s, c, Marking(call))
       case ResumeCompleted(response) => Return(s, c, call, response)
       case Conflict => Goto(s, c, Done(call, None))
       case UnknownOutcome => Goto(s, c, Done(call, None))
       case Damaged => Goto(s, c, Done(call, None)))
    case Insert(c) =>
      var call := s.callers[c].call;
      (match Inserted(s.rows, call.op, call.digest, call.body)
       case Some(rows) => Goto(s, c, Marking(call)).(rows := rows)
       case None => Goto(s, c, Done(call, None)))
    case MarkInFlight(c) =>
      var call := s.callers[c].call;
      (match MarkedInFlight(s.rows, call.op)
       case Some(rows) => Goto(s, c, Sending(call)).(rows := rows)
       case None => Goto(s, c, Done(call, None)))
    case StartRoundtrip(c) =>
      var call := s.callers[c].call;
      Goto(s, c, Awaiting(call)).(sent := s.sent + [call])
    case Answer(c, response) =>
      var call := s.callers[c].call;
      Goto(s, c, Answered(call, response)).(answers := s.answers[call.op := response])
    case NetworkError(c) => Goto(s, c, Losing(s.callers[c].call))
    case Complete(c) =>
      var pc := s.callers[c];
      (match MarkedCompleted(s.rows, pc.call.op, pc.response)
       case Some(rows) => Return(s, c, pc.call, pc.response).(rows := rows)
       case None => Goto(s, c, Losing(pc.call)))
    case CompleteThenError(c) =>
      // the update committed and the sync after it failed
      var pc := s.callers[c];
      (match MarkedCompleted(s.rows, pc.call.op, pc.response)
       case Some(rows) => Goto(s, c, Losing(pc.call)).(rows := rows)
       case None => Goto(s, c, Losing(pc.call)))
    case CompleteError(c) => Goto(s, c, Losing(s.callers[c].call))
    case MarkUnknown(c) =>
      var call := s.callers[c].call;
      Goto(s, c, Done(call, None)).(rows := MarkedUnknown(s.rows, call.op))
    case Abort(c) => Goto(s, c, Done(s.callers[c].call, None))
    case CrashAndReopen => s.(callers := map[], rows := Reconciled(s.rows))
  }

  // ---------- the invariant ----------

  /** The one call that marked the row in flight and has not lost the answer yet. */
  predicate Owns(pc: Pc) {
    pc.Sending? || pc.Awaiting? || pc.Answered?
  }

  ghost predicate WasSent(sent: seq<Call>, op: OpId) {
    exists k :: 0 <= k < |sent| && sent[k].op == op
  }

  /** What a call's position in the code says about its row. */
  ghost predicate PcOk(s: State, pc: Pc) {
    var call := pc.call;
    match pc
    case Loading(_) => true
    case Inserting(_) => true
    case Done(_, _) => true
    case Marking(_) => call.op in s.rows && s.rows[call.op].digest == call.digest
    case Sending(_) => call.op in s.rows && s.rows[call.op].digest == call.digest &&
                       s.rows[call.op].state == InFlight && !WasSent(s.sent, call.op) && call.op !in s.answers
    case Awaiting(_) => call.op in s.rows && s.rows[call.op].digest == call.digest &&
                        s.rows[call.op].state == InFlight && WasSent(s.sent, call.op) && call.op !in s.answers
    case Answered(_, r) => call.op in s.rows && s.rows[call.op].digest == call.digest &&
                           s.rows[call.op].state == InFlight && WasSent(s.sent, call.op) &&
                           call.op in s.answers && s.answers[call.op] == r
    case Losing(_) => call.op in s.rows && s.rows[call.op].digest == call.digest &&
                      s.rows[call.op].state != Prepared && WasSent(s.sent, call.op)
  }

  ghost predicate CallersOk(s: State) {
    forall c :: c in s.callers ==> PcOk(s, s.callers[c])
  }

  /** No two calls hold one row, and a call that lost it excludes a holder. */
  ghost predicate Exclusive(s: State) {
    forall c, d ::
      (c in s.callers && d in s.callers && c != d && Owns(s.callers[c]) && s.callers[c].call.op == s.callers[d].call.op)
      ==> !Owns(s.callers[d]) && !s.callers[d].Losing?
  }

  ghost predicate RowOk(s: State, op: OpId)
    requires op in s.rows
  {
    && (s.rows[op].state == Completed <==> s.rows[op].response.Some?)
    && (s.rows[op].state == Completed ==> WasSent(s.sent, op) && op in s.answers && s.rows[op].response == Some(s.answers[op]))
    && (s.rows[op].state == Prepared ==> !WasSent(s.sent, op) && op !in s.answers)
  }

  ghost predicate RowsOk(s: State) {
    forall op :: op in s.rows ==> RowOk(s, op)
  }

  ghost predicate SentOk(s: State) {
    && (forall i, j :: 0 <= i < j < |s.sent| ==> s.sent[i].op != s.sent[j].op)
    && (forall k :: 0 <= k < |s.sent| ==> s.sent[k].op in s.rows && s.rows[s.sent[k].op].digest == s.sent[k].digest)
    && (forall op :: op in s.answers ==> WasSent(s.sent, op))
  }

  ghost predicate ReturnedOk(s: State) {
    forall k :: 0 <= k < |s.returned| ==>
      var (call, response) := s.returned[k];
      call.op in s.rows && s.rows[call.op].digest == call.digest && s.rows[call.op].state == Completed &&
      s.rows[call.op].response == Some(response)
  }

  ghost predicate Inv(s: State) {
    CallersOk(s) && Exclusive(s) && RowsOk(s) && SentOk(s) && ReturnedOk(s)
  }

  /** An empty store and no calls. */
  ghost predicate Init(s: State) {
    s == State(map[], map[], [], map[], [])
  }

  // ---------- every step keeps it ----------

  lemma OnlyPcMoves(s: State, c: CallerId, pc: Pc)
    requires Inv(s) && PcOk(s, pc) && !Owns(pc) && !pc.Losing?
    ensures Inv(Goto(s, c, pc))
  {
    hide WasSent;
  }

  lemma At(s: State, c: CallerId)
    requires CallersOk(s) && c in s.callers
    ensures PcOk(s, s.callers[c])
  {
  }

  /** Nobody but c holds, or has lost, the row of `op`. */
  ghost predicate Alone(s: State, c: CallerId, op: OpId) {
    forall d :: d in s.callers && d != c && s.callers[d].call.op == op ==> !Owns(s.callers[d]) && !s.callers[d].Losing?
  }

  lemma OwnerAlone(s: State, c: CallerId)
    requires Exclusive(s) && c in s.callers && Owns(s.callers[c])
    ensures Alone(s, c, s.callers[c].call.op)
  {
  }

  /** A change of one row, by a caller alone on it, leaves the other callers where they were. */
  lemma CallersAfterRow(s: State, s': State, c: CallerId, op: OpId)
    requires CallersOk(s) && c in s.callers && c in s'.callers
    requires s'.callers == s.callers[c := s'.callers[c]] && s'.sent == s.sent && s'.answers == s.answers
    requires op in s'.rows && s'.rows == s.rows[op := s'.rows[op]]
    requires op in s.rows ==> s.rows[op].digest == s'.rows[op].digest
    requires Alone(s, c, op) && PcOk(s', s'.callers[c])
    ensures CallersOk(s')
  {
    hide WasSent;
    forall d | d in s'.callers ensures PcOk(s', s'.callers[d]) {
      if d != c { At(s, d); }
    }
  }

  /** A change of one row that was not completed leaves the other rows and the records of the network right. */
  lemma RowsAfterRow(s: State, s': State, op: OpId)
    requires RowsOk(s) && SentOk(s) && ReturnedOk(s) && op in s.rows && s.rows[op].state != Completed
    requires s'.sent == s.sent && s'.answers == s.answers && s'.returned == s.returned
    requires op in s'.rows && s'.rows == s.rows[op := s'.rows[op]] && s.rows[op].digest == s'.rows[op].digest
    requires RowOk(s', op)
    ensures RowsOk(s') && SentOk(s') && ReturnedOk(s')
  {
    hide WasSent;
    forall other | other in s'.rows ensures RowOk(s', other) {
      if other != op { assert RowOk(s, other); }
    }
  }

  lemma ExclusiveAfter(s: State, s': State, c: CallerId)
    requires Exclusive(s) && c in s.callers && c in s'.callers && s'.callers == s.callers[c := s'.callers[c]]
    requires Owns(s'.callers[c]) || s'.callers[c].Losing? ==> Alone(s, c, s'.callers[c].call.op)
    ensures Exclusive(s')
  {
  }

  lemma KeepLoad(s: State, c: CallerId)
    requires Inv(s) && Enabled(s, Load(c))
    ensures Inv(Apply(s, Load(c)))
  {
    var call := s.callers[c].call;
    match Loaded(s.rows, call.op, call.digest)
    case Missing => OnlyPcMoves(s, c, Inserting(call));
    case Send => OnlyPcMoves(s, c, Marking(call));
    case ResumeCompleted(response) => OnlyPcMoves(s, c, Done(call, Some(response)));
    case Conflict => OnlyPcMoves(s, c, Done(call, None));
    case UnknownOutcome => OnlyPcMoves(s, c, Done(call, None));
    case Damaged => OnlyPcMoves(s, c, Done(call, None));
  }

  lemma KeepInsert(s: State, c: CallerId)
    requires Inv(s) && Enabled(s, Insert(c))
    ensures Inv(Apply(s, Insert(c)))
  {
    var call := s.callers[c].call;
    if call.op in s.rows {
      OnlyPcMoves(s, c, Done(call, None));
    } else {
      var s' := Apply(s, Insert(c));
      Unused(s, call.op);
      NobodyThere(s, call.op);
      hide CallersOk, Exclusive, WasSent;
      CallersAfterRow(s, s', c, call.op);
      ExclusiveAfter(s, s', c);
    }
  }

  lemma Unused(s: State, op: OpId)
    requires SentOk(s) && op !in s.rows
    ensures !WasSent(s.sent, op) && op !in s.answers
  {
  }

  lemma NobodyThere(s: State, op: OpId)
    requires CallersOk(s) && (op in s.rows ==> s.rows[op].state == Prepared)
    ensures forall c :: Alone(s, c, op)
  {
  }

  lemma KeepMarkInFlight(s: State, c: CallerId)
    requires Inv(s) && Enabled(s, MarkInFlight(c))
    ensures Inv(Apply(s, MarkInFlight(c)))
  {
    var call := s.callers[c].call;
    At(s, c);
    if MarkedInFlight(s.rows, call.op).None? {
      OnlyPcMoves(s, c, Done(call, None));
    } else {
      var s' := Apply(s, MarkInFlight(c));
      NobodyThere(s, call.op);
      assert RowOk(s, call.op);
      hide CallersOk, Exclusive, WasSent, SentOk, ReturnedOk, RowsOk;
      CallersAfterRow(s, s', c, call.op);
      ExclusiveAfter(s, s', c);
      RowsAfterRow(s, s', call.op);
    }
  }

  lemma SentMore(sent: seq<Call>, call: Call)
    ensures forall op :: WasSent(sent + [call], op) <==> WasSent(sent, op) || op == call.op
  {
    var more := sent + [call];
    forall op ensures WasSent(more, op) <==> WasSent(sent, op) || op == call.op {
      if op == call.op { assert more[|sent|].op == op; }
      if WasSent(sent, op) {
        var k :| 0 <= k < |sent| && sent[k].op == op;
        assert more[k].op == op;
      }
    }
  }

  lemma KeepStartRoundtrip(s: State, c: CallerId)
    requires Inv(s) && Enabled(s, StartRoundtrip(c))
    ensures Inv(Apply(s, StartRoundtrip(c)))
  {
    var call := s.callers[c].call;
    var s' := Apply(s, StartRoundtrip(c));
    SentMore(s.sent, call);
    forall k | 0 <= k < |s.sent| ensures s.sent[k].op != call.op {
      assert !WasSent(s.sent, call.op);
    }
  }

  lemma KeepAnswer(s: State, c: CallerId, response: Response)
    requires Inv(s) && Enabled(s, Answer(c, response))
    ensures Inv(Apply(s, Answer(c, response)))
  {
    var s' := Apply(s, Answer(c, response));
    var op := s.callers[c].call.op;
    OwnerAlone(s, c);
    At(s, c);
    hide WasSent, Exclusive;
    ExclusiveAfter(s, s', c);
    forall d | d in s'.callers ensures PcOk(s', s'.callers[d]) {
      if d != c { At(s, d); }
    }
    forall other | other in s'.rows ensures RowOk(s', other) {
      assert RowOk(s, other);
    }
  }

  lemma KeepLose(s: State, c: CallerId)
    requires Inv(s) && c in s.callers && (s.callers[c].Awaiting? || s.callers[c].Answered?)
    ensures Inv(Goto(s, c, Losing(s.callers[c].call)))
  {
    hide WasSent;
  }

  /** The answer becomes the stored response, whether or not the caller learns it. */
  lemma KeepCompleted(s: State, c: CallerId, s': State)
    requires Inv(s) && c in s.callers && s.callers[c].Answered?
    requires MarkedCompleted(s.rows, s.callers[c].call.op, s.callers[c].response).Some?
    requires var pc := s.callers[c];
             var rows := MarkedCompleted(s.rows, pc.call.op, pc.response).value;
             s' == Return(s, c, pc.call, pc.response).(rows := rows) || s' == Goto(s, c, Losing(pc.call)).(rows := rows)
    ensures Inv(s')
  {
    hide WasSent, CallersOk, Exclusive;
    At(s, c);
    OwnerAlone(s, c);
    CallersAfterRow(s, s', c, s.callers[c].call.op);
    ExclusiveAfter(s, s', c);
  }

  lemma KeepMarkUnknown(s: State, c: CallerId)
    requires Inv(s) && Enabled(s, MarkUnknown(c))
    ensures Inv(Apply(s, MarkUnknown(c)))
  {
    var call := s.callers[c].call;
    var s' := Apply(s, MarkUnknown(c));
    At(s, c);
    if s.rows[call.op].state == InFlight {
      assert RowOk(s, call.op);
      hide WasSent, CallersOk, Exclusive, SentOk, ReturnedOk, RowsOk;
      LostCallers(s, s', c);
      ExclusiveAfter(s, s', c);
      RowsAfterRow(s, s', call.op);
    } else {
      OnlyPcMoves(s, c, Done(call, None));
    }
  }

  lemma LostCallers(s: State, s': State, c: CallerId)
    requires CallersOk(s) && Exclusive(s) && c in s.callers && s.callers[c].Losing?
    requires var call := s.callers[c].call;
             && call.op in s.rows && s.rows[call.op].state == InFlight
             && s' == Goto(s, c, Done(call, None)).(rows := MarkedUnknown(s.rows, call.op))
    ensures CallersOk(s')
  {
    hide WasSent;
    var op := s.callers[c].call.op;
    forall d | d in s'.callers ensures PcOk(s', s'.callers[d]) {
      if d != c {
        At(s, d);
        assert s.callers[d].call.op == op ==> !Owns(s.callers[d]);
      }
    }
  }

  lemma KeepCrash(s: State)
    requires Inv(s)
    ensures Inv(Apply(s, CrashAndReopen))
  {
    var s' := Apply(s, CrashAndReopen);
    hide WasSent;
  }

  /** The invariant survives every step of every caller, the network and a crash. */
  lemma StepKeepsInv(s: State, t: Step)
    requires Inv(s) && Enabled(s, t)
    ensures Inv(Apply(s, t))
  {
    hide Inv, Apply;
    match t
    case Begin(c, call) => KeepBegin(s, c, call);
    case Load(c) => KeepLoad(s, c);
    case Insert(c) => KeepInsert(s, c);
    case MarkInFlight(c) => KeepMarkInFlight(s, c);
    case StartRoundtrip(c) => KeepStartRoundtrip(s, c);
    case Answer(c, response) => KeepAnswer(s, c, response);
    case NetworkError(c) => KeepNetworkError(s, c);
    case Complete(c) => KeepComplete(s, c);
    case CompleteThenError(c) => KeepCompleteThenError(s, c);
    case CompleteError(c) => KeepCompleteError(s, c);
    case MarkUnknown(c) => KeepMarkUnknown(s, c);
    case Abort(c) => KeepAbort(s, c);
    case CrashAndReopen => KeepCrash(s);
  }

  lemma KeepBegin(s: State, c: CallerId, call: Call)
    requires Inv(s) && Enabled(s, Begin(c, call))
    ensures Inv(Apply(s, Begin(c, call)))
  {
    OnlyPcMoves(s, c, Loading(call));
  }

  lemma KeepNetworkError(s: State, c: CallerId)
    requires Inv(s) && Enabled(s, NetworkError(c))
    ensures Inv(Apply(s, NetworkError(c)))
  {
    KeepLose(s, c);
  }

  lemma KeepAbort(s: State, c: CallerId)
    requires Inv(s) && Enabled(s, Abort(c))
    ensures Inv(Apply(s, Abort(c)))
  {
    OnlyPcMoves(s, c, Done(s.callers[c].call, None));
  }

  lemma KeepComplete(s: State, c: CallerId)
    requires Inv(s) && Enabled(s, Complete(c))
    ensures Inv(Apply(s, Complete(c)))
  {
    var pc := s.callers[c];
    if MarkedCompleted(s.rows, pc.call.op, pc.response).Some? {
      KeepCompleted(s, c, Apply(s, Complete(c)));
    } else {
      KeepLose(s, c);
    }
  }

  lemma KeepCompleteThenError(s: State, c: CallerId)
    requires Inv(s) && Enabled(s, CompleteThenError(c))
    ensures Inv(Apply(s, CompleteThenError(c)))
  {
    var pc := s.callers[c];
    if MarkedCompleted(s.rows, pc.call.op, pc.response).Some? {
      KeepCompleted(s, c, Apply(s, CompleteThenError(c)));
    } else {
      KeepLose(s, c);
    }
  }

  lemma KeepCompleteError(s: State, c: CallerId)
    requires Inv(s) && Enabled(s, CompleteError(c))
    ensures Inv(Apply(s, CompleteError(c)))
  {
    KeepLose(s, c);
  }

  // ---------- whole runs ----------

  ghost predicate Follows(s: State, s': State) {
    exists t :: Enabled(s, t) && s' == Apply(s, t)
  }

  /** Any interleaving of calls, network outcomes, errors and crashes. */
  ghost predicate IsRun(run: seq<State>) {
    && |run| > 0 && Init(run[0])
    && forall i, j :: 0 <= i && j == i + 1 && j < |run| ==> Follows(run[i], run[j])
  }

  predicate Settled(r: Row) {
    r.state == Completed || r.state == OutcomeUnknown
  }

  ghost predicate RowsEvolve(rows: Rows, rows': Rows) {
    forall op :: op in rows ==> RowEvolves(rows, rows', op)
  }

  /** The row stays with its call, a settled one unchanged, and none becomes prepared again. */
  ghost predicate RowEvolves(rows: Rows, rows': Rows, op: OpId)
    requires op in rows
  {
    && op in rows' && rows'[op].digest == rows[op].digest && rows'[op].body == rows[op].body
    && (Settled(rows[op]) ==> rows'[op] == rows[op])
    && (rows'[op].state == Prepared ==> rows[op].state == Prepared)
  }

  /** What was sent stays sent, and nothing is sent for a settled row. */
  ghost predicate SentEvolves(s: State, s': State) {
    && s.sent <= s'.sent
    && forall k :: |s.sent| <= k < |s'.sent| && s'.sent[k].op in s.rows ==> !Settled(s.rows[s'.sent[k].op])
  }

  ghost predicate Evolves(s: State, s': State) {
    RowsEvolve(s.rows, s'.rows) && SentEvolves(s, s') && s.returned <= s'.returned
  }

  lemma StepRows(s: State, t: Step)
    requires Enabled(s, t)
    ensures RowsEvolve(s.rows, Apply(s, t).rows)
  {
    forall op | op in s.rows ensures RowEvolves(s.rows, Apply(s, t).rows, op) { StepRow(s, t, op); }
    hide Apply;
  }

  lemma StepRow(s: State, t: Step, op: OpId)
    requires Enabled(s, t) && op in s.rows
    ensures RowEvolves(s.rows, Apply(s, t).rows, op)
  {
  }

  lemma StepHistory(s: State, t: Step)
    requires Enabled(s, t)
    requires t.StartRoundtrip? ==> PcOk(s, s.callers[t.c])
    ensures SentEvolves(s, Apply(s, t)) && s.returned <= Apply(s, t).returned
  {
    hide WasSent;
  }

  lemma StepEvolves(s: State, t: Step)
    requires Inv(s) && Enabled(s, t)
    ensures Evolves(s, Apply(s, t))
  {
    if t.StartRoundtrip? { At(s, t.c); }
    hide Inv, Apply, RowsEvolve, SentEvolves;
    StepRows(s, t);
    StepHistory(s, t);
  }

  lemma EvolvesTransitive(a: State, b: State, c: State)
    requires Evolves(a, b) && Evolves(b, c)
    ensures Evolves(a, c)
  {
    forall k | |a.sent| <= k < |c.sent| && c.sent[k].op in a.rows ensures !Settled(a.rows[c.sent[k].op]) {
      if k < |b.sent| { assert c.sent[k] == b.sent[k]; }
    }
  }

  lemma {:induction false} RunInv(run: seq<State>, i: nat)
    requires IsRun(run) && i < |run|
    ensures Inv(run[i])
  {
    hide Inv, Apply;
    if i == 0 {
      InitInv(run[0]);
    } else {
      RunInv(run, i - 1);
      assert Follows(run[i - 1], run[i]);
      var t :| Enabled(run[i - 1], t) && run[i] == Apply(run[i - 1], t);
      StepKeepsInv(run[i - 1], t);
    }
  }

  lemma InitInv(s: State)
    requires Init(s)
    ensures Inv(s)
  {
  }

  lemma {:induction false} RunEvolves(run: seq<State>, i: nat, j: nat)
    requires IsRun(run) && i <= j < |run|
    ensures Evolves(run[i], run[j])
    decreases j - i
  {
    if i < j {
      hide Inv, Apply, Evolves;
      RunEvolves(run, i, j - 1);
      RunInv(run, j - 1);
      assert Follows(run[j - 1], run[j]);
      var t :| Enabled(run[j - 1], t) && run[j] == Apply(run[j - 1], t);
      StepEvolves(run[j - 1], t);
      EvolvesTransitive(run[i], run[j - 1], run[j]);
    }
  }

  /** Each operation id starts at most one network roundtrip, in every run. */
  lemma AtMostOneRoundtrip(run: seq<State>, i: nat)
    requires IsRun(run) && i < |run|
    ensures forall a, b :: 0 <= a < b < |run[i].sent| ==> run[i].sent[a].op != run[i].sent[b].op
  {
    RunInv(run, i);
  }

  /** All calls that were sent or that returned a response under one operation id
      have one semantic digest, and all responses returned are the single answer
      the network gave. */
  lemma AcceptedCallsAgree(run: seq<State>, i: nat)
    requires IsRun(run) && i < |run|
    ensures forall a, b :: 0 <= a < |run[i].sent| && 0 <= b < |run[i].returned| ==>
              run[i].sent[a].op == run[i].returned[b].0.op ==> run[i].sent[a].digest == run[i].returned[b].0.digest
    ensures forall a, b :: 0 <= a < |run[i].returned| && 0 <= b < |run[i].returned| ==>
              run[i].returned[a].0.op == run[i].returned[b].0.op ==>
              run[i].returned[a].0.digest == run[i].returned[b].0.digest && run[i].returned[a].1 == run[i].returned[b].1
    ensures forall b :: 0 <= b < |run[i].returned| ==>
              var (call, response) := run[i].returned[b];
              WasSent(run[i].sent, call.op) && call.op in run[i].answers && run[i].answers[call.op] == response
  {
    RunInv(run, i);
    var s := run[i];
    forall b | 0 <= b < |s.returned|
      ensures WasSent(s.sent, s.returned[b].0.op) && s.returned[b].0.op in s.answers
      ensures s.answers[s.returned[b].0.op] == s.returned[b].1
      ensures s.returned[b].0.op in s.rows && s.rows[s.returned[b].0.op].digest == s.returned[b].0.digest
    {
      hide WasSent, CallersOk, Exclusive;
      var op := s.returned[b].0.op;
      assert s.rows[op].state == Completed;
    }
    hide Inv;
  }

  /** An unknown outcome is final: no later roundtrip, no later response. */
  lemma UnknownNeverResent(run: seq<State>, i: nat, j: nat, op: OpId)
    requires IsRun(run) && i <= j < |run|
    requires op in run[i].rows && run[i].rows[op].state == OutcomeUnknown
    ensures op in run[j].rows && run[j].rows[op] == run[i].rows[op]
    ensures forall k :: |run[i].sent| <= k < |run[j].sent| ==> run[j].sent[k].op != op
    ensures forall k :: 0 <= k < |run[j].returned| ==> run[j].returned[k].0.op != op
  {
    RunEvolves(run, i, j);
    RunInv(run, j);
    hide CallersOk, Exclusive, RowsOk, SentOk;
  }

  /** A completed row is final, and every later call with the row's digest
      returns its stored response. */
  lemma CompletedIsFinal(run: seq<State>, i: nat, j: nat, op: OpId)
    requires IsRun(run) && i <= j < |run|
    requires op in run[i].rows && run[i].rows[op].state == Completed
    ensures op in run[j].rows && run[j].rows[op] == run[i].rows[op] && run[i].rows[op].response.Some?
    ensures forall k :: |run[i].sent| <= k < |run[j].sent| ==> run[j].sent[k].op != op
    ensures forall c :: c in run[j].callers && run[j].callers[c].Loading? && run[j].callers[c].call.op == op ==>
              var call := run[j].callers[c].call;
              Apply(run[j], Load(c)).callers[c] ==
              Done(call, if call.digest == run[i].rows[op].digest then run[i].rows[op].response else None)
  {
    RunEvolves(run, i, j);
    RunInv(run, j);
    RunInv(run, i);
    assert RowOk(run[i], op);
    hide Inv, IsRun, WasSent;
  }

  // ---------- the store and the call as the runner executes them ----------

  class LocalStore {
    var rows: Rows

    constructor (durable: Rows)
      ensures rows == Reconciled(durable)
    {
      rows := durable;
      new;
      ReconcileOnOpen();
    }

    method PrepareMutation(op: OpId, digest: Digest, body: Body) returns (r: Prepare)
      modifies this
      ensures op in old(rows) ==> rows == old(rows) && r == Loaded(rows, op, digest)
      ensures op !in old(rows) ==> r == Send && Inserted(old(rows), op, digest, body) == Some(rows)
    {
      if op in rows {
        return Loaded(rows, op, digest);
      }
      rows := rows[op := Row(digest, body, Prepared, None)];
      return Send;
    }

    method MarkRowInFlight(op: OpId) returns (ok: bool)
      modifies this
      ensures ok <==> MarkedInFlight(old(rows), op).Some?
      ensures rows == if ok then MarkedInFlight(old(rows), op).value else old(rows)
    {
      if op in rows && rows[op].state == Prepared {
        rows := rows[op := rows[op].(state := InFlight)];
        return true;
      }
      return false;
    }

    method MarkRowCompleted(op: OpId, response: Response) returns (ok: bool)
      modifies this
      ensures ok <==> MarkedCompleted(old(rows), op, response).Some?
      ensures rows == if ok then MarkedCompleted(old(rows), op, response).value else old(rows)
    {
      if op in rows && (rows[op].state == Prepared || rows[op].state == InFlight) {
        rows := rows[op := rows[op].(state := Completed, response := Some(response))];
        return true;
      }
      return false;
    }

    method MarkRowUnknown(op: OpId)
      modifies this
      ensures rows == MarkedUnknown(old(rows), op)
    {
      if op in rows && rows[op].state == InFlight {
        rows := rows[op := rows[op].(state := OutcomeUnknown)];
      }
    }

    method ReconcileOnOpen()
      modifies this
      ensures rows == Reconciled(old(rows))
    {
      rows := map op | op in rows :: if rows[op].state == InFlight then rows[op].(state := OutcomeUnknown) else rows[op];
    }
  }

  /** s' is reached from s by some steps. */
  ghost predicate Reaches(s: State, s': State) {
    exists run: seq<State> ::
      && |run| > 0 && run[0] == s && run[|run| - 1] == s'
      && forall i, j :: 0 <= i && j == i + 1 && j < |run| ==> Follows(run[i], run[j])
  }

  lemma ReachesSelf(s: State)
    ensures Reaches(s, s)
  {
    var run := [s];
    assert run[0] == s && run[|run| - 1] == s;
  }

  lemma ReachesStep(s: State, m: State, t: Step)
    requires Reaches(s, m) && Enabled(m, t)
    ensures Reaches(s, Apply(m, t))
  {
    hide Apply;
    var run :| |run| > 0 && run[0] == s && run[|run| - 1] == m &&
               forall i, j :: 0 <= i && j == i + 1 && j < |run| ==> Follows(run[i], run[j]);
    var longer := run + [Apply(m, t)];
    assert Follows(m, Apply(m, t));
    assert longer[0] == s && longer[|longer| - 1] == Apply(m, t);
  }

  /** The row a call goes out under: the one it finds, or a new one of its own. */
  function OwnRow(rows: Rows, call: Call): Row {
    if call.op in rows then rows[call.op] else Row(call.digest, call.body, Prepared, None)
  }

  /** A call goes out when its id is new, or its row is still prepared and has its digest. */
  predicate GoesOut(rows: Rows, call: Call) {
    call.op in rows ==> rows[call.op].state == Prepared && rows[call.op].digest == call.digest
  }

  /** The protocol's steps up to and including prepare. */
  lemma PrepareSteps(s: State, c: CallerId, call: Call) returns (m: State)
    requires c !in s.callers
    ensures Reaches(s, m) && c in m.callers && m.sent == s.sent
    ensures call.op !in s.rows ==>
              && m.callers[c] == Marking(call) && m.returned == s.returned
              && m.rows == s.rows[call.op := Row(call.digest, call.body, Prepared, None)]
    ensures call.op in s.rows ==>
              var loaded := Loaded(s.rows, call.op, call.digest);
              && m.rows == s.rows
              && m.returned == (s.returned + if loaded.ResumeCompleted? then [(call, loaded.response)] else [])
              && m.callers[c] == if loaded == Send then Marking(call)
                                 else Done(call, if loaded.ResumeCompleted? then Some(loaded.response) else None)
  {
    hide Reaches;
    ReachesSelf(s);
    ReachesStep(s, s, Begin(c, call));
    m := Apply(s, Begin(c, call));
    ReachesStep(s, m, Load(c));
    m := Apply(m, Load(c));
    if call.op !in s.rows {
      ReachesStep(s, m, Insert(c));
      m := Apply(m, Insert(c));
    }
  }

  /** The signed path of `ApiClient::call`, run alone against a store: `network` is
      the answer of the roundtrip if it gets one. A call that goes out is sent once and
      leaves its row completed with the answer it returns, or with an unknown outcome;
      a completed call returns the stored response; any other call fails; and no other
      row changes. Its effect is a behaviour of the step system, so everything proved
      of runs holds of it. */
  method CallOnce(store: LocalStore, ghost s: State, ghost c: CallerId, call: Call, network: Option<Response>)
      returns (r: Option<Response>, ghost s': State)
    requires store.rows == s.rows && c !in s.callers
    modifies store
    ensures Reaches(s, s') && store.rows == s'.rows
    ensures c in s'.callers && s'.callers[c] == Done(call, r)
    ensures GoesOut(s.rows, call) ==>
              && s'.sent == s.sent + [call] && r == network
              && store.rows == s.rows[call.op :=
                   if network.Some? then OwnRow(s.rows, call).(state := Completed, response := network)
                   else OwnRow(s.rows, call).(state := OutcomeUnknown)]
    ensures !GoesOut(s.rows, call) ==>
              && s'.sent == s.sent && store.rows == s.rows
              && var row := s.rows[call.op];
                 r == if row.state == Completed && row.digest == call.digest then row.response else None
    ensures s'.returned == s.returned + if r.Some? then [(call, r.value)] else []
  {
    hide Reaches;
    s' := PrepareSteps(s, c, call);
    var prepared := store.PrepareMutation(call.op, call.digest, call.body);
    if prepared.ResumeCompleted? {
      return Some(prepared.response), s';
    }
    if prepared != Send {
      return None, s';
    }
    r, s' := SendPrepared(store, s, s', c, call, network);
  }

  /** The part of a call that marks its row in flight and sends it. */
  method SendPrepared(store: LocalStore, ghost s: State, ghost m: State, ghost c: CallerId, call: Call, network: Option<Response>)
      returns (r: Option<Response>, ghost s': State)
    requires Reaches(s, m) && store.rows == m.rows && c in m.callers && m.callers[c] == Marking(call)
    requires call.op in m.rows && m.rows[call.op].state == Prepared
    modifies store
    ensures Reaches(s, s') && store.rows == s'.rows
    ensures c in s'.callers && s'.callers[c] == Done(call, r)
    ensures s'.sent == m.sent + [call] && r == network
    ensures store.rows == m.rows[call.op :=
              if network.Some? then m.rows[call.op].(state := Completed, response := network)
              else m.rows[call.op].(state := OutcomeUnknown)]
    ensures s'.returned == m.returned + if r.Some? then [(call, r.value)] else []
  {
    hide Reaches;
    s' := m;
    var marked := store.MarkRowInFlight(call.op);
    ReachesStep(s, s', MarkInFlight(c));
    s' := Apply(s', MarkInFlight(c));
    if !marked {
      return None, s';
    }
    ReachesStep(s, s', StartRoundtrip(c));
    s' := Apply(s', StartRoundtrip(c));
    r, s' := FinishCall(store, s, s', c, call, network);
  }

  method FinishCall(store: LocalStore, ghost s: State, ghost m: State, ghost c: CallerId, call: Call, network: Option<Response>)
      returns (r: Option<Response>, ghost s': State)
    requires Reaches(s, m) && store.rows == m.rows && c in m.callers && m.callers[c] == Awaiting(call)
    modifies store
    ensures Reaches(s, s') && store.rows == s'.rows
    ensures c in s'.callers && s'.callers[c] == Done(call, r)
    ensures call.op in m.rows && m.rows[call.op].state == InFlight ==>
              && r == network
              && store.rows == m.rows[call.op :=
                   if network.Some? then m.rows[call.op].(state := Completed, response := network)
                   else m.rows[call.op].(state := OutcomeUnknown)]
    ensures s'.sent == m.sent && s'.returned == m.returned + if r.Some? then [(call, r.value)] else []
  {
    hide Reaches;
    s' := m;
    if network.Some? {
      ReachesStep(s, s', Answer(c, network.value));
      s' := Apply(s', Answer(c, network.value));
      var done := store.MarkRowCompleted(call.op, network.value);
      ReachesStep(s, s', Complete(c));
      s' := Apply(s', Complete(c));
      if done {
        return network, s';
      }
    } else {
      ReachesStep(s, s', NetworkError(c));
      s' := Apply(s', NetworkError(c));
    }
    store.MarkRowUnknown(call.op);
    ReachesStep(s, s', MarkUnknown(c));
    s' := Apply(s', MarkUnknown(c));
    return None, s';
  }
}
