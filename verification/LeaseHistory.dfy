/**
 * What must never happen over a whole run, stated as which entry may follow which history.
 * A run includes every reconnect and every process restart.
 */
module LeaseHistory {
  import opened LeaseTypes
  import opened Options

  datatype Entry =
    | Created(sequence: nat)                      // a message id was taken from the journal counter
    | Sent(message: RunnerMessage)                // a durable event was given to the stream
    | Synced(state: JournalState)                 // the journal was replaced and synced
    | Written(state: JournalState)                // the journal was replaced, but the sync failed
    | Restarted(state: JournalState)              // a new process took over this journal
    // an offer is about to be journalled as accepted, on top of this journal
    | Accepted(acceptance: nat, before: JournalState, workerRunning: bool, draining: bool, workers: nat)
    | Acknowledged(message: RunnerMessage, sequence: nat, reconciliation: Reconciliation)
    | Terminated(acceptance: nat, reconciliation: Reconciliation)
    | StartUnanswered(acceptance: nat)            // a cancellation was written unsynced, its start callback still waits
    | LeftBehind(acceptance: nat)                 // a lease was cleared unsynced, with something of it left in memory
    | WorkerStarted(acceptance: nat)
    | StartGranted(call: nat, acceptance: nat)    // the start callback returned success
    | ResultUsed(acceptance: nat, workers: nat)   // a worker's result is about to become the event that ends this lease
    | CleanupFailed

  type Log = seq<Entry>

  predicate HasState(e: Entry) {
    e.Synced? || e.Written? || e.Restarted?
  }

  /** The journal in the memory of the process. */
  ghost function Current(log: Log): Option<JournalState> {
    if log == [] then None
    else if HasState(log[|log| - 1]) then Some(log[|log| - 1].state)
    else Current(log[..|log| - 1])
  }

  /** Every journal that a crash may leave on disk. */
  ghost function Images(log: Log): set<JournalState> {
    if log == [] then {}
    else if log[|log| - 1].Synced? then {log[|log| - 1].state}
    else if log[|log| - 1].Written? then Images(log[..|log| - 1]) + {log[|log| - 1].state}
    else Images(log[..|log| - 1])
  }

  /** No failed cleanup in the current process. */
  ghost predicate CleanSinceRestart(log: Log) {
    log == [] || log[|log| - 1].Restarted? ||
    (!log[|log| - 1].CleanupFailed? && CleanSinceRestart(log[..|log| - 1]))
  }

  /** Nothing was left behind by an earlier lease of the current process. */
  ghost predicate OrderlySinceRestart(log: Log) {
    log == [] || log[|log| - 1].Restarted? ||
    (!log[|log| - 1].LeftBehind? && OrderlySinceRestart(log[..|log| - 1]))
  }

  ghost predicate Recorded(log: Log, s: JournalState) {
    Synced(s) in log || Written(s) in log
  }

  /** A cancellation of this acceptance was in some journal of the history. */
  ghost predicate WasCancelled(log: Log, acceptance: nat) {
    exists s: JournalState :: Recorded(log, s) && CancelledLease(s, acceptance)
  }

  ghost predicate WasAcknowledged(log: Log, m: RunnerMessage) {
    exists r: Reconciliation :: Acknowledged(m, m.sequence, r) in log
  }

  ghost predicate WasTerminated(log: Log, acceptance: nat) {
    exists r: Reconciliation :: Terminated(acceptance, r) in log
  }

  /** The gateway reconciled exactly this lease as terminal. */
  ghost predicate EndedByGateway(log: Log, job: JournalJob) {
    exists r: Reconciliation ::
      && Terminated(job.acceptance, r) in log
      && r.identity == job.specification.identity && ValidReconciliation(r) && Terminal(r.status)
  }

  /** The journal in memory holds this acceptance. */
  ghost predicate Holds(log: Log, acceptance: nat) {
    Current(log).Some? && Current(log).value.active.Some? && Current(log).value.active.value.acceptance == acceptance
  }

  /** Some process found this acceptance in the journal it took over. */
  ghost predicate Adopted(log: Log, acceptance: nat) {
    exists s: JournalState :: Restarted(s) in log && s.active.Some? && s.active.value.acceptance == acceptance
  }

  ghost predicate UsedResult(log: Log, acceptance: nat) {
    exists k: nat :: ResultUsed(acceptance, k) in log
  }

  /** The commit that ends the lease of `a` empties the outbox slot with it. */
  ghost predicate ClearsLease(log: Log, a: JournalState, b: JournalState) {
    a.active.Some? && b.active.None? && b.pending.None? && EndedByGateway(log, a.active.value)
  }

  /** The last thing before this write was the acceptance that it journals. */
  ghost predicate JustAccepted(log: Log, a: JournalState, acceptance: nat) {
    log != [] && log[|log| - 1].Accepted? && log[|log| - 1].acceptance == acceptance && log[|log| - 1].before == a
  }

  /** How one journal may follow another in the memory of a process. */
  ghost predicate Succeeds(log: Log, a: JournalState, b: JournalState) {
    && a.messageSequence <= b.messageSequence
    && (a.active.Some? ==> (b.active.Some? && JobGrows(a.active.value, b.active.value)) || ClearsLease(log, a, b))
    && (a.active.None? && b.active.Some? ==>
         && JustAccepted(log, a, b.active.value.acceptance)
         && forall t: JournalState :: Recorded(log, t) && t.active.Some? ==> t.active.value.acceptance != b.active.value.acceptance)
    && (a.pending.Some? && b.pending != a.pending ==> WasAcknowledged(log, a.pending.value) || ClearsLease(log, a, b))
    && (b.pending.Some? && b.pending != a.pending ==>
         && a.pending.None? && Created(b.pending.value.sequence) in log
         && (forall x: RunnerMessage :: Sent(x) in log ==> x.sequence < b.pending.value.sequence)
         && (b.pending.value.event.Completed? ==> b.active.Some? && UsedResult(log, b.active.value.acceptance)))
  }

  /** A journal the process may write now, whether the write is synced or not. */
  ghost predicate MayWrite(past: Log, s: JournalState) {
    && ValidJournal(s)
    && (s.active.Some? ==> JobOk(s.active.value))
    && (forall t: JournalState :: Synced(t) in past ==> Monotone(t, s))
    && (if Current(past).Some? then Succeeds(past, Current(past).value, s) else s.active.None? && s.pending.None?)
  }

  ghost predicate Allowed(past: Log, entry: Entry) {
    match entry
    case Created(n) =>
      && (forall k: nat :: Created(k) in past ==> k < n)
      && Images(past) != {} && (forall s :: s in Images(past) ==> n <= s.messageSequence)
    case Sent(m) =>
      && Images(past) != {} && (forall s :: s in Images(past) ==> s.pending == Some(m))
      && (forall other: RunnerMessage :: Sent(other) in past && other.sequence == m.sequence ==> other == m)
      && Created(m.sequence) in past
    case Synced(s) => MayWrite(past, s)
    case Written(s) => MayWrite(past, s)
    case Restarted(s) => s in Images(past)
    case Accepted(a, before, workerRunning, draining, workers) =>
      && Current(past) == Some(before) && before.active.None? && before.pending.None? && !workerRunning && !draining
      && (OrderlySinceRestart(past) ==> workers == 0)
      && CleanSinceRestart(past)
      && (forall b: JournalState, w: bool, d: bool, k: nat :: Accepted(a, b, w, d, k) !in past)
    case Acknowledged(m, n, r) =>
      && n == m.sequence && r.identity == m.identity && ValidReconciliation(r)
      && Current(past).Some? && Current(past).value.pending == Some(m) && FitsPending(m, r, Current(past).value.active)
    case Terminated(a, r) =>
      && Holds(past, a) && r.identity == Current(past).value.active.value.specification.identity
      && ValidReconciliation(r) && Terminal(r.status)
    case WorkerStarted(a) =>
      && Holds(past, a) && !Adopted(past, a)
      && WorkerStarted(a) !in past
      && !WasCancelled(past, a)
      && PreparingSettled(past, Current(past).value.active.value.specification.identity)
    case StartGranted(call, a) =>
      && Holds(past, a) && !Adopted(past, a)
      && (WasCancelled(past, a) ==> StartUnanswered(a) in past)
      && (OrderlySinceRestart(past) ==> WorkerStarted(a) in past)
      && JobStartedSettled(past, call, Current(past).value.active.value.specification.identity)
    case StartUnanswered(a) =>
      past != [] && past[|past| - 1].Written? && CancelledLease(past[|past| - 1].state, a)
    case LeftBehind(a) =>
      && past != [] && past[|past| - 1].Written? && past[|past| - 1].state.active.None?
      && Holds(past[..|past| - 1], a) && WasTerminated(past, a)
    case ResultUsed(a, workers) =>
      Holds(past, a) && (OrderlySinceRestart(past) ==> WorkerStarted(a) in past && !Adopted(past, a) && workers == 0)
    case CleanupFailed => true
  }

  /** The preparing event of this lease was acknowledged as applied, active and preparing. */
  ghost predicate PreparingSettled(past: Log, identity: Identity) {
    exists m: RunnerMessage, r: Reconciliation ::
      && Acknowledged(m, m.sequence, r) in past
      && m.event.JobPreparing? && m.identity == identity
      && !r.disposition.Stale? && r.status.StatusActive? && r.phase.PhasePreparing?
  }

  /** The event of this lease for this very start callback was acknowledged as applied, active and running. */
  ghost predicate JobStartedSettled(past: Log, call: nat, identity: Identity) {
    exists m: RunnerMessage, r: Reconciliation ::
      && Acknowledged(m, m.sequence, r) in past
      && m.event == JobStarted(call) && m.identity == identity
      && !r.disposition.Stale? && r.status.StatusActive? && r.phase.PhaseRunning?
  }

  /** Every entry was allowed when it was made. */
  ghost predicate Safe(log: Log) {
    log == [] || (Safe(log[..|log| - 1]) && Allowed(log[..|log| - 1], log[|log| - 1]))
  }

  // ---- How the history grows ----

  /** What one more entry changes about the journal, the process and the recorded states. */
  lemma Grown(log: Log, e: Entry)
    ensures Current(log + [e]) == if HasState(e) then Some(e.state) else Current(log)
    ensures Images(log + [e]) == if e.Synced? then {e.state} else if e.Written? then Images(log) + {e.state} else Images(log)
    ensures CleanSinceRestart(log + [e]) <==> e.Restarted? || (!e.CleanupFailed? && CleanSinceRestart(log))
    ensures OrderlySinceRestart(log + [e]) <==> e.Restarted? || (!e.LeftBehind? && OrderlySinceRestart(log))
    ensures forall s: JournalState :: Recorded(log + [e], s) <==> Recorded(log, s) || e == Synced(s) || e == Written(s)
  {
    assert (log + [e])[..|log|] == log;
  }

  lemma CancelledStep(log: Log, e: Entry, a: nat)
    ensures WasCancelled(log + [e], a) <==> WasCancelled(log, a) || ((e.Synced? || e.Written?) && CancelledLease(e.state, a))
  {
    hide CancelledLease;
    if WasCancelled(log, a) {
      var s: JournalState :| Recorded(log, s) && CancelledLease(s, a);
      assert Recorded(log + [e], s);
    }
    if (e.Synced? || e.Written?) && CancelledLease(e.state, a) {
      assert Recorded(log + [e], e.state);
    }
  }

  lemma AdoptedStep(log: Log, e: Entry, a: nat)
    ensures Adopted(log + [e], a) <==>
      Adopted(log, a) || (e.Restarted? && e.state.active.Some? && e.state.active.value.acceptance == a)
  {
    if Adopted(log, a) {
      var s: JournalState :| Restarted(s) in log && s.active.Some? && s.active.value.acceptance == a;
      assert Restarted(s) in log + [e];
    }
    if e.Restarted? {
      assert Restarted(e.state) in log + [e];
    }
  }

  lemma UsedStep(log: Log, e: Entry, a: nat)
    ensures UsedResult(log + [e], a) <==> UsedResult(log, a) || (e.ResultUsed? && e.acceptance == a)
  {
    if UsedResult(log, a) {
      var k: nat :| ResultUsed(a, k) in log;
      assert ResultUsed(a, k) in log + [e];
    }
    if e.ResultUsed? {
      assert ResultUsed(e.acceptance, e.workers) in log + [e];
    }
  }

  lemma SafeStep(log: Log, e: Entry)
    requires Safe(log) && Allowed(log, e)
    ensures Safe(log + [e])
  {
    assert (log + [e])[..|log|] == log;
  }

  lemma StaysInLog(before: Log, after: Log)
    requires before <= after
    ensures forall e: Entry :: e in before ==> e in after
  {
    forall e: Entry | e in before
      ensures e in after
    {
      var i :| 0 <= i < |before| && before[i] == e;
      assert after[i] == e;
    }
  }

  /** A state that follows one reachable from every synced state is so too. */
  lemma MonotoneStep(log: Log, a: JournalState, b: JournalState)
    requires forall t: JournalState :: Synced(t) in log ==> Monotone(t, a)
    requires Succeeds(log, a, b)
    ensures forall t: JournalState :: Synced(t) in log ==> Monotone(t, b)
  {
    forall t: JournalState | Synced(t) in log
      ensures Monotone(t, b)
    {
      assert Monotone(t, a);
      assert Recorded(log, t);
    }
  }
}
