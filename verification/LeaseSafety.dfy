/** Whole runs of the lease protocol, and what their histories guarantee. */
module LeaseSafety {
  import opened LeaseHistory
  import opened LeaseRunner
  import opened LeaseTypes
  import opened Options

  /** One thing that can happen.  The clock is whatever each step says it is. */
  datatype Step =
    | Connecting(duration: nat)
    | Disconnect
    | OfferArrives(offer: Offer, eligible: bool)
    | CancellationArrives(cancellation: Cancellation)
    | AcknowledgementArrives(acknowledgement: Acknowledgement)
    | HeartbeatAcknowledgementArrives(heartbeat: HeartbeatAcknowledgement)
    | DrainArrives
    | OtherMessageArrives
    | HeartbeatTick
    | MaintenanceTick
    | WorkerAsksToStart
    | WorkerFinishes(cleanupFailed: bool)
    | WorkerEventTaken
    | Crash

  /** A step with its time and with what may go wrong in it. */
  datatype Timed = Timed(step: Step, now: int, trouble: Trouble)

  predicate FromGateway(step: Step) {
    || step.OfferArrives? || step.CancellationArrives? || step.AcknowledgementArrives?
    || step.HeartbeatAcknowledgementArrives? || step.DrainArrives? || step.OtherMessageArrives?
  }

  /** One gateway message. */
  method Receive(r: Runner, step: Step, now: int) returns (fault: Fault)
    requires r.Ready() && FromGateway(step)
    modifies r
    ensures r.After(fault) && old(r.log) <= r.log
  {
    hide Runner.Disk, Runner.Consistent;
    match step {
      case OfferArrives(offer, eligible) =>
        fault := r.HandleOffer(offer, eligible && offer.identity.Some?);
      case CancellationArrives(cancellation) =>
        fault := r.HandleCancellation(cancellation, now);
      case AcknowledgementArrives(acknowledgement) =>
        fault := r.HandleEventAcknowledgement(acknowledgement, now);
      case HeartbeatAcknowledgementArrives(heartbeat) =>
        fault := r.HandleHeartbeatAcknowledgement(heartbeat, now);
      case DrainArrives =>
        r.Drain();
        fault := r.SendHeartbeat();
      case OtherMessageArrives =>
        fault := Fatal;
    }
  }

  /** One step inside a session. */
  method PerformConnected(r: Runner, step: Step, now: int) returns (fault: Fault)
    requires r.Ready()
    modifies r
    ensures r.After(fault) && old(r.log) <= r.log
  {
    hide Runner.Disk, Runner.Consistent;
    if FromGateway(step) {
      fault := Receive(r, step, now);
      if fault.Fine? && r.session.heartbeatDeferred && r.journal.pending.None? {
        fault := r.SendHeartbeat();
      }
      return;
    }
    match step {
      case HeartbeatTick =>
        fault := r.SendHeartbeat();
        if fault.Fine? {
          fault := r.Advance(now);
        }
      case MaintenanceTick =>
        fault := r.Advance(now);
      case WorkerEventTaken =>
        fault := r.HandleNextWorkerEvent(now);
      case _ =>
        fault := Transient;
    }
  }

  /** Does one step in a session, or outside one. */
  method Perform(r: Runner, connected: bool, step: Step, now: int) returns (fault: Fault)
    requires r.Valid() && (connected ==> r.Ready())
    modifies r
    ensures r.Disk() && old(r.log) <= r.log
    ensures fault.Fine? || fault.Transient? ==> r.Memory()
    ensures fault.Fine? && (connected || step.Connecting?) ==> r.Ready()
  {
    hide Runner.Disk, Runner.Consistent;
    match step {
      case WorkerAsksToStart =>
        r.WorkerAsks();
        fault := Fine;
      case WorkerFinishes(cleanupFailed) =>
        r.WorkerEnds(cleanupFailed);
        fault := Fine;
      case Connecting(duration) =>
        fault := r.Connect(duration);
      case _ =>
        if connected {
          fault := PerformConnected(r, step, now);
        } else {
          fault := Fine;
        }
    }
  }

  /**
   * Any run from an empty journal: any messages, any clock, any number of reconnects and restarts, and any
   * failure of any write, whether it ends the process, the session or nothing.
   */
  method Run(hasWorker: bool, steps: seq<Timed>) returns (r: Runner, running: bool)
    ensures fresh(r) && Safe(r.log) && r.Disk()
    ensures running ==> r.Memory()
  {
    hide Safe, Runner.Consistent, Runner.Bounded, Reachable, Images, Current;
    r := new Runner(hasWorker);
    running := true;
    var connected := false;
    for i := 0 to |steps|
      invariant fresh(r) && r.Disk() && (running ==> r.Memory()) && (running && connected ==> r.Ready())
    {
      var step := steps[i].step;
      r.trouble := steps[i].trouble;
      if step.Crash? {
        r.Restart();
        running, connected := true, false;
      } else if running {
        var fault := Perform(r, connected, step, steps[i].now);
        running := fault.Fine? || fault.Transient?;
        connected := fault.Fine? && (connected || step.Connecting?) && !step.Disconnect?;
      }
    }
  }

  /**
   * A terminal reconciliation of the active lease empties the outbox slot with it.  The event that goes
   * is one of this lease, unless it rejects the offer of another one.
   */
  method TerminateWithPending(r: Runner, rec: Reconciliation) returns (fault: Fault, dropped: Option<RunnerMessage>)
    requires r.Ready() && ValidReconciliation(rec) && Terminal(rec.status) && r.ActiveMatches(rec.identity)
    modifies r
    ensures r.After(fault) && dropped == old(r.journal).pending
    ensures fault.Fine? ==> r.journal.active.None? && r.journal.pending.None?
    ensures dropped.Some? && dropped.value.identity != rec.identity ==> dropped.value.event.LeaseRejected?
  {
    hide Runner.Disk, Runner.Consistent;
    dropped := r.journal.pending;
    if dropped.Some? {
      r.PendingFacts();
    }
    fault := r.ApplyLateReconciliation(rec);
  }

  // ---- What a safe history means ----

  lemma {:induction false} AllowedAt(log: Log, j: nat)
    requires Safe(log) && j < |log|
    ensures Allowed(log[..j], log[j]) && Safe(log[..j])
  {
    if j < |log| - 1 {
      AllowedAt(log[..|log| - 1], j);
      assert log[..|log| - 1][..j] == log[..j];
    } else {
      assert log[..j] == log[..|log| - 1];
    }
  }

  lemma Earlier(log: Log, i: nat, j: nat)
    requires i < j <= |log|
    ensures log[i] in log[..j]
  {
    assert log[..j][i] == log[i];
  }

  /** A worker starts only for the lease in the journal, and each lease has at most one start, over all restarts. */
  lemma {:induction false} AtMostOneStart(log: Log, i: nat, j: nat)
    requires Safe(log) && i < j < |log| && log[i].WorkerStarted? && log[j].WorkerStarted?
    ensures Holds(log[..i], log[i].acceptance) && Holds(log[..j], log[j].acceptance)
    ensures log[i].acceptance != log[j].acceptance
  {
    AllowedAt(log, i);
    AllowedAt(log, j);
    Earlier(log, i, j);
  }

  /** A job found in the journal after a restart is never started, and its start never granted. */
  lemma {:induction false} NeverStartedAfterRestart(log: Log, i: nat, j: nat)
    requires Safe(log) && i < j < |log| && log[i].Restarted? && log[i].state.active.Some?
    requires log[j].WorkerStarted? || log[j].StartGranted?
    ensures Holds(log[..j], log[j].acceptance) && log[j].acceptance != log[i].state.active.value.acceptance
  {
    AllowedAt(log, j);
    Earlier(log, i, j);
  }

  /** A worker starts only after the preparing event of its lease was acknowledged as applied, active and preparing. */
  lemma {:induction false} StartedOnlyAfterPreparing(log: Log, j: nat)
    requires Safe(log) && j < |log| && log[j].WorkerStarted?
    ensures Holds(log[..j], log[j].acceptance)
    ensures exists i, m: RunnerMessage, r: Reconciliation ::
      && 0 <= i < j && log[i] == Acknowledged(m, m.sequence, r)
      && m.event.JobPreparing? && r.identity == m.identity == Current(log[..j]).value.active.value.specification.identity
      && !r.disposition.Stale? && r.status.StatusActive? && r.phase.PhasePreparing?
  {
    hide Current;
    AllowedAt(log, j);
    var identity := Current(log[..j]).value.active.value.specification.identity;
    var m: RunnerMessage, r: Reconciliation :|
      Acknowledged(m, m.sequence, r) in log[..j] && m.event.JobPreparing? && m.identity == identity
      && !r.disposition.Stale? && r.status.StatusActive? && r.phase.PhasePreparing?;
    var i :| 0 <= i < j && log[..j][i] == Acknowledged(m, m.sequence, r);
    assert log[i] == Acknowledged(m, m.sequence, r);
    AllowedAt(log, i);
  }

  /**
   * Once a cancellation is in the journal, that lease's worker is not started.  Its start is granted only if
   * a cancellation was written without being synced while the callback waited, and the process went on.
   */
  lemma {:induction false} NothingStartsAfterCancellation(log: Log, i: nat, j: nat, a: nat)
    requires Safe(log) && i < j < |log| && (log[i].Synced? || log[i].Written?) && CancelledLease(log[i].state, a)
    ensures log[j] != WorkerStarted(a)
    ensures log[j].StartGranted? && log[j].acceptance == a ==> StartUnanswered(a) in log[..j]
  {
    AllowedAt(log, j);
    Earlier(log, i, j);
    assert Recorded(log[..j], log[i].state);
  }

  /** A waiting callback is passed over only by an unsynced write of the cancellation. */
  lemma {:induction false} UnansweredAfterUnsyncedWrite(log: Log, j: nat)
    requires Safe(log) && j < |log| && log[j].StartUnanswered?
    ensures j > 0 && log[j - 1].Written? && CancelledLease(log[j - 1].state, log[j].acceptance)
  {
    AllowedAt(log, j);
  }

  /** So where every journal write is synced or ends the process, no start is granted after a cancellation. */
  lemma {:induction false} NoGrantAfterSyncedCancellation(log: Log, i: nat, j: nat, a: nat)
    requires Safe(log) && i < j < |log| && (log[i].Synced? || log[i].Written?) && CancelledLease(log[i].state, a)
    requires forall k :: 0 <= k < |log| - 1 && log[k].Written? ==> log[k + 1].Restarted?
    ensures !(log[j].StartGranted? && log[j].acceptance == a)
  {
    if log[j].StartGranted? && log[j].acceptance == a {
      NothingStartsAfterCancellation(log, i, j, a);
      var k :| 0 <= k < j && log[..j][k] == StartUnanswered(a);
      UnansweredAfterUnsyncedWrite(log, k);
    }
  }

  /** The start callback succeeds only after its own event, of the lease in the journal, was acknowledged as running. */
  lemma {:induction false} GrantedOnlyAfterOwnAcknowledgement(log: Log, j: nat)
    requires Safe(log) && j < |log| && log[j].StartGranted?
    ensures Holds(log[..j], log[j].acceptance)
    ensures exists i, m: RunnerMessage, r: Reconciliation ::
      && 0 <= i < j && log[i] == Acknowledged(m, m.sequence, r)
      && m.event == JobStarted(log[j].call) && r.identity == m.identity == Current(log[..j]).value.active.value.specification.identity
      && !r.disposition.Stale? && r.status.StatusActive? && r.phase.PhaseRunning?
  {
    hide Current;
    AllowedAt(log, j);
    var identity := Current(log[..j]).value.active.value.specification.identity;
    var m: RunnerMessage, r: Reconciliation :|
      Acknowledged(m, m.sequence, r) in log[..j] && m.event == JobStarted(log[j].call) && m.identity == identity
      && !r.disposition.Stale? && r.status.StatusActive? && r.phase.PhaseRunning?;
    var i :| 0 <= i < j && log[..j][i] == Acknowledged(m, m.sequence, r);
    assert log[i] == Acknowledged(m, m.sequence, r);
    AllowedAt(log, i);
  }

  /**
   * Unless the process went on after an unsynced write that ended a lease with something of it in memory, the
   * lease of a granted start has its own worker, and an offer is accepted only with no worker left.
   */
  lemma {:induction false} OwnWorkerUnlessLeftBehind(log: Log, j: nat)
    requires Safe(log) && j < |log| && OrderlySinceRestart(log[..j])
    ensures log[j].StartGranted? ==> WorkerStarted(log[j].acceptance) in log[..j]
    ensures log[j].Accepted? ==> log[j].workers == 0
  {
    AllowedAt(log, j);
  }

  /**
   * A worker's result ends only the lease in the journal.  Unless something was left behind, that lease's own worker was
   * started by this very process and no worker executes any more.
   */
  lemma {:induction false} ResultFromOwnWorker(log: Log, j: nat)
    requires Safe(log) && j < |log| && log[j].ResultUsed?
    ensures Holds(log[..j], log[j].acceptance)
    ensures OrderlySinceRestart(log[..j]) ==>
      && WorkerStarted(log[j].acceptance) in log[..j] && !Adopted(log[..j], log[j].acceptance) && log[j].workers == 0
  {
    AllowedAt(log, j);
  }

  /** A completion is journalled only for a lease for which a worker's result was used. */
  lemma {:induction false} CompletedOnlyByResult(log: Log, j: nat)
    requires Safe(log) && j < |log| && (log[j].Synced? || log[j].Written?)
    requires log[j].state.pending.Some? && log[j].state.pending.value.event.Completed?
    requires Current(log[..j]).Some? && Current(log[..j]).value.pending != log[j].state.pending
    ensures log[j].state.active.Some?
    ensures exists i :: 0 <= i < j && log[i].ResultUsed? && log[i].acceptance == log[j].state.active.value.acceptance
  {
    hide Current;
    AllowedAt(log, j);
    var k: nat :| ResultUsed(log[j].state.active.value.acceptance, k) in log[..j];
    var i :| 0 <= i < j && log[..j][i] == ResultUsed(log[j].state.active.value.acceptance, k);
    assert log[i].ResultUsed?;
  }

  lemma {:induction false} LeftBehindAfterUnsyncedWrite(log: Log, j: nat)
    requires Safe(log) && j < |log| && log[j].LeftBehind?
    ensures j > 0 && log[j - 1].Written? && log[j - 1].state.active.None?
    ensures Holds(log[..j - 1], log[j].acceptance) && WasTerminated(log[..j], log[j].acceptance)
  {
    AllowedAt(log, j);
    assert log[..j][..j - 1] == log[..j - 1];
  }

  /** Message ids strictly increase across crashes and failed writes. */
  lemma {:induction false} MessageIdsIncrease(log: Log, i: nat, j: nat)
    requires Safe(log) && i < j < |log| && log[i].Created? && log[j].Created?
    ensures log[i].sequence < log[j].sequence
  {
    AllowedAt(log, j);
    Earlier(log, i, j);
  }

  /** The id of a sent event was taken before, from a counter that every journal a crash may leave has reached. */
  lemma {:induction false} SentIdsWereTaken(log: Log, j: nat)
    requires Safe(log) && j < |log| && log[j].Sent?
    ensures exists i ::
      && 0 <= i < j && log[i] == Created(log[j].message.sequence)
      && forall s :: s in Images(log[..i]) ==> log[j].message.sequence <= s.messageSequence
  {
    hide Images;
    AllowedAt(log, j);
    var i :| 0 <= i < j && log[..j][i] == Created(log[j].message.sequence);
    assert log[i] == Created(log[j].message.sequence);
    AllowedAt(log, i);
  }

  /** The id in every slot was taken from the counter. */
  ghost predicate SlotsTaken(log: Log) {
    && (Current(log).Some? ==> Current(log).value in Images(log))
    && (forall s :: s in Images(log) && s.pending.Some? ==> Created(s.pending.value.sequence) in log)
  }

  lemma SlotsTakenStep(log: Log, e: Entry)
    requires SlotsTaken(log) && Allowed(log, e)
    ensures SlotsTaken(log + [e])
  {
    hide Current, Images, WasCancelled, JobStartedSettled, PreparingSettled, ValidJournal, JobOk, ValidReconciliation, EndedByGateway,
      UsedResult, Monotone, OrderlySinceRestart, CleanSinceRestart, FitsPending, Adopted, JustAccepted, JobGrows, WasAcknowledged;
    Grown(log, e);
  }

  lemma {:induction false} AllSlotsTaken(log: Log)
    requires Safe(log)
    ensures SlotsTaken(log)
  {
    hide Allowed;
    if log != [] {
      var n := |log| - 1;
      AllSlotsTaken(log[..n]);
      SlotsTakenStep(log[..n], log[n]);
      assert log == log[..n] + [log[n]];
    }
  }

  /** An event is acknowledged only after its id was taken. */
  lemma {:induction false} AcknowledgedIdsWereTaken(log: Log, m: RunnerMessage)
    requires Safe(log) && WasAcknowledged(log, m)
    ensures Created(m.sequence) in log
  {
    hide Current, Images, FitsPending;
    var r: Reconciliation :| Acknowledged(m, m.sequence, r) in log;
    var i :| 0 <= i < |log| && log[i] == Acknowledged(m, m.sequence, r);
    AllowedAt(log, i);
    AllSlotsTaken(log[..i]);
    StaysInLog(log[..i], log);
  }

  /** A durable event is always sent with the same content under the same id. */
  lemma {:induction false} ReplayedUnchanged(log: Log, i: nat, j: nat)
    requires Safe(log) && i < j < |log| && log[i].Sent? && log[j].Sent?
    requires log[i].message.sequence == log[j].message.sequence
    ensures log[i].message == log[j].message
  {
    AllowedAt(log, j);
    Earlier(log, i, j);
  }

  // ---- One unacknowledged event at a time ----

  /** The event left the outbox slot together with its lease, which was reconciled terminal. */
  ghost predicate DroppedAt(log: Log, k: nat, m: RunnerMessage)
    requires k < |log|
  {
    && (log[k].Synced? || log[k].Written?) && Current(log[..k]).Some?
    && Current(log[..k]).value.pending == Some(m) && ClearsLease(log[..k], Current(log[..k]).value, log[k].state)
  }

  /** The event was acknowledged by its id and identity, or went with its slot's lease. */
  ghost predicate Gone(log: Log, m: RunnerMessage) {
    WasAcknowledged(log, m) || exists k :: 0 <= k < |log| && DroppedAt(log, k, m)
  }

  lemma GoneStays(log: Log, e: Entry, m: RunnerMessage)
    requires Gone(log, m)
    ensures Gone(log + [e], m)
  {
    hide Current, ClearsLease;
    if WasAcknowledged(log, m) {
      var r: Reconciliation :| Acknowledged(m, m.sequence, r) in log;
      assert Acknowledged(m, m.sequence, r) in log + [e];
    } else {
      var k :| 0 <= k < |log| && DroppedAt(log, k, m);
      assert (log + [e])[..k] == log[..k];
      assert DroppedAt(log + [e], k, m);
    }
  }

  /** For this state, the sent event is in the slot, or gone for good. */
  ghost predicate HeldOrGone(log: Log, s: JournalState, x: RunnerMessage) {
    s.pending == Some(x) || (Gone(log, x) && (s.pending.Some? ==> x.sequence < s.pending.value.sequence))
  }

  ghost predicate Outbox(log: Log) {
    && (if Current(log).Some? then Current(log).value in Images(log)
        else Images(log) == {} && forall x: RunnerMessage :: Sent(x) !in log)
    && (forall s: JournalState, x: RunnerMessage :: s in Images(log) && Sent(x) in log ==> HeldOrGone(log, s, x))
  }

  lemma HeldStays(log: Log, e: Entry, s: JournalState, x: RunnerMessage)
    requires HeldOrGone(log, s, x)
    ensures HeldOrGone(log + [e], s, x)
  {
    hide Gone;
    if s.pending != Some(x) {
      GoneStays(log, e, x);
    }
  }

  lemma WriteKeepsOutbox(log: Log, e: Entry, s: JournalState, x: RunnerMessage)
    requires Outbox(log) && Allowed(log, e) && (e == Synced(s) || e == Written(s)) && Sent(x) in log
    ensures HeldOrGone(log + [e], s, x)
  {
    hide Images, EndedByGateway, UsedResult, JustAccepted, WasAcknowledged, Monotone, JobGrows, ValidJournal, JobOk;
    var a := Current(log).value;
    assert HeldOrGone(log, a, x);
    if a.pending == Some(x) && s.pending != a.pending && !WasAcknowledged(log, x) {
      assert (log + [e])[..|log|] == log;
      assert DroppedAt(log + [e], |log|, x);
    } else if a.pending != Some(x) || s.pending != a.pending {
      GoneStays(log, e, x);
    }
  }

  lemma OutboxStep(log: Log, e: Entry)
    requires Outbox(log) && Allowed(log, e)
    ensures Outbox(log + [e])
  {
    hide Current, Images, MayWrite, HeldOrGone, WasCancelled, JobStartedSettled, ValidReconciliation, WasTerminated, CleanSinceRestart, OrderlySinceRestart, Recorded;
    Grown(log, e);
    var after := log + [e];
    forall s: JournalState, x: RunnerMessage | s in Images(after) && Sent(x) in after
      ensures HeldOrGone(after, s, x)
    {
      if e == Sent(x) {
        SentIsHeld(log, e, s, x);
      } else if s in Images(log) {
        HeldStays(log, e, s, x);
      } else {
        WriteKeepsOutbox(log, e, s, x);
      }
    }
  }

  lemma SentIsHeld(log: Log, e: Entry, s: JournalState, x: RunnerMessage)
    requires Allowed(log, e) && e == Sent(x) && s in Images(log)
    ensures HeldOrGone(log + [e], s, x)
  {
    hide Gone;
  }

  lemma {:induction false} OutboxHolds(log: Log)
    requires Safe(log)
    ensures Outbox(log)
  {
    hide Allowed, HeldOrGone;
    if log != [] {
      var n := |log| - 1;
      OutboxHolds(log[..n]);
      OutboxStep(log[..n], log[n]);
      assert log == log[..n] + [log[n]];
    }
  }

  /**
   * Never two unacknowledged durable events: before another one is sent, the earlier was acknowledged by its
   * id and identity or left the slot with its terminated lease, and ids only go up.
   */
  lemma {:induction false} OneUnacknowledged(log: Log, i: nat, j: nat)
    requires Safe(log) && i < j < |log| && log[i].Sent? && log[j].Sent? && log[i].message != log[j].message
    ensures Gone(log[..j], log[i].message) && log[i].message.sequence < log[j].message.sequence
  {
    hide Gone, Safe, Current, Images;
    AllowedAt(log, j);
    Earlier(log, i, j);
    OutboxHolds(log[..j]);
    var s :| s in Images(log[..j]);
    assert HeldOrGone(log[..j], s, log[i].message);
  }

  /** So an event that was followed by another one is never sent again. */
  lemma {:induction false} NeverSentAgain(log: Log, i: nat, j: nat, k: nat)
    requires Safe(log) && i < j < k < |log| && log[i].Sent? && log[j].Sent? && log[i].message != log[j].message
    ensures log[k] != log[i]
  {
    hide Gone, Safe;
    OneUnacknowledged(log, i, j);
    if log[k] == log[i] {
      OneUnacknowledged(log, j, k);
    }
  }

  // ---- The lease in the journal ----

  ghost predicate Grows(log: Log) {
    && (Current(log).Some? ==> Current(log).value in Images(log))
    && (forall s: JournalState, t: JournalState :: s in Images(log) && Synced(t) in log ==> Monotone(t, s))
    && (forall s: JournalState :: s in Images(log) && s.active.Some? ==> JobOk(s.active.value))
  }

  lemma GrowsStep(log: Log, e: Entry)
    requires Grows(log) && Allowed(log, e)
    ensures Grows(log + [e])
  {
    hide Current, Images, WasCancelled, JobStartedSettled, Succeeds, ValidJournal, JobOk, ValidReconciliation, JobGrows;
    Grown(log, e);
    forall s: JournalState, t: JournalState | s in Images(log + [e]) && Synced(t) in log + [e]
      ensures Monotone(t, s)
    {
      if Synced(t) !in log {
        SameState(t);
      }
    }
  }

  lemma SameState(s: JournalState)
    requires s.active.Some? ==> JobOk(s.active.value)
    ensures Monotone(s, s)
  {
  }

  lemma {:induction false} ImagesGrow(log: Log)
    requires Safe(log)
    ensures Grows(log)
  {
    hide Allowed, JobOk, Monotone;
    if log != [] {
      var n := |log| - 1;
      ImagesGrow(log[..n]);
      GrowsStep(log[..n], log[n]);
      assert log == log[..n] + [log[n]];
    }
  }

  /**
   * Within one acceptance identity and offer never change, the expiry never moves back and a cancellation is
   * never lost or overwritten: from a synced journal to every later one, also one that was only written, and
   * also the one a restarted process finds.
   */
  lemma {:induction false} LeaseOnlyGrows(log: Log, i: nat, j: nat)
    requires Safe(log) && i < j < |log| && log[i].Synced? && HasState(log[j])
    ensures Monotone(log[i].state, log[j].state)
    ensures log[j].state.active.Some? ==> JobOk(log[j].state.active.value)
  {
    hide Monotone, JobOk, Images, Succeeds, Current, ValidJournal;
    AllowedAt(log, j);
    Earlier(log, i, j);
    ImagesGrow(log[..j]);
  }

  /** The lease was in the journal when the gateway reconciled exactly it as terminal. */
  ghost predicate EndedBefore(log: Log, j: nat, job: JournalJob)
    requires j <= |log|
  {
    exists k, r: Reconciliation ::
      && 0 <= k < j && log[k] == Terminated(job.acceptance, r) && Holds(log[..k], job.acceptance)
      && r.identity == job.specification.identity && ValidReconciliation(r) && Terminal(r.status)
  }

  /** The event was in the slot when it was acknowledged by its id and identity. */
  ghost predicate AcknowledgedBefore(log: Log, j: nat, m: RunnerMessage)
    requires j <= |log|
  {
    exists k, r: Reconciliation ::
      && 0 <= k < j && log[k] == Acknowledged(m, m.sequence, r) && r.identity == m.identity && ValidReconciliation(r)
      && Current(log[..k]).Some? && Current(log[..k]).value.pending == Some(m)
  }

  lemma {:induction false} EndedExactly(log: Log, j: nat, job: JournalJob)
    requires Safe(log) && j <= |log| && EndedByGateway(log[..j], job)
    ensures EndedBefore(log, j, job)
  {
    hide Safe, ValidReconciliation, Current;
    var r: Reconciliation :| Terminated(job.acceptance, r) in log[..j] && r.identity == job.specification.identity
      && ValidReconciliation(r) && Terminal(r.status);
    var k :| 0 <= k < j && log[..j][k] == Terminated(job.acceptance, r);
    AllowedAt(log, k);
    assert log[k] == Terminated(job.acceptance, r);
  }

  lemma {:induction false} AcknowledgedExactly(log: Log, j: nat, m: RunnerMessage)
    requires Safe(log) && j <= |log| && WasAcknowledged(log[..j], m)
    ensures AcknowledgedBefore(log, j, m)
  {
    hide Safe, ValidReconciliation, Current, FitsPending;
    var r: Reconciliation :| Acknowledged(m, m.sequence, r) in log[..j];
    var k :| 0 <= k < j && log[..j][k] == Acknowledged(m, m.sequence, r);
    AllowedAt(log, k);
    assert log[k] == Acknowledged(m, m.sequence, r);
  }

  /**
   * A journal write drops or replaces the lease only after a terminal reconciliation of that lease, and the
   * pending event only after its own acknowledgement or together with the lease that ends.
   */
  lemma {:induction false} ClearedOnlyForCause(log: Log, j: nat, a: JournalState)
    requires Safe(log) && j < |log| && (log[j].Synced? || log[j].Written?) && Current(log[..j]) == Some(a)
    ensures a.active.Some? && (log[j].state.active.None? || log[j].state.active.value.acceptance != a.active.value.acceptance) ==>
      EndedBefore(log, j, a.active.value)
    ensures a.pending.Some? && log[j].state.pending != a.pending ==>
      || AcknowledgedBefore(log, j, a.pending.value)
      || (a.active.Some? && log[j].state == log[j].state.(active := None, pending := None) && EndedBefore(log, j, a.active.value))
    ensures log[j].state.pending.Some? && log[j].state.pending != a.pending ==> a.pending.None?
  {
    hide Safe, Current, WasAcknowledged, EndedByGateway, UsedResult, JustAccepted, ValidJournal, Monotone, EndedBefore, AcknowledgedBefore;
    AllowedAt(log, j);
    if a.active.Some? && EndedByGateway(log[..j], a.active.value) {
      EndedExactly(log, j, a.active.value);
    }
    if a.pending.Some? && WasAcknowledged(log[..j], a.pending.value) {
      AcknowledgedExactly(log, j, a.pending.value);
    }
  }

  // ---- Offers ----

  /** This write brings a lease into the journal. */
  ghost predicate BringsLease(log: Log, j: nat)
    requires j < |log|
  {
    && (log[j].Synced? || log[j].Written?) && log[j].state.active.Some?
    && Current(log[..j]).Some? && Current(log[..j]).value.active.None?
  }

  /** The runner was idle, in a process without a failed cleanup, when this acceptance was made. */
  ghost predicate AcceptedIdle(log: Log, i: nat, acceptance: nat)
    requires i < |log|
  {
    && log[i].Accepted? && log[i].acceptance == acceptance && Current(log[..i]) == Some(log[i].before)
    && log[i].before.active.None? && log[i].before.pending.None? && !log[i].workerRunning && !log[i].draining
    && CleanSinceRestart(log[..i]) && (OrderlySinceRestart(log[..i]) ==> log[i].workers == 0)
  }

  /** A lease enters the journal, synced or not, only directly after such an acceptance on top of the journal before. */
  lemma {:induction false} AcceptedOnlyWhenIdle(log: Log, j: nat)
    requires Safe(log) && j < |log| && BringsLease(log, j)
    ensures j > 0 && AcceptedIdle(log, j - 1, log[j].state.active.value.acceptance)
    ensures Current(log[..j]) == Some(log[j - 1].before)
  {
    hide Current, OrderlySinceRestart, CleanSinceRestart;
    AllowedAt(log, j);
    assert log[..j][j - 1] == log[j - 1];
    AllowedAt(log, j - 1);
  }

  ghost predicate Leased(log: Log) {
    && (Current(log).Some? ==> Current(log).value in Images(log))
    && (Current(log).None? ==> Images(log) == {})
    && (forall s :: s in Images(log) && s.active.Some? ==> HasAccepted(log, s.active.value.acceptance))
  }

  lemma LeasedStep(log: Log, e: Entry)
    requires Leased(log) && Allowed(log, e)
    ensures Leased(log + [e])
  {
    hide Current, Images, WasCancelled, JobStartedSettled, PreparingSettled, ValidJournal, JobOk, ValidReconciliation, EndedByGateway,
      UsedResult, Monotone, HasAccepted, OrderlySinceRestart, CleanSinceRestart, FitsPending, Adopted;
    Grown(log, e);
    forall s | s in Images(log + [e]) && s.active.Some?
      ensures HasAccepted(log + [e], s.active.value.acceptance)
    {
      HasAcceptedStep(log, e, s.active.value.acceptance);
      if s !in Images(log) {
        WrittenWasAccepted(log, s);
      }
    }
  }

  lemma WrittenWasAccepted(log: Log, s: JournalState)
    requires Leased(log) && MayWrite(log, s) && s.active.Some?
    ensures HasAccepted(log, s.active.value.acceptance)
  {
    hide Current, Images, ValidJournal, JobOk, EndedByGateway, UsedResult, Monotone;
    var a := Current(log).value;
    if a.active.None? {
      var e := log[|log| - 1];
      assert Accepted(e.acceptance, e.before, e.workerRunning, e.draining, e.workers) in log;
    }
  }

  lemma {:induction false} AllLeased(log: Log)
    requires Safe(log)
    ensures Leased(log)
  {
    hide Allowed, HasAccepted;
    if log != [] {
      var n := |log| - 1;
      AllLeased(log[..n]);
      LeasedStep(log[..n], log[n]);
      assert log == log[..n] + [log[n]];
    }
  }

  /**
   * Every lease that is in any journal of a run, also one that was only written or that a restart found, was
   * accepted by an idle runner.
   */
  lemma {:induction false} EveryLeaseWasAccepted(log: Log, j: nat)
    requires Safe(log) && j < |log| && HasState(log[j]) && log[j].state.active.Some?
    ensures exists i :: 0 <= i < j && AcceptedIdle(log, i, log[j].state.active.value.acceptance)
  {
    hide Current, Images, Succeeds, OrderlySinceRestart, CleanSinceRestart;
    AllowedAt(log, j);
    AllLeased(log[..j]);
    var acceptance := log[j].state.active.value.acceptance;
    if !log[j].Restarted? {
      WrittenWasAccepted(log[..j], log[j].state);
    }
    var b: JournalState, w: bool, d: bool, k: nat :| Accepted(acceptance, b, w, d, k) in log[..j];
    var i :| 0 <= i < j && log[..j][i] == Accepted(acceptance, b, w, d, k);
    assert log[i] == Accepted(acceptance, b, w, d, k);
    AllowedAt(log, i);
    assert AcceptedIdle(log, i, acceptance);
  }

  lemma {:induction false} CleanMeansNoFailure(log: Log, i: nat)
    requires i < |log| && log[i].CleanupFailed? && CleanSinceRestart(log)
    ensures exists k :: i < k < |log| && log[k].Restarted?
  {
    if !log[|log| - 1].Restarted? {
      CleanMeansNoFailure(log[..|log| - 1], i);
      var k :| i < k < |log| - 1 && log[..|log| - 1][k].Restarted?;
      assert log[k].Restarted?;
    }
  }

  /** After a failed cleanup no lease enters the journal until the process restarts. */
  lemma {:induction false} NoOfferAfterFailedCleanup(log: Log, i: nat, j: nat)
    requires Safe(log) && i < j < |log| && log[i].CleanupFailed? && BringsLease(log, j)
    ensures exists k :: i < k < j && log[k].Restarted?
  {
    hide Current, OrderlySinceRestart, BringsLease;
    AcceptedOnlyWhenIdle(log, j);
    var n := j - 1;
    assert log[..n][i].CleanupFailed?;
    CleanMeansNoFailure(log[..n], i);
    var k :| i < k < n && log[..n][k].Restarted?;
    assert log[k].Restarted?;
  }
}
