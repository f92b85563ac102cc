/**
 * Runs in which nothing fails but what each of them names, step by step from an empty journal: where the
 * exceptions in the safety properties really occur.
 */
module LeaseRuns {
  import opened LeaseHistory
  import opened LeaseRunner
  import opened LeaseSafety
  import opened LeaseTypes
  import opened Options

  /** What the gateway says when it agrees with the runner. */
  function Agreed(identity: Identity, expiresAt: int, status: Status, phase: Phase): Reconciliation {
    Reconciliation(identity, expiresAt, Applied, status, phase, "", false, false, true)
  }

  /** What the gateway says when it announces a cancellation. */
  function Announced(identity: Identity, expiresAt: int, id: string): Reconciliation {
    Reconciliation(identity, expiresAt, Applied, StatusActive, PhaseCancelling, id, false, false, true)
  }

  ghost predicate Good(r: Runner, steps: nat)
    reads r
  {
    && r.Ready() && r.trouble.Calm? && !r.recovering && !r.draining && r.hasWorker
    && r.journal.messageSequence <= steps && r.journal.heartbeatSequence <= steps && steps < 100
  }

  /** Nothing is held. */
  ghost predicate Free(r: Runner, steps: nat)
    reads r
  {
    && Good(r, steps) && r.Free() && r.startResponse.None? && r.queue == []
    && (forall n :: n in r.session.settled ==> n <= r.journal.messageSequence)
  }

  /** The lease was accepted and its worker started; the slot is empty. */
  ghost predicate Working(r: Runner, identity: Identity, steps: nat)
    reads r
  {
    && Good(r, steps) && r.ActiveMatches(identity) && r.journal.pending.None? && r.journal.active.value.cancellationId == ""
    && r.workerRunning && r.alive > 0 && r.queue == [] && r.startResponse.None?
    && (forall n :: n in r.session.settled ==> n <= r.journal.messageSequence)
  }

  /** The worker waits for the acknowledgement of its start. */
  ghost predicate Asking(r: Runner, identity: Identity, steps: nat)
    reads r
  {
    && Good(r, steps) && r.ActiveMatches(identity) && r.journal.active.value.cancellationId == ""
    && r.workerRunning && r.alive > 0 && r.queue == [] && r.startResponse.Some?
    && r.journal.pending.Some? && r.journal.pending.value.event == JobStarted(r.startResponse.value)
    && r.journal.pending.value.identity == identity && r.journal.pending.value.sequence !in r.session.settled
  }

  /** A heartbeat that lists the lease is unanswered. */
  predicate Listed(r: Runner, identity: Identity)
    reads r
  {
    r.session.heartbeat.Some? && r.session.heartbeat.value.leases == [identity]
  }

  /** A first session, whose heartbeat is answered. */
  method Begin() returns (r: Runner)
    ensures fresh(r) && Free(r, 3) && r.deferred == []
    ensures r.journal.pendingHeartbeat.None? && r.session.heartbeat.None?
  {
    hide Runner.Disk, Runner.Consistent;
    r := new Runner(true);
    r.trouble := Calm;
    var fault := r.Connect(60);
    var beat := r.session.heartbeat.value;
    fault := r.HandleHeartbeatAcknowledgement(HeartbeatAcknowledgement(true, beat.message, beat.sequence, []), 0);
  }

  /** The pending event is acknowledged as applied. */
  method Confirm(r: Runner, status: Status, phase: Phase) returns (fault: Fault)
    requires r.Ready() && r.IsCalm() && !r.recovering && r.journal.active.Some? && r.journal.pending.Some?
    requires var m := r.journal.pending.value;
      var rec := Agreed(m.identity, r.journal.active.value.expiresAt, status, phase);
      && m.sequence !in r.session.settled && r.ActiveMatches(m.identity) && ValidReconciliation(rec)
      && FitsPending(m, rec, r.journal.active) && r.Proceeds(m, rec)
    modifies r
    ensures r.After(fault) && r.trouble.Calm? && !r.recovering && r.session.heartbeat == old(r.session).heartbeat
    ensures r.session.settled.Keys <= old(r.session).settled.Keys + {old(r.journal).pending.value.sequence}
    ensures r.queue == old(r.queue) && old(r.log) <= r.log
    ensures var rec := Agreed(old(r.journal).pending.value.identity, old(r.journal).active.value.expiresAt, status, phase);
      r.Proceeded(old(r.journal).pending.value, r.AfterReconciliation(old(r.journal), rec), fault, |old(r.log)|, old(r.Snapshot()))
  {
    hide Runner.Disk, Runner.Consistent;
    var m := r.journal.pending.value;
    var rec := Agreed(m.identity, r.journal.active.value.expiresAt, status, phase);
    fault := r.HandleEventAcknowledgement(Acknowledgement(true, m.sequence, Some(rec)), 0);
  }

  /** An early event of a lease without a worker is pending. */
  ghost predicate Starting(r: Runner, identity: Identity, event: Event, steps: nat)
    reads r
  {
    && Good(r, steps) && r.ActiveMatches(identity) && r.journal.active.value.cancellationId == ""
    && !r.workerRunning && r.queue == [] && r.startResponse.None?
    && r.journal.pending == Some(RunnerMessage(r.journal.messageSequence, event, identity))
    && (forall n :: n in r.session.settled ==> n < r.journal.messageSequence)
  }

  method ConfirmAccepted(r: Runner, identity: Identity, ghost steps: nat)
    requires Starting(r, identity, LeaseAccepted, steps) && steps < 90
    modifies r
    ensures Starting(r, identity, JobPreparing, steps + 1)
    ensures r.deferred == old(r.deferred) && r.session.heartbeat == old(r.session).heartbeat
    ensures r.journal.pendingHeartbeat == old(r.journal).pendingHeartbeat
    ensures r.journal.active.value.offerMessageId == old(r.journal).active.value.offerMessageId
  {
    hide Runner.Disk, Runner.Consistent;
    var fault := Confirm(r, StatusAccepted, PhaseAccepted);
  }

  method ConfirmPreparing(r: Runner, identity: Identity, ghost steps: nat)
    requires Starting(r, identity, JobPreparing, steps) && steps < 90
    modifies r
    ensures Working(r, identity, steps)
    ensures r.deferred == old(r.deferred) && r.session.heartbeat == old(r.session).heartbeat
    ensures r.journal.pendingHeartbeat == old(r.journal).pendingHeartbeat
    ensures r.journal.active.value.offerMessageId == old(r.journal).active.value.offerMessageId
  {
    hide Runner.Disk, Runner.Consistent;
    var fault := Confirm(r, StatusActive, PhasePreparing);
  }

  /** An offer is accepted, and both its events are acknowledged, so that its worker starts. */
  method TakeLease(r: Runner, offer: Offer, ghost steps: nat)
    requires Free(r, steps) && offer.identity.Some? && steps < 80
    modifies r
    ensures Working(r, offer.identity.value, steps + 2)
    ensures r.deferred == old(r.deferred) && r.session.heartbeat == old(r.session).heartbeat
    ensures r.journal.pendingHeartbeat == old(r.journal).pendingHeartbeat
    ensures r.journal.active.value.offerMessageId == offer.messageId
  {
    hide Runner.Disk, Runner.Consistent;
    var fault := r.HandleOffer(offer, true);
    ConfirmAccepted(r, offer.identity.value, steps + 1);
    ConfirmPreparing(r, offer.identity.value, steps + 2);
  }

  /** The worker asks to start; its event is pending. */
  method AskToStart(r: Runner, identity: Identity, ghost steps: nat)
    requires Working(r, identity, steps) && steps < 90
    modifies r
    ensures Asking(r, identity, steps + 1)
    ensures r.deferred == old(r.deferred) && r.session == old(r.session)
  {
    hide Runner.Disk, Runner.Consistent;
    r.WorkerAsks();
    var fault := r.HandleNextWorkerEvent(0);
  }

  /** A worker is started, a heartbeat is sent that lists its lease, and the worker asks to start. */
  method Prepare(offer: Offer) returns (r: Runner)
    requires offer.identity.Some?
    ensures fresh(r) && Asking(r, offer.identity.value, 7) && Listed(r, offer.identity.value) && r.deferred == []
  {
    hide Runner.Disk, Runner.Consistent;
    r := Begin();
    TakeLease(r, offer, 3);
    var fault := r.SendHeartbeat();
    AskToStart(r, offer.identity.value, 6);
  }

  /** The heartbeat is answered with a cancellation of the lease. */
  method Announce(r: Runner, identity: Identity, id: string)
    requires Asking(r, identity, 7) && Listed(r, identity) && r.deferred == [] && id != ""
    modifies r
    ensures r.Ready() && r.IsCalm() && !r.recovering && r.ActiveMatches(identity) && r.AwaitsCommand()
    ensures r.journal.pending == old(r.journal).pending && r.session.settled == old(r.session).settled
    ensures r.queue == old(r.queue) && r.alive == old(r.alive) && r.deferred == []
  {
    hide Runner.Disk, Runner.Consistent;
    r.ActiveIsOk();
    var beat := r.session.heartbeat.value;
    var announced := Announced(identity, r.journal.active.value.expiresAt, id);
    var fault := r.HandleHeartbeatAcknowledgement(HeartbeatAcknowledgement(true, beat.message, beat.sequence, [announced]), 0);
  }

  /**
   * Nothing at all fails, and the runner never returns: a cancellation is announced by a heartbeat while the
   * start is pending, the worker ends, and then the start is acknowledged as running.
   */
  method DrainNeverReturns(offer: Offer, id: string) returns (r: Runner, fault: Fault)
    requires offer.identity.Some? && id != ""
    ensures fresh(r) && fault.Stuck?
  {
    hide Runner.Disk, Runner.Consistent;
    r := Prepare(offer);
    Announce(r, offer.identity.value, id);
    r.WorkerEnds(false);
    fault := r.HandleNextWorkerEvent(0);
    assert r.deferred[0].Result?;
    fault := Confirm(r, StatusActive, PhaseRunning);
  }

  /** The pending start is acknowledged as running; a waiting callback gets its answer. */
  method ConfirmStart(r: Runner, identity: Identity, ghost call: nat) returns (ghost j: nat)
    requires r.Ready() && r.IsCalm() && !r.recovering && r.ActiveMatches(identity) && r.startResponse == Some(call)
    requires r.journal.pending.Some? && r.journal.pending.value.event == JobStarted(call)
    requires r.journal.pending.value.identity == identity && r.journal.pending.value.sequence !in r.session.settled
    modifies r
    ensures |old(r.log)| <= j < |r.log| && old(r.log) <= r.log
    ensures r.log[j] == StartGranted(call, old(r.journal).active.value.acceptance)
  {
    hide Runner.Disk, Runner.Consistent;
    var fault := Confirm(r, StatusActive, PhaseRunning);
    j :| |old(r.log)| <= j < |r.log| && r.log[j] == StartGranted(call, old(r.journal).active.value.acceptance);
  }

  /**
   * One sync fails and costs the session only: the cancellation is in the journal and in memory, the start
   * callback still waits, and after the reconnect it is granted.
   */
  method GrantedAfterCancellation(offer: Offer, c: Cancellation) returns (r: Runner, ghost i: nat, ghost j: nat)
    requires offer.identity == Some(c.identity) && c.wellFormed && c.id != ""
    ensures fresh(r) && i < j < |r.log| && r.log[i].Written? && r.log[j].StartGranted?
    ensures CancelledLease(r.log[i].state, r.log[j].acceptance)
  {
    hide Runner.Disk, Runner.Consistent;
    r := Prepare(offer);
    i := |r.log|;
    r.trouble := SyncFails;
    var fault := r.HandleCancellation(c, 0);
    fault := r.Connect(60);
    j := ConfirmStart(r, c.identity, r.startResponse.value);
  }

  /** The heartbeat is answered with the end of the lease, whose result is deferred; the write is not synced. */
  method EndUnsynced(r: Runner, identity: Identity)
    requires Asking(r, identity, 7) && Listed(r, identity)
    modifies r
    ensures r.Valid() && r.trouble.Calm? && !r.recovering && !r.draining && !r.workerRunning && r.queue == []
    ensures r.journal == old(r.journal).(active := None, pending := None)
    ensures r.deferred == old(r.deferred) + [Result(false)]
  {
    hide Runner.Disk, Runner.Consistent;
    r.WorkerEnds(false);
    var fault := r.HandleNextWorkerEvent(0);
    var beat := r.session.heartbeat.value;
    var ended := Agreed(identity, 0, StatusExpired, PhaseRunning);
    r.trouble := SyncFails;
    fault := r.HandleHeartbeatAcknowledgement(HeartbeatAcknowledgement(true, beat.message, beat.sequence, [ended]), 0);
  }

  /** A process without a lease has no start callback waiting. */
  lemma NoCallback(r: Runner)
    requires r.Memory() && r.journal.active.None?
    ensures r.startResponse.None?
  {
  }

  /** With a result still deferred, the next lease ends as soon as its start is acknowledged. */
  method TakeNextLease(r: Runner, offer: Offer, ghost steps: nat)
    requires Free(r, steps) && offer.identity.Some? && steps < 80 && r.deferred == [Result(false)]
    modifies r
    ensures r.alive > 0 && r.Reported() && r.ActiveMatches(offer.identity.value)
  {
    hide Runner.Disk, Runner.Consistent;
    TakeLease(r, offer, steps);
    AskToStart(r, offer.identity.value, steps + 2);
    var fault := Confirm(r, StatusActive, PhaseRunning);
  }

  /**
   * The same failure while a lease ends: its result stays deferred in memory, and after the reconnect it ends
   * the next lease while the worker of that lease runs.
   */
  method OldResultEndsNextLease(first: Offer, second: Offer) returns (r: Runner)
    requires first.identity.Some? && second.identity.Some?
    ensures fresh(r) && r.alive > 0 && r.Reported() && r.ActiveMatches(second.identity.value)
  {
    hide Runner.Disk, Runner.Consistent;
    r := Prepare(first);
    EndUnsynced(r, first.identity.value);
    NoCallback(r);
    var fault := r.Connect(60);
    TakeNextLease(r, second, 10);
  }

  /** While a lease is active another offer is rejected; its id is new. */
  method RejectAnother(r: Runner, identity: Identity, offer: Offer, ghost steps: nat) returns (rejection: RunnerMessage)
    requires Working(r, identity, steps) && Listed(r, identity) && steps < 90
    requires offer.identity.Some? && offer.identity.value != identity && r.journal.active.value.offerMessageId != offer.messageId
    modifies r
    ensures r.Ready() && r.trouble.Calm? && !r.recovering && r.ActiveMatches(identity) && Listed(r, identity)
    ensures r.journal.pending == Some(rejection) && rejection.event.LeaseRejected? && rejection.identity == offer.identity.value
    ensures Sent(rejection) in r.log && !WasAcknowledged(r.log, rejection)
  {
    hide Runner.Disk, Runner.Consistent, WasAcknowledged;
    ghost var before := r.log;
    r.CreatedBelow(r.journal);
    var n := r.journal.messageSequence + 1;
    rejection := RunnerMessage(n, LeaseRejected, offer.identity.value);
    SafeOf(r);
    if WasAcknowledged(before, rejection) {
      AcknowledgedIdsWereTaken(before, rejection);
    }
    var fault := r.HandleOffer(offer, true);
    StillUnacknowledged(before, r.log, rejection);
  }

  lemma SafeOf(r: Runner)
    requires r.Disk()
    ensures Safe(r.log)
  {
  }

  lemma StillUnacknowledged(before: Log, after: Log, m: RunnerMessage)
    requires Quiet(before, after) || Unacknowledging(before, after)
    requires !WasAcknowledged(before, m)
    ensures !WasAcknowledged(after, m)
  {
  }

  /**
   * Nothing fails, and a rejection is lost: it is sent while the lease is active, the heartbeat that lists the lease is
   * answered with its end, and the slot is empty without an acknowledgement of the rejection.
   */
  method RejectionLost(first: Offer, second: Offer) returns (r: Runner, rejection: RunnerMessage)
    requires first.identity.Some? && second.identity.Some?
    requires first.identity != second.identity && first.messageId != second.messageId
    ensures fresh(r) && r.Ready() && Sent(rejection) in r.log && !WasAcknowledged(r.log, rejection)
    ensures rejection.event.LeaseRejected? && rejection.identity == second.identity.value
    ensures r.journal.active.None? && r.journal.pending.None?
  {
    hide Runner.Disk, Runner.Consistent, WasAcknowledged;
    r := Begin();
    TakeLease(r, first, 3);
    var fault := r.SendHeartbeat();
    rejection := RejectAnother(r, first.identity.value, second, 6);
    ghost var before := r.log;
    var beat := r.session.heartbeat.value;
    var ended := Agreed(first.identity.value, 0, StatusExpired, PhaseRunning);
    fault := r.HandleHeartbeatAcknowledgement(HeartbeatAcknowledgement(true, beat.message, beat.sequence, [ended]), 0);
    StaysInLog(before, r.log);
    StillUnacknowledged(before, r.log, rejection);
  }
}
