/** The records of the lease protocol and the pure checks of `journal.go` and `supervisor.go`. */
module LeaseTypes {
  import opened Options

  /** The seven fields that identify a lease and its attempt. */
  datatype Identity = Identity(
    leaseId: string, jobId: string, executionId: string,
    attemptId: string, attemptNumber: nat, releaseCandidateId: string, matrixEntryId: string)

  datatype JobSpecification = JobSpecification(identity: Identity, expiresAt: int, correlation: string)

  datatype Phase = PhaseUnspecified | PhaseAccepted | PhasePreparing | PhaseRunning | PhaseCancelling | PhaseUnknown

  datatype Status =
    | StatusOffered | StatusAccepted | StatusActive
    | StatusCompleted | StatusCancelled | StatusExpired | StatusReleased | StatusUnknown

  datatype Disposition = Applied | AlreadyApplied | Stale | DispositionUnknown

  /** `acceptance` numbers the acceptances of a run; it is history, the runner never reads it. */
  datatype JournalJob = JournalJob(
    specification: JobSpecification, offerMessageId: string, offerDigest: int, phase: Phase, expiresAt: int,
    cancellationId: string, cancellationDeadline: Option<int>, cancellationDigest: Option<int>, acceptance: nat)

  /** The durable runner events.  `call` says which start callback asked; it is history too. */
  datatype Event =
    | LeaseAccepted | LeaseRejected | LeaseRenewal | JobPreparing | JobStarted(call: nat)
    | Completed | Failed | Cancelled(cancellationId: string)

  datatype RunnerMessage = RunnerMessage(sequence: nat, event: Event, identity: Identity)

  datatype Heartbeat = Heartbeat(message: nat, sequence: nat, leases: seq<Identity>)

  datatype JournalState = JournalState(
    messageSequence: nat, heartbeatSequence: nat,
    active: Option<JournalJob>, pending: Option<RunnerMessage>, pendingHeartbeat: Option<Heartbeat>)

  /** `wellFormed` stands for the checks of identifiers, timestamps and attempt numbers. */
  datatype Reconciliation = Reconciliation(
    identity: Identity, expiresAt: int, disposition: Disposition, status: Status, phase: Phase,
    cancellationId: string, hasUpload: bool, hasTerminalMessage: bool, wellFormed: bool)

  const MAX_SEQUENCE: nat := 0xFFFF_FFFF_FFFF_FFFF

  predicate Terminal(status: Status) {
    status.StatusCompleted? || status.StatusCancelled? || status.StatusExpired? || status.StatusReleased?
  }

  function PhaseRank(phase: Phase): nat {
    match phase
    case PhaseAccepted => 1
    case PhasePreparing => 2
    case PhaseRunning => 3
    case PhaseCancelling => 4
    case _ => 0
  }

  predicate TerminalEvent(event: Event) {
    event.Completed? || event.Failed? || event.Cancelled?
  }

  /** What `validateReconciliation` lets through. */
  predicate ValidReconciliation(r: Reconciliation) {
    && r.wellFormed
    && !r.disposition.DispositionUnknown? && !r.status.StatusUnknown? && !r.phase.PhaseUnknown?
    && (r.cancellationId != "" ==> r.phase.PhaseCancelling?)
    && (r.phase.PhaseCancelling? && r.cancellationId == "" ==> Terminal(r.status))
    && (r.hasUpload ==> r.status.StatusActive? && !r.phase.PhaseCancelling? && r.cancellationId == "" && !r.hasTerminalMessage)
  }

  /** What `validatePendingReconciliation` lets through for the pending event. */
  predicate FitsPending(pending: RunnerMessage, r: Reconciliation, active: Option<JournalJob>) {
    r.disposition.Stale? || Terminal(r.status) ||
    match pending.event
    case LeaseAccepted => r.status.StatusAccepted? && r.phase.PhaseAccepted?
    case LeaseRejected => false
    case JobPreparing => r.status.StatusActive? && r.phase.PhasePreparing?
    case JobStarted(_) => r.status.StatusActive? && r.phase.PhaseRunning?
    case LeaseRenewal =>
      && active.Some? && r.status.StatusActive? && r.phase == active.value.phase
      && (r.phase.PhasePreparing? || r.phase.PhaseRunning?)
    case _ => false
  }

  /** What `validateSettledEventAcknowledgement` lets through for an event settled earlier at `phase`. */
  predicate FitsSettled(settled: RunnerMessage, phase: Phase, r: Reconciliation) {
    && ValidReconciliation(r)
    && settled.identity == r.identity
    && (r.disposition.Stale? || Terminal(r.status) ||
        match settled.event
        case LeaseAccepted => (r.status.StatusAccepted? || r.status.StatusActive?) && PhaseRank(r.phase) >= 1
        case JobPreparing => r.status.StatusActive? && PhaseRank(r.phase) >= 2
        case JobStarted(_) => r.status.StatusActive? && PhaseRank(r.phase) >= 3
        case LeaseRenewal => r.status.StatusActive? && PhaseRank(r.phase) >= PhaseRank(phase)
        case _ => false)
  }

  /** What `validateJournalState` accepts, apart from the form of opaque identifiers. */
  predicate ValidJournal(s: JournalState) {
    && s.messageSequence <= MAX_SEQUENCE && s.heartbeatSequence <= MAX_SEQUENCE
    && (s.pendingHeartbeat.Some? ==>
         var h := s.pendingHeartbeat.value;
         0 < h.message <= s.messageSequence && 0 < h.sequence <= s.heartbeatSequence && |h.leases| <= 1)
    && (s.pending.Some? ==> 0 < s.pending.value.sequence <= s.messageSequence)
    && match s.active
       case None => s.pending.Some? ==> s.pending.value.event.LeaseRejected?
       case Some(job) =>
         && job.expiresAt == job.specification.expiresAt
         && !job.phase.PhaseUnspecified? && !job.phase.PhaseUnknown?
         && (job.cancellationId == "" ==> job.cancellationDigest.None?)
         && (job.cancellationDigest.None? <==> job.cancellationDeadline.None?)
         && (s.pending.Some? && !s.pending.value.event.LeaseRejected? ==>
              s.pending.value.identity == job.specification.identity)
  }

  /** What holds of every journalled job for every gateway, beyond what validation checks. */
  ghost predicate JobOk(job: JournalJob) {
    && (job.phase.PhaseCancelling? <==> job.cancellationId != "")
    && job.expiresAt == job.specification.expiresAt
  }

  /** How one lease may change: its expiry only grows, a cancellation is kept for good. */
  ghost predicate JobGrows(a: JournalJob, b: JournalJob) {
    && b.acceptance == a.acceptance
    && b.specification.identity == a.specification.identity
    && b.offerMessageId == a.offerMessageId && b.offerDigest == a.offerDigest
    && a.expiresAt <= b.expiresAt
    && (a.cancellationId != "" ==> b.cancellationId == a.cancellationId && b.phase.PhaseCancelling?)
    && (a.cancellationDigest.Some? ==>
         b.cancellationDigest == a.cancellationDigest && b.cancellationDeadline == a.cancellationDeadline)
  }

  /** Two journal states of the same acceptance, in this order. */
  ghost predicate Monotone(a: JournalState, b: JournalState) {
    a.active.Some? && b.active.Some? && a.active.value.acceptance == b.active.value.acceptance ==>
      JobGrows(a.active.value, b.active.value)
  }

  /** The journal holds this acceptance with a cancellation. */
  predicate CancelledLease(s: JournalState, acceptance: nat) {
    s.active.Some? && s.active.value.acceptance == acceptance && s.active.value.cancellationId != ""
  }

  // ---- Authoritative reconciliation of the active lease ----

  function LaterExpiry(job: JournalJob, r: Reconciliation): int {
    if r.expiresAt < job.expiresAt then job.expiresAt else r.expiresAt
  }

  /** Lease, expiry and phase as `applyAuthoritativeReconciliation` writes them first. */
  function Refreshed(job: JournalJob, r: Reconciliation): JournalJob {
    job.(
      specification := job.specification.(identity := r.identity, expiresAt := LaterExpiry(job, r)),
      expiresAt := LaterExpiry(job, r),
      phase := if !r.phase.PhaseUnspecified? && PhaseRank(r.phase) >= PhaseRank(job.phase) then r.phase else job.phase)
  }

  /** Then the cancellation, if the gateway announces one. */
  function Reconciled(job: JournalJob, r: Reconciliation): JournalJob {
    if r.cancellationId == "" then Refreshed(job, r)
    else Refreshed(job, r).(cancellationId := r.cancellationId, phase := PhaseCancelling)
  }

  predicate CancellationConflicts(job: JournalJob, r: Reconciliation) {
    r.cancellationId != "" && job.cancellationId != "" && job.cancellationId != r.cancellationId
  }

  /** For every gateway: expiry never falls, and a recorded cancellation is never left or changed. */
  lemma ReconciledGrows(job: JournalJob, r: Reconciliation)
    requires JobOk(job) && ValidReconciliation(r) && !Terminal(r.status)
    requires r.identity == job.specification.identity && !CancellationConflicts(job, r)
    ensures JobOk(Reconciled(job, r)) && JobGrows(job, Reconciled(job, r))
  {
  }

  /** The phase is no lower than the other one, in the order accepted, preparing, running, cancelling. */
  predicate NoLower(from: Phase, to: Phase) {
    match from
    case PhaseAccepted => to.PhaseAccepted? || to.PhasePreparing? || to.PhaseRunning? || to.PhaseCancelling?
    case PhasePreparing => to.PhasePreparing? || to.PhaseRunning? || to.PhaseCancelling?
    case PhaseRunning => to.PhaseRunning? || to.PhaseCancelling?
    case PhaseCancelling => to.PhaseCancelling?
    case _ => true
  }

  /** The later of both expiries, the cancellation that is announced, and everything but the phase otherwise as it was. */
  predicate Prolonged(a: JournalJob, r: Reconciliation, b: JournalJob) {
    && r.expiresAt <= b.expiresAt && a.expiresAt <= b.expiresAt && (b.expiresAt == r.expiresAt || b.expiresAt == a.expiresAt)
    && b.specification == JobSpecification(a.specification.identity, b.expiresAt, a.specification.correlation)
    && b.cancellationId == (if r.cancellationId != "" then r.cancellationId else a.cancellationId)
    && b.cancellationDeadline == a.cancellationDeadline && b.cancellationDigest == a.cancellationDigest
    && b.offerMessageId == a.offerMessageId && b.offerDigest == a.offerDigest && b.acceptance == a.acceptance
  }

  /** And the phase that the gateway says, if it says one that is no lower. */
  predicate TakesOver(a: JournalJob, r: Reconciliation, b: JournalJob) {
    && Prolonged(a, r, b)
    && b.phase == (if !r.phase.PhaseUnspecified? && NoLower(a.phase, r.phase) then r.phase else a.phase)
  }

  lemma ReconciledTakesOver(job: JournalJob, r: Reconciliation)
    requires ValidReconciliation(r) && !Terminal(r.status) && r.identity == job.specification.identity
    requires !job.phase.PhaseUnspecified? && !job.phase.PhaseUnknown?
    ensures TakesOver(job, r, Reconciled(job, r))
  {
  }

  // ---- A cancellation command ----

  function CancelledBy(job: JournalJob, id: string, deadline: int, digest: int): JournalJob {
    job.(cancellationId := id, cancellationDeadline := Some(deadline), cancellationDigest := Some(digest),
         phase := PhaseCancelling)
  }

  lemma CancelledByGrows(job: JournalJob, id: string, deadline: int, digest: int)
    requires JobOk(job) && id != ""
    requires job.cancellationId == "" || (job.cancellationId == id && job.cancellationDigest.None?)
    requires job.cancellationId == "" ==> job.cancellationDigest.None?
    ensures JobOk(CancelledBy(job, id, deadline, digest)) && JobGrows(job, CancelledBy(job, id, deadline, digest))
  {
  }

  /** An event acknowledgement; `valid` stands for its timestamp check. */
  datatype Acknowledgement = Acknowledgement(valid: bool, sequence: nat, reconciliation: Option<Reconciliation>)

  /** The same lease up to its phase. */
  predicate SameLease(a: Option<JournalJob>, b: Option<JournalJob>) {
    if a.None? then b.None? else b.Some? && b.value == a.value.(phase := b.value.phase)
  }

  /** The outbox slot is unchanged, or it holds an event with a new id. */
  predicate SlotKeptOrNew(a: JournalState, b: JournalState) {
    && a.messageSequence <= b.messageSequence
    && (b.pending == a.pending || (b.pending.Some? && b.pending.value.sequence > a.messageSequence))
  }

  /** A lease offer.  The identity may be missing; `digest` is that of the whole envelope. */
  datatype Offer = Offer(messageId: string, digest: int, identity: Option<Identity>, expiresAt: int, correlation: string)

  /** A cancellation command; `wellFormed` stands for the checks of its fields. */
  datatype Cancellation = Cancellation(wellFormed: bool, identity: Identity, id: string, deadline: int, digest: int)

  datatype HeartbeatAcknowledgement =
    HeartbeatAcknowledgement(valid: bool, message: nat, sequence: nat, reconciliations: seq<Reconciliation>)

  /** A new lease of this offer: accepted, with its identity, expiry and message, and nothing of a cancellation. */
  predicate Offered(offer: Offer, job: JournalJob) {
    && Some(job.specification.identity) == offer.identity && job.specification.correlation == offer.correlation
    && job.specification.expiresAt == job.expiresAt == offer.expiresAt
    && job.offerMessageId == offer.messageId && job.offerDigest == offer.digest && job.phase.PhaseAccepted?
    && job.cancellationId == "" && job.cancellationDigest.None? && job.cancellationDeadline.None?
  }

  /** The job that an accepted offer puts into the journal. */
  function JobOf(offer: Offer, identity: Identity, acceptance: nat): JournalJob {
    JournalJob(
      JobSpecification(identity, offer.expiresAt, offer.correlation), offer.messageId, offer.digest,
      PhaseAccepted, offer.expiresAt, "", None, None, acceptance)
  }
}
