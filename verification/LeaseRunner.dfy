/**
 * The runner's side of the durable lease protocol: a one-slot outbox journal, the session handlers
 * that change it, and the worker they start.  The gateway may send anything; a crash keeps only
 * what is on disk.
 */
module LeaseRunner {
  import opened LeaseHistory
  import opened LeaseTypes
  import opened Options

  /** What a handler returns: go on, lose the session, end the run, or never return. */
  datatype Fault = Fine | Transient | Fatal | Stuck

  /**
   * What the environment does to the runner's own operations: nothing goes wrong; the next journal write is
   * in place but its sync fails with an error that only costs the session; or anything may go wrong.
   */
  datatype Trouble = Calm | SyncFails | Any

  /** The outcome of a journal callback: a new state, or an error that may leave writes behind. */
  datatype Attempt = Changed(state: JournalState) | Refused(state: JournalState)

  datatype WorkerEvent = StartCall(call: nat) | Result(cleanupFailed: bool)

  datatype SettledEvent = SettledEvent(message: RunnerMessage, phase: Phase)

  const MAXIMUM_REMEMBERED := 4096

  /** What lives as long as one stream to the gateway. */
  datatype Session = Session(
    leaseDuration: nat, reconciled: bool,
    settled: map<nat, SettledEvent>, settledOrder: seq<nat>,
    heartbeat: Option<Heartbeat>, heartbeatDeferred: bool,
    acknowledged: map<nat, Heartbeat>, acknowledgedOrder: seq<nat>)
  {
    /** Remembers a settled event, and forgets the oldest beyond the limit. */
    function Settle(message: RunnerMessage, phase: Phase): Session {
      var order := if message.sequence in settled then settledOrder else settledOrder + [message.sequence];
      var all := settled[message.sequence := SettledEvent(message, phase)];
      if |order| > MAXIMUM_REMEMBERED then this.(settled := all - {order[0]}, settledOrder := order[1..])
      else this.(settled := all, settledOrder := order)
    }

    /** The heartbeat is acknowledged; it is remembered in the same way. */
    function Acknowledge(beat: Heartbeat): Session {
      var order := if beat.message in acknowledged then acknowledgedOrder else acknowledgedOrder + [beat.message];
      var all := acknowledged[beat.message := beat];
      var next := this.(heartbeat := None, heartbeatDeferred := false);
      if |order| > MAXIMUM_REMEMBERED then next.(acknowledged := all - {order[0]}, acknowledgedOrder := order[1..])
      else next.(acknowledged := all, acknowledgedOrder := order)
    }
  }

  /** What a process keeps of its worker and its start callback. */
  datatype Process = Process(draining: bool, running: bool, workers: nat, response: Option<nat>, events: seq<WorkerEvent>)

  /** What a durable event changes besides the outbox slot. */
  datatype Change = NoChange | Accept(job: JournalJob) | SetPhase(phase: Phase)

  predicate Applicable(s: JournalState, change: Change) {
    match change
    case NoChange => true
    case Accept(_) => s.active.None?
    case SetPhase(_) => s.active.Some?
  }

  function Queued(s: JournalState, change: Change, message: RunnerMessage): JournalState
    requires Applicable(s, change)
  {
    var changed := match change {
      case NoChange => s
      case Accept(job) => s.(active := Some(job))
      case SetPhase(phase) => s.(active := Some(s.active.value.(phase := phase)))
    };
    changed.(pending := Some(message))
  }

  predicate EarlyEvent(event: Event) {
    event.LeaseAccepted? || event.JobPreparing?
  }

  ghost predicate HasAccepted(log: Log, a: nat) {
    exists b: JournalState, w: bool, d: bool, k: nat :: Accepted(a, b, w, d, k) in log
  }

  /** The history grew by journal writes and messages only. */
  ghost predicate Quiet(before: Log, after: Log) {
    && before <= after
    && (forall i :: |before| <= i < |after| ==>
         after[i].Created? || after[i].Sent? || after[i].Synced? || after[i].Written?)
  }

  /** The history grew without an acknowledgement. */
  ghost predicate Unacknowledging(before: Log, after: Log) {
    before <= after && forall i :: |before| <= i < |after| ==> !after[i].Acknowledged?
  }

  /** Such entries say nothing about the process. */
  lemma {:induction false} QuietKeeps(before: Log, after: Log)
    requires Quiet(before, after)
    ensures OrderlySinceRestart(after) <==> OrderlySinceRestart(before)
    ensures CleanSinceRestart(after) <==> CleanSinceRestart(before)
    ensures forall a: nat :: WorkerStarted(a) in after <==> WorkerStarted(a) in before
  {
    if |before| < |after| {
      var shorter := after[..|after| - 1];
      QuietKeeps(before, shorter);
      Grown(shorter, after[|after| - 1]);
      assert shorter + [after[|after| - 1]] == after;
    } else {
      assert after == before;
    }
  }

  /** No journal of the history holds this acceptance. */
  ghost predicate Unrecorded(log: Log, a: nat) {
    forall t: JournalState :: Recorded(log, t) && t.active.Some? ==> t.active.value.acceptance != a
  }

  lemma UnrecordedStays(log: Log, e: Entry, a: nat)
    requires Unrecorded(log, a) && !e.Synced? && !e.Written?
    ensures Unrecorded(log + [e], a)
  {
    Grown(log, e);
  }

  lemma HasAcceptedStep(log: Log, e: Entry, a: nat)
    ensures HasAccepted(log + [e], a) <==> HasAccepted(log, a) || (e.Accepted? && e.acceptance == a)
  {
    if HasAccepted(log, a) {
      var b: JournalState, w: bool, d: bool, k: nat :| Accepted(a, b, w, d, k) in log;
      assert Accepted(a, b, w, d, k) in log + [e];
    }
    if e.Accepted? && e.acceptance == a {
      assert Accepted(a, e.before, e.workerRunning, e.draining, e.workers) in log + [e];
    }
  }

  /** The state is later than every synced one of the same acceptance, and knows of every id taken. */
  ghost predicate Reachable(log: Log, s: JournalState) {
    && (forall t: JournalState :: Synced(t) in log ==> Monotone(t, s))
    && (forall n: nat :: Created(n) in log ==> n <= s.messageSequence)
    && CompletedByResult(log, s)
  }

  lemma UsedStays(before: Log, after: Log)
    requires before <= after
    ensures forall a: nat :: UsedResult(before, a) ==> UsedResult(after, a)
  {
    StaysInLog(before, after);
    forall a: nat | UsedResult(before, a)
      ensures UsedResult(after, a)
    {
      var k: nat :| ResultUsed(a, k) in before;
      assert ResultUsed(a, k) in after;
    }
  }

  /** A completion waits only in a lease for which a worker's result was used. */
  ghost predicate CompletedByResult(log: Log, s: JournalState) {
    s.pending.Some? && s.pending.value.event.Completed? ==> s.active.Some? && UsedResult(log, s.active.value.acceptance)
  }

  lemma ReachableStep(log: Log, a: JournalState, b: JournalState)
    requires Reachable(log, a) && Succeeds(log, a, b)
    ensures Reachable(log, b)
  {
    hide Succeeds, Monotone, CompletedByResult;
    MonotoneStep(log, a, b);
    SequenceGrows(log, a, b);
    CompletedStep(log, a, b);
  }

  lemma CompletedStep(log: Log, a: JournalState, b: JournalState)
    requires CompletedByResult(log, a) && Succeeds(log, a, b)
    ensures CompletedByResult(log, b)
  {
    hide UsedResult, EndedByGateway, WasAcknowledged;
  }

  lemma SequenceGrows(log: Log, a: JournalState, b: JournalState)
    requires Succeeds(log, a, b)
    ensures a.messageSequence <= b.messageSequence
  {
  }

  lemma ReachableStays(log: Log, e: Entry, s: JournalState)
    requires Reachable(log, s) && !e.Created? && (e.Synced? ==> e.state == s && (s.active.Some? ==> JobOk(s.active.value)))
    ensures Reachable(log + [e], s)
  {
    if s.active.Some? {
      UsedStep(log, e, s.active.value.acceptance);
    }
  }

  class Runner {
    const hasWorker: bool

    // What may go wrong from now on; the runner does not know it.
    var trouble: Trouble

    // The journal in memory, and every state the journal file may hold after a crash.
    var journal: JournalState
    var images: set<JournalState>

    // The process.
    var draining: bool
    var recovering: bool
    var workerRunning: bool
    var startResponse: Option<nat>
    var deferred: seq<WorkerEvent>

    // The workers: how many still execute, their events not yet handled, their start calls so far.
    var alive: nat
    var queue: seq<WorkerEvent>
    var calls: nat

    var session: Session

    // History.
    ghost var log: Log
    var nextAcceptance: nat
    ghost var registry: map<nat, RunnerMessage>

    ghost predicate StateOk(s: JournalState)
      reads this`nextAcceptance, this`registry
    {
      && ValidJournal(s)
      && (s.active.Some? ==> JobOk(s.active.value) && s.active.value.acceptance < nextAcceptance)
      && (s.pending.Some? ==> s.pending.value.sequence in registry && registry[s.pending.value.sequence] == s.pending.value)
    }

    ghost predicate Bounded()
      reads this`log, this`nextAcceptance, this`registry
    {
      && (forall a: nat :: WorkerStarted(a) in log || StartUnanswered(a) in log ==> a < nextAcceptance)
      && (forall a: nat :: HasAccepted(log, a) ==> a < nextAcceptance)
      && (forall t: JournalState :: Recorded(log, t) && t.active.Some? ==> t.active.value.acceptance < nextAcceptance)
      && (forall a: nat :: Adopted(log, a) ==> a < nextAcceptance)
      && (forall m: RunnerMessage :: Sent(m) in log ==> m.sequence in registry && registry[m.sequence] == m)
      && (forall n: nat :: n in registry ==> Created(n) in log)
    }

    /** What holds of the history and of everything that may be on disk, whatever happened last. */
    ghost predicate Disk()
      reads this`log, this`nextAcceptance, this`registry, this`images
    {
      && Safe(log)
      && Bounded()
      && images == Images(log) && images != {}
      && (forall s :: s in images ==> StateOk(s) && Reachable(log, s))
    }

    ghost predicate Idle(response: Option<nat>)
      reads this`workerRunning, this`alive, this`queue, this`deferred
    {
      !workerRunning && alive == 0 && queue == [] && deferred == [] && response.None?
    }

    /** What holds of the lease of a running process. */
    ghost predicate LeaseOk(job: JournalJob, pending: Option<RunnerMessage>, past: Log, response: Option<nat>)
      reads this`recovering
    {
      var a := job.acceptance;
      && (!recovering ==>
            && !Adopted(past, a)
            && (WorkerStarted(a) in past ==> pending.None? || !EarlyEvent(pending.value.event))
            && (WasCancelled(past, a) ==> job.cancellationId != "")
            && (response.Some? && job.cancellationId != "" ==> StartUnanswered(a) in past))
      && (pending.Some? && pending.value.event.JobStarted? && response.Some? ==> response.value == pending.value.event.call)
    }

    /** What also holds while nothing was left behind by an earlier lease: everything in memory is of this one. */
    ghost predicate Tidy(j: JournalState, past: Log, response: Option<nat>)
      reads this`workerRunning, this`alive, this`queue, this`deferred, this`recovering
    {
      && (recovering ==> j.active.Some? && Idle(response))
      && (j.active.None? ==> deferred == [])
      && (!workerRunning ==> queue == [] && alive == 0)
      && alive <= 1
      && (forall i :: 0 <= i < |queue| && queue[i].Result? ==> i == |queue| - 1 && alive == 0)
      && (workerRunning ==> forall i :: 0 <= i < |deferred| ==> !deferred[i].Result?)
      && (j.active.Some? && !recovering && WorkerStarted(j.active.value.acceptance) !in past ==> Idle(response))
    }

    /** What holds of a process that has not stopped, for a given journal and history. */
    ghost predicate Consistent(j: JournalState, past: Log, response: Option<nat>)
      reads this`workerRunning, this`alive, this`queue, this`deferred, this`recovering, this`draining
    {
      && (j.active.None? ==> response.None?)
      && (j.active.Some? ==> LeaseOk(j.active.value, j.pending, past, response))
      && (CleanSinceRestart(past) || draining)
      && (OrderlySinceRestart(past) ==> Tidy(j, past, response))
    }

    ghost predicate Memory()
      reads this`journal, this`images, this`log, this`startResponse,
            this`workerRunning, this`alive, this`queue, this`deferred, this`recovering, this`draining
    {
      journal in images && Current(log) == Some(journal) && Consistent(journal, log, startResponse)
    }

    /** A process that has not stopped. */
    ghost predicate Valid()
      reads this`journal, this`images, this`log, this`nextAcceptance, this`registry, this`startResponse,
            this`workerRunning, this`alive, this`queue, this`deferred, this`recovering, this`draining
    {
      Disk() && Memory()
    }

    /** A process in a session: what it has in memory is what a crash leaves. */
    ghost predicate Ready()
      reads this`journal, this`images, this`log, this`nextAcceptance, this`registry, this`startResponse,
            this`workerRunning, this`alive, this`queue, this`deferred, this`recovering, this`draining
    {
      Disk() && Memory() && images == {journal}
    }

    /**
     * What every handler leaves behind: a safe history, a process that goes on unless it stopped, and
     * nothing in memory alone as long as the session goes on.
     */
    ghost predicate After(fault: Fault)
      reads this`journal, this`images, this`log, this`nextAcceptance, this`registry, this`startResponse,
            this`workerRunning, this`alive, this`queue, this`deferred, this`recovering, this`draining
    {
      Disk() && (fault.Fine? || fault.Transient? ==> Memory()) && (fault.Fine? ==> images == {journal})
    }

    /** Nothing goes wrong, and another message id is left. */
    predicate IsCalm()
      reads this`trouble, this`journal
    {
      trouble.Calm? && journal.messageSequence < MAX_SEQUENCE
    }

    function Snapshot(): Process
      reads this`draining, this`workerRunning, this`alive, this`startResponse, this`deferred
    {
      Process(draining, workerRunning, alive, startResponse, deferred)
    }

    /** Whether something goes wrong here. */
    method Strikes() returns (x: bool)
      ensures x ==> trouble.Any?
    {
      x := *;
      x := x && trouble.Any?;
    }

    /** Adds an entry that is neither a journal state nor a new message id. */
    ghost method Record(e: Entry)
      requires Disk() && Allowed(log, e) && !HasState(e) && !e.Created?
      requires e.WorkerStarted? || e.StartUnanswered? || e.Accepted? ==> e.acceptance < nextAcceptance
      requires e.Sent? ==> e.message.sequence in registry && registry[e.message.sequence] == e.message
      modifies this`log
      ensures Disk() && log == old(log) + [e] && Current(log) == old(Current(log))
    {
      hide Reachable, Allowed, Safe, Current, Images, HasAccepted, Adopted;
      SafeStep(log, e);
      Grown(log, e);
      forall s | s in images {
        ReachableStays(log, e, s);
      }
      forall a: nat {
        HasAcceptedStep(log, e, a);
      }
      forall a: nat {
        AdoptedStep(log, e, a);
      }
      log := log + [e];
    }

    /** Puts a new journal in place, synced or not. */
    method Write(next: JournalState, synced: bool)
      requires Disk() && Current(log) == Some(journal) && journal in images
      requires StateOk(next) && Succeeds(log, journal, next)
      modifies this`journal, this`log, this`images
      ensures Disk() && journal == next && log == old(log) + [if synced then Synced(next) else Written(next)]
      ensures images == (if synced then {} else old(images)) + {next} && Current(log) == Some(next)
    {
      hide Reachable, Safe, Current, Images, HasAccepted, Adopted, Succeeds, Monotone, CleanSinceRestart, OrderlySinceRestart;
      ghost var e := if synced then Synced(next) else Written(next);
      ReachableStep(log, journal, next);
      WriteAllowed(log, journal, next);
      SafeStep(log, e);
      Grown(log, e);
      forall s | s in images && !synced {
        ReachableStays(log, e, s);
      }
      ReachableStays(log, e, next);
      forall a: nat {
        HasAcceptedStep(log, e, a);
      }
      forall a: nat {
        AdoptedStep(log, e, a);
      }
      log := log + [e];
      journal, images := next, (if synced then {} else images) + {next};
    }

    static lemma WriteAllowed(past: Log, a: JournalState, b: JournalState)
      requires Current(past) == Some(a) && Succeeds(past, a, b) && Reachable(past, b) && ValidJournal(b)
      requires b.active.Some? ==> JobOk(b.active.value)
      ensures Allowed(past, Synced(b)) && Allowed(past, Written(b))
    {
    }

    /** The write failed before the new journal was in place, or after. */
    ghost predicate NotWritten(before: JournalState, disk: set<JournalState>, past: Log)
      reads this`journal, this`images, this`log
    {
      journal == before && images == disk && log == past
    }

    ghost predicate InPlace(next: JournalState, disk: set<JournalState>, past: Log)
      reads this`journal, this`images, this`log
    {
      journal == next && images == disk + {next} && log == past + [Written(next)]
    }

    /**
     * One journal update.  A refused or invalid change ends the run, and a refused callback leaves its writes
     * in memory.  A failed write ends the run or only the session: before the rename the old state stays in
     * memory, after it the new one does, and then a crash may leave either.
     */
    method Update(attempt: Attempt) returns (fault: Fault)
      requires Disk() && Current(log) == Some(journal) && journal in images
      requires attempt.Changed? && ValidJournal(attempt.state) ==> StateOk(attempt.state) && Succeeds(log, journal, attempt.state)
      modifies this`journal, this`images, this`log, this`trouble
      ensures Disk() && !fault.Stuck?
      ensures old(log) <= log && Quiet(old(log), log)
      ensures attempt.Refused? || !ValidJournal(attempt.state) ==> fault.Fatal?
      ensures !fault.Fatal? ==> Current(log) == Some(journal) && journal in images
      ensures fault.Fine? ==> journal == attempt.state && images == {journal} && log == old(log) + [Synced(journal)]
      ensures fault.Transient? ==>
        NotWritten(old(journal), old(images), old(log)) || InPlace(attempt.state, old(images), old(log))
      ensures old(trouble).Calm? ==> trouble.Calm?
      ensures old(trouble).Calm? && attempt.Changed? && ValidJournal(attempt.state) ==> fault.Fine?
      ensures old(trouble).SyncFails? && attempt.Changed? && ValidJournal(attempt.state) ==>
        fault.Transient? && trouble.Calm? && InPlace(attempt.state, old(images), old(log))
    {
      hide Disk, Succeeds, StateOk;
      match attempt
      case Refused(state) =>
        journal := state;
        return Fatal;
      case Changed(next) =>
        if !ValidJournal(next) {
          return Fatal;
        }
        var replaceFails := Strikes();
        var costsSession: bool := *;
        if replaceFails {
          return if costsSession then Transient else Fatal;
        }
        var syncFails := Strikes();
        if trouble.SyncFails? {
          syncFails, costsSession, trouble := true, true, Calm;
        }
        Write(next, !syncFails);
        return if !syncFails then Fine else if costsSession then Transient else Fatal;
    }

    /** Entries about journal writes and messages do not concern the process. */
    lemma ConsistentStays(j: JournalState, past: Log, e: Entry, response: Option<nat>)
      requires Consistent(j, past, response)
      requires e.Created? || e.Sent? || e.Acknowledged? || e.Terminated? || e.ResultUsed? || e.Accepted? || e == Synced(j) || e == Written(j)
      ensures Consistent(j, past + [e], response)
    {
      hide CleanSinceRestart, OrderlySinceRestart, HasAccepted, Adopted, WasCancelled, Current, Images;
      Grown(past, e);
      if j.active.Some? {
        AdoptedStep(past, e, j.active.value.acceptance);
        CancelledStep(past, e, j.active.value.acceptance);
      }
    }

    /** A written journal suits the process if it did before it was written, synced or not. */
    lemma WrittenStays(next: JournalState, past: Log, response: Option<nat>)
      requires Consistent(next, past, response)
      ensures Consistent(next, past + [Synced(next)], response) && Consistent(next, past + [Written(next)], response)
    {
      ConsistentStays(next, past, Synced(next), response);
      ConsistentStays(next, past, Written(next), response);
    }

    ghost method RecordCreated(n: nat)
      requires Disk() && images == {journal} && n == journal.messageSequence
      requires forall k: nat :: Created(k) in log ==> k < n
      modifies this`log
      ensures Disk() && log == old(log) + [Created(n)] && Current(log) == old(Current(log))
    {
      hide Safe, Current, Images, HasAccepted, Adopted, Monotone, CleanSinceRestart, OrderlySinceRestart;
      SafeStep(log, Created(n));
      Grown(log, Created(n));
      forall a: nat {
        HasAcceptedStep(log, Created(n), a);
      }
      forall a: nat {
        AdoptedStep(log, Created(n), a);
      }
      log := log + [Created(n)];
    }

    /** Takes the next message id: committed before it can be used. */
    method NextMessage() returns (fault: Fault, n: nat)
      requires Valid()
      modifies this`journal, this`images, this`log, this`trouble
      ensures After(fault) && !fault.Stuck? && Quiet(old(log), log)
      ensures n == old(journal).messageSequence + 1
      ensures fault.Fine? ==> n !in registry && Created(n) in log
      ensures fault.Fine? ==> journal == old(journal).(messageSequence := n)
      ensures fault.Transient? ==> journal == old(journal) || journal == old(journal).(messageSequence := n)
      ensures old(trouble).Calm? ==> trouble.Calm?
      ensures old(IsCalm()) ==> fault.Fine?
    {
      hide Disk, Consistent, Succeeds, StateOk, Current;
      n := journal.messageSequence + 1;
      var next := journal.(messageSequence := n);
      var exhausted := journal.messageSequence == MAX_SEQUENCE;
      CreatedBelow(journal);
      AsideSucceeds(next);
      SameProcess(journal, next);
      WrittenStays(next, log, startResponse);
      fault := Update(if exhausted then Refused(journal) else Changed(next));
      if fault.Fine? {
        ConsistentStays(next, log, Created(n), startResponse);
        RecordCreated(n);
      }
    }

    /** Counters and heartbeats may change freely. */
    lemma AsideSucceeds(next: JournalState)
      requires Disk() && journal in images && journal.messageSequence <= next.messageSequence
      requires next.active == journal.active && next.pending == journal.pending
      ensures Succeeds(log, journal, next) && ValidJournal(journal)
      ensures ValidJournal(next) ==> StateOk(next)
    {
      hide Safe, Reachable, Bounded, Images;
      assert StateOk(journal);
    }

    lemma CreatedBelow(s: JournalState)
      requires Disk() && s in images
      ensures forall k: nat :: Created(k) in log ==> k <= s.messageSequence
      ensures forall k: nat :: k in registry ==> k <= s.messageSequence
      ensures forall m: RunnerMessage :: Sent(m) in log ==> m.sequence in registry
    {
      hide Safe, Images, Monotone, HasAccepted, Adopted, Recorded;
      assert Reachable(log, s);
    }

    lemma SameProcess(a: JournalState, b: JournalState)
      requires Consistent(a, log, startResponse) && b.active == a.active && b.pending == a.pending
      ensures Consistent(b, log, startResponse)
    {
    }

    /** Gives the pending event to the stream: it is what a crash would leave in the slot. */
    method SendRetained(message: RunnerMessage) returns (fault: Fault)
      requires Ready() && journal.pending == Some(message)
      modifies this`log
      ensures Ready() && !fault.Stuck?
      ensures log == old(log) || log == old(log) + [Sent(message)]
      ensures fault.Fine? ==> log == old(log) + [Sent(message)]
      ensures trouble.Calm? ==> fault.Fine?
    {
      hide Consistent, Reachable, Safe, Current, Bounded, Images;
      var refused := Strikes();
      if refused {
        return Fatal;
      }
      assert StateOk(journal);
      SentOnce(message);
      ConsistentStays(journal, log, Sent(message), startResponse);
      Record(Sent(message));
      fault := Send();
    }

    lemma SentOnce(message: RunnerMessage)
      requires Disk() && images == {journal} && journal.pending == Some(message)
      ensures Allowed(log, Sent(message))
    {
      hide Safe, Images;
      assert StateOk(journal);
    }

    /** The stream takes a message, or is lost. */
    method Send() returns (fault: Fault)
      ensures !fault.Stuck?
      ensures trouble.Calm? ==> fault.Fine?
    {
      fault := *;
      if fault.Stuck? {
        fault := Fatal;
      }
      if !trouble.Any? {
        fault := Fine;
      }
    }

    /** The event may be queued now without promising the gateway anything twice. */
    ghost predicate MayQueue(event: Event, change: Change)
      reads this
    {
      && (event.JobStarted? && startResponse.Some? ==> startResponse.value == event.call)
      && (event.Completed? ==> journal.active.Some? && UsedResult(log, journal.active.value.acceptance))
      && match change
         case Accept(job) =>
           && event.LeaseAccepted? && !draining && !workerRunning
           && JobOk(job) && job.cancellationId == "" && job.acceptance == nextAcceptance
         case SetPhase(phase) =>
           && journal.active.Some? && journal.active.value.cancellationId == "" && !phase.PhaseCancelling?
           && (EarlyEvent(event) && !recovering ==> WorkerStarted(journal.active.value.acceptance) !in log)
         case NoChange =>
           EarlyEvent(event) && journal.active.Some? && !recovering ==> WorkerStarted(journal.active.value.acceptance) !in log
    }

    lemma QueuedSucceeds(change: Change, message: RunnerMessage)
      requires Disk() && journal in images && journal.pending.None?
      requires Applicable(journal, change) && MayQueue(message.event, change) && !change.Accept?
      requires message.sequence == journal.messageSequence && message.sequence !in registry && Created(message.sequence) in log
      ensures Succeeds(log, journal, Queued(journal, change, message))
      ensures var next := Queued(journal, change, message);
        next.active.Some? ==> JobOk(next.active.value) && next.active.value.acceptance < nextAcceptance
    {
      hide Safe, Reachable, Images, UsedResult;
      assert StateOk(journal);
      CreatedBelow(journal);
    }

    lemma AcceptSucceeds(job: JournalJob, message: RunnerMessage)
      requires Disk() && journal in images && journal.pending.None? && journal.active.None?
      requires message.event.LeaseAccepted? && message.sequence == journal.messageSequence && message.sequence !in registry
      requires Created(message.sequence) in log
      requires JustAccepted(log, journal, job.acceptance) && Unrecorded(log, job.acceptance)
      ensures Succeeds(log, journal, Queued(journal, Accept(job), message))
    {
      hide Safe, Reachable, Images;
      CreatedBelow(journal);
    }

    lemma QueuedConsistent(change: Change, message: RunnerMessage)
      requires Memory() && journal.pending.None? && !change.Accept?
      requires Applicable(journal, change) && MayQueue(message.event, change)
      ensures Consistent(Queued(journal, change, message), log, startResponse)
    {
      hide CleanSinceRestart, OrderlySinceRestart, HasAccepted, Adopted, WasCancelled, Current;
    }

    /** A durable message is known by its id from now on. */
    ghost method Register(message: RunnerMessage)
      requires Disk() && message.sequence !in registry && Created(message.sequence) in log
      modifies this`registry
      ensures Disk() && registry == old(registry)[message.sequence := message]
    {
      hide Safe, Reachable, Images;
      registry := registry[message.sequence := message];
    }

    method NewAcceptance()
      requires Disk()
      modifies this`nextAcceptance
      ensures Disk() && nextAcceptance == old(nextAcceptance) + 1
    {
      hide Safe, Reachable, Images;
      nextAcceptance := nextAcceptance + 1;
    }

    /** Writes a journal whose outbox slot holds a new message. */
    method Enqueue(next: JournalState, message: RunnerMessage) returns (fault: Fault)
      requires Disk() && Current(log) == Some(journal) && journal in images && Succeeds(log, journal, next)
      requires next.pending == Some(message) && message.sequence !in registry && Created(message.sequence) in log
      requires next.active.Some? ==> JobOk(next.active.value) && next.active.value.acceptance < nextAcceptance
      modifies this`journal, this`images, this`log, this`registry, this`trouble
      ensures Disk() && Quiet(old(log), log) && !fault.Stuck?
      ensures !fault.Fatal? ==> Current(log) == Some(journal) && journal in images
      ensures fault.Fine? ==> journal == next && images == {next} && log == old(log) + [Synced(next)]
      ensures fault.Transient? ==>
        NotWritten(old(journal), old(images), old(log)) || InPlace(next, old(images), old(log))
      ensures old(trouble).Calm? ==> trouble.Calm? && (ValidJournal(next) ==> fault.Fine?)
    {
      hide Disk, Succeeds, Current;
      Register(message);
      fault := Update(Changed(next));
    }

    /** What a journal is after an attempt to queue an event: nothing of it, its id, or all of it. */
    predicate QueuedOrNot(before: JournalState, change: Change, event: Event, identity: Identity)
      reads this`journal
    {
      var n := before.messageSequence + 1;
      || journal == before || journal == before.(messageSequence := n)
      || (before.pending.None? && Applicable(before, change)
          && journal == Queued(before.(messageSequence := n), change, RunnerMessage(n, event, identity)))
    }

    /** Puts one event into the outbox slot, with its effect on the lease, and sends it. */
    method QueueDurable(event: Event, identity: Identity, change: Change) returns (fault: Fault)
      requires Ready() && Applicable(journal, change) && MayQueue(event, change) && !change.Accept?
      modifies this`journal, this`images, this`log, this`registry, this`trouble
      ensures After(fault) && !fault.Stuck? && Quiet(old(log), log)
      ensures fault.Transient? ==> QueuedOrNot(old(journal), change, event, identity)
      ensures fault.Fine? ==>
        var n := old(journal).messageSequence + 1;
        var m := RunnerMessage(n, event, identity);
        old(journal).pending.None? && journal == Queued(old(journal).(messageSequence := n), change, m) && Sent(m) in log
      ensures old(trouble).Calm? ==> trouble.Calm?
      ensures old(IsCalm()) && old(journal).pending.None? && old(QueueFits(journal, change, event, identity)) ==> fault.Fine?
    {
      hide Disk, Consistent, Succeeds, Current;
      var n;
      fault, n := NextMessage();
      if !fault.Fine? {
        return;
      }
      var message := RunnerMessage(n, event, identity);
      var proofRefused := Strikes();
      if journal.pending.Some? || proofRefused {
        return Fatal;
      }
      var next := Queued(journal, change, message);
      QueuedSucceeds(change, message);
      QueuedConsistent(change, message);
      WrittenStays(next, log, startResponse);
      fault := Enqueue(next, message);
      if fault.Fine? {
        fault := SendRetained(message);
      }
    }

    /** The journal is still valid with the event in its slot. */
    predicate QueueFits(j: JournalState, change: Change, event: Event, identity: Identity)
      requires Applicable(j, change)
    {
      var n := j.messageSequence + 1;
      n <= MAX_SEQUENCE ==> ValidJournal(Queued(j.(messageSequence := n), change, RunnerMessage(n, event, identity)))
    }

    /** Journals an acceptance: the lease and its `LeaseAccepted` event in one write, under a new number. */
    method AcceptLease(job: JournalJob) returns (fault: Fault)
      requires Ready() && journal.active.None? && journal.pending.None?
      requires MayQueue(LeaseAccepted, Accept(job))
      modifies this`journal, this`images, this`log, this`registry, this`nextAcceptance, this`trouble
      ensures After(fault) && !fault.Stuck? && old(log) <= log
      ensures fault.Transient? ==> QueuedOrNot(old(journal), Accept(job), LeaseAccepted, job.specification.identity)
      ensures fault.Fine? ==>
        var n := old(journal).messageSequence + 1;
        var m := RunnerMessage(n, LeaseAccepted, job.specification.identity);
        journal == Queued(old(journal).(messageSequence := n), Accept(job), m) && Sent(m) in log
      ensures !HasAccepted(old(log), job.acceptance)
      ensures nextAcceptance == old(nextAcceptance) || nextAcceptance == old(nextAcceptance) + 1
      ensures old(trouble).Calm? ==> trouble.Calm?
      ensures old(IsCalm()) && old(QueueFits(journal, Accept(job), LeaseAccepted, job.specification.identity)) ==> fault.Fine?
    {
      hide Disk, Consistent, Succeeds, Current, Allowed, HasAccepted, Adopted;
      var n;
      FreshAcceptance();
      fault, n := NextMessage();
      if !fault.Fine? {
        return;
      }
      var message := RunnerMessage(n, LeaseAccepted, job.specification.identity);
      fault := WriteAcceptance(job, message);
      if fault.Fine? {
        fault := SendRetained(message);
      }
    }

    /** The acceptance is noted, and then the lease and its event enter the journal in one write. */
    method WriteAcceptance(job: JournalJob, message: RunnerMessage) returns (fault: Fault)
      requires Ready() && journal.active.None? && journal.pending.None?
      requires MayQueue(LeaseAccepted, Accept(job))
      requires message.event.LeaseAccepted? && message.sequence == journal.messageSequence
      requires message.sequence !in registry && Created(message.sequence) in log
      modifies this`journal, this`images, this`log, this`registry, this`nextAcceptance, this`trouble
      ensures After(fault) && !fault.Stuck? && old(log) <= log && nextAcceptance == old(nextAcceptance) + 1
      ensures |log| > |old(log)| && log[|old(log)|] == Accepted(job.acceptance, old(journal), workerRunning, draining, alive)
      ensures fault.Fine? ==> journal == Queued(old(journal), Accept(job), message)
      ensures fault.Transient? ==> journal == old(journal) || journal == Queued(old(journal), Accept(job), message)
      ensures old(trouble).Calm? ==> trouble.Calm? && (ValidJournal(Queued(old(journal), Accept(job), message)) ==> fault.Fine?)
    {
      hide Disk, Consistent, Succeeds, Current, Allowed, HasAccepted, Adopted, Unrecorded;
      var next := Queued(journal, Accept(job), message);
      ghost var e := Accepted(job.acceptance, journal, workerRunning, draining, alive);
      FreshAcceptance();
      AcceptAllowed(log, e);
      ConsistentStays(journal, log, e, startResponse);
      AcceptedConsistent(next, log, e);
      UnrecordedStays(log, e, job.acceptance);
      NewAcceptance();
      Record(e);
      AcceptSucceeds(job, message);
      fault := Enqueue(next, message);
    }

    lemma AcceptAllowed(past: Log, e: Entry)
      requires e.Accepted? && Current(past) == Some(e.before) && Consistent(e.before, past, startResponse)
      requires e.before.active.None? && e.before.pending.None? && !e.workerRunning && !e.draining
      requires e.workerRunning == workerRunning && e.draining == draining && e.workers == alive && !HasAccepted(past, e.acceptance)
      ensures Allowed(past, e)
    {
      hide CleanSinceRestart, OrderlySinceRestart, Current;
    }

    /** The new lease suits the process, once its acceptance is noted and it is written. */
    lemma AcceptedConsistent(next: JournalState, past: Log, e: Entry)
      requires e.Accepted? && e.before.active.None? && Consistent(e.before, past, startResponse) && !workerRunning
      requires next.active.Some? && next.pending.Some? && next.pending.value.event.LeaseAccepted?
      requires next.active.value.cancellationId == "" && next.active.value.acceptance == e.acceptance
      requires !Adopted(past, e.acceptance) && WorkerStarted(e.acceptance) !in past && !WasCancelled(past, e.acceptance)
      ensures forall w :: w in {Synced(next), Written(next)} ==> Consistent(next, past + [e] + [w], startResponse)
    {
      hide CleanSinceRestart, OrderlySinceRestart, WasCancelled, Current, Images, Adopted;
      forall w | w in {Synced(next), Written(next)}
        ensures Consistent(next, past + [e] + [w], startResponse)
      {
        Grown(past, e);
        Grown(past + [e], w);
        AdoptedStep(past, e, e.acceptance);
        AdoptedStep(past + [e], w, e.acceptance);
        CancelledStep(past, e, e.acceptance);
        CancelledStep(past + [e], w, e.acceptance);
      }
    }

    lemma FreshAcceptance()
      requires Disk()
      ensures !Adopted(log, nextAcceptance) && WorkerStarted(nextAcceptance) !in log
      ensures !WasCancelled(log, nextAcceptance) && !HasAccepted(log, nextAcceptance) && Unrecorded(log, nextAcceptance)
    {
      hide Safe, Images, Reachable, StateOk;
    }

    /** Sends the pending event once more, as it is. */
    method ReplayPending() returns (fault: Fault)
      requires Ready()
      modifies this`log
      ensures Ready() && !fault.Stuck? && Quiet(old(log), log)
      ensures journal.pending.None? ==> fault.Fine? && log == old(log)
      ensures journal.pending.Some? ==> log == old(log) || log == old(log) + [Sent(journal.pending.value)]
      ensures journal.pending.Some? && fault.Fine? ==> log == old(log) + [Sent(journal.pending.value)]
      ensures trouble.Calm? ==> fault.Fine?
    {
      hide Disk, Consistent;
      if journal.pending.None? {
        return Fine;
      }
      fault := SendRetained(journal.pending.value);
    }

    /** Clears the outbox slot after the exact acknowledgement of its event. */
    method ClearPendingAcknowledged(message: RunnerMessage, phase: Phase) returns (fault: Fault)
      requires Ready() && journal.pending == Some(message) && WasAcknowledged(log, message)
      modifies this`journal, this`images, this`log, this`session, this`trouble
      ensures After(fault) && !fault.Stuck? && Quiet(old(log), log)
      ensures fault.Fine? ==> journal == old(journal).(pending := None) && session == old(session).Settle(message, phase)
      ensures !fault.Fine? ==> session == old(session)
      ensures fault.Transient? ==> journal == old(journal) || journal == old(journal).(pending := None)
      ensures old(trouble).Calm? ==> trouble.Calm? && fault.Fine?
    {
      hide Disk, Consistent, Succeeds, Current, WasAcknowledged;
      var next := journal.(pending := None);
      ClearedSucceeds(message, next);
      ClearedConsistent(journal, next);
      WrittenStays(next, log, startResponse);
      fault := Update(Changed(next));
      if fault.Fine? {
        session := session.Settle(message, phase);
      }
    }

    lemma ClearedSucceeds(message: RunnerMessage, next: JournalState)
      requires Disk() && journal in images && journal.pending == Some(message) && WasAcknowledged(log, message)
      requires next == journal.(pending := None)
      ensures Succeeds(log, journal, next) && StateOk(next)
    {
      hide Safe, Images, Reachable, Bounded;
      assert StateOk(journal);
    }

    lemma ClearedConsistent(j: JournalState, next: JournalState)
      requires Consistent(j, log, startResponse) && next == j.(pending := None)
      ensures Consistent(next, log, startResponse)
    {
    }

    /** Answers the waiting start callback with an error, if one waits. */
    method FailStartResponse()
      requires Valid()
      modifies this`startResponse
      ensures Valid() && startResponse.None?
    {
      hide Disk, CleanSinceRestart, OrderlySinceRestart, Current;
      startResponse := None;
    }

    /** Answers the waiting start callback with success, after the acknowledgement of its own event. */
    method CompleteStartResponse(message: RunnerMessage, r: Reconciliation)
      requires Ready() && journal.active.Some? && !recovering && journal.pending.None?
      requires message.event.JobStarted? && Acknowledged(message, message.sequence, r) in log
      requires !r.disposition.Stale? && r.status.StatusActive? && r.phase.PhaseRunning?
      requires startResponse.Some? ==> startResponse.value == message.event.call
      requires ActiveMatches(message.identity)
      modifies this`startResponse, this`log
      ensures Ready() && startResponse.None? && old(log) <= log
      ensures log == if old(startResponse).None? then old(log)
                     else old(log) + [StartGranted(old(startResponse).value, journal.active.value.acceptance)]
    {
      hide Disk, CleanSinceRestart, OrderlySinceRestart, HasAccepted, Adopted, WasCancelled, Current;
      if startResponse.Some? {
        ghost var a := journal.active.value.acceptance;
        var call := startResponse.value;
        ghost var e := StartGranted(call, a);
        assert JobStartedSettled(log, call, message.identity);
        Grown(log, e);
        AdoptedStep(log, e, a);
        CancelledStep(log, e, a);
        Record(e);
        startResponse := None;
      }
    }

    /** A grown lease suits the process, with a cancellation once the waiting start callback is answered or counted. */
    lemma GrownConsistent(j: JournalState, past: Log, next: JournalJob, w: Entry)
      requires Consistent(j, past, startResponse) && j.active.Some? && JobGrows(j.active.value, next)
      requires w == Synced(j.(active := Some(next))) || w == Written(j.(active := Some(next)))
      ensures var state := j.(active := Some(next));
        && Consistent(state, past + [w], None)
        && (next.cancellationId == j.active.value.cancellationId || next.cancellationId == "" || startResponse.None? ==> Consistent(state, past + [w], startResponse))
        && Consistent(state, past + [w] + [StartUnanswered(next.acceptance)], startResponse)
    {
      hide CleanSinceRestart, OrderlySinceRestart, HasAccepted, Adopted, WasCancelled, Current, Images;
      var e := StartUnanswered(next.acceptance);
      Grown(past, w);
      Grown(past + [w], e);
      AdoptedStep(past, w, next.acceptance);
      AdoptedStep(past + [w], e, next.acceptance);
      CancelledStep(past, w, next.acceptance);
      CancelledStep(past + [w], e, next.acceptance);
    }

    lemma GrownSucceeds(next: JournalJob)
      requires Disk() && journal in images && journal.active.Some?
      requires JobOk(next) && JobGrows(journal.active.value, next)
      ensures var state := journal.(active := Some(next)); Succeeds(log, journal, state) && (ValidJournal(state) ==> StateOk(state))
      ensures next.acceptance < nextAcceptance
    {
      hide Safe, Images, Reachable, Bounded;
      assert StateOk(journal);
    }

    /**
     * Replaces the active job by a later version of it.  With a new cancellation the waiting start callback is
     * answered with an error once the write has succeeded, and only then.
     */
    method UpdateJob(next: JournalJob, answers: bool) returns (fault: Fault)
      requires Ready() && journal.active.Some?
      requires JobOk(next) && JobGrows(journal.active.value, next)
      requires answers || next.cancellationId == journal.active.value.cancellationId
      modifies this`journal, this`images, this`log, this`startResponse, this`trouble
      ensures Unacknowledging(old(log), log)
      ensures After(fault) && !fault.Stuck? && old(log) <= log
      ensures fault.Fine? ==> journal == old(journal).(active := Some(next))
      ensures fault.Fine? ==> startResponse == (if answers then None else old(startResponse))
      ensures fault.Fine? ==> log == old(log) + [Synced(journal)]
      ensures fault.Transient? ==> startResponse == old(startResponse)
      ensures fault.Transient? ==> (journal == old(journal) && log == old(log)) || journal == old(journal).(active := Some(next))
      ensures forall a :: WorkerStarted(a) in log ==> WorkerStarted(a) in old(log)
      ensures StartUnanswered(next.acceptance) in log && StartUnanswered(next.acceptance) !in old(log) ==>
        fault.Transient? && journal == old(journal).(active := Some(next)) && next.cancellationId != "" && startResponse.Some?
      ensures old(trouble).Calm? ==> trouble.Calm? && (ValidJournal(old(journal).(active := Some(next))) ==> fault.Fine?)
      ensures old(trouble).SyncFails? && ValidJournal(old(journal).(active := Some(next))) ==>
        && fault.Transient? && trouble.Calm? && journal == old(journal).(active := Some(next))
        && |log| > |old(log)| && log[|old(log)|] == Written(journal)
    {
      hide Disk, Consistent, Succeeds, Current, JobGrows;
      var state := journal.(active := Some(next));
      GrownSucceeds(next);
      GrownConsistent(journal, log, next, Synced(state));
      GrownConsistent(journal, log, next, Written(state));
      fault := Update(Changed(state));
      if fault.Fine? && answers {
        startResponse := None;
      }
      if fault.Transient? && log != old(log) && answers && next.cancellationId != "" && startResponse.Some? {
        Record(StartUnanswered(next.acceptance));
      }
    }

    /**
     * Takes over what the gateway says about the active lease.  A conflicting cancellation id is
     * refused after the other fields were written in memory, and ends the run.
     */
    method ApplyAuthoritativeReconciliation(r: Reconciliation) returns (fault: Fault)
      requires Ready() && ValidReconciliation(r) && !Terminal(r.status)
      modifies this`journal, this`images, this`log, this`startResponse, this`trouble
      ensures Unacknowledging(old(log), log)
      ensures After(fault) && !fault.Stuck? && old(log) <= log
      ensures !fault.Fatal? ==> old(ActiveMatches(r.identity)) && !CancellationConflicts(old(journal).active.value, r)
      ensures fault.Fine? ==> journal == old(journal).(active := Some(Reconciled(old(journal).active.value, r)))
      ensures fault.Fine? ==> TakesOver(old(journal).active.value, r, journal.active.value)
      ensures fault.Fine? ==> startResponse == (if r.cancellationId != "" then None else old(startResponse))
      ensures fault.Transient? ==> startResponse == old(startResponse)
      ensures fault.Transient? ==>
        journal == old(journal) || journal == old(journal).(active := Some(Reconciled(old(journal).active.value, r)))
      ensures forall a :: WorkerStarted(a) in log ==> WorkerStarted(a) in old(log)
      ensures old(trouble).Calm? ==> trouble.Calm?
      ensures old(trouble).Calm? && old(ActiveMatches(r.identity)) && !CancellationConflicts(old(journal).active.value, r) ==> fault.Fine?
    {
      hide Disk, Consistent, Succeeds, Current, JobGrows, TakesOver;
      if !ActiveMatches(r.identity) {
        fault := Update(Refused(journal));
        return;
      }
      var job := journal.active.value;
      if CancellationConflicts(job, r) {
        fault := Update(Refused(journal.(active := Some(Refreshed(job, r)))));
        return;
      }
      ActiveIsOk();
      ReconciledGrows(job, r);
      ReconciledTakesOver(job, r);
      assert ValidJournal(journal.(active := Some(Reconciled(job, r))));
      fault := UpdateJob(Reconciled(job, r), r.cancellationId != "");
    }

    predicate ActiveMatches(identity: Identity)
      reads this`journal
    {
      journal.active.Some? && journal.active.value.specification.identity == identity
    }

    lemma ActiveIsOk()
      requires Disk() && journal in images && journal.active.Some?
      ensures JobOk(journal.active.value) && ValidJournal(journal) && journal.active.value.acceptance < nextAcceptance
    {
      hide Safe, Images, Reachable, Bounded;
      assert StateOk(journal);
    }

    /** The write that ends a lease: the lease and the outbox slot are cleared together. */
    method CommitTermination(r: Reconciliation) returns (fault: Fault)
      requires Ready() && journal.active.Some? && journal.active.value.specification.identity == r.identity
      requires Terminal(r.status) && ValidReconciliation(r) && startResponse.None?
      modifies this`journal, this`images, this`log, this`trouble
      ensures Unacknowledging(old(log), log)
      ensures Disk() && old(log) <= log && !fault.Stuck?
      ensures !fault.Fatal? ==> Current(log) == Some(journal) && journal in images
      ensures fault.Fine? || journal != old(journal) ==> !fault.Fatal? ==> Ended(log)
      ensures fault.Fine? ==> journal == old(journal).(active := None, pending := None) && images == {journal}
      ensures fault.Transient? ==>
        (journal == old(journal) && Memory()) || journal == old(journal).(active := None, pending := None)
      ensures fault.Transient? && journal.active.None? ==>
        && log != [] && log[|log| - 1] == Written(journal) && WasTerminated(log, old(journal).active.value.acceptance)
        && Holds(log[..|log| - 1], old(journal).active.value.acceptance)
      ensures !fault.Fatal? ==> (OrderlySinceRestart(log) <==> OrderlySinceRestart(old(log)))
      ensures old(trouble).Calm? ==> trouble.Calm? && fault.Fine?
      ensures old(trouble).SyncFails? ==> fault.Transient? && trouble.Calm? && journal == old(journal).(active := None, pending := None)
    {
      hide Disk, Consistent, Succeeds, Current, Ended, OrderlySinceRestart;
      var state := journal.(active := None, pending := None);
      ghost var job := journal.active.value;
      ghost var e := Terminated(job.acceptance, r);
      TerminatedEnds(journal, log, e, Synced(state));
      TerminatedEnds(journal, log, e, Written(state));
      ConsistentStays(journal, log, e, startResponse);
      Record(e);
      TerminatedSucceeds(state, r);
      assert e in log;
      ghost var noted := log;
      fault := Update(Changed(state));
      assert fault.Transient? && log != noted ==> log[..|log| - 1] == noted;
      assert old(log) + [e] <= log && log[|old(log)|] == e;
    }

    lemma TerminatedSucceeds(next: JournalState, r: Reconciliation)
      requires Disk() && journal in images && journal.active.Some? && next == journal.(active := None, pending := None)
      requires r.identity == journal.active.value.specification.identity && Terminal(r.status) && ValidReconciliation(r)
      requires Terminated(journal.active.value.acceptance, r) in log
      ensures Succeeds(log, journal, next) && StateOk(next)
    {
      hide Safe, Images, Reachable, Bounded;
      assert EndedByGateway(log, journal.active.value);
      assert StateOk(journal);
    }

    /** What is left of the process when its lease is gone: only a worker that may still be stopping. */
    ghost predicate Ended(past: Log)
      reads this`workerRunning, this`alive, this`queue, this`draining
    {
      && (CleanSinceRestart(past) || draining)
      && (OrderlySinceRestart(past) ==>
            && (!workerRunning ==> queue == [] && alive == 0) && alive <= 1
            && (forall i :: 0 <= i < |queue| && queue[i].Result? ==> i == |queue| - 1 && alive == 0))
    }

    lemma TerminatedEnds(j: JournalState, past: Log, e: Entry, w: Entry)
      requires Consistent(j, past, startResponse) && e.Terminated? && (w.Synced? || w.Written?)
      ensures Ended(past + [e] + [w])
      ensures OrderlySinceRestart(past + [e] + [w]) <==> OrderlySinceRestart(past)
      ensures OrderlySinceRestart(past + [e]) <==> OrderlySinceRestart(past)
    {
      Grown(past, e);
      Grown(past + [e], w);
    }

    /**
     * Ends the active lease: only for a terminal reconciliation of exactly its identity.  What the process keeps
     * of the lease is dropped once the write has succeeded; if it is in place but failed, that is left behind.
     */
    method TerminateLease(r: Reconciliation) returns (fault: Fault)
      requires Ready() && Terminal(r.status) && ValidReconciliation(r)
      requires journal.active.Some? && journal.active.value.specification.identity == r.identity
      modifies this`journal, this`images, this`log, this`startResponse, this`recovering,
               this`session, this`deferred, this`trouble
      ensures Unacknowledging(old(log), log)
      ensures After(fault) && old(log) <= log && !fault.Stuck?
      ensures fault.Fine? ==> !recovering && deferred == []
      ensures fault.Fine? ==> journal == old(journal).(active := None, pending := None)
      ensures fault.Transient? ==> recovering == old(recovering) && deferred == old(deferred)
      ensures fault.Transient? ==> journal == old(journal) || journal == old(journal).(active := None, pending := None)
      ensures fault.Transient? && OrderlySinceRestart(old(log)) ==>
        (OrderlySinceRestart(log) <==> journal == old(journal) || (!recovering && deferred == []))
      ensures fault.Fine? ==> (OrderlySinceRestart(log) <==> OrderlySinceRestart(old(log)))
      ensures session.heartbeat == old(session).heartbeat
      ensures old(trouble).Calm? ==> trouble.Calm? && fault.Fine?
      ensures old(trouble).SyncFails? ==>
        fault.Transient? && trouble.Calm? && journal == old(journal).(active := None, pending := None)
    {
      hide Disk, Consistent, Current, OrderlySinceRestart, Ended, WasTerminated;
      var pending := journal.pending;
      var phase := journal.active.value.phase;
      ghost var a := journal.active.value.acceptance;
      FailStartResponse();
      fault := CommitTermination(r);
      if fault.Fine? {
        ForgetLease(pending, phase);
      } else if fault.Transient? && journal.active.None? {
        NoteLeftBehind(a);
      }
    }

    /** What the process kept of the lease goes with it. */
    method ForgetLease(pending: Option<RunnerMessage>, phase: Phase)
      requires Ended(log) && journal.active.None? && startResponse.None?
      modifies this`recovering, this`session, this`deferred
      ensures Consistent(journal, log, startResponse) && !recovering && deferred == []
      ensures session.heartbeat == old(session).heartbeat
    {
      hide OrderlySinceRestart, CleanSinceRestart;
      recovering := false;
      if pending.Some? {
        session := session.Settle(pending.value, phase);
      }
      deferred := [];
    }

    /** The lease is gone from memory, but the write failed: something of it may be left. */
    ghost method NoteLeftBehind(a: nat)
      requires Disk() && Ended(log) && journal.active.None? && startResponse.None?
      requires log != [] && log[|log| - 1] == Written(journal) && WasTerminated(log, a) && Holds(log[..|log| - 1], a)
      modifies this`log
      ensures Unacknowledging(old(log), log)
      ensures Disk() && old(log) <= log && Current(log) == old(Current(log)) && Consistent(journal, log, startResponse)
      ensures OrderlySinceRestart(old(log)) ==> (OrderlySinceRestart(log) <==> !recovering && deferred == [])
    {
      hide Disk, Current, OrderlySinceRestart, CleanSinceRestart, WasTerminated;
      if recovering || deferred != [] {
        Grown(log, LeftBehind(a));
        Record(LeftBehind(a));
      }
    }

    /** Starts the worker for the active job: at most once per acceptance, never after a restart. */
    method StartWorker() returns (fault: Fault)
      requires Ready() && journal.active.Some? && !recovering && journal.pending.None?
      requires journal.active.value.cancellationId == ""
      requires WorkerStarted(journal.active.value.acceptance) !in log
      requires PreparingSettled(log, journal.active.value.specification.identity)
      modifies this`workerRunning, this`alive, this`log
      ensures After(fault) && (fault.Fine? || fault.Fatal?) && old(log) <= log
      ensures fault.Fine? ==> workerRunning && alive == old(alive) + 1 && WorkerStarted(journal.active.value.acceptance) in log
      ensures fault.Fine? ==> !old(workerRunning) && hasWorker
      ensures trouble.Calm? && !old(workerRunning) && hasWorker ==> fault.Fine?
    {
      hide Disk, CleanSinceRestart, OrderlySinceRestart, Current, HasAccepted, Adopted, WasCancelled, PreparingSettled;
      if workerRunning || !hasWorker {
        return Fatal;
      }
      var unsupported := Strikes();
      if unsupported {
        return Fatal;
      }
      ghost var a := journal.active.value.acceptance;
      ghost var e := WorkerStarted(a);
      ActiveIsOk();
      Grown(log, e);
      AdoptedStep(log, e, a);
      CancelledStep(log, e, a);
      StartAllowed(a);
      Record(e);
      workerRunning, alive := true, alive + 1;
      fault := Fine;
    }

    lemma StartAllowed(a: nat)
      requires Holds(log, a) && WorkerStarted(a) !in log && !Adopted(log, a) && !WasCancelled(log, a)
      requires PreparingSettled(log, Current(log).value.active.value.specification.identity)
      ensures Allowed(log, WorkerStarted(a))
    {
      hide WasCancelled, Adopted, Current, PreparingSettled;
    }

    /** An event about the active lease that changes nothing else. */
    method QueueEvent(event: Event) returns (fault: Fault)
      requires Ready() && journal.active.Some? && !EarlyEvent(event) && !event.JobStarted?
      requires event.Completed? ==> UsedResult(log, journal.active.value.acceptance)
      modifies this`journal, this`images, this`log, this`registry, this`trouble
      ensures After(fault) && !fault.Stuck? && Quiet(old(log), log)
      ensures !fault.Fatal? ==> SlotKeptOrNew(old(journal), journal) && journal.active == old(journal).active
      ensures fault.Fine? ==> old(journal).pending.None?
      ensures fault.Fine? || (fault.Transient? && journal.pending != old(journal).pending) ==>
        journal.pending == Some(RunnerMessage(old(journal).messageSequence + 1, event, journal.active.value.specification.identity))
      ensures fault.Fine? ==> Sent(journal.pending.value) in log
      ensures old(trouble).Calm? ==> trouble.Calm?
      ensures old(IsCalm()) && old(journal).pending.None? ==> fault.Fine?
    {
      hide Disk, Consistent;
      ActiveIsOk();
      fault := QueueDurable(event, journal.active.value.specification.identity, NoChange);
    }

    /**
     * The terminal event of a recovered job.  Uploading its evidence may still be waiting for a
     * target, or may fail.
     */
    method QueueRestartFailure() returns (fault: Fault)
      requires Ready() && journal.active.Some?
      modifies this`journal, this`images, this`log, this`registry, this`trouble
      ensures After(fault) && !fault.Stuck? && Quiet(old(log), log)
      ensures !fault.Fatal? ==> SlotKeptOrNew(old(journal), journal) && journal.active == old(journal).active
      ensures !fault.Fatal? ==> journal.pending == old(journal).pending || (journal.pending.Some? && journal.pending.value.event.Failed?)
      ensures old(trouble).Calm? ==> trouble.Calm?
    {
      hide Disk, Consistent;
      var waiting: bool, broken: bool := *, *;
      if waiting {
        return Fine;
      }
      if broken {
        return Fatal;
      }
      fault := QueueEvent(Failed);
    }

    /** The terminal event of a finished execution: completed or failed, or an error that ends the run. */
    method QueueResult() returns (fault: Fault)
      requires Ready() && journal.active.Some? && UsedResult(log, journal.active.value.acceptance)
      modifies this`journal, this`images, this`log, this`registry, this`trouble
      ensures After(fault) && !fault.Stuck? && Quiet(old(log), log)
      ensures !fault.Fatal? ==> SlotKeptOrNew(old(journal), journal) && journal.active == old(journal).active
      ensures fault.Fine? || (fault.Transient? && journal.pending != old(journal).pending) ==>
        journal.pending.Some? && TerminalEvent(journal.pending.value.event)
      ensures fault.Fine? ==> old(journal).pending.None?
      ensures old(trouble).Calm? ==> trouble.Calm?
      ensures old(IsCalm()) && old(journal).pending.None? ==> fault.Fine?
    {
      hide Disk, Consistent;
      var broken := Strikes();
      var passed: bool := *;
      if broken {
        return Fatal;
      }
      fault := QueueEvent(if passed then Completed else Failed);
    }

    method Drain()
      requires Valid()
      modifies this`draining
      ensures Valid() && draining
    {
      hide Disk, Current;
      draining := true;
    }

    /** A result whose lease awaits its cancellation command cannot be turned into an event yet. */
    predicate AwaitsCommand()
      reads this`journal
    {
      journal.active.Some? && journal.active.value.cancellationId != "" && journal.active.value.cancellationDigest.None?
    }

    /** Unless something was left behind, a worker's event is one of the active lease. */
    ghost predicate FromOwnWorker(event: WorkerEvent)
      reads this`journal, this`log, this`recovering, this`queue, this`alive
    {
      OrderlySinceRestart(log) ==>
        && (journal.active.Some? ==> !recovering && WorkerStarted(journal.active.value.acceptance) in log)
        && (event.Result? ==> queue == [] && alive == 0)
    }

    /** The lease runs, and its `JobStarted` event is pending. */
    function Started(j: JournalState, call: nat): JournalState
      requires j.active.Some?
    {
      var n, job := j.messageSequence + 1, j.active.value;
      j.(messageSequence := n, active := Some(job.(phase := PhaseRunning)),
         pending := Some(RunnerMessage(n, JobStarted(call), job.specification.identity)))
    }

    /** The worker asks to start: `JobStarted` is queued, and the answer waits for its acknowledgement. */
    method HandleStartCall(call: nat) returns (fault: Fault)
      requires Ready() && FromOwnWorker(StartCall(call))
      modifies this`journal, this`images, this`log, this`registry, this`startResponse, this`deferred, this`trouble
      ensures After(fault) && !fault.Stuck? && Quiet(old(log), log)
      ensures !fault.Fatal? ==> SlotKeptOrNew(old(journal), journal) && SameLease(old(journal).active, journal.active)
      ensures old(journal).pending.Some? || old(journal).active.None? ==> fault.Fine? && journal == old(journal)
      ensures fault.Fine? && journal.pending.None? ==> journal == old(journal)
      ensures old(journal).pending.None? ==> deferred == old(deferred)
      ensures old(AwaitsCommand()) ==> fault.Fine?
      ensures old(journal).active.Some? && old(journal).active.value.cancellationId != "" ==> startResponse == old(startResponse)
      ensures old(journal).active.Some? && old(journal).pending.None? && old(journal).active.value.cancellationId != "" ==>
        fault.Fine? && journal == old(journal)
      ensures old(journal).active.Some? && old(journal).pending.None? && old(journal).active.value.cancellationId == "" && fault.Fine? ==>
        startResponse == Some(call) && journal == Started(old(journal), call)
      ensures old(trouble).Calm? ==> trouble.Calm?
      ensures old(IsCalm()) ==> fault.Fine?
    {
      hide Disk, CleanSinceRestart, OrderlySinceRestart, HasAccepted, Adopted, WasCancelled, Current;
      if journal.active.None? {
        return Fine;
      }
      if journal.pending.Some? {
        deferred := deferred + [StartCall(call)];
        return Fine;
      }
      if journal.active.value.cancellationId != "" {
        return Fine;
      }
      ActiveIsOk();
      startResponse := Some(call);
      fault := QueueDurable(JobStarted(call), journal.active.value.specification.identity, SetPhase(PhaseRunning));
    }

    /** The worker is done.  After a failed cleanup this process takes no more offers. */
    method HandleResult(cleanupFailed: bool, now: int) returns (fault: Fault)
      requires Ready() && FromOwnWorker(Result(cleanupFailed))
      modifies this`journal, this`images, this`log, this`registry, this`deferred, this`workerRunning, this`draining, this`trouble
      ensures After(fault) && !fault.Stuck? && old(log) <= log
      ensures !fault.Fatal? ==> SlotKeptOrNew(old(journal), journal) && SameLease(old(journal).active, journal.active)
      ensures draining == (old(draining) || cleanupFailed)
      ensures !workerRunning
      ensures old(AwaitsCommand()) || old(journal).pending.Some? || old(journal).active.None? ==> fault.Fine? && journal == old(journal)
      ensures (old(AwaitsCommand()) || old(journal).pending.Some?) && old(journal).active.Some? ==>
        deferred == old(deferred) + [Result(cleanupFailed)]
      ensures old(journal).active.None? ==> deferred == old(deferred)
      ensures fault.Fine? && !old(AwaitsCommand()) && old(journal).pending.None? ==> deferred == old(deferred)
      ensures fault.Fine? && old(journal).pending.None? && old(journal).active.Some? && !old(AwaitsCommand()) ==>
        journal.pending.Some? && TerminalEvent(journal.pending.value.event)
      ensures old(trouble).Calm? ==> trouble.Calm?
      ensures old(IsCalm()) ==> fault.Fine?
    {
      hide Disk, Consistent, OrderlySinceRestart, CleanSinceRestart, Current;
      if cleanupFailed {
        Drain();
        RecordCleanupFailure();
      }
      MarkWorkerStopped();
      if journal.active.None? {
        return Fine;
      }
      if journal.pending.Some? || AwaitsCommand() {
        Defer(Result(cleanupFailed));
        return Fine;
      }
      fault := ReportResult(now);
      if !fault.Fine? && !fault.Fatal? && journal.pending.None? {
        Defer(Result(cleanupFailed));
      }
    }

    /** The result of the active lease's worker becomes the event that ends the lease. */
    method ReportResult(now: int) returns (fault: Fault)
      requires Ready() && journal.active.Some? && FromOwnWorker(Result(false)) && journal.pending.None?
      modifies this`journal, this`images, this`log, this`registry, this`trouble
      ensures After(fault) && !fault.Stuck? && old(log) <= log
      ensures |log| > |old(log)| && log[|old(log)|] == ResultUsed(old(journal).active.value.acceptance, alive)
      ensures !fault.Fatal? ==> SlotKeptOrNew(old(journal), journal) && journal.active == old(journal).active
      ensures fault.Fine? ==> journal.pending.Some? && TerminalEvent(journal.pending.value.event)
      ensures OrderlySinceRestart(log) <==> OrderlySinceRestart(old(log))
      ensures forall a: nat :: WorkerStarted(a) in log <==> WorkerStarted(a) in old(log)
      ensures old(trouble).Calm? ==> trouble.Calm?
      ensures old(IsCalm()) ==> fault.Fine?
    {
      hide Disk, Consistent, OrderlySinceRestart, CleanSinceRestart, Current, UsedResult;
      UseResult();
      ghost var before := log;
      if journal.active.value.cancellationId != "" {
        fault := QueueEvent(Cancelled(journal.active.value.cancellationId));
      } else if journal.active.value.expiresAt <= now {
        fault := QueueEvent(Failed);
      } else {
        fault := QueueResult();
      }
      QuietKeeps(before, log);
    }

    /** A worker's result is about to end the active lease. */
    ghost method UseResult()
      requires Ready() && journal.active.Some? && FromOwnWorker(Result(false))
      modifies this`log
      ensures Ready() && log == old(log) + [ResultUsed(journal.active.value.acceptance, alive)]
      ensures UsedResult(log, journal.active.value.acceptance)
      ensures OrderlySinceRestart(log) <==> OrderlySinceRestart(old(log))
      ensures forall a: nat :: WorkerStarted(a) in log <==> WorkerStarted(a) in old(log)
    {
      hide Disk, CleanSinceRestart, OrderlySinceRestart, HasAccepted, Adopted, WasCancelled, Current;
      var e := ResultUsed(journal.active.value.acceptance, alive);
      ConsistentStays(journal, log, e, startResponse);
      Grown(log, e);
      UsedStep(log, e, e.acceptance);
      Record(e);
    }

    method MarkWorkerStopped()
      requires Valid() && (OrderlySinceRestart(log) ==> queue == [] && alive == 0)
      modifies this`workerRunning
      ensures Valid() && !workerRunning
    {
      hide Disk, CleanSinceRestart, OrderlySinceRestart, HasAccepted, Adopted, WasCancelled, Current;
      workerRunning := false;
    }

    /** Keeps a worker's event for later. */
    method Defer(event: WorkerEvent)
      requires Valid() && journal.active.Some?
      requires OrderlySinceRestart(log) ==>
        !recovering && WorkerStarted(journal.active.value.acceptance) in log && (event.Result? ==> !workerRunning)
      modifies this`deferred
      ensures Valid() && deferred == old(deferred) + [event]
    {
      hide Disk, CleanSinceRestart, OrderlySinceRestart, HasAccepted, Adopted, WasCancelled, Current;
      deferred := deferred + [event];
    }

    ghost method RecordCleanupFailure()
      requires Valid() && draining
      modifies this`log
      ensures Valid() && log == old(log) + [CleanupFailed]
      ensures OrderlySinceRestart(log) <==> OrderlySinceRestart(old(log))
    {
      hide Disk, Consistent, OrderlySinceRestart, Current;
      CleanupStays(journal, log);
      Record(CleanupFailed);
    }

    lemma CleanupStays(j: JournalState, past: Log)
      requires Consistent(j, past, startResponse) && draining
      ensures Consistent(j, past + [CleanupFailed], startResponse)
      ensures OrderlySinceRestart(past + [CleanupFailed]) <==> OrderlySinceRestart(past)
    {
      hide CleanSinceRestart, OrderlySinceRestart, Adopted, WasCancelled, Current, Images;
      Grown(past, CleanupFailed);
      if j.active.Some? {
        AdoptedStep(past, CleanupFailed, j.active.value.acceptance);
        CancelledStep(past, CleanupFailed, j.active.value.acceptance);
      }
    }

    method HandleWorkerEvent(event: WorkerEvent, now: int) returns (fault: Fault)
      requires Ready() && FromOwnWorker(event)
      modifies this`journal, this`images, this`log, this`registry, this`startResponse, this`deferred, this`workerRunning,
               this`draining, this`trouble
      ensures After(fault) && !fault.Stuck? && old(log) <= log
      ensures !fault.Fatal? ==> SlotKeptOrNew(old(journal), journal) && SameLease(old(journal).active, journal.active)
      ensures old(journal).pending.Some? || old(journal).active.None? ==> fault.Fine? && journal == old(journal)
      ensures fault.Fine? && journal.pending.None? ==> journal == old(journal)
      ensures fault.Fine? && old(journal).pending.None? && !old(AwaitsCommand()) ==> deferred == old(deferred)
      ensures event.Result? ==> !workerRunning
      ensures old(AwaitsCommand()) ==> fault.Fine? && journal == old(journal)
      ensures old(AwaitsCommand()) && old(journal).pending.None? && event.StartCall? ==> deferred == old(deferred)
      ensures (old(AwaitsCommand()) || (old(journal).pending.Some? && old(journal).active.Some?)) && event.Result? ==>
        deferred == old(deferred) + [event]
      ensures event.Result? ==> startResponse == old(startResponse)
      ensures event.Result? && fault.Fine? && old(journal).pending.None? && old(journal).active.Some? && !old(AwaitsCommand()) ==>
        journal.pending.Some? && TerminalEvent(journal.pending.value.event)
      ensures old(journal).active.Some? && old(journal).active.value.cancellationId != "" ==> startResponse == old(startResponse)
      ensures event.StartCall? && old(journal).active.Some? && old(journal).pending.None?
              && old(journal).active.value.cancellationId == "" && fault.Fine? ==>
        startResponse == Some(event.call) && journal == Started(old(journal), event.call)
      ensures event.StartCall? ==> workerRunning == old(workerRunning)
      ensures draining == (old(draining) || (event.Result? && event.cleanupFailed))
      ensures old(trouble).Calm? ==> trouble.Calm?
      ensures old(IsCalm()) ==> fault.Fine?
    {
      hide Disk, Consistent, OrderlySinceRestart;
      match event
      case StartCall(call) => fault := HandleStartCall(call);
      case Result(cleanupFailed) => fault := HandleResult(cleanupFailed, now);
    }

    /** The state in which draining the deferred events never ends: it puts the same result back each time. */
    ghost predicate SpinsForever()
      reads this`journal, this`deferred
    {
      journal.pending.None? && AwaitsCommand() && HoldsResult()
    }

    ghost predicate HoldsResult()
      reads this`deferred
    {
      exists i :: 0 <= i < |deferred| && deferred[i].Result?
    }

    /** Whatever is deferred came from the worker of the active lease, unless something was left behind. */
    method PopDeferred() returns (event: WorkerEvent)
      requires Ready() && |deferred| > 0
      modifies this`deferred
      ensures Ready() && deferred == old(deferred)[1..] && event == old(deferred)[0]
      ensures FromOwnWorker(event)
    {
      hide Disk, CleanSinceRestart, OrderlySinceRestart, HasAccepted, Adopted, WasCancelled, Current;
      event := deferred[0];
      deferred := deferred[1..];
    }

    /** One round of draining: the oldest deferred event is taken out and handled.  A spinning state stays one. */
    method DrainRound(now: int) returns (fault: Fault)
      requires Ready() && journal.pending.None? && |deferred| > 0
      modifies this`journal, this`images, this`log, this`registry, this`startResponse, this`deferred, this`workerRunning,
               this`draining, this`trouble
      ensures After(fault) && old(log) <= log && !fault.Stuck?
      ensures !fault.Fatal? ==> SlotKeptOrNew(old(journal), journal) && SameLease(old(journal).active, journal.active)
      ensures fault.Fine? && journal.pending.None? ==> journal == old(journal)
      ensures fault.Fine? && (!old(AwaitsCommand()) || old(deferred)[0].StartCall?) ==> deferred == old(deferred)[1..]
      ensures fault.Fine? && old(deferred)[0].Result? && old(journal).active.Some? && !old(AwaitsCommand()) ==>
        && journal.pending.Some? && TerminalEvent(journal.pending.value.event) && !workerRunning
      ensures old(SpinsForever()) ==> fault.Fine? && SpinsForever() && journal == old(journal)
      ensures old(journal).active.Some? && old(journal).active.value.cancellationId != "" ==> startResponse == old(startResponse)
      ensures old(trouble).Calm? ==> trouble.Calm?
      ensures old(IsCalm()) ==> fault.Fine?
    {
      hide Disk, Consistent, OrderlySinceRestart;
      var event := PopDeferred();
      fault := HandleWorkerEvent(event, now);
      ghost var rest := old(deferred)[1..];
      if old(SpinsForever()) {
        if event.Result? {
          assert deferred == rest + [event] && deferred[|rest|].Result?;
        } else {
          ghost var i :| 0 <= i < |old(deferred)| && old(deferred)[i].Result?;
          assert deferred[i - 1].Result?;
        }
      }
    }

    /** However many rounds are made from a spinning state, nothing is sent or written and another one is due. */
    method DrainRounds(rounds: nat, now: int)
      requires Ready() && SpinsForever()
      modifies this`journal, this`images, this`log, this`registry, this`startResponse, this`deferred, this`workerRunning,
               this`draining, this`trouble
      ensures Ready() && SpinsForever() && |deferred| > 0 && journal == old(journal)
    {
      hide Disk, Consistent;
      for i := 0 to rounds
        invariant Ready() && SpinsForever() && journal == old(journal)
      {
        var fault := DrainRound(now);
      }
    }

    /** The oldest deferred event is a result that can be reported for the active lease. */
    predicate ReportsFirst()
      reads this`journal, this`deferred
    {
      journal.pending.None? && journal.active.Some? && !AwaitsCommand() && |deferred| > 0 && deferred[0].Result?
    }

    /** The lease's end is about to be reported. */
    predicate Reported()
      reads this`journal, this`workerRunning
    {
      journal.pending.Some? && TerminalEvent(journal.pending.value.event) && !workerRunning
    }

    /** Handles deferred events until one of them fills the outbox slot; from a spinning state it does not return. */
    method DrainDeferred(now: int) returns (fault: Fault)
      requires Ready()
      modifies this`journal, this`images, this`log, this`registry, this`startResponse, this`deferred, this`workerRunning,
               this`draining, this`trouble
      ensures After(fault) && old(log) <= log
      ensures fault.Stuck? <==> old(SpinsForever())
      ensures fault.Fine? || fault.Transient? ==> SlotKeptOrNew(old(journal), journal) && SameLease(old(journal).active, journal.active)
      ensures old(journal).pending.Some? || old(deferred) == [] ==>
        fault.Fine? && journal == old(journal) && startResponse == old(startResponse)
      ensures fault.Fine? ==> journal.pending.Some? || deferred == []
      ensures old(journal).active.Some? && old(journal).active.value.cancellationId != "" ==> startResponse == old(startResponse)
      ensures old(trouble).Calm? ==> trouble.Calm?
      ensures old(IsCalm()) && old(ReportsFirst()) ==> fault.Fine? && Reported()
    {
      hide Disk, Consistent;
      while journal.pending.None? && |deferred| > 0
        invariant Ready()
        invariant journal.pending.None? ==> journal == old(journal) && (SpinsForever() <==> old(SpinsForever()))
        invariant journal.pending.Some? ==> !old(SpinsForever())
        invariant SameLease(old(journal).active, journal.active)
        invariant old(journal).pending.Some? || old(deferred) == [] ==>
          journal == old(journal) && deferred == old(deferred) && startResponse == old(startResponse)
        invariant old(log) <= log && SlotKeptOrNew(old(journal), journal)
        invariant old(trouble).Calm? ==> trouble.Calm?
        invariant old(journal).active.Some? && old(journal).active.value.cancellationId != "" ==> startResponse == old(startResponse)
        invariant old(IsCalm()) && old(ReportsFirst()) ==> (journal == old(journal) && deferred == old(deferred)) || Reported()
        decreases |deferred|
      {
        if deferred[0].Result? && AwaitsCommand() {
          return Stuck;
        }
        fault := DrainRound(now);
        if !fault.Fine? {
          return;
        }
      }
      fault := Fine;
    }

    method QueueNetworkAuthorityFailure() returns (fault: Fault)
      requires Ready() && journal.active.Some?
      modifies this`journal, this`images, this`log, this`registry, this`draining, this`trouble
      ensures After(fault) && !fault.Stuck? && old(log) <= log
      ensures !fault.Fatal? ==> SlotKeptOrNew(old(journal), journal) && journal.active == old(journal).active
      ensures old(trouble).Calm? ==> trouble.Calm?
    {
      hide Disk, Consistent;
      var missing: bool, unproven: bool := *, *;
      if missing {
        return Fine;
      }
      if unproven {
        Drain();
      }
      fault := QueueEvent(Failed);
    }

    /** A commanded cancellation with nothing left to wait for. */
    ghost predicate AwaitsCancelled()
      reads this
    {
      && journal.active.Some? && journal.active.value.cancellationId != "" && journal.active.value.cancellationDigest.Some?
      && journal.pending.None? && !workerRunning && deferred == [] && !recovering
    }

    /** A lease that ran out, without cancellation, with nothing left to wait for. */
    ghost predicate AwaitsExpiry(now: int)
      reads this
    {
      && journal.active.Some? && journal.active.value.cancellationId == "" && journal.active.value.expiresAt <= now
      && journal.pending.None? && !workerRunning && !recovering
    }

    /** A lease that goes on: not cancelled, not expired, not recovered, with nothing in the slot. */
    ghost predicate Healthy(now: int)
      reads this
    {
      && journal.active.Some? && journal.active.value.cancellationId == "" && now < journal.active.value.expiresAt
      && journal.pending.None? && !recovering
    }

    /** A worker's lease of which no more than half of the granted time is left. */
    ghost predicate AwaitsRenewal(now: int)
      reads this
    {
      && Healthy(now) && (journal.active.value.phase.PhasePreparing? || journal.active.value.phase.PhaseRunning?)
      && journal.active.value.expiresAt - now <= session.leaseDuration / 2
    }

    /** The next thing to do for the active lease, whatever woke the session up. */
    method Advance(now: int) returns (fault: Fault)
      requires Ready()
      modifies this`journal, this`images, this`log, this`registry, this`startResponse, this`deferred, this`workerRunning,
               this`draining, this`trouble
      ensures After(fault) && !fault.Stuck? && old(log) <= log
      ensures !fault.Fatal? ==> SlotKeptOrNew(old(journal), journal) && SameLease(old(journal).active, journal.active)
      ensures old(journal).pending.Some? || old(journal).active.None? ==> fault.Fine? && journal == old(journal)
      ensures old(journal).active.None? ==> unchanged(this)
      ensures !fault.Fatal? && old(journal).active.Some? && old(journal).active.value.cancellationId != "" && old(startResponse).None? ==>
        startResponse.None?
      ensures !fault.Fatal? && old(journal).active.Some? && old(journal).active.value.cancellationId != "" && !old(recovering) ==>
        startResponse.None?
      ensures old(AwaitsCommand()) && !old(recovering) ==>
        fault.Fine? && journal == old(journal) && deferred == old(deferred) && workerRunning == old(workerRunning) && log == old(log)
      ensures fault.Fine? && old(AwaitsCancelled()) ==>
        journal.pending.Some? && journal.pending.value.event == Cancelled(old(journal).active.value.cancellationId)
      ensures fault.Fine? && old(AwaitsExpiry(now)) ==>
        startResponse.None? && journal.pending.Some? && journal.pending.value.event.Failed?
      ensures fault.Fine? && !old(trouble).Any? && old(AwaitsRenewal(now)) ==>
        journal.pending == Some(RunnerMessage(old(journal).messageSequence + 1, LeaseRenewal, old(journal).active.value.specification.identity))
      ensures !old(trouble).Any? && old(Healthy(now)) && !old(AwaitsRenewal(now)) && old(deferred) == [] ==>
        fault.Fine? && journal == old(journal) && startResponse == old(startResponse)
      ensures old(trouble).Calm? ==> trouble.Calm?
    {
      hide Disk, Consistent;
      if journal.active.None? {
        return Fine;
      }
      if recovering && session.reconciled && journal.pending.None? {
        fault := QueueRestartFailure();
        return;
      }
      if journal.active.value.cancellationId != "" {
        FailStartResponse();
        if journal.active.value.cancellationDigest.None? || journal.pending.Some? || workerRunning {
          return Fine;
        }
        if |deferred| > 0 {
          fault := DrainDeferred(now);
        } else {
          fault := QueueEvent(Cancelled(journal.active.value.cancellationId));
        }
        return;
      }
      if journal.active.value.expiresAt <= now {
        FailStartResponse();
        if journal.pending.Some? || workerRunning {
          return Fine;
        }
        fault := QueueEvent(Failed);
        return;
      }
      if journal.pending.Some? {
        return Fine;
      }
      var networkStopped := Strikes();
      if networkStopped {
        if workerRunning {
          return Fine;
        }
        if |deferred| > 0 {
          fault := DrainDeferred(now);
        } else {
          fault := QueueNetworkAuthorityFailure();
        }
        return;
      }
      var phase := journal.active.value.phase;
      if (phase.PhasePreparing? || phase.PhaseRunning?) && journal.active.value.expiresAt - now <= session.leaseDuration / 2 {
        fault := QueueEvent(LeaseRenewal);
        return;
      }
      fault := DrainDeferred(now);
    }

    /** Network authority carried by a reconciliation: it may be refused, and may force a drain. */
    method ConsumeNetworkAuthority() returns (fault: Fault)
      requires Ready()
      modifies this`draining
      ensures Ready() && (fault.Fine? || fault.Fatal?)
      ensures trouble.Calm? || trouble.SyncFails? ==> fault.Fine? && draining == old(draining)
    {
      hide Disk, Consistent;
      var unproven := Strikes();
      if unproven {
        Drain();
        return Fatal;
      }
      var refused := Strikes();
      fault := if refused then Fatal else Fine;
    }

    /** What a reconciliation makes of the journal it is for. */
    function AfterReconciliation(j: JournalState, r: Reconciliation): JournalState {
      if j.active.None? || j.active.value.specification.identity != r.identity then j
      else if Terminal(r.status) then j.(active := None, pending := None)
      else j.(active := Some(Reconciled(j.active.value, r)))
    }

    /** A reconciliation that does not answer the pending event. */
    method ApplyLateReconciliation(r: Reconciliation) returns (fault: Fault)
      requires Ready() && ValidReconciliation(r)
      modifies this`journal, this`images, this`log, this`startResponse, this`recovering,
               this`session, this`deferred, this`draining, this`trouble
      ensures Unacknowledging(old(log), log)
      ensures After(fault) && !fault.Stuck? && old(log) <= log
      ensures session.heartbeat == old(session).heartbeat
      ensures fault.Fine? ==> journal == AfterReconciliation(old(journal), r)
      ensures fault.Transient? ==> journal == old(journal) || journal == AfterReconciliation(old(journal), r)
      ensures fault.Fine? && !Terminal(r.status) ==> recovering == old(recovering) && deferred == old(deferred) && session == old(session)
      ensures fault.Fine? && old(ActiveMatches(r.identity)) && !Terminal(r.status) && r.cancellationId != "" ==> startResponse.None?
      ensures old(trouble).Calm? ==> trouble.Calm? && draining == old(draining)
      ensures old(trouble).Calm? && !r.hasUpload
              && (old(ActiveMatches(r.identity)) && !Terminal(r.status) ==> !CancellationConflicts(old(journal).active.value, r))
              ==> fault.Fine?
      ensures old(trouble).SyncFails? && !r.hasUpload && Terminal(r.status) && old(ActiveMatches(r.identity)) ==>
        fault.Transient? && trouble.Calm? && journal == AfterReconciliation(old(journal), r)
        && recovering == old(recovering) && deferred == old(deferred) && draining == old(draining)
    {
      hide Disk, Consistent, OrderlySinceRestart;
      fault := ConsumeNetworkAuthority();
      if fault.Fatal? {
        return;
      }
      if !ActiveMatches(r.identity) {
        return if r.hasUpload then Fatal else Fine;
      }
      var uploadRefused: bool := *;
      if r.hasUpload && uploadRefused {
        return Fatal;
      }
      if Terminal(r.status) {
        fault := TerminateLease(r);
      } else {
        fault := ApplyAuthoritativeReconciliation(r);
      }
    }

    /** An acknowledgement of an event that is already settled. */
    method HandleSettledEventAcknowledgement(event: SettledEvent, r: Option<Reconciliation>, now: int) returns (fault: Fault)
      requires Ready()
      modifies this`journal, this`images, this`log, this`registry, this`startResponse, this`recovering,
               this`session, this`deferred, this`workerRunning, this`draining, this`trouble
      ensures After(fault) && !fault.Stuck? && old(log) <= log
      ensures !fault.Fatal? ==> r.Some? && FitsSettled(event.message, event.phase, r.value)
      ensures old(trouble).Calm? ==> trouble.Calm?
    {
      hide Disk, Consistent;
      if r.None? || !FitsSettled(event.message, event.phase, r.value) {
        return Fatal;
      }
      fault := ApplyLateReconciliation(r.value);
      if fault.Fine? {
        fault := Advance(now);
      }
    }

    /** The reply to a stale event: the same event again, under a new id. */
    method ReissueStaleEvent(message: RunnerMessage) returns (fault: Fault)
      requires Ready()
      requires EarlyEvent(message.event) && journal.active.Some? && !recovering ==>
        WorkerStarted(journal.active.value.acceptance) !in log
      requires message.event.JobStarted? && startResponse.Some? ==> startResponse.value == message.event.call
      requires message.event.Completed? ==> journal.active.Some? && UsedResult(log, journal.active.value.acceptance)
      modifies this`journal, this`images, this`log, this`registry, this`trouble
      ensures After(fault) && !fault.Stuck? && old(log) <= log
      ensures !fault.Fatal? ==> SlotKeptOrNew(old(journal), journal) && journal.active == old(journal).active
      ensures fault.Fine? ==>
        journal.pending == Some(RunnerMessage(old(journal).messageSequence + 1, message.event, message.identity))
      ensures old(trouble).Calm? ==> trouble.Calm?
    {
      hide Disk, Consistent;
      fault := QueueDurable(message.event, message.identity, NoChange);
    }

    method QueuePreparing() returns (fault: Fault)
      requires Ready() && journal.active.Some? && journal.active.value.cancellationId == ""
      requires !recovering && WorkerStarted(journal.active.value.acceptance) !in log
      modifies this`journal, this`images, this`log, this`registry, this`trouble
      ensures After(fault) && !fault.Stuck? && old(log) <= log
      ensures !fault.Fatal? ==> SlotKeptOrNew(old(journal), journal) && SameLease(old(journal).active, journal.active)
      ensures fault.Fine? ==>
        var n := old(journal).messageSequence + 1;
        var job := old(journal).active.value;
        journal == old(journal).(messageSequence := n, active := Some(job.(phase := PhasePreparing)),
                                 pending := Some(RunnerMessage(n, JobPreparing, job.specification.identity)))
      ensures old(trouble).Calm? ==> trouble.Calm?
      ensures old(IsCalm()) && old(journal).pending.None? ==> fault.Fine?
      ensures WorkerStarted(old(journal).active.value.acceptance) !in log
    {
      hide Disk, Consistent;
      ActiveIsOk();
      fault := QueueDurable(JobPreparing, journal.active.value.specification.identity, SetPhase(PhasePreparing));
      QuietKeeps(old(log), log);
    }

    /** The acknowledged event has done its work: what comes next for each kind. */
    method ProceedAfter(message: RunnerMessage, r: Reconciliation, now: int) returns (fault: Fault)
      requires Ready() && journal.pending.None? && journal.active.Some?
      requires !TerminalEvent(message.event) && !message.event.LeaseRejected?
      requires Acknowledged(message, message.sequence, r) in log && ActiveMatches(message.identity)
      requires !r.disposition.Stale? && !Terminal(r.status) && FitsPending(message, r, Some(journal.active.value))
      requires EarlyEvent(message.event) && !recovering ==> WorkerStarted(journal.active.value.acceptance) !in log
      requires message.event.JobStarted? && startResponse.Some? ==> startResponse.value == message.event.call
      modifies this`journal, this`images, this`log, this`registry, this`startResponse, this`deferred, this`workerRunning,
               this`alive, this`draining, this`trouble
      ensures After(fault) && old(log) <= log
      ensures fault.Fine? || fault.Transient? ==> SlotKeptOrNew(old(journal), journal) && SameLease(old(journal).active, journal.active)
      ensures fault.Stuck? ==> message.event.JobStarted? && old(SpinsForever())
      ensures message.event.JobStarted? && !old(recovering) && old(SpinsForever()) ==> fault.Stuck?
      ensures message.event.LeaseAccepted? && !old(recovering) && old(journal).active.value.cancellationId == "" && fault.Fine? ==>
        var n := old(journal).messageSequence + 1;
        var job := old(journal).active.value;
        && journal == old(journal).(messageSequence := n, active := Some(job.(phase := PhasePreparing)),
                                    pending := Some(RunnerMessage(n, JobPreparing, job.specification.identity)))
        && startResponse == old(startResponse) && deferred == old(deferred) && workerRunning == old(workerRunning)
        && draining == old(draining)
        && WorkerStarted(job.acceptance) !in log
      ensures message.event.JobPreparing? && !old(recovering) && old(journal).active.value.cancellationId == "" && !fault.Fatal? ==>
        && workerRunning && WorkerStarted(old(journal).active.value.acceptance) in log && journal == old(journal)
        && startResponse == old(startResponse) && deferred == old(deferred) && alive == old(alive) + 1
        && draining == old(draining)
      ensures message.event.JobStarted? && !old(recovering) && old(startResponse).Some? ==>
        GrantedSince(|old(log)|, message.event.call, old(journal).active.value.acceptance)
      ensures message.event.JobStarted? ==> alive == old(alive)
      ensures message.event.JobStarted? && !old(recovering) && old(IsCalm()) && old(ReportsFirst()) ==>
        fault.Fine? && Reported() && ActiveMatches(old(journal).active.value.specification.identity)
      ensures old(trouble).Calm? ==> trouble.Calm?
      ensures old(IsCalm()) && !old(recovering) && old(journal).active.value.cancellationId == "" ==>
        && (message.event.LeaseAccepted? ==> fault.Fine?)
        && (message.event.JobPreparing? && !old(workerRunning) && hasWorker ==> fault.Fine?)
    {
      hide Disk, Consistent;
      if recovering {
        fault := QueueRestartFailure();
        return;
      }
      match message.event
      case LeaseAccepted =>
        if journal.active.value.cancellationId != "" {
          fault := Advance(now);
        } else {
          fault := QueuePreparing();
        }
      case JobPreparing =>
        if journal.active.value.cancellationId != "" {
          fault := Advance(now);
        } else {
          assert PreparingSettled(log, message.identity);
          fault := StartWorker();
        }
      case JobStarted(_) =>
        CompleteStartResponse(message, r);
        fault := DrainDeferred(now);
        assert old(startResponse).Some? ==> log[|old(log)|] == StartGranted(message.event.call, old(journal).active.value.acceptance);
      case LeaseRenewal =>
        ActiveIsOk();
        fault := DrainDeferred(now);
    }

    /** The start callback was granted after the first n entries. */
    ghost predicate GrantedSince(n: nat, call: nat, acceptance: nat)
      reads this`log
    {
      exists i :: n <= i < |log| && log[i] == StartGranted(call, acceptance)
    }

    ghost method RecordAcknowledged(m: RunnerMessage, r: Reconciliation)
      requires Ready() && journal.pending == Some(m) && r.identity == m.identity && ValidReconciliation(r)
      requires FitsPending(m, r, journal.active)
      modifies this`log
      ensures Ready() && log == old(log) + [Acknowledged(m, m.sequence, r)] && WasAcknowledged(log, m)
    {
      hide Consistent, Disk, Current;
      ConsistentStays(journal, log, Acknowledged(m, m.sequence, r), startResponse);
      Record(Acknowledged(m, m.sequence, r));
      assert Acknowledged(m, m.sequence, r) in log;
    }

    /** What the pending event says about the process. */
    lemma PendingFacts()
      requires Valid() && journal.pending.Some?
      ensures journal.pending.value.sequence <= journal.messageSequence
      ensures !journal.pending.value.event.LeaseRejected? ==> ActiveMatches(journal.pending.value.identity)
      ensures EarlyEvent(journal.pending.value.event) && journal.active.Some? && !recovering ==>
        WorkerStarted(journal.active.value.acceptance) !in log
      ensures journal.pending.value.event.JobStarted? && startResponse.Some? ==>
        startResponse.value == journal.pending.value.event.call
    {
      hide Safe, Images, Reachable, Bounded, OrderlySinceRestart, CleanSinceRestart;
      assert StateOk(journal);
    }

    /** The acknowledgement announces a cancellation. */
    method SettleCancelling(pending: RunnerMessage, r: Reconciliation, phase: Phase, now: int) returns (fault: Fault)
      requires Ready() && journal.pending == Some(pending) && WasAcknowledged(log, pending)
      requires ValidReconciliation(r) && !Terminal(r.status) && r.cancellationId != ""
      modifies this`journal, this`images, this`log, this`registry, this`startResponse, this`deferred,
               this`workerRunning, this`draining, this`session, this`trouble
      ensures After(fault) && !fault.Stuck? && old(log) <= log
      ensures fault.Fine? ==> journal.pending.None? || journal.pending.value.sequence > old(journal).messageSequence
      ensures fault.Fine? && old(ActiveMatches(r.identity)) ==>
        && journal.active.Some? && journal.active.value.cancellationId == r.cancellationId && journal.active.value.phase.PhaseCancelling?
        && KeepsProlonged(old(journal), r, journal)
      ensures old(trouble).Calm? ==> trouble.Calm?
    {
      hide Disk, Consistent;
      var activeMatches := ActiveMatches(r.identity);
      if activeMatches {
        fault := ApplyAuthoritativeReconciliation(r);
        if !fault.Fine? {
          return;
        }
        StaysAcknowledged(old(log), log, pending);
      }
      fault := ClearPendingAcknowledged(pending, phase);
      if !fault.Fine? || !activeMatches {
        return;
      }
      fault := Advance(now);
      if fault.Fine? { ActiveIsOk(); }
    }

    /** The acknowledgement is stale, or lets the lease go on, or settles a rejection. */
    method SettleOrdinary(pending: RunnerMessage, r: Reconciliation, phase: Phase, now: int) returns (fault: Fault, networkStopped: bool)
      requires Ready() && journal.pending == Some(pending) && Acknowledged(pending, pending.sequence, r) in log
      requires r.identity == pending.identity && FitsPending(pending, r, journal.active)
      requires Terminal(r.status) ==> !ActiveMatches(r.identity)
      modifies this`journal, this`images, this`log, this`registry, this`startResponse, this`deferred, this`workerRunning,
               this`alive, this`draining, this`session, this`trouble
      ensures After(fault) && old(log) <= log
      ensures fault.Fine? ==> SameLease(old(journal).active, journal.active)
      ensures fault.Fine? ==> journal.pending.None? || journal.pending.value.sequence > old(journal).messageSequence
      ensures fault.Stuck? ==> pending.event.JobStarted? && old(AwaitsCommand()) && old(HoldsResult())
      ensures networkStopped ==> old(trouble).Any?
      ensures fault.Fine? && r.disposition.Stale? && !(networkStopped && old(GoesOn(pending, r))) ==>
        journal.pending == Some(RunnerMessage(old(journal).messageSequence + 1, pending.event, pending.identity))
      ensures session.heartbeat == old(session).heartbeat
      ensures old(trouble).Calm? ==> trouble.Calm?
      ensures old(IsCalm()) && old(ActiveMatches(r.identity)) && Proceeds(pending, r) && !old(recovering) ==>
        && Proceeded(pending, old(journal), fault, |old(log)|, old(Snapshot()))
        && session.settled.Keys <= old(session).settled.Keys + {pending.sequence}
    {
      hide Disk, Consistent, Proceeded, UsedResult;
      assert WasAcknowledged(log, pending);
      PendingFacts();
      CompletionFacts();
      networkStopped := Strikes();
      fault := ClearPendingAcknowledged(pending, phase);
      if !fault.Fine? {
        return;
      }
      StaysInLog(old(log), log);
      QuietKeeps(old(log), log);
      UsedStays(old(log), log);
      ghost var past := |log|;
      fault := FollowUp(pending, r, networkStopped, now);
      if ActiveMatchesIn(old(journal), r.identity) {
        ProceededEarlier(pending, old(journal), fault, |old(log)|, past, old(Snapshot()));
      }
    }

    /** The acknowledged event leaves the active lease open. */
    predicate GoesOn(pending: RunnerMessage, r: Reconciliation)
      reads this`journal
    {
      ActiveMatches(r.identity) && !Terminal(r.status) && !TerminalEvent(pending.event)
    }

    /** A completion waits only in a lease for which a worker's result was used. */
    lemma CompletionFacts()
      requires Disk() && journal in images
      ensures CompletedByResult(log, journal)
    {
      hide Safe, Images, Bounded, CompletedByResult;
      assert Reachable(log, journal);
    }

    static predicate ActiveMatchesIn(j: JournalState, identity: Identity) {
      j.active.Some? && j.active.value.specification.identity == identity
    }

    /** What an acknowledged event leads to once its slot is empty. */
    method FollowUp(pending: RunnerMessage, r: Reconciliation, networkStopped: bool, now: int) returns (fault: Fault)
      requires Ready() && journal.pending.None? && Acknowledged(pending, pending.sequence, r) in log
      requires r.identity == pending.identity && FitsPending(pending, r, journal.active)
      requires Terminal(r.status) ==> !ActiveMatches(r.identity)
      requires !pending.event.LeaseRejected? ==> ActiveMatches(pending.identity)
      requires EarlyEvent(pending.event) && journal.active.Some? && !recovering ==> WorkerStarted(journal.active.value.acceptance) !in log
      requires pending.event.JobStarted? && startResponse.Some? ==> startResponse.value == pending.event.call
      requires pending.event.Completed? ==> journal.active.Some? && UsedResult(log, journal.active.value.acceptance)
      modifies this`journal, this`images, this`log, this`registry, this`startResponse, this`deferred, this`workerRunning,
               this`alive, this`draining, this`trouble
      ensures After(fault) && old(log) <= log
      ensures fault.Fine? ==> SameLease(old(journal).active, journal.active)
      ensures fault.Fine? ==> journal.pending.None? || journal.pending.value.sequence > old(journal).messageSequence
      ensures fault.Stuck? ==> pending.event.JobStarted? && old(AwaitsCommand()) && old(HoldsResult())
      ensures fault.Fine? && r.disposition.Stale? && !(networkStopped && old(GoesOn(pending, r))) ==>
        journal.pending == Some(RunnerMessage(old(journal).messageSequence + 1, pending.event, pending.identity))
      ensures old(trouble).Calm? ==> trouble.Calm?
      ensures old(IsCalm()) && !networkStopped && old(ActiveMatches(r.identity)) && Proceeds(pending, r) && !old(recovering) ==>
        Proceeded(pending, old(journal).(pending := Some(pending)), fault, |old(log)|, old(Snapshot()))
    {
      hide Disk, Consistent;
      if networkStopped && GoesOn(pending, r) {
        fault := Advance(now);
        return;
      }
      if r.disposition.Stale? {
        fault := ReissueStaleEvent(pending);
        return;
      }
      if pending.event.LeaseRejected? || Terminal(r.status) {
        return Fine;
      }
      fault := ProceedAfter(pending, r, now);
    }

    /** The acknowledgement applies the event and lets the lease go on. */
    predicate Proceeds(pending: RunnerMessage, r: Reconciliation) {
      !r.disposition.Stale? && !Terminal(r.status) && !TerminalEvent(pending.event) && !pending.event.LeaseRejected?
    }

    /** Where the runner is when nothing went wrong after an applied event, from the journal before it was cleared. */
    ghost predicate Proceeded(
      pending: RunnerMessage, before: JournalState, fault: Fault, past: nat, process: Process)
      requires before.active.Some?
      reads this
    {
      var job := before.active.value;
      var n := before.messageSequence + 1;
      && (pending.event.LeaseAccepted? && job.cancellationId == "" ==>
            && fault.Fine? && draining == process.draining && startResponse == process.response && deferred == process.events && workerRunning == process.running
            && WorkerStarted(job.acceptance) !in log
            && journal == before.(messageSequence := n, active := Some(job.(phase := PhasePreparing)),
                                  pending := Some(RunnerMessage(n, JobPreparing, job.specification.identity))))
      && (pending.event.JobPreparing? && job.cancellationId == "" && !process.running && hasWorker ==>
            && fault.Fine? && draining == process.draining && startResponse == process.response && deferred == process.events && workerRunning && alive == process.workers + 1
            && WorkerStarted(job.acceptance) in log && journal == before.(pending := None))
      && (pending.event.JobStarted? && process.response.Some? ==> GrantedSince(past, pending.event.call, job.acceptance))
      && (pending.event.JobStarted? && job.cancellationId == "" && process.events != [] && process.events[0].Result? ==>
            fault.Fine? && Reported() && ActiveMatches(job.specification.identity) && alive == process.workers)
      && (pending.event.JobStarted? && job.cancellationId != "" && job.cancellationDigest.None? && (exists e :: e in process.events && e.Result?) ==>
            fault.Stuck?)
    }

    /** What holds after more entries holds after fewer. */
    lemma ProceededEarlier(
      pending: RunnerMessage, before: JournalState, fault: Fault, fewer: nat, past: nat, process: Process)
      requires before.active.Some? && fewer <= past
      ensures Proceeded(pending, before, fault, past, process) ==>
        Proceeded(pending, before, fault, fewer, process)
    {
    }

    lemma StaysAcknowledged(before: Log, after: Log, m: RunnerMessage)
      requires before <= after && WasAcknowledged(before, m)
      ensures WasAcknowledged(after, m)
    {
      StaysInLog(before, after);
      var r: Reconciliation :| Acknowledged(m, m.sequence, r) in before;
      assert Acknowledged(m, m.sequence, r) in after;
    }

    /** The acknowledgement names the pending event exactly, by id and by all seven identity fields. */
    ghost predicate Settles(ack: Acknowledgement)
      reads this`journal
    {
      && journal.pending.Some? && ack.reconciliation.Some?
      && ack.sequence == journal.pending.value.sequence
      && ack.reconciliation.value.identity == journal.pending.value.identity
      && ValidReconciliation(ack.reconciliation.value)
      && FitsPending(journal.pending.value, ack.reconciliation.value, journal.active)
    }

    /** An acknowledgement of the pending event. */
    method SettlePending(ack: Acknowledgement, now: int) returns (fault: Fault)
      requires Ready() && Settles(ack)
      modifies this`journal, this`images, this`log, this`registry, this`startResponse, this`recovering, this`deferred,
               this`workerRunning, this`alive, this`draining, this`session, this`trouble
      ensures After(fault) && old(log) <= log
      ensures fault.Fine? ==> journal.pending != old(journal).pending
      ensures fault.Stuck? ==> old(journal).pending.value.event.JobStarted? && old(AwaitsCommand()) && old(HoldsResult())
      ensures fault.Fine? && Terminal(ack.reconciliation.value.status) && old(ActiveMatches(ack.reconciliation.value.identity)) ==>
        journal.active.None? && journal.pending.None?
      ensures fault.Fine? && !Terminal(ack.reconciliation.value.status) && old(ActiveMatches(ack.reconciliation.value.identity)) ==>
        KeepsProlonged(old(journal), ack.reconciliation.value, journal)
      ensures old(trouble).Calm? ==> trouble.Calm?
      ensures old(IsCalm()) && Applies(ack, old(journal)) && !old(recovering) ==>
        && recovering == old(recovering) && session.heartbeat == old(session).heartbeat
        && session.settled.Keys <= old(session).settled.Keys + {ack.sequence}
        && Proceeded(old(journal).pending.value, AfterReconciliation(old(journal), ack.reconciliation.value), fault, |old(log)|, old(Snapshot()))
    {
      hide Disk, Consistent, Proceeded, WasAcknowledged;
      var pending, r := journal.pending.value, ack.reconciliation.value;
      var phase := if journal.active.Some? then journal.active.value.phase else PhaseUnspecified;
      var activeMatches := ActiveMatches(r.identity);
      fault := ConsumeNetworkAuthority();
      if fault.Fatal? {
        return;
      }
      PendingFacts();
      RecordAcknowledged(pending, r);
      if !Terminal(r.status) && r.cancellationId != "" {
        fault := SettleCancelling(pending, r, phase, now);
        return;
      }
      if Terminal(r.status) && activeMatches {
        fault := TerminateLease(r);
        return;
      }
      ghost var past := |log|;
      fault := SettleApplied(pending, r, phase, now);
      if activeMatches {
        ProceededEarlier(pending, AfterReconciliation(old(journal), r), fault, |old(log)|, past, old(Snapshot()));
      }
    }

    /** The acknowledgement applies the pending event of the active lease, and announces no cancellation. */
    ghost predicate Applies(ack: Acknowledgement, j: JournalState) {
      && ack.reconciliation.Some? && j.pending.Some? && j.active.Some?
      && j.active.value.specification.identity == ack.reconciliation.value.identity
      && Proceeds(j.pending.value, ack.reconciliation.value) && ack.reconciliation.value.cancellationId == ""
    }

    /** An acknowledgement that neither ends nor cancels the lease. */
    method SettleApplied(pending: RunnerMessage, r: Reconciliation, phase: Phase, now: int) returns (fault: Fault)
      requires Ready() && journal.pending == Some(pending) && Acknowledged(pending, pending.sequence, r) in log
      requires r.identity == pending.identity && FitsPending(pending, r, journal.active) && ValidReconciliation(r)
      requires Terminal(r.status) ==> !ActiveMatches(r.identity)
      requires !Terminal(r.status) ==> r.cancellationId == ""
      modifies this`journal, this`images, this`log, this`registry, this`startResponse, this`deferred, this`workerRunning,
               this`alive, this`draining, this`session, this`trouble
      ensures After(fault) && old(log) <= log
      ensures fault.Fine? && old(ActiveMatches(r.identity)) ==> KeepsProlonged(old(journal), r, journal)
      ensures fault.Fine? ==> journal.pending.None? || journal.pending.value.sequence > old(journal).messageSequence
      ensures fault.Stuck? ==> pending.event.JobStarted? && old(AwaitsCommand()) && old(HoldsResult())
      ensures session.heartbeat == old(session).heartbeat
      ensures old(trouble).Calm? ==> trouble.Calm?
      ensures old(IsCalm()) && old(ActiveMatches(r.identity)) && Proceeds(pending, r) && !old(recovering) ==>
        && Proceeded(pending, AfterReconciliation(old(journal), r), fault, |old(log)|, old(Snapshot()))
        && session.settled.Keys <= old(session).settled.Keys + {pending.sequence}
    {
      hide Disk, Consistent, Proceeded;
      if ActiveMatches(r.identity) {
        RenewalFits(journal, pending, r);
        fault := ApplyAuthoritativeReconciliation(r);
        if !fault.Fine? {
          return;
        }
        StaysInLog(old(log), log);
      }
      ghost var past := |log|;
      var matched := ActiveMatches(r.identity);
      var networkStopped;
      fault, networkStopped := SettleOrdinary(pending, r, phase, now);
      if matched {
        ProceededEarlier(pending, AfterReconciliation(old(journal), r), fault, |old(log)|, past, old(Snapshot()));
      }
    }

    /** The lease in the one journal is in the other one as the reconciliation prolongs it. */
    static predicate KeepsProlonged(a: JournalState, r: Reconciliation, b: JournalState)
      requires a.active.Some?
    {
      b.active.Some? && Prolonged(a.active.value, r, b.active.value)
    }

    /** A single reconciliation of the active lease prolongs it. */
    static lemma OneProlongs(j: JournalState, r: Reconciliation, b: JournalState)
      requires ActiveMatchesIn(j, r.identity) && ValidJournal(j) && ValidReconciliation(r) && !Terminal(r.status)
      requires SameLease(Some(Reconciled(j.active.value, r)), b.active)
      ensures KeepsProlonged(j, r, b)
    {
      ReconciledTakesOver(j.active.value, r);
    }

    /** A renewal acknowledged at the phase of the lease leaves it there. */
    static lemma RenewalFits(j: JournalState, pending: RunnerMessage, r: Reconciliation)
      requires FitsPending(pending, r, j.active) && j.active.Some? && !CancellationConflicts(j.active.value, r) && r.cancellationId == ""
      ensures FitsPending(pending, r, Some(Reconciled(j.active.value, r)))
    {
    }

    /**
     * An event acknowledgement, of the pending event or of one settled earlier in this session.
     * Anything else ends the run.
     */
    method HandleEventAcknowledgement(ack: Acknowledgement, now: int) returns (fault: Fault)
      requires Ready()
      modifies this`journal, this`images, this`log, this`registry, this`startResponse, this`recovering, this`deferred,
               this`workerRunning, this`alive, this`draining, this`session, this`trouble
      ensures After(fault) && old(log) <= log
      ensures !fault.Fatal? ==> ack.sequence in old(session).settled || old(Settles(ack))
      ensures fault.Fine? && ack.sequence !in old(session).settled ==> journal.pending != old(journal).pending
      ensures fault.Fine? && ack.sequence !in old(session).settled && !Terminal(ack.reconciliation.value.status)
              && old(ActiveMatches(ack.reconciliation.value.identity)) ==>
        KeepsProlonged(old(journal), ack.reconciliation.value, journal)
      ensures fault.Stuck? ==> old(journal).pending.Some? && old(journal).pending.value.event.JobStarted? && old(AwaitsCommand())
      ensures old(trouble).Calm? ==> trouble.Calm?
      ensures ack.valid && old(IsCalm()) && old(Settles(ack)) && ack.sequence !in old(session).settled
              && !ack.reconciliation.value.hasUpload && Applies(ack, old(journal)) && !old(recovering) ==>
        && recovering == old(recovering) && session.heartbeat == old(session).heartbeat
        && session.settled.Keys <= old(session).settled.Keys + {ack.sequence}
        && Proceeded(old(journal).pending.value, AfterReconciliation(old(journal), ack.reconciliation.value), fault, |old(log)|, old(Snapshot()))
    {
      hide Disk, Consistent, Proceeded;
      if !ack.valid || (ack.reconciliation.Some? && ack.reconciliation.value.hasUpload) {
        return Fatal;
      }
      if ack.sequence in session.settled {
        fault := HandleSettledEventAcknowledgement(session.settled[ack.sequence], ack.reconciliation, now);
        return;
      }
      if journal.pending.None? || ack.sequence != journal.pending.value.sequence {
        return Fatal;
      }
      if ack.reconciliation.None? || !ValidReconciliation(ack.reconciliation.value) {
        return Fatal;
      }
      var r := ack.reconciliation.value;
      if r.identity != journal.pending.value.identity || !FitsPending(journal.pending.value, r, journal.active) {
        return Fatal;
      }
      fault := SettlePending(ack, now);
    }

    method RejectOffer(identity: Option<Identity>) returns (fault: Fault)
      requires Ready()
      modifies this`journal, this`images, this`log, this`registry, this`trouble
      ensures After(fault) && !fault.Stuck? && Quiet(old(log), log)
      ensures !fault.Fatal? ==> identity.Some? && SlotKeptOrNew(old(journal), journal) && journal.active == old(journal).active
      ensures fault.Fine? ==> old(journal).pending.None?
      ensures fault.Fine? ==> journal.pending == Some(RunnerMessage(old(journal).messageSequence + 1, LeaseRejected, identity.value)) && Sent(journal.pending.value) in log
      ensures fault.Transient? && journal.pending != old(journal).pending ==> journal.pending.value.event.LeaseRejected?
      ensures old(trouble).Calm? ==> trouble.Calm?
      ensures old(IsCalm()) && old(journal).pending.None? && identity.Some? ==> fault.Fine?
      ensures fault.Fine? ==> journal.messageSequence == old(journal).messageSequence + 1 && journal.heartbeatSequence == old(journal).heartbeatSequence
    {
      hide Disk, Consistent;
      if identity.None? {
        return Fatal;
      }
      JournalIsOk();
      fault := QueueDurable(LeaseRejected, identity.value, NoChange);
    }

    predicate Free()
      reads this
    {
      journal.active.None? && journal.pending.None? && !workerRunning && !draining && hasWorker
    }

    /** Another lease is active, and nothing is pending. */
    predicate Taken(offer: Offer)
      reads this`journal
    {
      && journal.active.Some? && journal.pending.None? && offer.identity.Some?
      && journal.active.value.specification.identity != offer.identity.value && journal.active.value.offerMessageId != offer.messageId
    }

    /** An offer.  `eligible` is the verdict of the offer validation on this offer. */
    method HandleOffer(offer: Offer, eligible: bool) returns (fault: Fault)
      requires Ready() && (eligible ==> offer.identity.Some?)
      modifies this`journal, this`images, this`log, this`registry, this`nextAcceptance, this`trouble
      ensures After(fault) && !fault.Stuck? && old(log) <= log
      ensures fault.Fine? && old(Free()) && eligible ==>
        var n := old(journal).messageSequence + 1;
        journal == old(journal).(messageSequence := n, active := Some(JobOf(offer, offer.identity.value, old(nextAcceptance))),
                                 pending := Some(RunnerMessage(n, LeaseAccepted, offer.identity.value)))
      ensures fault.Fine? && old(Free()) && eligible ==> Offered(offer, journal.active.value)
      ensures !fault.Fatal? && !(old(Free()) && eligible) ==> journal.active == old(journal).active
      ensures !fault.Fatal? && !(old(Free()) && eligible) ==>
        journal.pending == old(journal).pending || (journal.pending.Some? && journal.pending.value.event.LeaseRejected?)
      ensures old(trouble).Calm? ==> trouble.Calm?
      ensures old(IsCalm()) && old(Free()) && eligible ==> fault.Fine?
      ensures old(IsCalm()) && old(Taken(offer)) ==>
        && fault.Fine? && Quiet(old(log), log)
        && journal.pending == Some(RunnerMessage(old(journal).messageSequence + 1, LeaseRejected, offer.identity.value))
        && Sent(journal.pending.value) in log
        && journal.messageSequence == old(journal).messageSequence + 1 && journal.heartbeatSequence == old(journal).heartbeatSequence
    {
      hide Disk, Consistent;
      if journal.active.Some? || workerRunning {
        if journal.active.None? {
          fault := RejectOffer(offer.identity);
          return;
        }
        var job := journal.active.value;
        if offer.identity.Some? && job.specification.identity == offer.identity.value
           && job.specification.correlation != offer.correlation {
          return Fatal;
        }
        if job.offerMessageId == offer.messageId && job.offerDigest == offer.digest {
          fault := ReplayPending();
          return;
        }
        fault := RejectOffer(offer.identity);
        return;
      }
      if journal.pending.Some? {
        return Fatal;
      }
      if draining || !hasWorker || !eligible {
        fault := RejectOffer(offer.identity);
        return;
      }
      var evidenceBroken := Strikes();
      if evidenceBroken {
        return Fatal;
      }
      JournalIsOk();
      fault := AcceptLease(JobOf(offer, offer.identity.value, nextAcceptance));
    }

    lemma JournalIsOk()
      requires Disk() && journal in images
      ensures ValidJournal(journal)
    {
      hide Safe, Images, Reachable, Bounded;
      assert StateOk(journal);
    }

    /** The command is about the active lease, and it is the first one for it or the announced one. */
    predicate FirstCommand(c: Cancellation)
      reads this`journal
    {
      && c.wellFormed && c.id != "" && ActiveMatches(c.identity)
      && (journal.active.value.cancellationId == ""
          || (journal.active.value.cancellationId == c.id && journal.active.value.cancellationDigest.None?))
    }

    /** A cancellation command for the active lease; a repeated one must be identical. */
    method HandleCancellation(c: Cancellation, now: int) returns (fault: Fault)
      requires Ready()
      modifies this`journal, this`images, this`log, this`registry, this`startResponse, this`deferred, this`workerRunning,
               this`draining, this`trouble
      ensures After(fault) && !fault.Stuck? && old(log) <= log
      ensures !fault.Fatal? ==> old(ActiveMatches(c.identity)) && journal.active.Some?
      ensures fault.Fine? ==>
        && journal.active.value.cancellationId == c.id && journal.active.value.cancellationDigest == Some(c.digest)
        && journal.active.value.phase.PhaseCancelling? && startResponse.None?
        && journal.active.value == old(journal).active.value.(cancellationId := c.id, phase := PhaseCancelling, cancellationDigest := Some(c.digest),
             cancellationDeadline := if old(FirstCommand(c)) then Some(c.deadline) else old(journal).active.value.cancellationDeadline)
      ensures old(trouble).Calm? ==> trouble.Calm?
      ensures old(trouble).SyncFails? && old(FirstCommand(c)) ==>
        && fault.Transient? && trouble.Calm? && startResponse == old(startResponse)
        && journal == old(journal).(active := Some(CancelledBy(old(journal).active.value, c.id, c.deadline, c.digest)))
        && workerRunning == old(workerRunning) && deferred == old(deferred)
        && |log| > |old(log)| && log[|old(log)|] == Written(journal)
    {
      hide Disk, Consistent;
      if !c.wellFormed || c.id == "" || !ActiveMatches(c.identity) {
        return Fatal;
      }
      ActiveIsOk();
      var job := journal.active.value;
      if !FirstCommand(c) {
        if job.cancellationId != c.id || job.cancellationDigest != Some(c.digest) {
          return Fatal;
        }
        FailStartResponse();
      } else {
        CancelledByGrows(job, c.id, c.deadline, c.digest);
        assert ValidJournal(journal.(active := Some(CancelledBy(job, c.id, c.deadline, c.digest))));
        fault := UpdateJob(CancelledBy(job, c.id, c.deadline, c.digest), true);
        if !fault.Fine? {
          return;
        }
      }
      fault := AdvanceCancelled(c, now);
    }

    /** What follows a recorded command. */
    method AdvanceCancelled(c: Cancellation, now: int) returns (fault: Fault)
      requires Ready() && journal.active.Some? && c.id != "" && startResponse.None?
      requires journal.active.value.cancellationId == c.id && journal.active.value.cancellationDigest == Some(c.digest)
      modifies this`journal, this`images, this`log, this`registry, this`startResponse, this`deferred, this`workerRunning,
               this`draining, this`trouble
      ensures After(fault) && !fault.Stuck? && old(log) <= log
      ensures !fault.Fatal? ==> journal.active.Some? && SameLease(old(journal).active, journal.active)
      ensures fault.Fine? ==>
        && journal.active.value.cancellationId == c.id && journal.active.value.cancellationDigest == Some(c.digest)
        && journal.active.value.phase.PhaseCancelling? && startResponse.None?
      ensures old(trouble).Calm? ==> trouble.Calm?
    {
      hide Disk, Consistent;
      fault := Advance(now);
      if fault.Fine? {
        ActiveIsOk();
      }
    }

    /** An update that concerns neither the lease nor the outbox slot. */
    method UpdateAside(next: JournalState) returns (fault: Fault)
      requires Ready()
      requires next.active == journal.active && next.pending == journal.pending && next.messageSequence == journal.messageSequence
      modifies this`journal, this`images, this`log, this`trouble
      ensures After(fault) && !fault.Stuck? && Quiet(old(log), log)
      ensures fault.Fine? ==> journal == next
      ensures fault.Transient? ==> journal == old(journal) || journal == next
      ensures old(trouble).Calm? ==> trouble.Calm? && (ValidJournal(next) ==> fault.Fine?)
    {
      hide Disk, Consistent, Succeeds, StateOk, Current;
      AsideSucceeds(next);
      SameProcess(journal, next);
      WrittenStays(next, log, startResponse);
      fault := Update(Changed(next));
    }

    /** Sends the unacknowledged heartbeat again, or journals a new one and sends it. */
    method SendHeartbeat() returns (fault: Fault)
      requires Ready()
      modifies this`journal, this`images, this`log, this`session, this`trouble
      ensures After(fault) && !fault.Stuck? && Quiet(old(log), log)
      ensures !fault.Fatal? ==> journal.active == old(journal).active && journal.pending == old(journal).pending
      ensures !fault.Fatal? ==> old(journal).messageSequence <= journal.messageSequence <= old(journal).messageSequence + 1
      ensures !fault.Fatal? ==> journal.heartbeatSequence <= old(journal).heartbeatSequence + 1
      ensures !fault.Fatal? && old(session).heartbeat.Some? ==> session.heartbeat == old(session).heartbeat && journal == old(journal)
      ensures fault.Fine? && old(session).heartbeat.None? && old(journal).pendingHeartbeat.None? ==>
        session.heartbeat == journal.pendingHeartbeat && session.heartbeat.Some?
        && session.heartbeat.value.leases == OpenLeases(old(journal)) && journal.heartbeatSequence == old(journal).heartbeatSequence + 1
      ensures session.settled == old(session).settled && session.reconciled == old(session).reconciled
      ensures session.leaseDuration == old(session).leaseDuration
      ensures old(trouble).Calm? ==> trouble.Calm?
      ensures old(IsCalm()) && old(journal).heartbeatSequence < MAX_SEQUENCE ==> fault.Fine?
    {
      hide Disk, Consistent;
      if session.heartbeat.None? && journal.pendingHeartbeat.Some? {
        session := session.(heartbeat := journal.pendingHeartbeat);
      }
      if session.heartbeat.Some? {
        if journal.pending.Some? && session.heartbeat.value.leases != [] {
          session := session.(heartbeatDeferred := true);
          return Fine;
        }
        session := session.(heartbeatDeferred := false);
        fault := Send();
        return;
      }
      var heartbeat;
      fault, heartbeat := NewHeartbeat();
      if !fault.Fine? {
        return;
      }
      session := session.(heartbeat := Some(heartbeat), heartbeatDeferred := false);
      fault := Send();
    }

    /** The leases a new heartbeat lists. */
    function OpenLeases(j: JournalState): seq<Identity> {
      if j.active.Some? && j.pending.None? then [j.active.value.specification.identity] else []
    }

    /** A heartbeat lists the active lease only while the outbox slot is empty. */
    method NewHeartbeat() returns (fault: Fault, heartbeat: Heartbeat)
      requires Ready()
      modifies this`journal, this`images, this`log, this`trouble
      ensures After(fault) && !fault.Stuck? && Quiet(old(log), log)
      ensures !fault.Fatal? ==> journal.active == old(journal).active && journal.pending == old(journal).pending
      ensures !fault.Fatal? ==> old(journal).messageSequence <= journal.messageSequence <= old(journal).messageSequence + 1
      ensures !fault.Fatal? ==> journal.heartbeatSequence <= old(journal).heartbeatSequence + 1
      ensures fault.Fine? ==> journal.pendingHeartbeat == Some(heartbeat) && heartbeat.leases == OpenLeases(old(journal))
      ensures fault.Fine? ==> journal.heartbeatSequence == old(journal).heartbeatSequence + 1
      ensures old(trouble).Calm? ==> trouble.Calm?
      ensures old(IsCalm()) && old(journal).heartbeatSequence < MAX_SEQUENCE ==> fault.Fine?
    {
      hide Disk, Consistent;
      JournalIsOk();
      var leases := OpenLeases(journal);
      var sequence := journal.heartbeatSequence + 1;
      heartbeat := Heartbeat(0, sequence, leases);
      if journal.heartbeatSequence >= MAX_SEQUENCE {
        return Fatal, heartbeat;
      }
      fault := UpdateAside(journal.(heartbeatSequence := sequence));
      if fault.Fine? {
        var n;
        fault, n := NextMessage();
        heartbeat := Heartbeat(n, sequence, leases);
      }
      if fault.Fine? {
        JournalIsOk();
        fault := UpdateAside(journal.(pendingHeartbeat := Some(heartbeat)));
      }
    }

    /** The journal after the reconciliations of a heartbeat, one after the other. */
    function AfterAll(j: JournalState, rs: seq<Reconciliation>): JournalState {
      if rs == [] then j else AfterReconciliation(AfterAll(j, rs[..|rs| - 1]), rs[|rs| - 1])
    }

    /** The acknowledgement of a heartbeat reconciles every lease that the heartbeat listed. */
    method HandleHeartbeatAcknowledgement(ack: HeartbeatAcknowledgement, now: int) returns (fault: Fault)
      requires Ready()
      modifies this`journal, this`images, this`log, this`registry, this`startResponse, this`recovering, this`deferred,
               this`workerRunning, this`draining, this`session, this`trouble
      ensures After(fault) && !fault.Stuck? && old(log) <= log
      ensures fault.Fine? ==> session.reconciled
      ensures fault.Fine? ==> SameLease(AfterAll(old(journal), ack.reconciliations).active, journal.active)
      ensures fault.Fine? && |ack.reconciliations| == 1 && old(ActiveMatches(ack.reconciliations[0].identity))
              && !Terminal(ack.reconciliations[0].status) ==>
        KeepsProlonged(old(journal), ack.reconciliations[0], journal)
      ensures fault.Fine? && old(session).heartbeat.Some? && ack.message == old(session).heartbeat.value.message ==>
        session.heartbeat.None?
      ensures old(trouble).Calm? ==> trouble.Calm?
      ensures old(trouble).Calm? && old(session).heartbeat.Some? && Answers(ack, old(session).heartbeat.value)
              && ack.reconciliations == [] && old(journal).active.None? ==>
        && fault.Fine? && journal == old(journal).(pendingHeartbeat := None) && session.heartbeat.None? && session.settled == old(session).settled
        && startResponse == old(startResponse) && deferred == old(deferred) && workerRunning == old(workerRunning)
        && recovering == old(recovering) && draining == old(draining)
      ensures old(trouble).Calm? && old(session).heartbeat.Some? && Answers(ack, old(session).heartbeat.value)
              && |ack.reconciliations| == 1 && old(Announces(ack.reconciliations[0])) && !old(recovering) ==>
        && fault.Fine? && journal == AfterReconciliation(old(journal), ack.reconciliations[0]).(pendingHeartbeat := None)
        && startResponse.None? && deferred == old(deferred) && workerRunning == old(workerRunning) && !recovering
        && session.settled == old(session).settled
      ensures old(trouble).Calm? && old(session).heartbeat.Some? && Answers(ack, old(session).heartbeat.value)
              && |ack.reconciliations| == 1 && old(Ends(ack.reconciliations[0])) ==>
        && fault.Fine? && Unacknowledging(old(log), log)
        && journal == AfterReconciliation(old(journal), ack.reconciliations[0]).(pendingHeartbeat := None)
      ensures old(trouble).SyncFails? && old(session).heartbeat.Some? && Answers(ack, old(session).heartbeat.value)
              && |ack.reconciliations| == 1 && old(Ends(ack.reconciliations[0])) ==>
        && fault.Transient? && trouble.Calm? && journal == AfterReconciliation(old(journal), ack.reconciliations[0])
        && recovering == old(recovering) && deferred == old(deferred) && draining == old(draining) && workerRunning == old(workerRunning)
    {
      hide Disk, Consistent, OrderlySinceRestart;
      var current := session.heartbeat.Some? && ack.message == session.heartbeat.value.message;
      if !ack.valid || (!current && ack.message !in session.acknowledged) {
        return Fatal;
      }
      var heartbeat := if current then session.heartbeat.value else session.acknowledged[ack.message];
      if ack.sequence != heartbeat.sequence || |ack.reconciliations| != |heartbeat.leases| {
        return Fatal;
      }
      JournalIsOk();
      fault := ReconcileAll(heartbeat.leases, ack.reconciliations);
      if fault.Fine? {
        fault := FinishHeartbeat(current, heartbeat, now);
        if fault.Fine? && |ack.reconciliations| == 1 && ActiveMatchesIn(old(journal), ack.reconciliations[0].identity)
           && !Terminal(ack.reconciliations[0].status)
        {
          assert ack.reconciliations[..0] == [];
          OneProlongs(old(journal), ack.reconciliations[0], journal);
        }
      }
    }

    /** The heartbeat is answered, and the lease may have to move on. */
    method FinishHeartbeat(current: bool, heartbeat: Heartbeat, now: int) returns (fault: Fault)
      requires Ready()
      modifies this`journal, this`images, this`log, this`registry, this`startResponse, this`recovering, this`deferred,
               this`workerRunning, this`draining, this`session, this`trouble
      ensures After(fault) && !fault.Stuck? && old(log) <= log
      ensures fault.Fine? ==> session.reconciled && SameLease(old(journal).active, journal.active)
      ensures fault.Fine? && current ==> session.heartbeat.None?
      ensures session.settled == old(session).settled
      ensures old(trouble).Calm? ==> trouble.Calm?
      ensures old(trouble).Calm? && (old(journal).active.None? || (old(AwaitsCommand()) && !old(recovering))) ==>
        && fault.Fine? && journal == (if current then old(journal).(pendingHeartbeat := None) else old(journal))
        && deferred == old(deferred) && workerRunning == old(workerRunning) && recovering == old(recovering)
        && (old(startResponse).None? ==> startResponse.None?)
        && (old(journal).active.None? ==> startResponse == old(startResponse) && draining == old(draining))
      ensures old(journal).active.None? ==> Quiet(old(log), log)
    {
      hide Disk, Consistent, Session.Acknowledge, OrderlySinceRestart;
      fault := ForgetHeartbeat(current, heartbeat);
      if !fault.Fine? {
        return;
      }
      session := session.(reconciled := true);
      fault := Advance(now);
    }

    /** The acknowledgement answers this heartbeat, lease by lease. */
    predicate Answers(ack: HeartbeatAcknowledgement, heartbeat: Heartbeat) {
      && ack.valid && ack.message == heartbeat.message && ack.sequence == heartbeat.sequence
      && |ack.reconciliations| == |heartbeat.leases|
      && forall i :: 0 <= i < |heartbeat.leases| ==>
           ValidReconciliation(ack.reconciliations[i]) && ack.reconciliations[i].identity == heartbeat.leases[i]
    }

    /** The reconciliation announces the first cancellation of the active lease, without a command. */
    predicate Announces(r: Reconciliation)
      reads this`journal
    {
      && ActiveMatches(r.identity) && journal.active.value.cancellationId == "" && journal.active.value.cancellationDigest.None?
      && r.cancellationId != "" && !Terminal(r.status) && !r.hasUpload
    }

    /** The reconciliation ends the active lease. */
    predicate Ends(r: Reconciliation)
      reads this`journal
    {
      ActiveMatches(r.identity) && Terminal(r.status) && !r.hasUpload
    }

    /** The acknowledged heartbeat leaves the journal and is remembered. */
    method ForgetHeartbeat(current: bool, heartbeat: Heartbeat) returns (fault: Fault)
      requires Ready()
      modifies this`journal, this`images, this`log, this`session, this`trouble
      ensures After(fault) && !fault.Stuck? && Quiet(old(log), log)
      ensures fault.Fine? ==> journal == if current then old(journal).(pendingHeartbeat := None) else old(journal)
      ensures fault.Fine? && current ==> session.heartbeat.None?
      ensures !current ==> session == old(session)
      ensures session.settled == old(session).settled
      ensures old(trouble).Calm? ==> trouble.Calm? && fault.Fine?
    {
      hide Disk, Consistent;
      if !current {
        return Fine;
      }
      JournalIsOk();
      fault := UpdateAside(journal.(pendingHeartbeat := None));
      if fault.Fine? {
        session := session.Acknowledge(heartbeat);
      }
    }

    /** Each reconciliation must be valid and for the lease at its place; they apply one after the other. */
    method ReconcileAll(leases: seq<Identity>, reconciliations: seq<Reconciliation>) returns (fault: Fault)
      requires Ready() && |leases| == |reconciliations|
      modifies this`journal, this`images, this`log, this`startResponse, this`recovering, this`session, this`deferred,
               this`draining, this`trouble
      ensures Unacknowledging(old(log), log)
      ensures After(fault) && !fault.Stuck? && old(log) <= log
      ensures fault.Fine? ==> forall i :: 0 <= i < |leases| ==>
        ValidReconciliation(reconciliations[i]) && reconciliations[i].identity == leases[i]
      ensures fault.Fine? ==> journal == AfterAll(old(journal), reconciliations)
      ensures session.heartbeat == old(session).heartbeat
      ensures reconciliations == [] ==> fault.Fine? && unchanged(this)
      ensures old(trouble).Calm? ==> trouble.Calm? && draining == old(draining)
      ensures old(trouble).Calm? && |reconciliations| == 1 && ValidReconciliation(reconciliations[0])
              && reconciliations[0].identity == leases[0] && old(Announces(reconciliations[0])) ==>
        && fault.Fine? && startResponse.None? && recovering == old(recovering) && deferred == old(deferred)
        && session == old(session)
      ensures old(trouble).Calm? && |reconciliations| == 1 && ValidReconciliation(reconciliations[0])
              && reconciliations[0].identity == leases[0] && old(Ends(reconciliations[0])) ==>
        fault.Fine?
      ensures old(trouble).SyncFails? && |reconciliations| == 1 && ValidReconciliation(reconciliations[0])
              && reconciliations[0].identity == leases[0] && old(Ends(reconciliations[0])) ==>
        && fault.Transient? && trouble.Calm? && journal == AfterReconciliation(old(journal), reconciliations[0])
        && recovering == old(recovering) && deferred == old(deferred) && draining == old(draining)
    {
      hide Disk, Consistent, Session.Settle, OrderlySinceRestart;
      assert reconciliations[..0] == [];
      for i := 0 to |reconciliations|
        invariant Unacknowledging(old(log), log)
        invariant Ready() && old(log) <= log && session.heartbeat == old(session).heartbeat
        invariant forall k :: 0 <= k < i ==> ValidReconciliation(reconciliations[k]) && reconciliations[k].identity == leases[k]
        invariant journal == AfterAll(old(journal), reconciliations[..i])
        invariant i == 0 ==> unchanged(this)
        invariant old(trouble).Calm? ==> trouble.Calm? && draining == old(draining)
        invariant i == 1 && |reconciliations| == 1 && old(trouble).SyncFails? ==> !old(Ends(reconciliations[0]))
        invariant i == 1 && old(trouble).Calm? && old(Announces(reconciliations[0])) ==>
          startResponse.None? && recovering == old(recovering) && deferred == old(deferred) && session == old(session)
      {
        var r := reconciliations[i];
        if !ValidReconciliation(r) || leases[i] != r.identity {
          return Fatal;
        }
        assert reconciliations[..i + 1][..i] == reconciliations[..i];
        fault := ApplyLateReconciliation(r);
        if !fault.Fine? {
          return;
        }
      }
      assert reconciliations[..|reconciliations|] == reconciliations;
      fault := Fine;
    }

    /** A message that is not durable: authentication or capabilities.  Its id is synced with the whole journal. */
    method SendAside() returns (fault: Fault)
      requires Valid()
      modifies this`journal, this`images, this`log, this`trouble
      ensures After(fault) && !fault.Stuck? && Quiet(old(log), log)
      ensures !fault.Fatal? ==> journal == old(journal) || journal == old(journal).(messageSequence := old(journal).messageSequence + 1)
      ensures old(trouble).Calm? ==> trouble.Calm?
      ensures old(IsCalm()) ==> fault.Fine?
    {
      hide Disk, Consistent;
      var n;
      fault, n := NextMessage();
      if fault.Fine? {
        fault := Send();
      }
    }

    /** The two messages that open a session. */
    method Authenticate() returns (fault: Fault)
      requires Valid()
      modifies this`journal, this`images, this`log, this`trouble
      ensures After(fault) && !fault.Stuck? && Quiet(old(log), log)
      ensures !fault.Fatal? ==> journal == old(journal).(messageSequence := journal.messageSequence)
      ensures !fault.Fatal? ==> old(journal).messageSequence <= journal.messageSequence <= old(journal).messageSequence + 2
      ensures old(trouble).Calm? ==> trouble.Calm?
      ensures old(trouble).Calm? && old(journal).messageSequence + 2 <= MAX_SEQUENCE ==> fault.Fine?
    {
      hide Disk, Consistent;
      fault := SendAside();
      if fault.Fine? {
        fault := SendAside();
      }
    }

    /** A new session of the same process: two messages, the pending event unchanged, a heartbeat. */
    method Connect(duration: nat) returns (fault: Fault)
      requires Valid()
      modifies this`journal, this`images, this`log, this`session, this`trouble
      ensures After(fault) && !fault.Stuck? && Quiet(old(log), log)
      ensures !fault.Fatal? ==> journal.active == old(journal).active && journal.pending == old(journal).pending
      ensures !fault.Fatal? ==> journal.messageSequence <= old(journal).messageSequence + 3
      ensures !fault.Fatal? ==> journal.heartbeatSequence <= old(journal).heartbeatSequence + 1
      ensures fault.Fine? && journal.pending.Some? ==> exists i :: |old(log)| <= i < |log| && log[i] == Sent(journal.pending.value)
      ensures fault.Fine? ==> session.settled == map[] && !session.reconciled && session.leaseDuration == duration
      ensures fault.Fine? && old(journal).pendingHeartbeat.None? ==>
        session.heartbeat == journal.pendingHeartbeat && session.heartbeat.Some?
        && session.heartbeat.value.leases == OpenLeases(old(journal)) && journal.heartbeatSequence == old(journal).heartbeatSequence + 1
      ensures old(trouble).Calm? ==> trouble.Calm?
      ensures old(trouble).Calm? && old(journal).messageSequence + 3 <= MAX_SEQUENCE && old(journal).heartbeatSequence < MAX_SEQUENCE ==>
        fault.Fine?
    {
      hide Disk, Consistent;
      fault := Authenticate();
      if !fault.Fine? {
        return;
      }
      session := Session(duration, false, map[], [], None, false, map[], []);
      fault := ReplayPending();
      if fault.Fine? {
        ghost var last := |log| - 1;
        assert journal.pending.Some? ==> log[last] == Sent(journal.pending.value);
        fault := SendHeartbeat();
        assert fault.Fine? && journal.pending.Some? ==> log[last] == Sent(journal.pending.value);
      }
    }

    /** A worker asks for permission to start. */
    method WorkerAsks()
      requires Valid()
      modifies this`queue, this`calls
      ensures Valid()
      ensures alive > 0 ==> queue == old(queue) + [StartCall(old(calls))]
    {
      hide Disk, CleanSinceRestart, OrderlySinceRestart, HasAccepted, Adopted, WasCancelled, Current;
      if alive > 0 {
        queue := queue + [StartCall(calls)];
        calls := calls + 1;
      }
    }

    /** A worker ends; its result is the last thing it sends. */
    method WorkerEnds(cleanupFailed: bool)
      requires Valid()
      modifies this`queue, this`alive
      ensures Valid()
      ensures old(alive) > 0 ==> queue == old(queue) + [Result(cleanupFailed)] && alive == old(alive) - 1
    {
      hide Disk, CleanSinceRestart, OrderlySinceRestart, HasAccepted, Adopted, WasCancelled, Current;
      if alive > 0 {
        queue := queue + [Result(cleanupFailed)];
        alive := alive - 1;
      }
    }

    /** The session takes the oldest worker event. */
    method HandleNextWorkerEvent(now: int) returns (fault: Fault)
      requires Ready()
      modifies this`journal, this`images, this`log, this`registry, this`startResponse, this`deferred, this`workerRunning,
               this`draining, this`queue, this`trouble
      ensures After(fault) && !fault.Stuck? && old(log) <= log
      ensures old(queue) != [] ==> queue == old(queue)[1..]
      ensures old(queue) != [] && old(queue)[0].Result? && old(journal).pending.Some? && old(journal).active.Some? ==>
        && fault.Fine? && journal == old(journal) && deferred == old(deferred) + [old(queue)[0]]
        && startResponse == old(startResponse) && !workerRunning && draining == (old(draining) || old(queue)[0].cleanupFailed)
      ensures old(queue) != [] && old(queue)[0].StartCall? && old(journal).active.Some? && old(journal).pending.None?
              && old(journal).active.value.cancellationId == "" && fault.Fine? ==>
        && startResponse == Some(old(queue)[0].call) && deferred == old(deferred) && journal == Started(old(journal), old(queue)[0].call)
        && workerRunning == old(workerRunning) && draining == old(draining)
      ensures old(trouble).Calm? ==> trouble.Calm?
      ensures old(IsCalm()) ==> fault.Fine?
    {
      hide Disk, Consistent, OrderlySinceRestart;
      if |queue| == 0 {
        return Fine;
      }
      var event := PopQueue();
      fault := HandleWorkerEvent(event, now);
    }

    method PopQueue() returns (event: WorkerEvent)
      requires Ready() && |queue| > 0
      modifies this`queue
      ensures Ready() && event == old(queue)[0] && queue == old(queue)[1..]
      ensures FromOwnWorker(event)
    {
      hide Disk, CleanSinceRestart, OrderlySinceRestart, HasAccepted, Adopted, WasCancelled, Current;
      event := queue[0];
      queue := queue[1..];
    }

    /** A new process: everything but the disk is gone, and a job found there is only to be reported. */
    method Restart()
      requires Disk()
      modifies this
      ensures Valid() && old(log) <= log
      ensures recovering <==> journal.active.Some?
      ensures recovering ==> Adopted(log, journal.active.value.acceptance)
      ensures journal in old(images)
    {
      hide Disk, Consistent, Current, OrderlySinceRestart;
      var found := PickImage();
      journal := found;
      recovering := found.active.Some?;
      draining, workerRunning, alive, queue, deferred, startResponse := false, false, 0, [], [], None;
      RecordRestarted(found);
      RestartConsistent(found, old(log));
      assert log[|old(log)|] == Restarted(found);
    }

    ghost method RecordRestarted(found: JournalState)
      requires Disk() && found in images
      modifies this`log
      ensures Disk() && log == old(log) + [Restarted(found)] && Current(log) == Some(found)
    {
      hide Reachable, Safe, Current, Images, HasAccepted, Adopted;
      var e := Restarted(found);
      SafeStep(log, e);
      Grown(log, e);
      forall s | s in images {
        ReachableStays(log, e, s);
      }
      forall a: nat {
        HasAcceptedStep(log, e, a);
      }
      forall a: nat {
        AdoptedStep(log, e, a);
      }
      log := log + [e];
    }

    /** The journal file as the new process finds it. */
    method PickImage() returns (found: JournalState)
      requires Disk()
      ensures found in images && (found.active.Some? ==> found.active.value.acceptance < nextAcceptance)
    {
      found :| found in images;
      assert StateOk(found);
    }

    lemma RestartConsistent(found: JournalState, past: Log)
      requires Idle(None) && recovering == found.active.Some?
      ensures Consistent(found, past + [Restarted(found)], None)
    {
      hide CleanSinceRestart, OrderlySinceRestart, WasCancelled, HasAccepted, Adopted, Current, Images;
      Grown(past, Restarted(found));
    }

    constructor (hasWorker: bool)
      ensures Valid() && this.hasWorker == hasWorker && journal == JournalState(0, 0, None, None, None)
      ensures !draining && !recovering && !workerRunning && alive == 0 && startResponse.None? && deferred == [] && queue == []
      ensures trouble.Any?
    {
      this.hasWorker := hasWorker;
      trouble := Any;
      var empty := JournalState(0, 0, None, None, None);
      journal, images := empty, {empty};
      draining, recovering, workerRunning, alive := false, false, false, 0;
      startResponse, deferred, queue, calls := None, [], [], 0;
      session := Session(0, false, map[], [], None, false, map[], []);
      log, nextAcceptance, registry := [Synced(empty)], 0, map[];
    }
  }
}
