/**
 * Observers, flushes and the single writer of a restart evidence store, under every interleaving.
 * Each step is one critical section; the writer holds a batch between its steps.
 */
module EvidenceQueue {
  import opened Bytes
  import opened EvidenceDisk

  const QUEUE_DEPTH: nat := 256
  const MAXIMUM_PENDING_BYTES: nat := 1024 * 1024

  /** Last stands for the batch the writer takes after the queue was closed and drained. */
  datatype Command = Wake | Flush(ticket: nat) | Last

  /**
   * Bytes on the two streams, the marks that some of them were redacted, and the usage reports: their number
   * and the highest processor time.
   */
  datatype Batch = Batch(stdout: Text, stderr: Text, stdoutRedacted: bool, stderrRedacted: bool, usages: nat, cpuTime: nat)

  const NOTHING := Batch([], [], false, false, 0, 0)

  /** What an observer brings. */
  datatype Observation = Log(stream: Stream, data: Text, redacted: bool) | Usage(cpuTime: int)

  function EntryOf(o: Observation): Batch {
    match o
    case Log(Stdout, data, redacted) => NOTHING.(stdout := data, stdoutRedacted := redacted)
    case Log(Stderr, data, redacted) => NOTHING.(stderr := data, stderrRedacted := redacted)
    case Usage(cpuTime) => NOTHING.(usages := 1, cpuTime := Max(0, cpuTime))
  }

  function Joined(a: Batch, b: Batch): Batch {
    Batch(a.stdout + b.stdout, a.stderr + b.stderr, a.stdoutRedacted || b.stdoutRedacted, a.stderrRedacted || b.stderrRedacted,
          a.usages + b.usages, Max(a.cpuTime, b.cpuTime))
  }

  /** Where the writer is. */
  datatype Writer =
    | Waiting
    | Took(command: Command)
    | Holding(command: Command, batch: Batch)
    | Writing(command: Command, batch: Batch)
    | Finished

  /** A flush, with what had been observed when it was asked for. */
  datatype Ticket = Ticket(seen: Batch, onOpenStore: bool, answer: Answer)

  datatype Answer = Open | Succeeded | Failed

  datatype Store = Store(
    closed: bool, overflow: bool, pending: Batch, scheduled: bool, commands: seq<Command>,
    writer: Writer, failed: bool, saved: Batch, seen: Batch, tickets: seq<Ticket>)

  /** One step of some thread.  An observation is refused only by the store itself. */
  datatype Step =
    | Observe(observation: Observation)
    | AskFlush
    | Close
    | Receive
    | Take
    | Check
    | Write(kept: nat, ok: bool)

  function PendingBytes(b: Batch): nat {
    |b.stdout| + |b.stderr|
  }

  /** Grows with every observation. */
  function Size(b: Batch): nat {
    PendingBytes(b) + b.usages
  }

  const EMPTY := Store(false, false, NOTHING, false, [], Waiting, false, NOTHING, NOTHING, [])

  /** An entry reaches the pending buffer exactly when the store is open and the buffer has room for its bytes. */
  predicate Keeps(s: Store, o: Observation) {
    !s.closed && (o.Usage? || PendingBytes(s.pending) + |o.data| <= MAXIMUM_PENDING_BYTES)
  }

  /** The buffers after one observation. */
  function Enqueued(s: Store, o: Observation): Store {
    if s.closed then s.(overflow := true)
    else if Keeps(s, o) then Woken(s.(pending := Joined(s.pending, EntryOf(o))))
    else Woken(s.(overflow := true))
  }

  /** Makes sure that the writer has a command to come. */
  function Woken(s: Store): Store {
    if s.scheduled then s
    else if |s.commands| < QUEUE_DEPTH then s.(commands := s.commands + [Wake], scheduled := true)
    else s.(overflow := true)
  }

  /** The store answers whoever asked for the batch just handled, and waits for the next command. */
  function Answered(s: Store, command: Command): Store {
    match command
    case Wake => s.(writer := Waiting)
    case Last => s.(writer := Finished)
    case Flush(t) =>
      if t >= |s.tickets| then s.(writer := Waiting)
      else s.(writer := Waiting, tickets := s.tickets[t := s.tickets[t].(answer := if s.failed then Failed else Succeeded)])
  }

  /** A write keeps nothing, the first stream, both streams or all; it succeeds only with all. */
  function Written(s: Store, batch: Batch, kept: nat, ok: bool): Store {
    var saved := if kept == 0 then s.saved
                 else if kept == 1 then Joined(s.saved, batch.(stderr := [], stderrRedacted := false, usages := 0, cpuTime := 0))
                 else if kept == 2 then Joined(s.saved, batch.(usages := 0, cpuTime := 0))
                 else Joined(s.saved, batch);
    s.(saved := saved, failed := !ok)
  }

  predicate Enabled(s: Store, step: Step) {
    match step
    case Observe(o) => o.Log? ==> o.data != []
    case AskFlush => s.closed || |s.commands| < QUEUE_DEPTH
    case Close => true
    case Receive => s.writer.Waiting? && (s.commands != [] || s.closed)
    case Take => s.writer.Took?
    case Check => s.writer.Holding?
    case Write(kept, ok) => s.writer.Writing? && kept <= 3 && (ok ==> kept == 3)
  }

  function Next(s: Store, step: Step): Store
    requires Enabled(s, step)
  {
    match step
    case Observe(o) => Enqueued(s, o).(seen := Joined(s.seen, EntryOf(o)))
    case AskFlush =>
      if s.closed then s.(tickets := s.tickets + [Ticket(s.seen, false, if s.failed then Failed else Succeeded)])
      else s.(commands := s.commands + [Flush(|s.tickets|)], tickets := s.tickets + [Ticket(s.seen, true, Open)])
    case Close => s.(closed := true)
    case Receive =>
      if s.commands == [] then s.(writer := Took(Last))
      else s.(writer := Took(s.commands[0]), commands := s.commands[1..])
    case Take => s.(writer := Holding(s.writer.command, s.pending), pending := NOTHING, scheduled := false)
    case Check =>
      var t := if s.overflow then s.(failed := true) else s;
      if t.failed then Answered(t, s.writer.command) else s.(writer := Writing(s.writer.command, s.writer.batch))
    case Write(kept, ok) => Answered(Written(s, s.writer.batch, kept, ok), s.writer.command)
  }

  /** The state after a whole run, and whether every step of it could be taken. */
  ghost predicate Run(s: Store, steps: seq<Step>, t: Store)
    decreases |steps|
  {
    if steps == [] then s == t
    else Enabled(s, steps[0]) && Run(Next(s, steps[0]), steps[1..], t)
  }

  ghost predicate Reachable(s: Store) {
    exists steps :: Run(EMPTY, steps, s)
  }

  /** a is an initial part of b, on both streams, and no redaction mark of a is missing in b. */
  ghost predicate PartOf(a: Batch, b: Batch) {
    && a.stdout <= b.stdout && a.stderr <= b.stderr
    && (a.stdoutRedacted ==> b.stdoutRedacted) && (a.stderrRedacted ==> b.stderrRedacted) && a.usages <= b.usages && a.cpuTime <= b.cpuTime
  }

  function Held(w: Writer): Batch {
    if w.Holding? || w.Writing? then w.batch else NOTHING
  }

  predicate Working(w: Writer) {
    w.Took? || w.Holding? || w.Writing?
  }

  /** The writer is working for this flush. */
  ghost predicate WorksFor(w: Writer, ticket: nat) {
    Working(w) && w.command == Flush(ticket)
  }

  /** Nothing that was observed is missing, and nothing comes twice or out of order. */
  ghost predicate Complete(s: Store) {
    s.seen == Joined(Joined(s.saved, Held(s.writer)), s.pending)
  }

  ghost predicate Queue(s: Store) {
    && (s.writer.Writing? ==> !s.failed)
    && (s.writer.Finished? || (Working(s.writer) && s.writer.command.Last?) ==> s.closed)
    && ((s.writer.Finished? || ((s.writer.Holding? || s.writer.Writing?) && s.writer.command.Last?)) ==> s.pending == NOTHING)
    && (forall i :: 0 <= i < |s.commands| ==>
          !s.commands[i].Last? && (s.commands[i].Flush? ==> s.commands[i].ticket < |s.tickets|))
    && (Working(s.writer) && s.writer.command.Flush? ==> s.writer.command.ticket < |s.tickets|)
  }

  ghost predicate Conserved(s: Store) {
    && PartOf(s.saved, s.seen)
    && (!s.overflow && !s.failed ==> Complete(s))
    && (s.writer.Writing? ==> PartOf(Joined(s.saved, s.writer.batch), s.seen))
  }

  /** What a flush is promised, as long as it can still succeed. */
  ghost predicate Promise(s: Store, t: nat)
    requires t < |s.tickets|
  {
    && PartOf(s.tickets[t].seen, s.seen)
    && (s.tickets[t].onOpenStore && s.tickets[t].answer == Succeeded ==> PartOf(s.tickets[t].seen, s.saved))
    && (WorksFor(s.writer, t) && s.writer.Holding? && !s.overflow && !s.failed ==>
          PartOf(s.tickets[t].seen, Joined(s.saved, s.writer.batch)))
    && (WorksFor(s.writer, t) && s.writer.Writing? ==> PartOf(s.tickets[t].seen, Joined(s.saved, s.writer.batch)))
  }

  ghost predicate Invariant(s: Store) {
    Queue(s) && Conserved(s) && forall t :: 0 <= t < |s.tickets| ==> Promise(s, t)
  }

  lemma JoinedLaws(a: Batch, b: Batch, c: Batch)
    ensures Joined(Joined(a, b), c) == Joined(a, Joined(b, c))
    ensures Joined(a, NOTHING) == a && Joined(NOTHING, a) == a
    ensures PartOf(a, a) && PartOf(a, Joined(a, b))
    ensures PartOf(a, b) ==> PartOf(a, Joined(b, c))
    ensures PartOf(a, b) && PartOf(b, c) ==> PartOf(a, c)
  {
  }

  /** An observation changes only the buffers, and loses nothing unless it sets the overflow mark. */
  lemma EnqueuedLosesNothing(s: Store, o: Observation)
    ensures var t := Enqueued(s, o);
      && t == s.(overflow := t.overflow, pending := t.pending, scheduled := t.scheduled, commands := t.commands)
      && (s.overflow ==> t.overflow)
      && (!t.overflow ==> t.pending == Joined(s.pending, EntryOf(o)))
      && (!Keeps(s, o) ==> t.overflow && t.pending == s.pending)
      && (t.commands == s.commands || t.commands == s.commands + [Wake])
  {
  }

  /** Answering changes only the writer's place and the answer of its own flush. */
  lemma AnsweredTellsOne(s: Store, command: Command)
    ensures var t := Answered(s, command);
      && t == s.(writer := t.writer, tickets := t.tickets) && !Working(t.writer)
      && (t.writer.Finished? <==> command.Last?)
      && |t.tickets| == |s.tickets|
      && forall i :: 0 <= i < |s.tickets| ==>
           t.tickets[i] == if command == Flush(i) then s.tickets[i].(answer := if s.failed then Failed else Succeeded) else s.tickets[i]
  {
  }

  lemma QueueStep(s: Store, step: Step)
    requires Queue(s) && Enabled(s, step)
    ensures Queue(Next(s, step))
  {
    hide Enqueued, Answered, Joined;
    match step
    case Observe(o) =>
      EnqueuedLosesNothing(s, o);
    case Check =>
      AnsweredTellsOne(s.(failed := true), s.writer.command);
      AnsweredTellsOne(s, s.writer.command);
    case Write(kept, ok) =>
      AnsweredTellsOne(Written(s, s.writer.batch, kept, ok), s.writer.command);
    case Receive =>
      assert s.commands == [] || !s.commands[0].Last?;
      assert forall i :: 0 <= i < |s.commands| - 1 ==> s.commands[1..][i] == s.commands[i + 1];
    case _ =>
  }

  lemma ConservedStep(s: Store, step: Step)
    requires Queue(s) && Conserved(s) && Enabled(s, step)
    ensures Conserved(Next(s, step))
  {
    hide Enqueued, Answered, Joined, PartOf;
    match step
    case Observe(o) =>
      EnqueuedLosesNothing(s, o);
      JoinedLaws(Joined(s.saved, Held(s.writer)), s.pending, EntryOf(o));
      JoinedLaws(s.saved, s.seen, EntryOf(o));
      JoinedLaws(Joined(s.saved, Held(s.writer)), s.seen, EntryOf(o));
    case Take =>
      JoinedLaws(s.saved, s.pending, NOTHING);
      JoinedLaws(Joined(s.saved, s.pending), NOTHING, NOTHING);
    case Check =>
      AnsweredTellsOne(s.(failed := true), s.writer.command);
      AnsweredTellsOne(s, s.writer.command);
      JoinedLaws(Joined(s.saved, s.writer.batch), s.pending, NOTHING);
    case Write(kept, ok) =>
      AnsweredTellsOne(Written(s, s.writer.batch, kept, ok), s.writer.command);
      WrittenIsPart(s, kept, ok);
    case _ =>
  }

  /** A flush stays promised what it was asked for. */
  lemma PromiseStep(s: Store, step: Step, t: nat)
    requires Invariant(s) && Enabled(s, step) && t < |s.tickets|
    ensures t < |Next(s, step).tickets| && Promise(Next(s, step), t)
  {
    hide Enqueued, Answered, Joined, PartOf;
    var asked := s.tickets[t].seen;
    assert Promise(s, t);
    match step
    case Observe(o) =>
      EnqueuedLosesNothing(s, o);
      JoinedLaws(asked, s.seen, EntryOf(o));
    case Take =>
      JoinedLaws(s.saved, s.pending, NOTHING);
    case Check =>
      AnsweredTellsOne(s.(failed := true), s.writer.command);
      AnsweredTellsOne(s, s.writer.command);
    case Write(kept, ok) =>
      var after := Written(s, s.writer.batch, kept, ok);
      AnsweredTellsOne(after, s.writer.command);
      WrittenIsPart(s, kept, ok);
      JoinedLaws(asked, s.saved, after.saved);
    case _ =>
  }

  lemma WrittenIsPart(s: Store, kept: nat, ok: bool)
    requires ok ==> kept == 3
    requires s.writer.Writing? && PartOf(s.saved, s.seen) && PartOf(Joined(s.saved, s.writer.batch), s.seen)
    ensures PartOf(Written(s, s.writer.batch, kept, ok).saved, s.seen)
    ensures PartOf(s.saved, Written(s, s.writer.batch, kept, ok).saved)
    ensures Joined(Joined(s.saved, s.writer.batch), NOTHING) == Joined(s.saved, s.writer.batch)
  {
  }

  /** Only a new flush adds a ticket, and nobody works for it yet. */
  lemma NewTicket(s: Store, step: Step)
    requires Queue(s) && Enabled(s, step)
    ensures |Next(s, step).tickets| == if step.AskFlush? then |s.tickets| + 1 else |s.tickets|
    ensures step.AskFlush? ==> (s.closed ==> !Next(s, step).tickets[|s.tickets|].onOpenStore) && Promise(Next(s, step), |s.tickets|)
  {
    hide Enqueued, Answered, Joined, PartOf;
    match step
    case Observe(o) =>
      EnqueuedLosesNothing(s, o);
    case Check =>
      AnsweredTellsOne(s.(failed := true), s.writer.command);
      AnsweredTellsOne(s, s.writer.command);
    case Write(kept, ok) =>
      AnsweredTellsOne(Written(s, s.writer.batch, kept, ok), s.writer.command);
    case AskFlush =>
      JoinedLaws(s.seen, NOTHING, NOTHING);
    case _ =>
  }

  lemma InvariantStep(s: Store, step: Step)
    requires Invariant(s) && Enabled(s, step)
    ensures Invariant(Next(s, step))
  {
    hide Next, Promise, Conserved;
    QueueStep(s, step);
    ConservedStep(s, step);
    NewTicket(s, step);
    forall t | 0 <= t < |s.tickets| {
      PromiseStep(s, step, t);
    }
  }

  /** The invariant holds after every run. */
  lemma {:induction false} RunKeepsInvariant(s: Store, steps: seq<Step>, t: Store)
    requires Invariant(s) && Run(s, steps, t)
    ensures Invariant(t)
    decreases |steps|
  {
    hide Next, Invariant;
    if steps != [] {
      InvariantStep(s, steps[0]);
      RunKeepsInvariant(Next(s, steps[0]), steps[1..], t);
    }
  }

  /** The writer has looked at the overflow mark for the last time. */
  predicate LastCheckDone(w: Writer) {
    w.Finished? || (w.Writing? && w.command.Last?)
  }

  /** After the last check, the overflow mark is set exactly when an entry was lost. */
  ghost predicate LateDrops(s: Store) {
    LastCheckDone(s.writer) && !s.failed ==>
      (s.overflow <==> Size(s.seen) > Size(Joined(s.saved, Held(s.writer))))
  }

  lemma LateDropsStep(s: Store, step: Step)
    requires Queue(s) && Conserved(s) && LateDrops(s) && Enabled(s, step)
    ensures LateDrops(Next(s, step))
  {
    hide Enqueued, Answered;
    match step
    case Observe(o) =>
      EnqueuedLosesNothing(s, o);
    case Check =>
      AnsweredTellsOne(s.(failed := true), s.writer.command);
      AnsweredTellsOne(s, s.writer.command);
    case Write(kept, ok) =>
      AnsweredTellsOne(Written(s, s.writer.batch, kept, ok), s.writer.command);
    case _ =>
  }

  lemma {:induction false} RunKeepsLateDrops(s: Store, steps: seq<Step>, t: Store)
    requires Invariant(s) && LateDrops(s) && Run(s, steps, t)
    ensures LateDrops(t)
    decreases |steps|
  {
    hide Next, Queue, Conserved, Promise, LateDrops;
    if steps != [] {
      InvariantStep(s, steps[0]);
      LateDropsStep(s, steps[0]);
      RunKeepsLateDrops(Next(s, steps[0]), steps[1..], t);
    }
  }

  lemma EmptyStore()
    ensures Invariant(EMPTY) && LateDrops(EMPTY)
  {
    JoinedLaws(NOTHING, NOTHING, NOTHING);
    hide Joined, PartOf;
  }

  lemma ReachableInvariant(s: Store)
    requires Reachable(s)
    ensures Invariant(s) && LateDrops(s)
  {
    hide Run, Invariant, LateDrops;
    EmptyStore();
    var steps :| Run(EMPTY, steps, s);
    RunKeepsInvariant(EMPTY, steps, s);
    RunKeepsLateDrops(EMPTY, steps, s);
  }

  /** Under every interleaving, what is committed is an initial part of what was observed. */
  lemma CommittedIsPrefix(s: Store)
    requires Reachable(s)
    ensures PartOf(s.saved, s.seen)
  {
    hide Reachable;
    ReachableInvariant(s);
  }

  /** A flush that succeeds on an open store has committed every byte observed before it was asked for. */
  lemma FlushCommitsEverything(s: Store, t: nat)
    requires Reachable(s) && t < |s.tickets|
    requires s.tickets[t].onOpenStore && s.tickets[t].answer == Succeeded
    ensures PartOf(s.tickets[t].seen, s.saved)
  {
    hide Reachable;
    ReachableInvariant(s);
    assert Promise(s, t);
  }

  /** A store that closed without failing holds everything exactly when no entry came too late. */
  lemma CloseCommitsEverything(s: Store)
    requires Reachable(s) && s.writer.Finished? && !s.failed
    ensures s.saved == s.seen <==> !s.overflow
  {
    hide Reachable, Joined, PartOf, Promise;
    ReachableInvariant(s);
    JoinedLaws(s.saved, NOTHING, NOTHING);
    assert Held(s.writer) == NOTHING == s.pending;
  }

  /** The store has failed, or will at the writer's next check. */
  ghost predicate Doomed(s: Store) {
    s.failed || (s.overflow && !LastCheckDone(s.writer))
  }

  lemma DoomedStep(s: Store, step: Step)
    requires Queue(s) && Doomed(s) && Enabled(s, step)
    ensures Doomed(Next(s, step))
    ensures !s.writer.Writing? ==> Next(s, step).saved == s.saved && !Next(s, step).writer.Writing?
  {
    hide Enqueued, Answered, Joined;
    match step
    case Observe(o) =>
      EnqueuedLosesNothing(s, o);
    case Check =>
      AnsweredTellsOne(s.(failed := true), s.writer.command);
      AnsweredTellsOne(s, s.writer.command);
    case Write(kept, ok) =>
      AnsweredTellsOne(Written(s, s.writer.batch, kept, ok), s.writer.command);
    case _ =>
  }

  lemma {:induction false} DoomedForGood(s: Store, steps: seq<Step>, t: Store)
    requires Queue(s) && Doomed(s) && Run(s, steps, t)
    ensures Queue(t) && Doomed(t)
    ensures !s.writer.Writing? ==> t.saved == s.saved
    decreases |steps|
  {
    hide Next, Queue, Doomed;
    if steps != [] {
      QueueStep(s, steps[0]);
      DoomedStep(s, steps[0]);
      DoomedForGood(Next(s, steps[0]), steps[1..], t);
    }
  }

  /** No flush of an open store from number n on has succeeded, or is about to. */
  ghost predicate NoneSucceeds(s: Store, n: nat) {
    && (forall t :: n <= t < |s.tickets| && s.tickets[t].onOpenStore ==> s.tickets[t].answer != Succeeded)
    && (s.writer.Writing? && s.writer.command.Flush? ==> s.writer.command.ticket < n)
  }

  lemma NoneSucceedsStep(s: Store, step: Step, n: nat)
    requires Queue(s) && Doomed(s) && NoneSucceeds(s, n) && Enabled(s, step)
    ensures NoneSucceeds(Next(s, step), n)
  {
    hide Enqueued, Answered, Joined;
    match step
    case Observe(o) =>
      EnqueuedLosesNothing(s, o);
    case Check =>
      AnsweredTellsOne(s.(failed := true), s.writer.command);
      AnsweredTellsOne(s, s.writer.command);
    case Write(kept, ok) =>
      AnsweredTellsOne(Written(s, s.writer.batch, kept, ok), s.writer.command);
    case _ =>
  }

  lemma {:induction false} NoneEverSucceeds(s: Store, steps: seq<Step>, t: Store, n: nat)
    requires Queue(s) && Doomed(s) && NoneSucceeds(s, n) && Run(s, steps, t)
    ensures NoneSucceeds(t, n)
    decreases |steps|
  {
    hide Next, Queue, Doomed, NoneSucceeds;
    if steps != [] {
      QueueStep(s, steps[0]);
      DoomedStep(s, steps[0]);
      NoneSucceedsStep(s, steps[0], n);
      NoneEverSucceeds(Next(s, steps[0]), steps[1..], t, n);
    }
  }

  /**
   * An entry dropped before the writer's last check, in particular on an open store, fails the store for
   * good: it has failed by the time the writer is done, and no flush asked for afterwards succeeds.
   */
  lemma DroppedEntryFailsStore(s: Store, o: Observation, steps: seq<Step>, t: Store)
    requires Reachable(s) && Enabled(s, Observe(o)) && !Keeps(s, o) && !LastCheckDone(s.writer)
    requires Run(Next(s, Observe(o)), steps, t)
    ensures t.writer.Finished? ==> t.failed
    ensures forall i :: |s.tickets| <= i < |t.tickets| && t.tickets[i].onOpenStore ==> t.tickets[i].answer != Succeeded
  {
    hide Reachable;
    ReachableInvariant(s);
    var dropped := Next(s, Observe(o));
    EnqueuedLosesNothing(s, o);
    QueueStep(s, Observe(o));
    DoomedForGood(dropped, steps, t);
    NoneEverSucceeds(dropped, steps, t, |s.tickets|);
  }

  /** An open store still has a check to come. */
  lemma OpenStoreChecksAgain(s: Store)
    requires Reachable(s) && !s.closed
    ensures !LastCheckDone(s.writer)
  {
    hide Reachable;
    ReachableInvariant(s);
  }

  /** The other way round: after the last check, every entry is dropped and the store need not fail. */
  lemma LateDropGoesUnnoticed(s: Store, o: Observation) returns (steps: seq<Step>, t: Store)
    requires Reachable(s) && Enabled(s, Observe(o)) && LastCheckDone(s.writer) && !s.failed
    ensures !Keeps(s, o)
    ensures Run(s, [Observe(o)] + steps, t)
    ensures t.writer.Finished? && !t.failed && t.saved != t.seen
  {
    hide Reachable;
    ReachableInvariant(s);
    var step := Observe(o);
    var dropped := Next(s, step);
    EnqueuedLosesNothing(s, o);
    LateDropsStep(s, step);
    steps := if s.writer.Writing? then [Write(3, true)] else [];
    t := if s.writer.Writing? then Next(dropped, Write(3, true)) else dropped;
    assert steps != [] ==> steps[1..] == [] && Run(t, steps[1..], t);
    assert ([step] + steps)[1..] == steps;
    assert Run(dropped, steps, t);
  }

  /** A flush of a closed store does not wait for the writer: it can succeed with nothing committed. */
  lemma ClosedFlushDoesNotWait(data: Text) returns (steps: seq<Step>, t: Store)
    requires data != [] && |data| <= MAXIMUM_PENDING_BYTES
    ensures Run(EMPTY, steps, t) && |t.tickets| == 1 && t.tickets[0].answer == Succeeded
    ensures t.tickets[0].seen.stdout == data && t.saved == NOTHING
  {
    var first := Next(EMPTY, Observe(Log(Stdout, data, false)));
    var second := Next(first, Close);
    t := Next(second, AskFlush);
    steps := [Observe(Log(Stdout, data, false)), Close, AskFlush];
    assert Run(second, [AskFlush], t) by {
      assert [AskFlush][1..] == [];
    }
    assert Run(first, [Close, AskFlush], t) by {
      assert [Close, AskFlush][1..] == [AskFlush];
    }
    assert steps[1..] == [Close, AskFlush];
  }

  lemma JoinedStream(b: Batch, stream: Stream, data: Text, redacted: bool)
    ensures Joined(b, EntryOf(Log(stream, data, redacted))) ==
      if stream == Stdout then b.(stdout := b.stdout + data, stdoutRedacted := b.stdoutRedacted || redacted)
      else b.(stderr := b.stderr + data, stderrRedacted := b.stderrRedacted || redacted)
  {
  }

  /** The buffers shared by observers and the writer. */
  class Buffers {
    var closed: bool
    var overflow: bool
    var scheduled: bool
    var stdout: Text
    var stderr: Text
    var stdoutRedacted: bool
    var stderrRedacted: bool
    var usageObserved: bool
    var cpuTime: int
    var bytes: nat
    var commands: seq<Command>

    ghost predicate Represents(s: Store)
      reads this
    {
      && closed == s.closed && overflow == s.overflow && scheduled == s.scheduled && commands == s.commands
      && 0 <= cpuTime && Batch(stdout, stderr, stdoutRedacted, stderrRedacted, s.pending.usages, cpuTime) == s.pending
      && (stdoutRedacted ==> stdout != []) && (stderrRedacted ==> stderr != []) && (!usageObserved ==> cpuTime == 0)
      && bytes == PendingBytes(s.pending) && usageObserved == (s.pending.usages > 0)
    }

    /** Wakes the writer, unless a command is on its way already. */
    method Wake(ghost s: Store)
      requires Represents(s)
      modifies this`commands, this`scheduled, this`overflow
      ensures Represents(Woken(s))
    {
      if !scheduled {
        if |commands| < QUEUE_DEPTH {
          commands, scheduled := commands + [Command.Wake], true;
        } else {
          overflow := true;
        }
      }
    }

    /** Adds the bytes of one stream. */
    method Keep(stream: Stream, data: Text, redacted: bool, ghost s: Store)
      requires Represents(s) && data != []
      modifies this`stdout, this`stderr, this`stdoutRedacted, this`stderrRedacted, this`bytes
      ensures Represents(s.(pending := Joined(s.pending, EntryOf(Log(stream, data, redacted)))))
    {
      hide Joined;
      JoinedStream(s.pending, stream, data, redacted);
      if stream == Stdout {
        stdout, stdoutRedacted := stdout + data, stdoutRedacted || redacted;
      } else {
        stderr, stderrRedacted := stderr + data, stderrRedacted || redacted;
      }
      bytes := bytes + |data|;
    }

    /** An observation: buffered and the writer woken, or refused with the overflow mark. */
    method Enqueue(o: Observation, ghost s: Store)
      requires Represents(s) && (o.Log? ==> o.data != [])
      modifies this
      ensures Represents(Enqueued(s, o))
    {
      hide Woken;
      if closed {
        overflow := true;
        return;
      }
      if o.Usage? {
        assert stdout + [] == stdout && stderr + [] == stderr;
        cpuTime, usageObserved := Max(cpuTime, o.cpuTime), true;
        Wake(s.(pending := Joined(s.pending, EntryOf(o))));
      } else if |o.data| > MAXIMUM_PENDING_BYTES - bytes {
        overflow := true;
        Wake(s.(overflow := true));
      } else {
        Keep(o.stream, o.data, o.redacted, s);
        Wake(s.(pending := Joined(s.pending, EntryOf(o))));
      }
    }

    /** The writer takes everything that is pending. */
    method TakePending(ghost s: Store)
      returns (out: Text, err: Text, outRedacted: bool, errRedacted: bool, observed: bool, cpu: int)
      requires Represents(s)
      modifies this`stdout, this`stderr, this`stdoutRedacted, this`stderrRedacted, this`bytes, this`scheduled,
               this`usageObserved, this`cpuTime
      ensures 0 <= cpu && s.pending == Batch(out, err, outRedacted, errRedacted, s.pending.usages, cpu)
      ensures observed == (s.pending.usages > 0) && (outRedacted ==> out != []) && (errRedacted ==> err != [])
      ensures !observed ==> cpu == 0
      ensures Represents(s.(pending := NOTHING, scheduled := false))
    {
      out, err, outRedacted, errRedacted, observed, cpu := stdout, stderr, stdoutRedacted, stderrRedacted, usageObserved, cpuTime;
      stdout, stderr, stdoutRedacted, stderrRedacted, bytes, scheduled := [], [], false, false, 0, false;
      usageObserved, cpuTime := false, 0;
    }
  }

  /** The store on disk agrees with the model on what is committed. */
  ghost predicate Mirrors(store: EvidenceStore, s: Store)
    reads store
  {
    && store.Retains() && (store.Clean() || store.failed)
    && store.failed == s.failed
    && store.hashed == Version(s.saved.stdout, s.saved.stderr)
    && store.metadata.redacted == (s.saved.stdoutRedacted || s.saved.stderrRedacted)
    && s.saved.cpuTime <= store.metadata.cpuTime
    && (!store.failed ==> store.metadata.usageObserved == (s.saved.usages > 0) && store.metadata.cpuTime == s.saved.cpuTime)
  }

  /** A new store mirrors the empty model. */
  method CreateStore(hash: Text -> int, identity: int, healthy: bool) returns (store: EvidenceStore)
    ensures fresh(store) && store.healthy == healthy && Mirrors(store, EMPTY)
  {
    store := new EvidenceStore.Create(hash, identity, healthy);
  }

  /** How much of a batch reached the store. */
  ghost function KeptParts(before: Version, after: Version, batch: Batch, ok: bool): nat {
    if ok then 3
    else if after == AfterBatch(before, batch.stdout, batch.stderr) then 2
    else if after == Extended(before, Stdout, batch.stdout) then 1
    else 0
  }

  lemma WrittenVersion(s: Store, batch: Batch, before: Version, after: Version, ok: bool)
    requires before == Version(s.saved.stdout, s.saved.stderr)
    requires after in BatchVersions(before, batch.stdout, batch.stderr)
    requires ok ==> after == AfterBatch(before, batch.stdout, batch.stderr)
    requires (batch.stdoutRedacted ==> batch.stdout != []) && (batch.stderrRedacted ==> batch.stderr != [])
    ensures KeptParts(before, after, batch, ok) <= 3 && (ok ==> KeptParts(before, after, batch, ok) == 3)
    ensures var saved := Written(s, batch, KeptParts(before, after, batch, ok), ok).saved;
      && after == Version(saved.stdout, saved.stderr)
      && ((saved.stdoutRedacted || saved.stderrRedacted) <==>
            s.saved.stdoutRedacted || s.saved.stderrRedacted || Marks(before, after, batch.stdoutRedacted, batch.stderrRedacted))
      && saved.usages == s.saved.usages + (if ok then batch.usages else 0)
      && saved.cpuTime == Max(s.saved.cpuTime, if ok then batch.cpuTime else 0)
  {
    assert s.saved.stderr + [] == s.saved.stderr;
  }

  /** The writer has answered its command, after steps that changed only the given fields. */
  ghost predicate Rounded(s: Store, steps: seq<Step>, t: Store, saved: Batch, failed: bool) {
    && s.writer.Holding? && Run(s, steps, t) && !Working(t.writer)
    && t == s.(writer := t.writer, tickets := t.tickets, failed := failed, saved := saved)
    && (s.writer.command.Flush? && s.writer.command.ticket < |t.tickets| ==>
          t.tickets[s.writer.command.ticket].answer == if failed then Failed else Succeeded)
  }

  lemma CheckFails(s: Store) returns (steps: seq<Step>, t: Store)
    requires s.writer.Holding? && (s.failed || s.overflow)
    ensures Rounded(s, steps, t, s.saved, true)
  {
    hide Answered;
    steps, t := [Check], Next(s, Check);
    assert steps[1..] == [];
    AnsweredTellsOne(s.(failed := true), s.writer.command);
    AnsweredTellsOne(s, s.writer.command);
  }

  lemma CheckThenWrite(s: Store, kept: nat, ok: bool) returns (steps: seq<Step>, t: Store)
    requires s.writer.Holding? && !s.failed && !s.overflow && kept <= 3 && (ok ==> kept == 3)
    ensures Rounded(s, steps, t, Written(s, s.writer.batch, kept, ok).saved, !ok)
  {
    hide Answered, Joined;
    var checked, write := Next(s, Check), Write(kept, ok);
    steps, t := [Check, write], Next(checked, write);
    AnsweredTellsOne(Written(checked, s.writer.batch, kept, ok), s.writer.command);
    assert Run(checked, [write], t) by {
      assert [write][1..] == [];
    }
    assert steps[1..] == [write];
  }

  /** The writer's check and, unless the store fails, its write of the batch it took. */
  method ApplyTaken(
    store: EvidenceStore, overflow: bool, out: Text, err: Text, outRedacted: bool, errRedacted: bool, observed: bool, cpu: nat,
    ghost command: Command, ghost usages: nat, ghost s: Store)
    returns (ok: bool, ghost steps: seq<Step>, ghost t: Store)
    requires Mirrors(store, s) && s.overflow == overflow && observed == (usages > 0) && (!observed ==> cpu == 0)
    requires s.writer == Holding(command, Batch(out, err, outRedacted, errRedacted, usages, cpu))
    requires (outRedacted ==> out != []) && (errRedacted ==> err != [])
    modifies store
    ensures Run(s, steps, t) && Mirrors(store, t)
    ensures t == s.(writer := t.writer, tickets := t.tickets, failed := t.failed, saved := t.saved)
    ensures ok == !t.failed && !Working(t.writer)
    ensures command.Flush? && command.ticket < |t.tickets| ==> t.tickets[command.ticket].answer == if ok then Succeeded else Failed
  {
    hide Run, Written, Joined, KeptParts, BatchVersions, AfterBatch, BatchFits;
    hide EvidenceStore.Clean, EvidenceStore.Sound, EvidenceStore.Retains;
    ghost var before, batch := store.hashed, s.writer.batch;
    ok := store.ApplyBatch(overflow, out, err, outRedacted, errRedacted, observed, cpu);
    if s.failed || s.overflow {
      steps, t := CheckFails(s);
    } else {
      ghost var kept := KeptParts(before, store.hashed, batch, ok);
      WrittenVersion(s, batch, before, store.hashed, ok);
      steps, t := CheckThenWrite(s, kept, ok);
    }
  }

  /** One round of the writer is a run of its own steps: take, check and, unless the store fails, write. */
  method ApplyPending(buffers: Buffers, store: EvidenceStore, ghost s: Store)
    returns (ok: bool, ghost steps: seq<Step>, ghost t: Store)
    requires buffers.Represents(s) && Mirrors(store, s) && s.writer.Took?
    modifies buffers, store
    ensures Run(s, steps, t) && buffers.Represents(t) && Mirrors(store, t)
    ensures ok == !t.failed && !Working(t.writer)
    ensures s.writer.command.Flush? && s.writer.command.ticket < |t.tickets| ==>
      t.tickets[s.writer.command.ticket].answer == if ok then Succeeded else Failed
  {
    hide EvidenceStore.Retains, EvidenceStore.Clean;
    var out, err, outRedacted, errRedacted, observed, cpu := buffers.TakePending(s);
    ghost var taken, rest := Next(s, Take), [];
    ok, rest, t := ApplyTaken(
      store, buffers.overflow, out, err, outRedacted, errRedacted, observed, cpu, s.writer.command, s.pending.usages, taken);
    steps := [Take] + rest;
    assert steps[1..] == rest;
  }

  /**
   * A snapshot at any moment after its flush: everything seen by the flush of an open store is in the archive, with the
   * redaction mark and the usage, and nothing that was not observed.  A store that has not failed gives one.
   */
  method TakeSnapshot(store: EvidenceStore, flushed: bool, cancelled: bool, ghost s: Store, ghost t: nat)
    returns (r: Snapshot)
    requires Reachable(s) && Mirrors(store, s) && t < |s.tickets| && flushed == (s.tickets[t].answer == Succeeded)
    ensures r.Taken? ==> r.archive == CompleteLog(Version(s.saved.stdout, s.saved.stderr)) && PartOf(s.saved, s.seen)
    ensures r.Taken? ==> r.redacted == (s.saved.stdoutRedacted || s.saved.stderrRedacted)
    ensures r.Taken? && !s.failed ==> r.cpuTime == s.saved.cpuTime
    ensures r.Taken? && s.tickets[t].onOpenStore ==>
      var seen := s.tickets[t].seen;
      && seen.stdout <= s.saved.stdout && seen.stderr <= s.saved.stderr
      && (seen.stdoutRedacted || seen.stderrRedacted ==> r.redacted) && seen.cpuTime <= r.cpuTime
    ensures store.healthy && flushed && !cancelled && !s.failed && s.saved.usages > 0 ==> r.Taken?
  {
    hide Reachable;
    CommittedIsPrefix(s);
    if s.tickets[t].onOpenStore && flushed {
      FlushCommitsEverything(s, t);
    }
    r := store.Snapshot(flushed, cancelled);
  }
}
