/** What a run of the evidence store has seen, said of its list of observations alone. */
module EvidenceRuns {
  import opened Bytes
  import opened EvidenceDisk
  import opened EvidenceQueue

  /** The observations of a run, in order. */
  function Observed(steps: seq<Step>): seq<Observation> {
    if steps == [] then []
    else (if steps[0].Observe? then [steps[0].observation] else []) + Observed(steps[1..])
  }

  /** How many flushes were asked for. */
  function Asked(steps: seq<Step>): nat {
    if steps == [] then 0 else (if steps[0].AskFlush? then 1 else 0) + Asked(steps[1..])
  }

  /** The bytes observed on one stream, in order. */
  function DataOf(observations: seq<Observation>, stream: Stream): Text {
    if observations == [] then []
    else
      var n := |observations| - 1;
      DataOf(observations[..n], stream) +
      if observations[n].Log? && observations[n].stream == stream then observations[n].data else []
  }

  /** Some of them were redacted. */
  ghost predicate RedactedOn(observations: seq<Observation>, stream: Stream) {
    exists i :: 0 <= i < |observations| && observations[i].Log? && observations[i].stream == stream && observations[i].redacted
  }

  ghost function Usages(observations: seq<Observation>): set<nat> {
    set i: nat | i < |observations| && observations[i].Usage?
  }

  /** The highest of the reported processor times, or 0. */
  ghost predicate HighestReported(observations: seq<Observation>, cpuTime: int) {
    && 0 <= cpuTime && (forall c :: Usage(c) in observations ==> c <= cpuTime)
    && (cpuTime == 0 || Usage(cpuTime) in observations)
  }

  /** The batch is what these observations amount to. */
  ghost predicate Sums(b: Batch, observations: seq<Observation>) {
    && b.stdout == DataOf(observations, Stdout) && b.stderr == DataOf(observations, Stderr)
    && (b.stdoutRedacted <==> RedactedOn(observations, Stdout)) && (b.stderrRedacted <==> RedactedOn(observations, Stderr))
    && b.usages == |Usages(observations)| && HighestReported(observations, b.cpuTime)
  }

  lemma UsagesAppend(observations: seq<Observation>, o: Observation)
    ensures |Usages(observations + [o])| == |Usages(observations)| + if o.Usage? then 1 else 0
  {
    assert Usages(observations + [o]) == Usages(observations) + if o.Usage? then {|observations|} else {};
  }

  lemma DataAppend(observations: seq<Observation>, o: Observation, stream: Stream)
    ensures DataOf(observations + [o], stream) == DataOf(observations, stream) + if o.Log? && o.stream == stream then o.data else []
  {
    assert (observations + [o])[..|observations|] == observations;
  }

  lemma RedactedAppend(observations: seq<Observation>, o: Observation, stream: Stream)
    ensures RedactedOn(observations + [o], stream) <==>
      RedactedOn(observations, stream) || (o.Log? && o.stream == stream && o.redacted)
  {
    var more := observations + [o];
    if i :| 0 <= i < |observations| && observations[i].Log? && observations[i].stream == stream && observations[i].redacted {
      assert more[i] == observations[i];
    }
    if o.Log? && o.stream == stream && o.redacted {
      assert more[|observations|] == o;
    }
  }

  lemma HighestAppend(observations: seq<Observation>, cpuTime: int, o: Observation)
    requires HighestReported(observations, cpuTime)
    ensures HighestReported(observations + [o], if o.Usage? then Max(cpuTime, Max(0, o.cpuTime)) else cpuTime)
  {
    assert o in observations + [o];
  }

  /** One more observation. */
  lemma SumsAppend(b: Batch, observations: seq<Observation>, o: Observation)
    requires Sums(b, observations)
    ensures Sums(Joined(b, EntryOf(o)), observations + [o])
  {
    hide DataOf, RedactedOn, Usages, HighestReported;
    DataAppend(observations, o, Stdout);
    DataAppend(observations, o, Stderr);
    RedactedAppend(observations, o, Stdout);
    RedactedAppend(observations, o, Stderr);
    UsagesAppend(observations, o);
    HighestAppend(observations, b.cpuTime, o);
  }

  /** Nothing, or one of the reported processor times. */
  ghost predicate Reported(observations: seq<Observation>, cpuTime: int) {
    cpuTime == 0 || Usage(cpuTime) in observations
  }

  /** The store has seen exactly these observations, and holds no processor time that was not reported. */
  ghost predicate Tracked(s: Store, observations: seq<Observation>) {
    && Sums(s.seen, observations)
    && Reported(observations, s.saved.cpuTime) && Reported(observations, s.pending.cpuTime)
    && Reported(observations, Held(s.writer).cpuTime)
  }

  function ObservedAt(step: Step): seq<Observation> {
    if step.Observe? then [step.observation] else []
  }

  lemma ReportedMore(observations: seq<Observation>, o: Observation, a: nat)
    ensures Reported(observations, a) ==> Reported(observations + [o], a)
    ensures o.Usage? && o.cpuTime >= 0 ==> Reported(observations + [o], o.cpuTime)
  {
    assert o in observations + [o];
  }

  lemma TrackedObserve(s: Store, observations: seq<Observation>, o: Observation)
    requires Tracked(s, observations) && Enabled(s, Observe(o))
    ensures Tracked(Next(s, Observe(o)), observations + [o])
  {
    hide Sums, Reported;
    EnqueuedLosesNothing(s, o);
    SumsAppend(s.seen, observations, o);
    ReportedMore(observations, o, s.saved.cpuTime);
    ReportedMore(observations, o, s.pending.cpuTime);
    ReportedMore(observations, o, Held(s.writer).cpuTime);
    ZeroIsReported(observations + [o]);
  }

  lemma ZeroIsReported(observations: seq<Observation>)
    ensures Reported(observations, 0)
  {
  }

  lemma TrackedStep(s: Store, observations: seq<Observation>, step: Step)
    requires Tracked(s, observations) && Enabled(s, step)
    ensures Tracked(Next(s, step), observations + ObservedAt(step))
  {
    hide Sums, Reported, Enqueued, Answered;
    assert observations + [] == observations;
    ZeroIsReported(observations);
    match step
    case Observe(o) =>
      TrackedObserve(s, observations, o);
    case Check =>
      AnsweredTellsOne(s.(failed := true), s.writer.command);
      AnsweredTellsOne(s, s.writer.command);
    case Write(kept, ok) =>
      AnsweredTellsOne(Written(s, s.writer.batch, kept, ok), s.writer.command);
    case _ =>
  }

  /** After any run, the store has seen exactly what was observed in it. */
  lemma {:induction false} RunTracked(s: Store, observations: seq<Observation>, steps: seq<Step>, t: Store)
    requires Tracked(s, observations) && Run(s, steps, t)
    ensures Tracked(t, observations + Observed(steps))
    decreases |steps|
  {
    hide Tracked, Next, Enabled;
    if steps == [] {
      assert observations + [] == observations;
    } else {
      TrackedStep(s, observations, steps[0]);
      RunTracked(Next(s, steps[0]), observations + ObservedAt(steps[0]), steps[1..], t);
      assert observations + ObservedAt(steps[0]) + Observed(steps[1..]) == observations + Observed(steps);
    }
  }

  lemma NothingTracked()
    ensures Tracked(EMPTY, [])
  {
    assert Usages([]) == {};
  }

  lemma SeenIsObserved(steps: seq<Step>, s: Store)
    requires Run(EMPTY, steps, s)
    ensures Sums(s.seen, Observed(steps)) && Reported(Observed(steps), s.saved.cpuTime)
  {
    hide Sums, Reported, Run;
    NothingTracked();
    RunTracked(EMPTY, [], steps, s);
    assert [] + Observed(steps) == Observed(steps);
  }

  lemma TicketsStep(s: Store, step: Step)
    requires Enabled(s, step)
    ensures var t := Next(s, step);
      && |t.tickets| == |s.tickets| + (if step.AskFlush? then 1 else 0)
      && (forall i :: 0 <= i < |s.tickets| ==> t.tickets[i] == s.tickets[i].(answer := t.tickets[i].answer))
      && (step.AskFlush? ==> t.tickets[|s.tickets|].seen == s.seen && t.tickets[|s.tickets|].onOpenStore == !s.closed)
      && (t.closed <==> s.closed || step.Close?)
  {
    hide Enqueued, Answered, Joined;
    match step
    case Observe(o) =>
      EnqueuedLosesNothing(s, o);
    case Check =>
      AnsweredTellsOne(s.(failed := true), s.writer.command);
      AnsweredTellsOne(s, s.writer.command);
    case Write(kept, ok) =>
      AnsweredTellsOne(Written(s, s.writer.batch, kept, ok), s.writer.command);
    case _ =>
  }

  /** A flush keeps what had been seen when it was asked for. */
  lemma {:induction false} RunKeepsTicket(s: Store, steps: seq<Step>, t: Store, i: nat)
    requires Run(s, steps, t) && i < |s.tickets|
    ensures i < |t.tickets| && t.tickets[i] == s.tickets[i].(answer := t.tickets[i].answer)
    decreases |steps|
  {
    hide Next, Enabled;
    if steps != [] {
      TicketsStep(s, steps[0]);
      RunKeepsTicket(Next(s, steps[0]), steps[1..], t, i);
    }
  }

  /** The step that asked for a flush, and the store it was asked of. */
  lemma {:induction false} TicketAsked(s: Store, steps: seq<Step>, t: Store, i: nat) returns (m: nat, mid: Store)
    requires Run(s, steps, t) && |s.tickets| <= i < |t.tickets|
    ensures m < |steps| && steps[m].AskFlush? && |s.tickets| + Asked(steps[..m]) == i == |mid.tickets|
    ensures Run(s, steps[..m], mid) && t.tickets[i].seen == mid.seen && t.tickets[i].onOpenStore == !mid.closed
    ensures mid.closed <==> s.closed || Close in steps[..m]
    decreases |steps|
  {
    hide Next, Enabled;
    if steps != [] {
      var next := Next(s, steps[0]);
      TicketsStep(s, steps[0]);
      if steps[0].AskFlush? && i == |s.tickets| {
        m, mid := 0, s;
        RunKeepsTicket(next, steps[1..], t, i);
      } else {
        var n;
        n, mid := TicketAsked(next, steps[1..], t, i);
        m := n + 1;
        assert steps[..m][1..] == steps[1..][..n];
        assert steps[..m] == [steps[0]] + steps[1..][..n];
      }
    }
  }

  /** Both streams hold at least the bytes of the earlier observations, and are beginnings of all that was observed. */
  ghost predicate Covers(v: Version, observations: seq<Observation>, earlier: seq<Observation>) {
    && DataOf(earlier, Stdout) <= v.stdout <= DataOf(observations, Stdout)
    && DataOf(earlier, Stderr) <= v.stderr <= DataOf(observations, Stderr)
  }

  /** What was observed before a flush was asked for, as far as it promises anything. */
  function Promised(steps: seq<Step>, m: nat): seq<Observation>
    requires m <= |steps|
  {
    if Close in steps[..m] then [] else Observed(steps[..m])
  }

  lemma NothingObserved()
    ensures DataOf([], Stdout) == [] && DataOf([], Stderr) == [] && !RedactedOn([], Stdout) && !RedactedOn([], Stderr)
  {
  }

  /**
   * A snapshot, said of the observations of the run alone: it holds every byte, mark and processor time observed before
   * its flush was asked for on an open store, and nothing that was not observed.
   */
  method SnapshotOfRun(store: EvidenceStore, flushed: bool, cancelled: bool, ghost steps: seq<Step>, ghost s: Store, ghost t: nat)
    returns (r: Snapshot, ghost m: nat)
    requires Run(EMPTY, steps, s) && Mirrors(store, s) && t < |s.tickets| && flushed == (s.tickets[t].answer == Succeeded)
    ensures m < |steps| && steps[m].AskFlush? && Asked(steps[..m]) == t
    ensures r.Taken? ==> exists v: Version :: r.archive == CompleteLog(v) && Covers(v, Observed(steps), Promised(steps, m))
    ensures r.Taken? && r.redacted ==> RedactedOn(Observed(steps), Stdout) || RedactedOn(Observed(steps), Stderr)
    ensures r.Taken? && (RedactedOn(Promised(steps, m), Stdout) || RedactedOn(Promised(steps, m), Stderr)) ==> r.redacted
    ensures r.Taken? ==> forall c :: Usage(c) in Promised(steps, m) ==> c <= r.cpuTime
    ensures r.Taken? && !s.failed ==> Reported(Observed(steps), r.cpuTime)
    ensures store.healthy && flushed && !cancelled && !s.failed && s.saved.usages > 0 ==> r.Taken?
  {
    hide Run, DataOf, RedactedOn, Usages, Observed, Mirrors, Reported, CompleteLog;
    NothingObserved();
    ghost var mid;
    m, mid := TicketAsked(EMPTY, steps, s, t);
    SeenIsObserved(steps, s);
    SeenIsObserved(steps[..m], mid);
    r := TakeSnapshot(store, flushed, cancelled, s, t);
    assert r.Taken? ==> Covers(Version(s.saved.stdout, s.saved.stderr), Observed(steps), Promised(steps, m));
  }
}
