/**
 * The phases of a measured job on the control channel: keepalives while it prepares, one observation by
 * the root service, the relayed results, and the completion.
 */
module ResultProtocol {
  import opened Bytes
  import opened ControlChannel
  import opened Options

  const MAXIMUM_RESULT_BYTES: nat := 21 * 1024 * 1024
  const MAXIMUM_RESULT_PACKETS: nat := 32768
  const MAXIMUM_PREPARING: nat := 512
  const COMPLETION_MAGIC: Text := [0x50, 0x56, 0x43, 0x52] // "PVCR"

  function EncodeCompletion(exit: int, infrastructureFailure: bool): Option<Text> {
    if 0 <= exit <= 255 then Some(COMPLETION_MAGIC + [1, exit, if infrastructureFailure then 1 else 0, 0]) else None
  }

  function DecodeCompletion(p: Text): Option<(int, bool)> {
    if |p| != 8 || p[..4] != COMPLETION_MAGIC || p[4] != 1 || p[6] > 1 || p[7] != 0 then None
    else Some((p[5], p[6] == 1))
  }

  /** A payload decodes to a completion exactly if it is its encoding. */
  lemma CompletionExactly(p: Text, exit: int, infrastructureFailure: bool)
    ensures DecodeCompletion(p) == Some((exit, infrastructureFailure)) <==> EncodeCompletion(exit, infrastructureFailure) == Some(p)
  {
    if DecodeCompletion(p) == Some((exit, infrastructureFailure)) {
      assert p == p[..4] + [p[4], p[5], p[6], p[7]];
    }
  }

  /** A whole conversation of the root service, by phases. */
  datatype Conversation = Conversation(
    preparing: nat, observation: Option<Text>, results: seq<Text>, completion: Option<Text>)

  /** Later phases come only after the observation. */
  predicate Ordered(c: Conversation) {
    c.observation.None? ==> c.results == [] && c.completion.None?
  }

  function Preparations(n: nat): seq<(Kind, Text)> {
    seq(n, i => (Preparing, []))
  }

  function Relays(results: seq<Text>): seq<(Kind, Text)> {
    seq(|results|, i requires 0 <= i < |results| => (Result, results[i]))
  }

  function Optional(kind: Kind, payload: Option<Text>): seq<(Kind, Text)> {
    if payload.Some? then [(kind, payload.value)] else []
  }

  /** preparing* observation? result* completion?, in this order. */
  function Phases(c: Conversation): seq<(Kind, Text)> {
    Preparations(c.preparing) + Optional(Observation, c.observation) + Relays(c.results) + Optional(Completion, c.completion)
  }

  /** The packets of a conversation, numbered from one without a gap. */
  function Numbered(phases: seq<(Kind, Text)>): (ps: seq<Packet>)
    ensures |ps| == |phases|
  {
    seq(|phases|, i requires 0 <= i < |phases| => Packet(phases[i].0, i + 1, phases[i].1, []))
  }

  lemma NumberedAppend(phases: seq<(Kind, Text)>, next: (Kind, Text))
    ensures Encoded(Numbered(phases + [next])) == Encoded(Numbered(phases)) + [Encode(Packet(next.0, |phases| + 1, next.1, []))]
  {
  }

  /** How a conversation grows by one packet. */
  lemma PhasesGrow(c: Conversation, payload: Text)
    requires Ordered(c) && c.completion.None?
    ensures c.observation.None? ==> Phases(c.(preparing := c.preparing + 1)) == Phases(c) + [(Preparing, [])]
    ensures c.observation.None? ==> Phases(c.(observation := Some(payload))) == Phases(c) + [(Observation, payload)]
    ensures Phases(c.(results := c.results + [payload])) == Phases(c) + [(Result, payload)]
    ensures Phases(c.(completion := Some(payload))) == Phases(c) + [(Completion, payload)]
  {
  }

  /** The one sequencer of the root service; its calls are serialised by a lock. */
  class RootSender {
    const channel: Channel
    var sequence: nat
    var observed: bool
    var completed: bool

    /** What has gone out on the channel. */
    ghost var said: Conversation

    ghost predicate Valid()
      reads this, channel
    {
      && Ordered(said) && said.observation.Some? == observed
      && channel.sent == Encoded(Numbered(Phases(said)))
      && (said.completion.Some? ==> completed)
      && (forall i :: 0 <= i < |Phases(said)| ==> |Phases(said)[i].1| <= MAXIMUM_PAYLOAD)
      && (!channel.closed ==> sequence == channel.writeSequence == |Phases(said)|)
    }

    constructor (channel: Channel)
      requires channel.sent == [] && channel.writeSequence == 0
      ensures Valid() && this.channel == channel && said == Conversation(0, None, [], None) && !completed && sequence == 0
    {
      this.channel, sequence, observed, completed := channel, 0, false, false;
      said := Conversation(0, None, [], None);
    }

    /** Another packet can go out. */
    predicate Ready(payload: Text)
      reads this, channel
    {
      channel.healthy && !channel.closed && !completed && sequence < 0xFFFF_FFFF_FFFF_FFFF && |payload| <= MAXIMUM_PAYLOAD
    }

    method SendLocked(kind: Kind, payload: Text) returns (ok: bool)
      requires Valid()
      modifies this`sequence, channel`closed, channel`writeSequence, channel`sent
      ensures ok ==> !completed && !channel.closed && |payload| <= MAXIMUM_PAYLOAD
      ensures old(channel.closed) ==> channel.closed
      ensures ok ==> channel.sent == Encoded(Numbered(Phases(said) + [(kind, payload)]))
      ensures ok ==> sequence == channel.writeSequence == |Phases(said)| + 1
      ensures !ok ==> channel.sent == old(channel.sent)
      ensures !ok ==> channel.closed || (sequence == old(sequence) && channel.writeSequence == old(channel.writeSequence))
      ensures old(Ready(payload)) ==> ok
      ensures completed ==> channel.closed == old(channel.closed)
      ensures sequence <= old(sequence) + 1
    {
      hide Encode, Encoded, Numbered, Phases;
      if completed || sequence == 0xFFFF_FFFF_FFFF_FFFF {
        return false;
      }
      sequence := sequence + 1;
      NumberedAppend(Phases(said), (kind, payload));
      ok := channel.Send(Packet(kind, sequence, payload, []));
    }

    /** A keepalive of the current phase. */
    method Progress() returns (ok: bool)
      requires Valid()
      modifies this, channel`closed, channel`writeSequence, channel`sent
      ensures Valid() && observed == old(observed) && completed == old(completed)
      ensures said == if !ok then old(said)
                      else if observed then old(said).(results := old(said).results + [[]])
                      else old(said).(preparing := old(said).preparing + 1)
      ensures old(Ready([])) ==> ok
      ensures sequence <= old(sequence) + 1 && (ok ==> !channel.closed && !old(completed))
      ensures old(completed) ==> channel.closed == old(channel.closed)
    {
      hide Encoded, Numbered, Phases;
      var kind := if observed then Result else Preparing;
      ok := SendLocked(kind, []);
      if ok {
        PhasesGrow(said, []);
        said := if observed then said.(results := said.results + [[]]) else said.(preparing := said.preparing + 1);
      }
    }

    /** The observation, once. */
    method Observe(raw: Text) returns (ok: bool)
      requires Valid()
      modifies this, channel`closed, channel`writeSequence, channel`sent
      ensures Valid() && completed == old(completed)
      ensures ok ==> !old(observed)
      ensures said == if ok then old(said).(observation := Some(raw)) else old(said)
      ensures old(Ready(raw)) && !old(observed) ==> ok
      ensures sequence <= old(sequence) + 1 && (ok ==> !channel.closed && !old(completed))
      ensures old(completed) || old(observed) ==> channel.closed == old(channel.closed)
    {
      hide Encoded, Numbered, Phases;
      if observed {
        return false;
      }
      ok := SendLocked(Observation, raw);
      if ok {
        PhasesGrow(said, raw);
        observed, said := true, said.(observation := Some(raw));
      }
    }

    /** Guest bytes, always of the same kind. */
    method Relay(raw: Text) returns (ok: bool)
      requires Valid()
      modifies this, channel`closed, channel`writeSequence, channel`sent
      ensures Valid() && observed == old(observed) && completed == old(completed)
      ensures ok ==> observed
      ensures said == if ok then old(said).(results := old(said).results + [raw]) else old(said)
      ensures old(Ready(raw)) && observed ==> ok
      ensures sequence <= old(sequence) + 1 && (ok ==> !channel.closed && !old(completed))
      ensures old(completed) || !observed ==> channel.closed == old(channel.closed)
    {
      hide Encoded, Numbered, Phases;
      if !observed {
        return false;
      }
      ok := SendLocked(Result, raw);
      if ok {
        PhasesGrow(said, raw);
        said := said.(results := said.results + [raw]);
      }
    }

    /** The completion; after it, whether it went out or not, nothing more is sent. */
    method Complete(raw: Text) returns (ok: bool)
      requires Valid()
      modifies this, channel`closed, channel`writeSequence, channel`sent
      ensures Valid() && observed == old(observed)
      ensures completed == (old(completed) || observed)
      ensures ok ==> observed && !old(completed)
      ensures said == if ok then old(said).(completion := Some(raw)) else old(said)
      ensures old(Ready(raw)) && observed ==> ok
      ensures sequence <= old(sequence) + 1 && (ok ==> !channel.closed && !old(completed))
      ensures old(completed) || !observed ==> channel.closed == old(channel.closed)
    {
      hide Encoded, Numbered, Phases;
      if !observed {
        return false;
      }
      ok := SendLocked(Completion, raw);
      if ok {
        PhasesGrow(said, raw);
        said := said.(completion := Some(raw));
      }
      completed := true;
    }
  }

  datatype Call = Keepalive | Observed(raw: Text) | Relayed(raw: Text) | Completed(raw: Text)

  predicate Sized(call: Call) {
    call.Keepalive? || |call.raw| <= MAXIMUM_PAYLOAD
  }

  /** The results relayed by calls after the observation, up to the first completion, and that completion. */
  function RelayPhase(calls: seq<Call>): (seq<Text>, Option<Text>) {
    if calls == [] then ([], None)
    else
      match calls[0]
      case Completed(raw) => ([], Some(raw))
      case Observed(_) => RelayPhase(calls[1..])
      case Keepalive => ([[]] + RelayPhase(calls[1..]).0, RelayPhase(calls[1..]).1)
      case Relayed(raw) => ([raw] + RelayPhase(calls[1..]).0, RelayPhase(calls[1..]).1)
  }

  /** What calls amount to: keepalives up to the first observation, and then its relay phase. */
  function Intended(calls: seq<Call>): Conversation {
    if calls == [] then Conversation(0, None, [], None)
    else
      match calls[0]
      case Observed(raw) => Conversation(0, Some(raw), RelayPhase(calls[1..]).0, RelayPhase(calls[1..]).1)
      case Keepalive => var rest := Intended(calls[1..]); rest.(preparing := rest.preparing + 1)
      case _ => Intended(calls[1..])
  }

  /** Up to the first completion, each relayed result goes out in its place, and nothing after that. */
  lemma {:induction false} RelayedInOrder(before: seq<Call>, raw: Text, after: seq<Call>)
    requires forall i :: 0 <= i < |before| ==> !before[i].Completed?
    ensures RelayPhase(before + [Relayed(raw)] + after) ==
      (RelayPhase(before).0 + [raw] + RelayPhase(after).0, RelayPhase(after).1)
    ensures RelayPhase(before + [Completed(raw)] + after) == (RelayPhase(before).0, Some(raw)) && RelayPhase(before).1.None?
  {
    var relayed, completed := before + [Relayed(raw)] + after, before + [Completed(raw)] + after;
    if before == [] {
      assert relayed[1..] == after && [] + [raw] == [raw];
    } else {
      assert relayed[1..] == before[1..] + [Relayed(raw)] + after;
      assert completed[1..] == before[1..] + [Completed(raw)] + after;
      RelayedInOrder(before[1..], raw, after);
      var first: seq<Text> := if before[0].Keepalive? then [[]] else if before[0].Relayed? then [before[0].raw] else [];
      var rest := RelayPhase(before[1..]).0;
      assert RelayPhase(before).0 == first + rest && RelayPhase(relayed).0 == first + RelayPhase(relayed[1..]).0;
      assert first + rest + [raw] + RelayPhase(after).0 == first + (rest + [raw] + RelayPhase(after).0);
    }
  }

  /** The first observation divides the calls: keepalives before it, its relay phase after it. */
  lemma {:induction false} ObservationDivides(before: seq<Call>, raw: Text, after: seq<Call>)
    requires forall i :: 0 <= i < |before| ==> !before[i].Observed?
    ensures Intended(before + [Observed(raw)] + after) ==
      Conversation(multiset(before)[Keepalive], Some(raw), RelayPhase(after).0, RelayPhase(after).1)
  {
    var calls := before + [Observed(raw)] + after;
    if before == [] {
      assert calls[1..] == after;
    } else {
      assert calls[1..] == before[1..] + [Observed(raw)] + after;
      ObservationDivides(before[1..], raw, after);
      assert before == [before[0]] + before[1..];
    }
  }

  /** How a conversation goes on with more calls. */
  ghost function Continued(c: Conversation, calls: seq<Call>): Conversation {
    if c.completion.Some? then c
    else if c.observation.Some? then c.(results := c.results + RelayPhase(calls).0, completion := RelayPhase(calls).1)
    else var rest := Intended(calls); rest.(preparing := c.preparing + rest.preparing)
  }

  lemma ContinuedStep(c: Conversation, calls: seq<Call>)
    requires calls != [] && Ordered(c) && c.completion.None?
    ensures Continued(c, calls) == Continued(
      match calls[0]
      case Keepalive =>
        if c.observation.Some? then c.(results := c.results + [[]]) else c.(preparing := c.preparing + 1)
      case Observed(raw) => if c.observation.Some? then c else c.(observation := Some(raw))
      case Relayed(raw) => if c.observation.Some? then c.(results := c.results + [raw]) else c
      case Completed(raw) => if c.observation.Some? then c.(completion := Some(raw)) else c,
      calls[1..])
  {
  }

  /** The sender works as intended so far. */
  ghost predicate AsIntended(sender: RootSender, calls: seq<Call>, i: nat)
    requires i <= |calls|
    reads sender, sender.channel
  {
    && !sender.channel.closed && sender.sequence <= i && sender.completed == sender.said.completion.Some?
    && Continued(sender.said, calls[i..]) == Intended(calls)
  }

  /**
   * Every interleaving of calls sends consecutive packets of the form preparing* observation? result*
   * completion?, and on a working channel exactly what the calls amount to.
   */
  method RunSender(sender: RootSender, calls: seq<Call>)
    requires sender.Valid() && sender.said == Conversation(0, None, [], None)
    modifies sender, sender.channel
    ensures sender.Valid() && Ordered(sender.said)
    ensures sender.channel.sent == Encoded(Numbered(Phases(sender.said)))
    ensures sender.channel.healthy && old(!sender.channel.closed && !sender.completed && sender.sequence == 0)
            && (forall call :: call in calls ==> Sized(call)) && |calls| < 0x1_0000_0000_0000_0000 ==>
      sender.said == Intended(calls)
  {
    hide Encoded, Numbered, Phases, Intended, Continued;
    ghost var works := sender.channel.healthy && !sender.channel.closed && !sender.completed && sender.sequence == 0
      && (forall call :: call in calls ==> Sized(call)) && |calls| < 0x1_0000_0000_0000_0000;
    NothingIntended(calls, sender.said);
    for i := 0 to |calls|
      invariant sender.Valid()
      invariant works ==> AsIntended(sender, calls, i)
    {
      SpeakNext(sender, calls, i, works);
    }
    NothingIntended(calls, sender.said);
  }

  lemma ContinuedDone(c: Conversation, calls: seq<Call>, more: seq<Call>)
    requires c.completion.Some?
    ensures Continued(c, calls) == Continued(c, more)
  {
  }

  /** One more call. */
  method SpeakNext(sender: RootSender, calls: seq<Call>, i: nat, ghost works: bool)
    requires sender.Valid() && i < |calls|
    requires works ==> AsIntended(sender, calls, i) && sender.channel.healthy && Sized(calls[i]) && |calls| < 0x1_0000_0000_0000_0000
    modifies sender, sender.channel
    ensures sender.Valid() && (works ==> AsIntended(sender, calls, i + 1))
  {
    hide Encoded, Numbered, Phases, Intended, Continued;
    assert calls[i..][0] == calls[i] && calls[i..][1..] == calls[i + 1..];
    if sender.said.completion.None? {
      ContinuedStep(sender.said, calls[i..]);
    } else {
      ContinuedDone(sender.said, calls[i..], calls[i + 1..]);
    }
    Speak(sender, calls[i]);
  }

  lemma NothingIntended(calls: seq<Call>, c: Conversation)
    requires Ordered(c)
    ensures Continued(Conversation(0, None, [], None), calls[0..]) == Intended(calls)
    ensures Continued(c, calls[|calls|..]) == c
  {
    assert calls[0..] == calls && calls[|calls|..] == [];
  }

  method Speak(sender: RootSender, call: Call)
    requires sender.Valid()
    modifies sender, sender.channel
    ensures sender.Valid() && sender.sequence <= old(sender.sequence) + 1
    ensures old(sender.Ready([])) && Sized(call) ==>
      && !sender.channel.closed && sender.completed == (call.Completed? && old(sender.said).observation.Some?)
      && sender.said == match call
         case Keepalive =>
           if old(sender.said).observation.Some? then old(sender.said).(results := old(sender.said).results + [[]])
           else old(sender.said).(preparing := old(sender.said).preparing + 1)
         case Observed(raw) => if old(sender.said).observation.Some? then old(sender.said) else old(sender.said).(observation := Some(raw))
         case Relayed(raw) =>
           if old(sender.said).observation.Some? then old(sender.said).(results := old(sender.said).results + [raw]) else old(sender.said)
         case Completed(raw) =>
           if old(sender.said).observation.Some? then old(sender.said).(completion := Some(raw)) else old(sender.said)
    ensures old(sender.completed) ==> sender.said == old(sender.said) && sender.completed && sender.channel.closed == old(sender.channel.closed)
  {
    hide Encoded, Numbered, Phases;
    var ok;
    match call
    case Keepalive => ok := sender.Progress();
    case Observed(raw) => ok := sender.Observe(raw);
    case Relayed(raw) => ok := sender.Relay(raw);
    case Completed(raw) => ok := sender.Complete(raw);
  }

  /** What the client has taken from its inbox, as packets without files. */
  ghost predicate Taken(channel: Channel, phases: seq<(Kind, Text)>, inbox: seq<Datagram>)
    reads channel
  {
    !channel.closed && channel.readSequence == |phases| && inbox == Encoded(Numbered(phases)) + channel.inbox
  }

  /** The messages begin with this conversation, and nothing but the messages matters. */
  ghost predicate Promised(healthy: bool, inbox: seq<Datagram>, phases: seq<(Kind, Text)>) {
    && healthy && Encoded(Numbered(phases)) <= inbox && |phases| < 0x1_0000_0000
    && forall i :: 0 <= i < |phases| ==> |phases[i].1| <= MAXIMUM_PAYLOAD
  }

  /** Receives one packet. */
  method ReceivePhase(channel: Channel, ghost phases: seq<(Kind, Text)>, ghost inbox: seq<Datagram>, ghost all: seq<(Kind, Text)>)
    returns (p: Option<Packet>)
    requires Taken(channel, phases, inbox)
    modifies channel`closed, channel`readSequence, channel`inbox
    ensures p.Some? ==> !channel.closed && |channel.inbox| < |old(channel.inbox)|
    ensures p.Some? && p.value.files == [] ==> Taken(channel, phases + [(p.value.kind, p.value.payload)], inbox)
    ensures p.None? ==> channel.closed
    ensures Promised(channel.healthy, inbox, all) && phases < all ==>
      p.Some? && p.value.kind == all[|phases|].0 && p.value.payload == all[|phases|].1 && p.value.files == []
  {
    hide Encode, Decode;
    if Promised(channel.healthy, inbox, all) && phases < all {
      var expected := Packet(all[|phases|].0, |phases| + 1, all[|phases|].1, []);
      assert inbox[|phases|] == Encoded(Numbered(all))[|phases|] == Encode(expected);
      EncodeDecodes(expected);
    }
    ghost var waiting := channel.inbox;
    p := channel.Receive();
    if p.Some? {
      DecodeIsCanonical(waiting[0]);
      NumberedAppend(phases, (p.value.kind, p.value.payload));
    }
  }

  /** The preparation phase as the client accepts it. */
  predicate Prepared(c: Conversation) {
    c.preparing <= MAXIMUM_PREPARING && c.observation.Some? && c.observation.value != []
  }

  /** Waits for the observation; only empty keepalives may come before it, and not too many. */
  method AwaitRootObservation(channel: Channel, ghost e: Conversation) returns (observation: Option<Text>, ghost heard: Conversation)
    requires !channel.closed ==> channel.readSequence == 0
    modifies channel`closed, channel`readSequence, channel`inbox
    ensures observation.None? ==> channel.closed
    ensures observation.Some? ==> Prepared(heard) && heard == Conversation(heard.preparing, observation, [], None)
    ensures observation.Some? ==> Taken(channel, Phases(heard), old(channel.inbox))
    ensures old(!channel.closed && Promised(channel.healthy, channel.inbox, Phases(e))) && Ordered(e) && Prepared(e) ==>
      observation == e.observation && heard.preparing == e.preparing
  {
    hide Encoded, Numbered;
    ghost var inbox := channel.inbox;
    heard := Conversation(0, None, [], None);
    if channel.closed {
      return None, heard;
    }
    NothingTaken(channel);
    ghost var promised := Promised(channel.healthy, inbox, Phases(e)) && Ordered(e) && Prepared(e);
    for progress := 0 to MAXIMUM_PREPARING + 1
      invariant heard == Conversation(progress, None, [], None)
      invariant Taken(channel, Phases(heard), inbox)
      invariant promised ==> progress <= e.preparing
    {
      if promised {
        NextPreparing(e, progress);
      }
      var p := ReceivePhase(channel, Phases(heard), inbox, Phases(e));
      if p.None? {
        return None, heard;
      }
      var interrupted: bool := *;
      if interrupted && !channel.healthy {
        channel.Close();
        return None, heard;
      }
      if p.value.kind != Preparing {
        if p.value.kind != Observation || p.value.files != [] || p.value.payload == [] {
          channel.Close();
          return None, heard;
        }
        PhasesGrow(heard, p.value.payload);
        heard := heard.(observation := Some(p.value.payload));
        return Some(p.value.payload), heard;
      }
      if p.value.payload != [] || p.value.files != [] {
        channel.Close();
        return None, heard;
      }
      PhasesGrow(heard, []);
      heard := heard.(preparing := progress + 1);
    }
    channel.Close();
    return None, heard;
  }

  lemma NothingTaken(channel: Channel)
    requires !channel.closed && channel.readSequence == 0
    ensures Taken(channel, Phases(Conversation(0, None, [], None)), channel.inbox)
  {
  }

  lemma NextPreparing(e: Conversation, progress: nat)
    requires progress <= e.preparing && e.observation.Some?
    ensures Phases(Conversation(progress, None, [], None)) < Phases(e)
    ensures Phases(e)[|Phases(Conversation(progress, None, [], None))|]
      == if progress < e.preparing then (Preparing, []) else (Observation, e.observation.value)
  {
  }

  datatype Status = More | EndOfStream | Failure

  /** The relay phase as the client accepts it. */
  predicate WithinBounds(c: Conversation) {
    && c.completion.Some? && DecodeCompletion(c.completion.value).Some?
    && |c.results| < MAXIMUM_RESULT_PACKETS && |Flatten(c.results)| <= MAXIMUM_RESULT_BYTES
  }

  /** What was heard so far is how this conversation begins. */
  ghost predicate Begins(heard: Conversation, e: Conversation) {
    && heard.preparing == e.preparing && heard.observation == e.observation && heard.results <= e.results
    && (heard.completion.Some? ==> heard == e)
  }

  /** While the completion is still to come, the next packet of the conversation follows what was heard. */
  lemma NextPhase(heard: Conversation, e: Conversation)
    requires Begins(heard, e) && heard.observation.Some? && heard.completion.None? && e.completion.Some?
    ensures Phases(heard) < Phases(e)
    ensures Phases(e)[|Phases(heard)|]
      == if |heard.results| < |e.results| then (Result, e.results[|heard.results|]) else (Completion, e.completion.value)
  {
  }

  lemma RoomForNext(heard: Conversation, e: Conversation)
    requires heard.results < e.results
    ensures |Flatten(heard.results)| + |e.results[|heard.results|]| <= |Flatten(e.results)|
  {
    var n := |heard.results|;
    var next := e.results[n];
    FlattenAppend(heard.results, next);
    FlattenConcat(heard.results + [next], e.results[n + 1..]);
    assert heard.results + [next] + e.results[n + 1..] == e.results;
  }

  /** The client's view of the results, after the observation. */
  class ResultStream {
    const channel: Channel
    var pending: Text
    var bytes: nat
    var packets: nat
    var receipt: Option<(int, bool)>
    var failed: bool

    ghost const inbox: seq<Datagram>
    ghost var heard: Conversation
    ghost var delivered: Text

    /** The counters, and the results on their way to the reader. */
    ghost predicate Counted()
      reads this
    {
      && delivered + pending == Flatten(heard.results)
      && bytes == |Flatten(heard.results)| <= MAXIMUM_RESULT_BYTES
      && packets == |heard.results| + (if heard.completion.Some? then 1 else 0) <= MAXIMUM_RESULT_PACKETS
    }

    ghost predicate Valid()
      reads this, channel
    {
      if failed then channel.closed && pending == [] && receipt.None?
      else
        && Counted() && Ordered(heard) && heard.observation.Some?
        && receipt == (if heard.completion.Some? then DecodeCompletion(heard.completion.value) else None)
        && (heard.completion.Some? ==> receipt.Some? && pending == [])
        && inbox == Encoded(Numbered(Phases(heard))) + channel.inbox
        && (heard.completion.None? ==> Taken(channel, Phases(heard), inbox))
    }

    constructor (channel: Channel, ghost inbox: seq<Datagram>, ghost heard: Conversation)
      requires Taken(channel, Phases(heard), inbox)
      requires heard == Conversation(heard.preparing, heard.observation, [], None) && heard.observation.Some?
      ensures Valid() && !failed && this.channel == channel && this.inbox == inbox && this.heard == heard && delivered == []
    {
      this.channel, pending, bytes, packets, receipt, failed := channel, [], 0, 0, None, false;
      this.inbox, this.heard, delivered := inbox, heard, [];
    }

    /** Fails for good. */
    method Fail()
      modifies this`failed, this`pending, this`receipt, channel`closed
      ensures Valid() && failed
    {
      failed, pending, receipt := true, [], None;
      channel.Close();
    }

    /** The reader can be served from this conversation. */
    ghost predicate Serves(e: Conversation)
      reads this
    {
      channel.healthy && Promised(channel.healthy, inbox, Phases(e)) && WithinBounds(e) && Begins(heard, e)
    }

    /** Takes the next packet when nothing is pending. */
    method TakePacket(ghost e: Conversation) returns (ok: bool)
      requires Valid() && !failed && pending == [] && receipt.None?
      modifies this`pending, this`bytes, this`packets, this`receipt, this`failed, this`heard, channel`closed, channel`readSequence, channel`inbox
      ensures Valid() && failed == !ok
      ensures ok ==> |channel.inbox| < |old(channel.inbox)|
      ensures old(Serves(e)) ==> ok && Serves(e)
    {
      hide Encoded, Numbered, Phases, Flatten, DecodeCompletion;
      if Serves(e) {
        NextPhase(heard, e);
      }
      var p := ReceivePhase(channel, Phases(heard), inbox, Phases(e));
      if p.None? || p.value.files != [] || packets + 1 > MAXIMUM_RESULT_PACKETS {
        Fail();
        return false;
      }
      packets := packets + 1;
      PhasesGrow(heard, p.value.payload);
      if p.value.kind == Result {
        if Serves(e) {
          RoomForNext(heard, e);
        }
        if |p.value.payload| > MAXIMUM_RESULT_BYTES - bytes {
          Fail();
          return false;
        }
        FlattenAppend(heard.results, p.value.payload);
        bytes, pending := bytes + |p.value.payload|, p.value.payload;
        heard := heard.(results := heard.results + [p.value.payload]);
        return true;
      } else if p.value.kind == Completion {
        var decoded := DecodeCompletion(p.value.payload);
        if decoded.None? {
          Fail();
          return false;
        }
        receipt := decoded;
        heard := heard.(completion := Some(p.value.payload));
        channel.Close();
        return true;
      }
      Fail();
      return false;
    }

    /** Takes packets until there are bytes to deliver or the stream has ended. */
    method FillPending(ghost e: Conversation) returns (ok: bool)
      requires Valid() && !failed
      modifies this`pending, this`bytes, this`packets, this`receipt, this`failed, this`heard, channel`closed, channel`readSequence, channel`inbox
      ensures Valid() && failed == !ok
      ensures ok ==> pending != [] || receipt.Some?
      ensures ok && pending != [] ==> |channel.inbox| < |old(channel.inbox)| || (channel.inbox == old(channel.inbox) && pending == old(pending))
      ensures old(Serves(e)) ==> ok && Serves(e)
    {
      hide Encoded, Numbered, Phases, Flatten, DecodeCompletion, Promised, Counted, Begins, WithinBounds;
      while pending == [] && receipt.None?
        invariant Valid() && !failed
        invariant |channel.inbox| < |old(channel.inbox)| || (channel.inbox == old(channel.inbox) && pending == old(pending))
        invariant old(Serves(e)) ==> Serves(e)
        decreases |channel.inbox|
      {
        ok := TakePacket(e);
        if !ok {
          return;
        }
      }
      return true;
    }

    /** Reads at most so many bytes. */
    method Read(size: nat, ghost e: Conversation) returns (data: Text, status: Status)
      requires Valid()
      modifies this, channel`closed, channel`readSequence, channel`inbox
      ensures Valid() && (status.Failure? <==> failed)
      ensures |data| <= size && (data != [] ==> status.More?)
      ensures delivered == old(delivered) + data
      ensures status.EndOfStream? ==> receipt.Some? && heard.completion.Some? && delivered == Flatten(heard.results)
      ensures status.More? && size > 0 ==> data != []
      ensures status.More? && size > 0 ==>
        |channel.inbox| < |old(channel.inbox)| || (channel.inbox == old(channel.inbox) && |pending| < |old(pending)|)
      ensures old(Serves(e)) && !old(failed) ==> !status.Failure? && Serves(e)
    {
      hide Encoded, Numbered, Phases, Flatten, DecodeCompletion, Promised, Begins, WithinBounds;
      data := [];
      var cancelled: bool := *;
      if failed {
        return data, Failure;
      }
      if cancelled && !channel.healthy {
        Fail();
        return data, Failure;
      }
      if size == 0 {
        return data, More;
      }
      var ok := FillPending(e);
      if !ok {
        return data, Failure;
      }
      if pending == [] {
        return data, EndOfStream;
      }
      var n := Min(size, |pending|);
      data := pending[..n];
      assert pending == data + pending[n..];
      delivered, pending := delivered + data, pending[n..];
      return data, More;
    }

    /** The completion, once the stream has ended well. */
    method Receipt() returns (r: Option<(int, bool)>)
      requires Valid()
      ensures r.Some? ==> !failed && heard.completion.Some? && r == DecodeCompletion(heard.completion.value)
      ensures channel.healthy && !failed && heard.completion.Some? ==> r.Some?
    {
      var cancelled: bool := *;
      if failed || receipt.None? || (cancelled && !channel.healthy) {
        return None;
      }
      return receipt;
    }

    /** Reads to the end, in pieces of any sizes. */
    method ReadAll(ghost e: Conversation) returns (data: Text, status: Status)
      requires Valid() && !failed && delivered == []
      modifies this, channel`closed, channel`readSequence, channel`inbox
      ensures Valid() && (status.EndOfStream? || status.Failure?) && (status.Failure? <==> failed)
      ensures status.EndOfStream? ==> heard.completion.Some? && data == Flatten(heard.results)
      ensures old(Serves(e)) ==> status.EndOfStream? && heard == e && data == Flatten(e.results)
    {
      hide Encoded, Numbered, Phases, Flatten, DecodeCompletion, Promised;
      data, status := [], More;
      while status.More?
        invariant Valid() && data == delivered && (status.Failure? <==> failed)
        invariant status.EndOfStream? ==> heard.completion.Some? && delivered == Flatten(heard.results)
        invariant old(Serves(e)) ==> !failed && Serves(e)
        decreases if status.More? then 1 else 0, |channel.inbox|, |pending|
      {
        var size: nat := *;
        if size == 0 {
          size := 1;
        }
        var piece;
        piece, status := Read(size, e);
        data := data + piece;
      }
    }
  }

  /** A conversation that was sent and is within bounds is promised to whoever receives it. */
  lemma SentIsPromised(sender: RootSender)
    requires sender.Valid() && Prepared(sender.said) && WithinBounds(sender.said)
    ensures Promised(true, sender.channel.sent, Phases(sender.said))
  {
  }

  /**
   * A whole job on a working channel.  Whatever the interleaving of calls, the client reaches the end
   * of the stream if the calls amount to a complete conversation within bounds; then it has read exactly
   * the relayed bytes and holds the completion that was encoded.
   */
  method Session(calls: seq<Call>)
    returns (observation: Option<Text>, data: Text, receipt: Option<(int, bool)>)
    requires (forall call :: call in calls ==> Sized(call)) && |calls| < 0x1_0000_0000_0000_0000
    ensures Prepared(Intended(calls)) && WithinBounds(Intended(calls)) ==>
      observation == Intended(calls).observation && data == Flatten(Intended(calls).results) && receipt.Some?
    ensures Prepared(Intended(calls)) && WithinBounds(Intended(calls)) ==>
      receipt.Some? && EncodeCompletion(receipt.value.0, receipt.value.1) == Intended(calls).completion
  {
    hide Encoded, Numbered, Phases, Flatten, DecodeCompletion, EncodeCompletion, Promised, Intended;
    observation, data, receipt := None, [], None;
    var service := new Channel(true, []);
    var sender := new RootSender(service);
    RunSender(sender, calls);
    ghost var said := Intended(calls);
    if Prepared(said) && WithinBounds(said) {
      SentIsPromised(sender);
    }
    var client := new Channel(true, service.sent);
    ghost var heard;
    observation, heard := AwaitRootObservation(client, said);
    if observation.None? {
      return;
    }
    var stream := new ResultStream(client, service.sent, heard);
    var status;
    data, status := stream.ReadAll(said);
    receipt := stream.Receipt();
    if Prepared(said) && WithinBounds(said) {
      CompletionExactly(said.completion.value, receipt.value.0, receipt.value.1);
    }
  }
}
