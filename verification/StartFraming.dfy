/** A start request in packets: a header, full chunks of the payload, and full batches of files. */
module StartFraming {
  import opened Bytes
  import opened ControlChannel
  import opened Options

  const MAXIMUM_START_BYTES: nat := 2 * 1024 * 1024
  const MAXIMUM_START_FILES: nat := 256
  const START_MAGIC: Text := [0x50, 0x56, 0x53, 0x31] // "PVS1"
  const NONCE_SIZE: nat := 32

  /** Pieces of the given size, the last one perhaps shorter. */
  function Chunks<T>(items: seq<T>, size: nat): seq<seq<T>>
    requires size > 0
  {
    if items == [] then [] else
      var n := Min(size, |items|);
      [items[..n]] + Chunks(items[n..], size)
  }

  /** So many items make full pieces only. */
  ghost predicate Whole(n: nat, size: nat)
    requires size > 0
  {
    n == 0 || (n >= size && Whole(n - size, size))
  }

  lemma {:induction false} WholeStep(n: nat, size: nat)
    requires size > 0 && Whole(n, size)
    ensures Whole(n + size, size)
  {
  }

  lemma FirstChunk<T>(items: seq<T>, size: nat)
    requires size > 0 && |items| >= size
    ensures Chunks(items, size) == [items[..size]] + Chunks(items[size..], size)
  {
  }

  lemma NoChunks<T>(size: nat)
    requires size > 0
    ensures Chunks<T>([], size) == []
  {
  }

  /** After full pieces, the rest is cut as if it stood alone. */
  lemma {:induction false} ChunksConcat<T>(a: seq<T>, b: seq<T>, size: nat)
    requires size > 0 && Whole(|a|, size)
    ensures Chunks(a + b, size) == Chunks(a, size) + Chunks(b, size)
    decreases |a|
  {
    hide Chunks;
    if a == [] {
      assert a + b == b;
      NoChunks<T>(size);
    } else {
      FirstChunk(a, size);
      ChunksConcat(a[size..], b, size);
      assert (a + b)[..size] == a[..size] && (a + b)[size..] == a[size..] + b;
      FirstChunk(a + b, size);
    }
  }

  /** A piece of at most the given size is not cut. */
  lemma OneChunk<T>(piece: seq<T>, size: nat)
    requires size > 0 && 0 < |piece| <= size
    ensures Chunks(piece, size) == [piece]
  {
    assert piece[..|piece|] == piece && piece[|piece|..] == [];
  }

  /** The next piece after k items, when everything before went out in full pieces. */
  lemma NextChunk<T>(items: seq<T>, k: nat, size: nat)
    requires size > 0 && k < |items| && Whole(k, size)
    ensures var n := Min(size, |items| - k);
      && Chunks(items[..k + n], size) == Chunks(items[..k], size) + [items[k..k + n]]
      && (k + n == |items| || Whole(k + n, size))
  {
    hide Chunks;
    var n := Min(size, |items| - k);
    OneChunk(items[k..k + n], size);
    ChunksConcat(items[..k], items[k..k + n], size);
    assert items[..k] + items[k..k + n] == items[..k + n];
    WholeStep(k, size);
  }

  /** The pieces of an initial part in full pieces are an initial part of the pieces. */
  lemma ChunksPrefix<T>(items: seq<T>, k: nat, size: nat)
    requires size > 0 && k <= |items| && (k == |items| || Whole(k, size))
    ensures Chunks(items[..k], size) <= Chunks(items, size)
  {
    hide Chunks;
    if k == |items| {
      assert items[..k] == items;
    } else {
      ChunksConcat(items[..k], items[k..], size);
      assert items[..k] + items[k..] == items;
    }
  }

  /** What one packet of a start request carries. */
  datatype Content = Content(payload: Text, files: seq<File>)

  function StartHeader(length: nat, count: nat): Text {
    START_MAGIC + BigEndian(length, 4) + BigEndian(count, 2) + [0, 0]
  }

  function PayloadContents(chunks: seq<Text>): seq<Content> {
    seq(|chunks|, i requires 0 <= i < |chunks| => Content(chunks[i], []))
  }

  function FileContents(batches: seq<seq<File>>): seq<Content> {
    seq(|batches|, i requires 0 <= i < |batches| => Content([], batches[i]))
  }

  function StartContents(length: nat, count: nat, payload: Text, files: seq<File>): seq<Content> {
    [Content(StartHeader(length, count), [])]
    + PayloadContents(Chunks(payload, MAXIMUM_PAYLOAD)) + FileContents(Chunks(files, MAXIMUM_FILES))
  }

  /** Start packets with these contents, numbered from one. */
  function Numbered(contents: seq<Content>): (ps: seq<Packet>)
    ensures |ps| == |contents|
  {
    seq(|contents|, i requires 0 <= i < |contents| => Packet(Start, i + 1, contents[i].payload, contents[i].files))
  }

  /** The one packet sequence that stands for a request. */
  function StartPackets(payload: Text, files: seq<File>): seq<Packet> {
    Numbered(StartContents(|payload|, |files|, payload, files))
  }

  predicate WithinBounds(payload: Text, files: seq<File>) {
    && 1 <= |payload| <= MAXIMUM_START_BYTES && 1 <= |files| <= MAXIMUM_START_FILES
  }

  lemma NumberedAppend(contents: seq<Content>, c: Content)
    ensures Encoded(Numbered(contents + [c]))
      == Encoded(Numbered(contents)) + [Encode(Packet(Start, |contents| + 1, c.payload, c.files))]
  {
  }

  lemma PayloadAppend(length: nat, count: nat, payload: Text, k: nat)
    requires k < |payload| && Whole(k, MAXIMUM_PAYLOAD)
    ensures var end := k + Min(MAXIMUM_PAYLOAD, |payload| - k);
      && StartContents(length, count, payload[..end], [])
         == StartContents(length, count, payload[..k], []) + [Content(payload[k..end], [])]
      && (end == |payload| || Whole(end, MAXIMUM_PAYLOAD))
  {
    hide Chunks, Whole, StartHeader;
    NextChunk(payload, k, MAXIMUM_PAYLOAD);
    NoChunks<File>(MAXIMUM_FILES);
  }

  lemma FilesAppend(length: nat, count: nat, payload: Text, files: seq<File>, k: nat)
    requires k < |files| && Whole(k, MAXIMUM_FILES)
    ensures var end := k + Min(MAXIMUM_FILES, |files| - k);
      && StartContents(length, count, payload, files[..end])
         == StartContents(length, count, payload, files[..k]) + [Content([], files[k..end])]
      && (end == |files| || Whole(end, MAXIMUM_FILES))
  {
    hide Chunks, Whole, StartHeader;
    NextChunk(files, k, MAXIMUM_FILES);
  }

  /** No start request comes near the end of the sequence numbers. */
  lemma {:induction false} FewChunks<T>(items: seq<T>, size: nat)
    requires size > 0
    ensures |Chunks(items, size)| <= |items|
    decreases |items|
  {
    if items != [] {
      FewChunks(items[Min(size, |items|)..], size);
    }
  }

  lemma FewPackets(length: nat, count: nat, payload: Text, files: seq<File>)
    ensures 1 <= |StartContents(length, count, payload, files)| <= 1 + |payload| + |files|
  {
    FewChunks(payload, MAXIMUM_PAYLOAD);
    FewChunks(files, MAXIMUM_FILES);
  }

  predicate Usable(files: seq<File>) {
    forall f :: f in files ==> f.readOnlyRegular
  }

  /** What the channel has sent since a start request began. */
  ghost predicate Sent(channel: Channel, last: nat, contents: seq<Content>, prior: seq<Datagram>)
    reads channel
  {
    && !channel.closed && last == |contents| && (last > 0 ==> channel.writeSequence == last)
    && channel.sent == prior + Encoded(Numbered(contents))
  }

  /** Sends the next packet of a start request. */
  method SendNext(channel: Channel, last: nat, c: Content, ghost before: seq<Content>, ghost prior: seq<Datagram>)
    returns (ok: bool)
    requires channel.sent == prior + Encoded(Numbered(before)) && last == |before|
    requires |c.payload| <= MAXIMUM_PAYLOAD && |c.files| <= MAXIMUM_FILES
    modifies channel`closed, channel`writeSequence, channel`sent
    ensures ok ==> old(channel.writeSequence) == last && Sent(channel, last + 1, before + [c], prior)
    ensures !ok ==> channel.closed
    ensures channel.healthy && !old(channel.closed) && old(channel.writeSequence) == last && last < 0x1_0000_0000 && Usable(c.files)
            ==> ok
  {
    hide Encode;
    NumberedAppend(before, c);
    ok := channel.Send(Packet(Start, last + 1, c.payload, c.files));
  }

  /** The chunks of the payload. */
  method SendPayload(channel: Channel, payload: Text, count: nat, ghost prior: seq<Datagram>) returns (last: nat, ok: bool)
    requires |payload| <= MAXIMUM_START_BYTES && Sent(channel, 1, StartContents(|payload|, count, [], []), prior)
    modifies channel`closed, channel`writeSequence, channel`sent
    ensures ok ==> Sent(channel, last, StartContents(|payload|, count, payload, []), prior)
    ensures !ok ==> channel.closed
    ensures channel.healthy ==> ok
  {
    hide Chunks, StartHeader, Sent, StartContents, Encoded, Numbered;
    var offset := 0;
    last := 1;
    assert payload[..0] == [];
    while offset < |payload|
      invariant 0 <= offset <= |payload| && (offset == |payload| || Whole(offset, MAXIMUM_PAYLOAD))
      invariant Sent(channel, last, StartContents(|payload|, count, payload[..offset], []), prior)
    {
      ghost var before := StartContents(|payload|, count, payload[..offset], []);
      var end := Min(offset + MAXIMUM_PAYLOAD, |payload|);
      PayloadAppend(|payload|, count, payload, offset);
      FewPackets(|payload|, count, payload[..offset], []);
      SentState(channel, last, before, prior);
      ok := SendNext(channel, last, Content(payload[offset..end], []), before, prior);
      if !ok {
        return;
      }
      last, offset := last + 1, end;
    }
    assert payload[..offset] == payload;
    return last, true;
  }

  lemma SentState(channel: Channel, last: nat, contents: seq<Content>, prior: seq<Datagram>)
    requires Sent(channel, last, contents, prior) && contents != []
    ensures !channel.closed && last == |contents| == channel.writeSequence
    ensures channel.sent == prior + Encoded(Numbered(contents))
  {
  }

  /** The batches of files. */
  method SendFiles(channel: Channel, payload: Text, files: seq<File>, first: nat, ghost prior: seq<Datagram>)
    returns (last: nat, ok: bool)
    requires |payload| <= MAXIMUM_START_BYTES && |files| <= MAXIMUM_START_FILES
    requires Sent(channel, first, StartContents(|payload|, |files|, payload, []), prior)
    modifies channel`closed, channel`writeSequence, channel`sent
    ensures ok ==> Sent(channel, last, StartContents(|payload|, |files|, payload, files), prior)
    ensures !ok ==> channel.closed
    ensures channel.healthy && Usable(files) ==> ok
  {
    hide Chunks, StartHeader, Sent, StartContents, Encoded, Numbered;
    var offset := 0;
    last := first;
    assert files[..0] == [];
    while offset < |files|
      invariant 0 <= offset <= |files| && (offset == |files| || Whole(offset, MAXIMUM_FILES))
      invariant Sent(channel, last, StartContents(|payload|, |files|, payload, files[..offset]), prior)
    {
      ghost var before := StartContents(|payload|, |files|, payload, files[..offset]);
      var end := Min(offset + MAXIMUM_FILES, |files|);
      FilesAppend(|payload|, |files|, payload, files, offset);
      FewPackets(|payload|, |files|, payload, files[..offset]);
      SentState(channel, last, before, prior);
      ok := SendNext(channel, last, Content([], files[offset..end]), before, prior);
      if !ok {
        return;
      }
      last, offset := last + 1, end;
    }
    assert files[..offset] == files;
    return last, true;
  }

  /** Sends a start request, which must be the first thing on its channel. */
  method SendStart(channel: Channel, payload: Text, files: seq<File>) returns (last: nat, ok: bool)
    modifies channel`closed, channel`writeSequence, channel`sent
    ensures ok ==> old(channel.writeSequence) == 0 && WithinBounds(payload, files) && !channel.closed
    ensures ok ==> channel.sent == old(channel.sent) + Encoded(StartPackets(payload, files))
    ensures ok ==> last == |StartPackets(payload, files)| == channel.writeSequence
    ensures !ok ==> channel.closed
    ensures !WithinBounds(payload, files) ==> channel.sent == old(channel.sent)
    ensures channel.healthy && !old(channel.closed) && old(channel.writeSequence) == 0 && WithinBounds(payload, files) && Usable(files)
            ==> ok
  {
    hide Chunks, Sent, Encoded, Numbered;
    last, ok := 0, false;
    if !WithinBounds(payload, files) {
      channel.Close();
      return;
    }
    var header := Content(StartHeader(|payload|, |files|), []);
    ghost var prior := channel.sent;
    NothingSent(channel);
    HeaderOnly(|payload|, |files|);
    ok := SendNext(channel, 0, header, [], prior);
    if !ok {
      return;
    }
    assert [] + [header] == [header];
    last, ok := SendPayload(channel, payload, |files|, prior);
    if ok {
      last, ok := SendFiles(channel, payload, files, last, prior);
      if ok {
        FewPackets(|payload|, |files|, payload, files);
        SentState(channel, last, StartContents(|payload|, |files|, payload, files), prior);
      }
    }
  }

  lemma NothingSent(channel: Channel)
    ensures channel.sent == channel.sent + Encoded(Numbered([]))
  {
  }

  lemma HeaderOnly(length: nat, count: nat)
    ensures StartContents(length, count, [], []) == [Content(StartHeader(length, count), [])]
    ensures |StartHeader(length, count)| == 12
  {
  }

  /** What the receiving end makes of the first packets. */
  datatype Accepted =
    | Request(payload: Text, files: seq<File>, last: nat)
    | Probe(kind: Kind, nonce: Text)
    | Refused

  /** A request the other end may have sent. */
  datatype Expected = Expected(payload: Text, files: seq<File>)

  /** The messages begin with this request, and nothing but the messages matters. */
  ghost predicate Promised(healthy: bool, inbox: seq<Datagram>, e: Expected) {
    healthy && WithinBounds(e.payload, e.files) && Usable(e.files) && Encoded(StartPackets(e.payload, e.files)) <= inbox
  }

  /** What the channel has received since a start request began. */
  ghost predicate Taken(channel: Channel, last: nat, contents: seq<Content>, inbox: seq<Datagram>)
    reads channel
  {
    && !channel.closed && last == |contents| == channel.readSequence
    && inbox == Encoded(Numbered(contents)) + channel.inbox
  }

  /** The next content of a promised request. */
  ghost predicate NextIs(healthy: bool, contents: seq<Content>, inbox: seq<Datagram>, c: Content) {
    && healthy && Encoded(Numbered(contents + [c])) <= inbox
    && |contents| < 0x1_0000_0000 && |c.payload| <= MAXIMUM_PAYLOAD && |c.files| <= MAXIMUM_FILES && Usable(c.files)
  }

  /** Receives the next packet of a start request. */
  method ReceiveNext(channel: Channel, last: nat, ghost contents: seq<Content>, ghost inbox: seq<Datagram>, ghost next: Content)
    returns (p: Option<Packet>)
    requires Taken(channel, last, contents, inbox)
    modifies channel`closed, channel`readSequence, channel`inbox
    ensures p.Some? ==> p.value.kind == Start && |p.value.payload| <= MAXIMUM_PAYLOAD && |p.value.files| <= MAXIMUM_FILES
    ensures p.Some? ==> Usable(p.value.files)
    ensures p.Some? ==> Taken(channel, last + 1, contents + [Content(p.value.payload, p.value.files)], inbox)
    ensures p.None? ==> channel.closed
    ensures NextIs(channel.healthy, contents, inbox, next) ==> p == Some(Packet(Start, last + 1, next.payload, next.files))
  {
    hide Encode, Decode;
    ghost var expected := Packet(Start, last + 1, next.payload, next.files);
    if NextIs(channel.healthy, contents, inbox, next) {
      NumberedAppend(contents, next);
      assert inbox[last] == Encode(expected);
      EncodeDecodes(expected);
    }
    ghost var waiting := channel.inbox;
    p := channel.Receive();
    if p.None? {
      return;
    }
    DecodeIsCanonical(waiting[0]);
    if p.value.kind != Start || p.value.sequence != last + 1 {
      channel.Close();
      return None;
    }
    NumberedAppend(contents, Content(p.value.payload, p.value.files));
  }

  lemma NumberedPrefix(a: seq<Content>, b: seq<Content>)
    requires a <= b
    ensures Encoded(Numbered(a)) <= Encoded(Numbered(b))
  {
  }

  lemma PayloadPrefix(length: nat, count: nat, payload: Text, files: seq<File>, k: nat)
    requires k <= |payload| && (k == |payload| || Whole(k, MAXIMUM_PAYLOAD))
    ensures StartContents(length, count, payload[..k], []) <= StartContents(length, count, payload, files)
  {
    hide Chunks, Whole, StartHeader;
    ChunksPrefix(payload, k, MAXIMUM_PAYLOAD);
    NoChunks<File>(MAXIMUM_FILES);
  }

  lemma FilesPrefix(length: nat, count: nat, payload: Text, files: seq<File>, k: nat)
    requires k <= |files| && (k == |files| || Whole(k, MAXIMUM_FILES))
    ensures StartContents(length, count, payload, files[..k]) <= StartContents(length, count, payload, files)
  {
    hide Chunks, Whole, StartHeader;
    ChunksPrefix(files, k, MAXIMUM_FILES);
  }

  lemma PromisedPayload(healthy: bool, inbox: seq<Datagram>, e: Expected, k: nat)
    requires Promised(healthy, inbox, e) && k < |e.payload| && Whole(k, MAXIMUM_PAYLOAD)
    ensures NextIs(healthy, StartContents(|e.payload|, |e.files|, e.payload[..k], []), inbox,
                   Content(e.payload[k..k + Min(MAXIMUM_PAYLOAD, |e.payload| - k)], []))
  {
    hide Chunks, Whole, StartContents, Encoded, Numbered;
    var end := k + Min(MAXIMUM_PAYLOAD, |e.payload| - k);
    PayloadAppend(|e.payload|, |e.files|, e.payload, k);
    PayloadPrefix(|e.payload|, |e.files|, e.payload, e.files, end);
    NumberedPrefix(StartContents(|e.payload|, |e.files|, e.payload[..end], []),
                   StartContents(|e.payload|, |e.files|, e.payload, e.files));
    FewPackets(|e.payload|, |e.files|, e.payload[..k], []);
  }

  lemma PromisedFiles(healthy: bool, inbox: seq<Datagram>, e: Expected, k: nat)
    requires Promised(healthy, inbox, e) && k < |e.files| && Whole(k, MAXIMUM_FILES)
    ensures NextIs(healthy, StartContents(|e.payload|, |e.files|, e.payload, e.files[..k]), inbox,
                   Content([], e.files[k..k + Min(MAXIMUM_FILES, |e.files| - k)]))
  {
    hide Chunks, Whole, StartContents, Encoded, Numbered;
    var end := k + Min(MAXIMUM_FILES, |e.files| - k);
    FilesAppend(|e.payload|, |e.files|, e.payload, e.files, k);
    FilesPrefix(|e.payload|, |e.files|, e.payload, e.files, end);
    NumberedPrefix(StartContents(|e.payload|, |e.files|, e.payload, e.files[..end]),
                   StartContents(|e.payload|, |e.files|, e.payload, e.files));
    FewPackets(|e.payload|, |e.files|, e.payload, e.files[..k]);
  }

  /** Receives the payload, one full chunk after another. */
  method ReceivePayload(channel: Channel, length: nat, count: nat, ghost inbox: seq<Datagram>, ghost e: Expected)
    returns (payload: Text, last: nat, ok: bool)
    requires Taken(channel, 1, StartContents(length, count, [], []), inbox)
    requires Promised(channel.healthy, inbox, e) ==> length == |e.payload| && count == |e.files|
    modifies channel`closed, channel`readSequence, channel`inbox
    ensures ok ==> |payload| == length && Taken(channel, last, StartContents(length, count, payload, []), inbox)
    ensures !ok ==> channel.closed
    ensures Promised(channel.healthy, inbox, e) ==> ok && payload == e.payload
  {
    hide Chunks, StartHeader, Taken, StartContents, Promised, NextIs;
    payload, last, ok := [], 1, true;
    while |payload| < length
      invariant |payload| <= length && (|payload| == length || Whole(|payload|, MAXIMUM_PAYLOAD))
      invariant Taken(channel, last, StartContents(length, count, payload, []), inbox)
      invariant Promised(channel.healthy, inbox, e) ==> payload <= e.payload
      decreases length - |payload|
    {
      ghost var next := Content([], []);
      if Promised(channel.healthy, inbox, e) {
        PromisedPayload(channel.healthy, inbox, e, |payload|);
        assert e.payload[..|payload|] == payload;
        next := Content(e.payload[|payload|..|payload| + Min(MAXIMUM_PAYLOAD, length - |payload|)], []);
      }
      var p := ReceiveNext(channel, last, StartContents(length, count, payload, []), inbox, next);
      if p.None? || p.value.files != [] || |p.value.payload| != Min(MAXIMUM_PAYLOAD, length - |payload|) {
        channel.Close();
        return payload, last, false;
      }
      var longer := payload + p.value.payload;
      PayloadAppend(length, count, longer, |payload|);
      assert longer[..|payload|] == payload && longer[|payload|..] == p.value.payload && longer[..|longer|] == longer;
      WholeStep(|payload|, MAXIMUM_PAYLOAD);
      payload, last := longer, last + 1;
    }
  }

  /** Receives the files, one full batch after another. */
  method ReceiveFiles(channel: Channel, payload: Text, count: nat, first: nat, ghost inbox: seq<Datagram>, ghost e: Expected)
    returns (files: seq<File>, last: nat, ok: bool)
    requires Taken(channel, first, StartContents(|payload|, count, payload, []), inbox)
    requires Promised(channel.healthy, inbox, e) ==> payload == e.payload && count == |e.files|
    modifies channel`closed, channel`readSequence, channel`inbox
    ensures ok ==> |files| == count && Usable(files)
    ensures ok ==> Taken(channel, last, StartContents(|payload|, count, payload, files), inbox)
    ensures !ok ==> channel.closed
    ensures Promised(channel.healthy, inbox, e) ==> ok && files == e.files
  {
    hide Chunks, StartHeader, Taken, StartContents, Promised, NextIs;
    files, last, ok := [], first, true;
    while |files| < count
      invariant |files| <= count && (|files| == count || Whole(|files|, MAXIMUM_FILES)) && Usable(files)
      invariant Taken(channel, last, StartContents(|payload|, count, payload, files), inbox)
      invariant Promised(channel.healthy, inbox, e) ==> files <= e.files
      decreases count - |files|
    {
      ghost var next := Content([], []);
      if Promised(channel.healthy, inbox, e) {
        PromisedFiles(channel.healthy, inbox, e, |files|);
        assert e.files[..|files|] == files;
        next := Content([], e.files[|files|..|files| + Min(MAXIMUM_FILES, count - |files|)]);
      }
      var p := ReceiveNext(channel, last, StartContents(|payload|, count, payload, files), inbox, next);
      if p.None? || p.value.payload != [] || |p.value.files| != Min(MAXIMUM_FILES, count - |files|) {
        channel.Close();
        return files, last, false;
      }
      var longer := files + p.value.files;
      FilesAppend(|payload|, count, payload, longer, |files|);
      assert longer[..|files|] == files && longer[|files|..] == p.value.files && longer[..|longer|] == longer;
      WholeStep(|files|, MAXIMUM_FILES);
      files, last := longer, last + 1;
    }
  }

  predicate IsProbe(kind: Kind) {
    kind == IdleCheck || kind == SecretCheck || kind == MaximumCheck
  }

  /** The header's two numbers, if it is one. */
  function ParseHeader(raw: Text): Option<(nat, nat)> {
    if |raw| != 12 || raw[..4] != START_MAGIC || raw[10] != 0 || raw[11] != 0 then None
    else Some((FromBigEndian(raw[4..8]), FromBigEndian(raw[8..10])))
  }

  /** A header parses to the numbers it was made of, and only such a header does. */
  lemma ParseHeaderExactly(raw: Text, length: nat, count: nat)
    requires length < 0x1_0000_0000 && count < 0x1_0000
    ensures ParseHeader(raw) == Some((length, count)) <==> raw == StartHeader(length, count)
  {
    hide BigEndian, FromBigEndian;
    Limits();
    BigEndianDecodes(length, 4);
    BigEndianDecodes(count, 2);
    var header := StartHeader(length, count);
    assert header[..4] == START_MAGIC && header[4..8] == BigEndian(length, 4) && header[8..10] == BigEndian(count, 2);
    assert header[10] == 0 && header[11] == 0;
    if ParseHeader(raw) == Some((length, count)) {
      BigEndianIsCanonical(raw[4..8]);
      BigEndianIsCanonical(raw[8..10]);
      assert raw == raw[..4] + raw[4..8] + raw[8..10] + raw[10..12];
      assert raw[10..12] == [0, 0];
    }
  }

  predicate FirstKind(kind: Kind, allowProbe: bool) {
    kind == Start || (allowProbe && IsProbe(kind))
  }

  /** The first message holds this packet, and nothing but the message matters. */
  ghost predicate FirstIs(channel: Channel, allowProbe: bool, p: Packet)
    reads channel
  {
    && channel.healthy && !channel.closed && channel.readSequence == 0 && channel.inbox != []
    && Decode(channel.inbox[0]) == Some(p) && p.sequence == 1 && FirstKind(p.kind, allowProbe)
  }

  /** Receives the first packet. */
  method ReceiveFirst(channel: Channel, allowProbe: bool) returns (p: Option<Packet>)
    modifies channel`closed, channel`readSequence, channel`inbox
    ensures p.Some? ==> !old(channel.closed) && !channel.closed && old(channel.readSequence) == 0 && channel.readSequence == 1
    ensures p.Some? ==> p.value.sequence == 1 && FirstKind(p.value.kind, allowProbe)
    ensures p.Some? ==> old(channel.inbox) == [Encode(p.value)] + channel.inbox
    ensures p.None? ==> channel.closed
    ensures forall q :: old(FirstIs(channel, allowProbe, q)) ==> p == Some(q)
  {
    hide Encode, Decode;
    ghost var waiting := channel.inbox;
    p := channel.Receive();
    if p.None? {
      return;
    }
    DecodeIsCanonical(waiting[0]);
    if !FirstKind(p.value.kind, allowProbe) || p.value.sequence != 1 {
      channel.Close();
      return None;
    }
  }

  lemma PromisedHeader(channel: Channel, allowProbe: bool, e: Expected)
    requires Promised(channel.healthy, channel.inbox, e) && !channel.closed && channel.readSequence == 0
    ensures FirstIs(channel, allowProbe, Packet(Start, 1, StartHeader(|e.payload|, |e.files|), []))
  {
    var contents := StartContents(|e.payload|, |e.files|, e.payload, e.files);
    assert Encoded(Numbered(contents))[0] == Encode(Packet(Start, 1, contents[0].payload, contents[0].files));
    EncodeDecodes(Packet(Start, 1, contents[0].payload, contents[0].files));
  }

  /** Once the header is there, the request follows in exactly one way. */
  method ReceiveBody(channel: Channel, header: Text, ghost inbox: seq<Datagram>, ghost e: Expected) returns (r: Accepted)
    requires !channel.closed && channel.readSequence == 1
    requires inbox == [Encode(Packet(Start, 1, header, []))] + channel.inbox
    requires Promised(channel.healthy, inbox, e) ==> header == StartHeader(|e.payload|, |e.files|)
    modifies channel`closed, channel`readSequence, channel`inbox
    ensures !r.Probe? && (r.Refused? <==> channel.closed)
    ensures r.Request? ==> WithinBounds(r.payload, r.files) && Usable(r.files)
    ensures r.Request? ==> inbox == Encoded(StartPackets(r.payload, r.files)) + channel.inbox
    ensures r.Request? ==> r.last == |StartPackets(r.payload, r.files)| == channel.readSequence
    ensures Promised(channel.healthy, inbox, e) ==> r.Request? && r.payload == e.payload && r.files == e.files
  {
    hide Chunks, StartHeader, Encode, ParseHeader;
    if Promised(channel.healthy, inbox, e) {
      ParseHeaderExactly(header, |e.payload|, |e.files|);
    }
    var numbers := ParseHeader(header);
    if numbers.None? {
      channel.Close();
      return Refused;
    }
    var (length, count) := numbers.value;
    if length < 1 || length > MAXIMUM_START_BYTES || count < 1 || count > MAXIMUM_START_FILES {
      channel.Close();
      return Refused;
    }
    ParseHeaderExactly(header, length, count);
    HeaderOnly(length, count);
    HeaderTaken(channel, length, count, inbox);
    var payload, last, ok := ReceivePayload(channel, length, count, inbox, e);
    if !ok {
      return Refused;
    }
    var files;
    files, last, ok := ReceiveFiles(channel, payload, count, last, inbox, e);
    if !ok {
      return Refused;
    }
    return Request(payload, files, last);
  }

  lemma HeaderTaken(channel: Channel, length: nat, count: nat, inbox: seq<Datagram>)
    requires !channel.closed && channel.readSequence == 1
    requires inbox == [Encode(Packet(Start, 1, StartHeader(length, count), []))] + channel.inbox
    ensures Taken(channel, 1, [Content(StartHeader(length, count), [])], inbox)
  {
    NumberedAppend([], Content(StartHeader(length, count), []));
    assert [] + [Content(StartHeader(length, count), [])] == [Content(StartHeader(length, count), [])];
  }

  /**
   * Receives a start request or, where allowed, a standalone probe.  What is accepted is exactly what
   * the other end sends for the returned values, and everything that it sends within bounds is accepted.
   */
  method ReceiveStart(channel: Channel, allowProbe: bool, ghost e: Expected, ghost probe: Packet) returns (r: Accepted)
    modifies channel`closed, channel`readSequence, channel`inbox
    ensures r.Refused? <==> channel.closed
    ensures !r.Refused? ==> !old(channel.closed) && old(channel.readSequence) == 0
    ensures r.Request? ==> WithinBounds(r.payload, r.files) && Usable(r.files)
    ensures r.Request? ==> old(channel.inbox) == Encoded(StartPackets(r.payload, r.files)) + channel.inbox
    ensures r.Request? ==> r.last == |StartPackets(r.payload, r.files)| == channel.readSequence
    ensures r.Probe? ==> allowProbe && IsProbe(r.kind) && |r.nonce| == NONCE_SIZE
    ensures r.Probe? ==> old(channel.inbox) == [Encode(Packet(r.kind, 1, r.nonce, []))] + channel.inbox
    ensures old(Promised(channel.healthy, channel.inbox, e) && !channel.closed && channel.readSequence == 0)
            ==> r == Request(e.payload, e.files, |StartPackets(e.payload, e.files)|)
    ensures old(FirstIs(channel, allowProbe, probe)) && IsProbe(probe.kind) && |probe.payload| == NONCE_SIZE && probe.files == []
            ==> r == Probe(probe.kind, probe.payload)
  {
    hide Encode, StartHeader, Promised, FirstIs, Sendable, StartPackets;
    ghost var inbox := channel.inbox;
    if Promised(channel.healthy, channel.inbox, e) && !channel.closed && channel.readSequence == 0 {
      PromisedHeader(channel, allowProbe, e);
    }
    var p := ReceiveFirst(channel, allowProbe);
    if p.None? {
      return Refused;
    }
    if IsProbe(p.value.kind) {
      if |p.value.payload| != NONCE_SIZE || p.value.files != [] {
        channel.Close();
        return Refused;
      }
      return Probe(p.value.kind, p.value.payload);
    }
    if p.value.files != [] {
      channel.Close();
      return Refused;
    }
    r := ReceiveBody(channel, p.value.payload, inbox, e);
  }

  /** What one end sends, the other end gets back, with the same last sequence number. */
  method StartRoundTrip(payload: Text, files: seq<File>, allowProbe: bool) returns (r: Accepted, last: nat)
    requires WithinBounds(payload, files) && Usable(files)
    ensures r == Request(payload, files, last)
  {
    hide Encoded, StartPackets;
    var sender := new Channel(true, []);
    var ok;
    last, ok := SendStart(sender, payload, files);
    assert [] + Encoded(StartPackets(payload, files)) == Encoded(StartPackets(payload, files));
    var receiver := new Channel(true, sender.sent);
    r := ReceiveStart(receiver, allowProbe, Expected(payload, files), Packet(Start, 1, [], []));
  }
}
