/** Packets of the local control channel, their wire form, and the sequence discipline of both ends. */
module ControlChannel {
  import opened Bytes
  import opened Options

  const MAXIMUM_PAYLOAD: nat := 64 * 1024
  const MAXIMUM_FILES: nat := 16
  const HEADER_SIZE: nat := 24
  const MAGIC: Text := [0x50, 0x56, 0x43, 0x31] // "PVC1"

  /** A descriptor that crosses the channel. */
  datatype File = File(handle: int, readOnlyRegular: bool)

  datatype Kind =
    | Start | Reconcile | Release | Cancel | Result | Observation | Completion | Preparing | IdleCheck | IdleConfirmed
    | SecretDelivery | SecretCheck | SecretConfirmed | MaximumCheck | MaximumConfirmed

  const KINDS: seq<Kind> := [
    Start, Reconcile, Release, Cancel, Result, Observation, Completion, Preparing, IdleCheck, IdleConfirmed,
    SecretDelivery, SecretCheck, SecretConfirmed, MaximumCheck, MaximumConfirmed]

  datatype Packet = Packet(kind: Kind, sequence: nat, payload: Text, files: seq<File>)

  /** What one message on the socket carries. */
  datatype Datagram = Datagram(data: Text, files: seq<File>)

  /** The first value that does not fit in so many bytes. */
  function Limit(width: nat): nat {
    if width == 0 then 1 else 256 * Limit(width - 1)
  }

  function BigEndian(n: nat, width: nat): (t: Text)
    ensures |t| == width
  {
    if width == 0 then [] else BigEndian(n / 256, width - 1) + [n % 256]
  }

  function FromBigEndian(t: Text): nat {
    if t == [] then 0 else FromBigEndian(t[..|t| - 1]) * 256 + t[|t| - 1]
  }

  lemma {:induction false} BigEndianDecodes(n: nat, width: nat)
    requires n < Limit(width)
    ensures FromBigEndian(BigEndian(n, width)) == n
  {
    if width > 0 {
      BigEndianDecodes(n / 256, width - 1);
      assert BigEndian(n, width)[..width - 1] == BigEndian(n / 256, width - 1);
    }
  }

  lemma {:induction false} BigEndianIsCanonical(t: Text)
    ensures FromBigEndian(t) < Limit(|t|)
    ensures BigEndian(FromBigEndian(t), |t|) == t
  {
    if t != [] {
      BigEndianIsCanonical(t[..|t| - 1]);
    }
  }

  lemma LimitPositive(width: nat)
    ensures Limit(width) > 0
  {
  }

  lemma DivideTwice(n: nat, b: nat)
    requires b > 0
    ensures n / 256 / b == n / (256 * b)
  {
    var q, r := n / 256 / b, n / 256 % b;
    assert n / 256 == b * q + r;
    assert n == 256 * b * q + (256 * r + n % 256);
    assert 0 <= 256 * r + n % 256 < 256 * b;
    QuotientIsUnique(n, 256 * b, q, 256 * r + n % 256);
  }

  lemma OneMore(d: nat, a: nat, b: nat)
    requires a < b
    ensures d * a + d <= d * b
  {
    assert d * b == d * a + d * (b - a);
    if b - a > 1 {
      OneMore(d, a, b - 1);
    }
  }

  lemma QuotientIsUnique(n: nat, d: nat, q: nat, r: nat)
    requires d > 0 && n == d * q + r && r < d
    ensures n / d == q
  {
    var p := n / d;
    if p < q {
      OneMore(d, p, q);
    } else if q < p {
      OneMore(d, q, p);
    }
  }

  /** The most significant byte comes first: byte `k` has the weight of the bytes after it. */
  lemma {:induction false} BigEndianDigit(n: nat, width: nat, k: nat)
    requires k < width
    ensures Limit(width - 1 - k) > 0 && BigEndian(n, width)[k] == n / Limit(width - 1 - k) % 256
  {
    LimitPositive(width - 1 - k);
    if k < width - 1 {
      BigEndianDigit(n / 256, width - 1, k);
      DivideTwice(n, Limit(width - 2 - k));
    }
  }

  /** 2, 4 and 8 bytes. */
  lemma Limits()
    ensures Limit(2) == 0x1_0000 && Limit(4) == 0x1_0000_0000 && Limit(8) == 0x1_0000_0000_0000_0000
  {
    assert Limit(3) == 0x100_0000;
    assert Limit(6) == 0x1_0000_0000_0000;
  }

  function KindByte(k: Kind): (b: byte)
    ensures 1 <= b <= |KINDS| && KINDS[b - 1] == k
  {
    match k
    case Start => 1
    case Reconcile => 2
    case Release => 3
    case Cancel => 4
    case Result => 5
    case Observation => 6
    case Completion => 7
    case Preparing => 8
    case IdleCheck => 9
    case IdleConfirmed => 10
    case SecretDelivery => 11
    case SecretCheck => 12
    case SecretConfirmed => 13
    case MaximumCheck => 14
    case MaximumConfirmed => 15
  }

  lemma KindByteIsCanonical(b: byte)
    requires 1 <= b <= |KINDS|
    ensures KindByte(KINDS[b - 1]) == b
  {
  }

  /** What a packet must be to cross the channel. */
  predicate Sendable(p: Packet) {
    && 0 < p.sequence < 0x1_0000_0000_0000_0000
    && |p.payload| <= MAXIMUM_PAYLOAD && |p.files| <= MAXIMUM_FILES
    && forall f :: f in p.files ==> f.readOnlyRegular
  }

  function Header(kind: byte, sequence: nat, payload: nat, files: nat): (t: Text)
    ensures |t| == HEADER_SIZE
  {
    MAGIC + [1, kind, 0, 0] + BigEndian(sequence, 8) + BigEndian(payload, 4) + BigEndian(files, 2) + [0, 0]
  }

  function Encode(p: Packet): Datagram {
    Datagram(Header(KindByte(p.kind), p.sequence, |p.payload|, |p.files|) + p.payload, p.files)
  }

  /** The framing checks of the receiving end. */
  function Decode(d: Datagram): Option<Packet> {
    var data := d.data;
    if |d.files| > MAXIMUM_FILES || |data| < HEADER_SIZE || |data| > HEADER_SIZE + MAXIMUM_PAYLOAD then None
    else if data[..4] != MAGIC || data[4] != 1 || !(1 <= data[5] <= |KINDS|) || data[6] != 0 || data[7] != 0
            || data[22] != 0 || data[23] != 0 || FromBigEndian(data[8..16]) == 0
            || FromBigEndian(data[16..20]) != |data| - HEADER_SIZE || FromBigEndian(data[20..22]) != |d.files| then None
    else if exists f :: f in d.files && !f.readOnlyRegular then None
    else Some(Packet(KINDS[data[5] - 1], FromBigEndian(data[8..16]), data[HEADER_SIZE..], d.files))
  }

  lemma HeaderFields(kind: byte, sequence: nat, payload: nat, files: nat, rest: Text)
    ensures var data := Header(kind, sequence, payload, files) + rest;
      && data[..4] == MAGIC && data[4..8] == [1, kind, 0, 0] && data[8..16] == BigEndian(sequence, 8)
      && data[16..20] == BigEndian(payload, 4) && data[20..22] == BigEndian(files, 2) && data[22..24] == [0, 0]
      && data[HEADER_SIZE..] == rest
  {
  }

  /** Decoding undoes encoding. */
  lemma EncodeDecodes(p: Packet)
    requires Sendable(p)
    ensures Decode(Encode(p)) == Some(p)
  {
    hide BigEndian, FromBigEndian;
    HeaderFields(KindByte(p.kind), p.sequence, |p.payload|, |p.files|, p.payload);
    Limits();
    BigEndianDecodes(p.sequence, 8);
    BigEndianDecodes(|p.payload|, 4);
    BigEndianDecodes(|p.files|, 2);
    var data := Encode(p).data;
    assert data[4] == data[4..8][0] && data[5] == data[4..8][1] && data[6] == data[4..8][2] && data[7] == data[4..8][3];
    assert data[22] == data[22..24][0] && data[23] == data[22..24][1];
  }

  /** Every message that is accepted is the encoding of the packet it is taken for. */
  lemma DecodeIsCanonical(d: Datagram)
    requires Decode(d).Some?
    ensures Sendable(Decode(d).value) && Encode(Decode(d).value) == d
  {
    hide BigEndian, FromBigEndian;
    var data := d.data;
    Limits();
    BigEndianIsCanonical(data[8..16]);
    BigEndianIsCanonical(data[16..20]);
    BigEndianIsCanonical(data[20..22]);
    KindByteIsCanonical(data[5]);
    assert data[4..8] == [1, data[5], 0, 0];
    assert data[22..24] == [0, 0];
    assert data == data[..4] + data[4..8] + data[8..16] + data[16..20] + data[20..22] + data[22..24] + data[24..];
  }

  function Encoded(packets: seq<Packet>): (ds: seq<Datagram>)
    ensures |ds| == |packets|
  {
    seq(|packets|, i requires 0 <= i < |packets| => Encode(packets[i]))
  }

  /** One end of a channel. */
  class Channel {
    // Deadlines hold, the peer stays authenticated and the socket works.
    const healthy: bool
    var closed: bool
    var readSequence: nat
    var writeSequence: nat
    var sent: seq<Datagram>
    var inbox: seq<Datagram>

    constructor (healthy: bool, inbox: seq<Datagram>)
      ensures this.healthy == healthy && this.inbox == inbox && sent == []
      ensures !closed && readSequence == writeSequence == 0
    {
      this.healthy, this.inbox, sent := healthy, inbox, [];
      closed, readSequence, writeSequence := false, 0, 0;
    }

    method Close()
      modifies this`closed
      ensures closed
    {
      closed := true;
    }

    /** Sends the next packet, or closes the channel. */
    method Send(p: Packet) returns (ok: bool)
      modifies this`closed, this`writeSequence, this`sent
      ensures ok ==> !old(closed) && !closed && Sendable(p) && p.sequence == old(writeSequence) + 1
      ensures ok ==> writeSequence == p.sequence && sent == old(sent) + [Encode(p)]
      ensures !ok ==> closed && writeSequence == old(writeSequence) && sent == old(sent)
      ensures healthy && !old(closed) && Sendable(p) && p.sequence == old(writeSequence) + 1 ==> ok
    {
      var works: bool := *;
      if closed || !(healthy || works) || p.sequence == 0 || p.sequence != writeSequence + 1 || !Sendable(p) {
        closed := true;
        return false;
      }
      sent, writeSequence := sent + [Encode(p)], p.sequence;
      return true;
    }

    /** The message has the right form and the next sequence number. */
    predicate Acceptable(d: Datagram)
      reads this
    {
      Decode(d).Some? && Decode(d).value.sequence == readSequence + 1
    }

    /** Receives the next packet, or closes the channel. */
    method Receive() returns (p: Option<Packet>)
      modifies this`closed, this`readSequence, this`inbox
      ensures p.Some? ==> !old(closed) && !closed && old(inbox) != [] && inbox == old(inbox)[1..]
      ensures p.Some? ==> Decode(old(inbox)[0]) == p && p.value.sequence == old(readSequence) + 1 == readSequence
      ensures p.None? ==> closed && readSequence == old(readSequence)
      ensures healthy && !old(closed) && old(inbox) != [] && old(Acceptable(inbox[0])) ==> p.Some?
    {
      var works: bool := *;
      if closed || !(healthy || works) || inbox == [] {
        closed := true;
        return None;
      }
      p, inbox := Decode(inbox[0]), inbox[1..];
      if p.None? || p.value.sequence != readSequence + 1 {
        closed := true;
        return None;
      }
      readSequence := p.value.sequence;
    }
  }
}
