/** The messages the two session halves exchange over KCP: a 4-byte status in
    network byte order, followed by an endpoint (newSession) or by raw TCP bytes (normal). */
module Wire {

  type byte = x: int | 0 <= x < 256
  type u16 = x: int | 0 <= x < 0x1_0000
  type u32 = x: int | 0 <= x < 0x1_0000_0000

  type Message = seq<byte>

  datatype Endpoint = Endpoint(ip: u32, port: u16)

  const NEW_SESSION: u32 := 0
  const NORMAL: u32 := 1

  const STATUS_SIZE := 4
  const BUFFER_SIZE := 2048

  /** What `htonl` leaves in memory. */
  function Pack32(v: u32): seq<byte> {
    [v / 0x100_0000, v / 0x1_0000 % 256, v / 0x100 % 256, v % 256]
  }

  function Pack16(v: u16): seq<byte> {
    [v / 0x100, v % 256]
  }

  function Unpack32(b: seq<byte>): u32
    requires |b| == 4
  {
    (b[0] as int) * 0x100_0000 + (b[1] as int) * 0x1_0000 + (b[2] as int) * 0x100 + b[3] as int
  }

  function Unpack16(b: seq<byte>): u16
    requires |b| == 2
  {
    (b[0] as int) * 0x100 + b[1] as int
  }

  function EncodeNewSession(ep: Endpoint): Message {
    Pack32(NEW_SESSION) + Pack32(ep.ip) + Pack16(ep.port)
  }

  function EncodeNormal(data: seq<byte>): Message {
    Pack32(NORMAL) + data
  }

  /** A message long enough for every field its receiver looks at. */
  predicate Framed(m: Message) {
    |m| >= STATUS_SIZE && (Status(m) == NEW_SESSION ==> |m| >= 10)
  }

  /** A message the receive loop can take: it fits the area the pool gives for it, and holds every
      field that is looked at. Only the VPS side looks into newSession messages. */
  predicate Receivable(m: Message, handshake: bool) {
    STATUS_SIZE <= |m| <= BUFFER_SIZE && (handshake ==> Framed(m))
  }

  function Status(m: Message): u32
    requires |m| >= STATUS_SIZE
  {
    Unpack32(m[..4])
  }

  predicate IsNormal(m: Message) {
    |m| >= STATUS_SIZE && Status(m) == NORMAL
  }

  datatype Command = NewSession(ep: Endpoint) | Normal(data: seq<byte>) | Ignored

  /** The receiver's view of a message. */
  function Decode(m: Message): Command
    requires Framed(m)
  {
    if Status(m) == NEW_SESSION then NewSession(Endpoint(Unpack32(m[4..8]), Unpack16(m[8..10])))
    else if Status(m) == NORMAL then Normal(m[STATUS_SIZE..])
    else Ignored
  }

  lemma UnpackPack32(v: u32)
    ensures Unpack32(Pack32(v)) == v
  {
    assert v / 0x1_0000 == v / 0x100_0000 * 256 + v / 0x1_0000 % 256;
    assert v / 0x100 == v / 0x1_0000 * 256 + v / 0x100 % 256;
    assert v == v / 0x100 * 256 + v % 256;
  }

  lemma NormalRoundTrip(data: seq<byte>)
    ensures Framed(EncodeNormal(data)) && Decode(EncodeNormal(data)) == Normal(data)
    ensures IsNormal(EncodeNormal(data))
  {
    var m := EncodeNormal(data);
    UnpackPack32(NORMAL);
    assert m[..4] == Pack32(NORMAL) && m[4..] == data;
  }

  lemma NewSessionRoundTrip(ep: Endpoint)
    ensures Framed(EncodeNewSession(ep)) && Decode(EncodeNewSession(ep)) == NewSession(ep)
    ensures !IsNormal(EncodeNewSession(ep))
  {
    var m := EncodeNewSession(ep);
    UnpackPack32(NEW_SESSION);
    UnpackPack32(ep.ip);
    assert m[..4] == Pack32(NEW_SESSION) && m[4..8] == Pack32(ep.ip) && m[8..10] == Pack16(ep.port);
  }

  /** The messages on the wire: the status as four bytes, most significant first, then the TCP bytes, or
      the address and the port, most significant byte first. */
  lemma WireFormat(ep: Endpoint, data: seq<byte>)
    ensures EncodeNormal(data) == [0, 0, 0, 1] + data
    ensures var m := EncodeNewSession(ep);
      && |m| == 10 && m[..4] == [0, 0, 0, 0]
      && ep.ip == (m[4] as int) * 0x100_0000 + (m[5] as int) * 0x1_0000 + (m[6] as int) * 0x100 + m[7] as int
      && ep.port == (m[8] as int) * 0x100 + m[9] as int
  {
    NewSessionRoundTrip(ep);
  }

  /** The TCP bytes a message carries. */
  function Payload(m: Message): seq<byte> {
    if IsNormal(m) then m[STATUS_SIZE..] else []
  }

  /** The TCP bytes a sequence of messages carries, in order. */
  function Bytes(ms: seq<Message>): seq<byte> {
    if ms == [] then [] else Payload(ms[0]) + Bytes(ms[1..])
  }

  lemma {:induction false} BytesConcat(a: seq<Message>, b: seq<Message>)
    ensures Bytes(a + b) == Bytes(a) + Bytes(b)
  {
    if a == [] {
      assert a + b == b;
    } else {
      assert (a + b)[1..] == a[1..] + b;
      BytesConcat(a[1..], b);
    }
  }

  lemma BytesSnoc(a: seq<Message>, m: Message)
    ensures Bytes(a + [m]) == Bytes(a) + Payload(m)
  {
    BytesConcat(a, [m]);
    assert Bytes([m]) == Payload(m) + Bytes([]);
  }

  /** The messages that carry TCP bytes. */
  function Normals(ms: seq<Message>): seq<Message> {
    if ms == [] then [] else (if IsNormal(ms[0]) then [ms[0]] else []) + Normals(ms[1..])
  }

  lemma {:induction false} NormalsConcat(a: seq<Message>, b: seq<Message>)
    ensures Normals(a + b) == Normals(a) + Normals(b)
    decreases |a|
  {
    if a == [] {
      assert a + b == b;
    } else {
      assert (a + b)[1..] == a[1..] + b;
      NormalsConcat(a[1..], b);
    }
  }

  /** The endpoints a sequence of messages asks to be connected to, in order. */
  function Announced(ms: seq<Message>): seq<Endpoint> {
    if ms == [] then []
    else (if Framed(ms[0]) && Decode(ms[0]).NewSession? then [Decode(ms[0]).ep] else []) + Announced(ms[1..])
  }

  lemma {:induction false} AnnouncedConcat(a: seq<Message>, b: seq<Message>)
    ensures Announced(a + b) == Announced(a) + Announced(b)
    decreases |a|
  {
    if a == [] {
      assert a + b == b;
    } else {
      assert (a + b)[1..] == a[1..] + b;
      AnnouncedConcat(a[1..], b);
    }
  }
}
