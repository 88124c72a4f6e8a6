/** UDP packets: key, IV, ciphertext, tag and padding, written in place around the plaintext. */
module Packet {
  import opened Wire

  const KEY_SIZE := 32
  const IV_SIZE := 12
  const TAG_SIZE := 16
  const PADDING_SIZE := 8
  const PLAIN_OFFSET := KEY_SIZE + IV_SIZE                         // keyAndIvOffSet
  const OVERHEAD := PLAIN_OFFSET + TAG_SIZE + PADDING_SIZE
  const ID_SIZE := 16                                              // sessionIdSize
  const FAILED := 0xFFFF_FFFF                                      // -1 as uint32_t

  type SessionId = s: seq<byte> | |s| == ID_SIZE witness seq(ID_SIZE, _ => 0)

  /** AES-256-GCM (NIST SP 800-38D, sections 7.1 and 7.2): a length-preserving cipher, and a
      tag over what it produced. */
  datatype Aead = Aead(
    encrypt: (seq<byte>, seq<byte>, seq<byte>) -> seq<byte>,
    decrypt: (seq<byte>, seq<byte>, seq<byte>) -> seq<byte>,
    tag: (seq<byte>, seq<byte>, seq<byte>) -> seq<byte>)

  ghost predicate Lawful(c: Aead) {
    forall key, iv, text ::
      && |c.encrypt(key, iv, text)| == |text| == |c.decrypt(key, iv, text)|
      && |c.tag(key, iv, text)| == TAG_SIZE
      && c.decrypt(key, iv, c.encrypt(key, iv, text)) == text
  }

  function Zeros(n: nat): seq<byte> {
    seq(n, _ => 0)
  }

  /** What `doEncrypt` leaves at the start of the buffer. */
  function Seal(c: Aead, key: seq<byte>, iv: seq<byte>, plain: seq<byte>): seq<byte> {
    var text := c.encrypt(key, iv, plain);
    key + iv + text + c.tag(key, iv, text) + Zeros(PADDING_SIZE)
  }

  function Key(packet: seq<byte>): seq<byte>
    requires |packet| >= OVERHEAD
  {
    packet[..KEY_SIZE]
  }

  function Iv(packet: seq<byte>): seq<byte>
    requires |packet| >= OVERHEAD
  {
    packet[KEY_SIZE..PLAIN_OFFSET]
  }

  function Text(packet: seq<byte>): seq<byte>
    requires |packet| >= OVERHEAD
  {
    packet[PLAIN_OFFSET..|packet| - TAG_SIZE - PADDING_SIZE]
  }

  function Tag(packet: seq<byte>): seq<byte>
    requires |packet| >= OVERHEAD
  {
    packet[|packet| - TAG_SIZE - PADDING_SIZE..|packet| - PADDING_SIZE]
  }

  predicate Authentic(c: Aead, packet: seq<byte>) {
    |packet| >= OVERHEAD && c.tag(Key(packet), Iv(packet), Text(packet)) == Tag(packet)
  }

  function Plain(c: Aead, packet: seq<byte>): seq<byte>
    requires |packet| >= OVERHEAD
  {
    c.decrypt(Key(packet), Iv(packet), Text(packet))
  }

  /** Sealing adds 68 bytes, and what was sealed is accepted and opens to the same plaintext. */
  lemma OpenSeal(c: Aead, key: seq<byte>, iv: seq<byte>, plain: seq<byte>)
    requires Lawful(c) && |key| == KEY_SIZE && |iv| == IV_SIZE
    ensures |Seal(c, key, iv, plain)| == |plain| + 68
    ensures Authentic(c, Seal(c, key, iv, plain)) && Plain(c, Seal(c, key, iv, plain)) == plain
  {
    var packet, text := Seal(c, key, iv, plain), c.encrypt(key, iv, plain);
    assert |text| == |plain| && |c.tag(key, iv, text)| == TAG_SIZE;
    assert Key(packet) == key && Iv(packet) == iv && Text(packet) == text;
    assert Tag(packet) == c.tag(key, iv, text);
  }

  /** Where a sealed packet holds what: key, IV, ciphertext, tag and eight zero bytes. */
  lemma SealLayout(c: Aead, key: seq<byte>, iv: seq<byte>, plain: seq<byte>)
    requires Lawful(c) && |key| == KEY_SIZE && |iv| == IV_SIZE
    ensures var p, n := Seal(c, key, iv, plain), |plain|;
      && |key| == 32 && |iv| == 12 && |p| == n + 68
      && p[..32] == key && p[32..44] == iv && p[44..44 + n] == c.encrypt(key, iv, plain)
      && p[44 + n..60 + n] == c.tag(key, iv, c.encrypt(key, iv, plain))
      && p[60 + n..] == [0, 0, 0, 0, 0, 0, 0, 0]
  {
    var p, text := Seal(c, key, iv, plain), c.encrypt(key, iv, plain);
    assert |text| == |plain| && |c.tag(key, iv, text)| == TAG_SIZE;
    assert p[60 + |plain|..] == Zeros(PADDING_SIZE);
  }

  /** The tag a packet should carry, by the places of key, IV and ciphertext. */
  function TagDue(c: Aead, p: seq<byte>): seq<byte>
    requires |p| >= 68
  {
    c.tag(p[..32], p[32..44], p[44..|p| - 24])
  }

  /** A packet is accepted exactly when it is long enough and the 16 bytes in front of its padding are the
      tag of its key, IV and ciphertext; it then holds the decryption of that ciphertext. */
  lemma AcceptedExact(c: Aead, p: seq<byte>)
    ensures Authentic(c, p) <==> |p| >= 68 && p[|p| - 24..|p| - 8] == TagDue(c, p)
    ensures |p| >= 68 ==> Plain(c, p) == c.decrypt(p[..32], p[32..44], p[44..|p| - 24])
  {
  }

  /** Changing the tag of an accepted packet, whatever its padding, has it rejected: two accepted
      packets that agree up to the tag have the same tag. */
  lemma TagsAgree(c: Aead, p: seq<byte>, q: seq<byte>)
    requires Authentic(c, p) && |q| == |p| && q[..|p| - 24] == p[..|p| - 24]
    ensures Authentic(c, q) <==> q[|p| - 24..|p| - 8] == p[|p| - 24..|p| - 8]
  {
    AcceptedExact(c, p);
    AcceptedExact(c, q);
    var n := |p| - 24;
    assert forall lo, hi | 0 <= lo <= hi <= n :: q[lo..hi] == q[..n][lo..hi] && p[lo..hi] == p[..n][lo..hi];
    assert q[..32] == p[..32] && q[32..44] == p[32..44] && q[44..n] == p[44..n];
  }

  /** In particular a sealed packet with a byte of its tag changed is rejected. */
  lemma TamperedRejected(c: Aead, key: seq<byte>, iv: seq<byte>, plain: seq<byte>, k: nat, x: byte)
    requires Lawful(c) && |key| == KEY_SIZE && |iv| == IV_SIZE && k < 16
    ensures |Seal(c, key, iv, plain)| == |plain| + 68
    ensures var p, at := Seal(c, key, iv, plain), 44 + |plain| + k;
      !Authentic(c, p[at := x]) <==> x != p[at]
  {
    OpenSeal(c, key, iv, plain);
    var p, n := Seal(c, key, iv, plain), 44 + |plain|;
    var q := p[n + k := x];
    assert q[..n] == p[..n];
    TagsAgree(c, p, q);
    assert q[n..n + 16][k] == x && p[n..n + 16][k] == p[n + k];
    if x == p[n + k] {
      assert q == p;
    }
  }

  lemma SealParts(c: Aead, key: seq<byte>, iv: seq<byte>, plain: seq<byte>)
    ensures var text := c.encrypt(key, iv, plain);
      Seal(c, key, iv, plain) == key + iv + (text + c.tag(key, iv, text) + Zeros(PADDING_SIZE))
  {
  }

  // ---------- in place ----------

  /** `s` with `bytes` written at `at`. */
  function Patched(s: seq<byte>, at: nat, bytes: seq<byte>): seq<byte>
    requires at + |bytes| <= |s|
  {
    s[..at] + bytes + s[at + |bytes|..]
  }

  /** Two writes next to each other are one. */
  lemma PatchTwice(s: seq<byte>, at: nat, a: seq<byte>, b: seq<byte>)
    requires at + |a| + |b| <= |s|
    ensures Patched(Patched(s, at, a), at + |a|, b) == Patched(s, at, a + b)
  {
    var t := Patched(s, at, a);
    assert t[..at + |a|] == s[..at] + a && t[at + |a| + |b|..] == s[at + |a| + |b|..];
  }

  lemma PatchOutside(s: seq<byte>, at: nat, a: seq<byte>, lo: nat, hi: nat)
    requires at + |a| <= |s| && lo <= hi <= |s| && (hi <= at || at + |a| <= lo)
    ensures Patched(s, at, a)[lo..hi] == s[lo..hi]
  {
  }

  /** The patch is where it was written, and behind it nothing changed. */
  lemma PatchedParts(s: seq<byte>, at: nat, a: seq<byte>, end: nat)
    requires at + |a| <= end <= |s|
    ensures Patched(s, at, a)[at..at + |a|] == a && Patched(s, at, a)[end..] == s[end..]
  {
  }

  method Write(buffer: array<byte>, at: nat, bytes: seq<byte>)
    requires at + |bytes| <= buffer.Length
    modifies buffer
    ensures buffer[..] == Patched(old(buffer[..]), at, bytes)
  {
    for n := 0 to |bytes|
      invariant buffer[..] == Patched(old(buffer[..]), at, bytes[..n])
    {
      buffer[at + n] := bytes[n];
      assert bytes[..n + 1] == bytes[..n] + [bytes[n]];
    }
    assert bytes[..|bytes|] == bytes;
  }

  /** `doEncrypt`: the plaintext is at offset 44; `key` and `iv` are the random numbers drawn. */
  method DoEncrypt(c: Aead, buffer: array<byte>, dataSize: nat, key: seq<byte>, iv: seq<byte>) returns (r: nat)
    requires Lawful(c) && |key| == KEY_SIZE && |iv| == IV_SIZE
    requires dataSize + OVERHEAD <= buffer.Length
    modifies buffer
    ensures dataSize == 0 ==> r == 0xFFFF_FFFF && buffer[..] == old(buffer[..])
    ensures dataSize > 0 ==>
      && r == dataSize + 68
      && buffer[..] == Patched(old(buffer[..]), 0, Seal(c, key, iv, old(buffer[44..44 + dataSize])))
  {
    if dataSize == 0 {
      return FAILED;
    }
    ghost var b := buffer[..];
    Write(buffer, 0, key);
    Write(buffer, KEY_SIZE, iv);
    PatchTwice(b, 0, key, iv);
    PatchOutside(b, 0, key + iv, PLAIN_OFFSET, PLAIN_OFFSET + dataSize);
    assert buffer[PLAIN_OFFSET..PLAIN_OFFSET + dataSize] == buffer[..][PLAIN_OFFSET..PLAIN_OFFSET + dataSize];
    var plain := buffer[PLAIN_OFFSET..PLAIN_OFFSET + dataSize];
    var text := c.encrypt(key, iv, plain);
    var tag := c.tag(key, iv, text);
    r := Finish(buffer, dataSize, text, tag);
    PatchTwice(b, 0, key + iv, text + tag + Zeros(PADDING_SIZE));
    SealParts(c, key, iv, plain);
  }

  /** The ciphertext over the plaintext, then tag and padding. */
  method Finish(buffer: array<byte>, dataSize: nat, text: seq<byte>, tag: seq<byte>) returns (r: nat)
    requires |text| == dataSize && |tag| == TAG_SIZE && dataSize + OVERHEAD <= buffer.Length
    modifies buffer
    ensures buffer[..] == Patched(old(buffer[..]), PLAIN_OFFSET, text + tag + Zeros(PADDING_SIZE))
    ensures r == dataSize + OVERHEAD
  {
    ghost var b := buffer[..];
    Write(buffer, PLAIN_OFFSET, text);
    Write(buffer, PLAIN_OFFSET + dataSize, tag);
    PatchTwice(b, PLAIN_OFFSET, text, tag);
    Write(buffer, PLAIN_OFFSET + dataSize + TAG_SIZE, Zeros(PADDING_SIZE));
    PatchTwice(b, PLAIN_OFFSET, text + tag, Zeros(PADDING_SIZE));
    r := dataSize + OVERHEAD;
  }

  /** `doDecrypt`: the plaintext replaces the ciphertext, and only then the tag is checked. */
  method DoDecrypt(c: Aead, buffer: array<byte>, dataSize: nat) returns (r: nat)
    requires Lawful(c) && dataSize <= buffer.Length && dataSize < FAILED
    modifies buffer
    ensures dataSize < OVERHEAD ==> buffer[..] == old(buffer[..])
    ensures dataSize >= OVERHEAD ==>
      buffer[..] == Patched(old(buffer[..]), PLAIN_OFFSET, Plain(c, old(buffer[..dataSize])))
    ensures r == if Authentic(c, old(buffer[..dataSize])) then dataSize - OVERHEAD else FAILED
    ensures r != 0xFFFF_FFFF <==>
              && dataSize >= 68
              && old(buffer[dataSize - 24..dataSize - 8])
                 == c.tag(old(buffer[..32]), old(buffer[32..44]), old(buffer[44..dataSize - 24]))
    ensures r != 0xFFFF_FFFF ==> r == dataSize - 68
  {
    if dataSize < OVERHEAD {
      return FAILED;
    }
    var size := dataSize - OVERHEAD;
    var key, iv := buffer[..KEY_SIZE], buffer[KEY_SIZE..PLAIN_OFFSET];
    var text := buffer[PLAIN_OFFSET..PLAIN_OFFSET + size];
    ghost var b := buffer[..];
    ghost var packet := buffer[..dataSize];
    assert key == Key(packet) && iv == Iv(packet) && text == Text(packet);
    assert b[PLAIN_OFFSET + size..PLAIN_OFFSET + size + TAG_SIZE] == Tag(packet);
    AcceptedExact(c, packet);
    assert packet[dataSize - 24..dataSize - 8] == b[dataSize - 24..dataSize - 8];
    Write(buffer, PLAIN_OFFSET, c.decrypt(key, iv, text));
    PatchOutside(b, PLAIN_OFFSET, c.decrypt(key, iv, text), PLAIN_OFFSET + size, PLAIN_OFFSET + size + TAG_SIZE);
    var tag := buffer[PLAIN_OFFSET + size..PLAIN_OFFSET + size + TAG_SIZE];
    assert tag == buffer[..][PLAIN_OFFSET + size..PLAIN_OFFSET + size + TAG_SIZE];
    r := if c.tag(key, iv, text) == tag then size else FAILED;
  }

  // ---------- framing ----------

  /** The packet that carries a KCP segment of session `id`. */
  function Frame(c: Aead, key: seq<byte>, iv: seq<byte>, id: SessionId, segment: seq<byte>): seq<byte> {
    Seal(c, key, iv, id + segment)
  }

  /** What a packet is opened to: the 16 bytes of the id, then the segment. */
  lemma FrameLayout(c: Aead, key: seq<byte>, iv: seq<byte>, id: SessionId, segment: seq<byte>)
    requires Lawful(c) && |key| == KEY_SIZE && |iv| == IV_SIZE
    ensures var p := Frame(c, key, iv, id, segment);
      && Authentic(c, p) && |Plain(c, p)| == 16 + |segment|
      && Plain(c, p)[..16] == id && Plain(c, p)[16..] == segment
  {
    OpenSeal(c, key, iv, id + segment);
  }

  /** `kcpCallBack` up to the send: frame a segment in a fresh buffer, and seal it. */
  method KcpCallBack(c: Aead, buffer: array<byte>, id: SessionId, segment: seq<byte>, key: seq<byte>, iv: seq<byte>)
    returns (len: nat)
    requires Lawful(c) && |key| == KEY_SIZE && |iv| == IV_SIZE
    requires |segment| + 128 <= buffer.Length
    modifies buffer
    ensures len == |segment| + 84 <= |segment| + 128
    ensures buffer[..len] == Frame(c, key, iv, id, segment)
    ensures buffer[len..] == old(buffer[len..])
  {
    ghost var b := buffer[..];
    Write(buffer, PLAIN_OFFSET, id);
    Write(buffer, PLAIN_OFFSET + ID_SIZE, segment);
    PatchTwice(b, PLAIN_OFFSET, id, segment);
    ghost var framed := buffer[..];
    assert buffer[PLAIN_OFFSET..PLAIN_OFFSET + ID_SIZE + |segment|] == id + segment;
    OpenSeal(c, key, iv, id + segment);
    len := DoEncrypt(c, buffer, |segment| + ID_SIZE, key, iv);
    PatchedParts(b, PLAIN_OFFSET, id + segment, len);
    PatchedParts(framed, 0, Frame(c, key, iv, id, segment), len);
    assert buffer[..len] == buffer[..][..len] && buffer[len..] == buffer[..][len..];
  }
}
