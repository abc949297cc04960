/** hp2p/peer.py, hp2p/protocol.py, hp2p/auth.py: the frames of the RLPx transport. The ciphers and the hash
    are parameters, of which only lengths and the agreement of keys are known. */
module Framing {
  import opened Bits
  import opened Options

  type Byte = x: int | 0 <= x < 256
  type Bytes = seq<Byte>

  const HEADER_LEN := 16
  const MAC_LEN := 16
  const HASH_LEN := 32
  const MAX_FRAME := 0x100_0000

  lemma {:induction false} XorBound(a: nat, b: nat, n: nat)
    requires a < Pow2(n) && b < Pow2(n)
    ensures Xor(a, b) < Pow2(n)
    decreases n
  {
    if n > 0 { XorBound(a / 2, b / 2, n - 1); }
  }

  lemma {:induction false} XorTwice(a: nat, b: nat)
    ensures Xor(Xor(a, b), b) == a
    decreases a + b
  {
    if a + b > 0 {
      XorHalf(a, b);
      XorHalf(Xor(a, b), b);
      XorTwice(a / 2, b / 2);
    }
  }

  lemma {:induction false} XorOut(a: nat, b: nat)
    ensures Xor(Xor(a, b), a) == b
    decreases a + b
  {
    if a + b > 0 {
      XorHalf(a, b);
      XorHalf(Xor(a, b), a);
      XorOut(a / 2, b / 2);
    }
  }

  lemma EightBits()
    ensures Pow2(8) == 256
  {
    assert Pow2(4) == 16;
  }

  function ByteXor(a: Byte, b: Byte): Byte {
    EightBits();
    XorBound(a, b, 8);
    Xor(a, b)
  }

  /** sxor */
  function Sxor(s: Bytes, t: Bytes): (r: Bytes)
    requires |s| == |t|
    ensures |r| == |s| && forall i :: 0 <= i < |s| ==> r[i] == Xor(s[i], t[i])
  {
    seq(|s|, i requires 0 <= i < |s| => ByteXor(s[i], t[i]))
  }

  /** keystream is the AES-CTR key stream of a secret, digest is Keccak-256, ecb is AES-ECB, and agree the
      elliptic-curve key agreement of a private with a public key. */
  datatype Crypto = Crypto(
    keystream: (Bytes, nat) -> Byte,
    digest: Bytes -> Bytes,
    ecb: (Bytes, Bytes) -> Bytes,
    agree: (Bytes, Bytes) -> Bytes,
    publicKey: Bytes -> Bytes)

  ghost predicate Lawful(c: Crypto) {
    && (forall x :: |c.digest(x)| == HASH_LEN)
    && (forall k, b :: |b| == HEADER_LEN ==> |c.ecb(k, b)| == HEADER_LEN)
    && (forall p, q :: c.agree(p, c.publicKey(q)) == c.agree(q, c.publicKey(p)))
  }

  /** The laws can be met. */
  lemma LawfulExists()
    ensures exists c :: Lawful(c)
  {
    var c := Crypto((k, i) => 0, x => seq(HASH_LEN, i => 0), (k, b) => seq(HEADER_LEN, i => 0), (p, q) => [], p => p);
    assert Lawful(c);
  }

  datatype Keys = Keys(aes: Bytes, mac: Bytes)

  /** One direction of a connection: what its MAC has absorbed, and the position in its key stream. */
  datatype Half = Half(mac: Bytes, pos: nat)

  /** The update of either stream cipher. */
  function Stream(c: Crypto, k: Keys, pos: nat, data: Bytes): (r: Bytes)
    ensures |r| == |data|
  {
    seq(|data|, i requires 0 <= i < |data| => ByteXor(data[i], c.keystream(k.aes, pos + i)))
  }

  lemma StreamTwice(c: Crypto, k: Keys, pos: nat, data: Bytes)
    ensures Stream(c, k, pos, Stream(c, k, pos, data)) == data
  {
    forall i | 0 <= i < |data| ensures Stream(c, k, pos, Stream(c, k, pos, data))[i] == data[i] {
      XorTwice(data[i], c.keystream(k.aes, pos + i));
    }
  }

  /** Ciphertext and plain text differ by the key stream from a position on. */
  ghost predicate Streamed(c: Crypto, k: Keys, pos: nat, cipher: Bytes, plain: Bytes) {
    |cipher| == |plain| && forall i: nat :: StreamedAt(c, k, pos, cipher, plain, i)
  }

  ghost predicate StreamedAt(c: Crypto, k: Keys, pos: nat, cipher: Bytes, plain: Bytes, i: nat) {
    i < |cipher| && i < |plain| ==> Xor(cipher[i], plain[i]) == c.keystream(k.aes, pos + i)
  }

  lemma StreamIsStreamed(c: Crypto, k: Keys, pos: nat, data: Bytes)
    ensures Streamed(c, k, pos, Stream(c, k, pos, data), data)
  {
    var cipher := Stream(c, k, pos, data);
    forall i: nat ensures StreamedAt(c, k, pos, cipher, data, i) {
      if i < |data| { XorOut(data[i], c.keystream(k.aes, pos + i)); }
    }
  }

  lemma StreamedConcat(c: Crypto, k: Keys, pos: nat, cipher: Bytes, plain: Bytes, cipher': Bytes, plain': Bytes)
    requires Streamed(c, k, pos, cipher, plain) && Streamed(c, k, pos + |plain|, cipher', plain')
    ensures Streamed(c, k, pos, cipher + cipher', plain + plain')
  {
    var cipher2, plain2 := cipher + cipher', plain + plain';
    forall i: nat ensures StreamedAt(c, k, pos, cipher2, plain2, i) {
      if i < |plain| {
        assert StreamedAt(c, k, pos, cipher, plain, i);
      } else {
        assert StreamedAt(c, k, pos + |plain|, cipher', plain', i - |plain|);
        assert pos + |plain| + (i - |plain|) == pos + i;
      }
    }
  }

  function Tag(c: Crypto, mac: Bytes): (r: Bytes)
    requires Lawful(c)
    ensures |r| == MAC_LEN
  {
    c.digest(mac)[..MAC_LEN]
  }

  /** What the MAC has absorbed after a header, and after a frame. */
  function HeaderMac(c: Crypto, k: Keys, mac: Bytes, ciphertext: Bytes): Bytes
    requires Lawful(c) && |ciphertext| == HEADER_LEN
  {
    mac + Sxor(c.ecb(k.mac, Tag(c, mac)), ciphertext)
  }

  function FrameMac(c: Crypto, k: Keys, mac: Bytes, ciphertext: Bytes): Bytes
    requires Lawful(c)
  {
    var m := mac + ciphertext;
    m + Sxor(c.ecb(k.mac, Tag(c, m)), Tag(c, m))
  }

  function AfterHeader(c: Crypto, k: Keys, h: Half, ciphertext: Bytes): Half
    requires Lawful(c) && |ciphertext| == HEADER_LEN
  {
    Half(HeaderMac(c, k, h.mac, ciphertext), h.pos + HEADER_LEN)
  }

  function AfterBody(c: Crypto, k: Keys, h: Half, ciphertext: Bytes): Half
    requires Lawful(c)
  {
    Half(FrameMac(c, k, h.mac, ciphertext), h.pos + |ciphertext|)
  }

  /** The MAC goes on with one block: the encrypted beginning of its digest, XORed with other. */
  ghost predicate Absorbs(c: Crypto, k: Keys, mac: Bytes, other: Bytes, mac': Bytes)
    requires Lawful(c) && |other| == 16
  {
    && |mac'| == |mac| + 16 && mac'[..|mac|] == mac
    && forall i :: 0 <= i < 16 ==> Xor(mac'[|mac| + i], other[i]) == c.ecb(k.mac, c.digest(mac)[..16])[i]
  }

  lemma SxorAbsorbs(c: Crypto, k: Keys, mac: Bytes, other: Bytes)
    requires Lawful(c) && |other| == 16
    ensures Absorbs(c, k, mac, other, mac + Sxor(c.ecb(k.mac, Tag(c, mac)), other))
  {
    var e := c.ecb(k.mac, Tag(c, mac));
    forall i | 0 <= i < 16 ensures Xor(Sxor(e, other)[i], other[i]) == e[i] { XorTwice(e[i], other[i]); }
  }

  /** What a header and a frame do to their direction: the key stream runs on through both, the MAC absorbs a block that
      masks the header's ciphertext, then the frame's ciphertext, then a block that masks the digest of all these, and
      each tag is the beginning of the digest of what the MAC has absorbed. */
  lemma PartsAreSealed(c: Crypto, k: Keys, h: Half, header: Bytes, frame: Bytes)
    requires Lawful(c) && |header| == HEADER_LEN
    ensures var hc := Stream(c, k, h.pos, header);
            var h1 := AfterHeader(c, k, h, hc);
            var fc := Stream(c, k, h1.pos, frame);
            var h2 := AfterBody(c, k, h1, fc);
            && Streamed(c, k, h.pos, hc, header) && Streamed(c, k, h.pos + 16, fc, frame) && h2.pos == h.pos + 16 + |frame|
            && Absorbs(c, k, h.mac, hc, h1.mac) && Absorbs(c, k, h1.mac + fc, c.digest(h1.mac + fc)[..16], h2.mac)
            && Tag(c, h1.mac) == c.digest(h1.mac)[..16] && Tag(c, h2.mac) == c.digest(h2.mac)[..16]
  {
    var hc := Stream(c, k, h.pos, header);
    var h1 := AfterHeader(c, k, h, hc);
    var fc := Stream(c, k, h1.pos, frame);
    StreamIsStreamed(c, k, h.pos, header);
    StreamIsStreamed(c, k, h1.pos, frame);
    SxorAbsorbs(c, k, h.mac, hc);
    SxorAbsorbs(c, k, h1.mac + fc, Tag(c, h1.mac + fc));
  }

  /** The MAC's input after a header, or after a frame, determines the ciphertext. */
  lemma MacsDetermine(c: Crypto, k: Keys, mac: Bytes, header: Bytes, header': Bytes, frame: Bytes, frame': Bytes)
    requires Lawful(c) && |header| == HEADER_LEN && |header'| == HEADER_LEN
    ensures HeaderMac(c, k, mac, header) == HeaderMac(c, k, mac, header') ==> header == header'
    ensures FrameMac(c, k, mac, frame) == FrameMac(c, k, mac, frame') ==> frame == frame'
  {
    var e, a, b := c.ecb(k.mac, Tag(c, mac)), HeaderMac(c, k, mac, header), HeaderMac(c, k, mac, header');
    if a == b {
      forall i | 0 <= i < HEADER_LEN ensures header[i] == header'[i] {
        assert a[|mac| + i] == Xor(e[i], header[i]) && b[|mac| + i] == Xor(e[i], header'[i]);
        XorOut(e[i], header[i]);
        XorOut(e[i], header'[i]);
      }
    }
    if FrameMac(c, k, mac, frame) == FrameMac(c, k, mac, frame') {
      assert |frame| == |frame'|;
      assert frame == FrameMac(c, k, mac, frame)[|mac|..|mac| + |frame|];
      assert frame' == FrameMac(c, k, mac, frame')[|mac|..|mac| + |frame|];
    }
  }

  /** Zero bytes up to the next multiple of 16. */
  function Padding(n: nat): (r: Bytes)
    ensures |r| == Roundup16(n) - n && forall i :: 0 <= i < |r| ==> r[i] == 0
  {
    seq(Roundup16(n) - n, i => 0)
  }

  function Roundup16(n: nat): (r: nat)
    ensures r >= n && r < n + 16 && r % 16 == 0
  {
    if n % 16 == 0 then n else n + 16 - n % 16
  }

  /** The RLP of a command id of up to 32 bits. */
  type CommandId = x: int | 0 <= x < 0x1_0000_0000

  function RlpInt(n: CommandId): (r: Bytes)
    ensures 1 <= |r| <= 5
    ensures n >= 128 ==> r[0] > 128
  {
    if n == 0 then [128]
    else if n < 128 then [n]
    else if n < 0x100 then [129, n]
    else if n < 0x1_0000 then [130, n / 0x100, n % 0x100]
    else if n < 0x100_0000 then [131, n / 0x1_0000, n / 0x100 % 0x100, n % 0x100]
    else [132, n / 0x100_0000, n / 0x1_0000 % 0x100, n / 0x100 % 0x100, n % 0x100]
  }

  ghost function BigEndian(s: Bytes): nat {
    if s == [] then 0 else 0x100 * BigEndian(s[..|s| - 1]) + s[|s| - 1]
  }

  lemma BigEndianUpTo4(s: Bytes)
    requires 1 <= |s| <= 4
    ensures |s| == 1 ==> BigEndian(s) == s[0]
    ensures |s| == 2 ==> BigEndian(s) == 0x100 * (s[0] as int) + s[1]
    ensures |s| == 3 ==> BigEndian(s) == 0x1_0000 * (s[0] as int) + 0x100 * (s[1] as int) + s[2]
    ensures |s| == 4 ==> BigEndian(s) == 0x100_0000 * (s[0] as int) + 0x1_0000 * (s[1] as int) + 0x100 * (s[2] as int) + s[3]
  {
    if |s| == 1 {
      assert s[..0] == [];
    } else {
      BigEndianUpTo4(s[..|s| - 1]);
    }
  }

  /** A small positive id is its own encoding; any other is its length above 128, then its bytes, the first not zero. */
  lemma RlpIntMeans(n: CommandId)
    ensures 0 < n < 128 ==> RlpInt(n) == [n]
    ensures !(0 < n < 128) ==>
              var r := RlpInt(n);
              r[0] == 128 + (|r| - 1) && BigEndian(r[1..]) == n && (|r| > 1 ==> r[1] > 0)
  {
    var r := RlpInt(n);
    assert n / 0x100 / 0x100 == n / 0x1_0000 && n / 0x1_0000 / 0x100 == n / 0x100_0000;
    if |r| > 1 { BigEndianUpTo4(r[1..]); }
  }

  /** get_devp2p_cmd_id: only the first byte is decoded; None is a decoding error. */
  function FirstByteId(b: Byte): Option<CommandId> {
    if 0 < b < 128 then Some(b) else if b == 128 then Some(0) else None
  }

  /** A first byte is decoded to an id exactly if it is the whole encoding of that id. */
  lemma FirstByteIdIff(b: Byte, n: CommandId)
    ensures FirstByteId(b) == Some(n) <==> RlpInt(n) == [b]
  {
    assert |RlpInt(n)| == 1 <==> n < 128;
  }

  /** A command with its encoded payload. */
  datatype Command = Command(id: CommandId, payload: Bytes)

  /** The bytes of a frame before padding. */
  function Body(cmd: Command): (r: Bytes)
    ensures r != []
  {
    RlpInt(cmd.id) + cmd.payload
  }

  /** The frame size in three bytes, then constant header data and padding. */
  function Header(size: nat): (r: Bytes)
    requires size < MAX_FRAME
    ensures |r| == HEADER_LEN
  {
    [size / 0x1_0000, size / 0x100 % 0x100, size % 0x100, 0xc2, 0x80, 0x80] + seq(10, i => 0)
  }

  function FrameSize(header: Bytes): nat
    requires |header| == HEADER_LEN
  {
    var high: int, middle: int, low: int := header[0], header[1], header[2];
    high * 0x1_0000 + middle * 0x100 + low
  }

  lemma FrameSizeOfHeader(size: nat)
    requires size < MAX_FRAME
    ensures FrameSize(Header(size)) == size
    ensures Header(size)[3..6] == [0xc2, 0x80, 0x80] && forall i :: 6 <= i < HEADER_LEN ==> Header(size)[i] == 0
  {
    assert size / 0x100 / 0x100 == size / 0x1_0000;
  }

  /** A command that can be sent: its frame fits, and its id is read back from the first byte. */
  predicate Sendable(cmd: Command) {
    cmd.id < 128 && |Body(cmd)| < MAX_FRAME
  }

  /** The padded body of a command. */
  function Padded(cmd: Command): Bytes {
    Body(cmd) + Padding(|Body(cmd)|)
  }

  /** The two parts of a frame on the wire, and the state of its direction after each. */
  function HeaderPart(c: Crypto, k: Keys, h: Half, cmd: Command): (r: Bytes)
    requires Lawful(c) && Sendable(cmd)
    ensures |r| == HEADER_LEN + MAC_LEN
  {
    Stream(c, k, h.pos, Header(|Body(cmd)|)) + Tag(c, AfterHeaderOf(c, k, h, cmd).mac)
  }

  function AfterHeaderOf(c: Crypto, k: Keys, h: Half, cmd: Command): Half
    requires Lawful(c) && Sendable(cmd)
  {
    AfterHeader(c, k, h, Stream(c, k, h.pos, Header(|Body(cmd)|)))
  }

  function BodyPart(c: Crypto, k: Keys, h: Half, cmd: Command): (r: Bytes)
    requires Lawful(c)
    ensures |r| == Roundup16(|Body(cmd)|) + MAC_LEN
  {
    Stream(c, k, h.pos, Padded(cmd)) + Tag(c, AfterBodyOf(c, k, h, cmd).mac)
  }

  function AfterBodyOf(c: Crypto, k: Keys, h: Half, cmd: Command): Half
    requires Lawful(c)
  {
    AfterBody(c, k, h, Stream(c, k, h.pos, Padded(cmd)))
  }

  /** The bytes that send a command, and the state after it. */
  function Frame(c: Crypto, k: Keys, h: Half, cmd: Command): Bytes
    requires Lawful(c) && Sendable(cmd)
  {
    HeaderPart(c, k, h, cmd) + BodyPart(c, k, AfterHeaderOf(c, k, h, cmd), cmd)
  }

  function AfterFrame(c: Crypto, k: Keys, h: Half, cmd: Command): Half
    requires Lawful(c) && Sendable(cmd)
  {
    AfterBodyOf(c, k, AfterHeaderOf(c, k, h, cmd), cmd)
  }

  /** The receiving end: while it waits for a body, it knows the size from the header it has read. */
  datatype Reader = Reader(half: Half, awaiting: Option<nat>)

  datatype ReadResult = Incomplete | BadMac | BadCommand | Got(cmd: Command)

  /** What reading from the bytes that have arrived gives, the state after it, and the bytes that are left. Incomplete
      stands for waiting; a later read goes on where this one stopped. */
  function ReadFrame(c: Crypto, k: Keys, r: Reader, buffer: Bytes): (ReadResult, Reader, Bytes)
    requires Lawful(c)
  {
    if r.awaiting.Some? then ReadBody(c, k, r.half, r.awaiting.value, buffer)
    else if |buffer| < HEADER_LEN + MAC_LEN then (Incomplete, r, buffer)
    else
      var header, rest := buffer[..HEADER_LEN], buffer[HEADER_LEN + MAC_LEN..];
      var h1 := AfterHeader(c, k, r.half, header);
      if buffer[HEADER_LEN..HEADER_LEN + MAC_LEN] != Tag(c, h1.mac) then (BadMac, Reader(Half(h1.mac, r.half.pos), None), rest)
      else
        ReadBody(c, k, h1, FrameSize(Stream(c, k, r.half.pos, header)), rest)
  }

  function ReadBody(c: Crypto, k: Keys, h: Half, size: nat, buffer: Bytes): (ReadResult, Reader, Bytes)
    requires Lawful(c)
  {
    var n := Roundup16(size);
    if |buffer| < n + MAC_LEN then (Incomplete, Reader(h, Some(size)), buffer)
    else
      var frame, rest := buffer[..n], buffer[n + MAC_LEN..];
      var h1 := AfterBody(c, k, h, frame);
      if buffer[n..n + MAC_LEN] != Tag(c, h1.mac) then (BadMac, Reader(Half(h1.mac, h.pos), None), rest)
      else (Decode(Stream(c, k, h.pos, frame)[..size]), Reader(h1, None), rest)
  }

  function Decode(body: Bytes): ReadResult {
    if body == [] then BadCommand
    else
      var id := FirstByteId(body[0]);
      if id.None? then BadCommand else Got(Command(id.value, body[1..]))
  }

  /** A command that can be sent is decoded from its body. */
  lemma DecodeBody(cmd: Command)
    ensures Decode(Body(cmd)) == Got(cmd) <==> cmd.id < 128
  {
    if cmd.id < 128 {
      assert Body(cmd)[1..] == cmd.payload;
    }
  }

  /** Reading any beginning of a body and what follows it: the command once all of it is there, and waiting before. */
  lemma ReadBodyPart(c: Crypto, k: Keys, h: Half, cmd: Command, buffer: Bytes, tail: Bytes)
    requires Lawful(c) && Sendable(cmd) && buffer <= BodyPart(c, k, h, cmd) + tail
    ensures ReadBody(c, k, h, |Body(cmd)|, buffer) ==
            if |buffer| < |BodyPart(c, k, h, cmd)| then (Incomplete, Reader(h, Some(|Body(cmd)|)), buffer)
            else (Got(cmd), Reader(AfterBodyOf(c, k, h, cmd), None), buffer[|BodyPart(c, k, h, cmd)|..])
  {
    var frame := Stream(c, k, h.pos, Padded(cmd));
    var h1, n := AfterBodyOf(c, k, h, cmd), |frame|;
    if |buffer| >= n + MAC_LEN {
      assert buffer[..n] == frame && buffer[n..n + MAC_LEN] == Tag(c, h1.mac);
      StreamTwice(c, k, h.pos, Padded(cmd));
      assert Padded(cmd)[..|Body(cmd)|] == Body(cmd);
      DecodeBody(cmd);
    }
  }

  /** Once its header has arrived, a frame is read as its body would be. */
  lemma ReadHeaderPart(c: Crypto, k: Keys, h: Half, cmd: Command, buffer: Bytes, tail: Bytes)
    requires Lawful(c) && Sendable(cmd) && buffer <= HeaderPart(c, k, h, cmd) + tail && |buffer| >= HEADER_LEN + MAC_LEN
    ensures ReadFrame(c, k, Reader(h, None), buffer) ==
            ReadBody(c, k, AfterHeaderOf(c, k, h, cmd), |Body(cmd)|, buffer[HEADER_LEN + MAC_LEN..])
  {
    var header := Stream(c, k, h.pos, Header(|Body(cmd)|));
    var h1 := AfterHeaderOf(c, k, h, cmd);
    assert buffer[..HEADER_LEN] == header && buffer[HEADER_LEN..HEADER_LEN + MAC_LEN] == Tag(c, h1.mac);
    StreamTwice(c, k, h.pos, Header(|Body(cmd)|));
    FrameSizeOfHeader(|Body(cmd)|);
  }

  /** Two MAC inputs that differ and whose digests begin alike. */
  ghost predicate Collide(c: Crypto, a: Bytes, b: Bytes) {
    a != b && |c.digest(a)| >= 16 && |c.digest(b)| >= 16 && c.digest(a)[..16] == c.digest(b)[..16]
  }

  /** A frame that was changed on the way is refused, unless the change collides in the beginning of the digest. */
  lemma ChangedFrameRefused(c: Crypto, k: Keys, h: Half, cmd: Command, frame: Bytes, rest: Bytes)
    requires Lawful(c) && Sendable(cmd)
    requires |frame| == |Padded(cmd)| && frame != Stream(c, k, h.pos, Padded(cmd))
    ensures var h1 := AfterBodyOf(c, k, h, cmd);
            || ReadBody(c, k, h, |Body(cmd)|, frame + Tag(c, h1.mac) + rest).0 == BadMac
            || Collide(c, FrameMac(c, k, h.mac, frame), h1.mac)
  {
    var header := seq(HEADER_LEN, i => 0);
    var h1 := AfterBodyOf(c, k, h, cmd);
    MacsDetermine(c, k, h.mac, header, header, frame, Stream(c, k, h.pos, Padded(cmd)));
    var buffer, n := frame + Tag(c, h1.mac) + rest, |frame|;
    assert buffer[..n] == frame && buffer[n..n + MAC_LEN] == Tag(c, h1.mac);
  }

  lemma ChangedHeaderRefused(c: Crypto, k: Keys, h: Half, cmd: Command, header: Bytes, rest: Bytes)
    requires Lawful(c) && Sendable(cmd)
    requires |header| == HEADER_LEN && header != Stream(c, k, h.pos, Header(|Body(cmd)|))
    ensures var h1 := AfterHeaderOf(c, k, h, cmd);
            || ReadFrame(c, k, Reader(h, None), header + Tag(c, h1.mac) + rest).0 == BadMac
            || Collide(c, HeaderMac(c, k, h.mac, header), h1.mac)
  {
    var h1 := AfterHeaderOf(c, k, h, cmd);
    MacsDetermine(c, k, h.mac, header, Stream(c, k, h.pos, Header(|Body(cmd)|)), [], []);
    var buffer := header + Tag(c, h1.mac) + rest;
    assert buffer[..HEADER_LEN] == header && buffer[HEADER_LEN..HEADER_LEN + MAC_LEN] == Tag(c, h1.mac);
  }

  /** Whatever follows on the wire, a frame is read as the command that was sent, and both ends stay in step. */
  lemma ReadWritten(c: Crypto, k: Keys, h: Half, cmd: Command, rest: Bytes)
    requires Lawful(c) && Sendable(cmd)
    ensures ReadFrame(c, k, Reader(h, None), Frame(c, k, h, cmd) + rest) ==
            (Got(cmd), Reader(AfterFrame(c, k, h, cmd), None), rest)
  {
    var first, second := HeaderPart(c, k, h, cmd), BodyPart(c, k, AfterHeaderOf(c, k, h, cmd), cmd);
    var wire := Frame(c, k, h, cmd) + rest;
    assert wire == first + (second + rest) && wire[|first|..] == second + rest;
    ReadHeaderPart(c, k, h, cmd, wire, second + rest);
    ReadBodyPart(c, k, AfterHeaderOf(c, k, h, cmd), cmd, second + rest, rest);
    assert (second + rest)[|second|..] == rest;
  }
}
