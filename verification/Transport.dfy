/** hp2p/peer.py: the two ends of an RLPx connection, from the secrets of the handshake on. */
module Transport {
  import opened Bits
  import opened Framing
  import opened Options

  /** derive_secrets: the keys and the two MAC states of one end. */
  datatype Secrets = Secrets(keys: Keys, egress: Bytes, ingress: Bytes)

  function DeriveSecrets(c: Crypto, isInitiator: bool, privateKey: Bytes, remotePublicKey: Bytes,
                         initiatorNonce: Bytes, responderNonce: Bytes, authInit: Bytes, authAck: Bytes): Secrets
    requires Lawful(c) && |initiatorNonce| == HASH_LEN && |responderNonce| == HASH_LEN
  {
    var agreed := c.agree(privateKey, remotePublicKey);
    var shared := c.digest(agreed + c.digest(responderNonce + initiatorNonce));
    var aes := c.digest(agreed + shared);
    var mac := c.digest(agreed + aes);
    var mac1 := Sxor(mac, responderNonce) + authInit;
    var mac2 := Sxor(mac, initiatorNonce) + authAck;
    if isInitiator then Secrets(Keys(aes, mac), mac1, mac2) else Secrets(Keys(aes, mac), mac2, mac1)
  }

  /** Both ends derive the same keys, and each end's egress MAC is the other's ingress MAC. */
  lemma SecretsCross(c: Crypto, initiatorKey: Bytes, responderKey: Bytes, initiatorNonce: Bytes, responderNonce: Bytes,
                     authInit: Bytes, authAck: Bytes)
    requires Lawful(c) && |initiatorNonce| == HASH_LEN && |responderNonce| == HASH_LEN
    ensures var i := DeriveSecrets(c, true, initiatorKey, c.publicKey(responderKey), initiatorNonce, responderNonce, authInit, authAck);
            var r := DeriveSecrets(c, false, responderKey, c.publicKey(initiatorKey), initiatorNonce, responderNonce, authInit, authAck);
            i.keys == r.keys && i.egress == r.ingress && i.ingress == r.egress
  {
    assert c.agree(initiatorKey, c.publicKey(responderKey)) == c.agree(responderKey, c.publicKey(initiatorKey));
  }

  /** How one end's secrets follow from the agreed key, the nonces and the handshake messages: the initiator's egress MAC
      starts with the responder's nonce and the first message, its ingress MAC with its own nonce and the answer. */
  lemma SecretsMean(c: Crypto, isInitiator: bool, privateKey: Bytes, remotePublicKey: Bytes,
                    initiatorNonce: Bytes, responderNonce: Bytes, authInit: Bytes, authAck: Bytes)
    requires Lawful(c) && |initiatorNonce| == HASH_LEN && |responderNonce| == HASH_LEN
    ensures var s := DeriveSecrets(c, isInitiator, privateKey, remotePublicKey, initiatorNonce, responderNonce, authInit, authAck);
            var agreed := c.agree(privateKey, remotePublicKey);
            && s.keys.aes == c.digest(agreed + c.digest(agreed + c.digest(responderNonce + initiatorNonce)))
            && s.keys.mac == c.digest(agreed + s.keys.aes)
            && StartsMac(s.keys.mac, responderNonce, authInit, if isInitiator then s.egress else s.ingress)
            && StartsMac(s.keys.mac, initiatorNonce, authAck, if isInitiator then s.ingress else s.egress)
  {
    var s := DeriveSecrets(c, isInitiator, privateKey, remotePublicKey, initiatorNonce, responderNonce, authInit, authAck);
    SxorStartsMac(s.keys.mac, responderNonce, authInit);
    SxorStartsMac(s.keys.mac, initiatorNonce, authAck);
  }

  /** The MAC has absorbed its secret XORed with a nonce, and then a message. */
  ghost predicate StartsMac(secret: Bytes, nonce: Bytes, message: Bytes, mac: Bytes)
    requires |secret| == HASH_LEN && |nonce| == HASH_LEN
  {
    && |mac| == 32 + |message| && mac[32..] == message
    && forall i :: 0 <= i < 32 ==> Xor(mac[i], nonce[i]) == secret[i]
  }

  lemma SxorStartsMac(secret: Bytes, nonce: Bytes, message: Bytes)
    requires |secret| == HASH_LEN && |nonce| == HASH_LEN
    ensures StartsMac(secret, nonce, message, Sxor(secret, nonce) + message)
  {
    var mac := Sxor(secret, nonce) + message;
    forall i | 0 <= i < 32 ensures Xor(mac[i], nonce[i]) == secret[i] { XorTwice(secret[i], nonce[i]); }
  }

  /** What decrypting gives: an error on the length or the MAC, or the plain bytes. */
  datatype Decrypted = WrongLength | WrongMac | Plain(bytes: Bytes)

  class Peer {
    const crypto: Crypto
    const keys: Keys
    var egress: Bytes
    var encPos: nat
    var ingress: Bytes
    var decPos: nat
    /** Where read_msg waits for the rest of a frame: the size its header gave. */
    var awaiting: Option<nat>

    constructor (crypto: Crypto, s: Secrets)
      ensures this.crypto == crypto && keys == s.keys
      ensures Sending() == Half(s.egress, 0) && Reading() == Reader(Half(s.ingress, 0), None)
    {
      this.crypto, keys, egress, ingress, encPos, decPos := crypto, s.keys, s.egress, s.ingress, 0, 0;
      awaiting := None;
    }

    function Sending(): Half
      reads this
    {
      Half(egress, encPos)
    }

    function Receiving(): Half
      reads this
    {
      Half(ingress, decPos)
    }

    function Reading(): Reader
      reads this
    {
      Reader(Receiving(), awaiting)
    }

    /** encrypt; None is the error on a header of the wrong length. */
    method Encrypt(header: Bytes, frame: Bytes) returns (r: Option<Bytes>)
      requires Lawful(crypto)
      modifies `egress, `encPos
      ensures r.None? <==> |header| != HEADER_LEN
      ensures r.None? ==> Sending() == old(Sending())
      ensures r.Some? ==>
                var hc := Stream(crypto, keys, old(encPos), header);
                var h1 := AfterHeader(crypto, keys, old(Sending()), hc);
                var fc := Stream(crypto, keys, h1.pos, frame);
                var h2 := AfterBody(crypto, keys, h1, fc);
                r.value == hc + Tag(crypto, h1.mac) + fc + Tag(crypto, h2.mac) && Sending() == h2
    {
      if |header| != HEADER_LEN { return None; }
      var headerCiphertext := Stream(crypto, keys, encPos, header);
      encPos := encPos + |header|;
      var macSecret := Tag(crypto, egress);
      egress := egress + Sxor(crypto.ecb(keys.mac, macSecret), headerCiphertext);
      var headerMac := Tag(crypto, egress);
      var frameCiphertext := Stream(crypto, keys, encPos, frame);
      encPos := encPos + |frame|;
      egress := egress + frameCiphertext;
      var seed := Tag(crypto, egress);
      egress := egress + Sxor(crypto.ecb(keys.mac, seed), seed);
      var frameMac := Tag(crypto, egress);
      return Some(headerCiphertext + headerMac + frameCiphertext + frameMac);
    }

    /** encode and send: the bytes written, or None where the source raises an error before it writes. */
    method Send(cmd: Command) returns (r: Option<Bytes>)
      requires Lawful(crypto)
      modifies `egress, `encPos
      ensures r.Some? <==> Sendable(cmd)
      ensures r.Some? <==> cmd.id < 128 && |cmd.payload| + 1 < 0x100_0000
      ensures r.None? ==> Sending() == old(Sending())
      ensures r.Some? ==>
                && r.value == Frame(crypto, keys, old(Sending()), cmd)
                && Sending() == AfterFrame(crypto, keys, old(Sending()), cmd)
    {
      var body := RlpInt(cmd.id) + cmd.payload;
      if |body| >= MAX_FRAME { return None; }
      var header := Header(|body|);
      var padded := body + Padding(|body|);
      if FirstByteId(padded[0]).None? { return None; }
      r := Encrypt(header, padded);
    }

    /** decrypt_header */
    method DecryptHeader(data: Bytes) returns (r: Decrypted)
      requires Lawful(crypto)
      modifies `ingress, `decPos
      ensures |data| != HEADER_LEN + MAC_LEN ==> r == WrongLength && Receiving() == old(Receiving())
      ensures |data| == HEADER_LEN + MAC_LEN ==>
                var h1 := AfterHeader(crypto, keys, old(Receiving()), data[..HEADER_LEN]);
                if data[HEADER_LEN..] != Tag(crypto, h1.mac) then r == WrongMac && Receiving() == Half(h1.mac, old(decPos))
                else r == Plain(Stream(crypto, keys, old(decPos), data[..HEADER_LEN])) && Receiving() == h1
    {
      if |data| != HEADER_LEN + MAC_LEN { return WrongLength; }
      var ciphertext, mac := data[..HEADER_LEN], data[HEADER_LEN..];
      ingress := ingress + Sxor(crypto.ecb(keys.mac, Tag(crypto, ingress)), ciphertext);
      if Tag(crypto, ingress) != mac { return WrongMac; }
      r := Plain(Stream(crypto, keys, decPos, ciphertext));
      decPos := decPos + |ciphertext|;
    }

    /** decrypt_body */
    method DecryptBody(data: Bytes, size: nat) returns (r: Decrypted)
      requires Lawful(crypto)
      modifies `ingress, `decPos
      ensures |data| < Roundup16(size) + MAC_LEN ==> r == WrongLength && Receiving() == old(Receiving())
      ensures |data| >= Roundup16(size) + MAC_LEN ==>
                var n := Roundup16(size);
                var h1 := AfterBody(crypto, keys, old(Receiving()), data[..n]);
                if data[n..n + MAC_LEN] != Tag(crypto, h1.mac) then r == WrongMac && Receiving() == Half(h1.mac, old(decPos))
                else r == Plain(Stream(crypto, keys, old(decPos), data[..n])[..size]) && Receiving() == h1
    {
      var n := Roundup16(size);
      if |data| < n + MAC_LEN { return WrongLength; }
      var ciphertext, mac := data[..n], data[n..n + MAC_LEN];
      ingress := ingress + ciphertext;
      var seed := Tag(crypto, ingress);
      ingress := ingress + Sxor(crypto.ecb(keys.mac, seed), seed);
      if Tag(crypto, ingress) != mac { return WrongMac; }
      r := Plain(Stream(crypto, keys, decPos, ciphertext)[..size]);
      decPos := decPos + |ciphertext|;
    }

    /** read_msg on the bytes that have arrived. It waits for the header, then for the body; Incomplete is the state in
        which it waits, and the next call goes on from there. */
    method ReadMsg(buffer: Bytes) returns (r: ReadResult, rest: Bytes)
      requires Lawful(crypto)
      modifies `ingress, `decPos, `awaiting
      ensures (r, Reading(), rest) == ReadFrame(crypto, keys, old(Reading()), buffer)
    {
      if awaiting.Some? {
        r, rest := ReadBodyOf(awaiting.value, buffer);
        return;
      }
      if |buffer| < HEADER_LEN + MAC_LEN { return Incomplete, buffer; }
      rest := buffer[HEADER_LEN + MAC_LEN..];
      var header := DecryptHeader(buffer[..HEADER_LEN + MAC_LEN]);
      assert buffer[..HEADER_LEN + MAC_LEN][..HEADER_LEN] == buffer[..HEADER_LEN];
      assert buffer[..HEADER_LEN + MAC_LEN][HEADER_LEN..] == buffer[HEADER_LEN..HEADER_LEN + MAC_LEN];
      if header.WrongMac? { return BadMac, rest; }
      r, rest := ReadBodyOf(FrameSize(header.bytes), rest);
    }

    /** Reading, on a connection that is in step: flight is still on its way, and the writer is in the given state. */
    method ReadStep(arrived: Bytes, ghost flight: Bytes, ghost pending: seq<Command>, ghost writer: Half)
        returns (r: ReadResult, rest: Bytes, ghost pending': seq<Command>)
      requires InStep(crypto, keys, Reading(), arrived + flight, pending, writer)
      modifies `ingress, `decPos, `awaiting
      ensures InStep(crypto, keys, Reading(), rest + flight, pending', writer)
      ensures if pending != [] && |arrived| >= Needed(old(Reading()), pending[0])
              then r == Got(pending[0]) && pending' == pending[1..]
              else r == Incomplete && pending' == pending
    {
      ReadInStep(crypto, keys, Reading(), arrived, flight, pending, writer);
      r, rest := ReadMsg(arrived);
      pending' := if r.Got? then pending[1..] else pending;
    }

    /** Sending, on a connection that is in step. */
    method SendStep(cmd: Command, flight: Bytes, ghost reader: Reader, ghost arrived: Bytes, ghost pending: seq<Command>)
        returns (ok: bool, flight': Bytes, ghost pending': seq<Command>)
      requires InStep(crypto, keys, reader, arrived + flight, pending, Sending())
      modifies `egress, `encPos
      ensures InStep(crypto, keys, reader, arrived + flight', pending', Sending())
      ensures ok <==> Sendable(cmd)
      ensures pending' == if ok then pending + [cmd] else pending
    {
      var r := Send(cmd);
      if r.None? { return false, flight, pending; }
      WriteInStep(crypto, keys, reader, arrived + flight, pending, old(Sending()), cmd);
      Regroup(arrived, flight, r.value);
      return true, flight + r.value, pending + [cmd];
    }

    method ReadBodyOf(size: nat, buffer: Bytes) returns (r: ReadResult, rest: Bytes)
      requires Lawful(crypto)
      modifies `ingress, `decPos, `awaiting
      ensures (r, Reading(), rest) == ReadBody(crypto, keys, old(Receiving()), size, buffer)
    {
      var n := Roundup16(size);
      if |buffer| < n + MAC_LEN {
        awaiting := Some(size);
        return Incomplete, buffer;
      }
      awaiting := None;
      rest := buffer[n + MAC_LEN..];
      var body := DecryptBody(buffer[..n + MAC_LEN], size);
      assert buffer[..n + MAC_LEN][..n] == buffer[..n];
      assert buffer[..n + MAC_LEN][n..n + MAC_LEN] == buffer[n..n + MAC_LEN];
      r := if body.WrongMac? then BadMac else Decode(body.bytes);
    }
  }

  /** The bytes of a sequence of frames, and the state after it. */
  ghost function Frames(c: Crypto, k: Keys, h: Half, cmds: seq<Command>): Bytes
    requires Lawful(c) && forall cmd :: cmd in cmds ==> Sendable(cmd)
    decreases |cmds|
  {
    if cmds == [] then []
    else Frame(c, k, h, cmds[0]) + Frames(c, k, AfterFrame(c, k, h, cmds[0]), cmds[1..])
  }

  ghost function AfterFrames(c: Crypto, k: Keys, h: Half, cmds: seq<Command>): Half
    requires Lawful(c) && forall cmd :: cmd in cmds ==> Sendable(cmd)
    decreases |cmds|
  {
    if cmds == [] then h else AfterFrames(c, k, AfterFrame(c, k, h, cmds[0]), cmds[1..])
  }

  lemma {:induction false} FramesSnoc(c: Crypto, k: Keys, h: Half, cmds: seq<Command>, cmd: Command)
    requires Lawful(c) && (forall x :: x in cmds ==> Sendable(x)) && Sendable(cmd)
    ensures var h1 := AfterFrames(c, k, h, cmds);
            && Frames(c, k, h, cmds + [cmd]) == Frames(c, k, h, cmds) + Frame(c, k, h1, cmd)
            && AfterFrames(c, k, h, cmds + [cmd]) == AfterFrame(c, k, h1, cmd)
    decreases |cmds|
  {
    var all := cmds + [cmd];
    if cmds == [] {
      assert all == [cmd] && all[1..] == [];
      assert Frames(c, k, AfterFrame(c, k, h, cmd), []) == [];
    } else {
      var first, h' := Frame(c, k, h, cmds[0]), AfterFrame(c, k, h, cmds[0]);
      assert all[0] == cmds[0] && all[1..] == cmds[1..] + [cmd];
      FramesSnoc(c, k, h', cmds[1..], cmd);
      Regroup(first, Frames(c, k, h', cmds[1..]), Frame(c, k, AfterFrames(c, k, h', cmds[1..]), cmd));
    }
  }

  /** The header and padded body of a command. */
  ghost function FrameText(cmd: Command): (r: Bytes)
    requires Sendable(cmd)
    ensures |r| == 16 + Roundup16(|Body(cmd)|)
  {
    Header(|Body(cmd)|) + Padded(cmd)
  }

  ghost function FrameTexts(cmds: seq<Command>): seq<Bytes>
    requires forall cmd :: cmd in cmds ==> Sendable(cmd)
  {
    if cmds == [] then [] else [FrameText(cmds[0])] + FrameTexts(cmds[1..])
  }

  ghost function Joined(texts: seq<Bytes>): Bytes {
    if texts == [] then [] else texts[0] + Joined(texts[1..])
  }

  /** The wire without the 16-byte tags: one after the first 16 bytes of each text, one after the rest of it. */
  ghost function Untagged(wire: Bytes, texts: seq<Bytes>): Bytes
    decreases |texts|
  {
    if texts == [] || |texts[0]| < 16 || |wire| < |texts[0]| + 32 then []
    else
      var m := |texts[0]|;
      wire[..16] + wire[32..m + 16] + Untagged(wire[m + 32..], texts[1..])
  }

  /** Each text is enciphered where the one before it left the key stream. */
  ghost predicate RunsOn(c: Crypto, k: Keys, pos: nat, wire: Bytes, texts: seq<Bytes>)
    decreases |texts|
  {
    texts != [] ==>
      var m := |texts[0]|;
      && m >= 16 && |wire| >= m + 32 && Streamed(c, k, pos, wire[..16] + wire[32..m + 16], texts[0])
      && RunsOn(c, k, pos + m, wire[m + 32..], texts[1..])
  }

  lemma {:induction false} RunsOnStreamed(c: Crypto, k: Keys, pos: nat, wire: Bytes, texts: seq<Bytes>)
    requires RunsOn(c, k, pos, wire, texts)
    ensures Streamed(c, k, pos, Untagged(wire, texts), Joined(texts))
    decreases |texts|
  {
    if texts != [] {
      var m := |texts[0]|;
      RunsOnStreamed(c, k, pos + m, wire[m + 32..], texts[1..]);
      StreamedConcat(c, k, pos, wire[..16] + wire[32..m + 16], texts[0], Untagged(wire[m + 32..], texts[1..]), Joined(texts[1..]));
    }
  }

  lemma SplitWire(hc: Bytes, tag: Bytes, fc: Bytes, tag': Bytes, rest: Bytes)
    requires |hc| == |tag| == |tag'| == 16
    ensures var wire := hc + tag + (fc + tag') + rest;
            wire[..16] == hc && wire[32..32 + |fc|] == fc && wire[48 + |fc|..] == rest
  {
  }

  lemma FrameIsStreamed(c: Crypto, k: Keys, h: Half, cmd: Command, rest: Bytes)
    requires Lawful(c) && Sendable(cmd)
    ensures var wire, text := Frame(c, k, h, cmd) + rest, FrameText(cmd);
            && |wire| >= |text| + 32 && wire[|text| + 32..] == rest
            && Streamed(c, k, h.pos, wire[..16] + wire[32..|text| + 16], text)
            && AfterFrame(c, k, h, cmd).pos == h.pos + |text|
  {
    var h1 := AfterHeaderOf(c, k, h, cmd);
    var hc, fc := Stream(c, k, h.pos, Header(|Body(cmd)|)), Stream(c, k, h1.pos, Padded(cmd));
    SplitWire(hc, Tag(c, h1.mac), fc, Tag(c, AfterBodyOf(c, k, h1, cmd).mac), rest);
    StreamIsStreamed(c, k, h.pos, Header(|Body(cmd)|));
    StreamIsStreamed(c, k, h1.pos, Padded(cmd));
    StreamedConcat(c, k, h.pos, hc, Header(|Body(cmd)|), fc, Padded(cmd));
  }

  lemma {:induction false} FramesRunOn(c: Crypto, k: Keys, h: Half, cmds: seq<Command>)
    requires Lawful(c) && forall cmd :: cmd in cmds ==> Sendable(cmd)
    ensures RunsOn(c, k, h.pos, Frames(c, k, h, cmds), FrameTexts(cmds))
    decreases |cmds|
  {
    if cmds != [] {
      var h2 := AfterFrame(c, k, h, cmds[0]);
      FrameIsStreamed(c, k, h, cmds[0], Frames(c, k, h2, cmds[1..]));
      FramesRunOn(c, k, h2, cmds[1..]);
      assert FrameTexts(cmds)[1..] == FrameTexts(cmds[1..]);
    }
  }

  /** Through all frames of a run, one key stream goes on: byte i of what is sent, tags aside, is byte i of the headers
      and padded bodies XORed with byte i of the key stream from the writer's position. */
  lemma FramesAreStreamed(c: Crypto, k: Keys, h: Half, cmds: seq<Command>)
    requires Lawful(c) && forall cmd :: cmd in cmds ==> Sendable(cmd)
    ensures Streamed(c, k, h.pos, Untagged(Frames(c, k, h, cmds), FrameTexts(cmds)), Joined(FrameTexts(cmds)))
  {
    FramesRunOn(c, k, h, cmds);
    RunsOnStreamed(c, k, h.pos, Frames(c, k, h, cmds), FrameTexts(cmds));
  }

  lemma Regroup(x: Bytes, y: Bytes, z: Bytes)
    ensures x + (y + z) == (x + y) + z
  {
  }

  /** The bytes between the reader and the writer are the frames of the pending commands, the first of which may have
      lost its header to a reader that waits for its body. */
  ghost predicate InStep(c: Crypto, k: Keys, reader: Reader, wire: Bytes, pending: seq<Command>, writer: Half) {
    && Lawful(c) && (forall cmd :: cmd in pending ==> Sendable(cmd))
    && if reader.awaiting.None? then
         wire == Frames(c, k, reader.half, pending) && writer == AfterFrames(c, k, reader.half, pending)
       else
         && pending != [] && reader.awaiting.value == |Body(pending[0])|
         && var h := AfterBodyOf(c, k, reader.half, pending[0]);
         && wire == BodyPart(c, k, reader.half, pending[0]) + Frames(c, k, h, pending[1..])
         && writer == AfterFrames(c, k, h, pending[1..])
  }

  lemma WriteInStep(c: Crypto, k: Keys, reader: Reader, wire: Bytes, pending: seq<Command>, writer: Half, cmd: Command)
    requires InStep(c, k, reader, wire, pending, writer) && Sendable(cmd)
    ensures InStep(c, k, reader, wire + Frame(c, k, writer, cmd), pending + [cmd], AfterFrame(c, k, writer, cmd))
  {
    if reader.awaiting.None? {
      FramesSnoc(c, k, reader.half, pending, cmd);
    } else {
      var h := AfterBodyOf(c, k, reader.half, pending[0]);
      FramesSnoc(c, k, h, pending[1..], cmd);
      assert (pending + [cmd])[1..] == pending[1..] + [cmd];
      Regroup(BodyPart(c, k, reader.half, pending[0]), Frames(c, k, h, pending[1..]), Frame(c, k, writer, cmd));
    }
  }

  /** How many bytes the reader still needs for the first pending command. */
  ghost function Needed(reader: Reader, cmd: Command): nat {
    (if reader.awaiting.None? then HEADER_LEN + MAC_LEN else 0) + Roundup16(|Body(cmd)|) + MAC_LEN
  }

  /** What reading must give when only a beginning of the wire has arrived: the first pending command once all of it is
      there, and waiting before that, in step either way. */
  ghost predicate ReadsInStep(c: Crypto, k: Keys, reader: Reader, arrived: Bytes, flight: Bytes, pending: seq<Command>, writer: Half,
                              out: (ReadResult, Reader, Bytes)) {
    if pending != [] && |arrived| >= Needed(reader, pending[0])
    then out.0 == Got(pending[0]) && InStep(c, k, out.1, out.2 + flight, pending[1..], writer)
    else out.0 == Incomplete && InStep(c, k, out.1, out.2 + flight, pending, writer)
  }

  lemma ReadBodyInStep(c: Crypto, k: Keys, reader: Reader, arrived: Bytes, flight: Bytes, pending: seq<Command>, writer: Half)
    requires InStep(c, k, reader, arrived + flight, pending, writer) && reader.awaiting.Some?
    ensures ReadsInStep(c, k, reader, arrived, flight, pending, writer, ReadFrame(c, k, reader, arrived))
  {
    var cmd, h := pending[0], reader.half;
    var part, rest := BodyPart(c, k, h, cmd), Frames(c, k, AfterBodyOf(c, k, h, cmd), pending[1..]);
    assert arrived <= part + rest;
    ReadBodyPart(c, k, h, cmd, arrived, rest);
    if |arrived| >= |part| {
      assert arrived[|part|..] + flight == (arrived + flight)[|part|..] == rest;
    }
  }

  /** Reading from any beginning of the wire keeps both ends in step. */
  lemma ReadInStep(c: Crypto, k: Keys, reader: Reader, arrived: Bytes, flight: Bytes, pending: seq<Command>, writer: Half)
    requires InStep(c, k, reader, arrived + flight, pending, writer)
    ensures ReadsInStep(c, k, reader, arrived, flight, pending, writer, ReadFrame(c, k, reader, arrived))
  {
    if reader.awaiting.Some? {
      ReadBodyInStep(c, k, reader, arrived, flight, pending, writer);
    } else if pending != [] && |arrived| >= HEADER_LEN + MAC_LEN {
      HeaderInStep(c, k, reader, arrived, flight, pending, writer);
    } else if pending == [] {
      assert |arrived + flight| == 0;
    }
  }

  /** Taking the first part off a wire of which at least that part has arrived. */
  lemma TakePart(first: Bytes, second: Bytes, arrived: Bytes, flight: Bytes)
    requires arrived + flight == first + second && |arrived| >= |first|
    ensures arrived <= first + second && arrived[|first|..] + flight == second
  {
    assert (arrived + flight)[|first|..] == second;
  }

  /** A wire in step is the same wire in step, with the header read, once its header is taken off. */
  lemma HeaderOff(c: Crypto, k: Keys, h: Half, wire: Bytes, pending: seq<Command>, writer: Half) returns (second: Bytes)
    requires InStep(c, k, Reader(h, None), wire, pending, writer) && pending != []
    ensures wire == HeaderPart(c, k, h, pending[0]) + second
    ensures InStep(c, k, Reader(AfterHeaderOf(c, k, h, pending[0]), Some(|Body(pending[0])|)), second, pending, writer)
  {
    var cmd, h1 := pending[0], AfterHeaderOf(c, k, h, pending[0]);
    var rest := Frames(c, k, AfterBodyOf(c, k, h1, cmd), pending[1..]);
    second := BodyPart(c, k, h1, cmd) + rest;
    Regroup(HeaderPart(c, k, h, cmd), BodyPart(c, k, h1, cmd), rest);
  }

  lemma HeaderInStep(c: Crypto, k: Keys, reader: Reader, arrived: Bytes, flight: Bytes, pending: seq<Command>, writer: Half)
    requires InStep(c, k, reader, arrived + flight, pending, writer) && reader.awaiting.None?
    requires pending != [] && |arrived| >= HEADER_LEN + MAC_LEN
    ensures ReadsInStep(c, k, reader, arrived, flight, pending, writer, ReadFrame(c, k, reader, arrived))
  {
    var cmd, h := pending[0], reader.half;
    var second := HeaderOff(c, k, h, arrived + flight, pending, writer);
    TakePart(HeaderPart(c, k, h, cmd), second, arrived, flight);
    ReadHeaderPart(c, k, h, cmd, arrived, second);
    var body, reader' := arrived[HEADER_LEN + MAC_LEN..], Reader(AfterHeaderOf(c, k, h, cmd), Some(|Body(cmd)|));
    ReadBodyInStep(c, k, reader', body, flight, pending, writer);
  }

  /** A connection between the initiator a and the responder b. Each way, some bytes are in flight and some have arrived. */
  class Connection {
    const a: Peer
    const b: Peer
    var toB: Bytes
    var atB: Bytes
    var toA: Bytes
    var atA: Bytes
    /** The commands sent and not yet read. */
    ghost var pendingB: seq<Command>
    ghost var pendingA: seq<Command>

    ghost predicate Valid()
      reads this, a, b
    {
      && a != b && a.crypto == b.crypto && a.keys == b.keys
      && InStep(a.crypto, a.keys, b.Reading(), atB + toB, pendingB, a.Sending())
      && InStep(a.crypto, a.keys, a.Reading(), atA + toA, pendingA, b.Sending())
    }

    constructor (c: Crypto, initiatorKey: Bytes, responderKey: Bytes, initiatorNonce: Bytes, responderNonce: Bytes,
                 authInit: Bytes, authAck: Bytes)
      requires Lawful(c) && |initiatorNonce| == HASH_LEN && |responderNonce| == HASH_LEN
      ensures Valid() && fresh(a) && fresh(b) && pendingA == [] && pendingB == []
      ensures var i := DeriveSecrets(c, true, initiatorKey, c.publicKey(responderKey), initiatorNonce, responderNonce, authInit, authAck);
              a.keys == i.keys && a.Sending() == Half(i.egress, 0) && a.Reading() == Reader(Half(i.ingress, 0), None)
    {
      var i := DeriveSecrets(c, true, initiatorKey, c.publicKey(responderKey), initiatorNonce, responderNonce, authInit, authAck);
      var r := DeriveSecrets(c, false, responderKey, c.publicKey(initiatorKey), initiatorNonce, responderNonce, authInit, authAck);
      SecretsCross(c, initiatorKey, responderKey, initiatorNonce, responderNonce, authInit, authAck);
      a := new Peer(c, i);
      b := new Peer(c, r);
      toB, atB, toA, atA, pendingB, pendingA := [], [], [], [], [], [];
    }

    /** a sends to b: nothing happens on an error, and the command is pending otherwise. */
    method SendToB(cmd: Command) returns (ok: bool)
      requires Valid()
      modifies `toB, `pendingB, a`egress, a`encPos
      ensures Valid()
      ensures ok <==> Sendable(cmd)
      ensures pendingB == if ok then old(pendingB) + [cmd] else old(pendingB)
    {
      ok, toB, pendingB := a.SendStep(cmd, toB, b.Reading(), atB, pendingB);
    }

    /** The network delivers some of the bytes in flight to b. */
    method DeliverToB(n: nat)
      requires Valid() && n <= |toB|
      modifies `toB, `atB
      ensures Valid() && |atB| == |old(atB)| + n && |toB| == |old(toB)| - n
    {
      assert atB + toB == (atB + toB[..n]) + toB[n..];
      atB, toB := atB + toB[..n], toB[n..];
    }

    /** b reads: it gets the oldest pending command once its bytes have arrived, and waits otherwise. */
    method ReadAtB() returns (r: ReadResult)
      requires Valid()
      modifies `atB, `pendingB, b`ingress, b`decPos, b`awaiting
      ensures Valid()
      ensures if old(pendingB) != [] && |old(atB)| >= Needed(old(b.Reading()), old(pendingB)[0])
              then r == Got(old(pendingB)[0]) && pendingB == old(pendingB)[1..]
              else r == Incomplete && pendingB == old(pendingB)
    {
      r, atB, pendingB := b.ReadStep(atB, toB, pendingB, a.Sending());
    }

    /** The same from b to a. */
    method SendToA(cmd: Command) returns (ok: bool)
      requires Valid()
      modifies `toA, `pendingA, b`egress, b`encPos
      ensures Valid()
      ensures ok <==> Sendable(cmd)
      ensures pendingA == if ok then old(pendingA) + [cmd] else old(pendingA)
    {
      ok, toA, pendingA := b.SendStep(cmd, toA, a.Reading(), atA, pendingA);
    }

    method DeliverToA(n: nat)
      requires Valid() && n <= |toA|
      modifies `toA, `atA
      ensures Valid() && |atA| == |old(atA)| + n && |toA| == |old(toA)| - n
    {
      assert atA + toA == (atA + toA[..n]) + toA[n..];
      atA, toA := atA + toA[..n], toA[n..];
    }

    method ReadAtA() returns (r: ReadResult)
      requires Valid()
      modifies `atA, `pendingA, a`ingress, a`decPos, a`awaiting
      ensures Valid()
      ensures if old(pendingA) != [] && |old(atA)| >= Needed(old(a.Reading()), old(pendingA)[0])
              then r == Got(old(pendingA)[0]) && pendingA == old(pendingA)[1..]
              else r == Incomplete && pendingA == old(pendingA)
    {
      r, atA, pendingA := a.ReadStep(atA, toA, pendingA, b.Sending());
    }
  }
}
