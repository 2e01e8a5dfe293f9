/** What framing and the secure coder guarantee over every list of messages and every chunking. */
module PacketLaws {
  import opened Bits
  import opened Wrappers
  import opened Cipher
  import opened Packets

  // ---- chunking does not matter ----

  /** A complete packet is read the same whatever follows it. */
  lemma StepAppend(c: Coder, accept: seq<Message> -> bool, r: Receiver, bytes: seq<byte>)
    requires c.Secure? ==> 0 < c.engine.blockSize
    requires Complete(c, r.unread)
    ensures Complete(c, More(r, bytes).unread)
    ensures Step(c, accept, More(r, bytes))
         == Outcome(Step(c, accept, r).ok, More(Step(c, accept, r).receiver, bytes))
  {
    var u, size := r.unread, c.HeaderSize() + BodySize(r.unread);
    assert (u + bytes)[..2] == u[..2];
    assert (u + bytes)[..size] == u[..size] && (u + bytes)[size..] == u[size..] + bytes;
  }

  /** Reading what has arrived and then the rest is reading it all at once; a failure is final. */
  lemma {:induction false} ConsumeAppend(c: Coder, accept: seq<Message> -> bool, r: Receiver, bytes: seq<byte>)
    requires c.Secure? ==> 0 < c.engine.blockSize
    ensures var o := Consume(c, accept, r);
      Consume(c, accept, More(r, bytes))
        == if o.ok then Consume(c, accept, More(o.receiver, bytes)) else Outcome(false, More(o.receiver, bytes))
    decreases |r.unread|
  {
    hide Step;
    if Complete(c, r.unread) {
      StepAppend(c, accept, r, bytes);
      var o := Step(c, accept, r);
      if o.ok { ConsumeAppend(c, accept, o.receiver, bytes); }
    }
  }

  /** No complete packet is waiting. */
  predicate Idle(c: Coder, r: Receiver) { !Complete(c, r.unread) }

  lemma {:induction false} ConsumeEndsIdle(c: Coder, accept: seq<Message> -> bool, r: Receiver)
    requires c.Secure? ==> 0 < c.engine.blockSize
    ensures var o := Consume(c, accept, r); o.ok ==> Idle(c, o.receiver)
    decreases |r.unread|
  {
    hide Step;
    if Complete(c, r.unread) && Step(c, accept, r).ok { ConsumeEndsIdle(c, accept, Step(c, accept, r).receiver); }
  }

  /** For every byte stream, well formed or not, what is delivered, whether reading fails, and what stays
      unread depend only on the concatenation of the chunks. */
  lemma {:induction false} ChunkingIrrelevant(
    c: Coder, accept: seq<Message> -> bool, r: Receiver, chunks: seq<seq<byte>>)
    requires (c.Secure? ==> 0 < c.engine.blockSize) && Idle(c, r)
    ensures Feed(c, accept, r, chunks) == Consume(c, accept, More(r, Concat(chunks)))
    decreases |chunks|
  {
    hide Step, Complete;
    if chunks == [] {
      assert r.unread + [] == r.unread;
    } else {
      var first, rest := chunks[0], Concat(chunks[1..]);
      var o := Consume(c, accept, More(r, first));
      ConsumeAppend(c, accept, More(r, first), rest);
      assert More(More(r, first), rest) == More(r, first + rest) by {
        assert r.unread + first + rest == r.unread + (first + rest);
      }
      if o.ok {
        ConsumeEndsIdle(c, accept, More(r, first));
        ChunkingIrrelevant(c, accept, o.receiver, chunks[1..]);
      }
    }
  }

  // ---- one packet there and back ----

  /** Padding adds the fewest zeros that make whole blocks. */
  lemma PaddedIsWhole(c: Coder, body: seq<byte>)
    requires c.Secure? && c.Valid()
    ensures WholeBlocks(|Padded(c, body)|, c.engine.blockSize)
    ensures |Padded(c, body)| < |body| + c.engine.blockSize
    ensures Padded(c, body) == body + seq(|Padded(c, body)| - |body|, _ => 0)
  {
    var n, b := |body|, c.engine.blockSize;
    var q := n / b;
    assert n == b * q + n % b;
    if n % b != 0 {
      assert b * (q + 1) == b * q + b;
      DivUnique(b * (q + 1), b, q + 1, 0);
    }
  }

  lemma CipheredLength(c: Coder, encrypting: bool, state: nat, body: seq<byte>)
    requires c.Secure? && c.Valid() && WholeBlocks(|body|, c.engine.blockSize)
    ensures |Ciphered(c, encrypting, state, body)| == |body|
  {
    MapBlocksLength(c.engine, encrypting, ExpandKey(c.source.Key(state), c.engine.keyWords), body);
  }

  lemma CipherRoundTrip(c: Coder, state: nat, body: seq<byte>)
    requires c.Secure? && c.Valid() && WholeBlocks(|body|, c.engine.blockSize)
    ensures Ciphered(c, false, state, Ciphered(c, true, state, body)) == body
  {
    CipheredLength(c, true, state, body);
    DecryptUndoesEncrypt(c.engine, ExpandKey(c.source.Key(state), c.engine.keyWords), body);
  }

  lemma CheckSumFits(c: Coder, body: seq<byte>, key: nat)
    requires c.Secure? && c.Valid()
    ensures CheckSum(c, body, key) < 0x1_0000_0000
  {
    hide Or;
    Pow2Known();
    Pow2Monotone(16, 32);
    OrFits(c.crc(body), FingerPrint(key), 32);
  }

  lemma {:induction false} OrFits(a: nat, b: nat, n: nat)
    requires a < Pow2(n) && b < Pow2(n)
    ensures Or(a, b) < Pow2(n)
  {
    if n > 0 { OrFits(a / 2, b / 2, n - 1); }
  }

  /** The parts of a packet, whatever follows it. */
  lemma PacketParts(c: Coder, state: nat, m: Message, rest: seq<byte>)
    requires c.Valid() && |Padded(c, m.body)| <= 0xFFFF
    ensures var u := Packet(c, state, m) + rest;
      && Complete(c, u) && BodySize(u) == |Padded(c, m.body)| && u[2] == m.messageType
      && c.HeaderSize() + BodySize(u) == |Packet(c, state, m)|
  {
    hide Padded, CheckSum, FingerPrint, Ciphered, Put16, Put32, Get16;
    var body := Padded(c, m.body);
    var u := Packet(c, state, m) + rest;
    if c.Secure? {
      PaddedIsWhole(c, m.body);
      CipheredLength(c, true, state, body);
    }
    assert u[..2] == Put16(|body|);
    Get16Put16(|body|);
  }

  /** The receiver, at the same generator state, reads the padded body back. */
  lemma UnpacketPacket(c: Coder, state: nat, m: Message)
    requires c.Valid()
    ensures c.HeaderSize() <= |Packet(c, state, m)|
    ensures Unpacket(c, state, Packet(c, state, m)) == Some(Padded(c, m.body))
  {
    hide Padded, CheckSum, FingerPrint, Ciphered, Put32, Put16, Get16, Get32, Transformed;
    var p, body := Packet(c, state, m), Padded(c, m.body);
    if c.Plain? {
      assert p[RAW_HEADER..] == body;
    } else {
      var key := c.source.Key(state);
      PaddedIsWhole(c, m.body);
      CipheredLength(c, true, state, body);
      CipherRoundTrip(c, state, body);
      assert p[3..5] == Put16(FingerPrint(key)) && p[5..9] == Put32(CheckSum(c, body, key));
      assert p[9..] == Ciphered(c, true, state, body);
      Get16Put16(FingerPrint(key));
      CheckSumFits(c, body, key);
      Get32Put32(CheckSum(c, body, key));
    }
  }

  // ---- what a packet looks like, and which packets are accepted ----

  /** Two octets, low one first. */
  lemma Put16Bits(v: nat)
    ensures Unpack(Put16(v)) == ToBits(v, 16)
  {
    hide ToBits, Unpack;
    var lo, hi := v % 256, v / 256 % 256;
    assert Put16(v) == [lo] + [hi];
    UnpackConcat([lo], [hi]);
    UnpackOne(lo);
    UnpackOne(hi);
    ToByteBits(v);
    ToByteBits(v / 256);
    ToBitsSplit(v, 8, 8);
    ShiftRightIsDiv(v, 8);
    Pow2Known();
  }

  lemma Put32Bits(v: nat)
    ensures Unpack(Put32(v)) == ToBits(v, 32)
  {
    hide ToBits, Unpack, Put16;
    UnpackConcat(Put16(v % 0x1_0000), Put16(v / 0x1_0000));
    Put16Bits(v % 0x1_0000);
    Put16Bits(v / 0x1_0000);
    LowBits(v);
    ToBitsSplit(v, 16, 16);
    ShiftRightIsDiv(v, 16);
    Pow2Known();
  }

  lemma LowBits(v: nat)
    ensures ToBits(v % 0x1_0000, 16) == ToBits(v, 16)
  {
    hide ToBits;
    LowIsMod(v, 16);
    Pow2Known();
    ToBitsLow(v, 16, 16);
  }

  /** The wire format of a secure packet: size of the padded body, type, bits 5 to 20 of the key, the bits of the
      checksum of the padded body or-ed with them, and the padded body through the cipher. */
  lemma PacketLayout(c: Coder, state: nat, m: Message)
    requires c.Secure? && c.Valid()
    ensures var p, body, key := Packet(c, state, m), Padded(c, m.body), c.source.Key(state);
      && |p| == 9 + |body| && Unpack(p[..2]) == ToBits(|body|, 16) && p[2] == m.messageType
      && Unpack(p[3..5]) == ToBits(key / 32, 16)
      && (forall i | 0 <= i < 32 ::
            Unpack(p[5..9])[i] == (ToBits(c.crc(body), 32)[i] || (i < 16 && ToBits(key / 32, 16)[i])))
      && (body != [] ==> p[9..] == Transformed(c.engine, true, key, body))
  {
    hide ToBits, Unpack, Padded, Put16, Put32, Transformed, FingerPrint, Or;
    var p, body, key := Packet(c, state, m), Padded(c, m.body), c.source.Key(state);
    PaddedIsWhole(c, m.body);
    CipheredLength(c, true, state, body);
    assert p[..2] == Put16(|body|) && p[3..5] == Put16(FingerPrint(key)) && p[5..9] == Put32(CheckSum(c, body, key));
    Put16Bits(|body|);
    Put16Bits(FingerPrint(key));
    Put32Bits(CheckSum(c, body, key));
    FingerPrintBits(key);
    ToBitsOr(c.crc(body), FingerPrint(key), 32);
  }

  lemma FingerPrintBits(key: nat)
    ensures ToBits(FingerPrint(key), 16) == ToBits(key / 32, 16)
    ensures forall i | 0 <= i < 32 :: ToBits(FingerPrint(key), 32)[i] == (i < 16 && ToBits(key / 32, 16)[i])
  {
    hide ToBits;
    ShiftRightIsDiv(key, 5);
    assert Pow2(5) == 32;
    LowBits(key / 32);
    LowIsMod(key / 32, 16);
    Pow2Known();
    ToBitsLow(key / 32, 16, 32);
  }

  lemma PlainLayout(state: nat, m: Message)
    ensures var p := Packet(Plain, state, m);
      |p| == 3 + |m.body| && Unpack(p[..2]) == ToBits(|m.body|, 16) && p[2] == m.messageType && p[3..] == m.body
  {
    hide ToBits, Unpack;
    assert Packet(Plain, state, m)[..2] == Put16(|m.body|);
    Put16Bits(|m.body|);
  }

  /** Block `i` of a secure packet's body is the engine's permutation of block `i` of the padded body, under the
      expansion of the packet's key. */
  lemma PacketBlocks(c: Coder, state: nat, m: Message, i: nat)
    requires c.Secure? && c.Valid() && i < |Padded(c, m.body)| / c.engine.blockSize
    ensures var p, body, b := Packet(c, state, m), Padded(c, m.body), c.engine.blockSize;
      var at, key := i * b, ExpandKey(c.source.Key(state), c.engine.keyWords);
      && at + b <= |body| && |p| == 9 + |body| && p[9..][at..at + b] == c.engine.enc(key, body[at..at + b])
  {
    hide ToBits, Unpack, Padded, ExpandKey;
    PaddedIsWhole(c, m.body);
    PacketLayout(c, state, m);
    BlockThroughEngine(c.engine, true, ExpandKey(c.source.Key(state), c.engine.keyWords), Padded(c, m.body), i);
    hide Packet, MapBlocks;
  }

  /** One key for one packet: the `n`-th packet after seeding is sent under the output of the generator after `n`
      steps, or under the seed itself if the generator is static. */
  lemma KeyOfPacket(c: Coder, seed: nat, n: nat)
    requires c.Secure?
    ensures c.source.Key(StateAfter(c, c.source.Seeded(seed), n))
         == if c.source.dynamic then c.source.output(Iterated(c.source.step, n, c.source.seed(seed))) else seed
  {
    StateOfPacket(c, c.source.Seeded(seed), n);
  }

  lemma {:induction false} StateOfPacket(c: Coder, state: nat, n: nat)
    requires c.Secure?
    ensures StateAfter(c, state, n) == if c.source.dynamic then Iterated(c.source.step, n, state) else state
    decreases n
  {
    if n > 0 { StateOfPacket(c, c.NextState(state), n - 1); }
  }

  lemma PutGet16(b: seq<byte>)
    requires |b| == 2
    ensures Put16(Get16(b)) == b
  {
    DivUnique(Get16(b), 256, b[1], b[0]);
  }

  lemma PutGet32(b: seq<byte>)
    requires |b| == 4
    ensures Put32(Get32(b)) == b
  {
    hide Put16, Get16;
    PutGet16(b[..2]);
    PutGet16(b[2..]);
    DivUnique(Get32(b), 0x1_0000, Get16(b[2..]), Get16(b[..2]));
    assert b == b[..2] + b[2..];
  }

  /** What the receiver accepts is exactly what the sender could have written: a packet decodes to `body` if and
      only if `body` is whole blocks and, but for the size and type fields, the packet is that of `body`. */
  lemma AcceptedIffEncoded(c: Coder, state: nat, p: seq<byte>, body: seq<byte>)
    requires c.Valid() && c.HeaderSize() <= |p|
    ensures Unpacket(c, state, p) == Some(body)
       <==> Padded(c, body) == body && p[3..] == Packet(c, state, Message(p[2], body))[3..]
  {
    if c.Plain? {
      assert Packet(c, state, Message(p[2], body))[3..] == body;
    } else {
      if Unpacket(c, state, p) == Some(body) { AcceptedIsEncoded(c, state, p, body); }
      if Padded(c, body) == body && p[3..] == Packet(c, state, Message(p[2], body))[3..] {
        EncodedIsAccepted(c, state, p, body);
      }
    }
  }

  /** The part of a secure packet after size and type. */
  lemma SecurePart(c: Coder, state: nat, m: Message)
    requires c.Secure? && c.Valid()
    ensures var body, key := Padded(c, m.body), c.source.Key(state);
      Packet(c, state, m)[3..]
        == Put16(FingerPrint(key)) + Put32(CheckSum(c, body, key)) + Ciphered(c, true, state, body)
  {
    hide Padded, CheckSum, FingerPrint, Ciphered, Put16, Put32;
  }

  lemma AcceptedIsEncoded(c: Coder, state: nat, p: seq<byte>, body: seq<byte>)
    requires c.Secure? && c.Valid() && c.HeaderSize() <= |p| && Unpacket(c, state, p) == Some(body)
    ensures Padded(c, body) == body && p[3..] == Packet(c, state, Message(p[2], body))[3..]
  {
    var sent := p[9..];
    UnpacketLength(c, state, p);
    assert WholeBlocks(|sent|, c.engine.blockSize);
    assert Padded(c, body) == body;
    if sent != [] { DecryptUndoesEncrypt(c.engine, ExpandKey(c.source.Key(state), c.engine.keyWords), sent); }
    assert Ciphered(c, true, state, body) == sent;
    PutGet16(p[3..5]);
    PutGet32(p[5..9]);
    hide Padded, CheckSum, FingerPrint, Ciphered, Put16, Put32, Get16, Get32;
    SecurePart(c, state, Message(p[2], body));
    assert p[3..] == p[3..5] + p[5..9] + sent;
  }

  lemma EncodedIsAccepted(c: Coder, state: nat, p: seq<byte>, body: seq<byte>)
    requires c.Secure? && c.Valid() && c.HeaderSize() <= |p|
    requires Padded(c, body) == body && p[3..] == Packet(c, state, Message(p[2], body))[3..]
    ensures Unpacket(c, state, p) == Some(body)
  {
    var q := Packet(c, state, Message(p[2], body));
    UnpacketPacket(c, state, Message(p[2], body));
    hide Packet, CheckSum, FingerPrint, Ciphered, Get16, Get32;
    assert p[3..5] == p[3..][..2] == q[3..5] && p[5..9] == p[3..][2..6] == q[5..9] && p[9..] == p[3..][6..] == q[9..];
  }

  lemma SameHeader(c: Coder, state: nat, p: seq<byte>, q: seq<byte>, body: seq<byte>)
    requires c.Secure? && c.Valid() && c.HeaderSize() <= |p| && c.HeaderSize() <= |q|
    requires Unpacket(c, state, p) == Unpacket(c, state, q) == Some(body)
    ensures p[3..9] == q[3..9]
  {
    AcceptedIsEncoded(c, state, p, body);
    AcceptedIsEncoded(c, state, q, body);
    hide Unpacket, Packet;
    SecurePart(c, state, Message(p[2], body));
    SecurePart(c, state, Message(q[2], body));
    assert p[3..9] == p[3..][..6] && q[3..9] == q[3..][..6];
  }

  lemma SameCipherText(c: Coder, state: nat, p: seq<byte>, q: seq<byte>)
    requires c.Secure? && c.Valid() && c.HeaderSize() <= |p| == |q| && q[9..] == p[9..]
    ensures Unpacket(c, state, p).Some? && Unpacket(c, state, q).Some? ==>
      Unpacket(c, state, p) == Unpacket(c, state, q)
  {
  }

  /** Of two packets that differ only in fingerprint or checksum at most one is accepted. */
  lemma AlteredHeaderRefused(c: Coder, state: nat, p: seq<byte>, q: seq<byte>)
    requires c.Secure? && c.Valid() && c.HeaderSize() <= |p| && Unpacket(c, state, p).Some?
    requires |q| == |p| && q[9..] == p[9..] && q[3..9] != p[3..9]
    ensures Unpacket(c, state, q).None?
  {
    hide Unpacket;
    SameCipherText(c, state, p, q);
    if Unpacket(c, state, q).Some? { SameHeader(c, state, p, q, Unpacket(c, state, p).value); }
  }

  // ---- any number of messages ----

  predicate Sendable(c: Coder, m: Message)
    requires c.Secure? ==> 0 < c.engine.blockSize
  {
    |Padded(c, m.body)| <= 0xFFFF
  }

  predicate AllSendable(c: Coder, messages: seq<Message>)
    requires c.Secure? ==> 0 < c.engine.blockSize
  {
    forall i :: 0 <= i < |messages| ==> Sendable(c, messages[i])
  }

  ghost predicate Accepting(accept: seq<Message> -> bool) { forall history :: accept(history) }

  lemma ConsumeOne(c: Coder, accept: seq<Message> -> bool, r: Receiver)
    requires (c.Secure? ==> 0 < c.engine.blockSize) && Complete(c, r.unread)
    ensures var o := Step(c, accept, r);
      Consume(c, accept, r) == if o.ok then Consume(c, accept, o.receiver) else o
  {
    hide Step, Complete;
  }

  lemma ConsumeIdle(c: Coder, accept: seq<Message> -> bool, r: Receiver)
    requires (c.Secure? ==> 0 < c.engine.blockSize) && Idle(c, r)
    ensures Consume(c, accept, r) == Outcome(true, r)
  {
  }

  /** The receiver's state once the packet of a sendable message has been read. */
  lemma ConsumeSendable(
    c: Coder, accept: seq<Message> -> bool, state: nat, delivered: seq<Message>, m: Message, rest: seq<byte>)
    requires c.Valid() && Accepting(accept) && Sendable(c, m)
    ensures var s := c.NextState(state);
      Consume(c, accept, Receiver(state, delivered, Packet(c, s, m) + rest))
        == Consume(c, accept, Receiver(s, delivered + [Message(m.messageType, Padded(c, m.body))], rest))
  {
    hide Padded, Packet, Unpacket, Consume;
    var s := c.NextState(state);
    var p := Packet(c, s, m);
    var u := p + rest;
    PacketParts(c, s, m, rest);
    UnpacketPacket(c, s, m);
    assert u[..|p|] == p && u[|p|..] == rest;
    ConsumeOne(c, accept, Receiver(state, delivered, u));
  }

  /** A stream of packets is delivered exactly, in order, and consumed to the last byte; sender's and receiver's
      generators have then advanced equally. */
  lemma {:induction false} StreamDelivered(
    c: Coder, accept: seq<Message> -> bool, state: nat, delivered: seq<Message>, messages: seq<Message>)
    requires c.Valid() && Accepting(accept)
    requires AllSendable(c, messages)
    ensures Consume(c, accept, Receiver(state, delivered, Stream(c, state, messages)))
         == Outcome(true, Receiver(StateAfter(c, state, |messages|), delivered + Arrived(c, messages), []))
    decreases |messages|
  {
    hide Padded, Packet, Sendable, Complete, Consume;
    if messages == [] {
      EmptyIncomplete(c);
      ConsumeIdle(c, accept, Receiver(state, delivered, []));
      assert delivered + [] == delivered;
    } else {
      var m, s, others := messages[0], c.NextState(state), messages[1..];
      var got := delivered + [Message(m.messageType, Padded(c, m.body))];
      assert AllSendable(c, others) by { assert forall i :: 0 <= i < |others| ==> others[i] == messages[i + 1]; }
      ConsumeSendable(c, accept, state, delivered, m, Stream(c, s, others));
      StreamDelivered(c, accept, s, got, others);
      assert got + Arrived(c, others) == delivered + Arrived(c, messages);
    }
  }

  lemma EmptyIncomplete(c: Coder)
    ensures !Complete(c, [])
  {
  }

  // ---- where reading stops ----

  /** A message the callback refuses is the last one handed over, whatever follows it. */
  lemma RefusalStops(
    c: Coder, accept: seq<Message> -> bool, state: nat, delivered: seq<Message>, m: Message, rest: seq<byte>)
    requires c.Valid() && Sendable(c, m)
    requires !accept(delivered + [Message(m.messageType, Padded(c, m.body))])
    ensures var s := c.NextState(state);
      Consume(c, accept, Receiver(state, delivered, Packet(c, s, m) + rest))
        == Outcome(false, Receiver(s, delivered + [Message(m.messageType, Padded(c, m.body))], rest))
  {
    hide Padded, Packet, Unpacket, Consume;
    var s := c.NextState(state);
    var p := Packet(c, s, m);
    var u := p + rest;
    PacketParts(c, s, m, rest);
    UnpacketPacket(c, s, m);
    assert u[..|p|] == p && u[|p|..] == rest;
    ConsumeOne(c, accept, Receiver(state, delivered, u));
  }

  /** A packet that is not the sender's is dropped, hands over nothing and ends reading. */
  lemma BadPacketStops(c: Coder, accept: seq<Message> -> bool, r: Receiver)
    requires c.Valid() && Complete(c, r.unread)
    requires Unpacket(c, c.NextState(r.state), r.unread[..c.HeaderSize() + BodySize(r.unread)]).None?
    ensures Consume(c, accept, r)
         == Outcome(false, Receiver(c.NextState(r.state), r.delivered, r.unread[c.HeaderSize() + BodySize(r.unread)..]))
  {
    hide Unpacket;
    ConsumeOne(c, accept, r);
  }

  // ---- exactly which messages arrive ----

  /** Whatever a packet decodes to is as long as the packet's body. */
  lemma UnpacketLength(c: Coder, state: nat, p: seq<byte>)
    requires c.Valid() && c.HeaderSize() <= |p|
    ensures var r := Unpacket(c, state, p); r.Some? ==> |r.value| == |p| - c.HeaderSize()
  {
    hide CheckSum, FingerPrint, Get16, Get32, Ciphered;
    if c.Secure? {
      var sent := p[c.HeaderSize()..];
      if sent == [] {
        NoneCiphered(c, state);
      } else if WholeBlocks(|sent|, c.engine.blockSize) {
        CipheredLength(c, false, state, sent);
      }
    }
  }

  lemma NoneCiphered(c: Coder, state: nat)
    requires c.Secure? && 0 < c.engine.blockSize
    ensures Ciphered(c, false, state, []) == []
  {
  }

  /** The packet of a message that is too long announces a shorter body. */
  lemma TruncatedParts(c: Coder, state: nat, m: Message, rest: seq<byte>)
    requires c.Valid() && !Sendable(c, m)
    ensures var u := Packet(c, state, m) + rest;
      Complete(c, u) && BodySize(u) < |Padded(c, m.body)|
  {
    hide Padded, CheckSum, FingerPrint, Ciphered, Put32;
    var body := Padded(c, m.body);
    var u := Packet(c, state, m) + rest;
    if c.Secure? {
      PaddedIsWhole(c, m.body);
      CipheredLength(c, true, state, body);
    }
    assert u[..2] == Put16(|body|);
    Get16Put16(|body|);
  }

  /** A message that is too long never arrives: the receiver fails, or hands over a shorter body in its place. */
  lemma TooLongIsLost(
    c: Coder, accept: seq<Message> -> bool, state: nat, delivered: seq<Message>, m: Message, rest: seq<byte>)
    requires c.Valid() && !Sendable(c, m)
    ensures var got := Consume(c, accept, Receiver(state, delivered, Packet(c, c.NextState(state), m) + rest));
      |delivered| < |got.receiver.delivered| ==> |got.receiver.delivered[|delivered|].body| < |Padded(c, m.body)|
  {
    hide Padded, Packet, Unpacket, Consume, Sendable;
    var s := c.NextState(state);
    var u := Packet(c, s, m) + rest;
    var r := Receiver(state, delivered, u);
    TruncatedParts(c, s, m, rest);
    UnpacketLength(c, s, u[..c.HeaderSize() + BodySize(u)]);
    ConsumeOne(c, accept, r);
    var o := Step(c, accept, r);
    if o.ok { DeliveredGrows(c, accept, o.receiver); }
  }

  /** What arrives is what was sent, but for the zeros a secure coder adds. */
  lemma {:induction false} ArrivedAt(c: Coder, messages: seq<Message>, i: nat)
    requires c.Valid() && i < |messages|
    ensures var m := Arrived(c, messages)[i];
      && m.messageType == messages[i].messageType && messages[i].body <= m.body
      && (c.Plain? ==> m == messages[i])
      && (c.Secure? ==> |m.body| < |messages[i].body| + c.engine.blockSize && |m.body| % c.engine.blockSize == 0)
      && (forall j | |messages[i].body| <= j < |m.body| :: m.body[j] == 0)
    decreases i
  {
    hide Padded;
    if i > 0 {
      ArrivedAt(c, messages[1..], i - 1);
    } else {
      PaddedBody(c, messages[0].body);
    }
  }

  lemma PaddedBody(c: Coder, body: seq<byte>)
    requires c.Valid()
    ensures var r := Padded(c, body);
      && body <= r && (c.Plain? ==> r == body)
      && (c.Secure? ==> |r| < |body| + c.engine.blockSize && |r| % c.engine.blockSize == 0)
      && (forall j | |body| <= j < |r| :: r[j] == 0)
  {
    if c.Secure? { PaddedIsWhole(c, body); }
  }

  /** A list of messages is delivered, exactly and in order, if and only if every padded body fits the sixteen
      bits of the size field: neither coder refuses a longer one. */
  lemma {:induction false} DeliveredIffSendable(
    c: Coder, accept: seq<Message> -> bool, state: nat, delivered: seq<Message>, messages: seq<Message>)
    requires c.Valid() && Accepting(accept)
    ensures var got := Consume(c, accept, Receiver(state, delivered, Stream(c, state, messages))).receiver.delivered;
      got == delivered + Arrived(c, messages) <==> AllSendable(c, messages)
    decreases |messages|
  {
    hide Padded, Packet, Consume, Sendable;
    if messages == [] {
      StreamDelivered(c, accept, state, delivered, messages);
    } else {
      var m, s, others := messages[0], c.NextState(state), messages[1..];
      var rest, first := Stream(c, s, others), Message(m.messageType, Padded(c, m.body));
      assert AllSendable(c, messages) <==> Sendable(c, m) && AllSendable(c, others) by {
        assert forall i :: 0 < i < |messages| ==> messages[i] == others[i - 1];
      }
      if Sendable(c, m) {
        ConsumeSendable(c, accept, state, delivered, m, rest);
        DeliveredIffSendable(c, accept, s, delivered + [first], others);
        assert delivered + [first] + Arrived(c, others) == delivered + Arrived(c, messages);
      } else {
        TooLongIsLost(c, accept, state, delivered, m, rest);
        assert (delivered + Arrived(c, messages))[|delivered|] == first;
      }
    }
  }

  /** For every list of messages and every split of their packets into chunks, the receiver gets exactly those
      messages in order if and only if they are sendable; then it ends with an empty buffer, in key lockstep with
      the sender. */
  lemma DeliveredUnderAnyChunking(
    c: Coder, accept: seq<Message> -> bool, state: nat, messages: seq<Message>, chunks: seq<seq<byte>>)
    requires c.Valid() && Accepting(accept)
    requires Concat(chunks) == Stream(c, state, messages)
    ensures var o := Feed(c, accept, Receiver(state, [], []), chunks);
      && (o.receiver.delivered == Arrived(c, messages) <==> AllSendable(c, messages))
      && (AllSendable(c, messages) ==>
            o == Outcome(true, Receiver(StateAfter(c, state, |messages|), Arrived(c, messages), [])))
  {
    hide Feed, Consume, Stream, Arrived, Complete, Sendable;
    var r := Receiver(state, [], []);
    EmptyIncomplete(c);
    ChunkingIrrelevant(c, accept, r, chunks);
    DeliveredIffSendable(c, accept, state, [], messages);
    if AllSendable(c, messages) { StreamDelivered(c, accept, state, [], messages); }
    assert [] + Concat(chunks) == Concat(chunks) && [] + Arrived(c, messages) == Arrived(c, messages);
  }

  /** A toy secure coder, for examples: blocks of eight bytes, left as they are. */
  const TOY_CODER: Coder := Secure(
    Engine(8, 4, (k: seq<nat>, b: seq<byte>) => b, (k: seq<nat>, b: seq<byte>) => b),
    KeySource(false, x => x, x => x, x => 0), (b: seq<byte>) => 0)

  /** A secure body of 65535 bytes fits the size field and its padding does not: it is sent, and lost. */
  lemma PaddingOverflows(accept: seq<Message> -> bool)
    requires Accepting(accept)
    ensures var m := Message(1, seq(0xFFFF, _ => 0));
      && |Padded(TOY_CODER, m.body)| == 0x1_0000
      && Consume(TOY_CODER, accept, Receiver(0, [], Stream(TOY_CODER, 0, [m]))).receiver.delivered
           != Arrived(TOY_CODER, [m])
  {
    hide Consume, Stream;
    var m := Message(1, seq(0xFFFF, _ => 0));
    assert TOY_CODER.Valid();
    assert !Sendable(TOY_CODER, [m][0]);
    DeliveredIffSendable(TOY_CODER, accept, 0, [], [m]);
    assert [] + Arrived(TOY_CODER, [m]) == Arrived(TOY_CODER, [m]);
  }

  /** Nothing delivered is ever taken back. */
  lemma {:induction false} DeliveredGrows(c: Coder, accept: seq<Message> -> bool, r: Receiver)
    requires c.Secure? ==> 0 < c.engine.blockSize
    ensures r.delivered <= Consume(c, accept, r).receiver.delivered
    decreases |r.unread|
  {
    if Complete(c, r.unread) {
      assert r.delivered <= Step(c, accept, r).receiver.delivered;
      if Step(c, accept, r).ok { DeliveredGrows(c, accept, Step(c, accept, r).receiver); }
    }
  }

  /** Of a stream of packets cut off anywhere, the receiver gets a prefix of the messages and sees no failure. */
  lemma PrefixDelivered(
    c: Coder, accept: seq<Message> -> bool, state: nat, messages: seq<Message>, bytes: seq<byte>)
    requires c.Valid() && Accepting(accept)
    requires AllSendable(c, messages)
    requires bytes <= Stream(c, state, messages)
    ensures var o := Consume(c, accept, Receiver(state, [], bytes));
      && o.ok && o.receiver.delivered <= Arrived(c, messages)
      && (bytes == Stream(c, state, messages) ==>
            o.receiver == Receiver(StateAfter(c, state, |messages|), Arrived(c, messages), []))
  {
    hide Consume, Stream, Arrived, Sendable;
    var all, r := Stream(c, state, messages), Receiver(state, [], bytes);
    var rest := all[|bytes|..];
    assert More(r, rest) == Receiver(state, [], all) by { assert bytes + rest == all; }
    StreamDelivered(c, accept, state, [], messages);
    assert [] + Arrived(c, messages) == Arrived(c, messages);
    ConsumeAppend(c, accept, r, rest);
    DeliveredGrows(c, accept, More(Consume(c, accept, r).receiver, rest));
  }
}
