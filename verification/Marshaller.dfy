/** The packet coder and the marshaller, working in place on memory blocks. */
module Marshaller {
  import opened Bits
  import opened Buffers
  import opened Wrappers
  import opened Cipher
  import opened Packets
  import opened PacketLaws

  /** The packet coder: `coder` says which, and which foreign functions it uses. */
  class PacketCoder {
    const coder: Coder
    const cipher: BlockCipher?
    const keys: CipherKeyGenerator

    ghost predicate Valid()
      reads if cipher == null then {} else {cipher.encryptor, cipher.decryptor}
    {
      && coder.Valid()
      && (coder.Secure? ==>
            && cipher != null && cipher.Valid() && cipher.encryptor.engine == coder.engine
            && keys.source == coder.source)
      && (coder.Plain? ==> !keys.source.dynamic)
    }

    ghost function Repr(): (r: set<object>) {
      {keys} + if cipher == null then {} else {cipher.encryptor, cipher.decryptor}
    }

    constructor (coder: Coder)
      requires coder.Valid()
      ensures Valid() && this.coder == coder && fresh(Repr())
      ensures coder.Secure? ==>
        keys.encryptState == keys.decryptState == coder.source.Seeded(coder.source.DefaultKey())
    {
      this.coder := coder;
      if coder.Secure? {
        cipher := new BlockCipher(coder.engine);
        keys := new CipherKeyGenerator(coder.source);
      } else {
        cipher := null;
        keys := new CipherKeyGenerator(KeySource(false, x => x, x => x, x => x));
      }
    }

    /** Pads the body with zeros to whole cipher blocks. */
    method PadBody(block: MemoryBlock)
      requires Valid() && coder.Secure? && block.Valid() && block.rdPtr == 0 && coder.HeaderSize() <= block.wrPtr
      modifies block
      ensures block.Valid() && block.rdPtr == 0
      ensures block.Unread() == old(block.Unread()[..coder.HeaderSize()])
                              + Padded(coder, old(block.Unread()[coder.HeaderSize()..]))
    {
      var delta := Padding(block.Length() - coder.HeaderSize(), coder.engine.blockSize);
      ghost var before := block.Unread();
      if delta > 0 {
        block.Reserve(delta);
        for s := 0 to delta
          invariant block.Valid() && block.rdPtr == 0 && block.wrPtr == |before| && block.Space() >= delta
          invariant block.buffer[..block.wrPtr + s] == before + seq(s, _ => 0)
        {
          ghost var was := block.buffer;
          block.Overwrite(block.wrPtr + s, [0]);
          assert block.buffer[..block.wrPtr + s + 1] == was[..block.wrPtr + s] + [0];
        }
        block.wrPtr := block.wrPtr + delta;
      }
      ghost var h := coder.HeaderSize();
      assert before == before[..h] + before[h..];
      assert block.Unread() == before + seq(delta, _ => 0);
    }

    /** Turns header space and body into a packet, in place. A secure coder takes one key per packet. */
    method Encode(block: MemoryBlock, messageType: int) returns (ok: bool)
      requires Valid() && block.Valid() && block.rdPtr == 0
      modifies block, Repr()
      ensures Valid() && block.Valid()
      ensures ok <==> coder.HeaderSize() <= |old(block.Unread())| && ValidType(messageType)
      ensures |old(block.Unread())| >= coder.HeaderSize() ==>
        keys.encryptState == coder.NextState(old(keys.encryptState))
      ensures keys.decryptState == old(keys.decryptState)
      ensures ok ==> block.Unread() == Packet(coder, coder.NextState(old(keys.encryptState)),
                        Message(messageType, old(block.Unread()[coder.HeaderSize()..])))
    {
      var h := coder.HeaderSize();
      if block.Length() < h { return false; }
      ghost var body := block.Unread()[h..];
      if coder.Plain? {
        if !ValidType(messageType) { return false; }
        var size := (block.Length() - h) % 0x1_0000;
        assert Put16(size) == Put16(|body|) by { Put16Mod(|body|); }
        block.Overwrite(0, Put16(size) + [messageType]);
        assert block.Unread() == Put16(|body|) + [messageType] + body;
        return true;
      }
      ok := EncodeSecure(block, messageType);
    }

    /** Pads and enciphers the body under the next key; gives what the header needs. */
    method SealBody(block: MemoryBlock) returns (size: nat, fingerPrint: nat, checkSum: nat)
      requires Valid() && coder.Secure? && block.Valid() && block.rdPtr == 0
      requires coder.HeaderSize() <= |block.Unread()|
      modifies block, Repr()
      ensures Valid() && block.Valid() && block.rdPtr == 0
      ensures keys.encryptState == coder.NextState(old(keys.encryptState))
      ensures keys.decryptState == old(keys.decryptState)
      ensures var h := coder.HeaderSize();
        var body, key := Padded(coder, old(block.Unread()[h..])), coder.source.Key(keys.encryptState);
        && size == |body| % 0x1_0000 && fingerPrint == FingerPrint(key) && checkSum == CheckSum(coder, body, key)
        && h <= |block.Unread()| && block.Unread()[h..] == Ciphered(coder, true, keys.encryptState, body)
    {
      hide Padded, CheckSum, FingerPrint, Ciphered, Transformed;
      var h := coder.HeaderSize();
      ghost var body := Padded(coder, block.Unread()[h..]);
      PaddedIsWhole(coder, block.Unread()[h..]);
      PadBody(block);
      size := (block.Length() - h) % 0x1_0000;

      var key := keys.GetEncryptKey();
      fingerPrint := FingerPrint(key);
      var last := block.wrPtr;
      assert block.buffer[h..last] == block.Unread()[h..] == body;
      checkSum := Or(coder.crc(block.buffer[h..last]), fingerPrint);
      CheckSumIs(coder, body, key);
      CipheredIs(coder, true, keys.encryptState, body);
      CipheredLength(coder, true, keys.encryptState, body);
      if last - h > 0 {
        var done := cipher.Transform(true, block, h, last, key);
        assert done;
      }
      assert block.buffer[h..last] == Ciphered(coder, true, keys.encryptState, body);
    }

    method EncodeSecure(block: MemoryBlock, messageType: int) returns (ok: bool)
      requires Valid() && coder.Secure? && block.Valid() && block.rdPtr == 0
      requires coder.HeaderSize() <= |block.Unread()|
      modifies block, Repr()
      ensures Valid() && block.Valid() && ok == ValidType(messageType)
      ensures keys.encryptState == coder.NextState(old(keys.encryptState))
      ensures keys.decryptState == old(keys.decryptState)
      ensures ok ==> block.Unread() == Packet(coder, coder.NextState(old(keys.encryptState)),
                        Message(messageType, old(block.Unread()[coder.HeaderSize()..])))
    {
      hide Padded, CheckSum, FingerPrint, Ciphered, Put32, Put16, Transformed;
      var h := coder.HeaderSize();
      ghost var body := Padded(coder, block.Unread()[h..]);
      var size, fingerPrint, checkSum := SealBody(block);
      if !ValidType(messageType) { return false; }
      ghost var sent := block.Unread()[h..];
      Put16Mod(|body|);
      ghost var sealed, last := block.buffer, block.wrPtr;
      block.Overwrite(0, Put16(size) + [messageType]);
      block.Overwrite(RAW_HEADER, Put16(fingerPrint) + Put32(checkSum));
      HeaderOver(sealed, last, Put16(size) + [messageType], Put16(fingerPrint) + Put32(checkSum));
      ok := true;
    }

    /** Checks a packet and deciphers its body, in place. A secure coder takes one key per packet, even a bad one. */
    method Decode(block: MemoryBlock) returns (ok: bool)
      requires Valid() && block.Valid() && block.rdPtr == 0 && coder.HeaderSize() <= |block.Unread()|
      modifies block`buffer, Repr()
      ensures Valid() && block.Valid()
      ensures keys.decryptState == coder.NextState(old(keys.decryptState))
      ensures keys.encryptState == old(keys.encryptState)
      ensures var r := Unpacket(coder, coder.NextState(old(keys.decryptState)), old(block.Unread()));
        ok == r.Some? && (ok ==> block.Unread()[coder.HeaderSize()..] == r.value)
    {
      if coder.Plain? { return true; }
      hide CheckSum, FingerPrint, Ciphered, Get16, Get32, Transformed;
      ghost var p := block.Unread();
      var h, last := coder.HeaderSize(), block.wrPtr;
      var sentPrint, sentSum := Get16(block.buffer[3..5]), Get32(block.buffer[5..9]);
      assert block.buffer[3..5] == p[3..5] && block.buffer[5..9] == p[5..9] && block.buffer[h..last] == p[h..];
      var key := keys.GetDecryptKey();
      var fingerPrint := FingerPrint(key);
      if fingerPrint != sentPrint { return false; }
      ghost var sent := p[h..];
      CipheredIs(coder, false, keys.decryptState, sent);
      if last - h > 0 {
        var done := cipher.Transform(false, block, h, last, key);
        if !done { return false; }
        CipheredLength(coder, false, keys.decryptState, sent);
      }
      ghost var body := Ciphered(coder, false, keys.decryptState, sent);
      assert block.buffer[h..last] == body;
      var checkSum := Or(coder.crc(block.buffer[h..last]), fingerPrint);
      CheckSumIs(coder, body, key);
      ok := checkSum == sentSum;
    }

    method Reset()
      modifies keys
      ensures keys.encryptState == keys.decryptState == keys.source.Seeded(keys.source.DefaultKey())
    {
      keys.Reset();
    }
  }

  /** Two headers written over the front of a buffer, one after the other. */
  lemma HeaderOver(buffer: seq<byte>, last: nat, raw: seq<byte>, additional: seq<byte>)
    requires |raw| + |additional| <= last <= |buffer|
    ensures var h := |raw| + |additional|;
      var written := raw + buffer[|raw|..];
      (written[..|raw|] + additional + written[h..])[..last] == raw + additional + buffer[..last][h..]
  {
    var h := |raw| + |additional|;
    var written := raw + buffer[|raw|..];
    assert written[..|raw|] == raw && written[h..] == buffer[h..];
    assert buffer[..last][h..] == buffer[h..][..last - h];
  }

  lemma Put16Mod(n: nat)
    ensures Put16(n % 0x1_0000) == Put16(n)
  {
    var q, r := n / 0x1_0000, n % 0x1_0000;
    assert n == 256 * (256 * q) + r;
    assert n / 256 == 256 * q + r / 256;
  }

  lemma CheckSumIs(c: Coder, body: seq<byte>, key: nat)
    requires c.Secure?
    ensures CheckSum(c, body, key) == Or(c.crc(body), FingerPrint(key))
  {
  }

  lemma CipheredIs(c: Coder, encrypting: bool, state: nat, body: seq<byte>)
    requires c.Secure? && 0 < c.engine.blockSize
    ensures Ciphered(c, encrypting, state, body)
         == if body == [] then [] else Transformed(c.engine, encrypting, c.source.Key(state), body)
  {
  }

  // ---- the marshaller ----

  datatype Header = Header(bodySize: nat, messageType: int)
  {
    predicate IsValid() { ValidType(messageType) }
  }

  const NO_HEADER: Header := Header(0, -1)

  function HeaderOf(unread: seq<byte>): (h: Header)
    requires RAW_HEADER <= |unread|
    ensures h.IsValid()
  {
    Header(BodySize(unread), unread[2])
  }

  /** Sends and reassembles packets. `accept` is the callback: its answer to the history of messages handed over. */
  class SgpMarshaller {
    const packetCoder: PacketCoder
    const recvBlock: MemoryBlock
    const msgBlock: MemoryBlock
    const accept: seq<Message> -> bool
    var header: Header
    var delivered: seq<Message>

    ghost function Repr(): (r: set<object>) { {this, recvBlock, msgBlock} + packetCoder.Repr() }

    /** What holds even after a failure. */
    ghost predicate Sound()
      reads Repr()
    {
      && recvBlock != msgBlock && packetCoder.Valid() && recvBlock.Valid() && msgBlock.Valid()
    }

    /** A cached header is the header at the front of the unread bytes. */
    ghost predicate Valid()
      reads Repr()
    {
      && Sound()
      && (header.IsValid() ==>
            packetCoder.coder.HeaderSize() <= |recvBlock.Unread()| && header == HeaderOf(recvBlock.Unread()))
    }

    /** Reading failed at `before`, and the header of the packet dropped there is still cached. */
    ghost predicate FailedAt(before: Receiver)
      requires Sound()
      reads Repr()
    {
      && Complete(packetCoder.coder, before.unread) && header == HeaderOf(before.unread)
      && Step(packetCoder.coder, accept, before) == Outcome(false, View())
    }

    /** After a failure the cached header is the one of the packet that failed, not of the unread bytes. */
    ghost predicate HoldsFailedHeader()
      requires Sound()
      reads Repr()
    {
      exists before :: FailedAt(before)
    }

    ghost function View(): (r: Receiver)
      requires Sound()
      reads Repr()
    {
      Receiver(packetCoder.keys.decryptState, delivered, recvBlock.Unread())
    }

    constructor (coder: Coder, accept: seq<Message> -> bool, blockSize: nat)
      requires coder.Valid()
      ensures Valid() && fresh(Repr()) && packetCoder.coder == coder && this.accept == accept
      ensures recvBlock.Unread() == [] && delivered == []
      ensures coder.Secure? ==>
        packetCoder.keys.encryptState == packetCoder.keys.decryptState == coder.source.Seeded(coder.source.DefaultKey())
    {
      packetCoder := new PacketCoder(coder);
      recvBlock := new MemoryBlock(blockSize);
      msgBlock := new MemoryBlock(blockSize);
      this.accept := accept;
      header, delivered := NO_HEADER, [];
    }

    /** Back to the state of a new connection, from any state. */
    method Reset()
      requires packetCoder.Valid() && recvBlock != msgBlock
      modifies Repr()
      ensures Valid() && recvBlock.Unread() == [] && !header.IsValid() && delivered == old(delivered)
      ensures packetCoder.keys.encryptState == packetCoder.keys.decryptState
      ensures packetCoder.coder.Secure? ==>
        packetCoder.keys.decryptState == packetCoder.coder.source.Seeded(packetCoder.coder.source.DefaultKey())
    {
      packetCoder.Reset();
      header := NO_HEADER;
      recvBlock.Reset();
      msgBlock.Reset();
    }

    /** A block from acquireSendBlock holding `body`, turned into a packet. */
    method Marshal(body: seq<byte>, messageType: int) returns (ok: bool, packet: seq<byte>)
      requires Sound()
      modifies packetCoder.Repr()
      ensures Sound() && ok == ValidType(messageType)
      ensures packetCoder.keys.encryptState == packetCoder.coder.NextState(old(packetCoder.keys.encryptState))
      ensures packetCoder.keys.decryptState == old(packetCoder.keys.decryptState)
      ensures ok ==>
        packet == Packet(packetCoder.coder, packetCoder.keys.encryptState, Message(messageType, body))
    {
      var h := packetCoder.coder.HeaderSize();
      var block := new MemoryBlock(1024);
      block.Put(seq(h, _ => 0));
      block.Put(body);
      assert block.Unread()[h..] == body;
      ok := packetCoder.Encode(block, messageType);
      packet := if ok then block.buffer[block.rdPtr..block.wrPtr] else [];
    }

    method ParseHeader()
      requires Valid() && packetCoder.coder.HeaderSize() <= |recvBlock.Unread()|
      modifies this`header
      ensures Valid() && header == HeaderOf(recvBlock.Unread())
    {
      if !header.IsValid() {
        var front := recvBlock.buffer[recvBlock.rdPtr..recvBlock.wrPtr];
        header := HeaderOf(front);
      }
    }

    /** Moves the packet at the front into the message block, decodes it, and points the block at the body. */
    method ParseMessage() returns (ok: bool)
      requires Valid() && Complete(packetCoder.coder, recvBlock.Unread()) && header == HeaderOf(recvBlock.Unread())
      modifies recvBlock, msgBlock, packetCoder.Repr()
      ensures Sound() && |recvBlock.buffer| == old(|recvBlock.buffer|)
      ensures packetCoder.keys.decryptState == packetCoder.coder.NextState(old(packetCoder.keys.decryptState))
      ensures packetCoder.keys.encryptState == old(packetCoder.keys.encryptState)
      ensures var size := packetCoder.coder.HeaderSize() + old(header.bodySize);
        var r := Unpacket(packetCoder.coder, packetCoder.keys.decryptState, old(recvBlock.Unread())[..size]);
        && recvBlock.Unread() == old(recvBlock.Unread())[size..]
        && ok == r.Some? && (ok ==> msgBlock.Unread() == r.value)
    {
      hide Unpacket;
      var h := packetCoder.coder.HeaderSize();
      TakeMessage(h + header.bodySize);
      ok := packetCoder.Decode(msgBlock);
      msgBlock.rdPtr := h;
    }

    /** Copies the first `messageSize` unread bytes to the message block and drops them from the receive block. */
    method TakeMessage(messageSize: nat)
      requires recvBlock != msgBlock && recvBlock.Valid() && msgBlock.Valid() && messageSize <= |recvBlock.Unread()|
      modifies recvBlock, msgBlock
      ensures recvBlock.Valid() && msgBlock.Valid() && msgBlock.rdPtr == 0
      ensures msgBlock.Unread() == old(recvBlock.Unread())[..messageSize]
      ensures recvBlock.Unread() == old(recvBlock.Unread())[messageSize..]
      ensures |recvBlock.buffer| == old(|recvBlock.buffer|)
    {
      FillMessage(messageSize);
      recvBlock.Skip(messageSize);
      recvBlock.Crunch();
    }

    method FillMessage(messageSize: nat)
      requires recvBlock != msgBlock && recvBlock.Valid() && msgBlock.Valid() && messageSize <= |recvBlock.Unread()|
      modifies msgBlock
      ensures msgBlock.Valid() && msgBlock.rdPtr == 0 && msgBlock.Unread() == recvBlock.Unread()[..messageSize]
    {
      var message := recvBlock.buffer[recvBlock.rdPtr..recvBlock.rdPtr + messageSize];
      msgBlock.Reset();
      msgBlock.Resize(messageSize);
      msgBlock.Put(message);
      assert msgBlock.Unread() == message;
    }

    /** Takes the complete packet at the front and hands over its message: one turn, as Step says. */
    method HandlePacket() returns (ok: bool, handedOver: nat)
      requires Valid() && Complete(packetCoder.coder, recvBlock.Unread()) && header == HeaderOf(recvBlock.Unread())
      modifies Repr()
      ensures Sound() && (ok ==> Valid()) && |recvBlock.buffer| == old(|recvBlock.buffer|)
      ensures Outcome(ok, View()) == Step(packetCoder.coder, accept, old(View()))
      ensures !ok ==> header == HeaderOf(old(recvBlock.Unread()))
      ensures handedOver == |delivered| - |old(delivered)|
      ensures packetCoder.keys.encryptState == old(packetCoder.keys.encryptState)
    {
      hide Unpacket, BodySize;
      var parsed := ParseMessage();
      if !parsed { return false, 0; }
      delivered := delivered + [Message(header.messageType, msgBlock.buffer[msgBlock.rdPtr..msgBlock.wrPtr])];
      if !accept(delivered) { return false, 1; }
      header := NO_HEADER;
      return true, 1;
    }

    /** Hands over every complete packet, up to the first failure: exactly what Consume says. */
    method Unmarshal() returns (ok: bool, receivedMessageCount: nat)
      requires Valid()
      modifies Repr()
      ensures Sound() && if ok then Valid() && Idle(packetCoder.coder, View()) else HoldsFailedHeader()
      ensures Outcome(ok, View()) == Consume(packetCoder.coder, accept, old(View()))
      ensures receivedMessageCount == |delivered| - |old(delivered)|
      ensures packetCoder.keys.encryptState == old(packetCoder.keys.encryptState)
      ensures |recvBlock.buffer| == old(|recvBlock.buffer|)
    {
      hide Step, Consume;
      receivedMessageCount := 0;
      var h := packetCoder.coder.HeaderSize();
      ghost var c := packetCoder.coder;
      while recvBlock.Length() >= h
        invariant Valid() && packetCoder.keys.encryptState == old(packetCoder.keys.encryptState)
        invariant Consume(c, accept, View()) == Consume(c, accept, old(View()))
        invariant receivedMessageCount == |delivered| - |old(delivered)|
        invariant |recvBlock.buffer| == old(|recvBlock.buffer|)
        decreases |recvBlock.Unread()|
      {
        ParseHeader();
        if recvBlock.Length() < h + header.bodySize { break; }
        ghost var before := View();
        ConsumeOne(c, accept, before);
        var handedOver: nat;
        ok, handedOver := HandlePacket();
        receivedMessageCount := receivedMessageCount + handedOver;
        if !ok {
          assert FailedAt(before);
          return;
        }
      }
      ok := true;
      ConsumeIdle(c, accept, View());
    }

    /** Bytes arriving from the socket, chunk by chunk, until a failure. */
    method Receive(chunks: seq<seq<byte>>) returns (ok: bool, ghost rest: seq<byte>)
      requires Valid() && Idle(packetCoder.coder, View())
      modifies Repr()
      ensures Sound() && (ok ==> Valid() && rest == [])
      ensures Outcome(ok, More(View(), rest)) == Consume(packetCoder.coder, accept, More(old(View()), Concat(chunks)))
      ensures packetCoder.keys.encryptState == old(packetCoder.keys.encryptState)
    {
      hide Consume, Complete;
      ghost var c := packetCoder.coder;
      ChunkingIrrelevant(c, accept, View(), chunks);
      ok, rest := true, [];
      assert chunks[0..] == chunks;
      for i := 0 to |chunks|
        invariant Valid() && packetCoder.keys.encryptState == old(packetCoder.keys.encryptState)
        invariant Feed(c, accept, View(), chunks[i..]) == Feed(c, accept, old(View()), chunks)
      {
        ghost var before := View();
        recvBlock.Put(chunks[i]);
        assert View() == More(before, chunks[i]);
        KeepHeader(before.unread, chunks[i]);
        var count: nat;
        ok, count := Unmarshal();
        assert chunks[i..][1..] == chunks[i + 1..];
        if !ok { return false, Concat(chunks[i + 1..]); }
      }
      assert chunks[|chunks|..] == [];
      assert recvBlock.Unread() + [] == recvBlock.Unread();
    }
  }

  /** More bytes do not change the header at the front. */
  lemma KeepHeader(unread: seq<byte>, bytes: seq<byte>)
    ensures RAW_HEADER <= |unread| ==> HeaderOf(unread + bytes) == HeaderOf(unread)
  {
    if RAW_HEADER <= |unread| { assert (unread + bytes)[..2] == unread[..2]; }
  }

  /** Cuts a byte stream into chunks of the given sizes; what is left is the last chunk. */
  function Split(bytes: seq<byte>, cuts: seq<nat>): (chunks: seq<seq<byte>>)
    ensures Concat(chunks) == bytes
    decreases |cuts|
  {
    if cuts == [] || |bytes| <= cuts[0] then
      assert Concat([bytes]) == bytes + Concat([]);
      [bytes]
    else
      var rest := Split(bytes[cuts[0]..], cuts[1..]);
      assert ([bytes[..cuts[0]]] + rest)[1..] == rest;
      [bytes[..cuts[0]]] + rest
  }

  /** The sender's encrypting and the receiver's decrypting generator are at the same state, and nothing is on
      its way. */
  ghost predicate InStep(sender: SgpMarshaller, receiver: SgpMarshaller)
    reads sender.Repr(), receiver.Repr()
  {
    && sender.Valid() && receiver.Valid() && sender.Repr() !! receiver.Repr()
    && sender.packetCoder.coder == receiver.packetCoder.coder
    && sender.packetCoder.keys.encryptState == receiver.packetCoder.keys.decryptState
    && receiver.recvBlock.Unread() == []
  }

  /** End to end: messages marshalled by one end and cut into chunks anywhere arrive at the other end exactly, in
      order, if and only if every padded body fits the size field. Then nothing is left unread and the key
      generators are still in step. */
  method Transfer(sender: SgpMarshaller, receiver: SgpMarshaller, messages: seq<Message>, cuts: seq<nat>)
    requires InStep(sender, receiver) && Accepting(receiver.accept)
    modifies sender.packetCoder.Repr(), receiver.Repr()
    ensures sender.Valid() && receiver.Sound()
    ensures receiver.delivered == old(receiver.delivered) + Arrived(receiver.packetCoder.coder, messages)
       <==> AllSendable(receiver.packetCoder.coder, messages)
    ensures AllSendable(receiver.packetCoder.coder, messages) ==> InStep(sender, receiver)
    ensures sender.packetCoder.keys.decryptState == old(sender.packetCoder.keys.decryptState)
    ensures receiver.packetCoder.keys.encryptState == old(receiver.packetCoder.keys.encryptState)
  {
    hide Packet, Arrived, Consume, Feed, Concat, Split, Sendable, Stream, StateAfter, AllSendable;
    ghost var c, state := sender.packetCoder.coder, sender.packetCoder.keys.encryptState;
    ghost var was := receiver.View();
    var bytes := SendAll(sender, messages);
    EmptyIncomplete(c);
    var ok: bool;
    ghost var rest;
    ok, rest := receiver.Receive(Split(bytes, cuts));
    assert More(was, bytes) == Receiver(state, was.delivered, bytes) by { assert [] + bytes == bytes; }
    DeliveredIffSendable(c, receiver.accept, state, was.delivered, messages);
    if AllSendable(c, messages) {
      StreamDelivered(c, receiver.accept, state, was.delivered, messages);
      assert receiver.recvBlock.Unread() + rest == [];
    }
  }

  /** One turn of a conversation: messages from one side, and where the network cuts their packets. */
  datatype Turn = Turn(fromClient: bool, messages: seq<Message>, cuts: seq<nat>)

  /** What one side says in a conversation. */
  function Said(turns: seq<Turn>, byClient: bool): (messages: seq<Message>)
  {
    if turns == [] then []
    else
      var last := turns[|turns| - 1];
      Said(turns[..|turns| - 1], byClient) + if last.fromClient == byClient then last.messages else []
  }

  lemma {:induction false} ArrivedConcat(c: Coder, a: seq<Message>, b: seq<Message>)
    requires c.Secure? ==> 0 < c.engine.blockSize
    ensures Arrived(c, a + b) == Arrived(c, a) + Arrived(c, b)
    decreases |a|
  {
    hide Padded;
    if a == [] {
      assert a + b == b;
    } else {
      ArrivedConcat(c, a[1..], b);
      assert (a + b)[1..] == a[1..] + b;
    }
  }

  ghost predicate InStepBothWays(client: SgpMarshaller, server: SgpMarshaller)
    reads client.Repr(), server.Repr()
  {
    InStep(client, server) && InStep(server, client)
  }

  /** One side speaks; the other direction is not disturbed. */
  method Say(sender: SgpMarshaller, receiver: SgpMarshaller, messages: seq<Message>, cuts: seq<nat>)
    requires InStepBothWays(sender, receiver) && Accepting(receiver.accept)
    requires AllSendable(receiver.packetCoder.coder, messages)
    modifies sender.Repr(), receiver.Repr()
    ensures InStepBothWays(sender, receiver) && InStepBothWays(receiver, sender)
    ensures sender.delivered == old(sender.delivered)
    ensures receiver.delivered == old(receiver.delivered) + Arrived(receiver.packetCoder.coder, messages)
  {
    hide Arrived, AllSendable;
    Transfer(sender, receiver, messages, cuts);
  }

  /** The same seeds, crosswise, bring two idle ends in step. */
  method Seed(client: SgpMarshaller, server: SgpMarshaller, upKey: nat, downKey: nat)
    requires client.Valid() && server.Valid() && client.Repr() !! server.Repr()
    requires client.packetCoder.coder == server.packetCoder.coder
    requires client.recvBlock.Unread() == server.recvBlock.Unread() == []
    modifies client.packetCoder.keys, server.packetCoder.keys
    ensures InStepBothWays(client, server)
  {
    client.packetCoder.keys.SetKeys(upKey, downKey);
    server.packetCoder.keys.SetKeys(downKey, upKey);
  }

  /** What an end that had heard `before` has heard when one side has said all it says. */
  function Heard(c: Coder, before: seq<Message>, turns: seq<Turn>, byClient: bool): (r: seq<Message>)
    requires c.Secure? ==> 0 < c.engine.blockSize
  {
    before + Arrived(c, Said(turns, byClient))
  }

  lemma HeardNothing(c: Coder, before: seq<Message>, turns: seq<Turn>, byClient: bool)
    requires c.Secure? ==> 0 < c.engine.blockSize
    ensures Heard(c, before, turns[..0], byClient) == before
  {
  }

  lemma HeardNext(c: Coder, before: seq<Message>, turns: seq<Turn>, i: nat, byClient: bool)
    requires (c.Secure? ==> 0 < c.engine.blockSize) && i < |turns|
    ensures var sofar := Heard(c, before, turns[..i], byClient);
      Heard(c, before, turns[..i + 1], byClient)
        == if turns[i].fromClient == byClient then sofar + Arrived(c, turns[i].messages) else sofar
  {
    hide Arrived;
    assert turns[..i + 1][..i] == turns[..i];
    var said := Said(turns[..i], byClient);
    if turns[i].fromClient == byClient {
      ArrivedConcat(c, said, turns[i].messages);
      assert before + (Arrived(c, said) + Arrived(c, turns[i].messages))
          == before + Arrived(c, said) + Arrived(c, turns[i].messages);
    } else {
      assert said + [] == said;
    }
  }

  /** Two ends seeded alike stay in key lockstep in both directions over any conversation: each end gets all the
      other says, in order. */
  method Converse(client: SgpMarshaller, server: SgpMarshaller, turns: seq<Turn>)
    requires InStepBothWays(client, server) && Accepting(client.accept) && Accepting(server.accept)
    requires forall i :: 0 <= i < |turns| ==> AllSendable(client.packetCoder.coder, turns[i].messages)
    modifies client.Repr(), server.Repr()
    ensures InStepBothWays(client, server)
    ensures server.delivered == Heard(server.packetCoder.coder, old(server.delivered), turns, true)
    ensures client.delivered == Heard(client.packetCoder.coder, old(client.delivered), turns, false)
  {
    ghost var c, up, down := client.packetCoder.coder, server.delivered, client.delivered;
    assert server.packetCoder.coder == c && (c.Secure? ==> 0 < c.engine.blockSize);
    assert InStepBothWays(server, client);
    hide Arrived, AllSendable, Heard, Accepting, InStepBothWays, SgpMarshaller.Repr;
    HeardNothing(c, up, turns, true);
    HeardNothing(c, down, turns, false);
    for i := 0 to |turns|
      invariant InStepBothWays(client, server) && InStepBothWays(server, client)
      invariant server.delivered == Heard(c, up, turns[..i], true)
      invariant client.delivered == Heard(c, down, turns[..i], false)
    {
      HeardNext(c, up, turns, i, true);
      HeardNext(c, down, turns, i, false);
      if turns[i].fromClient {
        Say(client, server, turns[i].messages, turns[i].cuts);
      } else {
        Say(server, client, turns[i].messages, turns[i].cuts);
      }
    }
    assert turns[..|turns|] == turns;
  }

  method SendAll(sender: SgpMarshaller, messages: seq<Message>) returns (bytes: seq<byte>)
    requires sender.Valid()
    modifies sender.packetCoder.Repr()
    ensures sender.Valid()
    ensures bytes == Stream(sender.packetCoder.coder, old(sender.packetCoder.keys.encryptState), messages)
    ensures sender.packetCoder.keys.encryptState
         == StateAfter(sender.packetCoder.coder, old(sender.packetCoder.keys.encryptState), |messages|)
    ensures sender.packetCoder.keys.decryptState == old(sender.packetCoder.keys.decryptState)
  {
    hide Packet, Stream, StateAfter;
    ghost var c, start := sender.packetCoder.coder, sender.packetCoder.keys.encryptState;
    bytes := [];
    assert messages[0..] == messages;
    assert [] + Stream(c, start, messages) == Stream(c, start, messages);
    for i := 0 to |messages|
      invariant sender.Valid() && sender.packetCoder.keys.decryptState == old(sender.packetCoder.keys.decryptState)
      invariant bytes + Stream(c, sender.packetCoder.keys.encryptState, messages[i..]) == Stream(c, start, messages)
      invariant StateAfter(c, sender.packetCoder.keys.encryptState, |messages| - i) == StateAfter(c, start, |messages|)
    {
      StreamNext(c, sender.packetCoder.keys.encryptState, messages, i, bytes);
      var ok, packet := sender.Marshal(messages[i].body, messages[i].messageType);
      bytes := bytes + packet;
    }
    StreamEnd(c, sender.packetCoder.keys.encryptState, messages);
    assert bytes + [] == bytes;
  }

  lemma StreamNext(c: Coder, state: nat, messages: seq<Message>, i: nat, bytes: seq<byte>)
    requires (c.Secure? ==> 0 < c.engine.blockSize) && i < |messages|
    ensures var s := c.NextState(state);
      && bytes + Stream(c, state, messages[i..])
           == bytes + Packet(c, s, Message(messages[i].messageType, messages[i].body)) + Stream(c, s, messages[i + 1..])
      && StateAfter(c, state, |messages| - i) == StateAfter(c, s, |messages| - (i + 1))
  {
    hide Packet;
    var s := c.NextState(state);
    assert messages[i..][1..] == messages[i + 1..];
    assert messages[i] == Message(messages[i].messageType, messages[i].body);
    assert bytes + (Packet(c, s, messages[i]) + Stream(c, s, messages[i + 1..]))
        == bytes + Packet(c, s, messages[i]) + Stream(c, s, messages[i + 1..]);
  }

  lemma StreamEnd(c: Coder, state: nat, messages: seq<Message>)
    requires c.Secure? ==> 0 < c.engine.blockSize
    ensures Stream(c, state, messages[|messages|..]) == [] && StateAfter(c, state, 0) == state
  {
  }
}
