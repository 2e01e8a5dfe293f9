/** Packets on the wire: headers, the plain and the secure coder, and reassembly from a byte stream. */
module Packets {
  import opened Bits
  import opened Wrappers
  import opened Cipher

  // ---- little-endian fields ----

  function Put16(v: nat): (b: seq<byte>)
    ensures |b| == 2
  {
    [v % 256, v / 256 % 256]
  }

  function Put32(v: nat): (b: seq<byte>)
    ensures |b| == 4
  {
    Put16(v % 0x1_0000) + Put16(v / 0x1_0000)
  }

  function Get16(b: seq<byte>): (v: nat)
    requires |b| == 2
    ensures v < 0x1_0000
  {
    (b[0] as int) + 256 * (b[1] as int)
  }

  function Get32(b: seq<byte>): (v: nat)
    requires |b| == 4
    ensures v < 0x1_0000_0000
  {
    Get16(b[..2]) + 0x1_0000 * Get16(b[2..])
  }

  lemma Get16Put16(v: nat)
    ensures Get16(Put16(v)) == v % 0x1_0000
  {
    var q := v / 256;
    assert v == 256 * q + v % 256 && q == 256 * (q / 256) + q % 256;
    assert v == 0x1_0000 * (q / 256) + (256 * (q % 256) + v % 256);
  }

  lemma Get32Put32(v: nat)
    requires v < 0x1_0000_0000
    ensures Get32(Put32(v)) == v
  {
    assert Put32(v)[..2] == Put16(v % 0x1_0000) && Put32(v)[2..] == Put16(v / 0x1_0000);
    Get16Put16(v % 0x1_0000);
    Get16Put16(v / 0x1_0000);
  }

  // ---- the coder ----

  datatype Message = Message(messageType: byte, body: seq<byte>)

  predicate ValidType(messageType: int) { 0 <= messageType <= 255 }

  const RAW_HEADER: nat := 3
  const ADDITIONAL_HEADER: nat := 6

  /** A plain coder writes size and type. A secure one also pads, checksums and enciphers the body. */
  datatype Coder =
    | Plain
    | Secure(engine: Engine, source: KeySource, crc: seq<byte> -> nat)
  {
    ghost predicate Valid() {
      Secure? ==> engine.Valid() && source.Valid() && forall b :: crc(b) < 0x1_0000_0000
    }

    function HeaderSize(): (n: nat) { if Plain? then RAW_HEADER else RAW_HEADER + ADDITIONAL_HEADER }

    function NextState(state: nat): (s: nat) { if Plain? then state else source.Next(state) }
  }

  /** Zeros added to make whole blocks. */
  function Padding(n: nat, blockSize: nat): (pad: nat)
    requires 0 < blockSize
  {
    if n % blockSize == 0 then 0 else blockSize - n % blockSize
  }

  function Padded(c: Coder, body: seq<byte>): (r: seq<byte>)
    requires c.Secure? ==> 0 < c.engine.blockSize
    ensures body <= r
  {
    if c.Plain? then body else body + seq(Padding(|body|, c.engine.blockSize), _ => 0)
  }

  function FingerPrint(key: nat): (f: nat)
    ensures f < 0x1_0000
  {
    ShiftRight(key, 5) % 0x1_0000
  }

  function CheckSum(c: Coder, body: seq<byte>, key: nat): (s: nat)
    requires c.Secure?
  {
    Or(c.crc(body), FingerPrint(key))
  }

  /** The body as sent under the key of generator state `state`. */
  function Ciphered(c: Coder, encrypting: bool, state: nat, body: seq<byte>): (r: seq<byte>)
    requires c.Secure? && 0 < c.engine.blockSize
  {
    if body == [] then [] else Transformed(c.engine, encrypting, c.source.Key(state), body)
  }

  /** The packet of a message, sent when the sender's generator has just reached `state`. */
  function Packet(c: Coder, state: nat, m: Message): (p: seq<byte>)
    requires c.Secure? ==> 0 < c.engine.blockSize
  {
    var body := Padded(c, m.body);
    var raw := Put16(|body|) + [m.messageType];
    if c.Plain? then raw + body
    else
      var key := c.source.Key(state);
      raw + (Put16(FingerPrint(key)) + Put32(CheckSum(c, body, key))) + Ciphered(c, true, state, body)
  }

  /** What the receiver makes of a whole packet: the body, or none if fingerprint, block length or checksum fail. */
  function Unpacket(c: Coder, state: nat, p: seq<byte>): (body: Option<seq<byte>>)
    requires c.Secure? ==> 0 < c.engine.blockSize
    requires c.HeaderSize() <= |p|
  {
    if c.Plain? then Some(p[RAW_HEADER..])
    else
      var key, sent := c.source.Key(state), p[c.HeaderSize()..];
      if Get16(p[3..5]) != FingerPrint(key) then None
      else if sent != [] && !WholeBlocks(|sent|, c.engine.blockSize) then None
      else
        var body := Ciphered(c, false, state, sent);
        if CheckSum(c, body, key) != Get32(p[5..9]) then None else Some(body)
  }

  // ---- reassembly ----

  /** The receiving end: generator state, messages handed over, bytes not yet consumed. */
  datatype Receiver = Receiver(state: nat, delivered: seq<Message>, unread: seq<byte>)

  datatype Outcome = Outcome(ok: bool, receiver: Receiver)

  function BodySize(unread: seq<byte>): (n: nat)
    requires RAW_HEADER <= |unread|
    ensures n < 0x1_0000
  {
    Get16(unread[..2])
  }

  /** A whole packet is at the front. */
  predicate Complete(c: Coder, unread: seq<byte>) {
    c.HeaderSize() <= |unread| && c.HeaderSize() + BodySize(unread) <= |unread|
  }

  /** One turn of the loop on a complete packet. `accept` is the callback's answer to a history of messages. */
  function Step(c: Coder, accept: seq<Message> -> bool, r: Receiver): (o: Outcome)
    requires c.Secure? ==> 0 < c.engine.blockSize
    requires Complete(c, r.unread)
    ensures |o.receiver.unread| < |r.unread|
  {
    var size, state := c.HeaderSize() + BodySize(r.unread), c.NextState(r.state);
    var rest := r.unread[size..];
    match Unpacket(c, state, r.unread[..size])
    case None => Outcome(false, Receiver(state, r.delivered, rest))
    case Some(body) =>
      var delivered := r.delivered + [Message(r.unread[2], body)];
      Outcome(accept(delivered), Receiver(state, delivered, rest))
  }

  /** Consumes complete packets up to the first failure. */
  function Consume(c: Coder, accept: seq<Message> -> bool, r: Receiver): (o: Outcome)
    requires c.Secure? ==> 0 < c.engine.blockSize
    decreases |r.unread|
  {
    if !Complete(c, r.unread) then Outcome(true, r)
    else
      var o := Step(c, accept, r);
      if o.ok then Consume(c, accept, o.receiver) else o
  }

  function More(r: Receiver, bytes: seq<byte>): (r': Receiver) { r.(unread := r.unread + bytes) }

  /** Chunks arrive one by one; after a failure nothing more is read and the rest stays unread. */
  function Feed(c: Coder, accept: seq<Message> -> bool, r: Receiver, chunks: seq<seq<byte>>): (o: Outcome)
    requires c.Secure? ==> 0 < c.engine.blockSize
    decreases |chunks|
  {
    if chunks == [] then Outcome(true, r)
    else
      var o := Consume(c, accept, More(r, chunks[0]));
      if o.ok then Feed(c, accept, o.receiver, chunks[1..])
      else Outcome(false, More(o.receiver, Concat(chunks[1..])))
  }

  function Concat(chunks: seq<seq<byte>>): (r: seq<byte>)
  {
    if chunks == [] then [] else chunks[0] + Concat(chunks[1..])
  }

  // ---- the stream of a list of messages ----

  /** The generator state after `n` packets. */
  function StateAfter(c: Coder, state: nat, n: nat): (s: nat)
    decreases n
  {
    if n == 0 then state else StateAfter(c, c.NextState(state), n - 1)
  }

  function Stream(c: Coder, state: nat, messages: seq<Message>): (bytes: seq<byte>)
    requires c.Secure? ==> 0 < c.engine.blockSize
    decreases |messages|
  {
    if messages == [] then []
    else
      var s := c.NextState(state);
      Packet(c, s, messages[0]) + Stream(c, s, messages[1..])
  }

  /** The messages as delivered: bodies padded to whole blocks by a secure coder. */
  function Arrived(c: Coder, messages: seq<Message>): (r: seq<Message>)
    requires c.Secure? ==> 0 < c.engine.blockSize
    ensures |r| == |messages|
    decreases |messages|
  {
    if messages == [] then []
    else [Message(messages[0].messageType, Padded(c, messages[0].body))] + Arrived(c, messages[1..])
  }
}
