/** Remote calls from one bit stream to another. */
module RpcExchange {
  import opened Bits
  import opened Buffers
  import opened BitStreams
  import opened Wrappers
  import opened RpcValues
  import opened RpcLaws
  import opened RpcStreams

  predicate AllEncodable(args: seq<Value>) { forall i :: 0 <= i < |args| ==> Encodable(args[i]) }

  // ---- the calling side ----

  method SerializeArgs(ostream: OBitStream, args: seq<Value>, types: seq<Type>) returns (ok: bool)
    requires ostream.Valid() && !ostream.Stale() && SupportedAll(types) && HaveTypes(args, types)
    modifies ostream, ostream.buffer
    ensures ostream.Valid() && ok == AllEncodable(args)
    ensures ok ==> !ostream.Stale()
    ensures ok ==> ostream.Bits() == old(ostream.Bits()) + EncodeArgs(args, types, |old(ostream.Bits())|)
  {
    hide Held, Clean, Encode, Supported, HasType, Encodable, EncodeArgs;
    ghost var target := ostream.Bits() + EncodeArgs(args, types, |ostream.Bits()|);
    ok := true;
    var i := 0;
    assert args[0..] == args && types[0..] == types;
    while i < |args|
      invariant i <= |args| && ostream.Valid() && !ostream.Stale() && ok
      invariant forall k :: 0 <= k < i ==> Encodable(args[k])
      invariant ostream.Bits() + EncodeArgs(args[i..], types[i..], |ostream.Bits()|) == target
    {
      EncodeArgsFrom(args, types, i, ostream.Bits());
      ok := Serialize(ostream, args[i], types[i]);
      if !ok { return; }
      i := i + 1;
    }
    assert args[i..] == [] && types[i..] == [];
    NoArgBits(|ostream.Bits()|);
  }

  lemma NoArgBits(pos: nat)
    ensures EncodeArgs([], [], pos) == []
  {
  }

  lemma EncodeArgsFrom(args: seq<Value>, types: seq<Type>, i: nat, sofar: seq<bool>)
    requires SupportedAll(types) && HaveTypes(args, types) && i < |args|
    ensures var first := Encode(args[i], types[i], |sofar|);
      sofar + EncodeArgs(args[i..], types[i..], |sofar|)
        == sofar + first + EncodeArgs(args[i + 1..], types[i + 1..], |sofar + first|)
  {
    hide Encode, Supported, HasType;
    assert args[i..][1..] == args[i + 1..] && types[i..][1..] == types[i + 1..];
    var first := Encode(args[i], types[i], |sofar|);
    Associate(sofar, first, EncodeArgs(args[i + 1..], types[i + 1..], |sofar + first|));
  }

  /** Identifier, arguments, alignment. */
  method MarshalCall(ostream: OBitStream, call: Call, registry: Registry) returns (ok: bool)
    requires ostream.Valid() && !ostream.Stale() && ValidRegistry(registry) && Registered(call, registry)
    modifies ostream, ostream.buffer
    ensures ostream.Valid() && ok == AllEncodable(call.args)
    ensures ok ==> !ostream.Stale() && ostream.holdingBitCount == 0
    ensures ok ==> ostream.Bits() == old(ostream.Bits()) + EncodeCall(call, registry, |old(ostream.Bits())|)
  {
    hide Held, Clean, ToBits, EncodeArgs, PadBits, Zeros, Encodable, Supported, HasType;
    ghost var before := ostream.Bits();
    assert call.id < Pow2(32) by { Pow2Known(); }
    ok := ostream.WriteBits(call.id, 32, 32);
    ok := SerializeArgs(ostream, call.args, registry[call.id]);
    if ok {
      ghost var id, args := ToBits(call.id, 32), EncodeArgs(call.args, registry[call.id], |before| + 32);
      Associate(before, id, args);
      ok := ostream.Align();
      Associate(before, id + args, Zeros(PadBits(|before| + |id + args|)));
    }
  }

  // ---- the receiving side ----

  method DeserializeArgs(istream: IBitStream, types: seq<Type>) returns (r: Result<seq<Value>>)
    requires istream.Valid() && SupportedAll(types)
    modifies istream, istream.buffer
    ensures istream.Valid()
    ensures Took(DecodeArgs(types, old(istream.Unread()), old(istream.bitReadCount)), r,
                 old(istream.Unread()), old(istream.bitReadCount), istream)
  {
    hide Decode, Pending, Supported, Phase, DecodeArgs, ArgsSoFar;
    ghost var bits, used := istream.Unread(), istream.bitReadCount;
    ghost var n: nat := 0;
    var args := [];
    ArgsStart(types, bits, used);
    for i := 0 to |types|
      invariant istream.Valid()
      invariant ArgsSoFar(types, bits, used, args, n, i, istream.Unread(), istream.bitReadCount)
    {
      ArgsStep(types, bits, used, args, n, i, istream.Unread(), istream.bitReadCount);
      ghost var step := Decode(types[i], istream.Unread(), istream.bitReadCount);
      var arg := Deserialize(istream, types[i]);
      if arg.Thrown? { return Thrown; }
      args := args + [arg.value];
      n := n + step.value.1;
    }
    ArgsDone(types, bits, used, args, n, istream.Unread(), istream.bitReadCount);
    r := Ok(args);
  }

  /** The first `i` arguments are `done` and took `n` bits; the others are still in `now`. */
  ghost predicate ArgsSoFar(
    types: seq<Type>, bits: seq<bool>, used: nat, done: seq<Value>, n: nat, i: nat, now: seq<bool>, phase: nat)
    requires SupportedAll(types) && i <= |types|
  {
    && n <= |bits| && now == bits[n..] && phase == Phase(used + n)
    && DecodeArgs(types, bits, used) == Prepend(done, n, DecodeArgs(types[i..], now, phase))
  }

  lemma ArgsStart(types: seq<Type>, bits: seq<bool>, used: nat)
    requires SupportedAll(types) && used < 8
    ensures ArgsSoFar(types, bits, used, [], 0, 0, bits, used)
  {
    hide DecodeArgs;
    assert types[0..] == types;
    PrependNothing(DecodeArgs(types, bits, used));
  }

  lemma ArgsStep(
    types: seq<Type>, bits: seq<bool>, used: nat, done: seq<Value>, n: nat, i: nat, now: seq<bool>, phase: nat)
    requires SupportedAll(types) && i < |types| && ArgsSoFar(types, bits, used, done, n, i, now, phase)
    ensures match Decode(types[i], now, phase)
      case None => DecodeArgs(types, bits, used).None?
      case Some((x, k)) => ArgsSoFar(types, bits, used, done + [x], n + k, i + 1, now[k..], Phase(phase + k))
  {
    hide Decode, DecodeArgs, Supported, Phase;
    UnfoldArgs(types[i..], now, phase);
    assert types[i..][1..] == types[i + 1..];
    match Decode(types[i], now, phase)
    case None =>
    case Some((x, k)) =>
      MovedOn(bits, used, n, k);
      PrependOne(done, n, x, k, DecodeArgs(types[i + 1..], now[k..], Phase(phase + k)));
  }

  lemma UnfoldArgs(types: seq<Type>, bits: seq<bool>, used: nat)
    requires SupportedAll(types) && types != []
    ensures match Decode(types[0], bits, used)
      case None => DecodeArgs(types, bits, used).None?
      case Some((x, n)) =>
        DecodeArgs(types, bits, used) == Prepend([x], n, DecodeArgs(types[1..], bits[n..], Phase(used + n)))
  {
    hide Decode, Supported, Phase;
  }

  lemma ArgsDone(
    types: seq<Type>, bits: seq<bool>, used: nat, done: seq<Value>, n: nat, now: seq<bool>, phase: nat)
    requires SupportedAll(types) && ArgsSoFar(types, bits, used, done, n, |types|, now, phase)
    ensures DecodeArgs(types, bits, used) == Some((done, n))
    ensures n <= |bits| && now == bits[n..] && phase == Phase(used + n)
  {
    assert done + [] == done && types[|types|..] == [];
  }

  /** Reads the arguments registered for a call, and the padding. */
  method HandleArgs(istream: IBitStream, types: seq<Type>) returns (r: Result<seq<Value>>)
    requires istream.Valid() && SupportedAll(types)
    modifies istream, istream.buffer
    ensures istream.Valid()
    ensures match DecodeArgs(types, old(istream.Unread()), old(istream.bitReadCount))
      case None => r.Thrown?
      case Some((args, n)) =>
        var end := n + PadBits(Phase(old(istream.bitReadCount) + n));
        && r == Ok(args) && istream.bitReadCount == 0
        && end <= |old(istream.Unread())| && istream.Unread() == old(istream.Unread())[end..]
  {
    hide Pending, Phase, DecodeArgs, PadBits, SupportedAll;
    ghost var bits, used := istream.Unread(), istream.bitReadCount;
    r := DeserializeArgs(istream, types);
    if r.Thrown? { return; }
    ghost var n := DecodeArgs(types, bits, used).value.1;
    PadAvailable(istream.bitReadCount, |istream.buffer.items|);
    istream.Align();
    assert bits[n..][PadBits(Phase(used + n))..] == bits[n + PadBits(Phase(used + n))..];
  }

  /** Reads one call: its identifier, the arguments registered for it, and the padding. */
  method HandleCall(istream: IBitStream, registry: Registry) returns (r: Result<Call>)
    requires istream.Valid() && ValidRegistry(registry)
    modifies istream, istream.buffer
    ensures istream.Valid()
    ensures Took(DecodeCall(registry, old(istream.Unread()), old(istream.bitReadCount)), r,
                 old(istream.Unread()), old(istream.bitReadCount), istream)
  {
    hide Phase, DecodeArgs, PadBits, FromBits, SupportedAll, DecodeCall, IBitStream.Unread;
    ghost var bits, used := istream.Unread(), istream.bitReadCount;
    UnfoldCall(registry, bits, used);
    var id := istream.ReadBits(32, 32);
    if id.Thrown? || id.value !in registry { return Thrown; }
    var args := HandleArgs(istream, registry[id.value]);
    if args.Thrown? { return Thrown; }
    ghost var n := 32 + DecodeArgs(registry[id.value], bits[32..], Phase(used + 32)).value.1;
    PhaseAdd(used + 32, n - 32);
    CallEnd(bits, used, n);
    r := Ok(Call(id.value, args.value));
  }

  /** The position after the padding, counted from the identifier or from the arguments. */
  lemma CallEnd(bits: seq<bool>, used: nat, n: nat)
    requires 32 <= n && n + PadBits(Phase(used + n)) <= |bits|
    ensures var pad := PadBits(Phase(used + n));
      && Phase(Phase(used + 32) + (n - 32)) == Phase(used + n) && Phase(used + (n + pad)) == 0
      && bits[32..][n - 32 + pad..] == bits[n + pad..]
  {
    PhaseAdd(used + 32, n - 32);
    Padded(used + n);
  }

  lemma UnfoldCall(registry: Registry, bits: seq<bool>, used: nat)
    requires ValidRegistry(registry)
    ensures
      if |bits| < 32 || FromBits(bits[..32]) !in registry then DecodeCall(registry, bits, used).None?
      else
        var id := FromBits(bits[..32]);
        match DecodeArgs(registry[id], bits[32..], Phase(used + 32))
        case None => DecodeCall(registry, bits, used).None?
        case Some((args, n)) =>
          var end := 32 + n + PadBits(Phase(used + (32 + n)));
          end <= |bits| ==> DecodeCall(registry, bits, used) == Some((Call(id, args), end))
  {
    hide DecodeArgs, FromBits, PadBits, SupportedAll;
  }

  lemma PadAvailable(used: nat, size: nat)
    requires used < 8 && (used > 0 ==> size > 0)
    ensures PadBits(used) <= 8 * size - used
  {
  }

  lemma Padded(position: nat)
    ensures PadBits(Phase(position)) == PadBits(position) && Phase(position + PadBits(position)) == 0
  {
  }


  // ---- both sides ----

  predicate AllRegistered(calls: seq<Call>, registry: Registry) {
    forall i :: 0 <= i < |calls| ==> Registered(calls[i], registry)
  }

  method SendCalls(ostream: OBitStream, calls: seq<Call>, registry: Registry)
    requires ostream.Valid() && !ostream.Stale() && ValidRegistry(registry) && AllRegistered(calls, registry)
    requires SmoothCalls(calls, registry, |ostream.Bits()|)
    modifies ostream, ostream.buffer
    ensures ostream.Valid() && !ostream.Stale()
    ensures calls != [] ==> ostream.holdingBitCount == 0
    ensures ostream.Bits() == old(ostream.Bits()) + EncodeCalls(calls, registry, |old(ostream.Bits())|)
  {
    hide Held, Clean, EncodeCalls, EncodeCall, SmoothCalls, Registered, ToBytes;
    ghost var target := ostream.Bits() + EncodeCalls(calls, registry, |ostream.Bits()|);
    var i := 0;
    assert calls[0..] == calls;
    while i < |calls|
      invariant i <= |calls| && ostream.Valid() && !ostream.Stale() && (i > 0 ==> ostream.holdingBitCount == 0)
      invariant SmoothCalls(calls[i..], registry, |ostream.Bits()|)
      invariant ostream.Bits() + EncodeCalls(calls[i..], registry, |ostream.Bits()|) == target
    {
      ghost var sofar := ostream.Bits();
      FirstCall(calls, i, registry, |sofar|);
      var ok := MarshalCall(ostream, calls[i], registry);
      Associate(sofar, EncodeCall(calls[i], registry, |sofar|),
                EncodeCalls(calls[i + 1..], registry, |ostream.Bits()|));
      i := i + 1;
    }
    assert calls[i..] == [];
    NoCallBits(registry, |ostream.Bits()|);
  }

  lemma NoCallBits(registry: Registry, pos: nat)
    requires ValidRegistry(registry)
    ensures EncodeCalls([], registry, pos) == [] && CanonCalls([], registry) == []
  {
  }

  lemma FirstCall(calls: seq<Call>, i: nat, registry: Registry, pos: nat)
    requires ValidRegistry(registry) && AllRegistered(calls, registry) && i < |calls|
    requires SmoothCalls(calls[i..], registry, pos)
    ensures Registered(calls[i], registry)
    ensures SmoothCall(calls[i], registry, pos) && AllEncodable(calls[i].args)
    ensures var first := EncodeCall(calls[i], registry, pos);
      && SmoothCalls(calls[i + 1..], registry, pos + |first|)
      && EncodeCalls(calls[i..], registry, pos) == first + EncodeCalls(calls[i + 1..], registry, pos + |first|)
    ensures CanonCalls(calls[i..], registry) == [CanonCall(calls[i], registry)] + CanonCalls(calls[i + 1..], registry)
  {
    hide EncodeCall, CanonCall;
    assert calls[i..][1..] == calls[i + 1..];
    assert Registered(calls[i], registry);
    SmoothArgsEncodable(calls[i].args, registry[calls[i].id], pos + 32);
  }

  lemma {:induction false} SmoothArgsEncodable(args: seq<Value>, types: seq<Type>, pos: nat)
    requires SupportedAll(types) && HaveTypes(args, types) && SmoothArgs(args, types, pos)
    ensures AllEncodable(args)
    decreases |args|
  {
    hide Encode, Supported, HasType, Encodable, Smooth;
    if args != [] {
      SmoothArgsEncodable(args[1..], types[1..], pos + |Encode(args[0], types[0], pos)|);
      assert forall i :: 0 < i < |args| ==> args[i] == args[1..][i - 1];
    }
  }

  method ReceiveCalls(istream: IBitStream, ghost calls: seq<Call>, count: nat, registry: Registry, ghost pos: nat)
    returns (got: seq<Call>)
    requires istream.Valid() && ValidRegistry(registry) && AllRegistered(calls, registry) && count == |calls|
    requires SmoothCalls(calls, registry, pos) && istream.bitReadCount == Phase(pos)
    requires istream.Unread() == EncodeCalls(calls, registry, pos)
    modifies istream, istream.buffer
    ensures istream.Valid() && istream.Unread() == [] && got == CanonCalls(calls, registry)
  {
    hide EncodeCalls, EncodeCall, CanonCalls, CanonCall, SmoothCall, SmoothCalls, DecodeCall;
    hide Phase, Pending, Registered;
    ghost var at: nat := pos;
    got := [];
    assert calls[0..] == calls;
    for j := 0 to count
      invariant istream.Valid() && istream.bitReadCount == Phase(at)
      invariant SmoothCalls(calls[j..], registry, at) && istream.Unread() == EncodeCalls(calls[j..], registry, at)
      invariant got + CanonCalls(calls[j..], registry) == CanonCalls(calls, registry)
    {
      FirstCall(calls, j, registry, at);
      ghost var first := EncodeCall(calls[j], registry, at);
      CallRoundTrip(calls[j], registry, at, EncodeCalls(calls[j + 1..], registry, at + |first|));
      PhaseAdd(at, |first|);
      var call := HandleCall(istream, registry);
      got := got + [call.value];
      at := at + |first|;
    }
    NoCallBits(registry, at);
    assert calls[count..] == [];
  }

  /** Whatever calls are marshalled into one stream, the receiver gets them all, in order, every argument in
      its canonical form, and no bits are left over. */
  method ExchangeCalls(calls: seq<Call>, registry: Registry) returns (got: seq<Call>)
    requires ValidRegistry(registry) && AllRegistered(calls, registry) && SmoothCalls(calls, registry, 0)
    ensures got == CanonCalls(calls, registry)
  {
    hide EncodeCalls, CanonCalls, SmoothCalls, Clean;
    assert Unpack([]) == [];
    var buffer := new StreamBuffer([]);
    var ostream := new OBitStream(buffer);
    SendCalls(ostream, calls, registry);
    if calls == [] { NoCallBits(registry, 0); }
    WholeBytes(buffer.items);
    var received := new StreamBuffer(buffer.items);
    var istream := new IBitStream(received);
    got := ReceiveCalls(istream, calls, |calls|, registry, 0);
  }

  /** Values written from any bit offset read back in order, each in its canonical form: numbers modulo two to
      their width, signed numbers unchanged when they fit. */
  method ExchangeValues(lead: nat, args: seq<Value>, types: seq<Type>) returns (got: seq<Value>)
    requires 0 < lead <= 32 && SupportedAll(types) && HaveTypes(args, types) && SmoothArgs(args, types, lead)
    ensures got == CanonArgs(args, types)
  {
    hide EncodeArgs, CanonArgs, SmoothArgs, DecodeArgs, HasType, Supported, Encodable;
    hide Pending, ToBits, Unpack, Held, Clean, PadBits, Zeros, ToBytes, FromBits, Pow2, Phase;
    assert Unpack([]) == [] by { UnpackNothing(); }
    var buffer := new StreamBuffer([]);
    var ostream := new OBitStream(buffer);
    var written := ostream.WriteBits(0, lead, 32);
    SmoothArgsEncodable(args, types, lead);
    ghost var first := ostream.Bits();
    written := SerializeArgs(ostream, args, types);
    ghost var body := EncodeArgs(args, types, lead);
    ghost var pad := PadBits(ostream.holdingBitCount);
    HeldAndPadding(buffer.items, ostream.holdingBitCount);
    Associate(first, body, Zeros(pad));

    var received := new StreamBuffer(buffer.items);
    var istream := new IBitStream(received);
    var skipped := istream.ReadBits(lead, 32);
    assert (first + (body + Zeros(pad)))[lead..] == body + Zeros(pad);
    ArgsRoundTrip(args, types, lead, Zeros(pad));
    var r := DeserializeArgs(istream, types);
    got := r.value;
  }

  lemma UnpackNothing()
    ensures Unpack([]) == []
  {
  }

  lemma HeldAndPadding(items: seq<byte>, held: nat)
    requires items != [] && held < 8 && Clean(items, held)
    ensures Unpack(items) == Held(items, held) + Zeros(PadBits(held))
  {
  }
}
