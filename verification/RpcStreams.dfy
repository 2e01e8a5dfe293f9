/** The serializers and deserializers: loops over the bit streams. */
module RpcStreams {
  import opened Bits
  import opened Buffers
  import opened BitStreams
  import opened Wrappers
  import opened RpcValues
  import opened RpcLaws
  import Utf8

  // ---- writing ----

  method WriteString(ostream: OBitStream, payload: seq<byte>, sizeBits: nat) returns (ok: bool)
    requires ostream.Valid() && 0 < sizeBits <= 16 && |payload| <= 0xFFFF
    modifies ostream, ostream.buffer
    ensures ostream.Valid() && ok == !old(ostream.Stale())
    ensures ok ==> !ostream.Stale()
    ensures ok ==> ostream.Bits() == old(ostream.Bits()) + StringBits(payload, sizeBits, |old(ostream.Bits())|)
  {
    hide ToBits, Unpack, PadBits, Zeros, Held, Clean;
    ghost var before := ostream.Bits();
    assert |payload| < Pow2(32) by { Pow2Known(); }
    ok := ostream.WriteBits(|payload|, sizeBits, 32);
    if ok {
      ok := ostream.WriteRaw(payload);
      var size, pad, raw := ToBits(|payload|, sizeBits), Zeros(PadBits(|before| + sizeBits)), Unpack(payload);
      assert before + size + pad + raw == before + (size + pad + raw);
    }
  }

  /** Writes a value. Refused exactly when a container is too big or the stream cannot be written to. */
  method Serialize(ostream: OBitStream, v: Value, t: Type) returns (ok: bool)
    requires ostream.Valid() && Supported(t) && HasType(v, t)
    modifies ostream, ostream.buffer
    ensures ostream.Valid()
    ensures ok <==> Encodable(v) && !old(ostream.Stale())
    ensures ok ==> !ostream.Stale() && ostream.Bits() == old(ostream.Bits()) + Encode(v, t, |old(ostream.Bits())|)
    decreases v, 1
  {
    hide ToBits, StringBits, TextPayload, WidePayload, Pow2, Held, Clean, Word, Utf8.Encode;
    match t {
      case UInt(bits, _, word) => ok := ostream.WriteBits(Word(v.x, t), bits, word);
      case SInt(bits, _, word) => ok := ostream.WriteBits(Word(v.x, t), bits, word);
      case Str(maxLength, sizeBits) => ok := WriteString(ostream, TextPayload(v.bytes, maxLength), sizeBits);
      case WStr(maxLength, sizeBits) =>
        var utf8 := Utf8.ToUtf8(v.chars[..Min(|v.chars|, maxLength)]);
        WidePayloadIs(v.chars, maxLength);
        ok := WriteString(ostream, TextPayload(utf8, maxLength), sizeBits);
      case Vec(elem) => ok := SerializeItems(ostream, v.items, elem);
      case Dict(key, value) => ok := SerializeEntries(ostream, v.entries, key, value);
    }
  }

  lemma WidePayloadIs(chars: seq<Wchar>, maxLength: nat)
    ensures WidePayload(chars, maxLength) == TextPayload(Utf8.Encode(chars[..Min(|chars|, maxLength)]), maxLength)
  {
  }

  method WriteCount(ostream: OBitStream, count: nat) returns (ok: bool)
    requires ostream.Valid() && count <= MAX_SIZE
    modifies ostream, ostream.buffer
    ensures ostream.Valid() && ok == !old(ostream.Stale())
    ensures ok ==> !ostream.Stale() && ostream.Bits() == old(ostream.Bits()) + ToBits(count, SIZE_BITS)
  {
    hide ToBits;
    Pow2Known();
    ok := ostream.WriteBits(count, SIZE_BITS, 32);
  }

  method SerializeItems(ostream: OBitStream, items: seq<Value>, elem: Type) returns (ok: bool)
    requires ostream.Valid() && Supported(elem) && forall i :: 0 <= i < |items| ==> HasType(items[i], elem)
    modifies ostream, ostream.buffer
    ensures ostream.Valid()
    ensures ok <==> Encodable(List(items)) && !old(ostream.Stale())
    ensures ok ==> !ostream.Stale()
    ensures ok ==> ostream.Bits() == old(ostream.Bits()) + Encode(List(items), Vec(elem), |old(ostream.Bits())|)
    decreases items, 1
  {
    hide ToBits, Held, Clean, EncodeItems, HasType;
    if |items| > MAX_SIZE { return false; }
    ghost var before := ostream.Bits();
    ok := WriteCount(ostream, |items|);
    if !ok { return; }
    ok := SerializeEach(ostream, items, elem);
    Associate(before, ToBits(|items|, SIZE_BITS), EncodeItems(items, elem, |before| + SIZE_BITS));
  }

  method SerializeEach(ostream: OBitStream, items: seq<Value>, elem: Type) returns (ok: bool)
    requires ostream.Valid() && !ostream.Stale()
    requires Supported(elem) && forall i :: 0 <= i < |items| ==> HasType(items[i], elem)
    modifies ostream, ostream.buffer
    ensures ostream.Valid()
    ensures ok <==> forall i :: 0 <= i < |items| ==> Encodable(items[i])
    ensures ok ==> !ostream.Stale()
    ensures ok ==> ostream.Bits() == old(ostream.Bits()) + EncodeItems(items, elem, |old(ostream.Bits())|)
    decreases items, 0
  {
    hide Held, Clean, Encode, Supported, HasType, Encodable, EncodeItems;
    ghost var target := ostream.Bits() + EncodeItems(items, elem, |ostream.Bits()|);
    ok := true;
    var i := 0;
    assert items[0..] == items;
    while i < |items|
      invariant i <= |items| && ostream.Valid() && !ostream.Stale() && ok
      invariant forall k :: 0 <= k < i ==> Encodable(items[k])
      invariant ostream.Bits() + EncodeItems(items[i..], elem, |ostream.Bits()|) == target
    {
      ghost var sofar := ostream.Bits();
      ok := Serialize(ostream, items[i], elem);
      if !ok { return; }
      EncodeItemsFrom(items, i, elem, sofar);
      i := i + 1;
    }
    assert items[i..] == [];
    NoItemBits(elem, |ostream.Bits()|);
  }

  lemma EncodeItemsFrom(items: seq<Value>, i: nat, elem: Type, sofar: seq<bool>)
    requires i < |items| && Supported(elem) && forall i :: 0 <= i < |items| ==> HasType(items[i], elem)
    ensures var first := Encode(items[i], elem, |sofar|);
      sofar + EncodeItems(items[i..], elem, |sofar|)
        == sofar + first + EncodeItems(items[i + 1..], elem, |sofar + first|)
  {
    hide Encode, HasType, Supported;
    assert items[i..][1..] == items[i + 1..];
    var first := Encode(items[i], elem, |sofar|);
    Associate(sofar, first, EncodeItems(items[i + 1..], elem, |sofar + first|));
  }

  method SerializeEntries(ostream: OBitStream, entries: seq<Entry>, key: Type, value: Type) returns (ok: bool)
    requires ostream.Valid() && Supported(key) && Supported(value)
    requires forall i :: 0 <= i < |entries| ==> HasType(entries[i].key, key) && HasType(entries[i].value, value)
    modifies ostream, ostream.buffer
    ensures ostream.Valid()
    ensures ok <==> Encodable(Assoc(entries)) && !old(ostream.Stale())
    ensures ok ==> !ostream.Stale()
    ensures ok ==>
      ostream.Bits() == old(ostream.Bits()) + Encode(Assoc(entries), Dict(key, value), |old(ostream.Bits())|)
    decreases entries, 1
  {
    hide ToBits, Held, Clean, EncodeEntries, HasType;
    if |entries| > MAX_SIZE { return false; }
    ghost var before := ostream.Bits();
    ok := WriteCount(ostream, |entries|);
    if !ok { return; }
    ok := SerializeEachEntry(ostream, entries, key, value);
    Associate(before, ToBits(|entries|, SIZE_BITS), EncodeEntries(entries, key, value, |before| + SIZE_BITS));
  }

  method SerializeEachEntry(ostream: OBitStream, entries: seq<Entry>, key: Type, value: Type) returns (ok: bool)
    requires ostream.Valid() && !ostream.Stale() && Supported(key) && Supported(value)
    requires forall i :: 0 <= i < |entries| ==> HasType(entries[i].key, key) && HasType(entries[i].value, value)
    modifies ostream, ostream.buffer
    ensures ostream.Valid()
    ensures ok <==> forall i :: 0 <= i < |entries| ==> Encodable(entries[i].key) && Encodable(entries[i].value)
    ensures ok ==> !ostream.Stale()
    ensures ok ==> ostream.Bits() == old(ostream.Bits()) + EncodeEntries(entries, key, value, |old(ostream.Bits())|)
    decreases entries, 0
  {
    hide Held, Clean, Encode, Supported, HasType, Encodable, EncodeEntry, EncodeEntries;
    ghost var target := ostream.Bits() + EncodeEntries(entries, key, value, |ostream.Bits()|);
    ok := true;
    var i := 0;
    assert entries[0..] == entries;
    while i < |entries|
      invariant i <= |entries| && ostream.Valid() && !ostream.Stale() && ok
      invariant forall k :: 0 <= k < i ==> Encodable(entries[k].key) && Encodable(entries[k].value)
      invariant ostream.Bits() + EncodeEntries(entries[i..], key, value, |ostream.Bits()|) == target
    {
      ghost var sofar := ostream.Bits();
      ok := SerializeEntry(ostream, entries[i], key, value);
      if !ok { return; }
      EncodeEntriesFrom(entries, i, key, value, sofar);
      i := i + 1;
    }
    assert entries[i..] == [];
    NoEntryBits(key, value, |ostream.Bits()|);
  }

  lemma EncodeEntriesFrom(entries: seq<Entry>, i: nat, key: Type, value: Type, sofar: seq<bool>)
    requires i < |entries| && Supported(key) && Supported(value)
    requires forall i :: 0 <= i < |entries| ==> HasType(entries[i].key, key) && HasType(entries[i].value, value)
    ensures var first := EncodeEntry(entries[i], key, value, |sofar|);
      sofar + EncodeEntries(entries[i..], key, value, |sofar|)
        == sofar + first + EncodeEntries(entries[i + 1..], key, value, |sofar + first|)
  {
    hide EncodeEntry, HasType, Supported;
    assert entries[i..][1..] == entries[i + 1..];
    var first := EncodeEntry(entries[i], key, value, |sofar|);
    Associate(sofar, first, EncodeEntries(entries[i + 1..], key, value, |sofar + first|));
  }

  method SerializeEntry(ostream: OBitStream, e: Entry, key: Type, value: Type) returns (ok: bool)
    requires ostream.Valid() && Supported(key) && Supported(value) && HasType(e.key, key) && HasType(e.value, value)
    modifies ostream, ostream.buffer
    ensures ostream.Valid()
    ensures ok <==> Encodable(e.key) && Encodable(e.value) && !old(ostream.Stale())
    ensures ok ==> !ostream.Stale()
    ensures ok ==> ostream.Bits() == old(ostream.Bits()) + EncodeEntry(e, key, value, |old(ostream.Bits())|)
    decreases e, 0
  {
    hide Held, Clean, Encode, Supported, HasType, Encodable;
    ghost var before := ostream.Bits();
    ok := Serialize(ostream, e.key, key);
    if ok {
      ok := Serialize(ostream, e.value, value);
      if ok {
        var k := Encode(e.key, key, |before|);
        Associate(before, k, Encode(e.value, value, |before| + |k|));
      }
    }
  }

  // ---- reading ----

  /** The stream did what a decoding function says: it threw where that fails; otherwise it gave the value
      and moved on by exactly the bits taken. */
  ghost predicate Took<T(!new)>(
    decoded: Option<(T, nat)>, r: Result<T>, bits: seq<bool>, used: nat, istream: IBitStream)
    requires istream.Valid()
    reads istream, istream.buffer
  {
    match decoded
    case None => r.Thrown?
    case Some((x, n)) =>
      n <= |bits| && r == Ok(x) && istream.Unread() == bits[n..] && istream.bitReadCount == Phase(used + n)
  }

  method ReadString(istream: IBitStream, sizeBits: nat) returns (r: Result<seq<byte>>)
    requires istream.Valid() && 0 < sizeBits <= 16
    modifies istream, istream.buffer
    ensures istream.Valid()
    ensures Took(DecodeString(sizeBits, old(istream.Unread()), old(istream.bitReadCount)), r,
                 old(istream.Unread()), old(istream.bitReadCount), istream)
  {
    hide ToBits, FromBits, Unpack, Pack, Pending, PadBits, Phase;
    ghost var bits, used := istream.Unread(), istream.bitReadCount;
    var strLen := istream.ReadBits(sizeBits, 32);
    if strLen.Thrown? { return Thrown; }
    if strLen.value == 0 { return Ok([]); }
    assert strLen.value < 0x1_0000 by {
      ToFromBits(bits[..sizeBits]);
      Pow2Monotone(sizeBits, 16);
      Pow2Known();
    }
    PhaseAdd(used, sizeBits);
    PhaseOfSmall(used);
    ghost var pad := PadBits(used + sizeBits);
    r := istream.ReadRaw(strLen.value);
    if r.Ok? {
      ghost var start, n := sizeBits + pad, 8 * strLen.value;
      assert bits[sizeBits..][pad..] == bits[start..];
      assert bits[start..start + n] == Unpack(r.value);
      assert istream.Unread() == bits[start + n..];
      PackUnpack(r.value);
      AlignedAfter(used + sizeBits, n);
    }
  }

  lemma PhaseOfSmall(used: nat)
    requires used < 8
    ensures Phase(used) == used
  {
  }

  lemma AlignedAfter(position: nat, n: nat)
    requires n % 8 == 0
    ensures Phase(position + PadBits(position) + n) == 0
  {
    var end := position + PadBits(position);
    assert end == 8 * (end / 8) && n == 8 * (n / 8);
    assert end + n == 8 * (end / 8 + n / 8);
  }

  method ReadNumber(istream: IBitStream, t: Type) returns (r: Result<Value>)
    requires istream.Valid() && Supported(t) && (t.UInt? || t.SInt?)
    modifies istream, istream.buffer
    ensures istream.Valid()
    ensures Took(DecodeNumber(t, old(istream.Unread())), r, old(istream.Unread()), old(istream.bitReadCount), istream)
  {
    hide FromBits, Low, Pending, SignedBits, Phase;
    if t.UInt? {
      var numeric := istream.ReadBits(t.bits, t.word);
      r := if numeric.Thrown? then Thrown else Ok(Num(Low(numeric.value, t.typeWidth)));
    } else {
      var numeric := istream.ReadSigned(t.bits, t.typeWidth, t.word);
      r := if numeric.Thrown? then Thrown else Ok(Num(numeric.value));
    }
  }

  method ReadCount(istream: IBitStream) returns (r: Result<nat>)
    requires istream.Valid()
    modifies istream, istream.buffer
    ensures istream.Valid()
    ensures r.Ok? <==> SIZE_BITS <= |old(istream.Unread())|
    ensures r.Ok? ==> r.value == FromBits(old(istream.Unread())[..SIZE_BITS])
    ensures r.Ok? ==> istream.Unread() == old(istream.Unread())[SIZE_BITS..]
    ensures r.Ok? ==> istream.bitReadCount == Phase(old(istream.bitReadCount) + SIZE_BITS)
  {
    r := istream.ReadBits(SIZE_BITS, 32);
  }

  /** Taking `n` bits and then `m` is taking `n + m`. */
  lemma MovedOn(bits: seq<bool>, used: nat, n: nat, m: nat)
    requires n + m <= |bits|
    ensures bits[n..][m..] == bits[n + m..] && Phase(Phase(used + n) + m) == Phase(used + (n + m))
  {
    PhaseAdd(used + n, m);
  }

  /** Reads a value of the given type from any bits, well formed or not. */
  method Deserialize(istream: IBitStream, t: Type) returns (r: Result<Value>)
    requires istream.Valid() && Supported(t)
    modifies istream, istream.buffer
    ensures istream.Valid()
    ensures Took(Decode(t, old(istream.Unread()), old(istream.bitReadCount)), r,
                 old(istream.Unread()), old(istream.bitReadCount), istream)
    decreases t, 4
  {
    hide FromBits, Pending, Phase, DecodeString, DecodeNumber, DecodeItems, DecodeEntries, InsertAll, TextPayload,
         Utf8.Decode;
    match t {
      case UInt(_, _, _) => r := ReadNumber(istream, t);
      case SInt(_, _, _) => r := ReadNumber(istream, t);
      case Str(maxLength, sizeBits) =>
        var octets := ReadString(istream, sizeBits);
        r := if octets.Thrown? then Thrown else Ok(Text(TextPayload(octets.value, maxLength)));
      case WStr(maxLength, sizeBits) =>
        var octets := ReadString(istream, sizeBits);
        if octets.Thrown? { return Thrown; }
        var chars := Utf8.FromUtf8(octets.value);
        r := Ok(Wide(chars[..Min(|chars|, maxLength)]));
      case Vec(elem) => r := DeserializeItems(istream, elem);
      case Dict(_, _) => r := DeserializeEntries(istream, t);
    }
  }

  method DeserializeItems(istream: IBitStream, elem: Type) returns (r: Result<Value>)
    requires istream.Valid() && Supported(elem)
    modifies istream, istream.buffer
    ensures istream.Valid()
    ensures Took(Decode(Vec(elem), old(istream.Unread()), old(istream.bitReadCount)), r,
                 old(istream.Unread()), old(istream.bitReadCount), istream)
    decreases Vec(elem), 0
  {
    hide FromBits, Pending, Phase, DecodeItems;
    ghost var bits, used := istream.Unread(), istream.bitReadCount;
    var count := ReadCount(istream);
    if count.Thrown? { return Thrown; }
    ghost var decoded := DecodeItems(elem, count.value, istream.Unread(), istream.bitReadCount);
    var items := DeserializeEach(istream, elem, count.value);
    if items.Thrown? { return Thrown; }
    MovedOn(bits, used, SIZE_BITS, decoded.value.1);
    r := Ok(List(items.value));
  }

  method DeserializeEntries(istream: IBitStream, t: Type) returns (r: Result<Value>)
    requires istream.Valid() && t.Dict? && Supported(t)
    modifies istream, istream.buffer
    ensures istream.Valid()
    ensures Took(Decode(t, old(istream.Unread()), old(istream.bitReadCount)), r,
                 old(istream.Unread()), old(istream.bitReadCount), istream)
    decreases t, 2
  {
    hide FromBits, Pending, Phase, DecodeEntries, InsertAll;
    ghost var bits, used := istream.Unread(), istream.bitReadCount;
    var count := ReadCount(istream);
    if count.Thrown? { return Thrown; }
    ghost var decoded := DecodeEntries(t.key, t.value, count.value, istream.Unread(), istream.bitReadCount);
    var entries, read := DeserializeEachEntry(istream, t, count.value);
    if entries.Thrown? { return Thrown; }
    MovedOn(bits, used, SIZE_BITS, decoded.value.1);
    r := Ok(Assoc(entries.value));
  }

  /** A decoding that starts with items already read. */
  ghost function Prepend<T>(done: seq<T>, n: nat, decoded: Option<(seq<T>, nat)>): (r: Option<(seq<T>, nat)>) {
    match decoded
    case None => None
    case Some((more, m)) => Some((done + more, n + m))
  }

  lemma PrependNothing<T>(decoded: Option<(seq<T>, nat)>)
    ensures Prepend([], 0, decoded) == decoded
  {
    if decoded.Some? { assert [] + decoded.value.0 == decoded.value.0; }
  }

  lemma PrependOne<T>(done: seq<T>, n: nat, x: T, k: nat, decoded: Option<(seq<T>, nat)>)
    ensures Prepend(done, n, Prepend([x], k, decoded)) == Prepend(done + [x], n + k, decoded)
  {
    if decoded.Some? { assert done + ([x] + decoded.value.0) == done + [x] + decoded.value.0; }
  }

  lemma UnfoldItems(elem: Type, count: nat, bits: seq<bool>, used: nat)
    requires Supported(elem) && 0 < count
    ensures match Decode(elem, bits, used)
      case None => DecodeItems(elem, count, bits, used).None?
      case Some((x, n)) =>
        DecodeItems(elem, count, bits, used)
          == Prepend([x], n, DecodeItems(elem, count - 1, bits[n..], Phase(used + n)))
  {
    hide Decode, Supported, Phase;
  }

  lemma NoKey(key: Type, value: Type, bits: seq<bool>, used: nat)
    requires Supported(key) && Supported(value) && Decode(key, bits, used).None?
    ensures DecodeEntry(key, value, bits, used).None?
  {
    hide Decode, Supported, Phase;
  }

  lemma NoValue(key: Type, value: Type, bits: seq<bool>, used: nat, k: Value, n: nat)
    requires Supported(key) && Supported(value) && Decode(key, bits, used) == Some((k, n))
    requires Decode(value, bits[n..], Phase(used + n)).None?
    ensures DecodeEntry(key, value, bits, used).None?
  {
    hide Decode, Supported, Phase;
  }

  lemma UnfoldEntries(key: Type, value: Type, count: nat, bits: seq<bool>, used: nat)
    requires Supported(key) && Supported(value) && 0 < count
    ensures match DecodeEntry(key, value, bits, used)
      case None => DecodeEntries(key, value, count, bits, used).None?
      case Some((x, n)) =>
        DecodeEntries(key, value, count, bits, used)
          == Prepend([x], n, DecodeEntries(key, value, count - 1, bits[n..], Phase(used + n)))
  {
    hide DecodeEntry, Supported, Phase;
  }

  /** `count` items are being read from `bits`; `done` were, taking `n` bits, and `left` are still in `now`. */
  ghost predicate ItemsSoFar(
    elem: Type, count: nat, bits: seq<bool>, used: nat,
    done: seq<Value>, n: nat, left: nat, now: seq<bool>, phase: nat)
    requires Supported(elem)
  {
    && n <= |bits| && now == bits[n..] && phase == Phase(used + n)
    && DecodeItems(elem, count, bits, used) == Prepend(done, n, DecodeItems(elem, left, now, phase))
  }

  lemma ItemsStart(elem: Type, count: nat, bits: seq<bool>, used: nat)
    requires Supported(elem) && used < 8
    ensures ItemsSoFar(elem, count, bits, used, [], 0, count, bits, used)
  {
    hide DecodeItems;
    PrependNothing(DecodeItems(elem, count, bits, used));
  }

  lemma ItemsStep(
    elem: Type, count: nat, bits: seq<bool>, used: nat,
    done: seq<Value>, n: nat, left: nat, now: seq<bool>, phase: nat)
    requires Supported(elem) && 0 < left
    requires ItemsSoFar(elem, count, bits, used, done, n, left, now, phase)
    ensures match Decode(elem, now, phase)
      case None => DecodeItems(elem, count, bits, used).None?
      case Some((x, k)) =>
        ItemsSoFar(elem, count, bits, used, done + [x], n + k, left - 1, now[k..], Phase(phase + k))
  {
    hide Decode, DecodeItems, Supported, Phase;
    UnfoldItems(elem, left, now, phase);
    match Decode(elem, now, phase)
    case None =>
    case Some((x, k)) =>
      MovedOn(bits, used, n, k);
      PrependOne(done, n, x, k, DecodeItems(elem, left - 1, now[k..], Phase(phase + k)));
  }

  lemma ItemsDone(
    elem: Type, count: nat, bits: seq<bool>, used: nat, done: seq<Value>, n: nat, now: seq<bool>, phase: nat)
    requires Supported(elem) && ItemsSoFar(elem, count, bits, used, done, n, 0, now, phase)
    ensures DecodeItems(elem, count, bits, used) == Some((done, n))
    ensures n <= |bits| && now == bits[n..] && phase == Phase(used + n)
  {
    assert done + [] == done;
  }

  method DeserializeEach(istream: IBitStream, elem: Type, count: nat) returns (r: Result<seq<Value>>)
    requires istream.Valid() && Supported(elem)
    modifies istream, istream.buffer
    ensures istream.Valid()
    ensures Took(DecodeItems(elem, count, old(istream.Unread()), old(istream.bitReadCount)), r,
                 old(istream.Unread()), old(istream.bitReadCount), istream)
    decreases elem, 6
  {
    hide Decode, Pending, Supported, Phase, DecodeItems, ItemsSoFar, IBitStream.Unread;
    ghost var bits, used := istream.Unread(), istream.bitReadCount;
    ghost var n: nat := 0;
    var items := Ok([]);
    ItemsStart(elem, count, bits, used);
    for i := 0 to count
      invariant istream.Valid() && items.Ok?
      invariant ItemsSoFar(elem, count, bits, used, items.value, n, count - i, istream.Unread(), istream.bitReadCount)
    {
      items, n := DeserializeNext(istream, elem, count, bits, used, items.value, n, count - i);
      if items.Thrown? { return Thrown; }
    }
    ItemsDone(elem, count, bits, used, items.value, n, istream.Unread(), istream.bitReadCount);
    r := items;
  }

  /** One item more. */
  method DeserializeNext(
    istream: IBitStream, elem: Type, ghost count: nat, ghost bits: seq<bool>, ghost used: nat,
    done: seq<Value>, ghost n: nat, ghost left: nat)
    returns (r: Result<seq<Value>>, ghost m: nat)
    requires istream.Valid() && Supported(elem) && 0 < left
    requires ItemsSoFar(elem, count, bits, used, done, n, left, istream.Unread(), istream.bitReadCount)
    modifies istream, istream.buffer
    ensures istream.Valid()
    ensures r.Thrown? ==> DecodeItems(elem, count, bits, used).None?
    ensures r.Ok? ==>
      ItemsSoFar(elem, count, bits, used, r.value, m, left - 1, istream.Unread(), istream.bitReadCount)
    decreases elem, 5
  {
    hide Decode, Pending, Supported, Phase, DecodeItems, ItemsSoFar, IBitStream.Unread;
    ghost var step := Decode(elem, istream.Unread(), istream.bitReadCount);
    ItemsStep(elem, count, bits, used, done, n, left, istream.Unread(), istream.bitReadCount);
    var item := Deserialize(istream, elem);
    if item.Thrown? { return Thrown, 0; }
    return Ok(done + [item.value]), n + step.value.1;
  }

  method DeserializeEntry(istream: IBitStream, t: Type) returns (r: Result<Entry>)
    requires istream.Valid() && t.Dict? && Supported(t.key) && Supported(t.value)
    modifies istream, istream.buffer
    ensures istream.Valid()
    ensures Took(DecodeEntry(t.key, t.value, old(istream.Unread()), old(istream.bitReadCount)), r,
                 old(istream.Unread()), old(istream.bitReadCount), istream)
    decreases t, 0
  {
    hide Decode, Pending, Supported, Phase, DecodeEntry, IBitStream.Unread;
    ghost var bits, used := istream.Unread(), istream.bitReadCount;
    var k := Deserialize(istream, t.key);
    if k.Thrown? {
      NoKey(t.key, t.value, bits, used);
      return Thrown;
    }
    r := DeserializeValue(istream, t, k.value, bits, used, Decode(t.key, bits, used).value.1);
  }

  /** The value after a key that took `n` bits. */
  method DeserializeValue(
    istream: IBitStream, t: Type, k: Value, ghost bits: seq<bool>, ghost used: nat, ghost n: nat)
    returns (r: Result<Entry>)
    requires istream.Valid() && t.Dict? && Supported(t.key) && Supported(t.value)
    requires Decode(t.key, bits, used) == Some((k, n))
    requires istream.Unread() == bits[n..] && istream.bitReadCount == Phase(used + n)
    modifies istream, istream.buffer
    ensures istream.Valid()
    ensures Took(DecodeEntry(t.key, t.value, bits, used), r, bits, used, istream)
    decreases t.value, 10
  {
    hide Decode, Pending, Supported, Phase, DecodeEntry, IBitStream.Unread;
    var x := Deserialize(istream, t.value);
    if x.Thrown? {
      NoValue(t.key, t.value, bits, used, k, n);
      return Thrown;
    }
    ghost var m := Decode(t.value, bits[n..], Phase(used + n)).value.1;
    KeyThenValue(t.key, t.value, bits, used, k, n, x.value, m);
    MovedOn(bits, used, n, m);
    r := Ok(Entry(k, x.value));
  }

  lemma {:induction false} InsertLast(entries: seq<Entry>, more: seq<Entry>, e: Entry)
    ensures InsertAll(entries, more + [e]) == Insert(InsertAll(entries, more), e)
    decreases |more|
  {
    if more == [] {
      assert (more + [e])[1..] == [];
    } else {
      assert (more + [e])[1..] == more[1..] + [e];
      InsertLast(Insert(entries, more[0]), more[1..], e);
    }
  }

  /** `count` entries are being read from `bits`; `done` were, taking `n` bits, and `left` are still in `now`. */
  ghost predicate EntriesSoFar(
    key: Type, value: Type, count: nat, bits: seq<bool>, used: nat,
    done: seq<Entry>, n: nat, left: nat, now: seq<bool>, phase: nat)
    requires Supported(key) && Supported(value)
  {
    && n <= |bits| && now == bits[n..] && phase == Phase(used + n)
    && DecodeEntries(key, value, count, bits, used) == Prepend(done, n, DecodeEntries(key, value, left, now, phase))
  }

  lemma EntriesStart(key: Type, value: Type, count: nat, bits: seq<bool>, used: nat)
    requires Supported(key) && Supported(value) && used < 8
    ensures EntriesSoFar(key, value, count, bits, used, [], 0, count, bits, used)
  {
    hide DecodeEntries;
    PrependNothing(DecodeEntries(key, value, count, bits, used));
  }

  lemma EntriesStep(
    key: Type, value: Type, count: nat, bits: seq<bool>, used: nat,
    done: seq<Entry>, n: nat, left: nat, now: seq<bool>, phase: nat)
    requires Supported(key) && Supported(value) && 0 < left
    requires EntriesSoFar(key, value, count, bits, used, done, n, left, now, phase)
    ensures match DecodeEntry(key, value, now, phase)
      case None => DecodeEntries(key, value, count, bits, used).None?
      case Some((x, k)) =>
        EntriesSoFar(key, value, count, bits, used, done + [x], n + k, left - 1, now[k..], Phase(phase + k))
  {
    hide DecodeEntry, DecodeEntries, Supported, Phase;
    UnfoldEntries(key, value, left, now, phase);
    match DecodeEntry(key, value, now, phase)
    case None =>
    case Some((x, k)) =>
      MovedOn(bits, used, n, k);
      PrependOne(done, n, x, k, DecodeEntries(key, value, left - 1, now[k..], Phase(phase + k)));
  }

  lemma EntriesDone(
    key: Type, value: Type, count: nat, bits: seq<bool>, used: nat,
    done: seq<Entry>, n: nat, now: seq<bool>, phase: nat)
    requires Supported(key) && Supported(value) && EntriesSoFar(key, value, count, bits, used, done, n, 0, now, phase)
    ensures DecodeEntries(key, value, count, bits, used) == Some((done, n))
    ensures n <= |bits| && now == bits[n..] && phase == Phase(used + n)
  {
    assert done + [] == done;
  }

  /** Reads `count` entries, inserting each into the map; `read` is what was on the wire. */
  method DeserializeEachEntry(istream: IBitStream, t: Type, count: nat)
    returns (r: Result<seq<Entry>>, ghost read: seq<Entry>)
    requires istream.Valid() && t.Dict? && Supported(t.key) && Supported(t.value)
    modifies istream, istream.buffer
    ensures istream.Valid()
    ensures Took(DecodeEntries(t.key, t.value, count, old(istream.Unread()), old(istream.bitReadCount)),
                 if r.Ok? then Ok(read) else Thrown, old(istream.Unread()), old(istream.bitReadCount), istream)
    ensures r.Ok? ==> r.value == InsertAll([], read)
    decreases t, 1
  {
    hide DecodeEntry, Pending, Supported, Phase, DecodeEntries, EntriesSoFar, InsertAll, Insert;
    ghost var bits, used := istream.Unread(), istream.bitReadCount;
    ghost var n: nat := 0;
    var entries := [];
    read := [];
    InsertNone();
    EntriesStart(t.key, t.value, count, bits, used);
    for i := 0 to count
      invariant istream.Valid() && entries == InsertAll([], read)
      invariant EntriesSoFar(
        t.key, t.value, count, bits, used, read, n, count - i, istream.Unread(), istream.bitReadCount)
    {
      EntriesStep(t.key, t.value, count, bits, used, read, n, count - i, istream.Unread(), istream.bitReadCount);
      ghost var step := DecodeEntry(t.key, t.value, istream.Unread(), istream.bitReadCount);
      var entry := DeserializeEntry(istream, t);
      if entry.Thrown? { return Thrown, read; }
      InsertLast([], read, entry.value);
      entries := Insert(entries, entry.value);
      read := read + [entry.value];
      n := n + step.value.1;
    }
    EntriesDone(t.key, t.value, count, bits, used, read, n, istream.Unread(), istream.bitReadCount);
    r := Ok(entries);
  }

  lemma InsertNone()
    ensures InsertAll([], []) == []
  {
  }
}
