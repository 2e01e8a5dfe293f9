/** Serializing and then reading back: which value comes out, and when every bit is accounted for. */
module RpcLaws {
  import opened Bits
  import opened BitStreams
  import opened Wrappers
  import opened RpcValues
  import Utf8

  /** What a value is after a trip: numbers cut to their wire width, strings to their maximum length, wide
      strings to their longest prefix of at most that many octets, dictionaries to first occurrences. */
  function Canon(v: Value, t: Type): (r: Value)
    requires Supported(t) && HasType(v, t)
    decreases v, 1
  {
    match t
    case UInt(bits, _, _) => Num(v.x % Pow2(bits))
    case SInt(bits, _, _) => Num(if Fits(v.x, bits) then v.x else Signed(Low(Word(v.x, t), bits), bits))
    case Str(maxLength, _) => Text(TextPayload(v.bytes, maxLength))
    case WStr(maxLength, _) => Wide(v.chars[..Utf8.FitCount(v.chars, maxLength)])
    case Vec(elem) => List(CanonItems(v.items, elem))
    case Dict(key, value) => Assoc(InsertAll([], CanonEntries(v.entries, key, value)))
  }

  function CanonItems(items: seq<Value>, elem: Type): (r: seq<Value>)
    requires Supported(elem) && forall i :: 0 <= i < |items| ==> HasType(items[i], elem)
    decreases items, 0
  {
    if items == [] then [] else [Canon(items[0], elem)] + CanonItems(items[1..], elem)
  }

  function CanonEntries(entries: seq<Entry>, key: Type, value: Type): (r: seq<Entry>)
    requires Supported(key) && Supported(value)
    requires forall i :: 0 <= i < |entries| ==> HasType(entries[i].key, key) && HasType(entries[i].value, value)
    decreases entries, 0
  {
    if entries == [] then []
    else [CanonEntry(entries[0], key, value)] + CanonEntries(entries[1..], key, value)
  }

  function CanonEntry(e: Entry, key: Type, value: Type): (r: Entry)
    requires Supported(key) && Supported(value) && HasType(e.key, key) && HasType(e.value, value)
    decreases e, 0
  {
    Entry(Canon(e.key, key), Canon(e.value, value))
  }

  /** The bits the reader takes for a value: all that were written, but not the padding after an empty string
      at the very end. */
  function Taken(v: Value, t: Type, pos: nat): (n: nat)
    requires Supported(t) && HasType(v, t)
    decreases v, 1
  {
    match t
    case UInt(bits, _, _) => bits
    case SInt(bits, _, _) => bits
    case Str(maxLength, sizeBits) => TakenString(TextPayload(v.bytes, maxLength), sizeBits, pos)
    case WStr(maxLength, sizeBits) => TakenString(WidePayload(v.chars, maxLength), sizeBits, pos)
    case Vec(elem) => SIZE_BITS + TakenItems(v.items, elem, pos + SIZE_BITS)
    case Dict(key, value) => SIZE_BITS + TakenEntries(v.entries, key, value, pos + SIZE_BITS)
  }

  function TakenString(payload: seq<byte>, sizeBits: nat, pos: nat): (n: nat) {
    if payload == [] then sizeBits else |StringBits(payload, sizeBits, pos)|
  }

  function TakenItems(items: seq<Value>, elem: Type, pos: nat): (n: nat)
    requires Supported(elem) && forall i :: 0 <= i < |items| ==> HasType(items[i], elem)
    decreases items, 0
  {
    if items == [] then 0
    else if |items| == 1 then Taken(items[0], elem, pos)
    else
      var first := |Encode(items[0], elem, pos)|;
      first + TakenItems(items[1..], elem, pos + first)
  }

  function TakenEntry(e: Entry, key: Type, value: Type, pos: nat): (n: nat)
    requires Supported(key) && Supported(value) && HasType(e.key, key) && HasType(e.value, value)
    decreases e, 0
  {
    var k := |Encode(e.key, key, pos)|;
    k + Taken(e.value, value, pos + k)
  }

  function TakenEntries(entries: seq<Entry>, key: Type, value: Type, pos: nat): (n: nat)
    requires Supported(key) && Supported(value)
    requires forall i :: 0 <= i < |entries| ==> HasType(entries[i].key, key) && HasType(entries[i].value, value)
    decreases entries, 0
  {
    if entries == [] then 0
    else if |entries| == 1 then TakenEntry(entries[0], key, value, pos)
    else
      var first := |EncodeEntry(entries[0], key, value, pos)|;
      first + TakenEntries(entries[1..], key, value, pos + first)
  }

  /** The reader takes every bit of the value. */
  predicate Whole(v: Value, t: Type, pos: nat)
    requires Supported(t) && HasType(v, t)
  {
    Taken(v, t, pos) == |Encode(v, t, pos)|
  }

  /** No empty string field whose length ends in mid-byte, except at the very end. */
  predicate Smooth(v: Value, t: Type, pos: nat)
    requires Supported(t) && HasType(v, t)
    decreases v, 1
  {
    match t
    case Vec(elem) => SmoothItems(v.items, elem, pos + SIZE_BITS)
    case Dict(key, value) => SmoothEntries(v.entries, key, value, pos + SIZE_BITS)
    case _ => true
  }

  predicate SmoothString(payload: seq<byte>, sizeBits: nat, pos: nat) {
    payload != [] || (pos + sizeBits) % 8 == 0
  }

  predicate SmoothItems(items: seq<Value>, elem: Type, pos: nat)
    requires Supported(elem) && forall i :: 0 <= i < |items| ==> HasType(items[i], elem)
    decreases items, 0
  {
    items == [] ||
    (&& Smooth(items[0], elem, pos) && (|items| > 1 ==> Whole(items[0], elem, pos))
     && SmoothItems(items[1..], elem, pos + |Encode(items[0], elem, pos)|))
  }

  predicate SmoothEntry(e: Entry, key: Type, value: Type, pos: nat)
    requires Supported(key) && Supported(value) && HasType(e.key, key) && HasType(e.value, value)
    decreases e, 0
  {
    && Smooth(e.key, key, pos) && Whole(e.key, key, pos)
    && Smooth(e.value, value, pos + |Encode(e.key, key, pos)|)
  }

  predicate SmoothEntries(entries: seq<Entry>, key: Type, value: Type, pos: nat)
    requires Supported(key) && Supported(value)
    requires forall i :: 0 <= i < |entries| ==> HasType(entries[i].key, key) && HasType(entries[i].value, value)
    decreases entries, 0
  {
    entries == [] ||
    (var first := |EncodeEntry(entries[0], key, value, pos)|;
     && SmoothEntry(entries[0], key, value, pos)
     && (|entries| > 1 ==> TakenEntry(entries[0], key, value, pos) == first)
     && SmoothEntries(entries[1..], key, value, pos + first))
  }

  /** What is left unread pads to the byte boundary. */
  predicate EndsPadded(taken: nat, written: nat, pos: nat)
  {
    taken == written || written == taken + PadBits(pos + taken)
  }

  lemma EndsPaddedAfter(first: nat, taken: nat, written: nat, pos: nat)
    requires EndsPadded(taken, written, pos + first)
    ensures EndsPadded(first + taken, first + written, pos)
  {
  }

  lemma NothingPadded(pos: nat)
    ensures EndsPadded(0, 0, pos)
  {
  }

  lemma {:induction false} TakenEndsPadded(v: Value, t: Type, pos: nat)
    requires Supported(t) && HasType(v, t)
    ensures EndsPadded(Taken(v, t, pos), |Encode(v, t, pos)|, pos)
    decreases v, 1
  {
    hide ToBits, PadBits, Unpack, TextPayload, WidePayload, EncodeItems, EncodeEntries, TakenItems, TakenEntries;
    match t
    case Vec(elem) => TakenItemsEndPadded(v.items, elem, pos + SIZE_BITS);
    case Dict(key, value) => TakenEntriesEndPadded(v.entries, key, value, pos + SIZE_BITS);
    case _ =>
  }

  lemma {:induction false} TakenItemsEndPadded(items: seq<Value>, elem: Type, pos: nat)
    requires Supported(elem) && forall i :: 0 <= i < |items| ==> HasType(items[i], elem)
    ensures EndsPadded(TakenItems(items, elem, pos), |EncodeItems(items, elem, pos)|, pos)
    decreases items, 0
  {
    hide PadBits, Encode, Taken, HasType, Supported;
    if |items| == 1 {
      TakenEndsPadded(items[0], elem, pos);
    } else if items != [] {
      TakenItemsEndPadded(items[1..], elem, pos + |Encode(items[0], elem, pos)|);
    }
  }

  lemma {:induction false} TakenEntryEndsPadded(e: Entry, key: Type, value: Type, pos: nat)
    requires Supported(key) && Supported(value) && HasType(e.key, key) && HasType(e.value, value)
    ensures EndsPadded(TakenEntry(e, key, value, pos), |EncodeEntry(e, key, value, pos)|, pos)
    decreases e, 0
  {
    hide PadBits, Encode, Taken, HasType, Supported;
    TakenEndsPadded(e.value, value, pos + |Encode(e.key, key, pos)|);
  }

  lemma {:induction false} TakenEntriesEndPadded(entries: seq<Entry>, key: Type, value: Type, pos: nat)
    requires Supported(key) && Supported(value)
    requires forall i :: 0 <= i < |entries| ==> HasType(entries[i].key, key) && HasType(entries[i].value, value)
    ensures EndsPadded(TakenEntries(entries, key, value, pos), |EncodeEntries(entries, key, value, pos)|, pos)
    decreases entries, 0
  {
    hide PadBits, EncodeEntry, TakenEntry, HasType, Supported, EncodeEntries, TakenEntries;
    hide EndsPadded;
    assert EndsPadded(0, 0, pos) by { NothingPadded(pos); }
    if entries == [] {
      NoEntryBits(key, value, pos);
    } else if |entries| == 1 {
      OnlyEntry(entries, key, value, pos);
      TakenEntryEndsPadded(entries[0], key, value, pos);
    } else {
      var first := |EncodeEntry(entries[0], key, value, pos)|;
      FirstEntryBits(entries, key, value, pos);
      FirstEntryTaken(entries, key, value, pos, first);
      TakenEntriesEndPadded(entries[1..], key, value, pos + first);
      EndsPaddedAfter(first, TakenEntries(entries[1..], key, value, pos + first),
                      |EncodeEntries(entries[1..], key, value, pos + first)|, pos);
    }
  }

  // ---- octets ----

  lemma {:induction false} PackUnpack(bytes: seq<byte>)
    ensures Pack(Unpack(bytes)) == bytes
  {
    hide Unpack;
    if bytes != [] {
      UnpackSplit(bytes, 1);
      UnpackOne(bytes[0]);
      assert bytes[..1] == [bytes[0]];
      FromToBits(bytes[0], CHAR_BIT);
      Pow2Known();
      LowSmall(bytes[0], CHAR_BIT);
      PackUnpack(bytes[1..]);
    }
  }

  // ---- strings ----

  /** A string field reads back, consuming exactly its own bits, if and only if it is not an empty string
      ending in mid-byte: the writer pads after an empty string and the reader does not skip that padding. */
  lemma StringRoundTrip(payload: seq<byte>, sizeBits: nat, pos: nat, rest: seq<bool>)
    requires |payload| < Pow2(sizeBits)
    ensures DecodeString(sizeBits, StringBits(payload, sizeBits, pos) + rest, Phase(pos))
         == Some((payload, |StringBits(payload, sizeBits, pos)|))
        <==> SmoothString(payload, sizeBits, pos)
    ensures DecodeString(sizeBits, StringBits(payload, sizeBits, pos) + rest, Phase(pos))
         == Some((payload, TakenString(payload, sizeBits, pos)))
  {
    hide ToBits, Unpack, Pack, FromBits, Pow2;
    var field := StringBits(payload, sizeBits, pos);
    var bits := field + rest;
    var start := sizeBits + PadBits(pos + sizeBits);
    PhaseAdd(pos, sizeBits);
    assert bits[..sizeBits] == ToBits(|payload|, sizeBits);
    FromToBits(|payload|, sizeBits);
    LowSmall(|payload|, sizeBits);
    assert bits[start..start + 8 * |payload|] == Unpack(payload);
    PackUnpack(payload);
    assert |field| == start + 8 * |payload|;
  }

  /** An empty string written one bit off a byte boundary: the reader stops seven bits short. */
  lemma EmptyStringInMidByte()
    ensures |StringBits([], 16, 1)| == 23
    ensures DecodeString(16, StringBits([], 16, 1), 1) == Some(([], 16))
  {
    hide ToBits, FromBits;
    assert Unpack([]) == [];
    assert StringBits([], 16, 1)[..16] == ToBits(0, 16);
    FromToBits(0, 16);
    assert Low(0, 16) == 0;
  }

  /** The octets of a wide string decode to its longest prefix of at most `maxLength` octets. */
  lemma WideRoundTrip(chars: seq<Wchar>, maxLength: nat)
    ensures var got := Utf8.Decode(WidePayload(chars, maxLength));
      got[..Min(|got|, maxLength)] == chars[..Utf8.FitCount(chars, maxLength)]
  {
    hide Utf8.Encode, Utf8.Decode, Utf8.FitCount;
    var cut := chars[..Min(|chars|, maxLength)];
    var n := Min(|Utf8.Encode(cut)|, maxLength);
    Utf8.DecodePrefix(cut, n);
    FitOfCut(chars, maxLength);
    FitWithinOctets(cut, n);
    if n < maxLength {
      assert cut[..|cut|] == cut;
      Utf8.FitCountIsLongest(cut, n, |cut|);
      Utf8.FitCountIsLongest(cut, maxLength, |cut|);
    }
    var got := Utf8.Decode(WidePayload(chars, maxLength));
    assert got == cut[..Utf8.FitCount(cut, maxLength)] == chars[..Utf8.FitCount(chars, maxLength)];
  }

  /** Characters beyond the first `n` cannot fit in `n` octets. */
  lemma FitOfCut(chars: seq<Wchar>, n: nat)
    ensures Utf8.FitCount(chars, n) == Utf8.FitCount(chars[..Min(|chars|, n)], n)
  {
    hide Utf8.Encode, Utf8.FitCount;
    var cut := chars[..Min(|chars|, n)];
    var k, k' := Utf8.FitCount(chars, n), Utf8.FitCount(cut, n);
    FitWithinOctets(chars, n);
    assert chars[..k] == cut[..k] && chars[..k'] == cut[..k'];
    Utf8.FitCountIsLongest(chars, n, k);
    Utf8.FitCountIsLongest(cut, n, k);
    Utf8.FitCountIsLongest(chars, n, k');
    Utf8.FitCountIsLongest(cut, n, k');
  }

  lemma {:induction false} FitWithinOctets(chars: seq<Wchar>, n: nat)
    ensures Utf8.FitCount(chars, n) <= n
  {
    if chars != [] && |Utf8.EncodeChar(chars[0])| <= n {
      FitWithinOctets(chars[1..], n - |Utf8.EncodeChar(chars[0])|);
    }
  }

  // ---- numbers ----

  lemma NumberRoundTrip(x: int, t: Type, pos: nat, rest: seq<bool>)
    requires Supported(t) && (t.UInt? || t.SInt?) && HasType(Num(x), t)
    ensures DecodeNumber(t, Encode(Num(x), t, pos) + rest) == Some((Canon(Num(x), t), t.bits))
  {
    hide ToBits, FromBits, Low, Pow2;
    var w := Word(x, t);
    var field := Encode(Num(x), t, pos);
    assert (field + rest)[..t.bits] == ToBits(w, t.bits);
    FromToBits(w, t.bits);
    if t.UInt? {
      UnsignedTrip(x, t.bits, t.typeWidth);
    } else {
      FitsWider(x, t.typeWidth, t.word);
      SignedTrip(x, t.bits, t.typeWidth, t.word);
    }
  }

  lemma UnsignedTrip(x: nat, bits: nat, typeWidth: nat)
    requires x < Pow2(typeWidth)
    ensures Low(Low(x, bits), typeWidth) == x % Pow2(bits)
  {
    hide Pow2;
    LowIsMod(x, bits);
    LowSmall(Low(x, bits), typeWidth);
  }

  lemma SignedTrip(x: int, bits: nat, typeWidth: nat, word: nat)
    requires 0 < bits <= word && 0 < typeWidth <= word && Fits(x, typeWidth) && Fits(x, word)
    ensures SignedBits(ToBits(Unsigned(x, word), bits), typeWidth)
         == if Fits(x, bits) then x else Signed(Low(Unsigned(x, word), bits), bits)
  {
    hide ToBits, FromBits, Low;
    var w := Unsigned(x, word);
    FromToBits(w, bits);
    SignedFits(x, bits, word);
    if typeWidth <= bits {
      FitsWider(x, typeWidth, bits);
      SignedFits(x, typeWidth, word);
      LowTwice(w, bits, typeWidth);
    }
  }

  lemma {:induction false} LowTwice(v: nat, m: nat, n: nat)
    requires n <= m
    ensures Low(Low(v, m), n) == Low(v, n)
  {
    if n > 0 {
      LowTwice(v / 2, m - 1, n - 1);
      assert Low(v, m) / 2 == Low(v / 2, m - 1);
    }
  }

  // ---- values ----

  /** Every value comes back as its canonical form, wherever it starts and whatever follows it; the reader takes
      exactly its bits, but for the padding of an empty string at the very end. */
  lemma {:induction false} RoundTrip(v: Value, t: Type, pos: nat, rest: seq<bool>)
    requires Supported(t) && HasType(v, t) && Encodable(v) && Smooth(v, t, pos)
    ensures Decode(t, Encode(v, t, pos) + rest, Phase(pos)) == Some((Canon(v, t), Taken(v, t, pos)))
    decreases v, 2
  {
    hide Encode, Decode, Canon, Smooth, Taken, Encodable, Supported;
    match t
    case UInt(_, _, _) => NumberValue(v, t, pos, rest);
    case SInt(_, _, _) => NumberValue(v, t, pos, rest);
    case Str(_, _) => TextValue(v, t, pos, rest);
    case WStr(_, _) => WideValue(v, t, pos, rest);
    case Vec(_) => ListValue(v, t, pos, rest);
    case Dict(_, _) => AssocValue(v, t, pos, rest);
  }

  lemma NumberValue(v: Value, t: Type, pos: nat, rest: seq<bool>)
    requires Supported(t) && (t.UInt? || t.SInt?) && HasType(v, t)
    ensures Decode(t, Encode(v, t, pos) + rest, Phase(pos)) == Some((Canon(v, t), Taken(v, t, pos)))
  {
    hide DecodeNumber, ToBits, Pow2;
    NumberRoundTrip(v.x, t, pos, rest);
  }

  lemma TextValue(v: Value, t: Type, pos: nat, rest: seq<bool>)
    requires Supported(t) && t.Str? && HasType(v, t)
    ensures Decode(t, Encode(v, t, pos) + rest, Phase(pos)) == Some((Canon(v, t), Taken(v, t, pos)))
  {
    hide StringBits, DecodeString, TakenString, TextPayload, Pow2;
    StringRoundTrip(TextPayload(v.bytes, t.maxLength), t.sizeBits, pos, rest);
    CutOnce(v.bytes, t.maxLength);
  }

  lemma WideValue(v: Value, t: Type, pos: nat, rest: seq<bool>)
    requires Supported(t) && t.WStr? && HasType(v, t)
    ensures Decode(t, Encode(v, t, pos) + rest, Phase(pos)) == Some((Canon(v, t), Taken(v, t, pos)))
  {
    hide StringBits, DecodeString, TakenString, WidePayload, Pow2, Utf8.Decode, Utf8.FitCount;
    StringRoundTrip(WidePayload(v.chars, t.maxLength), t.sizeBits, pos, rest);
    WideRoundTrip(v.chars, t.maxLength);
  }

  lemma ListValue(v: Value, t: Type, pos: nat, rest: seq<bool>)
    requires Supported(t) && t.Vec? && HasType(v, t) && Encodable(v) && Smooth(v, t, pos)
    ensures Decode(t, Encode(v, t, pos) + rest, Phase(pos)) == Some((Canon(v, t), Taken(v, t, pos)))
    decreases v, 1
  {
    hide ToBits, FromBits, Phase, EncodeItems, DecodeItems, CanonItems, SmoothItems, TakenItems;
    PhaseAdd(pos, SIZE_BITS);
    var body := EncodeItems(v.items, t.elem, pos + SIZE_BITS);
    CountField(|v.items|, body, rest);
    ItemsRoundTrip(v.items, t.elem, pos + SIZE_BITS, rest);
  }

  lemma AssocValue(v: Value, t: Type, pos: nat, rest: seq<bool>)
    requires Supported(t) && t.Dict? && HasType(v, t) && Encodable(v) && Smooth(v, t, pos)
    ensures Decode(t, Encode(v, t, pos) + rest, Phase(pos)) == Some((Canon(v, t), Taken(v, t, pos)))
    decreases v, 1
  {
    hide ToBits, FromBits, Phase, EncodeEntries, DecodeEntries, CanonEntries, SmoothEntries, TakenEntries, InsertAll;
    PhaseAdd(pos, SIZE_BITS);
    var body := EncodeEntries(v.entries, t.key, t.value, pos + SIZE_BITS);
    CountField(|v.entries|, body, rest);
    EntriesRoundTrip(v.entries, t.key, t.value, pos + SIZE_BITS, rest);
  }

  lemma CutOnce(bytes: seq<byte>, n: nat)
    ensures TextPayload(TextPayload(bytes, n), n) == TextPayload(bytes, n)
  {
  }

  lemma CountField(count: nat, body: seq<bool>, rest: seq<bool>)
    requires count <= MAX_SIZE
    ensures var bits := ToBits(count, SIZE_BITS) + body + rest;
      FromBits(bits[..SIZE_BITS]) == count && bits[SIZE_BITS..] == body + rest
  {
    hide ToBits, FromBits;
    var bits := ToBits(count, SIZE_BITS) + body + rest;
    assert bits[..SIZE_BITS] == ToBits(count, SIZE_BITS);
    FromToBits(count, SIZE_BITS);
    Pow2Known();
    LowSmall(count, SIZE_BITS);
  }

  lemma NoItems(elem: Type, bits: seq<bool>, used: nat)
    requires Supported(elem)
    ensures DecodeItems(elem, 0, bits, used) == Some(([], 0))
  {
  }

  lemma NextItem(elem: Type, count: nat, bits: seq<bool>, used: nat, item: Value, n: nat, items: seq<Value>, m: nat)
    requires Supported(elem) && 0 < count && Decode(elem, bits, used) == Some((item, n))
    requires DecodeItems(elem, count - 1, bits[n..], Phase(used + n)) == Some((items, m))
    ensures DecodeItems(elem, count, bits, used) == Some(([item] + items, n + m))
  {
    hide Decode, Supported;
  }

  lemma LastItem(elem: Type, bits: seq<bool>, used: nat, item: Value, n: nat)
    requires Supported(elem) && Decode(elem, bits, used) == Some((item, n))
    ensures DecodeItems(elem, 1, bits, used) == Some(([item], n))
  {
    hide Decode, Supported;
    NoItems(elem, bits[n..], Phase(used + n));
    NextItem(elem, 1, bits, used, item, n, [], 0);
    assert [item] + [] == [item];
  }

  lemma NoItemBits(elem: Type, pos: nat)
    requires Supported(elem)
    ensures EncodeItems([], elem, pos) == [] && CanonItems([], elem) == [] && TakenItems([], elem, pos) == 0
  {
  }

  /** A single item, and the first of several. */
  lemma FirstItem(items: seq<Value>, elem: Type, pos: nat)
    requires Supported(elem) && (forall i :: 0 <= i < |items| ==> HasType(items[i], elem)) && items != []
    ensures SmoothItems(items, elem, pos) ==> Smooth(items[0], elem, pos)
    ensures |items| == 1 ==>
      && EncodeItems(items, elem, pos) == Encode(items[0], elem, pos)
      && CanonItems(items, elem) == [Canon(items[0], elem)]
      && TakenItems(items, elem, pos) == Taken(items[0], elem, pos)
    ensures |items| > 1 ==>
      var first, next := Encode(items[0], elem, pos), pos + |Encode(items[0], elem, pos)|;
      && EncodeItems(items, elem, pos) == first + EncodeItems(items[1..], elem, next)
      && CanonItems(items, elem) == [Canon(items[0], elem)] + CanonItems(items[1..], elem)
      && TakenItems(items, elem, pos) == |first| + TakenItems(items[1..], elem, next)
      && (SmoothItems(items, elem, pos) ==> Whole(items[0], elem, pos) && SmoothItems(items[1..], elem, next))
  {
    hide Encode, Canon, Taken, Smooth, HasType, Supported;
    if |items| == 1 {
      assert Encode(items[0], elem, pos) + [] == Encode(items[0], elem, pos);
      assert [Canon(items[0], elem)] + [] == [Canon(items[0], elem)];
    }
  }

  lemma {:induction false} ItemsRoundTrip(items: seq<Value>, elem: Type, pos: nat, rest: seq<bool>)
    requires Supported(elem)
    requires forall i :: 0 <= i < |items| ==> HasType(items[i], elem) && Encodable(items[i])
    requires SmoothItems(items, elem, pos)
    ensures DecodeItems(elem, |items|, EncodeItems(items, elem, pos) + rest, Phase(pos))
         == Some((CanonItems(items, elem), TakenItems(items, elem, pos)))
    decreases items, 0
  {
    hide Encode, Decode, Canon, Smooth, Taken, HasType, Encodable, Supported, Phase;
    hide EncodeItems, DecodeItems, CanonItems, TakenItems, SmoothItems;
    if items == [] {
      NoItemBits(elem, pos);
      assert [] + rest == rest;
      NoItems(elem, rest, Phase(pos));
    } else {
      FirstItem(items, elem, pos);
      var first := Encode(items[0], elem, pos);
      if |items| == 1 {
        RoundTrip(items[0], elem, pos, rest);
        LastItem(elem, first + rest, Phase(pos), Canon(items[0], elem), Taken(items[0], elem, pos));
      } else {
        var others := EncodeItems(items[1..], elem, pos + |first|);
        RoundTrip(items[0], elem, pos, others + rest);
        Associate(first, others, rest);
        assert (first + (others + rest))[|first|..] == others + rest;
        PhaseAdd(pos, |first|);
        ItemsRoundTrip(items[1..], elem, pos + |first|, rest);
        NextItem(elem, |items|, first + (others + rest), Phase(pos), Canon(items[0], elem), |first|,
                 CanonItems(items[1..], elem), TakenItems(items[1..], elem, pos + |first|));
      }
    }
  }

  lemma EntryParts(e: Entry, key: Type, value: Type, pos: nat)
    requires Supported(key) && Supported(value) && HasType(e.key, key) && HasType(e.value, value)
    ensures var k := Encode(e.key, key, pos);
      && EncodeEntry(e, key, value, pos) == k + Encode(e.value, value, pos + |k|)
      && TakenEntry(e, key, value, pos) == |k| + Taken(e.value, value, pos + |k|)
      && CanonEntry(e, key, value) == Entry(Canon(e.key, key), Canon(e.value, value))
  {
    hide Encode, Canon, Taken, HasType, Supported;
  }

  lemma SmoothEntryParts(e: Entry, key: Type, value: Type, pos: nat)
    requires Supported(key) && Supported(value) && HasType(e.key, key) && HasType(e.value, value)
    requires SmoothEntry(e, key, value, pos)
    ensures Smooth(e.key, key, pos) && Taken(e.key, key, pos) == |Encode(e.key, key, pos)|
    ensures Smooth(e.value, value, pos + |Encode(e.key, key, pos)|)
  {
    hide Encode, Smooth, Taken, HasType, Supported;
  }

  lemma {:induction false} EntryRoundTrip(e: Entry, key: Type, value: Type, pos: nat, rest: seq<bool>)
    requires Supported(key) && Supported(value)
    requires HasType(e.key, key) && HasType(e.value, value) && Encodable(e.key) && Encodable(e.value)
    requires SmoothEntry(e, key, value, pos)
    ensures DecodeEntry(key, value, EncodeEntry(e, key, value, pos) + rest, Phase(pos))
         == Some((CanonEntry(e, key, value), TakenEntry(e, key, value, pos)))
    decreases e, 0
  {
    hide Encode, Decode, Canon, Smooth, Taken, HasType, Encodable, Supported, Phase;
    hide EncodeEntry, DecodeEntry, CanonEntry, TakenEntry, SmoothEntry;
    EntryParts(e, key, value, pos);
    SmoothEntryParts(e, key, value, pos);
    var k := Encode(e.key, key, pos);
    var x := Encode(e.value, value, pos + |k|);
    RoundTrip(e.key, key, pos, x + rest);
    Associate(k, x, rest);
    assert (k + (x + rest))[|k|..] == x + rest;
    PhaseAdd(pos, |k|);
    RoundTrip(e.value, value, pos + |k|, rest);
    KeyThenValue(key, value, k + (x + rest), Phase(pos), Canon(e.key, key), |k|, Canon(e.value, value),
                 Taken(e.value, value, pos + |k|));
  }

  lemma KeyThenValue(key: Type, value: Type, bits: seq<bool>, used: nat, k: Value, n: nat, x: Value, m: nat)
    requires Supported(key) && Supported(value)
    requires Decode(key, bits, used) == Some((k, n))
    requires Decode(value, bits[n..], Phase(used + n)) == Some((x, m))
    ensures DecodeEntry(key, value, bits, used) == Some((Entry(k, x), n + m))
  {
    hide Decode, Supported, Phase;
  }

  lemma NextEntry(
    key: Type, value: Type, count: nat, bits: seq<bool>, used: nat, e: Entry, n: nat, es: seq<Entry>, m: nat)
    requires Supported(key) && Supported(value) && 0 < count
    requires DecodeEntry(key, value, bits, used) == Some((e, n))
    requires DecodeEntries(key, value, count - 1, bits[n..], Phase(used + n)) == Some((es, m))
    ensures DecodeEntries(key, value, count, bits, used) == Some(([e] + es, n + m))
  {
    hide DecodeEntry, Supported;
  }

  lemma NoEntries(key: Type, value: Type, bits: seq<bool>, used: nat)
    requires Supported(key) && Supported(value)
    ensures DecodeEntries(key, value, 0, bits, used) == Some(([], 0))
  {
  }

  lemma LastEntry(key: Type, value: Type, bits: seq<bool>, used: nat, e: Entry, n: nat)
    requires Supported(key) && Supported(value) && DecodeEntry(key, value, bits, used) == Some((e, n))
    ensures DecodeEntries(key, value, 1, bits, used) == Some(([e], n))
  {
    hide DecodeEntry, Supported;
    NoEntries(key, value, bits[n..], Phase(used + n));
    NextEntry(key, value, 1, bits, used, e, n, [], 0);
    assert [e] + [] == [e];
  }

  lemma NoEntryBits(key: Type, value: Type, pos: nat)
    requires Supported(key) && Supported(value)
    ensures EncodeEntries([], key, value, pos) == [] && CanonEntries([], key, value) == []
    ensures TakenEntries([], key, value, pos) == 0
  {
  }

  lemma OnlyEntry(entries: seq<Entry>, key: Type, value: Type, pos: nat)
    requires Supported(key) && Supported(value) && |entries| == 1
    requires forall i :: 0 <= i < |entries| ==> HasType(entries[i].key, key) && HasType(entries[i].value, value)
    ensures SmoothEntries(entries, key, value, pos) ==> SmoothEntry(entries[0], key, value, pos)
    ensures EncodeEntries(entries, key, value, pos) == EncodeEntry(entries[0], key, value, pos)
    ensures CanonEntries(entries, key, value) == [CanonEntry(entries[0], key, value)]
    ensures TakenEntries(entries, key, value, pos) == TakenEntry(entries[0], key, value, pos)
  {
    hide EncodeEntry, CanonEntry, TakenEntry, SmoothEntry, HasType, Supported;
    assert EncodeEntry(entries[0], key, value, pos) + [] == EncodeEntry(entries[0], key, value, pos);
    assert [CanonEntry(entries[0], key, value)] + [] == [CanonEntry(entries[0], key, value)];
  }

  lemma FirstEntrySmooth(entries: seq<Entry>, key: Type, value: Type, pos: nat, first: nat)
    requires Supported(key) && Supported(value) && |entries| > 1
    requires forall i :: 0 <= i < |entries| ==> HasType(entries[i].key, key) && HasType(entries[i].value, value)
    requires SmoothEntries(entries, key, value, pos) && first == |EncodeEntry(entries[0], key, value, pos)|
    ensures SmoothEntry(entries[0], key, value, pos) && TakenEntry(entries[0], key, value, pos) == first
    ensures SmoothEntries(entries[1..], key, value, pos + first)
  {
    hide EncodeEntry, TakenEntry, SmoothEntry, HasType, Supported;
  }

  lemma FirstEntryTaken(entries: seq<Entry>, key: Type, value: Type, pos: nat, first: nat)
    requires Supported(key) && Supported(value) && |entries| > 1
    requires forall i :: 0 <= i < |entries| ==> HasType(entries[i].key, key) && HasType(entries[i].value, value)
    requires first == |EncodeEntry(entries[0], key, value, pos)|
    ensures TakenEntries(entries, key, value, pos) == first + TakenEntries(entries[1..], key, value, pos + first)
  {
    hide EncodeEntry, TakenEntry, HasType, Supported;
  }

  lemma FirstEntryBits(entries: seq<Entry>, key: Type, value: Type, pos: nat)
    requires Supported(key) && Supported(value) && entries != []
    requires forall i :: 0 <= i < |entries| ==> HasType(entries[i].key, key) && HasType(entries[i].value, value)
    ensures var first := EncodeEntry(entries[0], key, value, pos);
      EncodeEntries(entries, key, value, pos) == first + EncodeEntries(entries[1..], key, value, pos + |first|)
    ensures CanonEntries(entries, key, value)
         == [CanonEntry(entries[0], key, value)] + CanonEntries(entries[1..], key, value)
  {
    hide EncodeEntry, CanonEntry, HasType, Supported;
  }

  lemma {:induction false} EntriesRoundTrip(
    entries: seq<Entry>, key: Type, value: Type, pos: nat, rest: seq<bool>)
    requires Supported(key) && Supported(value)
    requires forall i :: 0 <= i < |entries| ==> HasType(entries[i].key, key) && HasType(entries[i].value, value)
    requires forall i :: 0 <= i < |entries| ==> Encodable(entries[i].key) && Encodable(entries[i].value)
    requires SmoothEntries(entries, key, value, pos)
    ensures DecodeEntries(key, value, |entries|, EncodeEntries(entries, key, value, pos) + rest, Phase(pos))
         == Some((CanonEntries(entries, key, value), TakenEntries(entries, key, value, pos)))
    decreases entries, 0
  {
    hide HasType, Encodable, Supported, EncodeEntry, DecodeEntry, SmoothEntry, CanonEntry, TakenEntry, DecodeEntries,
         Phase, EncodeEntries, CanonEntries, TakenEntries, SmoothEntries;
    if entries == [] {
      NoEntryBits(key, value, pos);
      assert [] + rest == rest;
      NoEntries(key, value, rest, Phase(pos));
    } else {
      var first, e := EncodeEntry(entries[0], key, value, pos), CanonEntry(entries[0], key, value);
      if |entries| == 1 {
        OnlyEntry(entries, key, value, pos);
        EntryRoundTrip(entries[0], key, value, pos, rest);
        LastEntry(key, value, first + rest, Phase(pos), e, TakenEntry(entries[0], key, value, pos));
      } else {
        FirstEntrySmooth(entries, key, value, pos, |first|);
        FirstEntryTaken(entries, key, value, pos, |first|);
        FirstEntryBits(entries, key, value, pos);
        var others := EncodeEntries(entries[1..], key, value, pos + |first|);
        EntryRoundTrip(entries[0], key, value, pos, others + rest);
        Associate(first, others, rest);
        assert (first + (others + rest))[|first|..] == others + rest;
        PhaseAdd(pos, |first|);
        EntriesRoundTrip(entries[1..], key, value, pos + |first|, rest);
        NextEntry(key, value, |entries|, first + (others + rest), Phase(pos), e, |first|,
                  CanonEntries(entries[1..], key, value), TakenEntries(entries[1..], key, value, pos + |first|));
      }
    }
  }

  /** A container begins with its size in sixteen bits, low one first; an empty one is sixteen zeros. */
  lemma SizeField(v: Value, t: Type, pos: nat)
    requires Supported(t) && HasType(v, t) && Encodable(v) && (v.List? || v.Assoc?)
    ensures var bits, n := Encode(v, t, pos), if v.List? then |v.items| else |v.entries|;
      && n <= 65535 && |bits| >= 16 && FromBits(bits[..16]) == n
      && (n == 0 ==> bits == Zeros(16))
  {
    hide ToBits, FromBits, EncodeItems, EncodeEntries, Encodable;
    var n := if v.List? then |v.items| else |v.entries|;
    EncodableSize(v);
    var body :=
      if v.List? then EncodeItems(v.items, t.elem, pos + 16) else EncodeEntries(v.entries, t.key, t.value, pos + 16);
    CountField(n, body, []);
    assert Encode(v, t, pos) == ToBits(n, 16) + body == ToBits(n, 16) + body + [];
    if n == 0 {
      ToBitsZero(16);
      if v.List? { NoItemBits(t.elem, pos + 16); } else { NoEntryBits(t.key, t.value, pos + 16); }
    }
  }

  lemma EncodableSize(v: Value)
    ensures v.List? ==>
      (Encodable(v) <==> |v.items| <= 65535 && forall i | 0 <= i < |v.items| :: Encodable(v.items[i]))
    ensures v.Assoc? ==>
      (Encodable(v) <==> |v.entries| <= 65535 && forall i | 0 <= i < |v.entries| ::
         Encodable(v.entries[i].key) && Encodable(v.entries[i].value))
  {
  }

  // ---- calls ----

  function CanonArgs(args: seq<Value>, types: seq<Type>): (r: seq<Value>)
    requires SupportedAll(types) && HaveTypes(args, types)
    decreases |args|
  {
    if args == [] then [] else [Canon(args[0], types[0])] + CanonArgs(args[1..], types[1..])
  }

  function CanonCall(call: Call, registry: Registry): (r: Call)
    requires ValidRegistry(registry) && Registered(call, registry)
  {
    Call(call.id, CanonArgs(call.args, registry[call.id]))
  }

  function CanonCalls(calls: seq<Call>, registry: Registry): (r: seq<Call>)
    requires ValidRegistry(registry) && forall i :: 0 <= i < |calls| ==> Registered(calls[i], registry)
    decreases |calls|
  {
    if calls == [] then [] else [CanonCall(calls[0], registry)] + CanonCalls(calls[1..], registry)
  }

  function TakenArgs(args: seq<Value>, types: seq<Type>, pos: nat): (n: nat)
    requires SupportedAll(types) && HaveTypes(args, types)
    decreases |args|
  {
    if args == [] then 0
    else if |args| == 1 then Taken(args[0], types[0], pos)
    else
      var first := |Encode(args[0], types[0], pos)|;
      first + TakenArgs(args[1..], types[1..], pos + first)
  }

  lemma {:induction false} TakenArgsEndPadded(args: seq<Value>, types: seq<Type>, pos: nat)
    requires SupportedAll(types) && HaveTypes(args, types)
    ensures EndsPadded(TakenArgs(args, types, pos), |EncodeArgs(args, types, pos)|, pos)
    decreases |args|
  {
    hide PadBits, Encode, Taken, HasType, Supported;
    if |args| == 1 {
      TakenEndsPadded(args[0], types[0], pos);
    } else if args != [] {
      TakenArgsEndPadded(args[1..], types[1..], pos + |Encode(args[0], types[0], pos)|);
    }
  }

  /** No empty string argument ends in mid-byte, except the last. */
  predicate SmoothArgs(args: seq<Value>, types: seq<Type>, pos: nat)
    requires SupportedAll(types) && HaveTypes(args, types)
    decreases |args|
  {
    args == [] ||
    (&& Encodable(args[0])
     && Smooth(args[0], types[0], pos) && (|args| > 1 ==> Whole(args[0], types[0], pos))
     && SmoothArgs(args[1..], types[1..], pos + |Encode(args[0], types[0], pos)|))
  }

  predicate SmoothCall(call: Call, registry: Registry, pos: nat)
    requires ValidRegistry(registry) && Registered(call, registry)
  {
    SmoothArgs(call.args, registry[call.id], pos + 32)
  }

  predicate SmoothCalls(calls: seq<Call>, registry: Registry, pos: nat)
    requires ValidRegistry(registry) && forall i :: 0 <= i < |calls| ==> Registered(calls[i], registry)
    decreases |calls|
  {
    calls == [] ||
    (&& SmoothCall(calls[0], registry, pos)
     && SmoothCalls(calls[1..], registry, pos + |EncodeCall(calls[0], registry, pos)|))
  }

  lemma {:induction false} ArgsRoundTrip(args: seq<Value>, types: seq<Type>, pos: nat, rest: seq<bool>)
    requires SupportedAll(types) && HaveTypes(args, types) && SmoothArgs(args, types, pos)
    ensures DecodeArgs(types, EncodeArgs(args, types, pos) + rest, Phase(pos))
         == Some((CanonArgs(args, types), TakenArgs(args, types, pos)))
    decreases |args|
  {
    hide Encode, Decode, Canon, Smooth, Taken, HasType, Encodable, Supported, Phase, DecodeArgs;
    if args == [] {
      assert EncodeArgs(args, types, pos) + rest == rest;
      NoArgs(rest, Phase(pos));
    } else if |args| == 1 {
      var first, n := Encode(args[0], types[0], pos), Taken(args[0], types[0], pos);
      assert EncodeArgs(args, types, pos) == first + [] == first;
      RoundTrip(args[0], types[0], pos, rest);
      assert types[1..] == [];
      NoArgs((first + rest)[n..], Phase(Phase(pos) + n));
      NextArg(types, first + rest, Phase(pos), Canon(args[0], types[0]), n, [], 0);
    } else {
      var first := Encode(args[0], types[0], pos);
      var others := EncodeArgs(args[1..], types[1..], pos + |first|);
      RoundTrip(args[0], types[0], pos, others + rest);
      Associate(first, others, rest);
      assert (first + (others + rest))[|first|..] == others + rest;
      PhaseAdd(pos, |first|);
      ArgsRoundTrip(args[1..], types[1..], pos + |first|, rest);
      NextArg(types, first + (others + rest), Phase(pos), Canon(args[0], types[0]), |first|,
              CanonArgs(args[1..], types[1..]), TakenArgs(args[1..], types[1..], pos + |first|));
    }
  }

  lemma NoArgs(bits: seq<bool>, used: nat)
    ensures DecodeArgs([], bits, used) == Some(([], 0))
  {
  }

  lemma NextArg(types: seq<Type>, bits: seq<bool>, used: nat, v: Value, n: nat, vs: seq<Value>, m: nat)
    requires types != [] && SupportedAll(types) && Decode(types[0], bits, used) == Some((v, n))
    requires DecodeArgs(types[1..], bits[n..], Phase(used + n)) == Some((vs, m))
    ensures DecodeArgs(types, bits, used) == Some(([v] + vs, n + m))
  {
    hide Decode, Supported, Phase;
  }

  /** The parts of a call on the wire, whatever follows it. */
  lemma CallParts(call: Call, registry: Registry, pos: nat, rest: seq<bool>)
    requires ValidRegistry(registry) && Registered(call, registry)
    ensures var args := EncodeArgs(call.args, registry[call.id], pos + 32);
      var pad, bits := Zeros(PadBits(pos + 32 + |args|)), EncodeCall(call, registry, pos) + rest;
      && |EncodeCall(call, registry, pos)| == 32 + |args| + |pad| && |bits| >= 32
      && FromBits(bits[..32]) == call.id && bits[32..] == args + (pad + rest)
  {
    hide ToBits, FromBits, EncodeArgs, PadBits, SupportedAll, HaveTypes;
    var args := EncodeArgs(call.args, registry[call.id], pos + 32);
    var pad, bits := Zeros(PadBits(pos + 32 + |args|)), EncodeCall(call, registry, pos) + rest;
    assert bits == ToBits(call.id, 32) + (args + (pad + rest));
    assert bits[..32] == ToBits(call.id, 32) && bits[32..] == args + (pad + rest);
    FromToBits(call.id, 32);
    Pow2Known();
    LowSmall(call.id, 32);
  }

  lemma DecodedCall(registry: Registry, bits: seq<bool>, used: nat, args: seq<Value>, n: nat)
    requires ValidRegistry(registry) && |bits| >= 32 && FromBits(bits[..32]) in registry
    requires DecodeArgs(registry[FromBits(bits[..32])], bits[32..], Phase(used + 32)) == Some((args, n))
    requires 32 + n + PadBits(Phase(used + 32 + n)) <= |bits|
    ensures DecodeCall(registry, bits, used)
         == Some((Call(FromBits(bits[..32]), args), 32 + n + PadBits(Phase(used + 32 + n))))
  {
    hide FromBits, DecodeArgs, PadBits, SupportedAll;
  }

  /** A call comes back with its arguments in canonical form, and the reader ends where the writer did. */
  lemma CallRoundTrip(call: Call, registry: Registry, pos: nat, rest: seq<bool>)
    requires ValidRegistry(registry) && Registered(call, registry)
    requires SmoothCall(call, registry, pos)
    ensures DecodeCall(registry, EncodeCall(call, registry, pos) + rest, Phase(pos))
         == Some((CanonCall(call, registry), |EncodeCall(call, registry, pos)|))
  {
    hide FromBits, EncodeArgs, DecodeArgs, CanonArgs, SmoothArgs, TakenArgs, PadBits, Phase, EncodeCall, DecodeCall,
         SupportedAll, HaveTypes;
    var types := registry[call.id];
    var args, n := EncodeArgs(call.args, types, pos + 32), TakenArgs(call.args, types, pos + 32);
    var pad := Zeros(PadBits(pos + 32 + |args|));
    CallParts(call, registry, pos, rest);
    PhaseAdd(pos, 32);
    ArgsRoundTrip(call.args, types, pos + 32, pad + rest);
    TakenArgsEndPadded(call.args, types, pos + 32);
    SameEnd(pos, n, |args|);
    DecodedCall(registry, EncodeCall(call, registry, pos) + rest, Phase(pos), CanonArgs(call.args, types), n);
  }

  /** Both ends align after the arguments, and so meet. */
  lemma SameEnd(pos: nat, taken: nat, written: nat)
    requires EndsPadded(taken, written, pos + 32)
    ensures taken + PadBits(Phase(Phase(pos) + 32 + taken)) == written + PadBits(pos + 32 + written)
  {
    PhaseAdd(pos, 32 + taken);
  }

  /** An empty string after a one-bit number: the reader takes eight of the fifteen bits written. */
  lemma EmptyStringAfterBit()
    ensures var n, t := UInt(1, 8, 32), Str(255, 8);
      && Supported(n) && Supported(t) && HasType(Num(1), n) && HasType(Text([]), t)
      && Whole(Num(1), n, 32) && |Encode(Num(1), n, 32)| == 1
      && Taken(Text([]), t, 33) == 8 && |Encode(Text([]), t, 33)| == 15
  {
    hide ToBits;
    Pow2Known();
    assert TextPayload([], 255) == [] && Unpack([]) == [];
  }

  /** As the last argument of a call this does no harm: both ends then align. */
  lemma EmptyStringAsLastArgument(registry: Registry)
    requires ValidRegistry(registry) && 7 in registry && registry[7] == [UInt(1, 8, 32), Str(255, 8)]
    ensures var call := Call(7, [Num(1), Text([])]);
      && Registered(call, registry) && SmoothCall(call, registry, 0)
      && TakenArgs(call.args, registry[7], 32) < |EncodeArgs(call.args, registry[7], 32)|
  {
    hide Encode, Taken, Pow2;
    EmptyStringAfterBit();
    assert [UInt(1, 8, 32), Str(255, 8)][1..] == [Str(255, 8)] && [Num(1), Text([])][1..] == [Text([])];
  }

  /** Any number of calls marshalled back to back are read back in order, and nothing after them is touched. */
  lemma {:induction false} CallsRoundTrip(calls: seq<Call>, registry: Registry, pos: nat, rest: seq<bool>)
    requires ValidRegistry(registry) && forall i :: 0 <= i < |calls| ==> Registered(calls[i], registry)
    requires SmoothCalls(calls, registry, pos)
    ensures DecodeCalls(registry, |calls|, EncodeCalls(calls, registry, pos) + rest, Phase(pos))
         == Some((CanonCalls(calls, registry), |EncodeCalls(calls, registry, pos)|))
    decreases |calls|
  {
    hide EncodeCall, DecodeCall, CanonCall, SmoothCall, Phase, DecodeCalls;
    if calls == [] {
      assert EncodeCalls(calls, registry, pos) + rest == rest;
      NoCalls(registry, rest, Phase(pos));
    } else {
      var first := EncodeCall(calls[0], registry, pos);
      var others := EncodeCalls(calls[1..], registry, pos + |first|);
      CallRoundTrip(calls[0], registry, pos, others + rest);
      Associate(first, others, rest);
      assert (first + (others + rest))[|first|..] == others + rest;
      PhaseAdd(pos, |first|);
      CallsRoundTrip(calls[1..], registry, pos + |first|, rest);
      NextCall(registry, |calls|, first + (others + rest), Phase(pos), CanonCall(calls[0], registry), |first|,
               CanonCalls(calls[1..], registry), |others|);
    }
  }

  lemma NoCalls(registry: Registry, bits: seq<bool>, used: nat)
    requires ValidRegistry(registry)
    ensures DecodeCalls(registry, 0, bits, used) == Some(([], 0))
  {
  }

  lemma NextCall(registry: Registry, count: nat, bits: seq<bool>, used: nat, c: Call, n: nat, cs: seq<Call>, m: nat)
    requires ValidRegistry(registry) && 0 < count && DecodeCall(registry, bits, used) == Some((c, n))
    requires DecodeCalls(registry, count - 1, bits[n..], Phase(used + n)) == Some((cs, m))
    ensures DecodeCalls(registry, count, bits, used) == Some(([c] + cs, n + m))
  {
    hide DecodeCall, Phase;
  }

  // ---- which values survive ----

  predicate DistinctKeys(entries: seq<Entry>) {
    forall i, j :: 0 <= i < j < |entries| ==> entries[i].key != entries[j].key
  }

  /** Every number fits its wire width, every string its maximum length, and dictionary keys differ. */
  predicate Conforms(v: Value, t: Type)
    requires Supported(t) && HasType(v, t)
    decreases v
  {
    match t
    case UInt(bits, _, _) => v.x < Pow2(bits)
    case SInt(bits, _, _) => Fits(v.x, bits)
    case Str(maxLength, _) => |v.bytes| <= maxLength
    case WStr(maxLength, _) => |Utf8.Encode(v.chars)| <= maxLength
    case Vec(elem) => forall i :: 0 <= i < |v.items| ==> Conforms(v.items[i], elem)
    case Dict(key, value) =>
      && DistinctKeys(v.entries)
      && forall i :: 0 <= i < |v.entries| ==> Conforms(v.entries[i].key, key) && Conforms(v.entries[i].value, value)
  }

  /** Exactly the conforming values come back unchanged. */
  lemma {:induction false} LosslessIffConforms(v: Value, t: Type)
    requires Supported(t) && HasType(v, t)
    ensures Canon(v, t) == v <==> Conforms(v, t)
    decreases v, 1
  {
    match t
    case UInt(bits, _, _) => if v.x < Pow2(bits) { DivUnique(v.x, Pow2(bits), 0, v.x); }
    case SInt(bits, typeWidth, word) =>
      FitsWider(v.x, typeWidth, word);
      SignedFits(v.x, bits, word);
    case Str(_, _) =>
    case WStr(maxLength, _) =>
      assert v.chars[..|v.chars|] == v.chars;
      Utf8.FitCountIsLongest(v.chars, maxLength, |v.chars|);
    case Vec(elem) => LosslessItems(v.items, elem);
    case Dict(key, value) =>
      LosslessEntries(v.entries, key, value);
      InsertAllKeeps([], CanonEntries(v.entries, key, value));
      if DistinctKeys(v.entries) { InsertAllDistinct([], v.entries); }
  }

  lemma {:induction false} LosslessItems(items: seq<Value>, elem: Type)
    requires Supported(elem) && forall i :: 0 <= i < |items| ==> HasType(items[i], elem)
    ensures CanonItems(items, elem) == items <==> forall i :: 0 <= i < |items| ==> Conforms(items[i], elem)
    decreases items, 0
  {
    if items != [] {
      LosslessIffConforms(items[0], elem);
      LosslessItems(items[1..], elem);
      assert forall i :: 0 < i < |items| ==> items[i] == items[1..][i - 1];
    }
  }

  lemma {:induction false} LosslessEntry(e: Entry, key: Type, value: Type)
    requires Supported(key) && Supported(value) && HasType(e.key, key) && HasType(e.value, value)
    ensures CanonEntry(e, key, value) == e <==> Conforms(e.key, key) && Conforms(e.value, value)
    decreases e, 0
  {
    LosslessIffConforms(e.key, key);
    LosslessIffConforms(e.value, value);
  }

  lemma {:induction false} LosslessEntries(entries: seq<Entry>, key: Type, value: Type)
    requires Supported(key) && Supported(value)
    requires forall i :: 0 <= i < |entries| ==> HasType(entries[i].key, key) && HasType(entries[i].value, value)
    ensures |CanonEntries(entries, key, value)| == |entries|
    ensures CanonEntries(entries, key, value) == entries <==>
      forall i :: 0 <= i < |entries| ==> Conforms(entries[i].key, key) && Conforms(entries[i].value, value)
    decreases entries, 0
  {
    hide HasType, Supported, Conforms, CanonEntry, CanonEntries;
    if entries == [] {
      NoEntryBits(key, value, 0);
    } else {
      LosslessEntry(entries[0], key, value);
      LosslessEntries(entries[1..], key, value);
      FirstEntryBits(entries, key, value, 0);
      assert forall i :: 0 < i < |entries| ==> entries[i] == entries[1..][i - 1];
      assert entries == [entries[0]] + entries[1..];
    }
  }

  lemma InsertKeeps(entries: seq<Entry>, e: Entry)
    ensures Insert(entries, e) == entries || Insert(entries, e) == entries + [e]
    ensures DistinctKeys(entries) ==> DistinctKeys(Insert(entries, e))
  {
  }

  /** Inserting keeps keys distinct and drops nothing exactly when the result is plain concatenation. */
  lemma {:induction false} InsertAllKeeps(entries: seq<Entry>, more: seq<Entry>)
    ensures |InsertAll(entries, more)| <= |entries| + |more|
    ensures |InsertAll(entries, more)| == |entries| + |more| ==> InsertAll(entries, more) == entries + more
    ensures DistinctKeys(entries) ==> DistinctKeys(InsertAll(entries, more))
    decreases |more|
  {
    hide Insert, DistinctKeys;
    if more != [] {
      InsertKeeps(entries, more[0]);
      InsertAllKeeps(Insert(entries, more[0]), more[1..]);
      assert entries + [more[0]] + more[1..] == entries + more;
    }
  }

  lemma {:induction false} InsertAllDistinct(entries: seq<Entry>, more: seq<Entry>)
    requires DistinctKeys(entries + more)
    ensures InsertAll(entries, more) == entries + more
    decreases |more|
  {
    if more != [] {
      var all := entries + more;
      assert all[|entries|] == more[0];
      assert forall i :: 0 <= i < |entries| ==> all[i] == entries[i];
      assert entries + [more[0]] + more[1..] == all;
      InsertAllDistinct(entries + [more[0]], more[1..]);
    }
  }
}
