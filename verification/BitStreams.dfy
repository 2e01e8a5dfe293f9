/** The bit-packed output and input streams over a byte queue. */
module BitStreams {
  import opened Bits
  import opened Buffers
  import opened Wrappers

  predicate IsEnoughBits(bitCount: int, width: nat) { 0 < bitCount <= width }

  /** Bytes needed to hold `bitCount` bits. */
  function ToBytes(bitCount: int): (n: nat)
    ensures 0 < bitCount ==> 8 * n - 8 < bitCount <= 8 * n
    ensures bitCount <= 0 ==> n == 0
  {
    if bitCount < 0 then 0 else (bitCount + 7) / 8
  }

  function ResetUnusedBits(value: nat, bitCount: nat, width: nat): (r: nat) {
    if bitCount < width then Low(value, bitCount) else value
  }

  /** Bits that fill a byte holding `position % 8` bits. */
  function PadBits(position: nat): (n: nat)
    ensures n < 8 && (position + n) % 8 == 0
  {
    (8 - position % 8) % 8
  }

  /** The unused high bits of the last byte, of which `held` are in use, are zero. */
  ghost predicate Clean(items: seq<byte>, held: nat) {
    items != [] ==> Unpack(items)[8 * |items| - PadBits(held)..] == Zeros(PadBits(held))
  }

  /** The bits in use. */
  ghost function Held(items: seq<byte>, held: nat): (bits: seq<bool>)
    ensures items != [] || held % 8 == 0 ==> |bits| % 8 == held % 8 && |items| == ToBytes(|bits|)
  {
    if items == [] then [] else Unpack(items)[..8 * |items| - PadBits(held)]
  }

  /** The offset of a bit position in its byte. */
  function Phase(position: nat): (r: nat)
    ensures r < 8
  {
    position % 8
  }

  lemma PhaseAdd(pos: nat, n: nat)
    ensures Phase(Phase(pos) + n) == Phase(pos + n)
    ensures PadBits(Phase(pos) + n) == PadBits(pos + n) == PadBits(Phase(pos + n))
  {
    ModEight(pos, n);
    ModEight(pos + n, 0);
  }

  lemma ModEight(pos: nat, n: nat)
    ensures (pos % 8 + n) % 8 == (pos + n) % 8
  {
    var q, m := pos / 8, pos % 8 + n;
    DivUnique(pos + n, 8, q + m / 8, m % 8);
  }

  class OBitStream {
    const buffer: StreamBuffer
    var holdingBitCount: nat
    var totalBitCount: nat

    ghost predicate Valid()
      reads this, buffer
    {
      holdingBitCount < 8 && Clean(buffer.items, holdingBitCount)
    }

    /** The stream expects a partial last byte which its buffer no longer has. */
    ghost predicate Stale()
      reads this, buffer
    {
      holdingBitCount > 0 && buffer.items == []
    }

    /** Every bit written so far. */
    ghost function Bits(): (bits: seq<bool>)
      requires Valid()
      reads this, buffer
      ensures !Stale() ==> |bits| % 8 == holdingBitCount
      ensures !Stale() ==> |buffer.items| == ToBytes(|bits|)
    {
      Held(buffer.items, holdingBitCount)
    }

    constructor (buffer: StreamBuffer)
      ensures this.buffer == buffer && Valid() && Bits() == Unpack(buffer.items)
      ensures holdingBitCount == totalBitCount == 0
    {
      this.buffer := buffer;
      holdingBitCount, totalBitCount := 0, 0;
    }

    /** Fills the held byte, or starts one, with the lowest bits of `theValue`. */
    method WriteFirstByte(theValue: nat, width: nat)
      requires Valid() && !Stale() && 8 <= width
      modifies buffer
      ensures buffer.items != []
      ensures Unpack(buffer.items) == old(Bits()) + ToBits(theValue, 8 - holdingBitCount)
    {
      hide ToBits, Or, ShiftLeft, Unpack, ToByte;
      if holdingBitCount > 0 {
        FillLastByte(buffer.items, theValue, holdingBitCount, width);
        buffer.OrLast(ToByte(ShiftLeft(theValue, holdingBitCount, width)));
      } else {
        FreshByte(buffer.items, theValue);
        buffer.Append(ToByte(theValue));
      }
    }

    /** Pushes `k` whole bytes of `shifted`, enough for `leftBitCount` bits. */
    method WriteWholeBytes(shifted: nat, leftBitCount: int)
      returns (ghost k: nat)
      requires buffer.items != []
      modifies buffer
      ensures buffer.items != []
      ensures if leftBitCount <= 0 then k == 0 else 8 * k - 8 < leftBitCount <= 8 * k
      ensures old(Unpack(buffer.items)) + ToBits(shifted, 8 * k) == Unpack(buffer.items)
    {
      hide ToBits, Unpack, ToByte;
      var left, theValue := leftBitCount, shifted;
      k := 0;
      while left > 0
        invariant 8 * k == leftBitCount - left && (left > -8 || k == 0)
        invariant theValue == ShiftRight(shifted, 8 * k) && buffer.items != []
        invariant old(Unpack(buffer.items)) + ToBits(shifted, 8 * k) == Unpack(buffer.items)
      {
        FreshByte(buffer.items, theValue);
        ToBitsSplit(shifted, 8 * k, CHAR_BIT);
        ShiftRightTwice(shifted, 8 * k, CHAR_BIT);
        assert old(Unpack(buffer.items)) + ToBits(shifted, 8 * k + CHAR_BIT)
            == old(Unpack(buffer.items)) + ToBits(shifted, 8 * k) + ToBits(theValue, CHAR_BIT);
        buffer.Append(ToByte(theValue));
        theValue := ShiftRight(theValue, CHAR_BIT);
        left := left - 8;
        k := k + 1;
      }
    }

    /** Appends the `bitCount` low bits of a `width`-bit word. */
    method WriteBits(value: nat, bitCount: int, width: nat) returns (ok: bool)
      requires Valid() && 8 <= width && value < Pow2(width)
      modifies this, buffer
      ensures Valid()
      ensures ok <==> IsEnoughBits(bitCount, width) && !old(Stale())
      ensures !ok ==> unchanged(this) && unchanged(buffer)
      ensures ok ==> !Stale() && Bits() == old(Bits()) + ToBits(value, bitCount)
      ensures ok ==> totalBitCount == old(totalBitCount) + bitCount
    {
      hide ToBits, Unpack, ShiftRight, ResetUnusedBits, Pow2, Zeros;
      if !IsEnoughBits(bitCount, width) { return false; }
      if holdingBitCount > 0 && buffer.items == [] { return false; }
      ghost var before, h := Bits(), holdingBitCount;

      var theValue := ResetUnusedBits(value, bitCount, width);
      WriteFirstByte(theValue, width);
      var bitShiftCount := 8 - holdingBitCount;
      ghost var k := WriteWholeBytes(ShiftRight(theValue, bitShiftCount), bitCount - bitShiftCount);

      holdingBitCount := (holdingBitCount + bitCount) % 8;
      totalBitCount := totalBitCount + bitCount;
      ok := true;

      WrittenBits(before, value, bitCount, width, h, k);
      HeldWithPadding(buffer.items, holdingBitCount, before + ToBits(value, bitCount));
    }

    /** Pads with zero bits to the next byte boundary. */
    method Align() returns (ok: bool)
      requires Valid()
      modifies this, buffer
      ensures Valid() && ok == !old(Stale())
      ensures !ok ==> unchanged(this) && unchanged(buffer)
      ensures ok ==> holdingBitCount == 0 && Bits() == old(Bits()) + Zeros(PadBits(|old(Bits())|))
      ensures ok ==> totalBitCount == old(totalBitCount) + PadBits(|old(Bits())|)
    {
      hide ToBits, Unpack, Clean, Held, Zeros, Pow2;
      ok := true;
      if holdingBitCount > 0 {
        ToBitsZero(8 - holdingBitCount);
        ok := WriteBits(0, 8 - holdingBitCount, 32);
      }
    }

    /** Aligns, then copies raw bytes. */
    method WriteRaw(bytes: seq<byte>) returns (ok: bool)
      requires Valid() && |bytes| < 0x1_0000
      modifies this, buffer
      ensures Valid() && ok == !old(Stale())
      ensures !ok ==> unchanged(this) && unchanged(buffer)
      ensures ok ==> holdingBitCount == 0
      ensures ok ==> Bits() == old(Bits()) + Zeros(PadBits(|old(Bits())|)) + Unpack(bytes)
      ensures ok ==> totalBitCount == old(totalBitCount) + PadBits(|old(Bits())|) + 8 * |bytes|
    {
      hide ToBits, Unpack, Clean, Held, PadBits, Zeros;
      ok := Align();
      if ok {
        UnpackConcat(buffer.items, bytes);
        WholeBytes(buffer.items);
        buffer.items := buffer.items + bytes;
        WholeBytes(buffer.items);
        totalBitCount := totalBitCount + 8 * |bytes|;
      }
    }

    /** Forgets the total and, on request, the bytes, but not the bits held in the last byte: a stream
        reset with its buffer in mid-byte refuses every later write. */
    method Reset(resetBuffer: bool)
      requires Valid()
      modifies this`totalBitCount, buffer
      ensures Valid() && totalBitCount == 0
      ensures resetBuffer ==> buffer.items == [] && (Stale() <==> holdingBitCount != 0)
      ensures !resetBuffer ==> unchanged(buffer) && Bits() == old(Bits())
    {
      if resetBuffer { buffer.items := []; }
      totalBitCount := 0;
    }
  }

  // ---- what WriteBits does to the last byte ----

  lemma FreshByte(items: seq<byte>, v: nat)
    ensures Unpack(items + [ToByte(v)]) == Unpack(items) + ToBits(v, CHAR_BIT)
  {
    UnpackLast(items, ToByte(v));
    ToByteBits(v);
  }

  lemma FillLastByte(items: seq<byte>, v: nat, h: nat, width: nat)
    requires items != [] && 0 < h < 8 <= width && Clean(items, h)
    ensures Unpack(items[..|items| - 1] + [ToByte(Or(items[|items| - 1], ToByte(ShiftLeft(v, h, width))))])
         == Held(items, h) + ToBits(v, 8 - h)
  {
    hide ToBits, Or, ShiftLeft, Unpack, ToByte, Held, Clean;
    var init, last := items[..|items| - 1], items[|items| - 1];
    var filled := ToByte(Or(last, ToByte(ShiftLeft(v, h, width))));
    LastByte(items, h);
    UnpackLast(init, filled);
    FilledByte(last, v, h, CHAR_BIT, width);
    Associate(Unpack(init), ToBits(last, CHAR_BIT)[..h], ToBits(v, 8 - h));
  }

  /** The bits held are those of the whole bytes and the low ones of the last byte. */
  lemma LastByte(items: seq<byte>, h: nat)
    requires items != [] && 0 < h < 8 && Clean(items, h)
    ensures var u, l := Unpack(items[..|items| - 1]), ToBits(items[|items| - 1], CHAR_BIT);
      Held(items, h) == u + l[..h] && l[h..] == Zeros(8 - h)
  {
    hide ToBits, Unpack, Zeros;
    var init, last := items[..|items| - 1], items[|items| - 1];
    assert items == init + [last];
    UnpackLast(init, last);
    SplitInTail(Unpack(init), ToBits(last, CHAR_BIT), h);
    assert PadBits(h) == 8 - h;
  }

  lemma SplitInTail<T>(u: seq<T>, l: seq<T>, h: nat)
    requires h <= |l|
    ensures (u + l)[..|u| + h] == u + l[..h]
    ensures (u + l)[|u| + h..] == l[h..]
  {
  }

  lemma FilledByte(last: nat, v: nat, h: nat, size: nat, width: nat)
    requires h <= size <= width && size == CHAR_BIT
    requires ToBits(last, size)[h..] == Zeros(size - h)
    ensures ToBits(ToByte(Or(last, ToByte(ShiftLeft(v, h, width)))), size)
         == ToBits(last, size)[..h] + ToBits(v, size - h)
  {
    hide ToBits, Or, Scale, Low, ToByte;
    var shifted := ShiftLeft(v, h, width);
    ToByteBits(Or(last, ToByte(shifted)));
    ToByteBits(shifted);
    ToBitsOr(last, ToByte(shifted), size);
    ToBitsLow(Scale(v, h), width, size);
    ToBitsScaled(v, h, size - h);
  }

  /** After the first byte and `k` whole bytes the buffer ends in the `bitCount` bits and zero padding. */
  lemma WrittenBits(before: seq<bool>, value: nat, bitCount: nat, width: nat, h: nat, k: nat)
    requires bitCount <= width && value < Pow2(width) && h < 8
    requires if bitCount <= 8 - h then k == 0 else 8 * k - 8 < bitCount - (8 - h) <= 8 * k
    requires 0 < bitCount
    ensures var v := ResetUnusedBits(value, bitCount, width);
      before + ToBits(v, 8 - h) + ToBits(ShiftRight(v, 8 - h), 8 * k)
        == before + ToBits(value, bitCount) + Zeros(PadBits((h + bitCount) % 8))
  {
    hide ToBits, ShiftRight, ResetUnusedBits, Pow2, Zeros, PadBits;
    var v, m := ResetUnusedBits(value, bitCount, width), 8 - h + 8 * k;
    ToBitsSplit(v, 8 - h, 8 * k);
    MaskedBits(value, bitCount, width, m);
    LastBytePad(h, bitCount, k);
    Associate(before, ToBits(v, 8 - h), ToBits(ShiftRight(v, 8 - h), 8 * k));
    Associate(before, ToBits(value, bitCount), Zeros(m - bitCount));
  }

  lemma LastBytePad(h: nat, bitCount: nat, k: nat)
    requires h < 8 && 0 < bitCount
    requires if bitCount <= 8 - h then k == 0 else 8 * k - 8 < bitCount - (8 - h) <= 8 * k
    ensures 8 - h + 8 * k - bitCount == PadBits((h + bitCount) % 8)
  {
    var end := h + bitCount;
    assert end == 8 * (k + 1) - (8 * (k + 1) - end) && 0 <= 8 * (k + 1) - end < 8;
  }

  lemma Associate<T>(a: seq<T>, b: seq<T>, c: seq<T>)
    ensures a + b + c == a + (b + c)
  {
  }

  lemma WholeBytes(items: seq<byte>)
    ensures Clean(items, 0) && Held(items, 0) == Unpack(items)
  {
  }

  lemma HeldWithPadding(items: seq<byte>, held: nat, bits: seq<bool>)
    requires items != [] && Unpack(items) == bits + Zeros(PadBits(held))
    ensures Clean(items, held) && Held(items, held) == bits
  {
  }

  lemma MaskedBits(value: nat, bitCount: nat, width: nat, m: nat)
    requires bitCount <= width && value < Pow2(width) && bitCount <= m
    ensures ToBits(ResetUnusedBits(value, bitCount, width), m) == ToBits(value, bitCount) + Zeros(m - bitCount)
  {
    ToBitsLow(value, bitCount, m);
    if bitCount == width { LowSmall(value, width); }
  }

  // ---- the input stream ----

  /** The bits not yet read when `used` bits of the first byte are spent. */
  ghost function Pending(items: seq<byte>, used: nat): (bits: seq<bool>)
    requires used < 8
    ensures |bits| == if items == [] then 0 else 8 * |items| - used
  {
    if items == [] then [] else Unpack(items)[used..]
  }

  /** The mask `(1 << bitCount) - 1` is computed in `int`: it has a meaning for these widths only. */
  predicate MaskDefined(bitCount: int, width: nat) { bitCount < 32 || bitCount >= width }

  /** The signed number in the low `w` of these bits, or in all of them if they are fewer. */
  function SignedBits(bits: seq<bool>, w: nat): (x: int)
    requires bits != [] && 0 < w
  {
    if |bits| < w then Signed(FromBits(bits), |bits|) else Signed(Low(FromBits(bits), w), w)
  }

  class IBitStream {
    const buffer: StreamBuffer
    var bitReadCount: nat

    ghost predicate Valid()
      reads this, buffer
    {
      bitReadCount < 8 && (bitReadCount > 0 ==> buffer.items != [])
    }

    ghost function Unread(): (bits: seq<bool>)
      requires Valid()
      reads this, buffer
      ensures |bits| == 8 * |buffer.items| - bitReadCount
    {
      Pending(buffer.items, bitReadCount)
    }

    constructor (buffer: StreamBuffer)
      ensures this.buffer == buffer && Valid() && bitReadCount == 0 && Unread() == Unpack(buffer.items)
    {
      this.buffer := buffer;
      bitReadCount := 0;
    }

    /** Takes `bitCount` bits. Throws exactly when the width is invalid or fewer bits are left, and
        then changes nothing. */
    method ReadBits(bitCount: int, width: nat) returns (r: Result<nat>)
      requires Valid() && 8 <= width && MaskDefined(bitCount, width)
      modifies this, buffer
      ensures Valid()
      ensures r.Ok? <==> IsEnoughBits(bitCount, width) && bitCount <= |old(Unread())|
      ensures r.Thrown? ==> unchanged(this) && unchanged(buffer)
      ensures r.Ok? ==> r.value == FromBits(old(Unread())[..bitCount])
      ensures r.Ok? ==> Unread() == old(Unread())[bitCount..]
      ensures r.Ok? ==> bitReadCount == Phase(old(bitReadCount) + bitCount)
    {
      hide ToBits, Unpack, Or, ShiftRight, ShiftLeft, Low, FromBits, Zeros, ReadSoFar, Pending;
      if !IsEnoughBits(bitCount, width) { return Thrown; }
      var shiftCount := 8 - bitReadCount;
      var leftBitCount := bitCount - shiftCount;
      if |buffer.items| < ToBytes(leftBitCount) + 1 { return Thrown; }

      ghost var items, used, k := buffer.items, bitReadCount, 0;
      FirstBits(items, used, width);
      var result := ShiftRight(buffer.First(), bitReadCount);
      while leftBitCount > 0
        invariant shiftCount == 8 - used + 8 * k && leftBitCount == bitCount - shiftCount
        invariant leftBitCount > -8 || k == 0
        invariant k + ToBytes(leftBitCount) < |items| && buffer.items == items[k..]
        invariant ReadSoFar(items, used, shiftCount, width, result)
        modifies buffer
      {
        NextBits(items, used, k, width, result);
        buffer.Drop();
        result := Or(result, ShiftLeft(buffer.First(), shiftCount, width));
        shiftCount := shiftCount + 8;
        leftBitCount := leftBitCount - 8;
        k := k + 1;
      }

      bitReadCount := (bitReadCount + bitCount) % 8;
      if bitReadCount == 0 { buffer.Drop(); }
      r := Ok(Low(result, if bitCount < width then bitCount else width));
      ReadValue(items, used, shiftCount, width, result, bitCount);
      Remaining(items, used, bitCount, k);
    }

    /** Takes `bitCount` bits as a two's complement number, sign-extended to the `typeWidth`-bit type asked for. */
    method ReadSigned(bitCount: int, typeWidth: nat, width: nat) returns (r: Result<int>)
      requires Valid() && 8 <= typeWidth <= width && MaskDefined(bitCount, width)
      modifies this, buffer
      ensures Valid()
      ensures r.Ok? <==> IsEnoughBits(bitCount, width) && bitCount <= |old(Unread())|
      ensures r.Thrown? ==> unchanged(this) && unchanged(buffer)
      ensures r.Ok? ==> r.value == SignedBits(old(Unread())[..bitCount], typeWidth)
      ensures r.Ok? ==> Unread() == old(Unread())[bitCount..]
      ensures r.Ok? ==> bitReadCount == Phase(old(bitReadCount) + bitCount)
    {
      hide Low, Or, ToBits, FromBits, ShiftRight, Unpack, Pending;
      ghost var bits := Unread();
      var raw := ReadBits(bitCount, width);
      if raw.Thrown? { return Thrown; }
      var numeric := raw.value;
      ToFromBits(bits[..bitCount]);
      if bitCount < typeWidth {
        var mask := Pow2(bitCount) - 1;
        var sign := ShiftRight(Low(numeric, bitCount), bitCount - 1);
        LowSmall(numeric, bitCount);
        ShiftedToZero(numeric, bitCount - 1);
        Pow2Monotone(bitCount, typeWidth - 1);
        Pow2Monotone(bitCount, width);
        if sign != 0 {
          SignExtension(numeric, bitCount, typeWidth, width);
          numeric := Or(numeric, Pow2(width) - 1 - mask);
        } else {
          LowSmall(numeric, typeWidth);
        }
      }
      r := Ok(Signed(Low(numeric, typeWidth), typeWidth));
    }

    /** Drops the rest of a partly read byte. */
    method Align()
      requires Valid()
      modifies this, buffer
      ensures Valid() && bitReadCount == 0
      ensures Unread() == old(Unread())[PadBits(old(bitReadCount))..]
    {
      hide ToBits, Unpack;
      if bitReadCount > 0 {
        UnpackSplit(buffer.items, 1);
        buffer.Drop();
      }
      bitReadCount := 0;
    }

    /** The buffer's raw copy at a byte boundary. */
    method CopyOut(length: nat) returns (r: Result<seq<byte>>)
      requires Valid() && bitReadCount == 0
      modifies buffer
      ensures Valid()
      ensures r.Ok? <==> 8 * length <= |old(Unread())|
      ensures r.Thrown? ==> Unread() == old(Unread())
      ensures r.Ok? ==> |r.value| == length && old(Unread()) == Unpack(r.value) + Unread()
    {
      hide ToBits, Unpack;
      if |buffer.items| < length { return Thrown; }
      r := Ok(buffer.items[..length]);
      UnpackSplit(buffer.items, length);
      buffer.items := buffer.items[length..];
    }

    /** Aligns, then copies raw bytes out; throws exactly when there are too few. */
    method ReadRaw(length: nat) returns (r: Result<seq<byte>>)
      requires Valid() && length < 0x1_0000
      modifies this, buffer
      ensures Valid() && bitReadCount == 0
      ensures r.Ok? <==> PadBits(old(bitReadCount)) + 8 * length <= |old(Unread())|
      ensures r.Thrown? ==> Unread() == old(Unread())[PadBits(old(bitReadCount))..]
      ensures r.Ok? ==>
        && |r.value| == length
        && old(Unread())[PadBits(old(bitReadCount))..] == Unpack(r.value) + Unread()
    {
      hide ToBits, Unpack, Pending;
      Align();
      r := CopyOut(length);
    }
  }

  // ---- what ReadBits accumulates ----

  /** `result` holds the first `shiftCount` pending bits, as far as a `width`-bit word can. */
  ghost predicate ReadSoFar(items: seq<byte>, used: nat, shiftCount: nat, width: nat, result: nat)
    requires used < 8
  {
    var u, m := Pending(items, used), if shiftCount < width then shiftCount else width;
    m <= |u| && ToBits(result, width) == u[..m] + Zeros(width - m)
  }

  lemma FirstBits(items: seq<byte>, used: nat, width: nat)
    requires items != [] && used < 8 <= width
    ensures ReadSoFar(items, used, 8 - used, width, ShiftRight(items[0], used))
  {
    hide ToBits, Unpack, ShiftRight;
    UnpackAt(items, 0);
    ToBitsSplit(items[0], used, width);
    WidenedByte(items[0], used + width);
    var b := ToBits(items[0], CHAR_BIT);
    assert ToBits(ShiftRight(items[0], used), width) == ToBits(items[0], used + width)[used..];
    assert Pending(items, used)[..8 - used] == b[used..];
  }

  lemma PendingByte(items: seq<byte>, used: nat, k: nat)
    requires used < 8 && 0 < k < |items|
    ensures Pending(items, used)[8 * k - used..8 * k - used + 8] == ToBits(items[k], CHAR_BIT)
  {
    hide ToBits, Unpack;
    UnpackAt(items, k);
    assert Unpack(items)[used..][8 * k - used..8 * k - used + 8] == Unpack(items)[8 * k..8 * k + 8];
  }

  lemma NextBits(items: seq<byte>, used: nat, k: nat, width: nat, result: nat)
    requires used < 8 <= width && k + 1 < |items| && 8 - used + 8 * k < width
    requires ReadSoFar(items, used, 8 - used + 8 * k, width, result)
    ensures ReadSoFar(items, used, 16 - used + 8 * k, width,
                      Or(result, ShiftLeft(items[k + 1], 8 - used + 8 * k, width)))
  {
    hide ToBits, Unpack, Or, ShiftLeft;
    var shift, f, u := 8 - used + 8 * k, items[k + 1], Pending(items, used);
    OrShifted(result, f, shift, width, width);
    WidenedByte(f, width - shift);
    PendingByte(items, used, k + 1);
    var r := Or(result, ShiftLeft(f, shift, width));
    assert ToBits(result, width)[..shift] == u[..shift];
    assert ToBits(r, width) == u[..shift] + ToBits(f, width - shift);
    if width <= shift + 8 {
      assert ToBits(f, width - shift) == u[shift..width];
      assert u[..width] == u[..shift] + u[shift..width];
      assert u[..width] + Zeros(0) == u[..width];
    } else {
      assert u[..shift + 8] == u[..shift] + u[shift..shift + 8];
      Associate(u[..shift], u[shift..shift + 8], Zeros(width - shift - 8));
    }
  }

  lemma ReadValue(items: seq<byte>, used: nat, shiftCount: nat, width: nat, result: nat, bitCount: nat)
    requires used < 8 && bitCount <= shiftCount && bitCount <= width
    requires ReadSoFar(items, used, shiftCount, width, result)
    ensures bitCount <= |Pending(items, used)|
    ensures Low(result, bitCount) == FromBits(Pending(items, used)[..bitCount])
  {
    hide ToBits, Unpack, Low, FromBits, ShiftRight;
    FromToBits(result, bitCount);
    ToBitsSplit(result, bitCount, width - bitCount);
    assert ToBits(result, bitCount) == ToBits(result, width)[..bitCount] == Pending(items, used)[..bitCount];
  }

  lemma DropTwice<T>(s: seq<T>, a: nat, b: nat)
    requires a + b <= |s|
    ensures s[a..][b..] == s[a + b..]
  {
  }

  /** Reading that ends on a byte boundary, and reading that ends within a byte. */
  lemma RemainingBytes(items: seq<byte>, used: nat, bitCount: nat, k: nat)
    requires used < 8 && k < |items| && used + bitCount == 8 * k + 8
    ensures Unpack(items[k + 1..]) == Unpack(items)[used..][bitCount..]
  {
    hide Unpack;
    DropTwice(Unpack(items), used, bitCount);
    UnpackSplit(items, k + 1);
  }

  lemma RemainingBits(items: seq<byte>, used: nat, bitCount: nat, k: nat)
    requires used < 8 && k < |items| && 8 * k < used + bitCount < 8 * k + 8
    ensures Unpack(items[k..])[used + bitCount - 8 * k..] == Unpack(items)[used..][bitCount..]
  {
    hide Unpack;
    DropTwice(Unpack(items), used, bitCount);
    UnpackSplit(items, k);
    DropTwice(Unpack(items), 8 * k, used + bitCount - 8 * k);
  }

  lemma Remaining(items: seq<byte>, used: nat, bitCount: nat, k: nat)
    requires used < 8 && k < |items| && 8 * k < used + bitCount <= 8 * k + 8
    ensures bitCount <= |Pending(items, used)|
    ensures var left := if (used + bitCount) % 8 == 0 then items[k + 1..] else items[k..];
      Pending(left, (used + bitCount) % 8) == Pending(items, used)[bitCount..]
  {
    hide Unpack;
    if used + bitCount == 8 * k + 8 {
      DivUnique(used + bitCount, 8, k + 1, 0);
      RemainingBytes(items, used, bitCount, k);
    } else {
      DivUnique(used + bitCount, 8, k, used + bitCount - 8 * k);
      RemainingBits(items, used, bitCount, k);
    }
  }
}
