/** Unsigned machine words as naturals, and their bits as sequences, least significant bit first. */
module Bits {

  type byte = b: int | 0 <= b < 256

  const CHAR_BIT: nat := 8

  function Pow2(n: nat): (p: nat)
    ensures p >= 1
  {
    if n == 0 then 1 else 2 * Pow2(n - 1)
  }

  /** The `n` low-order bits of `v`, least significant first. */
  function ToBits(v: nat, n: nat): (bits: seq<bool>)
    ensures |bits| == n
  {
    if n == 0 then [] else [v % 2 == 1] + ToBits(v / 2, n - 1)
  }

  /** The number a bit sequence denotes. */
  function FromBits(bits: seq<bool>): (v: nat)
  {
    if bits == [] then 0 else (if bits[0] then 1 else 0) + 2 * FromBits(bits[1..])
  }

  function Zeros(n: nat): (bits: seq<bool>)
    ensures |bits| == n
  {
    seq(n, _ => false)
  }

  /** C's `a | b` on unsigned words. */
  function Or(a: nat, b: nat): (r: nat)
    decreases a + b
  {
    if a == 0 && b == 0 then 0
    else (if a % 2 == 1 || b % 2 == 1 then 1 else 0) + 2 * Or(a / 2, b / 2)
  }

  /** Truncation to `n` bits: C's `v & ((1 << n) - 1)`; see LowIsMod. */
  function Low(v: nat, n: nat): (r: nat)
    ensures r <= v
  {
    if n == 0 then 0 else v % 2 + 2 * Low(v / 2, n - 1)
  }

  /** C's `v >> k` on an unsigned word. */
  function ShiftRight(v: nat, k: nat): (r: nat)
  {
    if k == 0 then v else ShiftRight(v / 2, k - 1)
  }

  /** `v` times two to the `k`. */
  function Scale(v: nat, k: nat): (r: nat)
  {
    if k == 0 then v else 2 * Scale(v, k - 1)
  }

  /** C's `v << k` on a `width`-bit unsigned word. */
  function ShiftLeft(v: nat, k: nat, width: nat): (r: nat) { Low(Scale(v, k), width) }

  /** C's conversion to `uint8_t`. */
  function ToByte(v: nat): (b: byte) { v % 256 }

  /** The bits of a byte string, byte by byte. */
  function Unpack(bytes: seq<byte>): (bits: seq<bool>)
    ensures |bits| == 8 * |bytes|
  {
    seq(8 * |bytes|, i requires 0 <= i < 8 * |bytes| => ToBits(bytes[i / 8], CHAR_BIT)[i % 8])
  }

  lemma Pow2Known()
    ensures Pow2(3) == 8 && Pow2(CHAR_BIT) == 256 && Pow2(16) == 0x1_0000
    ensures Pow2(31) == 0x8000_0000 && Pow2(32) == 0x1_0000_0000
  {
    assert Pow2(3) == 8;
    assert CHAR_BIT == 8;
    assert Pow2(8) == 32 * Pow2(3);
    assert Pow2(13) == 32 * Pow2(8);
    assert Pow2(16) == 8 * Pow2(13);
    assert Pow2(21) == 32 * Pow2(16);
    assert Pow2(26) == 32 * Pow2(21);
    assert Pow2(31) == 32 * Pow2(26);
  }

  lemma {:induction false} Pow2Monotone(m: nat, n: nat)
    requires m <= n
    ensures Pow2(m) <= Pow2(n)
    decreases n
  {
    if m < n { Pow2Monotone(m, n - 1); }
  }

  // ---- division by a power of two, one bit at a time ----

  lemma DivStep(v: nat, p: nat)
    requires p > 0
    ensures v / (2 * p) == (v / 2) / p
    ensures v % (2 * p) == v % 2 + 2 * ((v / 2) % p)
  {
    var q, r := (v / 2) / p, (v / 2) % p;
    assert v / 2 == p * q + r;
    assert v == (2 * p) * q + (2 * r + v % 2);
    DivUnique(v, 2 * p, q, 2 * r + v % 2);
  }

  lemma DivUnique(v: nat, d: nat, q: nat, r: nat)
    requires 0 <= r < d && v == d * q + r
    ensures v / d == q && v % d == r
  {
    var q', r' := v / d, v % d;
    assert v == d * q' + r';
    if q < q' { MulLess(d, q, q'); }
    if q' < q { MulLess(d, q', q); }
  }

  lemma {:induction false} MulLess(d: nat, a: nat, b: nat)
    requires a < b
    ensures d * a + d <= d * b
    decreases b
  {
    assert d * b == d * (b - 1) + d;
    if a < b - 1 { MulLess(d, a, b - 1); }
  }

  // ---- numbers and bit sequences ----

  lemma {:induction false} LowIsMod(v: nat, n: nat)
    ensures Low(v, n) == v % Pow2(n)
  {
    if n > 0 {
      LowIsMod(v / 2, n - 1);
      DivStep(v, Pow2(n - 1));
    }
  }

  lemma ToByteBits(v: nat)
    ensures ToBits(ToByte(v), CHAR_BIT) == ToBits(v, CHAR_BIT)
  {
    LowIsMod(v, CHAR_BIT);
    Pow2Known();
    ToBitsLow(v, CHAR_BIT, CHAR_BIT);
  }

  lemma LowSmall(v: nat, n: nat)
    requires v < Pow2(n)
    ensures Low(v, n) == v
  {
    LowIsMod(v, n);
    DivUnique(v, Pow2(n), 0, v);
  }

  lemma {:induction false} FromToBits(v: nat, n: nat)
    ensures FromBits(ToBits(v, n)) == Low(v, n)
  {
    if n > 0 {
      FromToBits(v / 2, n - 1);
      assert ToBits(v, n)[1..] == ToBits(v / 2, n - 1);
    }
  }

  lemma {:induction false} ToFromBits(bits: seq<bool>)
    ensures FromBits(bits) < Pow2(|bits|)
    ensures ToBits(FromBits(bits), |bits|) == bits
  {
    if bits != [] { ToFromBits(bits[1..]); }
  }

  lemma {:induction false} ToBitsSplit(v: nat, m: nat, n: nat)
    ensures ToBits(v, m + n) == ToBits(v, m) + ToBits(ShiftRight(v, m), n)
  {
    if m > 0 { ToBitsSplit(v / 2, m - 1, n); }
  }

  lemma {:induction false} ToBitsZero(n: nat)
    ensures ToBits(0, n) == Zeros(n)
  {
    if n > 0 { ToBitsZero(n - 1); }
  }

  /** Truncating to `m` bits keeps the bits below and clears those above. */
  lemma {:induction false} ToBitsLow(v: nat, m: nat, n: nat)
    ensures n <= m ==> ToBits(Low(v, m), n) == ToBits(v, n)
    ensures m <= n ==> ToBits(Low(v, m), n) == ToBits(v, m) + Zeros(n - m)
  {
    if m == 0 {
      ToBitsZero(n);
    } else if n > 0 {
      ToBitsLow(v / 2, m - 1, n - 1);
    }
  }

  lemma {:induction false} ToBitsScaled(v: nat, k: nat, n: nat)
    ensures ToBits(Scale(v, k), k + n) == Zeros(k) + ToBits(v, n)
  {
    if k > 0 { ToBitsScaled(v, k - 1, n); }
  }

  lemma {:induction false} ShiftRightTwice(v: nat, a: nat, b: nat)
    ensures ShiftRight(ShiftRight(v, a), b) == ShiftRight(v, a + b)
  {
    if a > 0 { ShiftRightTwice(v / 2, a - 1, b); }
  }

  lemma {:induction false} ToBitsOr(a: nat, b: nat, n: nat)
    ensures forall i :: 0 <= i < n ==> ToBits(Or(a, b), n)[i] == (ToBits(a, n)[i] || ToBits(b, n)[i])
  {
    if n > 0 {
      ToBitsOr(a / 2, b / 2, n - 1);
      if a == 0 && b == 0 {
        ToBitsZero(n);
      } else {
        assert Or(a, b) / 2 == Or(a / 2, b / 2);
      }
    }
  }

  /** Or-ing `b << k` into a word that is clear from bit `k` up puts the low bits of `b` there. */
  lemma OrShifted(a: nat, b: nat, k: nat, n: nat, width: nat)
    requires k <= n <= width
    requires ToBits(a, n)[k..] == Zeros(n - k)
    ensures ToBits(Or(a, ShiftLeft(b, k, width)), n) == ToBits(a, n)[..k] + ToBits(b, n - k)
  {
    ToBitsOr(a, ShiftLeft(b, k, width), n);
    ToBitsLow(Scale(b, k), width, n);
    ToBitsScaled(b, k, n - k);
  }

  lemma UnpackConcat(a: seq<byte>, b: seq<byte>)
    ensures Unpack(a + b) == Unpack(a) + Unpack(b)
  {
    forall i | 0 <= i < 8 * |a + b|
      ensures Unpack(a + b)[i] == (Unpack(a) + Unpack(b))[i]
    {
      if i >= 8 * |a| { assert i / 8 == |a| + (i - 8 * |a|) / 8 && i % 8 == (i - 8 * |a|) % 8; }
    }
  }

  lemma UnpackOne(b: byte)
    ensures Unpack([b]) == ToBits(b, CHAR_BIT)
  {
  }

  lemma UnpackLast(a: seq<byte>, b: byte)
    ensures Unpack(a + [b]) == Unpack(a) + ToBits(b, CHAR_BIT)
  {
    UnpackConcat(a, [b]);
    UnpackOne(b);
  }

  lemma UnpackSplit(bytes: seq<byte>, k: nat)
    requires k <= |bytes|
    ensures Unpack(bytes)[..8 * k] == Unpack(bytes[..k])
    ensures Unpack(bytes)[8 * k..] == Unpack(bytes[k..])
  {
    assert bytes == bytes[..k] + bytes[k..];
    UnpackConcat(bytes[..k], bytes[k..]);
  }

  lemma UnpackAt(bytes: seq<byte>, k: nat)
    requires k < |bytes|
    ensures Unpack(bytes)[8 * k..8 * k + 8] == ToBits(bytes[k], CHAR_BIT)
  {
    hide ToBits;
    forall i | 0 <= i < 8
      ensures Unpack(bytes)[8 * k + i] == ToBits(bytes[k], CHAR_BIT)[i]
    {
      assert (8 * k + i) / 8 == k && (8 * k + i) % 8 == i;
    }
  }

  /** A byte read as a wider word. */
  lemma WidenedByte(b: byte, n: nat)
    ensures n <= 8 ==> ToBits(b, n) == ToBits(b, CHAR_BIT)[..n]
    ensures 8 <= n ==> ToBits(b, n) == ToBits(b, CHAR_BIT) + Zeros(n - 8)
  {
    if n <= 8 {
      ToBitsSplit(b, n, CHAR_BIT - n);
    } else {
      Pow2Known();
      LowSmall(b, CHAR_BIT);
      ToBitsLow(b, CHAR_BIT, n);
    }
  }

  // ---- shifts and single bits in terms of arithmetic ----

  lemma {:induction false} ShiftRightIsDiv(v: nat, n: nat)
    ensures ShiftRight(v, n) == v / Pow2(n)
  {
    if n > 0 {
      ShiftRightIsDiv(v / 2, n - 1);
      DivStep(v, Pow2(n - 1));
    }
  }

  /** Bit `i` of a number. */
  lemma {:induction false} BitIs(v: nat, n: nat, i: nat)
    requires i < n
    ensures ToBits(v, n)[i] == (v / Pow2(i) % 2 == 1)
  {
    BitShifted(v, n, i);
    ShiftRightIsDiv(v, i);
  }

  lemma {:induction false} BitShifted(v: nat, n: nat, i: nat)
    requires i < n
    ensures ToBits(v, n)[i] == (ShiftRight(v, i) % 2 == 1)
  {
    if i > 0 { BitShifted(v / 2, n - 1, i - 1); }
  }

  lemma ShiftRightZero(v: nat, n: nat)
    ensures ShiftRight(v, n) == 0 <==> v < Pow2(n)
  {
    ShiftRightIsDiv(v, n);
    var p := Pow2(n);
    if v < p {
      DivUnique(v, p, 0, v);
    } else {
      assert v == p * (v / p) + v % p;
    }
  }

  lemma {:induction false} ScaleIsTimes(v: nat, k: nat)
    ensures Scale(v, k) == v * Pow2(k)
  {
    if k > 0 { ScaleIsTimes(v, k - 1); }
  }

  /** A shift left within a `width`-bit word. */
  lemma ShiftLeftIs(v: nat, k: nat, width: nat)
    ensures ShiftLeft(v, k, width) == v * Pow2(k) % Pow2(width)
  {
    ScaleIsTimes(v, k);
    LowIsMod(Scale(v, k), width);
  }

  lemma {:induction false} LowOfScaled(v: nat, k: nat, width: nat)
    requires k <= width
    ensures Low(Scale(v, k), width) == Scale(Low(v, width - k), k)
  {
    if k > 0 {
      LowOfScaled(v, k - 1, width - 1);
      var x := Scale(v, k - 1);
      assert 2 * x % 2 == 0 && 2 * x / 2 == x;
    }
  }

  lemma {:induction false} ScaleZero(v: nat, k: nat)
    ensures Scale(v, k) == 0 <==> v == 0
  {
    if k > 0 { ScaleZero(v, k - 1); }
  }

  lemma ShiftLeftZero(v: nat, k: nat, width: nat)
    requires k <= width
    ensures ShiftLeft(v, k, width) == 0 <==> v % Pow2(width - k) == 0
  {
    LowOfScaled(v, k, width);
    LowIsMod(v, width - k);
    ScaleZero(Low(v, width - k), k);
  }

  // ---- two's complement ----

  /** The signed number a `w`-bit word denotes. */
  function Signed(v: nat, w: nat): (x: int)
    requires 0 < w
  {
    if v >= Pow2(w - 1) then v - Pow2(w) else v
  }

  /** C's conversion of a signed number to a `w`-bit unsigned word. */
  function Unsigned(x: int, w: nat): (v: nat)
    requires Fits(x, w)
    ensures v < Pow2(w)
  {
    if x < 0 then x + Pow2(w) else x
  }

  predicate Fits(x: int, w: nat) { 0 < w && 0 <= x + Pow2(w - 1) < Pow2(w) }

  lemma {:induction false} OrZero(b: nat)
    ensures Or(0, b) == b
  {
    if b > 0 { OrZero(b / 2); }
  }

  lemma {:induction false} LowOfOnes(w: nat, width: nat)
    requires w <= width
    ensures Low(Pow2(width) - 1, w) == Pow2(w) - 1
  {
    if w > 0 {
      LowOfOnes(w - 1, width - 1);
      assert (Pow2(width) - 1) / 2 == Pow2(width - 1) - 1;
    }
  }

  lemma OrEven(v: nat, x: nat)
    ensures Or(v, 2 * x) == v % 2 + 2 * Or(v / 2, x)
  {
  }

  lemma LowOdd(b: nat, y: nat, w: nat)
    requires b < 2 && 0 < w
    ensures Low(b + 2 * y, w) == b + 2 * Low(y, w - 1)
  {
  }

  /** Setting every bit from `n` up in a `width`-bit word and cutting to `w` bits. */
  lemma {:induction false} SetHighBits(v: nat, n: nat, w: nat, width: nat)
    requires v < Pow2(n) && n <= w <= width
    ensures Pow2(n) <= Pow2(w) <= Pow2(width)
    ensures Low(Or(v, Pow2(width) - Pow2(n)), w) == v + Pow2(w) - Pow2(n)
  {
    hide Low, Or;
    Pow2Monotone(n, w);
    Pow2Monotone(w, width);
    if n == 0 {
      OrZero(Pow2(width) - 1);
      LowOfOnes(w, width);
    } else {
      SetHighBits(v / 2, n - 1, w - 1, width - 1);
      var x := Pow2(width - 1) - Pow2(n - 1);
      OrEven(v, x);
      LowOdd(v % 2, Or(v / 2, x), w);
    }
  }

  lemma {:induction false} LowOfNegative(x: int, n: nat, w: nat)
    requires n <= w && 0 <= x + Pow2(n) && x < 0
    ensures Pow2(n) <= Pow2(w)
    ensures Low(Pow2(w) + x, n) == Pow2(n) + x
    decreases n
  {
    Pow2Monotone(n, w);
    if n > 0 { LowOfNegative(x / 2, n - 1, w - 1); }
  }

  lemma {:induction false} ShiftedToZero(v: nat, k: nat)
    ensures ShiftRight(v, k) == 0 <==> v < Pow2(k)
  {
    if k > 0 { ShiftedToZero(v / 2, k - 1); }
  }

  /** Sign extension from `n` bits: what C's `v |= ~mask` and a cast to `w` bits make of a word whose top bit is set. */
  lemma SignExtension(v: nat, n: nat, w: nat, width: nat)
    requires 0 < n < w <= width && Pow2(n - 1) <= v < Pow2(n)
    ensures Pow2(n) <= Pow2(width)
    ensures Signed(Low(Or(v, Pow2(width) - Pow2(n)), w), w) == v - Pow2(n)
  {
    hide Low, Or;
    SetHighBits(v, n, w, width);
    Pow2Monotone(n, w - 1);
  }

  /** Cutting a signed number to `n` bits and reading them back as signed loses nothing exactly when it fits. */
  lemma SignedFits(x: int, n: nat, w: nat)
    requires 0 < n <= w && Fits(x, w)
    ensures Signed(Low(Unsigned(x, w), n), n) == x <==> Fits(x, n)
  {
    LowIsMod(Unsigned(x, w), n);
    Pow2Monotone(n, w);
    if Fits(x, n) {
      if x < 0 { LowOfNegative(x, n, w); } else { LowSmall(x, n); }
    }
  }
}
