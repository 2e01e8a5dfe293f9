/** The UTF-8 codec: the one to six octet form of section 2 of RFC 2279, over 31-bit characters. */
module Utf8 {
  import opened Bits
  import opened Wrappers

  type Wchar = c: int | 0 <= c < 0x8000_0000

  // ---- octet classes and counts ----

  predicate InvalidLeadingOctet(octet: byte) { 0x7f < octet < 0xc0 || octet > 0xfd }

  predicate InvalidContinuingOctet(octet: byte) { octet < 0x80 || octet > 0xbf }

  /** Continuing octets announced by a leading octet. */
  function ContOctetCount(leadOctet: byte): (n: nat)
    ensures n < 6
  {
    if leadOctet <= 0x7f then 0
    else if 0xc0 <= leadOctet <= 0xdf then 1
    else if 0xe0 <= leadOctet <= 0xef then 2
    else if 0xf0 <= leadOctet <= 0xf7 then 3
    else if 0xf8 <= leadOctet <= 0xfb then 4
    else 5
  }

  /** Continuing octets needed for a character. */
  function ContOctetOutCount(word: Wchar): (n: nat)
    ensures n < 6
  {
    if word < 0x80 then 0
    else if word < 0x800 then 1
    else if word < 0x1_0000 then 2
    else if word < 0x20_0000 then 3
    else if word < 0x400_0000 then 4
    else 5
  }

  const LEAD_MODIFIER: seq<nat> := [0x00, 0xc0, 0xe0, 0xf0, 0xf8, 0xfc]
  const LEAD_SPAN: seq<nat> := [0x100, 0x20, 0x10, 0x08, 0x04, 0x02]  // one more than the source's lead masks
  const MIN_VALUE: seq<nat> := [0, 0x80, 0x800, 0x1_0000, 0x11_0000, 0x400_0000]

  /** `word >> (6 * k)` */
  function Shift6(word: nat, k: nat): (r: nat)
  {
    if k == 0 then word else Shift6(word / 64, k - 1)
  }

  // ---- what the loops compute ----

  function ContOctets(word: nat, k: nat): (octets: seq<byte>)
    ensures |octets| == k
  {
    if k == 0 then [] else ContOctets(word / 64, k - 1) + [0x80 + word % 64]
  }

  function EncodeChar(c: Wchar): (octets: seq<byte>)
    ensures 1 <= |octets| <= 6
  {
    var k := ContOctetOutCount(c);
    LeadFits(c);
    [LEAD_MODIFIER[k] + Shift6(c, k)] + ContOctets(c, k)
  }

  function Encode(ucs: seq<Wchar>): (octets: seq<byte>)
  {
    if ucs == [] then [] else EncodeChar(ucs[0]) + Encode(ucs[1..])
  }

  /** Folds continuing octets into `acc`; fails on an octet that is not `10xxxxxx`. */
  function DecodeConts(acc: nat, octets: seq<byte>): (r: Option<nat>)
    decreases |octets|
  {
    if octets == [] then Some(acc)
    else if InvalidContinuingOctet(octets[0]) then None
    else DecodeConts(acc * 64 + octets[0] % 64, octets[1..])
  }

  /** The character at the front and how many octets it takes; none at the first malformed one. */
  function DecodeChar(octets: seq<byte>): (r: Option<(Wchar, nat)>)
    ensures r.Some? ==> 0 < r.value.1 <= |octets|
  {
    if octets == [] || InvalidLeadingOctet(octets[0]) then None
    else
      var k := ContOctetCount(octets[0]);
      if |octets| <= k then None
      else
        match DecodeConts(octets[0] % LEAD_SPAN[k], octets[1..k + 1])
        case None => None
        case Some(wc) =>
          DecodedSmall(octets[0], octets[1..k + 1]);
          if wc < MIN_VALUE[k] then None else Some((wc, k + 1))
  }

  function Decode(octets: seq<byte>): (ucs: seq<Wchar>)
  {
    match DecodeChar(octets)
    case None => []
    case Some((c, n)) => [c] + Decode(octets[n..])
  }

  /** How many whole characters fit in `n` octets. */
  function FitCount(ucs: seq<Wchar>, n: nat): (k: nat)
    ensures k <= |ucs|
  {
    if ucs == [] || |EncodeChar(ucs[0])| > n then 0
    else 1 + FitCount(ucs[1..], n - |EncodeChar(ucs[0])|)
  }

  // ---- the loops ----

  method AppendChar(utf8: seq<byte>, wc: Wchar) returns (r: seq<byte>)
    ensures r == utf8 + EncodeChar(wc)
  {
    var contOctetCount := ContOctetOutCount(wc);
    ghost var lead := [LEAD_MODIFIER[contOctetCount] + Shift6(wc, contOctetCount)];
    LeadFits(wc);
    r := utf8 + [LEAD_MODIFIER[contOctetCount] + Shift6(wc, contOctetCount)];
    for j := 0 to contOctetCount
      invariant r == utf8 + lead + ContOctets(wc, contOctetCount)[..j]
    {
      ContOctetAt(wc, contOctetCount, j);
      r := r + [0x80 + Shift6(wc, contOctetCount - 1 - j) % 64];
    }
  }

  method ToUtf8(ucs: seq<Wchar>) returns (utf8: seq<byte>)
    ensures utf8 == Encode(ucs)
  {
    utf8 := [];
    for i := 0 to |ucs|
      invariant utf8 + Encode(ucs[i..]) == Encode(ucs)
    {
      hide EncodeChar;
      assert Encode(ucs[i..]) == EncodeChar(ucs[i]) + Encode(ucs[i + 1..]) by { assert ucs[i..][1..] == ucs[i + 1..]; }
      utf8 := AppendChar(utf8, ucs[i]);
    }
  }

  method ReadChar(utf8: seq<byte>, current: nat) returns (r: Option<(Wchar, nat)>)
    requires current < |utf8|
    ensures r == DecodeChar(utf8[current..])
  {
    var octet := utf8[current];
    if InvalidLeadingOctet(octet) { return None; }
    var contOctetCount := ContOctetCount(octet);
    if |utf8| - current <= contOctetCount { return None; }
    ghost var conts := utf8[current..][1..contOctetCount + 1];
    var wc: nat := octet % LEAD_SPAN[contOctetCount];
    for j := 0 to contOctetCount
      invariant DecodeConts(octet % LEAD_SPAN[contOctetCount], conts) == DecodeConts(wc, conts[j..])
    {
      var contOctet := utf8[current + 1 + j];
      if InvalidContinuingOctet(contOctet) { return None; }
      wc := wc * 64 + contOctet % 64;
      assert conts[j..][1..] == conts[j + 1..];
    }
    assert conts[contOctetCount..] == [];
    DecodedSmall(octet, conts);
    if wc < MIN_VALUE[contOctetCount] { return None; }
    r := Some((wc, contOctetCount + 1));
  }

  method FromUtf8(utf8: seq<byte>) returns (ucs: seq<Wchar>)
    ensures ucs == Decode(utf8)
  {
    hide DecodeChar;
    ucs := [];
    var current := 0;
    while current < |utf8|
      invariant current <= |utf8| && ucs + Decode(utf8[current..]) == Decode(utf8)
    {
      var next := ReadChar(utf8, current);
      if next.None? { return; }
      ucs := ucs + [next.value.0];
      assert utf8[current..][next.value.1..] == utf8[current + next.value.1..];
      current := current + next.value.1;
    }
    assert Decode(utf8[current..]) == [];
  }

  // ---- one character ----

  lemma LeadFits(c: Wchar)
    ensures var k := ContOctetOutCount(c); LEAD_MODIFIER[k] + Shift6(c, k) < 256
    ensures var k := ContOctetOutCount(c); Shift6(c, k) < LEAD_SPAN[k] && (k == 0 ==> c < 0x80)
  {
    var c1 := c / 64;
    var c2 := c1 / 64;
    var c3 := c2 / 64;
    var c4 := c3 / 64;
    assert Shift6(c, 1) == c1;
    assert Shift6(c, 2) == Shift6(c1, 1) == c2;
    assert Shift6(c, 3) == Shift6(c1, 2) == Shift6(c2, 1) == c3;
    assert Shift6(c, 4) == Shift6(c1, 3) == Shift6(c2, 2) == Shift6(c3, 1) == c4;
    assert Shift6(c, 5) == Shift6(c1, 4) == Shift6(c2, 3) == Shift6(c3, 2) == Shift6(c4, 1) == c4 / 64;
  }

  lemma {:induction false} ContOctetAt(word: nat, k: nat, j: nat)
    requires j < k
    ensures ContOctets(word, k)[j] == 0x80 + Shift6(word, k - 1 - j) % 64
  {
    if j < k - 1 { ContOctetAt(word / 64, k - 1, j); }
  }

  lemma {:induction false} DecodeContsAppend(acc: nat, octets: seq<byte>, last: byte)
    requires DecodeConts(acc, octets).Some? && !InvalidContinuingOctet(last)
    ensures DecodeConts(acc, octets + [last]) == Some(DecodeConts(acc, octets).value * 64 + last % 64)
    decreases |octets|
  {
    if octets != [] {
      assert (octets + [last])[1..] == octets[1..] + [last];
      DecodeContsAppend(acc * 64 + octets[0] % 64, octets[1..], last);
    } else {
      assert (octets + [last])[1..] == [];
    }
  }

  lemma {:induction false} DecodeContsOfEncoded(word: nat, k: nat)
    ensures DecodeConts(Shift6(word, k), ContOctets(word, k)) == Some(word)
  {
    if k > 0 {
      DecodeContsOfEncoded(word / 64, k - 1);
      DecodeContsAppend(Shift6(word, k), ContOctets(word / 64, k - 1), 0x80 + word % 64);
    }
  }

  lemma DecodeEncodedChar(c: Wchar, rest: seq<byte>)
    ensures DecodeChar(EncodeChar(c) + rest) == Some((c, |EncodeChar(c)|))
  {
    hide ContOctets, DecodeConts;
    var k := ContOctetOutCount(c);
    LeadFits(c);
    var octets := EncodeChar(c) + rest;
    assert octets[1..k + 1] == ContOctets(c, k);
    DecodeContsOfEncoded(c, k);
    assert !InvalidLeadingOctet(octets[0]) && ContOctetCount(octets[0]) == k;
    assert octets[0] % LEAD_SPAN[k] == Shift6(c, k);
  }

  /** The octets of a character, as the table in section 2 of RFC 2279 lays them out. */
  lemma EncodedAsInTable(c: Wchar)
    ensures EncodeChar(c) ==
      if c < 0x80 then [c]
      else if c < 0x800 then [0xc0 + c / 0x40, 0x80 + c % 0x40]
      else if c < 0x1_0000 then [0xe0 + c / 0x1000, 0x80 + c / 0x40 % 0x40, 0x80 + c % 0x40]
      else if c < 0x20_0000 then
        [0xf0 + c / 0x4_0000, 0x80 + c / 0x1000 % 0x40, 0x80 + c / 0x40 % 0x40, 0x80 + c % 0x40]
      else if c < 0x400_0000 then
        [0xf8 + c / 0x100_0000, 0x80 + c / 0x4_0000 % 0x40, 0x80 + c / 0x1000 % 0x40, 0x80 + c / 0x40 % 0x40,
         0x80 + c % 0x40]
      else
        [0xfc + c / 0x4000_0000, 0x80 + c / 0x100_0000 % 0x40, 0x80 + c / 0x4_0000 % 0x40, 0x80 + c / 0x1000 % 0x40,
         0x80 + c / 0x40 % 0x40, 0x80 + c % 0x40]
  {
    hide Shift6, ContOctets;
    LeadFits(c);
    Shift6Is(c);
    ContOctetsAre(c, ContOctetOutCount(c));
  }

  lemma ContOctetsAre(w: nat, k: nat)
    requires k <= 5
    ensures k == 0 ==> ContOctets(w, k) == []
    ensures k == 1 ==> ContOctets(w, k) == [0x80 + Shift6(w, 0) % 64]
    ensures k == 2 ==> ContOctets(w, k) == [0x80 + Shift6(w, 1) % 64, 0x80 + Shift6(w, 0) % 64]
    ensures k == 3 ==>
      ContOctets(w, k) == [0x80 + Shift6(w, 2) % 64, 0x80 + Shift6(w, 1) % 64, 0x80 + Shift6(w, 0) % 64]
    ensures k == 4 ==>
      ContOctets(w, k) == [0x80 + Shift6(w, 3) % 64, 0x80 + Shift6(w, 2) % 64, 0x80 + Shift6(w, 1) % 64,
                           0x80 + Shift6(w, 0) % 64]
    ensures k == 5 ==>
      ContOctets(w, k) == [0x80 + Shift6(w, 4) % 64, 0x80 + Shift6(w, 3) % 64, 0x80 + Shift6(w, 2) % 64,
                           0x80 + Shift6(w, 1) % 64, 0x80 + Shift6(w, 0) % 64]
  {
    hide Shift6, ContOctets;
    forall j: nat | j < k
      ensures ContOctets(w, k)[j] == 0x80 + Shift6(w, k - 1 - j) % 64
    {
      ContOctetAt(w, k, j);
    }
  }

  lemma Shift6Is(c: nat)
    ensures Shift6(c, 0) == c && Shift6(c, 1) == c / 0x40 && Shift6(c, 2) == c / 0x1000
    ensures Shift6(c, 3) == c / 0x4_0000 && Shift6(c, 4) == c / 0x100_0000 && Shift6(c, 5) == c / 0x4000_0000
  {
    hide Shift6;
    Shift6Step(c, 0);
    Shift6Step(c, 1);
    Shift6Step(c, 2);
    Shift6Step(c, 3);
    Shift6Step(c, 4);
    Shift6Zero(c);
  }

  lemma Shift6Zero(c: nat)
    ensures Shift6(c, 0) == c
  {
  }

  /** A character cut short at the end of the input is not decoded. */
  lemma DecodeCutChar(c: Wchar, n: nat)
    requires n < |EncodeChar(c)|
    ensures DecodeChar(EncodeChar(c)[..n]) == None
  {
    LeadFits(c);
  }

  /** A character never overflows 31 bits. */
  lemma DecodedSmall(lead: byte, octets: seq<byte>)
    requires !InvalidLeadingOctet(lead) && |octets| == ContOctetCount(lead)
    ensures var r := DecodeConts(lead % LEAD_SPAN[|octets|], octets); r.Some? ==> r.value < 0x8000_0000
  {
    hide DecodeConts;
    var acc := lead % LEAD_SPAN[|octets|];
    if DecodeConts(acc, octets).Some? {
      DecodedConts(acc, octets);
      DecodedRange(DecodeConts(acc, octets).value, |octets|);
    }
  }

  /** The five-octet forms of characters for which four octets suffice. The decoder takes those from 0x110000 on. */
  predicate OverLong(lead: byte, next: byte) { lead == 0xf8 && next < 0x88 }

  /** Re-encoding a decoded character gives its octets back exactly if they are not an over-long form. */
  lemma EncodeDecodedChar(octets: seq<byte>)
    requires DecodeChar(octets).Some?
    ensures var (c, n) := DecodeChar(octets).value;
      && (EncodeChar(c) == octets[..n] <==> !(1 < n && OverLong(octets[0], octets[1])))
      && (1 < n && OverLong(octets[0], octets[1]) ==> |EncodeChar(c)| == n - 1)
  {
    hide ContOctets, Shift6, DecodeConts;
    var (c, n) := DecodeChar(octets).value;
    var lead := octets[0] % LEAD_SPAN[n - 1];
    DecodedConts(lead, octets[1..n]);
    DecodedRange(c, n - 1);
    if n == 5 { SmallFiveOctets(octets, c); }
    if !(n == 5 && c < 0x20_0000) {
      assert ContOctetOutCount(c) == n - 1;
      assert octets[0] == LEAD_MODIFIER[n - 1] + lead;
      assert octets[..n] == [octets[0]] + octets[1..n];
    }
  }

  /** A five-octet form is over-long exactly when its first two octets say so. */
  lemma SmallFiveOctets(octets: seq<byte>, c: Wchar)
    requires DecodeChar(octets) == Some((c, 5))
    ensures c < 0x20_0000 <==> OverLong(octets[0], octets[1])
  {
    hide ContOctets, DecodeConts;
    DecodedConts(octets[0] % 4, octets[1..5]);
    ContOctetAt(c, 4, 0);
    Shift6Step(c, 3);
    DecodedRange(c, 3);
  }

  lemma {:induction false} Shift6Step(word: nat, k: nat)
    ensures Shift6(word, k + 1) == Shift6(word, k) / 64
  {
    if k > 0 { Shift6Step(word / 64, k - 1); }
  }

  /** The decoder takes the five-octet form of 0x110000, and the encoder writes four octets for it. */
  lemma OverLongIsTaken()
    ensures var octets: seq<byte> := [0xf8, 0x84, 0x90, 0x80, 0x80];
      && DecodeChar(octets) == Some((0x11_0000, 5)) && EncodeChar(0x11_0000) != octets
      && OverLong(octets[0], octets[1])
  {
    var conts: seq<byte> := [0x84, 0x90, 0x80, 0x80];
    assert conts[1..] == [0x90, 0x80, 0x80] && conts[1..][1..] == [0x80, 0x80];
    assert DecodeConts(0x110, [0x80, 0x80]) == DecodeConts(0x4400, [0x80]) == Some(0x11_0000) by {
      assert [0x80, 0x80][1..] == [0x80] && [0x80][1..] == [];
    }
    assert DecodeConts(4, [0x90, 0x80, 0x80]) == DecodeConts(0x110, [0x80, 0x80]) by {
      assert [0x90, 0x80, 0x80][1..] == [0x80, 0x80];
    }
    assert DecodeConts(0, conts) == Some(0x11_0000);
    var octets: seq<byte> := [0xf8, 0x84, 0x90, 0x80, 0x80];
    assert octets[1..5] == conts;
  }

  /** What DecodeConts accepts is what ContOctets writes. */
  lemma {:induction false} DecodedConts(acc: nat, octets: seq<byte>)
    requires DecodeConts(acc, octets).Some?
    ensures var word := DecodeConts(acc, octets).value;
      ContOctets(word, |octets|) == octets && Shift6(word, |octets|) == acc
    decreases |octets|
  {
    if octets != [] {
      DecodeContsInit(acc, octets);
      var init, last := octets[..|octets| - 1], octets[|octets| - 1];
      DecodedConts(acc, init);
      DecodeContsAppend(acc, init, last);
      assert init + [last] == octets;
    }
  }

  lemma {:induction false} DecodedRange(word: nat, k: nat)
    requires k <= 5
    ensures Span(k) * Shift6(word, k) <= word < Span(k) * (Shift6(word, k) + 1)
  {
    if k > 0 { DecodedRange(word / 64, k - 1); }
  }

  /** 64 to the `k`, for the five lengths there are. */
  function Span(k: nat): (s: nat)
    requires k <= 5
  {
    if k == 0 then 1 else if k == 1 then 64 else if k == 2 then 4096 else if k == 3 then 0x4_0000
    else if k == 4 then 0x100_0000 else 0x4000_0000
  }

  lemma {:induction false} DecodeContsInit(acc: nat, octets: seq<byte>)
    requires octets != [] && DecodeConts(acc, octets).Some?
    ensures DecodeConts(acc, octets[..|octets| - 1]).Some? && !InvalidContinuingOctet(octets[|octets| - 1])
    decreases |octets|
  {
    if |octets| > 1 {
      DecodeContsInit(acc * 64 + octets[0] % 64, octets[1..]);
      assert octets[1..][..|octets| - 2] == octets[..|octets| - 1][1..];
    }
  }

  // ---- strings ----

  /** Decoding the first `n` octets of an encoded string gives exactly the characters that fit in them. */
  lemma {:induction false} DecodePrefix(ucs: seq<Wchar>, n: nat)
    requires n <= |Encode(ucs)|
    ensures Decode(Encode(ucs)[..n]) == ucs[..FitCount(ucs, n)]
  {
    if ucs != [] {
      var first, rest := EncodeChar(ucs[0]), Encode(ucs[1..]);
      if n < |first| {
        assert Encode(ucs)[..n] == first[..n];
        DecodeCutChar(ucs[0], n);
      } else {
        var m := n - |first|;
        assert Encode(ucs)[..n] == first + rest[..m];
        DecodeEncodedChar(ucs[0], rest[..m]);
        assert (first + rest[..m])[|first|..] == rest[..m];
        DecodePrefix(ucs[1..], m);
      }
    }
  }

  /** FitCount is the longest prefix whose encoding takes at most `n` octets. */
  lemma {:induction false} FitCountIsLongest(ucs: seq<Wchar>, n: nat, k: nat)
    requires k <= |ucs|
    ensures |Encode(ucs[..k])| <= n <==> k <= FitCount(ucs, n)
  {
    if k > 0 {
      var len := |EncodeChar(ucs[0])|;
      assert ucs[..k][1..] == ucs[1..][..k - 1];
      if len <= n { FitCountIsLongest(ucs[1..], n - len, k - 1); }
    }
  }

  lemma DecodeEncode(ucs: seq<Wchar>)
    ensures Decode(Encode(ucs)) == ucs
  {
    var all := Encode(ucs);
    assert all[..|all|] == all && ucs[..|ucs|] == ucs;
    DecodePrefix(ucs, |all|);
    FitCountIsLongest(ucs, |all|, |ucs|);
  }

  // ---- re-encoding a decoded string ----

  /** How many octets decoding takes before it stops. */
  function Consumed(octets: seq<byte>): (n: nat)
    ensures n <= |octets|
  {
    match DecodeChar(octets)
    case None => 0
    case Some((_, n)) => n + Consumed(octets[n..])
  }

  /** No over-long form begins anywhere in these octets. */
  predicate NoOverLong(octets: seq<byte>)
  {
    forall i | 0 <= i < |octets| - 1 :: !OverLong(octets[i], octets[i + 1])
  }

  lemma {:induction false} ContinuingOctets(acc: nat, octets: seq<byte>)
    requires DecodeConts(acc, octets).Some?
    ensures forall i | 0 <= i < |octets| :: octets[i] < 0xc0
    decreases |octets|
  {
    if octets != [] { ContinuingOctets(acc * 64 + octets[0] % 64, octets[1..]); }
  }

  /** Over-long forms begin where characters do. */
  lemma NoOverLongSplit(octets: seq<byte>, end: nat)
    requires DecodeChar(octets).Some? && DecodeChar(octets).value.1 <= end <= |octets|
    ensures var n := DecodeChar(octets).value.1;
      NoOverLong(octets[..end]) <==> !(1 < n && OverLong(octets[0], octets[1])) && NoOverLong(octets[n..end])
  {
    hide DecodeConts;
    var n := DecodeChar(octets).value.1;
    ContinuingOctets(octets[0] % LEAD_SPAN[n - 1], octets[1..n]);
    assert forall i | 0 < i < n :: octets[i] == octets[1..n][i - 1];
    assert forall i | n <= i < end :: octets[n..end][i - n] == octets[i];
    if NoOverLong(octets[n..end]) && !(1 < n && OverLong(octets[0], octets[1])) {
      forall i | 0 <= i < end - 1
        ensures !OverLong(octets[i], octets[i + 1])
      {
        if i >= n { assert !OverLong(octets[n..end][i - n], octets[n..end][i - n + 1]); }
      }
    }
    if NoOverLong(octets[..end]) {
      assert 1 < n ==> !OverLong(octets[..end][0], octets[..end][1]);
      forall i | 0 <= i < end - n - 1
        ensures !OverLong(octets[n..end][i], octets[n..end][i + 1])
      {
        assert !OverLong(octets[..end][n + i], octets[..end][n + i + 1]);
      }
    }
  }

  /** For every octet string, well formed or not, re-encoding what was decoded gives back the octets taken if and
      only if they hold no over-long form; otherwise the result is shorter. */
  lemma {:induction false} EncodeDecode(octets: seq<byte>)
    ensures var taken := octets[..Consumed(octets)];
      && (Encode(Decode(octets)) == taken <==> NoOverLong(taken))
      && (!NoOverLong(taken) ==> |Encode(Decode(octets))| < |taken|)
      && |Encode(Decode(octets))| <= |taken|
    decreases |octets|
  {
    hide DecodeChar, EncodeChar, OverLong, NoOverLong;
    if DecodeChar(octets).None? {
      NothingOverLong();
    } else {
      var (c, n) := DecodeChar(octets).value;
      var rest, end := octets[n..], Consumed(octets);
      assert end == n + Consumed(rest);
      assert Decode(octets)[0] == c && Decode(octets)[1..] == Decode(rest);
      EncodeDecodedChar(octets);
      EncodeDecode(rest);
      NoOverLongSplit(octets, end);
      SplitTaken(octets, n, end);
      SameParts(EncodeChar(c), Encode(Decode(rest)), octets[..n], rest[..end - n]);
    }
  }

  lemma NothingOverLong()
    ensures NoOverLong([])
  {
  }

  lemma SplitTaken(octets: seq<byte>, n: nat, end: nat)
    requires n <= end <= |octets|
    ensures octets[..end] == octets[..n] + octets[n..][..end - n] && octets[n..end] == octets[n..][..end - n]
  {
  }

  lemma SameParts(a: seq<byte>, b: seq<byte>, c: seq<byte>, d: seq<byte>)
    requires |a| <= |c| && |b| <= |d|
    ensures a + b == c + d <==> a == c && b == d
  {
    if a + b == c + d {
      assert |a| == |c|;
      assert a == (a + b)[..|a|] && c == (c + d)[..|c|];
      assert b == (a + b)[|a|..] && d == (c + d)[|c|..];
    }
  }
}
