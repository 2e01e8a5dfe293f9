/** Whole runs of field writes and aligns, and reading them back. */
module BitFields {
  import opened Bits
  import opened Buffers
  import opened BitStreams

  /** One write to a stream of 32-bit words: the low bits of a value, or padding to the byte boundary. */
  datatype Field = Put(value: nat, bitCount: nat) | Pad
  {
    predicate Valid() { Put? ==> value < Pow2(32) && 0 < bitCount <= 32 }
  }

  predicate AllValid(fields: seq<Field>) { forall i | 0 <= i < |fields| :: fields[i].Valid() }

  /** The bits of one field at a bit position: low-order bits first, or zeros for padding. */
  function Chunk(f: Field, position: nat): (bits: seq<bool>)
  {
    match f
    case Put(value, bitCount) => ToBits(value, bitCount)
    case Pad => Zeros(PadBits(position))
  }

  /** The bits of a run. */
  function FieldBits(fields: seq<Field>): (bits: seq<bool>)
  {
    if fields == [] then []
    else
      var before := FieldBits(fields[..|fields| - 1]);
      before + Chunk(fields[|fields| - 1], |before|)
  }

  /** What a reader of the same widths should see. */
  function Values(fields: seq<Field>): (r: seq<nat>)
  {
    if fields == [] then []
    else
      var before, last := Values(fields[..|fields| - 1]), fields[|fields| - 1];
      if last.Put? then before + [last.value % Pow2(last.bitCount)] else before
  }

  /** In every run from an empty buffer the buffer holds exactly the bits of the run, zero bits after them in the
      last byte; the total is their number and the size its ceiling in bytes. */
  method WriteFields(fields: seq<Field>) returns (buffer: StreamBuffer, ghost ostream: OBitStream)
    requires AllValid(fields)
    ensures fresh(buffer) && ostream.buffer == buffer && ostream.Valid() && !ostream.Stale()
    ensures ostream.Bits() == FieldBits(fields) && ostream.totalBitCount == |FieldBits(fields)|
    ensures |buffer.items| == ToBytes(|FieldBits(fields)|)
    ensures Unpack(buffer.items) == FieldBits(fields) + Zeros(PadBits(|FieldBits(fields)|))
  {
    hide Held, Clean, ToBits, Pow2, Zeros, PadBits, Unpack, ToBytes;
    buffer := new StreamBuffer([]);
    var stream := new OBitStream(buffer);
    assert Unpack([]) == [];
    for i := 0 to |fields|
      invariant fresh(buffer) && fresh(stream) && stream.buffer == buffer && stream.Valid() && !stream.Stale()
      invariant stream.Bits() == FieldBits(fields[..i]) && stream.totalBitCount == |FieldBits(fields[..i])|
    {
      assert fields[..i + 1][..i] == fields[..i];
      assert fields[i].Valid();
      var ok: bool;
      match fields[i]
      case Put(value, bitCount) => ok := stream.WriteBits(value, bitCount, 32);
      case Pad => ok := stream.Align();
    }
    assert fields[..|fields|] == fields;
    ostream := stream;
    PaddedBuffer(buffer.items, stream.holdingBitCount, FieldBits(fields));
  }

  lemma PaddedBuffer(items: seq<byte>, held: nat, bits: seq<bool>)
    requires held < 8 && Clean(items, held) && bits == Held(items, held) && |bits| % 8 == held
    ensures Unpack(items) == bits + Zeros(PadBits(|bits|))
  {
    hide ToBits;
  }

  lemma {:induction false} FieldBitsPrefix(fields: seq<Field>, i: nat)
    requires i <= |fields|
    ensures FieldBits(fields[..i]) <= FieldBits(fields)
  {
    if i < |fields| {
      FieldBitsPrefix(fields[..|fields| - 1], i);
      assert fields[..|fields| - 1][..i] == fields[..i];
    } else {
      assert fields[..i] == fields;
    }
  }

  lemma {:induction false} FieldBitsNext(fields: seq<Field>, i: nat)
    requires i < |fields|
    ensures FieldBits(fields[..i + 1]) == FieldBits(fields[..i]) + Chunk(fields[i], |FieldBits(fields[..i])|)
  {
    assert fields[..i + 1][..i] == fields[..i];
  }

  /** `chunk` is what a reader finds at `before` in all the bits. */
  predicate Follows(before: seq<bool>, chunk: seq<bool>, all: seq<bool>)
  {
    && before + chunk <= all
    && all[|before|..][..|chunk|] == chunk && all[|before|..][|chunk|..] == all[|before| + |chunk|..]
  }

  lemma Slices(before: seq<bool>, chunk: seq<bool>, written: seq<bool>, rest: seq<bool>)
    requires before + chunk <= written
    ensures Follows(before, chunk, written + rest)
  {
    var all, next := written + rest, before + chunk;
    assert all[..|next|] == written[..|next|] == next;
    assert all[|before|..][..|chunk|] == next[|before|..];
  }

  /** The bits at a reader that has come past the first `i` fields. */
  lemma {:induction false} NextField(fields: seq<Field>, i: nat, rest: seq<bool>)
    requires i < |fields|
    ensures var before := FieldBits(fields[..i]);
      var chunk := Chunk(fields[i], |before|);
      && FieldBits(fields[..i + 1]) == before + chunk && Follows(before, chunk, FieldBits(fields) + rest)
  {
    FieldBitsPrefix(fields, i + 1);
    FieldBitsNext(fields, i);
    hide FieldBits, Chunk, Follows;
    var before := FieldBits(fields[..i]);
    Slices(before, Chunk(fields[i], |before|), FieldBits(fields), rest);
  }

  lemma PhaseMoves(pos: nat, n: nat)
    ensures Phase(Phase(pos) + n) == Phase(pos + n)
  {
    PhaseAdd(pos, n);
  }

  lemma Aligned(pos: nat)
    ensures Phase(pos + PadBits(pos)) == 0 && PadBits(Phase(pos)) == PadBits(pos)
  {
  }

  /** Every list of fields reads back, each value modulo two to its width, whatever the offsets they fall on. */
  method ExchangeFields(fields: seq<Field>) returns (got: seq<nat>)
    requires AllValid(fields)
    ensures got == Values(fields)
  {
    hide Held, Clean, ToBits, Pow2, Zeros, PadBits, Unpack, ToBytes, FromBits, Phase, FieldBits, Low, IBitStream.Unread;
    var buffer, _ := WriteFields(fields);
    var istream := new IBitStream(buffer);
    ghost var rest := Zeros(PadBits(|FieldBits(fields)|));
    ghost var all := FieldBits(fields) + rest;
    NothingRead(fields, all);
    got := [];
    for i := 0 to |fields|
      invariant fresh(istream) && istream.buffer == buffer && istream.Valid() && got == Values(fields[..i])
      invariant |FieldBits(fields[..i])| <= |all| && istream.Unread() == all[|FieldBits(fields[..i])|..]
      invariant istream.bitReadCount == Phase(|FieldBits(fields[..i])|)
    {
      NextField(fields, i, rest);
      PhaseMoves(|FieldBits(fields[..i])|, |Chunk(fields[i], |FieldBits(fields[..i])|)|);
      assert fields[..i + 1][..i] == fields[..i];
      assert fields[i].Valid();
      match fields[i]
      case Put(value, bitCount) =>
        var r := istream.ReadBits(bitCount, 32);
        FromToBits(value, bitCount);
        LowIsMod(value, bitCount);
        got := got + [r.value];
      case Pad =>
        Aligned(|FieldBits(fields[..i])|);
        istream.Align();
    }
    assert fields[..|fields|] == fields;
  }

  lemma NothingRead(fields: seq<Field>, all: seq<bool>)
    ensures FieldBits(fields[..0]) == [] && all[0..] == all && Phase(0) == 0
  {
  }
}
