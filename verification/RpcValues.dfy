/** RPC values on the wire: what the bit streams carry for numbers, strings, containers and calls. */
module RpcValues {
  import opened Bits
  import opened BitStreams
  import opened Wrappers
  import Utf8

  type Wchar = Utf8.Wchar

  /** `bits` on the wire, a `typeWidth`-bit C++ type, carried in a `word`-bit stream word. Strings carry
      their length in `sizeBits` bits; containers carry their size in 16. */
  datatype Type =
    | UInt(bits: nat, typeWidth: nat, word: nat)
    | SInt(bits: nat, typeWidth: nat, word: nat)
    | Str(maxLength: nat, sizeBits: nat)
    | WStr(maxLength: nat, sizeBits: nat)
    | Vec(elem: Type)
    | Dict(key: Type, value: Type)

  /** A dictionary is its entries in iteration order. */
  datatype Value =
    | Num(x: int)
    | Text(bytes: seq<byte>)
    | Wide(chars: seq<Wchar>)
    | List(items: seq<Value>)
    | Assoc(entries: seq<Entry>)

  datatype Entry = Entry(key: Value, value: Value)

  const SIZE_BITS: nat := 16
  const MAX_SIZE: nat := 0xFFFF

  predicate SupportedNumber(bits: nat, typeWidth: nat, word: nat) {
    8 <= typeWidth <= word && 0 < bits <= word && MaskDefined(bits, word)
  }

  predicate SupportedString(maxLength: nat, sizeBits: nat) {
    0 < sizeBits <= 16 && maxLength < Pow2(sizeBits) && maxLength <= 0xFFFF
  }

  predicate Supported(t: Type) {
    match t
    case UInt(bits, typeWidth, word) => SupportedNumber(bits, typeWidth, word)
    case SInt(bits, typeWidth, word) => SupportedNumber(bits, typeWidth, word)
    case Str(maxLength, sizeBits) => SupportedString(maxLength, sizeBits)
    case WStr(maxLength, sizeBits) => SupportedString(maxLength, sizeBits)
    case Vec(elem) => Supported(elem)
    case Dict(key, value) => Supported(key) && Supported(value)
  }

  predicate HasType(v: Value, t: Type)
    decreases v
  {
    match t
    case UInt(_, typeWidth, _) => v.Num? && 0 <= v.x < Pow2(typeWidth)
    case SInt(_, typeWidth, _) => v.Num? && Fits(v.x, typeWidth)
    case Str(_, _) => v.Text?
    case WStr(_, _) => v.Wide?
    case Vec(elem) => v.List? && forall i :: 0 <= i < |v.items| ==> HasType(v.items[i], elem)
    case Dict(key, value) =>
      v.Assoc? && forall i :: 0 <= i < |v.entries| ==>
        HasType(v.entries[i].key, key) && HasType(v.entries[i].value, value)
  }

  // ---- the bits of a value ----

  function Min(a: nat, b: nat): (m: nat) { if a <= b then a else b }

  /** The octets a string field carries: the string cut to `maxLength` bytes. */
  function TextPayload(bytes: seq<byte>, maxLength: nat): (p: seq<byte>)
    ensures |p| <= maxLength
  {
    bytes[..Min(|bytes|, maxLength)]
  }

  /** A wide string is cut to `maxLength` characters, encoded, and cut to `maxLength` octets. */
  function WidePayload(chars: seq<Wchar>, maxLength: nat): (p: seq<byte>)
    ensures |p| <= maxLength
  {
    TextPayload(Utf8.Encode(chars[..Min(|chars|, maxLength)]), maxLength)
  }

  /** Length, padding to a byte boundary, octets. The padding is written for an empty string too. */
  function StringBits(payload: seq<byte>, sizeBits: nat, pos: nat): (bits: seq<bool>)
  {
    ToBits(|payload|, sizeBits) + Zeros(PadBits(pos + sizeBits)) + Unpack(payload)
  }

  /** The unsigned word a number is written as. */
  function Word(x: int, t: Type): (w: nat)
    requires Supported(t) && (t.UInt? || t.SInt?) && HasType(Num(x), t)
    ensures w < Pow2(t.word)
  {
    match t
    case UInt(_, typeWidth, word) => Pow2Monotone(typeWidth, word); x
    case SInt(_, typeWidth, word) => FitsWider(x, typeWidth, word); Unsigned(x, word)
  }

  function Encode(v: Value, t: Type, pos: nat): (bits: seq<bool>)
    requires Supported(t) && HasType(v, t)
    decreases v, 1
  {
    match t
    case UInt(bits, _, _) => ToBits(Word(v.x, t), bits)
    case SInt(bits, _, _) => ToBits(Word(v.x, t), bits)
    case Str(maxLength, sizeBits) => StringBits(TextPayload(v.bytes, maxLength), sizeBits, pos)
    case WStr(maxLength, sizeBits) => StringBits(WidePayload(v.chars, maxLength), sizeBits, pos)
    case Vec(elem) => ToBits(|v.items|, SIZE_BITS) + EncodeItems(v.items, elem, pos + SIZE_BITS)
    case Dict(key, value) =>
      ToBits(|v.entries|, SIZE_BITS) + EncodeEntries(v.entries, key, value, pos + SIZE_BITS)
  }

  function EncodeItems(items: seq<Value>, elem: Type, pos: nat): (bits: seq<bool>)
    requires Supported(elem) && forall i :: 0 <= i < |items| ==> HasType(items[i], elem)
    decreases items, 0
  {
    if items == [] then []
    else
      var first := Encode(items[0], elem, pos);
      first + EncodeItems(items[1..], elem, pos + |first|)
  }

  function EncodeEntry(e: Entry, key: Type, value: Type, pos: nat): (bits: seq<bool>)
    requires Supported(key) && Supported(value) && HasType(e.key, key) && HasType(e.value, value)
    decreases e, 0
  {
    var k := Encode(e.key, key, pos);
    k + Encode(e.value, value, pos + |k|)
  }

  function EncodeEntries(entries: seq<Entry>, key: Type, value: Type, pos: nat): (bits: seq<bool>)
    requires Supported(key) && Supported(value)
    requires forall i :: 0 <= i < |entries| ==> HasType(entries[i].key, key) && HasType(entries[i].value, value)
    decreases entries, 0
  {
    if entries == [] then []
    else
      var first := EncodeEntry(entries[0], key, value, pos);
      first + EncodeEntries(entries[1..], key, value, pos + |first|)
  }

  /** Containers of more than 65535 elements are refused. */
  predicate Encodable(v: Value)
    decreases v
  {
    match v
    case List(items) => |items| <= MAX_SIZE && forall i :: 0 <= i < |items| ==> Encodable(items[i])
    case Assoc(entries) =>
      |entries| <= MAX_SIZE && forall i :: 0 <= i < |entries| ==>
        Encodable(entries[i].key) && Encodable(entries[i].value)
    case _ => true
  }

  // ---- reading a value ----

  /** The bytes of a whole number of octets of bits. */
  function Pack(bits: seq<bool>): (bytes: seq<byte>)
    ensures |bytes| == |bits| / 8
  {
    if |bits| < 8 then []
    else
      PackedByte(bits[..8]);
      [FromBits(bits[..8])] + Pack(bits[8..])
  }

  /** The octets of a string field and the bits it takes. An empty string leaves the reader unaligned. */
  function DecodeString(sizeBits: nat, bits: seq<bool>, used: nat): (r: Option<(seq<byte>, nat)>)
    ensures r.Some? ==> r.value.1 <= |bits|
  {
    if |bits| < sizeBits then None
    else
      var len := FromBits(bits[..sizeBits]);
      var start := sizeBits + PadBits(used + sizeBits);
      if len == 0 then Some(([], sizeBits))
      else if start + 8 * len > |bits| then None
      else Some((Pack(bits[start..start + 8 * len]), start + 8 * len))
  }

  function DecodeNumber(t: Type, bits: seq<bool>): (r: Option<(Value, nat)>)
    requires Supported(t) && (t.UInt? || t.SInt?)
    ensures r.Some? ==> r.value.1 <= |bits|
  {
    if |bits| < t.bits then None
    else if t.UInt? then Some((Num(Low(FromBits(bits[..t.bits]), t.typeWidth)), t.bits))
    else Some((Num(SignedBits(bits[..t.bits], t.typeWidth)), t.bits))
  }

  function Decode(t: Type, bits: seq<bool>, used: nat): (r: Option<(Value, nat)>)
    requires Supported(t)
    ensures r.Some? ==> r.value.1 <= |bits|
    decreases t, 0
  {
    match t
    case UInt(_, _, _) => DecodeNumber(t, bits)
    case SInt(_, _, _) => DecodeNumber(t, bits)
    case Str(maxLength, sizeBits) =>
      (match DecodeString(sizeBits, bits, used)
       case None => None
       case Some((octets, n)) => Some((Text(TextPayload(octets, maxLength)), n)))
    case WStr(maxLength, sizeBits) =>
      (match DecodeString(sizeBits, bits, used)
       case None => None
       case Some((octets, n)) =>
         var chars := Utf8.Decode(octets);
         Some((Wide(chars[..Min(|chars|, maxLength)]), n)))
    case Vec(elem) =>
      if |bits| < SIZE_BITS then None
      else
        (match DecodeItems(elem, FromBits(bits[..SIZE_BITS]), bits[SIZE_BITS..], Phase(used + SIZE_BITS))
         case None => None
         case Some((items, n)) => Some((List(items), SIZE_BITS + n)))
    case Dict(key, value) =>
      if |bits| < SIZE_BITS then None
      else
        (match DecodeEntries(key, value, FromBits(bits[..SIZE_BITS]), bits[SIZE_BITS..], Phase(used + SIZE_BITS))
         case None => None
         case Some((entries, n)) => Some((Assoc(InsertAll([], entries)), SIZE_BITS + n)))
  }

  function DecodeItems(elem: Type, count: nat, bits: seq<bool>, used: nat): (r: Option<(seq<Value>, nat)>)
    requires Supported(elem)
    ensures r.Some? ==> r.value.1 <= |bits|
    decreases elem, count + 1
  {
    if count == 0 then Some(([], 0))
    else
      match Decode(elem, bits, used)
      case None => None
      case Some((item, n)) =>
        match DecodeItems(elem, count - 1, bits[n..], Phase(used + n))
        case None => None
        case Some((items, m)) => Some(([item] + items, n + m))
  }

  function DecodeEntry(key: Type, value: Type, bits: seq<bool>, used: nat): (r: Option<(Entry, nat)>)
    requires Supported(key) && Supported(value)
    ensures r.Some? ==> r.value.1 <= |bits|
    decreases Dict(key, value), 0, 0
  {
    match Decode(key, bits, used)
    case None => None
    case Some((k, n)) =>
      match Decode(value, bits[n..], Phase(used + n))
      case None => None
      case Some((x, m)) => Some((Entry(k, x), n + m))
  }

  function DecodeEntries(key: Type, value: Type, count: nat, bits: seq<bool>, used: nat)
    : (r: Option<(seq<Entry>, nat)>)
    requires Supported(key) && Supported(value)
    ensures r.Some? ==> r.value.1 <= |bits|
    decreases Dict(key, value), 0, count + 1
  {
    if count == 0 then Some(([], 0))
    else
      match DecodeEntry(key, value, bits, used)
      case None => None
      case Some((e, n)) =>
        match DecodeEntries(key, value, count - 1, bits[n..], Phase(used + n))
        case None => None
        case Some((es, m)) => Some(([e] + es, n + m))
  }

  /** The map's `insert`: an entry whose key is already there is dropped. */
  function Insert(entries: seq<Entry>, e: Entry): (r: seq<Entry>) {
    if exists i :: 0 <= i < |entries| && entries[i].key == e.key then entries else entries + [e]
  }

  function InsertAll(entries: seq<Entry>, more: seq<Entry>): (r: seq<Entry>)
    decreases |more|
  {
    if more == [] then entries else InsertAll(Insert(entries, more[0]), more[1..])
  }

  lemma PackedByte(bits: seq<bool>)
    requires |bits| == 8
    ensures FromBits(bits) < 256
  {
    ToFromBits(bits);
    Pow2Known();
  }

  lemma FitsWider(x: int, n: nat, w: nat)
    requires Fits(x, n) && n <= w
    ensures Fits(x, w)
  {
    Pow2Monotone(n - 1, w - 1);
  }

  // ---- calls ----

  /** A remote call: the identifier of the procedure and its arguments. */
  datatype Call = Call(id: nat, args: seq<Value>)

  predicate SupportedAll(types: seq<Type>) { forall i :: 0 <= i < |types| ==> Supported(types[i]) }

  predicate HaveTypes(args: seq<Value>, types: seq<Type>) {
    |args| == |types| && forall i :: 0 <= i < |args| ==> HasType(args[i], types[i])
  }

  /** The parameter types registered for each procedure. */
  type Registry = map<nat, seq<Type>>

  predicate ValidRegistry(registry: Registry) { forall id :: id in registry ==> SupportedAll(registry[id]) }

  predicate Registered(call: Call, registry: Registry) {
    && call.id < 0x1_0000_0000
    && call.id in registry
    && HaveTypes(call.args, registry[call.id])
  }

  function EncodeArgs(args: seq<Value>, types: seq<Type>, pos: nat): (bits: seq<bool>)
    requires SupportedAll(types) && HaveTypes(args, types)
    decreases |args|
  {
    if args == [] then []
    else
      var first := Encode(args[0], types[0], pos);
      first + EncodeArgs(args[1..], types[1..], pos + |first|)
  }

  function CallBody(call: Call, registry: Registry, pos: nat): (bits: seq<bool>)
    requires ValidRegistry(registry) && Registered(call, registry)
  {
    ToBits(call.id, 32) + EncodeArgs(call.args, registry[call.id], pos + 32)
  }

  /** Identifier, arguments, and padding to a byte boundary. */
  function EncodeCall(call: Call, registry: Registry, pos: nat): (bits: seq<bool>)
    requires ValidRegistry(registry) && Registered(call, registry)
    ensures (pos + |bits|) % 8 == 0
  {
    var body := CallBody(call, registry, pos);
    body + Zeros(PadBits(pos + |body|))
  }

  function EncodeCalls(calls: seq<Call>, registry: Registry, pos: nat): (bits: seq<bool>)
    requires ValidRegistry(registry) && forall i :: 0 <= i < |calls| ==> Registered(calls[i], registry)
    decreases |calls|
  {
    if calls == [] then []
    else
      var first := EncodeCall(calls[0], registry, pos);
      first + EncodeCalls(calls[1..], registry, pos + |first|)
  }

  function DecodeArgs(types: seq<Type>, bits: seq<bool>, used: nat): (r: Option<(seq<Value>, nat)>)
    requires SupportedAll(types)
    ensures r.Some? ==> r.value.1 <= |bits|
    decreases |types|
  {
    if types == [] then Some(([], 0))
    else
      match Decode(types[0], bits, used)
      case None => None
      case Some((v, n)) =>
        match DecodeArgs(types[1..], bits[n..], Phase(used + n))
        case None => None
        case Some((vs, m)) => Some(([v] + vs, n + m))
  }

  /** Reads one call and aligns; none for an unknown identifier or a malformed argument. */
  function DecodeCall(registry: Registry, bits: seq<bool>, used: nat): (r: Option<(Call, nat)>)
    requires ValidRegistry(registry)
    ensures r.Some? ==> r.value.1 <= |bits|
  {
    if |bits| < 32 || FromBits(bits[..32]) !in registry then None
    else
      var id := FromBits(bits[..32]);
      match DecodeArgs(registry[id], bits[32..], Phase(used + 32))
      case None => None
      case Some((args, n)) => Some((Call(id, args), Min(|bits|, 32 + n + PadBits(Phase(used + 32 + n)))))
  }

  function DecodeCalls(registry: Registry, count: nat, bits: seq<bool>, used: nat): (r: Option<(seq<Call>, nat)>)
    requires ValidRegistry(registry)
    ensures r.Some? ==> r.value.1 <= |bits|
    decreases count
  {
    if count == 0 then Some(([], 0))
    else
      match DecodeCall(registry, bits, used)
      case None => None
      case Some((c, n)) =>
        match DecodeCalls(registry, count - 1, bits[n..], Phase(used + n))
        case None => None
        case Some((cs, m)) => Some(([c] + cs, n + m))
  }
}
