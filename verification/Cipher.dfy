/** The block cipher with its cached engine key, and the generator of per-packet keys. The cipher's block
    permutation and the generator's arithmetic belong to foreign libraries and are parameters here. */
module Cipher {
  import opened Bits
  import opened Buffers

  /** A block cipher engine: one permutation of blocks per engine key, and its inverse. */
  datatype Engine = Engine(
    blockSize: nat,
    keyWords: nat,
    enc: (seq<nat>, seq<byte>) -> seq<byte>,
    dec: (seq<nat>, seq<byte>) -> seq<byte>)
  {
    ghost predicate Valid() {
      && 0 < blockSize
      && (forall k, b :: |b| == blockSize ==> |enc(k, b)| == blockSize)
      && (forall k, b :: |b| == blockSize ==> |dec(k, b)| == blockSize)
      && (forall k, b :: |b| == blockSize ==> dec(k, enc(k, b)) == b)
      && (forall k, b :: |b| == blockSize ==> enc(k, dec(k, b)) == b)
    }

    function Apply(encrypting: bool, k: seq<nat>, b: seq<byte>): (r: seq<byte>) {
      if encrypting then enc(k, b) else dec(k, b)
    }
  }

  const WORD: nat := 32

  /** The engine key made of a cipher key: word `i` is `(key >> i) || (key << i)`, a truth value. */
  function ExpandKey(key: nat, words: nat): (k: seq<nat>) {
    seq(words, i requires 0 <= i => if ShiftRight(key, i) != 0 || ShiftLeft(key, i, WORD) != 0 then 1 else 0)
  }

  /** A word of the engine key is clear exactly when the key has no bit from `i` up and none that a shift
      left by `i` keeps. */
  lemma ExpandKeyWord(key: nat, words: nat, i: nat)
    requires i < words && i <= WORD
    ensures |ExpandKey(key, words)| == words
    ensures ExpandKey(key, words)[i] == if key < Pow2(i) && key % Pow2(WORD - i) == 0 then 0 else 1
  {
    ShiftRightZero(key, i);
    ShiftLeftZero(key, i, WORD);
  }

  /** Every block of `bytes` through the engine. */
  function MapBlocks(e: Engine, encrypting: bool, k: seq<nat>, bytes: seq<byte>): (r: seq<byte>)
    requires 0 < e.blockSize
    decreases |bytes|
  {
    if |bytes| < e.blockSize then []
    else e.Apply(encrypting, k, bytes[..e.blockSize]) + MapBlocks(e, encrypting, k, bytes[e.blockSize..])
  }

  function Transformed(e: Engine, encrypting: bool, cipherKey: nat, bytes: seq<byte>): (r: seq<byte>)
    requires 0 < e.blockSize
  {
    MapBlocks(e, encrypting, ExpandKey(cipherKey, e.keyWords), bytes)
  }

  predicate WholeBlocks(n: nat, blockSize: nat) { 0 < blockSize && n % blockSize == 0 }

  lemma {:induction false} MapBlocksLength(e: Engine, encrypting: bool, k: seq<nat>, bytes: seq<byte>)
    requires e.Valid() && WholeBlocks(|bytes|, e.blockSize)
    ensures |MapBlocks(e, encrypting, k, bytes)| == |bytes|
    decreases |bytes|
  {
    if |bytes| >= e.blockSize {
      OneBlockLess(|bytes|, e.blockSize);
      MapBlocksLength(e, encrypting, k, bytes[e.blockSize..]);
    } else {
      NoBlocks(|bytes|, e.blockSize);
    }
  }

  lemma OneBlockLess(n: nat, b: nat)
    requires WholeBlocks(n, b) && n >= b
    ensures WholeBlocks(n - b, b)
  {
    var q := n / b;
    assert n == b * q + n % b;
    assert q >= 1;
    assert n - b == b * (q - 1) + 0;
    DivUnique(n - b, b, q - 1, 0);
  }

  lemma NoBlocks(n: nat, b: nat)
    requires WholeBlocks(n, b) && n < b
    ensures n == 0
  {
    DivUnique(n, b, 0, n);
  }

  /** Deciphering undoes enciphering, and enciphering deciphering, on every whole number of blocks. */
  lemma DecryptUndoesEncrypt(e: Engine, k: seq<nat>, bytes: seq<byte>)
    requires e.Valid() && WholeBlocks(|bytes|, e.blockSize)
    ensures MapBlocks(e, false, k, MapBlocks(e, true, k, bytes)) == bytes
    ensures MapBlocks(e, true, k, MapBlocks(e, false, k, bytes)) == bytes
  {
    OtherWayUndoes(e, true, k, bytes);
    OtherWayUndoes(e, false, k, bytes);
  }

  lemma {:induction false} OtherWayUndoes(e: Engine, encrypting: bool, k: seq<nat>, bytes: seq<byte>)
    requires e.Valid() && WholeBlocks(|bytes|, e.blockSize)
    ensures MapBlocks(e, !encrypting, k, MapBlocks(e, encrypting, k, bytes)) == bytes
    decreases |bytes|
  {
    if |bytes| >= e.blockSize {
      var first, rest := bytes[..e.blockSize], bytes[e.blockSize..];
      OneBlockLess(|bytes|, e.blockSize);
      OtherWayUndoes(e, encrypting, k, rest);
      var c := MapBlocks(e, encrypting, k, bytes);
      assert c[..e.blockSize] == e.Apply(encrypting, k, first);
      assert c[e.blockSize..] == MapBlocks(e, encrypting, k, rest);
    } else {
      NoBlocks(|bytes|, e.blockSize);
    }
  }

  /** Block by block the bytes go through the engine: block `i` of the result is the engine's permutation of
      block `i`, or its inverse, under the key. */
  lemma {:induction false} BlockThroughEngine(e: Engine, encrypting: bool, k: seq<nat>, bytes: seq<byte>, i: nat)
    requires e.Valid() && WholeBlocks(|bytes|, e.blockSize) && i < |bytes| / e.blockSize
    ensures var at := i * e.blockSize;
      && at + e.blockSize <= |bytes| == |MapBlocks(e, encrypting, k, bytes)|
      && MapBlocks(e, encrypting, k, bytes)[at..at + e.blockSize]
           == if encrypting then e.enc(k, bytes[at..at + e.blockSize]) else e.dec(k, bytes[at..at + e.blockSize])
    decreases i
  {
    hide MapBlocks;
    var b := e.blockSize;
    var mapped := MapBlocks(e, encrypting, k, bytes);
    MapBlocksLength(e, encrypting, k, bytes);
    BlockFitsAt(|bytes|, b, i);
    FirstMapped(e, encrypting, k, bytes);
    if i > 0 {
      var rest, at := bytes[b..], (i - 1) * b;
      OneBlockLess(|bytes|, b);
      BlockFitsAt(|rest|, b, i - 1);
      BlockThroughEngine(e, encrypting, k, rest, i - 1);
      SliceAfter(bytes, b, at);
      SliceAfter(mapped, b, at);
    }
  }

  lemma FirstMapped(e: Engine, encrypting: bool, k: seq<nat>, bytes: seq<byte>)
    requires e.Valid() && e.blockSize <= |bytes|
    ensures var mapped, b := MapBlocks(e, encrypting, k, bytes), e.blockSize;
      && b <= |mapped| && mapped[b..] == MapBlocks(e, encrypting, k, bytes[b..])
      && mapped[..b] == if encrypting then e.enc(k, bytes[..b]) else e.dec(k, bytes[..b])
  {
  }

  lemma BlockFitsAt(n: nat, b: nat, i: nat)
    requires WholeBlocks(n, b)
    ensures i < n / b <==> i * b + b <= n
    ensures 0 < i < n / b ==> (i - 1) * b + b == i * b && b <= n && i - 1 < (n - b) / b
  {
    var q := n / b;
    assert n == b * q;
    if i < q {
      MulLess(b, i, q);
      assert i * b == b * i;
      if 0 < i {
        assert b * i == b * (i - 1) + b && b * q == b * (q - 1) + b;
        DivUnique(n - b, b, q - 1, 0);
      }
    } else {
      assert b * i >= b * q;
    }
  }

  lemma SliceAfter(s: seq<byte>, b: nat, at: nat)
    requires b + at + b <= |s|
    ensures s[b..][at..at + b] == s[at + b..at + b + b]
  {
  }

  /** One direction of the cipher: the engine key in use is always the expansion of the last key set. */
  class BlockCipherAlgorithm {
    const engine: Engine
    const encrypting: bool
    var engineKey: seq<nat>
    var prevUpdatedKey: nat

    ghost predicate Valid()
      reads this
    {
      engine.Valid() && engineKey == ExpandKey(prevUpdatedKey, engine.keyWords)
    }

    constructor (engine: Engine, encrypting: bool)
      requires engine.Valid()
      ensures Valid() && this.engine == engine && this.encrypting == encrypting
    {
      this.engine, this.encrypting := engine, encrypting;
      engineKey, prevUpdatedKey := [], 0xFFFF_FFFF;
      new;
      UpdateKey(0);
    }

    predicate Precondition(length: nat)
      requires 0 < engine.blockSize
    {
      length > 0 && length % engine.blockSize == 0
    }

    /** Sets the engine key, unless the key is the one already set. */
    method UpdateKey(cipherKey: nat)
      requires engine.Valid() && (cipherKey == prevUpdatedKey ==> Valid())
      modifies this
      ensures Valid() && prevUpdatedKey == cipherKey
    {
      if cipherKey == prevUpdatedKey { return; }
      var key := [];
      for i := 0 to engine.keyWords
        invariant key == ExpandKey(cipherKey, i)
      {
        key := key + [if ShiftRight(cipherKey, i) != 0 || ShiftLeft(cipherKey, i, WORD) != 0 then 1 else 0];
      }
      engineKey := key;
      prevUpdatedKey := cipherKey;
    }

    /** Runs every block of `block.buffer[first..last]` through the engine, in place. */
    method Process(block: MemoryBlock, first: nat, last: nat)
      requires Valid() && first <= last <= |block.buffer| && WholeBlocks(last - first, engine.blockSize)
      modifies block`buffer
      ensures block.buffer == old(block.buffer[..first])
                + MapBlocks(engine, encrypting, engineKey, old(block.buffer[first..last])) + old(block.buffer[last..])
      ensures |block.buffer| == old(|block.buffer|)
    {
      hide MapBlocks, WholeBlocks;
      ghost var before, done := block.buffer, [];
      MapBlocksLength(engine, encrypting, engineKey, before[first..last]);
      var current := first;
      while current < last
        invariant first <= current <= last && |done| == current - first
        invariant WholeBlocks(last - current, engine.blockSize)
        invariant block.buffer == before[..first] + done + before[current..]
        invariant done + MapBlocks(engine, encrypting, engineKey, before[current..last])
               == MapBlocks(engine, encrypting, engineKey, before[first..last])
      {
        BlockFits(last - current, engine.blockSize);
        FirstBlock(engine, encrypting, engineKey, before, current, last);
        ghost var out := ProcessBlock(block, before, first, done, current);
        Associate(done, out, MapBlocks(engine, encrypting, engineKey, before[current + engine.blockSize..last]));
        done := done + out;
        current := current + engine.blockSize;
      }
      EmptyBlocks(engine, encrypting, engineKey);
      assert before[current..last] == [] && done + [] == done;
    }

    /** One block through the engine, behind those already done. */
    method ProcessBlock(
      block: MemoryBlock, ghost before: seq<byte>, ghost first: nat, ghost done: seq<byte>, current: nat)
      returns (ghost out: seq<byte>)
      requires engine.Valid() && first + |done| == current && current + engine.blockSize <= |before|
      requires block.buffer == before[..first] + done + before[current..]
      modifies block`buffer
      ensures var next := current + engine.blockSize;
        && out == engine.Apply(encrypting, engineKey, before[current..next]) && |out| == engine.blockSize
        && block.buffer == before[..first] + (done + out) + before[next..]
    {
      var next := current + engine.blockSize;
      assert block.buffer[current..next] == before[current..next];
      var result := engine.Apply(encrypting, engineKey, block.buffer[current..next]);
      Replace(before, first, done, current, result);
      block.buffer := block.buffer[..current] + result + block.buffer[next..];
      out := result;
    }
  }

  lemma Associate(a: seq<byte>, b: seq<byte>, c: seq<byte>)
    ensures a + (b + c) == a + b + c
  {
  }

  lemma BlockFits(n: nat, b: nat)
    requires WholeBlocks(n, b) && 0 < n
    ensures 0 < b <= n && WholeBlocks(n - b, b)
  {
    hide WholeBlocks;
    if n < b { NoBlocks(n, b); }
    OneBlockLess(n, b);
  }

  lemma EmptyBlocks(e: Engine, encrypting: bool, k: seq<nat>)
    requires 0 < e.blockSize
    ensures MapBlocks(e, encrypting, k, []) == []
  {
  }

  lemma FirstBlock(e: Engine, encrypting: bool, k: seq<nat>, s: seq<byte>, current: nat, last: nat)
    requires 0 < e.blockSize && current + e.blockSize <= last <= |s|
    ensures var next := current + e.blockSize;
      MapBlocks(e, encrypting, k, s[current..last])
        == e.Apply(encrypting, k, s[current..next]) + MapBlocks(e, encrypting, k, s[next..last])
  {
    assert s[current..last][..e.blockSize] == s[current..current + e.blockSize];
    assert s[current..last][e.blockSize..] == s[current + e.blockSize..last];
  }

  lemma Replace(before: seq<byte>, first: nat, done: seq<byte>, current: nat, out: seq<byte>)
    requires first + |done| == current && current + |out| <= |before|
    ensures var s := before[..first] + done + before[current..];
      s[..current] + out + s[current + |out|..] == before[..first] + (done + out) + before[current + |out|..]
  {
  }

  class BlockCipher {
    const encryptor: BlockCipherAlgorithm
    const decryptor: BlockCipherAlgorithm

    ghost predicate Valid()
      reads encryptor, decryptor
    {
      && encryptor != decryptor && encryptor.engine == decryptor.engine
      && encryptor.encrypting && !decryptor.encrypting && encryptor.Valid() && decryptor.Valid()
    }

    constructor (engine: Engine)
      requires engine.Valid()
      ensures Valid() && encryptor.engine == engine && fresh(encryptor) && fresh(decryptor)
    {
      encryptor := new BlockCipherAlgorithm(engine, true);
      decryptor := new BlockCipherAlgorithm(engine, false);
    }

    /** Refuses an empty range or a broken block and then changes nothing. */
    method Transform(encrypting: bool, block: MemoryBlock, first: nat, last: nat, cipherKey: nat) returns (ok: bool)
      requires Valid() && first <= last <= |block.buffer|
      modifies encryptor, decryptor, block`buffer
      ensures Valid()
      ensures ok <==> first < last && WholeBlocks(last - first, encryptor.engine.blockSize)
      ensures !ok ==> block.buffer == old(block.buffer)
      ensures ok ==> block.buffer == old(block.buffer[..first]) + Transformed(
          encryptor.engine, encrypting, cipherKey, old(block.buffer[first..last])) + old(block.buffer[last..])
      ensures |block.buffer| == old(|block.buffer|)
    {
      var algorithm := if encrypting then encryptor else decryptor;
      ok := algorithm.Precondition(last - first);
      if ok {
        algorithm.UpdateKey(cipherKey);
        algorithm.Process(block, first, last);
      }
    }
  }

  /** Where keys come from: a pseudo-random generator (`dynamic`), or one constant key. */
  datatype KeySource = KeySource(dynamic: bool, seed: nat -> nat, step: nat -> nat, output: nat -> nat)
  {
    ghost predicate Valid() { forall s :: output(s) < 0x1_0000_0000 }

    function Seeded(key: nat): (state: nat) { if dynamic then seed(key) else key }
    function Next(state: nat): (state': nat) { if dynamic then step(state) else state }
    function Key(state: nat): (key: nat) { if dynamic then output(state) else state }
    function DefaultKey(): (key: nat) { if dynamic then 0x1972_0212 else 0x2010_0301 }
  }

  /** `step` applied `n` times. */
  function Iterated(step: nat -> nat, n: nat, x: nat): (r: nat)
    decreases n
  {
    if n == 0 then x else Iterated(step, n - 1, step(x))
  }

  class CipherKeyGenerator {
    const source: KeySource
    var encryptState: nat
    var decryptState: nat

    constructor (source: KeySource)
      ensures this.source == source
      ensures encryptState == decryptState == source.Seeded(source.DefaultKey())
      ensures encryptState == if source.dynamic then source.seed(0x1972_0212) else 0x2010_0301
    {
      this.source := source;
      encryptState, decryptState := source.Seeded(source.DefaultKey()), source.Seeded(source.DefaultKey());
    }

    method SetKeys(encryptKey: nat, decryptKey: nat)
      modifies this
      ensures encryptState == source.Seeded(encryptKey) && decryptState == source.Seeded(decryptKey)
    {
      encryptState, decryptState := source.Seeded(encryptKey), source.Seeded(decryptKey);
    }

    /** Each call advances the generator once. */
    method GetEncryptKey() returns (key: nat)
      modifies this`encryptState
      ensures encryptState == source.Next(old(encryptState)) && key == source.Key(encryptState)
      ensures source.dynamic ==> key == source.output(source.step(old(encryptState)))
    {
      encryptState := source.Next(encryptState);
      key := source.Key(encryptState);
    }

    method GetDecryptKey() returns (key: nat)
      modifies this`decryptState
      ensures decryptState == source.Next(old(decryptState)) && key == source.Key(decryptState)
      ensures source.dynamic ==> key == source.output(source.step(old(decryptState)))
    {
      decryptState := source.Next(decryptState);
      key := source.Key(decryptState);
    }

    method Reset()
      modifies this
      ensures encryptState == decryptState == source.Seeded(source.DefaultKey())
      ensures encryptState == if source.dynamic then source.seed(0x1972_0212) else 0x2010_0301
    {
      encryptState, decryptState := source.Seeded(source.DefaultKey()), source.Seeded(source.DefaultKey());
    }
  }
}
