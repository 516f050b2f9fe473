/**
 Streaming MD5: a buffered state machine that accepts a message in pieces, against the fold of
 the compression function over the padded message of sections 3.1 and 3.2 of RFC 1321.
 */
module Md5 {
  import opened Md5Transform
  import opened Sizes

  type Byte = b: nat | b < 256

  const BLOCK: nat := 64
  const UINT64: nat := 0x1_0000_0000_0000_0000

  // ---------------------------------------------------------------- the standard

  /** A word of a block, low-order byte first. */
  function WordAt(block: seq<Byte>, i: nat): Word
    requires |block| == BLOCK && i < 16
  {
    AsWord(NumberAt(block, i))
  }

  function AsWord(n: nat): Word
    requires n < UINT32
  {
    n as bv32
  }

  function NumberAt(block: seq<Byte>, i: nat): (r: nat)
    requires |block| == BLOCK && i < 16
    ensures r < UINT32
  {
    var b0: nat, b1: nat, b2: nat, b3: nat := block[4 * i], block[4 * i + 1], block[4 * i + 2], block[4 * i + 3];
    b0 + 256 * b1 + 65536 * b2 + 16777216 * b3
  }

  /** The bytes of a word stand in the block in rising order: writing the word out gives them back. */
  lemma WordBytes(block: seq<Byte>, i: nat)
    requires |block| == BLOCK && i < 16
    ensures Bytes32(NumberAt(block, i)) == block[4 * i..4 * i + 4]
    ensures NumberAt(block, i) % 256 == block[4 * i] && NumberAt(block, i) / 16777216 == block[4 * i + 3]
  {
    var b0, b1, b2, b3 := block[4 * i], block[4 * i + 1], block[4 * i + 2], block[4 * i + 3];
    Digits(b0, b1, b2, b3);
    assert block[4 * i..4 * i + 4] == [b0, b1, b2, b3];
  }

  lemma Digits(b0: Byte, b1: Byte, b2: Byte, b3: Byte)
    ensures var n := b0 + 256 * b1 + 65536 * b2 + 16777216 * b3;
            n % 256 == b0 && n / 256 % 256 == b1 && n / 65536 % 256 == b2 && n / 16777216 == b3
  {
    var n := b0 + 256 * b1 + 65536 * b2 + 16777216 * b3;
    assert n / 256 == b1 + 256 * b2 + 65536 * b3;
    assert n / 65536 == b2 + 256 * b3;
  }

  /** The value of bytes, the first the least significant. */
  ghost function Value(s: seq<Byte>): nat {
    if s == [] then 0 else s[0] + 256 * Value(s[1..])
  }

  lemma ValueCons(b: Byte, t: seq<Byte>)
    ensures Value([b] + t) == b + 256 * Value(t)
  {
    assert ([b] + t)[1..] == t;
  }

  lemma ValueFour(b0: Byte, b1: Byte, b2: Byte, b3: Byte, t: seq<Byte>)
    ensures Value([b0, b1, b2, b3] + t) == b0 + 256 * b1 + 65536 * b2 + 16777216 * b3 + UINT32 * Value(t)
  {
    ValueCons(b3, t);
    ValueCons(b2, [b3] + t);
    ValueCons(b1, [b2] + ([b3] + t));
    ValueCons(b0, [b1] + ([b2] + ([b3] + t)));
    assert [b0, b1, b2, b3] + t == [b0] + ([b1] + ([b2] + ([b3] + t)));
  }

  lemma NumberDigits(n: nat)
    requires n < UINT32
    ensures n % 256 + 256 * (n / 256 % 256) + 65536 * (n / 65536 % 256) + 16777216 * (n / 16777216 % 256) == n
  {
  }

  /** The last eight bytes of the padded message are the bit length modulo 2^64, low-order byte first. */
  lemma LengthValue(n: nat)
    ensures Value(LengthBytes(n)) == 8 * n % UINT64
  {
    var bits := 8 * n % UINT64;
    var low, high := bits % UINT32, bits / UINT32;
    NumberDigits(low);
    NumberDigits(high);
    ValueFour(low % 256, low / 256 % 256, low / 65536 % 256, low / 16777216 % 256, Bytes32(high));
    ValueFour(high % 256, high / 256 % 256, high / 65536 % 256, high / 16777216 % 256, []);
    assert Bytes32(high) + [] == Bytes32(high);
  }

  function Words(block: seq<Byte>): (r: seq<Word>)
    requires |block| == BLOCK
    ensures |r| == 16
  {
    seq(16, i requires 0 <= i < 16 => WordAt(block, i))
  }

  const START: State := State(0x67452301, 0xefcdab89, 0x98badcfe, 0x10325476)

  function Compress(st: State, block: seq<Byte>): State
    requires |block| == BLOCK
  {
    Transform(st, Words(block))
  }

  /** The state after the first k blocks of a message. */
  ghost function Fold(m: seq<Byte>, k: nat): State
    requires BLOCK * k <= |m|
    decreases k
  {
    if k == 0 then START else Compress(Fold(m, k - 1), m[BLOCK * (k - 1)..BLOCK * k])
  }

  /** Four bytes, low-order byte first. */
  function Bytes32(n: nat): (r: seq<Byte>)
    ensures |r| == 4
  {
    [n % 256, n / 256 % 256, n / 65536 % 256, n / 16777216 % 256]
  }

  function Zeros(n: nat): (r: seq<Byte>)
    ensures |r| == n && forall i :: 0 <= i < n ==> r[i] == 0
  {
    seq(n, _ => 0)
  }

  /** How many zero bytes follow the 0x80 byte: as few as bring the length to 56 modulo 64. */
  function ZerosNeeded(n: nat): (z: nat)
    ensures z < BLOCK && (n + 1 + z) % BLOCK == 56
  {
    if n % BLOCK < 56 then 55 - n % BLOCK else 119 - n % BLOCK
  }

  /** The message padded, with the low 64 bits of its bit length. */
  ghost function Padded(m: seq<Byte>): (r: seq<Byte>)
    ensures |r| == |m| + 9 + ZerosNeeded(|m|)
  {
    m + [0x80] + Zeros(ZerosNeeded(|m|)) + LengthBytes(|m|)
  }

  ghost function LengthBytes(n: nat): (r: seq<Byte>)
    ensures |r| == 8
  {
    var bits := 8 * n % UINT64;
    Bytes32(bits % UINT32) + Bytes32(bits / UINT32)
  }

  /** The final state of the message: the digest, as four words. */
  ghost function Digest(m: seq<Byte>): State {
    Fold(Padded(m), |Padded(m)| / BLOCK)
  }

  // ---------------------------------------------------------------- lemmas

  /** Blocks within a prefix are the prefix's own. */
  lemma {:induction false} FoldPrefix(m: seq<Byte>, more: seq<Byte>, k: nat)
    requires BLOCK * k <= |m| && m <= more
    ensures Fold(m, k) == Fold(more, k)
    decreases k
  {
    hide Compress;
    if k > 0 {
      FoldPrefix(m, more, k - 1);
      assert m[BLOCK * (k - 1)..BLOCK * k] == more[BLOCK * (k - 1)..BLOCK * k];
    }
  }

  /** The two counters together count bits modulo 2^64. */
  lemma CountBits(bits0: nat, bits1: nat, len: nat, n: nat)
    requires bits0 < UINT32 && bits1 < UINT32 && len < UINT32 && bits1 * UINT32 + bits0 == 8 * n % UINT64
    ensures var low := (bits0 + 8 * len % UINT32) % UINT32;
            var high := (bits1 + (if low < bits0 then 1 else 0) + len / 0x2000_0000) % UINT32;
            high * UINT32 + low == 8 * (n + len) % UINT64
  {
    var low := (bits0 + 8 * len % UINT32) % UINT32;
    var carry := if low < bits0 then 1 else 0;
    var shifted := 8 * len % UINT32;
    assert 8 * len == (len / 0x2000_0000) * UINT32 + shifted;
    assert bits0 + shifted == carry * UINT32 + low;
    var sum := bits1 + carry + len / 0x2000_0000;
    assert bits1 * UINT32 + bits0 + 8 * len == sum * UINT32 + low;
    ModCarry(sum, low);
    ModAdd(8 * n, 8 * len);
  }

  lemma ModCarry(sum: nat, low: nat)
    requires low < UINT32
    ensures (sum * UINT32 + low) % UINT64 == sum % UINT32 * UINT32 + low
  {
    assert sum == sum / UINT32 * UINT32 + sum % UINT32;
    assert sum * UINT32 + low == sum / UINT32 * UINT64 + (sum % UINT32 * UINT32 + low);
  }

  lemma ModAdd(a: nat, b: nat)
    ensures (a % UINT64 + b) % UINT64 == (a + b) % UINT64
  {
  }

  /** Bytes already in the buffer. */
  lemma Buffered(bits0: nat, bits1: nat, n: nat)
    requires bits0 < UINT32 && bits1 * UINT32 + bits0 == 8 * n % UINT64
    ensures bits0 / 8 % BLOCK == n % BLOCK
  {
    var k := 8 * n / UINT64;
    assert 8 * n == k * UINT64 + bits1 * UINT32 + bits0;
    BitsToBytes(n, k * 0x2000_0000_0000_0000 + bits1 * 0x2000_0000, bits0);
  }

  lemma BitsToBytes(n: nat, q: nat, bits0: nat)
    requires 8 * n == 8 * q + bits0 && q % BLOCK == 0
    ensures bits0 / 8 % BLOCK == n % BLOCK
  {
    assert bits0 / 8 == n - q;
  }

  // ---------------------------------------------------------------- the streaming state

  /** The counters hold the bit length of a message. */
  ghost predicate Counted(bits0: nat, bits1: nat, n: nat) {
    bits0 < UINT32 && bits1 < UINT32 && bits1 * UINT32 + bits0 == 8 * n % UINT64
  }

  /** The chaining state and the buffer stand for a message. */
  ghost predicate Holds(buf: State, block: seq<Byte>, m: seq<Byte>) {
    && |block| == BLOCK && buf == Fold(m, |m| / BLOCK)
    && block[..|m| % BLOCK] == m[|m| / BLOCK * BLOCK..]
  }

  lemma Counts(bits0: nat, bits1: nat, len: nat, n: nat)
    requires len < UINT32 && Counted(bits0, bits1, n)
    ensures var low := (bits0 + 8 * len % UINT32) % UINT32;
            var carried := if low < bits0 then (bits1 + 1) % UINT32 else bits1;
            Counted(low, (carried + len / 0x2000_0000) % UINT32, n + len)
    ensures bits0 / 8 % BLOCK == n % BLOCK
  {
    CountBits(bits0, bits1, len, n);
    Buffered(bits0, bits1, n);
    CarryOnce(bits1, len / 0x2000_0000);
  }

  lemma CarryOnce(a: nat, b: nat)
    ensures ((a + 1) % UINT32 + b) % UINT32 == (a + 1 + b) % UINT32
  {
  }

  lemma FoldNext(m: seq<Byte>, k: nat, buf: State, block: seq<Byte>)
    requires BLOCK * (k + 1) <= |m| && buf == Fold(m, k) && block == m[BLOCK * k..BLOCK * (k + 1)]
    ensures |block| == BLOCK && Compress(buf, block) == Fold(m, k + 1)
  {
    hide Compress;
  }

  /** Topping up a partly filled buffer. */
  lemma Topped(m: seq<Byte>, data: seq<Byte>, block: seq<Byte>, t: nat)
    requires |block| == BLOCK && t == |m| % BLOCK && block[..t] == m[|m| / BLOCK * BLOCK..] && BLOCK - t <= |data|
    ensures var k := |m| / BLOCK;
            && (|m| + BLOCK - t) / BLOCK == k + 1 && (|m| + BLOCK - t) % BLOCK == 0
            && block[..t] + data[..BLOCK - t] == (m + data)[BLOCK * k..BLOCK * (k + 1)]
  {
    var k := |m| / BLOCK;
    assert |m| == BLOCK * k + t;
    Across(m, data, BLOCK * k, BLOCK - t);
  }

  lemma Across(m: seq<Byte>, data: seq<Byte>, from: nat, n: nat)
    requires from <= |m| && n <= |data|
    ensures (m + data)[from..|m| + n] == m[from..] + data[..n]
  {
  }

  lemma Appended(m: seq<Byte>, data: seq<Byte>, block: seq<Byte>, t: nat)
    requires t == |m| % BLOCK && |data| < BLOCK - t && |block| >= t + |data|
    requires block[..t + |data|] == m[|m| / BLOCK * BLOCK..] + data
    ensures |m + data| / BLOCK == |m| / BLOCK && |m + data| % BLOCK == t + |data|
    ensures block[..|m + data| % BLOCK] == (m + data)[|m + data| / BLOCK * BLOCK..]
  {
    var k := |m| / BLOCK;
    assert |m| == BLOCK * k + t;
    assert |m + data| == BLOCK * k + (t + |data|);
    assert (m + data)[BLOCK * k..] == m[BLOCK * k..] + data;
  }

  lemma NextBlock(m: seq<Byte>, data: seq<Byte>, pos: nat)
    requires |data| <= |m| && data == m[|m| - |data|..] && pos + BLOCK <= |data| && (|m| - |data| + pos) % BLOCK == 0
    ensures var k := (|m| - |data| + pos) / BLOCK;
            && data[pos..pos + BLOCK] == m[BLOCK * k..BLOCK * (k + 1)] && BLOCK * (k + 1) <= |m|
            && (|m| - |data| + pos + BLOCK) % BLOCK == 0 && (|m| - |data| + pos + BLOCK) / BLOCK == k + 1
  {
    var start := |m| - |data| + pos;
    assert start == BLOCK * (start / BLOCK);
    assert data[pos..pos + BLOCK] == m[start..start + BLOCK];
  }

  lemma RestHeld(buf: State, block: seq<Byte>, m: seq<Byte>, data: seq<Byte>, pos: nat)
    requires |data| <= |m| && data == m[|m| - |data|..] && pos <= |data| < pos + BLOCK && (|m| - |data| + pos) % BLOCK == 0
    requires buf == Fold(m, (|m| - |data| + pos) / BLOCK) && |block| == BLOCK && block[..|data| - pos] == data[pos..]
    ensures Holds(buf, block, m)
  {
    hide Fold;
    var start, left := |m| - |data| + pos, |data| - pos;
    assert |m| == BLOCK * (start / BLOCK) + left;
    assert m[start..] == data[pos..];
  }

  // ---------------------------------------------------------------- padding

  /** With room for the length in the last block, one block of padding is enough. */
  lemma PaddedOnce(m: seq<Byte>, block: seq<Byte>)
    requires |m| % BLOCK < 56
    requires block == m[|m| / BLOCK * BLOCK..] + [0x80] + Zeros(55 - |m| % BLOCK) + LengthBytes(|m|)
    ensures var k := |m| / BLOCK; |Padded(m)| == BLOCK * (k + 1) && block == Padded(m)[BLOCK * k..BLOCK * (k + 1)]
  {
    hide LengthBytes;
    var k := |m| / BLOCK;
    assert m == m[..BLOCK * k] + m[BLOCK * k..];
    assert Padded(m) == m[..BLOCK * k] + block;
  }

  /** Otherwise the length goes into a block of its own. */
  lemma PaddedTwice(m: seq<Byte>, one: seq<Byte>, two: seq<Byte>)
    requires |m| % BLOCK >= 56
    requires one == m[|m| / BLOCK * BLOCK..] + [0x80] + Zeros(63 - |m| % BLOCK) && two == Zeros(56) + LengthBytes(|m|)
    ensures var k := |m| / BLOCK;
            && |Padded(m)| == BLOCK * (k + 2)
            && one == Padded(m)[BLOCK * k..BLOCK * (k + 1)] && two == Padded(m)[BLOCK * (k + 1)..BLOCK * (k + 2)]
  {
    hide LengthBytes;
    var k := |m| / BLOCK;
    assert m == m[..BLOCK * k] + m[BLOCK * k..];
    assert Zeros(ZerosNeeded(|m|)) == Zeros(63 - |m| % BLOCK) + Zeros(56);
    assert Padded(m) == m[..BLOCK * k] + one + two;
  }

  lemma LengthWritten(bits0: nat, bits1: nat, n: nat)
    requires Counted(bits0, bits1, n)
    ensures LengthBytes(n) == Bytes32(bits0) + Bytes32(bits1)
  {
    hide Bytes32;
  }

  /** `memcpy` into the block buffer. */
  method CopyInto(block: array<Byte>, at: nat, data: seq<Byte>)
    requires at + |data| <= block.Length
    modifies block
    ensures block[..] == old(block[..at]) + data + old(block[at + |data|..])
  {
    for i := 0 to |data|
      invariant block[..] == old(block[..at]) + data[..i] + old(block[at + i..])
    {
      block[at + i] := data[i];
      assert data[..i + 1] == data[..i] + [data[i]];
    }
    assert data[..|data|] == data;
  }

  class Md5State {
    var isInit: bool
    var buf: State
    var bits0: nat
    var bits1: nat
    const block: array<Byte>
    var result: State
    ghost var message: seq<Byte>

    ghost predicate Valid()
      reads this, block
    {
      block.Length == BLOCK && (isInit ==> Counted(bits0, bits1, |message|) && Holds(buf, block[..], message))
    }

    constructor ()
      ensures Valid() && !isInit && fresh(block)
    {
      isInit, buf, bits0, bits1, result, message := false, START, 0, 0, START, [];
      block := new Byte[BLOCK](_ => 0);
    }

    method Init()
      requires block.Length == BLOCK
      modifies this`isInit, this`buf, this`bits0, this`bits1, this`message
      ensures Valid() && isInit && message == []
    {
      isInit, buf, bits0, bits1, message := true, START, 0, 0, [];
    }

    /** Compress the full buffer. */
    method FlushBlock()
      requires block.Length == BLOCK
      modifies this`buf
      ensures buf == Compress(old(buf), block[..])
    {
      hide Transform, Words;
      buf := TransformBlock(buf, Words(block[..]));
    }

    method Update(data: seq<Byte>)
      requires Valid() && isInit && |data| < UINT32
      modifies this`buf, this`bits0, this`bits1, this`message, block
      ensures Valid() && message == old(message) + data
    {
      hide Holds, Counted;
      var t := bits0;
      Counts(bits0, bits1, |data|, |message|);
      bits0 := (t + 8 * |data| % UINT32) % UINT32;
      if bits0 < t {
        bits1 := (bits1 + 1) % UINT32;
      }
      bits1 := (bits1 + |data| / 0x2000_0000) % UINT32;
      Feed(data, t / 8 % BLOCK);
    }

    /** The part of `MD5Update` that moves the data, with some bytes in the buffer already. */
    method Feed(data: seq<Byte>, buffered: nat)
      requires block.Length == BLOCK && Holds(buf, block[..], message) && buffered == |message| % BLOCK
      modifies this`buf, this`message, block
      ensures message == old(message) + data && Holds(buf, block[..], message)
    {
      hide Compress, Fold;
      ghost var m := message + data;
      var pos: nat := 0;
      FoldPrefix(message, m, |message| / BLOCK);
      if buffered != 0 {
        var room: nat := BLOCK - buffered;
        if |data| < room {
          CopyInto(block, buffered, data);
          assert block[..buffered + |data|] == old(block[..buffered]) + data;
          Appended(message, data, block[..], buffered);
          message := m;
          return;
        }
        Topped(message, data, block[..], buffered);
        CopyInto(block, buffered, data[..room]);
        assert block[..] == old(block[..buffered]) + data[..room];
        FoldNext(m, |message| / BLOCK, buf, block[..]);
        FlushBlock();
        pos := room;
      }
      FeedBlocks(data, pos, m);
      message := m;
    }

    /** Whole blocks, then the rest into the buffer. */
    method FeedBlocks(data: seq<Byte>, from: nat, ghost m: seq<Byte>)
      requires block.Length == BLOCK && from <= |data| <= |m| && data == m[|m| - |data|..]
      requires (|m| - |data| + from) % BLOCK == 0 && buf == Fold(m, (|m| - |data| + from) / BLOCK)
      modifies this`buf, block
      ensures Holds(buf, block[..], m)
    {
      hide Compress, Fold, Holds;
      var pos := from;
      ghost var start := |m| - |data|;
      while |data| - pos >= BLOCK
        invariant pos <= |data| && (start + pos) % BLOCK == 0 && buf == Fold(m, (start + pos) / BLOCK)
      {
        LoadBlock(data[pos..pos + BLOCK]);
        NextBlock(m, data, pos);
        FoldNext(m, (start + pos) / BLOCK, buf, block[..]);
        FlushBlock();
        pos := pos + BLOCK;
      }
      CopyInto(block, 0, data[pos..]);
      RestHeld(buf, block[..], m, data, pos);
    }

    /** A whole block goes into the buffer. */
    method LoadBlock(data: seq<Byte>)
      requires block.Length == BLOCK == |data|
      modifies block
      ensures block[..] == data
    {
      CopyInto(block, 0, data);
    }

    method Final() returns (digest: State)
      requires Valid() && isInit
      modifies this`buf, block
      ensures digest == Digest(message)
    {
      hide Counted, Digest, Holds, LengthBytes, Bytes32;
      Counts(bits0, bits1, 0, |message|);
      LengthWritten(bits0, bits1, |message|);
      var count: nat := bits0 / 8 % BLOCK;
      var length := Bytes32(bits0) + Bytes32(bits1);
      if BLOCK - 1 - count < 8 {
        PadTwice(count, length);
      } else {
        PadOnce(count, length);
      }
      digest := buf;
    }

    /** Two lots of padding: the first fills the block, the second holds the length. */
    method PadTwice(count: nat, length: seq<Byte>)
      requires block.Length == BLOCK && Holds(buf, block[..], message)
      requires count == |message| % BLOCK >= 56 && length == LengthBytes(|message|)
      modifies this`buf, block
      ensures buf == Digest(message)
    {
      hide Compress, Fold, Padded, LengthBytes, Zeros;
      ghost var m, k := message, |message| / BLOCK;
      PaddedPrefix(m);
      FoldPrefix(m, Padded(m), k);
      CopyInto(block, count, [0x80] + Zeros(BLOCK - 1 - count));
      assert block[..] == m[k * BLOCK..] + [0x80] + Zeros(63 - count);
      PaddedTwice(m, block[..], Zeros(56) + LengthBytes(|m|));
      FoldNext(Padded(m), k, buf, block[..]);
      FlushBlock();
      CopyInto(block, 0, Zeros(56));
      CopyInto(block, 56, length);
      assert block[..] == Zeros(56) + length;
      FoldNext(Padded(m), k + 1, buf, block[..]);
      FlushBlock();
    }

    method PadOnce(count: nat, length: seq<Byte>)
      requires block.Length == BLOCK && Holds(buf, block[..], message)
      requires count == |message| % BLOCK < 56 && length == LengthBytes(|message|)
      modifies this`buf, block
      ensures buf == Digest(message)
    {
      hide Compress, Fold, Padded, LengthBytes, Zeros;
      ghost var m, k := message, |message| / BLOCK;
      PaddedPrefix(m);
      FoldPrefix(m, Padded(m), k);
      CopyInto(block, count, [0x80] + Zeros(BLOCK - 1 - count - 8));
      CopyInto(block, 56, length);
      assert block[..] == m[k * BLOCK..] + [0x80] + Zeros(55 - count) + length;
      PaddedOnce(m, block[..]);
      FoldNext(Padded(m), k, buf, block[..]);
      FlushBlock();
    }

    /** `addToMD5`: the first piece after a reset starts a new message. */
    method Add(data: seq<Byte>)
      requires Valid() && |data| < UINT32
      modifies this, block
      ensures Valid() && isInit && result == old(result)
      ensures message == (if old(isInit) then old(message) else []) + data
    {
      hide Holds, Counted;
      if !isInit {
        Init();
      }
      Update(data);
    }

    /** `finishMD5`: with nothing added since, the previous result is returned again. */
    method Finish() returns (digest: State)
      requires Valid()
      modifies this, block
      ensures Valid() && !isInit && result == digest
      ensures digest == if old(isInit) then Digest(old(message)) else old(result)
    {
      if isInit {
        result := Final();
        isInit := false;
      }
      digest := result;
    }
  }

  /** The message that pieces make up. */
  function Concat(pieces: seq<seq<Byte>>): seq<Byte> {
    if pieces == [] then [] else Concat(pieces[..|pieces| - 1]) + pieces[|pieces| - 1]
  }

  /** However a message is cut into pieces, the digest is that of the whole message. */
  method DigestPieces(pieces: seq<seq<Byte>>) returns (digest: State)
    requires 0 < |pieces| && forall i :: 0 <= i < |pieces| ==> |pieces[i]| < UINT32
    ensures digest == Digest(Concat(pieces))
  {
    hide Digest, Holds, Counted;
    var md5 := new Md5State();
    for i := 0 to |pieces|
      invariant fresh(md5) && fresh(md5.block) && md5.Valid() && (i == 0 <==> !md5.isInit)
      invariant i > 0 ==> md5.message == Concat(pieces[..i])
    {
      md5.Add(pieces[i]);
      assert pieces[..i + 1][..i] == pieces[..i];
      assert i == 0 ==> Concat(pieces[..0]) == [];
    }
    assert pieces[..|pieces|] == pieces;
    digest := md5.Finish();
  }

  lemma PaddedPrefix(m: seq<Byte>)
    ensures m <= Padded(m)
  {
    hide LengthBytes;
  }
}
