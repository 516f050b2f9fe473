/**
 The word-at-a-time kernels on packed null bits, against bit-by-bit specifications.
 */
module NullMaskKernels {
  import opened NullBits
  import opened Sizes

  // ---------------------------------------------------------------- bit ranges

  /** The null bit at a position of the packed words. */
  ghost predicate BitAt(a: seq<Word>, p: nat)
    requires p < WORD * |a|
  {
    Bit(a[p / WORD], p % WORD)
  }

  /** Exactly the target range has changed, to the source bits, inverted if asked. */
  ghost predicate Copied(was: seq<Word>, now: seq<Word>, src: seq<Word>, from: nat, to: nat, n: nat, invert: bool)
    requires |was| == |now| && from + n <= WORD * |src| && to + n <= WORD * |now|
  {
    forall p :: 0 <= p < WORD * |now| ==>
      BitAt(now, p) == if to <= p < to + n then BitAt(src, from + p - to) != invert else BitAt(was, p)
  }

  /** Some copied bit is set. */
  ghost predicate AnySet(src: seq<Word>, from: nat, n: nat, invert: bool)
    requires from + n <= WORD * |src|
  {
    exists q :: from <= q < from + n && BitAt(src, q) != invert
  }

  /** Two copies in a row are one copy. */
  lemma CopiedThen(was: seq<Word>, mid: seq<Word>, now: seq<Word>, src: seq<Word>, from: nat, to: nat, m: nat, n: nat, invert: bool)
    requires |was| == |mid| == |now| && from + m + n <= WORD * |src| && to + m + n <= WORD * |now|
    requires Copied(was, mid, src, from, to, m, invert) && Copied(mid, now, src, from + m, to + m, n, invert)
    ensures Copied(was, now, src, from, to, m + n, invert)
  {
    hide BitAt;
    forall p | 0 <= p < WORD * |now|
      ensures BitAt(now, p) == if to <= p < to + (m + n) then BitAt(src, from + p - to) != invert else BitAt(was, p)
    {
      assert BitAt(mid, p) == if to <= p < to + m then BitAt(src, from + p - to) != invert else BitAt(was, p);
    }
  }

  lemma AnySetThen(src: seq<Word>, from: nat, m: nat, n: nat, invert: bool)
    requires from + m + n <= WORD * |src|
    ensures AnySet(src, from, m + n, invert) <==> AnySet(src, from, m, invert) || AnySet(src, from + m, n, invert)
  {
    hide BitAt;
  }

  // ---------------------------------------------------------------- parts of words

  /** A word that holds n bits of another at a position, and nothing else. */
  ghost predicate Carries(x: Word, v: Word, sb: nat, b: nat, n: nat) {
    forall j :: 0 <= j < WORD ==> (Bit(x, j) <==> b <= j < b + n && Bit(v, sb + j - b))
  }

  lemma AlignDown(v: Word, sb: nat, b: nat, n: nat)
    requires b < sb && sb + n <= WORD
    ensures Carries(And(Shr(And(v, Not(High(WORD - (sb + n)))), sb - b), Not(Lower(b))), v, sb, b, n)
  {
    hide And, Not, Shr, Shl, Lower, High, Bit;
    var x := And(Shr(And(v, Not(High(WORD - (sb + n)))), sb - b), Not(Lower(b)));
    forall j | 0 <= j < WORD ensures Bit(x, j) <==> b <= j < b + n && Bit(v, sb + j - b) {
      AlignDownBit(v, sb, b, n, j);
    }
  }

  lemma AlignDownBit(v: Word, sb: nat, b: nat, n: nat, j: nat)
    requires b < sb && sb + n <= WORD && j < WORD
    ensures Bit(And(Shr(And(v, Not(High(WORD - (sb + n)))), sb - b), Not(Lower(b))), j) <==> b <= j < b + n && Bit(v, j + (sb - b))
  {
    hide And, Not, Shr, Shl, Lower, High, Bit;
    var mask, k := Not(High(WORD - (sb + n))), j + (sb - b);
    BitAnd(Shr(And(v, mask), sb - b), Not(Lower(b)), j);
    BitShr(And(v, mask), sb - b, j);
    BitAnd(v, mask, k);
    BitNot(Lower(b), j);
    BitLower(b, j);
    if k < WORD {
      BitNot(High(WORD - (sb + n)), k);
      BitHigh(WORD - (sb + n), k);
    } else if Bit(v, k) {
      BitsInWord(v, k);
    }
  }

  lemma AlignUp(v: Word, sb: nat, b: nat, n: nat)
    requires sb < b && b + n <= WORD
    ensures Carries(And(Shl(And(v, Not(Lower(sb))), b - sb), Not(High(WORD - (b + n)))), v, sb, b, n)
  {
    hide And, Not, Shr, Shl, Lower, High, Bit;
    var mask := Not(High(WORD - (b + n)));
    var x := And(Shl(And(v, Not(Lower(sb))), b - sb), mask);
    forall j | 0 <= j < WORD ensures Bit(x, j) <==> b <= j < b + n && Bit(v, sb + j - b) {
      BitAnd(Shl(And(v, Not(Lower(sb))), b - sb), mask, j);
      BitNot(High(WORD - (b + n)), j);
      BitHigh(WORD - (b + n), j);
      BitShl(And(v, Not(Lower(sb))), b - sb, j);
      if b - sb <= j {
        var k := j - (b - sb);
        BitAnd(v, Not(Lower(sb)), k);
        BitNot(Lower(sb), k);
        BitLower(sb, k);
      }
    }
  }

  lemma AlignSame(v: Word, b: nat, n: nat)
    requires b + n <= WORD
    ensures Carries(And(And(v, Not(Lower(b))), Not(High(WORD - (b + n)))), v, b, b, n)
  {
    hide And, Not, Shr, Shl, Lower, High, Bit;
    var mask := Not(High(WORD - (b + n)));
    var x := And(And(v, Not(Lower(b))), mask);
    forall j | 0 <= j < WORD ensures Bit(x, j) <==> b <= j < b + n && Bit(v, b + j - b) {
      BitAnd(And(v, Not(Lower(b))), mask, j);
      BitNot(High(WORD - (b + n)), j);
      BitHigh(WORD - (b + n), j);
      BitAnd(v, Not(Lower(b)), j);
      BitNot(Lower(b), j);
      BitLower(b, j);
    }
  }

  /** Clearing n bits of a word and or-ing the new ones in. */
  function Merge(w: Word, x: Word, b: nat, n: nat): Word {
    Or(And(w, Not(Shl(Lower(n), b))), x)
  }

  lemma MergeBit(w: Word, x: Word, v: Word, sb: nat, b: nat, n: nat, j: nat)
    requires b + n <= WORD && j < WORD && Carries(x, v, sb, b, n)
    ensures Bit(Merge(w, x, b, n), j) == if b <= j < b + n then Bit(v, sb + j - b) else Bit(w, j)
  {
    hide And, Not, Or, Shr, Shl, Lower, High, Bit;
    BitOr(And(w, Not(Shl(Lower(n), b))), x, j);
    BitAnd(w, Not(Shl(Lower(n), b)), j);
    BitNot(Shl(Lower(n), b), j);
    BitShl(Lower(n), b, j);
    if b <= j {
      BitLower(n, j - b);
    }
  }

  /** What a word carries is zero exactly when none of the carried bits is set. */
  lemma CarriesZero(x: Word, v: Word, sb: nat, b: nat, n: nat)
    requires b + n <= WORD && Carries(x, v, sb, b, n)
    ensures x != 0 <==> exists k :: sb <= k < sb + n && Bit(v, k)
  {
    hide Bit;
    if x == 0 {
      forall k | sb <= k < sb + n ensures !Bit(v, k) {
        ZeroBit(b + (k - sb));
        assert sb + (b + (k - sb)) - b == k;
      }
    } else {
      var j := FindBit(x);
      assert Bit(v, sb + j - b);
    }
  }

  // ---------------------------------------------------------------- copying part of a word

  /** One source word, inverted if asked. */
  function Source(w: Word, invert: bool): Word {
    if invert then Not(w) else w
  }

  lemma SourceBit(w: Word, invert: bool, k: nat)
    requires k < WORD
    ensures Bit(Source(w, invert), k) == (Bit(w, k) != invert)
  {
    hide Bit, Not;
    BitNot(w, k);
  }

  lemma InWord(a: seq<Word>, e: nat, j: nat)
    requires e < |a| && j < WORD
    ensures WORD * e + j < WORD * |a| && BitAt(a, WORD * e + j) == Bit(a[e], j)
  {
    assert (WORD * e + j) / WORD == e && (WORD * e + j) % WORD == j;
  }

  lemma ChunkCopied(was: seq<Word>, src: seq<Word>, se: nat, sb: nat, e: nat, b: nat, n: nat, invert: bool, x: Word)
    requires se < |src| && e < |was| && sb + n <= WORD && b + n <= WORD
    requires Carries(x, Source(src[se], invert), sb, b, n)
    ensures WORD * se + sb + n <= WORD * |src| && WORD * e + b + n <= WORD * |was|
    ensures Copied(was, was[e := Merge(was[e], x, b, n)], src, WORD * se + sb, WORD * e + b, n, invert)
    ensures x != 0 <==> AnySet(src, WORD * se + sb, n, invert)
  {
    hide Bit, Merge, Source, Carries;
    var v := Source(src[se], invert);
    var now := was[e := Merge(was[e], x, b, n)];
    var from, to := WORD * se + sb, WORD * e + b;
    forall p | 0 <= p < WORD * |now|
      ensures BitAt(now, p) == if to <= p < to + n then BitAt(src, from + p - to) != invert else BitAt(was, p)
    {
      if p / WORD == e {
        var j := p % WORD;
        MergeBit(was[e], x, v, sb, b, n, j);
        if b <= j < b + n {
          SourceBit(src[se], invert, sb + j - b);
          InWord(src, se, sb + j - b);
        }
      }
    }
    ChunkAny(src, se, sb, b, n, invert, x);
  }

  lemma ChunkAny(src: seq<Word>, se: nat, sb: nat, b: nat, n: nat, invert: bool, x: Word)
    requires se < |src| && sb + n <= WORD && b + n <= WORD
    requires Carries(x, Source(src[se], invert), sb, b, n)
    ensures WORD * se + sb + n <= WORD * |src|
    ensures x != 0 <==> AnySet(src, WORD * se + sb, n, invert)
  {
    hide Bit, Source, Carries;
    var v, from := Source(src[se], invert), WORD * se + sb;
    CarriesZero(x, v, sb, b, n);
    if x != 0 {
      var k :| sb <= k < sb + n && Bit(v, k);
      SourceBit(src[se], invert, k);
      InWord(src, se, k);
      assert BitAt(src, WORD * se + k) != invert;
    } else {
      forall q | from <= q < from + n ensures BitAt(src, q) == invert {
        var k := q - WORD * se;
        SourceBit(src[se], invert, k);
        InWord(src, se, k);
      }
    }
  }

  // ---------------------------------------------------------------- the kernels

  function Min(a: nat, b: nat): nat { if a <= b then a else b }

  lemma MergeNothing(w: Word, b: nat, n: nat)
    ensures Merge(w, 0, b, n) == And(w, Not(Shl(Lower(n), b)))
  {
    hide And, Shl, Lower, Not;
  }

  /** The part of the source word that the next round copies, aligned with the target word. */
  method ReadEntry(v: Word, sb: nat, b: nat, n: nat) returns (x: Word)
    requires sb + n <= WORD && b + n <= WORD
    ensures Carries(x, v, sb, b, n)
  {
    hide Carries, And, Not, Shr, Shl, Lower, High;
    if b < sb {
      AlignDown(v, sb, b, n);
      x := And(v, Not(High(WORD - (sb + n))));
      x := Shr(x, sb - b);
      x := And(x, Not(Lower(b)));
    } else if b > sb {
      AlignUp(v, sb, b, n);
      x := And(v, Not(Lower(sb)));
      x := Shl(x, b - sb);
      x := And(x, Not(High(WORD - (b + n))));
    } else {
      AlignSame(v, b, n);
      x := And(v, Not(Lower(sb)));
      x := And(x, Not(High(WORD - (b + n))));
    }
  }

  method CopyUnaligned(src: array<Word>, srcOffset: nat, dst: array<Word>, dstOffset: nat, numBits: nat, invert: bool)
    returns (hasNull: bool)
    requires src != dst && srcOffset + numBits <= WORD * src.Length && dstOffset + numBits <= WORD * dst.Length
    modifies dst
    ensures Copied(old(dst[..]), dst[..], src[..], srcOffset, dstOffset, numBits, invert)
    ensures hasNull <==> AnySet(src[..], srcOffset, numBits, invert)
  {
    hide And, Not, Or, Shl, Lower, Bit, BitAt, Copied, AnySet, Carries, Source, Merge;
    NothingCopied(dst[..], src[..], srcOffset, dstOffset, invert);
    var bitPos: nat := 0;
    hasNull := false;
    var srcEntry, srcBit := srcOffset / WORD, srcOffset % WORD;
    var dstEntry, dstBit := dstOffset / WORD, dstOffset % WORD;
    while bitPos < numBits
      invariant bitPos <= numBits && 0 <= srcBit < WORD && 0 <= dstBit < WORD && 0 <= srcEntry && 0 <= dstEntry
      invariant bitPos < numBits ==> WORD * srcEntry + srcBit == srcOffset + bitPos && WORD * dstEntry + dstBit == dstOffset + bitPos
      invariant Copied(old(dst[..]), dst[..], src[..], srcOffset, dstOffset, bitPos, invert)
      invariant hasNull <==> AnySet(src[..], srcOffset, bitPos, invert)
    {
      var entry, bit, n := dstEntry, dstBit, Min(WORD - (if dstBit < srcBit then srcBit else dstBit), numBits - bitPos);
      ghost var was := dst[..];
      ghost var se, sb := srcEntry, srcBit;
      var x := ReadEntry(Source(src[srcEntry], invert), srcBit, dstBit, n);
      if dstBit < srcBit {
        srcEntry, srcBit, dstBit := srcEntry + 1, 0, dstBit + n;
      } else if dstBit > srcBit {
        dstEntry, dstBit, srcBit := dstEntry + 1, 0, srcBit + n;
      } else {
        srcEntry, dstEntry, srcBit, dstBit := srcEntry + 1, dstEntry + 1, 0, 0;
      }
      ChunkCopied(was, src[..], se, sb, entry, bit, n, invert, x);
      AnySetThen(src[..], srcOffset, bitPos, n, invert);
      WriteEntry(dst, entry, x, bit, n);
      if x != 0 {
        hasNull := true;
      }
      CopiedThen(old(dst[..]), was, dst[..], src[..], srcOffset, dstOffset, bitPos, n, invert);
      bitPos := bitPos + n;
    }
  }

  /** The target bits are cleared, then set from the aligned source word. */
  method WriteEntry(dst: array<Word>, entry: nat, x: Word, bit: nat, n: nat)
    requires entry < dst.Length
    modifies dst
    ensures dst[..] == old(dst[..])[entry := Merge(old(dst[entry]), x, bit, n)]
  {
    hide And, Not, Or, Shl, Lower;
    MergeNothing(dst[entry], bit, n);
    dst[entry] := And(dst[entry], Not(Shl(Lower(n), bit)));
    if x != 0 {
      dst[entry] := Or(dst[entry], x);
    }
  }

  lemma NothingCopied(dst: seq<Word>, src: seq<Word>, from: nat, to: nat, invert: bool)
    requires from <= WORD * |src| && to <= WORD * |dst|
    ensures Copied(dst, dst, src, from, to, 0, invert) && !AnySet(src, from, 0, invert) && !AnySet(src, from, 0, false)
  {
  }

  // ---------------------------------------------------------------- single bits

  /** The words with one bit set or cleared. */
  function SetBit(a: seq<Word>, p: nat, isNull: bool): (r: seq<Word>)
    requires p < WORD * |a|
    ensures |r| == |a|
  {
    var w, mask := a[p / WORD], Shl(1, p % WORD);
    a[p / WORD := if isNull then Or(w, mask) else And(w, Not(mask))]
  }

  lemma OneAt(b: nat, j: nat)
    requires b < WORD && j < WORD
    ensures Bit(Shl(1, b), j) <==> j == b
  {
    hide Shl, Bit;
    BitShl(1, b, j);
    if b <= j {
      OneBit(j - b);
    }
  }

  lemma SetBitAt(a: seq<Word>, p: nat, isNull: bool, q: nat)
    requires p < WORD * |a| && q < WORD * |a|
    ensures BitAt(SetBit(a, p, isNull), q) == if q == p then isNull else BitAt(a, q)
  {
    hide Shl, Bit, And, Or, Not;
    if q / WORD == p / WORD {
      var w, mask, j := a[p / WORD], Shl(1, p % WORD), q % WORD;
      OneAt(p % WORD, j);
      BitOr(w, mask, j);
      BitAnd(w, Not(mask), j);
      BitNot(mask, j);
    }
  }

  method SetNull(a: array<Word>, pos: nat, isNull: bool)
    requires pos < UINT32 && pos < WORD * a.Length
    modifies a
    ensures a[..] == SetBit(old(a[..]), pos, isNull)
  {
    hide Shl, And, Or, Not;
    var entryPos := pos / WORD;
    var bitPos := pos - entryPos * WORD;
    if isNull {
      a[entryPos] := Or(a[entryPos], Shl(1, bitPos));
    } else {
      a[entryPos] := And(a[entryPos], Not(Shl(1, bitPos)));
    }
  }

  method IsNull(a: array<Word>, pos: nat) returns (isNull: bool)
    requires pos < UINT32 && pos < WORD * a.Length
    ensures isNull == BitAt(a[..], pos)
  {
    hide Shl, And, Bit;
    var x := And(a[pos / WORD], Shl(1, pos % WORD));
    MaskedBit(a[pos / WORD], pos % WORD);
    return x != 0;
  }

  lemma MaskedBit(w: Word, b: nat)
    requires b < WORD
    ensures And(w, Shl(1, b)) != 0 <==> Bit(w, b)
  {
    hide Shl, And, Bit;
    var x := And(w, Shl(1, b));
    BitAnd(w, Shl(1, b), b);
    OneAt(b, b);
    if x == 0 {
      ZeroBit(b);
    } else {
      var j := FindBit(x);
      BitAnd(w, Shl(1, b), j);
      OneAt(b, j);
    }
  }

  // ---------------------------------------------------------------- copying up to three bits

  /** The short path: bit by bit, with positions truncated to 32 bits on the way. */
  ghost function ShortCopy(dst: seq<Word>, src: seq<Word>, from: nat, to: nat, n: nat, invert: bool): (r: seq<Word>)
    requires from + n <= WORD * |src| && to + n <= WORD * |dst|
    ensures |r| == |dst|
  {
    if n == 0 then dst else
    var before := ShortCopy(dst, src, from, to, n - 1, invert);
    SetBit(before, (to + n - 1) % UINT32, BitAt(src, (from + n - 1) % UINT32) != invert)
  }

  /** What the short path reports: the source bits before any inversion. */
  ghost predicate ShortAny(src: seq<Word>, from: nat, n: nat)
    requires from + n <= WORD * |src|
  {
    n > 0 && (BitAt(src, (from + n - 1) % UINT32) || ShortAny(src, from, n - 1))
  }

  lemma OneCopied(dst: seq<Word>, src: seq<Word>, from: nat, to: nat, invert: bool)
    requires from < WORD * |src| && to < WORD * |dst|
    ensures Copied(dst, SetBit(dst, to, BitAt(src, from) != invert), src, from, to, 1, invert)
    ensures AnySet(src, from, 1, false) <==> BitAt(src, from)
  {
    hide BitAt, SetBit;
    var x := BitAt(src, from) != invert;
    var now := SetBit(dst, to, x);
    forall p | 0 <= p < WORD * |now|
      ensures BitAt(now, p) == if to <= p < to + 1 then BitAt(src, from + p - to) != invert else BitAt(dst, p)
    {
      SetBitAt(dst, to, x, p);
    }
  }

  /** Within 32-bit positions the short path copies the range. */
  lemma {:induction false} ShortCopied(dst: seq<Word>, src: seq<Word>, from: nat, to: nat, n: nat, invert: bool)
    requires from + n <= WORD * |src| && to + n <= WORD * |dst| && from + n <= UINT32 && to + n <= UINT32
    ensures Copied(dst, ShortCopy(dst, src, from, to, n, invert), src, from, to, n, invert)
    ensures ShortAny(src, from, n) <==> AnySet(src, from, n, false)
    decreases n
  {
    hide BitAt, SetBit, Copied, AnySet, ShortCopy, ShortAny;
    ShortStep(dst, src, from, to, n, invert);
    if n == 0 {
      NothingCopied(dst, src, from, to, invert);
    } else {
      var before := ShortCopy(dst, src, from, to, n - 1, invert);
      ShortCopied(dst, src, from, to, n - 1, invert);
      OneCopied(before, src, from + n - 1, to + n - 1, invert);
      CopiedThen(dst, before, ShortCopy(dst, src, from, to, n, invert), src, from, to, n - 1, 1, invert);
      AnySetThen(src, from, n - 1, 1, false);
    }
  }

  lemma ShortStep(dst: seq<Word>, src: seq<Word>, from: nat, to: nat, n: nat, invert: bool)
    requires from + n <= WORD * |src| && to + n <= WORD * |dst| && from + n <= UINT32 && to + n <= UINT32
    ensures n == 0 ==> ShortCopy(dst, src, from, to, n, invert) == dst && !ShortAny(src, from, n)
    ensures n > 0 ==>
              ShortCopy(dst, src, from, to, n, invert) ==
              SetBit(ShortCopy(dst, src, from, to, n - 1, invert), to + n - 1, BitAt(src, from + n - 1) != invert)
    ensures n > 0 ==> ShortAny(src, from, n) == (BitAt(src, from + n - 1) || ShortAny(src, from, n - 1))
  {
    hide BitAt, SetBit;
  }

  /** Beyond them it does not: some words show it at every such pair of positions. */
  lemma ShortCopyTruncates(from: nat, to: nat, n: nat) returns (dst: seq<Word>, src: seq<Word>)
    requires 0 < n && (from + n > UINT32 || to + n > UINT32)
    ensures from + n <= WORD * |src| && to + n <= WORD * |dst|
    ensures !Copied(dst, ShortCopy(dst, src, from, to, n, false), src, from, to, n, false)
  {
    hide SetBit, BitAt, ShortCopy;
    var none := Cleared(from + n);
    dst := Cleared(to + n);
    src := SetBit(none, from + n - 1, true);
    var now := ShortCopy(dst, src, from, to, n, false);
    var last, q := to + n - 1, (from + n - 1) % UINT32;
    SetBitAt(none, from + n - 1, true, from + n - 1);
    ClearedAt(to + n, last);
    if last >= UINT32 {
      ShortCopyBelow(dst, src, from, to, n, last);
    } else {
      SetBitAt(none, from + n - 1, true, q);
      ClearedAt(from + n, q);
      ShortCopyLast(dst, src, from, to, n);
      SetBitAt(ShortCopy(dst, src, from, to, n - 1, false), last, BitAt(src, q), last);
    }
    assert BitAt(now, last) != BitAt(src, from + last - to);
  }

  function Cleared(n: nat): (r: seq<Word>)
    ensures |r| == n
  {
    seq(n, _ => 0)
  }

  lemma ClearedAt(n: nat, p: nat)
    requires p < WORD * n
    ensures !BitAt(Cleared(n), p)
  {
    hide Bit;
    ZeroBit(p % WORD);
  }

  lemma ShortCopyLast(dst: seq<Word>, src: seq<Word>, from: nat, to: nat, n: nat)
    requires 0 < n && from + n <= WORD * |src| && to + n <= WORD * |dst| && to + n - 1 < UINT32
    ensures ShortCopy(dst, src, from, to, n, false) ==
            SetBit(ShortCopy(dst, src, from, to, n - 1, false), to + n - 1, BitAt(src, (from + n - 1) % UINT32))
  {
    hide SetBit, BitAt;
  }

  /** No position from 2^32 on is ever written by the short path. */
  lemma {:induction false} ShortCopyBelow(dst: seq<Word>, src: seq<Word>, from: nat, to: nat, n: nat, p: nat)
    requires from + n <= WORD * |src| && to + n <= WORD * |dst| && UINT32 <= p < WORD * |dst|
    ensures BitAt(ShortCopy(dst, src, from, to, n, false), p) == BitAt(dst, p)
    decreases n
  {
    hide SetBit, BitAt;
    if n > 0 {
      ShortCopyBelow(dst, src, from, to, n - 1, p);
      SetBitAt(ShortCopy(dst, src, from, to, n - 1, false), (to + n - 1) % UINT32, BitAt(src, (from + n - 1) % UINT32) != false, p);
    }
  }

  // ---------------------------------------------------------------- copying bytes

  /** The byte r of a word, moved to the byte t. */
  lemma ByteCarries(v: Word, r: nat, t: nat)
    requires r < 8 && t < 8
    ensures Carries(Shl(And(Shr(v, 8 * r), Lower(8)), 8 * t), v, 8 * r, 8 * t, 8)
  {
    hide And, Shr, Shl, Lower, Bit;
    var x := Shl(And(Shr(v, 8 * r), Lower(8)), 8 * t);
    forall j | 0 <= j < WORD ensures Bit(x, j) <==> 8 * t <= j < 8 * t + 8 && Bit(v, 8 * r + j - 8 * t) {
      ByteBit(v, 8 * r, 8 * t, j);
    }
  }

  lemma ByteBit(v: Word, from: nat, to: nat, j: nat)
    requires j < WORD
    ensures Bit(Shl(And(Shr(v, from), Lower(8)), to), j) <==> to <= j < to + 8 && Bit(v, from + j - to)
  {
    hide And, Shr, Shl, Lower, Bit;
    BitShl(And(Shr(v, from), Lower(8)), to, j);
    if to <= j {
      var k := j - to;
      BitAnd(Shr(v, from), Lower(8), k);
      BitLower(8, k);
      BitShr(v, from, k);
    }
  }

  /** `memcpy` of whole bytes of two word buffers that do not overlap. */
  method CopyBytes(src: array<Word>, srcByte: nat, dst: array<Word>, dstByte: nat, count: nat)
    requires src != dst && 8 * (srcByte + count) <= WORD * src.Length && 8 * (dstByte + count) <= WORD * dst.Length
    modifies dst
    ensures Copied(old(dst[..]), dst[..], src[..], 8 * srcByte, 8 * dstByte, 8 * count, false)
  {
    hide And, Shr, Shl, Lower, Bit, BitAt, Copied, AnySet, Carries, Merge;
    NothingCopied(dst[..], src[..], 8 * srcByte, 8 * dstByte, false);
    for i := 0 to count
      invariant Copied(old(dst[..]), dst[..], src[..], 8 * srcByte, 8 * dstByte, 8 * i, false)
    {
      ghost var was := dst[..];
      var s, t := srcByte + i, dstByte + i;
      var byte := And(Shr(src[s / 8], 8 * (s % 8)), Lower(8));
      var x := Shl(byte, 8 * (t % 8));
      ByteCarries(src[s / 8], s % 8, t % 8);
      ChunkCopied(was, src[..], s / 8, 8 * (s % 8), t / 8, 8 * (t % 8), 8, false, x);
      dst[t / 8] := Merge(dst[t / 8], x, 8 * (t % 8), 8);
      assert dst[..] == was[t / 8 := Merge(was[t / 8], x, 8 * (t % 8), 8)];
      CopiedThen(old(dst[..]), was, dst[..], src[..], 8 * srcByte, 8 * dstByte, 8 * i, 8, false);
    }
  }

  /** Whether some byte is not zero. */
  method AnyByte(src: array<Word>, srcByte: nat, count: nat) returns (any: bool)
    requires 8 * (srcByte + count) <= WORD * src.Length
    ensures any <==> AnySet(src[..], 8 * srcByte, 8 * count, false)
  {
    hide And, Shr, Shl, Lower, Bit, BitAt, AnySet, Carries;
    NothingCopied(src[..], src[..], 8 * srcByte, 8 * srcByte, false);
    any := false;
    for i := 0 to count
      invariant any <==> AnySet(src[..], 8 * srcByte, 8 * i, false)
    {
      var s := srcByte + i;
      var byte := And(Shr(src[s / 8], 8 * (s % 8)), Lower(8));
      ByteCarries(src[s / 8], s % 8, 0);
      ByteAtZero(byte);
      ChunkAny(src[..], s / 8, 8 * (s % 8), 0, 8, false, byte);
      AnySetThen(src[..], 8 * srcByte, 8 * i, 8, false);
      if byte != 0 {
        any := true;
      }
    }
  }

  lemma ByteAtZero(w: Word)
    ensures Shl(w, 8 * 0) == w
  {
  }

  // ---------------------------------------------------------------- copyNullMask

  /** Positions that the short path can address. */
  ghost predicate Addressable(from: nat, to: nat, n: nat) {
    n == 0 || n > 3 || (from + n <= UINT32 && to + n <= UINT32)
  }

  /** The path for up to three bits. */
  method CopyBits(src: array<Word>, srcOffset: nat, dst: array<Word>, dstOffset: nat, numBits: nat, invert: bool)
    returns (anyNull: bool)
    requires src != dst && srcOffset + numBits <= WORD * src.Length && dstOffset + numBits <= WORD * dst.Length
    modifies dst
    ensures dst[..] == ShortCopy(old(dst[..]), src[..], srcOffset, dstOffset, numBits, invert)
    ensures anyNull == ShortAny(src[..], srcOffset, numBits)
  {
    hide BitAt, SetBit;
    anyNull := false;
    for i := 0 to numBits
      invariant dst[..] == ShortCopy(old(dst[..]), src[..], srcOffset, dstOffset, i, invert)
      invariant anyNull == ShortAny(src[..], srcOffset, i)
    {
      var isNull := IsNull(src, (srcOffset + i) % UINT32);
      SetNull(dst, (dstOffset + i) % UINT32, isNull != invert);
      anyNull := anyNull || isNull;
    }
  }

  method CopyNullMask(src: array<Word>, srcOffset: nat, dst: array<Word>, dstOffset: nat, numBits: nat, invert: bool)
    returns (hasNull: bool)
    requires src != dst && srcOffset + numBits <= WORD * src.Length && dstOffset + numBits <= WORD * dst.Length
    modifies dst
    ensures numBits <= 3 ==> dst[..] == ShortCopy(old(dst[..]), src[..], srcOffset, dstOffset, numBits, invert)
    ensures Addressable(srcOffset, dstOffset, numBits) ==>
              && Copied(old(dst[..]), dst[..], src[..], srcOffset, dstOffset, numBits, invert)
              && (hasNull <==> AnySet(src[..], srcOffset, numBits, invert && numBits > 3))
  {
    hide BitAt, Copied, AnySet, ShortCopy, ShortAny;
    if numBits <= 3 {
      hasNull := CopyBits(src, srcOffset, dst, dstOffset, numBits, invert);
      if Addressable(srcOffset, dstOffset, numBits) {
        ShortEnds(old(dst[..]), src[..], srcOffset, dstOffset, numBits, invert);
      }
      return;
    }
    if !invert && srcOffset % 8 == dstOffset % 8 && numBits >= 8 && numBits - srcOffset % 8 >= 8 {
      hasNull := CopyAligned(src, srcOffset, dst, dstOffset, numBits);
    } else {
      hasNull := CopyUnaligned(src, srcOffset, dst, dstOffset, numBits, invert);
    }
  }

  lemma ShortEnds(dst: seq<Word>, src: seq<Word>, from: nat, to: nat, n: nat, invert: bool)
    requires from + n <= WORD * |src| && to + n <= WORD * |dst| && n <= 3 && Addressable(from, to, n)
    ensures Copied(dst, ShortCopy(dst, src, from, to, n, invert), src, from, to, n, invert)
    ensures ShortAny(src, from, n) <==> AnySet(src, from, n, false)
  {
    if n == 0 {
      NothingCopied(dst, src, from, to, invert);
    } else {
      ShortCopied(dst, src, from, to, n, invert);
    }
  }

  lemma WholeBytes(from: nat, to: nat, n: nat, first: nat)
    requires from % 8 == to % 8 && n >= 8 && first == if from != 0 then 8 - from % 8 else 0
    ensures first <= n && 8 * ((from + first) / 8) == from + first && 8 * ((to + first) / 8) == to + first
    ensures first + 8 * ((n - first) / 8) <= n
  {
  }

  /** The path for offsets that are aligned relative to each other: the first bits, whole bytes, the last bits. */
  method CopyAligned(src: array<Word>, srcOffset: nat, dst: array<Word>, dstOffset: nat, numBits: nat)
    returns (hasNull: bool)
    requires src != dst && srcOffset + numBits <= WORD * src.Length && dstOffset + numBits <= WORD * dst.Length
    requires srcOffset % 8 == dstOffset % 8 && numBits >= 8 && numBits - srcOffset % 8 >= 8
    modifies dst
    ensures Copied(old(dst[..]), dst[..], src[..], srcOffset, dstOffset, numBits, false)
    ensures hasNull <==> AnySet(src[..], srcOffset, numBits, false)
  {
    hide BitAt, Copied, AnySet;
    NothingCopied(dst[..], src[..], srcOffset, dstOffset, false);
    var first: nat := if srcOffset != 0 then 8 - srcOffset % 8 else 0;
    hasNull := false;
    if srcOffset != 0 {
      hasNull := CopyUnaligned(src, srcOffset, dst, dstOffset, first, false);
    }
    ghost var one := dst[..];
    var bytes: nat := (numBits - first) / 8;
    var srcByte: nat, dstByte: nat := (srcOffset + first) / 8, (dstOffset + first) / 8;
    WholeBytes(srcOffset, dstOffset, numBits, first);
    CopyBytes(src, srcByte, dst, dstByte, bytes);
    var any := AnyByte(src, srcByte, bytes);
    if any {
      hasNull := true;
    }
    CopiedThen(old(dst[..]), one, dst[..], src[..], srcOffset, dstOffset, first, 8 * bytes, false);
    AnySetThen(src[..], srcOffset, first, 8 * bytes, false);
    ghost var two := dst[..];
    var done := first + 8 * bytes;
    if numBits > done {
      var tail := CopyUnaligned(src, srcOffset + done, dst, dstOffset + done, numBits - done, false);
      CopiedThen(old(dst[..]), two, dst[..], src[..], srcOffset, dstOffset, done, numBits - done, false);
      AnySetThen(src[..], srcOffset, done, numBits - done, false);
      hasNull := tail || hasNull;
    }
  }

  // ---------------------------------------------------------------- setNullRange

  /** Exactly the range has changed, to one value. */
  ghost predicate Filled(was: seq<Word>, now: seq<Word>, from: nat, n: nat, isNull: bool)
    requires |was| == |now| && from + n <= WORD * |now|
  {
    forall p :: 0 <= p < WORD * |now| ==> BitAt(now, p) == if from <= p < from + n then isNull else BitAt(was, p)
  }

  /** Two adjacent ranges filled one after the other, in either order. */
  lemma FilledThen(was: seq<Word>, mid: seq<Word>, now: seq<Word>, from: nat, m: nat, n: nat, isNull: bool)
    requires |was| == |mid| == |now| && from + m + n <= WORD * |now|
    requires || (Filled(was, mid, from, m, isNull) && Filled(mid, now, from + m, n, isNull))
             || (Filled(was, mid, from + m, n, isNull) && Filled(mid, now, from, m, isNull))
    ensures Filled(was, now, from, m + n, isNull)
  {
    hide BitAt;
    forall p | 0 <= p < WORD * |now|
      ensures BitAt(now, p) == if from <= p < from + (m + n) then isNull else BitAt(was, p)
    {
      assert BitAt(mid, p) == if from <= p < from + m || from + m <= p < from + m + n then BitAt(mid, p) else BitAt(was, p);
    }
  }

  /** A word with one range of bits, and nothing else, changed to one value. */
  ghost predicate Filling(w: Word, v: Word, b: nat, n: nat, isNull: bool) {
    forall j :: 0 <= j < WORD ==> Bit(v, j) == if b <= j < b + n then isNull else Bit(w, j)
  }

  lemma WordFilled(was: seq<Word>, e: nat, v: Word, b: nat, n: nat, isNull: bool)
    requires e < |was| && b + n <= WORD && Filling(was[e], v, b, n, isNull)
    ensures WORD * e + b + n <= WORD * |was|
    ensures Filled(was, was[e := v], WORD * e + b, n, isNull)
  {
    hide Bit;
  }

  /** The words that are stored: within one word, from a bit on, up to a bit, and whole. */
  lemma FillWithin(w: Word, b: nat, e: nat, isNull: bool)
    requires b <= e <= WORD
    ensures Filling(w, if isNull then Or(w, And(Not(Lower(b)), Not(High(WORD - e)))) else And(w, Or(Lower(b), High(WORD - e))),
                    b, e - b, isNull)
  {
    hide And, Or, Not, Lower, High, Bit;
    var v := if isNull then Or(w, And(Not(Lower(b)), Not(High(WORD - e)))) else And(w, Or(Lower(b), High(WORD - e)));
    forall j | 0 <= j < WORD ensures Bit(v, j) == if b <= j < b + (e - b) then isNull else Bit(w, j) {
      BitOr(w, And(Not(Lower(b)), Not(High(WORD - e))), j);
      BitAnd(Not(Lower(b)), Not(High(WORD - e)), j);
      BitAnd(w, Or(Lower(b), High(WORD - e)), j);
      BitOr(Lower(b), High(WORD - e), j);
      BitNot(Lower(b), j);
      BitNot(High(WORD - e), j);
      BitLower(b, j);
      BitHigh(WORD - e, j);
    }
  }

  lemma FillFrom(w: Word, b: nat, isNull: bool)
    requires b <= WORD
    ensures Filling(w, if isNull then Or(w, Not(Lower(b))) else And(w, Lower(b)), b, WORD - b, isNull)
  {
    hide And, Or, Not, Lower, Bit;
    forall j | 0 <= j < WORD
      ensures Bit(Or(w, Not(Lower(b))), j) == if b <= j then true else Bit(w, j)
      ensures Bit(And(w, Lower(b)), j) == if b <= j then false else Bit(w, j)
    {
      BitOr(w, Not(Lower(b)), j);
      BitAnd(w, Lower(b), j);
      BitNot(Lower(b), j);
      BitLower(b, j);
    }
  }

  lemma FillUpTo(w: Word, e: nat, isNull: bool)
    requires e <= WORD
    ensures Filling(w, if isNull then Or(w, Lower(e)) else And(w, Not(Lower(e))), 0, e, isNull)
  {
    hide And, Or, Not, Lower, Bit;
    forall j | 0 <= j < WORD
      ensures Bit(Or(w, Lower(e)), j) == if j < e then true else Bit(w, j)
      ensures Bit(And(w, Not(Lower(e))), j) == if j < e then false else Bit(w, j)
    {
      BitOr(w, Lower(e), j);
      BitAnd(w, Not(Lower(e)), j);
      BitNot(Lower(e), j);
      BitLower(e, j);
    }
  }

  lemma FillWhole(w: Word, isNull: bool)
    ensures Filling(w, if isNull then ONES else 0, 0, WORD, isNull)
  {
    hide Bit;
    forall j | 0 <= j < WORD ensures Bit(ONES, j) && !Bit(0, j) {
      OnesBit(j);
      ZeroBit(j);
    }
  }

  method SetNullRange(a: array<Word>, offset: nat, numBits: nat, isNull: bool)
    requires offset + numBits <= WORD * a.Length
    modifies a
    ensures Filled(old(a[..]), a[..], offset, numBits, isNull)
  {
    hide And, Or, Not, Lower, High, Bit, BitAt, Filled, Filling;
    FilledNone(a[..], offset, isNull);
    if numBits == 0 {
      return;
    }
    var firstEntry, firstBit := offset / WORD, offset % WORD;
    var lastEntry, lastBit := (offset + numBits) / WORD, (offset + numBits) % WORD;
    if firstEntry == lastEntry {
      FillWithin(a[firstEntry], firstBit, lastBit, isNull);
      ghost var was := a[..];
      if isNull {
        a[firstEntry] := Or(a[firstEntry], And(Not(Lower(firstBit)), Not(High(WORD - lastBit))));
      } else {
        a[firstEntry] := And(a[firstEntry], Or(Lower(firstBit), High(WORD - lastBit)));
      }
      WordFilled(was, firstEntry, a[firstEntry], firstBit, lastBit - firstBit, isNull);
      assert a[..] == was[firstEntry := a[firstEntry]];
      return;
    }
    FillMiddle(a, firstEntry, lastEntry, isNull);
    ghost var mid := a[..];
    FillFrom(a[firstEntry], firstBit, isNull);
    if isNull {
      a[firstEntry] := Or(a[firstEntry], Not(Lower(firstBit)));
    } else {
      a[firstEntry] := And(a[firstEntry], Lower(firstBit));
    }
    WordFilled(mid, firstEntry, a[firstEntry], firstBit, WORD - firstBit, isNull);
    assert a[..] == mid[firstEntry := a[firstEntry]];
    FilledThen(old(a[..]), mid, a[..], offset, WORD - firstBit, WORD * (lastEntry - firstEntry - 1), isNull);
    if lastBit > 0 {
      ghost var last := a[..];
      FillUpTo(a[lastEntry], lastBit, isNull);
      if isNull {
        a[lastEntry] := Or(a[lastEntry], Lower(lastBit));
      } else {
        a[lastEntry] := And(a[lastEntry], Not(Lower(lastBit)));
      }
      WordFilled(last, lastEntry, a[lastEntry], 0, lastBit, isNull);
      assert a[..] == last[lastEntry := a[lastEntry]];
      FilledThen(old(a[..]), last, a[..], offset, numBits - lastBit, lastBit, isNull);
    }
  }

  /** `std::fill` of the words strictly between the first and the last. */
  method FillMiddle(a: array<Word>, firstEntry: nat, lastEntry: nat, isNull: bool)
    requires firstEntry < lastEntry <= a.Length
    modifies a
    ensures Filled(old(a[..]), a[..], WORD * (firstEntry + 1), WORD * (lastEntry - firstEntry - 1), isNull)
  {
    hide Bit, BitAt, Filled, Filling;
    FilledNone(a[..], WORD * (firstEntry + 1), isNull);
    for i := firstEntry + 1 to lastEntry
      invariant Filled(old(a[..]), a[..], WORD * (firstEntry + 1), WORD * (i - firstEntry - 1), isNull)
    {
      ghost var was := a[..];
      FillWhole(a[i], isNull);
      a[i] := if isNull then ONES else 0;
      WordFilled(was, i, a[i], 0, WORD, isNull);
      assert a[..] == was[i := a[i]];
      FilledThen(old(a[..]), was, a[..], WORD * (firstEntry + 1), WORD * (i - firstEntry - 1), WORD, isNull);
    }
  }

  lemma FilledNone(a: seq<Word>, from: nat, isNull: bool)
    requires from <= WORD * |a|
    ensures Filled(a, a, from, 0, isNull)
  {
  }

  // ---------------------------------------------------------------- getMinMax

  /** The mask of one range of bits. */
  ghost predicate MaskOf(mask: Word, b: nat, n: nat) {
    forall j :: 0 <= j < WORD ==> (Bit(mask, j) <==> b <= j < b + n)
  }

  lemma MaskCarries(v: Word, mask: Word, b: nat, n: nat)
    requires b + n <= WORD && MaskOf(mask, b, n)
    ensures Carries(And(v, mask), v, b, b, n)
  {
    hide And, Bit;
    forall j | 0 <= j < WORD ensures Bit(And(v, mask), j) <==> b <= j < b + n && Bit(v, b + j - b) {
      BitAnd(v, mask, j);
    }
  }

  lemma MaskAll(w: Word, mask: Word)
    ensures And(w, mask) == mask <==> And(Not(w), mask) == 0
  {
    hide And, Or, Not;
    InAndOut(w, mask);
    NoOverlap(w, mask);
    OrNothing(And(w, mask));
  }

  lemma InAndOut(w: Word, mask: Word)
    ensures Or(And(w, mask), And(Not(w), mask)) == mask
  {
  }

  lemma NoOverlap(w: Word, mask: Word)
    ensures And(Not(w), And(w, mask)) == 0
  {
  }

  lemma OrNothing(w: Word)
    ensures Or(w, 0) == w
  {
  }

  /** Comparing a masked word with zero and with the mask. */
  lemma TestWord(a: seq<Word>, e: nat, mask: Word, b: nat, n: nat)
    requires e < |a| && b + n <= WORD && MaskOf(mask, b, n)
    ensures WORD * e + b + n <= WORD * |a|
    ensures And(a[e], mask) != 0 <==> AnySet(a, WORD * e + b, n, false)
    ensures And(a[e], mask) != mask <==> AnySet(a, WORD * e + b, n, true)
  {
    hide And, Not, Bit, MaskOf, AnySet, Carries;
    MaskCarries(a[e], mask, b, n);
    ChunkAny(a, e, b, b, n, false, And(a[e], mask));
    MaskCarries(Not(a[e]), mask, b, n);
    ChunkAny(a, e, b, b, n, true, And(Not(a[e]), mask));
    MaskAll(a[e], mask);
  }

  lemma MaskWithin(b: nat, e: nat)
    requires b <= e <= WORD
    ensures MaskOf(And(High(WORD - b), Lower(e)), b, e - b)
    ensures MaskOf(High(WORD - b), b, WORD - b) && MaskOf(Lower(e), 0, e)
  {
    hide And, High, Lower, Bit;
    var high, low := High(WORD - b), Lower(e);
    forall j | 0 <= j < WORD
      ensures Bit(And(high, low), j) <==> b <= j < e
      ensures Bit(high, j) <==> b <= j
      ensures Bit(low, j) <==> j < e
    {
      BitAnd(high, low, j);
      BitHigh(WORD - b, j);
      BitLower(e, j);
    }
  }

  lemma MaskWhole()
    ensures MaskOf(ONES, 0, WORD)
  {
    hide Bit;
    forall j | 0 <= j < WORD ensures Bit(ONES, j) {
      OnesBit(j);
    }
  }

  lemma WholeTest(a: seq<Word>, e: nat)
    requires e < |a|
    ensures WORD * e + WORD <= WORD * |a|
    ensures a[e] != 0 <==> AnySet(a, WORD * e, WORD, false)
    ensures a[e] != ONES <==> AnySet(a, WORD * e, WORD, true)
  {
    hide MaskOf, AnySet;
    MaskWhole();
    TestWord(a, e, ONES, 0, WORD);
  }

  /** Whether all and whether any of the bits are set; an empty range counts as not all set. */
  method GetMinMax(a: array<Word>, offset: nat, numValues: nat) returns (min: bool, max: bool)
    requires offset < WORD * a.Length && offset + numValues <= WORD * a.Length
    ensures min <==> numValues > 0 && !AnySet(a[..], offset, numValues, true)
    ensures max <==> AnySet(a[..], offset, numValues, false)
  {
    hide And, High, Lower, MaskOf, AnySet;
    var entry, first := offset / WORD, offset % WORD;
    if first + numValues <= WORD {
      var mask := And(High(WORD - first), Lower(first + numValues));
      MaskWithin(first, first + numValues);
      TestWord(a[..], entry, mask, first, numValues);
      AnyOrAll(a[..], offset, numValues);
      var masked := And(a[entry], mask);
      if masked == 0 {
        return false, false;
      } else if masked == mask {
        return true, true;
      } else {
        return false, true;
      }
    }
    min, max := GetMinMaxWords(a, entry, first, numValues);
  }

  /** The range goes beyond one word: its first part, whole words, its last part. */
  method GetMinMaxWords(a: array<Word>, entry: nat, first: nat, numValues: nat) returns (min: bool, max: bool)
    requires first < WORD < first + numValues && WORD * entry + first + numValues <= WORD * a.Length
    ensures min <==> !AnySet(a[..], WORD * entry + first, numValues, true)
    ensures max <==> AnySet(a[..], WORD * entry + first, numValues, false)
  {
    hide AnySet;
    ghost var from := WORD * entry + first;
    var next, left := entry, numValues;
    var mixed, base := FirstPart(a, entry, first, numValues);
    if mixed {
      return false, true;
    }
    if first > 0 {
      next, left := entry + 1, numValues - (WORD - first);
    }
    ghost var done := numValues - left;
    var same := WholeWords(a, next, left / WORD, base, from, done);
    Extend(a[..], from, done + left / WORD * WORD, left % WORD);
    if !same {
      return false, true;
    }
    next, left := next + left / WORD, left % WORD;
    min, max := LastPart(a, next, left, base, from, numValues);
  }

  /** The bits before the first word boundary, or the first bit: they all have one value, or are mixed. */
  method FirstPart(a: array<Word>, entry: nat, first: nat, numValues: nat) returns (mixed: bool, base: bool)
    requires first < WORD < first + numValues && WORD * entry + first + numValues <= WORD * a.Length
    ensures var from := WORD * entry + first;
            && (mixed ==> AnySet(a[..], from, numValues, false) && AnySet(a[..], from, numValues, true))
            && (!mixed ==> AnySet(a[..], from, numValues, !base))
            && (!mixed ==> !AnySet(a[..], from, if first > 0 then WORD - first else 0, base))
  {
    hide And, High, Lower, Shl, MaskOf, AnySet, Bit, BitAt;
    ghost var from := WORD * entry + first;
    if first > 0 {
      var mask := High(WORD - first);
      MaskWithin(first, WORD);
      TestWord(a[..], entry, mask, first, WORD - first);
      AnyOrAll(a[..], from, WORD - first);
      Extend(a[..], from, WORD - first, numValues - (WORD - first));
      var masked := And(a[entry], mask);
      return masked != 0 && masked != mask, masked != 0;
    }
    AnyNone(a[..], from);
    MaskedBit(a[entry], 0);
    InWord(a[..], entry, 0);
    FirstBit(a[..], from, numValues);
    return false, And(a[entry], Shl(1, 0)) != 0;
  }

  /** Whole words are compared with the word of the expected bit. */
  method WholeWords(a: array<Word>, next: nat, count: nat, base: bool, ghost from: nat, ghost done: nat) returns (same: bool)
    requires WORD * (next + count) <= WORD * a.Length && from + done == WORD * next && !AnySet(a[..], from, done, base)
    ensures same <==> !AnySet(a[..], from, done + count * WORD, base)
  {
    hide AnySet;
    var baseline := if base then ONES else 0;
    for i := 0 to count
      invariant !AnySet(a[..], from, done + i * WORD, base)
    {
      WholeTest(a[..], next + i);
      Extend(a[..], from, done + i * WORD, WORD);
      Extend(a[..], from, done + (i + 1) * WORD, (count - i - 1) * WORD);
      if a[next + i] != baseline {
        return false;
      }
    }
    return true;
  }

  /** The bits behind the last word boundary. */
  method LastPart(a: array<Word>, next: nat, left: nat, base: bool, ghost from: nat, ghost n: nat) returns (min: bool, max: bool)
    requires left < WORD && left <= n && WORD * next + left <= WORD * a.Length && from + n == WORD * next + left
    requires !AnySet(a[..], from, n - left, base) && AnySet(a[..], from, n, !base)
    ensures min <==> !AnySet(a[..], from, n, true)
    ensures max <==> AnySet(a[..], from, n, false)
  {
    hide And, Lower, MaskOf, AnySet;
    Extend(a[..], from, n - left, left);
    AnyNone(a[..], WORD * next);
    if left > 0 {
      var mask := Lower(left);
      MaskWithin(0, left);
      TestWord(a[..], next, mask, 0, left);
      AnyOrAll(a[..], from, n - left);
      AnyOrAll(a[..], WORD * next, left);
      var masked := And(a[next], mask);
      if masked == 0 {
        return false, base;
      } else if masked == mask {
        return base, true;
      } else {
        return false, true;
      }
    }
    return base, base;
  }

  lemma FirstBit(a: seq<Word>, from: nat, n: nat)
    requires 0 < n && from + n <= WORD * |a|
    ensures AnySet(a, from, n, !BitAt(a, from))
  {
    hide BitAt;
  }

  lemma AnyNone(a: seq<Word>, from: nat)
    requires from <= WORD * |a|
    ensures !AnySet(a, from, 0, false) && !AnySet(a, from, 0, true)
  {
  }

  lemma Extend(a: seq<Word>, from: nat, m: nat, n: nat)
    requires from + m + n <= WORD * |a|
    ensures AnySet(a, from, m + n, false) <==> AnySet(a, from, m, false) || AnySet(a, from + m, n, false)
    ensures AnySet(a, from, m + n, true) <==> AnySet(a, from, m, true) || AnySet(a, from + m, n, true)
  {
    AnySetThen(a, from, m, n, false);
    AnySetThen(a, from, m, n, true);
  }

  lemma AnyOrAll(a: seq<Word>, from: nat, n: nat)
    requires from + n <= WORD * |a|
    ensures n > 0 <==> AnySet(a, from, n, false) || AnySet(a, from, n, true)
  {
    hide BitAt;
    if n > 0 {
      assert BitAt(a, from) != false || BitAt(a, from) != true;
    }
  }
}
