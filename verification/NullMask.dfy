/**
 The null mask object: packed null bits and the flag that says whether any of them may be set.
 */
module NullMasks {
  import opened NullBits
  import opened NullMaskKernels
  import opened Sizes

  ghost predicate NoNulls(a: seq<Word>) {
    forall p :: 0 <= p < WORD * |a| ==> !BitAt(a, p)
  }

  lemma CopyKeepsNone(was: seq<Word>, now: seq<Word>, src: seq<Word>, from: nat, to: nat, n: nat, invert: bool)
    requires |was| == |now| && from + n <= WORD * |src| && to + n <= WORD * |now|
    requires Copied(was, now, src, from, to, n, invert) && NoNulls(was)
    ensures NoNulls(now) <==> !AnySet(src, from, n, invert)
  {
    hide BitAt;
    if AnySet(src, from, n, invert) {
      var q :| from <= q < from + n && BitAt(src, q) != invert;
      assert BitAt(now, to + (q - from));
    }
  }

  lemma FillKeepsNone(was: seq<Word>, now: seq<Word>, from: nat, n: nat, isNull: bool)
    requires |was| == |now| && from + n <= WORD * |now|
    requires Filled(was, now, from, n, isNull) && NoNulls(was) && (n == 0 || !isNull)
    ensures NoNulls(now)
  {
    hide BitAt;
  }

  /** Filling a range is copying it from a mask without nulls. */
  lemma FilledIsCopied(was: seq<Word>, now: seq<Word>, src: seq<Word>, from: nat, to: nat, n: nat, invert: bool)
    requires |was| == |now| && from + n <= WORD * |src| && to + n <= WORD * |now|
    requires NoNulls(src) && Filled(was, now, to, n, invert)
    ensures Copied(was, now, src, from, to, n, invert)
  {
    hide BitAt;
  }

  class NullMask {
    var data: array<Word>
    var mayContainNulls: bool

    /** Without the flag there are no nulls. */
    ghost predicate Valid()
      reads this, data
    {
      !mayContainNulls ==> NoNulls(data[..])
    }

    constructor (capacity: nat)
      ensures fresh(data) && capacity <= WORD * data.Length < capacity + WORD
      ensures Valid() && NoNulls(data[..]) && !mayContainNulls
    {
      data := new Word[(capacity + WORD - 1) / WORD](_ => 0);
      mayContainNulls := false;
      new;
      forall p: nat | p < WORD * data.Length ensures !BitAt(data[..], p) {
        ZeroBit(p % WORD);
      }
    }

    method SetNullAt(pos: nat, isNull: bool)
      requires Valid() && pos < UINT32 && pos < WORD * data.Length
      modifies this`mayContainNulls, data
      ensures Valid() && data[..] == SetBit(old(data[..]), pos, isNull)
      ensures mayContainNulls == (old(mayContainNulls) || isNull)
    {
      hide SetBit, BitAt;
      SetNull(data, pos, isNull);
      if isNull {
        mayContainNulls := true;
      }
      forall q: nat | q < WORD * data.Length
        ensures BitAt(data[..], q) == if q == pos then isNull else BitAt(old(data[..]), q)
      {
        SetBitAt(old(data[..]), pos, isNull, q);
      }
    }

    method SetNullFromRange(offset: nat, numBits: nat, isNull: bool)
      requires Valid() && offset + numBits <= WORD * data.Length
      modifies this`mayContainNulls, data
      ensures Valid() && Filled(old(data[..]), data[..], offset, numBits, isNull)
      ensures mayContainNulls == (old(mayContainNulls) || isNull)
    {
      if isNull {
        mayContainNulls := true;
      }
      SetNullRange(data, offset, numBits, isNull);
      if !mayContainNulls {
        FillKeepsNone(old(data[..]), data[..], offset, numBits, isNull);
      }
    }

    /** The flag is kept right unless up to three bits are copied inverted from source bits that are all clear:
        the short path then reports no null although it has set some. */
    method CopyFromNullBits(src: array<Word>, srcOffset: nat, dstOffset: nat, numBits: nat, invert: bool)
      returns (hasNull: bool)
      requires Valid() && src != data && srcOffset + numBits <= WORD * src.Length && dstOffset + numBits <= WORD * data.Length
      modifies this`mayContainNulls, data
      ensures mayContainNulls == (old(mayContainNulls) || hasNull)
      ensures Addressable(srcOffset, dstOffset, numBits) ==>
                && Copied(old(data[..]), data[..], src[..], srcOffset, dstOffset, numBits, invert)
                && (hasNull <==> AnySet(src[..], srcOffset, numBits, invert && numBits > 3))
                && (Valid() <==> old(mayContainNulls) || !invert || !(0 < numBits <= 3) || AnySet(src[..], srcOffset, numBits, false))
    {
      hide Copied, AnySet, NoNulls, ShortCopy;
      hasNull := CopyNullMask(src, srcOffset, data, dstOffset, numBits, invert);
      if hasNull {
        mayContainNulls := true;
      }
      if Addressable(srcOffset, dstOffset, numBits) {
        AnyOrAll(src[..], srcOffset, numBits);
        if NoNulls(old(data[..])) {
          CopyKeepsNone(old(data[..]), data[..], src[..], srcOffset, dstOffset, numBits, invert);
        }
      }
    }

    method CopyFrom(other: NullMask, srcOffset: nat, dstOffset: nat, numBits: nat, invert: bool)
      returns (hasNull: bool)
      requires Valid() && other.Valid() && other.data != data
      requires srcOffset + numBits <= WORD * other.data.Length && dstOffset + numBits <= WORD * data.Length
      modifies this`mayContainNulls, data
      ensures mayContainNulls == (old(mayContainNulls) || hasNull)
      ensures Addressable(srcOffset, dstOffset, numBits) ==>
                (hasNull <==> if other.mayContainNulls then AnySet(other.data[..], srcOffset, numBits, invert && numBits > 3) else invert)
      ensures Addressable(srcOffset, dstOffset, numBits) ==>
                Copied(old(data[..]), data[..], other.data[..], srcOffset, dstOffset, numBits, invert)
      ensures Addressable(srcOffset, dstOffset, numBits) ==>
                (Valid() <==> || old(mayContainNulls) || !invert || !(0 < numBits <= 3) || !other.mayContainNulls
                              || AnySet(other.data[..], srcOffset, numBits, false))
    {
      hide Copied, AnySet, Filled, NoNulls;
      if !other.mayContainNulls {
        SetNullFromRange(dstOffset, numBits, invert);
        FilledIsCopied(old(data[..]), data[..], other.data[..], srcOffset, dstOffset, numBits, invert);
        return invert;
      }
      hasNull := CopyFromNullBits(other.data, srcOffset, dstOffset, numBits, invert);
    }

    /** `operator|=` leaves the flag alone: it stays right exactly when it was set or there was nothing to add. */
    method OrWith(other: NullMask)
      requires Valid() && other.data != data && other.data.Length == data.Length
      modifies data
      ensures forall p :: 0 <= p < WORD * data.Length ==>
                BitAt(data[..], p) == (BitAt(old(data[..]), p) || BitAt(other.data[..], p))
      ensures Valid() <==> mayContainNulls || NoNulls(other.data[..])
    {
      hide Or;
      for i := 0 to data.Length
        invariant forall e :: 0 <= e < data.Length ==>
                    data[e] == if e < i then Or(old(data[e]), other.data[e]) else old(data[e])
      {
        data[i] := Or(data[i], other.data[i]);
      }
      OrBits(old(data[..]), other.data[..], data[..]);
      hide BitAt;
    }
  }

  lemma OrBits(a: seq<Word>, b: seq<Word>, now: seq<Word>)
    requires |a| == |b| == |now| && forall e :: 0 <= e < |a| ==> now[e] == Or(a[e], b[e])
    ensures forall p :: 0 <= p < WORD * |now| ==> BitAt(now, p) == (BitAt(a, p) || BitAt(b, p))
  {
    hide Or, Bit;
    forall p: nat | p < WORD * |now| ensures BitAt(now, p) == (BitAt(a, p) || BitAt(b, p)) {
      BitOr(a[p / WORD], b[p / WORD], p % WORD);
    }
  }
}
