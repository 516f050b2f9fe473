/**
 Bits of 64-bit words: what the word operations on null masks do to each bit.
 */
module NullBits {

  const WORD: nat := 64

  type Word = bv64

  const ONES: Word := 0xFFFF_FFFF_FFFF_FFFF

  function And(v: Word, w: Word): Word { v & w }

  function Or(v: Word, w: Word): Word { v | w }

  function Not(w: Word): Word { !w }

  function Half(w: Word): Word { w >> 1 }

  function Double(w: Word): Word { w << 1 }

  /** `w >> k`. */
  function Shr(w: Word, k: nat): Word
    decreases k
  {
    if k == 0 then w else Shr(Half(w), k - 1)
  }

  /** `w << k`. */
  function Shl(w: Word, k: nat): Word
    decreases k
  {
    if k == 0 then w else Double(Shl(w, k - 1))
  }

  predicate Odd(w: Word) { w & 1 == 1 }

  /** The bit k of a word, counted from the low end. */
  predicate Bit(w: Word, k: nat)
    decreases k
  {
    if k == 0 then Odd(w) else Bit(Half(w), k - 1)
  }

  /** `NULL_LOWER_MASKS[k]`. */
  function Lower(k: nat): Word {
    if k == 0 then 0 else Or(Double(Lower(k - 1)), 1)
  }

  /** `NULL_HIGH_MASKS[k]`. */
  function High(k: nat): Word {
    if k == 0 then 0 else Or(Half(High(k - 1)), 0x8000_0000_0000_0000)
  }

  // ---------------------------------------------------------------- single steps

  const LOW63: Word := 0x7FFF_FFFF_FFFF_FFFF

  lemma StepAnd(v: Word, w: Word)
    ensures Half(And(v, w)) == And(Half(v), Half(w)) && (Odd(And(v, w)) <==> Odd(v) && Odd(w))
  {
  }

  lemma StepOr(v: Word, w: Word)
    ensures Half(Or(v, w)) == Or(Half(v), Half(w)) && (Odd(Or(v, w)) <==> Odd(v) || Odd(w))
  {
    OddOr(v, w);
    hide Odd;
  }

  lemma OddOr(v: Word, w: Word)
    ensures Odd(Or(v, w)) <==> Odd(v) || Odd(w)
  {
  }

  lemma StepNot(w: Word)
    ensures Half(Not(w)) == And(Not(Half(w)), LOW63) && (Odd(Not(w)) <==> !Odd(w))
  {
  }

  lemma StepDouble(w: Word)
    ensures Half(Double(w)) == And(w, LOW63) && !Odd(Double(w))
  {
  }

  // ---------------------------------------------------------------- bits of results

  lemma {:induction false} BitAnd(v: Word, w: Word, k: nat)
    ensures Bit(And(v, w), k) <==> Bit(v, k) && Bit(w, k)
    decreases k
  {
    hide Half, Odd, And;
    StepAnd(v, w);
    if k > 0 {
      BitAnd(Half(v), Half(w), k - 1);
    }
  }

  lemma {:induction false} BitOr(v: Word, w: Word, k: nat)
    ensures Bit(Or(v, w), k) <==> Bit(v, k) || Bit(w, k)
    decreases k
  {
    hide Half, Odd, Or;
    StepOr(v, w);
    if k > 0 {
      BitOr(Half(v), Half(w), k - 1);
    }
  }

  // ---------------------------------------------------------------- words of ones

  /** A word of n bytes of ones. */
  function Bytes(n: nat): Word {
    if n == 0 then 0 else if n == 1 then 0xFF else if n == 2 then 0xFFFF else if n == 3 then 0xFF_FFFF
    else if n == 4 then 0xFFFF_FFFF else if n == 5 then 0xFF_FFFF_FFFF else if n == 6 then 0xFFFF_FFFF_FFFF
    else if n == 7 then 0xFF_FFFF_FFFF_FFFF else 0xFFFF_FFFF_FFFF_FFFF
  }

  lemma ByteHalves(w: Word)
    ensures Half(w) == w >> 1 && Half(w >> 1) == w >> 2 && Half(w >> 2) == w >> 3 && Half(w >> 3) == w >> 4
    ensures Half(w >> 4) == w >> 5 && Half(w >> 5) == w >> 6 && Half(w >> 6) == w >> 7 && Half(w >> 7) == w >> 8
  {
  }

  lemma ByteOdd(w: Word)
    requires w & 0xFF == 0xFF
    ensures Odd(w) && Odd(w >> 1) && Odd(w >> 2) && Odd(w >> 3)
    ensures Odd(w >> 4) && Odd(w >> 5) && Odd(w >> 6) && Odd(w >> 7)
  {
  }

  /** Eight halvings move a word down by a byte. */
  lemma ByteDown(w: Word, k: nat)
    ensures k >= 8 ==> Bit(w, k) == Bit(w >> 8, k - 8)
    ensures k < 8 && w & 0xFF == 0xFF ==> Bit(w, k)
  {
    hide Half, Odd;
    ByteHalves(w);
    if w & 0xFF == 0xFF {
      ByteOdd(w);
    }
    assert k >= 2 ==> Bit(w, k) == Bit(w >> 2, k - 2);
    assert k >= 4 ==> Bit(w >> 2, k - 2) == Bit(w >> 4, k - 4);
    assert k >= 6 ==> Bit(w >> 4, k - 4) == Bit(w >> 6, k - 6);
    assert k >= 8 ==> Bit(w >> 6, k - 6) == Bit(w >> 8, k - 8);
  }

  lemma BytesDown(n: nat)
    requires 0 < n <= 8
    ensures Bytes(n) >> 8 == Bytes(n - 1) && Bytes(n) & 0xFF == 0xFF
  {
  }

  lemma {:induction false} BytesBit(n: nat, k: nat)
    requires n <= 8
    ensures Bit(Bytes(n), k) <==> k < 8 * n
    decreases k
  {
    if n == 0 {
      ZeroBit(k);
    } else {
      hide Bytes;
      BytesDown(n);
      ByteDown(Bytes(n), k);
      if k >= 8 {
        BytesBit(n - 1, k - 8);
      }
    }
  }

  lemma {:induction false} ZeroBit(k: nat)
    ensures !Bit(0, k)
  {
    if k > 0 {
      assert Half(0) == 0;
      ZeroBit(k - 1);
    }
  }

  /** There are 64 bits. */
  lemma OnesBit(k: nat)
    ensures Bit(ONES, k) <==> k < WORD
  {
    BytesBit(8, k);
  }

  lemma BitsInWord(w: Word, k: nat)
    requires Bit(w, k)
    ensures k < WORD
  {
    BitAnd(w, ONES, k);
    assert And(w, ONES) == w;
    OnesBit(k);
  }

  lemma Low63Bit(k: nat)
    ensures Bit(LOW63, k) <==> k < WORD - 1
  {
    assert Half(ONES) == LOW63;
    OnesBit(k + 1);
  }

  // ---------------------------------------------------------------- complement, shifts and masks

  lemma {:induction false} BitNot(w: Word, k: nat)
    requires k < WORD
    ensures Bit(Not(w), k) <==> !Bit(w, k)
    decreases k
  {
    hide Half, Odd, Not, And;
    StepNot(w);
    if k > 0 {
      BitAnd(Not(Half(w)), LOW63, k - 1);
      Low63Bit(k - 1);
      BitNot(Half(w), k - 1);
    }
  }

  lemma BitDouble(w: Word, k: nat)
    requires k < WORD
    ensures Bit(Double(w), k) <==> k > 0 && Bit(w, k - 1)
  {
    hide Half, Odd, Double, And;
    StepDouble(w);
    if k > 0 {
      BitAnd(w, LOW63, k - 1);
      Low63Bit(k - 1);
    }
  }

  lemma {:induction false} BitShl(w: Word, n: nat, k: nat)
    requires k < WORD
    ensures Bit(Shl(w, n), k) <==> n <= k && Bit(w, k - n)
    decreases n
  {
    hide Double, Bit;
    if n > 0 {
      BitDouble(Shl(w, n - 1), k);
      if k > 0 {
        BitShl(w, n - 1, k - 1);
      }
    }
  }

  lemma {:induction false} BitShr(w: Word, n: nat, k: nat)
    ensures Bit(Shr(w, n), k) <==> Bit(w, k + n)
    decreases n
  {
    hide Half;
    if n > 0 {
      BitShr(Half(w), n - 1, k);
    }
  }

  lemma OneBit(k: nat)
    ensures Bit(1, k) <==> k == 0
  {
    if k > 0 {
      assert Half(1) == 0;
      ZeroBit(k - 1);
    }
  }

  lemma {:induction false} BitLower(n: nat, k: nat)
    requires n <= WORD && k < WORD
    ensures Bit(Lower(n), k) <==> k < n
    decreases n
  {
    hide Double, Or, Bit;
    if n == 0 {
      ZeroBit(k);
    } else {
      BitOr(Double(Lower(n - 1)), 1, k);
      BitDouble(Lower(n - 1), k);
      OneBit(k);
      if k > 0 {
        BitLower(n - 1, k - 1);
      }
    }
  }

  lemma TopBit(k: nat)
    requires k < WORD
    ensures Bit(0x8000_0000_0000_0000, k) <==> k == WORD - 1
  {
    assert Not(LOW63) == 0x8000_0000_0000_0000;
    BitNot(LOW63, k);
    Low63Bit(k);
  }

  lemma {:induction false} BitHigh(n: nat, k: nat)
    requires n <= WORD && k < WORD
    ensures Bit(High(n), k) <==> WORD - n <= k
    decreases n
  {
    hide Half, Or;
    if n == 0 {
      ZeroBit(k);
    } else {
      BitOr(Half(High(n - 1)), 0x8000_0000_0000_0000, k);
      assert Bit(Half(High(n - 1)), k) == Bit(High(n - 1), k + 1);
      TopBit(k);
      if k + 1 < WORD {
        BitHigh(n - 1, k + 1);
      }
    }
  }

  // ---------------------------------------------------------------- words that are not zero

  lemma HalfSmaller(w: Word)
    requires w != 0 && !Odd(w)
    ensures Half(w) < w && Half(w) != 0
  {
  }

  lemma {:induction false} FindBit(w: Word) returns (k: nat)
    requires w != 0
    ensures k < WORD && Bit(w, k)
    decreases w
  {
    if Odd(w) {
      k := 0;
    } else {
      HalfSmaller(w);
      k := FindBit(Half(w));
      k := k + 1;
      BitsInWord(w, k);
    }
  }
}
