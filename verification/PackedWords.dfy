/**
 Unsigned integers of up to eight bytes that hold a piece of text: packing by shift and or, loading
 from memory, and equality of words against equality of texts.
 */
module PackedWords {

  /** `uint8_t`. */
  type Char = bv8

  /** An unsigned integer of some number of bytes; those above its width are clear. */
  type Word = bv64

  const MAX: nat := 8

  function Or(v: Word, w: Word): Word { v | w }

  function And(v: Word, w: Word): Word { v & w }

  function Extend(b: Char): Word { b as Word }

  function Up(w: Word): Word { w << 8 }

  function Down(w: Word): Word { w >> 8 }

  function LowByte(w: Word): Char { (w & 0xFF) as Char }

  /** `w << 8 * k`. */
  function ShiftUp(w: Word, k: nat): Word {
    if k == 0 then w else Up(ShiftUp(w, k - 1))
  }

  /** The largest unsigned integer of a width. */
  function Mask(size: nat): Word {
    if size == 0 then 0 else Or(Up(Mask(size - 1)), 0xFF)
  }

  /** `w << 8` in an integer of a width: the top byte falls out. */
  function ShiftByte(w: Word, size: nat): Word {
    And(Up(w), Mask(size))
  }

  /** The byte k of a word, counted from the low end. */
  function ByteOf(w: Word, k: nat): Char
    decreases k
  {
    if k == 0 then LowByte(w) else ByteOf(Down(w), k - 1)
  }

  // ---------------------------------------------------------------- bytes of results

  const LOW56: Word := 0x00FF_FFFF_FFFF_FFFF

  lemma DownOr(v: Word, w: Word)
    ensures Down(Or(v, w)) == Or(Down(v), Down(w))
  {
  }

  lemma LowOr(v: Word, w: Word)
    ensures LowByte(Or(v, w)) == LowByte(v) | LowByte(w)
  {
  }

  lemma DownAnd(v: Word, w: Word)
    ensures Down(And(v, w)) == And(Down(v), Down(w))
  {
  }

  lemma LowAnd(v: Word, w: Word)
    ensures LowByte(And(v, w)) == LowByte(v) & LowByte(w)
  {
  }

  lemma StepUp(w: Word)
    ensures Down(Up(w)) == And(w, LOW56) && LowByte(Up(w)) == 0
  {
  }

  lemma {:induction false} ByteOr(v: Word, w: Word, k: nat)
    ensures ByteOf(Or(v, w), k) == ByteOf(v, k) | ByteOf(w, k)
    decreases k
  {
    hide Or, Down, LowByte;
    if k == 0 {
      LowOr(v, w);
    } else {
      DownOr(v, w);
      ByteOr(Down(v), Down(w), k - 1);
    }
  }

  lemma {:induction false} ByteAnd(v: Word, w: Word, k: nat)
    ensures ByteOf(And(v, w), k) == ByteOf(v, k) & ByteOf(w, k)
    decreases k
  {
    hide And, Down, LowByte;
    if k == 0 {
      LowAnd(v, w);
    } else {
      DownAnd(v, w);
      ByteAnd(Down(v), Down(w), k - 1);
    }
  }

  lemma {:induction false} ByteZero(k: nat)
    ensures ByteOf(0, k) == 0
  {
    if k > 0 {
      assert Down(0) == 0;
      ByteZero(k - 1);
    }
  }

  /** A word of n bytes of ones. */
  function Ones(n: nat): Word {
    if n == 0 then 0 else if n == 1 then 0xFF else if n == 2 then 0xFFFF else if n == 3 then 0xFF_FFFF
    else if n == 4 then 0xFFFF_FFFF else if n == 5 then 0xFF_FFFF_FFFF else if n == 6 then 0xFFFF_FFFF_FFFF
    else if n == 7 then LOW56 else 0xFFFF_FFFF_FFFF_FFFF
  }

  lemma StepOnes(n: nat)
    requires 0 < n <= MAX
    ensures Down(Ones(n)) == Ones(n - 1) && LowByte(Ones(n)) == 0xFF && Or(Up(Ones(n - 1)), 0xFF) == Ones(n)
  {
  }

  lemma {:induction false} ByteOnes(n: nat, k: nat)
    requires n <= MAX
    ensures ByteOf(Ones(n), k) == if k < n then 0xFF else 0
    decreases k
  {
    if n == 0 {
      ByteZero(k);
    } else {
      hide Ones, Down, LowByte;
      StepOnes(n);
      if k > 0 {
        ByteOnes(n - 1, k - 1);
      }
    }
  }

  lemma {:induction false} MaskIsOnes(n: nat)
    requires n <= MAX
    ensures Mask(n) == Ones(n)
  {
    if n > 0 {
      MaskIsOnes(n - 1);
      hide Ones, Or, Up;
      StepOnes(n);
    }
  }

  lemma AndOnes(b: Char)
    ensures b & 0xFF == b && b & 0 == 0 && 0 & b == 0 && b | 0 == b && 0 | b == b
  {
  }

  lemma ByteUp(w: Word, k: nat)
    requires k < MAX
    ensures ByteOf(Up(w), k) == if k == 0 then 0 else ByteOf(w, k - 1)
  {
    hide Up, Down, LowByte, And;
    StepUp(w);
    if k > 0 {
      ByteAnd(w, LOW56, k - 1);
      ByteOnes(7, k - 1);
      AndOnes(ByteOf(w, k - 1));
    }
  }

  /** Within its width a word moves up by one byte; above it nothing is left. */
  lemma ByteShift(w: Word, size: nat, k: nat)
    requires size <= MAX && k < MAX
    ensures ByteOf(ShiftByte(w, size), k) == if 0 < k < size then ByteOf(w, k - 1) else 0
  {
    hide Up, And, Mask, ByteOf;
    ByteAnd(Up(w), Mask(size), k);
    ByteUp(w, k);
    MaskIsOnes(size);
    ByteOnes(size, k);
    AndOnes(ByteOf(Up(w), k));
  }

  lemma StepExtend(b: Char)
    ensures Down(Extend(b)) == 0 && LowByte(Extend(b)) == b
  {
  }

  lemma ByteExtend(b: Char, k: nat)
    ensures ByteOf(Extend(b), k) == if k == 0 then b else 0
  {
    hide Extend, Down, LowByte;
    StepExtend(b);
    if k > 0 {
      ByteZero(k - 1);
    }
  }

  lemma {:induction false} BytePlaced(b: Char, n: nat, k: nat)
    requires k < MAX
    ensures ByteOf(ShiftUp(Extend(b), n), k) == if k == n then b else 0
    decreases n
  {
    hide ByteOf, Up, Extend;
    if n == 0 {
      ByteExtend(b, k);
    } else {
      ByteUp(ShiftUp(Extend(b), n - 1), k);
      if k > 0 {
        BytePlaced(b, n - 1, k - 1);
      }
    }
  }

  // ---------------------------------------------------------------- words with the same bytes

  lemma StepSame(v: Word, w: Word)
    requires LowByte(v) == LowByte(w) && Down(v) == Down(w)
    ensures v == w
  {
  }

  lemma {:induction false} SameBelow(v: Word, w: Word, n: nat)
    requires n <= MAX && And(v, Ones(n)) == v && And(w, Ones(n)) == w
    requires forall k :: 0 <= k < n ==> ByteOf(v, k) == ByteOf(w, k)
    ensures v == w
    decreases n
  {
    if n > 0 {
      hide Ones, Down, LowByte, And;
      StepOnes(n);
      DownAnd(v, Ones(n));
      DownAnd(w, Ones(n));
      forall k | 0 <= k < n - 1 ensures ByteOf(Down(v), k) == ByteOf(Down(w), k) {
        assert ByteOf(v, k + 1) == ByteOf(w, k + 1);
      }
      SameBelow(Down(v), Down(w), n - 1);
      assert ByteOf(v, 0) == ByteOf(w, 0);
      StepSame(v, w);
    }
  }

  lemma AllOnes(w: Word)
    ensures And(w, Ones(MAX)) == w
  {
  }

  /** A word is its bytes. */
  lemma SameBytes(v: Word, w: Word)
    requires forall k :: 0 <= k < MAX ==> ByteOf(v, k) == ByteOf(w, k)
    ensures v == w
  {
    AllOnes(v);
    AllOnes(w);
    hide And, Ones, ByteOf;
    SameBelow(v, w, MAX);
  }

  // ---------------------------------------------------------------- a text at the top of a word

  /** The word after the packing loop: the character i is put in by `|= UNSIGNED(s[i]) << (start - 8 * i)`. */
  function Pack(s: seq<Char>, size: nat): Word
    requires |s| <= size
  {
    if s == [] then 0
    else Or(Pack(s[..|s| - 1], size), ShiftUp(Extend(s[|s| - 1]), size - |s|))
  }

  lemma {:induction false} PackByte(s: seq<Char>, size: nat, k: nat)
    requires |s| <= size <= MAX && k < MAX
    ensures ByteOf(Pack(s, size), k) == if size - |s| <= k < size then s[size - 1 - k] else 0
    decreases |s|
  {
    hide ByteOf, Or, Extend, ShiftUp;
    if s == [] {
      ByteZero(k);
    } else {
      var rest, last := s[..|s| - 1], s[|s| - 1];
      PackByte(rest, size, k);
      ByteOr(Pack(rest, size), ShiftUp(Extend(last), size - |s|), k);
      BytePlaced(last, size - |s|, k);
      AndOnes(if k == size - |s| then last else if size - |s| < k < size then s[size - 1 - k] else 0);
    }
  }

  /** Packed texts of one length are equal exactly when the texts are. */
  lemma PackInjective(s: seq<Char>, t: seq<Char>, size: nat)
    requires |s| == |t| <= size <= MAX
    ensures Pack(s, size) == Pack(t, size) <==> s == t
  {
    hide ByteOf, Pack;
    if Pack(s, size) == Pack(t, size) {
      forall i | 0 <= i < |s| ensures s[i] == t[i] {
        PackByte(s, size, size - 1 - i);
        PackByte(t, size, size - 1 - i);
      }
    }
  }

  /** Shifting by a byte and putting the next character in moves the window by one. */
  lemma PackMoves(s: seq<Char>, b: Char, size: nat)
    requires 0 < |s| <= size <= MAX
    ensures Or(ShiftByte(Pack(s, size), size), ShiftUp(Extend(b), size - |s|)) == Pack(s[1..] + [b], size)
  {
    hide ByteOf, Pack, Or, ShiftByte, ShiftUp, Extend;
    var moved := Or(ShiftByte(Pack(s, size), size), ShiftUp(Extend(b), size - |s|));
    var t := s[1..] + [b];
    forall k | 0 <= k < MAX ensures ByteOf(moved, k) == ByteOf(Pack(t, size), k) {
      ByteOr(ShiftByte(Pack(s, size), size), ShiftUp(Extend(b), size - |s|), k);
      ByteShift(Pack(s, size), size, k);
      BytePlaced(b, size - |s|, k);
      PackByte(t, size, k);
      if k > 0 {
        PackByte(s, size, k - 1);
      }
      AndOnes(ByteOf(Pack(t, size), k));
    }
    SameBytes(moved, Pack(t, size));
  }

  // ---------------------------------------------------------------- a word in memory

  /** The integer that stands at some bytes of memory, the least significant byte first. */
  function Load(s: seq<Char>): Word {
    if s == [] then 0 else Or(Up(Load(s[1..])), Extend(s[0]))
  }

  lemma {:induction false} LoadByte(s: seq<Char>, k: nat)
    requires |s| <= MAX && k < MAX
    ensures ByteOf(Load(s), k) == if k < |s| then s[k] else 0
    decreases |s|
  {
    hide ByteOf, Or, Up, Extend;
    if s == [] {
      ByteZero(k);
    } else {
      ByteOr(Up(Load(s[1..])), Extend(s[0]), k);
      ByteUp(Load(s[1..]), k);
      ByteExtend(s[0], k);
      if k > 0 {
        LoadByte(s[1..], k - 1);
      }
      AndOnes(if k < |s| then s[k] else 0);
    }
  }

  /** Loaded words of one width are equal exactly when the texts are. */
  lemma LoadInjective(s: seq<Char>, t: seq<Char>)
    requires |s| == |t| <= MAX
    ensures Load(s) == Load(t) <==> s == t
  {
    hide ByteOf, Load;
    if Load(s) == Load(t) {
      forall i | 0 <= i < |s| ensures s[i] == t[i] {
        LoadByte(s, i);
        LoadByte(t, i);
      }
    }
  }
}
