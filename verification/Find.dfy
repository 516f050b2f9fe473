/**
 Substring search by packed words and rolling sums, against the first occurrence.
 */
module Find {
  import opened PackedWords
  import opened Sizes

  // ---------------------------------------------------------------- first occurrence

  predicate Occurs(h: seq<Char>, n: seq<Char>, i: nat) {
    i + |n| <= |h| && h[i..i + |n|] == n
  }

  /** The least position where the needle occurs, or -1. */
  ghost predicate IsFirst(h: seq<Char>, n: seq<Char>, r: int) {
    && -1 <= r
    && (r >= 0 ==> Occurs(h, n, r))
    && forall i :: 0 <= i && (r >= 0 ==> i < r) ==> !Occurs(h, n, i)
  }

  /** Searching from the first match of the first character on loses nothing. */
  lemma FromFirstChar(h: seq<Char>, n: seq<Char>, from: nat, r: int)
    requires from <= |h| && n != [] && (forall i :: 0 <= i < from ==> h[i] != n[0]) && IsFirst(h[from..], n, r)
    ensures IsFirst(h, n, if r == -1 then -1 else from + r)
  {
    forall i | 0 <= i && Occurs(h, n, i) ensures i >= from && Occurs(h[from..], n, i - from) {
      assert h[i] == h[i..i + |n|][0];
      assert h[from..][i - from..i - from + |n|] == h[i..i + |n|];
    }
    if r >= 0 {
      assert h[from..][r..r + |n|] == h[from + r..from + r + |n|];
    }
  }

  // ---------------------------------------------------------------- packed words

  /** The part of a text that the window shows. */
  function Cut(s: seq<Char>, from: nat, len: nat): (r: seq<Char>)
    requires from + len <= |s|
    ensures |r| == len
  {
    s[from..from + len]
  }

  /** Packed words are equal exactly where the needle occurs. */
  lemma WindowMatches(h: seq<Char>, n: seq<Char>, i: nat, size: nat)
    requires i + |n| <= |h| && |n| <= size <= MAX
    ensures Pack(Cut(h, i, |n|), size) == Pack(n, size) <==> Occurs(h, n, i)
  {
    PackInjective(Cut(h, i, |n|), n, size);
  }

  /** So are loaded words. */
  lemma LoadMatches(h: seq<Char>, n: seq<Char>, i: nat)
    requires i + |n| <= |h| && |n| <= MAX
    ensures Load(Cut(h, i, |n|)) == Load(n) <==> Occurs(h, n, i)
  {
    LoadInjective(Cut(h, i, |n|), n);
  }

  lemma CutGrows(s: seq<Char>, len: nat)
    requires len < |s|
    ensures Cut(s, 0, len) + [s[len]] == Cut(s, 0, len + 1)
  {
  }

  lemma CutMoves(s: seq<Char>, from: nat, len: nat)
    requires 0 < len && from + len < |s|
    ensures Cut(s, from, len)[1..] + [s[from + len]] == Cut(s, from + 1, len)
  {
  }

  lemma CutAll(s: seq<Char>)
    ensures Cut(s, 0, |s|) == s && Cut(s, 0, 0) == []
  {
  }

  lemma WindowGrows(s: seq<Char>, len: nat, size: nat)
    requires len < |s| && len < size
    ensures Or(Pack(Cut(s, 0, len), size), ShiftUp(Extend(s[len]), size - 1 - len)) == Pack(Cut(s, 0, len + 1), size)
  {
    hide Or, ShiftUp, Extend;
    CutGrows(s, len);
    assert Cut(s, 0, len + 1)[..len] == Cut(s, 0, len);
  }

  lemma WindowMoves(s: seq<Char>, from: nat, len: nat, size: nat)
    requires 0 < len <= size <= MAX && from + len < |s|
    ensures Or(ShiftByte(Pack(Cut(s, from, len), size), size), ShiftUp(Extend(s[from + len]), size - len))
         == Pack(Cut(s, from + 1, len), size)
  {
    hide Or, ShiftUp, Extend, Pack, Cut, ShiftByte;
    PackMoves(Cut(s, from, len), s[from + len], size);
    CutMoves(s, from, len);
  }

  /** Needles that do not fill the word: a window is moved along the text. */
  method UnalignedFind(h: seq<Char>, n: seq<Char>, size: nat) returns (r: int)
    requires 0 < |n| < size <= MAX && |h| < UINT32
    ensures IsFirst(h, n, r)
  {
    hide Pack, ShiftByte, ShiftUp, Or, Extend, Cut, Occurs;
    if |n| > |h| {
      TooLong(h, n);
      return -1;
    }
    var needleEntry: Word, haystackEntry: Word := 0, 0;
    CutAll(n);
    CutAll(h);
    PackNone(size);
    for i := 0 to |n|
      invariant needleEntry == Pack(Cut(n, 0, i), size) && haystackEntry == Pack(Cut(h, 0, i), size)
    {
      WindowGrows(n, i, size);
      WindowGrows(h, i, size);
      needleEntry := Or(needleEntry, ShiftUp(Extend(n[i]), size - 1 - i));
      haystackEntry := Or(haystackEntry, ShiftUp(Extend(h[i]), size - 1 - i));
    }
    for offset := |n| to |h|
      invariant haystackEntry == Pack(Cut(h, offset - |n|, |n|), size)
      invariant forall i :: 0 <= i < offset - |n| ==> !Occurs(h, n, i)
    {
      WindowMatches(h, n, offset - |n|, size);
      if haystackEntry == needleEntry {
        return offset - |n|;
      }
      WindowMoves(h, offset - |n|, |n|, size);
      haystackEntry := Or(ShiftByte(haystackEntry, size), ShiftUp(Extend(h[offset]), size - |n|));
    }
    WindowMatches(h, n, |h| - |n|, size);
    if haystackEntry == needleEntry {
      return |h| - |n|;
    }
    NoMore(h, n);
    return -1;
  }

  lemma PackNone(size: nat)
    ensures Pack([], size) == 0
  {
  }

  lemma TooLong(h: seq<Char>, n: seq<Char>)
    requires |n| > |h|
    ensures IsFirst(h, n, -1)
  {
  }

  lemma NoMore(h: seq<Char>, n: seq<Char>)
    requires |n| <= |h| && forall i :: 0 <= i <= |h| - |n| ==> !Occurs(h, n, i)
    ensures IsFirst(h, n, -1)
  {
  }

  /** Needles that fill the word: the word is loaded at every position. */
  method AlignedFind(h: seq<Char>, n: seq<Char>) returns (r: int)
    requires 0 < |n| <= MAX && |h| < UINT32
    ensures IsFirst(h, n, r)
  {
    hide Load, Occurs;
    if |n| > |h| {
      TooLong(h, n);
      return -1;
    }
    var needleVal := Load(n);
    for offset := 0 to |h| - |n| + 1
      invariant forall i :: 0 <= i < offset ==> !Occurs(h, n, i)
    {
      LoadMatches(h, n, offset);
      var haystackVal := Load(h[offset..offset + |n|]);
      if needleVal == haystackVal {
        return offset;
      }
    }
    NoMore(h, n);
    return -1;
  }

  // ---------------------------------------------------------------- rolling sums

  /** An unsigned 32-bit result. */
  function Wrap(x: int): nat {
    x % UINT32
  }

  /** A character as a number. */
  function Code(b: Char): nat { b as nat }

  function Sum(s: seq<Char>): nat {
    if s == [] then 0 else Sum(s[..|s| - 1]) + Code(s[|s| - 1])
  }

  lemma {:induction false} SumFront(s: seq<Char>)
    requires s != []
    ensures Sum(s) == Code(s[0]) + Sum(s[1..])
    decreases |s|
  {
    if |s| > 1 {
      var front := s[..|s| - 1];
      SumFront(front);
      assert front[1..] == s[1..][..|s| - 2];
    } else {
      assert s[1..] == [];
    }
  }

  /** Moving the window by one place. */
  lemma SumMoves(h: seq<Char>, from: nat, n: nat)
    requires 0 < n && from + n < |h|
    ensures Sum(Cut(h, from + 1, n)) == Sum(Cut(h, from, n)) - Code(h[from]) + Code(h[from + n])
  {
    SumFront(h[from..from + n]);
    assert h[from..from + n][1..] == h[from + 1..from + n];
    assert h[from + 1..from + 1 + n][..n - 1] == h[from + 1..from + n];
  }

  /** Other needles: the sums are compared first, as 32-bit differences. */
  method GenericFind(h: seq<Char>, n: seq<Char>) returns (r: int)
    requires 0 < |n| && |h| < UINT32
    ensures IsFirst(h, n, r)
  {
    hide Sum, Wrap, Cut, Occurs, Code;
    if |n| > |h| {
      TooLong(h, n);
      return -1;
    }
    CutAll(n);
    CutAll(h);
    SumNone();
    var sumsDiff: nat := 0;
    for i := 0 to |n|
      invariant sumsDiff == Wrap(Sum(Cut(h, 0, i)) - Sum(Cut(n, 0, i)))
    {
      SumNext(h, i);
      SumNext(n, i);
      WrapMoves(Sum(Cut(h, 0, i)) - Sum(Cut(n, 0, i)), Code(h[i]), Code(n[i]));
      sumsDiff := Wrap(sumsDiff + Code(h[i]));
      sumsDiff := Wrap(sumsDiff - Code(n[i]));
    }
    var offset: nat := 0;
    while true
      invariant offset + |n| <= |h| && sumsDiff == Wrap(Sum(Cut(h, offset, |n|)) - Sum(n))
      invariant forall i :: 0 <= i < offset ==> !Occurs(h, n, i)
      decreases |h| - offset
    {
      if sumsDiff == 0 && h[offset] == n[0] {
        var same := Occurs(h, n, offset);
        if same {
          return offset;
        }
      }
      SumOfMatch(h, n, offset);
      if offset >= |h| - |n| {
        NoMore(h, n);
        return -1;
      }
      SumMoves(h, offset, |n|);
      WrapMoves(Sum(Cut(h, offset, |n|)) - Sum(n), Code(h[offset + |n|]), Code(h[offset]));
      sumsDiff := Wrap(sumsDiff - Code(h[offset]));
      sumsDiff := Wrap(sumsDiff + Code(h[offset + |n|]));
      offset := offset + 1;
    }
  }

  lemma SumNone()
    ensures 0 == Wrap(Sum([]) - Sum([]))
  {
  }

  lemma SumNext(s: seq<Char>, i: nat)
    requires i < |s|
    ensures Sum(Cut(s, 0, i + 1)) == Sum(Cut(s, 0, i)) + Code(s[i])
  {
    assert Cut(s, 0, i + 1)[..i] == Cut(s, 0, i);
  }

  /** Adding and subtracting with 32 bits. */
  lemma WrapMoves(x: int, a: int, b: int)
    ensures Wrap(Wrap(Wrap(x) + a) - b) == Wrap(x + a - b)
    ensures Wrap(Wrap(Wrap(x) - b) + a) == Wrap(x + a - b)
  {
  }

  /** No match is missed: an occurrence has the needle's sum and first character. */
  lemma SumOfMatch(h: seq<Char>, n: seq<Char>, i: nat)
    requires 0 < |n| && i + |n| <= |h|
    ensures Occurs(h, n, i) ==> Wrap(Sum(Cut(h, i, |n|)) - Sum(n)) == 0 && h[i] == n[0]
  {
    assert h[i] == h[i..i + |n|][0];
  }

  // ---------------------------------------------------------------- the search

  /** `memchr`. */
  method FirstChar(h: seq<Char>, b: Char) returns (r: int)
    ensures -1 <= r < |h| && (r >= 0 ==> h[r] == b)
    ensures forall i :: 0 <= i < |h| && (r >= 0 ==> i < r) ==> h[i] != b
  {
    for i := 0 to |h|
      invariant forall j :: 0 <= j < i ==> h[j] != b
    {
      if h[i] == b {
        return i;
      }
    }
    return -1;
  }

  method FindFirst(h: seq<Char>, n: seq<Char>) returns (r: int)
    requires 0 < |n| < UINT32 && |h| < UINT32
    ensures IsFirst(h, n, r)
  {
    var first := FirstChar(h, n[0]);
    if first == -1 {
      NoFirstChar(h, n);
      return -1;
    }
    var rest := h[first..];
    var found: int;
    if |n| == 1 {
      assert rest[0..1] == n;
      found := 0;
    } else if |n| == 2 || |n| == 4 || |n| == 8 {
      found := AlignedFind(rest, n);
    } else if |n| == 3 {
      found := UnalignedFind(rest, n, 4);
    } else if 5 <= |n| <= 7 {
      found := UnalignedFind(rest, n, 8);
    } else {
      found := GenericFind(rest, n);
    }
    FromFirstChar(h, n, first, found);
    return if found == -1 then -1 else first + found;
  }

  lemma NoFirstChar(h: seq<Char>, n: seq<Char>)
    requires n != [] && forall i :: 0 <= i < |h| ==> h[i] != n[0]
    ensures IsFirst(h, n, -1)
  {
    FromFirstChar(h, n, |h|, -1);
  }
}
