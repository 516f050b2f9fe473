/**
 The MD5 compression function: the unrolled steps of `MD5Transform` against the table-driven
 form of section 3.4 of RFC 1321.
 */
module Md5Transform {

  type Word = bv32

  datatype State = State(a: Word, b: Word, c: Word, d: Word)

  // ---------------------------------------------------------------- the four auxiliary functions

  /** F, G, H and I of the standard. */
  function Aux(round: nat, x: Word, y: Word, z: Word): Word {
    if round == 0 then (x & y) | (!x & z)
    else if round == 1 then (x & z) | (y & !z)
    else if round == 2 then x ^ y ^ z
    else y ^ (x | !z)
  }

  /** The forms used in the code. */
  function F1(x: Word, y: Word, z: Word): Word { z ^ (x & (y ^ z)) }

  function F2(x: Word, y: Word, z: Word): Word { F1(z, x, y) }

  function F3(x: Word, y: Word, z: Word): Word { x ^ y ^ z }

  function F4(x: Word, y: Word, z: Word): Word { y ^ (x | !z) }

  lemma FirstForm(x: Word, y: Word, z: Word)
    ensures z ^ (x & (y ^ z)) == (x & y) | (!x & z)
  {
  }

  lemma SecondForm(x: Word, y: Word, z: Word)
    ensures y ^ (z & (x ^ y)) == (x & z) | (y & !z)
  {
  }

  lemma AuxForm1(x: Word, y: Word, z: Word)
    ensures F1(x, y, z) == Aux(0, x, y, z)
  {
    FirstForm(x, y, z);
  }

  lemma AuxForm2(x: Word, y: Word, z: Word)
    ensures F2(x, y, z) == Aux(1, x, y, z)
  {
    SecondForm(x, y, z);
  }

  lemma AuxForms(x: Word, y: Word, z: Word)
    ensures F1(x, y, z) == Aux(0, x, y, z) && F2(x, y, z) == Aux(1, x, y, z)
    ensures F3(x, y, z) == Aux(2, x, y, z) && F4(x, y, z) == Aux(3, x, y, z)
  {
    AuxForm1(x, y, z);
    AuxForm2(x, y, z);
    hide F1, F2;
  }

  function Rotate(w: Word, s: nat): Word
    requires s < 32
  {
    (w << s) | (w >> (32 - s))
  }

  // ---------------------------------------------------------------- the standard's tables

  /** The constant of a step: the integer part of 4294967296 times the absolute sine of n + 1. */
  function Sine(n: nat): Word {
    if n < 16 then Sine1(n) else if n < 32 then Sine2(n) else if n < 48 then Sine3(n) else Sine4(n)
  }

  function Sine1(n: nat): Word {
    if n == 0 then 0xd76aa478 else if n == 1 then 0xe8c7b756 else if n == 2 then 0x242070db else if n == 3 then 0xc1bdceee else
    if n == 4 then 0xf57c0faf else if n == 5 then 0x4787c62a else if n == 6 then 0xa8304613 else if n == 7 then 0xfd469501 else
    if n == 8 then 0x698098d8 else if n == 9 then 0x8b44f7af else if n == 10 then 0xffff5bb1 else if n == 11 then 0x895cd7be else
    if n == 12 then 0x6b901122 else if n == 13 then 0xfd987193 else if n == 14 then 0xa679438e else 0x49b40821
  }

  function Sine2(n: nat): Word {
    if n == 16 then 0xf61e2562 else if n == 17 then 0xc040b340 else if n == 18 then 0x265e5a51 else if n == 19 then 0xe9b6c7aa else
    if n == 20 then 0xd62f105d else if n == 21 then 0x02441453 else if n == 22 then 0xd8a1e681 else if n == 23 then 0xe7d3fbc8 else
    if n == 24 then 0x21e1cde6 else if n == 25 then 0xc33707d6 else if n == 26 then 0xf4d50d87 else if n == 27 then 0x455a14ed else
    if n == 28 then 0xa9e3e905 else if n == 29 then 0xfcefa3f8 else if n == 30 then 0x676f02d9 else 0x8d2a4c8a
  }

  function Sine3(n: nat): Word {
    if n == 32 then 0xfffa3942 else if n == 33 then 0x8771f681 else if n == 34 then 0x6d9d6122 else if n == 35 then 0xfde5380c else
    if n == 36 then 0xa4beea44 else if n == 37 then 0x4bdecfa9 else if n == 38 then 0xf6bb4b60 else if n == 39 then 0xbebfbc70 else
    if n == 40 then 0x289b7ec6 else if n == 41 then 0xeaa127fa else if n == 42 then 0xd4ef3085 else if n == 43 then 0x04881d05 else
    if n == 44 then 0xd9d4d039 else if n == 45 then 0xe6db99e5 else if n == 46 then 0x1fa27cf8 else 0xc4ac5665
  }

  function Sine4(n: nat): Word {
    if n == 48 then 0xf4292244 else if n == 49 then 0x432aff97 else if n == 50 then 0xab9423a7 else if n == 51 then 0xfc93a039 else
    if n == 52 then 0x655b59c3 else if n == 53 then 0x8f0ccc92 else if n == 54 then 0xffeff47d else if n == 55 then 0x85845dd1 else
    if n == 56 then 0x6fa87e4f else if n == 57 then 0xfe2ce6e0 else if n == 58 then 0xa3014314 else if n == 59 then 0x4e0811a1 else
    if n == 60 then 0xf7537e82 else if n == 61 then 0xbd3af235 else if n == 62 then 0x2ad7d2bb else 0xeb86d391
  }

  const STEPS: nat := 64

  /** Which word of the block a step adds. */
  function Index(n: nat): (k: nat)
    requires n < 64
    ensures k < 16
  {
    if n < 16 then n
    else if n < 32 then (5 * n + 1) % 16
    else if n < 48 then (3 * n + 5) % 16
    else (7 * n) % 16
  }

  /** By how much a step rotates. */
  function Shift(n: nat): (s: nat)
    requires n < 64
    ensures s < 32
  {
    var row := if n < 16 then [7, 12, 17, 22] else if n < 32 then [5, 9, 14, 20] else if n < 48 then [4, 11, 16, 23] else [6, 10, 15, 21];
    row[n % 4]
  }

  /** One operation: `b + ((a + f(b, c, d) + x + t) <<< s)`. */
  function Operation(round: nat, a: Word, b: Word, c: Word, d: Word, x: Word, t: Word, s: nat): Word
    requires s < 32
  {
    b + Rotate(a + Aux(round, b, c, d) + x + t, s)
  }

  /** One step of the standard, which turns the registers round. */
  function Step(st: State, x: seq<Word>, n: nat): State
    requires |x| == 16 && n < 64
  {
    State(st.d, Operation(n / 16, st.a, st.b, st.c, st.d, x[Index(n)], Sine(n), Shift(n)), st.b, st.c)
  }

  function Steps(st: State, x: seq<Word>, n: nat): State
    requires |x| == 16 && n <= 64
  {
    if n == 0 then st else Step(Steps(st, x, n - 1), x, n - 1)
  }

  /** The new chaining state after one block of sixteen words. */
  function Transform(st: State, x: seq<Word>): State
    requires |x| == 16
  {
    Sum(st, Steps(st, x, STEPS))
  }

  // ---------------------------------------------------------------- the code

  /** The central step: `w += f + data`, rotate, `w += x`, where data is a word of the block plus a constant. */
  function Md5Step(w: Word, f: Word, x: Word, data: Word, t: Word, s: nat): Word
    requires s < 32
  {
    Rotate(w + (f + (data + t)), s) + x
  }

  lemma RawStep(a: Word, b: Word, f: Word, x: Word, t: Word, s: nat)
    requires s < 32
    ensures Rotate(a + (f + (x + t)), s) + b == b + Rotate(a + f + x + t, s)
  {
    hide Rotate;
  }

  lemma StepIsOperation(round: nat, a: Word, b: Word, c: Word, d: Word, f: Word, x: Word, t: Word, s: nat)
    requires s < 32 && f == Aux(round, b, c, d)
    ensures Md5Step(a, f, b, x, t, s) == Operation(round, a, b, c, d, x, t, s)
  {
    hide Rotate, Aux;
    RawStep(a, b, f, x, t, s);
  }

  /** What one unrolled step does to the registers of the standard. */
  lemma NextStep(st: State, x: seq<Word>, n: nat, cur: State, f: Word, k: nat, t: Word, s: nat)
    requires |x| == 16 && n < 64 && Steps(st, x, n) == cur && f == Aux(n / 16, cur.b, cur.c, cur.d)
    requires k == Index(n) && t == Sine(n) && s == Shift(n)
    ensures Steps(st, x, n + 1) == State(cur.d, Md5Step(cur.a, f, cur.b, x[k], t, s), cur.b, cur.c)
  {
    hide Aux, Md5Step, Operation, Index, Shift, Sine;
    StepIsOperation(n / 16, cur.a, cur.b, cur.c, cur.d, f, x[k], t, s);
  }

  /** Four steps in a row with F1. */
  method Quad1(x: seq<Word>, from: State, k0: nat, t0: Word, k1: nat, t1: Word, k2: nat, t2: Word, k3: nat, t3: Word,
               ghost st: State, ghost n: nat)
    returns (r: State)
    requires |x| == 16 && 0 <= n <= 12 && n % 4 == 0 && Steps(st, x, n) == from
    requires k0 == Index(n) && k1 == Index(n + 1) && k2 == Index(n + 2) && k3 == Index(n + 3)
    requires t0 == Sine(n) && t1 == Sine(n + 1) && t2 == Sine(n + 2) && t3 == Sine(n + 3)
    ensures Steps(st, x, n + 4) == r
  {
    hide F1, F2, F3, F4, Aux, Md5Step, Steps, Operation, Index, Sine;
    var a, b, c, d := from.a, from.b, from.c, from.d;
    AuxForms(b, c, d);
    NextStep(st, x, n, State(a, b, c, d), F1(b, c, d), k0, t0, 7);
    a := Md5Step(a, F1(b, c, d), b, x[k0], t0, 7);
    AuxForms(a, b, c);
    NextStep(st, x, n + 1, State(d, a, b, c), F1(a, b, c), k1, t1, 12);
    d := Md5Step(d, F1(a, b, c), a, x[k1], t1, 12);
    AuxForms(d, a, b);
    NextStep(st, x, n + 2, State(c, d, a, b), F1(d, a, b), k2, t2, 17);
    c := Md5Step(c, F1(d, a, b), d, x[k2], t2, 17);
    AuxForms(c, d, a);
    NextStep(st, x, n + 3, State(b, c, d, a), F1(c, d, a), k3, t3, 22);
    b := Md5Step(b, F1(c, d, a), c, x[k3], t3, 22);
    r := State(a, b, c, d);
  }

  /** Four steps in a row with F2. */
  method Quad2(x: seq<Word>, from: State, k0: nat, t0: Word, k1: nat, t1: Word, k2: nat, t2: Word, k3: nat, t3: Word,
               ghost st: State, ghost n: nat)
    returns (r: State)
    requires |x| == 16 && 16 <= n <= 28 && n % 4 == 0 && Steps(st, x, n) == from
    requires k0 == Index(n) && k1 == Index(n + 1) && k2 == Index(n + 2) && k3 == Index(n + 3)
    requires t0 == Sine(n) && t1 == Sine(n + 1) && t2 == Sine(n + 2) && t3 == Sine(n + 3)
    ensures Steps(st, x, n + 4) == r
  {
    hide F1, F2, F3, F4, Aux, Md5Step, Steps, Operation, Index, Sine;
    var a, b, c, d := from.a, from.b, from.c, from.d;
    AuxForms(b, c, d);
    NextStep(st, x, n, State(a, b, c, d), F2(b, c, d), k0, t0, 5);
    a := Md5Step(a, F2(b, c, d), b, x[k0], t0, 5);
    AuxForms(a, b, c);
    NextStep(st, x, n + 1, State(d, a, b, c), F2(a, b, c), k1, t1, 9);
    d := Md5Step(d, F2(a, b, c), a, x[k1], t1, 9);
    AuxForms(d, a, b);
    NextStep(st, x, n + 2, State(c, d, a, b), F2(d, a, b), k2, t2, 14);
    c := Md5Step(c, F2(d, a, b), d, x[k2], t2, 14);
    AuxForms(c, d, a);
    NextStep(st, x, n + 3, State(b, c, d, a), F2(c, d, a), k3, t3, 20);
    b := Md5Step(b, F2(c, d, a), c, x[k3], t3, 20);
    r := State(a, b, c, d);
  }

  /** Four steps in a row with F3. */
  method Quad3(x: seq<Word>, from: State, k0: nat, t0: Word, k1: nat, t1: Word, k2: nat, t2: Word, k3: nat, t3: Word,
               ghost st: State, ghost n: nat)
    returns (r: State)
    requires |x| == 16 && 32 <= n <= 44 && n % 4 == 0 && Steps(st, x, n) == from
    requires k0 == Index(n) && k1 == Index(n + 1) && k2 == Index(n + 2) && k3 == Index(n + 3)
    requires t0 == Sine(n) && t1 == Sine(n + 1) && t2 == Sine(n + 2) && t3 == Sine(n + 3)
    ensures Steps(st, x, n + 4) == r
  {
    hide F1, F2, F3, F4, Aux, Md5Step, Steps, Operation, Index, Sine;
    var a, b, c, d := from.a, from.b, from.c, from.d;
    AuxForms(b, c, d);
    NextStep(st, x, n, State(a, b, c, d), F3(b, c, d), k0, t0, 4);
    a := Md5Step(a, F3(b, c, d), b, x[k0], t0, 4);
    AuxForms(a, b, c);
    NextStep(st, x, n + 1, State(d, a, b, c), F3(a, b, c), k1, t1, 11);
    d := Md5Step(d, F3(a, b, c), a, x[k1], t1, 11);
    AuxForms(d, a, b);
    NextStep(st, x, n + 2, State(c, d, a, b), F3(d, a, b), k2, t2, 16);
    c := Md5Step(c, F3(d, a, b), d, x[k2], t2, 16);
    AuxForms(c, d, a);
    NextStep(st, x, n + 3, State(b, c, d, a), F3(c, d, a), k3, t3, 23);
    b := Md5Step(b, F3(c, d, a), c, x[k3], t3, 23);
    r := State(a, b, c, d);
  }

  /** Four steps in a row with F4. */
  method Quad4(x: seq<Word>, from: State, k0: nat, t0: Word, k1: nat, t1: Word, k2: nat, t2: Word, k3: nat, t3: Word,
               ghost st: State, ghost n: nat)
    returns (r: State)
    requires |x| == 16 && 48 <= n <= 60 && n % 4 == 0 && Steps(st, x, n) == from
    requires k0 == Index(n) && k1 == Index(n + 1) && k2 == Index(n + 2) && k3 == Index(n + 3)
    requires t0 == Sine(n) && t1 == Sine(n + 1) && t2 == Sine(n + 2) && t3 == Sine(n + 3)
    ensures Steps(st, x, n + 4) == r
  {
    hide F1, F2, F3, F4, Aux, Md5Step, Steps, Operation, Index, Sine;
    var a, b, c, d := from.a, from.b, from.c, from.d;
    AuxForms(b, c, d);
    NextStep(st, x, n, State(a, b, c, d), F4(b, c, d), k0, t0, 6);
    a := Md5Step(a, F4(b, c, d), b, x[k0], t0, 6);
    AuxForms(a, b, c);
    NextStep(st, x, n + 1, State(d, a, b, c), F4(a, b, c), k1, t1, 10);
    d := Md5Step(d, F4(a, b, c), a, x[k1], t1, 10);
    AuxForms(d, a, b);
    NextStep(st, x, n + 2, State(c, d, a, b), F4(d, a, b), k2, t2, 15);
    c := Md5Step(c, F4(d, a, b), d, x[k2], t2, 15);
    AuxForms(c, d, a);
    NextStep(st, x, n + 3, State(b, c, d, a), F4(c, d, a), k3, t3, 21);
    b := Md5Step(b, F4(c, d, a), c, x[k3], t3, 21);
    r := State(a, b, c, d);
  }

  method Round1(x: seq<Word>, from: State, ghost st: State, ghost n: nat) returns (r: State)
    requires |x| == 16 && n == 0 && Steps(st, x, n) == from
    ensures Steps(st, x, n + 16) == r
  {
    hide Steps;
    r := Quad1(x, from, 0, 0xd76aa478, 1, 0xe8c7b756, 2, 0x242070db, 3, 0xc1bdceee, st, n);
    r := Quad1(x, r, 4, 0xf57c0faf, 5, 0x4787c62a, 6, 0xa8304613, 7, 0xfd469501, st, n + 4);
    r := Quad1(x, r, 8, 0x698098d8, 9, 0x8b44f7af, 10, 0xffff5bb1, 11, 0x895cd7be, st, n + 8);
    r := Quad1(x, r, 12, 0x6b901122, 13, 0xfd987193, 14, 0xa679438e, 15, 0x49b40821, st, n + 12);
  }

  method Round2(x: seq<Word>, from: State, ghost st: State, ghost n: nat) returns (r: State)
    requires |x| == 16 && n == 16 && Steps(st, x, n) == from
    ensures Steps(st, x, n + 16) == r
  {
    hide Steps;
    r := Quad2(x, from, 1, 0xf61e2562, 6, 0xc040b340, 11, 0x265e5a51, 0, 0xe9b6c7aa, st, n);
    r := Quad2(x, r, 5, 0xd62f105d, 10, 0x02441453, 15, 0xd8a1e681, 4, 0xe7d3fbc8, st, n + 4);
    r := Quad2(x, r, 9, 0x21e1cde6, 14, 0xc33707d6, 3, 0xf4d50d87, 8, 0x455a14ed, st, n + 8);
    r := Quad2(x, r, 13, 0xa9e3e905, 2, 0xfcefa3f8, 7, 0x676f02d9, 12, 0x8d2a4c8a, st, n + 12);
  }

  method Round3(x: seq<Word>, from: State, ghost st: State, ghost n: nat) returns (r: State)
    requires |x| == 16 && n == 32 && Steps(st, x, n) == from
    ensures Steps(st, x, n + 16) == r
  {
    hide Steps;
    r := Quad3(x, from, 5, 0xfffa3942, 8, 0x8771f681, 11, 0x6d9d6122, 14, 0xfde5380c, st, n);
    r := Quad3(x, r, 1, 0xa4beea44, 4, 0x4bdecfa9, 7, 0xf6bb4b60, 10, 0xbebfbc70, st, n + 4);
    r := Quad3(x, r, 13, 0x289b7ec6, 0, 0xeaa127fa, 3, 0xd4ef3085, 6, 0x04881d05, st, n + 8);
    r := Quad3(x, r, 9, 0xd9d4d039, 12, 0xe6db99e5, 15, 0x1fa27cf8, 2, 0xc4ac5665, st, n + 12);
  }

  method Round4(x: seq<Word>, from: State, ghost st: State, ghost n: nat) returns (r: State)
    requires |x| == 16 && n == 48 && Steps(st, x, n) == from
    ensures Steps(st, x, n + 16) == r
  {
    hide Steps;
    r := Quad4(x, from, 0, 0xf4292244, 7, 0x432aff97, 14, 0xab9423a7, 5, 0xfc93a039, st, n);
    r := Quad4(x, r, 12, 0x655b59c3, 3, 0x8f0ccc92, 10, 0xffeff47d, 1, 0x85845dd1, st, n + 4);
    r := Quad4(x, r, 8, 0x6fa87e4f, 15, 0xfe2ce6e0, 6, 0xa3014314, 13, 0x4e0811a1, st, n + 8);
    r := Quad4(x, r, 4, 0xf7537e82, 11, 0xbd3af235, 2, 0x2ad7d2bb, 9, 0xeb86d391, st, n + 12);
  }

  function Sum(s: State, t: State): State {
    State(s.a + t.a, s.b + t.b, s.c + t.c, s.d + t.d)
  }

  /** `MD5Transform`. */
  method TransformBlock(st: State, x: seq<Word>) returns (r: State)
    requires |x| == 16
    ensures r == Transform(st, x)
  {
    hide Steps, Sum;
    ghost var n: nat := STEPS - 64;
    StepsNone(st, x, n);
    r := Round1(x, st, st, n);
    r := Round2(x, r, st, n + 16);
    r := Round3(x, r, st, n + 32);
    r := Round4(x, r, st, n + 48);
    r := Sum(st, r);
  }

  lemma StepsNone(st: State, x: seq<Word>, n: nat)
    requires |x| == 16 && n == 0
    ensures Steps(st, x, n) == st
  {
  }
}
