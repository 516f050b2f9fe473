/**
 A known digest: the message "abc" of section A.5 of RFC 1321, step by step.
 */
module Md5Example {
  import opened Md5
  import opened Md5Transform

  /** The words of the only block of the padded message: three characters and the 0x80 byte, and 24 bits. */
  ghost predicate IsAbc(x: seq<Word>) {
    |x| == 16 && x[0] == 0x80636261 && x[14] == 24 && forall i :: 0 <= i < 16 && i != 0 && i != 14 ==> x[i] == 0
  }

  /** What a step uses: a word of the block, a constant and a rotation. */
  ghost predicate Takes(n: nat, k: nat, t: Word, s: nat) {
    n < 64 && k == Index(n) && t == Sine(n) && s == Shift(n)
  }

  /** One step, given what it uses and the value that it puts in. */
  lemma StepTo(st: State, x: seq<Word>, n: nat, cur: State, round: nat, k: nat, word: Word, t: Word, s: nat, w: Word)
    requires |x| == 16 && n < 64 && Steps(st, x, n) == cur && round == n / 16 && Takes(n, k, t, s) && x[k] == word && s < 32
    requires Operation(round, cur.a, cur.b, cur.c, cur.d, word, t, s) == w
    ensures Steps(st, x, n + 1) == State(cur.d, w, cur.b, cur.c)
  {
    hide Operation, Index, Sine, Shift;
  }

  lemma Table1(n: nat)
    requires n == 0
    ensures Takes(n + 0, 0, 0xd76aa478, 7)
    ensures Takes(n + 1, 1, 0xe8c7b756, 12)
    ensures Takes(n + 2, 2, 0x242070db, 17)
    ensures Takes(n + 3, 3, 0xc1bdceee, 22)
    ensures Takes(n + 4, 4, 0xf57c0faf, 7)
    ensures Takes(n + 5, 5, 0x4787c62a, 12)
    ensures Takes(n + 6, 6, 0xa8304613, 17)
    ensures Takes(n + 7, 7, 0xfd469501, 22)
    ensures Takes(n + 8, 8, 0x698098d8, 7)
    ensures Takes(n + 9, 9, 0x8b44f7af, 12)
    ensures Takes(n + 10, 10, 0xffff5bb1, 17)
    ensures Takes(n + 11, 11, 0x895cd7be, 22)
    ensures Takes(n + 12, 12, 0x6b901122, 7)
    ensures Takes(n + 13, 13, 0xfd987193, 12)
    ensures Takes(n + 14, 14, 0xa679438e, 17)
    ensures Takes(n + 15, 15, 0x49b40821, 22)
  {
  }

  lemma Table2(n: nat)
    requires n == 16
    ensures Takes(n + 0, 1, 0xf61e2562, 5)
    ensures Takes(n + 1, 6, 0xc040b340, 9)
    ensures Takes(n + 2, 11, 0x265e5a51, 14)
    ensures Takes(n + 3, 0, 0xe9b6c7aa, 20)
    ensures Takes(n + 4, 5, 0xd62f105d, 5)
    ensures Takes(n + 5, 10, 0x02441453, 9)
    ensures Takes(n + 6, 15, 0xd8a1e681, 14)
    ensures Takes(n + 7, 4, 0xe7d3fbc8, 20)
    ensures Takes(n + 8, 9, 0x21e1cde6, 5)
    ensures Takes(n + 9, 14, 0xc33707d6, 9)
    ensures Takes(n + 10, 3, 0xf4d50d87, 14)
    ensures Takes(n + 11, 8, 0x455a14ed, 20)
    ensures Takes(n + 12, 13, 0xa9e3e905, 5)
    ensures Takes(n + 13, 2, 0xfcefa3f8, 9)
    ensures Takes(n + 14, 7, 0x676f02d9, 14)
    ensures Takes(n + 15, 12, 0x8d2a4c8a, 20)
  {
  }

  lemma Table3(n: nat)
    requires n == 32
    ensures Takes(n + 0, 5, 0xfffa3942, 4)
    ensures Takes(n + 1, 8, 0x8771f681, 11)
    ensures Takes(n + 2, 11, 0x6d9d6122, 16)
    ensures Takes(n + 3, 14, 0xfde5380c, 23)
    ensures Takes(n + 4, 1, 0xa4beea44, 4)
    ensures Takes(n + 5, 4, 0x4bdecfa9, 11)
    ensures Takes(n + 6, 7, 0xf6bb4b60, 16)
    ensures Takes(n + 7, 10, 0xbebfbc70, 23)
    ensures Takes(n + 8, 13, 0x289b7ec6, 4)
    ensures Takes(n + 9, 0, 0xeaa127fa, 11)
    ensures Takes(n + 10, 3, 0xd4ef3085, 16)
    ensures Takes(n + 11, 6, 0x04881d05, 23)
    ensures Takes(n + 12, 9, 0xd9d4d039, 4)
    ensures Takes(n + 13, 12, 0xe6db99e5, 11)
    ensures Takes(n + 14, 15, 0x1fa27cf8, 16)
    ensures Takes(n + 15, 2, 0xc4ac5665, 23)
  {
  }

  lemma Table4(n: nat)
    requires n == 48
    ensures Takes(n + 0, 0, 0xf4292244, 6)
    ensures Takes(n + 1, 7, 0x432aff97, 10)
    ensures Takes(n + 2, 14, 0xab9423a7, 15)
    ensures Takes(n + 3, 5, 0xfc93a039, 21)
    ensures Takes(n + 4, 12, 0x655b59c3, 6)
    ensures Takes(n + 5, 3, 0x8f0ccc92, 10)
    ensures Takes(n + 6, 10, 0xffeff47d, 15)
    ensures Takes(n + 7, 1, 0x85845dd1, 21)
    ensures Takes(n + 8, 8, 0x6fa87e4f, 6)
    ensures Takes(n + 9, 15, 0xfe2ce6e0, 10)
    ensures Takes(n + 10, 6, 0xa3014314, 15)
    ensures Takes(n + 11, 13, 0x4e0811a1, 21)
    ensures Takes(n + 12, 4, 0xf7537e82, 6)
    ensures Takes(n + 13, 11, 0xbd3af235, 10)
    ensures Takes(n + 14, 2, 0x2ad7d2bb, 15)
    ensures Takes(n + 15, 9, 0xeb86d391, 21)
  {
  }

  lemma Steps0(st: State, x: seq<Word>, n: nat)
    requires IsAbc(x) && n == 0 && Steps(st, x, n) == State(0x67452301, 0xefcdab89, 0x98badcfe, 0x10325476)
    ensures Steps(st, x, n + 8) == State(0xc73741ef, 0x928d99f6, 0x207dc67b, 0x8bac3051)
  {
    hide Steps, Takes;
    Table1(n - 0);
    StepTo(st, x, n, State(0x67452301, 0xefcdab89, 0x98badcfe, 0x10325476), 0, 0, 0x80636261, 0xd76aa478, 7, 0xd6d117b4);
    StepTo(st, x, n + 1, State(0x10325476, 0xd6d117b4, 0xefcdab89, 0x98badcfe), 0, 1, 0, 0xe8c7b756, 12, 0x344a8432);
    StepTo(st, x, n + 2, State(0x98badcfe, 0x344a8432, 0xd6d117b4, 0xefcdab89), 0, 2, 0, 0x242070db, 17, 0x2f6fbd72);
    StepTo(st, x, n + 3, State(0xefcdab89, 0x2f6fbd72, 0x344a8432, 0xd6d117b4), 0, 3, 0, 0xc1bdceee, 22, 0x7ad956f2);
    StepTo(st, x, n + 4, State(0xd6d117b4, 0x7ad956f2, 0x2f6fbd72, 0x344a8432), 0, 4, 0, 0xf57c0faf, 7, 0xc73741ef);
    StepTo(st, x, n + 5, State(0x344a8432, 0xc73741ef, 0x7ad956f2, 0x2f6fbd72), 0, 5, 0, 0x4787c62a, 12, 0x8bac3051);
    StepTo(st, x, n + 6, State(0x2f6fbd72, 0x8bac3051, 0xc73741ef, 0x7ad956f2), 0, 6, 0, 0xa8304613, 17, 0x207dc67b);
    StepTo(st, x, n + 7, State(0x7ad956f2, 0x207dc67b, 0x8bac3051, 0xc73741ef), 0, 7, 0, 0xfd469501, 22, 0x928d99f6);
  }

  lemma Steps8(st: State, x: seq<Word>, n: nat)
    requires IsAbc(x) && n == 8 && Steps(st, x, n) == State(0xc73741ef, 0x928d99f6, 0x207dc67b, 0x8bac3051)
    ensures Steps(st, x, n + 8) == State(0xdda9b9a6, 0x72aff2e0, 0xe396856b, 0xa1051895)
  {
    hide Steps, Takes;
    Table1(n - 8);
    StepTo(st, x, n, State(0xc73741ef, 0x928d99f6, 0x207dc67b, 0x8bac3051), 0, 8, 0, 0x698098d8, 7, 0x854b3712);
    StepTo(st, x, n + 1, State(0x8bac3051, 0x854b3712, 0x928d99f6, 0x207dc67b), 0, 9, 0, 0x8b44f7af, 12, 0x74e2f284);
    StepTo(st, x, n + 2, State(0x207dc67b, 0x74e2f284, 0x854b3712, 0x928d99f6), 0, 10, 0, 0xffff5bb1, 17, 0x3020401c);
    StepTo(st, x, n + 3, State(0x928d99f6, 0x3020401c, 0x74e2f284, 0x854b3712), 0, 11, 0, 0x895cd7be, 22, 0x5ed49596);
    StepTo(st, x, n + 4, State(0x854b3712, 0x5ed49596, 0x3020401c, 0x74e2f284), 0, 12, 0, 0x6b901122, 7, 0xdda9b9a6);
    StepTo(st, x, n + 5, State(0x74e2f284, 0xdda9b9a6, 0x5ed49596, 0x3020401c), 0, 13, 0, 0xfd987193, 12, 0xa1051895);
    StepTo(st, x, n + 6, State(0x3020401c, 0xa1051895, 0xdda9b9a6, 0x5ed49596), 0, 14, 0x00000018, 0xa679438e, 17, 0xe396856b);
    StepTo(st, x, n + 7, State(0x5ed49596, 0xe396856b, 0xa1051895, 0xdda9b9a6), 0, 15, 0, 0x49b40821, 22, 0x72aff2e0);
  }

  lemma Steps16(st: State, x: seq<Word>, n: nat)
    requires IsAbc(x) && n == 16 && Steps(st, x, n) == State(0xdda9b9a6, 0x72aff2e0, 0xe396856b, 0xa1051895)
    ensures Steps(st, x, n + 8) == State(0x59a8ffda, 0x47092c07, 0xabfc7920, 0x6d002f1e)
  {
    hide Steps, Takes;
    Table2(n - 0);
    StepTo(st, x, n, State(0xdda9b9a6, 0x72aff2e0, 0xe396856b, 0xa1051895), 1, 1, 0, 0xf61e2562, 5, 0x3e9e9126);
    StepTo(st, x, n + 1, State(0xa1051895, 0x3e9e9126, 0x72aff2e0, 0xe396856b), 1, 6, 0, 0xc040b340, 9, 0x4a1d804e);
    StepTo(st, x, n + 2, State(0xe396856b, 0x4a1d804e, 0x3e9e9126, 0x72aff2e0), 1, 11, 0, 0x265e5a51, 14, 0xe25e1652);
    StepTo(st, x, n + 3, State(0x72aff2e0, 0xe25e1652, 0x4a1d804e, 0x3e9e9126), 1, 0, 0x80636261, 0xe9b6c7aa, 20, 0xb5b204e4);
    StepTo(st, x, n + 4, State(0x3e9e9126, 0xb5b204e4, 0xe25e1652, 0x4a1d804e), 1, 5, 0, 0xd62f105d, 5, 0x59a8ffda);
    StepTo(st, x, n + 5, State(0x4a1d804e, 0x59a8ffda, 0xb5b204e4, 0xe25e1652), 1, 10, 0, 0x02441453, 9, 0x6d002f1e);
    StepTo(st, x, n + 6, State(0xe25e1652, 0x6d002f1e, 0x59a8ffda, 0xb5b204e4), 1, 15, 0, 0xd8a1e681, 14, 0xabfc7920);
    StepTo(st, x, n + 7, State(0xb5b204e4, 0xabfc7920, 0x6d002f1e, 0x59a8ffda), 1, 4, 0, 0xe7d3fbc8, 20, 0x47092c07);
  }

  lemma Steps24(st: State, x: seq<Word>, n: nat)
    requires IsAbc(x) && n == 24 && Steps(st, x, n) == State(0x59a8ffda, 0x47092c07, 0xabfc7920, 0x6d002f1e)
    ensures Steps(st, x, n + 8) == State(0x790a77fb, 0x726342d3, 0xa62884aa, 0x9f47e4f8)
  {
    hide Steps, Takes;
    Table2(n - 8);
    StepTo(st, x, n, State(0x59a8ffda, 0x47092c07, 0xabfc7920, 0x6d002f1e), 1, 9, 0, 0x21e1cde6, 5, 0xb7f268cf);
    StepTo(st, x, n + 1, State(0x6d002f1e, 0xb7f268cf, 0x47092c07, 0xabfc7920), 1, 14, 0x00000018, 0xc33707d6, 9, 0x09388eff);
    StepTo(st, x, n + 2, State(0xabfc7920, 0x09388eff, 0xb7f268cf, 0x47092c07), 1, 3, 0, 0xf4d50d87, 14, 0xfe1623b1);
    StepTo(st, x, n + 3, State(0x47092c07, 0xfe1623b1, 0x09388eff, 0xb7f268cf), 1, 8, 0, 0x455a14ed, 20, 0x786acb8f);
    StepTo(st, x, n + 4, State(0xb7f268cf, 0x786acb8f, 0xfe1623b1, 0x09388eff), 1, 13, 0, 0xa9e3e905, 5, 0x790a77fb);
    StepTo(st, x, n + 5, State(0x09388eff, 0x790a77fb, 0x786acb8f, 0xfe1623b1), 1, 2, 0, 0xfcefa3f8, 9, 0x9f47e4f8);
    StepTo(st, x, n + 6, State(0xfe1623b1, 0x9f47e4f8, 0x790a77fb, 0x786acb8f), 1, 7, 0, 0x676f02d9, 14, 0xa62884aa);
    StepTo(st, x, n + 7, State(0x786acb8f, 0xa62884aa, 0x9f47e4f8, 0x790a77fb), 1, 12, 0, 0x8d2a4c8a, 20, 0x726342d3);
  }

  lemma Steps32(st: State, x: seq<Word>, n: nat)
    requires IsAbc(x) && n == 32 && Steps(st, x, n) == State(0x790a77fb, 0x726342d3, 0xa62884aa, 0x9f47e4f8)
    ensures Steps(st, x, n + 8) == State(0x21b117b9, 0x5a2f5ea5, 0x3575227e, 0x6e7429d5)
  {
    hide Steps, Takes;
    Table3(n - 0);
    StepTo(st, x, n, State(0x790a77fb, 0x726342d3, 0xa62884aa, 0x9f47e4f8), 2, 5, 0, 0xfffa3942, 4, 0xb3707ebf);
    StepTo(st, x, n + 1, State(0x9f47e4f8, 0xb3707ebf, 0x726342d3, 0xa62884aa), 2, 8, 0, 0x8771f681, 11, 0x60127b2e);
    StepTo(st, x, n + 2, State(0xa62884aa, 0x60127b2e, 0xb3707ebf, 0x726342d3), 2, 11, 0, 0x6d9d6122, 16, 0x8d212ff5);
    StepTo(st, x, n + 3, State(0x726342d3, 0x8d212ff5, 0x60127b2e, 0xb3707ebf), 2, 14, 0x00000018, 0xfde5380c, 23, 0x3b0875c7);
    StepTo(st, x, n + 4, State(0xb3707ebf, 0x3b0875c7, 0x8d212ff5, 0x60127b2e), 2, 1, 0, 0xa4beea44, 4, 0x21b117b9);
    StepTo(st, x, n + 5, State(0x60127b2e, 0x21b117b9, 0x3b0875c7, 0x8d212ff5), 2, 4, 0, 0x4bdecfa9, 11, 0x6e7429d5);
    StepTo(st, x, n + 6, State(0x8d212ff5, 0x6e7429d5, 0x21b117b9, 0x3b0875c7), 2, 7, 0, 0xf6bb4b60, 16, 0x3575227e);
    StepTo(st, x, n + 7, State(0x3b0875c7, 0x3575227e, 0x6e7429d5, 0x21b117b9), 2, 10, 0, 0xbebfbc70, 23, 0x5a2f5ea5);
  }

  lemma Steps40(st: State, x: seq<Word>, n: nat)
    requires IsAbc(x) && n == 40 && Steps(st, x, n) == State(0x21b117b9, 0x5a2f5ea5, 0x3575227e, 0x6e7429d5)
    ensures Steps(st, x, n + 8) == State(0x7f2e507b, 0x7beb9700, 0x8fae6399, 0x99d9679d)
  {
    hide Steps, Takes;
    Table3(n - 8);
    StepTo(st, x, n, State(0x21b117b9, 0x5a2f5ea5, 0x3575227e, 0x6e7429d5), 2, 13, 0, 0x289b7ec6, 4, 0x11de1779);
    StepTo(st, x, n + 1, State(0x6e7429d5, 0x11de1779, 0x5a2f5ea5, 0x3575227e), 2, 0, 0x80636261, 0xeaa127fa, 11, 0xfadcaa38);
    StepTo(st, x, n + 2, State(0x3575227e, 0xfadcaa38, 0x11de1779, 0x5a2f5ea5), 2, 3, 0, 0xd4ef3085, 16, 0x31c465ca);
    StepTo(st, x, n + 3, State(0x5a2f5ea5, 0x31c465ca, 0xfadcaa38, 0x11de1779), 2, 6, 0, 0x04881d05, 23, 0x4c6124f4);
    StepTo(st, x, n + 4, State(0x11de1779, 0x4c6124f4, 0x31c465ca, 0xfadcaa38), 2, 9, 0, 0xd9d4d039, 4, 0x7f2e507b);
    StepTo(st, x, n + 5, State(0xfadcaa38, 0x7f2e507b, 0x4c6124f4, 0x31c465ca), 2, 12, 0, 0xe6db99e5, 11, 0x99d9679d);
    StepTo(st, x, n + 6, State(0x31c465ca, 0x99d9679d, 0x7f2e507b, 0x4c6124f4), 2, 15, 0, 0x1fa27cf8, 16, 0x8fae6399);
    StepTo(st, x, n + 7, State(0x4c6124f4, 0x8fae6399, 0x99d9679d, 0x7f2e507b), 2, 2, 0, 0xc4ac5665, 23, 0x7beb9700);
  }

  lemma Steps48(st: State, x: seq<Word>, n: nat)
    requires IsAbc(x) && n == 48 && Steps(st, x, n) == State(0x7f2e507b, 0x7beb9700, 0x8fae6399, 0x99d9679d)
    ensures Steps(st, x, n + 8) == State(0x06cc5e8a, 0x3bfa2c27, 0x7d632dd0, 0x5b0d97aa)
  {
    hide Steps, Takes;
    Table4(n - 0);
    StepTo(st, x, n, State(0x7f2e507b, 0x7beb9700, 0x8fae6399, 0x99d9679d), 3, 0, 0x80636261, 0xf4292244, 6, 0x7b201df8);
    StepTo(st, x, n + 1, State(0x99d9679d, 0x7b201df8, 0x7beb9700, 0x8fae6399), 3, 7, 0, 0x432aff97, 10, 0xf4e8e96e);
    StepTo(st, x, n + 2, State(0x8fae6399, 0xf4e8e96e, 0x7b201df8, 0x7beb9700), 3, 14, 0x00000018, 0xab9423a7, 15, 0xb298cefd);
    StepTo(st, x, n + 3, State(0x7beb9700, 0xb298cefd, 0xf4e8e96e, 0x7b201df8), 3, 5, 0, 0xfc93a039, 21, 0x8bf025c4);
    StepTo(st, x, n + 4, State(0x7b201df8, 0x8bf025c4, 0xb298cefd, 0xf4e8e96e), 3, 12, 0, 0x655b59c3, 6, 0x06cc5e8a);
    StepTo(st, x, n + 5, State(0xf4e8e96e, 0x06cc5e8a, 0x8bf025c4, 0xb298cefd), 3, 3, 0, 0x8f0ccc92, 10, 0x5b0d97aa);
    StepTo(st, x, n + 6, State(0xb298cefd, 0x5b0d97aa, 0x06cc5e8a, 0x8bf025c4), 3, 10, 0, 0xffeff47d, 15, 0x7d632dd0);
    StepTo(st, x, n + 7, State(0x8bf025c4, 0x7d632dd0, 0x5b0d97aa, 0x06cc5e8a), 3, 1, 0, 0x85845dd1, 21, 0x3bfa2c27);
  }

  lemma Steps56(st: State, x: seq<Word>, n: nat)
    requires IsAbc(x) && n == 56 && Steps(st, x, n) == State(0x06cc5e8a, 0x3bfa2c27, 0x7d632dd0, 0x5b0d97aa)
    ensures Steps(st, x, n + 8) == State(0x310ade8f, 0xc08226b3, 0xe484b9d8, 0x624d8cb2)
  {
    hide Steps, Takes;
    Table4(n - 8);
    StepTo(st, x, n, State(0x06cc5e8a, 0x3bfa2c27, 0x7d632dd0, 0x5b0d97aa), 3, 8, 0, 0x6fa87e4f, 6, 0x7f81cc35);
    StepTo(st, x, n + 1, State(0x5b0d97aa, 0x7f81cc35, 0x3bfa2c27, 0x7d632dd0), 3, 15, 0, 0xfe2ce6e0, 10, 0x094454ab);
    StepTo(st, x, n + 2, State(0x7d632dd0, 0x094454ab, 0x7f81cc35, 0x3bfa2c27), 3, 6, 0, 0xa3014314, 15, 0x4f9dbe3f);
    StepTo(st, x, n + 3, State(0x3bfa2c27, 0x4f9dbe3f, 0x094454ab, 0x7f81cc35), 3, 13, 0, 0x4e0811a1, 21, 0x7327d604);
    StepTo(st, x, n + 4, State(0x7f81cc35, 0x7327d604, 0x4f9dbe3f, 0x094454ab), 3, 4, 0, 0xf7537e82, 6, 0x310ade8f);
    StepTo(st, x, n + 5, State(0x094454ab, 0x310ade8f, 0x7327d604, 0x4f9dbe3f), 3, 11, 0, 0xbd3af235, 10, 0x624d8cb2);
    StepTo(st, x, n + 6, State(0x4f9dbe3f, 0x624d8cb2, 0x310ade8f, 0x7327d604), 3, 2, 0, 0x2ad7d2bb, 15, 0xe484b9d8);
    StepTo(st, x, n + 7, State(0x7327d604, 0xe484b9d8, 0x624d8cb2, 0x310ade8f), 3, 9, 0, 0xeb86d391, 21, 0xc08226b3);
  }

  lemma AbcLiterals()
    ensures AsWord(0x80636261) == 0x80636261 && AsWord(24) == 24 && AsWord(0) == 0
  {
  }

  lemma WordIs(block: seq<Byte>, i: nat, n: nat)
    requires |block| == BLOCK && i < 16 && NumberAt(block, i) == n
    ensures |Words(block)| == 16 && n < 0x1_0000_0000 && Words(block)[i] == AsWord(n)
  {
    hide NumberAt, AsWord;
  }

  lemma AbcNumbers(p: seq<Byte>)
    requires |p| == BLOCK && p[0] == 0x61 && p[1] == 0x62 && p[2] == 0x63 && p[3] == 0x80 && p[56] == 24
    requires forall i :: 4 <= i < 64 && i != 56 ==> p[i] == 0
    ensures NumberAt(p, 0) == 0x80636261 && NumberAt(p, 14) == 24
    ensures forall i :: 0 < i < 16 && i != 14 ==> NumberAt(p, i) == 0
  {
  }

  lemma AbcWords(p: seq<Byte>)
    requires |p| == BLOCK && p[0] == 0x61 && p[1] == 0x62 && p[2] == 0x63 && p[3] == 0x80 && p[56] == 24
    requires forall i :: 4 <= i < 64 && i != 56 ==> p[i] == 0
    ensures IsAbc(Words(p))
  {
    hide NumberAt, Words, AsWord;
    AbcNumbers(p);
    AbcLiterals();
    WordIs(p, 0, 0x80636261);
    WordIs(p, 14, 24);
    forall i | 0 < i < 16 && i != 14 ensures Words(p)[i] == 0 {
      WordIs(p, i, 0);
    }
  }

  /** The padded message is that block. */
  lemma AbcPadded(m: seq<Byte>)
    requires m == [0x61, 0x62, 0x63]
    ensures |Padded(m)| == BLOCK && IsAbc(Words(Padded(m)))
  {
    hide Words, IsAbc;
    var p := Padded(m);
    assert LengthBytes(3) == [24, 0, 0, 0, 0, 0, 0, 0];
    AbcWords(p);
  }

  lemma AbcSteps(x: seq<Word>, n: nat)
    requires |x| == 16 && IsAbc(x) && n == 0
    ensures Steps(START, x, n + 64) == State(0x310ade8f, 0xc08226b3, 0xe484b9d8, 0x624d8cb2)
  {
    hide Steps, IsAbc;
    StepsNone(START, x, n);
    Steps0(START, x, n);
    Steps8(START, x, n + 8);
    Steps16(START, x, n + 16);
    Steps24(START, x, n + 24);
    Steps32(START, x, n + 32);
    Steps40(START, x, n + 40);
    Steps48(START, x, n + 48);
    Steps56(START, x, n + 56);
  }

  /** The digest of "abc": written out with the low-order byte of each word first, 900150983cd24fb0d6963f7d28e17f72. */
  lemma AbcDigest(m: seq<Byte>)
    requires m == [0x61, 0x62, 0x63]
    ensures Digest(m) == State(0x98500190, 0xb04fd23c, 0x7d3f96d6, 0x727fe128)
  {
    hide Words, Padded, Steps, IsAbc, Fold, Digest, Sum;
    AbcPadded(m);
    OneBlock(m);
    AbcSteps(Words(Padded(m)), STEPS - 64);
    AbcSum();
  }

  lemma AbcSum()
    ensures Sum(START, State(0x310ade8f, 0xc08226b3, 0xe484b9d8, 0x624d8cb2)) == State(0x98500190, 0xb04fd23c, 0x7d3f96d6, 0x727fe128)
  {
  }

  lemma OneBlock(m: seq<Byte>)
    requires |Padded(m)| == BLOCK
    ensures Digest(m) == Sum(START, Steps(START, Words(Padded(m)), STEPS))
  {
    hide Steps, Words, Padded, Sum;
    var p := Padded(m);
    assert p[BLOCK * 0..BLOCK * 1] == p;
    assert Fold(p, 0) == START;
    assert Digest(m) == Fold(p, 1);
  }
}
