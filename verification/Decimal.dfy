/**
 Fixed-point decimals stored in machine integers: addition, subtraction and multiplication with
 their overflow guards, the precision and scale rules, and floor and ceiling.
 */
module Decimal {
  import opened Wrappers

  const LIMIT: nat := 38

  function Pow10(n: nat): (r: int)
    ensures r >= 1
  {
    if n == 0 then 1 else 10 * Pow10(n - 1)
  }

  // ---------------------------------------------------------------- machine integers

  /** Half the range of the integers that hold a precision: 16, 32, 64 or 128 bits. */
  function HalfRange(p: nat): (r: int)
    ensures r >= 1
  {
    if p <= 4 then 0x8000
    else if p <= 9 then 0x8000_0000
    else if p <= 18 then 0x8000_0000_0000_0000
    else 0x8000_0000_0000_0000_0000_0000_0000_0000
  }

  predicate Fits(p: nat, x: int) {
    -HalfRange(p) <= x < HalfRange(p)
  }

  /** Two's complement wrap-around. */
  function Wrap(p: nat, x: int): int {
    (x + HalfRange(p)) % (2 * HalfRange(p)) - HalfRange(p)
  }

  /** Division and remainder that truncate toward zero. */
  function TruncDiv(a: int, b: int): int
    requires b > 0
  {
    if a >= 0 then a / b else -(-a / b)
  }

  function TruncMod(a: int, b: int): int
    requires b > 0
  {
    a - TruncDiv(a, b) * b
  }

  /** Storage of 16, 32, 64 and 128 bits for up to 4, 9, 18 and 38 digits: the narrowest that holds them. */
  lemma Storage(p: nat)
    ensures p <= 4 ==> HalfRange(p) == 0x8000
    ensures 4 < p <= 9 ==> HalfRange(p) == 0x8000_0000 && 0x8000 < 99_999
    ensures 9 < p <= 18 ==> HalfRange(p) == 0x8000_0000_0000_0000 && 0x8000_0000 < 9_999_999_999
    ensures 18 < p ==> HalfRange(p) == 0x8000_0000_0000_0000_0000_0000_0000_0000
                       && 0x8000_0000_0000_0000 < 9_999_999_999_999_999_999
  {
  }

  /** What wraps stays the same modulo the range. */
  lemma WrapCongruent(p: nat, x: int) returns (k: int)
    ensures Fits(p, Wrap(p, x)) && Wrap(p, x) == x + k * (2 * HalfRange(p))
  {
    hide HalfRange;
    var h := HalfRange(p);
    k := -((x + h) / (2 * h));
    assert x + h == 2 * h * ((x + h) / (2 * h)) + (x + h) % (2 * h);
  }

  lemma WrapFits(p: nat, x: int)
    requires Fits(p, x)
    ensures Wrap(p, x) == x
  {
    var h := HalfRange(p);
    assert 0 <= x + h < 2 * h;
  }

  lemma PowStep(n: nat)
    ensures n == 0 ==> Pow10(n) == 1
    ensures n > 0 ==> Pow10(n) == 10 * Pow10(n - 1)
  {
  }

  lemma {:induction false} PowAdd(a: nat, b: nat)
    ensures Pow10(a + b) == Pow10(a) * Pow10(b)
    decreases a
  {
    if a > 0 {
      PowAdd(a - 1, b);
      assert Pow10(a + b) == 10 * Pow10(a + b - 1);
      assert 10 * (Pow10(a - 1) * Pow10(b)) == (10 * Pow10(a - 1)) * Pow10(b);
    }
  }

  lemma {:induction false} PowGrows(a: nat, b: nat)
    requires a <= b
    ensures Pow10(a) <= Pow10(b)
    decreases b - a
  {
    if a < b {
      PowGrows(a, b - 1);
    }
  }

  /** Every power of ten up to the precision fits its integers. */
  lemma PowFits(p: nat)
    requires p <= LIMIT
    ensures Pow10(p) < HalfRange(p)
  {
    PowValues();
    if p <= 4 {
      PowGrows(p, 4);
    } else if p <= 9 {
      PowGrows(p, 9);
    } else if p <= 18 {
      PowGrows(p, 18);
    } else {
      PowGrows(p, 38);
    }
  }

  lemma PowValues()
    ensures Pow10(4) == 10000 && Pow10(9) == 1_000_000_000 && Pow10(18) == 1_000_000_000_000_000_000
    ensures Pow10(38) == 100_000_000_000_000_000_000_000_000_000_000_000_000
  {
    assert Pow10(4) == 10000;
    assert Pow10(5) == 100000;
    PowAdd(4, 5);
    PowAdd(9, 9);
    PowAdd(18, 18);
    PowAdd(36, 2);
    assert Pow10(2) == 100;
  }

  /** A value of a decimal type with some precision. */
  predicate InRange(p: nat, x: int) {
    -Pow10(p) < x < Pow10(p)
  }

  // ---------------------------------------------------------------- addition and subtraction

  /** `None` stands for the overflow exception; every operation of the machine wraps. */
  function Add(p: nat, left: int, right: int): Option<int> {
    if (right > 0 && Wrap(p, Pow10(p) - right) <= left) || (right < 0 && Wrap(p, -Pow10(p) - right) >= left) then None
    else Some(Wrap(p, left + right))
  }

  function Subtract(p: nat, left: int, right: int): Option<int> {
    if (right > 0 && Wrap(p, -Pow10(p) + right) >= left) || (right < 0 && Wrap(p, Pow10(p) + right) <= left) then None
    else Some(Wrap(p, left - right))
  }

  /** Addition throws exactly when the true sum is out of range, and is otherwise exact. */
  lemma AddExact(p: nat, left: int, right: int)
    requires 1 <= p <= LIMIT && InRange(p, left) && InRange(p, right)
    ensures Add(p, left, right) == if InRange(p, left + right) then Some(left + right) else None
  {
    hide Pow10, HalfRange, Wrap;
    PowFits(p);
    SmallWraps(p);
  }

  lemma SubtractExact(p: nat, left: int, right: int)
    requires 1 <= p <= LIMIT && InRange(p, left) && InRange(p, right)
    ensures Subtract(p, left, right) == if InRange(p, left - right) then Some(left - right) else None
  {
    hide Pow10, HalfRange, Wrap;
    PowFits(p);
    SmallWraps(p);
  }

  lemma SmallWraps(p: nat)
    requires p <= LIMIT
    ensures forall x :: -Pow10(p) <= x <= Pow10(p) ==> Wrap(p, x) == x
  {
    PowFits(p);
    forall x | -Pow10(p) <= x <= Pow10(p) ensures Wrap(p, x) == x {
      WrapFits(p, x);
    }
  }

  // ---------------------------------------------------------------- precision and scale

  function Max(a: int, b: int): int { if a >= b then a else b }

  function Min(a: int, b: int): int { if a <= b then a else b }

  datatype Params = Params(p: int, s: int)

  predicate ValidParams(t: Params) {
    1 <= t.p <= LIMIT && 0 <= t.s <= t.p
  }

  /** `resultingParams` of addition and subtraction. */
  function SumParams(t: Params, u: Params): Params {
    var digits := Max(t.p - t.s, u.p - u.s);
    var p := Min(LIMIT, Max(t.s, u.s) + digits + 1);
    var s := Min(p, Max(t.s, u.s));
    Params(p, if digits < Min(LIMIT, p) - s then Min(p, LIMIT) - digits else s)
  }

  /** An operand brought to a larger scale. */
  function Rescale(x: int, from: int, to: int): int
    requires 0 <= from <= to
  {
    x * Pow10(to - from)
  }

  /** Rescaling keeps the value that the digits stand for. */
  lemma RescaleKeepsValue(x: int, from: nat, to: nat)
    requires from <= to
    ensures Rescale(x, from, to) * Pow10(from) == x * Pow10(to)
  {
    hide Pow10;
    PowAdd(to - from, from);
    Regroup(x, Pow10(to - from), Pow10(from), Pow10(to));
  }

  lemma Regroup(x: int, a: int, b: int, c: int)
    requires a * b == c
    ensures x * a * b == x * c
  {
    assert x * a * b == x * (a * b);
  }

  /** Scales only grow, and uncapped, the extra digit goes to the scale: the integer digits do not grow. */
  lemma SumScale(t: Params, u: Params)
    requires ValidParams(t) && ValidParams(u)
    ensures var r := SumParams(t, u);
            && ValidParams(r) && Max(t.s, u.s) <= r.s
            && (Max(t.s, u.s) + Max(t.p - t.s, u.p - u.s) + 1 <= LIMIT ==>
                  r.s == Max(t.s, u.s) + 1 && r.p - r.s == Max(t.p - t.s, u.p - u.s))
  {
  }

  /** Every value of both operand types fits the result type after rescaling, exactly when the larger scale
      and the larger number of integer digits together stay within the limit. */
  lemma RescaleExactly(t: Params, u: Params)
    requires ValidParams(t) && ValidParams(u)
    ensures var r := SumParams(t, u);
            && r.s >= t.s && r.s >= u.s
            && ((forall x :: InRange(t.p, x) ==> InRange(r.p, Rescale(x, t.s, r.s))) &&
                (forall x :: InRange(u.p, x) ==> InRange(r.p, Rescale(x, u.s, r.s)))
                <==> Max(t.s, u.s) + Max(t.p - t.s, u.p - u.s) <= LIMIT)
  {
    SumScale(t, u);
    var r := SumParams(t, u);
    OperandFits(t, r);
    OperandFits(u, r);
  }

  /** All values of a type fit a result type after rescaling exactly when their integer digits do. */
  lemma OperandFits(t: Params, r: Params)
    requires ValidParams(t) && ValidParams(r) && t.s <= r.s
    ensures (forall x :: InRange(t.p, x) ==> InRange(r.p, Rescale(x, t.s, r.s))) <==> t.p - t.s <= r.p - r.s
  {
    var k := r.s - t.s;
    hide Pow10;
    if t.p - t.s <= r.p - r.s {
      forall x | InRange(t.p, x) ensures InRange(r.p, Rescale(x, t.s, r.s)) {
        ScaledBelow(x, t.p, k, r.p);
      }
    } else {
      var x := Pow10(t.p) - 1;
      ScaledAbove(t.p, k, r.p);
      assert InRange(t.p, x) && !InRange(r.p, Rescale(x, t.s, r.s));
    }
  }

  lemma ScaledBelow(x: int, p: nat, k: nat, q: nat)
    requires InRange(p, x) && p + k <= q
    ensures InRange(q, x * Pow10(k))
  {
    hide Pow10;
    PowAdd(p, k);
    PowGrows(p + k, q);
    MulBound(x, Pow10(p), Pow10(k));
  }

  lemma MulBound(x: int, a: int, b: int)
    requires -a < x < a && b >= 1
    ensures -(a * b) < x * b < a * b
  {
    assert (a - x) * b >= 1;
    assert (a + x) * b >= 1;
  }

  /** The largest value already overflows when there is an integer digit too many. */
  lemma ScaledAbove(p: nat, k: nat, q: nat)
    requires p >= 1 && p + k > q
    ensures (Pow10(p) - 1) * Pow10(k) >= Pow10(q)
  {
    hide Pow10;
    PowAdd(p - 1, k);
    PowGrows(q, p - 1 + k);
    PowStep(p);
    AboveProduct(Pow10(p - 1), Pow10(k), Pow10(p), Pow10(q));
  }

  lemma AboveProduct(a: int, b: int, c: int, d: int)
    requires a >= 1 && b >= 1 && c == 10 * a && d <= a * b
    ensures (c - 1) * b >= d
  {
    MulMono(a, c - 1, b);
  }

  lemma MulMono(a: int, x: int, b: int)
    requires a <= x && b >= 0
    ensures a * b <= x * b
  {
  }

  /** The largest value of a decimal type. */
  function Largest(t: Params): int
    requires ValidParams(t)
  {
    Pow10(t.p) - 1
  }

  /** One type has integer digits only and the other has none. */
  predicate Disjoint(t: Params, u: Params) {
    (t.p == t.s && u.s == 0) || (u.p == u.s && t.s == 0)
  }

  /** The carry has no digit to go to: whenever both operand types fit the result type, adding their largest
      values throws unless the digits of the types do not overlap. */
  lemma CarryThrows(t: Params, u: Params)
    requires ValidParams(t) && ValidParams(u) && Max(t.s, u.s) + Max(t.p - t.s, u.p - u.s) <= LIMIT
    ensures var r := SumParams(t, u);
            && t.s <= r.s && u.s <= r.s
            && (Add(r.p, Rescale(Largest(t), t.s, r.s), Rescale(Largest(u), u.s, r.s)) == None <==> !Disjoint(t, u))
  {
    hide *;
    SumDigits(t, u);
    var r := SumParams(t, u);
    if t.p - t.s >= u.p - u.s {
      LargestSum(t, u, r);
    } else {
      LargestSum(u, t, r);
      AddCommutes(t, u, r);
    }
  }

  lemma SumDigits(t: Params, u: Params)
    requires ValidParams(t) && ValidParams(u) && Max(t.s, u.s) + Max(t.p - t.s, u.p - u.s) <= LIMIT
    ensures var r := SumParams(t, u);
            && ValidParams(r) && t.s <= r.s && u.s <= r.s
            && r.p - r.s == if t.p - t.s >= u.p - u.s then t.p - t.s else u.p - u.s
    ensures Disjoint(t, u) == Disjoint(u, t)
  {
  }

  lemma LargestSum(t: Params, u: Params, r: Params)
    requires ValidParams(t) && ValidParams(u) && ValidParams(r) && t.s <= r.s && u.s <= r.s
    requires u.p - u.s <= t.p - t.s == r.p - r.s
    ensures Add(r.p, Rescale(Largest(t), t.s, r.s), Rescale(Largest(u), u.s, r.s)) == None <==> !Disjoint(t, u)
  {
    hide Pow10, Add, Disjoint, Rescale;
    LargestFits(t, r);
    LargestFits(u, r);
    AddExact(r.p, Rescale(Largest(t), t.s, r.s), Rescale(Largest(u), u.s, r.s));
    LargestScaled(t, r.s);
    LargestScaled(u, r.s);
    CarryReaches(t, u, r.s);
  }

  lemma AddCommutes(t: Params, u: Params, r: Params)
    requires ValidParams(t) && ValidParams(u) && ValidParams(r) && t.s <= r.s && u.s <= r.s
    requires t.p - t.s <= r.p - r.s && u.p - u.s <= r.p - r.s
    ensures Add(r.p, Rescale(Largest(t), t.s, r.s), Rescale(Largest(u), u.s, r.s))
         == Add(r.p, Rescale(Largest(u), u.s, r.s), Rescale(Largest(t), t.s, r.s))
  {
    hide Pow10, Add, Rescale;
    LargestFits(t, r);
    LargestFits(u, r);
    AddExact(r.p, Rescale(Largest(t), t.s, r.s), Rescale(Largest(u), u.s, r.s));
    AddExact(r.p, Rescale(Largest(u), u.s, r.s), Rescale(Largest(t), t.s, r.s));
  }

  lemma LargestFits(t: Params, r: Params)
    requires ValidParams(t) && ValidParams(r) && t.s <= r.s && t.p - t.s <= r.p - r.s
    ensures InRange(r.p, Rescale(Largest(t), t.s, r.s))
  {
    hide Pow10;
    OperandFits(t, r);
    assert InRange(t.p, Largest(t));
  }

  lemma LargestScaled(t: Params, s: nat)
    requires ValidParams(t) && t.s <= s
    ensures Rescale(Largest(t), t.s, s) == Pow10(t.p - t.s + s) - Pow10(s - t.s)
    ensures Rescale(Largest(t), t.s, s) >= 0
  {
    PowGrows(s - t.s, t.p - t.s + s);
    hide Pow10;
    PowAdd(t.p, s - t.s);
    assert (Pow10(t.p) - 1) * Pow10(s - t.s) == Pow10(t.p) * Pow10(s - t.s) - Pow10(s - t.s);
  }

  /** What the larger type lacks to the next power of ten is covered by the other largest value. */
  lemma CarryReaches(t: Params, u: Params, s: nat)
    requires ValidParams(t) && ValidParams(u) && t.s <= s && u.s <= s && u.p - u.s <= t.p - t.s
    ensures Pow10(u.p - u.s + s) - Pow10(s - u.s) >= Pow10(s - t.s) <==> !Disjoint(t, u)
  {
    hide Pow10;
    var q := u.p - u.s + s;
    PowStep(q);
    if Disjoint(t, u) {
      assert q == s - t.s;
    } else {
      PowGrows(s - u.s, q - 1);
      PowGrows(s - t.s, q - 1);
    }
  }

  /** Nine and nine do not add in DECIMAL(1, 0); 999 and 0.9 do in DECIMAL(3, 0) and DECIMAL(1, 1). */
  lemma CarryAtNine()
    ensures SumParams(Params(1, 0), Params(1, 0)) == Params(2, 1) && Add(2, Rescale(9, 0, 1), Rescale(9, 0, 1)) == None
    ensures SumParams(Params(3, 0), Params(1, 1)) == Params(5, 2)
    ensures Add(5, Rescale(999, 0, 2), Rescale(9, 1, 2)) == Some(99990)
  {
    assert Pow10(1) == 10 && Pow10(2) == 100 && Pow10(5) == 100000;
    hide Pow10, Add, Wrap;
    AddExact(2, 90, 90);
    AddExact(5, 99900, 90);
  }

  // ---------------------------------------------------------------- multiplication

  function ProductParams(t: Params, u: Params): Option<Params> {
    if t.p + u.p + 1 > LIMIT then None else Some(Params(t.p + u.p + 1, t.s + u.s))
  }

  function Multiply(p: nat, left: int, right: int): Option<int> {
    var result := Wrap(p, left * right);
    if result <= -Pow10(p) || result >= Pow10(p) then None else Some(result)
  }

  /** Binding fails exactly when one digit more than both precisions together is above the limit; otherwise the
      result has that precision, and a scale that fits all digits behind the point. */
  lemma ProductBinds(t: Params, u: Params)
    ensures ProductParams(t, u).None? <==> t.p + u.p >= LIMIT
    ensures ProductParams(t, u).Some? ==> ProductParams(t, u).value.p == t.p + u.p + 1
    ensures ProductParams(t, u).Some? ==> ProductParams(t, u).value.s == t.s + u.s
    ensures LIMIT == 38
  {
  }

  /** A multiplication that binds is exact and never throws. */
  lemma MultiplyExact(t: Params, u: Params, left: int, right: int)
    requires ValidParams(t) && ValidParams(u) && InRange(t.p, left) && InRange(u.p, right)
    requires ProductParams(t, u).Some?
    ensures var r := ProductParams(t, u).value;
            ValidParams(r) && r.s == t.s + u.s && Multiply(r.p, left, right) == Some(left * right)
  {
    hide Pow10, HalfRange, Wrap;
    var p := t.p + u.p + 1;
    PowFits(p);
    SmallWraps(p);
    PowAdd(t.p, u.p);
    PowGrows(t.p + u.p, p);
    ProductBound(left, right, Pow10(t.p), Pow10(u.p));
  }

  lemma ProductBound(x: int, y: int, a: int, b: int)
    requires -a < x < a && -b < y < b
    ensures -(a * b) < x * y < a * b
  {
    if x >= 0 {
      Between(x, y, a, b);
    } else {
      Between(-x, y, a, b);
      assert -x * y == -(x * y);
    }
  }

  lemma Between(x: int, y: int, a: int, b: int)
    requires 0 <= x < a && -b < y < b
    ensures -(a * b) < x * y < a * b
  {
    MulMono(-b, y, x);
    MulMono(y, b, x);
    MulMono(x + 1, a, b);
    assert x * b == b * x && (x + 1) * b == x * b + b;
  }

  // ---------------------------------------------------------------- floor and ceiling

  /** Units of a decimal of some scale, rounded down; each step wraps at the width of the precision. */
  function Floor(p: nat, s: nat, input: int): int {
    var pow := Pow10(s);
    var rem := TruncMod(input, pow);
    var result :=
      if input < 0 then Wrap(p, input - if rem == 0 then 0 else Wrap(p, pow + rem))
      else Wrap(p, input - rem);
    TruncDiv(result, pow)
  }

  function Ceil(p: nat, s: nat, input: int): int {
    var pow := Pow10(s);
    var rem := TruncMod(input, pow);
    var result :=
      if input < 0 then Wrap(p, input - rem)
      else Wrap(p, input + if rem == 0 then 0 else Wrap(p, pow - rem));
    TruncDiv(result, pow)
  }

  lemma TruncParts(a: int, b: int)
    requires b > 0
    ensures a == TruncDiv(a, b) * b + TruncMod(a, b)
    ensures a >= 0 ==> 0 <= TruncMod(a, b) < b && TruncDiv(a, b) >= 0
    ensures a < 0 ==> -b < TruncMod(a, b) <= 0 && TruncDiv(a, b) <= 0
  {
    if a >= 0 {
      DivParts(a, b);
    } else {
      DivParts(-a, b);
      NegateProduct(-a / b, b);
    }
  }

  lemma DivParts(n: int, b: int)
    requires n >= 0 && b > 0
    ensures 0 <= n - n / b * b < b && n / b >= 0
  {
    assert n == b * (n / b) + n % b;
  }

  lemma NegateProduct(q: int, b: int)
    ensures -q * b == -(q * b)
  {
  }

  lemma TruncMultiple(q: int, b: int)
    requires b > 0
    ensures TruncDiv(q * b, b) == q
  {
    if q * b >= 0 {
      DivMultiple(q, b);
    } else {
      DivMultiple(-q, b);
      assert -(q * b) == -q * b;
    }
  }

  lemma DivMultiple(q: int, b: int)
    requires b > 0
    ensures q * b / b == q
  {
    var d, x := q * b / b, q * b;
    assert x == b * d + x % b;
    SameUnits(q, d, x, b);
  }

  lemma SameUnits(q: int, d: int, x: int, b: int)
    requires b > 0 && x == q * b && 0 <= x - b * d < b
    ensures q == d
  {
    if q > d {
      MulMono(d + 1, q, b);
    } else if q < d {
      MulMono(q + 1, d, b);
    }
  }

  /** Rounding to a neighbouring unit stays in range, before and after the division. */
  lemma Rounded(p: nat, s: nat, input: int, r: int)
    requires 1 <= p <= LIMIT && s <= p && InRange(p, input) && -Pow10(s) < r * Pow10(s) - input < Pow10(s)
    ensures -Pow10(p) <= r * Pow10(s) <= Pow10(p) && InRange(p, r)
  {
    hide Pow10;
    PowAdd(p - s, s);
    UnitsWithin(input, r, Pow10(p - s), Pow10(s), Pow10(p));
    UnitsFit(p, s);
  }

  lemma UnitsFit(p: nat, s: nat)
    requires s <= p
    ensures s == 0 ==> Pow10(s) == 1
    ensures s > 0 ==> Pow10(p - s) < Pow10(p)
  {
    hide Pow10;
    PowStep(p);
    PowStep(s);
    if s > 0 {
      PowGrows(p - s, p - 1);
    }
  }

  lemma UnitsWithin(input: int, r: int, m: int, pow: int, all: int)
    requires pow >= 1 && m >= 1 && all == m * pow && -all < input < all && -pow < r * pow - input < pow
    ensures -m <= r <= m && -all <= r * pow <= all && (pow == 1 ==> r == input)
  {
    if r > m {
      MulMono(m + 1, r, pow);
    }
    if r < -m {
      MulMono(r, -m - 1, pow);
    }
    MulMono(r, m, pow);
    MulMono(-m, r, pow);
    assert -m * pow == -(m * pow);
  }

  /** Floor is the mathematical floor, and fits DECIMAL(p, 0). */
  lemma FloorExact(p: nat, s: nat, input: int)
    requires 1 <= p <= LIMIT && s <= p && InRange(p, input)
    ensures var r := Floor(p, s, input); r * Pow10(s) <= input < (r + 1) * Pow10(s) && InRange(p, r)
  {
    hide Pow10, HalfRange, Wrap, TruncDiv, TruncMod;
    var pow := Pow10(s);
    var q, rem := TruncDiv(input, pow), TruncMod(input, pow);
    PowGrows(s, p);
    SmallWraps(p);
    TruncParts(input, pow);
    var r := if input < 0 && rem != 0 then q - 1 else q;
    assert r * pow == q * pow - if input < 0 && rem != 0 then pow else 0;
    assert (r + 1) * pow == r * pow + pow;
    Rounded(p, s, input, r);
    TruncMultiple(r, pow);
  }

  /** Ceiling is the mathematical ceiling, and fits DECIMAL(p, 0). */
  lemma CeilExact(p: nat, s: nat, input: int)
    requires 1 <= p <= LIMIT && s <= p && InRange(p, input)
    ensures var r := Ceil(p, s, input); (r - 1) * Pow10(s) < input <= r * Pow10(s) && InRange(p, r)
  {
    hide Pow10, HalfRange, Wrap, TruncDiv, TruncMod;
    var pow := Pow10(s);
    var q, rem := TruncDiv(input, pow), TruncMod(input, pow);
    PowGrows(s, p);
    SmallWraps(p);
    TruncParts(input, pow);
    var r := if input >= 0 && rem != 0 then q + 1 else q;
    assert r * pow == q * pow + if input >= 0 && rem != 0 then pow else 0;
    assert (r - 1) * pow == r * pow - pow;
    Rounded(p, s, input, r);
    TruncMultiple(r, pow);
  }
}
