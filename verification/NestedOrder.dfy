/**
 Nested `Equals` and `GreaterThan`: their meaning on trees, and that together they are a total
 order with null greatest.
 */
module NestedOrder {
  import opened Columns

  /** Comparison of scalar values. */
  datatype Scalar<!L> = Scalar(eq: (L, L) -> bool, gt: (L, L) -> bool)

  /** Exactly one of greater, smaller and equal, compatible along chains. */
  ghost predicate Ordered<L(!new)>(s: Scalar<L>) {
    && (forall a, b :: ExactlyOne(s.gt(a, b), s.gt(b, a), s.eq(a, b)))
    && (forall a, b, c :: Chain(s.gt(a, b), s.eq(a, b), s.gt(b, c), s.eq(b, c), s.gt(a, c), s.eq(a, c)))
  }

  predicate ExactlyOne(p: bool, q: bool, r: bool) {
    (p || q || r) && !(p && q) && !(p && r) && !(q && r)
  }

  /** From how a compares to b and b to c, how a compares to c. */
  predicate Chain(gt: bool, eq: bool, gt': bool, eq': bool, gt'': bool, eq'': bool) {
    && ((gt || eq) && (gt' || eq') && (gt || gt') ==> gt'')
    && (eq && eq' ==> eq'')
  }

  // ---------------------------------------------------------------- on trees

  /** The components of a nested value. */
  ghost function Parts<L>(t: Tree<L>): seq<Tree<L>> {
    if t.List? then t.elems else if t.Struct? then t.vals else []
  }

  ghost predicate SameShape<L>(t: Tree<L>, u: Tree<L>) {
    (t.List? && u.List?) || (t.Struct? && u.Struct?)
  }

  ghost predicate Eq<L>(s: Scalar<L>, t: Tree<L>, u: Tree<L>)
    decreases t, 1, 0
  {
    || (t.Null? && u.Null?)
    || (t.Leaf? && u.Leaf? && s.eq(t.x, u.x))
    || (SameShape(t, u) && EqFrom(s, t, u, 0))
  }

  /** The components from an index on are equal, and equally many. */
  ghost predicate EqFrom<L>(s: Scalar<L>, t: Tree<L>, u: Tree<L>, i: nat)
    decreases t, 0, |Parts(t)| - i
  {
    if i >= |Parts(t)| || i >= |Parts(u)| then |Parts(t)| == |Parts(u)|
    else Eq(s, Parts(t)[i], Parts(u)[i]) && EqFrom(s, t, u, i + 1)
  }

  ghost predicate Gt<L>(s: Scalar<L>, t: Tree<L>, u: Tree<L>)
    decreases t, 1, 0
  {
    || (t.Null? && !u.Null?)
    || (t.Leaf? && u.Leaf? && s.gt(t.x, u.x))
    || (SameShape(t, u) && GtFrom(s, t, u, 0))
  }

  /** The first different component decides, then the number of components. */
  ghost predicate GtFrom<L>(s: Scalar<L>, t: Tree<L>, u: Tree<L>, i: nat)
    decreases t, 0, |Parts(t)| - i
  {
    if i >= |Parts(t)| || i >= |Parts(u)| then |Parts(t)| > |Parts(u)|
    else
      || Gt(s, Parts(t)[i], Parts(u)[i])
      || (Eq(s, Parts(t)[i], Parts(u)[i]) && GtFrom(s, t, u, i + 1))
  }

  // ---------------------------------------------------------------- what decides

  /** Null is greater than every other value, and equal to null alone. */
  lemma NullGreatest<L>(s: Scalar<L>, t: Tree<L>)
    ensures !t.Null? ==> Gt(s, Null, t) && !Gt(s, t, Null) && !Eq(s, t, Null) && !Eq(s, Null, t)
    ensures Eq(s, Null, Null) && !Gt(s, Null, Null)
  {
  }

  /** Scalars compare as their type does. */
  lemma LeavesCompare<L>(s: Scalar<L>, x: L, y: L)
    ensures Gt(s, Leaf(x), Leaf(y)) == s.gt(x, y) && Eq(s, Leaf(x), Leaf(y)) == s.eq(x, y)
  {
  }

  /** Neither is greater in the order of scalars that `s` gives: with ordered scalars, simply equal. */
  ghost predicate Tie<L>(s: Scalar<L>, t: Tree<L>, u: Tree<L>) {
    Eq(s, t, u) && !Gt(s, t, u)
  }

  lemma TieIsEq<L(!new)>(s: Scalar<L>, ty: ColumnType, t: Tree<L>, u: Tree<L>)
    requires Ordered(s) && HasType(t, ty) && HasType(u, ty)
    ensures Tie(s, t, u) <==> Eq(s, t, u)
  {
    Trichotomy(s, ty, t, u);
  }

  /** The components before k tie, and those at k do not, or one value ends there. */
  ghost predicate FirstDifference<L>(s: Scalar<L>, t: Tree<L>, u: Tree<L>, k: nat) {
    && k <= |Parts(t)| && k <= |Parts(u)|
    && (forall i :: 0 <= i < k ==> Tie(s, Parts(t)[i], Parts(u)[i]))
    && (k == |Parts(t)| || k == |Parts(u)| || !Tie(s, Parts(t)[k], Parts(u)[k]))
  }

  lemma {:induction false} DifferenceFrom<L>(s: Scalar<L>, t: Tree<L>, u: Tree<L>, i: nat) returns (k: nat)
    requires i <= |Parts(t)| && i <= |Parts(u)| && forall j :: 0 <= j < i ==> Tie(s, Parts(t)[j], Parts(u)[j])
    ensures FirstDifference(s, t, u, k)
    decreases |Parts(t)| - i
  {
    k := i;
    if i < |Parts(t)| && i < |Parts(u)| && Tie(s, Parts(t)[i], Parts(u)[i]) {
      k := DifferenceFrom(s, t, u, i + 1);
    }
  }

  /** There is a first difference, and only one. */
  lemma DifferenceExists<L>(s: Scalar<L>, t: Tree<L>, u: Tree<L>)
    ensures exists k: nat :: FirstDifference(s, t, u, k)
    ensures forall k: nat, j: nat :: FirstDifference(s, t, u, k) && FirstDifference(s, t, u, j) ==> k == j
  {
    var k := DifferenceFrom(s, t, u, 0);
  }

  lemma {:induction false} DifferenceDecides<L>(s: Scalar<L>, t: Tree<L>, u: Tree<L>, i: nat, k: nat)
    requires i <= k && FirstDifference(s, t, u, k)
    ensures GtFrom(s, t, u, i) ==
            if k < |Parts(t)| && k < |Parts(u)| then Gt(s, Parts(t)[k], Parts(u)[k]) else |Parts(t)| > |Parts(u)|
    decreases k - i
  {
    if i < k {
      assert Tie(s, Parts(t)[i], Parts(u)[i]);
      DifferenceDecides(s, t, u, i + 1, k);
    }
  }

  /** Of two lists or two structs the one with the greater component at the first difference is greater, or
      where one ends there the longer one. */
  lemma Lexicographic<L>(s: Scalar<L>, t: Tree<L>, u: Tree<L>, k: nat)
    requires SameShape(t, u) && FirstDifference(s, t, u, k)
    ensures k < |Parts(t)| && k < |Parts(u)| ==> Gt(s, t, u) == Gt(s, Parts(t)[k], Parts(u)[k])
    ensures k == |Parts(t)| || k == |Parts(u)| ==> Gt(s, t, u) == (|Parts(t)| > |Parts(u)|)
  {
    DifferenceDecides(s, t, u, 0, k);
  }

  lemma {:induction false} EqualFrom<L>(s: Scalar<L>, t: Tree<L>, u: Tree<L>, i: nat)
    requires i <= |Parts(t)|
    ensures EqFrom(s, t, u, i) <==>
            |Parts(t)| == |Parts(u)| && forall j :: i <= j < |Parts(t)| ==> Eq(s, Parts(t)[j], Parts(u)[j])
    decreases |Parts(t)| - i
  {
    if i < |Parts(t)| && i < |Parts(u)| {
      EqualFrom(s, t, u, i + 1);
    }
  }

  /** They are equal exactly when they have equally many components and these are equal pairwise. */
  lemma EqualPairwise<L>(s: Scalar<L>, t: Tree<L>, u: Tree<L>)
    requires SameShape(t, u)
    ensures Eq(s, t, u) <==>
            |Parts(t)| == |Parts(u)| && forall i :: 0 <= i < |Parts(t)| ==> Eq(s, Parts(t)[i], Parts(u)[i])
  {
    EqualFrom(s, t, u, 0);
  }

  // ---------------------------------------------------------------- the order

  lemma {:induction false} EqSymmetric<L(!new)>(s: Scalar<L>, t: Tree<L>, u: Tree<L>)
    requires Ordered(s)
    ensures Eq(s, t, u) <==> Eq(s, u, t)
    decreases t, 1, 0
  {
    if SameShape(t, u) {
      PartsSymmetric(s, t, u, 0);
    } else if t.Leaf? && u.Leaf? {
      assert ExactlyOne(s.gt(t.x, u.x), s.gt(u.x, t.x), s.eq(t.x, u.x));
      assert ExactlyOne(s.gt(u.x, t.x), s.gt(t.x, u.x), s.eq(u.x, t.x));
    }
  }

  lemma {:induction false} PartsSymmetric<L(!new)>(s: Scalar<L>, t: Tree<L>, u: Tree<L>, i: nat)
    requires Ordered(s)
    ensures EqFrom(s, t, u, i) <==> EqFrom(s, u, t, i)
    decreases t, 0, |Parts(t)| - i
  {
    if i < |Parts(t)| && i < |Parts(u)| {
      EqSymmetric(s, Parts(t)[i], Parts(u)[i]);
      PartsSymmetric(s, t, u, i + 1);
    }
  }

  /** Exactly one of greater, smaller and equal. */
  lemma {:induction false} Trichotomy<L(!new)>(s: Scalar<L>, ty: ColumnType, t: Tree<L>, u: Tree<L>)
    requires Ordered(s) && HasType(t, ty) && HasType(u, ty)
    ensures ExactlyOne(Gt(s, t, u), Gt(s, u, t), Eq(s, t, u))
    decreases t, 1, 0
  {
    if SameShape(t, u) {
      PartsTrichotomy(s, ty, t, u, 0);
    }
  }

  lemma {:induction false} PartsTrichotomy<L(!new)>(s: Scalar<L>, ty: ColumnType, t: Tree<L>, u: Tree<L>, i: nat)
    requires Ordered(s) && HasType(t, ty) && HasType(u, ty) && SameShape(t, u)
    ensures ExactlyOne(GtFrom(s, t, u, i), GtFrom(s, u, t, i), EqFrom(s, t, u, i))
    decreases t, 0, |Parts(t)| - i
  {
    if i < |Parts(t)| && i < |Parts(u)| {
      Trichotomy(s, if ty.ListType? then ty.elem else ty.fields[i], Parts(t)[i], Parts(u)[i]);
      EqSymmetric(s, Parts(t)[i], Parts(u)[i]);
      PartsTrichotomy(s, ty, t, u, i + 1);
    }
  }

  /** Comparisons compose along chains: the order is transitive, and equality is compatible with it. */
  lemma {:induction false} Chained<L(!new)>(s: Scalar<L>, ty: ColumnType, t: Tree<L>, u: Tree<L>, v: Tree<L>)
    requires Ordered(s) && HasType(t, ty) && HasType(u, ty) && HasType(v, ty)
    ensures Chain(Gt(s, t, u), Eq(s, t, u), Gt(s, u, v), Eq(s, u, v), Gt(s, t, v), Eq(s, t, v))
    decreases t, 1, 0
  {
    if SameShape(t, u) && SameShape(u, v) {
      PartsChained(s, ty, t, u, v, 0);
    } else if t.Leaf? && u.Leaf? && v.Leaf? {
      assert Chain(s.gt(t.x, u.x), s.eq(t.x, u.x), s.gt(u.x, v.x), s.eq(u.x, v.x), s.gt(t.x, v.x), s.eq(t.x, v.x));
    }
  }

  lemma {:induction false} PartsChained<L(!new)>(s: Scalar<L>, ty: ColumnType, t: Tree<L>, u: Tree<L>, v: Tree<L>, i: nat)
    requires Ordered(s) && HasType(t, ty) && HasType(u, ty) && HasType(v, ty) && SameShape(t, u) && SameShape(u, v)
    ensures Chain(GtFrom(s, t, u, i), EqFrom(s, t, u, i), GtFrom(s, u, v, i), EqFrom(s, u, v, i),
                  GtFrom(s, t, v, i), EqFrom(s, t, v, i))
    decreases t, 0, |Parts(t)| - i
  {
    if i < |Parts(t)| && i < |Parts(u)| && i < |Parts(v)| {
      var part := if ty.ListType? then ty.elem else ty.fields[i];
      Chained(s, part, Parts(t)[i], Parts(u)[i], Parts(v)[i]);
      PartsChained(s, ty, t, u, v, i + 1);
    }
  }
}
