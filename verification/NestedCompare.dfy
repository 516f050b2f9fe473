/**
 The comparison loops over nested vectors, with early exit, against the order on trees.
 */
module NestedCompare {
  import opened Columns
  import opened NestedOrder

  /** Two rows that can be compared: well-formed vectors of one type. */
  ghost predicate Comparable<L>(l: Column<L>, r: Column<L>, lp: nat, rp: nat) {
    WellFormed(l) && WellFormed(r) && lp < |l.nulls| && rp < |r.nulls| && TypeOf(l) == TypeOf(r)
  }

  lemma FieldsComparable<L>(l: Column<L>, r: Column<L>, lp: nat, rp: nat)
    requires Comparable(l, r, lp, rp) && l.Structs?
    ensures r.Structs? && |l.fields| == |r.fields| && l.names == r.names
    ensures forall i :: 0 <= i < |l.fields| ==> Comparable(l.fields[i], r.fields[i], lp, rp)
  {
    var tl, tr := TypeOf(l), TypeOf(r);
    forall i | 0 <= i < |l.fields| ensures Comparable(l.fields[i], r.fields[i], lp, rp) {
      assert tl.fields[i] == tr.fields[i];
    }
  }

  method ExecuteNestedEqual<L>(s: Scalar<L>, l: Column<L>, r: Column<L>, lp: nat, rp: nat) returns (result: bool)
    requires Comparable(l, r, lp, rp)
    ensures result == Eq(s, ValueAt(l, lp), ValueAt(r, rp))
    decreases l, 1
  {
    if l.nulls[lp] && r.nulls[rp] {
      return true;
    }
    if l.nulls[lp] != r.nulls[rp] {
      return false;
    }
    match l
    case Scalars(_, _, vals) => result := s.eq(vals[lp], r.vals[rp]);
    case Lists(_, _, _) => result := EqualsList(s, l, r, lp, rp);
    case Structs(_, _, _, _) => result := EqualsStruct(s, l, r, lp, rp);
  }

  /** `Equals` on list entries. */
  method EqualsList<L>(s: Scalar<L>, l: Column<L>, r: Column<L>, lp: nat, rp: nat) returns (result: bool)
    requires WellFormed(l) && WellFormed(r) && lp < |l.nulls| && rp < |r.nulls|
    requires l.Lists? && r.Lists? && !l.nulls[lp] && !r.nulls[rp]
    ensures result == (TypeOf(l) == TypeOf(r) && Eq(s, ValueAt(l, lp), ValueAt(r, rp)))
    decreases l, 0
  {
    var left, right := l.entries[lp], r.entries[rp];
    ghost var t, u := ValueAt(l, lp), ValueAt(r, rp);
    EqualFrom(s, t, u, 0);
    if TypeOf(l) != TypeOf(r) || left.size != right.size {
      return false;
    }
    for i := 0 to left.size
      invariant EqFrom(s, t, u, 0) == EqFrom(s, t, u, i)
    {
      result := ExecuteNestedEqual(s, l.child, r.child, left.offset + i, right.offset + i);
      if !result {
        return;
      }
    }
    return true;
  }

  /** `Equals` on struct entries. */
  method EqualsStruct<L>(s: Scalar<L>, l: Column<L>, r: Column<L>, lp: nat, rp: nat) returns (result: bool)
    requires WellFormed(l) && WellFormed(r) && lp < |l.nulls| && rp < |r.nulls|
    requires l.Structs? && r.Structs? && !l.nulls[lp] && !r.nulls[rp]
    ensures result == (TypeOf(l) == TypeOf(r) && Eq(s, ValueAt(l, lp), ValueAt(r, rp)))
    decreases l, 0
  {
    if TypeOf(l) != TypeOf(r) {
      return false;
    }
    FieldsComparable(l, r, lp, rp);
    ghost var t, u := ValueAt(l, lp), ValueAt(r, rp);
    for i := 0 to |l.fields|
      invariant EqFrom(s, t, u, 0) == EqFrom(s, t, u, i)
    {
      result := ExecuteNestedEqual(s, l.fields[i], r.fields[i], lp, rp);
      if !result {
        return;
      }
    }
    result := true;
    for i := 0 to |l.names|
      invariant result
    {
      if l.names[i] != r.names[i] {
        result := false;
      }
    }
  }

  /** What the first difference, at k, makes of a comparison. */
  ghost predicate Decided<L>(s: Scalar<L>, left: seq<Tree<L>>, right: seq<Tree<L>>, k: nat, result: bool) {
    result == if k < |left| && k < |right| then Gt(s, left[k], right[k]) else |left| > |right|
  }

  lemma ByDifference<L>(s: Scalar<L>, t: Tree<L>, u: Tree<L>)
    requires SameShape(t, u)
    ensures forall k: nat :: FirstDifference(s, t, u, k) ==> Decided(s, Parts(t), Parts(u), k, Gt(s, t, u))
  {
    forall k: nat | FirstDifference(s, t, u, k) ensures Decided(s, Parts(t), Parts(u), k, Gt(s, t, u)) {
      Lexicographic(s, t, u, k);
    }
  }

  method ExecuteNestedGreaterThan<L>(s: Scalar<L>, l: Column<L>, r: Column<L>, lp: nat, rp: nat)
    returns (isGreaterThan: bool, isEqual: bool)
    requires Comparable(l, r, lp, rp)
    ensures isGreaterThan == Gt(s, ValueAt(l, lp), ValueAt(r, rp))
    ensures !isGreaterThan ==> isEqual == Eq(s, ValueAt(l, lp), ValueAt(r, rp))
    ensures isGreaterThan ==> !isEqual
    ensures l.nulls[lp] && !r.nulls[rp] ==> isGreaterThan
    ensures r.nulls[rp] ==> !isGreaterThan && isEqual == l.nulls[lp]
    ensures !l.nulls[lp] && !r.nulls[rp] && l.Scalars? && r.Scalars? ==> isGreaterThan == s.gt(l.vals[lp], r.vals[rp])
    decreases l, 1
  {
    var isLeftNull, isRightNull := l.nulls[lp], r.nulls[rp];
    if isLeftNull || isRightNull {
      return !isRightNull, isLeftNull == isRightNull;
    }
    isGreaterThan := GreaterThan(s, l, r, lp, rp);
    isEqual := false;
    if !isGreaterThan {
      isEqual := ExecuteNestedEqual(s, l, r, lp, rp);
    }
  }

  /** `GreaterThan` of two values that are not null, by the physical type. */
  method GreaterThan<L>(s: Scalar<L>, l: Column<L>, r: Column<L>, lp: nat, rp: nat) returns (result: bool)
    requires Comparable(l, r, lp, rp) && !l.nulls[lp] && !r.nulls[rp]
    ensures result == Gt(s, ValueAt(l, lp), ValueAt(r, rp))
    decreases l, 0
  {
    match l
    case Scalars(_, _, vals) => result := s.gt(vals[lp], r.vals[rp]);
    case Lists(_, _, _) => result := GreaterThanList(s, l, r, lp, rp);
    case Structs(_, _, _, _) => result := GreaterThanStruct(s, l, r, lp, rp);
  }

  method GreaterThanList<L>(s: Scalar<L>, l: Column<L>, r: Column<L>, lp: nat, rp: nat) returns (result: bool)
    requires Comparable(l, r, lp, rp) && l.Lists? && !l.nulls[lp] && !r.nulls[rp]
    ensures result == Gt(s, ValueAt(l, lp), ValueAt(r, rp))
    ensures forall k: nat :: FirstDifference(s, ValueAt(l, lp), ValueAt(r, rp), k) ==>
              Decided(s, Parts(ValueAt(l, lp)), Parts(ValueAt(r, rp)), k, result)
    decreases l, 0, 0
  {
    ByDifference(s, ValueAt(l, lp), ValueAt(r, rp));
    var left, right := l.entries[lp], r.entries[rp];
    ghost var t, u := ValueAt(l, lp), ValueAt(r, rp);
    var commonLength := if left.size <= right.size then left.size else right.size;
    for i := 0 to commonLength
      invariant GtFrom(s, t, u, 0) == GtFrom(s, t, u, i)
    {
      var isEqual;
      result, isEqual := ExecuteNestedGreaterThan(s, l.child, r.child, left.offset + i, right.offset + i);
      if result || !isEqual {
        return;
      }
    }
    return left.size > right.size;
  }

  method GreaterThanStruct<L>(s: Scalar<L>, l: Column<L>, r: Column<L>, lp: nat, rp: nat) returns (result: bool)
    requires Comparable(l, r, lp, rp) && l.Structs? && !l.nulls[lp] && !r.nulls[rp]
    ensures result == Gt(s, ValueAt(l, lp), ValueAt(r, rp))
    ensures forall k: nat :: FirstDifference(s, ValueAt(l, lp), ValueAt(r, rp), k) ==>
              Decided(s, Parts(ValueAt(l, lp)), Parts(ValueAt(r, rp)), k, result)
    decreases l, 0, 0
  {
    ByDifference(s, ValueAt(l, lp), ValueAt(r, rp));
    FieldsComparable(l, r, lp, rp);
    ghost var t, u := ValueAt(l, lp), ValueAt(r, rp);
    for i := 0 to |l.fields|
      invariant GtFrom(s, t, u, 0) == GtFrom(s, t, u, i)
    {
      var isEqual;
      result, isEqual := ExecuteNestedGreaterThan(s, l.fields[i], r.fields[i], lp, rp);
      if result || !isEqual {
        return;
      }
    }
    return false;
  }
}
