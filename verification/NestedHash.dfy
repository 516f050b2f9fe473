/**
 Hashing nested vectors: the chunked computation over selections against a recursive hash of
 each row's value, and equal values hashing equally.
 */
module NestedHash {
  import opened Columns
  import opened NestedOrder

  type Hash = bv64

  const NULL_HASH: Hash := 0xFFFF_FFFF_FFFF_FFFF

  /** `combineHashScalar`. */
  function Combine(a: Hash, b: Hash): Hash {
    (a * 0xbf58476d1ce4e5b9) ^ b
  }

  // ---------------------------------------------------------------- the hash of a value

  /** A field of a struct value; the fields of a null struct are null. */
  ghost function FieldOf<L>(t: Tree<L>, i: nat): Tree<L> {
    if t.Struct? && i < |t.vals| then t.vals[i] else Null
  }

  ghost function HashTree<L>(f: L -> Hash, ty: ColumnType, t: Tree<L>): Hash
    decreases ty, 1, 0
  {
    match ty
    case ScalarType(_) => if t.Leaf? then f(t.x) else NULL_HASH
    case ListType(_) => if t.List? then HashElems(f, ty, t, |t.elems|) else NULL_HASH
    case StructType(skind, _, fields) =>
      if fields == [] then NULL_HASH
      else if skind.Node? then HashTree(f, fields[0], FieldOf(t, 0))
      else if skind.Rel? then (if 3 < |fields| then HashTree(f, fields[3], FieldOf(t, 3)) else NULL_HASH)
      else HashFields(f, ty, t, |fields|)
  }

  /** The first n elements, folded from the left. */
  ghost function HashElems<L>(f: L -> Hash, ty: ColumnType, t: Tree<L>, n: nat): Hash
    requires ty.ListType? && t.List? && n <= |t.elems|
    decreases ty, 0, n
  {
    if n == 0 then NULL_HASH else Combine(HashElems(f, ty, t, n - 1), HashTree(f, ty.elem, t.elems[n - 1]))
  }

  /** The first n fields: each further field goes in front. */
  ghost function HashFields<L>(f: L -> Hash, ty: ColumnType, t: Tree<L>, n: nat): Hash
    requires ty.StructType? && 0 < n <= |ty.fields|
    decreases ty, 0, n
  {
    var h := HashTree(f, ty.fields[n - 1], FieldOf(t, n - 1));
    if n == 1 then h else Combine(h, HashFields(f, ty, t, n - 1))
  }

  // ---------------------------------------------------------------- how the hash grows

  /** The constants, and that the second hash goes in unchanged. */
  lemma CombineForm(b: Hash)
    ensures Combine(1, 0) == 0xbf58476d1ce4e5b9 && Combine(0, b) == b && NULL_HASH == !0
  {
  }

  lemma {:induction false} PrefixHash<L>(f: L -> Hash, ty: ColumnType, es: seq<Tree<L>>, more: seq<Tree<L>>, n: nat)
    requires ty.ListType? && n <= |es|
    ensures HashElems(f, ty, List(es + more), n) == HashElems(f, ty, List(es), n)
    decreases n
  {
    hide Combine;
    if n > 0 {
      PrefixHash(f, ty, es, more, n - 1);
    }
  }

  /** Lists: null and empty ones have the null hash, and a further element is combined behind. */
  lemma ListHashGrows<L>(f: L -> Hash, ty: ColumnType, es: seq<Tree<L>>, x: Tree<L>)
    requires ty.ListType?
    ensures HashTree<L>(f, ty, Null) == HashTree<L>(f, ty, List([])) == NULL_HASH
    ensures HashTree(f, ty, List(es + [x])) == Combine(HashTree(f, ty, List(es)), HashTree(f, ty.elem, x))
  {
    hide Combine;
    PrefixHash(f, ty, es, [x], |es|);
  }

  lemma {:induction false} FieldPrefixHash<L>(f: L -> Hash, ty: ColumnType, more: ColumnType, vs: seq<Tree<L>>, x: Tree<L>, n: nat)
    requires ty.StructType? && more.StructType? && |more.fields| == |ty.fields| + 1 && ty.fields <= more.fields
    requires |vs| == |ty.fields| && 0 < n <= |vs|
    ensures HashFields(f, more, Struct(vs + [x]), n) == HashFields(f, ty, Struct(vs), n)
    decreases n
  {
    hide Combine;
    assert more.fields[n - 1] == ty.fields[n - 1];
    if n > 1 {
      FieldPrefixHash(f, ty, more, vs, x, n - 1);
    }
  }

  /** Structs: the first field hashes alone, and a further field is combined in front. */
  lemma StructHashGrows<L>(f: L -> Hash, names: seq<string>, name: string, fields: seq<ColumnType>, field: ColumnType,
                           vs: seq<Tree<L>>, x: Tree<L>)
    requires |vs| == |fields|
    ensures var ty, more := StructType(Plain, names, fields), StructType(Plain, names + [name], fields + [field]);
            HashTree(f, more, Struct(vs + [x])) ==
            if fields == [] then HashTree(f, field, x) else Combine(HashTree(f, field, x), HashTree(f, ty, Struct(vs)))
  {
    hide Combine;
    var ty, more := StructType(Plain, names, fields), StructType(Plain, names + [name], fields + [field]);
    if fields != [] {
      FieldPrefixHash(f, ty, more, vs, x, |fields|);
    }
  }

  /** Scalars hash as their type does, and null as null. */
  lemma LeafHash<L>(f: L -> Hash, kind: nat, x: L)
    ensures HashTree(f, ScalarType(kind), Leaf(x)) == f(x) && HashTree<L>(f, ScalarType(kind), Null) == NULL_HASH
  {
  }

  /** Nodes and relationships hash by their ID. */
  lemma IdHash<L>(f: L -> Hash, names: seq<string>, fields: seq<ColumnType>, vs: seq<Tree<L>>)
    requires |vs| == |fields| > 3
    ensures HashTree(f, StructType(Node, names, fields), Struct(vs)) == HashTree(f, fields[0], vs[0])
    ensures HashTree(f, StructType(Rel, names, fields), Struct(vs)) == HashTree(f, fields[3], vs[3])
  {
  }

  // ---------------------------------------------------------------- equal values

  /** Values that nested `Equals` takes for equal hash equally. */
  lemma {:induction false} EqualHash<L(!new)>(s: Scalar<L>, f: L -> Hash, ty: ColumnType, t: Tree<L>, u: Tree<L>)
    requires forall x, y :: s.eq(x, y) ==> f(x) == f(y)
    requires HasType(t, ty) && HasType(u, ty) && Eq(s, t, u)
    ensures HashTree(f, ty, t) == HashTree(f, ty, u)
    decreases ty, 1, 0
  {
    if t.List? {
      EqualElems(s, f, ty, t, u, |t.elems|);
    } else if t.Struct? {
      EqualFrom(s, t, u, 0);
      if ty.skind.Node? && 0 < |ty.fields| {
        EqualHash(s, f, ty.fields[0], t.vals[0], u.vals[0]);
      } else if ty.skind.Rel? && 3 < |ty.fields| {
        EqualHash(s, f, ty.fields[3], t.vals[3], u.vals[3]);
      } else if ty.skind.Plain? && 0 < |ty.fields| {
        EqualFields(s, f, ty, t, u, |ty.fields|);
      }
    }
  }

  lemma {:induction false} EqualElems<L(!new)>(s: Scalar<L>, f: L -> Hash, ty: ColumnType, t: Tree<L>, u: Tree<L>, n: nat)
    requires forall x, y :: s.eq(x, y) ==> f(x) == f(y)
    requires HasType(t, ty) && HasType(u, ty) && Eq(s, t, u) && t.List? && u.List? && n <= |t.elems|
    ensures |t.elems| == |u.elems| && HashElems(f, ty, t, n) == HashElems(f, ty, u, n)
    decreases ty, 0, n
  {
    hide Combine;
    EqualFrom(s, t, u, 0);
    if n > 0 {
      EqualElems(s, f, ty, t, u, n - 1);
      EqualHash(s, f, ty.elem, t.elems[n - 1], u.elems[n - 1]);
    }
  }

  lemma {:induction false} EqualFields<L(!new)>(s: Scalar<L>, f: L -> Hash, ty: ColumnType, t: Tree<L>, u: Tree<L>, n: nat)
    requires forall x, y :: s.eq(x, y) ==> f(x) == f(y)
    requires HasType(t, ty) && HasType(u, ty) && Eq(s, t, u) && t.Struct? && u.Struct? && 0 < n <= |ty.fields|
    ensures HashFields(f, ty, t, n) == HashFields(f, ty, u, n)
    decreases ty, 0, n
  {
    hide Combine;
    EqualFrom(s, t, u, 0);
    EqualHash(s, f, ty.fields[n - 1], t.vals[n - 1], u.vals[n - 1]);
    if n > 1 {
      EqualFields(s, f, ty, t, u, n - 1);
    }
  }

  // ---------------------------------------------------------------- the hash of a row

  /** What the loops compute for one row: the null flag of a struct itself is not looked at. */
  ghost function HashRow<L>(f: L -> Hash, c: Column<L>, p: nat): Hash
    requires WellFormed(c) && p < |c.nulls|
    decreases c, 1, 0
  {
    match c
    case Scalars(_, nulls, vals) => if nulls[p] then NULL_HASH else f(vals[p])
    case Lists(nulls, entries, _) => if nulls[p] then NULL_HASH else RowElems(f, c, p, entries[p].size)
    case Structs(skind, _, _, fields) =>
      match skind
      case Node => HashRow(f, fields[0], p)
      case Rel => HashRow(f, fields[3], p)
      case Plain => RowFields(f, c, p, |fields|)
  }

  ghost function RowElems<L>(f: L -> Hash, c: Column<L>, p: nat, n: nat): Hash
    requires WellFormed(c) && c.Lists? && p < |c.nulls| && !c.nulls[p] && n <= c.entries[p].size
    decreases c, 0, n
  {
    if n == 0 then NULL_HASH
    else Combine(RowElems(f, c, p, n - 1), HashRow(f, c.child, c.entries[p].offset + n - 1))
  }

  ghost function RowFields<L>(f: L -> Hash, c: Column<L>, p: nat, n: nat): Hash
    requires WellFormed(c) && c.Structs? && p < |c.nulls| && 0 < n <= |c.fields|
    decreases c, 0, n
  {
    var h := HashRow(f, c.fields[n - 1], p);
    if n == 1 then h else Combine(h, RowFields(f, c, p, n - 1))
  }

  /** The fields that a struct is hashed by: an ID, or all of them. */
  ghost predicate Hashes(skind: StructKind, i: nat) {
    (skind.Node? ==> i == 0) && (skind.Rel? ==> i == 3)
  }

  /** The row is hashed as null is: scalars are null, lists null or empty, whatever the flags of structs say. */
  ghost predicate HidesNothing<L>(c: Column<L>, p: nat)
    requires WellFormed(c) && p < |c.nulls|
    decreases c
  {
    match c
    case Scalars(_, nulls, _) => nulls[p]
    case Lists(nulls, entries, _) => nulls[p] || entries[p].size == 0
    case Structs(skind, _, _, fields) => forall i :: 0 <= i < |fields| && Hashes(skind, i) ==> HidesNothing(fields[i], p)
  }

  /** The null structs that the row reaches hide nothing. */
  ghost predicate NullsDown<L>(c: Column<L>, p: nat)
    requires WellFormed(c) && p < |c.nulls|
    decreases c
  {
    match c
    case Scalars(_, _, _) => true
    case Lists(nulls, entries, child) =>
      var e := entries[p];
      !nulls[p] ==> forall q :: e.offset <= q < e.offset + e.size ==> NullsDown(child, q)
    case Structs(skind, _, nulls, fields) =>
      forall i :: 0 <= i < |fields| && Hashes(skind, i) ==>
        if nulls[p] then HidesNothing(fields[i], p) else NullsDown(fields[i], p)
  }

  /** Such a row hashes like null. */
  lemma {:induction false} NullHash<L>(f: L -> Hash, c: Column<L>, p: nat)
    requires WellFormed(c) && p < |c.nulls| && HidesNothing(c, p)
    ensures HashRow(f, c, p) == HashTree(f, TypeOf(c), Null)
    decreases c, 1, 0
  {
    match c
    case Scalars(_, _, _) =>
    case Lists(_, _, _) =>
    case Structs(skind, _, _, fields) =>
      match skind
      case Node => NullHash(f, fields[0], p);
      case Rel => NullHash(f, fields[3], p);
      case Plain => NullFieldsHash(f, c, p, |fields|);
  }

  lemma {:induction false} NullFieldsHash<L>(f: L -> Hash, c: Column<L>, p: nat, n: nat)
    requires WellFormed(c) && c.Structs? && c.skind.Plain? && p < |c.nulls| && 0 < n <= |c.fields| && HidesNothing(c, p)
    ensures RowFields(f, c, p, n) == HashFields(f, TypeOf(c), Null, n)
    decreases c, 0, n
  {
    hide Combine;
    assert Hashes(c.skind, n - 1);
    NullHash(f, c.fields[n - 1], p);
    if n > 1 {
      NullFieldsHash(f, c, p, n - 1);
    }
  }

  /** A field contributes what the value's field does. */
  lemma {:induction false} FieldHash<L>(f: L -> Hash, c: Column<L>, p: nat, i: nat)
    requires WellFormed(c) && c.Structs? && p < |c.nulls| && NullsDown(c, p) && i < |c.fields| && Hashes(c.skind, i)
    ensures HashRow(f, c.fields[i], p) == HashTree(f, TypeOf(c.fields[i]), FieldOf(ValueAt(c, p), i))
    decreases c, 0, 0
  {
    if c.nulls[p] {
      NullHash(f, c.fields[i], p);
    } else {
      RowHash(f, c.fields[i], p);
    }
  }

  /** Then the row hashes like its value. */
  lemma {:induction false} RowHash<L>(f: L -> Hash, c: Column<L>, p: nat)
    requires WellFormed(c) && p < |c.nulls| && NullsDown(c, p)
    ensures HashRow(f, c, p) == HashTree(f, TypeOf(c), ValueAt(c, p))
    decreases c, 2, 0
  {
    match c
    case Scalars(_, _, _) =>
    case Lists(nulls, entries, _) =>
      if !nulls[p] {
        RowElemsHash(f, c, p, entries[p].size);
      }
    case Structs(skind, _, _, fields) =>
      match skind
      case Node => FieldHash(f, c, p, 0);
      case Rel => FieldHash(f, c, p, 3);
      case Plain => RowFieldsHash(f, c, p, |fields|);
  }

  lemma {:induction false} RowElemsHash<L>(f: L -> Hash, c: Column<L>, p: nat, n: nat)
    requires WellFormed(c) && c.Lists? && p < |c.nulls| && NullsDown(c, p) && !c.nulls[p] && n <= c.entries[p].size
    ensures RowElems(f, c, p, n) == HashElems(f, TypeOf(c), ValueAt(c, p), n)
    decreases c, 1, n
  {
    hide Combine;
    if n > 0 {
      RowElemsHash(f, c, p, n - 1);
      RowHash(f, c.child, c.entries[p].offset + n - 1);
    }
  }

  lemma {:induction false} RowFieldsHash<L>(f: L -> Hash, c: Column<L>, p: nat, n: nat)
    requires WellFormed(c) && c.Structs? && c.skind.Plain? && p < |c.nulls| && NullsDown(c, p) && 0 < n <= |c.fields|
    ensures RowFields(f, c, p, n) == HashFields(f, TypeOf(c), ValueAt(c, p), n)
    decreases c, 1, n
  {
    hide Combine;
    FieldHash(f, c, p, n - 1);
    if n > 1 {
      RowFieldsHash(f, c, p, n - 1);
    }
  }

  /** Rows of two vectors that compare equal hash equally, if the null structs they reach hide nothing. */
  lemma EqualRowsHash<L(!new)>(s: Scalar<L>, f: L -> Hash, c: Column<L>, d: Column<L>, p: nat, q: nat)
    requires forall x, y :: s.eq(x, y) ==> f(x) == f(y)
    requires WellFormed(c) && WellFormed(d) && TypeOf(c) == TypeOf(d)
    requires p < |c.nulls| && q < |d.nulls| && NullsDown(c, p) && NullsDown(d, q) && Eq(s, ValueAt(c, p), ValueAt(d, q))
    ensures HashRow(f, c, p) == HashRow(f, d, q)
  {
    RowHash(f, c, p);
    RowHash(f, d, q);
    ValueHasType(c, p);
    ValueHasType(d, q);
    EqualHash(s, f, TypeOf(c), ValueAt(c, p), ValueAt(d, q));
  }

  /** Otherwise they need not: two null structs that hide different scalars. */
  lemma NullStructsDiffer<L>(s: Scalar<L>, f: L -> Hash, x: L, y: L)
    requires f(x) != f(y)
    ensures var c := Structs(Plain, ["a"], [true, true], [Scalars(0, [false, false], [x, y])]);
            && WellFormed(c) && Eq(s, ValueAt(c, 0), ValueAt(c, 1))
            && HashRow(f, c, 0) == f(x) && HashRow(f, c, 1) == f(y)
  {
    var c := Structs(Plain, ["a"], [true, true], [Scalars(0, [false, false], [x, y])]);
    assert WellFormed(c.fields[0]);
    assert RowFields(f, c, 0, 1) == HashRow(f, c.fields[0], 0);
    assert RowFields(f, c, 1, 1) == HashRow(f, c.fields[0], 1);
  }
}
