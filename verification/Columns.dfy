/**
 Nested value vectors: null flags, scalar values, list entries into a child vector, and struct
 fields at the same position; and the tree that a row stands for.
 */
module Columns {

  /** Which struct type: node and relationship rows are identified by their ID field. */
  datatype StructKind = Plain | Node | Rel

  datatype ColumnType =
    | ScalarType(kind: nat)
    | ListType(elem: ColumnType)
    | StructType(skind: StructKind, names: seq<string>, fields: seq<ColumnType>)

  datatype ListEntry = ListEntry(offset: nat, size: nat)

  datatype Column<L> =
    | Scalars(kind: nat, nulls: seq<bool>, vals: seq<L>)
    | Lists(nulls: seq<bool>, entries: seq<ListEntry>, child: Column<L>)
    | Structs(skind: StructKind, names: seq<string>, nulls: seq<bool>, fields: seq<Column<L>>)

  datatype Tree<L> = Null | Leaf(x: L) | List(elems: seq<Tree<L>>) | Struct(vals: seq<Tree<L>>)

  function TypeOf<L>(c: Column<L>): ColumnType {
    match c
    case Scalars(kind, _, _) => ScalarType(kind)
    case Lists(_, _, child) => ListType(TypeOf(child))
    case Structs(skind, names, _, fields) =>
      StructType(skind, names, seq(|fields|, i requires 0 <= i < |fields| => TypeOf(fields[i])))
  }

  /** Every row of the vector is initialised; list entries lie within the child. */
  ghost predicate WellFormed<L>(c: Column<L>) {
    match c
    case Scalars(_, nulls, vals) => |vals| == |nulls|
    case Lists(nulls, entries, child) =>
      && |entries| == |nulls| && WellFormed(child)
      && forall p :: 0 <= p < |nulls| && !nulls[p] ==> entries[p].offset + entries[p].size <= |child.nulls|
    case Structs(skind, names, nulls, fields) =>
      && 0 < |fields| == |names|
      && (forall i :: 0 <= i < |fields| ==> WellFormed(fields[i]) && |fields[i].nulls| == |nulls|)
      && (skind.Node? ==> fields[0].Scalars?) && (skind.Rel? ==> 3 < |fields| && fields[3].Scalars?)
  }

  /** The value of one row. */
  ghost function ValueAt<L>(c: Column<L>, p: nat): Tree<L>
    requires WellFormed(c) && p < |c.nulls|
  {
    if c.nulls[p] then Null else
    match c
    case Scalars(_, _, vals) => Leaf(vals[p])
    case Lists(_, entries, child) =>
      var e := entries[p];
      List(seq(e.size, i requires 0 <= i < e.size => ValueAt(child, e.offset + i)))
    case Structs(_, _, _, fields) =>
      Struct(seq(|fields|, i requires 0 <= i < |fields| => ValueAt(fields[i], p)))
  }

  /** Where the parts of a row stand: a scalar in its own slot, the elements of a list side by side in the child,
      the fields of a struct at the same row. */
  lemma RowParts<L>(c: Column<L>, p: nat, i: nat)
    requires WellFormed(c) && p < |c.nulls|
    ensures ValueAt(c, p) == Null <==> c.nulls[p]
    ensures !c.nulls[p] && c.Scalars? ==> ValueAt(c, p) == Leaf(c.vals[p])
    ensures !c.nulls[p] && c.Lists? ==> ValueAt(c, p).List? && |ValueAt(c, p).elems| == c.entries[p].size
    ensures !c.nulls[p] && c.Lists? && i < c.entries[p].size ==>
              ValueAt(c, p).elems[i] == ValueAt(c.child, c.entries[p].offset + i)
    ensures !c.nulls[p] && c.Structs? ==> ValueAt(c, p).Struct? && |ValueAt(c, p).vals| == |c.fields|
    ensures !c.nulls[p] && c.Structs? && i < |c.fields| ==> ValueAt(c, p).vals[i] == ValueAt(c.fields[i], p)
  {
  }

  /** The trees of a type. */
  ghost predicate HasType<L>(t: Tree<L>, ty: ColumnType)
    decreases t
  {
    match t
    case Null => true
    case Leaf(_) => ty.ScalarType?
    case List(es) => ty.ListType? && forall i :: 0 <= i < |es| ==> HasType(es[i], ty.elem)
    case Struct(vs) =>
      ty.StructType? && |vs| == |ty.fields| && forall i :: 0 <= i < |vs| ==> HasType(vs[i], ty.fields[i])
  }

  lemma {:induction false} ValueHasType<L>(c: Column<L>, p: nat)
    requires WellFormed(c) && p < |c.nulls|
    ensures HasType(ValueAt(c, p), TypeOf(c))
  {
    if !c.nulls[p] {
      match c
      case Scalars(_, _, _) =>
      case Lists(_, entries, child) =>
        var es := ValueAt(c, p).elems;
        forall i | 0 <= i < |es| ensures HasType(es[i], TypeOf(child)) {
          ValueHasType(child, entries[p].offset + i);
        }
      case Structs(_, _, _, fields) =>
        forall i | 0 <= i < |fields| ensures HasType(ValueAt(fields[i], p), TypeOf(fields[i])) {
          ValueHasType(fields[i], p);
        }
    }
  }
}
