/**
 The hash executors: loops over selections that fill a result vector, one chunk of at most
 2048 child rows at a time.
 */
module VectorHash {
  import opened Columns
  import opened NestedHash
  import opened Sizes

  /** A selection: distinct positions of a vector. */
  ghost predicate Selects(sel: seq<nat>, n: nat) {
    Distinct(sel) && forall i :: 0 <= i < |sel| ==> sel[i] < n
  }

  /** The list data vectors are counted with 32 bits. */
  ghost predicate Countable<L>(c: Column<L>) {
    match c
    case Scalars(_, _, _) => true
    case Lists(_, _, child) => |child.nulls| < UINT32 && Countable(child)
    case Structs(_, _, _, fields) => forall i :: 0 <= i < |fields| ==> Countable(fields[i])
  }

  /** Some of the selected rows have been hashed; nothing else has changed. */
  ghost predicate Hashed<L>(f: L -> Hash, c: Column<L>, sel: seq<nat>, was: seq<Hash>, now: seq<Hash>, to: seq<nat>, n: nat)
    requires WellFormed(c) && Selects(sel, |c.nulls|) && |sel| == |to| && n <= |sel|
    requires |was| == |now| && Selects(to, |now|)
  {
    && (forall i :: 0 <= i < n ==> now[to[i]] == HashRow(f, c, sel[i]))
    && (forall p :: 0 <= p < |now| && p !in to[..n] ==> now[p] == was[p])
  }

  /** The operands of a hash computation. */
  ghost predicate Ready<L>(c: Column<L>, sel: seq<nat>, result: array<Hash>, to: seq<nat>) {
    && WellFormed(c) && Countable(c) && |sel| == |to|
    && Selects(sel, |c.nulls|) && Selects(to, result.Length)
  }

  method ComputeHash<L>(f: L -> Hash, c: Column<L>, sel: seq<nat>, result: array<Hash>, to: seq<nat>)
    requires Ready(c, sel, result, to)
    modifies result
    ensures Hashed(f, c, sel, old(result[..]), result[..], to, |sel|)
    decreases c, 1
  {
    match c
    case Scalars(_, _, _) => HashScalars(f, c, sel, result, to);
    case Lists(_, _, _) => HashLists(f, c, sel, result, to);
    case Structs(_, _, _, _) => HashStructs(f, c, sel, result, to);
  }

  /** `UnaryHashFunctionExecutor`. */
  method HashScalars<L>(f: L -> Hash, c: Column<L>, sel: seq<nat>, result: array<Hash>, to: seq<nat>)
    requires Ready(c, sel, result, to) && c.Scalars?
    modifies result
    ensures Hashed(f, c, sel, old(result[..]), result[..], to, |sel|)
    decreases c, 0
  {
    for i := 0 to |sel|
      invariant Hashed(f, c, sel, old(result[..]), result[..], to, i)
    {
      ghost var before := result[..];
      result[to[i]] := if c.nulls[sel[i]] then NULL_HASH else f(c.vals[sel[i]]);
      HashedNext(f, c, sel, old(result[..]), before, to, i);
      assert result[..] == before[to[i] := HashRow(f, c, sel[i])];
    }
  }

  lemma HashedNext<L>(f: L -> Hash, c: Column<L>, sel: seq<nat>, was: seq<Hash>, now: seq<Hash>, to: seq<nat>, n: nat)
    requires WellFormed(c) && Selects(sel, |c.nulls|) && |sel| == |to| && n < |sel|
    requires |was| == |now| && Selects(to, |now|) && Hashed(f, c, sel, was, now, to, n)
    ensures Hashed(f, c, sel, was, now[to[n] := HashRow(f, c, sel[n])], to, n + 1)
  {
    hide HashRow;
    assert to[..n + 1] == to[..n] + [to[n]];
  }

  /** `computeDataVecHash`: the hashes of all rows of the child, chunk by chunk. */
  method HashData<L>(f: L -> Hash, c: Column<L>) returns (data: array<Hash>)
    requires WellFormed(c) && Countable(c) && c.Lists?
    ensures fresh(data) && data.Length == |c.child.nulls|
    ensures forall p :: 0 <= p < data.Length ==> data[p] == HashRow(f, c.child, p)
    decreases c, 0, 0
  {
    hide HashRow, Hashed;
    var n := |c.child.nulls|;
    data := new Hash[n](_ => 0);
    var selection := new nat[CAPACITY](_ => 0);
    var computed: nat := 0;
    while computed < n
      invariant computed <= n && fresh(data) && fresh(selection) && data.Length == n
      invariant forall p :: 0 <= p < computed ==> data[p] == HashRow(f, c.child, p)
    {
      var size := if CAPACITY <= n - computed then CAPACITY else n - computed;
      ghost var start := computed;
      for i := 0 to size
        invariant computed == start + i
        invariant forall j :: 0 <= j < i ==> selection[j] == start + j
        modifies selection
      {
        selection[i] := computed;
        computed := computed + 1;
      }
      var sel := selection[..size];
      ghost var before := data[..];
      ComputeHash(f, c.child, sel, data, sel);
      ChunkHashed(f, c.child, sel, before, data[..], start);
    }
  }

  lemma ChunkHashed<L>(f: L -> Hash, c: Column<L>, sel: seq<nat>, was: seq<Hash>, now: seq<Hash>, start: nat)
    requires WellFormed(c) && |was| == |now| == |c.nulls| && start + |sel| <= |now|
    requires forall j :: 0 <= j < |sel| ==> sel[j] == start + j
    requires Hashed(f, c, sel, was, now, sel, |sel|)
    requires forall p :: 0 <= p < start ==> was[p] == HashRow(f, c, p)
    ensures forall p :: 0 <= p < start + |sel| ==> now[p] == HashRow(f, c, p)
  {
    hide HashRow;
    forall p | 0 <= p < start + |sel| ensures now[p] == HashRow(f, c, p) {
      if p < start {
        assert p !in sel[..|sel|];
      } else {
        assert sel[p - start] == p;
      }
    }
  }

  /** `computeListVectorHash`. */
  method HashLists<L>(f: L -> Hash, c: Column<L>, sel: seq<nat>, result: array<Hash>, to: seq<nat>)
    requires Ready(c, sel, result, to) && c.Lists?
    modifies result
    ensures Hashed(f, c, sel, old(result[..]), result[..], to, |sel|)
    decreases c, 0, 1
  {
    var data := HashData(f, c);
    for i := 0 to |sel|
      invariant Hashed(f, c, sel, old(result[..]), result[..], to, i)
      invariant forall p :: 0 <= p < data.Length ==> data[p] == HashRow(f, c.child, p)
    {
      ghost var before := result[..];
      HashedNext(f, c, sel, old(result[..]), before, to, i);
      var hash := HashEntry(f, c, sel[i], data);
      result[to[i]] := hash;
      assert result[..] == before[to[i] := hash];
    }
  }

  /** `finalizeDataVecHash` for one row. */
  method HashEntry<L>(f: L -> Hash, c: Column<L>, p: nat, data: array<Hash>) returns (hash: Hash)
    requires WellFormed(c) && c.Lists? && p < |c.nulls| && data.Length == |c.child.nulls|
    requires forall q :: 0 <= q < data.Length ==> data[q] == HashRow(f, c.child, q)
    ensures hash == HashRow(f, c, p)
  {
    hide Combine;
    hash := NULL_HASH;
    if c.nulls[p] {
      return;
    }
    var entry := c.entries[p];
    for j := 0 to entry.size
      invariant hash == RowElems(f, c, p, j)
    {
      hash := Combine(hash, data[entry.offset + j]);
    }
  }

  /** The first k fields of the selected rows have been hashed. */
  ghost predicate FieldsHashed<L>(f: L -> Hash, c: Column<L>, sel: seq<nat>, was: seq<Hash>, now: seq<Hash>, to: seq<nat>, k: nat)
    requires WellFormed(c) && c.Structs? && 0 < k <= |c.fields|
    requires Selects(sel, |c.nulls|) && |sel| == |to| && |was| == |now| && Selects(to, |now|)
  {
    && (forall i :: 0 <= i < |sel| ==> now[to[i]] == RowFields(f, c, sel[i], k))
    && (forall p :: 0 <= p < |now| && p !in to ==> now[p] == was[p])
  }

  /** `computeStructVecHash`. */
  method HashStructs<L>(f: L -> Hash, c: Column<L>, sel: seq<nat>, result: array<Hash>, to: seq<nat>)
    requires Ready(c, sel, result, to) && c.Structs?
    modifies result
    ensures Hashed(f, c, sel, old(result[..]), result[..], to, |sel|)
    decreases c, 0, 1
  {
    hide Hashed, Selects;
    match c.skind
    case Node =>
      HashScalars(f, c.fields[0], sel, result, to);
      IdField(f, c, sel, old(result[..]), result[..], to, 0);
    case Rel =>
      HashScalars(f, c.fields[3], sel, result, to);
      IdField(f, c, sel, old(result[..]), result[..], to, 3);
    case Plain =>
      HashAllFields(f, c, sel, result, to);
  }

  lemma IdField<L>(f: L -> Hash, c: Column<L>, sel: seq<nat>, was: seq<Hash>, now: seq<Hash>, to: seq<nat>, id: nat)
    requires WellFormed(c) && c.Structs? && |sel| == |to| && |was| == |now|
    requires Selects(sel, |c.nulls|) && Selects(to, |now|)
    requires (c.skind.Node? && id == 0) || (c.skind.Rel? && id == 3)
    requires Hashed(f, c.fields[id], sel, was, now, to, |sel|)
    ensures Hashed(f, c, sel, was, now, to, |sel|)
  {
  }

  method HashAllFields<L>(f: L -> Hash, c: Column<L>, sel: seq<nat>, result: array<Hash>, to: seq<nat>)
    requires Ready(c, sel, result, to) && c.Structs? && c.skind.Plain?
    modifies result
    ensures Hashed(f, c, sel, old(result[..]), result[..], to, |sel|)
    decreases c, 0, 0
  {
    hide HashRow, Hashed, FieldsHashed, Combined, Selects;
    ComputeHash(f, c.fields[0], sel, result, to);
    FirstField(f, c, sel, old(result[..]), result[..], to);
    var tmp := new Hash[|sel|](_ => 0);
    var tmpSel := Upto(0, |sel|);
    UptoSelects(|sel|);
    for i := 1 to |c.fields|
      invariant fresh(tmp) && FieldsHashed(f, c, sel, old(result[..]), result[..], to, i)
    {
      ghost var before, was := result[..], tmp[..];
      ComputeHash(f, c.fields[i], sel, tmp, tmpSel);
      CombineHash(tmp, tmpSel, result, to);
      TmpHashed(f, c.fields[i], sel, was, tmp[..]);
      NextField(f, c, sel, old(result[..]), before, result[..], tmp[..], to, i);
    }
    LastField(f, c, sel, old(result[..]), result[..], to);
  }

  lemma UptoSelects(n: nat)
    ensures Selects(Upto(0, n), n)
  {
  }

  lemma TmpHashed<L>(f: L -> Hash, c: Column<L>, sel: seq<nat>, was: seq<Hash>, tmp: seq<Hash>)
    requires WellFormed(c) && Selects(sel, |c.nulls|) && |was| == |tmp| == |sel| && Selects(Upto(0, |sel|), |sel|)
    requires Hashed(f, c, sel, was, tmp, Upto(0, |sel|), |sel|)
    ensures forall i :: 0 <= i < |tmp| ==> tmp[i] == HashRow(f, c, sel[i])
  {
    hide HashRow;
    forall i | 0 <= i < |tmp| ensures tmp[i] == HashRow(f, c, sel[i]) {
      assert Upto(0, |sel|)[i] == i;
    }
  }

  lemma LastField<L>(f: L -> Hash, c: Column<L>, sel: seq<nat>, was: seq<Hash>, now: seq<Hash>, to: seq<nat>)
    requires WellFormed(c) && c.Structs? && c.skind.Plain? && |sel| == |to| && |was| == |now|
    requires Selects(sel, |c.nulls|) && Selects(to, |now|)
    requires FieldsHashed(f, c, sel, was, now, to, |c.fields|)
    ensures Hashed(f, c, sel, was, now, to, |sel|)
  {
    hide RowFields;
    assert to[..|sel|] == to;
  }

  lemma FirstField<L>(f: L -> Hash, c: Column<L>, sel: seq<nat>, was: seq<Hash>, now: seq<Hash>, to: seq<nat>)
    requires WellFormed(c) && c.Structs? && |sel| == |to| && |was| == |now|
    requires Selects(sel, |c.nulls|) && Selects(to, |now|)
    requires Hashed(f, c.fields[0], sel, was, now, to, |sel|)
    ensures FieldsHashed(f, c, sel, was, now, to, 1)
  {
    assert to[..|sel|] == to;
    hide HashRow;
  }

  /** The positions have been combined, in place. */
  ghost predicate Combined(tmp: seq<Hash>, was: seq<Hash>, now: seq<Hash>, to: seq<nat>, n: nat)
    requires |was| == |now| && |tmp| == |to| && n <= |to| && Selects(to, |now|)
  {
    && (forall i :: 0 <= i < n ==> now[to[i]] == Combine(tmp[i], was[to[i]]))
    && (forall p :: 0 <= p < |now| && p !in to[..n] ==> now[p] == was[p])
  }

  lemma NextField<L>(f: L -> Hash, c: Column<L>, sel: seq<nat>, was: seq<Hash>, mid: seq<Hash>, now: seq<Hash>,
                     tmp: seq<Hash>, to: seq<nat>, k: nat)
    requires WellFormed(c) && c.Structs? && 0 < k < |c.fields| && |sel| == |to| == |tmp| && |was| == |mid| == |now|
    requires Selects(sel, |c.nulls|) && Selects(to, |now|)
    requires FieldsHashed(f, c, sel, was, mid, to, k) && Combined(tmp, mid, now, to, |to|)
    requires forall i :: 0 <= i < |tmp| ==> tmp[i] == HashRow(f, c.fields[k], sel[i])
    ensures FieldsHashed(f, c, sel, was, now, to, k + 1)
  {
    hide HashRow, Combine;
    assert to[..|to|] == to;
    forall i | 0 <= i < |sel| ensures now[to[i]] == RowFields(f, c, sel[i], k + 1) {
      assert mid[to[i]] == RowFields(f, c, sel[i], k);
    }
  }

  /** `BinaryHashFunctionExecutor` with the result as its right operand. */
  method CombineHash(left: array<Hash>, leftSel: seq<nat>, result: array<Hash>, to: seq<nat>)
    requires left != result && leftSel == Upto(0, left.Length) && |to| == left.Length && Selects(to, result.Length)
    modifies result
    ensures Combined(left[..], old(result[..]), result[..], to, |to|)
  {
    hide Combine;
    for i := 0 to |to|
      invariant Combined(left[..], old(result[..]), result[..], to, i)
    {
      assert to[i] !in to[..i];
      result[to[i]] := Combine(left[leftSel[i]], result[to[i]]);
      assert to[..i + 1] == to[..i] + [to[i]];
    }
  }
}
