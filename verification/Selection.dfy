/**
 Selection vectors, and what the three kinds of boolean children do when a CASE asks them to select rows.
 */
module Selection {
  import opened Sizes

  /** The result vector of a child: one value for all rows, or one for each. */
  datatype Operand<T> = Flat(value: T) | Unflat(vals: seq<T>)

  function At<T>(o: Operand<T>, p: nat): T
    requires Covers(o, p)
  {
    if o.Flat? then o.value else o.vals[p]
  }

  predicate Covers<T>(o: Operand<T>, p: nat) {
    o.Flat? || p < |o.vals|
  }

  ghost predicate CoversAll<T>(o: Operand<T>, sel: seq<nat>) {
    forall i :: 0 <= i < |sel| ==> Covers(o, sel[i])
  }

  /** The rows of a selection in which a condition holds, in their order. */
  ghost function Filter(cond: Operand<bool>, sel: seq<nat>): (r: seq<nat>)
    requires CoversAll(cond, sel)
    ensures forall p :: p in r <==> p in sel && At(cond, p)
    ensures |r| <= |sel|
  {
    if sel == [] then []
    else
      var rest := Filter(cond, sel[..|sel| - 1]);
      if At(cond, sel[|sel| - 1]) then rest + [sel[|sel| - 1]] else rest
  }

  lemma FilterNext(cond: Operand<bool>, sel: seq<nat>, i: nat)
    requires i < |sel| && CoversAll(cond, sel)
    ensures Filter(cond, sel[..i + 1]) == Filter(cond, sel[..i]) + if At(cond, sel[i]) then [sel[i]] else []
    ensures |Filter(cond, sel[..i])| <= i
  {
    assert sel[..i + 1][..i] == sel[..i];
  }

  ghost predicate Increasing(rows: seq<nat>) {
    forall i, j :: 0 <= i < j < |rows| ==> rows[i] < rows[j]
  }

  /** The filter keeps the order of the selection. */
  lemma {:induction false} FilterInOrder(cond: Operand<bool>, sel: seq<nat>)
    requires CoversAll(cond, sel) && Increasing(sel)
    ensures Increasing(Filter(cond, sel))
    decreases |sel|
  {
    if sel != [] {
      var rest, last := sel[..|sel| - 1], sel[|sel| - 1];
      FilterInOrder(cond, rest);
      forall p | p in Filter(cond, rest) ensures p < last {
        assert p in rest;
      }
      OneLarger(Filter(cond, rest), last);
    }
  }

  lemma OneLarger(rows: seq<nat>, last: nat)
    requires Increasing(rows) && forall p :: p in rows ==> p < last
    ensures Increasing(rows + [last])
  {
    var all := rows + [last];
    forall i, j | 0 <= i < j < |all| ensures all[i] < all[j] {
      assert all[i] == rows[i] && rows[i] in rows;
    }
  }

  lemma FilterNone(cond: Operand<bool>, sel: seq<nat>)
    requires CoversAll(cond, sel)
    ensures Filter(cond, sel[..0]) == []
  {
  }

  function Zeros(n: nat): (r: seq<nat>)
    ensures |r| == n && forall i :: 0 <= i < n ==> r[i] == 0
  {
    seq(n, _ => 0)
  }

  // ---------------------------------------------------------------- selection vectors

  /** Unfiltered it selects the rows 0, 1, ... without looking into its buffer, which may hold anything. */
  class SelectionVector {
    const buffer: array<nat>
    var unfiltered: bool
    var size: nat

    ghost predicate Valid()
      reads this
    {
      buffer.Length == CAPACITY && size <= CAPACITY
    }

    constructor (unfiltered: bool, rows: seq<nat>)
      requires |rows| <= CAPACITY && (unfiltered ==> rows == Upto(0, |rows|))
      ensures Valid() && fresh(buffer) && this.unfiltered == unfiltered && Positions() == rows
      ensures rows == [] ==> buffer[..] == Zeros(CAPACITY)
    {
      buffer := new nat[CAPACITY](i => if 0 <= i < |rows| then rows[i] else 0);
      this.unfiltered, size := unfiltered, |rows|;
    }

    ghost function Positions(): (r: seq<nat>)
      requires Valid()
      reads this, buffer
      ensures |r| == size
    {
      if unfiltered then Upto(0, size) else buffer[..size]
    }

    function Get(i: nat): (p: nat)
      requires Valid() && i < size
      reads this, buffer
      ensures p == Positions()[i]
    {
      if unfiltered then i else buffer[i]
    }
  }

  // ---------------------------------------------------------------- what CASE relies on

  /** The selection of the child's state stays as it was; a flat condition is reported, any other has its
      filter written to the given selection. */
  ghost predicate Selected(cond: Operand<bool>, before: seq<nat>, after: seq<nat>, any: bool, given: seq<nat>)
    requires CoversAll(cond, before)
  {
    && after == before
    && if cond.Flat? then any == cond.value else given == Filter(cond, before) && any == (given != [])
  }

  /** The states that a child can have: a flat one selects one row. */
  ghost predicate StateOf(cond: Operand<bool>, sel: seq<nat>) {
    CoversAll(cond, sel) && Distinct(sel) && (cond.Flat? ==> |sel| == 1)
  }

  /** A function with a select form of its own. */
  method Select(cond: Operand<bool>, state: SelectionVector, given: SelectionVector) returns (any: bool)
    requires state.Valid() && given.Valid() && !given.unfiltered && given != state && given.buffer != state.buffer
    requires StateOf(cond, state.Positions())
    modifies given`size, given.buffer
    ensures given.Valid() && Selected(cond, old(state.Positions()), state.Positions(), any, given.Positions())
  {
    hide Filter, Distinct;
    ghost var sel := state.Positions();
    FilterNone(cond, sel);
    given.size := 0;
    for i := 0 to state.size
      invariant state.Positions() == sel && given.size <= i && given.buffer[..given.size] == Filter(cond, sel[..i])
    {
      FilterNext(cond, sel, i);
      var pos := state.Get(i);
      if At(cond, pos) {
        given.buffer[given.size] := pos;
        given.size := given.size + 1;
      }
    }
    assert sel[..|sel|] == sel;
    any := given.size > 0;
    if cond.Flat? {
      FilterNext(cond, sel, 0);
    }
  }

  // ---------------------------------------------------------------- a bare boolean column

  /** What i rounds of the loop over a filtered selection leave of it: every row looked at is written behind
      the rows found so far. */
  ghost function Overwritten(cond: Operand<bool>, sel: seq<nat>, i: nat): (r: seq<nat>)
    requires CoversAll(cond, sel) && i <= |sel|
    ensures |r| == |sel|
    ensures forall j :: i <= j < |sel| ==> r[j] == sel[j]
  {
    if i == 0 then sel else Overwritten(cond, sel, i - 1)[|Filter(cond, sel[..i - 1])| := sel[i - 1]]
  }

  /** The column's state after it has selected. */
  ghost function ColumnState(cond: Operand<bool>, sel: seq<nat>, unfiltered: bool): seq<nat>
    requires CoversAll(cond, sel)
  {
    if unfiltered then sel else Overwritten(cond, sel, |sel|)
  }

  /** The rows that hold are written to the buffer of the column's own state; the given selection gets the
      size alone, and so shows what it held before. */
  method SelectColumn(cond: Operand<bool>, state: SelectionVector, given: SelectionVector) returns (any: bool)
    requires state.Valid() && given.Valid() && !given.unfiltered && given != state && given.buffer != state.buffer
    requires StateOf(cond, state.Positions())
    modifies given`size, state.buffer
    ensures given.Valid() && any == (Filter(cond, old(state.Positions())) != [])
    ensures given.Positions() == old(given.buffer[..])[..|Filter(cond, old(state.Positions()))|]
    ensures state.Positions() == ColumnState(cond, old(state.Positions()), state.unfiltered)
  {
    hide Filter, Distinct;
    ghost var sel := state.Positions();
    FilterNone(cond, sel);
    var numSelected := 0;
    if state.unfiltered {
      for i := 0 to state.size
        invariant numSelected == |Filter(cond, sel[..i])| <= i
      {
        FilterNext(cond, sel, i);
        state.buffer[numSelected] := i;
        numSelected := numSelected + if At(cond, i) then 1 else 0;
      }
    } else {
      for i := 0 to state.size
        invariant numSelected == |Filter(cond, sel[..i])| <= i
        invariant state.buffer[..state.size] == Overwritten(cond, sel, i)
      {
        FilterNext(cond, sel, i);
        var pos := state.Get(i);
        state.buffer[numSelected] := pos;
        numSelected := numSelected + if At(cond, pos) then 1 else 0;
      }
    }
    assert sel[..|sel|] == sel;
    given.size := numSelected;
    any := numSelected > 0;
  }

  lemma {:induction false} FilterFull(cond: Operand<bool>, sel: seq<nat>)
    requires CoversAll(cond, sel)
    ensures |Filter(cond, sel)| == |sel| <==> forall i :: 0 <= i < |sel| ==> At(cond, sel[i])
    decreases |sel|
  {
    if sel != [] {
      FilterFull(cond, sel[..|sel| - 1]);
    }
  }

  lemma AllFound(cond: Operand<bool>, sel: seq<nat>, i: nat)
    requires CoversAll(cond, sel) && i <= |sel| && forall j :: 0 <= j < i ==> At(cond, sel[j])
    ensures CoversAll(cond, sel[..i]) && |Filter(cond, sel[..i])| == i
  {
    FilterFull(cond, sel[..i]);
  }

  lemma OverwrittenStep(cond: Operand<bool>, sel: seq<nat>, i: nat)
    requires CoversAll(cond, sel) && i <= |sel|
    ensures i == 0 ==> Overwritten(cond, sel, i) == sel
    ensures i > 0 ==> CoversAll(cond, sel[..i - 1]) && |Filter(cond, sel[..i - 1])| < |sel|
    ensures i > 0 ==> Overwritten(cond, sel, i) == Overwritten(cond, sel, i - 1)[|Filter(cond, sel[..i - 1])| := sel[i - 1]]
  {
    hide Filter;
  }

  lemma {:induction false} OverwrittenSame(cond: Operand<bool>, sel: seq<nat>, i: nat)
    requires CoversAll(cond, sel) && i <= |sel| && forall j :: 0 <= j < i - 1 ==> At(cond, sel[j])
    ensures Overwritten(cond, sel, i) == sel
    decreases i
  {
    hide Filter, CoversAll, Overwritten;
    OverwrittenStep(cond, sel, i);
    if i > 0 {
      AllFound(cond, sel, i - 1);
      OverwrittenSame(cond, sel, i - 1);
      assert sel[i - 1 := sel[i - 1]] == sel;
    }
  }

  /** A filtered selection survives exactly when every row before the last holds. */
  lemma SelectionKept(cond: Operand<bool>, sel: seq<nat>)
    requires CoversAll(cond, sel) && Distinct(sel)
    ensures ColumnState(cond, sel, false) == sel <==> forall i :: 0 <= i < |sel| - 1 ==> At(cond, sel[i])
  {
    hide Filter;
    if forall i :: 0 <= i < |sel| - 1 ==> At(cond, sel[i]) {
      OverwrittenSame(cond, sel, |sel|);
    } else {
      var last := |sel| - 1;
      FilterFull(cond, sel[..last]);
      var k := |Filter(cond, sel[..last])|;
      assert Overwritten(cond, sel, |sel|)[k] == sel[last] != sel[k];
    }
  }

  /** Whatever is overwritten, the selection still holds selected rows only. */
  lemma {:induction false} OverwrittenIn(cond: Operand<bool>, sel: seq<nat>, i: nat, p: nat)
    requires CoversAll(cond, sel) && i <= |sel| && p in Overwritten(cond, sel, i)
    ensures p in sel
    decreases i
  {
    hide Filter;
    if i > 0 && p != sel[i - 1] {
      assert p in Overwritten(cond, sel, i - 1);
      OverwrittenIn(cond, sel, i - 1, p);
    }
  }

  /** Without a row that holds, the last row takes the place of the first. */
  lemma {:induction false} FirstRowLost(cond: Operand<bool>, sel: seq<nat>, i: nat)
    requires CoversAll(cond, sel) && 0 < i <= |sel| && forall j :: 0 <= j < i ==> !At(cond, sel[j])
    ensures Overwritten(cond, sel, i) == sel[0 := sel[i - 1]]
    decreases i
  {
    NoneHolds(cond, sel[..i - 1]);
    hide Filter;
    if i > 1 {
      FirstRowLost(cond, sel, i - 1);
    }
  }

  lemma NoneHolds(cond: Operand<bool>, sel: seq<nat>)
    requires CoversAll(cond, sel)
    ensures Filter(cond, sel) == [] <==> forall j :: 0 <= j < |sel| ==> !At(cond, sel[j])
  {
    if Filter(cond, sel) == [] {
      forall j | 0 <= j < |sel| ensures !At(cond, sel[j]) {
        assert sel[j] !in Filter(cond, sel);
      }
    } else {
      assert Filter(cond, sel)[0] in Filter(cond, sel);
    }
  }

  lemma {:induction false} FilterDistinct(cond: Operand<bool>, sel: seq<nat>)
    requires CoversAll(cond, sel) && Distinct(sel)
    ensures Distinct(Filter(cond, sel))
    decreases |sel|
  {
    if sel != [] {
      var rest, last := sel[..|sel| - 1], sel[|sel| - 1];
      FilterDistinct(cond, rest);
      assert last !in rest;
      assert last !in Filter(cond, rest);
    }
  }

  /** The given selection of a column is allocated with zeros and never written to, so it shows row 0 as often
      as there are rows that hold. */
  ghost predicate ColumnMeets(cond: Operand<bool>, sel: seq<nat>, unfiltered: bool)
    requires CoversAll(cond, sel)
  {
    || cond.Flat?
    || (&& (Filter(cond, sel) == [] || Filter(cond, sel) == [0])
        && (unfiltered || forall i :: 0 <= i < |sel| - 1 ==> At(cond, sel[i])))
  }

  /** A column does what CASE relies on exactly when it is flat, or holds at most in row 0 and leaves its own
      selection as it was. */
  lemma ColumnMeetsExactly(cond: Operand<bool>, sel: seq<nat>, unfiltered: bool)
    requires StateOf(cond, sel)
    ensures var f := Filter(cond, sel);
            Selected(cond, sel, ColumnState(cond, sel, unfiltered), f != [], Zeros(|f|)) <==> ColumnMeets(cond, sel, unfiltered)
  {
    var f := Filter(cond, sel);
    FilterDistinct(cond, sel);
    NoneHolds(cond, sel);
    hide Filter, Overwritten;
    SelectionKept(cond, sel);
    if |f| > 1 {
      assert f[0] != f[1] && Zeros(|f|)[0] == Zeros(|f|)[1];
    }
  }

  /** A column that is false in the selected rows 3 and 5 leaves the selection 5, 5. */
  lemma SelectionDamaged(cond: Operand<bool>)
    requires cond.Unflat? && |cond.vals| > 5 && !cond.vals[3] && !cond.vals[5]
    ensures CoversAll(cond, [3, 5]) && ColumnState(cond, [3, 5], false) == [5, 5]
  {
    FirstRowLost(cond, [3, 5], 2);
  }

  // ---------------------------------------------------------------- a function without a select form

  /** What it leaves in the given selection: with one row, nothing new. */
  ghost function SelectedPos(cond: Operand<bool>, sel: seq<nat>, given: seq<nat>): seq<nat>
    requires CoversAll(cond, sel)
  {
    if |sel| > 1 then Filter(cond, sel) else given
  }

  method UpdateSelectedPos(cond: Operand<bool>, state: SelectionVector, given: SelectionVector) returns (any: bool)
    requires state.Valid() && given.Valid() && !given.unfiltered && given != state && given.buffer != state.buffer
    requires StateOf(cond, state.Positions()) && state.size > 0
    modifies given`size, given.buffer
    ensures given.Valid() && any == (Filter(cond, state.Positions()) != [])
    ensures given.Positions() == SelectedPos(cond, state.Positions(), old(given.Positions()))
  {
    hide Filter, Distinct;
    ghost var sel := state.Positions();
    FilterNone(cond, sel);
    if state.size > 1 {
      var numSelected := 0;
      for i := 0 to state.size
        invariant numSelected <= i && given.buffer[..numSelected] == Filter(cond, sel[..i])
      {
        FilterNext(cond, sel, i);
        var pos := state.Get(i);
        given.buffer[numSelected] := pos;
        numSelected := numSelected + if At(cond, pos) then 1 else 0;
      }
      given.size := numSelected;
      any := numSelected > 0;
    } else {
      FilterNext(cond, sel, 0);
      any := At(cond, state.Get(0));
    }
    assert sel[..|sel|] == sel;
  }

  /** It does what CASE relies on, whatever the given selection holds, exactly when it is flat or several rows
      are selected. */
  lemma SelectedPosMeetsExactly(cond: Operand<bool>, sel: seq<nat>)
    requires StateOf(cond, sel) && sel != []
    ensures (forall given: seq<nat> :: Selected(cond, sel, sel, Filter(cond, sel) != [], SelectedPos(cond, sel, given)))
       <==> cond.Flat? || |sel| > 1
  {
    NoneHolds(cond, sel);
    hide Filter;
    var f := Filter(cond, sel);
    if cond.Unflat? && |sel| == 1 {
      assert !Selected(cond, sel, sel, f != [], SelectedPos(cond, sel, f + [0]));
    }
  }

  // ---------------------------------------------------------------- any child

  datatype Child = SelectFunction | Column | ExecFunction

  ghost predicate Meets(child: Child, cond: Operand<bool>, sel: seq<nat>, unfiltered: bool)
    requires CoversAll(cond, sel)
  {
    match child
    case SelectFunction => true
    case Column => ColumnMeets(cond, sel, unfiltered)
    case ExecFunction => sel != [] && (cond.Flat? || |sel| > 1)
  }

  method SelectChild(child: Child, cond: Operand<bool>, state: SelectionVector, given: SelectionVector) returns (any: bool)
    requires state.Valid() && given.Valid() && !given.unfiltered && given != state && given.buffer != state.buffer
    requires StateOf(cond, state.Positions()) && Meets(child, cond, state.Positions(), state.unfiltered)
    requires child.Column? ==> given.buffer[..] == Zeros(CAPACITY)
    modifies given`size, given.buffer, state.buffer
    ensures given.Valid() && Selected(cond, old(state.Positions()), state.Positions(), any, given.Positions())
    ensures child.Column? ==> given.buffer[..] == Zeros(CAPACITY)
  {
    hide Filter, Distinct, Overwritten;
    ghost var sel, was := state.Positions(), given.Positions();
    match child
    case SelectFunction =>
      any := Select(cond, state, given);
    case Column =>
      any := SelectColumn(cond, state, given);
      ColumnMeetsExactly(cond, sel, state.unfiltered);
      assert given.Positions() == Zeros(|Filter(cond, sel)|);
    case ExecFunction =>
      any := UpdateSelectedPos(cond, state, given);
      SelectedPosMeetsExactly(cond, sel);
      assert Selected(cond, sel, sel, Filter(cond, sel) != [], SelectedPos(cond, sel, was));
  }
}
