/**
 The vectorised CASE expression: alternatives fill the rows they select, a mask keeps rows from
 being filled twice, and evaluation stops early when every row is filled.
 */
module CaseEvaluator {
  import opened Selection
  import opened Sizes

  /** A WHEN condition, true where it is not null and true, the kind of its evaluator, and its THEN value. */
  datatype Alternative<T> = Alternative(child: Child, cond: Operand<bool>, val: Operand<T>)

  /** The selected rows: distinct positions that every child covers. */
  ghost predicate Rows<T>(alts: seq<Alternative<T>>, otherwise: Operand<T>, sel: seq<nat>) {
    && (forall i :: 0 <= i < |sel| ==> sel[i] < CAPACITY && Covers(otherwise, sel[i]))
    && Distinct(sel)
    && (forall k, i :: 0 <= k < |alts| && 0 <= i < |sel| ==> Covers(alts[k].cond, sel[i]) && Covers(alts[k].val, sel[i]))
  }

  // ---------------------------------------------------------------- row by row

  /** The first alternative from k on whose condition holds in the row, or the number of alternatives. */
  ghost function FirstTrue<T>(alts: seq<Alternative<T>>, p: nat, k: nat): (r: nat)
    requires k <= |alts| && forall i :: 0 <= i < |alts| ==> Covers(alts[i].cond, p)
    ensures k <= r <= |alts|
    ensures r < |alts| ==> At(alts[r].cond, p)
    ensures forall i :: k <= i < r ==> !At(alts[i].cond, p)
    decreases |alts| - k
  {
    if k == |alts| || At(alts[k].cond, p) then k else FirstTrue(alts, p, k + 1)
  }

  /** The value of CASE in one row. */
  ghost function CaseAt<T>(alts: seq<Alternative<T>>, otherwise: Operand<T>, p: nat): T
    requires Covers(otherwise, p) && forall i :: 0 <= i < |alts| ==> Covers(alts[i].cond, p) && Covers(alts[i].val, p)
  {
    var k := FirstTrue(alts, p, 0);
    if k < |alts| then At(alts[k].val, p) else At(otherwise, p)
  }

  /** Vectors give every row its own value, flat ones the same value to all. */
  lemma CaseOfVectors<T>(alts: seq<Alternative<T>>, otherwise: Operand<T>, p: nat, k: nat)
    requires Covers(otherwise, p) && forall i :: 0 <= i < |alts| ==> Covers(alts[i].cond, p) && Covers(alts[i].val, p)
    requires k <= |alts| && (forall i :: 0 <= i < k ==> !At(alts[i].cond, p)) && (k < |alts| ==> At(alts[k].cond, p))
    ensures var src := if k < |alts| then alts[k].val else otherwise;
            CaseAt(alts, otherwise, p) == if src.Flat? then src.value else src.vals[p]
    ensures forall i :: 0 <= i < |alts| ==> At(alts[i].cond, p) == if alts[i].cond.Flat? then alts[i].cond.value else alts[i].cond.vals[p]
  {
    assert FirstTrue(alts, p, 0) == k;
  }

  // ---------------------------------------------------------------- selecting

  /** Every child whose result is not flat does what CASE relies on. */
  ghost predicate ChildrenMeet<T>(alts: seq<Alternative<T>>, otherwise: Operand<T>, sel: seq<nat>, unfiltered: bool)
    requires Rows(alts, otherwise, sel)
  {
    forall k :: 0 <= k < |alts| && alts[k].cond.Unflat? ==> Meets(alts[k].child, alts[k].cond, sel, unfiltered)
  }

  // ---------------------------------------------------------------- filling

  ghost predicate ValidRows<T>(src: Operand<T>, rows: seq<nat>) {
    forall i :: 0 <= i < |rows| ==> rows[i] < CAPACITY && Covers(src, rows[i])
  }

  /** Rows that were not filled before, and no others, have been given the source's values, once each. */
  ghost predicate Given<T>(src: Operand<T>, rows: seq<nat>, mask: seq<bool>, vals: seq<T>, writes: multiset<nat>,
                           mask': seq<bool>, vals': seq<T>, writes': multiset<nat>)
    requires |mask| == |mask'| == |vals| == |vals'| == CAPACITY && ValidRows(src, rows)
  {
    && (forall p :: 0 <= p < CAPACITY ==> mask'[p] == (mask[p] || p in rows))
    && (forall p :: 0 <= p < CAPACITY && p in rows && !mask[p] ==> vals'[p] == At(src, p) && writes'[p] == writes[p] + 1)
    && (forall p :: 0 <= p < CAPACITY && (p !in rows || mask[p]) ==> vals'[p] == vals[p] && writes'[p] == writes[p])
  }

  /** After the first k alternatives: the rows with a condition that holds among them are filled, rightly, once. */
  ghost predicate Progress<T>(alts: seq<Alternative<T>>, otherwise: Operand<T>, sel: seq<nat>, k: nat,
                              mask: seq<bool>, vals: seq<T>, writes: multiset<nat>)
    requires Rows(alts, otherwise, sel) && k <= |alts| && |mask| == |vals| == CAPACITY
  {
    && (forall p :: 0 <= p < CAPACITY ==> (mask[p] <==> p in sel && FirstTrue(alts, p, 0) < k))
    && (forall p :: 0 <= p < CAPACITY && mask[p] ==> vals[p] == CaseAt(alts, otherwise, p) && writes[p] == 1)
    && (forall p :: 0 <= p < CAPACITY && !mask[p] ==> writes[p] == 0)
  }

  lemma {:induction false} FirstTrueAt<T>(alts: seq<Alternative<T>>, p: nat, j: nat, k: nat)
    requires j <= k < |alts| && forall i :: 0 <= i < |alts| ==> Covers(alts[i].cond, p)
    ensures FirstTrue(alts, p, j) < k + 1 <==> FirstTrue(alts, p, j) < k || At(alts[k].cond, p)
    decreases k - j
  {
  }

  /** One more alternative. */
  lemma NextAlternative<T>(alts: seq<Alternative<T>>, otherwise: Operand<T>, sel: seq<nat>, k: nat, rows: seq<nat>,
                           mask: seq<bool>, vals: seq<T>, writes: multiset<nat>,
                           mask': seq<bool>, vals': seq<T>, writes': multiset<nat>)
    requires Rows(alts, otherwise, sel) && k < |alts| && |mask| == |vals| == |mask'| == |vals'| == CAPACITY
    requires Progress(alts, otherwise, sel, k, mask, vals, writes)
    requires forall p :: p in rows <==> p in sel && At(alts[k].cond, p)
    requires ValidRows(alts[k].val, rows) && Given(alts[k].val, rows, mask, vals, writes, mask', vals', writes')
    ensures Progress(alts, otherwise, sel, k + 1, mask', vals', writes')
  {
    forall p | 0 <= p < CAPACITY && p in sel
      ensures mask'[p] <==> FirstTrue(alts, p, 0) < k + 1
      ensures mask'[p] ==> vals'[p] == CaseAt(alts, otherwise, p) && writes'[p] == 1
    {
      FirstTrueAt(alts, p, 0, k);
      if !mask[p] && p in rows {
        assert FirstTrue(alts, p, 0) == k;
      }
    }
  }

  // ---------------------------------------------------------------- the filled count

  ghost function FilledBelow(mask: seq<bool>, n: nat): set<nat>
    requires n <= |mask|
  {
    set p | 0 <= p < n && mask[p]
  }

  lemma NextFilled(mask: seq<bool>, n: nat)
    requires n < |mask|
    ensures |FilledBelow(mask, n + 1)| == |FilledBelow(mask, n)| + if mask[n] then 1 else 0
  {
    assert FilledBelow(mask, n + 1) == FilledBelow(mask, n) + if mask[n] then {n} else {};
  }

  ghost function SetOf(sel: seq<nat>): set<nat> {
    set p | p in sel
  }

  lemma {:induction false} RowsDistinct(sel: seq<nat>)
    requires Distinct(sel)
    ensures |SetOf(sel)| == |sel|
    decreases |sel|
  {
    if sel == [] {
      assert SetOf(sel) == {};
    } else {
      var rest, last := sel[..|sel| - 1], sel[|sel| - 1];
      RowsDistinct(rest);
      assert SetOf(sel) == SetOf(rest) + {last};
      assert last !in rest;
    }
  }

  lemma {:induction false} SubsetOfSize(a: set<nat>, b: set<nat>)
    requires a <= b && |a| == |b|
    ensures a == b
    decreases |a|
  {
    if a != {} {
      var x :| x in a;
      SubsetOfSize(a - {x}, b - {x});
      assert a == a - {x} + {x} && b == b - {x} + {x};
    }
  }

  /** When as many rows are filled as are selected, every selected row is filled. */
  lemma CountReached<T>(alts: seq<Alternative<T>>, otherwise: Operand<T>, sel: seq<nat>, k: nat,
                        mask: seq<bool>, vals: seq<T>, writes: multiset<nat>)
    requires Rows(alts, otherwise, sel) && k <= |alts| && |mask| == |vals| == CAPACITY
    requires Progress(alts, otherwise, sel, k, mask, vals, writes) && |FilledBelow(mask, CAPACITY)| == |sel|
    ensures forall p :: p in sel ==> p < CAPACITY && mask[p]
  {
    RowsDistinct(sel);
    SubsetOfSize(FilledBelow(mask, CAPACITY), SetOf(sel));
    forall p | p in sel ensures p < CAPACITY && mask[p] {
      assert p in FilledBelow(mask, CAPACITY);
    }
  }

  // ---------------------------------------------------------------- the evaluator

  class CaseExpressionEvaluator<T> {
    const filledMask: array<bool>
    const result: array<T>
    /** The state of the result, shared with the children that are not flat. */
    const state: SelectionVector
    /** The state of a flat child: one row. */
    const flatState: SelectionVector
    /** What a WHEN writes its rows to; between evaluations it may hold anything. */
    const whenSel: SelectionVector
    /** What a WHEN that is a column is given; it is allocated with zeros and stays so. */
    const columnSel: SelectionVector
    /** How often each row of the result has been written. */
    ghost var writes: multiset<nat>

    constructor (result: array<T>, state: SelectionVector)
      requires result.Length == CAPACITY && state.Valid() && result as object != state.buffer
      ensures this.result == result && this.state == state && Valid()
      ensures fresh(filledMask) && fresh(whenSel) && fresh(whenSel.buffer) && fresh(columnSel) && fresh(columnSel.buffer)
      ensures fresh(flatState) && fresh(flatState.buffer)
    {
      this.result, this.state := result, state;
      filledMask := new bool[CAPACITY](_ => false);
      whenSel := new SelectionVector(false, []);
      columnSel := new SelectionVector(false, []);
      flatState := new SelectionVector(false, [0]);
    }

    ghost predicate Valid()
      reads this, state, whenSel, columnSel, columnSel.buffer, flatState
    {
      && filledMask.Length == CAPACITY && result.Length == CAPACITY
      && state.Valid() && whenSel.Valid() && columnSel.Valid() && flatState.Valid()
      && !whenSel.unfiltered && !columnSel.unfiltered && flatState.size == 1
      && whenSel != state && whenSel != flatState && flatState != state
      && columnSel != state && columnSel != flatState && columnSel != whenSel
      && Apart(state.buffer) && Apart(whenSel.buffer) && Apart(columnSel.buffer) && Apart(flatState.buffer)
      && whenSel.buffer != state.buffer && whenSel.buffer != flatState.buffer && flatState.buffer != state.buffer
      && columnSel.buffer != state.buffer && columnSel.buffer != flatState.buffer && columnSel.buffer != whenSel.buffer
      && columnSel.buffer[..] == Zeros(CAPACITY)
    }

    ghost predicate Apart(buffer: array<nat>)
      reads this
    {
      buffer as object != result && buffer as object != filledMask && result as object != filledMask
    }

    method FillEntry(p: nat, src: Operand<T>)
      requires Valid() && ValidRows(src, [p])
      modifies this, filledMask, result
      ensures Given(src, [p], old(filledMask[..]), old(result[..]), old(writes), filledMask[..], result[..], writes)
    {
      assert [p][0] == p;
      if filledMask[p] {
        return;
      }
      filledMask[p] := true;
      result[p] := At(src, p);
      writes := writes + multiset{p};
    }

    /** `fillSelected`, and `fillAll` when given the selection of the result's state. */
    method FillSelected(rows: SelectionVector, src: Operand<T>)
      requires Valid() && rows.Valid() && Apart(rows.buffer) && ValidRows(src, rows.Positions())
      modifies this, filledMask, result
      ensures Given(src, rows.Positions(), old(filledMask[..]), old(result[..]), old(writes), filledMask[..], result[..], writes)
    {
      hide Given;
      ghost var sel := rows.Positions();
      GivenNone(src, filledMask[..], result[..], writes);
      assert sel[..0] == [];
      for i := 0 to rows.size
        invariant rows.Positions() == sel && ValidRows(src, sel[..i])
        invariant Given(src, sel[..i], old(filledMask[..]), old(result[..]), old(writes), filledMask[..], result[..], writes)
      {
        ghost var mask, vals, w := filledMask[..], result[..], writes;
        FillEntry(rows.Get(i), src);
        GivenNext(src, sel, i, old(filledMask[..]), old(result[..]), old(writes), mask, vals, w, filledMask[..], result[..], writes);
      }
      assert sel[..|sel|] == sel;
    }

    method CountFilled() returns (count: nat)
      requires Valid()
      ensures count == |FilledBelow(filledMask[..], CAPACITY)|
    {
      count := 0;
      for i := 0 to CAPACITY
        invariant count == |FilledBelow(filledMask[..], i)|
      {
        NextFilled(filledMask[..], i);
        if filledMask[i] {
          count := count + 1;
        }
      }
    }

    method ResetMask()
      requires Valid()
      modifies this, filledMask
      ensures writes == multiset{} && forall p :: 0 <= p < CAPACITY ==> !filledMask[p]
    {
      forall p | 0 <= p < CAPACITY {
        filledMask[p] := false;
      }
      writes := multiset{};
    }

    /** Every selected row gets the value of its first alternative whose condition holds, or else the
        ELSE value, and is written exactly once; no other row is written. */
    method Evaluate(alts: seq<Alternative<T>>, otherwise: Operand<T>)
      requires Valid() && Rows(alts, otherwise, state.Positions())
      requires ChildrenMeet(alts, otherwise, state.Positions(), state.unfiltered)
      modifies this, filledMask, result, whenSel, whenSel.buffer, columnSel, columnSel.buffer, state.buffer, flatState.buffer
      ensures Valid() && state.Positions() == old(state.Positions())
      ensures Evaluated(alts, otherwise, state.Positions(), old(result[..]), result[..], writes)
    {
      hide Progress, Given, FilledBelow, ValidRows, Rows, ChildrenMeet, Evaluated, Untouched;
      ghost var sel, was := state.Positions(), result[..];
      ResetMask();
      NoProgress(alts, otherwise, sel, filledMask[..], result[..]);
      StillUntouched(sel, was, was, was);
      for k := 0 to |alts|
        invariant Valid() && state.Positions() == sel
        invariant Progress(alts, otherwise, sel, k, filledMask[..], result[..], writes)
        invariant Untouched(sel, was, result[..])
      {
        ghost var before := result[..];
        var any := TakeAlternative(alts, otherwise, k);
        StillUntouched(sel, was, before, result[..]);
        if !any {
          continue;
        }
        var count := CountFilled();
        if count == state.size {
          CountReached(alts, otherwise, sel, k + 1, filledMask[..], result[..], writes);
          Finished(alts, otherwise, sel, k + 1, was, filledMask[..], result[..], writes);
          return;
        }
      }
      ghost var mask, vals, w := filledMask[..], result[..], writes;
      ElseCovered(alts, otherwise, sel);
      FillSelected(state, otherwise);
      Otherwise(alts, otherwise, sel, was, mask, vals, w, filledMask[..], result[..], writes);
    }

    /** One alternative: the rows it selects, if any, are filled. */
    method TakeAlternative(alts: seq<Alternative<T>>, ghost otherwise: Operand<T>, k: nat) returns (any: bool)
      requires Valid() && k < |alts| && Rows(alts, otherwise, state.Positions())
      requires ChildrenMeet(alts, otherwise, state.Positions(), state.unfiltered)
      requires Progress(alts, otherwise, state.Positions(), k, filledMask[..], result[..], writes)
      modifies this, filledMask, result, whenSel, whenSel.buffer, columnSel, columnSel.buffer, state.buffer, flatState.buffer
      ensures Valid() && state.Positions() == old(state.Positions())
      ensures Progress(alts, otherwise, state.Positions(), k + 1, filledMask[..], result[..], writes)
      ensures forall p :: 0 <= p < CAPACITY && p !in state.Positions() ==> result[p] == old(result[p])
    {
      hide Progress, Given, CaseAt, FirstTrue, FilledBelow, Filter, ValidRows, Meets, Rows, ChildrenMeet;
      ghost var sel, mask, vals, w := state.Positions(), filledMask[..], result[..], writes;
      any := SelectWhen(alts[k], alts, otherwise, k);
      if !any {
        SkipAlternative(alts, otherwise, sel, k, mask, vals, w);
        return;
      }
      var rows := if alts[k].cond.Flat? then state else GivenTo(alts[k].child);
      ghost var chosen := rows.Positions();
      RowsCovered(alts, otherwise, sel, k, chosen);
      FillSelected(rows, alts[k].val);
      NextAlternative(alts, otherwise, sel, k, chosen, mask, vals, w, filledMask[..], result[..], writes);
      GivenOutside(alts[k].val, chosen, mask, vals, w, filledMask[..], result[..], writes);
    }

    /** The selection that a child is given. */
    function GivenTo(child: Child): (v: SelectionVector)
      reads this
    {
      if child.Column? then columnSel else whenSel
    }

    /** A WHEN selects on the state of its own child: the shared one, or that of a flat child. */
    method SelectWhen(alt: Alternative<T>, ghost alts: seq<Alternative<T>>, ghost otherwise: Operand<T>, ghost k: nat)
      returns (any: bool)
      requires Valid() && k < |alts| && alt == alts[k] && Rows(alts, otherwise, state.Positions())
      requires ChildrenMeet(alts, otherwise, state.Positions(), state.unfiltered)
      modifies whenSel, whenSel.buffer, columnSel, columnSel.buffer, state.buffer, flatState.buffer
      ensures Valid() && state.Positions() == old(state.Positions())
      ensures alt.cond.Flat? ==> any == alt.cond.value
      ensures alt.cond.Unflat? ==> CoversAll(alt.cond, state.Positions())
      ensures alt.cond.Unflat? ==> var given := GivenTo(alt.child).Positions();
                given == Filter(alt.cond, state.Positions()) && any == (given != [])
    {
      hide Filter;
      var given := GivenTo(alt.child);
      if alt.cond.Flat? {
        any := SelectChild(alt.child, alt.cond, flatState, given);
      } else {
        any := SelectChild(alt.child, alt.cond, state, given);
      }
    }

    /** CASE with a single WHEN that is a column, whatever it holds. */
    method EvaluateColumn(col: Operand<bool>, val: Operand<T>, otherwise: Operand<T>)
      requires Valid() && Rows([], otherwise, state.Positions()) && Covers(val, 0)
      requires col.Unflat? && CoversAll(col, state.Positions())
      modifies this, filledMask, result, columnSel, state.buffer
      ensures ColumnCase(col, val, otherwise, old(state.Positions()), state.unfiltered, old(result[..]), result[..], writes)
    {
      hide Filter, Overwritten, Given, ColumnCase, ColumnState;
      ghost var sel, v0 := state.Positions(), result[..];
      ResetMask();
      ghost var m0, w0 := filledMask[..], writes;
      var any := SelectColumn(col, state, columnSel);
      ghost var after := state.Positions();
      ColumnStateIn(col, otherwise, sel, state.unfiltered);
      if any {
        assert columnSel.Positions() == Zeros(|Filter(col, sel)|);
        FillSelected(columnSel, val);
        RowZeroFilled(val, |Filter(col, sel)|, m0, v0, filledMask[..], result[..], writes);
        var count := CountFilled();
        if count == state.size {
          OnlyRowZero(col, val, otherwise, sel, state.unfiltered, v0, filledMask[..], result[..], writes);
          return;
        }
      }
      ghost var m1, v1, w1 := filledMask[..], result[..], writes;
      FillSelected(state, otherwise);
      ThenElse(col, val, otherwise, sel, state.unfiltered, v0, m1, v1, w1, filledMask[..], result[..], writes);
    }
  }

  // ---------------------------------------------------------------- CASE over a column

  /** When the column holds somewhere, THEN goes to row 0, selected or not; ELSE goes to the rows that are left
      in the column's selection, unless one row is selected; no other row is written. */
  ghost predicate ColumnCase<T>(col: Operand<bool>, val: Operand<T>, otherwise: Operand<T>, sel: seq<nat>, unfiltered: bool,
                                was: seq<T>, now: seq<T>, writes: multiset<nat>)
    requires CoversAll(col, sel) && Rows([], otherwise, sel) && Covers(val, 0) && |was| == |now| == CAPACITY
  {
    var holds, after := Filter(col, sel) != [], ColumnState(col, sel, unfiltered);
    && (forall p :: p in after ==> p < CAPACITY && Covers(otherwise, p))
    && forall p :: 0 <= p < CAPACITY ==>
         if holds && p == 0 then now[p] == At(val, p) && writes[p] == 1
         else if p in after && !(holds && |sel| == 1) then now[p] == At(otherwise, p) && writes[p] == 1
         else now[p] == was[p] && writes[p] == 0
  }

  lemma ColumnStateIn<T>(col: Operand<bool>, otherwise: Operand<T>, sel: seq<nat>, unfiltered: bool)
    requires CoversAll(col, sel) && Rows([], otherwise, sel)
    ensures ValidRows(otherwise, ColumnState(col, sel, unfiltered))
    ensures forall p :: p in ColumnState(col, sel, unfiltered) ==> p < CAPACITY && Covers(otherwise, p)
  {
    hide Filter, Overwritten;
    var after := ColumnState(col, sel, unfiltered);
    forall p | p in after ensures p in sel && p < CAPACITY && Covers(otherwise, p) {
      if !unfiltered {
        OverwrittenIn(col, sel, |sel|, p);
      }
    }
    assert forall i :: 0 <= i < |after| ==> after[i] in after;
  }

  lemma RowZeroFilled<T>(val: Operand<T>, n: nat, m0: seq<bool>, v0: seq<T>, m1: seq<bool>, v1: seq<T>, w1: multiset<nat>)
    requires |m0| == |v0| == |m1| == |v1| == CAPACITY && n > 0 && ValidRows(val, Zeros(n)) && Covers(val, 0)
    requires (forall p :: 0 <= p < CAPACITY ==> !m0[p]) && Given(val, Zeros(n), m0, v0, multiset{}, m1, v1, w1)
    ensures RowZero(val, v0, m1, v1, w1) && |FilledBelow(m1, CAPACITY)| == 1
  {
    assert Zeros(n)[0] in Zeros(n);
    assert FilledBelow(m1, CAPACITY) == {0};
  }

  ghost predicate RowZero<T>(val: Operand<T>, v0: seq<T>, m1: seq<bool>, v1: seq<T>, w1: multiset<nat>)
    requires |v0| == |m1| == |v1| == CAPACITY && Covers(val, 0)
  {
    && (forall p :: 0 <= p < CAPACITY ==> (m1[p] <==> p == 0))
    && v1[0] == At(val, 0) && w1[0] == 1
    && (forall p :: 0 < p < CAPACITY ==> v1[p] == v0[p] && w1[p] == 0)
  }

  lemma OnlyRowZero<T>(col: Operand<bool>, val: Operand<T>, otherwise: Operand<T>, sel: seq<nat>, unfiltered: bool,
                       v0: seq<T>, m1: seq<bool>, v1: seq<T>, w1: multiset<nat>)
    requires CoversAll(col, sel) && Rows([], otherwise, sel) && Covers(val, 0) && |v0| == |m1| == |v1| == CAPACITY
    requires Filter(col, sel) != [] && |sel| == 1 && RowZero(val, v0, m1, v1, w1)
    ensures ColumnCase(col, val, otherwise, sel, unfiltered, v0, v1, w1)
  {
    hide Filter, ColumnState;
    ColumnStateIn(col, otherwise, sel, unfiltered);
  }

  lemma ThenElse<T>(col: Operand<bool>, val: Operand<T>, otherwise: Operand<T>, sel: seq<nat>, unfiltered: bool, v0: seq<T>,
                    m1: seq<bool>, v1: seq<T>, w1: multiset<nat>, m2: seq<bool>, v2: seq<T>, w2: multiset<nat>)
    requires CoversAll(col, sel) && Rows([], otherwise, sel) && Covers(val, 0)
    requires |v0| == |m1| == |v1| == |m2| == |v2| == CAPACITY
    requires if Filter(col, sel) != [] then |sel| != 1 && RowZero(val, v0, m1, v1, w1)
             else v1 == v0 && w1 == multiset{} && forall p :: 0 <= p < CAPACITY ==> !m1[p]
    requires ValidRows(otherwise, ColumnState(col, sel, unfiltered))
    requires Given(otherwise, ColumnState(col, sel, unfiltered), m1, v1, w1, m2, v2, w2)
    ensures ColumnCase(col, val, otherwise, sel, unfiltered, v0, v2, w2)
  {
    hide Filter, ColumnState;
    ColumnStateIn(col, otherwise, sel, unfiltered);
  }

  /** Unfiltered, with a row that holds: row 0 takes the THEN value whether or not it holds, and every other row
      falls through to ELSE. */
  lemma UnfilteredColumn<T>(col: Operand<bool>, val: Operand<T>, otherwise: Operand<T>, size: nat,
                            was: seq<T>, now: seq<T>, writes: multiset<nat>)
    requires CoversAll(col, Upto(0, size)) && Rows([], otherwise, Upto(0, size)) && Covers(val, 0)
    requires |was| == |now| == CAPACITY && Filter(col, Upto(0, size)) != []
    requires ColumnCase(col, val, otherwise, Upto(0, size), true, was, now, writes)
    ensures 0 < size <= CAPACITY && now[0] == At(val, 0)
    ensures forall p :: 0 < p < size ==> Covers(otherwise, p) && now[p] == At(otherwise, p)
  {
    var sel := Upto(0, size);
    assert sel != [] && sel[size - 1] < CAPACITY;
    hide Filter;
    forall p | 0 < p < size ensures p < CAPACITY && Covers(otherwise, p) && now[p] == At(otherwise, p) {
      assert sel[p] == p && p in sel;
    }
  }

  /** Filtered, several rows and none that holds: the first row gets no value at all, and every other one ELSE. */
  lemma FalseColumn<T>(col: Operand<bool>, val: Operand<T>, otherwise: Operand<T>, sel: seq<nat>,
                       was: seq<T>, now: seq<T>, writes: multiset<nat>)
    requires CoversAll(col, sel) && Rows([], otherwise, sel) && Covers(val, 0) && |was| == |now| == CAPACITY
    requires |sel| > 1 && Filter(col, sel) == [] && ColumnCase(col, val, otherwise, sel, false, was, now, writes)
    ensures now[sel[0]] == was[sel[0]] && writes[sel[0]] == 0
    ensures forall i :: 0 < i < |sel| ==> now[sel[i]] == At(otherwise, sel[i]) && writes[sel[i]] == 1
  {
    NoneHolds(col, sel);
    FirstRowLost(col, sel, |sel|);
    hide Filter, Overwritten;
    var after := ColumnState(col, sel, false);
    assert forall i :: 0 < i < |sel| ==> after[i] == sel[i];
    assert sel[0] !in after;
  }

  lemma RowsCovered<T>(alts: seq<Alternative<T>>, otherwise: Operand<T>, sel: seq<nat>, k: nat, rows: seq<nat>)
    requires Rows(alts, otherwise, sel) && k < |alts| && forall p :: p in rows ==> p in sel
    ensures ValidRows(alts[k].val, rows)
  {
    forall i | 0 <= i < |rows| ensures rows[i] < CAPACITY && Covers(alts[k].val, rows[i]) {
      assert rows[i] in sel;
    }
  }

  lemma ElseCovered<T>(alts: seq<Alternative<T>>, otherwise: Operand<T>, sel: seq<nat>)
    requires Rows(alts, otherwise, sel)
    ensures ValidRows(otherwise, sel)
  {
  }

  lemma GivenNone<T>(src: Operand<T>, mask: seq<bool>, vals: seq<T>, writes: multiset<nat>)
    requires |mask| == |vals| == CAPACITY
    ensures Given(src, [], mask, vals, writes, mask, vals, writes)
  {
  }

  lemma GivenNext<T>(src: Operand<T>, rows: seq<nat>, i: nat, m0: seq<bool>, v0: seq<T>, w0: multiset<nat>,
                     m1: seq<bool>, v1: seq<T>, w1: multiset<nat>, m2: seq<bool>, v2: seq<T>, w2: multiset<nat>)
    requires |m0| == |v0| == |m1| == |v1| == |m2| == |v2| == CAPACITY && i < |rows| && ValidRows(src, rows)
    requires ValidRows(src, rows[..i]) && Given(src, rows[..i], m0, v0, w0, m1, v1, w1)
    requires ValidRows(src, [rows[i]]) && Given(src, [rows[i]], m1, v1, w1, m2, v2, w2)
    ensures ValidRows(src, rows[..i + 1]) && Given(src, rows[..i + 1], m0, v0, w0, m2, v2, w2)
  {
    assert rows[..i + 1] == rows[..i] + [rows[i]];
  }

  lemma GivenOutside<T>(src: Operand<T>, rows: seq<nat>, m0: seq<bool>, v0: seq<T>, w0: multiset<nat>,
                        m1: seq<bool>, v1: seq<T>, w1: multiset<nat>)
    requires |m0| == |v0| == |m1| == |v1| == CAPACITY && ValidRows(src, rows) && Given(src, rows, m0, v0, w0, m1, v1, w1)
    ensures forall p :: 0 <= p < CAPACITY && p !in rows ==> v1[p] == v0[p]
  {
  }

  lemma NoProgress<T>(alts: seq<Alternative<T>>, otherwise: Operand<T>, sel: seq<nat>, mask: seq<bool>, vals: seq<T>)
    requires Rows(alts, otherwise, sel) && |mask| == |vals| == CAPACITY && forall p :: 0 <= p < CAPACITY ==> !mask[p]
    ensures Progress(alts, otherwise, sel, 0, mask, vals, multiset{})
  {
  }

  /** An alternative that selects no row changes nothing. */
  lemma SkipAlternative<T>(alts: seq<Alternative<T>>, otherwise: Operand<T>, sel: seq<nat>, k: nat,
                           mask: seq<bool>, vals: seq<T>, writes: multiset<nat>)
    requires Rows(alts, otherwise, sel) && k < |alts| && |mask| == |vals| == CAPACITY
    requires Progress(alts, otherwise, sel, k, mask, vals, writes)
    requires if alts[k].cond.Flat? then !alts[k].cond.value else Filter(alts[k].cond, sel) == []
    ensures Progress(alts, otherwise, sel, k + 1, mask, vals, writes)
  {
    forall p | p in sel ensures !At(alts[k].cond, p) {
      assert p !in Filter(alts[k].cond, sel);
    }
    NextAlternative(alts, otherwise, sel, k, [], mask, vals, writes, mask, vals, writes);
  }

  /** Every selected row has its value, written once; no other row is written. */
  ghost predicate Evaluated<T>(alts: seq<Alternative<T>>, otherwise: Operand<T>, sel: seq<nat>,
                               was: seq<T>, now: seq<T>, writes: multiset<nat>)
    requires Rows(alts, otherwise, sel) && |was| == |now| == CAPACITY
  {
    && (forall p :: p in sel ==> p < CAPACITY && now[p] == CaseAt(alts, otherwise, p) && writes[p] == 1)
    && (forall p :: 0 <= p < CAPACITY && p !in sel ==> now[p] == was[p] && writes[p] == 0)
  }

  ghost predicate Untouched<T>(sel: seq<nat>, was: seq<T>, now: seq<T>)
    requires |was| == |now| == CAPACITY
  {
    forall p :: 0 <= p < CAPACITY && p !in sel ==> now[p] == was[p]
  }

  lemma StillUntouched<T>(sel: seq<nat>, was: seq<T>, mid: seq<T>, now: seq<T>)
    requires |was| == |mid| == |now| == CAPACITY && (was == mid || Untouched(sel, was, mid))
    requires forall p :: 0 <= p < CAPACITY && p !in sel ==> now[p] == mid[p]
    ensures Untouched(sel, was, now)
  {
  }

  lemma Finished<T>(alts: seq<Alternative<T>>, otherwise: Operand<T>, sel: seq<nat>, k: nat, was: seq<T>,
                    mask: seq<bool>, vals: seq<T>, writes: multiset<nat>)
    requires Rows(alts, otherwise, sel) && k <= |alts| && |mask| == |vals| == |was| == CAPACITY && Untouched(sel, was, vals)
    requires Progress(alts, otherwise, sel, k, mask, vals, writes) && forall p :: p in sel ==> p < CAPACITY && mask[p]
    ensures Evaluated(alts, otherwise, sel, was, vals, writes)
  {
  }

  lemma Otherwise<T>(alts: seq<Alternative<T>>, otherwise: Operand<T>, sel: seq<nat>, was: seq<T>,
                     m0: seq<bool>, v0: seq<T>, w0: multiset<nat>, m1: seq<bool>, v1: seq<T>, w1: multiset<nat>)
    requires Rows(alts, otherwise, sel) && |m0| == |v0| == |m1| == |v1| == |was| == CAPACITY && Untouched(sel, was, v0)
    requires Progress(alts, otherwise, sel, |alts|, m0, v0, w0)
    requires ValidRows(otherwise, sel) && Given(otherwise, sel, m0, v0, w0, m1, v1, w1)
    ensures Evaluated(alts, otherwise, sel, was, v1, w1)
  {
  }
}
