/**
 Slicing the elements of selected lists into batches of at most 2048: the tracker that walks the
 lists, the slices it fills, and the loop that drives them.
 */
module ListSlice {
  import opened Columns
  import opened Sizes

  /** A list vector: null flags and entries by position. */
  datatype ListVector = ListVector(nulls: seq<bool>, entries: seq<ListEntry>)

  /** An element: its offset in the data vector and the position of its list. */
  datatype Element = Element(data: nat, list: nat)

  ghost predicate Positions(v: ListVector, sel: seq<nat>) {
    |v.nulls| == |v.entries| && forall i :: 0 <= i < |sel| ==> sel[i] < |v.entries|
  }

  /** Lists that have elements. */
  predicate HasElements(v: ListVector, p: nat)
    requires p < |v.entries| == |v.nulls|
  {
    !v.nulls[p] && v.entries[p].size > 0
  }

  // ---------------------------------------------------------------- all elements

  /** The elements of one list from an index on. */
  ghost function ElementsFrom(v: ListVector, p: nat, j: nat): seq<Element>
    requires p < |v.entries| && j <= v.entries[p].size
    decreases v.entries[p].size - j
  {
    if j == v.entries[p].size then []
    else [Element(v.entries[p].offset + j, p)] + ElementsFrom(v, p, j + 1)
  }

  ghost function ElementsOf(v: ListVector, p: nat): seq<Element>
    requires p < |v.entries| == |v.nulls|
  {
    if HasElements(v, p) then ElementsFrom(v, p, 0) else []
  }

  /** The elements of the lists at some positions, in that order. */
  ghost function Flatten(v: ListVector, sel: seq<nat>): seq<Element>
    requires Positions(v, sel)
  {
    if sel == [] then [] else ElementsOf(v, sel[0]) + Flatten(v, sel[1..])
  }

  /** The order that sorting by offset leaves. */
  ghost predicate SortedByOffset(v: ListVector, order: seq<nat>)
    requires Positions(v, order)
  {
    forall i, j :: 0 <= i < j < |order| ==> v.entries[order[i]].offset <= v.entries[order[j]].offset
  }

  lemma FlattenCons(v: ListVector, sel: seq<nat>)
    requires Positions(v, sel)
    ensures sel == [] ==> Flatten(v, sel) == []
    ensures sel != [] ==> Positions(v, sel[1..]) && Flatten(v, sel) == ElementsOf(v, sel[0]) + Flatten(v, sel[1..])
  {
    hide ElementsOf;
  }

  lemma {:induction false} FlattenAppend(v: ListVector, a: seq<nat>, b: seq<nat>)
    requires Positions(v, a) && Positions(v, b)
    ensures Positions(v, a + b) && Flatten(v, a + b) == Flatten(v, a) + Flatten(v, b)
    decreases |a|
  {
    hide ElementsOf, Flatten;
    FlattenCons(v, a);
    if a == [] {
      assert a + b == b;
    } else {
      FlattenCons(v, a + b);
      assert (a + b)[1..] == a[1..] + b && (a + b)[0] == a[0];
      FlattenAppend(v, a[1..], b);
    }
  }

  /** Reordering the lists keeps every element exactly as often. */
  lemma {:induction false} FlattenPermuted(v: ListVector, sel: seq<nat>, order: seq<nat>)
    requires Positions(v, sel) && multiset(order) == multiset(sel)
    ensures Positions(v, order) && multiset(Flatten(v, order)) == multiset(Flatten(v, sel))
    decreases |order|
  {
    hide ElementsOf, Flatten, Positions;
    PermutedPositions(v, sel, order);
    if order == [] {
      assert |multiset(sel)| == 0;
    } else {
      var i := TakeOut(sel, order);
      var a, b := sel[..i], sel[i + 1..];
      SplitAt(v, a, order[0], b);
      FlattenPermuted(v, a + b, order[1..]);
      FlattenCons(v, order);
    }
  }

  lemma TakeOut(sel: seq<nat>, order: seq<nat>) returns (i: nat)
    requires order != [] && multiset(order) == multiset(sel)
    ensures i < |sel| && sel == sel[..i] + [order[0]] + sel[i + 1..]
    ensures multiset(order[1..]) == multiset(sel[..i] + sel[i + 1..])
  {
    assert order[0] in multiset(sel);
    i :| 0 <= i < |sel| && sel[i] == order[0];
    assert order == [order[0]] + order[1..];
    assert sel == sel[..i] + [order[0]] + sel[i + 1..];
    assert multiset(order[1..]) == multiset(order) - multiset{order[0]};
    assert multiset(sel[..i] + sel[i + 1..]) == multiset(sel) - multiset{order[0]};
  }

  lemma PermutedPositions(v: ListVector, sel: seq<nat>, order: seq<nat>)
    requires Positions(v, sel) && multiset(order) == multiset(sel)
    ensures Positions(v, order)
  {
    forall i | 0 <= i < |order| ensures order[i] < |v.entries| {
      assert order[i] in multiset(sel);
    }
  }

  lemma SplitAt(v: ListVector, a: seq<nat>, x: nat, b: seq<nat>)
    requires Positions(v, a + [x] + b)
    ensures Positions(v, a + b) && Positions(v, [x]) && x < |v.entries|
    ensures multiset(Flatten(v, a + [x] + b)) == multiset(ElementsOf(v, x)) + multiset(Flatten(v, a + b))
  {
    assert (a + [x] + b)[|a|] == x;
    assert Positions(v, a) by {
      forall i | 0 <= i < |a| ensures a[i] < |v.entries| { assert (a + [x] + b)[i] == a[i]; }
    }
    assert Positions(v, b) by {
      forall i | 0 <= i < |b| ensures b[i] < |v.entries| { assert (a + [x] + b)[|a| + 1 + i] == b[i]; }
    }
    FlattenAppend(v, a + [x], b);
    FlattenAppend(v, a, [x]);
    FlattenAppend(v, a, b);
    assert [x][1..] == [];
    assert Flatten(v, [x]) == ElementsOf(v, x);
  }

  /** In a sorted order the elements come list by list with offsets that never fall. */
  lemma {:induction false} FlattenSorted(v: ListVector, order: seq<nat>, i: nat, j: nat)
    requires Positions(v, order) && SortedByOffset(v, order) && i < j < |Flatten(v, order)|
    ensures var f := Flatten(v, order);
            && f[i].list in order && f[j].list in order
            && v.entries[f[i].list].offset <= v.entries[f[j].list].offset
    decreases |order|
  {
    hide Flatten, ElementsOf;
    FlattenAt(v, order, i);
    FlattenAt(v, order, j);
    var first := |ElementsOf(v, order[0])|;
    if i >= first {
      FlattenSorted(v, order[1..], i - first, j - first);
    } else if j >= first {
      var k :| 0 <= k < |order[1..]| && order[1..][k] == Flatten(v, order)[j].list;
      assert order[k + 1] == Flatten(v, order)[j].list;
    }
  }

  lemma FlattenAt(v: ListVector, order: seq<nat>, i: nat)
    requires Positions(v, order) && i < |Flatten(v, order)|
    ensures order != [] && Positions(v, order[1..])
    ensures var first := |ElementsOf(v, order[0])|;
            if i < first then Flatten(v, order)[i].list == order[0]
            else && i - first < |Flatten(v, order[1..])|
                 && Flatten(v, order)[i] == Flatten(v, order[1..])[i - first]
                 && Flatten(v, order)[i].list in order[1..]
  {
    ElementLists(v, order[0], 0);
    FlattenLists(v, order[1..]);
  }

  lemma {:induction false} ElementLists(v: ListVector, p: nat, j: nat)
    requires p < |v.entries| && j <= v.entries[p].size
    ensures forall i :: 0 <= i < |ElementsFrom(v, p, j)| ==> ElementsFrom(v, p, j)[i].list == p
    decreases v.entries[p].size - j
  {
    if j < v.entries[p].size {
      ElementLists(v, p, j + 1);
    }
  }

  lemma {:induction false} FlattenLists(v: ListVector, sel: seq<nat>)
    requires Positions(v, sel)
    ensures forall i :: 0 <= i < |Flatten(v, sel)| ==> Flatten(v, sel)[i].list in sel
    decreases |sel|
  {
    if sel != [] {
      FlattenLists(v, sel[1..]);
      ElementLists(v, sel[0], 0);
    }
  }

  // ---------------------------------------------------------------- walking the lists

  class ListEntryTracker {
    const v: ListVector
    const listEntries: seq<nat>
    var listEntryIdx: nat
    var offsetInList: nat

    ghost predicate Valid()
      reads this
    {
      && Positions(v, listEntries) && listEntryIdx <= |listEntries|
      && (listEntryIdx < |listEntries| ==>
            HasElements(v, listEntries[listEntryIdx]) && offsetInList < v.entries[listEntries[listEntryIdx]].size)
    }

    /** The elements still to come, the current one first. */
    ghost function Remaining(): seq<Element>
      requires Valid()
      reads this
    {
      if listEntryIdx == |listEntries| then []
      else ElementsFrom(v, listEntries[listEntryIdx], offsetInList) + Flatten(v, listEntries[listEntryIdx + 1..])
    }

    /** The selected positions arrive in the order that sorting by offset has left. */
    constructor (v: ListVector, listEntries: seq<nat>)
      requires Positions(v, listEntries)
      ensures Valid() && this.v == v && this.listEntries == listEntries && Remaining() == Flatten(v, listEntries)
    {
      this.v, this.listEntries, listEntryIdx, offsetInList := v, listEntries, 0, 0;
      new;
      assert listEntries[0..] == listEntries;
      UpdateListEntry();
    }

    predicate Done()
      reads this
    {
      listEntryIdx >= |listEntries|
    }

    lemma DoneIsEmpty()
      requires Valid()
      ensures Done() <==> Remaining() == []
    {
    }

    /** Skips lists that are null or empty. */
    method UpdateListEntry()
      requires Positions(v, listEntries) && listEntryIdx <= |listEntries| && offsetInList == 0
      modifies this`listEntryIdx
      ensures Valid() && Remaining() == Flatten(v, listEntries[old(listEntryIdx)..])
    {
      while true
        invariant listEntryIdx <= |listEntries|
        invariant Flatten(v, listEntries[listEntryIdx..]) == Flatten(v, listEntries[old(listEntryIdx)..])
        decreases |listEntries| - listEntryIdx
      {
        if listEntryIdx >= |listEntries| {
          break;
        }
        var pos := listEntries[listEntryIdx];
        assert listEntries[listEntryIdx..][1..] == listEntries[listEntryIdx + 1..];
        if !v.nulls[pos] && v.entries[pos].size > 0 {
          break;
        }
        listEntryIdx := listEntryIdx + 1;
      }
    }

    function Current(): (e: Element)
      requires Valid() && !Done()
      reads this
      ensures Remaining() != [] && Remaining()[0] == e
    {
      Element(v.entries[listEntries[listEntryIdx]].offset + offsetInList, listEntries[listEntryIdx])
    }

    /** `getNextDataOffset`; its result is not used by the slices. */
    method Advance()
      requires Valid() && !Done()
      modifies this
      ensures Valid() && Remaining() == old(Remaining())[1..]
    {
      ghost var pos, was := listEntries[listEntryIdx], Remaining();
      offsetInList := offsetInList + 1;
      assert was[1..] == ElementsFrom(v, pos, offsetInList) + Flatten(v, listEntries[listEntryIdx + 1..]);
      if offsetInList >= v.entries[listEntries[listEntryIdx]].size {
        listEntryIdx := listEntryIdx + 1;
        offsetInList := 0;
        UpdateListEntry();
      }
    }
  }

  // ---------------------------------------------------------------- slices

  class ListSliceInfo {
    const tracker: ListEntryTracker
    const dataSel: array<nat>
    const listEntrySel: array<nat>
    var sliceSize: nat

    ghost predicate Valid()
      reads this, tracker, dataSel, listEntrySel
    {
      && tracker.Valid() && dataSel != listEntrySel
      && dataSel.Length == CAPACITY && listEntrySel.Length == CAPACITY && sliceSize <= CAPACITY
    }

    /** The elements of the current slice. */
    ghost function Slice(): (r: seq<Element>)
      requires Valid()
      reads this, tracker, dataSel, listEntrySel
      ensures |r| == sliceSize
    {
      Elements(dataSel[..sliceSize], listEntrySel[..sliceSize])
    }

    constructor (v: ListVector, listEntries: seq<nat>)
      requires Positions(v, listEntries)
      ensures Valid() && fresh(tracker) && fresh(dataSel) && fresh(listEntrySel)
      ensures tracker.Remaining() == Flatten(v, listEntries)
    {
      tracker := new ListEntryTracker(v, listEntries);
      dataSel := new nat[CAPACITY](_ => 0);
      listEntrySel := new nat[CAPACITY](_ => 0);
      sliceSize := 0;
    }

    /** `updateSelVector`: the next elements, as many as fit. */
    method NextSlice()
      requires Valid()
      modifies this, tracker, dataSel, listEntrySel
      ensures Valid()
      ensures Slice() + tracker.Remaining() == old(tracker.Remaining())
      ensures sliceSize == CAPACITY || tracker.Done()
      ensures old(!tracker.Done()) ==> 0 < sliceSize
    {
      hide ListEntryTracker.Remaining, ListSliceInfo.Slice;
      sliceSize := 0;
      NothingYet();
      while !tracker.Done() && sliceSize < CAPACITY
        invariant Valid() && Slice() + tracker.Remaining() == old(tracker.Remaining())
        invariant sliceSize == 0 ==> tracker.Done() == old(tracker.Done())
        decreases CAPACITY - sliceSize
      {
        ghost var slice, rest := Slice(), tracker.Remaining();
        TakeElement();
        assert slice + rest == slice + [rest[0]] + rest[1..];
      }
    }

    lemma NothingYet()
      requires Valid() && sliceSize == 0
      ensures Slice() == []
    {
    }

    /** The slice as the function sees it through `getPos`. */
    method CurrentSlice() returns (r: seq<Element>)
      requires Valid()
      ensures r == Slice()
    {
      r := [];
      for i := 0 to sliceSize
        invariant |r| == i && forall j :: 0 <= j < i ==> r[j] == Element(dataSel[j], listEntrySel[j])
      {
        r := r + [Element(dataSel[i], listEntrySel[i])];
      }
    }

    /** The current element goes into the slice. */
    method TakeElement()
      requires Valid() && !tracker.Done() && sliceSize < CAPACITY
      modifies this, tracker, dataSel, listEntrySel
      ensures Valid() && sliceSize == old(sliceSize) + 1
      ensures old(tracker.Remaining()) != []
      ensures Slice() == old(Slice()) + [old(tracker.Remaining())[0]] && tracker.Remaining() == old(tracker.Remaining())[1..]
    {
      hide ListEntryTracker.Remaining, Elements;
      var e := tracker.Current();
      dataSel[sliceSize] := e.data;
      listEntrySel[sliceSize] := e.list;
      tracker.Advance();
      OneMore(dataSel[..], listEntrySel[..], sliceSize, old(dataSel[..]), old(listEntrySel[..]));
      sliceSize := sliceSize + 1;
    }
  }

  ghost function Elements(data: seq<nat>, lists: seq<nat>): (r: seq<Element>)
    requires |data| == |lists|
    ensures |r| == |data|
  {
    seq(|data|, i requires 0 <= i < |data| => Element(data[i], lists[i]))
  }

  lemma OneMore(data: seq<nat>, lists: seq<nat>, n: nat, data0: seq<nat>, lists0: seq<nat>)
    requires n < |data| == |lists| == |data0| == |lists0| && data[..n] == data0[..n] && lists[..n] == lists0[..n]
    ensures Elements(data[..n + 1], lists[..n + 1]) == Elements(data0[..n], lists0[..n]) + [Element(data[n], lists[n])]
  {
    forall i | 0 <= i < n ensures data[i] == data0[i] && lists[i] == lists0[i] {
      assert data[..n][i] == data0[..n][i] && lists[..n][i] == lists0[..n][i];
    }
  }

  /** The offsets of the lists that elements belong to never fall. */
  ghost predicate InListOrder(v: ListVector, elements: seq<Element>) {
    && (forall i :: 0 <= i < |elements| ==> elements[i].list < |v.entries|)
    && (forall i, j :: 0 <= i < j < |elements| ==>
          v.entries[elements[i].list].offset <= v.entries[elements[j].list].offset)
  }

  lemma FlattenInOrder(v: ListVector, order: seq<nat>)
    requires Positions(v, order) && SortedByOffset(v, order)
    ensures InListOrder(v, Flatten(v, order))
  {
    hide Flatten;
    var f := Flatten(v, order);
    FlattenLists(v, order);
    forall i, j | 0 <= i < j < |f| ensures v.entries[f[i].list].offset <= v.entries[f[j].list].offset {
      FlattenSorted(v, order, i, j);
    }
  }

  function Concat(slices: seq<seq<Element>>): seq<Element> {
    if slices == [] then [] else Concat(slices[..|slices| - 1]) + slices[|slices| - 1]
  }

  // ---------------------------------------------------------------- how often each element comes

  /** The element is one of a list that is not null: its data lies within the list's entry. */
  ghost predicate BelongsTo(v: ListVector, e: Element) {
    && e.list < |v.entries| == |v.nulls| && !v.nulls[e.list]
    && v.entries[e.list].offset <= e.data < v.entries[e.list].offset + v.entries[e.list].size
  }

  lemma CountCons(first: Element, rest: seq<Element>, e: Element)
    ensures multiset([first] + rest)[e] == multiset(rest)[e] + if e == first then 1 else 0
  {
    assert multiset([first] + rest) == multiset{first} + multiset(rest);
  }

  lemma {:induction false} CountFrom(v: ListVector, p: nat, j: nat, e: Element)
    requires p < |v.entries| && j <= v.entries[p].size
    ensures multiset(ElementsFrom(v, p, j))[e] ==
            if e.list == p && v.entries[p].offset + j <= e.data < v.entries[p].offset + v.entries[p].size then 1 else 0
    decreases v.entries[p].size - j
  {
    if j < v.entries[p].size {
      CountFrom(v, p, j + 1, e);
      var first := Element(v.entries[p].offset + j, p);
      assert ElementsFrom(v, p, j) == [first] + ElementsFrom(v, p, j + 1);
      CountCons(first, ElementsFrom(v, p, j + 1), e);
      hide ElementsFrom;
    }
  }

  /** An element comes once for every time its list is selected, and nothing else comes. */
  lemma {:induction false} CountFlat(v: ListVector, sel: seq<nat>, e: Element)
    requires Positions(v, sel)
    ensures multiset(Flatten(v, sel))[e] == if BelongsTo(v, e) then multiset(sel)[e.list] else 0
    decreases |sel|
  {
    hide Flatten, ElementsFrom, ElementsOf, BelongsTo;
    FlattenCons(v, sel);
    if sel != [] {
      CountFlat(v, sel[1..], e);
      CountOf(v, sel[0], e);
      assert sel == [sel[0]] + sel[1..];
      assert multiset(sel) == multiset{sel[0]} + multiset(sel[1..]);
      assert multiset(Flatten(v, sel)) == multiset(ElementsOf(v, sel[0])) + multiset(Flatten(v, sel[1..]));
    }
  }

  lemma CountOf(v: ListVector, p: nat, e: Element)
    requires p < |v.entries| == |v.nulls|
    ensures multiset(ElementsOf(v, p))[e] == if BelongsTo(v, e) && e.list == p then 1 else 0
  {
    hide ElementsFrom;
    if HasElements(v, p) {
      CountFrom(v, p, 0, e);
    }
  }

  /** Every element of a selected list comes as often as the list is selected, and nothing else comes. */
  ghost predicate EachAsOften(v: ListVector, sel: seq<nat>, elements: seq<Element>) {
    forall e :: multiset(elements)[e] == if BelongsTo(v, e) then multiset(sel)[e.list] else 0
  }

  lemma CountsAll(v: ListVector, sel: seq<nat>, order: seq<nat>)
    requires Positions(v, sel) && Positions(v, order) && multiset(order) == multiset(sel)
    ensures EachAsOften(v, sel, Flatten(v, order))
  {
    hide Flatten, BelongsTo, Positions;
    var all := Flatten(v, order);
    forall e ensures multiset(all)[e] == if BelongsTo(v, e) then multiset(sel)[e.list] else 0 {
      CountFlat(v, order, e);
    }
  }

  /** The loop of the lambda evaluator: every slice is passed to the function, which is recorded here. */
  method EvaluateSlices(v: ListVector, sel: seq<nat>, order: seq<nat>) returns (slices: seq<seq<Element>>)
    requires Positions(v, sel) && multiset(order) == multiset(sel) && Positions(v, order) && SortedByOffset(v, order)
    ensures slices != [] && Concat(slices) == Flatten(v, order)
    ensures forall i :: 0 <= i < |slices| ==> |slices[i]| <= CAPACITY
    ensures forall i :: 0 <= i < |slices| - 1 ==> |slices[i]| == CAPACITY
    ensures multiset(Concat(slices)) == multiset(Flatten(v, sel))
    ensures InListOrder(v, Concat(slices))
    ensures EachAsOften(v, sel, Concat(slices))
  {
    hide EachAsOften, InListOrder, ListEntryTracker.Remaining, ListSliceInfo.Slice, Flatten, SortedByOffset, Positions;
    var sliceInfo := new ListSliceInfo(v, order);
    slices := [];
    var more := true;
    while more
      invariant fresh(sliceInfo) && fresh(sliceInfo.tracker) && fresh(sliceInfo.dataSel) && fresh(sliceInfo.listEntrySel)
      invariant sliceInfo.Valid() && Concat(slices) + sliceInfo.tracker.Remaining() == Flatten(v, order)
      invariant more <==> slices == [] || !sliceInfo.tracker.Done()
      invariant forall i :: 0 <= i < |slices| ==> |slices[i]| <= CAPACITY
      invariant forall i :: 0 <= i < |slices| && (more || i < |slices| - 1) ==> |slices[i]| == CAPACITY
      decreases |sliceInfo.tracker.Remaining()|, more
    {
      ghost var before := slices;
      sliceInfo.NextSlice();
      var slice := sliceInfo.CurrentSlice();
      slices := slices + [slice];
      assert slices[..|slices| - 1] == before;
      more := !sliceInfo.tracker.Done();
    }
    sliceInfo.tracker.DoneIsEmpty();
    assert Concat(slices) + [] == Concat(slices);
    FlattenPermuted(v, sel, order);
    FlattenInOrder(v, order);
    CountsAll(v, sel, order);
  }
}
