/**
 The cursor-moving scanners and casts themselves: loops that advance a cursor, count parts,
 and store parsed values into reserved slots, each proved equal to its specification.
 */
module TextCast {
  import opened Wrappers
  import opened TextScan
  import opened TextModel
  import opened TextNull

  // ---------------------------------------------------------------- cursors

  method SkipWhitespace(s: string, input: nat) returns (i: nat)
    ensures i == SkipWs(s, input)
  {
    i := input;
    while i < |s| && IsSpace(s[i])
      invariant SkipWs(s, i) == SkipWs(s, input)
    {
      i := i + 1;
    }
  }

  method TrimRightWhitespace(s: string, input: nat, end: nat) returns (e: nat)
    requires input <= end <= |s|
    ensures e == TrimRight(s, input, end)
  {
    e := end;
    while input < e && IsSpace(s[e - 1])
      invariant input <= e <= end && TrimRight(s, input, e) == TrimRight(s, input, end)
    {
      e := e - 1;
    }
  }

  /** The cursor stops on the closing quote, or at the end of the text. */
  method SkipToCloseQuotes(s: string, input: nat) returns (ok: bool, i: nat)
    requires input < |s|
    ensures var q := CloseQuote(s, input + 1, s[input]); ok == q.Some? && i == if ok then q.value else |s|
  {
    i := input + 1;
    while i != |s|
      invariant input < i <= |s| && CloseQuote(s, i, s[input]) == CloseQuote(s, input + 1, s[input])
      decreases |s| - i
    {
      if s[i] == s[input] {
        return true, i;
      }
      i := i + 1;
    }
    return false, i;
  }

  method SkipToClose(s: string, input: nat, lvl: Level, target: char) returns (ok: bool, i: nat, l: Level)
    requires input < |s|
    ensures SkipLoop(s, input + 1, lvl, target) == Skip(ok, i, l)
    decreases |s| - input
  {
    i, l := input + 1, lvl;
    while i != |s|
      invariant input < i <= |s| && SkipLoop(s, i, l, target) == SkipLoop(s, input + 1, lvl, target)
      decreases |s| - i
    {
      if s[i] == '\'' {
        ok, i := SkipToCloseQuotes(s, i);
        if !ok {
          return false, i, l;
        }
      } else if s[i] == '{' {
        ok, i, l := SkipToClose(s, i, l, '}');
        if !ok {
          return false, i, l;
        }
      } else if s[i] == '[' {
        ok, i, l := SkipToClose(s, i, l, ']');
        if !ok {
          return false, i, l;
        }
        l := Inc(l);
      } else if s[i] == target {
        if target == ']' {
          l := Dec(l);
        }
        return true, i, l;
      }
      i := i + 1;
    }
    return false, i, l;
  }

  // ---------------------------------------------------------------- lists

  /** One round of the list loop on a character that does not split. */
  method SkipInList(s: string, input: nat, atStart: bool, lvl: Level, ghost start: nat, ghost seen: bool)
    returns (ok: bool, i: nat, l: Level)
    requires start <= input < |s| && s[input] != ',' && s[input] != ']'
    ensures input <= i
    ensures ok ==> ListLoop(s, input, start, seen, atStart, lvl) == ListLoop(s, i + 1, start, seen, false, l)
    ensures !ok ==> ListLoop(s, input, start, seen, atStart, lvl) == ListSplit(false, [])
  {
    ok, i, l := true, input, lvl;
    if s[i] == '[' {
      ok, i, l := SkipToClose(s, i, Inc(l), ']');
    } else if (s[i] == '\'' || s[i] == '"') && atStart {
      var found, close := SkipToCloseQuotes(s, i);
      if found {
        i := close;
      }
    } else if s[i] == '{' {
      var _, close, _ := SkipToClose(s, i, 0, '}');
      i := close;
    }
  }

  /** The state of the list loop: the parts handled so far and those still to come make up the split. */
  ghost predicate InList(s: string, done: seq<Part>, i: nat, start: nat, seen: bool, atStart: bool, lvl: Level) {
    start <= i &&
    var rest := ListLoop(s, i, start, seen, atStart, lvl);
    SplitList(s) == ListSplit(rest.ok, done + rest.parts)
  }

  /** The list loop on a comma and on the closing bracket. */
  lemma AtSplit(s: string, done: seq<Part>, i: nat, start: nat, seen: bool, atStart: bool, lvl: Level)
    requires InList(s, done, i, start, seen, atStart, lvl) && i < |s| && (s[i] == ',' || s[i] == ']')
    ensures var j := SkipWs(s, i + 1);
            var next := if s[i] == ',' || start < i || seen then done + [Part(start, i)] else done;
            && (s[i] == ',' ==> InList(s, next, j, j, true, true, lvl))
            && (s[i] == ']' ==> SplitList(s) == ListSplit(j == |s| && Dec(lvl) == 0, next))
  {
    hide SplitList;
    if s[i] == ',' {
      var j := SkipWs(s, i + 1);
      var rest := ListLoop(s, j, j, true, true, lvl);
      assert done + ([Part(start, i)] + rest.parts) == done + [Part(start, i)] + rest.parts;
    } else {
      assert done + [] == done;
    }
  }

  /** The part comes next after those handled. */
  ghost predicate ComesNext(all: seq<Part>, done: seq<Part>, p: Part) {
    |done| < |all| && done + [p] <= all
  }

  /** A part about to be handled has its place in the split. */
  lemma PartFits(s: string, done: seq<Part>, i: nat, start: nat, seen: bool, atStart: bool, lvl: Level)
    requires InList(s, done, i, start, seen, atStart, lvl) && i < |s|
    requires s[i] == ',' || (s[i] == ']' && (start < i || seen))
    ensures |done| < |SplitList(s).parts| && ComesNext(SplitList(s).parts, done, Part(start, i))
  {
    hide SplitList;
  }

  lemma LoopEnds(s: string, i: nat, start: nat, seen: bool, atStart: bool, lvl: Level)
    requires start <= i && |s| <= i
    ensures ListLoop(s, i, start, seen, atStart, lvl) == ListSplit(false, [])
  {
  }

  lemma AtEnd(s: string, done: seq<Part>, i: nat, start: nat, seen: bool, atStart: bool, lvl: Level)
    requires InList(s, done, i, start, seen, atStart, lvl)
    requires ListLoop(s, i, start, seen, atStart, lvl) == ListSplit(false, [])
    ensures SplitList(s) == ListSplit(false, done)
  {
    hide SplitList, ListLoop;
    assert done + [] == done;
  }

  /** The opening bracket of a list. */
  method OpenList(s: string) returns (ok: bool, i: nat)
    ensures ok ==> InList(s, [], i, i, false, true, 1)
    ensures !ok ==> SplitList(s) == ListSplit(false, [])
  {
    i := SkipWhitespace(s, 0);
    if i == |s| || s[i] != '[' {
      return false, i;
    }
    i := SkipWhitespace(s, i + 1);
    return true, i;
  }

  /** `splitCStringList` with `CountPartOperation`. */
  method CountListParts(s: string) returns (ok: bool, count: nat)
    ensures ok == SplitList(s).ok && count == |SplitList(s).parts|
  {
    hide InList, SplitList, ListLoop, SkipWs, IsSpace, Dec;
    count := 0;
    var i: nat;
    ok, i := OpenList(s);
    if !ok {
      return false, 0;
    }
    var lvl: Level, seen, atStart, start: nat := 1, false, true, i;
    ghost var done: seq<Part> := [];
    while i < |s|
      invariant start <= i && InList(s, done, i, start, seen, atStart, lvl) && count == |done|
      decreases |s| - i
    {
      if s[i] == ',' || s[i] == ']' {
        AtSplit(s, done, i, start, seen, atStart, lvl);
        if s[i] != ']' || start < i || seen {
          count, seen, done := count + 1, true, done + [Part(start, i)];
        }
        if s[i] == ']' {
          lvl := Dec(lvl);
          i := SkipWhitespace(s, i + 1);
          return i == |s| && lvl == 0, count;
        }
        i := SkipWhitespace(s, i + 1);
        start, atStart := i, true;
      } else {
        ghost var before, lvl0 := i, lvl;
        ok, i, lvl := SkipInList(s, i, atStart, lvl, start, seen);
        if !ok {
          AtEnd(s, done, before, start, seen, atStart, lvl0);
          return false, count;
        }
        InListSame(s, done, before, atStart, lvl0, start, seen, i + 1, lvl);
        atStart, i := false, i + 1;
      }
    }
    LoopEnds(s, i, start, seen, atStart, lvl);
    AtEnd(s, done, i, start, seen, atStart, lvl);
    return false, count;
  }

  lemma InListSame(s: string, done: seq<Part>, i: nat, atStart: bool, lvl: Level, start: nat, seen: bool, j: nat, l: Level)
    requires InList(s, done, i, start, seen, atStart, lvl) && i <= j
    requires ListLoop(s, i, start, seen, atStart, lvl) == ListLoop(s, j, start, seen, false, l)
    ensures InList(s, done, j, start, seen, false, l)
  {
    hide SplitList, ListLoop;
  }

  /** The text that `handleValue` casts. */
  ghost function PartText(s: string, p: Part): string
    requires p.from <= p.to <= |s|
  {
    var a := SkipWs(s[..p.to], p.from);
    s[a..TrimRight(s, a, p.to)]
  }

  /** The outcome of two casts in a row: the first error counts. */
  ghost function Both<T>(x: Result<seq<T>, TextError>, y: Result<seq<T>, TextError>): Result<seq<T>, TextError> {
    if x.Err? then x else if y.Err? then y else Ok(x.value + y.value)
  }

  lemma BothAssociates<T>(x: Result<seq<T>, TextError>, y: Result<seq<T>, TextError>, z: Result<seq<T>, TextError>)
    ensures Both(x, Both(y, z)) == Both(Both(x, y), z)
  {
    if x.Ok? && y.Ok? && z.Ok? {
      assert x.value + (y.value + z.value) == x.value + y.value + z.value;
    }
  }

  ghost function One<L>(x: Parsed<L>): Result<seq<Value<L>>, TextError> {
    if x.Err? then Err(x.error) else Ok([x.value])
  }

  lemma ParseElemsCons<L>(c: Codec<L>, ty: Type, s: string, parts: seq<Part>)
    requires ty.TList? && PartsInRange(parts, s)
    ensures parts == [] ==> ParseElems(c, ty, s, parts) == Ok([])
    ensures parts != [] ==> PartsInRange(parts[1..], s)
    ensures parts != [] ==>
              ParseElems(c, ty, s, parts) == Both(One(Parse(c, ty.elem, PartText(s, parts[0]))), ParseElems(c, ty, s, parts[1..]))
  {
    hide Parse;
  }

  lemma {:induction false} ParseElemsAppend<L>(c: Codec<L>, ty: Type, s: string, a: seq<Part>, b: seq<Part>)
    requires ty.TList? && PartsInRange(a, s) && PartsInRange(b, s)
    ensures PartsInRange(a + b, s)
    ensures ParseElems(c, ty, s, a + b) == Both(ParseElems(c, ty, s, a), ParseElems(c, ty, s, b))
    decreases |a|
  {
    hide Parse, ParseElems, PartText, One;
    ParseElemsCons(c, ty, s, a);
    if a == [] {
      assert a + b == b;
      var y := ParseElems(c, ty, s, b);
      assert y.Ok? ==> [] + y.value == y.value;
    } else {
      ParseElemsAppend(c, ty, s, a[1..], b);
      ParseElemsCons(c, ty, s, a + b);
      assert (a + b)[1..] == a[1..] + b && (a + b)[0] == a[0];
      hide Both;
      BothAssociates(One(Parse(c, ty.elem, PartText(s, a[0]))), ParseElems(c, ty, s, a[1..]), ParseElems(c, ty, s, b));
    }
  }

  lemma ParseElemsOne<L>(c: Codec<L>, ty: Type, s: string, p: Part)
    requires ty.TList? && p.from <= p.to <= |s|
    ensures ParseElems(c, ty, s, [p]) == One(Parse(c, ty.elem, PartText(s, p)))
  {
    hide Parse, ParseElems, PartText;
    ParseElemsCons(c, ty, s, [p]);
    ParseElemsCons(c, ty, s, [p][1..]);
    var x := Parse(c, ty.elem, PartText(s, p));
    assert x.Ok? ==> [x.value] + [] == [x.value];
  }

  /** The parts cast to the values. */
  ghost predicate Casts<L>(c: Codec<L>, ty: Type, s: string, parts: seq<Part>, vals: seq<Value<L>>) {
    ty.TList? && PartsInRange(parts, s) && ParseElems(c, ty, s, parts) == Ok(vals)
  }

  /** The cast of the parts throws. */
  ghost predicate Throws<L>(c: Codec<L>, ty: Type, s: string, parts: seq<Part>, error: TextError) {
    ty.TList? && PartsInRange(parts, s) && ParseElems(c, ty, s, parts) == Err(error)
  }

  lemma ParseNoElems<L>(c: Codec<L>, ty: Type, s: string, none: seq<Value<L>>)
    requires ty.TList? && none == []
    ensures Casts(c, ty, s, [], none)
  {
  }

  /** Casting one more part. */
  lemma NextElem<L>(c: Codec<L>, ty: Type, s: string, all: seq<Part>, done: seq<Part>, p: Part, vals: seq<Value<L>>)
    requires ty.TList? && PartsInRange(all, s) && done + [p] <= all && Casts(c, ty, s, done, vals)
    ensures p.from <= p.to <= |s|
    ensures var x := Parse(c, ty.elem, PartText(s, p));
            && (x.Ok? ==> Casts(c, ty, s, done + [p], vals + [x.value]))
            && (x.Err? ==> Throws(c, ty, s, all, x.error))
  {
    hide Parse, ParseElems;
    var rest := all[|done| + 1..];
    assert p == all[|done|];
    assert all == (done + [p]) + rest;
    ParseElemsOne(c, ty, s, p);
    ParseElemsAppend(c, ty, s, done, [p]);
    ParseElemsAppend(c, ty, s, done + [p], rest);
  }

  /** `SplitStringListOperation::handleValue`. */
  method HandleElem<L(==)>(c: Codec<L>, ty: Type, s: string, p: Part, slots: array<Value<L>>, offset: nat,
                           ghost all: seq<Part>, ghost done: seq<Part>)
    returns (r: Result<nat, TextError>)
    requires ty.TList? && PartsInRange(all, s) && ComesNext(all, done, p) && offset == |done| < slots.Length
    requires Casts(c, ty, s, done, slots[..offset])
    modifies slots
    ensures r.Ok? ==> r.value == offset + 1 && Casts(c, ty, s, done + [p], slots[..offset + 1])
    ensures r.Err? ==> Throws(c, ty, s, all, r.error)
    decreases ty, 0
  {
    NextElem(c, ty, s, all, done, p, slots[..offset]);
    hide Parse, Casts, Throws, PartsInRange;
    var start := SkipWhitespace(s[..p.to], p.from);
    var end := TrimRightWhitespace(s, start, p.to);
    var x := CopyStringToVector(c, ty.elem, s[start..end]);
    if x.Err? {
      return Err(x.error);
    }
    slots[offset] := x.value;
    assert slots[..offset + 1] == old(slots[..offset]) + [x.value];
    return Ok(offset + 1);
  }

  /** `splitCStringList` with `SplitStringListOperation`: no write past the reserved slots, and all
      of them filled unless a cast throws. */
  method SplitListParts<L(==)>(c: Codec<L>, ty: Type, s: string, slots: array<Value<L>>)
    returns (r: Result<bool, TextError>)
    requires ty.TList? && slots.Length == |SplitList(s).parts|
    modifies slots
    ensures r.Ok? ==> r.value == SplitList(s).ok && Casts(c, ty, s, SplitList(s).parts, slots[..])
    ensures r.Err? ==> Throws(c, ty, s, SplitList(s).parts, r.error)
    decreases ty, 1
  {
    hide Parse, InList, SplitList, ListLoop, SkipWs, IsSpace, Inc, Dec, Casts, Throws, PartText, PartsInRange, ComesNext;
    SplitListInRange(s);
    ParseNoElems(c, ty, s, slots[..0]);
    ghost var all := SplitList(s);
    var ok, i := OpenList(s);
    if !ok {
      assert slots[..] == slots[..0];
      return Ok(false);
    }
    var lvl: Level, seen, atStart, start: nat, offset: nat := 1, false, true, i, 0;
    ghost var done: seq<Part> := [];
    while i < |s|
      invariant start <= i && InList(s, done, i, start, seen, atStart, lvl) && offset == |done| <= slots.Length
      invariant Casts(c, ty, s, done, slots[..offset])
      decreases |s| - i
    {
      if s[i] == ',' || s[i] == ']' {
        AtSplit(s, done, i, start, seen, atStart, lvl);
        if s[i] != ']' || start < i || seen {
          PartFits(s, done, i, start, seen, atStart, lvl);
          var next := HandleElem(c, ty, s, Part(start, i), slots, offset, all.parts, done);
          if next.Err? {
            return Err(next.error);
          }
          offset, seen, done := next.value, true, done + [Part(start, i)];
        }
        if s[i] == ']' {
          assert slots[..] == slots[..offset];
          lvl := Dec(lvl);
          i := SkipWhitespace(s, i + 1);
          return Ok(i == |s| && lvl == 0);
        }
        i := SkipWhitespace(s, i + 1);
        start, atStart := i, true;
      } else {
        ghost var before, lvl0 := i, lvl;
        ok, i, lvl := SkipInList(s, i, atStart, lvl, start, seen);
        if !ok {
          AtEnd(s, done, before, start, seen, atStart, lvl0);
          assert slots[..] == slots[..offset];
          return Ok(false);
        }
        InListSame(s, done, before, atStart, lvl0, start, seen, i + 1, lvl);
        atStart, i := false, i + 1;
      }
    }
    LoopEnds(s, i, start, seen, atStart, lvl);
    AtEnd(s, done, i, start, seen, atStart, lvl);
    assert slots[..] == slots[..offset];
    return Ok(false);
  }

  /** The cast of a string to a list: count, reserve, split. */
  method CastList<L(==)>(c: Codec<L>, ty: Type, s: string) returns (r: Parsed<L>)
    requires ty.TList?
    ensures r == ParseList(c, ty, s)
    decreases ty, 2
  {
    var _, count := CountListParts(s);
    var slots := new Value<L>[count](_ => Null);
    var valid := SplitListParts(c, ty, s, slots);
    if valid.Err? {
      return Err(valid.error);
    }
    return if valid.value then Ok(List(slots[..])) else Err(NotInRange);
  }

  // ---------------------------------------------------------------- maps

  /** The cursor of `parseKeyOrValue`, which stops on the delimiter. */
  method ScanKeyOrValue(s: string, input: nat, isKey: bool) returns (ok: bool, i: nat)
    ensures PartEnd(s, input, isKey, 0) == if ok then Some(i) else None
  {
    i := input;
    var lvl: Level := 0;
    while i < |s|
      invariant PartEnd(s, i, isKey, lvl) == PartEnd(s, input, isKey, 0)
      decreases |s| - i
    {
      if s[i] == '"' || s[i] == '\'' {
        ok, i := SkipToCloseQuotes(s, i);
        if !ok {
          return;
        }
      } else if s[i] == '{' {
        ok, i, lvl := SkipToClose(s, i, lvl, '}');
        if !ok {
          return;
        }
      } else if s[i] == '[' {
        ok, i, lvl := SkipToClose(s, i, lvl, ']');
        if !ok {
          return;
        }
      } else if EndsPart(s[i], isKey) {
        return true, i;
      }
      i := i + 1;
    }
    return false, i;
  }

  /** The state of the map loop: the parts handled so far and those still to come make up the split. */
  ghost predicate InMap(s: string, done: seq<MapPart>, i: nat) {
    var rest := MapLoop(s, i);
    SplitMap(s) == MapSplit(rest.ok, done + rest.parts)
  }

  /** One round of the map loop. */
  lemma MapRound(s: string, done: seq<MapPart>, i: nat)
    requires InMap(s, done, i)
    ensures i >= |s| ==> SplitMap(s) == MapSplit(false, done)
    ensures i < |s| && ScanEntry(s, i).NoKey? ==> SplitMap(s) == MapSplit(false, done)
    ensures i < |s| && ScanEntry(s, i).NoValue? ==> SplitMap(s) == MapSplit(false, done + [KeyPart(i, ScanEntry(s, i).keyEnd)])
  {
    hide SplitMap, ScanEntry;
    assert done + [] == done;
  }

  lemma MapEntry(s: string, done: seq<MapPart>, i: nat, k: nat, j: nat, v: nat)
    requires InMap(s, done, i) && i < |s| && ScanEntry(s, i) == Scanned(k, j, v)
    ensures v < |s|
    ensures var two := done + [KeyPart(i, k), ValuePart(j, v)];
            && |two| <= |SplitMap(s).parts| && SplitMap(s).parts[|done| + 1] == ValuePart(j, v)
            && if s[v] == '}' then SplitMap(s) == MapSplit(SkipWs(s, v + 1) == |s|, two)
               else InMap(s, two, SkipWs(s, v + 1))
  {
    hide SplitMap, ScanEntry;
    var two := [KeyPart(i, k), ValuePart(j, v)];
    if s[v] != '}' {
      var rest := MapLoop(s, SkipWs(s, v + 1));
      assert done + (two + rest.parts) == done + two + rest.parts;
    }
  }

  /** The opening bracket of a map, or a whole empty map. */
  method OpenMap(s: string) returns (entries: bool, ok: bool, i: nat)
    ensures entries ==> InMap(s, [], i)
    ensures !entries ==> SplitMap(s) == MapSplit(ok, [])
  {
    i := SkipWhitespace(s, 0);
    if i == |s| || s[i] != '{' {
      return false, false, i;
    }
    i := SkipWhitespace(s, i + 1);
    if i == |s| {
      return false, false, i;
    }
    if s[i] == '}' {
      i := SkipWhitespace(s, i + 1);
      return false, i == |s|, i;
    }
    return true, true, i;
  }

  /** One round of `splitCStringMap` with `CountPartOperation`. */
  method ScanMapEntry(s: string, input: nat) returns (r: EntryScan)
    ensures r == ScanEntry(s, input)
  {
    var ok, k := ScanKeyOrValue(s, input, true);
    if !ok {
      return NoKey;
    }
    var j := SkipWhitespace(s, k + 1);
    var v;
    ok, v := ScanKeyOrValue(s, j, false);
    return if ok then Scanned(k, j, v) else NoValue(k);
  }

  /** `splitCStringMap` with `CountPartOperation`: keys come before their values, and only values count. */
  method CountMapParts(s: string) returns (ok: bool, count: nat)
    ensures ok == SplitMap(s).ok && count == |SplitMap(s).parts| / 2
    ensures ok ==> |SplitMap(s).parts| % 2 == 0
  {
    hide InMap, SplitMap, MapLoop, ScanEntry, SkipWs;
    count := 0;
    var more, valid, i := OpenMap(s);
    if !more {
      return valid, 0;
    }
    ghost var done: seq<MapPart> := [];
    while i < |s|
      invariant InMap(s, done, i) && |done| == 2 * count
      decreases |s| - i
    {
      var r := ScanMapEntry(s, i);
      MapRound(s, done, i);
      if !r.Scanned? {
        return false, count;
      }
      MapEntry(s, done, i, r.keyEnd, r.valueStart, r.valueEnd);
      count, done := count + 1, done + [KeyPart(i, r.keyEnd), ValuePart(r.valueStart, r.valueEnd)];
      i := SkipWhitespace(s, r.valueEnd + 1);
      if s[r.valueEnd] == '}' {
        return i == |s|, count;
      }
    }
    MapRound(s, done, i);
    return false, count;
  }

  /** Keys and values alternate. */
  ghost predicate Alternates(parts: seq<MapPart>) {
    forall j :: 0 <= j < |parts| ==> (parts[j].KeyPart? <==> j % 2 == 0)
  }

  lemma {:induction false} MapLoopAlternates(s: string, i: nat)
    ensures Alternates(MapLoop(s, i).parts)
    decreases |s| - i
  {
    hide ScanEntry, SkipWs;
    if i < |s| {
      var r := ScanEntry(s, i);
      if r.Scanned? && s[r.valueEnd] != '}' {
        MapLoopAlternates(s, SkipWs(s, r.valueEnd + 1));
      }
    }
  }

  lemma SplitMapAlternates(s: string)
    ensures Alternates(SplitMap(s).parts)
  {
    var i := SkipWs(s, 0);
    if i < |s| {
      MapLoopAlternates(s, SkipWs(s, i + 1));
    }
  }

  /** The entries finished and the key pending after some of the parts. */
  datatype Pending<L> = Pending(entries: seq<Entry<L>>, key: Value<L>)

  ghost function KeyText(s: string, p: MapPart): string
    requires p.from <= p.to <= |s|
  {
    s[p.from..TrimRight(s, p.from, p.to)]
  }

  ghost function HandlePart<L>(c: Codec<L>, ty: Type, s: string, p: MapPart, st: Pending<L>): Result<Pending<L>, TextError>
    requires ty.TMap? && p.from <= p.to <= |s|
  {
    var x := Parse(c, if p.KeyPart? then ty.key else ty.val, KeyText(s, p));
    if x.Err? then Err(x.error)
    else if p.ValuePart? then Ok(Pending(st.entries + [Entry(st.key, x.value)], st.key))
    else if x.value.Null? then Err(NullKey)
    else if HasKey(st.entries, x.value) then Err(DuplicateKey)
    else Ok(Pending(st.entries, x.value))
  }

  /** The state after the first k parts. */
  ghost function After<L>(c: Codec<L>, ty: Type, s: string, parts: seq<MapPart>, k: nat): Result<Pending<L>, TextError>
    requires ty.TMap? && MapPartsInRange(parts, s) && k <= |parts|
  {
    if k == 0 then Ok(Pending([], Null)) else
    var st := After(c, ty, s, parts, k - 1);
    if st.Err? then st else HandlePart(c, ty, s, parts[k - 1], st.value)
  }

  lemma ParseEntriesStep<L>(c: Codec<L>, ty: Type, s: string, parts: seq<MapPart>, st: Pending<L>)
    requires ty.TMap? && MapPartsInRange(parts, s) && parts != []
    ensures ParseEntries(c, ty, s, parts, st.entries, st.key) ==
              var next := HandlePart(c, ty, s, parts[0], st);
              if next.Err? then Err(next.error) else ParseEntries(c, ty, s, parts[1..], next.value.entries, next.value.key)
  {
    hide Parse, HasKey;
  }

  /** The parts handled one after another give what the specification gives. */
  lemma {:induction false} AfterAll<L>(c: Codec<L>, ty: Type, s: string, parts: seq<MapPart>, k: nat)
    requires ty.TMap? && MapPartsInRange(parts, s) && k <= |parts|
    ensures ParseEntries(c, ty, s, parts, [], Null) ==
              var st := After(c, ty, s, parts, k);
              if st.Err? then Err(st.error) else ParseEntries(c, ty, s, parts[k..], st.value.entries, st.value.key)
    decreases k
  {
    hide HandlePart, ParseEntries;
    if k == 0 {
      assert parts[0..] == parts;
    } else {
      AfterAll(c, ty, s, parts, k - 1);
      var st := After(c, ty, s, parts, k - 1);
      if st.Ok? {
        ParseEntriesStep(c, ty, s, parts[k - 1..], st.value);
        assert parts[k - 1..][1..] == parts[k..];
      }
    }
  }

  /** Once a part fails, the cast has failed. */
  lemma {:induction false} AfterFails<L>(c: Codec<L>, ty: Type, s: string, parts: seq<MapPart>, k: nat, m: nat)
    requires ty.TMap? && MapPartsInRange(parts, s) && k <= m <= |parts| && After(c, ty, s, parts, k).Err?
    ensures After(c, ty, s, parts, m) == After(c, ty, s, parts, k)
    decreases m
  {
    hide HandlePart;
    if k < m {
      AfterFails(c, ty, s, parts, k, m - 1);
    }
  }

  ghost predicate Zipped<L>(keys: seq<Value<L>>, vals: seq<Value<L>>, entries: seq<Entry<L>>) {
    && |entries| <= |keys| && |entries| <= |vals|
    && forall j :: 0 <= j < |entries| ==> entries[j] == Entry(keys[j], vals[j])
  }

  ghost predicate KeysAre<L>(uniqueKeys: set<Value<L>>, entries: seq<Entry<L>>) {
    && (forall x | x in uniqueKeys :: HasKey(entries, x))
    && (forall i :: 0 <= i < |entries| ==> entries[i].key in uniqueKeys)
  }

  lemma KeysNext<L>(uniqueKeys: set<Value<L>>, entries: seq<Entry<L>>, key: Value<L>, val: Value<L>)
    requires KeysAre(uniqueKeys, entries)
    ensures KeysAre(uniqueKeys + {key}, entries + [Entry(key, val)])
  {
    var more := entries + [Entry(key, val)];
    assert more[|entries|].key == key;
    forall x | x in uniqueKeys + {key} ensures HasKey(more, x) {
      if x in uniqueKeys {
        assert HasKey(entries, x);
        var i :| 0 <= i < |entries| && entries[i].key == x;
        assert more[i].key == x;
      }
    }
  }

  /** `SplitStringMapOperation::handleKey`. */
  method HandleKey<L(==)>(c: Codec<L>, ty: Type, s: string, p: MapPart, keys: array<Value<L>>, offset: nat,
                          uniqueKeys: set<Value<L>>, ghost st: Pending<L>)
    returns (r: Result<Value<L>, TextError>)
    requires ty.TMap? && p.KeyPart? && p.from <= p.to <= |s| && offset < keys.Length
    requires KeysAre(uniqueKeys, st.entries)
    modifies keys
    ensures offset < keys.Length && keys[..] == old(keys[..])[offset := keys[offset]]
    ensures r.Ok? ==> keys[offset] == r.value && HandlePart(c, ty, s, p, st) == Ok(Pending(st.entries, r.value))
    ensures r.Err? ==> HandlePart(c, ty, s, p, st) == Err(r.error)
    decreases ty, 0
  {
    hide Parse;
    var end := TrimRightWhitespace(s, p.from, p.to);
    r := CopyStringToVector(c, ty.key, s[p.from..end]);
    if r.Err? {
      return;
    }
    keys[offset] := r.value;
    if r.value.Null? {
      return Err(NullKey);
    }
    if r.value in uniqueKeys {
      return Err(DuplicateKey);
    }
  }

  /** `SplitStringMapOperation::handleValue`. */
  method HandleValue<L(==)>(c: Codec<L>, ty: Type, s: string, p: MapPart, vals: array<Value<L>>, offset: nat,
                            ghost st: Pending<L>)
    returns (r: Result<nat, TextError>)
    requires ty.TMap? && p.ValuePart? && p.from <= p.to <= |s| && offset < vals.Length
    modifies vals
    ensures offset < vals.Length && vals[..] == old(vals[..])[offset := vals[offset]]
    ensures r.Ok? ==> r.value == offset + 1
    ensures r.Ok? ==> HandlePart(c, ty, s, p, st) == Ok(Pending(st.entries + [Entry(st.key, vals[offset])], st.key))
    ensures r.Err? ==> HandlePart(c, ty, s, p, st) == Err(r.error)
    decreases ty, 0
  {
    hide Parse;
    var end := TrimRightWhitespace(s, p.from, p.to);
    var x := CopyStringToVector(c, ty.val, s[p.from..end]);
    if x.Err? {
      return Err(x.error);
    }
    vals[offset] := x.value;
    return Ok(offset + 1);
  }

  /** The last key of the text has no value, and everything before it is cast: that key is written one
      slot past those that the counting pass reserved. */
  ghost predicate KeyWithoutSlot<L>(c: Codec<L>, ty: Type, s: string) {
    var parts := SplitMap(s).parts;
    ty.TMap? && MapPartsInRange(parts, s) && |parts| % 2 == 1 && After(c, ty, s, parts, |parts| - 1).Ok?
  }

  /** A map text that breaks off behind an equal sign: whatever the type, its key has no slot. */
  lemma BrokenOffMap<L>(c: Codec<L>, key: Type, val: Type)
    ensures SplitMap("{a=") == MapSplit(false, [KeyPart(1, 2)])
    ensures KeyWithoutSlot(c, TMap(key, val), "{a=")
  {
    var s := "{a=";
    assert SkipWs(s, 0) == 0 && SkipWs(s, 1) == 1 && SkipWs(s, 3) == 3;
    assert PartEnd(s, 2, true, 0) == Some(2);
    assert PartEnd(s, 1, true, 0) == Some(2);
    assert PartEnd(s, 3, false, 0) == None;
    assert ScanEntry(s, 1) == NoValue(2);
  }

  /** A key about to be handled has its place in the split. */
  lemma KeyFits(s: string, done: seq<MapPart>, i: nat, k: nat)
    requires InMap(s, done, i) && i < |s| && PartEnd(s, i, true, 0) == Some(k)
    ensures |done| < |SplitMap(s).parts| && SplitMap(s).parts[|done|] == KeyPart(i, k)
    ensures ScanEntry(s, i).NoValue? ==> |SplitMap(s).parts| == |done| + 1
  {
    hide SplitMap, PartEnd;
    MapRound(s, done, i);
    var r := ScanEntry(s, i);
    if r.Scanned? {
      MapEntry(s, done, i, r.keyEnd, r.valueStart, r.valueEnd);
    }
  }

  /** The first k parts of the map text have been handled. */
  ghost predicate Reached<L>(c: Codec<L>, ty: Type, s: string, k: nat, st: Pending<L>) {
    var parts := SplitMap(s).parts;
    ty.TMap? && MapPartsInRange(parts, s) && k <= |parts| && After(c, ty, s, parts, k) == Ok(st)
  }

  /** The cast of the map text throws. */
  ghost predicate MapThrows<L>(c: Codec<L>, ty: Type, s: string, error: TextError) {
    var parts := SplitMap(s).parts;
    ty.TMap? && MapPartsInRange(parts, s) && After(c, ty, s, parts, |parts|) == Err(error)
  }

  lemma NothingReached<L>(c: Codec<L>, ty: Type, s: string)
    requires ty.TMap?
    ensures MapPartsInRange(SplitMap(s).parts, s) && Reached<L>(c, ty, s, 0, Pending([], Null)) && KeysAre<L>({}, [])
  {
    hide SplitMap;
    SplitMapInRange(s);
  }

  lemma NextPart<L>(c: Codec<L>, ty: Type, s: string, k: nat, st: Pending<L>)
    requires k < |SplitMap(s).parts| && Reached(c, ty, s, k, st)
    ensures var p := SplitMap(s).parts[k]; p.from <= p.to <= |s|
    ensures var next := HandlePart(c, ty, s, SplitMap(s).parts[k], st);
            && (next.Ok? ==> Reached(c, ty, s, k + 1, next.value))
            && (next.Err? ==> MapThrows(c, ty, s, next.error))
            && (next.Err? ==> (KeyWithoutSlot(c, ty, s) <==> k == |SplitMap(s).parts| - 1 && k % 2 == 0))
  {
    hide SplitMap, HandlePart;
    var parts := SplitMap(s).parts;
    var next := HandlePart(c, ty, s, parts[k], st);
    if next.Err? {
      AfterFails(c, ty, s, parts, k + 1, |parts|);
      if k < |parts| - 1 {
        AfterFails(c, ty, s, parts, k + 1, |parts| - 1);
      }
    }
  }

  /** Without a failure, a key is left without a slot exactly when it has no value. */
  lemma LastKey<L>(c: Codec<L>, ty: Type, s: string, k: nat, st: Pending<L>)
    requires Reached(c, ty, s, k, st) && |SplitMap(s).parts| - 1 <= k
    ensures KeyWithoutSlot(c, ty, s) <==> |SplitMap(s).parts| % 2 == 1
  {
    hide SplitMap, HandlePart;
  }

  /** Writing the next slots keeps the entries before them and completes one more. */
  lemma ZippedNext<L>(keys: seq<Value<L>>, vals: seq<Value<L>>, entries: seq<Entry<L>>, key: Value<L>, val: Value<L>)
    requires Zipped(keys, vals, entries) && |entries| < |keys| && |entries| < |vals|
    ensures Zipped(keys[|entries| := key], vals[|entries| := val], entries + [Entry(key, val)])
  {
  }

  lemma ZippedNone<L>(keys: seq<Value<L>>, vals: seq<Value<L>>)
    ensures Zipped(keys, vals, [])
  {
  }

  lemma ZippedKeep<L>(keys: seq<Value<L>>, vals: seq<Value<L>>, entries: seq<Entry<L>>, key: Value<L>)
    requires Zipped(keys, vals, entries) && |entries| < |keys|
    ensures Zipped(keys[|entries| := key], vals, entries)
  {
  }

  /** `splitCStringMap` with `SplitStringMapOperation`.  The values fill the reserved slots exactly; keys stay
      within them too, except for a last key that has no value. */
  method SplitMapParts<L(==)>(c: Codec<L>, ty: Type, s: string, keys: array<Value<L>>, vals: array<Value<L>>)
    returns (r: Result<bool, TextError>, written: nat, ghost st: Pending<L>)
    requires ty.TMap? && keys != vals && vals.Length == |SplitMap(s).parts| / 2 && keys.Length == vals.Length + 1
    modifies keys, vals
    ensures r.Err? ==> MapThrows(c, ty, s, r.error)
    ensures r.Ok? ==> r.value == SplitMap(s).ok && Reached(c, ty, s, |SplitMap(s).parts|, st)
    ensures r.Ok? ==> Zipped(keys[..], vals[..], st.entries) && |st.entries| == vals.Length
    ensures written > vals.Length <==> KeyWithoutSlot(c, ty, s)
    decreases ty, 1
  {
    hide Parse, HandlePart, InMap, SplitMap, MapLoop, ScanEntry, SkipWs, PartEnd, Reached, MapThrows, KeyWithoutSlot, MapPartsInRange, KeysAre, HasKey, Zipped;
    ZippedNone(keys[..], vals[..]);
    NothingReached<L>(c, ty, s);
    st := Pending([], Null);
    written := 0;
    var more, valid, i := OpenMap(s);
    if !more {
      LastKey(c, ty, s, 0, st);
      return Ok(valid), 0, st;
    }
    var uniqueKeys: set<Value<L>>, offset: nat := {}, 0;
    ghost var done: seq<MapPart> := [];
    while i < |s|
      invariant InMap(s, done, i) && |done| == 2 * offset && offset == |st.entries| == written <= vals.Length
      invariant |done| <= |SplitMap(s).parts| && Reached(c, ty, s, |done|, st)
      invariant Zipped(keys[..], vals[..], st.entries)
      invariant KeysAre(uniqueKeys, st.entries)
      decreases |s| - i
    {
      MapRound(s, done, i);
      var ok, k := ScanKeyOrValue(s, i, true);
      if !ok {
        ScanNoKey(s, i);
        LastKey(c, ty, s, |done|, st);
        return Ok(false), written, st;
      }
      KeyFits(s, done, i, k);
      NextPart(c, ty, s, |done|, st);
      written := offset + 1;
      ghost var keys0, vals0 := keys[..], vals[..];
      var key := HandleKey(c, ty, s, KeyPart(i, k), keys, offset, uniqueKeys, st);
      if key.Err? {
        return Err(key.error), written, st;
      }
      ZippedKeep(keys0, vals0, st.entries, key.value);
      st := Pending(st.entries, key.value);
      var j := SkipWhitespace(s, k + 1);
      var v;
      ok, v := ScanKeyOrValue(s, j, false);
      ScanWithKey(s, i, k);
      if !ok {
        LastKey(c, ty, s, |done| + 1, st);
        return Ok(false), written, st;
      }
      MapEntry(s, done, i, k, j, v);
      NextPart(c, ty, s, |done| + 1, st);
      var next := HandleValue(c, ty, s, ValuePart(j, v), vals, offset, st);
      if next.Err? {
        return Err(next.error), written, st;
      }
      ZippedNext(keys0, vals0, st.entries, st.key, vals[offset]);
      KeysNext(uniqueKeys, st.entries, st.key, vals[offset]);
      st := Pending(st.entries + [Entry(st.key, vals[offset])], st.key);
      uniqueKeys := uniqueKeys + {key.value};
      done, offset := done + [KeyPart(i, k), ValuePart(j, v)], next.value;
      i := SkipWhitespace(s, v + 1);
      if s[v] == '}' {
        LastKey(c, ty, s, |done|, st);
        return Ok(i == |s|), written, st;
      }
    }
    MapRound(s, done, i);
    LastKey(c, ty, s, |done|, st);
    return Ok(false), written, st;
  }

  lemma ScanNoKey(s: string, i: nat)
    requires PartEnd(s, i, true, 0).None?
    ensures ScanEntry(s, i).NoKey?
  {
    hide PartEnd;
  }

  lemma ScanWithKey(s: string, i: nat, k: nat)
    requires PartEnd(s, i, true, 0) == Some(k)
    ensures var j := SkipWs(s, k + 1);
            var v := PartEnd(s, j, false, 0);
            ScanEntry(s, i) == if v.Some? then Scanned(k, j, v.value) else NoValue(k)
  {
    hide PartEnd;
  }

  lemma MapOutcome<L>(c: Codec<L>, ty: Type, s: string)
    requires ty.TMap?
    ensures forall e :: MapThrows(c, ty, s, e) ==> ParseMap(c, ty, s) == Err(e)
    ensures forall st :: Reached(c, ty, s, |SplitMap(s).parts|, st) ==>
              ParseMap(c, ty, s) == if SplitMap(s).ok then Ok(Map(st.entries)) else Err(NotInRange)
  {
    hide SplitMap, Parse, HandlePart;
    SplitMapInRange(s);
    var parts := SplitMap(s).parts;
    AfterAll(c, ty, s, parts, |parts|);
  }

  /** The cast of a string to a map: count, reserve, split. */
  method CastMap<L(==)>(c: Codec<L>, ty: Type, s: string) returns (r: Parsed<L>)
    requires ty.TMap?
    ensures r == ParseMap(c, ty, s)
    decreases ty, 2
  {
    hide SplitMap, ParseMap, Reached, MapThrows, KeyWithoutSlot;
    var _, count := CountMapParts(s);
    var keys, vals := new Value<L>[count + 1](_ => Null), new Value<L>[count](_ => Null);
    var valid, _, st := SplitMapParts(c, ty, s, keys, vals);
    MapOutcome(c, ty, s);
    if valid.Err? {
      return Err(valid.error);
    }
    if !valid.value {
      return Err(NotInRange);
    }
    var entries := seq(count, j requires 0 <= j < count reads keys, vals => Entry(keys[j], vals[j]));
    assert entries == st.entries;
    return Ok(Map(entries));
  }

  // ---------------------------------------------------------------- structs

  method ParseStructFieldName(s: string, input: nat) returns (ok: bool, i: nat)
    ensures NameEnd(s, input) == if ok then Some(i) else None
  {
    i := input;
    while i < |s|
      invariant NameEnd(s, i) == NameEnd(s, input)
    {
      if s[i] == ':' {
        return true, i;
      }
      i := i + 1;
    }
    return false, i;
  }

  method ParseStructFieldValue(s: string, input: nat) returns (ok: bool, i: nat, closeBracket: bool)
    ensures ValueEnd(s, input, 0) == if ok then Some(i) else None
    ensures ok ==> closeBracket == (s[i] == '}')
  {
    i, closeBracket := input, false;
    var lvl: Level := 0;
    while i < |s|
      invariant ValueEnd(s, i, lvl) == ValueEnd(s, input, 0)
      decreases |s| - i
    {
      if s[i] == '"' || s[i] == '\'' {
        ok, i := SkipToCloseQuotes(s, i);
        if !ok {
          return;
        }
      } else if s[i] == '{' {
        ok, i, lvl := SkipToClose(s, i, lvl, '}');
        if !ok {
          return;
        }
      } else if s[i] == '[' {
        ok, i, lvl := SkipToClose(s, i, Inc(lvl), ']');
        if !ok {
          return;
        }
      } else if s[i] == ',' || s[i] == '}' {
        return lvl == 0, i, s[i] == '}';
      }
      i := i + 1;
    }
    return false, i, false;
  }

  /** One field of a struct text. */
  method ScanStructField(s: string, input: nat) returns (r: FieldScan)
    requires 0 < input < |s|
    ensures r == ScanField(s, input)
  {
    var ok, i := ParseStructFieldName(s, input);
    if !ok {
      return NoName;
    }
    var keyEnd := TrimRightWhitespace(s, input, i);
    var key := TrimQuotes(s, input, keyEnd);
    if key.0 > key.1 {
      return BadName;
    }
    var valStart := SkipWhitespace(s, i + 1);
    var end, close;
    ok, end, close := ParseStructFieldValue(s, valStart);
    if !ok {
      return Named(s[key.0..key.1], None);
    }
    var valEnd := TrimRightWhitespace(s, valStart, end);
    var val := TrimQuotes(s, valStart, valEnd);
    if val.0 > val.1 {
      return Named(s[key.0..key.1], None);
    }
    return Named(s[key.0..key.1], Some(FieldText(s[val.0..val.1], end)));
  }

  /** `tryCastStringToStruct`. */
  method CastStruct<L(==)>(c: Codec<L>, ty: Type, s: string) returns (r: Parsed<L>)
    requires ty.TStruct?
    ensures r == ParseStruct(c, ty, s)
    decreases ty, 2
  {
    hide Parse, ScanField, SkipWs;
    var vals := new Value<L>[|ty.fields|](_ => Null);
    var i := SkipWhitespace(s, 0);
    if i == |s| || s[i] != '{' {
      return Err(NotInRange);
    }
    i := SkipWhitespace(s, i + 1);
    if i == |s| {
      return Err(NotInRange);
    }
    if s[i] == '}' {
      i := SkipWhitespace(s, i + 1);
      assert vals[..] == seq(|ty.fields|, _ => Null);
      return if i == |s| then Ok(Struct(vals[..])) else Err(NotInRange);
    }
    assert vals[..] == seq(|ty.fields|, _ => Null);
    assert ParseStruct(c, ty, s) == ParseFields(c, ty, s, i, vals[..]);
    while i < |s|
      invariant 0 < i && ParseStruct(c, ty, s) == ParseFields(c, ty, s, i, vals[..])
      decreases |s| - i
    {
      hide ParseStruct;
      var scan := ScanStructField(s, i);
      if scan.NoName? {
        return Err(NotInRange);
      }
      if scan.BadName? {
        return Err(BadFieldName);
      }
      var idx := FieldIdx(ty.fields, scan.name);
      if idx.None? {
        return Err(BadFieldName);
      }
      if scan.value.None? {
        return Err(NotInRange);
      }
      var text, end := scan.value.value.text, scan.value.value.end;
      var x := CopyStringToVector(c, ty.fields[idx.value].ty, text);
      if x.Err? {
        return Err(x.error);
      }
      ghost var before := vals[..];
      vals[idx.value] := x.value;
      assert vals[..] == before[idx.value := x.value];
      i := SkipWhitespace(s, end + 1);
      if s[end] == '}' {
        return if i == |s| then Ok(Struct(vals[..])) else Err(NotInRange);
      }
    }
    return Err(NotInRange);
  }

  /** `copyStringToVector` at one position. */
  method CopyStringToVector<L(==)>(c: Codec<L>, ty: Type, s: string) returns (r: Parsed<L>)
    ensures r == Parse(c, ty, s)
    ensures r == Ok(Null) <==> if ty.TLeaf? && c.nulls(ty.kind).Some? then s in c.nulls(ty.kind).value else MeansNull(s)
    decreases ty, 3
  {
    ParseNullExactly(c, ty, s);
    if NullText(c, ty, s) {
      return Ok(Null);
    }
    match ty
    case TLeaf(kind) => return ParseLeaf(c, kind, s);
    case TList(_) => r := CastList(c, ty, s);
    case TMap(_, _) => r := CastMap(c, ty, s);
    case TStruct(_) => r := CastStruct(c, ty, s);
  }

  // ---------------------------------------------------------------- printing

  /** `toString` of a list entry. */
  method ListToString<L>(c: Codec<L>, ty: Type, v: Value<L>) returns (result: string)
    requires v.List? && HasType(v, ty)
    ensures result == Print(c, ty, v)
    decreases v, 0
  {
    if |v.elems| == 0 {
      return "[]";
    }
    result := "[";
    for i := 0 to |v.elems| - 1
      invariant result + PrintElems(c, ty, v, i) == "[" + PrintElems(c, ty, v, 0)
    {
      var entry := EntryToString(c, ty.elem, v.elems[i]);
      assert result + PrintElems(c, ty, v, i) == result + entry + "," + PrintElems(c, ty, v, i + 1);
      result := result + entry + ",";
    }
    var last := EntryToString(c, ty.elem, v.elems[|v.elems| - 1]);
    assert PrintElems(c, ty, v, |v.elems| - 1) == last;
    result := result + last + "]";
  }

  /** `toString` of a map entry. */
  method MapToString<L>(c: Codec<L>, ty: Type, v: Value<L>) returns (result: string)
    requires v.Map? && HasType(v, ty)
    ensures result == Print(c, ty, v)
    decreases v, 0
  {
    if |v.entries| == 0 {
      return "{}";
    }
    result := "{";
    for i := 0 to |v.entries| - 1
      invariant result + PrintEntries(c, ty, v, i) == "{" + PrintEntries(c, ty, v, 0)
    {
      var entry := MapEntryToString(c, ty, v, i);
      assert result + PrintEntries(c, ty, v, i) == result + entry + ", " + PrintEntries(c, ty, v, i + 1);
      result := result + entry + ", ";
    }
    var last := MapEntryToString(c, ty, v, |v.entries| - 1);
    assert PrintEntries(c, ty, v, |v.entries| - 1) == last;
    result := result + last + "}";
  }

  method MapEntryToString<L>(c: Codec<L>, ty: Type, v: Value<L>, i: nat) returns (result: string)
    requires v.Map? && HasType(v, ty) && i < |v.entries|
    ensures PrintEntries(c, ty, v, i) == result + if i + 1 == |v.entries| then "" else ", " + PrintEntries(c, ty, v, i + 1)
    decreases v, 0, 0
  {
    var key := EntryToString(c, ty.key, v.entries[i].key);
    var val := EntryToString(c, ty.val, v.entries[i].val);
    result := key + "=" + val;
  }

  /** `structToString<false>`. */
  method StructToString<L>(c: Codec<L>, ty: Type, v: Value<L>) returns (result: string)
    requires v.Struct? && HasType(v, ty)
    ensures result == Print(c, ty, v)
    decreases v, 0
  {
    hide PrintFields, FieldsLeft, Print;
    StructText(c, ty, v);
    if |v.vals| == 0 {
      return "{}";
    }
    result := "{";
    for i := 0 to |v.vals|
      invariant result + FieldsLeft(c, ty, v, i) == "{" + FieldsLeft(c, ty, v, 0)
    {
      var field := FieldToString(c, ty, v, i);
      Regroup(result, if i != 0 then ", " else "", field, FieldsLeft(c, ty, v, i + 1));
      if i != 0 {
        result := result + ", ";
      } else {
        assert result + "" == result;
      }
      result := result + field;
    }
    assert result + "" == result;
    result := result + "}";
  }

  lemma StructText<L>(c: Codec<L>, ty: Type, v: Value<L>)
    requires v.Struct? && HasType(v, ty)
    ensures FieldsLeft(c, ty, v, |v.vals|) == ""
    ensures Print(c, ty, v) == "{" + FieldsLeft(c, ty, v, 0) + "}"
    ensures |v.vals| == 0 ==> Print(c, ty, v) == "{}"
  {
    assert "" + PrintFields(c, ty, v, 0) == PrintFields(c, ty, v, 0);
  }

  lemma Regroup(a: string, b: string, c: string, d: string)
    ensures a + (b + c + d) == a + b + c + d
  {
  }

  /** The fields from an index on, with the separator in front of them. */
  ghost function FieldsLeft<L>(c: Codec<L>, ty: Type, v: Value<L>, i: nat): string
    requires v.Struct? && i <= |v.vals|
  {
    if i == |v.vals| then "" else (if i != 0 then ", " else "") + PrintFields(c, ty, v, i)
  }

  method FieldToString<L>(c: Codec<L>, ty: Type, v: Value<L>, i: nat) returns (result: string)
    requires v.Struct? && HasType(v, ty) && i < |v.vals|
    ensures FieldsLeft(c, ty, v, i) == (if i != 0 then ", " else "") + result + FieldsLeft(c, ty, v, i + 1)
    decreases v, 0, 0
  {
    var entry := EntryToString(c, ty.fields[i].ty, v.vals[i]);
    result := ty.fields[i].name + ": " + entry;
    assert PrintFields(c, ty, v, i) == result + FieldsLeft(c, ty, v, i + 1);
  }

  method EntryToString<L>(c: Codec<L>, ty: Type, v: Value<L>) returns (result: string)
    requires HasType(v, ty)
    ensures result == Print(c, ty, v)
    decreases v, 1
  {
    match v
    case Null => return "";
    case Leaf(_) => return Print(c, ty, v);
    case List(_) => result := ListToString(c, ty, v);
    case Map(_) => result := MapToString(c, ty, v);
    case Struct(_) => result := StructToString(c, ty, v);
  }
}
