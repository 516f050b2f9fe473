/**
 The cursor scanners over the text of nested values: white space, quotes, bracket skipping,
 and the splitting of list, map and struct texts into parts.  A cursor is an index into the
 text; `end` is its length.  The level counter is an unsigned 64-bit integer that wraps.
 */
module TextScan {
  import opened Wrappers

  // ---------------------------------------------------------------- characters

  /** `isspace` in the C locale. */
  predicate IsSpace(c: char) {
    c == ' ' || ('\t' <= c <= '\r')
  }

  function SkipWs(s: string, i: nat): (r: nat)
    ensures i <= r
    ensures i <= |s| ==> r <= |s|
    ensures r < |s| ==> !IsSpace(s[r])
    decreases |s| - i
  {
    if i < |s| && IsSpace(s[i]) then SkipWs(s, i + 1) else i
  }

  function TrimRight(s: string, a: nat, b: nat): (r: nat)
    requires a <= b <= |s|
    ensures a <= r <= b
  {
    if a < b && IsSpace(s[b - 1]) then TrimRight(s, a, b - 1) else b
  }

  // ---------------------------------------------------------------- skipping

  const LEVEL_MAX: nat := 0xFFFF_FFFF_FFFF_FFFF

  /** A `uint64_t` counter: it wraps at both ends. */
  type Level = l: nat | l <= LEVEL_MAX

  function Inc(l: Level): Level {
    if l == LEVEL_MAX then 0 else l + 1
  }

  function Dec(l: Level): Level {
    if l == 0 then LEVEL_MAX else l - 1
  }

  datatype Skip = Skip(ok: bool, pos: nat, lvl: Level)

  /** The position of a closing quote at or after the cursor. */
  function CloseQuote(s: string, i: nat, ch: char): (r: Option<nat>)
    requires i <= |s|
    ensures r.Some? ==> i <= r.value < |s|
    decreases |s| - i
  {
    if i == |s| then None else if s[i] == ch then Some(i) else CloseQuote(s, i + 1, ch)
  }

  /** The loop of `skipToClose`, entered after the opening bracket. */
  function SkipLoop(s: string, i: nat, lvl: Level, target: char): (r: Skip)
    requires i <= |s|
    ensures i <= r.pos <= |s|
    ensures r.ok ==> r.pos < |s|
    decreases |s| - i
  {
    if i == |s| then Skip(false, i, lvl)
    else if s[i] == '\'' then
      var q := CloseQuote(s, i + 1, '\'');
      if q.None? then Skip(false, |s|, lvl) else SkipLoop(s, q.value + 1, lvl, target)
    else if s[i] == '{' then
      var r := SkipLoop(s, i + 1, lvl, '}');
      if !r.ok then r else SkipLoop(s, r.pos + 1, r.lvl, target)
    else if s[i] == '[' then
      var r := SkipLoop(s, i + 1, lvl, ']');
      if !r.ok then r else SkipLoop(s, r.pos + 1, Inc(r.lvl), target)
    else if s[i] == target then
      Skip(true, i, if target == ']' then Dec(lvl) else lvl)
    else
      SkipLoop(s, i + 1, lvl, target)
  }

  // ---------------------------------------------------------------- lists

  datatype Part = Part(from: nat, to: nat)

  /** The outcome of a split: its verdict, and the parts passed to `handleValue`, in order. */
  datatype ListSplit = ListSplit(ok: bool, parts: seq<Part>)

  /** The loop of `splitCStringList`. */
  function ListLoop(s: string, i: nat, start: nat, seen: bool, atStart: bool, lvl: Level): (r: ListSplit)
    requires start <= i
    decreases |s| - i
  {
    if i >= |s| then ListSplit(false, [])
    else if s[i] == '[' then
      var r := SkipLoop(s, i + 1, Inc(lvl), ']');
      if !r.ok then ListSplit(false, []) else ListLoop(s, r.pos + 1, start, seen, false, r.lvl)
    else if (s[i] == '\'' || s[i] == '"') && atStart then
      var q := CloseQuote(s, i + 1, s[i]);
      ListLoop(s, (if q.Some? then q.value else i) + 1, start, seen, false, lvl)
    else if s[i] == '{' then
      var r := SkipLoop(s, i + 1, 0, '}');
      ListLoop(s, r.pos + 1, start, seen, false, lvl)
    else if s[i] == ']' then
      ListSplit(SkipWs(s, i + 1) == |s| && Dec(lvl) == 0, if start < i || seen then [Part(start, i)] else [])
    else if s[i] == ',' then
      var j := SkipWs(s, i + 1);
      var rest := ListLoop(s, j, j, true, true, lvl);
      ListSplit(rest.ok, [Part(start, i)] + rest.parts)
    else
      ListLoop(s, i + 1, start, seen, false, lvl)
  }

  function SplitList(s: string): (r: ListSplit)
  {
    var i := SkipWs(s, 0);
    if i == |s| || s[i] != '[' then ListSplit(false, []) else
    var j := SkipWs(s, i + 1);
    ListLoop(s, j, j, false, true, 1)
  }

  ghost predicate PartsInRange(parts: seq<Part>, s: string) {
    forall k :: 0 <= k < |parts| ==> parts[k].from <= parts[k].to <= |s|
  }

  lemma {:induction false} ListLoopInRange(s: string, i: nat, start: nat, seen: bool, atStart: bool, lvl: Level)
    requires start <= i
    ensures PartsInRange(ListLoop(s, i, start, seen, atStart, lvl).parts, s)
    decreases |s| - i
  {
    if i < |s| {
      if s[i] == '[' {
        var r := SkipLoop(s, i + 1, Inc(lvl), ']');
        if r.ok {
          ListLoopInRange(s, r.pos + 1, start, seen, false, r.lvl);
        }
      } else if (s[i] == '\'' || s[i] == '"') && atStart {
        var q := CloseQuote(s, i + 1, s[i]);
        ListLoopInRange(s, (if q.Some? then q.value else i) + 1, start, seen, false, lvl);
      } else if s[i] == '{' {
        ListLoopInRange(s, SkipLoop(s, i + 1, 0, '}').pos + 1, start, seen, false, lvl);
      } else if s[i] == ',' {
        var j := SkipWs(s, i + 1);
        ListLoopInRange(s, j, j, true, true, lvl);
      } else if s[i] != ']' {
        ListLoopInRange(s, i + 1, start, seen, false, lvl);
      }
    }
  }

  lemma SplitListInRange(s: string)
    ensures PartsInRange(SplitList(s).parts, s)
  {
    var i := SkipWs(s, 0);
    if i < |s| {
      var j := SkipWs(s, i + 1);
      ListLoopInRange(s, j, j, false, true, 1);
    }
  }

  // ---------------------------------------------------------------- maps

  /** Whether a character ends a key or a value. */
  predicate EndsPart(c: char, isKey: bool) {
    if isKey then c == '=' else c == ',' || c == '}'
  }

  /** The loop of `parseKeyOrValue`: the position of the delimiter. */
  function PartEnd(s: string, i: nat, isKey: bool, lvl: Level): (r: Option<nat>)
    ensures r.Some? ==> i <= r.value < |s| && EndsPart(s[r.value], isKey)
    decreases |s| - i
  {
    if i >= |s| then None
    else if s[i] == '"' || s[i] == '\'' then
      var q := CloseQuote(s, i + 1, s[i]);
      if q.None? then None else PartEnd(s, q.value + 1, isKey, lvl)
    else if s[i] == '{' then
      var r := SkipLoop(s, i + 1, lvl, '}');
      if !r.ok then None else PartEnd(s, r.pos + 1, isKey, r.lvl)
    else if s[i] == '[' then
      var r := SkipLoop(s, i + 1, lvl, ']');
      if !r.ok then None else PartEnd(s, r.pos + 1, isKey, r.lvl)
    else if EndsPart(s[i], isKey) then Some(i)
    else PartEnd(s, i + 1, isKey, lvl)
  }

  datatype MapPart = KeyPart(from: nat, to: nat) | ValuePart(from: nat, to: nat)

  datatype MapSplit = MapSplit(ok: bool, parts: seq<MapPart>)

  /** One round of the map loop: the delimiters behind a key and behind its value. */
  datatype EntryScan = NoKey | NoValue(keyEnd: nat) | Scanned(keyEnd: nat, valueStart: nat, valueEnd: nat)

  function ScanEntry(s: string, i: nat): (r: EntryScan)
    ensures r.NoValue? ==> i <= r.keyEnd < |s|
    ensures r.Scanned? ==> i <= r.keyEnd < r.valueStart <= r.valueEnd < |s|
  {
    var k := PartEnd(s, i, true, 0);
    if k.None? then NoKey else
    var j := SkipWs(s, k.value + 1);
    var v := PartEnd(s, j, false, 0);
    if v.None? then NoValue(k.value) else Scanned(k.value, j, v.value)
  }

  /** The loop of `splitCStringMap`. */
  function MapLoop(s: string, i: nat): (r: MapSplit)
    decreases |s| - i
  {
    if i >= |s| then MapSplit(false, []) else
    match ScanEntry(s, i)
    case NoKey => MapSplit(false, [])
    case NoValue(k) => MapSplit(false, [KeyPart(i, k)])
    case Scanned(k, j, v) =>
      var parts := [KeyPart(i, k), ValuePart(j, v)];
      var next := SkipWs(s, v + 1);
      if s[v] == '}' then MapSplit(next == |s|, parts) else
      var rest := MapLoop(s, next);
      MapSplit(rest.ok, parts + rest.parts)
  }

  function SplitMap(s: string): (r: MapSplit)
  {
    var i := SkipWs(s, 0);
    if i == |s| || s[i] != '{' then MapSplit(false, []) else
    var j := SkipWs(s, i + 1);
    if j == |s| then MapSplit(false, [])
    else if s[j] == '}' then MapSplit(SkipWs(s, j + 1) == |s|, [])
    else MapLoop(s, j)
  }

  ghost predicate MapPartsInRange(parts: seq<MapPart>, s: string) {
    forall k :: 0 <= k < |parts| ==> parts[k].from <= parts[k].to <= |s|
  }

  lemma {:induction false} MapLoopInRange(s: string, i: nat)
    ensures MapPartsInRange(MapLoop(s, i).parts, s)
    decreases |s| - i
  {
    hide ScanEntry, SkipWs;
    if i < |s| {
      var r := ScanEntry(s, i);
      if r.Scanned? && s[r.valueEnd] != '}' {
        MapLoopInRange(s, SkipWs(s, r.valueEnd + 1));
      }
    }
  }

  lemma SplitMapInRange(s: string)
    ensures MapPartsInRange(SplitMap(s).parts, s)
  {
    var i := SkipWs(s, 0);
    if i < |s| {
      MapLoopInRange(s, SkipWs(s, i + 1));
    }
  }

  // ---------------------------------------------------------------- structs

  /** `parseStructFieldName`: the position of the colon. */
  function NameEnd(s: string, i: nat): (r: Option<nat>)
    ensures r.Some? ==> i <= r.value < |s| && s[r.value] == ':'
    decreases |s| - i
  {
    if i >= |s| then None else if s[i] == ':' then Some(i) else NameEnd(s, i + 1)
  }

  /** `parseStructFieldValue`: the position of the delimiter. */
  function ValueEnd(s: string, i: nat, lvl: Level): (r: Option<nat>)
    ensures r.Some? ==> i <= r.value < |s| && (s[r.value] == ',' || s[r.value] == '}')
    decreases |s| - i
  {
    if i >= |s| then None
    else if s[i] == '"' || s[i] == '\'' then
      var q := CloseQuote(s, i + 1, s[i]);
      if q.None? then None else ValueEnd(s, q.value + 1, lvl)
    else if s[i] == '{' then
      var r := SkipLoop(s, i + 1, lvl, '}');
      if !r.ok then None else ValueEnd(s, r.pos + 1, r.lvl)
    else if s[i] == '[' then
      var r := SkipLoop(s, i + 1, Inc(lvl), ']');
      if !r.ok then None else ValueEnd(s, r.pos + 1, r.lvl)
    else if s[i] == ',' || s[i] == '}' then
      if lvl == 0 then Some(i) else None
    else ValueEnd(s, i + 1, lvl)
  }

  /** `trimQuotes` drops one pair of equal quotes; on a lone quote the ends cross. */
  function TrimQuotes(s: string, a: nat, b: nat): (r: (nat, nat))
    requires 0 < b && a < |s| && b <= |s|
    ensures a <= r.0 && r.1 <= b
  {
    if (s[a] == '\'' && s[b - 1] == '\'') || (s[a] == '"' && s[b - 1] == '"') then (a + 1, b - 1) else (a, b)
  }

  datatype FieldText = FieldText(text: string, end: nat)

  /** One round of the struct loop: the field's name, and its value if it is delimited. */
  datatype FieldScan = NoName | BadName | Named(name: string, value: Option<FieldText>)

  function ScanField(s: string, i: nat): (r: FieldScan)
    requires 0 < i < |s|
    ensures r.Named? && r.value.Some? ==> i < r.value.value.end < |s|
  {
    var k := NameEnd(s, i);
    if k.None? then NoName else
    var name := TrimQuotes(s, i, TrimRight(s, i, k.value));
    if name.0 > name.1 then BadName else
    Named(s[name.0..name.1], ScanFieldValue(s, SkipWs(s, k.value + 1)))
  }

  function ScanFieldValue(s: string, j: nat): (r: Option<FieldText>)
    requires 0 < j
    ensures r.Some? ==> j <= r.value.end < |s|
  {
    var e := ValueEnd(s, j, 0);
    if e.None? then None else
    var text := TrimQuotes(s, j, TrimRight(s, j, e.value));
    if text.0 > text.1 then None else Some(FieldText(s[text.0..text.1], e.value))
  }

  // ---------------------------------------------------------------- null texts

  predicate IsLetter(c: char, upper: char, lower: char) {
    c == upper || c == lower
  }

  /** `isNull`: blank, or the word NULL in any case with blanks around it. */
  predicate IsNullText(s: string) {
    var i := SkipWs(s, 0);
    || i == |s|
    || (&& |s| - i >= 4
        && IsLetter(s[i], 'N', 'n') && IsLetter(s[i + 1], 'U', 'u')
        && IsLetter(s[i + 2], 'L', 'l') && IsLetter(s[i + 3], 'L', 'l')
        && SkipWs(s, i + 4) == |s|)
  }
}
