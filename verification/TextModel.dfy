/**
 Nested values, their types, the printer of `TypeUtils::toString` and the parser of
 `CastString::copyStringToVector`.  Leaf printing and parsing is a parameter.
 */
module TextModel {
  import opened Wrappers
  import opened TextScan

  datatype Field = Field(name: string, ty: Type)

  datatype Type =
    | TLeaf(kind: nat)
    | TList(elem: Type)
    | TMap(key: Type, val: Type)
    | TStruct(fields: seq<Field>)

  datatype Entry<L> = Entry(key: Value<L>, val: Value<L>)

  datatype Value<L> =
    | Null
    | Leaf(x: L)
    | List(elems: seq<Value<L>>)
    | Map(entries: seq<Entry<L>>)
    | Struct(vals: seq<Value<L>>)

  /** Printing and parsing of the non-nested types, by kind, and for strings the texts that stand for null. */
  datatype Codec<!L> = Codec(show: (nat, L) -> string, read: (nat, string) -> Option<L>, nulls: nat -> Option<seq<string>>)

  datatype TextError = NotInRange | BadLeaf | NullKey | DuplicateKey | BadFieldName

  type Parsed<L> = Result<Value<L>, TextError>

  /** The values that a vector of the given type holds. */
  ghost predicate HasType<L>(v: Value<L>, ty: Type)
    decreases v
  {
    match v
    case Null => true
    case Leaf(_) => ty.TLeaf?
    case List(es) => ty.TList? && forall i :: 0 <= i < |es| ==> HasType(es[i], ty.elem)
    case Map(es) => ty.TMap? && forall i :: 0 <= i < |es| ==> HasType(es[i].key, ty.key) && HasType(es[i].val, ty.val)
    case Struct(vs) => ty.TStruct? && |vs| == |ty.fields| && forall i :: 0 <= i < |vs| ==> HasType(vs[i], ty.fields[i].ty)
  }

  function Upper(c: char): char {
    if 'a' <= c <= 'z' then c - 'a' + 'A' else c
  }

  function UpperAll(s: string): string {
    seq(|s|, i requires 0 <= i < |s| => Upper(s[i]))
  }

  /** Field names are looked up in upper case; the first field of a name wins. */
  function FieldIdx(fields: seq<Field>, name: string): (r: Option<nat>)
    ensures r.Some? ==> r.value < |fields| && UpperAll(fields[r.value].name) == UpperAll(name)
    ensures r.Some? ==> forall i :: 0 <= i < r.value ==> UpperAll(fields[i].name) != UpperAll(name)
    ensures r.None? ==> forall i :: 0 <= i < |fields| ==> UpperAll(fields[i].name) != UpperAll(name)
  {
    if fields == [] then None
    else if UpperAll(fields[0].name) == UpperAll(name) then Some(0)
    else
      var r := FieldIdx(fields[1..], name);
      if r.Some? then Some(r.value + 1) else None
  }

  // ---------------------------------------------------------------- printer

  function Print<L>(c: Codec<L>, ty: Type, v: Value<L>): string
    decreases v, 1, 0
  {
    match v
    case Null => ""
    case Leaf(x) => c.show(if ty.TLeaf? then ty.kind else 0, x)
    case List(es) => "[" + PrintElems(c, ty, v, 0) + "]"
    case Map(es) => "{" + PrintEntries(c, ty, v, 0) + "}"
    case Struct(vs) => "{" + PrintFields(c, ty, v, 0) + "}"
  }

  /** The elements from one index on, separated by commas. */
  function PrintElems<L>(c: Codec<L>, ty: Type, v: Value<L>, i: nat): string
    requires v.List? && i <= |v.elems|
    decreases v, 0, |v.elems| - i
  {
    if i == |v.elems| then "" else
    Print(c, if ty.TList? then ty.elem else ty, v.elems[i]) +
    if i + 1 == |v.elems| then "" else "," + PrintElems(c, ty, v, i + 1)
  }

  function PrintEntries<L>(c: Codec<L>, ty: Type, v: Value<L>, i: nat): string
    requires v.Map? && i <= |v.entries|
    decreases v, 0, |v.entries| - i
  {
    if i == |v.entries| then "" else
    Print(c, if ty.TMap? then ty.key else ty, v.entries[i].key) + "=" +
    Print(c, if ty.TMap? then ty.val else ty, v.entries[i].val) +
    if i + 1 == |v.entries| then "" else ", " + PrintEntries(c, ty, v, i + 1)
  }

  function PrintFields<L>(c: Codec<L>, ty: Type, v: Value<L>, i: nat): string
    requires v.Struct? && i <= |v.vals|
    decreases v, 0, |v.vals| - i
  {
    if i == |v.vals| || !ty.TStruct? || i >= |ty.fields| then "" else
    ty.fields[i].name + ": " + Print(c, ty.fields[i].ty, v.vals[i]) +
    if i + 1 == |v.vals| then "" else ", " + PrintFields(c, ty, v, i + 1)
  }

  // ---------------------------------------------------------------- parser

  /** `setVectorNull`: strings are compared with the configured texts, all else with NULL. */
  predicate NullText<L>(c: Codec<L>, ty: Type, s: string) {
    if ty.TLeaf? && c.nulls(ty.kind).Some? then s in c.nulls(ty.kind).value else IsNullText(s)
  }

  /** `copyStringToVector` at one position. */
  function Parse<L(==)>(c: Codec<L>, ty: Type, s: string): Parsed<L>
    decreases ty, 3, 0
  {
    if NullText(c, ty, s) then Ok(Null) else
    match ty
    case TLeaf(kind) => ParseLeaf(c, kind, s)
    case TList(_) => ParseList(c, ty, s)
    case TMap(_, _) => ParseMap(c, ty, s)
    case TStruct(_) => ParseStruct(c, ty, s)
  }

  function ParseLeaf<L>(c: Codec<L>, kind: nat, s: string): Parsed<L> {
    var x := c.read(kind, s);
    if x.None? then Err(BadLeaf) else Ok(Leaf(x.value))
  }

  function ParseList<L(==)>(c: Codec<L>, ty: Type, s: string): Parsed<L>
    requires ty.TList?
    decreases ty, 1, 0
  {
    var split := SplitList(s);
    SplitListInRange(s);
    var elems := ParseElems(c, ty, s, split.parts);
    if elems.Err? then Err(elems.error) else if !split.ok then Err(NotInRange) else Ok(List(elems.value))
  }

  function ParseMap<L(==)>(c: Codec<L>, ty: Type, s: string): Parsed<L>
    requires ty.TMap?
    decreases ty, 1, 0
  {
    var split := SplitMap(s);
    SplitMapInRange(s);
    var entries := ParseEntries(c, ty, s, split.parts, [], Null);
    if entries.Err? then Err(entries.error) else if !split.ok then Err(NotInRange) else Ok(Map(entries.value))
  }

  /** `tryCastStringToStruct`: fields default to null. */
  function ParseStruct<L(==)>(c: Codec<L>, ty: Type, s: string): Parsed<L>
    requires ty.TStruct?
    decreases ty, 2, 0
  {
    var i := SkipWs(s, 0);
    var blank := seq(|ty.fields|, _ => Null);
    if i == |s| || s[i] != '{' then Err(NotInRange) else
    var j := SkipWs(s, i + 1);
    if j == |s| then Err(NotInRange)
    else if s[j] == '}' then (if SkipWs(s, j + 1) == |s| then Ok(Struct(blank)) else Err(NotInRange))
    else ParseFields(c, ty, s, j, blank)
  }

  /** `SplitStringListOperation::handleValue` on every part in turn. */
  function ParseElems<L(==)>(c: Codec<L>, ty: Type, s: string, parts: seq<Part>): (r: Result<seq<Value<L>>, TextError>)
    requires ty.TList? && PartsInRange(parts, s)
    ensures r.Ok? ==> |r.value| == |parts|
    decreases ty, 0, |parts|
  {
    if parts == [] then Ok([]) else
    var a := SkipWs(s[..parts[0].to], parts[0].from);
    var x := Parse(c, ty.elem, s[a..TrimRight(s, a, parts[0].to)]);
    if x.Err? then Err(x.error) else
    var rest := ParseElems(c, ty, s, parts[1..]);
    if rest.Err? then rest else Ok([x.value] + rest.value)
  }

  /** `handleKey` and `handleValue` of `SplitStringMapOperation` on every part in turn. */
  function ParseEntries<L(==)>(c: Codec<L>, ty: Type, s: string, parts: seq<MapPart>, done: seq<Entry<L>>, key: Value<L>)
    : (r: Result<seq<Entry<L>>, TextError>)
    requires ty.TMap? && MapPartsInRange(parts, s)
    decreases ty, 0, |parts|
  {
    if parts == [] then Ok(done) else
    var text := s[parts[0].from..TrimRight(s, parts[0].from, parts[0].to)];
    if parts[0].KeyPart? then
      var k := Parse(c, ty.key, text);
      if k.Err? then Err(k.error)
      else if k.value.Null? then Err(NullKey)
      else if HasKey(done, k.value) then Err(DuplicateKey)
      else ParseEntries(c, ty, s, parts[1..], done, k.value)
    else
      var v := Parse(c, ty.val, text);
      if v.Err? then Err(v.error) else ParseEntries(c, ty, s, parts[1..], done + [Entry(key, v.value)], key)
  }

  predicate HasKey<L(==)>(done: seq<Entry<L>>, key: Value<L>) {
    exists i :: 0 <= i < |done| && done[i].key == key
  }

  /** The outcome of one round of the struct loop. */
  datatype Round<L> = Stop(result: Parsed<L>) | Continue(next: nat, vals: seq<Value<L>>)

  /** One round of the struct loop, once the field has been scanned. */
  function StoreField<L(==)>(c: Codec<L>, ty: Type, s: string, scan: FieldScan, vals: seq<Value<L>>): (r: Round<L>)
    requires ty.TStruct? && |vals| == |ty.fields|
    requires scan.Named? && scan.value.Some? ==> scan.value.value.end < |s|
    ensures r.Continue? ==> scan.Named? && scan.value.Some? && scan.value.value.end < r.next && |r.vals| == |vals|
    decreases ty, 0, 0
  {
    match scan
    case NoName => Stop(Err(NotInRange))
    case BadName => Stop(Err(BadFieldName))
    case Named(name, value) =>
      var idx := FieldIdx(ty.fields, name);
      if idx.None? then Stop(Err(BadFieldName))
      else if value.None? then Stop(Err(NotInRange))
      else
        var x := Parse(c, ty.fields[idx.value].ty, value.value.text);
        if x.Err? then Stop(Err(x.error)) else
        var vals' := vals[idx.value := x.value];
        var next := SkipWs(s, value.value.end + 1);
        if s[value.value.end] != '}' then Continue(next, vals')
        else if next == |s| then Stop(Ok(Struct(vals')))
        else Stop(Err(NotInRange))
  }

  /** The loop of `tryCastStringToStruct`. */
  function ParseFields<L(==)>(c: Codec<L>, ty: Type, s: string, i: nat, vals: seq<Value<L>>): Parsed<L>
    requires ty.TStruct? && |vals| == |ty.fields| && 0 < i
    decreases ty, 1, |s| - i
  {
    if i >= |s| then Err(NotInRange) else
    match StoreField(c, ty, s, ScanField(s, i), vals)
    case Stop(r) => r
    case Continue(next, vals') => ParseFields(c, ty, s, next, vals')
  }
}
