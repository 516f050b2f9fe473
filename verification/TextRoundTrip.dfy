/**
 Printing a nested value and parsing the text at the same type: what comes back, for every
 tree, and exactly when it is the tree itself.
 */
module TextRoundTrip {
  import opened Wrappers
  import opened TextScan
  import opened TextModel

  // ---------------------------------------------------------------- assumptions on names and leaves

  /** Text of a leaf: not empty, no quotes, brackets, commas or equal signs, not padded. */
  ghost predicate LeafText(t: string) {
    && t != "" && !IsSpace(t[0]) && !IsSpace(t[|t| - 1])
    && forall i :: 0 <= i < |t| ==> !Special(t[i]) && t[i] != ',' && t[i] != '=' && t[i] != '"'
  }

  /** The characters that bracket skipping reacts to. */
  predicate Special(c: char) {
    c == '\'' || c == '{' || c == '}' || c == '[' || c == ']'
  }

  /** A field name: no quote, bracket or colon, not padded, not in double quotes. */
  ghost predicate NameText(t: string) {
    && (t != "" ==> !IsSpace(t[0]) && !IsSpace(t[|t| - 1]) && !(t[0] == '"' && t[|t| - 1] == '"'))
    && forall i :: 0 <= i < |t| ==> !Special(t[i]) && t[i] != ':'
  }

  ghost predicate TypeOK(ty: Type)
    decreases ty
  {
    match ty
    case TLeaf(_) => true
    case TList(elem) => TypeOK(elem)
    case TMap(key, val) => TypeOK(key) && TypeOK(val)
    case TStruct(fields) =>
      && (forall i :: 0 <= i < |fields| ==> NameText(fields[i].name) && TypeOK(fields[i].ty))
      && (forall i, j :: 0 <= i < j < |fields| ==> UpperAll(fields[i].name) != UpperAll(fields[j].name))
  }

  /** A tree of the given type whose leaves print to leaf texts that read back and are not taken for null; the
      empty text, as which null is printed, is. */
  ghost predicate Printable<L>(c: Codec<L>, ty: Type, v: Value<L>)
    decreases v
  {
    match v
    case Null => NullText(c, ty, "")
    case Leaf(x) =>
      && ty.TLeaf? && LeafText(c.show(ty.kind, x)) && !NullText(c, ty, c.show(ty.kind, x))
      && c.read(ty.kind, c.show(ty.kind, x)) == Some(x)
    case List(es) => ty.TList? && forall i :: 0 <= i < |es| ==> Printable(c, ty.elem, es[i])
    case Map(es) =>
      ty.TMap? && forall i :: 0 <= i < |es| ==> Printable(c, ty.key, es[i].key) && Printable(c, ty.val, es[i].val)
    case Struct(vs) =>
      ty.TStruct? && |vs| == |ty.fields| && forall i :: 0 <= i < |vs| ==> Printable(c, ty.fields[i].ty, vs[i])
  }

  // ---------------------------------------------------------------- texts at positions

  /** The text stands at the position, character by character. */
  ghost predicate At(s: string, i: nat, t: string)
    ensures At(s, i, t) ==> i + |t| <= |s|
    decreases |t|
  {
    if t == "" then i <= |s| else i < |s| && s[i] == t[0] && At(s, i + 1, t[1..])
  }

  lemma {:induction false} AtSlice(s: string, i: nat, t: string)
    ensures At(s, i, t) <==> i + |t| <= |s| && s[i..i + |t|] == t
    decreases |t|
  {
    if t != "" {
      AtSlice(s, i + 1, t[1..]);
      if i + |t| <= |s| {
        assert s[i..i + |t|] == [s[i]] + s[i + 1..i + |t|];
        assert t == [t[0]] + t[1..];
        assert s[i..i + |t|][1..] == s[i + 1..i + |t|];
      }
    }
  }

  lemma {:induction false} AtSplit(s: string, i: nat, a: string, b: string)
    requires At(s, i, a + b)
    ensures At(s, i, a) && At(s, i + |a|, b)
    decreases |a|
  {
    if a == "" {
      assert a + b == b;
    } else {
      assert (a + b)[1..] == a[1..] + b;
      AtSplit(s, i + 1, a[1..], b);
    }
  }

  lemma {:induction false} AtChar(s: string, i: nat, t: string, k: nat)
    requires At(s, i, t) && k < |t|
    ensures i + k < |s| && s[i + k] == t[k]
    decreases |t|
  {
    if k > 0 {
      AtChar(s, i + 1, t[1..], k - 1);
    }
  }

  /** The first and last characters of a printed value. */
  lemma PrintEdges<L>(c: Codec<L>, ty: Type, v: Value<L>)
    requires Printable(c, ty, v)
    ensures var p := Print(c, ty, v);
            if v.Null? then p == ""
            else && p != "" && !IsSpace(p[0]) && !IsSpace(p[|p| - 1]) && !NullText(c, ty, p)
                 && p[0] != '\'' && p[0] != '"' && p[0] != '}' && p[0] != ',' && p[0] != '='
  {
  }

  // ---------------------------------------------------------------- bracketed texts

  /** The bracket structure of a text. */
  datatype Doc = End | Plain(c: char, rest: Doc) | Group(list: bool, body: Doc, rest: Doc)

  ghost function OpenChar(list: bool): char {
    if list then '[' else '{'
  }

  ghost function CloseChar(list: bool): char {
    if list then ']' else '}'
  }

  ghost function Render(d: Doc): string {
    match d
    case End => ""
    case Plain(c, rest) => [c] + Render(rest)
    case Group(list, body, rest) =>
      [OpenChar(list)] + (Render(body) + ([CloseChar(list)] + Render(rest)))
  }

  /** No stray quote or bracket. */
  ghost predicate Clean(d: Doc) {
    match d
    case End => true
    case Plain(c, rest) => !Special(c) && Clean(rest)
    case Group(_, body, rest) => Clean(body) && Clean(rest)
  }

  ghost function Cat(d: Doc, e: Doc): Doc {
    match d
    case End => e
    case Plain(c, rest) => Plain(c, Cat(rest, e))
    case Group(list, body, rest) => Group(list, body, Cat(rest, e))
  }

  lemma {:induction false} RenderCat(d: Doc, e: Doc)
    ensures Render(Cat(d, e)) == Render(d) + Render(e)
    ensures Clean(d) && Clean(e) ==> Clean(Cat(d, e))
  {
    match d
    case End =>
    case Plain(_, rest) => RenderCat(rest, e);
    case Group(_, _, rest) => RenderCat(rest, e);
  }

  lemma {:induction false} PlainDoc(t: string) returns (d: Doc)
    requires forall k :: 0 <= k < |t| ==> !Special(t[k])
    ensures Render(d) == t && Clean(d)
  {
    if t == "" {
      d := End;
    } else {
      var rest := PlainDoc(t[1..]);
      d := Plain(t[0], rest);
    }
  }

  ghost function Size(d: Doc): nat {
    match d
    case End => 0
    case Plain(_, rest) => 1 + Size(rest)
    case Group(_, body, rest) => 2 + Size(body) + Size(rest)
  }

  /** The text from a position on begins with the given structure. */
  ghost predicate Fits(d: Doc, s: string, i: nat) {
    match d
    case End => i <= |s|
    case Plain(c, rest) => i < |s| && s[i] == c && Fits(rest, s, i + 1)
    case Group(list, body, rest) =>
      && i < |s| && s[i] == OpenChar(list)
      && Fits(body, s, i + 1)
      && (var j := i + 1 + Size(body); j < |s| && s[j] == CloseChar(list) && Fits(rest, s, j + 1))
  }

  lemma {:induction false} RenderSize(d: Doc)
    ensures |Render(d)| == Size(d)
  {
    match d
    case End =>
    case Plain(_, rest) => RenderSize(rest);
    case Group(_, body, rest) => RenderSize(body); RenderSize(rest);
  }

  lemma {:induction false} FitsSize(d: Doc, s: string, i: nat)
    requires Fits(d, s, i)
    ensures i + Size(d) <= |s|
  {
    match d
    case End =>
    case Plain(_, rest) => FitsSize(rest, s, i + 1);
    case Group(_, body, rest) => FitsSize(rest, s, i + 1 + Size(body) + 1);
  }

  lemma {:induction false} FitsCat(d: Doc, e: Doc, s: string, i: nat)
    requires Fits(Cat(d, e), s, i)
    ensures Fits(d, s, i) && Fits(e, s, i + Size(d))
    ensures Size(Cat(d, e)) == Size(d) + Size(e)
  {
    match d
    case End => FitsSize(e, s, i);
    case Plain(_, rest) => FitsCat(rest, e, s, i + 1);
    case Group(_, body, rest) => FitsCat(rest, e, s, i + 1 + Size(body) + 1);
  }

  /** What fits at a position is the text found there. */
  lemma {:induction false} FitsSlice(d: Doc, s: string, i: nat)
    requires Fits(d, s, i)
    ensures i + Size(d) <= |s| && s[i..i + Size(d)] == Render(d)
  {
    hide Fits, Size, Render;
    FitsSize(d, s, i);
    FitsParts(d, s, i);
    match d
    case End =>
    case Plain(c, rest) =>
      FitsSlice(rest, s, i + 1);
      assert s[i..i + Size(d)] == [c] + s[i + 1..i + Size(d)];
    case Group(list, body, rest) =>
      FitsSlice(body, s, i + 1);
      FitsSlice(rest, s, i + 1 + Size(body) + 1);
      SliceFits(list, body, rest, s, i);
  }

  lemma FitsParts(d: Doc, s: string, i: nat)
    requires Fits(d, s, i)
    ensures d.End? ==> Size(d) == 0 && Render(d) == ""
    ensures d.Plain? ==> i < |s| && s[i] == d.c && Fits(d.rest, s, i + 1)
    ensures d.Plain? ==> Size(d) == 1 + Size(d.rest) && Render(d) == [d.c] + Render(d.rest)
    ensures d.Group? ==> i < |s| && s[i] == OpenChar(d.list) && Fits(d.body, s, i + 1)
    ensures d.Group? ==>
              var j := i + 1 + Size(d.body);
              j < |s| && s[j] == CloseChar(d.list) && Fits(d.rest, s, j + 1) && Size(d) == 2 + Size(d.body) + Size(d.rest)
  {
  }

  lemma SliceFits(list: bool, body: Doc, rest: Doc, s: string, i: nat)
    requires var j := i + 1 + Size(body);
             && j + 1 + Size(rest) <= |s| && s[i] == OpenChar(list) && s[j] == CloseChar(list)
             && s[i + 1..j] == Render(body) && s[j + 1..j + 1 + Size(rest)] == Render(rest)
    ensures s[i..i + Size(Group(list, body, rest))] == Render(Group(list, body, rest))
  {
    var j := i + 1 + Size(body);
    assert Render(Group(list, body, rest)) == [OpenChar(list)] + (Render(body) + ([CloseChar(list)] + Render(rest)));
    SliceGroup(s, i, j, j + 1 + Size(rest), Render(body), Render(rest));
  }

  lemma SliceGroup(s: string, i: nat, j: nat, e: nat, body: string, rest: string)
    requires i < j < e <= |s| && s[i + 1..j] == body && s[j + 1..e] == rest
    ensures s[i..e] == [s[i]] + (body + ([s[j]] + rest))
  {
  }

  lemma {:induction false} RenderFits(d: Doc, s: string, i: nat)
    requires At(s, i, Render(d))
    ensures Fits(d, s, i) && i + Size(d) <= |s|
  {
    RenderSize(d);
    match d
    case End =>
    case Plain(c, rest) =>
      AtSplit(s, i, [c], Render(rest));
      AtChar(s, i, [c], 0);
      RenderFits(rest, s, i + 1);
    case Group(list, body, rest) =>
      RenderSize(body);
      AtGroup(s, i, [OpenChar(list)], Render(body), [CloseChar(list)], Render(rest));
      RenderFits(body, s, i + 1);
      RenderFits(rest, s, i + 1 + Size(body) + 1);
  }

  lemma AtGroup(s: string, i: nat, open: string, body: string, close: string, rest: string)
    requires At(s, i, open + (body + (close + rest))) && |open| == 1 && |close| == 1
    ensures i < |s| && s[i] == open[0] && At(s, i + 1, body)
    ensures var j := i + 1 + |body|; j < |s| && s[j] == close[0] && At(s, j + 1, rest)
  {
    AtSplit(s, i, open, body + (close + rest));
    AtChar(s, i, open, 0);
    AtSplit(s, i + 1, body, close + rest);
    AtSplit(s, i + 1 + |body|, close, rest);
    AtChar(s, i + 1 + |body|, close, 0);
  }

  lemma StepPlain(s: string, i: nat, lvl: Level, target: char)
    requires i < |s| && !Special(s[i]) && (target == ']' || target == '}')
    ensures SkipLoop(s, i, lvl, target) == SkipLoop(s, i + 1, lvl, target)
  {
  }

  /** One bracketed group inside another. */
  lemma StepOver(list: bool, s: string, i: nat, j: nat, lvl: Level, target: char)
    requires i < |s| && s[i] == OpenChar(list)
    requires SkipLoop(s, i + 1, lvl, CloseChar(list)) == Skip(true, j, if list then Dec(lvl) else lvl)
    ensures j < |s| && SkipLoop(s, i, lvl, target) == SkipLoop(s, j + 1, lvl, target)
  {
    assert Inc(Dec(lvl)) == lvl;
  }

  /** Bracket skipping passes over a clean text and leaves the level as it was. */
  lemma {:induction false} SkipDoc(d: Doc, s: string, i: nat, lvl: Level, target: char)
    requires Clean(d) && Fits(d, s, i) && (target == ']' || target == '}')
    ensures i + Size(d) <= |s|
    ensures SkipLoop(s, i, lvl, target) == SkipLoop(s, i + Size(d), lvl, target)
    decreases d, 0
  {
    hide SkipLoop;
    match d
    case End =>
    case Plain(_, rest) =>
      StepPlain(s, i, lvl, target);
      SkipDoc(rest, s, i + 1, lvl, target);
    case Group(list, body, rest) =>
      var j := i + 2 + Size(body);
      SkipInner(list, body, s, i, lvl, target);
      SkipDoc(rest, s, j, lvl, target);
  }

  lemma {:induction false} SkipInner(list: bool, body: Doc, s: string, i: nat, lvl: Level, target: char)
    requires Clean(body) && i < |s| && s[i] == OpenChar(list) && Fits(body, s, i + 1)
    requires i + 1 + Size(body) < |s| && s[i + 1 + Size(body)] == CloseChar(list)
    ensures SkipLoop(s, i, lvl, target) == SkipLoop(s, i + 2 + Size(body), lvl, target)
    decreases body, 2
  {
    SkipBody(list, body, s, i, lvl);
    StepOver(list, s, i, i + 1 + Size(body), lvl, target);
  }

  /** From an opening bracket, skipping ends on the bracket that closes it. */
  lemma {:induction false} SkipBody(list: bool, body: Doc, s: string, i: nat, lvl: Level)
    requires Clean(body) && Fits(body, s, i + 1)
    requires i + 1 + Size(body) < |s| && s[i + 1 + Size(body)] == CloseChar(list)
    ensures SkipLoop(s, i + 1, lvl, CloseChar(list)) == Skip(true, i + 1 + Size(body), if list then Dec(lvl) else lvl)
    decreases body, 1
  {
    SkipDoc(body, s, i + 1, lvl, CloseChar(list));
  }

  // ---------------------------------------------------------------- printed values are clean

  lemma {:induction false} ValueDoc<L>(c: Codec<L>, ty: Type, v: Value<L>) returns (d: Doc)
    requires Printable(c, ty, v) && TypeOK(ty)
    ensures Render(d) == Print(c, ty, v) && Clean(d)
    decreases v, 2, 0
  {
    match v
    case Null => d := End;
    case Leaf(x) => d := PlainDoc(Print(c, ty, v));
    case List(_) => var body := BodyDoc(c, ty, v); d := Group(true, body, End);
    case Map(_) => var body := BodyDoc(c, ty, v); d := Group(false, body, End);
    case Struct(_) => var body := BodyDoc(c, ty, v); d := Group(false, body, End);
  }

  /** The text between the brackets of a list, map or struct. */
  ghost function Body<L>(c: Codec<L>, ty: Type, v: Value<L>): string
    requires v.List? || v.Map? || v.Struct?
  {
    if v.List? then PrintElems(c, ty, v, 0) else if v.Map? then PrintEntries(c, ty, v, 0) else PrintFields(c, ty, v, 0)
  }

  lemma {:induction false} BodyDoc<L>(c: Codec<L>, ty: Type, v: Value<L>) returns (d: Doc)
    requires Printable(c, ty, v) && TypeOK(ty) && (v.List? || v.Map? || v.Struct?)
    ensures Render(d) == Body(c, ty, v) && Clean(d)
    decreases v, 1, 0
  {
    match v
    case List(_) => d := ElemsDoc(c, ty, v, 0);
    case Map(_) => d := EntriesDoc(c, ty, v, 0);
    case Struct(_) => d := FieldsDoc(c, ty, v, 0);
  }

  lemma {:induction false} ElemsDoc<L>(c: Codec<L>, ty: Type, v: Value<L>, k: nat) returns (d: Doc)
    requires v.List? && k <= |v.elems| && Printable(c, ty, v) && TypeOK(ty)
    ensures Render(d) == PrintElems(c, ty, v, k) && Clean(d)
    decreases v, 0, |v.elems| - k
  {
    if k == |v.elems| {
      d := End;
    } else {
      d := ValueDoc(c, ty.elem, v.elems[k]);
      if k + 1 < |v.elems| {
        var rest := ElemsDoc(c, ty, v, k + 1);
        RenderCat(d, Plain(',', rest));
        d := Cat(d, Plain(',', rest));
      }
    }
  }

  lemma {:induction false} EntriesDoc<L>(c: Codec<L>, ty: Type, v: Value<L>, k: nat) returns (d: Doc)
    requires v.Map? && k <= |v.entries| && Printable(c, ty, v) && TypeOK(ty)
    ensures Render(d) == PrintEntries(c, ty, v, k) && Clean(d)
    decreases v, 0, |v.entries| - k
  {
    if k == |v.entries| {
      d := End;
    } else {
      var key := ValueDoc(c, ty.key, v.entries[k].key);
      var val := ValueDoc(c, ty.val, v.entries[k].val);
      var rest := End;
      if k + 1 < |v.entries| {
        rest := EntriesDoc(c, ty, v, k + 1);
        rest := SeparatorDoc(", ", rest);
      }
      d := JoinDoc(key, "=", val, rest);
    }
  }

  lemma {:induction false} FieldsDoc<L>(c: Codec<L>, ty: Type, v: Value<L>, k: nat) returns (d: Doc)
    requires v.Struct? && k <= |v.vals| && Printable(c, ty, v) && TypeOK(ty)
    ensures Render(d) == PrintFields(c, ty, v, k) && Clean(d)
    decreases v, 0, |v.vals| - k
  {
    if k == |v.vals| {
      d := End;
    } else {
      var name := PlainDoc(ty.fields[k].name);
      var val := ValueDoc(c, ty.fields[k].ty, v.vals[k]);
      var rest := End;
      if k + 1 < |v.vals| {
        rest := FieldsDoc(c, ty, v, k + 1);
        rest := SeparatorDoc(", ", rest);
      }
      d := JoinDoc(name, ": ", val, rest);
    }
  }

  lemma SeparatorDoc(sep: string, rest: Doc) returns (d: Doc)
    requires Clean(rest) && forall k :: 0 <= k < |sep| ==> !Special(sep[k])
    ensures Render(d) == sep + Render(rest) && Clean(d)
  {
    d := PlainDoc(sep);
    RenderCat(d, rest);
    d := Cat(d, rest);
  }

  lemma Reassociate(a: string, b: string, c: string, d: string)
    ensures a + b + c + d == a + (b + (c + d))
  {
  }

  lemma JoinDoc(a: Doc, sep: string, b: Doc, rest: Doc) returns (d: Doc)
    requires Clean(a) && Clean(b) && Clean(rest) && forall k :: 0 <= k < |sep| ==> !Special(sep[k])
    ensures Render(d) == Render(a) + sep + Render(b) + Render(rest) && Clean(d)
  {
    RenderCat(b, rest);
    var tail := SeparatorDoc(sep, Cat(b, rest));
    RenderCat(a, tail);
    d := Cat(a, tail);
    Reassociate(Render(a), sep, Render(b), Render(rest));
  }

  // ---------------------------------------------------------------- one value under each scanner

  /** A stretch of characters that no scanner reacts to. */
  ghost predicate WordAt(s: string, i: nat, j: nat) {
    i <= j <= |s| && forall k :: i <= k < j ==> !Special(s[k]) && s[k] != '"' && s[k] != ',' && s[k] != '='
  }

  /** Bracket skipping from an opening bracket. */
  ghost function SkipFrom(s: string, i: nat, list: bool, lvl: Level): Skip
    requires i < |s|
  {
    SkipLoop(s, i + 1, lvl, CloseChar(list))
  }

  /** A bracketed stretch that bracket skipping crosses in one go. */
  ghost predicate GroupAt(s: string, i: nat, j: nat, list: bool) {
    && i + 2 <= j <= |s| && s[i] == OpenChar(list)
    && forall lvl: Level :: SkipFrom(s, i, list, lvl) == Skip(true, j - 1, if list then Dec(lvl) else lvl)
  }

  ghost predicate ValueAt(s: string, i: nat, j: nat) {
    WordAt(s, i, j) || GroupAt(s, i, j, true) || GroupAt(s, i, j, false)
  }

  lemma DocGroup(list: bool, body: Doc, s: string, i: nat, j: nat)
    requires Clean(body) && i < |s| && s[i] == OpenChar(list) && Fits(body, s, i + 1)
    requires j == i + 2 + Size(body) && j <= |s| && s[j - 1] == CloseChar(list)
    ensures GroupAt(s, i, j, list)
  {
    forall lvl: Level
      ensures SkipFrom(s, i, list, lvl) == Skip(true, j - 1, if list then Dec(lvl) else lvl)
    {
      SkipBody(list, body, s, i, lvl);
    }
  }

  lemma GroupSkips(s: string, i: nat, j: nat, list: bool, lvl: Level)
    requires GroupAt(s, i, j, list)
    ensures SkipLoop(s, i + 1, lvl, CloseChar(list)) == Skip(true, j - 1, if list then Dec(lvl) else lvl)
  {
    assert SkipFrom(s, i, list, lvl).ok;
  }

  lemma {:induction false} ListWord(s: string, i: nat, j: nat, start: nat, seen: bool, atStart: bool, lvl: Level)
    requires WordAt(s, i, j) && start <= i && j < |s| && (s[j] == ',' || s[j] == ']')
    ensures ListLoop(s, i, start, seen, atStart, lvl) == ListLoop(s, j, start, seen, false, lvl)
    decreases j - i
  {
    if i < j {
      assert ListLoop(s, i, start, seen, atStart, lvl) == ListLoop(s, i + 1, start, seen, false, lvl);
      ListWord(s, i + 1, j, start, seen, false, lvl);
    }
  }

  /** The list loop runs over one element to the delimiter behind it. */
  lemma ListValue(s: string, i: nat, j: nat, seen: bool, lvl: Level)
    requires ValueAt(s, i, j) && j < |s| && (s[j] == ',' || s[j] == ']')
    ensures i <= j && ListLoop(s, i, i, seen, true, lvl) == ListLoop(s, j, i, seen, false, lvl)
  {
    if WordAt(s, i, j) {
      ListWord(s, i, j, i, seen, true, lvl);
    } else if GroupAt(s, i, j, true) {
      GroupSkips(s, i, j, true, Inc(lvl));
      assert Dec(Inc(lvl)) == lvl;
    } else {
      GroupSkips(s, i, j, false, 0);
    }
  }

  lemma {:induction false} PartWord(s: string, i: nat, j: nat, isKey: bool, lvl: Level)
    requires WordAt(s, i, j) && j < |s| && EndsPart(s[j], isKey)
    ensures PartEnd(s, i, isKey, lvl) == Some(j)
    decreases j - i
  {
    if i < j {
      PartWord(s, i + 1, j, isKey, lvl);
    }
  }

  /** A map key or value ends at the delimiter behind it. */
  lemma PartValue(s: string, i: nat, j: nat, isKey: bool, lvl: Level)
    requires ValueAt(s, i, j) && j < |s| && EndsPart(s[j], isKey)
    ensures PartEnd(s, i, isKey, lvl) == Some(j)
  {
    if WordAt(s, i, j) {
      PartWord(s, i, j, isKey, lvl);
    } else {
      var list := GroupAt(s, i, j, true);
      var r := SkipLoop(s, i + 1, lvl, CloseChar(list));
      GroupSkips(s, i, j, list, lvl);
      PartWord(s, j, j, isKey, r.lvl);
    }
  }

  lemma {:induction false} FieldWord(s: string, i: nat, j: nat)
    requires WordAt(s, i, j) && j < |s| && (s[j] == ',' || s[j] == '}')
    ensures ValueEnd(s, i, 0) == Some(j)
    decreases j - i
  {
    if i < j {
      FieldWord(s, i + 1, j);
    }
  }

  /** A struct field's value ends at the delimiter behind it, with the level back at 0. */
  lemma FieldValue(s: string, i: nat, j: nat)
    requires ValueAt(s, i, j) && j < |s| && (s[j] == ',' || s[j] == '}')
    ensures ValueEnd(s, i, 0) == Some(j)
  {
    if WordAt(s, i, j) {
      FieldWord(s, i, j);
    } else if GroupAt(s, i, j, true) {
      GroupSkips(s, i, j, true, 1);
      FieldWord(s, j, j);
    } else {
      GroupSkips(s, i, j, false, 0);
      FieldWord(s, j, j);
    }
  }
}
