/**
 The round-trip theorem: parsing the text of any tree gives `Readback` of the tree, and that
 is the tree itself exactly for canonical trees.
 */
module TextTheorem {
  import opened Wrappers
  import opened TextScan
  import opened TextModel
  import opened TextRoundTrip
  import opened TextJoin

  // ---------------------------------------------------------------- what comes back

  /** What the text of a tree reads back as: a list of one null comes back empty, null and
      repeated map keys are refused, everything else is unchanged. */
  function Readback<L(==)>(v: Value<L>): Parsed<L>
    decreases v, 1, 0
  {
    match v
    case Null => Ok(v)
    case Leaf(_) => Ok(v)
    case List(es) =>
      if |es| == 1 && es[0].Null? then Ok(List([])) else
      var r := ReadbackElems(v, 0);
      if r.Err? then Err(r.error) else Ok(List(r.value))
    case Map(_) =>
      var r := ReadbackEntries(v, 0, []);
      if r.Err? then Err(r.error) else Ok(Map(r.value))
    case Struct(_) =>
      var r := ReadbackFields(v, 0);
      if r.Err? then Err(r.error) else Ok(Struct(r.value))
  }

  function ReadbackElems<L(==)>(v: Value<L>, k: nat): Result<seq<Value<L>>, TextError>
    requires v.List? && k <= |v.elems|
    decreases v, 0, |v.elems| - k
  {
    if k == |v.elems| then Ok([]) else
    var x := Readback(v.elems[k]);
    if x.Err? then Err(x.error) else
    var rest := ReadbackElems(v, k + 1);
    if rest.Err? then rest else Ok([x.value] + rest.value)
  }

  function ReadbackEntries<L(==)>(v: Value<L>, k: nat, done: seq<Entry<L>>): Result<seq<Entry<L>>, TextError>
    requires v.Map? && k <= |v.entries|
    decreases v, 0, |v.entries| - k
  {
    if k == |v.entries| then Ok(done) else
    var key := Readback(v.entries[k].key);
    if key.Err? then Err(key.error)
    else if key.value.Null? then Err(NullKey)
    else if HasKey(done, key.value) then Err(DuplicateKey)
    else
      var val := Readback(v.entries[k].val);
      if val.Err? then Err(val.error) else ReadbackEntries(v, k + 1, done + [Entry(key.value, val.value)])
  }

  function ReadbackFields<L(==)>(v: Value<L>, k: nat): Result<seq<Value<L>>, TextError>
    requires v.Struct? && k <= |v.vals|
    decreases v, 0, |v.vals| - k
  {
    if k == |v.vals| then Ok([]) else
    var x := Readback(v.vals[k]);
    if x.Err? then Err(x.error) else
    var rest := ReadbackFields(v, k + 1);
    if rest.Err? then rest else Ok([x.value] + rest.value)
  }

  // ---------------------------------------------------------------- pieces of printed values

  ghost function DocOf(t: string): Doc {
    if t == "" then End else Plain(t[0], DocOf(t[1..]))
  }

  lemma {:induction false} DocOfRenders(t: string)
    ensures Render(DocOf(t)) == t
  {
    if t != "" {
      DocOfRenders(t[1..]);
    }
  }

  lemma {:induction false} DocOfEnds(t: string)
    requires t != ""
    ensures LastChar(DocOf(t)) == t[|t| - 1]
    ensures !IsSpace(t[|t| - 1]) ==> TightEnd(DocOf(t))
  {
    if |t| > 1 {
      DocOfEnds(t[1..]);
      assert DocOf(t[1..]).Plain?;
    } else {
      assert t[1..] == "";
    }
  }

  lemma {:induction false} DocOfWord(t: string)
    requires forall i :: 0 <= i < |t| ==> WordChar(t[i])
    ensures WordDoc(DocOf(t))
  {
    if t != "" {
      DocOfWord(t[1..]);
    }
  }

  lemma {:induction false} DocOfName(t: string)
    requires forall i :: 0 <= i < |t| ==> !Special(t[i]) && t[i] != ':'
    ensures NameChars(DocOf(t))
  {
    if t != "" {
      DocOfName(t[1..]);
    }
  }

  lemma LeafPiece(t: string)
    requires LeafText(t)
    ensures Piece(DocOf(t)) && Render(DocOf(t)) == t
  {
    DocOfRenders(t);
    DocOfEnds(t);
    DocOfWord(t);
  }

  lemma NamePiece(t: string)
    requires NameText(t)
    ensures NameDoc(DocOf(t)) && Render(DocOf(t)) == t
  {
    DocOfRenders(t);
    DocOfName(t);
    if t != "" {
      DocOfEnds(t);
    }
  }

  lemma ValuePiece<L>(c: Codec<L>, ty: Type, v: Value<L>) returns (d: Doc)
    requires Printable(c, ty, v) && TypeOK(ty)
    ensures Piece(d) && Render(d) == Print(c, ty, v)
  {
    match v
    case Null => d := End;
    case Leaf(x) => d := DocOf(c.show(ty.kind, x)); LeafPiece(c.show(ty.kind, x));
    case List(_) => d := GroupPiece(c, ty, v);
    case Map(_) => d := GroupPiece(c, ty, v);
    case Struct(_) => d := GroupPiece(c, ty, v);
  }

  lemma GroupPiece<L>(c: Codec<L>, ty: Type, v: Value<L>) returns (d: Doc)
    requires Printable(c, ty, v) && TypeOK(ty) && (v.List? || v.Map? || v.Struct?)
    ensures Piece(d) && Render(d) == Print(c, ty, v)
  {
    var body := BodyDoc(c, ty, v);
    d := Group(v.List?, body, End);
  }

  // ---------------------------------------------------------------- lists

  /** The pieces are the texts of the elements from an index on. */
  ghost predicate ElemTexts<L>(c: Codec<L>, ty: Type, v: Value<L>, k: nat, ds: Docs)
    requires v.List? && ty.TList? && k <= |v.elems|
    decreases |v.elems| - k
  {
    if k == |v.elems| then ds.Nil?
    else ds.Cons? && Piece(ds.head) && Render(ds.head) == Print(c, ty.elem, v.elems[k]) && ElemTexts(c, ty, v, k + 1, ds.tail)
  }

  lemma {:induction false} ElemPieces<L>(c: Codec<L>, ty: Type, v: Value<L>, k: nat) returns (ds: Docs)
    requires v.List? && k <= |v.elems| && Printable(c, ty, v) && TypeOK(ty)
    ensures ElemTexts(c, ty, v, k, ds) && AllPieces(ds)
    ensures Render(JoinList(ds)) == PrintElems(c, ty, v, k) + "]"
    decreases |v.elems| - k
  {
    hide Piece, LeafText;
    if k == |v.elems| {
      ds := Nil;
    } else {
      var d := ValuePiece(c, ty.elem, v.elems[k]);
      var rest := ElemPieces(c, ty, v, k + 1);
      ds := Cons(d, rest);
      RenderCat(d, if rest.Nil? then Plain(']', End) else Plain(',', JoinList(rest)));
    }
  }

  lemma {:induction false} ListPartsInRange(ds: Docs, s: string, i: nat)
    requires ListAt(ds, s, i)
    ensures PartsInRange(ListParts(ds, i), s)
    decreases ds
  {
    if ds.Cons? {
      ListUncons(ds, s, i);
      if ds.tail.Cons? {
        ListPartsInRange(ds.tail, s, i + Size(ds.head) + 1);
      }
    }
  }

  /** One part of a list text is parsed as the piece it is. */
  lemma ElemText(d: Doc, s: string, i: nat)
    requires Piece(d) && Fits(d, s, i)
    ensures var to := i + Size(d);
            to <= |s| && SkipWs(s[..to], i) == i && TrimRight(s, i, to) == to && s[i..to] == Render(d)
  {
    TrimTight(d, s, i);
    FitsSlice(d, s, i);
  }

  // ---------------------------------------------------------------- maps

  ghost predicate EntryTexts<L>(c: Codec<L>, ty: Type, v: Value<L>, k: nat, ks: Docs, ts: Docs)
    requires v.Map? && ty.TMap? && k <= |v.entries|
    decreases |v.entries| - k
  {
    if k == |v.entries| then ks.Nil? && ts.Nil?
    else && ks.Cons? && Piece(ks.head) && Render(ks.head) == Print(c, ty.key, v.entries[k].key)
         && ts.Cons? && Piece(ts.head) && Render(ts.head) == Print(c, ty.val, v.entries[k].val)
         && EntryTexts(c, ty, v, k + 1, ks.tail, ts.tail)
  }

  lemma RenderPair(ks: Docs, ts: Docs, sep: Doc)
    requires ks.Cons? && ts.Cons?
    ensures Render(JoinPairs(ks, ts, sep))
         == Render(ks.head) + (Render(sep) + (Render(ts.head) + Render(PairTail(ks.tail, ts.tail, sep))))
  {
    var tail := PairTail(ks.tail, ts.tail, sep);
    RenderCat(ts.head, tail);
    RenderCat(sep, Cat(ts.head, tail));
    RenderCat(ks.head, Cat(sep, Cat(ts.head, tail)));
  }

  lemma {:induction false} EntryPieces<L>(c: Codec<L>, ty: Type, v: Value<L>, k: nat) returns (ks: Docs, ts: Docs)
    requires v.Map? && k <= |v.entries| && Printable(c, ty, v) && TypeOK(ty)
    ensures EntryTexts(c, ty, v, k, ks, ts) && AllPieces(ks) && AllPieces(ts) && Length(ks) == Length(ts)
    ensures Render(JoinPairs(ks, ts, EQUALS)) == PrintEntries(c, ty, v, k) + "}"
    decreases |v.entries| - k
  {
    hide Print, PrintEntries, Render, JoinPairs, PairTail, Piece;
    EntriesText(c, ty, v, k);
    if k == |v.entries| {
      ks, ts := Nil, Nil;
      NoPairs(EQUALS);
    } else {
      var key := ValuePiece(c, ty.key, v.entries[k].key);
      var val := ValuePiece(c, ty.val, v.entries[k].val);
      ks, ts := EntryPieces(c, ty, v, k + 1);
      var more := ", " + PrintEntries(c, ty, v, k + 1);
      PairTailText(ks, ts, EQUALS, if k + 1 == |v.entries| then "" else PrintEntries(c, ty, v, k + 1));
      EqualsText();
      PairText(key, val, ks, ts, EQUALS, "=", if k + 1 == |v.entries| then "" else more);
      ks, ts := Cons(key, ks), Cons(val, ts);
    }
  }

  lemma EqualsText()
    ensures Render(EQUALS) == "="
  {
  }

  lemma EntriesText<L>(c: Codec<L>, ty: Type, v: Value<L>, k: nat)
    requires v.Map? && ty.TMap? && k <= |v.entries|
    ensures k == |v.entries| ==> PrintEntries(c, ty, v, k) == ""
    ensures k < |v.entries| ==>
              PrintEntries(c, ty, v, k) ==
              Print(c, ty.key, v.entries[k].key) + "=" + Print(c, ty.val, v.entries[k].val) +
              if k + 1 == |v.entries| then "" else ", " + PrintEntries(c, ty, v, k + 1)
  {
    hide Print;
  }

  lemma NoPairs(sep: Doc)
    ensures Render(JoinPairs(Nil, Nil, sep)) == "" + "}"
  {
  }

  lemma PairTailText(ks: Docs, ts: Docs, sep: Doc, text: string)
    requires (ks.Nil? <==> ts.Nil?) && (ks.Cons? ==> Render(JoinPairs(ks, ts, sep)) == text + "}")
    ensures Render(PairTail(ks, ts, sep)) == (if ks.Nil? then "" else ", " + text) + "}"
  {
    hide JoinPairs;
    assert ks.Cons? ==> [','] + ([' '] + (text + "}")) == ", " + text + "}";
  }

  lemma PairText(key: Doc, val: Doc, ks: Docs, ts: Docs, sep: Doc, sepText: string, tail: string)
    requires Render(sep) == sepText && (ks.Nil? <==> ts.Nil?)
    requires Render(PairTail(ks, ts, sep)) == tail + "}"
    ensures Render(JoinPairs(Cons(key, ks), Cons(val, ts), sep)) == Render(key) + sepText + Render(val) + tail + "}"
  {
    RenderPair(Cons(key, ks), Cons(val, ts), sep);
    Reassociate(Render(key), sepText, Render(val), tail + "}");
    assert Render(key) + sepText + Render(val) + tail + "}" == Render(key) + sepText + Render(val) + (tail + "}");
  }

  lemma {:induction false} SpanPartsInRange(ks: Docs, ts: Docs, s: string, i: nat)
    requires ks.Cons? ==> PairsAt(ks, ts, EQUALS, s, i)
    ensures MapPartsInRange(SpanParts(PairSpans(ks, ts, i), i), s)
    decreases ks
  {
    if ks.Cons? {
      SpanPartsInRange(ks.tail, ts.tail, s, i + Size(ks.head) + 1 + Size(ts.head) + 2);
    }
  }

  // ---------------------------------------------------------------- structs

  ghost predicate FieldTexts<L>(c: Codec<L>, ty: Type, v: Value<L>, k: nat, ks: Docs, ts: Docs)
    requires v.Struct? && ty.TStruct? && |v.vals| == |ty.fields| && k <= |v.vals|
    decreases |v.vals| - k
  {
    if k == |v.vals| then ks.Nil? && ts.Nil?
    else && ks.Cons? && NameDoc(ks.head) && Render(ks.head) == ty.fields[k].name
         && ts.Cons? && Piece(ts.head) && Render(ts.head) == Print(c, ty.fields[k].ty, v.vals[k])
         && FieldTexts(c, ty, v, k + 1, ks.tail, ts.tail)
  }

  lemma {:induction false} FieldPieces<L>(c: Codec<L>, ty: Type, v: Value<L>, k: nat) returns (ks: Docs, ts: Docs)
    requires v.Struct? && k <= |v.vals| && Printable(c, ty, v) && TypeOK(ty)
    ensures FieldTexts(c, ty, v, k, ks, ts) && Length(ks) == Length(ts)
    ensures Render(JoinPairs(ks, ts, COLON)) == PrintFields(c, ty, v, k) + "}"
    decreases |v.vals| - k
  {
    hide Print, PrintFields, Render, JoinPairs, PairTail, Piece, NameDoc;
    FieldsText(c, ty, v, k);
    if k == |v.vals| {
      ks, ts := Nil, Nil;
      NoPairs(COLON);
    } else {
      var name := DocOf(ty.fields[k].name);
      NamePiece(ty.fields[k].name);
      var val := ValuePiece(c, ty.fields[k].ty, v.vals[k]);
      ks, ts := FieldPieces(c, ty, v, k + 1);
      var more := ", " + PrintFields(c, ty, v, k + 1);
      PairTailText(ks, ts, COLON, if k + 1 == |v.vals| then "" else PrintFields(c, ty, v, k + 1));
      ColonText();
      PairText(name, val, ks, ts, COLON, ": ", if k + 1 == |v.vals| then "" else more);
      ks, ts := Cons(name, ks), Cons(val, ts);
    }
  }

  lemma ColonText()
    ensures Render(COLON) == ": "
  {
  }

  lemma FieldsText<L>(c: Codec<L>, ty: Type, v: Value<L>, k: nat)
    requires v.Struct? && ty.TStruct? && |v.vals| == |ty.fields| && k <= |v.vals|
    ensures k == |v.vals| ==> PrintFields(c, ty, v, k) == ""
    ensures k < |v.vals| ==>
              PrintFields(c, ty, v, k) ==
              ty.fields[k].name + ": " + Print(c, ty.fields[k].ty, v.vals[k]) +
              if k + 1 == |v.vals| then "" else ", " + PrintFields(c, ty, v, k + 1)
  {
    hide Print;
  }

  lemma FieldFound(fields: seq<Field>, k: nat)
    requires k < |fields|
    requires forall i, j :: 0 <= i < j < |fields| ==> UpperAll(fields[i].name) != UpperAll(fields[j].name)
    ensures FieldIdx(fields, fields[k].name) == Some(k)
  {
    var r := FieldIdx(fields, fields[k].name);
    assert UpperAll(fields[k].name) == UpperAll(fields[k].name);
  }

  // ---------------------------------------------------------------- parsing pieces

  /** Parsing the pieces of a list one by one. */
  ghost function ParseDocs<L>(c: Codec<L>, ty: Type, ds: Docs): Result<seq<Value<L>>, TextError>
    requires ty.TList?
  {
    if ds.Nil? then Ok([]) else
    var x := Parse(c, ty.elem, Render(ds.head));
    if x.Err? then Err(x.error) else
    var rest := ParseDocs(c, ty, ds.tail);
    if rest.Err? then rest else Ok([x.value] + rest.value)
  }

  lemma ParseElemsStep<L>(c: Codec<L>, ty: Type, s: string, parts: seq<Part>, d: Doc)
    requires ty.TList? && PartsInRange(parts, s) && parts != [] && Piece(d) && Fits(d, s, parts[0].from)
    requires parts[0].to == parts[0].from + Size(d)
    ensures ParseElems(c, ty, s, parts) ==
              var x := Parse(c, ty.elem, Render(d));
              if x.Err? then Err(x.error) else
              var rest := ParseElems(c, ty, s, parts[1..]);
              if rest.Err? then rest else Ok([x.value] + rest.value)
  {
    hide Fits, Size, Render, Piece, SplitList, IsNullText;
    ElemText(d, s, parts[0].from);
  }

  lemma {:induction false} ParseListDocs<L>(c: Codec<L>, ty: Type, ds: Docs, s: string, i: nat)
    requires ty.TList? && AllPieces(ds) && (ds.Cons? ==> ListAt(ds, s, i)) && PartsInRange(ListParts(ds, i), s)
    ensures ParseElems(c, ty, s, ListParts(ds, i)) == ParseDocs(c, ty, ds)
    decreases ds
  {
    hide Fits, Piece, Parse, Render;
    if ds.Cons? {
      var parts, rest := ListParts(ds, i), ListParts(ds.tail, i + Size(ds.head) + 1);
      assert parts[1..] == rest;
      ListUncons(ds, s, i);
      ParseElemsStep(c, ty, s, parts, ds.head);
      ParseListDocs(c, ty, ds.tail, s, i + Size(ds.head) + 1);
    }
  }

  lemma ParseListUnfold<L>(c: Codec<L>, ty: Type, s: string, parts: seq<Part>)
    requires ty.TList? && !IsNullText(s) && SplitList(s) == ListSplit(true, parts)
    ensures PartsInRange(parts, s)
    ensures Parse(c, ty, s) == match ParseElems(c, ty, s, parts) { case Ok(es) => Ok(List(es)) case Err(e) => Err(e) }
  {
    SplitListInRange(s);
  }

  /** A list text is parsed piece by piece, unless it is empty or holds one empty piece. */
  lemma ParseListText<L>(c: Codec<L>, ty: Type, ds: Docs, s: string)
    requires ty.TList? && AllPieces(ds) && !IsNullText(s)
    requires Fits(Plain('[', JoinList(ds)), s, 0) && 1 + Size(JoinList(ds)) == |s|
    ensures Parse(c, ty, s) ==
              if ds.Nil? || (ds.tail.Nil? && Size(ds.head) == 0) then Ok(List([]))
              else match ParseDocs(c, ty, ds) { case Ok(es) => Ok(List(es)) case Err(e) => Err(e) }
  {
    SplitJoinedList(ds, s);
    if ds.Nil? || (ds.tail.Nil? && Size(ds.head) == 0) {
      ParseListUnfold(c, ty, s, []);
    } else {
      ParseListUnfold(c, ty, s, ListParts(ds, 1));
      ParseListDocs(c, ty, ds, s, 1);
    }
  }

  /** Parsing the keys and values of a map one by one. */
  ghost function ParsePairs<L>(c: Codec<L>, ty: Type, ks: Docs, ts: Docs, done: seq<Entry<L>>): Result<seq<Entry<L>>, TextError>
    requires ty.TMap?
    decreases ks
  {
    if ks.Nil? || ts.Nil? then Ok(done) else
    var key := Parse(c, ty.key, Render(ks.head));
    if key.Err? then Err(key.error)
    else if key.value.Null? then Err(NullKey)
    else if HasKey(done, key.value) then Err(DuplicateKey)
    else
      var val := Parse(c, ty.val, Render(ts.head));
      if val.Err? then Err(val.error)
      else ParsePairs(c, ty, ks.tail, ts.tail, done + [Entry(key.value, val.value)])
  }

  lemma ParseKeyStep<L>(c: Codec<L>, ty: Type, s: string, parts: seq<MapPart>, d: Doc, done: seq<Entry<L>>, key: Value<L>)
    requires ty.TMap? && MapPartsInRange(parts, s) && parts != [] && parts[0].KeyPart?
    requires Piece(d) && Fits(d, s, parts[0].from) && parts[0].to == parts[0].from + Size(d)
    ensures ParseEntries(c, ty, s, parts, done, key) ==
              var k := Parse(c, ty.key, Render(d));
              if k.Err? then Err(k.error)
              else if k.value.Null? then Err(NullKey)
              else if HasKey(done, k.value) then Err(DuplicateKey)
              else ParseEntries(c, ty, s, parts[1..], done, k.value)
  {
    hide Fits, Size, Render, Piece, HasKey;
    ElemText(d, s, parts[0].from);
  }

  lemma ParseValueStep<L>(c: Codec<L>, ty: Type, s: string, parts: seq<MapPart>, d: Doc, done: seq<Entry<L>>, key: Value<L>)
    requires ty.TMap? && MapPartsInRange(parts, s) && parts != [] && parts[0].ValuePart?
    requires Piece(d) && Fits(d, s, parts[0].from) && parts[0].to == parts[0].from + Size(d)
    ensures ParseEntries(c, ty, s, parts, done, key) ==
              var v := Parse(c, ty.val, Render(d));
              if v.Err? then Err(v.error) else ParseEntries(c, ty, s, parts[1..], done + [Entry(key, v.value)], key)
  {
    hide Fits, Size, Render, Piece, HasKey;
    ElemText(d, s, parts[0].from);
  }

  lemma SpanPartsCons(ks: Docs, ts: Docs, s: string, i: nat)
    requires PairsAt(ks, ts, EQUALS, s, i)
    ensures ks.Cons? && ts.Cons?
    ensures var j := i + Size(ks.head);
            var e := j + 1 + Size(ts.head);
            var parts := SpanParts(PairSpans(ks, ts, i), i);
            && |parts| >= 2 && parts[0] == KeyPart(i, j) && parts[1..][0] == ValuePart(j + 1, e)
            && parts[1..][1..] == SpanParts(PairSpans(ks.tail, ts.tail, e + 2), e + 2)
            && Fits(ks.head, s, i) && Fits(ts.head, s, j + 1)
            && (if ks.tail.Cons? then PairsAt(ks.tail, ts.tail, EQUALS, s, e + 2) else ts.tail.Nil?)
  {
    EqualsFits(s, i + Size(ks.head));
  }

  lemma {:induction false} ParseMapDocs<L>(c: Codec<L>, ty: Type, ks: Docs, ts: Docs, s: string, i: nat,
                                           done: seq<Entry<L>>, key: Value<L>)
    requires ty.TMap? && AllPieces(ks) && AllPieces(ts)
    requires if ks.Cons? then PairsAt(ks, ts, EQUALS, s, i) else ts.Nil?
    requires MapPartsInRange(SpanParts(PairSpans(ks, ts, i), i), s)
    ensures ParseEntries(c, ty, s, SpanParts(PairSpans(ks, ts, i), i), done, key) == ParsePairs(c, ty, ks, ts, done)
    decreases ks
  {
    hide Fits, Piece, Parse, Render, HasKey, SpanParts, PairSpans, Size, ParseEntries, PairsAt;
    if ks.Nil? {
      NoSpans(c, ty, s, i, done, key);
    } else {
      SpanPartsCons(ks, ts, s, i);
      var e := i + Size(ks.head) + 1 + Size(ts.head);
      var parts := SpanParts(PairSpans(ks, ts, i), i);
      ParseKeyStep(c, ty, s, parts, ks.head, done, key);
      var k := Parse(c, ty.key, Render(ks.head));
      if k.Ok? {
        ParseValueStep(c, ty, s, parts[1..], ts.head, done, k.value);
        var x := Parse(c, ty.val, Render(ts.head));
        if x.Ok? {
          ParseMapDocs(c, ty, ks.tail, ts.tail, s, e + 2, done + [Entry(k.value, x.value)], k.value);
        }
      }
    }
  }

  lemma NoSpans<L>(c: Codec<L>, ty: Type, s: string, i: nat, done: seq<Entry<L>>, key: Value<L>)
    requires ty.TMap?
    ensures MapPartsInRange(SpanParts(PairSpans(Nil, Nil, i), i), s)
    ensures ParseEntries(c, ty, s, SpanParts(PairSpans(Nil, Nil, i), i), done, key) == Ok(done)
  {
    hide Parse;
  }

  lemma ParseMapUnfold<L>(c: Codec<L>, ty: Type, s: string, parts: seq<MapPart>)
    requires ty.TMap? && !IsNullText(s) && SplitMap(s) == MapSplit(true, parts)
    ensures MapPartsInRange(parts, s)
    ensures Parse(c, ty, s) == match ParseEntries(c, ty, s, parts, [], Null) { case Ok(es) => Ok(Map(es)) case Err(e) => Err(e) }
  {
    SplitMapInRange(s);
  }

  /** A map text is parsed key by key and value by value. */
  lemma ParseMapText<L>(c: Codec<L>, ty: Type, ks: Docs, ts: Docs, s: string)
    requires ty.TMap? && AllPieces(ks) && AllPieces(ts) && Length(ks) == Length(ts) && !IsNullText(s)
    requires Fits(Plain('{', JoinPairs(ks, ts, EQUALS)), s, 0) && 1 + Size(JoinPairs(ks, ts, EQUALS)) == |s|
    ensures Parse(c, ty, s) == match ParsePairs(c, ty, ks, ts, []) { case Ok(es) => Ok(Map(es)) case Err(e) => Err(e) }
  {
    SplitJoinedMap(ks, ts, s);
    ParseMapUnfold(c, ty, s, SpanParts(PairSpans(ks, ts, 1), 1));
    ParseMapDocs(c, ty, ks, ts, s, 1, [], Null);
  }

  ghost predicate AllNames(ds: Docs) {
    ds.Nil? || (NameDoc(ds.head) && AllNames(ds.tail))
  }

  ghost function StoreNamed<L>(c: Codec<L>, ty: Type, name: string, text: string, vals: seq<Value<L>>)
    : (r: Result<seq<Value<L>>, TextError>)
    requires ty.TStruct? && |vals| == |ty.fields|
    ensures r.Ok? ==> |r.value| == |vals|
  {
    var idx := FieldIdx(ty.fields, name);
    if idx.None? then Err(BadFieldName) else
    var x := Parse(c, ty.fields[idx.value].ty, text);
    if x.Err? then Err(x.error) else Ok(vals[idx.value := x.value])
  }

  /** Parsing the named values of a struct one by one. */
  ghost function ParseNamed<L>(c: Codec<L>, ty: Type, ks: Docs, ts: Docs, vals: seq<Value<L>>): Parsed<L>
    requires ty.TStruct? && |vals| == |ty.fields|
    decreases ks
  {
    if ks.Nil? || ts.Nil? then Ok(Struct(vals)) else
    var stored := StoreNamed(c, ty, Render(ks.head), Render(ts.head), vals);
    if stored.Err? then Err(stored.error) else ParseNamed(c, ty, ks.tail, ts.tail, stored.value)
  }

  lemma FieldSolid(ks: Docs, ts: Docs, s: string, i: nat)
    requires PairsAt(ks, ts, COLON, s, i) && NameDoc(ks.head)
    ensures i < |s| && !IsSpace(s[i]) && s[i] != '}'
  {
    PieceSolid(ks.head, s, i);
  }

  lemma ValueScanned(d: Doc, s: string, j: nat)
    requires Piece(d) && Fits(d, s, j) && 0 < j && j + Size(d) < |s| && (s[j + Size(d)] == ',' || s[j + Size(d)] == '}')
    ensures ScanFieldValue(s, j) == Some(FieldText(Render(d), j + Size(d)))
  {
    ValueTrims(d, s, j);
    FitsSlice(d, s, j);
  }

  lemma ColonFits(s: string, j: nat)
    requires Fits(COLON, s, j)
    ensures Size(COLON) == 2 && j + 1 < |s| && s[j] == ':' && s[j + 1] == ' '
  {
    assert Fits(Plain(' ', End), s, j + 1);
  }

  /** What one round of the struct loop scans. */
  lemma FieldScanned(ks: Docs, ts: Docs, s: string, i: nat)
    requires PairsAt(ks, ts, COLON, s, i) && NameDoc(ks.head) && Piece(ts.head) && 0 < i
    ensures i < |s|
    ensures ScanField(s, i) == Named(Render(ks.head), Some(FieldText(Render(ts.head), i + Size(ks.head) + 2 + Size(ts.head))))
  {
    hide ScanField, ScanFieldValue, Fits, Render, Size;
    var j := i + Size(ks.head);
    ColonFits(s, j);
    PieceSolid(ts.head, s, j + 2);
    ValueScanned(ts.head, s, j + 2);
    NameScanned(ks.head, s, i);
  }

  lemma NameScanned(d: Doc, s: string, i: nat)
    requires NameDoc(d) && Fits(d, s, i) && 0 < i && i + Size(d) + 2 < |s|
    requires s[i + Size(d)] == ':' && s[i + Size(d) + 1] == ' ' && !IsSpace(s[i + Size(d) + 2])
    ensures ScanField(s, i) == Named(Render(d), ScanFieldValue(s, i + Size(d) + 2))
  {
    NameTrims(d, s, i);
    FitsSlice(d, s, i);
    SkipOne(s, i + Size(d) + 1);
  }

  /** Parsing the named values of a struct one by one; the text ends behind the last. */
  lemma StoreStep<L>(c: Codec<L>, ty: Type, s: string, vals: seq<Value<L>>, name: string, text: string, e: nat)
    requires ty.TStruct? && |vals| == |ty.fields| && e < |s|
    ensures StoreField(c, ty, s, Named(name, Some(FieldText(text, e))), vals) ==
              match StoreNamed(c, ty, name, text, vals) {
                case Err(error) => Stop(Err(error))
                case Ok(vals') =>
                  if s[e] != '}' then Continue(SkipWs(s, e + 1), vals')
                  else if SkipWs(s, e + 1) == |s| then Stop(Ok(Struct(vals')))
                  else Stop(Err(NotInRange))
              }
  {
  }

  lemma {:induction false} ParseStructDocs<L>(c: Codec<L>, ty: Type, ks: Docs, ts: Docs, s: string, i: nat, vals: seq<Value<L>>)
    requires ty.TStruct? && |vals| == |ty.fields| && 0 < i
    requires PairsAt(ks, ts, COLON, s, i) && AllNames(ks) && AllPieces(ts)
    ensures ParseFields(c, ty, s, i, vals) == ParseNamed(c, ty, ks, ts, vals)
    decreases ks
  {
    hide ScanField, StoreField, StoreNamed, Fits, Size, SkipWs, IsSpace, NameDoc, Piece;
    var e := i + Size(ks.head) + 2 + Size(ts.head);
    ColonFits(s, i + Size(ks.head));
    FieldScanned(ks, ts, s, i);
    StoreStep(c, ty, s, vals, Render(ks.head), Render(ts.head), e);
    if ks.tail.Nil? {
      SkipNothing(s, e + 1);
    } else {
      FieldSolid(ks.tail, ts.tail, s, e + 2);
      SkipOne(s, e + 1);
      var stored := StoreNamed(c, ty, Render(ks.head), Render(ts.head), vals);
      if stored.Ok? {
        ParseStructDocs(c, ty, ks.tail, ts.tail, s, e + 2, stored.value);
      }
    }
  }

  /** The opening of a struct text, and its fields. */
  lemma ParseStructText<L>(c: Codec<L>, ty: Type, ks: Docs, ts: Docs, s: string)
    requires ty.TStruct? && Length(ks) == Length(ts) && AllNames(ks) && AllPieces(ts)
    requires Fits(Plain('{', JoinPairs(ks, ts, COLON)), s, 0) && 1 + Size(JoinPairs(ks, ts, COLON)) == |s|
    requires !IsNullText(s)
    ensures Parse(c, ty, s) == ParseNamed(c, ty, ks, ts, seq(|ty.fields|, _ => Null))
  {
    var blank: seq<Value<L>> := seq(|ty.fields|, _ => Null);
    if ks.Cons? {
      JoinPairsAt(ks, ts, COLON, s, 1);
      FieldSolid(ks, ts, s, 1);
      ParseStructDocs(c, ty, ks, ts, s, 1, blank);
    }
    StructOpens(c, ty, s);
  }

  lemma StructOpens<L>(c: Codec<L>, ty: Type, s: string)
    requires ty.TStruct? && !IsNullText(s) && |s| > 1 && s[0] == '{' && !IsSpace(s[1])
    ensures var blank: seq<Value<L>> := seq(|ty.fields|, _ => Null);
            Parse(c, ty, s) == if s[1] == '}' then (if SkipWs(s, 2) == |s| then Ok(Struct(blank)) else Err(NotInRange))
                               else ParseFields(c, ty, s, 1, blank)
  {
    SkipNothing(s, 0);
    SkipNothing(s, 1);
  }

  // ---------------------------------------------------------------- the theorem

  /** Parsing the text of a tree at its type gives `Readback` of the tree, for every tree. */
  lemma {:induction false} ParsePrinted<L>(c: Codec<L>, ty: Type, v: Value<L>)
    requires Printable(c, ty, v) && TypeOK(ty)
    ensures Parse(c, ty, Print(c, ty, v)) == Readback(v)
    decreases v, 2, 0
  {
    PrintEdges(c, ty, v);
    match v
    case Null =>
    case Leaf(_) =>
    case List(_) => ParsePrintedList(c, ty, v);
    case Map(_) => ParsePrintedMap(c, ty, v);
    case Struct(_) => ParsePrintedStruct(c, ty, v);
  }

  lemma {:induction false} ParsePrintedList<L>(c: Codec<L>, ty: Type, v: Value<L>)
    requires v.List? && Printable(c, ty, v) && TypeOK(ty)
    ensures Parse(c, ty, Print(c, ty, v)) == Readback(v)
    decreases v, 1, 0
  {
    var s := Print(c, ty, v);
    PrintEdges(c, ty, v);
    var ds := ElemPieces(c, ty, v, 0);
    TopFits('[', JoinList(ds), PrintElems(c, ty, v, 0) + "]", s);
    ParseListText(c, ty, ds, s);
    ListEnds(c, ty, v, ds);
    ReadElems(c, ty, v, 0, ds);
  }

  /** The text that starts with an opening bracket fits its structure. */
  lemma TopFits(open: char, body: Doc, text: string, s: string)
    requires Render(body) == text && s == [open] + text
    ensures Fits(Plain(open, body), s, 0) && 1 + Size(body) == |s|
  {
    AtSlice(s, 0, s);
    RenderFits(Plain(open, body), s, 0);
    RenderSize(body);
  }

  /** Which lists have no elements or one empty one. */
  lemma ListEnds<L>(c: Codec<L>, ty: Type, v: Value<L>, ds: Docs)
    requires v.List? && Printable(c, ty, v) && ElemTexts(c, ty, v, 0, ds)
    ensures ds.Nil? <==> v.elems == []
    ensures ds.Cons? && ds.tail.Nil? && Size(ds.head) == 0 <==> |v.elems| == 1 && v.elems[0].Null?
  {
    if ds.Cons? {
      RenderSize(ds.head);
      PrintEdges(c, ty.elem, v.elems[0]);
      assert ElemTexts(c, ty, v, 1, ds.tail);
    }
  }

  lemma {:induction false} ReadElems<L>(c: Codec<L>, ty: Type, v: Value<L>, k: nat, ds: Docs)
    requires v.List? && k <= |v.elems| && Printable(c, ty, v) && TypeOK(ty) && ElemTexts(c, ty, v, k, ds)
    ensures ParseDocs(c, ty, ds) == ReadbackElems(v, k)
    decreases v, 0, |v.elems| - k
  {
    if k < |v.elems| {
      ParsePrinted(c, ty.elem, v.elems[k]);
      ReadElems(c, ty, v, k + 1, ds.tail);
    }
  }

  lemma {:induction false} ParsePrintedMap<L>(c: Codec<L>, ty: Type, v: Value<L>)
    requires v.Map? && Printable(c, ty, v) && TypeOK(ty)
    ensures Parse(c, ty, Print(c, ty, v)) == Readback(v)
    decreases v, 1, 0
  {
    var s := Print(c, ty, v);
    PrintEdges(c, ty, v);
    var ks, ts := EntryPieces(c, ty, v, 0);
    TopFits('{', JoinPairs(ks, ts, EQUALS), PrintEntries(c, ty, v, 0) + "}", s);
    ParseMapText(c, ty, ks, ts, s);
    ReadEntries(c, ty, v, 0, ks, ts, []);
  }

  lemma {:induction false} ReadEntries<L>(c: Codec<L>, ty: Type, v: Value<L>, k: nat, ks: Docs, ts: Docs, done: seq<Entry<L>>)
    requires v.Map? && k <= |v.entries| && Printable(c, ty, v) && TypeOK(ty) && EntryTexts(c, ty, v, k, ks, ts)
    ensures ParsePairs(c, ty, ks, ts, done) == ReadbackEntries(v, k, done)
    decreases v, 0, |v.entries| - k
  {
    hide Parse, Print, Piece, HasKey;
    if k < |v.entries| {
      ParsePrinted(c, ty.key, v.entries[k].key);
      ParsePrinted(c, ty.val, v.entries[k].val);
      var key, val := Readback(v.entries[k].key), Readback(v.entries[k].val);
      if key.Ok? && val.Ok? {
        ReadEntries(c, ty, v, k + 1, ks.tail, ts.tail, done + [Entry(key.value, val.value)]);
      }
    }
  }

  lemma {:induction false} ParsePrintedStruct<L>(c: Codec<L>, ty: Type, v: Value<L>)
    requires v.Struct? && Printable(c, ty, v) && TypeOK(ty)
    ensures Parse(c, ty, Print(c, ty, v)) == Readback(v)
    decreases v, 1, 0
  {
    var s := Print(c, ty, v);
    PrintEdges(c, ty, v);
    var ks, ts := FieldPieces(c, ty, v, 0);
    TopFits('{', JoinPairs(ks, ts, COLON), PrintFields(c, ty, v, 0) + "}", s);
    FieldTextsOK(c, ty, v, 0, ks, ts);
    ParseStructText(c, ty, ks, ts, s);
    StructReads(c, ty, v, ks, ts);
  }

  lemma {:induction false} StructReads<L>(c: Codec<L>, ty: Type, v: Value<L>, ks: Docs, ts: Docs)
    requires v.Struct? && Printable(c, ty, v) && TypeOK(ty) && FieldTexts(c, ty, v, 0, ks, ts)
    ensures ParseNamed(c, ty, ks, ts, seq(|ty.fields|, _ => Null)) == Readback(v)
    decreases v, 0, |v.vals| + 1
  {
    var blank: seq<Value<L>> := seq(|ty.fields|, _ => Null);
    ReadFields(c, ty, v, 0, ks, ts, blank);
    var r := ReadbackFields(v, 0);
    if r.Ok? {
      assert blank[..0] + r.value == r.value;
    }
  }

  lemma {:induction false} FieldTextsOK<L>(c: Codec<L>, ty: Type, v: Value<L>, k: nat, ks: Docs, ts: Docs)
    requires v.Struct? && ty.TStruct? && |v.vals| == |ty.fields| && k <= |v.vals| && FieldTexts(c, ty, v, k, ks, ts)
    ensures AllNames(ks) && AllPieces(ts) && Length(ks) == Length(ts)
    decreases |v.vals| - k
  {
    if k < |v.vals| {
      FieldTextsOK(c, ty, v, k + 1, ks.tail, ts.tail);
    }
  }

  lemma {:induction false} ReadFields<L>(c: Codec<L>, ty: Type, v: Value<L>, k: nat, ks: Docs, ts: Docs, vals: seq<Value<L>>)
    requires v.Struct? && k <= |v.vals| && Printable(c, ty, v) && TypeOK(ty) && |vals| == |ty.fields|
    requires FieldTexts(c, ty, v, k, ks, ts)
    ensures ParseNamed(c, ty, ks, ts, vals) == Filled(vals, k, ReadbackFields(v, k))
    decreases v, 0, |v.vals| - k
  {
    if k == |v.vals| {
      assert vals[..k] + [] == vals;
    } else {
      ReadField(c, ty, v, k, ks, ts, vals);
      var x := Readback(v.vals[k]);
      if x.Ok? {
        ReadFields(c, ty, v, k + 1, ks.tail, ts.tail, vals[k := x.value]);
        FilledStep(vals, k, x.value, ReadbackFields(v, k + 1));
      }
    }
  }

  /** The struct whose fields from an index on are those given. */
  ghost function Filled<L>(vals: seq<Value<L>>, k: nat, rest: Result<seq<Value<L>>, TextError>): Parsed<L>
    requires k <= |vals|
  {
    match rest
    case Ok(r) => Ok(Struct(vals[..k] + r))
    case Err(e) => Err(e)
  }

  lemma FilledStep<L>(vals: seq<Value<L>>, k: nat, x: Value<L>, rest: Result<seq<Value<L>>, TextError>)
    requires k < |vals|
    ensures Filled(vals[k := x], k + 1, rest)
         == Filled(vals, k, if rest.Err? then rest else Ok([x] + rest.value))
  {
    if rest.Ok? {
      assert vals[k := x][..k + 1] + rest.value == vals[..k] + ([x] + rest.value);
    }
  }

  lemma {:induction false} ReadField<L>(c: Codec<L>, ty: Type, v: Value<L>, k: nat, ks: Docs, ts: Docs, vals: seq<Value<L>>)
    requires v.Struct? && k < |v.vals| && Printable(c, ty, v) && TypeOK(ty) && |vals| == |ty.fields|
    requires FieldTexts(c, ty, v, k, ks, ts)
    ensures StoreNamed(c, ty, Render(ks.head), Render(ts.head), vals)
         == match Readback(v.vals[k]) { case Ok(x) => Ok(vals[k := x]) case Err(e) => Err(e) }
    decreases v, 0, 0
  {
    FieldFound(ty.fields, k);
    ParsePrinted(c, ty.fields[k].ty, v.vals[k]);
  }

  // ---------------------------------------------------------------- exactly which trees come back

  /** Trees without a list of one null, a null map key or a repeated map key. */
  ghost predicate Canonical<L>(v: Value<L>)
    decreases v, 1, 0
  {
    match v
    case Null => true
    case Leaf(_) => true
    case List(es) => !(|es| == 1 && es[0].Null?) && CanonicalElems(v, 0)
    case Map(_) => CanonicalEntries(v, 0)
    case Struct(_) => CanonicalFields(v, 0)
  }

  ghost predicate CanonicalElems<L>(v: Value<L>, k: nat)
    requires v.List? && k <= |v.elems|
    decreases v, 0, |v.elems| - k
  {
    k == |v.elems| || (Canonical(v.elems[k]) && CanonicalElems(v, k + 1))
  }

  ghost predicate CanonicalEntries<L>(v: Value<L>, k: nat)
    requires v.Map? && k <= |v.entries|
    decreases v, 0, |v.entries| - k
  {
    k == |v.entries| ||
    (!v.entries[k].key.Null? && !HasKey(v.entries[..k], v.entries[k].key) &&
     Canonical(v.entries[k].key) && Canonical(v.entries[k].val) && CanonicalEntries(v, k + 1))
  }

  ghost predicate CanonicalFields<L>(v: Value<L>, k: nat)
    requires v.Struct? && k <= |v.vals|
    decreases v, 0, |v.vals| - k
  {
    k == |v.vals| || (Canonical(v.vals[k]) && CanonicalFields(v, k + 1))
  }

  lemma {:induction false} ReadbackExactly<L>(v: Value<L>)
    ensures Readback(v) == Ok(v) <==> Canonical(v)
    decreases v, 1, 0
  {
    match v
    case Null =>
    case Leaf(_) =>
    case List(es) =>
      ReadbackElemsExactly(v, 0);
      assert es[0..] == es;
    case Map(es) =>
      ReadbackEntriesExactly(v, 0, []);
      assert es[..0] == [];
    case Struct(vs) =>
      ReadbackFieldsExactly(v, 0);
      assert vs[0..] == vs;
  }

  lemma {:induction false} ReadbackElemsExactly<L>(v: Value<L>, k: nat)
    requires v.List? && k <= |v.elems|
    ensures ReadbackElems(v, k) == Ok(v.elems[k..]) <==> CanonicalElems(v, k)
    decreases v, 0, |v.elems| - k
  {
    if k == |v.elems| {
      assert v.elems[k..] == [];
    } else {
      assert v.elems[k..] == [v.elems[k]] + v.elems[k + 1..];
      ReadbackExactly(v.elems[k]);
      ReadbackElemsExactly(v, k + 1);
      var x, rest := Readback(v.elems[k]), ReadbackElems(v, k + 1);
      if x.Ok? && rest.Ok? {
        ConsExactly(v.elems, k, x.value, rest.value);
      }
    }
  }

  lemma {:induction false} ReadbackFieldsExactly<L>(v: Value<L>, k: nat)
    requires v.Struct? && k <= |v.vals|
    ensures ReadbackFields(v, k) == Ok(v.vals[k..]) <==> CanonicalFields(v, k)
    decreases v, 0, |v.vals| - k
  {
    if k == |v.vals| {
      assert v.vals[k..] == [];
    } else {
      assert v.vals[k..] == [v.vals[k]] + v.vals[k + 1..];
      ReadbackExactly(v.vals[k]);
      ReadbackFieldsExactly(v, k + 1);
      var x, rest := Readback(v.vals[k]), ReadbackFields(v, k + 1);
      if x.Ok? && rest.Ok? {
        ConsExactly(v.vals, k, x.value, rest.value);
      }
    }
  }

  /** What was read before stays in front. */
  lemma {:induction false} ReadbackEntriesExtend<L>(v: Value<L>, k: nat, done: seq<Entry<L>>)
    requires v.Map? && k <= |v.entries|
    ensures var r := ReadbackEntries(v, k, done); r.Ok? ==> done <= r.value
    decreases v, 0, |v.entries| - k
  {
    if k < |v.entries| {
      var key, val := Readback(v.entries[k].key), Readback(v.entries[k].val);
      if key.Ok? && val.Ok? {
        ReadbackEntriesExtend(v, k + 1, done + [Entry(key.value, val.value)]);
      }
    }
  }

  lemma {:induction false} ReadbackEntriesExactly<L>(v: Value<L>, k: nat, done: seq<Entry<L>>)
    requires v.Map? && k <= |v.entries| && |done| == k
    ensures ReadbackEntries(v, k, done) == Ok(v.entries) <==> done == v.entries[..k] && CanonicalEntries(v, k)
    decreases v, 0, |v.entries| - k
  {
    ReadbackEntriesExtend(v, k, done);
    assert done <= v.entries <==> done == v.entries[..k];
    if k == |v.entries| {
      assert v.entries[..k] == v.entries;
    } else if done == v.entries[..k] {
      var e := v.entries[k];
      ReadbackExactly(e.key);
      ReadbackExactly(e.val);
      var key, val := Readback(e.key), Readback(e.val);
      if key.Ok? && val.Ok? {
        var next := done + [Entry(key.value, val.value)];
        ReadbackEntriesExactly(v, k + 1, next);
        assert next == v.entries[..k + 1] <==> Entry(key.value, val.value) == e;
      }
    }
  }

  /** A suffix is rebuilt exactly when its head and its tail are. */
  lemma ConsExactly<L>(xs: seq<Value<L>>, k: nat, x: Value<L>, rest: seq<Value<L>>)
    requires k < |xs|
    ensures [x] + rest == xs[k..] <==> x == xs[k] && rest == xs[k + 1..]
  {
    assert xs[k..] == [xs[k]] + xs[k + 1..];
    assert ([x] + rest)[0] == x && ([x] + rest)[1..] == rest;
  }

  /** Printing and parsing is the identity exactly on canonical trees. */
  lemma {:induction false} RoundTripExactly<L>(c: Codec<L>, ty: Type, v: Value<L>)
    requires Printable(c, ty, v) && TypeOK(ty)
    ensures Parse(c, ty, Print(c, ty, v)) == Ok(v) <==> Canonical(v)
  {
    ParsePrinted(c, ty, v);
    ReadbackExactly(v);
  }
}
