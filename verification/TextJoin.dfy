/**
 The scanners on texts joined from pieces: a printed list, map or struct is split exactly at
 the pieces it was joined from.
 */
module TextJoin {
  import opened Wrappers
  import opened TextScan
  import opened TextRoundTrip

  // ---------------------------------------------------------------- pieces

  ghost predicate WordChar(c: char) {
    !Special(c) && c != '"' && c != ',' && c != '='
  }

  ghost predicate WordDoc(d: Doc) {
    match d
    case End => true
    case Plain(c, rest) => WordChar(c) && WordDoc(rest)
    case Group(_, _, _) => false
  }

  /** Neither end of the text is blank. */
  ghost predicate Tight(d: Doc) {
    match d
    case End => true
    case Plain(c, rest) => !IsSpace(c) && TightEnd(d)
    case Group(_, _, rest) => TightEnd(rest)
  }

  ghost predicate TightEnd(d: Doc) {
    match d
    case End => true
    case Plain(c, End) => !IsSpace(c)
    case Plain(_, rest) => TightEnd(rest)
    case Group(_, _, rest) => TightEnd(rest)
  }

  /** The text of one value: nothing, a word, or a bracketed group. */
  ghost predicate Piece(d: Doc) {
    Tight(d) && (WordDoc(d) || (d.Group? && d.rest.End? && Clean(d.body)))
  }

  lemma {:induction false} WordFits(d: Doc, s: string, i: nat)
    requires WordDoc(d) && Fits(d, s, i)
    ensures WordAt(s, i, i + Size(d))
  {
    if d.Plain? {
      WordFits(d.rest, s, i + 1);
    }
  }

  lemma PieceFits(d: Doc, s: string, i: nat)
    requires Piece(d) && Fits(d, s, i)
    ensures i + Size(d) <= |s| && ValueAt(s, i, i + Size(d))
  {
    FitsSize(d, s, i);
    if WordDoc(d) {
      WordFits(d, s, i);
    } else {
      DocGroup(d.list, d.body, s, i, i + Size(d));
    }
  }

  /** Where a tight text starts, or else its delimiter, there is no blank. */
  lemma PieceSolid(d: Doc, s: string, i: nat)
    requires Tight(d) && Fits(d, s, i) && i + Size(d) < |s| && !IsSpace(s[i + Size(d)])
    ensures !IsSpace(s[i])
  {
  }

  lemma {:induction false} TightLast(d: Doc, s: string, i: nat)
    requires TightEnd(d) && Fits(d, s, i) && d != End
    ensures i < i + Size(d) <= |s| && !IsSpace(s[i + Size(d) - 1])
  {
    FitsSize(d, s, i);
    match d
    case Plain(_, End) =>
    case Plain(_, rest) => TightLast(rest, s, i + 1);
    case Group(_, body, End) =>
    case Group(_, body, rest) => TightLast(rest, s, i + 1 + Size(body) + 1);
  }

  /** Trimming leaves a tight text alone. */
  lemma TrimTight(d: Doc, s: string, i: nat)
    requires Tight(d) && Fits(d, s, i)
    ensures i + Size(d) <= |s|
    ensures SkipWs(s[..i + Size(d)], i) == i
    ensures TrimRight(s, i, i + Size(d)) == i + Size(d)
  {
    FitsSize(d, s, i);
    if d != End {
      TightLast(d, s, i);
    }
  }

  lemma SkipNothing(s: string, i: nat)
    requires i >= |s| || !IsSpace(s[i])
    ensures SkipWs(s, i) == i
  {
  }

  lemma SkipOne(s: string, i: nat)
    requires i < |s| && s[i] == ' '
    requires i + 1 >= |s| || !IsSpace(s[i + 1])
    ensures SkipWs(s, i) == i + 1
  {
    SkipNothing(s, i + 1);
  }

  // ---------------------------------------------------------------- lists

  datatype Docs = Nil | Cons(head: Doc, tail: Docs)

  ghost predicate AllPieces(ds: Docs) {
    ds.Nil? || (Piece(ds.head) && AllPieces(ds.tail))
  }

  /** The pieces separated by commas, then the closing bracket. */
  ghost function JoinList(ds: Docs): Doc {
    match ds
    case Nil => Plain(']', End)
    case Cons(d, Nil) => Cat(d, Plain(']', End))
    case Cons(d, rest) => Cat(d, Plain(',', JoinList(rest)))
  }

  ghost function ListParts(ds: Docs, i: nat): seq<Part> {
    match ds
    case Nil => []
    case Cons(d, rest) => [Part(i, i + Size(d))] + ListParts(rest, i + Size(d) + 1)
  }

  /** The rest of a list text, from an element to the closing bracket that ends it. */
  ghost predicate ListAt(ds: Docs, s: string, i: nat) {
    Fits(JoinList(ds), s, i) && i + Size(JoinList(ds)) == |s|
  }

  lemma ListUncons(ds: Docs, s: string, i: nat)
    requires ds.Cons? && ListAt(ds, s, i)
    ensures var j := i + Size(ds.head);
            && Fits(ds.head, s, i) && j < |s|
            && (ds.tail.Nil? ==> s[j] == ']' && j + 1 == |s|)
            && (ds.tail.Cons? ==> s[j] == ',' && ListAt(ds.tail, s, j + 1))
  {
    FitsCat(ds.head, if ds.tail.Nil? then Plain(']', End) else Plain(',', JoinList(ds.tail)), s, i);
  }

  /** Where an element begins there is no blank. */
  lemma ListSolid(ds: Docs, s: string, i: nat)
    requires ListAt(ds, s, i) && AllPieces(ds)
    ensures i < |s| && !IsSpace(s[i])
  {
    if ds.Cons? {
      ListUncons(ds, s, i);
      PieceSolid(ds.head, s, i);
    }
  }

  /** The list loop on the last value of a text. */
  lemma ListLast(s: string, i: nat, j: nat, seen: bool)
    requires ValueAt(s, i, j) && j + 1 == |s| && s[j] == ']'
    ensures ListLoop(s, i, i, seen, true, 1) == ListSplit(true, if i < j || seen then [Part(i, j)] else [])
  {
    ListValue(s, i, j, seen, 1);
    SkipNothing(s, j + 1);
  }

  /** The list loop on a value with a comma behind it. */
  lemma ListNext(s: string, i: nat, j: nat, seen: bool)
    requires ValueAt(s, i, j) && j + 1 < |s| && s[j] == ',' && !IsSpace(s[j + 1])
    ensures var rest := ListLoop(s, j + 1, j + 1, true, true, 1);
            ListLoop(s, i, i, seen, true, 1) == ListSplit(rest.ok, [Part(i, j)] + rest.parts)
  {
    ListValue(s, i, j, seen, 1);
    SkipNothing(s, j + 1);
  }

  /** The list loop cuts at the pieces; only an unseen empty last piece is not reported. */
  lemma {:induction false} ListLoopParts(ds: Docs, s: string, i: nat, seen: bool)
    requires ds.Cons? && ListAt(ds, s, i) && AllPieces(ds)
    ensures ListLoop(s, i, i, seen, true, 1)
         == ListSplit(true, if ds.tail.Nil? && Size(ds.head) == 0 && !seen then [] else ListParts(ds, i))
    decreases ds
  {
    hide ListLoop, ListAt, Fits, Piece, IsSpace, ValueAt;
    var j := i + Size(ds.head);
    ListUncons(ds, s, i);
    PieceFits(ds.head, s, i);
    if ds.tail.Nil? {
      ListLast(s, i, j, seen);
    } else {
      ListSolid(ds.tail, s, j + 1);
      ListNext(s, i, j, seen);
      ListLoopParts(ds.tail, s, j + 1, true);
    }
  }

  lemma SplitJoinedList(ds: Docs, s: string)
    requires AllPieces(ds) && Fits(Plain('[', JoinList(ds)), s, 0) && 1 + Size(JoinList(ds)) == |s|
    ensures ListAt(ds, s, 1)
    ensures SplitList(s) == ListSplit(true,
              if ds.Nil? || (ds.tail.Nil? && Size(ds.head) == 0) then [] else ListParts(ds, 1))
  {
    hide Piece, AllPieces;
    SkipNothing(s, 0);
    ListSolid(ds, s, 1);
    SkipNothing(s, 1);
    if ds.Nil? {
      SkipNothing(s, 2);
    } else {
      hide ListLoop;
      ListLoopParts(ds, s, 1, false);
    }
  }

  // ---------------------------------------------------------------- pairs

  ghost function PairTail(ks: Docs, ts: Docs, sep: Doc): Doc
    decreases ks, 1
  {
    if ks.Nil? || ts.Nil? then Plain('}', End) else Plain(',', Plain(' ', JoinPairs(ks, ts, sep)))
  }

  /** Names or keys with their values, separated, then the closing bracket. */
  ghost function JoinPairs(ks: Docs, ts: Docs, sep: Doc): Doc
    decreases ks, 0
  {
    if ks.Nil? || ts.Nil? then Plain('}', End)
    else Cat(ks.head, Cat(sep, Cat(ts.head, PairTail(ks.tail, ts.tail, sep))))
  }

  ghost function Length(ds: Docs): nat {
    if ds.Nil? then 0 else 1 + Length(ds.tail)
  }

  /** The rest of a map or struct text, from a key or name to the closing bracket that ends it. */
  ghost predicate PairsAt(ks: Docs, ts: Docs, sep: Doc, s: string, i: nat) {
    && ks.Cons? && ts.Cons?
    && (var j := i + Size(ks.head);
        var e := j + Size(sep) + Size(ts.head);
        && Fits(ks.head, s, i) && Fits(sep, s, j) && Fits(ts.head, s, j + Size(sep)) && e < |s|
        && (if ks.tail.Nil? then ts.tail.Nil? && s[e] == '}' && e + 1 == |s|
            else e + 2 <= |s| && s[e] == ',' && s[e + 1] == ' ' && PairsAt(ks.tail, ts.tail, sep, s, e + 2)))
  }

  /** The first pair of a joined text. */
  lemma JoinUncons(ks: Docs, ts: Docs, sep: Doc, s: string, i: nat)
    requires ks.Cons? && ts.Cons? && Fits(JoinPairs(ks, ts, sep), s, i)
    ensures var j := i + Size(ks.head); var e := j + Size(sep) + Size(ts.head); var tail := PairTail(ks.tail, ts.tail, sep);
            && Fits(ks.head, s, i) && Fits(sep, s, j) && Fits(ts.head, s, j + Size(sep)) && Fits(tail, s, e)
            && Size(JoinPairs(ks, ts, sep)) == Size(ks.head) + Size(sep) + Size(ts.head) + Size(tail)
  {
    hide Cat, Fits;
    var tail := PairTail(ks.tail, ts.tail, sep);
    FitsCat(ks.head, Cat(sep, Cat(ts.head, tail)), s, i);
    FitsCat(sep, Cat(ts.head, tail), s, i + Size(ks.head));
    FitsCat(ts.head, tail, s, i + Size(ks.head) + Size(sep));
  }

  /** A joined text, with its end. */
  ghost predicate JoinedAt(ks: Docs, ts: Docs, sep: Doc, s: string, i: nat) {
    Fits(JoinPairs(ks, ts, sep), s, i) && i + Size(JoinPairs(ks, ts, sep)) == |s|
  }

  lemma JoinStep(ks: Docs, ts: Docs, sep: Doc, s: string, i: nat)
    requires ks.Cons? && Length(ks) == Length(ts) && JoinedAt(ks, ts, sep, s, i)
    ensures var j := i + Size(ks.head); var e := j + Size(sep) + Size(ts.head);
            && Fits(ks.head, s, i) && Fits(sep, s, j) && Fits(ts.head, s, j + Size(sep)) && e < |s|
            && (ks.tail.Nil? ==> s[e] == '}' && e + 1 == |s|)
            && (ks.tail.Cons? ==> e + 2 <= |s| && s[e] == ',' && s[e + 1] == ' ' && JoinedAt(ks.tail, ts.tail, sep, s, e + 2))
  {
    JoinUncons(ks, ts, sep, s, i);
  }

  lemma {:induction false} JoinPairsAt(ks: Docs, ts: Docs, sep: Doc, s: string, i: nat)
    requires ks.Cons? && Length(ks) == Length(ts) && JoinedAt(ks, ts, sep, s, i)
    ensures PairsAt(ks, ts, sep, s, i)
    decreases ks
  {
    JoinStep(ks, ts, sep, s, i);
    if ks.tail.Cons? {
      JoinPairsAt(ks.tail, ts.tail, sep, s, i + Size(ks.head) + Size(sep) + Size(ts.head) + 2);
    }
  }

  // ---------------------------------------------------------------- maps

  /** An entry with its delimiters: `key=value}` at the end of the text, or `key=value, ` before another. */
  ghost predicate EntrySpan(s: string, i: nat, j: nat, e: nat, last: bool) {
    && ValueAt(s, i, j) && j + 1 < |s| && s[j] == '=' && !IsSpace(s[j + 1]) && ValueAt(s, j + 1, e) && e < |s|
    && (if last then s[e] == '}' && e + 1 == |s|
        else e + 2 < |s| && s[e] == ',' && s[e + 1] == ' ' && !IsSpace(s[e + 2]))
  }

  lemma ScanSpan(s: string, i: nat, j: nat, e: nat, last: bool)
    requires EntrySpan(s, i, j, e, last)
    ensures i < |s| && ScanEntry(s, i) == Scanned(j, j + 1, e)
  {
    PartValue(s, i, j, true, 0);
    SkipNothing(s, j + 1);
    PartValue(s, j + 1, e, false, 0);
  }

  lemma MapStep(s: string, i: nat, j: nat, e: nat, last: bool)
    requires EntrySpan(s, i, j, e, last)
    ensures var parts := [KeyPart(i, j), ValuePart(j + 1, e)];
            MapLoop(s, i) ==
              if last then MapSplit(true, parts)
              else MapSplit(MapLoop(s, e + 2).ok, parts + MapLoop(s, e + 2).parts)
  {
    ScanSpan(s, i, j, e, last);
    if last {
      SkipNothing(s, e + 1);
    } else {
      SkipOne(s, e + 1);
    }
  }

  const EQUALS: Doc := Plain('=', End)

  lemma MapSolid(ks: Docs, ts: Docs, s: string, i: nat)
    requires PairsAt(ks, ts, EQUALS, s, i) && Piece(ks.head)
    ensures i < |s| && !IsSpace(s[i]) && s[i] != '}'
  {
    PieceSolid(ks.head, s, i);
  }

  lemma EqualsFits(s: string, j: nat)
    requires Fits(EQUALS, s, j)
    ensures Size(EQUALS) == 1 && j < |s| && s[j] == '='
  {
  }

  lemma EntrySpans(ks: Docs, ts: Docs, s: string, i: nat)
    requires PairsAt(ks, ts, EQUALS, s, i)
    requires AllPieces(ks) && AllPieces(ts)
    ensures EntrySpan(s, i, i + Size(ks.head), i + Size(ks.head) + 1 + Size(ts.head), ks.tail.Nil?)
  {
    hide ValueAt, Fits, Tight, Size;
    var j := i + Size(ks.head);
    EqualsFits(s, j);
    PieceFits(ks.head, s, i);
    PieceFits(ts.head, s, j + 1);
    PieceSolid(ts.head, s, j + 1);
    if ks.tail.Cons? {
      MapSolid(ks.tail, ts.tail, s, j + 1 + Size(ts.head) + 2);
    }
  }

  /** The ends of the keys and values of a map text, in order. */
  datatype Spans = NoSpan | Span(keyEnd: nat, valueEnd: nat, rest: Spans)

  ghost predicate Runs(sp: Spans, s: string, i: nat) {
    && sp.Span?
    && EntrySpan(s, i, sp.keyEnd, sp.valueEnd, sp.rest.NoSpan?)
    && (sp.rest.Span? ==> Runs(sp.rest, s, sp.valueEnd + 2))
  }

  ghost function SpanParts(sp: Spans, i: nat): seq<MapPart> {
    if sp.NoSpan? then []
    else [KeyPart(i, sp.keyEnd), ValuePart(sp.keyEnd + 1, sp.valueEnd)] + SpanParts(sp.rest, sp.valueEnd + 2)
  }

  lemma {:induction false} MapLoopRuns(sp: Spans, s: string, i: nat)
    requires Runs(sp, s, i)
    ensures MapLoop(s, i) == MapSplit(true, SpanParts(sp, i))
    decreases sp
  {
    hide EntrySpan, MapLoop;
    MapStep(s, i, sp.keyEnd, sp.valueEnd, sp.rest.NoSpan?);
    if sp.rest.Span? {
      MapLoopRuns(sp.rest, s, sp.valueEnd + 2);
    }
  }

  ghost function PairSpans(ks: Docs, ts: Docs, i: nat): Spans {
    if ks.Nil? || ts.Nil? then NoSpan else
    var j := i + Size(ks.head);
    var e := j + 1 + Size(ts.head);
    Span(j, e, PairSpans(ks.tail, ts.tail, e + 2))
  }

  lemma {:induction false} PairsRun(ks: Docs, ts: Docs, s: string, i: nat)
    requires PairsAt(ks, ts, EQUALS, s, i) && AllPieces(ks) && AllPieces(ts)
    ensures Runs(PairSpans(ks, ts, i), s, i)
    decreases ks
  {
    hide EntrySpan, Piece, Fits;
    EntrySpans(ks, ts, s, i);
    if ks.tail.Cons? {
      PairsRun(ks.tail, ts.tail, s, i + Size(ks.head) + 1 + Size(ts.head) + 2);
    }
  }

  lemma SplitMapSkips(s: string)
    requires |s| > 1 && s[0] == '{' && !IsSpace(s[1])
    ensures SplitMap(s) == if s[1] == '}' then MapSplit(SkipWs(s, 2) == |s|, []) else MapLoop(s, 1)
  {
    SkipNothing(s, 0);
    SkipNothing(s, 1);
  }

  lemma SplitJoinedMap(ks: Docs, ts: Docs, s: string)
    requires Length(ks) == Length(ts) && AllPieces(ks) && AllPieces(ts)
    requires Fits(Plain('{', JoinPairs(ks, ts, EQUALS)), s, 0) && 1 + Size(JoinPairs(ks, ts, EQUALS)) == |s|
    ensures ks.Cons? ==> PairsAt(ks, ts, EQUALS, s, 1)
    ensures SplitMap(s) == MapSplit(true, SpanParts(PairSpans(ks, ts, 1), 1))
  {
    if ks.Cons? {
      JoinPairsAt(ks, ts, EQUALS, s, 1);
      MapSolid(ks, ts, s, 1);
      PairsRun(ks, ts, s, 1);
      MapLoopRuns(PairSpans(ks, ts, 1), s, 1);
    }
    SplitMapSkips(s);
  }

  // ---------------------------------------------------------------- structs

  const COLON: Doc := Plain(':', Plain(' ', End))

  /** A field name: no quote, bracket or colon, not padded, not in double quotes. */
  ghost predicate NameDoc(d: Doc) {
    Tight(d) && NameChars(d) && !(d.Plain? && d.c == '"' && LastChar(d) == '"')
  }

  ghost predicate NameChars(d: Doc) {
    match d
    case End => true
    case Plain(c, rest) => !Special(c) && c != ':' && NameChars(rest)
    case Group(_, _, _) => false
  }

  ghost function LastChar(d: Doc): char {
    match d
    case Plain(c, End) => c
    case Plain(_, rest) => LastChar(rest)
    case _ => ' '
  }

  lemma {:induction false} NameScan(d: Doc, s: string, i: nat)
    requires NameChars(d) && Fits(d, s, i) && i + Size(d) < |s| && s[i + Size(d)] == ':'
    ensures NameEnd(s, i) == Some(i + Size(d))
  {
    if d.Plain? {
      NameScan(d.rest, s, i + 1);
    }
  }

  lemma {:induction false} LastFits(d: Doc, s: string, i: nat)
    requires NameChars(d) && Fits(d, s, i) && d != End
    ensures i < i + Size(d) <= |s| && s[i + Size(d) - 1] == LastChar(d)
  {
    FitsSize(d, s, i);
    if d.rest != End {
      LastFits(d.rest, s, i + 1);
    }
  }

  /** Scanning and trimming a field name gives the name back. */
  lemma NameTrims(d: Doc, s: string, i: nat)
    requires NameDoc(d) && Fits(d, s, i) && 0 < i && i + Size(d) < |s| && s[i + Size(d)] == ':'
    ensures NameEnd(s, i) == Some(i + Size(d))
    ensures TrimQuotes(s, i, TrimRight(s, i, i + Size(d))) == (i, i + Size(d))
  {
    NameScan(d, s, i);
    TrimTight(d, s, i);
    if d != End {
      LastFits(d, s, i);
    }
  }

  /** Scanning and trimming a field's value gives its text back. */
  lemma ValueTrims(d: Doc, s: string, i: nat)
    requires Piece(d) && Fits(d, s, i) && 0 < i && i + Size(d) < |s| && (s[i + Size(d)] == ',' || s[i + Size(d)] == '}')
    ensures ValueEnd(s, i, 0) == Some(i + Size(d))
    ensures TrimQuotes(s, i, TrimRight(s, i, i + Size(d))) == (i, i + Size(d))
  {
    PieceFits(d, s, i);
    FieldValue(s, i, i + Size(d));
    TrimTight(d, s, i);
  }
}
