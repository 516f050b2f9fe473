/**
 Lists, maps and structs written by hand: what texts with blanks anywhere between their words, and with words
 in quotes, parse to.  Nothing inside quotes splits, blanks around words do not matter, and struct fields may
 come in any order, be missing, and be quoted.
 */
module TextFree {
  import opened Wrappers
  import opened TextScan
  import opened TextModel
  import opened TextNull
  import TextCast
  import TextTheorem

  // ---------------------------------------------------------------- words

  datatype Word = Bare(text: string) | Quoted(quote: char, text: string)

  ghost function Show(w: Word): string {
    if w.Bare? then w.text else [w.quote] + w.text + [w.quote]
  }

  /** Characters that mean something between words. */
  predicate Delimiter(c: char) {
    c == ',' || c == '=' || c == '[' || c == ']' || c == '{' || c == '}' || c == '\'' || c == '"'
  }

  /** Bare words hold no delimiter and no blanks at their ends; quoted ones hold anything but their quote. */
  ghost predicate Good(w: Word) {
    if w.Bare? then
      && (forall i :: 0 <= i < |w.text| ==> !Delimiter(w.text[i]))
      && (w.text != "" ==> !IsSpace(w.text[0]) && !IsSpace(w.text[|w.text| - 1]))
    else
      (w.quote == '\'' || w.quote == '"') && forall i :: 0 <= i < |w.text| ==> w.text[i] != w.quote
  }

  /** A word with blanks around it. */
  datatype Item = Item(before: string, word: Word, after: string)

  ghost predicate GoodItem(p: Item) {
    Good(p.word) && Blank(p.before) && Blank(p.after)
  }

  ghost function Text(p: Item): string {
    p.before + Show(p.word) + p.after
  }

  ghost predicate Stands(s: string, i: nat, t: string) {
    i + |t| <= |s| && s[i..i + |t|] == t
  }

  lemma StandsWithin(s: string, i: nat, t: string)
    requires Stands(s, i, t)
    ensures i + |t| <= |s|
  {
  }

  lemma StandsSplit(s: string, i: nat, t: string, u: string)
    requires Stands(s, i, t + u)
    ensures Stands(s, i, t) && Stands(s, i + |t|, u)
  {
    assert (t + u)[..|t|] == t && (t + u)[|t|..] == u;
    assert s[i..i + |t|] == s[i..i + |t + u|][..|t|];
    assert s[i + |t|..i + |t + u|] == s[i..i + |t + u|][|t|..];
  }

  // ---------------------------------------------------------------- where a word stands

  /** Where the word of an item at position i begins: behind the blanks, which are all there is of an empty word. */
  ghost function Start(p: Item, i: nat): nat {
    if Show(p.word) == "" then i + |Text(p)| else i + |p.before|
  }

  ghost function End(p: Item, i: nat): nat {
    Start(p, i) + |Show(p.word)|
  }

  /** An item at a position, and behind it a character that is no blank. */
  ghost predicate ItemAt(s: string, i: nat, p: Item) {
    && GoodItem(p) && Stands(s, i, Text(p)) && i + |Text(p)| < |s| && !IsSpace(s[i + |Text(p)|])
  }

  lemma Located(s: string, i: nat, p: Item)
    requires ItemAt(s, i, p)
    ensures var d := i + |Text(p)|;
            && i <= Start(p, i) <= End(p, i) <= d
            && SkipWs(s, i) == Start(p, i) && TrimRight(s, Start(p, i), d) == End(p, i)
            && s[Start(p, i)..End(p, i)] == Show(p.word) && Blank(s[End(p, i)..d])
  {
    hide Show, Good;
    var d, w := i + |Text(p)|, Show(p.word);
    var j := i + |p.before|;
    StandsSplit(s, i, p.before + w, p.after);
    StandsSplit(s, i, p.before, w);
    if w == "" {
      BlankSpan(s, i, j, d);
    } else {
      Edges(p.word);
      WordSpan(s, i, j, d, w);
    }
  }

  lemma BlankSpan(s: string, i: nat, j: nat, d: nat)
    requires i <= j <= d < |s| && Blank(s[i..j]) && Blank(s[j..d]) && !IsSpace(s[d])
    ensures SkipWs(s, i) == d && TrimRight(s, d, d) == d && s[d..d] == "" && Blank(s[d..d])
  {
    hide SkipWs, IsSpace, TrimRight;
    assert s[i..d] == s[i..j] + s[j..d];
    SkipsBlanks(s, i, d);
    TrimsBlanks(s, d, d, d);
  }

  lemma WordSpan(s: string, i: nat, j: nat, d: nat, w: string)
    requires i <= j <= j + |w| <= d < |s| && w != "" && !IsSpace(w[0]) && !IsSpace(w[|w| - 1])
    requires Blank(s[i..j]) && s[j..j + |w|] == w && Blank(s[j + |w|..d])
    ensures SkipWs(s, i) == j && TrimRight(s, j, d) == j + |w|
  {
    hide SkipWs, IsSpace, TrimRight;
    assert s[j] == w[0] && s[j + |w| - 1] == w[|w| - 1];
    SkipsBlanks(s, i, j);
    TrimsBlanks(s, j, j + |w|, d);
  }

  lemma Edges(w: Word)
    requires Good(w) && Show(w) != ""
    ensures !IsSpace(Show(w)[0]) && !IsSpace(Show(w)[|Show(w)| - 1])
    ensures w.Bare? ==> !Delimiter(Show(w)[0])
  {
  }

  /** No delimiter stands between two positions. */
  ghost predicate Plain(s: string, i: nat, d: nat) {
    i <= d <= |s| && forall k :: i <= k < d ==> !Delimiter(s[k])
  }

  /** The word is plain text, or a quote that is closed, and behind it there are blanks up to the end. */
  ghost predicate WordIn(s: string, a: nat, e: nat, d: nat, w: Word) {
    && a <= e <= d < |s| && Plain(s, e, d)
    && (w.Bare? ==> Plain(s, a, d))
    && (w.Quoted? ==> a + 2 <= e && s[a] == w.quote && (w.quote == '\'' || w.quote == '"')
                      && CloseQuote(s, a + 1, w.quote) == Some((e - 1) as nat) && s[a + 1..e - 1] == w.text)
    && (w.Bare? ==> s[a..e] == w.text)
  }

  lemma WordStands(s: string, i: nat, p: Item)
    requires ItemAt(s, i, p)
    ensures WordIn(s, Start(p, i), End(p, i), i + |Text(p)|, p.word)
  {
    hide SkipWs, TrimRight;
    Located(s, i, p);
    var a, e, d := Start(p, i), End(p, i), i + |Text(p)|;
    BlanksArePlain(s, e, d);
    hide Start, End, Text, Delimiter, CloseQuote, IsSpace;
    if p.word.Bare? {
      BareIn(s, a, e, d, p.word);
    } else {
      QuotedIn(s, a, e, p.word);
    }
  }

  lemma BlanksArePlain(s: string, e: nat, d: nat)
    requires e <= d <= |s| && Blank(s[e..d])
    ensures Plain(s, e, d)
  {
    forall k | e <= k < d ensures !Delimiter(s[k]) {
      assert s[e..d][k - e] == s[k];
    }
  }

  lemma BareIn(s: string, a: nat, e: nat, d: nat, w: Word)
    requires w.Bare? && Good(w) && a <= e <= d < |s| && s[a..e] == w.text && Plain(s, e, d)
    ensures Plain(s, a, d)
  {
    hide Delimiter, IsSpace;
    forall k | a <= k < e ensures !Delimiter(s[k]) {
      assert s[a..e][k - a] == s[k];
    }
  }

  lemma QuotedIn(s: string, a: nat, e: nat, w: Word)
    requires w.Quoted? && Good(w) && a <= e <= |s| && s[a..e] == Show(w)
    ensures a + 2 <= e && s[a] == w.quote && CloseQuote(s, a + 1, w.quote) == Some((e - 1) as nat) && s[a + 1..e - 1] == w.text
  {
    hide CloseQuote, IsSpace;
    var t := w.text;
    assert |s[a..e]| == |t| + 2 && e == a + |t| + 2;
    assert s[a] == s[a..e][0] && s[e - 1] == s[a..e][|t| + 1];
    forall k | 0 <= k < |t| ensures s[a + 1 + k] == t[k] {
      assert s[a..e][k + 1] == s[a + 1 + k];
    }
    assert s[a + 1..e - 1] == t;
    assert forall k :: a + 1 <= k < e - 1 ==> s[k] == t[k - a - 1];
    Closes(s, a + 1, e - 1, w.quote);
  }

  lemma {:induction false} Closes(s: string, i: nat, j: nat, quote: char)
    requires i <= j < |s| && s[j] == quote && forall k :: i <= k < j ==> s[k] != quote
    ensures CloseQuote(s, i, quote) == Some(j)
    decreases j - i
  {
    if i < j {
      Closes(s, i + 1, j, quote);
    }
  }

  // ---------------------------------------------------------------- lists

  lemma {:induction false} ListPlain(s: string, i: nat, d: nat, start: nat, seen: bool, atStart: bool, lvl: Level)
    requires Plain(s, i, d) && start <= i
    ensures ListLoop(s, i, start, seen, atStart, lvl) ==
            ListLoop(s, d, start, seen, if i == d then atStart else false, lvl)
    decreases d - i
  {
    if i < d {
      assert !Delimiter(s[i]);
      ListPlain(s, i + 1, d, start, seen, false, lvl);
    }
  }

  /** The list loop passes over a word, and over everything in its quotes. */
  lemma ListPasses(s: string, a: nat, e: nat, d: nat, w: Word, seen: bool, lvl: Level)
    requires WordIn(s, a, e, d, w)
    ensures ListLoop(s, a, a, seen, true, lvl) == ListLoop(s, d, a, seen, a == d, lvl)
  {
    if w.Bare? {
      ListPlain(s, a, d, a, seen, true, lvl);
    } else {
      ListPlain(s, e, d, a, seen, false, lvl);
    }
  }

  ghost function ListBody(items: seq<Item>): string
    requires items != []
  {
    Text(items[0]) + if |items| == 1 then "]" else "," + ListBody(items[1..])
  }

  ghost function Spans(items: seq<Item>, i: nat): seq<Part> {
    if items == [] then [] else
    var d := i + |Text(items[0])|;
    [Part(Start(items[0], i), d)] + Spans(items[1..], d + 1)
  }

  /** The one item of a list is empty. */
  ghost predicate OnlyBlank(items: seq<Item>) {
    |items| == 1 && Show(items[0].word) == ""
  }

  lemma FirstItem(s: string, i: nat, p: Item, delimiter: string, rest: string)
    requires GoodItem(p) && Stands(s, i, Text(p) + (delimiter + rest)) && |delimiter| == 1 && !IsSpace(delimiter[0])
    ensures ItemAt(s, i, p) && s[i + |Text(p)|] == delimiter[0] && Stands(s, i + |Text(p)| + 1, rest)
  {
    var d := i + |Text(p)|;
    StandsSplit(s, i, Text(p), delimiter + rest);
    StandsSplit(s, d, delimiter, rest);
    assert s[d..d + 1][0] == s[d];
  }

  /** The first item of a list, the delimiter behind it, and what follows. */
  lemma ListHead(s: string, i: nat, items: seq<Item>)
    requires items != [] && GoodItem(items[0]) && Stands(s, i, ListBody(items))
    ensures var d := i + |Text(items[0])|;
            && ItemAt(s, i, items[0]) && s[d] == (if |items| == 1 then ']' else ',')
            && i + |ListBody(items)| == d + 1 + (if |items| == 1 then 0 else |ListBody(items[1..])|) <= |s|
            && (|items| > 1 ==> Stands(s, d + 1, ListBody(items[1..])))
  {
    hide Text, Show, GoodItem;
    if |items| == 1 {
      assert ListBody(items) == Text(items[0]) + ("]" + "");
      FirstItem(s, i, items[0], "]", "");
    } else {
      FirstItem(s, i, items[0], ",", ListBody(items[1..]));
    }
  }

  /** An item and the delimiter behind it: one part, unless it is all there is and blank. */
  lemma ListItem(s: string, i: nat, p: Item, seen: bool)
    requires ItemAt(s, i, p) && (s[i + |Text(p)|] == ',' || s[i + |Text(p)|] == ']')
    ensures var a, d := Start(p, i), i + |Text(p)|;
            var j := SkipWs(s, d + 1);
            && SkipWs(s, i) == a <= d && (a == d <==> Show(p.word) == "")
            && (s[d] == ']' ==>
                  ListLoop(s, a, a, seen, true, 1) == ListSplit(j == |s|, if a < d || seen then [Part(a, d)] else []))
            && (s[d] == ',' ==>
                  var rest := ListLoop(s, j, j, true, true, 1);
                  ListLoop(s, a, a, seen, true, 1) == ListSplit(rest.ok, [Part(a, d)] + rest.parts))
  {
    hide SkipWs, Show, GoodItem, IsSpace;
    Located(s, i, p);
    WordStands(s, i, p);
    ListPasses(s, Start(p, i), End(p, i), i + |Text(p)|, p.word, seen, 1);
    hide WordIn, Stands;
  }

  lemma {:induction false} ListSplits(s: string, i: nat, items: seq<Item>, seen: bool)
    requires items != [] && (forall k :: 0 <= k < |items| ==> GoodItem(items[k]))
    requires Stands(s, i, ListBody(items)) && Blank(s[i + |ListBody(items)|..])
    ensures SkipWs(s, i) == Start(items[0], i)
    ensures ListLoop(s, Start(items[0], i), Start(items[0], i), seen, true, 1) ==
            ListSplit(true, if OnlyBlank(items) && !seen then [] else Spans(items, i))
    decreases |items|
  {
    hide Text, Show, GoodItem, SkipWs, Start, End, ListLoop, Stands, ListBody, ItemAt;
    var d := i + |Text(items[0])|;
    ListHead(s, i, items);
    ListItem(s, i, items[0], seen);
    if |items| == 1 {
      assert s[d + 1..|s|] == s[i + |ListBody(items)|..];
      SkipsBlanks(s, d + 1, |s|);
      assert Spans(items[1..], d + 1) == [];
    } else {
      ListSplits(s, d + 1, items[1..], true);
    }
  }

  /** What the words of a list are cast to, from the left. */
  ghost function Each<L>(c: Codec<L>, ty: Type, items: seq<Item>): Result<seq<Value<L>>, TextError> {
    if items == [] then Ok([]) else
    var x := Parse(c, ty, Show(items[0].word));
    if x.Err? then Err(x.error) else
    var rest := Each(c, ty, items[1..]);
    if rest.Err? then rest else Ok([x.value] + rest.value)
  }

  lemma {:induction false} SpansInRange(s: string, i: nat, items: seq<Item>)
    requires (forall k :: 0 <= k < |items| ==> GoodItem(items[k])) && (items != [] ==> Stands(s, i, ListBody(items)))
    ensures PartsInRange(Spans(items, i), s)
    decreases |items|
  {
    hide Text, Show, GoodItem, Start, End, Stands, ListBody, ItemAt, SkipWs, TrimRight, Blank;
    if items != [] {
      ListHead(s, i, items);
      Located(s, i, items[0]);
      SpansInRange(s, i + |Text(items[0])| + 1, items[1..]);
    }
  }

  /** The part of an item, trimmed, is its word. */
  lemma PartWord(s: string, i: nat, p: Item)
    requires ItemAt(s, i, p)
    ensures var a, d := Start(p, i), i + |Text(p)|;
            && a <= d <= |s| && SkipWs(s[..d], a) == a
            && TrimRight(s, a, d) == End(p, i) && s[a..TrimRight(s, a, d)] == Show(p.word)
  {
    hide TrimRight;
    Located(s, i, p);
    var a, d := Start(p, i), i + |Text(p)|;
    if a < d {
      hide Show;
      Edges(p.word);
      assert s[a] == s[a..End(p, i)][0] == Show(p.word)[0];
      assert s[..d][a] == s[a];
    }
  }

  lemma {:induction false} SpansParse<L>(c: Codec<L>, ty: Type, s: string, i: nat, items: seq<Item>)
    requires ty.TList? && (forall k :: 0 <= k < |items| ==> GoodItem(items[k])) && (items != [] ==> Stands(s, i, ListBody(items)))
    requires PartsInRange(Spans(items, i), s)
    ensures ParseElems(c, ty, s, Spans(items, i)) == Each(c, ty.elem, items)
    decreases |items|
  {
    hide Text, Show, GoodItem, Start, End, Stands, Parse, SkipWs, TrimRight, ListBody, ItemAt, PartsInRange;
    if items != [] {
      var d := i + |Text(items[0])|;
      ListHead(s, i, items);
      PartWord(s, i, items[0]);
      var parts, rest := Spans(items, i), Spans(items[1..], d + 1);
      assert parts[1..] == rest;
      SpansInRange(s, d + 1, items[1..]);
      SpansParse(c, ty, s, d + 1, items[1..]);
      ElemsStep(c, ty, s, parts);
    }
  }

  lemma ElemsStep<L>(c: Codec<L>, ty: Type, s: string, parts: seq<Part>)
    requires ty.TList? && PartsInRange(parts, s) && parts != [] && PartsInRange(parts[1..], s)
    requires SkipWs(s[..parts[0].to], parts[0].from) == parts[0].from
    ensures ParseElems(c, ty, s, parts) ==
            var x := Parse(c, ty.elem, s[parts[0].from..TrimRight(s, parts[0].from, parts[0].to)]);
            if x.Err? then Err(x.error) else
            var rest := ParseElems(c, ty, s, parts[1..]);
            if rest.Err? then rest else Ok([x.value] + rest.value)
  {
    hide Parse, SkipWs, TrimRight;
  }

  lemma OpensAt(s: string, lead: string, bracket: char, rest: string)
    requires s == lead + [bracket] + rest && Blank(lead) && (bracket == '[' || bracket == '{')
    ensures SkipWs(s, 0) == |lead| < |s| && s[|lead|] == bracket && !IsNullText(s)
  {
    assert s[0..|lead|] == lead;
    SkipsBlanks(s, 0, |lead|);
  }

  /** A list of words: its elements are what the words are cast to, quotes included, or the first error. */
  lemma FreeList<L>(c: Codec<L>, ty: Type, lead: string, items: seq<Item>, trail: string)
    requires ty.TList? && Blank(lead) && Blank(trail) && items != [] && forall k :: 0 <= k < |items| ==> GoodItem(items[k])
    ensures var each := Each(c, ty.elem, items);
            Parse(c, ty, lead + "[" + (ListBody(items) + trail)) ==
            if OnlyBlank(items) then Ok(List([])) else if each.Err? then Err(each.error) else Ok(List(each.value))
  {
    hide Text, Show, GoodItem, Start, End, ListLoop, ListBody, Each, Spans;
    var s, i := lead + "[" + (ListBody(items) + trail), |lead| + 1;
    OpensAt(s, lead, '[', ListBody(items) + trail);
    assert s[i..i + |ListBody(items)|] == ListBody(items) && s[i + |ListBody(items)|..] == trail;
    ListSplits(s, i, items, false);
    SpansInRange(s, i, items);
    SpansParse(c, ty, s, i, items);
    var parts := if OnlyBlank(items) then [] else Spans(items, i);
    assert SplitList(s) == ListSplit(true, parts);
    hide Parse, SplitList;
    TextTheorem.ParseListUnfold(c, ty, s, parts);
    NoParts(c, ty, s);
  }

  lemma NoParts<L>(c: Codec<L>, ty: Type, s: string)
    requires ty.TList?
    ensures ParseElems(c, ty, s, []) == Ok([])
  {
  }

  // ---------------------------------------------------------------- maps

  lemma {:induction false} PartPlain(s: string, i: nat, d: nat, isKey: bool, lvl: Level)
    requires Plain(s, i, d)
    ensures PartEnd(s, i, isKey, lvl) == PartEnd(s, d, isKey, lvl)
    decreases d - i
  {
    if i < d {
      assert !Delimiter(s[i]);
      PartPlain(s, i + 1, d, isKey, lvl);
    }
  }

  /** A key or value ends at the delimiter behind it, whatever its quotes hold. */
  lemma PartPasses(s: string, i: nat, p: Item, isKey: bool)
    requires ItemAt(s, i, p) && EndsPart(s[i + |Text(p)|], isKey)
    ensures PartEnd(s, Start(p, i), isKey, 0) == Some(i + |Text(p)|)
  {
    hide Text, Show, GoodItem, Start, End, Stands, IsSpace;
    WordStands(s, i, p);
    var a, e, d := Start(p, i), End(p, i), i + |Text(p)|;
    if p.word.Bare? {
      PartPlain(s, a, d, isKey, 0);
    } else {
      PartPlain(s, e, d, isKey, 0);
    }
  }

  datatype Pair = Pair(left: Item, right: Item)

  ghost function MapBody(pairs: seq<Pair>): string
    requires pairs != []
  {
    Text(pairs[0].left) + ("=" + (Text(pairs[0].right) + if |pairs| == 1 then "}" + "" else "," + MapBody(pairs[1..])))
  }

  ghost predicate GoodPairs(pairs: seq<Pair>) {
    forall k :: 0 <= k < |pairs| ==> GoodItem(pairs[k].left) && GoodItem(pairs[k].right)
  }

  ghost function PairParts(pairs: seq<Pair>, i: nat): seq<MapPart> {
    if pairs == [] then [] else
    var d := i + |Text(pairs[0].left)|;
    var z := d + 1 + |Text(pairs[0].right)|;
    [KeyPart(Start(pairs[0].left, i), d), ValuePart(Start(pairs[0].right, d + 1), z)] + PairParts(pairs[1..], z + 1)
  }

  /** One pair and the delimiters in and behind it. */
  lemma PairStands(s: string, i: nat, p: Pair, separator: string, close: string, rest: string)
    requires GoodItem(p.left) && GoodItem(p.right) && (separator == "=" || separator == ":") && (close == "," || close == "}")
    requires Stands(s, i, Text(p.left) + (separator + (Text(p.right) + (close + rest))))
    ensures var d := i + |Text(p.left)|;
            var z := d + 1 + |Text(p.right)|;
            && ItemAt(s, i, p.left) && s[d] == separator[0] && ItemAt(s, d + 1, p.right) && s[z] == close[0]
            && Stands(s, z + 1, rest)
  {
    hide Text, GoodItem, Stands;
    FirstItem(s, i, p.left, separator, Text(p.right) + (close + rest));
    FirstItem(s, i + |Text(p.left)| + 1, p.right, close, rest);
  }

  /** The first pair of a map, its delimiters, and what follows. */
  lemma MapHead(s: string, i: nat, pairs: seq<Pair>)
    requires pairs != [] && GoodItem(pairs[0].left) && GoodItem(pairs[0].right) && Stands(s, i, MapBody(pairs))
    ensures var d := i + |Text(pairs[0].left)|;
            var z := d + 1 + |Text(pairs[0].right)|;
            && ItemAt(s, i, pairs[0].left) && s[d] == '=' && ItemAt(s, d + 1, pairs[0].right)
            && s[z] == (if |pairs| == 1 then '}' else ',')
            && i + |MapBody(pairs)| == z + 1 + (if |pairs| == 1 then 0 else |MapBody(pairs[1..])|) <= |s|
            && (|pairs| > 1 ==> Stands(s, z + 1, MapBody(pairs[1..])))
  {
    hide Text, Show, GoodItem, Stands, ItemAt;
    var close, rest := if |pairs| == 1 then "}" else ",", if |pairs| == 1 then "" else MapBody(pairs[1..]);
    assert MapBody(pairs) == Text(pairs[0].left) + ("=" + (Text(pairs[0].right) + (close + rest)));
    hide MapBody;
    PairStands(s, i, pairs[0], "=", close, rest);
    StandsWithin(s, i, MapBody(pairs));
  }

  lemma MapPair(s: string, i: nat, p: Pair)
    requires ItemAt(s, i, p.left) && s[i + |Text(p.left)|] == '=' && ItemAt(s, i + |Text(p.left)| + 1, p.right)
    requires var z := i + |Text(p.left)| + 1 + |Text(p.right)|; s[z] == ',' || s[z] == '}'
    ensures var d := i + |Text(p.left)|;
            var z := d + 1 + |Text(p.right)|;
            SkipWs(s, i) == Start(p.left, i) && ScanEntry(s, Start(p.left, i)) == Scanned(d, Start(p.right, d + 1), z)
  {
    hide Text, Show, GoodItem, Start, End, Stands, IsSpace, SkipWs, PartEnd;
    var d := i + |Text(p.left)|;
    Located(s, i, p.left);
    Located(s, d + 1, p.right);
    PartPasses(s, i, p.left, true);
    PartPasses(s, d + 1, p.right, false);
  }

  lemma {:induction false} MapSplits(s: string, i: nat, pairs: seq<Pair>)
    requires pairs != [] && GoodPairs(pairs) && Stands(s, i, MapBody(pairs)) && Blank(s[i + |MapBody(pairs)|..])
    ensures SkipWs(s, i) == Start(pairs[0].left, i)
    ensures MapLoop(s, Start(pairs[0].left, i)) == MapSplit(true, PairParts(pairs, i))
    ensures Start(pairs[0].left, i) < |s| && s[Start(pairs[0].left, i)] != '}'
    decreases |pairs|
  {
    hide Text, Show, GoodItem, Start, End, SkipWs, ScanEntry, Stands, MapBody, ItemAt;
    var p := pairs[0];
    var d := i + |Text(p.left)|;
    var z := d + 1 + |Text(p.right)|;
    MapHead(s, i, pairs);
    MapPair(s, i, p);
    NotClosing(s, i, p.left);
    if |pairs| == 1 {
      assert s[z + 1..|s|] == s[i + |MapBody(pairs)|..];
      SkipsBlanks(s, z + 1, |s|);
      assert PairParts(pairs[1..], z + 1) == [];
    } else {
      MapSplits(s, z + 1, pairs[1..]);
    }
  }

  lemma NotClosing(s: string, i: nat, p: Item)
    requires ItemAt(s, i, p) && s[i + |Text(p)|] != '}'
    ensures Start(p, i) < |s| && s[Start(p, i)] != '}'
  {
    Located(s, i, p);
    if Show(p.word) != "" {
      assert s[Start(p, i)] == s[Start(p, i)..End(p, i)][0];
      Edges(p.word);
    }
  }

  /** What the pairs of a map are cast to, from the left: null and repeated keys are errors. */
  ghost function EachPair<L>(c: Codec<L>, ty: Type, pairs: seq<Pair>, done: seq<Entry<L>>): Result<seq<Entry<L>>, TextError>
    requires ty.TMap?
    decreases |pairs|
  {
    if pairs == [] then Ok(done) else
    var key := Parse(c, ty.key, Show(pairs[0].left.word));
    if key.Err? then Err(key.error)
    else if key.value.Null? then Err(NullKey)
    else if HasKey(done, key.value) then Err(DuplicateKey)
    else
      var val := Parse(c, ty.val, Show(pairs[0].right.word));
      if val.Err? then Err(val.error) else EachPair(c, ty, pairs[1..], done + [Entry(key.value, val.value)])
  }

  lemma {:induction false} PairsInRange(s: string, i: nat, pairs: seq<Pair>)
    requires GoodPairs(pairs) && (pairs != [] ==> Stands(s, i, MapBody(pairs)))
    ensures MapPartsInRange(PairParts(pairs, i), s)
    decreases |pairs|
  {
    hide Text, Show, GoodItem, Start, End, Stands, MapBody, ItemAt, SkipWs, TrimRight, Blank;
    if pairs != [] {
      var p := pairs[0];
      var d := i + |Text(p.left)|;
      MapHead(s, i, pairs);
      Located(s, i, p.left);
      Located(s, d + 1, p.right);
      PairsInRange(s, d + 1 + |Text(p.right)| + 1, pairs[1..]);
    }
  }

  lemma {:induction false} PairsParse<L>(c: Codec<L>, ty: Type, s: string, i: nat, pairs: seq<Pair>, done: seq<Entry<L>>, key: Value<L>)
    requires ty.TMap? && GoodPairs(pairs) && (pairs != [] ==> Stands(s, i, MapBody(pairs)))
    requires MapPartsInRange(PairParts(pairs, i), s)
    ensures ParseEntries(c, ty, s, PairParts(pairs, i), done, key) == EachPair(c, ty, pairs, done)
    decreases |pairs|
  {
    hide Text, Show, GoodItem, Start, End, Stands, Parse, SkipWs, TrimRight, HasKey, MapBody, ItemAt;
    if pairs != [] {
      var p := pairs[0];
      var d := i + |Text(p.left)|;
      var z := d + 1 + |Text(p.right)|;
      MapHead(s, i, pairs);
      PartWord(s, i, p.left);
      PartWord(s, d + 1, p.right);
      var parts, rest := PairParts(pairs, i), PairParts(pairs[1..], z + 1);
      assert parts[1..][1..] == rest;
      assert parts[1..][0] == parts[1];
      PairsInRange(s, z + 1, pairs[1..]);
      var k := Parse(c, ty.key, Show(p.left.word));
      var v := Parse(c, ty.val, Show(p.right.word));
      if k.Ok? && v.Ok? {
        PairsParse(c, ty, s, z + 1, pairs[1..], done + [Entry(k.value, v.value)], k.value);
      }
    }
  }

  /** A map of words: its entries are what the keys and values are cast to, quotes included, or the first error. */
  lemma FreeMap<L>(c: Codec<L>, ty: Type, lead: string, pairs: seq<Pair>, trail: string)
    requires ty.TMap? && Blank(lead) && Blank(trail) && pairs != [] && GoodPairs(pairs)
    ensures var each := EachPair(c, ty, pairs, []);
            Parse(c, ty, lead + "{" + (MapBody(pairs) + trail)) == if each.Err? then Err(each.error) else Ok(Map(each.value))
  {
    hide Text, Show, GoodItem, Start, End, MapLoop, MapBody, EachPair, PairParts;
    var s, i := lead + "{" + (MapBody(pairs) + trail), |lead| + 1;
    OpensAt(s, lead, '{', MapBody(pairs) + trail);
    assert s[i..i + |MapBody(pairs)|] == MapBody(pairs) && s[i + |MapBody(pairs)|..] == trail;
    MapSplits(s, i, pairs);
    PairsInRange(s, i, pairs);
    PairsParse(c, ty, s, i, pairs, [], Null);
    assert SplitMap(s) == MapSplit(true, PairParts(pairs, i));
    hide Parse, SplitMap;
    TextTheorem.ParseMapUnfold(c, ty, s, PairParts(pairs, i));
  }

  // ---------------------------------------------------------------- structs

  lemma {:induction false} ValuePlain(s: string, i: nat, d: nat)
    requires Plain(s, i, d)
    ensures ValueEnd(s, i, 0) == ValueEnd(s, d, 0)
    decreases d - i
  {
    if i < d {
      assert !Delimiter(s[i]);
      ValuePlain(s, i + 1, d);
    }
  }

  lemma {:induction false} NamePlain(s: string, i: nat, d: nat)
    requires i <= d < |s| && s[d] == ':' && forall k :: i <= k < d ==> s[k] != ':'
    ensures NameEnd(s, i) == Some(d)
    decreases d - i
  {
    if i < d {
      NamePlain(s, i + 1, d);
    }
  }

  /** One pair of quotes is dropped from a word, and nothing from a bare one. */
  lemma Unquoted(s: string, i: nat, p: Item)
    requires ItemAt(s, i, p) && 0 < i && s[i + |Text(p)|] != '\'' && s[i + |Text(p)|] != '"'
    ensures var a, e := Start(p, i), End(p, i);
            && 0 < e <= |s| && a < |s|
            && var q := TrimQuotes(s, a, e); q.0 <= q.1 <= |s| && s[q.0..q.1] == p.word.text
  {
    hide Text, GoodItem, Start, End, Stands, IsSpace, CloseQuote;
    Located(s, i, p);
    WordStands(s, i, p);
    var a, e := Start(p, i), End(p, i);
    if p.word.Bare? && a < e {
      assert !Delimiter(s[a]);
    } else if p.word.Quoted? {
      assert s[e - 1] == p.word.quote by {
        LastQuote(s, a + 1, p.word.quote);
      }
    }
  }

  lemma {:induction false} LastQuote(s: string, i: nat, quote: char)
    requires i <= |s| && CloseQuote(s, i, quote).Some?
    ensures s[CloseQuote(s, i, quote).value] == quote
    decreases |s| - i
  {
    if s[i] != quote {
      LastQuote(s, i + 1, quote);
    }
  }

  /** A field name holds no colon, not even in quotes. */
  ghost predicate NoColon(p: Item) {
    forall k :: 0 <= k < |p.word.text| ==> p.word.text[k] != ':'
  }

  lemma NameScans(s: string, i: nat, p: Item)
    requires ItemAt(s, i, p) && NoColon(p) && s[i + |Text(p)|] == ':'
    ensures NameEnd(s, Start(p, i)) == Some(i + |Text(p)|)
  {
    hide SkipWs, TrimRight;
    Located(s, i, p);
    var a, e, d := Start(p, i), End(p, i), i + |Text(p)|;
    forall k | a <= k < d ensures s[k] != ':' {
      if k < e {
        assert s[k] == s[a..e][k - a];
      } else {
        assert s[k] == s[e..d][k - e];
      }
    }
    NamePlain(s, a, d);
  }

  lemma ValueScans(s: string, i: nat, p: Item)
    requires ItemAt(s, i, p) && (s[i + |Text(p)|] == ',' || s[i + |Text(p)|] == '}')
    ensures ValueEnd(s, Start(p, i), 0) == Some(i + |Text(p)|)
  {
    hide Text, Show, GoodItem, Start, End, Stands, IsSpace;
    WordStands(s, i, p);
    if p.word.Bare? {
      ValuePlain(s, Start(p, i), i + |Text(p)|);
    } else {
      ValuePlain(s, End(p, i), i + |Text(p)|);
    }
  }

  lemma ValueOfField(s: string, i: nat, p: Item)
    requires 0 < i && ItemAt(s, i, p) && (s[i + |Text(p)|] == ',' || s[i + |Text(p)|] == '}')
    ensures SkipWs(s, i) == Start(p, i) && 0 < Start(p, i)
    ensures ScanFieldValue(s, Start(p, i)) == Some(FieldText(p.word.text, i + |Text(p)|))
  {
    hide Text, Show, GoodItem, Start, End, Stands, IsSpace, SkipWs, TrimRight, ValueEnd, TrimQuotes, ItemAt, Blank;
    Located(s, i, p);
    ValueScans(s, i, p);
    Unquoted(s, i, p);
  }

  lemma NameOfField(s: string, i: nat, p: Item)
    requires 0 < i && ItemAt(s, i, p) && NoColon(p) && s[i + |Text(p)|] == ':'
    ensures SkipWs(s, i) == Start(p, i) && 0 < Start(p, i) < |s|
    ensures ScanField(s, Start(p, i)) == Named(p.word.text, ScanFieldValue(s, SkipWs(s, i + |Text(p)| + 1)))
  {
    hide Text, Show, GoodItem, Start, End, Stands, IsSpace, SkipWs, TrimRight, NameEnd, TrimQuotes, ItemAt, NoColon, Blank, ScanFieldValue;
    Located(s, i, p);
    NameScans(s, i, p);
    Unquoted(s, i, p);
  }

  /** A field as it is scanned: its name and its value, each without its quotes. */
  lemma FieldScans(s: string, i: nat, p: Pair)
    requires 0 < i && ItemAt(s, i, p.left) && NoColon(p.left) && s[i + |Text(p.left)|] == ':'
    requires ItemAt(s, i + |Text(p.left)| + 1, p.right)
    requires var z := i + |Text(p.left)| + 1 + |Text(p.right)|; s[z] == ',' || s[z] == '}'
    ensures var d := i + |Text(p.left)|;
            var z := d + 1 + |Text(p.right)|;
            && SkipWs(s, i) == Start(p.left, i) && 0 < Start(p.left, i) < |s|
            && ScanField(s, Start(p.left, i)) == Named(p.left.word.text, Some(FieldText(p.right.word.text, z)))
  {
    hide Text, Start, SkipWs, ItemAt, NoColon, ScanField, ScanFieldValue;
    NameOfField(s, i, p.left);
    ValueOfField(s, i + |Text(p.left)| + 1, p.right);
  }

  ghost function StructBody(pairs: seq<Pair>): string
    requires pairs != []
  {
    Text(pairs[0].left) + (":" + (Text(pairs[0].right) + if |pairs| == 1 then "}" + "" else "," + StructBody(pairs[1..])))
  }

  /** What the fields of a struct are cast to, from the left: a later field of a name replaces an earlier one. */
  ghost function EachField<L>(c: Codec<L>, ty: Type, pairs: seq<Pair>, vals: seq<Value<L>>): Parsed<L>
    requires ty.TStruct? && |vals| == |ty.fields|
    decreases |pairs|
  {
    if pairs == [] then Ok(Struct(vals)) else
    var idx := FieldIdx(ty.fields, pairs[0].left.word.text);
    if idx.None? then Err(BadFieldName) else
    var x := Parse(c, ty.fields[idx.value].ty, pairs[0].right.word.text);
    if x.Err? then Err(x.error) else EachField(c, ty, pairs[1..], vals[idx.value := x.value])
  }

  /** The first field of a struct, its delimiters, and what follows. */
  lemma StructHead(s: string, i: nat, pairs: seq<Pair>)
    requires pairs != [] && GoodItem(pairs[0].left) && GoodItem(pairs[0].right) && Stands(s, i, StructBody(pairs))
    ensures var d := i + |Text(pairs[0].left)|;
            var z := d + 1 + |Text(pairs[0].right)|;
            && ItemAt(s, i, pairs[0].left) && s[d] == ':' && ItemAt(s, d + 1, pairs[0].right)
            && s[z] == (if |pairs| == 1 then '}' else ',')
            && i + |StructBody(pairs)| == z + 1 + (if |pairs| == 1 then 0 else |StructBody(pairs[1..])|) <= |s|
            && (|pairs| > 1 ==> Stands(s, z + 1, StructBody(pairs[1..])))
  {
    hide Text, Show, GoodItem, Stands, ItemAt;
    var close, rest := if |pairs| == 1 then "}" else ",", if |pairs| == 1 then "" else StructBody(pairs[1..]);
    assert StructBody(pairs) == Text(pairs[0].left) + (":" + (Text(pairs[0].right) + (close + rest)));
    hide StructBody;
    PairStands(s, i, pairs[0], ":", close, rest);
    StandsWithin(s, i, StructBody(pairs));
  }

  lemma {:induction false} FieldsParse<L>(c: Codec<L>, ty: Type, s: string, i: nat, pairs: seq<Pair>, vals: seq<Value<L>>)
    requires ty.TStruct? && |vals| == |ty.fields| && 0 < i && pairs != [] && GoodPairs(pairs)
    requires forall k :: 0 <= k < |pairs| ==> NoColon(pairs[k].left)
    requires Stands(s, i, StructBody(pairs)) && Blank(s[i + |StructBody(pairs)|..])
    ensures SkipWs(s, i) == Start(pairs[0].left, i) && 0 < Start(pairs[0].left, i) < |s| && s[Start(pairs[0].left, i)] != '}'
    ensures ParseFields(c, ty, s, Start(pairs[0].left, i), vals) == EachField(c, ty, pairs, vals)
    decreases |pairs|
  {
    hide Text, Show, GoodItem, Start, End, SkipWs, ScanField, Stands, Parse, FieldIdx, NoColon, StructBody, ItemAt;
    var p := pairs[0];
    var z := i + |Text(p.left)| + 1 + |Text(p.right)|;
    StructHead(s, i, pairs);
    FieldScans(s, i, p);
    NotClosing(s, i, p.left);
    var idx := FieldIdx(ty.fields, p.left.word.text);
    if |pairs| == 1 {
      assert s[z + 1..|s|] == s[i + |StructBody(pairs)|..];
      SkipsBlanks(s, z + 1, |s|);
      assert idx.Some? ==> forall vs: seq<Value<L>> :: |vs| == |ty.fields| ==> EachField(c, ty, pairs[1..], vs) == Ok(Struct(vs));
    } else if idx.Some? {
      var x := Parse(c, ty.fields[idx.value].ty, p.right.word.text);
      if x.Ok? {
        FieldsParse(c, ty, s, z + 1, pairs[1..], vals[idx.value := x.value]);
      }
    }
  }

  /** A struct of words: the fields named, in any order and with or without quotes, have what their words, without
      quotes, are cast to; all others are null. */
  lemma FreeStruct<L>(c: Codec<L>, ty: Type, lead: string, pairs: seq<Pair>, trail: string)
    requires ty.TStruct? && Blank(lead) && Blank(trail) && pairs != [] && GoodPairs(pairs)
    requires forall k :: 0 <= k < |pairs| ==> NoColon(pairs[k].left)
    ensures Parse(c, ty, lead + "{" + (StructBody(pairs) + trail)) == EachField(c, ty, pairs, seq(|ty.fields|, _ => Null))
  {
    hide Text, Show, GoodItem, Start, End, ParseFields, StructBody, EachField;
    var s, i := lead + "{" + (StructBody(pairs) + trail), |lead| + 1;
    OpensAt(s, lead, '{', StructBody(pairs) + trail);
    assert s[i..i + |StructBody(pairs)|] == StructBody(pairs) && s[i + |StructBody(pairs)|..] == trail;
    var blank: seq<Value<L>> := seq(|ty.fields|, _ => Null);
    FieldsParse(c, ty, s, i, pairs, blank);
    assert ParseStruct(c, ty, s) == ParseFields(c, ty, s, Start(pairs[0].left, i), blank);
  }

  // ---------------------------------------------------------------- keys of parsed maps

  ghost predicate KeysDiffer<L>(es: seq<Entry<L>>) {
    && (forall i :: 0 <= i < |es| ==> !es[i].key.Null?)
    && (forall i, j :: 0 <= i < j < |es| ==> es[i].key != es[j].key)
  }

  lemma {:induction false} EntriesDiffer<L>(c: Codec<L>, ty: Type, s: string, parts: seq<MapPart>, done: seq<Entry<L>>, key: Value<L>)
    requires ty.TMap? && MapPartsInRange(parts, s) && KeysDiffer(done)
    requires parts != [] && parts[0].ValuePart? ==> !key.Null? && forall i :: 0 <= i < |done| ==> done[i].key != key
    requires forall k :: 0 <= k < |parts| - 1 ==> parts[k].ValuePart? ==> parts[k + 1].KeyPart?
    ensures var r := ParseEntries(c, ty, s, parts, done, key); r.Ok? ==> KeysDiffer(r.value)
    decreases |parts|
  {
    hide Parse, TrimRight;
    if parts != [] {
      var text := s[parts[0].from..TrimRight(s, parts[0].from, parts[0].to)];
      if parts[0].KeyPart? {
        var k := Parse(c, ty.key, text);
        if k.Ok? && !k.value.Null? && !HasKey(done, k.value) {
          EntriesDiffer(c, ty, s, parts[1..], done, k.value);
        }
      } else {
        var v := Parse(c, ty.val, text);
        if v.Ok? {
          EntriesDiffer(c, ty, s, parts[1..], done + [Entry(key, v.value)], key);
        }
      }
    }
  }

  /** A map that parses has keys that are not null and differ, whatever the text. */
  lemma KeysOfMap<L>(c: Codec<L>, ty: Type, s: string)
    requires ty.TMap? && Parse(c, ty, s).Ok? && Parse(c, ty, s) != Ok(Null)
    ensures Parse(c, ty, s).value.Map? && KeysDiffer(Parse(c, ty, s).value.entries)
  {
    hide ParseEntries, SplitMap, IsNullText;
    SplitMapInRange(s);
    TextCast.SplitMapAlternates(s);
    EntriesDiffer(c, ty, s, SplitMap(s).parts, [], Null);
  }

  // ---------------------------------------------------------------- empty and unclosed texts

  /** Braces around blanks: the empty map, and the struct of nulls. */
  lemma EmptyBraces<L>(c: Codec<L>, ty: Type, lead: string, blanks: string, trail: string)
    requires (ty.TMap? || ty.TStruct?) && Blank(lead) && Blank(blanks) && Blank(trail)
    ensures Parse(c, ty, lead + "{" + (blanks + "}" + trail)) ==
            Ok(if ty.TMap? then Map([]) else Struct(seq(|ty.fields|, _ => Null)))
  {
    hide ParseFields, MapLoop;
    var s, i := lead + "{" + (blanks + "}" + trail), |lead| + 1;
    OpensAt(s, lead, '{', blanks + "}" + trail);
    var d := i + |blanks|;
    assert s[i..d] == blanks && s[d] == '}' && s[d + 1..|s|] == trail;
    SkipsBlanks(s, i, d);
    SkipsBlanks(s, d + 1, |s|);
    if ty.TMap? {
      assert SplitMap(s) == MapSplit(true, []);
      TextTheorem.ParseMapUnfold(c, ty, s, []);
    }
  }

  /** A bracket, and behind it a closing one with nothing but blanks after it. */
  ghost predicate Bracketed(s: string, list: bool, i: nat, d: nat) {
    && i < d < |s| && Blank(s[..i]) && Blank(s[d + 1..])
    && s[i] == (if list then '[' else '{') && s[d] == if list then ']' else '}'
  }

  lemma RestIsBlank(s: string, d: nat)
    requires d < |s| && SkipWs(s, d + 1) == |s|
    ensures Blank(s[d + 1..])
  {
    SkippedIsBlank(s, d + 1);
    assert s[d + 1..|s|] == s[d + 1..];
  }

  lemma {:induction false} ListCloses(s: string, i: nat, start: nat, seen: bool, atStart: bool, lvl: Level) returns (d: nat)
    requires start <= i && ListLoop(s, i, start, seen, atStart, lvl).ok
    ensures i <= d < |s| && s[d] == ']' && Blank(s[d + 1..])
    decreases |s| - i
  {
    hide SkipLoop, CloseQuote, SkipWs;
    if s[i] == '[' {
      var r := SkipLoop(s, i + 1, Inc(lvl), ']');
      d := ListCloses(s, r.pos + 1, start, seen, false, r.lvl);
    } else if (s[i] == '\'' || s[i] == '"') && atStart {
      var q := CloseQuote(s, i + 1, s[i]);
      d := ListCloses(s, (if q.Some? then q.value else i) + 1, start, seen, false, lvl);
    } else if s[i] == '{' {
      d := ListCloses(s, SkipLoop(s, i + 1, 0, '}').pos + 1, start, seen, false, lvl);
    } else if s[i] == ']' {
      RestIsBlank(s, i);
      d := i;
    } else if s[i] == ',' {
      var j := SkipWs(s, i + 1);
      d := ListCloses(s, j, j, true, true, lvl);
    } else {
      d := ListCloses(s, i + 1, start, seen, false, lvl);
    }
  }

  lemma {:induction false} MapCloses(s: string, i: nat) returns (d: nat)
    requires MapLoop(s, i).ok
    ensures i <= d < |s| && s[d] == '}' && Blank(s[d + 1..])
    decreases |s| - i
  {
    hide ScanEntry, SkipWs;
    var r := ScanEntry(s, i);
    d := r.valueEnd;
    if s[d] == '}' {
      RestIsBlank(s, d);
    } else {
      d := MapCloses(s, SkipWs(s, d + 1));
    }
  }

  lemma {:induction false} StructCloses<L>(c: Codec<L>, ty: Type, s: string, i: nat, vals: seq<Value<L>>) returns (d: nat)
    requires ty.TStruct? && |vals| == |ty.fields| && 0 < i && ParseFields(c, ty, s, i, vals).Ok?
    ensures i <= d < |s| && s[d] == '}' && Blank(s[d + 1..])
    decreases |s| - i
  {
    hide ScanField, FieldIdx, Parse, SkipWs;
    var scan := ScanField(s, i);
    var r := StoreField(c, ty, s, scan, vals);
    d := scan.value.value.end;
    if r.Stop? {
      RestIsBlank(s, d);
    } else {
      d := StructCloses(c, ty, s, r.next, r.vals);
    }
  }

  lemma Opened(s: string, i: nat)
    requires i == SkipWs(s, 0) && i < |s|
    ensures Blank(s[..i])
  {
    SkippedIsBlank(s, 0);
    assert s[0..i] == s[..i];
  }

  /** A text that parses to a list, map or struct is in its brackets: what is not opened, not closed, or followed by
      anything but blanks is refused. */
  lemma OnlyBracketed<L>(c: Codec<L>, ty: Type, s: string)
    requires !ty.TLeaf? && Parse(c, ty, s).Ok? && Parse(c, ty, s) != Ok(Null)
    ensures exists i, d :: Bracketed(s, ty.TList?, i, d)
  {
    hide ParseElems, ParseEntries, ParseFields, ListLoop, MapLoop, SkipWs, IsNullText;
    var i := SkipWs(s, 0);
    assert i < |s|;
    Opened(s, i);
    var j := SkipWs(s, i + 1);
    var d: nat;
    if ty.TList? {
      d := ListCloses(s, j, j, false, true, 1);
    } else if s[j] == '}' {
      RestIsBlank(s, j);
      d := j;
    } else if ty.TMap? {
      d := MapCloses(s, j);
    } else {
      d := StructCloses(c, ty, s, j, seq(|ty.fields|, _ => Null));
    }
    assert Bracketed(s, ty.TList?, i, d);
  }
}
