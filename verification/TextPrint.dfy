/**
 The printed forms: texts of the parts joined by their separators, in brackets.
 */
module TextPrint {
  import opened TextModel

  ghost function Join(texts: seq<string>, separator: string): string {
    if texts == [] then "" else if |texts| == 1 then texts[0] else texts[0] + separator + Join(texts[1..], separator)
  }

  ghost function ElemTexts<L>(c: Codec<L>, ty: Type, es: seq<Value<L>>): seq<string>
    requires ty.TList?
  {
    seq(|es|, i requires 0 <= i < |es| => Print(c, ty.elem, es[i]))
  }

  ghost function EntryTexts<L>(c: Codec<L>, ty: Type, es: seq<Entry<L>>): seq<string>
    requires ty.TMap?
  {
    seq(|es|, i requires 0 <= i < |es| => Print(c, ty.key, es[i].key) + "=" + Print(c, ty.val, es[i].val))
  }

  ghost function FieldTexts<L>(c: Codec<L>, ty: Type, vs: seq<Value<L>>): seq<string>
    requires ty.TStruct? && |vs| == |ty.fields|
  {
    seq(|vs|, i requires 0 <= i < |vs| => ty.fields[i].name + ": " + Print(c, ty.fields[i].ty, vs[i]))
  }

  lemma {:induction false} ElemsJoined<L>(c: Codec<L>, ty: Type, v: Value<L>, i: nat)
    requires ty.TList? && v.List? && i <= |v.elems|
    ensures PrintElems(c, ty, v, i) == Join(ElemTexts(c, ty, v.elems)[i..], ",")
    decreases |v.elems| - i
  {
    hide Print;
    var texts := ElemTexts(c, ty, v.elems);
    if i < |v.elems| {
      ElemsJoined(c, ty, v, i + 1);
      assert texts[i..][1..] == texts[i + 1..];
    }
  }

  lemma {:induction false} EntriesJoined<L>(c: Codec<L>, ty: Type, v: Value<L>, i: nat)
    requires ty.TMap? && v.Map? && i <= |v.entries|
    ensures PrintEntries(c, ty, v, i) == Join(EntryTexts(c, ty, v.entries)[i..], ", ")
    decreases |v.entries| - i
  {
    hide Print;
    var texts := EntryTexts(c, ty, v.entries);
    if i < |v.entries| {
      EntriesJoined(c, ty, v, i + 1);
      assert texts[i..][1..] == texts[i + 1..];
    }
  }

  lemma {:induction false} FieldsJoined<L>(c: Codec<L>, ty: Type, v: Value<L>, i: nat)
    requires ty.TStruct? && v.Struct? && |v.vals| == |ty.fields| && i <= |v.vals|
    ensures PrintFields(c, ty, v, i) == Join(FieldTexts(c, ty, v.vals)[i..], ", ")
    decreases |v.vals| - i
  {
    hide Print;
    var texts := FieldTexts(c, ty, v.vals);
    if i < |v.vals| {
      FieldsJoined(c, ty, v, i + 1);
      assert texts[i..][1..] == texts[i + 1..];
    }
  }

  /** Null prints as nothing; lists in square brackets, with commas; maps in braces, with equals signs, commas and
      blanks; structs in braces, with colons and blanks behind the names, commas and blanks. */
  lemma Printed<L>(c: Codec<L>, ty: Type, v: Value<L>)
    requires HasType(v, ty)
    ensures v.Null? ==> Print(c, ty, v) == ""
    ensures v.Leaf? ==> Print(c, ty, v) == c.show(ty.kind, v.x)
    ensures v.List? ==> Print(c, ty, v) == "[" + Join(ElemTexts(c, ty, v.elems), ",") + "]"
    ensures v.Map? ==> Print(c, ty, v) == "{" + Join(EntryTexts(c, ty, v.entries), ", ") + "}"
    ensures v.Struct? ==> Print(c, ty, v) == "{" + Join(FieldTexts(c, ty, v.vals), ", ") + "}"
  {
    if v.List? {
      ElemsJoined(c, ty, v, 0);
      assert ElemTexts(c, ty, v.elems)[0..] == ElemTexts(c, ty, v.elems);
    } else if v.Map? {
      EntriesJoined(c, ty, v, 0);
      assert EntryTexts(c, ty, v.entries)[0..] == EntryTexts(c, ty, v.entries);
    } else if v.Struct? {
      FieldsJoined(c, ty, v, 0);
      assert FieldTexts(c, ty, v.vals)[0..] == FieldTexts(c, ty, v.vals);
    }
  }
}
