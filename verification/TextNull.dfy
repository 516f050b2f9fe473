/**
 Which texts stand for null: the blank ones, and the word NULL in any case with blanks around it.
 */
module TextNull {
  import opened Wrappers
  import opened TextScan
  import opened TextModel

  ghost predicate Blank(t: string) {
    forall i :: 0 <= i < |t| ==> IsSpace(t[i])
  }

  /** White space of the C locale. */
  lemma SpaceChars(c: char)
    ensures IsSpace(c) <==> c in [' ', '\t', '\n', '\U{B}', '\U{C}', '\r']
  {
  }

  /** The letters have upper-case forms; nothing else changes. */
  lemma UpperChars()
    ensures UpperAll("abcdefghijklmnopqrstuvwxyz") == "ABCDEFGHIJKLMNOPQRSTUVWXYZ"
    ensures forall c: char :: !('a' <= c <= 'z') ==> Upper(c) == c
  {
  }

  // ---------------------------------------------------------------- white space at a cursor

  /** The cursor stops at the first character that is no white space. */
  lemma {:induction false} SkipsBlanks(s: string, i: nat, j: nat)
    requires i <= j <= |s| && Blank(s[i..j]) && (j < |s| ==> !IsSpace(s[j]))
    ensures SkipWs(s, i) == j
    decreases j - i
  {
    if i < j {
      assert s[i..j][0] == s[i];
      assert s[i + 1..j] == s[i..j][1..];
      SkipsBlanks(s, i + 1, j);
    }
  }

  lemma {:induction false} SkippedIsBlank(s: string, i: nat)
    requires i <= |s|
    ensures Blank(s[i..SkipWs(s, i)])
    decreases |s| - i
  {
    if i < |s| && IsSpace(s[i]) {
      SkippedIsBlank(s, i + 1);
      assert s[i..SkipWs(s, i)] == [s[i]] + s[i + 1..SkipWs(s, i + 1)];
    }
  }

  /** The end moves back to behind the last character that is no white space. */
  lemma {:induction false} TrimsBlanks(s: string, a: nat, j: nat, b: nat)
    requires a <= j <= b <= |s| && Blank(s[j..b]) && (a < j ==> !IsSpace(s[j - 1]))
    ensures TrimRight(s, a, b) == j
    decreases b - j
  {
    if j < b {
      assert s[j..b][b - 1 - j] == s[b - 1];
      assert s[j..b - 1] == s[j..b][..b - 1 - j];
      TrimsBlanks(s, a, j, b - 1);
    }
  }

  // ---------------------------------------------------------------- the word NULL

  /** The word NULL in any case at a position, and blanks elsewhere. */
  ghost predicate NullWordAt(s: string, i: nat) {
    i + 4 <= |s| && Blank(s[..i]) && UpperAll(s[i..i + 4]) == "NULL" && Blank(s[i + 4..])
  }

  ghost predicate MeansNull(s: string) {
    Blank(s) || exists i :: NullWordAt(s, i)
  }

  lemma LettersOfNull(s: string, i: nat)
    requires i + 4 <= |s|
    ensures UpperAll(s[i..i + 4]) == "NULL" <==>
              && IsLetter(s[i], 'N', 'n') && IsLetter(s[i + 1], 'U', 'u')
              && IsLetter(s[i + 2], 'L', 'l') && IsLetter(s[i + 3], 'L', 'l')
  {
    var w := s[i..i + 4];
    assert w == [s[i], s[i + 1], s[i + 2], s[i + 3]];
    assert UpperAll(w) == [Upper(s[i]), Upper(s[i + 1]), Upper(s[i + 2]), Upper(s[i + 3])];
    assert "NULL" == ['N', 'U', 'L', 'L'];
  }

  /** These texts and no others are taken for null. */
  lemma NullTextExactly(s: string)
    ensures IsNullText(s) <==> MeansNull(s)
  {
    var i := SkipWs(s, 0);
    SkippedIsBlank(s, 0);
    assert s[0..i] == s[..i];
    if IsNullText(s) {
      if i == |s| {
        assert s[..i] == s;
      } else {
        LettersOfNull(s, i);
        SkippedIsBlank(s, i + 4);
        assert s[i + 4..|s|] == s[i + 4..];
        assert NullWordAt(s, i);
      }
    }
    if Blank(s) {
      assert s[0..|s|] == s;
      SkipsBlanks(s, 0, |s|);
    } else if MeansNull(s) {
      var k: nat :| NullWordAt(s, k);
      LettersOfNull(s, k);
      assert s[0..k] == s[..k];
      SkipsBlanks(s, 0, k);
      assert s[k + 4..|s|] == s[k + 4..];
      SkipsBlanks(s, k + 4, |s|);
    }
  }

  /** Written out: blanks, the word in any case, blanks. */
  lemma NullWritten(a: string, w: string, b: string)
    requires Blank(a) && Blank(b) && UpperAll(w) == "NULL"
    ensures MeansNull(a + w + b)
  {
    var s := a + w + b;
    assert |w| == 4;
    assert s[..|a|] == a && s[|a|..|a| + 4] == w && s[|a| + 4..] == b;
    assert NullWordAt(s, |a|);
  }

  /** A parsed text is null exactly when it is one of the configured texts of its string type, or for any other
      type means null. */
  lemma ParseNullExactly<L>(c: Codec<L>, ty: Type, s: string)
    ensures Parse(c, ty, s) == Ok(Null) <==>
            if ty.TLeaf? && c.nulls(ty.kind).Some? then s in c.nulls(ty.kind).value else MeansNull(s)
  {
    NullTextExactly(s);
    hide IsNullText, MeansNull;
    if ty.TStruct? && !NullText(c, ty, s) {
      StructNotNull(c, ty, s);
    }
  }

  lemma StructNotNull<L>(c: Codec<L>, ty: Type, s: string)
    requires ty.TStruct?
    ensures ParseStruct(c, ty, s) != Ok(Null)
  {
    hide ParseFields;
    var i := SkipWs(s, 0);
    if i < |s| {
      FieldsNotNull(c, ty, s, SkipWs(s, i + 1), seq(|ty.fields|, _ => Null));
    }
  }

  lemma {:induction false} FieldsNotNull<L>(c: Codec<L>, ty: Type, s: string, i: nat, vals: seq<Value<L>>)
    requires ty.TStruct? && |vals| == |ty.fields| && 0 < i
    ensures ParseFields(c, ty, s, i, vals) != Ok(Null)
    decreases |s| - i
  {
    hide ScanField, FieldIdx, Parse, SkipWs;
    if i < |s| {
      var r := StoreField(c, ty, s, ScanField(s, i), vals);
      if r.Continue? {
        FieldsNotNull(c, ty, s, r.next, r.vals);
      }
    }
  }
}
