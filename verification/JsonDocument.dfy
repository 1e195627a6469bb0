/** `validate` and `reformat` on whole documents: what may stand before the tree, and which texts are turned down. */
module JsonDocument {
  import opened Text
  import opened JsonNumber
  import opened JsonParser
  import opened JsonText
  import opened JsonPrinter
  import opened JsonRoundTrip
  import opened JsonFaithful

  predicate Leading(blanks: string) { forall c :: c in blanks ==> c as int <= 32 }

  lemma {:induction false} TrimExact(blanks: string, s: string)
    requires Leading(blanks) && (s != "" ==> s[0] as int > 32)
    ensures Trim(blanks + s) == s
    decreases |blanks|
  {
    if blanks == "" {
      assert blanks + s == s;
    } else {
      assert (blanks + s)[0] == blanks[0] && blanks[0] in blanks;
      assert (blanks + s)[1..] == blanks[1..] + s;
      assert forall c :: c in blanks[1..] ==> c in blanks;
      TrimExact(blanks[1..], s);
    }
  }

  /** Behind any characters up to the blank, every rendering of an array or an object is read whole, what follows it is
      left, and `reformat` prints its meaning. */
  lemma DocumentAccepted(blanks: string, t: Tree, rest: string)
    requires Leading(blanks) && Valid(t) && (t.TArray? || t.TObject?)
    ensures ParseDocument(blanks + (TreeText(t) + rest)) == Parsed(true, Meaning(t), rest)
    ensures Reformat(blanks + (TreeText(t) + rest)) == Json(Meaning(t))
  {
    hide ParseArray, ParseObject, Json;
    var s := TreeText(t) + rest;
    assert s[0] == if t.TArray? then '[' else '{';
    TrimExact(blanks, s);
    assert GapText([]) + s == s;
    if t.TArray? { ParseArrayTree([], t, rest); } else { ParseObjectTree([], t, rest); }
  }

  /** Whatever else comes first, and nothing at all, is turned down, and `reformat` answers with an empty text. */
  lemma DocumentRejected(blanks: string, s: string)
    requires Leading(blanks) && (s == "" || (s[0] as int > 32 && s[0] != '[' && s[0] != '{'))
    ensures !ParseDocument(blanks + s).ok && Reformat(blanks + s) == ""
  {
    TrimExact(blanks, s);
  }
}
