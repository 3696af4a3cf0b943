/**
 How Split and Join relate when the glue is the delimiter itself.

 Joining the fields of a split gives the text back. Splitting a join gives the
 parts back only when no part contains the delimiter; a part that does is
 copied verbatim by Join and then cut apart by Split.
 */
module SplitJoin {
  import opened Splitting
  import opened Joining

  /** Prepending a character to the first part prepends it to the joined string. */
  lemma ConsFirstPart(c: char, first: string, others: seq<string>, glue: string)
    ensures Join([[c] + first] + others, glue) == [c] + Join([first] + others, glue)
  {
    var parts, parts' := [[c] + first] + others, [first] + others;
    assert parts[1..] == others && parts'[1..] == others;
  }

  /** Joining the fields of a split with the delimiter restores the text. */
  lemma {:induction false} JoinOfSplit(text: string, delim: char)
    ensures Join(Split(text, delim), [delim]) == text
    decreases |text|
  {
    if text != [] {
      var rest := Split(text[1..], delim);
      JoinOfSplit(text[1..], delim);
      if text[0] == delim {
        assert ([""] + rest)[1..] == rest;
      } else {
        assert rest == [rest[0]] + rest[1..];
        ConsFirstPart(text[0], rest[0], rest[1..], [delim]);
      }
      assert text == [text[0]] + text[1..];
    }
  }

  /** Splitting a join of delimiter-free parts gives the parts back. */
  lemma {:induction false} SplitOfJoin(parts: seq<string>, delim: char)
    requires |parts| > 0
    requires forall i :: 0 <= i < |parts| ==> delim !in parts[i]
    ensures Split(Join(parts, [delim]), delim) == parts
    decreases |parts|
  {
    SplitWithoutDelimiter(parts[0], delim);
    if |parts| > 1 {
      SplitOfJoin(parts[1..], delim);
      SplitAtDelimiter(parts[0], Join(parts[1..], [delim]), delim);
      assert parts[0] + [delim] + Join(parts[1..], [delim]) == Join(parts, [delim]);
      assert parts == [parts[0]] + parts[1..];
    }
  }

  /** A part holding the glue is copied verbatim, so splitting the join no longer recovers the parts. */
  lemma JoinKeepsGlueInParts()
    ensures Join(["a-b", "c"], "-") == "a-b-c"
    ensures Split(Join(["a-b", "c"], "-"), '-') == ["a", "b", "c"]
  {
    SplitWithoutDelimiter("a", '-');
    SplitWithoutDelimiter("b", '-');
    SplitWithoutDelimiter("c", '-');
    SplitAtDelimiter("b", "c", '-');
    assert "b" + ['-'] + "c" == "b-c";
    SplitAtDelimiter("a", "b-c", '-');
    assert "a" + ['-'] + "b-c" == "a-b-c";
  }
}
