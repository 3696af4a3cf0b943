/**
 Splitting a string into fields on a single delimiter character.

 Every delimiter closes the current field and opens a new one, and the last
 field is closed at the end of the text whether or not it is empty. Hence
 empty fields survive (a leading, a trailing or a doubled delimiter each gives
 one) and there is always exactly one field more than there are delimiters.
 */
module Splitting {

  /** The fields of `text` between occurrences of `delim`, in order. */
  function Split(text: string, delim: char): (fields: seq<string>)
    ensures |fields| >= 1
    ensures forall i :: 0 <= i < |fields| ==> delim !in fields[i]
    decreases |text|
  {
    if text == [] then [""]
    else
      var rest := Split(text[1..], delim);
      if text[0] == delim then [""] + rest
      else [[text[0]] + rest[0]] + rest[1..]
  }

  /** The number of fields is the number of delimiters plus one. */
  lemma {:induction false} SplitCount(text: string, delim: char)
    ensures |Split(text, delim)| == multiset(text)[delim] + 1
    decreases |text|
  {
    if text != [] {
      SplitCount(text[1..], delim);
      assert text == [text[0]] + text[1..];
      assert multiset(text) == multiset{text[0]} + multiset(text[1..]);
    }
  }

  /** A text without the delimiter is a single field, and only such a text is. */
  lemma {:induction false} SplitWithoutDelimiter(text: string, delim: char)
    ensures Split(text, delim) == [text] <==> delim !in text
    decreases |text|
  {
    if text != [] && delim !in text {
      SplitWithoutDelimiter(text[1..], delim);
      assert [text[0]] + text[1..] == text;
    } else if Split(text, delim) == [text] {
      assert Split(text, delim)[0] == text;
    }
  }

  /** A delimiter between `left` and `right` separates their fields and joins none of them. */
  lemma {:induction false} SplitAtDelimiter(left: string, right: string, delim: char)
    ensures Split(left + [delim] + right, delim) == Split(left, delim) + Split(right, delim)
    decreases |left|
  {
    var text := left + [delim] + right;
    if left == [] {
      assert text[0] == delim && text[1..] == right;
    } else {
      assert text[0] == left[0];
      assert text[1..] == left[1..] + [delim] + right;
      SplitAtDelimiter(left[1..], right, delim);
    }
  }

  /** A leading delimiter gives an empty first field. */
  lemma SplitLeadingDelimiter(right: string, delim: char)
    ensures Split([delim] + right, delim) == [""] + Split(right, delim)
  {
    SplitAtDelimiter([], right, delim);
    assert [] + [delim] + right == [delim] + right;
  }

  /** A trailing delimiter gives an empty last field. */
  lemma SplitTrailingDelimiter(left: string, delim: char)
    ensures Split(left + [delim], delim) == Split(left, delim) + [""]
  {
    SplitAtDelimiter(left, [], delim);
    assert left + [delim] + [] == left + [delim];
  }

  /** Two consecutive delimiters give an empty field between them. */
  lemma SplitConsecutiveDelimiters(left: string, right: string, delim: char)
    ensures Split(left + [delim, delim] + right, delim)
         == Split(left, delim) + [""] + Split(right, delim)
  {
    SplitAtDelimiter(left, [delim] + right, delim);
    SplitLeadingDelimiter(right, delim);
    assert left + [delim, delim] + right == left + [delim] + ([delim] + right);
  }

  /** "a,b,c" splits into three fields. */
  lemma SplitBasicExample()
    ensures Split("a,b,c", ',') == ["a", "b", "c"]
  {
    SplitWithoutDelimiter("a", ',');
    SplitWithoutDelimiter("b", ',');
    SplitWithoutDelimiter("c", ',');
    SplitAtDelimiter("b", "c", ',');
    assert "b" + [','] + "c" == "b,c";
    SplitAtDelimiter("a", "b,c", ',');
    assert "a" + [','] + "b,c" == "a,b,c";
  }

  /** Runs of delimiters in "a,,b,,,c" give empty fields between them. */
  lemma SplitConsecutiveExample()
    ensures Split("a,,b,,,c", ',') == ["a", "", "b", "", "", "c"]
  {
    SplitWithoutDelimiter("a", ',');
    SplitWithoutDelimiter("b", ',');
    SplitWithoutDelimiter("c", ',');
    SplitLeadingDelimiter("c", ',');
    assert [','] + "c" == ",c";
    SplitConsecutiveDelimiters("b", ",c", ',');
    assert "b" + [',', ','] + ",c" == "b,,,c";
    SplitConsecutiveDelimiters("a", "b,,,c", ',');
    assert "a" + [',', ','] + "b,,,c" == "a,,b,,,c";
  }

  /** The remaining cases of the Split test suite. */
  lemma SplitEdgeExamples()
    ensures Split("abc", ',') == ["abc"]
    ensures Split(",a,b", ',') == ["", "a", "b"]
    ensures Split("a,b,", ',') == ["a", "b", ""]
    ensures Split("", ',') == [""]
  {
    SplitWithoutDelimiter("abc", ',');
    assert Split("a,b", ',') == ["a", "b"] by {
      SplitWithoutDelimiter("a", ',');
      SplitWithoutDelimiter("b", ',');
      SplitAtDelimiter("a", "b", ',');
      assert "a" + [','] + "b" == "a,b";
    }
    SplitLeadingDelimiter("a,b", ',');
    assert [','] + "a,b" == ",a,b";
    SplitTrailingDelimiter("a,b", ',');
    assert "a,b" + [','] == "a,b,";
  }
}
