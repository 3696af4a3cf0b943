/**
 Joining a sequence of strings with a glue string.

 The parts are copied verbatim and in order; the glue goes strictly between
 two consecutive parts, never before the first or after the last.
 */
module Joining {

  /**
   The parts, in order, with `glue` between each two neighbours. The result
   starts with the first part: no glue is put before it (JoinEndsWithLast
   gives the other end).
   */
  function Join(parts: seq<string>, glue: string): (r: string)
    ensures |parts| > 0 ==> parts[0] <= r
    decreases |parts|
  {
    if |parts| == 0 then ""
    else if |parts| == 1 then parts[0]
    else parts[0] + glue + Join(parts[1..], glue)
  }

  /** The joined string ends with the last part: no glue is put after it. */
  lemma {:induction false} JoinEndsWithLast(parts: seq<string>, glue: string)
    requires |parts| > 0
    ensures var r, last := Join(parts, glue), parts[|parts| - 1];
      |last| <= |r| && r[|r| - |last|..] == last
    decreases |parts|
  {
    if |parts| > 1 {
      JoinEndsWithLast(parts[1..], glue);
      var tail := Join(parts[1..], glue);
      var last := parts[|parts| - 1];
      assert parts[1..][|parts| - 2] == last;
      var r := parts[0] + glue + tail;
      assert r[|r| - |last|..] == tail[|tail| - |last|..];
    }
  }

  /** Plain concatenation of the parts: the reference that Join with empty glue must agree with. */
  function Concat(parts: seq<string>): (r: string)
    decreases |parts|
  {
    if parts == [] then "" else parts[0] + Concat(parts[1..])
  }

  /** No parts give the empty string; one part is returned as it is, and the glue plays no role. */
  lemma JoinFewParts(part: string, glue: string)
    ensures Join([], glue) == ""
    ensures Join([part], glue) == part
  {
  }

  /** Joining two non-empty runs of parts glues the two joined strings together. */
  lemma {:induction false} JoinConcat(left: seq<string>, right: seq<string>, glue: string)
    requires |left| > 0 && |right| > 0
    ensures Join(left + right, glue) == Join(left, glue) + glue + Join(right, glue)
    decreases |left|
  {
    var parts := left + right;
    if |left| == 1 {
      assert parts[0] == left[0] && parts[1..] == right;
    } else {
      assert parts[0] == left[0] && parts[1..] == left[1..] + right;
      JoinConcat(left[1..], right, glue);
    }
  }

  /**
   Every part appears verbatim in the joined string, preceded by the glue
   exactly when it is not the first part and followed by it exactly when it is
   not the last.
   */
  lemma JoinAroundPart(parts: seq<string>, glue: string, i: nat)
    requires i < |parts|
    ensures Join(parts, glue)
         == Join(parts[..i], glue)
          + (if i > 0 then glue else "")
          + parts[i]
          + (if i < |parts| - 1 then glue else "")
          + Join(parts[i + 1..], glue)
  {
    var before, after := parts[..i], parts[i + 1..];
    if i > 0 {
      JoinConcat(before, parts[i..], glue);
      assert parts == before + parts[i..];
    }
    if i < |parts| - 1 {
      JoinConcat([parts[i]], after, glue);
      assert parts[i..] == [parts[i]] + after;
    }
  }

  /** With empty glue, Join is plain concatenation. */
  lemma {:induction false} JoinEmptyGlue(parts: seq<string>)
    ensures Join(parts, "") == Concat(parts)
    decreases |parts|
  {
    if |parts| == 1 {
      assert parts[1..] == [];
    } else if |parts| > 1 {
      JoinEmptyGlue(parts[1..]);
    }
  }

  /** The joined length is the parts' total length plus one glue per gap between parts. */
  lemma {:induction false} JoinLength(parts: seq<string>, glue: string)
    requires |parts| > 0
    ensures |Join(parts, glue)| == |Concat(parts)| + (|parts| - 1) * |glue|
    decreases |parts|
  {
    if |parts| == 1 {
      assert parts[1..] == [];
    } else {
      JoinLength(parts[1..], glue);
    }
  }

  /** The cases of the Join test suite. */
  lemma JoinExamples()
    ensures Join([], ",") == ""
    ensures Join(["hello"], ", ") == "hello"
    ensures Join(["a", "b", "c"], "-") == "a-b-c"
    ensures Join(["a", "b", "c"], "") == "abc"
    ensures Join(["a-b", "c"], "-") == "a-b-c"
  {
  }
}
