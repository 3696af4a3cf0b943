/**
 Removing the occurrences of a pattern from a string.

 The string is scanned left to right. Each occurrence found is erased, and the
 next search starts again at the index of the erased occurrence. The text from
 that index on is then an unchanged suffix of the original string, so the scan
 erases exactly the leftmost non-overlapping occurrences of the original
 string (RemoveAllIsCut) and never finds an occurrence formed by an erasure.
 An empty pattern leaves the string as it is.

 So the policy does not promise that no occurrence survives: an occurrence
 formed by an erasure starts left of the resume index and is not searched for
 again (see ResumePolicyExample). A one-character pattern cannot be formed
 that way and is removed completely.
 */
module SubstringRemoval {

  datatype Option<T> = None | Some(value: T)

  /** `pat` occurs in `s` starting at index `i`. */
  predicate OccursAt(s: string, pat: string, i: int)
  {
    0 <= i && i + |pat| <= |s| && s[i..i + |pat|] == pat
  }

  /** The first index at or after `from` where `pat` occurs in `s`, as a string search does. */
  function Find(s: string, pat: string, from: nat): (r: Option<nat>)
    ensures r.Some? ==> from <= r.value && OccursAt(s, pat, r.value)
    ensures forall j :: from <= j && (r.None? || j < r.value) ==> !OccursAt(s, pat, j)
    decreases |s| - from
  {
    if from + |pat| > |s| then None
    else if s[from..from + |pat|] == pat then Some(from)
    else Find(s, pat, from + 1)
  }

  /** `s` with the occurrence of `pat` at index `i` erased. */
  function EraseAt(s: string, pat: string, i: nat): (r: string)
    requires OccursAt(s, pat, i)
    ensures |r| == |s| - |pat|
    ensures r[..i] == s[..i] && r[i..] == s[i + |pat|..]
  {
    s[..i] + s[i + |pat|..]
  }

  /** What the scan leaves of `s` when its next search starts at `from`. */
  function RemoveFrom(s: string, pat: string, from: nat): (r: string)
    requires |pat| > 0
    ensures |r| <= |s|
    decreases |s|
  {
    match Find(s, pat, from)
    case None => s
    case Some(i) => RemoveFrom(EraseAt(s, pat, i), pat, i)
  }

  /** What the whole scan leaves of `s`; an empty pattern removes nothing. */
  function RemoveAll(s: string, pat: string): (r: string)
    ensures |r| <= |s|
  {
    if |pat| == 0 then s else RemoveFrom(s, pat, 0)
  }

  /**
   Erases occurrences of `s2` from a working copy of `s1`, searching again
   from the erasure index after each erasure, until a search fails.
   */
  method RemoveAllSubstrings(s1: string, s2: string) returns (r: string)
    ensures r == RemoveAll(s1, s2)
  {
    r := s1;
    if |s2| == 0 {
      return;
    }
    ghost var from: nat := 0;
    var pos := Find(r, s2, 0);
    while pos.Some?
      invariant pos == Find(r, s2, from)
      invariant RemoveFrom(r, s2, from) == RemoveFrom(s1, s2, 0)
      decreases |r|
    {
      var i := pos.value;
      r := EraseAt(r, s2, i);
      from := i;
      pos := Find(r, s2, i);
    }
  }

  /** Nothing is removed exactly when the pattern is empty or does not occur. */
  lemma RemoveAllUnchanged(s: string, pat: string)
    ensures RemoveAll(s, pat) == s <==> |pat| == 0 || forall j :: !OccursAt(s, pat, j)
  {
    if |pat| > 0 {
      match Find(s, pat, 0)
      case None =>
      case Some(i) =>
        assert |RemoveAll(s, pat)| <= |s| - |pat|;
    }
  }

  /** The scan never goes back: the text before its resume index comes out unchanged. */
  lemma {:induction false} RemoveFromKeepsPrefix(s: string, pat: string, from: nat)
    requires |pat| > 0 && from <= |s|
    ensures from <= |RemoveFrom(s, pat, from)|
    ensures RemoveFrom(s, pat, from)[..from] == s[..from]
    decreases |s|
  {
    match Find(s, pat, from)
    case None =>
    case Some(i) =>
      var s' := EraseAt(s, pat, i);
      RemoveFromKeepsPrefix(s', pat, i);
      assert s'[..from] == s[..from];
  }

  /**
   `s` with its leftmost non-overlapping occurrences of `pat` cut out, in one
   pass over the original string: the reference for the whole scan, with no
   erasure and no resume index. An empty pattern cuts nothing.
   */
  function Cut(s: string, pat: string): (r: string)
    decreases |s|
  {
    if |pat| == 0 || |s| < |pat| then s
    else if s[..|pat|] == pat then Cut(s[|pat|..], pat)
    else [s[0]] + Cut(s[1..], pat)
  }

  /** Cut copies a prefix of `s` in which no occurrence starts. */
  lemma {:induction false} CutSkip(s: string, pat: string, k: nat)
    requires |pat| > 0 && k <= |s|
    requires forall j :: 0 <= j < k ==> !OccursAt(s, pat, j)
    ensures Cut(s, pat) == s[..k] + Cut(s[k..], pat)
    decreases k
  {
    if k > 0 {
      if |s| < |pat| {
        assert |s[k..]| < |pat|;
        assert s == s[..k] + s[k..];
      } else {
        assert !OccursAt(s, pat, 0) && s[..|pat|] == s[0..|pat|];
        NoneInSuffix(s, pat, 1, k - 1);
        CutSkip(s[1..], pat, k - 1);
        HeadThenPrefix(s, k, Cut(s[k..], pat));
      }
    }
  }

  /** The first character, then `k - 1` more, then `rest`, is the first `k` characters followed by `rest`. */
  lemma HeadThenPrefix(s: string, k: nat, rest: string)
    requires 0 < k <= |s|
    ensures s[1..][k - 1..] == s[k..]
    ensures [s[0]] + (s[1..][..k - 1] + rest) == s[..k] + rest
  {
    assert [s[0]] + s[1..][..k - 1] == s[..k];
  }

  /** No occurrence in `s` from `from` on for `k` positions is none in `s[from..]` for its first `k`. */
  lemma NoneInSuffix(s: string, pat: string, from: nat, k: nat)
    requires |pat| > 0 && from + k <= |s|
    requires forall j :: from <= j < from + k ==> !OccursAt(s, pat, j)
    ensures forall j :: 0 <= j < k ==> !OccursAt(s[from..], pat, j)
  {
    var t := s[from..];
    forall j | 0 <= j < k ensures !OccursAt(t, pat, j) {
      assert !OccursAt(s, pat, from + j);
      if j + |pat| <= |t| {
        assert t[j..j + |pat|] == s[from + j..from + j + |pat|];
      }
    }
  }

  /** Cutting from `from` when the first occurrence there is at `i`: the text up to `i` is copied, the occurrence cut. */
  lemma CutThroughFirst(s: string, pat: string, from: nat, i: nat)
    requires |pat| > 0 && from <= i && OccursAt(s, pat, i)
    requires forall j :: from <= j < i ==> !OccursAt(s, pat, j)
    ensures Cut(s[from..], pat) == s[from..i] + Cut(s[i + |pat|..], pat)
  {
    var t := s[from..];
    NoneInSuffix(s, pat, from, i - from);
    CutSkip(t, pat, i - from);
    assert t[i - from..] == s[i..] && t[..i - from] == s[from..i];
    CutFront(s, pat, i);
  }

  /** Cut at an occurrence cuts it and goes on after it. */
  lemma CutFront(s: string, pat: string, i: nat)
    requires |pat| > 0 && OccursAt(s, pat, i)
    ensures Cut(s[i..], pat) == Cut(s[i + |pat|..], pat)
  {
    var u := s[i..];
    assert u[..|pat|] == s[i..i + |pat|];
    assert u[|pat|..] == s[i + |pat|..];
  }

  /** The same, with the untouched text before `from` in front. */
  lemma CutAtFirst(s: string, pat: string, from: nat, i: nat)
    requires |pat| > 0 && from <= i && OccursAt(s, pat, i)
    requires forall j :: from <= j < i ==> !OccursAt(s, pat, j)
    ensures s[..from] + Cut(s[from..], pat) == s[..i] + Cut(s[i + |pat|..], pat)
  {
    CutThroughFirst(s, pat, from, i);
    PrefixThenMiddle(s, from, i, Cut(s[i + |pat|..], pat));
  }

  /** Text up to `a`, then from `a` to `b`, then `rest`, is the text up to `b` followed by `rest`. */
  lemma PrefixThenMiddle(s: string, a: nat, b: nat, rest: string)
    requires a <= b <= |s|
    ensures s[..a] + (s[a..b] + rest) == s[..b] + rest
  {
    assert s[..a] + s[a..b] == s[..b];
  }

  /** Cutting from `from` when no occurrence starts there or later leaves `s` as it is. */
  lemma CutAtNone(s: string, pat: string, from: nat)
    requires |pat| > 0 && from <= |s|
    requires forall j :: from <= j ==> !OccursAt(s, pat, j)
    ensures s[..from] + Cut(s[from..], pat) == s
  {
    var t := s[from..];
    NoneInSuffix(s, pat, from, |t|);
    CutSkip(t, pat, |t|);
    assert t[|t|..] == [] && t[..|t|] == t;
    assert s == s[..from] + t;
  }

  /**
   The scan from `from` keeps the text before `from` and cuts the rest of the
   string as Cut does: erasing and resuming at the erasure index never finds
   an occurrence that the erasure formed.
   */
  lemma {:induction false} RemoveFromIsCut(s: string, pat: string, from: nat)
    requires |pat| > 0 && from <= |s|
    ensures RemoveFrom(s, pat, from) == s[..from] + Cut(s[from..], pat)
    decreases |s|
  {
    match Find(s, pat, from)
    case None =>
      CutAtNone(s, pat, from);
    case Some(i) =>
      RemoveFromIsCut(EraseAt(s, pat, i), pat, i);
      CutAtFirst(s, pat, from, i);
  }

  /** The whole scan erases exactly the leftmost non-overlapping occurrences of the original string. */
  lemma RemoveAllIsCut(s: string, pat: string)
    ensures RemoveAll(s, pat) == Cut(s, pat)
  {
    if |pat| > 0 {
      RemoveFromIsCut(s, pat, 0);
      assert s[0..] == s;
    }
  }

  /** `pat` repeated `k` times. */
  function Repeat(pat: string, k: nat): (r: string)
    decreases k
  {
    if k == 0 then "" else pat + Repeat(pat, k - 1)
  }

  /** One erasure removes exactly the characters of one copy of the pattern. */
  lemma EraseAtRemovesCopy(s: string, pat: string, i: nat)
    requires OccursAt(s, pat, i)
    ensures multiset(s) == multiset(EraseAt(s, pat, i)) + multiset(pat)
  {
    assert s == s[..i] + pat + s[i + |pat|..] by {
      assert s[..i] + s[i..i + |pat|] + s[i + |pat|..] == s;
    }
  }

  /** As a multiset, the characters that the scan removes are those of some number of copies of `pat`. */
  lemma {:induction false} RemoveFromErasesCopies(s: string, pat: string, from: nat)
    requires |pat| > 0
    ensures exists k: nat :: multiset(s) == multiset(RemoveFrom(s, pat, from)) + multiset(Repeat(pat, k))
    decreases |s|
  {
    var r := RemoveFrom(s, pat, from);
    match Find(s, pat, from)
    case None =>
      assert multiset(s) == multiset(r) + multiset(Repeat(pat, 0));
    case Some(i) =>
      var s' := EraseAt(s, pat, i);
      RemoveFromErasesCopies(s', pat, i);
      var k: nat :| multiset(s') == multiset(r) + multiset(Repeat(pat, k));
      EraseAtRemovesCopy(s, pat, i);
      assert multiset(Repeat(pat, k + 1)) == multiset(pat) + multiset(Repeat(pat, k));
  }

  /** As a multiset, the characters that the whole scan removes are those of some number of copies of `pat`. */
  lemma RemoveAllErasesCopies(s: string, pat: string)
    ensures exists k: nat :: multiset(s) == multiset(RemoveAll(s, pat)) + multiset(Repeat(pat, k))
  {
    if |pat| == 0 {
      assert multiset(s) == multiset(RemoveAll(s, pat)) + multiset(Repeat(pat, 0));
    } else {
      RemoveFromErasesCopies(s, pat, 0);
    }
  }

  /** `s` without any `c`: the reference for removing a one-character pattern. */
  function Without(s: string, c: char): (r: string)
    decreases |s|
  {
    if s == [] then ""
    else if s[0] == c then Without(s[1..], c)
    else [s[0]] + Without(s[1..], c)
  }

  /** Dropping the `c`s of the two halves of a string drops those of the whole. */
  lemma {:induction false} WithoutConcat(x: string, y: string, c: char)
    ensures Without(x + y, c) == Without(x, c) + Without(y, c)
    decreases |x|
  {
    if x == [] {
      assert x + y == y;
    } else {
      assert (x + y)[0] == x[0] && (x + y)[1..] == x[1..] + y;
      WithoutConcat(x[1..], y, c);
    }
  }

  /** A string without `c` is its own `c`-free version. */
  lemma {:induction false} WithoutAbsent(s: string, c: char)
    requires c !in s
    ensures Without(s, c) == s
    decreases |s|
  {
    if s != [] {
      WithoutAbsent(s[1..], c);
      assert s == [s[0]] + s[1..];
    }
  }

  /** Erasing single `c`s does not change which other characters remain, nor their order. */
  lemma {:induction false} RemoveFromKeepsOthers(s: string, c: char, from: nat)
    ensures Without(RemoveFrom(s, [c], from), c) == Without(s, c)
    decreases |s|
  {
    match Find(s, [c], from)
    case None =>
    case Some(i) =>
      var s' := EraseAt(s, [c], i);
      assert s == s[..i] + [c] + s[i + 1..];
      assert s' == s[..i] + s[i + 1..];
      WithoutConcat(s[..i] + [c], s[i + 1..], c);
      WithoutConcat(s[..i], [c], c);
      WithoutConcat(s[..i], s[i + 1..], c);
      assert Without([c], c) == "";
      RemoveFromKeepsOthers(s', c, i);
  }

  /** With a one-character pattern the scan leaves no `c` behind, given none before its resume index. */
  lemma {:induction false} RemoveFromSingleCharClears(s: string, c: char, from: nat)
    requires forall j :: 0 <= j < from && j < |s| ==> s[j] != c
    ensures c !in RemoveFrom(s, [c], from)
    decreases |s|
  {
    match Find(s, [c], from)
    case None =>
      forall j | 0 <= j < |s| ensures s[j] != c {
        if from <= j {
          assert !OccursAt(s, [c], j);
          assert s[j..j + 1] == [s[j]];
        }
      }
    case Some(i) =>
      var s' := EraseAt(s, [c], i);
      forall j | 0 <= j < i && j < |s'| ensures s'[j] != c {
        assert s'[j] == s'[..i][j] == s[..i][j] == s[j];
        if from <= j {
          assert !OccursAt(s, [c], j);
          assert s[j..j + 1] == [s[j]];
        }
      }
      RemoveFromSingleCharClears(s', c, i);
  }

  /** A one-character pattern is removed completely, leaving every other character in order. */
  lemma RemoveAllSingleChar(s: string, c: char)
    ensures RemoveAll(s, [c]) == Without(s, c)
    ensures c !in RemoveAll(s, [c])
  {
    var r := RemoveAll(s, [c]);
    RemoveFromSingleCharClears(s, c, 0);
    WithoutAbsent(r, c);
    RemoveFromKeepsOthers(s, c, 0);
  }

  /** Both non-overlapping pairs of the original "aaaa" are erased. */
  lemma OverlapExample()
    ensures RemoveAll("aaaa", "aa") == ""
  {
  }

  /** A search that meets no first character of `pat` before `i` finds `pat` at `i`, or nothing when `i` is the end. */
  lemma FindSkipping(s: string, pat: string, from: nat, i: nat)
    requires |pat| > 0 && from <= i <= |s|
    requires pat[0] !in s[from..i]
    ensures OccursAt(s, pat, i) ==> Find(s, pat, from) == Some(i)
    ensures i == |s| ==> Find(s, pat, from) == None
  {
    match Find(s, pat, from)
    case None =>
    case Some(v) =>
      assert s[v] == s[v..v + |pat|][0] == pat[0];
  }

  /** One step of the scan: the next occurrence at `i` is erased and the search resumes at `i`. */
  lemma RemoveFromStep(s: string, pat: string, from: nat, i: nat)
    requires |pat| > 0 && from <= i <= |s|
    requires pat[0] !in s[from..i] && OccursAt(s, pat, i)
    ensures RemoveFrom(s, pat, from) == RemoveFrom(EraseAt(s, pat, i), pat, i)
  {
    FindSkipping(s, pat, from, i);
  }

  /** The scan ends when no first character of `pat` is left at or after `from`. */
  lemma RemoveFromDone(s: string, pat: string, from: nat)
    requires |pat| > 0 && from <= |s|
    requires pat[0] !in s[from..]
    ensures RemoveFrom(s, pat, from) == s
  {
    FindSkipping(s, pat, from, |s|);
  }

  /**
   Two occurrences separated by text that holds no first character of the
   pattern are both erased, and nothing else is.
   */
  lemma RemoveAllTwoSeparated(x: string, y: string, z: string, pat: string)
    requires |pat| > 0 && pat[0] !in x && pat[0] !in y && pat[0] !in z
    ensures RemoveAll(x + pat + y + pat + z, pat) == x + y + z
  {
    var s0, s1 := x + pat + y + pat + z, x + y + pat + z;
    var i, k := |x|, |x| + |y|;
    assert s0[..i] == x && s0[i..i + |pat|] == pat && s0[i + |pat|..] == y + pat + z;
    assert EraseAt(s0, pat, i) == s1;
    RemoveFromStep(s0, pat, 0, i);
    assert s1[i..k] == y && s1[k..k + |pat|] == pat && s1[..k] == x + y && s1[k + |pat|..] == z;
    assert EraseAt(s1, pat, k) == x + y + z;
    RemoveFromStep(s1, pat, i, k);
    assert (x + y + z)[k..] == z;
    RemoveFromDone(x + y + z, pat, k);
  }

  /** "the cat in the cathedral" loses both its "cat"s, each where it stood. */
  lemma CatExample()
    ensures RemoveAll("the cat in the cathedral", "cat") == "the  in the hedral"
  {
    assert "the cat in the cathedral" == "the " + "cat" + " in the " + "cat" + "hedral";
    assert "the  in the hedral" == "the " + " in the " + "hedral";
    RemoveAllTwoSeparated("the ", " in the ", "hedral", "cat");
  }

  /** An absent or empty pattern leaves the string unchanged. */
  lemma UnchangedExamples()
    ensures RemoveAll("abcdef", "xyz") == "abcdef"
    ensures RemoveAll("abcdef", "") == "abcdef"
  {
    FindSkipping("abcdef", "xyz", 0, 6);
  }

  /** A one-character pattern: every "a" of "banana" goes. */
  lemma BananaExample()
    ensures RemoveAll("banana", "a") == "bnn"
  {
    RemoveAllSingleChar("banana", 'a');
  }

  /** An occurrence formed left of the resume index survives: "aabb" keeps "ab". */
  lemma ResumePolicyExample()
    ensures RemoveAll("aabb", "ab") == "ab"
  {
    assert "aabb"[0..2] == "aa" && "aabb"[1..3] == "ab";
    assert Find("aabb", "ab", 0) == Some(1);
    var s1 := EraseAt("aabb", "ab", 1);
    assert s1 == "ab";
    FindSkipping(s1, "ab", 1, 2);
  }
}
