/** Character-level helpers the upload path relies on: Python's `str.lower`
    restricted to ASCII, and `str.rfind` on a single character. */
module Strings {

  /** Lower-cases one ASCII letter; every other character is left alone. */
  function LowerChar(c: char): (r: char)
    ensures 'A' <= c <= 'Z' ==> 'a' <= r <= 'z' && r as int - c as int == 32
    ensures !('A' <= c <= 'Z') ==> r == c
    ensures !('A' <= r <= 'Z')
  {
    if 'A' <= c <= 'Z' then (c as int + 32) as char else c
  }

  /** Python's `s.lower()` on an ASCII string: each character lowered in place. */
  function Lower(s: string): string {
    seq(|s|, i requires 0 <= i < |s| => LowerChar(s[i]))
  }

  /** Lowering keeps the length, lowers each upper-case ASCII letter and
      leaves every other character where it is. */
  lemma {:induction false} LowerEach(s: string)
    ensures |Lower(s)| == |s|
    ensures forall i :: 0 <= i < |s| && 'A' <= s[i] <= 'Z' ==> Lower(s)[i] as int == s[i] as int + 32
    ensures forall i :: 0 <= i < |s| && !('A' <= s[i] <= 'Z') ==> Lower(s)[i] == s[i]
  {
  }

  /** A lowered string has no upper-case ASCII letter, so lowering twice is lowering once. */
  lemma {:induction false} LowerIdempotent(s: string)
    ensures Lower(Lower(s)) == Lower(s)
  {
    var once := Lower(s);
    assert forall i :: 0 <= i < |once| ==> LowerChar(once[i]) == once[i];
  }

  /** A character that is not an ASCII letter is the image under LowerChar of itself only. */
  lemma {:induction false} LowerCharFixesNonLetter(x: char, c: char)
    requires !('A' <= c <= 'Z') && !('a' <= c <= 'z')
    ensures LowerChar(x) == c <==> x == c
  {
  }

  /** A string without upper-case ASCII letters is its own lowering. */
  lemma {:induction false} LowerOfLowerCase(s: string)
    requires forall i :: 0 <= i < |s| ==> !('A' <= s[i] <= 'Z')
    ensures Lower(s) == s
  {
    assert forall i :: 0 <= i < |s| ==> Lower(s)[i] == s[i];
  }

  /** Python's `s.rfind(c)`: the index of the last occurrence of `c`, or -1.
      That no later index holds `c` is LastIndexOfNoLater. */
  function LastIndexOf(s: string, c: char): (i: int)
    ensures -1 <= i < |s|
    ensures 0 <= i ==> s[i] == c
  {
    LastIndexBefore(s, c, |s|)
  }

  /** The last occurrence of `c` among the first `n` characters of `s`, or -1. */
  function LastIndexBefore(s: string, c: char, n: nat): (i: int)
    requires n <= |s|
    ensures -1 <= i < n
    ensures 0 <= i ==> s[i] == c
  {
    if n == 0 then -1
    else if s[n - 1] == c then n - 1
    else LastIndexBefore(s, c, n - 1)
  }

  /** No occurrence of `c` among the first `n` characters follows the one found. */
  lemma {:induction false} LastIndexBeforeNoLater(s: string, c: char, n: nat)
    requires n <= |s|
    ensures forall j :: LastIndexBefore(s, c, n) < j < n ==> s[j] != c
  {
    if n > 0 && s[n - 1] != c {
      LastIndexBeforeNoLater(s, c, n - 1);
    }
  }

  /** `rfind` finds the last occurrence: none follows it. */
  lemma {:induction false} LastIndexOfNoLater(s: string, c: char)
    ensures forall j :: LastIndexOf(s, c) < j < |s| ==> s[j] != c
  {
    LastIndexBeforeNoLater(s, c, |s|);
  }

  /** The three facts in LastIndexOf's contract determine its result. */
  lemma {:induction false} LastIndexOfUnique(s: string, c: char, i: int)
    requires -1 <= i < |s|
    requires 0 <= i ==> s[i] == c
    requires forall j :: i < j < |s| ==> s[j] != c
    ensures LastIndexOf(s, c) == i
  {
    LastIndexOfNoLater(s, c);
  }

  /** `c` occurs in `s` exactly when `rfind` finds it. */
  lemma {:induction false} LastIndexOfFound(s: string, c: char)
    ensures c in s <==> LastIndexOf(s, c) >= 0
  {
    if c in s {
      LastIndexOfNoLater(s, c);
      var j :| 0 <= j < |s| && s[j] == c;
      assert LastIndexOf(s, c) >= j;
    }
  }

  /** Searching a concatenation: the right part wins when it holds `c`. */
  lemma {:induction false} LastIndexOfAppend(a: string, b: string, c: char)
    ensures LastIndexOf(a + b, c) == if c in b then |a| + LastIndexOf(b, c) else LastIndexOf(a, c)
  {
    LastIndexOfFound(b, c);
    LastIndexOfNoLater(a, c);
    LastIndexOfNoLater(b, c);
    var k := if c in b then |a| + LastIndexOf(b, c) else LastIndexOf(a, c);
    var s := a + b;
    forall j | k < j < |s| ensures s[j] != c {
      if j >= |a| {
        assert s[j] == b[j - |a|];
      } else {
        assert s[j] == a[j];
      }
    }
    LastIndexOfUnique(s, c, k);
  }

  /** Lowering moves no character that is not a letter, so `rfind` of one finds the same index. */
  lemma {:induction false} LastIndexOfLower(s: string, c: char)
    requires !('A' <= c <= 'Z') && !('a' <= c <= 'z')
    ensures LastIndexOf(Lower(s), c) == LastIndexOf(s, c)
  {
    var i := LastIndexOf(s, c);
    var t := Lower(s);
    LastIndexOfNoLater(s, c);
    forall j | i < j < |t| ensures t[j] != c {
      LowerCharFixesNonLetter(s[j], c);
    }
    LastIndexOfUnique(t, c, i);
  }

  /** Lowering commutes with slicing. */
  lemma {:induction false} LowerSlice(s: string, i: int, j: int)
    requires 0 <= i <= j <= |s|
    ensures Lower(s)[i..j] == Lower(s[i..j])
    ensures j == |s| ==> Lower(s)[i..] == Lower(s[i..])
  {
    var l := Lower(s[i..j]);
    assert forall k :: 0 <= k < j - i ==> Lower(s)[i..j][k] == l[k];
  }

  /** A slice of a suffix is a slice of the whole. */
  lemma {:induction false} SliceShift(s: string, i: int, a: int, b: int)
    requires 0 <= i <= |s| && 0 <= a <= b <= |s| - i
    ensures s[i..][a..b] == s[i + a..i + b]
    ensures s[i..][a..] == s[i + a..]
  {
  }
}
