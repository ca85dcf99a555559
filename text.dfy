/**
 * The string rules the downloader borrows from Python: the character classes
 * `\w` and `\s` of its regular expressions, and `str.strip()`.
 *
 * The Unicode tables behind these classes are library behaviour, so they are
 * parameters here: a `CharClasses` value says which characters are word
 * characters and which are whitespace, and every result below holds for any
 * such choice. `str.strip()` uses the same whitespace class.
 */
module Text {

  datatype CharClasses = CharClasses(isWord: char -> bool, isSpace: char -> bool)

  /** Python's classes never count the path separator as a word or space character. */
  predicate WellFormed(cls: CharClasses)
  {
    !cls.isWord('/') && !cls.isSpace('/')
  }

  /** Drops the leading whitespace of `s`. */
  function TrimStart(cls: CharClasses, s: string): (r: string)
    ensures |r| <= |s| && r == s[|s| - |r|..]
    ensures forall i :: 0 <= i < |s| - |r| ==> cls.isSpace(s[i])
    ensures r == [] || !cls.isSpace(r[0])
  {
    if s != [] && cls.isSpace(s[0]) then
      var r := TrimStart(cls, s[1..]);
      assert s[1..][|s| - 1 - |r|..] == s[|s| - |r|..];
      assert forall i :: 1 <= i < |s| ==> s[1..][i - 1] == s[i];
      r
    else
      s
  }

  /** Drops the trailing whitespace of `s`. */
  function TrimEnd(cls: CharClasses, s: string): (r: string)
    ensures |r| <= |s| && r == s[..|r|]
    ensures forall i :: |r| <= i < |s| ==> cls.isSpace(s[i])
    ensures r == [] || !cls.isSpace(r[|r| - 1])
  {
    if s != [] && cls.isSpace(s[|s| - 1]) then
      var r := TrimEnd(cls, s[..|s| - 1]);
      assert s[..|s| - 1][..|r|] == s[..|r|];
      r
    else
      s
  }

  /** `str.strip()`: the result neither starts nor ends with whitespace and leaves a trimmed string alone. */
  function Strip(cls: CharClasses, s: string): (r: string)
    ensures |r| <= |s|
    ensures r == [] || (!cls.isSpace(r[0]) && !cls.isSpace(r[|r| - 1]))
    ensures (s == [] || (!cls.isSpace(s[0]) && !cls.isSpace(s[|s| - 1]))) ==> r == s
  {
    var t := TrimStart(cls, s);
    assert t != [] ==> TrimEnd(cls, t) != [] by {
      if t != [] { assert !cls.isSpace(t[0]); }
    }
    TrimEnd(cls, t)
  }

  /** `str.strip()` returns the empty string exactly for strings made only of whitespace. */
  lemma StripEmptyIff(cls: CharClasses, s: string)
    ensures Strip(cls, s) == [] <==> forall i :: 0 <= i < |s| ==> cls.isSpace(s[i])
  {
  }

  /** Where the stripped string begins in the original: the length of the leading whitespace. */
  function StripStart(cls: CharClasses, s: string): (a: nat)
    ensures a <= |s|
  {
    |s| - |TrimStart(cls, s)|
  }

  /**
   * The stripped string is the contiguous part of the original that starts at
   * `StripStart`, and everything before and after it is whitespace: only the
   * surrounding whitespace goes.
   */
  lemma StripIsSlice(cls: CharClasses, s: string)
    ensures var a, r := StripStart(cls, s), Strip(cls, s);
      a + |r| <= |s| && r == s[a..a + |r|] &&
      (forall i :: 0 <= i < a ==> cls.isSpace(s[i])) &&
      (forall i :: a + |r| <= i < |s| ==> cls.isSpace(s[i]))
    ensures IsSubsequence(Strip(cls, s), s)
  {
    var t := TrimStart(cls, s);
    var r := TrimEnd(cls, t);
    var a := StripStart(cls, s);
    PrefixOfSuffix(s, a, t, r);
    SliceIsSubsequence(s, a, a + |r|);
  }

  /** A prefix `r` of the suffix `t` of `s` from `a` on is the slice of `s` from `a`. */
  lemma PrefixOfSuffix(s: string, a: nat, t: string, r: string)
    requires a <= |s| && t == s[a..] && |r| <= |t| && r == t[..|r|]
    ensures r == s[a..a + |r|]
    ensures forall i :: a + |r| <= i < |s| ==> s[i] == t[i - a]
  {
  }

  /** `str.strip()` keeps every occurrence of every character that is not whitespace. */
  lemma StripKeepsNonSpace(cls: CharClasses, s: string, c: char)
    requires !cls.isSpace(c)
    ensures multiset(Strip(cls, s))[c] == multiset(s)[c]
  {
    StripIsSlice(cls, s);
    SliceKeepsCount(s, StripStart(cls, s), StripStart(cls, s) + |Strip(cls, s)|, c);
  }

  /** A slice holds every occurrence of a character that does not occur outside it. */
  lemma SliceKeepsCount(s: string, a: nat, b: nat, c: char)
    requires a <= b <= |s|
    requires forall i :: 0 <= i < a ==> s[i] != c
    requires forall i :: b <= i < |s| ==> s[i] != c
    ensures multiset(s[a..b])[c] == multiset(s)[c]
  {
    var pre, post := s[..a], s[b..];
    assert s == pre + s[a..b] + post;
    assert c !in pre && c !in post;
  }

  /** The truthiness test `s.strip()` is false exactly for blank strings. */
  predicate IsBlank(cls: CharClasses, s: string)
  {
    Strip(cls, s) == []
  }

  /** `a` can be obtained from `b` by deleting characters, keeping the order of the rest. */
  predicate IsSubsequence(a: string, b: string)
    decreases |b|
  {
    a == [] || (b != [] && ((a[0] == b[0] && IsSubsequence(a[1..], b[1..])) || IsSubsequence(a, b[1..])))
  }

  lemma {:induction false} SubsequenceIsShorter(a: string, b: string)
    requires IsSubsequence(a, b)
    ensures |a| <= |b|
    decreases |b|
  {
    if a != [] {
      if a[0] == b[0] && IsSubsequence(a[1..], b[1..]) {
        SubsequenceIsShorter(a[1..], b[1..]);
      } else {
        SubsequenceIsShorter(a, b[1..]);
      }
    }
  }

  lemma {:induction false} SubsequenceMembers(a: string, b: string)
    requires IsSubsequence(a, b)
    ensures forall c :: c in a ==> c in b
    decreases |b|
  {
    if a != [] {
      if a[0] == b[0] && IsSubsequence(a[1..], b[1..]) {
        SubsequenceMembers(a[1..], b[1..]);
        assert a == [a[0]] + a[1..];
      } else {
        SubsequenceMembers(a, b[1..]);
      }
    }
  }

  lemma {:induction false} SliceIsSubsequence(s: string, i: nat, j: nat)
    requires i <= j <= |s|
    ensures IsSubsequence(s[i..j], s)
    decreases |s|
  {
    if i > 0 {
      SliceIsSubsequence(s[1..], i - 1, j - 1);
      assert s[1..][i - 1..j - 1] == s[i..j];
    } else if j > 0 {
      SliceIsSubsequence(s[1..], 0, j - 1);
      assert s[1..][0..j - 1] == s[0..j][1..];
    }
  }

  lemma {:induction false} SubsequenceTransitive(a: string, b: string, c: string)
    requires IsSubsequence(a, b) && IsSubsequence(b, c)
    ensures IsSubsequence(a, c)
    decreases |c|
  {
    if a != [] {
      if b[0] == c[0] && IsSubsequence(b[1..], c[1..]) {
        if a[0] == b[0] && IsSubsequence(a[1..], b[1..]) {
          SubsequenceTransitive(a[1..], b[1..], c[1..]);
        } else {
          SubsequenceTransitive(a, b[1..], c[1..]);
        }
      } else {
        SubsequenceTransitive(a, b, c[1..]);
      }
    }
  }
}
