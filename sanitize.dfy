/**
 * `sanitize_filename`: turns the display text of a lecture link into the base
 * name of its file. It deletes every character that is not a word character,
 * a whitespace character or `-` (the substitution of `[^\w\s-]` by nothing),
 * then strips leading and trailing whitespace.
 */
module Sanitizer {
  import opened Text

  /** The characters the pattern `[^\w\s-]` leaves alone. */
  predicate Allowed(cls: CharClasses, c: char)
  {
    cls.isWord(c) || cls.isSpace(c) || c == '-'
  }

  /**
   * The regular-expression substitution: the subsequence of `s` made of exactly
   * its allowed characters, each as often as in `s`.
   */
  function RemoveDisallowed(cls: CharClasses, s: string): (r: string)
    ensures forall c :: c in r ==> Allowed(cls, c)
    ensures forall c :: Allowed(cls, c) ==> multiset(r)[c] == multiset(s)[c]
    ensures IsSubsequence(r, s)
  {
    if s == [] then []
    else
      var rest := RemoveDisallowed(cls, s[1..]);
      assert s == [s[0]] + s[1..];
      if Allowed(cls, s[0]) then
        assert ([s[0]] + rest)[1..] == rest;
        [s[0]] + rest
      else
        rest
  }

  /** The whole of `sanitize_filename`. */
  function SanitizeFilename(cls: CharClasses, name: string): (r: string)
    ensures forall c :: c in r ==> Allowed(cls, c)
    ensures r == [] || (!cls.isSpace(r[0]) && !cls.isSpace(r[|r| - 1]))
    ensures IsSubsequence(r, name) && |r| <= |name|
  {
    var cleaned := RemoveDisallowed(cls, name);
    var r := Strip(cls, cleaned);
    StripIsSlice(cls, cleaned);
    SubsequenceMembers(r, cleaned);
    SubsequenceTransitive(r, cleaned, name);
    SubsequenceIsShorter(r, name);
    r
  }

  /** A string made only of allowed characters passes the substitution unchanged. */
  lemma {:induction false} RemoveDisallowedKeepsAllowed(cls: CharClasses, s: string)
    requires forall c :: c in s ==> Allowed(cls, c)
    ensures RemoveDisallowed(cls, s) == s
  {
    if s != [] {
      assert s[0] in s;
      RemoveDisallowedKeepsAllowed(cls, s[1..]);
    }
  }

  /** Sanitising an already-sanitised name changes nothing. */
  lemma SanitizeIdempotent(cls: CharClasses, name: string)
    ensures SanitizeFilename(cls, SanitizeFilename(cls, name)) == SanitizeFilename(cls, name)
  {
    var r := SanitizeFilename(cls, name);
    RemoveDisallowedKeepsAllowed(cls, r);
  }

  /** A name that is already clean comes back unchanged. */
  lemma SanitizeKeepsCleanName(cls: CharClasses, name: string)
    requires forall c :: c in name ==> Allowed(cls, c)
    requires name == [] || (!cls.isSpace(name[0]) && !cls.isSpace(name[|name| - 1]))
    ensures SanitizeFilename(cls, name) == name
  {
    RemoveDisallowedKeepsAllowed(cls, name);
  }

  /**
   * Sanitising loses no content: every allowed character that is not
   * whitespace occurs in the result exactly as often as in the name.
   */
  lemma SanitizeKeepsContent(cls: CharClasses, name: string, c: char)
    requires Allowed(cls, c) && !cls.isSpace(c)
    ensures multiset(SanitizeFilename(cls, name))[c] == multiset(name)[c]
  {
    var cleaned := RemoveDisallowed(cls, name);
    assert SanitizeFilename(cls, name) == Strip(cls, cleaned);
    StripKeepsNonSpace(cls, cleaned, c);
  }

  /**
   * The degenerate empty name arises exactly when every allowed character of
   * the input is whitespace.
   */
  lemma SanitizeEmptyIff(cls: CharClasses, name: string)
    ensures SanitizeFilename(cls, name) == [] <==>
      forall i :: 0 <= i < |name| && Allowed(cls, name[i]) ==> cls.isSpace(name[i])
  {
    var cleaned := RemoveDisallowed(cls, name);
    StripEmptyIff(cls, cleaned);
    if SanitizeFilename(cls, name) == [] {
      forall i | 0 <= i < |name| && Allowed(cls, name[i]) ensures cls.isSpace(name[i]) {
        var c := name[i];
        assert multiset(name)[c] > 0;
        assert c in multiset(cleaned);
        var j :| 0 <= j < |cleaned| && cleaned[j] == c;
      }
    } else {
      var j :| 0 <= j < |cleaned| && !cls.isSpace(cleaned[j]);
      var c := cleaned[j];
      assert c in multiset(cleaned);
      assert c in multiset(name);
      var i :| 0 <= i < |name| && name[i] == c;
    }
  }
}
