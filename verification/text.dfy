/** Character-level helpers the validation constraints rely on: PHP's `trim`
    and the username pattern `/^[a-z0-9_]+$/` under PCRE's default flags. */
module Text {

  /** The characters PHP's `trim` strips by default: space, tab, line feed,
      carriage return, NUL and vertical tab. */
  predicate IsTrimChar(c: char) {
    c == ' ' || c == '\t' || c == '\n' || c == '\r' || c == '\0' || c == '\U{000B}'
  }

  /** Strips leading trim characters. */
  function TrimLeft(s: string): (r: string)
    ensures |r| <= |s| && r == s[|s| - |r|..]
    ensures forall i :: 0 <= i < |s| - |r| ==> IsTrimChar(s[i])
    ensures r != [] ==> !IsTrimChar(r[0])
  {
    if |s| > 0 && IsTrimChar(s[0]) then TrimLeft(s[1..]) else s
  }

  /** Strips trailing trim characters. */
  function TrimRight(s: string): (r: string)
    ensures |r| <= |s| && r == s[..|r|]
    ensures forall i :: |r| <= i < |s| ==> IsTrimChar(s[i])
    ensures r != [] ==> !IsTrimChar(r[|r| - 1])
  {
    if |s| > 0 && IsTrimChar(s[|s| - 1]) then TrimRight(s[..|s| - 1]) else s
  }

  /** PHP's `trim($s)` with the default character list. */
  function Trim(s: string): string {
    TrimRight(TrimLeft(s))
  }

  /** A string is blank after trimming exactly when every character is a
      trim character. */
  lemma TrimEmptyIff(s: string)
    ensures Trim(s) == [] <==> forall i :: 0 <= i < |s| ==> IsTrimChar(s[i])
  {
    var l := TrimLeft(s);
    if Trim(s) != [] {
      var r := Trim(s);
      assert !IsTrimChar(r[0]);
      assert r[0] == l[0] == s[|s| - |l|];
    }
  }

  /** `s[i..j]` is `s` with all its leading and trailing trim characters
      removed: everything outside the slice is a trim character and the
      slice's own ends are not. */
  predicate TrimmedSlice(s: string, i: int, j: int) {
    && 0 <= i <= j <= |s|
    && (forall k :: 0 <= k < i ==> IsTrimChar(s[k]))
    && (forall k :: j <= k < |s| ==> IsTrimChar(s[k]))
    && (i < j ==> !IsTrimChar(s[i]) && !IsTrimChar(s[j - 1]))
  }

  /** Trimming removes only trim characters, and only from the two ends,
      and it removes all of them there: the result is a contiguous slice of
      the input, everything outside the slice is a trim character, and the
      slice's own ends are not. */
  lemma TrimIsSlice(s: string)
    ensures exists i, j :: TrimmedSlice(s, i, j) && Trim(s) == s[i..j]
  {
    var l := TrimLeft(s);
    var r := TrimRight(l);
    var i := |s| - |l|;
    var j := i + |r|;
    assert l == s[i..];
    assert r == l[..|r|];
    assert s[i..][..|r|] == s[i..j];
    assert Trim(s) == s[i..j];
    forall k | 0 <= k < i || j <= k < |s|
      ensures IsTrimChar(s[k])
    {
      if j <= k {
        assert s[k] == l[k - i];
      }
    }
    if i < j {
      assert s[i] == r[0] && s[j - 1] == r[|r| - 1];
    }
    assert TrimmedSlice(s, i, j);
  }

  /** The character class `[a-z0-9_]`. */
  predicate IsSlugChar(c: char) {
    ('a' <= c <= 'z') || ('0' <= c <= '9') || c == '_'
  }

  predicate AllSlugChars(s: string) {
    forall i :: 0 <= i < |s| ==> IsSlugChar(s[i])
  }

  /** How far the greedy `[a-z0-9_]+` run reaches from the start of `s`. */
  function SlugRun(s: string): (n: nat)
    ensures n <= |s|
    ensures forall i :: 0 <= i < n ==> IsSlugChar(s[i])
    ensures n < |s| ==> !IsSlugChar(s[n])
  {
    if |s| == 0 || !IsSlugChar(s[0]) then 0 else 1 + SlugRun(s[1..])
  }

  /** The match `preg_match('/^[a-z0-9_]+$/', s)` performs: the greedy run
      must be non-empty and be followed either by the end of the subject or
      by one final line feed, because PCRE's `$` (without the D modifier)
      also matches just before a trailing "\n". Since "\n" is outside the
      class, the greedy run never needs to backtrack. */
  predicate MatchesUsernamePattern(s: string) {
    var n := SlugRun(s);
    n >= 1 && (n == |s| || (n == |s| - 1 && s[n] == '\n'))
  }

  /** The engine above agrees with the declarative reading of the pattern. */
  lemma UsernamePatternIff(s: string)
    ensures MatchesUsernamePattern(s) <==>
      (|s| >= 1 && AllSlugChars(s)) ||
      (|s| >= 2 && s[|s| - 1] == '\n' && AllSlugChars(s[..|s| - 1]))
  {
    var n := SlugRun(s);
    if |s| >= 2 && s[|s| - 1] == '\n' && AllSlugChars(s[..|s| - 1]) {
      forall i | 0 <= i < |s| - 1
        ensures IsSlugChar(s[i])
      {
        assert s[i] == s[..|s| - 1][i];
      }
      assert !IsSlugChar(s[|s| - 1]);
      assert n == |s| - 1;
    }
  }

  /** A subject the pattern accepts starts with a class character, so it
      is never blank after trimming. */
  lemma PatternMatchNotBlank(s: string)
    requires MatchesUsernamePattern(s)
    ensures Trim(s) != []
  {
    assert IsSlugChar(s[0]);
    assert !IsTrimChar(s[0]);
    TrimEmptyIff(s);
  }

  /** A username with a trailing line feed passes the pattern. */
  lemma TrailingLineFeedMatches()
    ensures MatchesUsernamePattern("ab\n")
    ensures !MatchesUsernamePattern("ab\n\n") && !MatchesUsernamePattern("\n")
  {
    UsernamePatternIff("ab\n");
    UsernamePatternIff("ab\n\n");
    assert !IsSlugChar("ab\n\n"[3]);
    UsernamePatternIff("\n");
    assert !IsSlugChar("\n"[0]);
  }
}
