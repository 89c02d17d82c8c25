/**
 * The two JavaScript string operations the forgot-password handler applies to
 * what the user typed: `String.prototype.trim` and `String.prototype.toLowerCase`,
 * and their composition `s.toLowerCase().trim()` used for security answers.
 */
module JsString {

  /**
   * The characters `trim` removes: ECMAScript's WhiteSpace production (TAB, VT,
   * FF, SP, NBSP, ZWNBSP and every other Zs space separator) together with its
   * LineTerminator production (LF, CR, LS, PS).
   */
  predicate IsJsWhitespace(c: char) {
    c == '\t' || c == '\U{000B}' || c == '\U{000C}' || c == ' ' ||
    c == '\U{00A0}' || c == '\U{FEFF}' ||
    c == '\U{1680}' || ('\U{2000}' <= c <= '\U{200A}') ||
    c == '\U{202F}' || c == '\U{205F}' || c == '\U{3000}' ||
    c == '\n' || c == '\r' || c == '\U{2028}' || c == '\U{2029}'
  }

  /** Strips leading whitespace. */
  function TrimStart(s: string): string {
    if |s| > 0 && IsJsWhitespace(s[0]) then TrimStart(s[1..]) else s
  }

  /** Strips trailing whitespace. */
  function TrimEnd(s: string): string {
    if |s| > 0 && IsJsWhitespace(s[|s| - 1]) then TrimEnd(s[..|s| - 1]) else s
  }

  /** `TrimStart` returns the longest suffix that does not start with whitespace. */
  lemma {:induction false} TrimStartSpec(s: string)
    ensures var r := TrimStart(s);
      |r| <= |s| && r == s[|s| - |r|..] &&
      (r == [] || !IsJsWhitespace(r[0])) &&
      forall k :: 0 <= k < |s| - |r| ==> IsJsWhitespace(s[k])
  {
    if |s| > 0 && IsJsWhitespace(s[0]) {
      TrimStartSpec(s[1..]);
    }
  }

  /** `TrimEnd` returns the longest prefix that does not end with whitespace. */
  lemma {:induction false} TrimEndSpec(s: string)
    ensures var r := TrimEnd(s);
      |r| <= |s| && r == s[..|r|] &&
      (r == [] || !IsJsWhitespace(r[|r| - 1])) &&
      forall k :: |r| <= k < |s| ==> IsJsWhitespace(s[k])
  {
    if |s| > 0 && IsJsWhitespace(s[|s| - 1]) {
      TrimEndSpec(s[..|s| - 1]);
    }
  }

  /**
   * `s[i..j]` is what is left of `s` once its leading and trailing whitespace
   * are removed: everything outside is whitespace, and a non-empty remainder
   * neither starts nor ends with whitespace.
   */
  ghost predicate TrimmedAt(s: string, i: int, j: int) {
    0 <= i <= j <= |s| &&
    (forall k :: 0 <= k < i ==> IsJsWhitespace(s[k])) &&
    (forall k :: j <= k < |s| ==> IsJsWhitespace(s[k])) &&
    (i < j ==> !IsJsWhitespace(s[i]) && !IsJsWhitespace(s[j - 1]))
  }

  /** `s.trim()` */
  function Trim(s: string): string {
    TrimEnd(TrimStart(s))
  }

  /**
   * What `trim` returns: the part `s[i..j]` of `s` left once leading and
   * trailing whitespace are removed.
   */
  lemma TrimBounds(s: string) returns (i: int, j: int)
    ensures TrimmedAt(s, i, j) && Trim(s) == s[i..j]
  {
    var t := TrimStart(s);
    var r := TrimEnd(t);
    TrimStartSpec(s);
    TrimEndSpec(t);
    i := |s| - |t|;
    j := i + |r|;
    assert t == s[i..];
    forall k | j <= k < |s| ensures IsJsWhitespace(s[k]) {
      assert s[k] == t[k - i];
    }
    assert r == s[i..j] by {
      forall k | 0 <= k < |r| ensures r[k] == s[i + k] {
        assert r[k] == t[k];
      }
    }
  }

  /** ASCII case mapping of one character (only `A`-`Z` change). */
  function LowerChar(c: char): char {
    if 'A' <= c <= 'Z' then (c as int - 'A' as int + 'a' as int) as char else c
  }

  /** `s.toLowerCase()`, restricted to the ASCII letters. */
  function Lower(s: string): string {
    seq(|s|, k requires 0 <= k < |s| => LowerChar(s[k]))
  }

  /** How the handler normalises a security answer: `s.toLowerCase().trim()`. */
  function Normalize(s: string): string {
    Trim(Lower(s))
  }

  /** A string `trim` leaves alone: empty, or with no whitespace at either end. */
  predicate IsTrimmed(s: string) {
    s == [] || (!IsJsWhitespace(s[0]) && !IsJsWhitespace(s[|s| - 1]))
  }

  /** A string in the form `Normalize` produces. */
  predicate IsNormalized(s: string) {
    IsTrimmed(s) && forall k :: 0 <= k < |s| ==> !('A' <= s[k] <= 'Z')
  }

  /** Trimming returns its argument exactly when there is nothing to trim. */
  lemma TrimFixedPoint(s: string)
    ensures Trim(s) == s <==> IsTrimmed(s)
  {
    var i, j := TrimBounds(s);
    if IsTrimmed(s) && s != [] {
      assert TrimStart(s) == s && TrimEnd(s) == s;
    }
    if Trim(s) == s && s != [] {
      assert i == 0 && j == |s|;
    }
  }

  /** What `trim` returns has nothing left to trim. */
  lemma TrimIsTrimmed(s: string)
    ensures IsTrimmed(Trim(s))
  {
    var i, j := TrimBounds(s);
  }

  /** Trimming twice is trimming once. */
  lemma TrimIdempotent(s: string)
    ensures Trim(Trim(s)) == Trim(s)
  {
    TrimIsTrimmed(s);
    TrimFixedPoint(Trim(s));
  }

  /** Lower-casing keeps the length, changes only letters, and leaves no upper-case letter. */
  lemma LowerShape(s: string)
    ensures |Lower(s)| == |s|
    ensures forall k :: 0 <= k < |s| ==> !('A' <= Lower(s)[k] <= 'Z')
    ensures forall k :: 0 <= k < |s| && !('A' <= s[k] <= 'Z') ==> Lower(s)[k] == s[k]
  {
  }

  /** Lower-casing twice is lower-casing once. */
  lemma LowerIdempotent(s: string)
    ensures Lower(Lower(s)) == Lower(s)
  {
  }

  /** Lower-casing commutes with stripping leading whitespace. */
  lemma {:induction false} TrimStartLower(s: string)
    ensures TrimStart(Lower(s)) == Lower(TrimStart(s))
  {
    if |s| > 0 && IsJsWhitespace(s[0]) {
      assert Lower(s)[1..] == Lower(s[1..]);
      TrimStartLower(s[1..]);
    }
  }

  /** Lower-casing commutes with stripping trailing whitespace. */
  lemma {:induction false} TrimEndLower(s: string)
    ensures TrimEnd(Lower(s)) == Lower(TrimEnd(s))
  {
    if |s| > 0 && IsJsWhitespace(s[|s| - 1]) {
      assert Lower(s)[..|s| - 1] == Lower(s[..|s| - 1]);
      TrimEndLower(s[..|s| - 1]);
    }
  }

  /**
   * Lower-casing and trimming can be applied in either order: the handler's
   * `toLowerCase().trim()` equals `trim().toLowerCase()`.
   */
  lemma TrimLowerCommute(s: string)
    ensures Trim(Lower(s)) == Lower(Trim(s))
  {
    TrimStartLower(s);
    TrimEndLower(TrimStart(s));
  }

  /** A normalised answer is in normal form, and normalising it again changes nothing. */
  lemma NormalizeIdempotent(s: string)
    ensures IsNormalized(Normalize(s))
    ensures Normalize(Normalize(s)) == Normalize(s)
  {
    var n := Normalize(s);
    TrimLowerCommute(s);
    LowerShape(Trim(s));
    TrimIdempotent(Lower(s));
    TrimFixedPoint(n);
    assert Lower(n) == n by {
      LowerIdempotent(Trim(s));
    }
  }

  /**
   * Only a string in normal form can equal a normalised input: a stored answer
   * with upper-case letters or surrounding whitespace never matches anything typed.
   */
  lemma NormalizeOnlyReachesNormalForm(stored: string, typed: string)
    requires !IsNormalized(stored)
    ensures Normalize(typed) != stored
  {
    NormalizeIdempotent(typed);
  }

  /** `TrimmedAt` admits only one remainder for a given string. */
  lemma TrimmedAtUnique(s: string, i: int, j: int, i': int, j': int)
    requires TrimmedAt(s, i, j) && TrimmedAt(s, i', j')
    ensures s[i..j] == s[i'..j']
  {
    if i < j && i' < j' {
      assert i == i' && j == j';
    }
  }

  /** Padding a string with whitespace shifts where its trimmed part sits. */
  lemma TrimmedAtPadded(s: string, pad1: string, pad2: string, i: int, j: int)
    requires forall k :: 0 <= k < |pad1| ==> IsJsWhitespace(pad1[k])
    requires forall k :: 0 <= k < |pad2| ==> IsJsWhitespace(pad2[k])
    requires TrimmedAt(s, i, j)
    ensures TrimmedAt(pad1 + s + pad2, |pad1| + i, |pad1| + j)
    ensures (pad1 + s + pad2)[|pad1| + i..|pad1| + j] == s[i..j]
  {
    var t, n := pad1 + s + pad2, |pad1|;
    assert forall k :: 0 <= k < |t| ==>
      t[k] == if k < n then pad1[k] else if k < n + |s| then s[k - n] else pad2[k - n - |s|];
  }

  /** Any split of `s` that satisfies the characterisation is the one `trim` picks. */
  lemma TrimIsTrimmedAt(s: string, i: int, j: int)
    requires TrimmedAt(s, i, j)
    ensures Trim(s) == s[i..j]
  {
    var i', j' := TrimBounds(s);
    TrimmedAtUnique(s, i, j, i', j');
  }

  /** Whitespace around a string does not change what `trim` returns. */
  lemma TrimIgnoresPadding(s: string, pad1: string, pad2: string)
    requires forall k :: 0 <= k < |pad1| ==> IsJsWhitespace(pad1[k])
    requires forall k :: 0 <= k < |pad2| ==> IsJsWhitespace(pad2[k])
    ensures Trim(pad1 + s + pad2) == Trim(s)
  {
    var i, j := TrimBounds(s);
    TrimmedAtPadded(s, pad1, pad2, i, j);
    TrimIsTrimmedAt(pad1 + s + pad2, |pad1| + i, |pad1| + j);
  }

  /** Lower-casing leaves whitespace padding alone and lower-cases what it surrounds. */
  lemma LowerPadded(c: string, pad1: string, pad2: string)
    requires forall k :: 0 <= k < |pad1| ==> IsJsWhitespace(pad1[k])
    requires forall k :: 0 <= k < |pad2| ==> IsJsWhitespace(pad2[k])
    ensures Lower(pad1 + c + pad2) == pad1 + Lower(c) + pad2
  {
    var t := pad1 + c + pad2;
    forall k | 0 <= k < |t| ensures Lower(t)[k] == (pad1 + Lower(c) + pad2)[k] {
      if k < |pad1| {
        assert t[k] == pad1[k];
      } else if k < |pad1| + |c| {
        assert t[k] == c[k - |pad1|];
      } else {
        assert t[k] == pad2[k - |pad1| - |c|];
      }
    }
  }

  /**
   * Two answers whose cores differ only in ASCII letter case, each with any
   * whitespace around it, normalise to the same string.
   */
  lemma NormalizeIgnoresCaseAndPadding(c1: string, pad1: string, pad2: string, c2: string, pad3: string, pad4: string)
    requires forall k :: 0 <= k < |pad1| ==> IsJsWhitespace(pad1[k])
    requires forall k :: 0 <= k < |pad2| ==> IsJsWhitespace(pad2[k])
    requires forall k :: 0 <= k < |pad3| ==> IsJsWhitespace(pad3[k])
    requires forall k :: 0 <= k < |pad4| ==> IsJsWhitespace(pad4[k])
    requires Lower(c1) == Lower(c2)
    ensures Normalize(pad1 + c1 + pad2) == Normalize(pad3 + c2 + pad4)
  {
    LowerPadded(c1, pad1, pad2);
    LowerPadded(c2, pad3, pad4);
    TrimIgnoresPadding(Lower(c1), pad1, pad2);
    TrimIgnoresPadding(Lower(c2), pad3, pad4);
  }

  /**
   * Two answers normalise alike exactly when, once trimmed, they are equal up
   * to ASCII letter case: a typed answer passes only if its trimmed form
   * differs from the expected one in letter case alone.
   */
  lemma NormalizeEqualIff(a: string, b: string)
    ensures Normalize(a) == Normalize(b) <==> Lower(Trim(a)) == Lower(Trim(b))
  {
    TrimLowerCommute(a);
    TrimLowerCommute(b);
  }
}
