/**
 * The string normalisation the app applies before comparing names:
 * Python's `str.strip()` followed by `str.lower()` (app.py:18 for the
 * table header, app.py:83 for disease names and the predicted label).
 * Stripping uses Python's full set of white-space characters; lower-casing
 * is modelled on ASCII letters only.
 */
module Text {

  /** The characters `str.strip()` removes when called without arguments. */
  predicate IsSpace(c: char) {
    ('\t' <= c <= '\r') || ('\U{1C}' <= c <= ' ') || c == '\U{85}' || c == '\U{A0}'
    || c == '\U{1680}' || ('\U{2000}' <= c <= '\U{200A}') || c == '\U{2028}' || c == '\U{2029}'
    || c == '\U{202F}' || c == '\U{205F}' || c == '\U{3000}'
  }

  predicate IsUpper(c: char) {
    'A' <= c <= 'Z'
  }

  function LowerChar(c: char): char {
    if IsUpper(c) then (c as int + 32) as char else c
  }

  ghost predicate AllSpace(s: string) {
    forall k :: 0 <= k < |s| ==> IsSpace(s[k])
  }

  /**
   * `r` is what stripping leaves of `s`: the infix of `s` starting at `i`,
   * with only white space before and after it, and no white space at its ends.
   */
  ghost predicate StrippedAt(s: string, r: string, i: int) {
    0 <= i && i + |r| <= |s|
    && (forall k :: 0 <= k < |r| ==> r[k] == s[i + k])
    && (forall k :: 0 <= k < i ==> IsSpace(s[k]))
    && (forall k :: i + |r| <= k < |s| ==> IsSpace(s[k]))
    && (r == [] || (!IsSpace(r[0]) && !IsSpace(r[|r| - 1])))
  }

  /** Drops leading white space. */
  function TrimStart(s: string): string {
    if s != [] && IsSpace(s[0]) then TrimStart(s[1..]) else s
  }

  /** Drops trailing white space. */
  function TrimEnd(s: string): string {
    if s != [] && IsSpace(s[|s| - 1]) then TrimEnd(s[..|s| - 1]) else s
  }

  /** What `TrimStart` drops is white space, and what it keeps is the rest of `s`, starting with a non-space. */
  lemma {:induction false} TrimStartSpec(s: string)
    ensures |TrimStart(s)| <= |s| && TrimStart(s) == s[|s| - |TrimStart(s)|..]
    ensures AllSpace(s[..|s| - |TrimStart(s)|])
    ensures TrimStart(s) == [] || !IsSpace(TrimStart(s)[0])
  {
    if s != [] && IsSpace(s[0]) {
      var r := TrimStart(s[1..]);
      TrimStartSpec(s[1..]);
      assert s[..|s| - |r|] == [s[0]] + s[1..][..|s| - 1 - |r|];
    }
  }

  /** What `TrimEnd` drops is white space, and what it keeps is the start of `s`, ending with a non-space. */
  lemma {:induction false} TrimEndSpec(s: string)
    ensures |TrimEnd(s)| <= |s| && TrimEnd(s) == s[..|TrimEnd(s)|]
    ensures AllSpace(s[|TrimEnd(s)|..])
    ensures TrimEnd(s) == [] || !IsSpace(TrimEnd(s)[|TrimEnd(s)| - 1])
  {
    if s != [] && IsSpace(s[|s| - 1]) {
      var p := s[..|s| - 1];
      var r := TrimEnd(p);
      TrimEndSpec(p);
      assert s[..|r|] == p[..|r|];
      assert s[|r|..] == p[|r|..] + [s[|s| - 1]];
    }
  }

  /** Python's `s.strip()`. */
  function Trim(s: string): string {
    TrimEnd(TrimStart(s))
  }

  /** Stripping leaves the infix of `s` between its leading and trailing white space. */
  lemma TrimStripped(s: string)
    ensures StrippedAt(s, Trim(s), |s| - |TrimStart(s)|)
  {
    TrimStartSpec(s);
    TrimEndSpec(TrimStart(s));
    StrippedFromParts(s, TrimStart(s), Trim(s));
  }

  /** Dropping leading, then trailing, white space leaves the stripped infix. */
  lemma StrippedFromParts(s: string, a: string, b: string)
    requires |a| <= |s| && a == s[|s| - |a|..]
    requires AllSpace(s[..|s| - |a|]) && (a == [] || !IsSpace(a[0]))
    requires |b| <= |a| && b == a[..|b|]
    requires AllSpace(a[|b|..]) && (b == [] || !IsSpace(b[|b| - 1]))
    ensures StrippedAt(s, b, |s| - |a|)
  {
    var i := |s| - |a|;
    forall k | 0 <= k < |b| ensures b[k] == s[i + k] {
      assert b[k] == a[k] == s[i + k];
    }
    forall k | 0 <= k < i ensures IsSpace(s[k]) {
      assert s[..i][k] == s[k];
    }
    forall k | i + |b| <= k < |s| ensures IsSpace(s[k]) {
      assert a[|b|..][k - i - |b|] == s[k];
    }
    assert b != [] ==> b[0] == a[0];
  }

  /** Python's `s.lower()`, restricted to ASCII letters. */
  function Lower(s: string): string {
    seq(|s|, k requires 0 <= k < |s| => LowerChar(s[k]))
  }

  /**
   * Lower-casing keeps every character up to case and leaves no upper-case
   * letter: the one string with both properties.
   */
  lemma LowerSpec(s: string)
    ensures EqualIgnoringCase(s, Lower(s))
    ensures forall k :: 0 <= k < |s| ==> !IsUpper(Lower(s)[k])
    ensures forall r :: EqualIgnoringCase(s, r) && (forall k :: 0 <= k < |r| ==> !IsUpper(r[k])) ==> r == Lower(s)
  {
    forall r | EqualIgnoringCase(s, r) && (forall k :: 0 <= k < |r| ==> !IsUpper(r[k]))
      ensures r == Lower(s)
    {
      forall k | 0 <= k < |s| ensures r[k] == Lower(s)[k] {
        assert CharEqualIgnoringCase(s[k], r[k]);
      }
    }
  }

  /** Reference notion of "the same letter, up to ASCII case". */
  predicate CharEqualIgnoringCase(x: char, y: char) {
    x == y
    || (IsUpper(x) && y as int == x as int + 32)
    || (IsUpper(y) && x as int == y as int + 32)
  }

  predicate EqualIgnoringCase(a: string, b: string) {
    |a| == |b| && forall k :: 0 <= k < |a| ==> CharEqualIgnoringCase(a[k], b[k])
  }

  /** The key under which the app compares names: `s.strip().lower()`. */
  function Normalize(s: string): string {
    Lower(Trim(s))
  }

  /** At most one string is what stripping leaves of `s`. */
  lemma StrippedUnique(s: string, r1: string, i1: int, r2: string, i2: int)
    requires StrippedAt(s, r1, i1) && StrippedAt(s, r2, i2)
    ensures r1 == r2
  {
    // A non-empty result starts and ends at the first and last
    // non-space characters of `s`; an empty one means `s` is all white space.
    assert r1 != [] ==> s[i1] == r1[0] && s[i1 + |r1| - 1] == r1[|r1| - 1];
    assert r2 != [] ==> s[i2] == r2[0] && s[i2 + |r2| - 1] == r2[|r2| - 1];
  }

  /** Stripping is determined by its characterisation. */
  lemma TrimIsStripped(s: string, r: string, i: int)
    requires StrippedAt(s, r, i)
    ensures Trim(s) == r
  {
    var j := |s| - |TrimStart(s)|;
    TrimStripped(s);
    StrippedUnique(s, Trim(s), j, r, i);
  }

  /** A string with no white space at its ends is left as it is. */
  lemma TrimUnpadded(s: string)
    requires s == [] || (!IsSpace(s[0]) && !IsSpace(s[|s| - 1]))
    ensures Trim(s) == s
  {
    assert TrimStart(s) == s;
  }

  lemma TrimIdempotent(s: string)
    ensures Trim(Trim(s)) == Trim(s)
  {
    var r := Trim(s);
    TrimStripped(s);
    TrimIsStripped(r, r, 0);
  }

  lemma LowerIdempotent(s: string)
    ensures Lower(Lower(s)) == Lower(s)
  {
  }

  /** Lower-casing never touches white space, so it commutes with stripping. */
  lemma TrimLowerCommute(s: string)
    ensures Trim(Lower(s)) == Lower(Trim(s))
  {
    var t := Trim(s);
    var i := |s| - |TrimStart(s)|;
    TrimStripped(s);
    StrippedLower(s, t, i);
    TrimIsStripped(Lower(s), Lower(t), i);
  }

  lemma StrippedLower(s: string, r: string, i: int)
    requires StrippedAt(s, r, i)
    ensures StrippedAt(Lower(s), Lower(r), i)
  {
    var ls, lr := Lower(s), Lower(r);
    forall k | 0 <= k < |lr| ensures lr[k] == ls[i + k] {
      assert r[k] == s[i + k];
    }
    forall k | 0 <= k < i ensures IsSpace(ls[k]) {
      assert IsSpace(s[k]);
    }
    forall k | i + |lr| <= k < |ls| ensures IsSpace(ls[k]) {
      assert IsSpace(s[k]);
    }
  }

  /** Normalising twice is normalising once: a normalised key is a fixed point. */
  lemma NormalizeIdempotent(s: string)
    ensures Normalize(Normalize(s)) == Normalize(s)
  {
    var t := Trim(s);
    TrimLowerCommute(t);
    TrimIdempotent(s);
    LowerIdempotent(t);
  }

  /** Two strings are equal once lower-cased exactly when they agree up to ASCII case. */
  lemma LowerEqualIff(a: string, b: string)
    ensures Lower(a) == Lower(b) <==> EqualIgnoringCase(a, b)
  {
    if Lower(a) == Lower(b) {
      forall k | 0 <= k < |a| ensures CharEqualIgnoringCase(a[k], b[k]) {
        assert Lower(a)[k] == Lower(b)[k];
      }
    }
    if EqualIgnoringCase(a, b) {
      forall k | 0 <= k < |a| ensures Lower(a)[k] == Lower(b)[k] {
        assert CharEqualIgnoringCase(a[k], b[k]);
      }
    }
  }

  /** Normalised keys agree exactly when the stripped strings agree up to case. */
  lemma NormalizeEqualIff(a: string, b: string)
    ensures Normalize(a) == Normalize(b) <==> EqualIgnoringCase(Trim(a), Trim(b))
  {
    LowerEqualIff(Trim(a), Trim(b));
  }
}
