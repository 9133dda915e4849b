/**
 * Python's `str.strip()` with no argument: removes leading and trailing
 * characters for which `str.isspace()` holds.
 */
module Whitespace {

  /** `str.isspace()` on one character (the Unicode whitespace Python recognises). */
  predicate IsSpace(c: char) {
    || ('\t' <= c <= '\r')
    || ('\U{1C}' <= c <= '\U{1F}')
    || c == ' '
    || c == '\U{85}' || c == '\U{A0}' || c == '\U{1680}'
    || ('\U{2000}' <= c <= '\U{200A}')
    || c == '\U{2028}' || c == '\U{2029}' || c == '\U{202F}' || c == '\U{205F}' || c == '\U{3000}'
  }

  /** A string with no whitespace at either end: what `strip()` leaves behind. */
  predicate IsClean(s: string) {
    s == [] || (!IsSpace(s[0]) && !IsSpace(s[|s| - 1]))
  }

  /** Every character of `s` from `lo` up to `hi` is whitespace. */
  predicate SpaceBetween(s: string, lo: int, hi: int)
    requires 0 <= lo && hi <= |s|
  {
    forall i :: lo <= i < hi ==> IsSpace(s[i])
  }

  /** `str.lstrip()`: the longest suffix that does not start with whitespace. */
  function TrimStart(s: string): (r: string)
    ensures |r| <= |s| && r == s[|s| - |r|..]
    ensures SpaceBetween(s, 0, |s| - |r|)
    ensures r == [] || !IsSpace(r[0])
  {
    if s != [] && IsSpace(s[0]) then TrimStart(s[1..]) else s
  }

  /** `str.rstrip()`: the longest prefix that does not end with whitespace. */
  function TrimEnd(s: string): (r: string)
    ensures |r| <= |s| && r == s[..|r|]
    ensures SpaceBetween(s, |r|, |s|)
    ensures r == [] || !IsSpace(r[|r| - 1])
  {
    if s != [] && IsSpace(s[|s| - 1]) then TrimEnd(s[..|s| - 1]) else s
  }

  /** `str.strip()`. */
  function Strip(s: string): (r: string)
    ensures |r| <= |s|
    ensures IsClean(r)
    ensures SpaceBetween(s, 0, |s|) <==> r == []
    ensures IsClean(s) ==> r == s
  {
    var t := TrimStart(s);
    var r := TrimEnd(t);
    assert IsClean(s) && s != [] ==> t == s && r == t by {
      if IsClean(s) && s != [] {
        assert t == s;
      }
    }
    r
  }

  /**
   * `strip()` removes only whitespace, and only at the ends: the result is the
   * slice of the input between two all-whitespace margins.
   */
  lemma {:induction false} StripRemovesOnlyMargins(s: string)
    ensures var a := |s| - |TrimStart(s)|;
      && a + |Strip(s)| <= |s|
      && Strip(s) == s[a..a + |Strip(s)|]
      && SpaceBetween(s, 0, a)
      && SpaceBetween(s, a + |Strip(s)|, |s|)
  {
    var t := TrimStart(s);
    var a := |s| - |t|;
    var r := TrimEnd(t);
    assert r == Strip(s);
    assert t == s[a..];
    assert r == t[..|r|];
    assert s[a..a + |r|] == r by {
      assert s[a..a + |r|] == s[a..][..|r|];
    }
    assert SpaceBetween(t, |r|, |t|);
    assert SpaceBetween(s, a + |r|, |s|) by {
      forall i | a + |r| <= i < |s| ensures IsSpace(s[i]) {
        assert s[i] == t[i - a];
      }
    }
  }

  /** Stripping twice is stripping once, so a second `strip()` of the header labels changes nothing. */
  lemma StripIdempotent(s: string)
    ensures Strip(Strip(s)) == Strip(s)
  {
  }
}
