/** Python's `str.lower()` and `str.strip()`, as bikeshare.py applies them to
    every answer typed at a prompt and to the month and weekday names it filters by. */
module Text {

  /** The characters `lower()` is modelled to change: the ASCII capitals. */
  predicate IsUpper(c: char) {
    'A' <= c <= 'Z'
  }

  /** The characters Python's `str.isspace()` accepts, which `strip()` removes. */
  predicate IsSpace(c: char) {
    || c == ' ' || '\t' <= c <= '\r' || '\U{1C}' <= c <= '\U{1F}'
    || c == '\U{85}' || c == '\U{A0}' || c == '\U{1680}' || '\U{2000}' <= c <= '\U{200A}'
    || c == '\U{2028}' || c == '\U{2029}' || c == '\U{202F}' || c == '\U{205F}' || c == '\U{3000}'
  }

  function LowerChar(c: char): char {
    if IsUpper(c) then (c as int + 32) as char else c
  }

  /** `s.lower()`. */
  function Lower(s: string): string {
    seq(|s|, k requires 0 <= k < |s| => LowerChar(s[k]))
  }

  /** `s.lstrip()`. */
  function StripLeft(s: string): string {
    if |s| > 0 && IsSpace(s[0]) then StripLeft(s[1..]) else s
  }

  /** `s.rstrip()`. */
  function StripRight(s: string): string {
    if |s| > 0 && IsSpace(s[|s| - 1]) then StripRight(s[..|s| - 1]) else s
  }

  /** `s.strip()`. */
  function Strip(s: string): string {
    StripRight(StripLeft(s))
  }

  /** `lstrip()` drops the leading whitespace and nothing else. */
  lemma {:induction false} StripLeftDropsLeadingSpace(s: string)
    ensures var r := StripLeft(s);
            && |r| <= |s| && r == s[|s| - |r|..]
            && (forall k :: 0 <= k < |s| - |r| ==> IsSpace(s[k]))
            && (r == [] || !IsSpace(r[0]))
  {
    if |s| > 0 && IsSpace(s[0]) {
      StripLeftDropsLeadingSpace(s[1..]);
    }
  }

  /** `rstrip()` drops the trailing whitespace and nothing else. */
  lemma {:induction false} StripRightDropsTrailingSpace(s: string)
    ensures var r := StripRight(s);
            && |r| <= |s| && r == s[..|r|]
            && (forall k :: |r| <= k < |s| ==> IsSpace(s[k]))
            && (r == [] || !IsSpace(r[|r| - 1]))
  {
    if |s| > 0 && IsSpace(s[|s| - 1]) {
      StripRightDropsTrailingSpace(s[..|s| - 1]);
    }
  }

  /** `strip()` keeps the slice of `s` that neither starts nor ends with
      whitespace, and everything it cuts off on either side is whitespace. */
  lemma StripKeepsCore(s: string)
    ensures var r := Strip(s);
            r == [] || (!IsSpace(r[0]) && !IsSpace(r[|r| - 1]))
    ensures var r, i := Strip(s), |s| - |StripLeft(s)|;
            && 0 <= i && i + |r| <= |s| && r == s[i..i + |r|]
            && (forall k :: 0 <= k < i ==> IsSpace(s[k]))
            && (forall k :: i + |r| <= k < |s| ==> IsSpace(s[k]))
  {
    var l := StripLeft(s);
    StripLeftDropsLeadingSpace(s);
    StripRightDropsTrailingSpace(l);
    var r := StripRight(l);
    if r != [] {
      assert r[0] == l[0];
    }
    assert r == s[|s| - |l|..|s| - |l| + |r|];
  }

  /** The normal form every prompt compares against: `s.lower().strip()`. */
  function Normalize(s: string): string {
    Strip(Lower(s))
  }

  /** A string that is its own normal form: no capitals, no surrounding whitespace. */
  predicate IsNormal(t: string) {
    && (forall k :: 0 <= k < |t| ==> !IsUpper(t[k]))
    && (t == [] || (!IsSpace(t[0]) && !IsSpace(t[|t| - 1])))
  }

  lemma NormalizeIsNormal(s: string)
    ensures IsNormal(Normalize(s))
  {
    var low := Lower(s);
    var r := Normalize(s);
    StripKeepsCore(low);
    var i := |low| - |StripLeft(low)|;
    forall k | 0 <= k < |r|
      ensures !IsUpper(r[k])
    {
      assert r[k] == low[i + k] == LowerChar(s[i + k]);
    }
  }

  lemma NormalIsFixed(t: string)
    requires IsNormal(t)
    ensures Normalize(t) == t
  {
    NormalizeIsNormal(t);
    assert Lower(t) == t;
    assert StripLeft(t) == t;
    assert StripRight(t) == t;
  }

  /** Normalizing twice is normalizing once. */
  lemma NormalizeIdempotent(s: string)
    ensures Normalize(Normalize(s)) == Normalize(s)
  {
    NormalizeIsNormal(s);
    NormalIsFixed(Normalize(s));
  }

  /** Case and surrounding whitespace do not matter: an answer that differs from
      another only in ASCII case normalizes to the same string. */
  lemma {:induction false} NormalizeIgnoresCase(s: string)
    ensures Normalize(Lower(s)) == Normalize(s)
  {
    assert Lower(Lower(s)) == Lower(s);
  }
}
