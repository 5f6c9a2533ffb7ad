/** Python string operations the extractor and the phone validator rely on:
    whitespace, `in`, `strip`, slicing with clamped bounds and `int(...)` on digits. */
module Text {

  /** The characters for which Python's `str.isspace` holds; `\s` in a `str`
      pattern of `re` matches exactly these. */
  predicate IsSpace(c: char) {
    || c == ' '
    || ('\t' <= c <= '\r')
    || ('\U{1C}' <= c <= '\U{1F}')
    || c == '\U{85}' || c == '\U{A0}' || c == '\U{1680}'
    || ('\U{2000}' <= c <= '\U{200A}')
    || c == '\U{2028}' || c == '\U{2029}' || c == '\U{202F}' || c == '\U{205F}' || c == '\U{3000}'
  }

  predicate AllSpace(s: string) {
    forall i :: 0 <= i < |s| ==> IsSpace(s[i])
  }

  predicate IsPrefix(p: string, s: string) {
    |p| <= |s| && s[..|p|] == p
  }

  predicate IsSuffix(p: string, s: string) {
    |p| <= |s| && s[|s| - |p|..] == p
  }

  /** `w in s` on Python strings. */
  predicate Contains(s: string, w: string)
    decreases |s|
  {
    IsPrefix(w, s) || (|s| > 0 && Contains(s[1..], w))
  }

  /** `Contains` agrees with "w occurs at some position of s". */
  lemma {:induction false} ContainsIff(s: string, w: string)
    ensures Contains(s, w) <==> exists i :: 0 <= i <= |s| && IsPrefix(w, s[i..])
    decreases |s|
  {
    assert s[0..] == s;
    if |s| > 0 {
      ContainsIff(s[1..], w);
      if Contains(s, w) && !IsPrefix(w, s) {
        var i :| 0 <= i <= |s| - 1 && IsPrefix(w, s[1..][i..]);
        assert s[1..][i..] == s[i + 1..];
      }
      if exists i :: 0 <= i <= |s| && IsPrefix(w, s[i..]) {
        var i :| 0 <= i <= |s| && IsPrefix(w, s[i..]);
        if i > 0 {
          assert s[i..] == s[1..][i - 1..];
        }
      }
    }
  }

  /** A text that contains `w` contains every prefix of `w`. */
  lemma ContainsPrefixOf(s: string, w: string, u: string)
    requires IsPrefix(u, w) && Contains(s, w)
    ensures Contains(s, u)
  {
    ContainsIff(s, w);
    var i :| 0 <= i <= |s| && IsPrefix(w, s[i..]);
    assert s[i..][..|u|] == w[..|u|];
    ContainsIff(s, u);
  }

  /** A string with a character that does not occur in `s` does not occur in `s`. */
  lemma AbsentChar(s: string, w: string, i: nat)
    requires i < |w| && w[i] !in s
    ensures !Contains(s, w)
  {
    ContainsIff(s, w);
  }

  /** `s.lstrip()`: what is left once the leading whitespace is removed. */
  function TrimLeft(s: string): (r: string)
    ensures IsSuffix(r, s)
    ensures AllSpace(s[..|s| - |r|])
    ensures r == [] || !IsSpace(r[0])
    decreases |s|
  {
    if |s| > 0 && IsSpace(s[0]) then
      var r := TrimLeft(s[1..]);
      assert s[..|s| - |r|] == [s[0]] + s[1..][..|s| - 1 - |r|];
      r
    else s
  }

  /** `s.rstrip()`: what is left once the trailing whitespace is removed. */
  function TrimRight(s: string): (r: string)
    ensures IsPrefix(r, s)
    ensures AllSpace(s[|r|..])
    ensures r == [] || !IsSpace(r[|r| - 1])
    decreases |s|
  {
    if |s| > 0 && IsSpace(s[|s| - 1]) then
      var p := s[..|s| - 1];
      var r := TrimRight(p);
      assert s[|r|..] == p[|r|..] + [s[|s| - 1]];
      r
    else s
  }

  /** A prefix `r` of a suffix `l` of `s`, with only whitespace cut off on
      either side and no whitespace left at either end, sits in `s` between two
      runs of whitespace. */
  lemma PieceBetweenSpaces(s: string, l: string, r: string)
    requires IsSuffix(l, s) && AllSpace(s[..|s| - |l|]) && (l == [] || !IsSpace(l[0]))
    requires IsPrefix(r, l) && AllSpace(l[|r|..]) && (r == [] || !IsSpace(r[|r| - 1]))
    ensures exists i :: 0 <= i <= |s| - |r| && s[i..i + |r|] == r
                        && AllSpace(s[..i]) && AllSpace(s[i + |r|..])
    ensures r == [] || (!IsSpace(r[0]) && !IsSpace(r[|r| - 1]))
  {
    var i := |s| - |l|;
    assert s[i..] == l;
    assert s[i..i + |r|] == l[..|r|];
    assert s[i + |r|..] == l[|r|..];
    assert r != [] ==> r[0] == l[0];
  }

  /** `s.strip()`: a contiguous piece of `s`, everything around it whitespace,
      and neither end of it whitespace. */
  function Strip(s: string): (r: string)
    ensures exists i :: 0 <= i <= |s| - |r| && s[i..i + |r|] == r
                        && AllSpace(s[..i]) && AllSpace(s[i + |r|..])
    ensures r == [] || (!IsSpace(r[0]) && !IsSpace(r[|r| - 1]))
  {
    var l := TrimLeft(s);
    var r := TrimRight(l);
    PieceBetweenSpaces(s, l, r);
    r
  }

  /** A string that neither begins nor ends with whitespace is its own strip. */
  lemma StripUnchanged(s: string)
    requires s == [] || (!IsSpace(s[0]) && !IsSpace(s[|s| - 1]))
    ensures Strip(s) == s
  {
    assert TrimLeft(s) == s;
  }

  /** Python's `s[i:j]` for non-negative bounds: bounds past the end are clamped,
      and an empty range gives the empty string. */
  function Slice(s: string, i: nat, j: nat): (r: string)
    ensures forall k :: 0 <= k < |r| ==> i + k < j && i + k < |s| && r[k] == s[i + k]
    ensures i <= j <= |s| ==> |r| == j - i
    ensures i < j && i < |s| ==> |r| == (if j < |s| then j else |s|) - i
  {
    var hi := if j < |s| then j else |s|;
    if i < hi then s[i..hi] else []
  }

  predicate IsDigit(c: char) {
    '0' <= c <= '9'
  }

  predicate IsDigits(s: string) {
    forall i :: 0 <= i < |s| ==> IsDigit(s[i])
  }

  function Pow10(n: nat): (p: nat)
    ensures p >= 1
  {
    if n == 0 then 1 else 10 * Pow10(n - 1)
  }

  /** Python's `int(s)` on a string of ASCII digits. */
  function DecimalValue(s: string): (n: nat)
    requires IsDigits(s)
    ensures n < Pow10(|s|)
    ensures |s| <= 2 ==> n < 100
    decreases |s|
  {
    assert Pow10(2) == 100;
    if s == [] then 0
    else 10 * DecimalValue(s[..|s| - 1]) + (s[|s| - 1] as int - '0' as int)
  }

  function Digit(d: nat): (c: char)
    requires d < 10
    ensures IsDigit(c) && c as int - '0' as int == d
  {
    ('0' as int + d) as char
  }

  /** The decimal numeral of `n` (Python's `str(n)`): its value is `n`, and it has
      no leading zero. */
  function DecimalString(n: nat): (s: string)
    ensures IsDigits(s) && 1 <= |s|
    ensures DecimalValue(s) == n
    ensures |s| > 1 ==> s[0] != '0'
    ensures n < 10 <==> |s| == 1
    ensures 10 <= n < 100 ==> |s| == 2
    decreases n
  {
    if n < 10 then [Digit(n)]
    else
      var p := DecimalString(n / 10);
      var s := p + [Digit(n % 10)];
      assert s[..|s| - 1] == p;
      s
  }
}
