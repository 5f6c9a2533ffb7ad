/** The canonical "HH:MM" clock value: `_format_hm` and the reading back of its output. */
module Clock {
  import opened Wrappers
  import opened Text

  /** `f"{n:02d}"` for a non-negative `n`: the decimal numeral of `n`, zero-padded
      to width two. */
  function Pad2(n: nat): (s: string)
    ensures IsDigits(s) && DecimalValue(s) == n
    ensures n < 100 ==> |s| == 2
  {
    if n < 10 then
      var s := "0" + DecimalString(n);
      assert s[..|s| - 1] == "0";
      s
    else DecimalString(n)
  }

  /** Reads a five-character "DD:DD" string back into hour and minute. */
  function ParseHM(s: string): Option<(nat, nat)> {
    if |s| == 5 && IsDigits(s[..2]) && s[2] == ':' && IsDigits(s[3..])
    then Some((DecimalValue(s[..2]), DecimalValue(s[3..])))
    else None
  }

  /** A canonical 24-hour clock value: "HH:MM" with HH in 0..23 and MM in 0..59. */
  predicate IsCanonical(s: string) {
    ParseHM(s).Some? && ParseHM(s).value.0 <= 23 && ParseHM(s).value.1 <= 59
  }

  /** `_format_hm(h, m)`: for two-digit hour and minute the output reads back as
      exactly that hour and minute. */
  function FormatHM(h: nat, m: nat): (s: string)
    ensures h < 100 && m < 100 ==> ParseHM(s) == Some((h, m))
  {
    var a := Pad2(h);
    var b := Pad2(m);
    var s := a + ":" + b;
    assert h < 100 && m < 100 ==> s[..2] == a && s[3..] == b;
    s
  }

  /** A two-digit value pads to its two digits. */
  lemma Pad2Digits(n: nat)
    requires n < 100
    ensures Pad2(n) == [Digit(n / 10), Digit(n % 10)]
  {
    if n >= 10 {
      assert DecimalString(n) == DecimalString(n / 10) + [Digit(n % 10)];
    }
  }

  /** The characters of a formatted two-digit hour and minute. */
  lemma FormatDigits(h: nat, m: nat)
    requires h < 100 && m < 100
    ensures FormatHM(h, m) == [Digit(h / 10), Digit(h % 10), ':', Digit(m / 10), Digit(m % 10)]
  {
    Pad2Digits(h);
    Pad2Digits(m);
  }

  /** Reading a literal "ab:cd" of ASCII digits. */
  lemma ParseDigits(a: char, b: char, c: char, d: char)
    requires IsDigit(a) && IsDigit(b) && IsDigit(c) && IsDigit(d)
    ensures ParseHM([a, b, ':', c, d])
            == Some((10 * (a as int - '0' as int) + (b as int - '0' as int),
                     10 * (c as int - '0' as int) + (d as int - '0' as int)))
  {
    var s := [a, b, ':', c, d];
    assert s[..2] == [a, b] && s[3..] == [c, d];
    assert [a, b][..1] == [a] && [c, d][..1] == [c];
    assert [a][..0] == [] && [c][..0] == [];
    assert DecimalValue([a]) == a as int - '0' as int;
    assert DecimalValue([c]) == c as int - '0' as int;
    assert DecimalValue([a, b]) == 10 * (a as int - '0' as int) + (b as int - '0' as int);
    assert DecimalValue([c, d]) == 10 * (c as int - '0' as int) + (d as int - '0' as int);
  }

  /** A formatted value is canonical exactly when the hour and minute are in range. */
  lemma FormatCanonicalIff(h: nat, m: nat)
    requires h < 100 && m < 100
    ensures IsCanonical(FormatHM(h, m)) <==> h <= 23 && m <= 59
  {
  }

  /** Padding the value of a two-digit numeral gives the numeral back. */
  lemma {:induction false} Pad2OfTwoDigits(s: string)
    requires |s| == 2 && IsDigits(s)
    ensures Pad2(DecimalValue(s)) == s
  {
    var d0 := s[0] as int - '0' as int;
    var d1 := s[1] as int - '0' as int;
    assert s[..1] == [s[0]];
    assert [s[0]][..0] == [];
    assert DecimalValue(s) == 10 * d0 + d1;
    if d0 == 0 {
      assert Pad2(d1) == "0" + [Digit(d1)];
    } else {
      var n := 10 * d0 + d1;
      assert n / 10 == d0 && n % 10 == d1;
      assert DecimalString(n) == DecimalString(d0) + [Digit(d1)];
    }
  }

  /** Formatting is the inverse of reading: every "DD:DD" string is the
      formatting of the hour and minute it reads as. */
  lemma FormatOfParse(s: string)
    requires ParseHM(s).Some?
    ensures FormatHM(ParseHM(s).value.0, ParseHM(s).value.1) == s
  {
    Pad2OfTwoDigits(s[..2]);
    Pad2OfTwoDigits(s[3..]);
    assert s == s[..2] + ":" + s[3..];
  }
}
