/** `validate_israeli_number` (bot.py:15-24): strip the separators, put an
    Israeli number into international form, and accept it when it has 9 to 13
    digits, as a WhatsApp address. */
module PhoneNumbers {
  import opened Wrappers
  import opened Text

  /** The characters the first substitution deletes: space, '-', '(' and ')'. */
  predicate IsSeparator(c: char) {
    c == ' ' || c == '-' || c == '(' || c == ')'
  }

  predicate NoSeparators(s: string) {
    forall i :: 0 <= i < |s| ==> !IsSeparator(s[i])
  }

  /** `re.sub(r"[ \-\(\)]", "", number)`. */
  function RemoveSeparators(s: string): (r: string)
    ensures NoSeparators(r)
    ensures |r| <= |s|
  {
    if s == [] then []
    else (if IsSeparator(s[0]) then [] else [s[0]]) + RemoveSeparators(s[1..])
  }

  /** Removing separators works piece by piece: together with its effect on a
      single character this says that every other character is kept, in order. */
  lemma {:induction false} RemoveSeparatorsConcat(a: string, b: string)
    ensures RemoveSeparators(a + b) == RemoveSeparators(a) + RemoveSeparators(b)
    decreases |a|
  {
    if a == [] {
      assert a + b == b;
    } else {
      var c := if IsSeparator(a[0]) then [] else [a[0]];
      assert (a + b)[0] == a[0] && (a + b)[1..] == a[1..] + b;
      assert RemoveSeparators(a + b) == c + RemoveSeparators(a[1..] + b);
      RemoveSeparatorsConcat(a[1..], b);
      assert c + (RemoveSeparators(a[1..]) + RemoveSeparators(b))
          == (c + RemoveSeparators(a[1..])) + RemoveSeparators(b);
    }
  }

  /** On a single character: a separator goes, anything else stays. */
  lemma RemoveSeparatorsChar(c: char)
    ensures RemoveSeparators([c]) == if IsSeparator(c) then [] else [c]
  {
    assert [c][1..] == [];
  }

  /** A string without separators is left as it is, and only such a string. */
  lemma {:induction false} RemoveSeparatorsUnchanged(s: string)
    ensures RemoveSeparators(s) == s <==> NoSeparators(s)
  {
    if NoSeparators(s) && s != [] {
      RemoveSeparatorsUnchanged(s[1..]);
    }
  }

  /** Removing separators twice is removing them once. */
  lemma RemoveSeparatorsIdempotent(s: string)
    ensures RemoveSeparators(RemoveSeparators(s)) == RemoveSeparators(s)
  {
    RemoveSeparatorsUnchanged(RemoveSeparators(s));
  }

  /** Lines 17-20: a leading "0" becomes "+972"; a number without a leading "+"
      gets "+972" in front; a number with one stays as it is. */
  function Internationalize(n: string): (r: string)
    ensures IsPrefix("0", n) ==> r == "+972" + n[1..]
    ensures !IsPrefix("0", n) && !IsPrefix("+", n) ==> r == "+972" + n
    ensures IsPrefix("+", n) ==> r == n
  {
    if IsPrefix("0", n) then "+972" + n[1..]
    else if !IsPrefix("+", n) then "+972" + n
    else n
  }

  /** The number as the function rebinds it before counting digits. */
  function Normalized(number: string): string {
    Internationalize(RemoveSeparators(number))
  }

  /** `re.sub(r"\D", "", number)`: the digits of the number, in order. */
  function DigitsOnly(s: string): (r: string)
    ensures IsDigits(r)
    ensures |r| <= |s|
  {
    if s == [] then []
    else (if IsDigit(s[0]) then [s[0]] else []) + DigitsOnly(s[1..])
  }

  /** Digits are counted piece by piece. */
  lemma {:induction false} DigitsOnlyConcat(a: string, b: string)
    ensures DigitsOnly(a + b) == DigitsOnly(a) + DigitsOnly(b)
    decreases |a|
  {
    if a == [] {
      assert a + b == b;
    } else {
      var c := if IsDigit(a[0]) then [a[0]] else [];
      assert (a + b)[0] == a[0] && (a + b)[1..] == a[1..] + b;
      assert DigitsOnly(a + b) == c + DigitsOnly(a[1..] + b);
      DigitsOnlyConcat(a[1..], b);
      assert c + (DigitsOnly(a[1..]) + DigitsOnly(b)) == (c + DigitsOnly(a[1..])) + DigitsOnly(b);
    }
  }

  /** On a single character: a digit stays, anything else goes. */
  lemma DigitsOnlyChar(c: char)
    ensures DigitsOnly([c]) == if IsDigit(c) then [c] else []
  {
    assert [c][1..] == [];
  }

  /** `validate_israeli_number`: the WhatsApp address of the normalised number
      when it has 9 to 13 digits, and nothing otherwise. */
  function ValidateIsraeliNumber(number: string): (r: Option<string>)
    ensures r.None? <==> !(9 <= |DigitsOnly(Normalized(number))| <= 13)
    ensures r.Some? ==> r.value == "whatsapp:" + Normalized(number)
  {
    var n := Normalized(number);
    if 9 <= |DigitsOnly(n)| <= 13 then Some("whatsapp:" + n) else None
  }

  /** The normalised number always starts with "+", so an accepted address
      always starts with "whatsapp:+". */
  lemma AlwaysInternational(number: string)
    ensures IsPrefix("+", Normalized(number))
    ensures ValidateIsraeliNumber(number).Some? ==>
              IsPrefix("whatsapp:+", ValidateIsraeliNumber(number).value)
  {
  }

  /** The digit count after normalising: two more for a leading "0" (one digit
      replaced by "972"), three more for a number without "+", the same otherwise. */
  lemma InternationalizeDigits(n: string)
    ensures |DigitsOnly(Internationalize(n))| ==
              |DigitsOnly(n)| + (if IsPrefix("0", n) then 2 else if !IsPrefix("+", n) then 3 else 0)
  {
    assert DigitsOnly("+972") == "972";
    if IsPrefix("0", n) {
      assert n == [n[0]] + n[1..];
      DigitsOnlyConcat([n[0]], n[1..]);
      DigitsOnlyConcat("+972", n[1..]);
    } else if !IsPrefix("+", n) {
      DigitsOnlyConcat("+972", n);
    }
  }

  /** The normalised number has no separators: "+972" has none and the rest
      had them removed. */
  lemma NormalizedNoSeparators(number: string)
    ensures NoSeparators(Normalized(number))
  {
    var n := RemoveSeparators(number);
    assert NoSeparators("+972");
    if IsPrefix("0", n) {
      assert NoSeparators(n[1..]);
    }
  }

  /** Feeding the normalised number back in gives the same answer. */
  lemma Idempotent(number: string)
    ensures Normalized(Normalized(number)) == Normalized(number)
    ensures ValidateIsraeliNumber(Normalized(number)) == ValidateIsraeliNumber(number)
  {
    var n := Normalized(number);
    NormalizedNoSeparators(number);
    RemoveSeparatorsUnchanged(n);
    AlwaysInternational(number);
  }

  /** Input that is empty or all separators becomes "+972", three digits, and is refused. */
  lemma {:induction false} OnlySeparatorsRefused(number: string)
    requires forall i :: 0 <= i < |number| ==> IsSeparator(number[i])
    ensures Normalized(number) == "+972"
    ensures ValidateIsraeliNumber(number).None?
  {
    AllSeparatorsVanish(number);
    assert DigitsOnly("+972") == "972";
  }

  lemma {:induction false} AllSeparatorsVanish(s: string)
    requires forall i :: 0 <= i < |s| ==> IsSeparator(s[i])
    ensures RemoveSeparators(s) == []
  {
    if s != [] {
      AllSeparatorsVanish(s[1..]);
    }
  }

  /** A string of digits is its own digits. */
  lemma {:induction false} DigitsOnlyOfDigits(s: string)
    requires IsDigits(s)
    ensures DigitsOnly(s) == s
  {
    if s != [] {
      DigitsOnlyOfDigits(s[1..]);
    }
  }

  /** The digit count of "+" followed by digits. */
  lemma PlusDigits(d: string)
    requires IsDigits(d)
    ensures |DigitsOnly("+" + d)| == |d|
  {
    DigitsOnlyConcat("+", d);
    DigitsOnlyOfDigits(d);
  }

  /** A dash between two pieces disappears. */
  lemma DashJoin(a: string, b: string)
    ensures RemoveSeparators(a + "-" + b) == RemoveSeparators(a) + RemoveSeparators(b)
  {
    RemoveSeparatorsConcat(a + "-", b);
    RemoveSeparatorsConcat(a, "-");
    RemoveSeparatorsChar('-');
  }

  /** A local number: a leading "0" and the rest digits. It is accepted exactly
      when the rest has 6 to 10 digits, and then as "+972" and the rest. */
  lemma LocalNumber(number: string, rest: string)
    requires RemoveSeparators(number) == "0" + rest && IsDigits(rest)
    ensures Normalized(number) == "+972" + rest
    ensures ValidateIsraeliNumber(number) ==
              if 6 <= |rest| <= 10 then Some("whatsapp:+972" + rest) else None
  {
    var n := "0" + rest;
    assert IsPrefix("0", n) && n[1..] == rest;
    DigitsOnlyConcat("+972", rest);
    assert DigitsOnly("+972") == "972";
    DigitsOnlyOfDigits(rest);
    assert |DigitsOnly(Normalized(number))| == 3 + |rest|;
    assert "whatsapp:" + ("+972" + rest) == "whatsapp:+972" + rest;
  }

  /** Three separator-free groups joined by dashes lose only the dashes. */
  lemma ThreeGroups(a: string, b: string, c: string)
    requires NoSeparators(a) && NoSeparators(b) && NoSeparators(c)
    ensures RemoveSeparators(a + "-" + b + "-" + c) == a + b + c
  {
    RemoveSeparatorsUnchanged(a);
    RemoveSeparatorsUnchanged(b);
    RemoveSeparatorsUnchanged(c);
    DashJoin(a + "-" + b, c);
    DashJoin(a, b);
  }

  /** A local mobile number written with dashes is accepted in international form. */
  lemma LocalMobileAccepted(number: string)
    requires number == "050-123-4567"
    ensures ValidateIsraeliNumber(number) == Some("whatsapp:+972501234567")
  {
    MobileGroups(number);
    LocalNumber(number, "501234567");
    assert "whatsapp:+972" + "501234567" == "whatsapp:+972501234567";
  }

  lemma MobileGroups(number: string)
    requires number == "050-123-4567"
    ensures RemoveSeparators(number) == "0" + "501234567"
  {
    assert number == "050" + "-" + "123" + "-" + "4567";
    ThreeGroups("050", "123", "4567");
    assert "050" + "123" + "4567" == "0" + "501234567";
  }

  /** A five-digit number gets the country code and still has too few digits. */
  lemma ShortNumberRefused(number: string)
    requires number == "12345"
    ensures ValidateIsraeliNumber(number) == None
  {
    RemoveSeparatorsUnchanged(number);
    assert Normalized(number) == "+" + "97212345";
    PlusDigits("97212345");
  }
}
