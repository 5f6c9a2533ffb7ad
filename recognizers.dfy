/** The rule cascade of `_rule_based_candidates` (time_extractor.py:66-244):
    each recognizer's decision logic as a function of the captured hour and
    minute, the local period and whether "בלילה" occurs in the text; the
    recognizers wrapped around those decisions; and the cascade in its fixed order. */
module Recognizers {
  import opened Wrappers
  import opened Text
  import opened Clock
  import opened HebrewNumbers
  import opened Periods

  /** Where a candidate came from: the rule cascade, or the external date parser
      together with the fragment it matched. */
  datatype Source = Rule | DateParser(fragment: string)

  /** A candidate time: the span of the match that produced it (none for the
      midnight phrases, the context defaults and the date parser), its value and
      its source. */
  datatype Candidate = Candidate(span: Option<Span>, value: string, source: Source)

  /** A `(\d{1,2})` capture. */
  type HourDigits = s: string | IsDigits(s) && 1 <= |s| <= 2 witness "0"

  /** A `(\d{2})` capture. */
  type MinuteDigits = s: string | IsDigits(s) && |s| == 2 witness "00"

  /** A match whose group captured an hour word. */
  datatype WordMatch = WordMatch(span: Span, word: HourWord)

  /** A match of one of the two "at N[:MM]" patterns. */
  datatype ClockMatch = ClockMatch(span: Span, hour: HourDigits, minute: Option<MinuteDigits>)

  /** A match of the direct "H:MM" / "HH:MM" pattern. */
  datatype LiteralMatch = LiteralMatch(span: Span, hour: HourDigits, minute: MinuteDigits)

  /** What the "around" pattern captured: an hour word or one or two digits. */
  datatype Operand = Word(word: HourWord) | Digits(digits: HourDigits)

  datatype AroundMatch = AroundMatch(span: Span, operand: Operand)

  /** A match of the bare one- or two-digit pattern. */
  datatype DigitsMatch = DigitsMatch(span: Span, digits: HourDigits)

  /** The first match (`re.search`) of every pattern of the cascade in the
      stripped text, or `None` where the pattern does not match. The two "at N"
      patterns are separate: the second is used only when the first has no match. */
  datatype Matches = Matches(
    quarterTo: Option<WordMatch>,
    halfPast: Option<WordMatch>,
    literal: Option<LiteralMatch>,
    atHour: Option<ClockMatch>,
    atPrefix: Option<ClockMatch>,
    wordNoon: Option<WordMatch>,
    wordNight: Option<WordMatch>,
    bareWord: Option<WordMatch>,
    around: Option<AroundMatch>,
    bareDigits: Option<DigitsMatch>)

  /** The contexts in which the recognizers move an hour into the second half of the day. */
  predicate IsPm(p: Period) {
    p == Evening || p == Afternoon
  }

  /** The position of `h:m` on a twelve-hour dial, in minutes. */
  function DialMinutes(h: nat, m: nat): nat {
    (h * 60 + m) % 720
  }

  /** The afternoon shift: +12 in an evening or afternoon context, for hours below 12. */
  function ShiftPm(h: nat, loc: Period): (hh: nat)
    ensures hh % 12 == h % 12
    ensures hh == h || hh == h + 12
    ensures hh == h + 12 <==> IsPm(loc) && h < 12
  {
    if IsPm(loc) && h < 12 then h + 12 else h
  }

  /** The shift used by the bare-word, "around" and bare-digit recognizers: with
      "בלילה" anywhere in the text the hours 1..4 stay as they are; otherwise the
      afternoon shift applies. */
  function NightOrShift(h: nat, loc: Period, night: bool): (hh: nat)
    ensures night && 1 <= h <= 4 ==> hh == h
    ensures !(night && 1 <= h <= 4) ==> hh == ShiftPm(h, loc)
  {
    if night && 1 <= h <= 4 then h else ShiftPm(h, loc)
  }

  /** The value for the hour 12: noon in a noon or default context, midnight in
      an evening or afternoon one. */
  function TwelveValue(loc: Period): (v: string)
    ensures ParseHM(v) == Some((if IsPm(loc) then 0 else 12, 0))
    ensures v == "00:00" <==> IsPm(loc)
    ensures v == "12:00" <==> !IsPm(loc)
  {
    ParseDigits('0', '0', '0', '0');
    ParseDigits('1', '2', '0', '0');
    if loc == Noon then "12:00"
    else if IsPm(loc) then "00:00"
    else "12:00"
  }

  /** The hour of "quarter to n": fifteen minutes before n o'clock on the dial,
      in the second half of the day in an evening or afternoon context and in
      the first half (12:45 for a quarter to one) otherwise. */
  function QuarterToHour(n: nat, loc: Period): (hh: nat)
    requires 1 <= n <= 12
    ensures 1 <= hh <= 23
    ensures DialMinutes(hh, 45 + 15) == DialMinutes(n, 0)
    ensures IsPm(loc) ==> 12 <= hh
    ensures !IsPm(loc) ==> hh <= 12
  {
    var base := if n > 1 then n - 1 else 12;
    if IsPm(loc) then (if base >= 12 then base else base + 12) else base
  }

  /** Whole hours on the dial: `a` hours are `a mod 12` hours round the dial. */
  lemma DialHours(a: nat)
    ensures (60 * a) % 720 == 60 * (a % 12)
  {
    assert 60 * a == 720 * (a / 12) + 60 * (a % 12);
  }

  /** The contract of `QuarterToHour` leaves no choice: any hour with those
      properties is the one it returns. */
  lemma QuarterToHourUnique(n: nat, loc: Period, hh: nat)
    requires 1 <= n <= 12 && 1 <= hh <= 23
    requires DialMinutes(hh, 45 + 15) == DialMinutes(n, 0)
    requires IsPm(loc) ==> 12 <= hh
    requires !IsPm(loc) ==> hh <= 12
    ensures hh == QuarterToHour(n, loc)
  {
    var q := QuarterToHour(n, loc);
    assert hh * 60 + 45 + 15 == 60 * (hh + 1) && q * 60 + 45 + 15 == 60 * (q + 1);
    DialHours(hh + 1);
    DialHours(q + 1);
    assert (hh + 1) % 12 == (q + 1) % 12;
  }

  /** The hour of "n and a half": n itself, in the second half of the day in an
      evening or afternoon context. */
  function HalfPastHour(n: nat, loc: Period): (hh: nat)
    requires 1 <= n <= 12
    ensures 1 <= hh <= 23
    ensures DialMinutes(hh, 30) == DialMinutes(n, 30)
    ensures IsPm(loc) ==> 12 <= hh
    ensures !IsPm(loc) ==> hh == n
  {
    if IsPm(loc) then (if n >= 12 then n else n + 12) else n
  }

  /** The direct literal: accepted only when the hour is 0..23 and the minute 0..59. */
  function LiteralValue(h: nat, mm: nat): (v: Option<string>)
    requires h < 100 && mm < 100
    ensures v.Some? <==> h <= 23 && mm <= 59
    ensures v.Some? ==> IsCanonical(v.value) && ParseHM(v.value) == Some((h, mm))
  {
    if 0 <= h <= 23 && 0 <= mm <= 59 then Some(FormatHM(h, mm)) else None
  }

  /** The "at N[:MM]" recognizer's values. With "בלילה" in the text it first
      adds midnight for 12, or the hour itself with its minutes for 1..4; then,
      always, its general value: the hour-12 rule (the minutes dropped), or the
      afternoon shift with the minutes kept. No range check is made. */
  function AtHourValues(h: nat, mm: nat, loc: Period, night: bool): (vs: seq<string>)
    requires h < 100 && mm < 100
    ensures |vs| == if night && (h == 12 || 1 <= h <= 4) then 2 else 1
    ensures |vs| == 2 && h == 12 ==> vs[0] == "00:00"
    ensures |vs| == 2 && h != 12 ==> ParseHM(vs[0]) == Some((h, mm))
    ensures h == 12 ==> vs[|vs| - 1] == TwelveValue(loc)
    ensures h != 12 ==> ParseHM(vs[|vs| - 1]) == Some((ShiftPm(h, loc), mm))
  {
    var v := if h == 12 then TwelveValue(loc) else FormatHM(ShiftPm(h, loc), mm);
    if night && h == 12 then ["00:00", v]
    else if night && 1 <= h <= 4 then [FormatHM(h, mm), v]
    else [v]
  }

  /** For the hour 12 the "at N:MM" recognizer discards the minutes. */
  lemma AtHourTwelveDropsMinutes(mm1: nat, mm2: nat, loc: Period, night: bool)
    requires mm1 < 100 && mm2 < 100
    ensures AtHourValues(12, mm1, loc, night) == AtHourValues(12, mm2, loc, night)
  {
  }

  /** The general value of the "at N[:MM]" recognizer is canonical for a capture in range. */
  lemma AtHourGeneralInRange(h: nat, mm: nat, loc: Period)
    requires h <= 23 && mm <= 59
    ensures IsCanonical(if h == 12 then TwelveValue(loc) else FormatHM(ShiftPm(h, loc), mm))
  {
    if h != 12 {
      FormatCanonicalIff(ShiftPm(h, loc), mm);
    }
  }

  /** Its night value is canonical for a capture in range. */
  lemma AtHourNightInRange(h: nat, mm: nat)
    requires h <= 23 && mm <= 59
    ensures IsCanonical(if h == 12 then "00:00" else FormatHM(h, mm))
  {
    if h == 12 {
      ParseDigits('0', '0', '0', '0');
    } else {
      FormatCanonicalIff(h, mm);
    }
  }

  /** With a capture in range every value of the "at N[:MM]" recognizer is canonical. */
  lemma AtHourInRange(h: nat, mm: nat, loc: Period, night: bool)
    requires h < 100 && mm < 100
    ensures h <= 23 && mm <= 59 ==> forall v :: v in AtHourValues(h, mm, loc, night) ==> IsCanonical(v)
  {
    if h <= 23 && mm <= 59 {
      AtHourGeneralInRange(h, mm, loc);
      AtHourNightInRange(h, mm);
    }
  }

  /** The "at N" recognizer has no range check: "בשעה 25" yields "25:00". */
  lemma AtHourUnguarded()
    ensures AtHourValues(25, 0, Default, false) == ["25:00"]
    ensures !IsCanonical("25:00")
  {
    FormatDigits(25, 0);
    ParseDigits('2', '5', '0', '0');
  }

  /** A word followed by "בצהריים": n o'clock in the afternoon (12 stays noon). */
  function WordNoonValue(n: nat): (v: string)
    requires 1 <= n <= 12
    ensures ParseHM(v).Some? && ParseHM(v).value.1 == 0
    ensures 12 <= ParseHM(v).value.0 <= 23 && ParseHM(v).value.0 % 12 == n % 12
  {
    ParseDigits('1', '3', '0', '0');
    ParseDigits('1', '2', '0', '0');
    if n == 1 then "13:00"
    else if n == 12 then "12:00"
    else FormatHM(n + 12, 0)
  }

  /** A word followed by "בלילה": 12 is midnight and 1..4 stay as they are; for
      5..11 the recognizer emits nothing. */
  function WordNightValue(n: nat): (v: Option<string>)
    requires 1 <= n <= 12
    ensures v.Some? <==> n == 12 || n <= 4
    ensures v.Some? ==> ParseHM(v.value) == Some((n % 12, 0))
  {
    ParseDigits('0', '0', '0', '0');
    ParseDigits('0', '1', '0', '0');
    if n == 12 then Some("00:00")
    else if n == 1 then Some("01:00")
    else if 2 <= n <= 4 then Some(FormatHM(n, 0))
    else None
  }

  /** The bare-hour rule shared by the bare-word and bare-digit recognizers: the
      hour-12 rule, otherwise the night exception or the afternoon shift, minute 0. */
  function BareHourValue(h: nat, loc: Period, night: bool): (v: string)
    requires h <= 23
    ensures IsCanonical(v) && ParseHM(v).value.1 == 0
    ensures h == 12 ==> v == TwelveValue(loc)
    ensures h != 12 ==> ParseHM(v).value.0 == NightOrShift(h, loc, night)
  {
    if h == 12 then TwelveValue(loc) else FormatHM(NightOrShift(h, loc, night), 0)
  }

  /** The bare one- or two-digit fallback: accepted only for 0..23. */
  function BareDigitsValue(h: nat, loc: Period, night: bool): (v: Option<string>)
    requires h < 100
    ensures v.Some? <==> h <= 23
    ensures v.Some? ==> IsCanonical(v.value) && v.value == BareHourValue(h, loc, night)
  {
    if 0 <= h <= 23 then Some(BareHourValue(h, loc, night)) else None
  }

  /** The "around" recognizer: the night exception or the afternoon shift,
      minute 0, with no hour-12 rule and no range check. */
  function AroundValue(h: nat, loc: Period, night: bool): (v: string)
    requires h < 100
    ensures ParseHM(v) == Some((NightOrShift(h, loc, night), 0))
  {
    FormatHM(NightOrShift(h, loc, night), 0)
  }

  /** Unlike the bare-word rule, "around 12" is noon even in an evening context,
      and "around 30" is not a clock time. */
  lemma AroundDiffers()
    ensures AroundValue(12, Evening, false) == "12:00" && BareHourValue(12, Evening, false) == "00:00"
    ensures !IsCanonical(AroundValue(30, Default, false))
  {
    FormatDigits(12, 0);
    FormatDigits(30, 0);
  }

  /** Every candidate comes from the rule cascade. */
  predicate FromRules(cs: seq<Candidate>) {
    forall c :: c in cs ==> c.source == Rule
  }

  /** All values are canonical clock times. */
  predicate AllCanonical(cs: seq<Candidate>) {
    forall c :: c in cs ==> IsCanonical(c.value)
  }

  /** Candidates of one match: every value with the match's span. */
  function Emit(sp: Span, vs: seq<string>): (cs: seq<Candidate>)
    ensures |cs| == |vs| && FromRules(cs)
    ensures forall i :: 0 <= i < |vs| ==> cs[i] == Candidate(Some(sp), vs[i], Rule)
  {
    if vs == [] then [] else [Candidate(Some(sp), vs[0], Rule)] + Emit(sp, vs[1..])
  }

  /** Candidates emitted from canonical values are canonical. */
  lemma EmitCanonical(sp: Span, vs: seq<string>)
    ensures (forall v :: v in vs ==> IsCanonical(v)) ==> AllCanonical(Emit(sp, vs))
  {
    var cs := Emit(sp, vs);
    assert forall c :: c in cs ==> exists i :: 0 <= i < |vs| && c == cs[i];
  }

  /** "חצות היום" and "חצות הלילה" both contain "חצות". */
  lemma MidnightWords(t: string)
    ensures Contains(t, "חצות היום") ==> Contains(t, "חצות")
    ensures Contains(t, "חצות הלילה") ==> Contains(t, "חצות")
  {
    assert IsPrefix("חצות", "חצות היום") && IsPrefix("חצות", "חצות הלילה");
    if Contains(t, "חצות היום") {
      ContainsPrefixOf(t, "חצות היום", "חצות");
    }
    if Contains(t, "חצות הלילה") {
      ContainsPrefixOf(t, "חצות הלילה", "חצות");
    }
  }

  /** The midnight phrases (lines 76-79): "חצות היום" gives noon, "חצות" midnight;
      neither carries a span. */
  function Midnight(t: string): (cs: seq<Candidate>)
    ensures FromRules(cs)
    ensures AllCanonical(cs)
    ensures forall c :: c in cs ==> c.span.None?
    ensures Contains(t, "חצות היום") ==>
              cs == [Candidate(None, "12:00", Rule), Candidate(None, "00:00", Rule)]
    ensures !Contains(t, "חצות היום") && Contains(t, "חצות") ==> cs == [Candidate(None, "00:00", Rule)]
    ensures !Contains(t, "חצות") ==> cs == []
  {
    ParseDigits('1', '2', '0', '0');
    ParseDigits('0', '0', '0', '0');
    MidnightWords(t);
    (if Contains(t, "חצות היום") then [Candidate(None, "12:00", Rule)] else [])
    + (if Contains(t, "חצות") || Contains(t, "חצות הלילה") then [Candidate(None, "00:00", Rule)] else [])
  }

  /** "Quarter to" (lines 82-93). */
  function QuarterTo(t: string, m: Option<WordMatch>): (cs: seq<Candidate>)
    ensures FromRules(cs)
    ensures AllCanonical(cs)
    ensures m.None? ==> cs == []
    ensures m.Some? ==>
              && |cs| == 1 && cs[0].span == Some(m.value.span)
              && cs[0].value == FormatHM(QuarterToHour(HourOf(m.value.word), LocalPeriod(t, Some(m.value.span), Default)), 45)
  {
    match m
    case None => []
    case Some(wm) =>
      var loc := LocalPeriod(t, Some(wm.span), Default);
      Emit(wm.span, [FormatHM(QuarterToHour(HourOf(wm.word), loc), 45)])
  }

  /** "... and a half" (lines 96-105). */
  function HalfPast(t: string, m: Option<WordMatch>): (cs: seq<Candidate>)
    ensures FromRules(cs)
    ensures AllCanonical(cs)
    ensures m.None? ==> cs == []
    ensures m.Some? ==>
              && |cs| == 1 && cs[0].span == Some(m.value.span)
              && cs[0].value == FormatHM(HalfPastHour(HourOf(m.value.word), LocalPeriod(t, Some(m.value.span), Default)), 30)
  {
    match m
    case None => []
    case Some(wm) =>
      var loc := LocalPeriod(t, Some(wm.span), Default);
      Emit(wm.span, [FormatHM(HalfPastHour(HourOf(wm.word), loc), 30)])
  }

  /** The direct literal (lines 108-112). */
  function Literal(m: Option<LiteralMatch>): (cs: seq<Candidate>)
    ensures FromRules(cs)
    ensures AllCanonical(cs)
    ensures m.None? ==> cs == []
    ensures m.Some? ==> (cs != [] <==> DecimalValue(m.value.hour) <= 23 && DecimalValue(m.value.minute) <= 59)
    ensures m.Some? && cs != [] ==>
              && |cs| == 1 && cs[0].span == Some(m.value.span)
              && ParseHM(cs[0].value) == Some((DecimalValue(m.value.hour), DecimalValue(m.value.minute)))
  {
    match m
    case None => []
    case Some(lm) =>
      match LiteralValue(DecimalValue(lm.hour), DecimalValue(lm.minute))
      case None => []
      case Some(v) => Emit(lm.span, [v])
  }

  /** The literal recognizer is a fixed point on canonical values: the match of
      "HH:MM" yields exactly "HH:MM". */
  lemma LiteralFixedPoint(sp: Span, s: string)
    requires IsCanonical(s)
    ensures IsDigits(s[..2]) && IsDigits(s[3..])
    ensures Literal(Some(LiteralMatch(sp, s[..2], s[3..]))) == [Candidate(Some(sp), s, Rule)]
  {
    FormatOfParse(s);
  }

  /** "At N[:MM]" (lines 115-142): the "בשעה N" match if there is one, else the "ב-N" match. */
  function AtHour(t: string, night: bool, m: Option<ClockMatch>): (cs: seq<Candidate>)
    ensures FromRules(cs)
    ensures m.None? ==> cs == []
    ensures m.Some? ==> cs == Emit(m.value.span, AtHourValues(DecimalValue(m.value.hour),
              if m.value.minute.Some? then DecimalValue(m.value.minute.value) else 0,
              LocalPeriod(t, Some(m.value.span), Default), night))
    ensures m.Some? && DecimalValue(m.value.hour) <= 23
            && (m.value.minute.Some? ==> DecimalValue(m.value.minute.value) <= 59)
            ==> AllCanonical(cs)
  {
    match m
    case None => []
    case Some(cm) =>
      var loc := LocalPeriod(t, Some(cm.span), Default);
      var h := DecimalValue(cm.hour);
      var mm := if cm.minute.Some? then DecimalValue(cm.minute.value) else 0;
      var vs := AtHourValues(h, mm, loc, night);
      AtHourInRange(h, mm, loc, night);
      EmitCanonical(cm.span, vs);
      Emit(cm.span, vs)
  }

  /** A word followed by "בצהריים" (lines 145-154). */
  function WordNoon(m: Option<WordMatch>): (cs: seq<Candidate>)
    ensures FromRules(cs)
    ensures AllCanonical(cs)
    ensures m.None? ==> cs == []
    ensures m.Some? ==>
              && |cs| == 1 && cs[0].span == Some(m.value.span)
              && cs[0].value == WordNoonValue(HourOf(m.value.word))
  {
    match m
    case None => []
    case Some(wm) => Emit(wm.span, [WordNoonValue(HourOf(wm.word))])
  }

  /** A word followed by "בלילה" (lines 157-169). */
  function WordNight(m: Option<WordMatch>): (cs: seq<Candidate>)
    ensures FromRules(cs)
    ensures AllCanonical(cs)
    ensures m.None? ==> cs == []
    ensures m.Some? ==> (cs != [] <==> WordNightValue(HourOf(m.value.word)).Some?)
    ensures m.Some? && cs != [] ==>
              && |cs| == 1 && cs[0].span == Some(m.value.span)
              && cs[0].value == WordNightValue(HourOf(m.value.word)).value
  {
    match m
    case None => []
    case Some(wm) =>
      match WordNightValue(HourOf(wm.word))
      case None => []
      case Some(v) => Emit(wm.span, [v])
  }

  /** A bare hour word (lines 172-193). */
  function BareWord(t: string, night: bool, m: Option<WordMatch>): (cs: seq<Candidate>)
    ensures FromRules(cs)
    ensures AllCanonical(cs)
    ensures m.None? ==> cs == []
    ensures m.Some? ==>
              && |cs| == 1 && cs[0].span == Some(m.value.span)
              && cs[0].value == BareHourValue(HourOf(m.value.word), LocalPeriod(t, Some(m.value.span), Default), night)
  {
    match m
    case None => []
    case Some(wm) =>
      var loc := LocalPeriod(t, Some(wm.span), Default);
      Emit(wm.span, [BareHourValue(HourOf(wm.word), loc, night)])
  }

  /** The hour an "around" match names: the digits' value or the word's number. */
  function OperandHour(op: Operand): (h: nat)
    ensures h < 100
    ensures op.Word? ==> 1 <= h <= 12 && h == HourOf(op.word)
    ensures op.Digits? ==> h == DecimalValue(op.digits)
  {
    match op
    case Digits(d) => DecimalValue(d)
    case Word(w) => HourOf(w)
  }

  /** "Around" an hour word or digits (lines 196-214). */
  function Around(t: string, night: bool, m: Option<AroundMatch>): (cs: seq<Candidate>)
    ensures FromRules(cs)
    ensures m.Some? ==> |cs| == 1 && (IsCanonical(cs[0].value) <==> OperandHour(m.value.operand) <= 23)
    ensures m.Some? && OperandHour(m.value.operand) <= 23 ==> AllCanonical(cs)
    ensures m.None? ==> cs == []
    ensures m.Some? ==>
              && cs[0].span == Some(m.value.span)
              && cs[0].value == AroundValue(OperandHour(m.value.operand), LocalPeriod(t, Some(m.value.span), Default), night)
  {
    match m
    case None => []
    case Some(am) =>
      var loc := LocalPeriod(t, Some(am.span), Default);
      var v := AroundValue(OperandHour(am.operand), loc, night);
      EmitCanonical(am.span, [v]);
      Emit(am.span, [v])
  }

  /** The bare one- or two-digit fallback (lines 217-236). */
  function BareDigits(t: string, night: bool, m: Option<DigitsMatch>): (cs: seq<Candidate>)
    ensures FromRules(cs)
    ensures AllCanonical(cs)
    ensures m.None? ==> cs == []
    ensures m.Some? ==> (cs != [] <==> DecimalValue(m.value.digits) <= 23)
    ensures m.Some? && cs != [] ==>
              && |cs| == 1 && cs[0].span == Some(m.value.span)
              && cs[0].value == BareHourValue(DecimalValue(m.value.digits), LocalPeriod(t, Some(m.value.span), Default), night)
  {
    match m
    case None => []
    case Some(dm) =>
      var loc := LocalPeriod(t, Some(dm.span), Default);
      match BareDigitsValue(DecimalValue(dm.digits), loc, night)
      case None => []
      case Some(v) =>
        EmitCanonical(dm.span, [v]);
        Emit(dm.span, [v])
  }

  /** The four default times are clock times. */
  lemma DefaultTimesCanonical()
    ensures IsCanonical("08:00") && IsCanonical("20:00") && IsCanonical("12:00") && IsCanonical("17:00")
  {
    ParseDigits('0', '8', '0', '0');
    ParseDigits('2', '0', '0', '0');
    ParseDigits('1', '2', '0', '0');
    ParseDigits('1', '7', '0', '0');
  }

  /** The context-only defaults (lines 239-242). The four checks all test the one
      whole-text period, so at most one default is emitted, and none exactly when
      that period is `Default`. */
  function ContextDefaults(gp: Period): (cs: seq<Candidate>)
    ensures FromRules(cs)
    ensures |cs| <= 1
    ensures |cs| == 0 <==> gp == Default
    ensures AllCanonical(cs)
    ensures forall c :: c in cs ==> c.span.None?
    ensures gp == Morning ==> cs == [Candidate(None, "08:00", Rule)]
    ensures gp == Evening ==> cs == [Candidate(None, "20:00", Rule)]
    ensures gp == Noon ==> cs == [Candidate(None, "12:00", Rule)]
    ensures gp == Afternoon ==> cs == [Candidate(None, "17:00", Rule)]
  {
    DefaultTimesCanonical();
    (if gp == Morning then [Candidate(None, "08:00", Rule)] else [])
    + (if gp == Evening then [Candidate(None, "20:00", Rule)] else [])
    + (if gp == Noon then [Candidate(None, "12:00", Rule)] else [])
    + (if gp == Afternoon then [Candidate(None, "17:00", Rule)] else [])
  }

  /** Whether the digits captured by the two unguarded recognizers are clock values. */
  predicate UnguardedInRange(ms: Matches) {
    var at := if ms.atHour.Some? then ms.atHour else ms.atPrefix;
    && (at.Some? ==> DecimalValue(at.value.hour) <= 23
                     && (at.value.minute.Some? ==> DecimalValue(at.value.minute.value) <= 59))
    && (ms.around.Some? ==> OperandHour(ms.around.value.operand) <= 23)
  }

  /** `_rule_based_candidates`: the recognizers' candidates in the cascade's
      fixed order over the stripped text. */
  function RuleCandidates(text: string, ms: Matches): seq<Candidate> {
    var t := Strip(text);
    var night := Contains(t, "בלילה");
    Midnight(t)
    + QuarterTo(t, ms.quarterTo)
    + HalfPast(t, ms.halfPast)
    + Literal(ms.literal)
    + AtHour(t, night, if ms.atHour.Some? then ms.atHour else ms.atPrefix)
    + WordNoon(ms.wordNoon)
    + WordNight(ms.wordNight)
    + BareWord(t, night, ms.bareWord)
    + Around(t, night, ms.around)
    + BareDigits(t, night, ms.bareDigits)
    + ContextDefaults(ContextPeriod(t))
  }

  /** The rule-source mark survives concatenation. */
  lemma FromRulesConcat(a: seq<Candidate>, b: seq<Candidate>)
    ensures FromRules(a + b) <==> FromRules(a) && FromRules(b)
  {
    assert forall c :: c in a + b <==> c in a || c in b;
  }

  /** Canonical values survive concatenation. */
  lemma CanonicalConcat(a: seq<Candidate>, b: seq<Candidate>)
    ensures AllCanonical(a + b) <==> AllCanonical(a) && AllCanonical(b)
  {
    assert forall c :: c in a + b <==> c in a || c in b;
  }

  /** Eleven lists that are each marked as rule candidates concatenate to one that is. */
  lemma FromRulesPieces(a0: seq<Candidate>, a1: seq<Candidate>, a2: seq<Candidate>, a3: seq<Candidate>, a4: seq<Candidate>, a5: seq<Candidate>,
    a6: seq<Candidate>, a7: seq<Candidate>, a8: seq<Candidate>, a9: seq<Candidate>, a10: seq<Candidate>)
    requires FromRules(a0) && FromRules(a1) && FromRules(a2) && FromRules(a3) && FromRules(a4)
    requires FromRules(a5) && FromRules(a6) && FromRules(a7) && FromRules(a8) && FromRules(a9)
    requires FromRules(a10)
    ensures FromRules(a0 + a1 + a2 + a3 + a4 + a5 + a6 + a7 + a8 + a9 + a10)
  {
    FromRulesConcat(a0, a1);
    FromRulesConcat(a0 + a1, a2);
    FromRulesConcat(a0 + a1 + a2, a3);
    FromRulesConcat(a0 + a1 + a2 + a3, a4);
    FromRulesConcat(a0 + a1 + a2 + a3 + a4, a5);
    FromRulesConcat(a0 + a1 + a2 + a3 + a4 + a5, a6);
    FromRulesConcat(a0 + a1 + a2 + a3 + a4 + a5 + a6, a7);
    FromRulesConcat(a0 + a1 + a2 + a3 + a4 + a5 + a6 + a7, a8);
    FromRulesConcat(a0 + a1 + a2 + a3 + a4 + a5 + a6 + a7 + a8, a9);
    FromRulesConcat(a0 + a1 + a2 + a3 + a4 + a5 + a6 + a7 + a8 + a9, a10);
  }

  /** Eleven lists of canonical candidates concatenate to one. */
  lemma CanonicalPieces(a0: seq<Candidate>, a1: seq<Candidate>, a2: seq<Candidate>, a3: seq<Candidate>, a4: seq<Candidate>, a5: seq<Candidate>,
    a6: seq<Candidate>, a7: seq<Candidate>, a8: seq<Candidate>, a9: seq<Candidate>, a10: seq<Candidate>)
    requires AllCanonical(a0) && AllCanonical(a1) && AllCanonical(a2) && AllCanonical(a3)
    requires AllCanonical(a4) && AllCanonical(a5) && AllCanonical(a6) && AllCanonical(a7)
    requires AllCanonical(a8) && AllCanonical(a9) && AllCanonical(a10)
    ensures AllCanonical(a0 + a1 + a2 + a3 + a4 + a5 + a6 + a7 + a8 + a9 + a10)
  {
    CanonicalConcat(a0, a1);
    CanonicalConcat(a0 + a1, a2);
    CanonicalConcat(a0 + a1 + a2, a3);
    CanonicalConcat(a0 + a1 + a2 + a3, a4);
    CanonicalConcat(a0 + a1 + a2 + a3 + a4, a5);
    CanonicalConcat(a0 + a1 + a2 + a3 + a4 + a5, a6);
    CanonicalConcat(a0 + a1 + a2 + a3 + a4 + a5 + a6, a7);
    CanonicalConcat(a0 + a1 + a2 + a3 + a4 + a5 + a6 + a7, a8);
    CanonicalConcat(a0 + a1 + a2 + a3 + a4 + a5 + a6 + a7 + a8, a9);
    CanonicalConcat(a0 + a1 + a2 + a3 + a4 + a5 + a6 + a7 + a8 + a9, a10);
  }

  /** Every rule-based candidate is marked as coming from the rules. */
  lemma RuleCandidatesFromRules(text: string, ms: Matches)
    ensures FromRules(RuleCandidates(text, ms))
  {
    var t := Strip(text);
    var night := Contains(t, "בלילה");
    var at := if ms.atHour.Some? then ms.atHour else ms.atPrefix;
    FromRulesPieces(Midnight(t), QuarterTo(t, ms.quarterTo), HalfPast(t, ms.halfPast),
      Literal(ms.literal), AtHour(t, night, at), WordNoon(ms.wordNoon), WordNight(ms.wordNight),
      BareWord(t, night, ms.bareWord), Around(t, night, ms.around),
      BareDigits(t, night, ms.bareDigits), ContextDefaults(ContextPeriod(t)));
  }

  /** With the unguarded captures in range, every rule-based value is a valid HH:MM. */
  lemma RuleCandidatesCanonical(text: string, ms: Matches)
    requires UnguardedInRange(ms)
    ensures AllCanonical(RuleCandidates(text, ms))
  {
    var t := Strip(text);
    var night := Contains(t, "בלילה");
    var at := if ms.atHour.Some? then ms.atHour else ms.atPrefix;
    CanonicalPieces(Midnight(t), QuarterTo(t, ms.quarterTo), HalfPast(t, ms.halfPast),
      Literal(ms.literal), AtHour(t, night, at), WordNoon(ms.wordNoon), WordNight(ms.wordNight),
      BareWord(t, night, ms.bareWord), Around(t, night, ms.around),
      BareDigits(t, night, ms.bareDigits), ContextDefaults(ContextPeriod(t)));
  }

  lemma RuleCandidatesWellFormed(text: string, ms: Matches)
    ensures FromRules(RuleCandidates(text, ms))
    ensures UnguardedInRange(ms) ==> AllCanonical(RuleCandidates(text, ms))
  {
    RuleCandidatesFromRules(text, ms);
    if UnguardedInRange(ms) {
      RuleCandidatesCanonical(text, ms);
    }
  }


  /** `_rule_based_candidates` as the source runs it: a list grown by `add`,
      recognizer after recognizer. */
  method RuleBasedCandidates(text: string, ms: Matches) returns (cands: seq<Candidate>)
    ensures cands == RuleCandidates(text, ms)
  {
    var t := Strip(text);
    var globalPeriod := ContextPeriod(t);
    var night := Contains(t, "בלילה");
    cands := Midnight(t);
    cands := cands + QuarterTo(t, ms.quarterTo);
    cands := cands + HalfPast(t, ms.halfPast);
    cands := cands + Literal(ms.literal);
    var at := ms.atHour;
    if at.None? {
      at := ms.atPrefix;
    }
    assert at == if ms.atHour.Some? then ms.atHour else ms.atPrefix;
    cands := cands + AtHour(t, night, at);
    cands := cands + WordNoon(ms.wordNoon);
    cands := cands + WordNight(ms.wordNight);
    cands := cands + BareWord(t, night, ms.bareWord);
    cands := cands + Around(t, night, ms.around);
    cands := cands + BareDigits(t, night, ms.bareDigits);
    cands := cands + ContextDefaults(globalPeriod);
  }
}
