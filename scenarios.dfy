/** Whole messages run through the model: the text, the first match of each
    pattern in it as the regex engine finds it, and the value `extract_best_time`
    returns. Each message's facts are established one at a time, then combined. */
module Scenarios {
  import opened Wrappers
  import opened Text
  import opened Clock
  import opened HebrewNumbers
  import opened Periods
  import opened Recognizers
  import opened Extraction

  /** No pattern of the cascade matches. */
  const NoMatches := Matches(None, None, None, None, None, None, None, None, None, None)

  /** A recognizer without a match adds nothing. */
  lemma Unmatched(t: string, night: bool)
    ensures QuarterTo(t, None) == [] && HalfPast(t, None) == [] && Literal(None) == []
    ensures AtHour(t, night, None) == [] && WordNoon(None) == [] && WordNight(None) == []
    ensures BareWord(t, night, None) == [] && Around(t, night, None) == []
    ensures BareDigits(t, night, None) == []
  {
  }

  /** With no match the cascade is the midnight phrases and the context default. */
  lemma OnlyPhrases(text: string)
    ensures RuleCandidates(text, NoMatches) ==
              Midnight(Strip(text)) + ContextDefaults(ContextPeriod(Strip(text)))
  {
    var t := Strip(text);
    OnlyQuarterTo(text, NoMatches);
    Unmatched(t, false);
    assert Midnight(t) + [] == Midnight(t);
  }

  /** Empty lists between the first two and the last leave only those three. */
  lemma EmptiesBetween(a0: seq<Candidate>, a1: seq<Candidate>, a2: seq<Candidate>, a3: seq<Candidate>,
    a4: seq<Candidate>, a5: seq<Candidate>, a6: seq<Candidate>, a7: seq<Candidate>, a8: seq<Candidate>,
    a9: seq<Candidate>, a10: seq<Candidate>)
    requires a2 == [] && a3 == [] && a4 == [] && a5 == [] && a6 == [] && a7 == [] && a8 == [] && a9 == []
    ensures a0 + a1 + a2 + a3 + a4 + a5 + a6 + a7 + a8 + a9 + a10 == a0 + a1 + a10
  {
    assert a0 + a1 + a2 + a3 + a4 + a5 + a6 + a7 + a8 + a9 == a0 + a1;
  }

  /** With only a quarter-to match, its candidate sits between the two. */
  lemma OnlyQuarterTo(text: string, ms: Matches)
    requires ms == NoMatches.(quarterTo := ms.quarterTo)
    ensures var t := Strip(text);
            RuleCandidates(text, ms) ==
              Midnight(t) + QuarterTo(t, ms.quarterTo) + ContextDefaults(ContextPeriod(t))
  {
    var t := Strip(text);
    var night := Contains(t, "בלילה");
    var at := if ms.atHour.Some? then ms.atHour else ms.atPrefix;
    EmptiesBetween(Midnight(t), QuarterTo(t, ms.quarterTo), HalfPast(t, ms.halfPast),
      Literal(ms.literal), AtHour(t, night, at), WordNoon(ms.wordNoon), WordNight(ms.wordNight),
      BareWord(t, night, ms.bareWord), Around(t, night, ms.around),
      BareDigits(t, night, ms.bareDigits), ContextDefaults(ContextPeriod(t)));
  }

  /** The best time is the choice among the rule candidates once any rule fires. */
  lemma BestOfRules(t: string, ms: Matches, found: seq<FoundTime>, rule: seq<Candidate>, v: string)
    requires RuleCandidates(t, ms) == rule && rule != [] && Select(rule) == Some(v)
    ensures BestTime(t, ms, found) == Some(v)
  {
    BestTimeSpec(t, ms, found);
  }

  /** Among span-less rule candidates the first is chosen. */
  lemma SelectFirstUnspanned(rule: seq<Candidate>)
    requires rule != [] && rule[0].source == Rule
    requires forall c :: c in rule ==> c.span.None?
    ensures Select(rule) == Some(rule[0].value)
  {
    SelectSpec(rule);
  }

  /** The leftmost spanned rule candidate is chosen. */
  lemma SelectAt(rule: seq<Candidate>, k: nat)
    requires IsLeftmost(rule, k)
    ensures Select(rule) == Some(rule[k].value)
  {
    SelectSpec(rule);
  }

  /** A text missing a letter of "חצות" has no midnight phrase. */
  lemma NoMidnightWord(t: string, i: nat)
    requires i < |"חצות"| && "חצות"[i] !in t
    ensures Midnight(t) == []
  {
    AbsentChar(t, "חצות", i);
  }

  /** A text missing a letter of each morning keyword does not mention the morning. */
  lemma NoMorning(t: string, i: nat, j: nat)
    requires i < |"בבוקר"| && "בבוקר"[i] !in t
    requires j < |"בוקר"| && "בוקר"[j] !in t
    ensures !Mentions(t, Morning)
  {
    AbsentChar(t, "בבוקר", i);
    AbsentChar(t, "בוקר", j);
  }

  /** The same for the afternoon keywords. */
  lemma NoAfternoon(t: string, i: nat, j: nat)
    requires i < |"אחרי הצהריים"| && "אחרי הצהריים"[i] !in t
    requires j < |"אחה\"צ"| && "אחה\"צ"[j] !in t
    ensures !Mentions(t, Afternoon)
  {
    AbsentChar(t, "אחרי הצהריים", i);
    AbsentChar(t, "אחה\"צ", j);
  }

  /** The same for the noon keywords. */
  lemma NoNoon(t: string, i: nat, j: nat)
    requires i < |"בצהריים"| && "בצהריים"[i] !in t
    requires j < |"צהריים"| && "צהריים"[j] !in t
    ensures !Mentions(t, Noon)
  {
    AbsentChar(t, "בצהריים", i);
    AbsentChar(t, "צהריים", j);
  }

  /** The same for the evening keywords. */
  lemma NoEvening(t: string, i: nat, j: nat, k: nat)
    requires i < |"בערב"| && "בערב"[i] !in t
    requires j < |"בלילה"| && "בלילה"[j] !in t
    requires k < |"לילה"| && "לילה"[k] !in t
    ensures !Mentions(t, Evening)
  {
    AbsentChar(t, "בערב", i);
    AbsentChar(t, "בלילה", j);
    AbsentChar(t, "לילה", k);
  }

  // "חצות היום" ("midnight of the day")

  lemma MiddayStripped(t: string)
    requires t == "חצות היום"
    ensures Strip(t) == t
  {
    StripUnchanged(t);
  }

  lemma MiddayPhrases(t: string)
    requires t == "חצות היום"
    ensures Midnight(t) == [Candidate(None, "12:00", Rule), Candidate(None, "00:00", Rule)]
  {
    assert IsPrefix("חצות היום", t);
  }

  lemma MiddayContext(t: string)
    requires t == "חצות היום"
    ensures ContextPeriod(t) == Default
  {
    NoMorning(t, 0, 0);
    NoAfternoon(t, 0, 0);
    NoNoon(t, 0, 2);
    NoEvening(t, 0, 0, 0);
  }

  /** "חצות היום" means noon: the noon candidate comes first and neither carries
      a span, so the first rule candidate wins, whatever the date search finds. */
  lemma MiddayOfTheDay(t: string, found: seq<FoundTime>)
    requires t == "חצות היום"
    ensures BestTime(t, NoMatches, found) == Some("12:00")
  {
    MiddayStripped(t);
    MiddayPhrases(t);
    MiddayContext(t);
    OnlyPhrases(t);
    var rule := [Candidate(None, "12:00", Rule), Candidate(None, "00:00", Rule)];
    SelectFirstUnspanned(rule);
    BestOfRules(t, NoMatches, found, rule, "12:00");
  }

  // "חצות" ("midnight")

  lemma MidnightStripped(t: string)
    requires t == "חצות"
    ensures Strip(t) == t
  {
    StripUnchanged(t);
  }

  lemma MidnightPhrases(t: string)
    requires t == "חצות"
    ensures Midnight(t) == [Candidate(None, "00:00", Rule)]
  {
    assert IsPrefix("חצות", t);
    AbsentChar(t, "חצות היום", 4);
    ParseDigits('0', '0', '0', '0');
  }

  lemma MidnightContext(t: string)
    requires t == "חצות"
    ensures ContextPeriod(t) == Default
  {
    NoMorning(t, 0, 0);
    NoAfternoon(t, 0, 0);
    NoNoon(t, 0, 1);
    NoEvening(t, 0, 0, 0);
  }

  /** "חצות" alone is midnight. */
  lemma MidnightAlone(t: string, found: seq<FoundTime>)
    requires t == "חצות"
    ensures BestTime(t, NoMatches, found) == Some("00:00")
  {
    MidnightStripped(t);
    MidnightPhrases(t);
    MidnightContext(t);
    OnlyPhrases(t);
    var rule := [Candidate(None, "00:00", Rule)];
    SelectFirstUnspanned(rule);
    BestOfRules(t, NoMatches, found, rule, "00:00");
  }

  // "שלום מה קורה" ("hello, what's up")

  lemma NoTimeStripped(t: string)
    requires t == "שלום מה קורה"
    ensures Strip(t) == t
  {
    assert t[0] == 'ש' && t[|t| - 1] == 'ה';
    StripUnchanged(t);
  }

  lemma NoTimeContext(t: string)
    requires t == "שלום מה קורה"
    ensures ContextPeriod(t) == Default
  {
    NoMorning(t, 0, 0);
    NoAfternoon(t, 0, 0);
    NoNoon(t, 0, 0);
    NoEvening(t, 0, 0, 1);
  }

  /** A message with no time in it, and nothing for the date search, gives nothing. */
  lemma NoTime(t: string)
    requires t == "שלום מה קורה"
    ensures BestTime(t, NoMatches, []) == None
  {
    NoTimeStripped(t);
    NoMidnightWord(t, 0);
    NoTimeContext(t);
    OnlyPhrases(t);
    BestTimeSpec(t, NoMatches, []);
  }

  // "רבע לשלוש בערב" ("a quarter to three in the evening")

  lemma QuarterToStripped(t: string)
    requires t == "רבע לשלוש בערב"
    ensures Strip(t) == t
  {
    StripUnchanged(t);
  }

  lemma QuarterToEvening(t: string)
    requires t == "רבע לשלוש בערב"
    ensures Mentions(t, Evening)
  {
    assert IsPrefix("בערב", t[10..]);
    ContainsIff(t, "בערב");
  }

  lemma QuarterToContext(t: string)
    requires t == "רבע לשלוש בערב"
    ensures ContextPeriod(t) == Evening
  {
    NoMorning(t, 3, 2);
    NoAfternoon(t, 0, 0);
    NoNoon(t, 1, 0);
    QuarterToEvening(t);
  }

  lemma QuarterToWindow(t: string)
    requires t == "רבע לשלוש בערב"
    ensures AfterWindow(t, Span(0, 9)) == " בערב"
  {
  }

  /** "בערב" begins with an evening keyword and with no keyword of an earlier period. */
  lemma EveningKeywordFirst(a: string)
    requires a == "בערב"
    ensures !AnyKeyword(Morning, Begins, a) && !AnyKeyword(Afternoon, Begins, a)
    ensures !AnyKeyword(Noon, Begins, a) && AnyKeyword(Evening, Begins, a)
  {
    assert a[1] != "בוקר"[1];
  }

  /** Leading whitespace before "בערב" is trimmed away. */
  lemma TrimSpaceEvening(w: string)
    requires w == " בערב"
    ensures TrimLeft(w) == "בערב"
  {
    assert IsSpace(w[0]) && w[1..] == "בערב";
    assert TrimLeft("בערב") == "בערב";
  }

  /** An evening keyword right after the match makes the local period evening. */
  lemma EveningAfter(t: string, sp: Span)
    requires AfterWindow(t, sp) == " בערב"
    ensures LocalPeriod(t, Some(sp), Default) == Evening
  {
    TrimSpaceEvening(AfterWindow(t, sp));
    EveningKeywordFirst(TrimLeft(AfterWindow(t, sp)));
  }

  /** A quarter to three in an evening context. */
  lemma QuarterToThreeEvening(t: string, sp: Span)
    requires LocalPeriod(t, Some(sp), Default) == Evening
    ensures QuarterTo(t, Some(WordMatch(sp, "שלוש"))) == [Candidate(Some(sp), "14:45", Rule)]
  {
    ShloshIsThree();
    QuarterToThreeValue();
    assert QuarterTo(t, Some(WordMatch(sp, "שלוש"))) == Emit(sp, [FormatHM(QuarterToHour(3, Evening), 45)]);
  }

  lemma ShloshIsThree()
    ensures HourOf("שלוש") == 3
  {
  }

  lemma QuarterToThreeValue()
    ensures FormatHM(QuarterToHour(3, Evening), 45) == "14:45"
  {
    FormatDigits(14, 45);
  }

  /** A single spanned candidate before a span-less context default wins. */
  lemma SpannedBeforeDefault(t: string, ms: Matches, found: seq<FoundTime>, c: Candidate, d: Candidate)
    requires RuleCandidates(t, ms) == [c, d]
    requires c.source == Rule && c.span.Some? && d.span.None?
    ensures BestTime(t, ms, found) == Some(c.value)
  {
    SelectSpannedFirst(c, d);
    BestOfRules(t, ms, found, [c, d], c.value);
  }

  lemma SelectSpannedFirst(c: Candidate, d: Candidate)
    requires c.source == Rule && c.span.Some? && d.span.None?
    ensures Select([c, d]) == Some(c.value)
  {
    assert IsLeftmost([c, d], 0);
    SelectAt([c, d], 0);
  }

  /** The cascade of a text with only a quarter-to match and an evening keyword. */
  lemma QuarterToCascade(t: string, ms: Matches, c: Candidate)
    requires ms == NoMatches.(quarterTo := ms.quarterTo)
    requires Strip(t) == t && Midnight(t) == [] && ContextPeriod(t) == Evening
    requires QuarterTo(t, ms.quarterTo) == [c]
    ensures RuleCandidates(t, ms) == [c, Candidate(None, "20:00", Rule)]
  {
    OnlyQuarterTo(t, ms);
    EveningDefault();
  }

  lemma EveningDefault()
    ensures ContextDefaults(Evening) == [Candidate(None, "20:00", Rule)]
  {
  }

  /** "רבע לשלוש בערב" is 14:45: the spanned quarter-to candidate is preferred
      to the span-less evening default "20:00". */
  lemma QuarterToThreeInTheEvening(t: string, found: seq<FoundTime>)
    requires t == "רבע לשלוש בערב"
    ensures BestTime(t, NoMatches.(quarterTo := Some(WordMatch(Span(0, 9), "שלוש"))), found)
            == Some("14:45")
  {
    var ms := NoMatches.(quarterTo := Some(WordMatch(Span(0, 9), "שלוש")));
    QuarterToStripped(t);
    NoMidnightWord(t, 0);
    QuarterToContext(t);
    QuarterToWindow(t);
    EveningAfter(t, Span(0, 9));
    QuarterToThreeEvening(t, Span(0, 9));
    var c := Candidate(Some(Span(0, 9)), "14:45", Rule);
    QuarterToCascade(t, ms, c);
    SpannedBeforeDefault(t, ms, found, c, Candidate(None, "20:00", Rule));
  }
}
