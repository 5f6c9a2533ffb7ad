# Hebrew time extraction and phone-number validation, modelled in Dafny

This project models the core of a WhatsApp scheduling bot that reads Hebrew
free-text messages. It covers two parts of the code.

- `time_extractor.py` turns a message into one canonical `"HH:MM"` time, or
  nothing. It has four stages:
  - a cascade of pattern recognizers proposes candidate times;
  - two period classifiers (morning, afternoon, noon, evening) decide whether
    an hour belongs to the second half of the day;
  - an external date search adds fallback candidates, merged in without
    duplicate values;
  - a selection policy picks one candidate.
- `bot.py`'s `validate_israeli_number` normalises a phone number into
  international form and accepts it as a WhatsApp address when it has 9 to 13
  digits.

The modules follow the source. Each is in its own file.

| module | file | models |
|---|---|---|
| `Wrappers` | `wrappers.dfy` | `Option` |
| `Text` | `text.dfy` | Python's `str.isspace` set (also what `\s` matches), `in`, `strip`, clamped slicing, `int(...)` on ASCII digits |
| `Clock` | `clock.dfy` | `_format_hm`, and reading its output back as hour and minute |
| `HebrewNumbers` | `hebrew_numbers.dfy` | `HEBREW_NUMBERS` and the alternatives of `HEB_WORDS_PATTERN` |
| `Periods` | `periods.dfy` | `_context_period` and `_local_period` |
| `Recognizers` | `recognizers.dfy` | `_rule_based_candidates`: each recognizer's arithmetic, each recognizer, and the cascade |
| `Extraction` | `extraction.dfy` | `extract_times_all` (the merge loop) and `extract_best_time` (the selection) |
| `Scenarios` | `scenarios.dfy` | whole messages taken through the pipeline |
| `PhoneNumbers` | `phone_numbers.dfy` | `validate_israeli_number` |

Regular-expression matching is not re-implemented. Each `re.search` of the
cascade is an input: a `Matches` value holds, per pattern, the first match's
span and its captures, or `None`. The captures have the shapes the patterns
allow:
- `HourWord` is one of the alternatives of the hour-word pattern;
- `HourDigits` is one or two ASCII digits;
- `MinuteDigits` is exactly two ASCII digits.

Everything a recognizer does after the match is modelled exactly: the local
period, the night keyword, the shifts, the special case for hour 12, the range
checks, and the order in which candidates are added. The results of the
external date search are likewise an input: a sequence of (fragment, hour,
minute) with the hour in 0..23 and the minute in 0..59.

`_rule_based_candidates` and `extract_times_all` build lists step by step.
They are methods. `RuleBasedCandidates` appends recognizer after recognizer;
its postcondition ties the list it builds to `RuleCandidates`, which is the same
concatenation in the same order, so that proof is only the rendering of `add`.
`MergeDateCandidates` is the merge loop with its `seen` set, proved equal to
`Merged`, the merge defined by recursion on the date list. The properties of both
specification functions are proved as lemmas. `extract_times_all` itself is
the method `ExtractTimesAll`, and `extract_best_time`, with its early returns,
is the method `ExtractBestTime`; each is proved equal to a function
(`TimesAll`, `BestTime`). The rest of the source is expression code and is
modelled as functions.

Where the code does something a reader might not expect, the model follows the code:
- The "at N" (`בשעה N` / `ב-N`) and "around N" (`סביב N`) digit paths have no
  0..23 / 0..59 range check, so these two recognizers can produce values such
  as `"25:00"`. `Recognizers.AtHourUnguarded` and `Recognizers.AroundDiffers`
  exhibit such values. `Recognizers.RuleCandidatesCanonical` proves every
  rule value canonical only under `UnguardedInRange`.
- The four context-only defaults all test the single value `global_period`.
  They are therefore mutually exclusive: at most one is emitted, as
  `Recognizers.ContextDefaults` states.
- The merge checks each date candidate against the rule values and also
  against the values already appended. Appended values are therefore pairwise
  distinct (`Extraction.MergedSpec`).
- For `בשעה 12:MM` the minutes are dropped (`Recognizers.AtHourTwelveDropsMinutes`).

## Model

| member | source | states |
|---|---|---|
| Text.ContainsIff | time_extractor.py:28-31 | `w in s` holds exactly when `w` occurs at some position of `s` |
| Text.Strip | time_extractor.py:68 | `text.strip()` is a contiguous piece of the text with only whitespace around it, and it neither begins nor ends with whitespace |
| Text.Slice | time_extractor.py:42-43 | `text[i:j]` has the characters of `text` from `i`, clamped to the end, with the length Python gives |
| Text.DecimalString | time_extractor.py:23-24 | the decimal numeral of `n` is all digits, reads back as `n`, has no leading zero, and has one digit below 10 and two from 10 to 99 |
| Clock.Pad2 | time_extractor.py:24 | `{n:02d}` reads back as `n` and has exactly two digits when `n < 100` |
| Clock.FormatHM | time_extractor.py:23-24 | `_format_hm(h, m)` reads back as exactly `(h, m)` for two-digit values |
| Clock.FormatCanonicalIff | time_extractor.py:23-24 | a formatted value is a canonical clock time exactly when `h <= 23` and `m <= 59` |
| Clock.FormatOfParse | time_extractor.py:23-24 | formatting the hour and minute read from a "DD:DD" string gives that string back |
| HebrewNumbers.PatternMatchesTable | time_extractor.py:7-21 | the pattern's alternatives and the map's keys are the same words, and every word maps to 1..12 |
| HebrewNumbers.HourOf | time_extractor.py:7-15 | a captured hour word is always in `HEBREW_NUMBERS`, and its number is in 1..12 |
| Periods.AnyKeywordIff | time_extractor.py:28-31 | `any(test(w) for w in keywords)` holds exactly when some keyword of the period passes the test |
| Periods.KeywordEnds | time_extractor.py:46-63 | every period keyword begins and ends with a non-space character |
| Periods.ContextPeriod | time_extractor.py:26-32 | the result's keyword occurs in the text, and no keyword of an earlier period in the order morning, afternoon, noon, evening occurs; `Default` only when none occurs |
| Periods.LocalPeriod | time_extractor.py:34-65 | no span gives `Default`; a result other than `Default` has its keyword adjacent to the match; no earlier period is adjacent after the match; when the result is not adjacent after, no period at all is adjacent after (the window after is tried first) and no earlier period is adjacent before |
| Periods.PrefixOfTrimmedIsRegex | time_extractor.py:46-53 | a keyword begins the left-trimmed window exactly when `re.match(r"\s*" + w)` accepts the window |
| Periods.SuffixOfTrimmedIsRegex | time_extractor.py:56-63 | a keyword ends the right-trimmed window exactly when `re.search(w + r"\s*$")` accepts the window |
| Periods.AnchoredIsRegex | time_extractor.py:42-63 | the adjacency tests on the 15-character windows are exactly the regex tests: only whitespace may separate the keyword from the match |
| Periods.LocalEvidenceIsGlobal | time_extractor.py:26-65 | a keyword adjacent to a match also occurs in the text, so a local period other than `Default` implies a whole-text period other than `Default` |
| Periods.LocalIgnoresFallback | time_extractor.py:34-65 | the `fallback` argument never changes the local period |
| Recognizers.ShiftPm | time_extractor.py:137-141 | the shifted hour keeps its position on the twelve-hour dial; 12 is added exactly in an evening or afternoon context for hours below 12 |
| Recognizers.NightOrShift | time_extractor.py:187-192 | with "בלילה" in the text the hours 1..4 stay as they are; otherwise the afternoon shift applies |
| Recognizers.TwelveValue | time_extractor.py:130-136 | hour 12 gives "00:00" exactly in an evening or afternoon context and "12:00" otherwise |
| Recognizers.QuarterToHour | time_extractor.py:86-93 | a quarter to `n` is 15 minutes before `n` o'clock on the dial; in evening or afternoon the hour is 12..23, otherwise 1..12 |
| Recognizers.QuarterToHourUnique | time_extractor.py:86-93 | those properties determine the quarter-to hour uniquely |
| Recognizers.HalfPastHour | time_extractor.py:100-105 | half past `n` is `n:30` on the dial, in 12..23 in an evening or afternoon context, and `n` itself otherwise |
| Recognizers.LiteralValue | time_extractor.py:108-112 | the literal is accepted exactly when `h <= 23` and `mm <= 59`, and then reads back as `(h, mm)` |
| Recognizers.AtHourValues | time_extractor.py:118-142 | two values exactly with the night keyword and hour 12 or 1..4: first "00:00" or `h:mm`; then always the hour-12 value or the shifted hour with the minutes kept |
| Recognizers.AtHourTwelveDropsMinutes | time_extractor.py:130-136 | for hour 12 the minutes do not affect the values |
| Recognizers.AtHourInRange | time_extractor.py:115-142 | with the captures in range every value of the "at N" recognizer is canonical |
| Recognizers.AtHourUnguarded | time_extractor.py:118-142 | "at 25" yields "25:00", which is not a clock time |
| Recognizers.WordNoonValue | time_extractor.py:147-154 | a word plus "בצהריים" gives an hour in 12..23 on the same dial position, minute 0 |
| Recognizers.WordNightValue | time_extractor.py:159-169 | a word plus "בלילה" gives a value exactly for 12 and 1..4, and it is `n mod 12` o'clock |
| Recognizers.BareHourValue | time_extractor.py:178-193 | a bare hour gives a canonical value at minute 0: the hour-12 value for 12, otherwise the night exception or the afternoon shift |
| Recognizers.BareDigitsValue | time_extractor.py:217-236 | bare digits give a value exactly when the hour is 0..23, and it is the canonical bare-hour value `BareHourValue` of that hour |
| Recognizers.AroundValue | time_extractor.py:204-214 | "around h" is the night exception or the afternoon shift of `h` at minute 0, with no hour-12 rule |
| Recognizers.AroundDiffers | time_extractor.py:204-214 | "around 12" in the evening is "12:00" where the bare-word rule gives "00:00"; "around 30" is not a clock time |
| Recognizers.Emit | time_extractor.py:72-73 | `add` gives one rule candidate per value, with the match's span, in order |
| Recognizers.Midnight | time_extractor.py:76-79 | span-less canonical rule candidates: "12:00" then "00:00" when "חצות היום" occurs; only "00:00" when "חצות" occurs without "חצות היום"; nothing without "חצות" |
| Recognizers.QuarterTo | time_extractor.py:82-93 | no match gives nothing; a match gives one canonical rule candidate with the match's span, at 45 minutes past `QuarterToHour` of the word's number in the local period |
| Recognizers.HalfPast | time_extractor.py:96-105 | no match gives nothing; a match gives one canonical rule candidate with the match's span, at 30 minutes past `HalfPastHour` of the word's number in the local period |
| Recognizers.Literal | time_extractor.py:108-112 | no match gives nothing; a match gives a candidate exactly when the hour is 0..23 and the minute 0..59, and then one canonical rule candidate with the span that reads back as the captured hour and minute |
| Recognizers.LiteralFixedPoint | time_extractor.py:108-112 | a literal "HH:MM" that is canonical yields exactly itself |
| Recognizers.AtHour | time_extractor.py:115-142 | no match gives nothing; a match gives the `AtHourValues` of its hour and minute (0 when absent) in the local period, each with the match's span, in order; with captures in range all are canonical |
| Recognizers.WordNoon | time_extractor.py:145-154 | no match gives nothing; a match gives one canonical rule candidate with the span and the value `WordNoonValue` of the word's number |
| Recognizers.WordNight | time_extractor.py:157-169 | no match gives nothing; a match gives a candidate exactly when `WordNightValue` of the word's number has one, and then one canonical rule candidate with the span and that value |
| Recognizers.BareWord | time_extractor.py:172-193 | no match gives nothing; a match gives one canonical rule candidate with the span and the `BareHourValue` of the word's number in the local period |
| Recognizers.OperandHour | time_extractor.py:202-207 | the "around" hour is `int(digits)` for a digit capture (below 100) and the word's number, in 1..12, for a word capture |
| Recognizers.Around | time_extractor.py:196-214 | no match gives nothing; a match gives exactly one rule candidate with the span and the `AroundValue` of the operand's hour in the local period, canonical exactly when that hour is at most 23 |
| Recognizers.BareDigits | time_extractor.py:217-236 | no match gives nothing; a match gives a candidate exactly when the digits are 0..23, and then one canonical rule candidate with the span and the `BareHourValue` of that hour in the local period |
| Recognizers.ContextDefaults | time_extractor.py:238-242 | one span-less default per whole-text period: "08:00" for morning, "20:00" for evening, "12:00" for noon, "17:00" for afternoon, and none for `Default` |
| Recognizers.RuleCandidatesWellFormed | time_extractor.py:66-244 | every candidate of the cascade is a rule candidate; all are canonical when the unguarded captures are in range |
| Recognizers.RuleCandidatesFromRules | time_extractor.py:66-244 | every candidate the recognizer cascade emits is marked as a rule candidate |
| Recognizers.RuleCandidatesCanonical | time_extractor.py:66-244 | with the unguarded captures in range, every value the cascade emits is a valid HH:MM |
| Recognizers.RuleBasedCandidates | time_extractor.py:66-244 | the list grown by `add` across the cascade, recognizer by recognizer in the source's order, is `RuleCandidates` |
| Extraction.DateParserCandidates | time_extractor.py:255-261 | one span-less date candidate per search result, in order, formatted, and canonical |
| Extraction.MergedSpec | time_extractor.py:266-275 | the rule candidates stay a prefix; later entries come from the date list with values no rule candidate has; those values are pairwise distinct; each later entry is the first date candidate with its value, and they keep the date list's order; no value is lost |
| Extraction.FirstIndex | time_extractor.py:270-274 | the index of the first date candidate with a given value: it has the value and no earlier one does |
| Extraction.MergedFacts | time_extractor.py:270-274 | the merge keeps the rule candidates as a prefix, appends only candidates of the date list, with new and pairwise distinct values, and loses no value |
| Extraction.MergedOrder | time_extractor.py:270-274 | the appended date candidates are each the first of the date list with their value, in the date list's order |
| Extraction.MergedHead | time_extractor.py:270-274 | the first date candidate follows the rule candidates when its value is new |
| Extraction.MergeDateCandidates | time_extractor.py:270-274 | the loop with its `seen` set computes `Merged` |
| Extraction.ExtractTimesAll | time_extractor.py:266-275 | `extract_times_all` computes the merge of the rule and date candidates |
| Extraction.MergeSpec | time_extractor.py:266-275 | after the rule candidates come only date candidates, with new and pairwise distinct values, each the first date candidate with its value and in the date list's order; every value of both lists is present |
| Extraction.LeftmostUnique | time_extractor.py:282-285 | at most one index is the first among the spanned rule candidates with the smallest start |
| Extraction.LeftmostSpanned | time_extractor.py:282-285 | the first element after the stable sort by start: none exactly when no rule candidate has a span; otherwise a spanned rule candidate whose start is smallest, and earlier spanned ones start strictly later |
| Extraction.FirstRule | time_extractor.py:286-288 | the index of the first rule candidate, none exactly when there is none |
| Extraction.SelectSpec | time_extractor.py:277-289 | nothing exactly for no candidates; else the leftmost spanned rule candidate (ties to the earliest); else the first rule candidate; else the first candidate |
| Extraction.SelectIgnoresAppended | time_extractor.py:277-289 | appending non-rule candidates after at least one rule candidate does not change the choice |
| Extraction.SelectMerged | time_extractor.py:266-289 | over merged candidates: nothing exactly when both lists are empty; the choice among rule candidates when any exist; else the first date candidate |
| Extraction.ExtractBestTime | time_extractor.py:277-289 | `extract_best_time` computes the choice over `extract_times_all` |
| Extraction.BestTimeSpec | time_extractor.py:266-289 | nothing exactly when no rule fires and the search finds nothing; a rule firing decides alone; otherwise the first search result, formatted |
| Scenarios.MiddayOfTheDay | time_extractor.py:76-79 | "חצות היום" gives "12:00", whatever the date search finds |
| Scenarios.MidnightAlone | time_extractor.py:76-79 | "חצות" gives "00:00", whatever the date search finds |
| Scenarios.NoTime | time_extractor.py:277-281 | a message with no time and no search result gives nothing |
| Scenarios.QuarterToThreeInTheEvening | time_extractor.py:82-93 | "רבע לשלוש בערב" gives "14:45" ahead of the evening default "20:00" |
| PhoneNumbers.RemoveSeparators | bot.py:16 | the result has no space, '-', '(' or ')' and is no longer than the input |
| PhoneNumbers.RemoveSeparatorsConcat | bot.py:16 | removal distributes over concatenation |
| PhoneNumbers.RemoveSeparatorsChar | bot.py:16 | a separator is removed and any other character kept; with the previous row, every other character is kept, in order |
| PhoneNumbers.RemoveSeparatorsUnchanged | bot.py:16 | a string is left unchanged exactly when it has no separators |
| PhoneNumbers.RemoveSeparatorsIdempotent | bot.py:16 | removing separators twice equals removing them once |
| PhoneNumbers.Internationalize | bot.py:17-20 | a leading "0" becomes "+972"; without a leading "+", "+972" is put in front; with one, the number is unchanged |
| PhoneNumbers.DigitsOnly | bot.py:21 | the result is all digits and no longer than the input; with the two rows below, exactly the digits of the input, in order |
| PhoneNumbers.DigitsOnlyConcat | bot.py:21 | digit extraction distributes over concatenation |
| PhoneNumbers.DigitsOnlyChar | bot.py:21 | a digit is kept and any other character dropped |
| PhoneNumbers.ValidateIsraeliNumber | bot.py:15-24 | nothing exactly when the normalised number's digit count is outside 9..13; otherwise "whatsapp:" followed by the normalised number |
| PhoneNumbers.AlwaysInternational | bot.py:17-24 | the normalised number starts with "+", so an accepted address starts with "whatsapp:+" |
| PhoneNumbers.InternationalizeDigits | bot.py:17-21 | normalising adds 2 digits after a leading "0", 3 without a leading "+", and none otherwise |
| PhoneNumbers.Idempotent | bot.py:16-24 | normalising the normalised number changes nothing, and validating it gives the same answer |
| PhoneNumbers.OnlySeparatorsRefused | bot.py:16-23 | empty or separator-only input becomes "+972" and is refused |
| PhoneNumbers.LocalNumber | bot.py:16-24 | a local number "0" plus digits becomes "+972" plus the digits, and is accepted exactly when there are 6 to 10 of them |
| PhoneNumbers.LocalMobileAccepted | bot.py:15-24 | "050-123-4567" gives "whatsapp:+972501234567" |
| PhoneNumbers.ShortNumberRefused | bot.py:15-24 | "12345" is refused |

## Left out

- The regular-expression engine is not modelled: matches and captures are inputs. This covers Unicode `\b`, the `(?<!\S)` lookbehind, lookaheads and backtracking between alternatives. The model does not state which spans a pattern can match.
- Python's `\d` also matches non-ASCII decimal digits. The model's digit captures and `DigitsOnly` count ASCII digits only.
- `_dateparser_candidates` calls `dateparser.search_dates` and swallows its exceptions. The call is left out. Its results are an input sequence of (fragment, hour, minute), and the loop that turns them into candidates is the function `DateParserCandidates`.
- Extraction.LeftmostSpanned: `list.sort` is not modelled. The choice is stated as what the first element of a stable sort by start is: the smallest start, with ties going to the earliest generated.
- The `if hour:` / `is not None` guards after dictionary lookups are always true for words the pattern captures (`HebrewNumbers.HourOf`), so they have no modelled branch.
- The "around" recognizer's `int(...)` on a digit capture and `HEBREW_NUMBERS.get` on a word capture are both covered, but the empty-word case of `word_match or ""` cannot arise and is not modelled.
- `app.py` (the web hook, the Twilio response) is not part of this model: it is network I/O.
- In `bot.py`, `logging.basicConfig` and `process_incoming_message` are not part of this model: they are logging I/O and a fixed reply string.
