/** `extract_times_all` and `extract_best_time` (time_extractor.py:266-289):
    the rule candidates merged with the date parser's, de-duplicated by value,
    and the choice of one value among them. */
module Extraction {
  import opened Wrappers
  import opened Clock
  import opened Periods
  import opened Recognizers

  /** One result of the external date search: the fragment it matched and the
      hour and minute of the date it read there. */
  datatype Found = Found(fragment: string, hour: nat, minute: nat)

  /** A date's hour and minute are always a clock time. */
  type FoundTime = f: Found | f.hour <= 23 && f.minute <= 59 witness Found("", 0, 0)

  /** The candidates built from the date search's results (lines 255-261):
      one per result, in order, span-less and formatted. */
  function DateParserCandidates(found: seq<FoundTime>): (cs: seq<Candidate>)
    ensures |cs| == |found|
    ensures forall i :: 0 <= i < |found| ==>
              cs[i] == Candidate(None, FormatHM(found[i].hour, found[i].minute), DateParser(found[i].fragment))
    ensures AllCanonical(cs)
    ensures forall c :: c in cs ==> c.source.DateParser?
  {
    if found == [] then []
    else
      FormatCanonicalIff(found[0].hour, found[0].minute);
      [Candidate(None, FormatHM(found[0].hour, found[0].minute), DateParser(found[0].fragment))]
      + DateParserCandidates(found[1..])
  }

  /** The values of a list of candidates, as a set. */
  function Values(cs: seq<Candidate>): set<string> {
    set c | c in cs :: c.value
  }

  /** The merge of lines 270-274 after the first `|dp|` date candidates: a date
      candidate is appended only if no candidate already in the list has its value.
      The rule candidates stay as they are, in order, duplicates included. */
  function Merged(rule: seq<Candidate>, dp: seq<Candidate>): seq<Candidate>
    decreases |dp|
  {
    if dp == [] then rule
    else
      var prev := Merged(rule, dp[..|dp| - 1]);
      var d := dp[|dp| - 1];
      if d.value in Values(prev) then prev else prev + [d]
  }

  /** What the merge of `rule` with the date candidates `dp` guarantees of its
      result `c`: the rule candidates are its prefix; everything after them comes
      from `dp` and has a value no rule candidate has; those values are pairwise
      distinct; and every value of either list is in `c`. */
  ghost predicate MergeFacts(rule: seq<Candidate>, dp: seq<Candidate>, c: seq<Candidate>) {
    && |rule| <= |c| <= |rule| + |dp| && c[..|rule|] == rule
    && Values(c) == Values(rule) + Values(dp)
    && (forall i :: |rule| <= i < |c| ==> c[i] in dp && c[i].value !in Values(rule))
    && (forall i, j :: |rule| <= i < j < |c| ==> c[i].value != c[j].value)
  }

  /** Appending a candidate adds its value. */
  lemma ValuesAppend(cs: seq<Candidate>, x: Candidate)
    ensures Values(cs + [x]) == Values(cs) + {x.value}
  {
    assert forall y :: y in cs + [x] <==> y in cs || y == x;
  }

  /** The index of the first candidate of `dp` with the value `v`. */
  function FirstIndex(dp: seq<Candidate>, v: string): (k: nat)
    requires v in Values(dp)
    ensures k < |dp| && dp[k].value == v
    ensures forall j :: 0 <= j < k ==> dp[j].value != v
    decreases |dp|
  {
    if dp[0].value == v then 0
    else
      var c :| c in dp && c.value == v;
      assert c in dp[1..];
      1 + FirstIndex(dp[1..], v)
  }

  /** The candidates of `c` after the rule candidates are, each, the first
      candidate of `dp` with its value, in the order they have in `dp`. */
  ghost predicate FirstsInOrder(rule: seq<Candidate>, dp: seq<Candidate>, c: seq<Candidate>) {
    && (forall i :: |rule| <= i < |c| ==>
          c[i].value in Values(dp) && c[i] == dp[FirstIndex(dp, c[i].value)])
    && (forall i, j :: |rule| <= i < j < |c| ==>
          c[i].value in Values(dp) && c[j].value in Values(dp)
          && FirstIndex(dp, c[i].value) < FirstIndex(dp, c[j].value))
  }

  /** Appending to `dp` does not move the first candidate of a value already in it. */
  lemma FirstIndexAppend(init: seq<Candidate>, d: Candidate, v: string)
    requires v in Values(init)
    ensures v in Values(init + [d]) && FirstIndex(init + [d], v) == FirstIndex(init, v)
  {
    ValuesAppend(init, d);
    var k := FirstIndex(init, v);
    assert (init + [d])[k] == init[k];
  }

  /** A skipped date candidate leaves the order facts intact. */
  lemma OrderSkipStep(rule: seq<Candidate>, init: seq<Candidate>, d: Candidate, prev: seq<Candidate>)
    requires FirstsInOrder(rule, init, prev)
    ensures FirstsInOrder(rule, init + [d], prev)
  {
    var dp := init + [d];
    forall i | |rule| <= i < |prev|
      ensures prev[i].value in Values(dp) && prev[i] == dp[FirstIndex(dp, prev[i].value)]
    {
      FirstIndexAppend(init, d, prev[i].value);
      assert dp[FirstIndex(init, prev[i].value)] == init[FirstIndex(init, prev[i].value)];
    }
    forall i, j | |rule| <= i < j < |prev|
      ensures prev[i].value in Values(dp) && prev[j].value in Values(dp)
              && FirstIndex(dp, prev[i].value) < FirstIndex(dp, prev[j].value)
    {
      FirstIndexAppend(init, d, prev[i].value);
      FirstIndexAppend(init, d, prev[j].value);
    }
  }

  /** An appended date candidate with a value new to `init` is the first of its
      value, and comes after all the earlier ones. */
  lemma OrderAppendStep(rule: seq<Candidate>, init: seq<Candidate>, d: Candidate, prev: seq<Candidate>)
    requires FirstsInOrder(rule, init, prev) && d.value !in Values(init)
    ensures FirstsInOrder(rule, init + [d], prev + [d])
  {
    var dp := init + [d];
    var c := prev + [d];
    ValuesAppend(init, d);
    assert dp[|init|] == d;
    assert FirstIndex(dp, d.value) == |init|;
    forall i | |rule| <= i < |prev|
      ensures c[i].value in Values(dp) && c[i] == dp[FirstIndex(dp, c[i].value)]
              && FirstIndex(dp, c[i].value) < |init|
    {
      assert c[i] == prev[i];
      FirstIndexAppend(init, d, prev[i].value);
      assert dp[FirstIndex(init, prev[i].value)] == init[FirstIndex(init, prev[i].value)];
    }
    forall i, j | |rule| <= i < j < |c|
      ensures c[i].value in Values(dp) && c[j].value in Values(dp)
              && FirstIndex(dp, c[i].value) < FirstIndex(dp, c[j].value)
    {
      assert c[i] == prev[i];
      if j < |prev| {
        assert c[j] == prev[j];
        FirstIndexAppend(init, d, prev[i].value);
        FirstIndexAppend(init, d, prev[j].value);
      }
    }
  }

  /** A date candidate whose value is already present is skipped, and the facts
      still hold with it counted among the date candidates. */
  lemma SkipStep(rule: seq<Candidate>, init: seq<Candidate>, d: Candidate, prev: seq<Candidate>)
    requires MergeFacts(rule, init, prev) && d.value in Values(prev)
    ensures MergeFacts(rule, init + [d], prev)
  {
    ValuesAppend(init, d);
    assert forall x :: x in init ==> x in init + [d];
  }

  /** A date candidate with a new value is appended, and the facts still hold. */
  lemma AppendStep(rule: seq<Candidate>, init: seq<Candidate>, d: Candidate, prev: seq<Candidate>)
    requires MergeFacts(rule, init, prev) && d.value !in Values(prev)
    ensures MergeFacts(rule, init + [d], prev + [d])
  {
    var dp := init + [d];
    var c := prev + [d];
    ValuesAppend(init, d);
    ValuesAppend(prev, d);
    assert c[..|rule|] == prev[..|rule|];
    forall i | |rule| <= i < |c|
      ensures c[i] in dp && c[i].value !in Values(rule)
    {
      if i < |prev| {
        assert c[i] == prev[i];
      }
    }
    forall i, j | |rule| <= i < j < |c|
      ensures c[i].value != c[j].value
    {
      assert c[i] == prev[i];
      if j == |prev| {
        assert prev[i] in prev;
      } else {
        assert c[j] == prev[j];
      }
    }
  }

  /** The facts of `MergeFacts` hold of the merge. */
  lemma {:induction false} MergedFacts(rule: seq<Candidate>, dp: seq<Candidate>)
    ensures MergeFacts(rule, dp, Merged(rule, dp))
    decreases |dp|
  {
    if dp != [] {
      var init := dp[..|dp| - 1];
      MergedFacts(rule, init);
      assert dp == init + [dp[|dp| - 1]];
      var d, prev := dp[|dp| - 1], Merged(rule, init);
      if d.value in Values(prev) {
        SkipStep(rule, init, d, prev);
      } else {
        AppendStep(rule, init, d, prev);
      }
    } else {
      assert Merged(rule, dp)[..|rule|] == rule;
    }
  }

  /** The candidates the merge appends are the first of their values in `dp`,
      in `dp`'s order. */
  lemma {:induction false} MergedOrder(rule: seq<Candidate>, dp: seq<Candidate>)
    ensures FirstsInOrder(rule, dp, Merged(rule, dp))
    decreases |dp|
  {
    if dp != [] {
      var init := dp[..|dp| - 1];
      MergedOrder(rule, init);
      MergedFacts(rule, init);
      assert dp == init + [dp[|dp| - 1]];
      var d, prev := dp[|dp| - 1], Merged(rule, init);
      if d.value in Values(prev) {
        OrderSkipStep(rule, init, d, prev);
      } else {
        OrderAppendStep(rule, init, d, prev);
      }
    }
  }

  /** The merge keeps the rule candidates as its prefix; everything after them
      comes from `dp` and has a value no rule candidate has; those values are
      pairwise distinct; each is the first candidate of `dp` with its value, in
      `dp`'s order; and every value of either list is in the merge. */
  lemma MergedSpec(rule: seq<Candidate>, dp: seq<Candidate>)
    ensures var c := Merged(rule, dp);
            && |rule| <= |c| <= |rule| + |dp| && c[..|rule|] == rule
            && Values(c) == Values(rule) + Values(dp)
            && (forall i :: |rule| <= i < |c| ==> c[i] in dp && c[i].value !in Values(rule))
            && (forall i, j :: |rule| <= i < j < |c| ==> c[i].value != c[j].value)
            && FirstsInOrder(rule, dp, c)
  {
    MergedFacts(rule, dp);
    MergedOrder(rule, dp);
  }

  /** The first date candidate is appended right after the rule candidates
      unless a rule candidate has its value. */
  lemma {:induction false} MergedHead(rule: seq<Candidate>, dp: seq<Candidate>)
    requires dp != [] && dp[0].value !in Values(rule)
    ensures |rule| < |Merged(rule, dp)| && Merged(rule, dp)[|rule|] == dp[0]
    decreases |dp|
  {
    if |dp| > 1 {
      MergedHead(rule, dp[..|dp| - 1]);
    } else {
      assert dp[..0] == [];
    }
  }

  /** What `extract_times_all` returns for the text, the first matches of its
      patterns and the date search's results. */
  function TimesAll(text: string, ms: Matches, found: seq<FoundTime>): seq<Candidate> {
    Merged(RuleCandidates(text, ms), DateParserCandidates(found))
  }

  /** The merge loop of `extract_times_all` (lines 270-274), with `seen`
      holding the values in the list so far. */
  method MergeDateCandidates(rule: seq<Candidate>, dp: seq<Candidate>) returns (c: seq<Candidate>)
    ensures c == Merged(rule, dp)
  {
    c := rule;
    var seen := set x | x in c :: x.value;
    var i := 0;
    while i < |dp|
      invariant 0 <= i <= |dp|
      invariant c == Merged(rule, dp[..i])
      invariant seen == Values(c)
    {
      var d := dp[i];
      assert dp[..i + 1][..i] == dp[..i];
      if d.value !in seen {
        assert Values(c + [d]) == Values(c) + {d.value};
        c := c + [d];
        seen := seen + {d.value};
      }
      i := i + 1;
    }
    assert dp[..|dp|] == dp;
  }

  /** `extract_times_all`: the rule candidates, then the date candidates merged in. */
  method ExtractTimesAll(text: string, ms: Matches, found: seq<FoundTime>) returns (c: seq<Candidate>)
    ensures c == TimesAll(text, ms, found)
  {
    var rule := RuleBasedCandidates(text, ms);
    var dp := DateParserCandidates(found);
    c := MergeDateCandidates(rule, dp);
  }

  /** A rule candidate that carries a span. */
  predicate IsSpannedRule(c: Candidate) {
    c.source == Rule && c.span.Some?
  }

  /** Whether `k` is the index of the first spanned rule candidate among those
      with the smallest start: the first element of the spanned rule candidates
      after a stable sort by start. */
  predicate IsLeftmost(cs: seq<Candidate>, k: nat) {
    && k < |cs| && IsSpannedRule(cs[k])
    && (forall i :: 0 <= i < |cs| && IsSpannedRule(cs[i]) ==> cs[k].span.value.start <= cs[i].span.value.start)
    && (forall i :: 0 <= i < k && IsSpannedRule(cs[i]) ==> cs[k].span.value.start < cs[i].span.value.start)
  }

  /** At most one index is leftmost. */
  lemma LeftmostUnique(cs: seq<Candidate>, k1: nat, k2: nat)
    requires IsLeftmost(cs, k1) && IsLeftmost(cs, k2)
    ensures k1 == k2
  {
  }

  /** The index of the leftmost spanned rule candidate, if there is one. */
  function LeftmostSpanned(cs: seq<Candidate>): (r: Option<nat>)
    ensures r.None? <==> forall i :: 0 <= i < |cs| ==> !IsSpannedRule(cs[i])
    ensures r.Some? ==> IsLeftmost(cs, r.value)
  {
    if cs == [] then None
    else
      var rest := LeftmostSpanned(cs[1..]);
      assert forall i :: 1 <= i < |cs| ==> cs[i] == cs[1..][i - 1];
      if IsSpannedRule(cs[0])
         && (rest.None? || cs[0].span.value.start <= cs[1..][rest.value].span.value.start)
      then Some(0)
      else if rest.None? then None
      else Some(rest.value + 1)
  }

  /** The index of the first rule candidate, if there is one. */
  function FirstRule(cs: seq<Candidate>): (r: Option<nat>)
    ensures r.None? <==> forall i :: 0 <= i < |cs| ==> cs[i].source != Rule
    ensures r.Some? ==> r.value < |cs| && cs[r.value].source == Rule
                        && forall i :: 0 <= i < r.value ==> cs[i].source != Rule
  {
    if cs == [] then None
    else if cs[0].source == Rule then Some(0)
    else
      var rest := FirstRule(cs[1..]);
      assert forall i :: 1 <= i < |cs| ==> cs[i] == cs[1..][i - 1];
      if rest.None? then None else Some(rest.value + 1)
  }

  /** The choice of lines 280-289 over a list of candidates. */
  function Select(cs: seq<Candidate>): Option<string> {
    if cs == [] then None
    else match LeftmostSpanned(cs)
      case Some(k) => Some(cs[k].value)
      case None =>
        match FirstRule(cs)
        case Some(k) => Some(cs[k].value)
        case None => Some(cs[0].value)
  }

  /** What the choice promises: nothing exactly for no candidates; else the
      leftmost spanned rule candidate, ties going to the earliest generated;
      failing that the first rule candidate; failing that the first candidate. */
  lemma SelectSpec(cs: seq<Candidate>)
    ensures Select(cs).None? <==> cs == []
    ensures forall k: nat :: IsLeftmost(cs, k) ==> Select(cs) == Some(cs[k].value)
    ensures (forall i :: 0 <= i < |cs| ==> !IsSpannedRule(cs[i])) ==>
              forall k :: 0 <= k < |cs| && cs[k].source == Rule
                          && (forall i :: 0 <= i < k ==> cs[i].source != Rule) ==>
                            Select(cs) == Some(cs[k].value)
    ensures (forall i :: 0 <= i < |cs| ==> cs[i].source != Rule) && cs != [] ==>
              Select(cs) == Some(cs[0].value)
  {
    forall k: nat | IsLeftmost(cs, k)
      ensures Select(cs) == Some(cs[k].value)
    {
      LeftmostUnique(cs, k, LeftmostSpanned(cs).value);
    }
  }

  /** Appending candidates that are not rule candidates changes nothing when
      there is a rule candidate already: the date parser is only a fallback. */
  lemma SelectIgnoresAppended(rule: seq<Candidate>, extra: seq<Candidate>)
    requires rule != []
    requires forall c :: c in extra ==> c.source != Rule
    ensures Select(rule + extra) == Select(rule)
  {
    var cs := rule + extra;
    assert forall i :: 0 <= i < |rule| ==> cs[i] == rule[i];
    assert forall i :: |rule| <= i < |cs| ==> cs[i] in extra;
    match LeftmostSpanned(rule)
    case Some(k) =>
      assert IsLeftmost(cs, k);
      LeftmostUnique(cs, k, LeftmostSpanned(cs).value);
    case None =>
      assert LeftmostSpanned(cs).None?;
      match FirstRule(rule)
      case Some(k) =>
        assert FirstRule(cs) == Some(k);
      case None =>
        assert FirstRule(cs).None?;
  }

  /** What `extract_best_time` returns. */
  function BestTime(text: string, ms: Matches, found: seq<FoundTime>): Option<string> {
    Select(TimesAll(text, ms, found))
  }

  /** `extract_best_time`: all candidates, then the choice among them. */
  method ExtractBestTime(text: string, ms: Matches, found: seq<FoundTime>) returns (best: Option<string>)
    ensures best == BestTime(text, ms, found)
  {
    var cands := ExtractTimesAll(text, ms, found);
    if cands == [] {
      return None;
    }
    var k := LeftmostSpanned(cands);
    if k.Some? {
      return Some(cands[k.value].value);
    }
    var r := FirstRule(cands);
    if r.Some? {
      return Some(cands[r.value].value);
    }
    return Some(cands[0].value);
  }

  /** Merging date candidates into rule candidates: the rule candidates stay a
      prefix, and everything after them is a date candidate with a value that is
      new, in pairwise distinct values, each the first date candidate with its
      value and in the date candidates' order; no value is lost. */
  lemma MergeSpec(rule: seq<Candidate>, dp: seq<Candidate>)
    requires forall c :: c in dp ==> c.source.DateParser?
    ensures var c := Merged(rule, dp);
            && |rule| <= |c| && c[..|rule|] == rule
            && (forall i :: |rule| <= i < |c| ==>
                  c[i].source.DateParser? && c[i].value !in Values(rule))
            && (forall i, j :: |rule| <= i < j < |c| ==> c[i].value != c[j].value)
            && Values(c) == Values(rule) + Values(dp)
            && FirstsInOrder(rule, dp, c)
  {
    MergedSpec(rule, dp);
  }

  /** The choice over merged candidates: nothing exactly when both lists are
      empty; the choice among the rule candidates when there are any; the
      first date candidate otherwise. */
  lemma SelectMerged(rule: seq<Candidate>, dp: seq<Candidate>)
    requires FromRules(rule)
    requires forall c :: c in dp ==> c.source.DateParser?
    ensures Select(Merged(rule, dp)).None? <==> rule == [] && dp == []
    ensures rule != [] ==> Select(Merged(rule, dp)) == Select(rule)
    ensures rule == [] && dp != [] ==> Select(Merged(rule, dp)) == Some(dp[0].value)
  {
    var c := Merged(rule, dp);
    MergedFacts(rule, dp);
    SelectSpec(c);
    if dp != [] {
      assert dp[0].value in Values(dp);
      assert dp[0].value in Values(c);
      if rule == [] {
        MergedHead(rule, dp);
      }
    }
    if rule != [] {
      assert c == rule + c[|rule|..];
      SelectIgnoresAppended(rule, c[|rule|..]);
    }
  }

  /** `extract_best_time` returns nothing exactly when no rule fires and the
      date search finds nothing; when a rule fires it returns the choice among
      the rule candidates alone, whatever the date search finds; otherwise the
      date search's first result. */
  lemma BestTimeSpec(text: string, ms: Matches, found: seq<FoundTime>)
    ensures var rule := RuleCandidates(text, ms);
            var r := BestTime(text, ms, found);
            && (r.None? <==> rule == [] && found == [])
            && (rule != [] ==> r == Select(rule))
            && (rule == [] && found != [] ==> r == Some(FormatHM(found[0].hour, found[0].minute)))
  {
    RuleCandidatesWellFormed(text, ms);
    SelectMerged(RuleCandidates(text, ms), DateParserCandidates(found));
  }
}
