/** The period classifiers: `_context_period` over the whole text and
    `_local_period` next to one match. */
module Periods {
  import opened Wrappers
  import opened Text

  datatype Period = Morning | Afternoon | Noon | Evening | Default

  /** A match's `m.span()`: character offsets into the stripped text. */
  datatype Span = Span(start: nat, end: nat)

  /** The three ways the classifiers test a keyword against a piece of text. */
  datatype Test = Occurs | Begins | Ends

  predicate Holds(test: Test, w: string, s: string) {
    match test
    case Occurs => Contains(s, w)
    case Begins => IsPrefix(w, s)
    case Ends => IsSuffix(w, s)
  }

  /** The keywords of each period; `Default` has none. */
  predicate IsKeyword(p: Period, w: string) {
    match p
    case Morning => w == "בבוקר" || w == "בוקר"
    case Afternoon => w == "אחרי הצהריים" || w == "אחה\"צ"
    case Noon => w == "בצהריים" || w == "צהריים"
    case Evening => w == "בערב" || w == "בלילה" || w == "לילה"
    case Default => false
  }

  /** `any(test(w) for w in keywords)` over the keywords of `p`, in the source's order. */
  predicate AnyKeyword(p: Period, test: Test, s: string) {
    match p
    case Morning => Holds(test, "בבוקר", s) || Holds(test, "בוקר", s)
    case Afternoon => Holds(test, "אחרי הצהריים", s) || Holds(test, "אחה\"צ", s)
    case Noon => Holds(test, "בצהריים", s) || Holds(test, "צהריים", s)
    case Evening => Holds(test, "בערב", s) || Holds(test, "בלילה", s) || Holds(test, "לילה", s)
    case Default => false
  }

  /** `AnyKeyword` is the test applied to some keyword of `p`. */
  lemma AnyKeywordIff(p: Period, test: Test, s: string)
    ensures AnyKeyword(p, test, s) <==> exists w :: IsKeyword(p, w) && Holds(test, w, s)
  {
  }

  /** The order in which both classifiers try the periods. */
  function Rank(p: Period): nat {
    match p
    case Morning => 0
    case Afternoon => 1
    case Noon => 2
    case Evening => 3
    case Default => 4
  }

  /** Every keyword begins and ends with a letter, never with whitespace. */
  lemma KeywordEnds(p: Period, w: string)
    requires IsKeyword(p, w)
    ensures w != [] && !IsSpace(w[0]) && !IsSpace(w[|w| - 1])
  {
  }

  /** Some keyword of `p` occurs in `text`. */
  predicate Mentions(text: string, p: Period) {
    AnyKeyword(p, Occurs, text)
  }

  /** `_context_period`: the first of morning, afternoon, noon and evening whose
      keyword occurs anywhere in the text, or `Default` when none does. */
  function ContextPeriod(text: string): (r: Period)
    ensures r != Default ==> Mentions(text, r)
    ensures forall p :: Rank(p) < Rank(r) ==> !Mentions(text, p)
  {
    if Mentions(text, Morning) then Morning
    else if Mentions(text, Afternoon) then Afternoon
    else if Mentions(text, Noon) then Noon
    else if Mentions(text, Evening) then Evening
    else Default
  }

  /** `text[end:end+15]`, the window just after the match. */
  function AfterWindow(text: string, sp: Span): string {
    Slice(text, sp.end, sp.end + 15)
  }

  /** `text[max(0, start-15):start]`, the window just before the match. */
  function BeforeWindow(text: string, sp: Span): string {
    Slice(text, if sp.start >= 15 then sp.start - 15 else 0, sp.start)
  }

  /** `re.match(r"\s*(k1|k2..)", after)` for the keywords of `p`. */
  predicate AnchoredAfter(text: string, sp: Span, p: Period) {
    AnyKeyword(p, Begins, TrimLeft(AfterWindow(text, sp)))
  }

  /** `re.search(r"(k1|k2..)\s*$", before)` for the keywords of `p`. */
  predicate AnchoredBefore(text: string, sp: Span, p: Period) {
    AnyKeyword(p, Ends, TrimRight(BeforeWindow(text, sp)))
  }

  /** The first period, in rank order, with a keyword right after the match. */
  function FirstAfter(text: string, sp: Span): (r: Period)
    ensures r != Default ==> AnchoredAfter(text, sp, r)
    ensures forall p :: Rank(p) < Rank(r) ==> !AnchoredAfter(text, sp, p)
  {
    if AnchoredAfter(text, sp, Morning) then Morning
    else if AnchoredAfter(text, sp, Afternoon) then Afternoon
    else if AnchoredAfter(text, sp, Noon) then Noon
    else if AnchoredAfter(text, sp, Evening) then Evening
    else Default
  }

  /** The first period, in rank order, with a keyword right before the match. */
  function FirstBefore(text: string, sp: Span): (r: Period)
    ensures r != Default ==> AnchoredBefore(text, sp, r)
    ensures forall p :: Rank(p) < Rank(r) ==> !AnchoredBefore(text, sp, p)
  {
    if AnchoredBefore(text, sp, Morning) then Morning
    else if AnchoredBefore(text, sp, Afternoon) then Afternoon
    else if AnchoredBefore(text, sp, Noon) then Noon
    else if AnchoredBefore(text, sp, Evening) then Evening
    else Default
  }

  /** `_local_period`: with no span, `Default`; otherwise the first period, in
      rank order, with a keyword right after the match, else (only when no period
      has one after it) the first with a keyword right before it, else `Default`. The `fallback` argument is
      accepted and never read, as in the source. */
  function LocalPeriod(text: string, span: Option<Span>, fallback: Period): (r: Period)
    ensures span.None? ==> r == Default
    ensures span.Some? && r != Default ==>
              AnchoredAfter(text, span.value, r) || AnchoredBefore(text, span.value, r)
    ensures span.Some? ==> forall p :: Rank(p) < Rank(r) ==> !AnchoredAfter(text, span.value, p)
    ensures span.Some? && !AnchoredAfter(text, span.value, r) ==>
              forall p :: !AnchoredAfter(text, span.value, p)
    ensures span.Some? && !AnchoredAfter(text, span.value, r) ==>
              forall p :: Rank(p) < Rank(r) ==> !AnchoredBefore(text, span.value, p)
  {
    match span
    case None => Default
    case Some(sp) =>
      var after := FirstAfter(text, sp);
      if after != Default then after else FirstBefore(text, sp)
  }

  /** What `re.match(r"\s*" + w, s)` accepts: whitespace, then `w`. */
  ghost predicate RegexMatchAfter(s: string, w: string) {
    exists k :: 0 <= k <= |s| && AllSpace(s[..k]) && IsPrefix(w, s[k..])
  }

  /** What `re.search(w + r"\s*$", s)` accepts: `w`, then whitespace to the end. */
  ghost predicate RegexSearchBefore(s: string, w: string) {
    exists k :: 0 <= k <= |s| && IsSuffix(w, s[..k]) && AllSpace(s[k..])
  }

  /** Every character before `k` in a string whose first `k` characters are
      whitespace is whitespace. */
  lemma SpaceBefore(s: string, k: int, i: int)
    ensures 0 <= i < k <= |s| && AllSpace(s[..k]) ==> IsSpace(s[i])
  {
    if 0 <= i < k <= |s| {
      assert s[..k][i] == s[i];
    }
  }

  /** Every character from `k` on in a string whose characters from `k` on are
      whitespace is whitespace. */
  lemma SpaceFrom(s: string, k: int, i: int)
    ensures 0 <= k <= i < |s| && AllSpace(s[k..]) ==> IsSpace(s[i])
  {
    if 0 <= k <= i < |s| {
      assert s[k..][i - k] == s[i];
    }
  }

  /** A keyword that starts with a non-space counts after the match exactly when
      only whitespace separates it from the match. */
  lemma PrefixOfTrimmedIsRegex(s: string, w: string)
    requires w != [] && !IsSpace(w[0])
    ensures IsPrefix(w, TrimLeft(s)) <==> RegexMatchAfter(s, w)
  {
    var t := TrimLeft(s);
    var k0 := |s| - |t|;
    assert s[k0..] == t;
    assert k0 < |s| ==> s[k0] == t[0];
    if RegexMatchAfter(s, w) {
      var k :| 0 <= k <= |s| && AllSpace(s[..k]) && IsPrefix(w, s[k..]);
      assert s[k] == w[0];
      SpaceBefore(s, k0, k);
      SpaceBefore(s, k, k0);
    }
    if IsPrefix(w, t) {
      assert AllSpace(s[..k0]) && IsPrefix(w, s[k0..]);
    }
  }

  /** A keyword that ends with a non-space counts before the match exactly when
      only whitespace separates it from the match. */
  lemma SuffixOfTrimmedIsRegex(s: string, w: string)
    requires w != [] && !IsSpace(w[|w| - 1])
    ensures IsSuffix(w, TrimRight(s)) <==> RegexSearchBefore(s, w)
  {
    var t := TrimRight(s);
    var k0 := |t|;
    assert s[..k0] == t;
    assert 0 < k0 ==> s[k0 - 1] == t[k0 - 1];
    if RegexSearchBefore(s, w) {
      var k :| 0 <= k <= |s| && IsSuffix(w, s[..k]) && AllSpace(s[k..]);
      assert w[|w| - 1] == s[..k][k - |w|..][|w| - 1] == s[k - 1];
      SpaceFrom(s, k, k0 - 1);
      SpaceFrom(s, k0, k - 1);
      assert k == k0;
    }
    if IsSuffix(w, t) {
      assert IsSuffix(w, s[..k0]) && AllSpace(s[k0..]);
    }
  }

  /** The period keywords `_local_period` looks for are exactly those the regexes
      accept: right after the match, or right before it, with only whitespace between. */
  lemma AnchoredIsRegex(text: string, sp: Span, p: Period)
    ensures AnchoredAfter(text, sp, p) <==>
              exists w :: IsKeyword(p, w) && RegexMatchAfter(AfterWindow(text, sp), w)
    ensures AnchoredBefore(text, sp, p) <==>
              exists w :: IsKeyword(p, w) && RegexSearchBefore(BeforeWindow(text, sp), w)
  {
    var a := TrimLeft(AfterWindow(text, sp));
    var b := TrimRight(BeforeWindow(text, sp));
    AnyKeywordIff(p, Begins, a);
    AnyKeywordIff(p, Ends, b);
    forall w | IsKeyword(p, w)
      ensures IsPrefix(w, a) <==> RegexMatchAfter(AfterWindow(text, sp), w)
      ensures IsSuffix(w, b) <==> RegexSearchBefore(BeforeWindow(text, sp), w)
    {
      KeywordEnds(p, w);
      PrefixOfTrimmedIsRegex(AfterWindow(text, sp), w);
      SuffixOfTrimmedIsRegex(BeforeWindow(text, sp), w);
    }
  }

  /** A string found at offset `k` of a slice of `text` occurs in `text`. */
  lemma OccursInSlice(text: string, i: nat, j: nat, k: nat, w: string)
    requires k <= |Slice(text, i, j)| && IsPrefix(w, Slice(text, i, j)[k..])
    ensures Contains(text, w)
  {
    var s := Slice(text, i, j);
    if w == [] {
      assert IsPrefix(w, text);
    } else {
      assert i + k + |w| <= |text|;
      assert text[i + k..][..|w|] == s[k..][..|w|];
      ContainsIff(text, w);
    }
  }

  /** A string that begins the trimmed window after the match occurs in the text. */
  lemma BeginsAfterOccurs(text: string, sp: Span, w: string)
    requires IsPrefix(w, TrimLeft(AfterWindow(text, sp)))
    ensures Contains(text, w)
  {
    var after := AfterWindow(text, sp);
    var a := TrimLeft(after);
    assert a == after[|after| - |a|..];
    OccursInSlice(text, sp.end, sp.end + 15, |after| - |a|, w);
  }

  /** A string that ends the trimmed window before the match occurs in the text. */
  lemma EndsBeforeOccurs(text: string, sp: Span, w: string)
    requires IsSuffix(w, TrimRight(BeforeWindow(text, sp)))
    ensures Contains(text, w)
  {
    var before := BeforeWindow(text, sp);
    var b := TrimRight(before);
    assert b == before[..|b|];
    assert before[|b| - |w|..][..|w|] == w;
    OccursInSlice(text, if sp.start >= 15 then sp.start - 15 else 0, sp.start, |b| - |w|, w);
  }

  /** Local evidence is also global evidence: when a keyword is adjacent to the
      match, the whole-text classifier does not return `Default` either. */
  lemma LocalEvidenceIsGlobal(text: string, sp: Span, fallback: Period)
    ensures LocalPeriod(text, Some(sp), fallback) != Default ==> ContextPeriod(text) != Default
  {
    var r := LocalPeriod(text, Some(sp), fallback);
    if r != Default {
      var w;
      if AnchoredAfter(text, sp, r) {
        AnyKeywordIff(r, Begins, TrimLeft(AfterWindow(text, sp)));
        w :| IsKeyword(r, w) && IsPrefix(w, TrimLeft(AfterWindow(text, sp)));
        BeginsAfterOccurs(text, sp, w);
      } else {
        AnyKeywordIff(r, Ends, TrimRight(BeforeWindow(text, sp)));
        w :| IsKeyword(r, w) && IsSuffix(w, TrimRight(BeforeWindow(text, sp)));
        EndsBeforeOccurs(text, sp, w);
      }
      AnyKeywordIff(r, Occurs, text);
      assert Mentions(text, r);
    }
  }

  /** `_local_period` never consults the global context: its `fallback`
      argument does not change the outcome. */
  lemma LocalIgnoresFallback(text: string, span: Option<Span>, f1: Period, f2: Period)
    ensures LocalPeriod(text, span, f1) == LocalPeriod(text, span, f2)
  {
  }
}
