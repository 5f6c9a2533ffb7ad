/** The hour-word tables: the word-to-number map and the alternatives of the
    hour-word pattern. */
module HebrewNumbers {

  /** `HEBREW_NUMBERS`: Hebrew number words (with spelling variants) to 1..12. */
  const Numbers: map<string, nat> := map[
    "אחת" := 1, "אחד" := 1,
    "שתיים" := 2, "שניים" := 2, "שתים" := 2,
    "שלוש" := 3, "ארבע" := 4, "חמש" := 5,
    "שש" := 6, "שבע" := 7, "שמונה" := 8,
    "תשע" := 9, "עשר" := 10,
    "אחת עשרה" := 11, "אחד עשר" := 11, "אחד עשרה" := 11,
    "שתים עשרה" := 12, "שתיים עשרה" := 12, "שניים עשר" := 12
  ]

  /** The alternatives of `HEB_WORDS_PATTERN`, in the pattern's order. */
  const PatternWords: seq<string> := [
    "אחת עשרה", "אחד עשר", "אחד עשרה", "שתיים עשרה", "שתים עשרה", "שניים עשר",
    "אחת", "אחד", "שתיים", "שניים", "שתים", "שלוש", "ארבע", "חמש", "שש", "שבע", "שמונה", "תשע", "עשר"
  ]

  /** A word the hour-word pattern can capture. */
  type HourWord = w: string | w in PatternWords witness "אחת"

  /** The pattern and the map name the same words, and every one of them is an
      hour of the twelve-hour dial. */
  lemma PatternMatchesTable()
    ensures forall w :: w in PatternWords ==> w in Numbers && 1 <= Numbers[w] <= 12
    ensures forall w :: w in Numbers ==> w in PatternWords
  {
  }

  /** `HEBREW_NUMBERS.get(word)` for a captured word: always present, in 1..12. */
  function HourOf(w: HourWord): (n: nat)
    ensures w in Numbers && n == Numbers[w]
    ensures 1 <= n <= 12
  {
    PatternMatchesTable();
    Numbers[w]
  }
}
