/** `analyze_sentiment`: the compound polarity of a text, neutral for no text. */
module Scorer {

  /**
   * `analyzer` stands for VADER's compound score, `polarity_scores(text)['compound']`,
   * returned unrounded. Empty text is neutral and the analyzer is not called for it.
   */
  function Score(text: string, analyzer: string -> real): (r: real)
    ensures text == "" ==> r == 0.0
    ensures text != "" ==> r == analyzer(text)
  {
    if text == "" then 0.0 else analyzer(text)
  }

  /** The score of empty text is the same whatever analyzer is supplied: it is never consulted. */
  lemma EmptyTextIgnoresAnalyzer(f: string -> real, g: string -> real)
    ensures Score("", f) == Score("", g) == 0.0
  {
  }
}
