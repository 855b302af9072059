/** The "Analyze Sentiment" action: reject a blank text area with a warning,
    otherwise split it into sentences and explain each one.

    The fitted vectorizer (`encode`), `model.predict` on a sentence vector
    (`predict`) and the logistic function `1 / (1 + exp(-score))` (`sigmoid`)
    are parameters: the model takes what they return as given. Rendering and
    storing each result are left out. */
module Analysis {
  import opened Seqs
  import opened StableSort
  import opened TextInput
  import opened Scoring

  /** Everything the analysis computes for one sentence before rendering it. */
  datatype SentenceReport = SentenceReport(
    sentence: string,
    details: seq<Entry>,
    wordSum: real,
    finalScore: real,
    probPositive: real,
    probNegative: real,
    verdict: Verdict,
    table: seq<Entry>,
    positiveWords: seq<string>,
    negativeWords: seq<string>)

  /** The warning for a blank text area, or one report per sentence. */
  datatype Outcome = EmptyInputWarning | Reports(reports: seq<SentenceReport>)

  /** The body of the per-sentence loop, for the sentence vector `vec` and the
      predicted class `pred`. The score is the sum of the coefficients at the
      active positions plus the intercept, split between the two signs; the
      label follows `pred` and the confidence is the probability of that
      class; the table is `word_details` reordered by falling weight; the word
      lists are the words of `word_details` pushing each way, in its order. */
  function ExplainSentence(m: Classifier, sentence: string, vec: seq<real>, pred: int, sigmoid: real -> real)
    : (r: SentenceReport)
    requires m.Encodes(vec)
    ensures r.sentence == sentence && r.details == WordDetails(m, vec)
    ensures r.wordSum == SignedSum(r.details, true) + SignedSum(r.details, false)
    ensures r.finalScore == r.wordSum + m.intercept == MaskedSum(m.coefficients, vec, 0) + m.intercept
    ensures r.probPositive == sigmoid(r.finalScore) && r.probNegative == 1.0 - r.probPositive
    ensures r.verdict.sentiment == Positive <==> pred == 1
    ensures r.verdict.confidence == (if pred == 1 then r.probPositive else r.probNegative)
    ensures multiset(r.table) == multiset(r.details)
    ensures forall a, b :: 0 <= a < b < |r.table| ==> r.table[a].weight >= r.table[b].weight
    ensures r.positiveWords == PositiveWords(r.details) && r.negativeWords == NegativeWords(r.details)
    ensures forall k :: 0 <= k < |r.details| && r.details[k].weight > 0.0 ==> r.details[k].word in r.positiveWords
    ensures forall k :: 0 <= k < |r.details| && r.details[k].weight < 0.0 ==> r.details[k].word in r.negativeWords
    ensures forall w :: w in r.positiveWords ==> exists k :: 0 <= k < |r.details| && r.details[k].word == w && r.details[k].weight > 0.0
    ensures forall w :: w in r.negativeWords ==> exists k :: 0 <= k < |r.details| && r.details[k].word == w && r.details[k].weight < 0.0
    ensures IsSubsequence(r.positiveWords, Words(r.details)) && IsSubsequence(r.negativeWords, Words(r.details))
  {
    var details := WordDetails(m, vec);
    var finalScore := FinalScore(m, vec);
    var probPositive := sigmoid(finalScore);
    SignedWordsInOrder(details, true);
    SignedWordsInOrder(details, false);
    SentenceReport(
      sentence, details, WordSum(details), finalScore, probPositive, 1.0 - probPositive,
      Decide(pred, probPositive), DisplayTable(details),
      PositiveWords(details), NegativeWords(details))
  }

  /** The per-sentence loop over `zip(sentences, preds)`: one report per
      sentence, in order, each for that sentence's own vector and
      prediction. */
  function ExplainAll(m: Classifier, sentences: seq<string>, encode: string -> seq<real>,
                      predict: seq<real> -> int, sigmoid: real -> real): (reports: seq<SentenceReport>)
    requires forall s :: m.Encodes(encode(s))
    ensures |reports| == |sentences|
    ensures forall k :: 0 <= k < |sentences| ==>
              && reports[k].sentence == sentences[k]
              && reports[k] == ExplainSentence(m, sentences[k], encode(sentences[k]), predict(encode(sentences[k])), sigmoid)
  {
    seq(|sentences|, k requires 0 <= k < |sentences| =>
      ExplainSentence(m, sentences[k], encode(sentences[k]), predict(encode(sentences[k])), sigmoid))
  }

  /** The action: a warning exactly when the text is blank after stripping;
      otherwise one report per sentence, in input order, and at least one. */
  function AnalyzeText(text: string, m: Classifier, encode: string -> seq<real>,
                       predict: seq<real> -> int, sigmoid: real -> real): (o: Outcome)
    requires forall s :: m.Encodes(encode(s))
    ensures o.EmptyInputWarning? <==> Strip(text) == []
    ensures o.Reports? ==> 1 <= |o.reports| == |Sentences(text)|
    ensures o.Reports? ==> forall k :: 0 <= k < |o.reports| ==>
              var s := Sentences(text)[k];
              o.reports[k] == ExplainSentence(m, s, encode(s), predict(encode(s)), sigmoid)
  {
    WarningIffNoSentences(text);
    if Strip(text) == [] then EmptyInputWarning
    else Reports(ExplainAll(m, Sentences(text), encode, predict, sigmoid))
  }
}
