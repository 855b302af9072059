/** The per-sentence explanation: the vocabulary words active in a sentence
    vector with their learned coefficients, the reconstructed linear score,
    the words pushing each way, the label and confidence chosen from the
    classifier's prediction, and the ordering of the displayed table.

    The sentence vector, the predicted class and the positive-class
    probability come from the fitted vectorizer, `model.predict` and the
    logistic function; here they are inputs. */
module Scoring {
  import opened Seqs
  import opened StableSort

  /** The fitted linear model as the application reads it: the vocabulary,
      `coef_[0]` and `intercept_[0]`. */
  datatype Classifier = Classifier(vocabulary: seq<string>, coefficients: seq<real>, intercept: real)
  {
    /** One coefficient per vocabulary word, in vocabulary order. */
    predicate WellFormed()
    {
      |vocabulary| == |coefficients|
    }

    /** A sentence vector of the fitted vectorizer has one column per
        vocabulary word. */
    predicate Encodes(vec: seq<real>)
    {
      WellFormed() && |vec| == |vocabulary|
    }
  }

  /** The positions from `from` on where the vector is non-zero, ascending. */
  function ActiveFrom(vec: seq<real>, from: nat): (r: seq<nat>)
    requires from <= |vec|
    ensures forall k :: 0 <= k < |r| ==> from <= r[k] < |vec|
    ensures forall a, b :: 0 <= a < b < |r| ==> r[a] < r[b]
    ensures forall j: int :: j in r <==> from <= j < |vec| && vec[j] != 0.0
    ensures r == [] <==> forall j :: from <= j < |vec| ==> vec[j] == 0.0
    decreases |vec| - from
  {
    if from == |vec| then []
    else if vec[from] != 0.0 then [from] + ActiveFrom(vec, from + 1)
    else ActiveFrom(vec, from + 1)
  }

  /** `sent_vec.nonzero()[0]`: exactly the positions of the non-zero
      entries, each once, in ascending order. */
  function ActiveIndices(vec: seq<real>): (r: seq<nat>)
    ensures forall k :: 0 <= k < |r| ==> r[k] < |vec|
    ensures forall a, b :: 0 <= a < b < |r| ==> r[a] < r[b]
    ensures forall j: int :: j in r <==> 0 <= j < |vec| && vec[j] != 0.0
    ensures r == [] <==> forall j :: 0 <= j < |vec| ==> vec[j] == 0.0
  {
    ActiveFrom(vec, 0)
  }

  /** The `(feature_names[i], coefficients[i])` pairs at the listed positions. */
  function Pairs(m: Classifier, idx: seq<nat>): (d: seq<Entry>)
    requires m.WellFormed() && forall k :: 0 <= k < |idx| ==> idx[k] < |m.vocabulary|
  {
    seq(|idx|, k requires 0 <= k < |idx| => Entry(m.vocabulary[idx[k]], m.coefficients[idx[k]]))
  }

  /** `word_details`: one entry per non-zero position of the sentence vector,
      in ascending position order, pairing the word with its coefficient. */
  function WordDetails(m: Classifier, vec: seq<real>): (d: seq<Entry>)
    requires m.Encodes(vec)
    ensures |d| == |ActiveIndices(vec)|
    ensures forall k :: 0 <= k < |d| ==>
              var i := ActiveIndices(vec)[k];
              i < |vec| && vec[i] != 0.0 && d[k] == Entry(m.vocabulary[i], m.coefficients[i])
  {
    Pairs(m, ActiveIndices(vec))
  }

  /** `weights = [w[1] for w in word_details]`: the weight of every entry,
      in order. */
  function Weights(d: seq<Entry>): (w: seq<real>)
    ensures |w| == |d|
    ensures forall k :: 0 <= k < |d| ==> w[k] == d[k].weight
  {
    seq(|d|, k requires 0 <= k < |d| => d[k].weight)
  }

  /** Reference definition of the same score, scanning the whole vocabulary:
      the coefficients summed over the positions from `from` on where the
      vector is non-zero. */
  function MaskedSum(coefs: seq<real>, vec: seq<real>, from: nat): real
    requires |vec| <= |coefs| && from <= |vec|
    decreases |vec| - from
  {
    if from == |vec| then 0.0
    else (if vec[from] != 0.0 then coefs[from] else 0.0) + MaskedSum(coefs, vec, from + 1)
  }

  lemma PairsWeightsCons(m: Classifier, i: nat, rest: seq<nat>)
    requires m.WellFormed() && i < |m.vocabulary|
    requires forall k :: 0 <= k < |rest| ==> rest[k] < |m.vocabulary|
    ensures forall k :: 0 <= k < |[i] + rest| ==> ([i] + rest)[k] < |m.vocabulary|
    ensures Sum(Weights(Pairs(m, [i] + rest))) == m.coefficients[i] + Sum(Weights(Pairs(m, rest)))
  {
    assert forall k :: 0 <= k < |[i] + rest| ==> ([i] + rest)[k] < |m.vocabulary|;
    assert Weights(Pairs(m, [i] + rest)) == [m.coefficients[i]] + Weights(Pairs(m, rest));
    SumCons(m.coefficients[i], Weights(Pairs(m, rest)));
  }

  lemma {:induction false} PairsWeightSum(m: Classifier, vec: seq<real>, from: nat)
    requires m.Encodes(vec) && from <= |vec|
    ensures Sum(Weights(Pairs(m, ActiveFrom(vec, from)))) == MaskedSum(m.coefficients, vec, from)
    decreases |vec| - from
  {
    if from < |vec| {
      var rest := ActiveFrom(vec, from + 1);
      PairsWeightSum(m, vec, from + 1);
      if vec[from] != 0.0 {
        PairsWeightsCons(m, from, rest);
        assert ActiveFrom(vec, from) == [from] + rest;
      }
    }
  }

  /** `final_score = word_sum + intercept`: the coefficients summed over
      exactly the active positions of the whole vector, plus the intercept;
      equally, the positive part plus the negative part plus the intercept. */
  function FinalScore(m: Classifier, vec: seq<real>): (score: real)
    requires m.Encodes(vec)
    ensures score == MaskedSum(m.coefficients, vec, 0) + m.intercept
    ensures score == SignedSum(WordDetails(m, vec), true) + SignedSum(WordDetails(m, vec), false) + m.intercept
  {
    PairsWeightSum(m, vec, 0);
    WordSum(WordDetails(m, vec)) + m.intercept
  }

  /** A sentence with no recognised word scores exactly the intercept. */
  lemma NoActiveFeatures(m: Classifier, vec: seq<real>)
    requires m.Encodes(vec)
    requires forall j :: 0 <= j < |vec| ==> vec[j] == 0.0
    ensures WordDetails(m, vec) == []
    ensures FinalScore(m, vec) == m.intercept
  {
    assert WordDetails(m, vec) == [];
    assert Weights([]) == [];
  }

  /** The entry pushes towards the positive class (`wt > 0`) when `positive`,
      towards the negative class (`wt < 0`) otherwise. */
  predicate Pushes(e: Entry, positive: bool)
  {
    if positive then e.weight > 0.0 else e.weight < 0.0
  }

  /** The words of the entries, in order. */
  function Words(d: seq<Entry>): seq<string>
  {
    seq(|d|, k requires 0 <= k < |d| => d[k].word)
  }

  /** `[w for w, wt in word_details if wt > 0]` when `positive`, and the
      `wt < 0` comprehension otherwise. */
  function SignedWords(d: seq<Entry>, positive: bool): (r: seq<string>)
    ensures forall w :: w in r ==> exists k :: 0 <= k < |d| && d[k].word == w && Pushes(d[k], positive)
    ensures forall k :: 0 <= k < |d| && Pushes(d[k], positive) ==> d[k].word in r
  {
    if d == [] then []
    else
      var rest := SignedWords(d[1..], positive);
      assert forall k :: 1 <= k < |d| ==> d[k] == d[1..][k - 1];
      if Pushes(d[0], positive) then [d[0].word] + rest else rest
  }

  /** `positive_words`. */
  function PositiveWords(d: seq<Entry>): seq<string>
  {
    SignedWords(d, true)
  }

  /** `negative_words`. */
  function NegativeWords(d: seq<Entry>): seq<string>
  {
    SignedWords(d, false)
  }

  /** Each list keeps the order of `word_details`. */
  lemma {:induction false} SignedWordsInOrder(d: seq<Entry>, positive: bool)
    ensures IsSubsequence(SignedWords(d, positive), Words(d))
  {
    if d != [] {
      SignedWordsInOrder(d[1..], positive);
      assert Words(d)[1..] == Words(d[1..]);
      if Pushes(d[0], positive) {
        assert SignedWords(d, positive)[1..] == SignedWords(d[1..], positive);
      }
    }
  }

  /** With distinct words (a vocabulary has no duplicates), no word is in
      both lists and a zero-weight word is in neither. */
  lemma SignedWordsDisjoint(d: seq<Entry>)
    requires forall a, b :: 0 <= a < b < |d| ==> d[a].word != d[b].word
    ensures forall w :: !(w in PositiveWords(d) && w in NegativeWords(d))
    ensures forall k :: 0 <= k < |d| && d[k].weight == 0.0 ==>
              d[k].word !in PositiveWords(d) && d[k].word !in NegativeWords(d)
  {
  }

  /** The words of `word_details` are distinct when the vocabulary's are. */
  lemma WordDetailsDistinct(m: Classifier, vec: seq<real>)
    requires m.Encodes(vec)
    requires forall i, j :: 0 <= i < j < |m.vocabulary| ==> m.vocabulary[i] != m.vocabulary[j]
    ensures var d := WordDetails(m, vec);
            forall a, b :: 0 <= a < b < |d| ==> d[a].word != d[b].word
  {
    var act := ActiveIndices(vec);
    var d := WordDetails(m, vec);
    forall a, b | 0 <= a < b < |d|
      ensures d[a].word != d[b].word
    {
      assert act[a] < act[b];
    }
  }

  /** Sum of the weights of the entries that push the given way. */
  function SignedSum(d: seq<Entry>, positive: bool): real
  {
    if d == [] then 0.0
    else (if Pushes(d[0], positive) then d[0].weight else 0.0) + SignedSum(d[1..], positive)
  }

  /** `word_sum = sum(weights)`: the weight of the positive words plus the
      weight of the negative words, since zero weights contribute nothing. */
  function WordSum(d: seq<Entry>): (s: real)
    ensures s == SignedSum(d, true) + SignedSum(d, false)
  {
    WeightSumSplits(d);
    Sum(Weights(d))
  }

  lemma {:induction false} WeightSumSplits(d: seq<Entry>)
    ensures Sum(Weights(d)) == SignedSum(d, true) + SignedSum(d, false)
  {
    if d != [] {
      WeightSumSplits(d[1..]);
      assert Weights(d) == [d[0].weight] + Weights(d[1..]);
      SumCons(d[0].weight, Weights(d[1..]));
    }
  }

  /** The two classes of the model. */
  datatype Sentiment = Positive | Negative
  {
    /** The label shown and stored. */
    function Label(): string
    {
      match this
      case Positive => "Positive"
      case Negative => "Negative"
    }

    /** The probability of this class, given that of the positive class
        (`prob_negative = 1 - prob_positive`). */
    function Probability(probPositive: real): real
    {
      match this
      case Positive => probPositive
      case Negative => 1.0 - probPositive
    }
  }

  datatype Verdict = Verdict(sentiment: Sentiment, confidence: real)

  /** `sentiment` and `confidence` from the predicted class `pred` and the
      positive-class probability: the label is Positive exactly for class 1,
      and the confidence is the probability of the predicted class. */
  function Decide(pred: int, probPositive: real): (v: Verdict)
    ensures v.sentiment == Positive <==> pred == 1
    ensures v.sentiment.Label() == (if pred == 1 then "Positive" else "Negative")
    ensures v.confidence == v.sentiment.Probability(probPositive)
    ensures v.confidence + (if pred == 1 then Negative else Positive).Probability(probPositive) == 1.0
    ensures 0.0 <= probPositive <= 1.0 ==> 0.0 <= v.confidence <= 1.0
  {
    if pred == 1 then Verdict(Positive, probPositive) else Verdict(Negative, 1.0 - probPositive)
  }

  /** The displayed table, `word_details` sorted by weight, descending: a
      permutation of `word_details` whose weights never increase. The
      library's default sort is not stable; this model fixes one admissible
      order among tied weights and claims nothing about which. */
  function DisplayTable(d: seq<Entry>): (t: seq<Entry>)
    ensures multiset(t) == multiset(d)
    ensures forall a, b :: 0 <= a < b < |t| ==> t[a].weight >= t[b].weight
  {
    SortByWeight(d, true)
  }
}
