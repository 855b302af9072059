# CineSense explanation logic in Dafny

CineSense is a small web application. It scores movie reviews with a fitted
TF-IDF vectorizer and a logistic-regression classifier, then explains each
prediction. This project models the logic the application performs itself.
Everything around it is an opaque input or is left out.

- **Global explanation** (`get_top_features`, `explain.py`). Each vocabulary
  word is paired with its coefficient. The pairs are sorted by coefficient
  with Python's stable `sorted`, once descending and once ascending. Each
  order is cut to its first `top_n` entries.
- **Per-sentence explanation**, written inline in the analyse loop of
  `app.py`. The model lifts each piece into its own function:
  - the blank-input check and the sentence split;
  - the `(word, weight)` pairs at the non-zero positions of a sentence vector;
  - the reconstructed score (sum of those weights plus the intercept);
  - the words pushing each way;
  - the label and confidence chosen from the predicted class;
  - the order of the displayed table.

Modules, one per concern:

- `Seqs` (`seqs.dfy`): Python's `sum`, the prefix slice `s[:n]` (negative
  `n` included), and the subsequence relation.
- `StableSort` (`stable_sort.dfy`): the stable sort by weight, modelled on
  positions. `Ranking(z, descending)` lists every position of `z` once. Each
  position comes before every later one by `Precedes`: strictly better weight
  in the sort's direction, or equal weight and earlier in the input. This is
  how `sorted(..., reverse=True)` treats ties.
- `Explain` (`explain.dfy`): `zip` with truncation, the top positions,
  `GetTopFeatures`, and the properties of its two lists.
- `TextInput` (`text_input.dfy`): Python's `str.isspace` set, `strip`,
  `split("\n")` with its inverse `"\n".join`, and the sentence list.
- `Scoring` (`scoring.dfy`): active positions, `word_details`, the score
  against a whole-vocabulary reference sum, the sign partition, the
  label/confidence choice and the display order.
- `Analysis` (`analysis.dfy`): the per-sentence report and the analyse
  action (warning, or one report per sentence).

The vocabulary, `coef_[0]` and `intercept_[0]` form a `Classifier` value.
Several operations require `WellFormed()` (one coefficient per vocabulary
word) or `Encodes(vec)` (the sentence vector has one column per vocabulary
word). A fitted vectorizer and classifier always satisfy both. Without them
the source would index out of range at `feature_names[i]` or
`coefficients[i]` (app.py:89). `get_top_features` needs neither, because
`zip` stops at the shorter input, and `Explain.Zip` models that.

Weights, scores and probabilities are `real`. Only comparison, summation and
selection are modelled, not floating-point rounding.

Where the code differs from what the application's own text suggests, the
model follows the code:

- The two global lists may share entries. This happens when the vocabulary
  has fewer than `2 * top_n` words, or when weights tie across the cut.
  `Explain.TablesShareEntries` shows a one-word case.
- `final_score` sums the raw coefficients of the active words. It ignores
  their TF-IDF values, so it is not the classifier's decision function.
- The label comes from `model.predict`, not from the sign of `final_score`.
  The model therefore makes no claim linking `pred` to the score. The
  confidence is `1 - prob_positive` for a Negative prediction even when that
  is below one half.

## Model

| member | source | states |
|---|---|---|
| `Seqs.Prefix` | explain.py:12 | `s[:n]` is a prefix of `s` of length `min(n, len(s))` for `n >= 0`; a negative `n` drops the last `-n` items |
| `StableSort.Ranking` | explain.py:8-17 | the sort's output order lists every input position exactly once, and each listed position precedes every later one (better weight, or equal weight and earlier in the input) |
| `StableSort.SortByWeight` | explain.py:8-17 | `sorted` by weight is a permutation of its input (same multiset), ordered non-increasing when `reverse=True` and non-decreasing otherwise, and stable: it is the input read along a ranking of all positions, so equal weights keep their input order in both directions |
| `StableSort.RankedStable` | explain.py:8-17 | in a ranking, no position appears twice, and entries of equal weight keep their input order |
| `StableSort.RankPrefixPermutes` | explain.py:8-17 | the entries at the ranked positions of the first `m` inputs are a permutation of those `m` inputs |
| `Explain.Zip` | explain.py:9 | `zip(feature_names, coefficients)` pairs the i-th word with the i-th coefficient and stops at the shorter input |
| `Explain.TopPositions` | explain.py:8-17 | the positions behind one list are ranked, there are `min(top_n, n)` of them for `top_n >= 0`, each precedes every position left out, and with `top_n >= n` they are the whole ranking |
| `Explain.GetTopFeatures` | explain.py:4-17 | both lists have length `min(top_n, n)` for `top_n >= 0`; `top_positive` has non-increasing weights, `top_negative` non-decreasing |
| `Explain.GetTopFeaturesDefault` | explain.py:4 | with the default `top_n = 10` and aligned inputs, each list has `min(10, len(feature_names))` entries |
| `Explain.TopFeaturesFromVocabulary` | explain.py:8-17 | every listed entry is `(feature_names[i], coefficients[i])` for a position `i`, and no position appears twice in a list |
| `Explain.TopFeaturesDominate` | explain.py:8-17 | every weight in `top_positive` is >= every weight left out of it, and every weight in `top_negative` is <= every weight left out; a left-out tie comes later in the vocabulary |
| `Explain.TopFeaturesStable` | explain.py:8-17 | listed entries of equal weight appear in vocabulary order in both lists, including the `reverse=True` one |
| `Explain.TopFeaturesWholeVocabulary` | explain.py:8-17 | when `top_n` is at least the vocabulary size, each list is a permutation of the whole zipped vocabulary |
| `Explain.TablesShareEntries` | explain.py:8-17 | the two lists are not disjoint in general: for a one-word vocabulary both are that single entry |
| `TextInput.IsSpace` | app.py:76 | the whitespace set `str.strip()` removes: the code points of Python's `str.isspace` (tab to carriage return, the four separators 0x1C-0x1F, space, 0x85, no-break space, the Unicode space separators and the line and paragraph separators) |
| `TextInput.Strip` | app.py:76 | `s.strip()` is the slice of `s` left after cutting an all-whitespace run from each end; it is empty exactly when `s` is all whitespace, and otherwise starts and ends with a non-whitespace character, so the runs cut are the longest ones |
| `TextInput.SplitLines` | app.py:79 | `text.split("\n")` yields at least one piece, and no piece contains a newline |
| `TextInput.JoinSplit` | app.py:79 | joining the split pieces with newlines gives back the text |
| `TextInput.SplitJoin` | app.py:79 | splitting newline-free lines joined by newlines gives back those lines |
| `TextInput.DropEmpty` | app.py:79 | the `if s.strip()` filter keeps exactly the non-empty strings, each as often as it occurs (same multiset with the empty string removed); its result is empty exactly when every input is empty |
| `TextInput.Sentences` | app.py:79 | every sentence is non-empty, has no whitespace at either end, and is a stripped line of the text |
| `TextInput.SentencesInOrder` | app.py:79 | the sentences are an order-preserving subsequence of the stripped lines with the same multiset once empty strings are removed, so a repeated non-blank line gives a repeated sentence; every non-blank line contributes its sentence |
| `TextInput.WarningIffNoSentences` | app.py:76-79 | the warning branch is taken exactly when the split yields no sentence, so the analysing branch always has at least one |
| `Scoring.ActiveIndices` | app.py:86 | `sent_vec.nonzero()[0]` holds exactly the positions of the non-zero entries, strictly ascending, and is empty exactly when the vector is all zero |
| `Scoring.WordDetails` | app.py:88-91 | `word_details` has one entry per active position, in ascending order, pairing `feature_names[i]` with `coefficients[i]` |
| `Scoring.WordDetailsDistinct` | app.py:88-91 | with a duplicate-free vocabulary, the words of `word_details` are distinct |
| `Scoring.Weights` | app.py:93 | `weights` has one entry per `word_details` entry, its weight, in the same order |
| `Scoring.FinalScore` | app.py:96-97 | `final_score` equals the coefficients summed over exactly the non-zero positions of the whole vector, plus `intercept`; equally, the positive part plus the negative part plus `intercept` |
| `Scoring.NoActiveFeatures` | app.py:93-97 | with no active feature, `word_details` is empty and `final_score` is exactly `intercept` |
| `Scoring.SignedWords` | app.py:152-153 | a word is in `positive_words` (`negative_words`) only if some entry with that word has weight > 0 (< 0), and every such entry's word is there |
| `Scoring.SignedWordsInOrder` | app.py:152-153 | `positive_words` and `negative_words` are order-preserving subsequences of the words of `word_details` |
| `Scoring.SignedWordsDisjoint` | app.py:152-153 | with distinct words, no word is in both lists and a zero-weight word is in neither |
| `Scoring.WordSum` | app.py:96 | `word_sum = sum(weights)` is the sum of the positive weights plus the sum of the negative weights |
| `Scoring.Decide` | app.py:101-104 | the label is Positive iff `pred == 1`; the confidence is the probability of the predicted class (`prob_positive`, or `prob_negative = 1 - prob_positive`); it lies in [0, 1] when `prob_positive` does |
| `Scoring.DisplayTable` | app.py:134-136 | the displayed table is a permutation of `word_details` with non-increasing weights (no stability claimed) |
| `Analysis.ExplainSentence` | app.py:85-153 | a sentence's report: `word_sum` = positive part + negative part; score = `word_sum` + intercept = active coefficients + intercept; label and confidence follow `pred`; the table is a weight-ordered permutation of `word_details`; the word lists are `positive_words` and `negative_words` of `word_details` (every word with a weight of that sign, and only those), in its order |
| `Analysis.ExplainAll` | app.py:83-107 | the loop over `zip(sentences, preds)` gives one report per sentence, in order, each the explanation of that sentence with its own vector and prediction |
| `Analysis.AnalyzeText` | app.py:75-83 | the action warns exactly when the stripped text is empty; otherwise it gives at least one report, one per sentence in input order, each the explanation of that sentence |

## Left out

- database.py: every operation opens a SQLite connection, runs SQL and
  commits. The ordering, limit and autoincrement behaviour belong to the
  database engine, and the timestamp comes from the clock. The
  `insert_review` and `delete_review` calls in the loops are left out with
  it.
- train_model.py: an offline job that fits the vectorizer and classifier
  with library code and pickles them.
- `vectorizer.transform`, `model.predict` and `math.exp` (app.py:80-81,
  85, 99-100) are foreign numerics. They enter as the parameters `encode`,
  `predict` and `sigmoid`. `predict` is applied to the sentence's own
  vector, because the batch prediction is row by row. `sigmoid` is a total
  function, but `math.exp(-final_score)` (app.py:99) raises `OverflowError`
  once `final_score` is below about -709.78. That exception ends the
  per-sentence loop, and the model does not capture it.
- `round(confidence * 100, 2)` (app.py:105) is floating-point formatting.
  The model keeps the unrounded confidence in [0, 1].
- Streamlit rendering, HTML strings, DataFrame construction and styling,
  the number formatting of the breakdown, pickle loading (app.py:18-22), and
  the history tab with its timestamp reformatting (app.py:262-303).
- `Scoring.DisplayTable`: pandas' default sort does not guarantee an order
  among equal weights. The model picks one admissible order (input order)
  and states only the permutation and the ordering.
- `Analysis.AnalyzeText`: `zip(sentences, preds)` could truncate if
  `preds` were shorter than `sentences`. `model.predict` returns one label
  per row, so the model pairs every sentence with its own prediction.
