/** The global explanation of the classifier (`get_top_features`): the
    vocabulary words paired with their learned coefficients, sorted by
    coefficient (stably, in both directions), and cut to the first `top_n`
    entries of each order. Building the two display tables from the two lists
    is presentation and is not modelled. */
module Explain {
  import opened Seqs
  import opened StableSort

  /** The default value of `top_n`, used by the application's only call. */
  const DefaultTopN: int := 10

  /** `zip(feature_names, coefficients)`: pairs by position, stopping at the
      end of the shorter input. */
  function Zip(names: seq<string>, coefs: seq<real>): (z: seq<Entry>)
    ensures |z| == Min(|names|, |coefs|)
    ensures forall i :: 0 <= i < |z| ==> z[i] == Entry(names[i], coefs[i])
  {
    seq(Min(|names|, |coefs|), i requires 0 <= i < Min(|names|, |coefs|) => Entry(names[i], coefs[i]))
  }

  /** A prefix of a ranking of all positions is itself ranked, and each of
      its positions comes before every position left out of it. */
  lemma RankedPrefix(z: seq<Entry>, descending: bool, all: seq<nat>, p: seq<nat>)
    requires RankedBy(z, descending, all)
    requires forall j: int :: j in all <==> 0 <= j < |z|
    requires |p| <= |all| && p == all[..|p|]
    ensures RankedBy(z, descending, p)
    ensures forall j, a :: 0 <= j < |z| && j !in p && 0 <= a < |p| ==> Precedes(z, descending, p[a], j)
  {
    forall a, b | 0 <= a < b < |p|
      ensures Precedes(z, descending, p[a], p[b])
    {
      assert Precedes(z, descending, all[a], all[b]);
    }
    forall j, a | 0 <= j < |z| && j !in p && 0 <= a < |p|
      ensures Precedes(z, descending, p[a], j)
    {
      var rest := all[|p|..];
      assert all == p + rest;
      assert j in all;
      assert j in multiset(all) && multiset(all) == multiset(p) + multiset(rest);
      assert j in rest;
      var c :| 0 <= c < |rest| && rest[c] == j;
      assert Precedes(z, descending, all[a], all[|p| + c]);
    }
  }

  /** The vocabulary positions shown in one table: `sorted(...)[:top_n]`, on
      positions. They are ranked, there are `top_n` of them (or all when the
      vocabulary is smaller), and each comes before every position left out. */
  function TopPositions(z: seq<Entry>, descending: bool, topN: int): (r: seq<nat>)
    ensures RankedBy(z, descending, r)
    ensures topN >= 0 ==> |r| == Min(topN, |z|)
    ensures forall j, a :: 0 <= j < |z| && j !in r && 0 <= a < |r| ==> Precedes(z, descending, r[a], j)
    ensures topN >= |z| ==> r == Ranking(z, descending)
  {
    var all := Ranking(z, descending);
    var r := Prefix(all, topN);
    RankedPrefix(z, descending, all, r);
    r
  }

  /** The two lists behind the tables: strongest positive indicators first,
      and strongest negative indicators first. */
  datatype TopFeatures = TopFeatures(positive: seq<Entry>, negative: seq<Entry>)
  {
    /** The list sorted with `reverse=True` when `descending`, else the other. */
    function Table(descending: bool): seq<Entry>
    {
      if descending then positive else negative
    }
  }

  /** `get_top_features(vectorizer, model, top_n)` on the vocabulary and the
      coefficient vector it reads from the two fitted objects. */
  function GetTopFeatures(names: seq<string>, coefs: seq<real>, topN: int): (t: TopFeatures)
    ensures topN >= 0 ==> |t.positive| == |t.negative| == Min(topN, Min(|names|, |coefs|))
    ensures forall a, b :: 0 <= a < b < |t.positive| ==> t.positive[a].weight >= t.positive[b].weight
    ensures forall a, b :: 0 <= a < b < |t.negative| ==> t.negative[a].weight <= t.negative[b].weight
  {
    var z := Zip(names, coefs);
    var pos := TopPositions(z, true, topN);
    var neg := TopPositions(z, false, topN);
    RankedOrdered(z, true, pos);
    RankedOrdered(z, false, neg);
    TopFeatures(Select(z, pos), Select(z, neg))
  }

  /** The call with the default `top_n`: with a coefficient per vocabulary
      word, each list has ten entries, or the whole vocabulary when it is
      smaller. */
  function GetTopFeaturesDefault(names: seq<string>, coefs: seq<real>): (t: TopFeatures)
    ensures |names| == |coefs| ==> |t.positive| == |t.negative| == Min(10, |names|)
  {
    GetTopFeatures(names, coefs, DefaultTopN)
  }

  /** Every listed entry is `(feature_names[i], coefficients[i])` for a
      position `i`, and no position is listed twice in one table. */
  lemma TopFeaturesFromVocabulary(names: seq<string>, coefs: seq<real>, topN: int, descending: bool)
    ensures var table := GetTopFeatures(names, coefs, topN).Table(descending);
            var p := TopPositions(Zip(names, coefs), descending, topN);
            && |table| == |p|
            && (forall k :: 0 <= k < |p| ==>
                  p[k] < |names| && p[k] < |coefs| && table[k] == Entry(names[p[k]], coefs[p[k]]))
            && (forall a, b :: 0 <= a < b < |p| ==> p[a] != p[b])
  {
    RankedStable(Zip(names, coefs), descending, TopPositions(Zip(names, coefs), descending, topN));
  }

  /** Nothing left out beats anything listed: every listed coefficient is at
      least (positive table) or at most (negative table) every coefficient
      left out; a left-out coefficient equal to a listed one belongs to a
      later vocabulary position. */
  lemma TopFeaturesDominate(names: seq<string>, coefs: seq<real>, topN: int, descending: bool)
    ensures var p := TopPositions(Zip(names, coefs), descending, topN);
            forall j, k :: 0 <= j < Min(|names|, |coefs|) && j !in p && 0 <= k < |p| ==>
              && Ordered(descending, coefs[p[k]], coefs[j])
              && (coefs[p[k]] == coefs[j] ==> p[k] < j)
  {
    var z := Zip(names, coefs);
    var p := TopPositions(z, descending, topN);
    forall j, k | 0 <= j < |z| && j !in p && 0 <= k < |p|
      ensures Ordered(descending, coefs[p[k]], coefs[j]) && (coefs[p[k]] == coefs[j] ==> p[k] < j)
    {
      assert Precedes(z, descending, p[k], j);
    }
  }

  /** Stability inside a table: listed entries of equal coefficient appear in
      vocabulary order, in the `reverse=True` table too. */
  lemma TopFeaturesStable(names: seq<string>, coefs: seq<real>, topN: int, descending: bool)
    ensures var p := TopPositions(Zip(names, coefs), descending, topN);
            forall a, b :: 0 <= a < b < |p| && coefs[p[a]] == coefs[p[b]] ==> p[a] < p[b]
  {
    RankedStable(Zip(names, coefs), descending, TopPositions(Zip(names, coefs), descending, topN));
  }

  /** When `top_n` is at least the vocabulary size, each table is a
      permutation of the whole zipped vocabulary. */
  lemma TopFeaturesWholeVocabulary(names: seq<string>, coefs: seq<real>, topN: int, descending: bool)
    requires topN >= Min(|names|, |coefs|)
    ensures multiset(GetTopFeatures(names, coefs, topN).Table(descending)) == multiset(Zip(names, coefs))
  {
    var z := Zip(names, coefs);
    RankPrefixPermutes(z, descending, |z|);
    assert z[..|z|] == z;
  }

  /** The two tables are not disjoint in general: with a one-word vocabulary
      the same entry heads both. */
  lemma TablesShareEntries()
    ensures GetTopFeatures(["great"], [1.5], DefaultTopN)
         == TopFeatures([Entry("great", 1.5)], [Entry("great", 1.5)])
  {
    var z := Zip(["great"], [1.5]);
    assert z == [Entry("great", 1.5)];
    assert Ranking(z, true) == [0] && Ranking(z, false) == [0];
  }
}
