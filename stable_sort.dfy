/** Ordering of (word, weight) entries by weight, as Python's built-in
    `sorted(entries, key=lambda x: x[1])` does it, with or without
    `reverse=True`. Python's sort is stable in both directions: entries of
    equal weight keep their input order even when `reverse=True`.

    The sort is modelled on positions: `Ranking(z, descending)` lists the
    positions of `z` in output order, and the sorted entries are
    `Select(z, Ranking(z, descending))`. This keeps track of where every
    output entry came from, which is how stability is stated. */
module StableSort {
  import opened Seqs

  /** A vocabulary word with its learned coefficient. */
  datatype Entry = Entry(word: string, weight: real)

  /** The weight order of the sort; `descending` is `reverse=True`. */
  predicate Ordered(descending: bool, x: real, y: real)
  {
    if descending then x >= y else x <= y
  }

  /** Position `i` comes out before position `j`: its weight is strictly
      better in the sort's direction, or the weights tie and `i` comes first
      in the input. */
  predicate Precedes(z: seq<Entry>, descending: bool, i: nat, j: nat)
    requires i < |z| && j < |z|
  {
    if z[i].weight == z[j].weight then i < j
    else Ordered(descending, z[i].weight, z[j].weight)
  }

  lemma PrecedesTransitive(z: seq<Entry>, descending: bool, i: nat, j: nat, k: nat)
    requires i < |z| && j < |z| && k < |z|
    requires Precedes(z, descending, i, j) && Precedes(z, descending, j, k)
    ensures Precedes(z, descending, i, k)
  {
  }

  predicate InRange(n: nat, r: seq<nat>)
  {
    forall k :: 0 <= k < |r| ==> r[k] < n
  }

  /** `r` lists positions of `z`, each one before every later one. */
  predicate RankedBy(z: seq<Entry>, descending: bool, r: seq<nat>)
  {
    && InRange(|z|, r)
    && forall a, b {:trigger Precedes(z, descending, r[a], r[b])} ::
         0 <= a < b < |r| ==> Precedes(z, descending, r[a], r[b])
  }

  /** Inserts position `i` into a ranked list of positions. */
  function Insert(z: seq<Entry>, descending: bool, i: nat, r: seq<nat>): (res: seq<nat>)
    requires i < |z| && InRange(|z|, r)
    ensures |res| == |r| + 1
    ensures forall j: int :: j in res <==> j == i || j in r
    ensures InRange(|z|, res)
    decreases |r|
  {
    if r == [] then [i]
    else if Precedes(z, descending, i, r[0]) then [i] + r
    else [r[0]] + Insert(z, descending, i, r[1..])
  }

  lemma InsertFrontRanked(z: seq<Entry>, descending: bool, i: nat, r: seq<nat>)
    requires i < |z| && RankedBy(z, descending, r) && r != []
    requires Precedes(z, descending, i, r[0])
    ensures RankedBy(z, descending, [i] + r)
  {
    var res := [i] + r;
    forall a, b | 0 <= a < b < |res|
      ensures Precedes(z, descending, res[a], res[b])
    {
      if a == 0 && b > 1 {
        assert Precedes(z, descending, r[0], r[b - 1]);
        PrecedesTransitive(z, descending, i, r[0], r[b - 1]);
      } else if a > 0 {
        assert Precedes(z, descending, r[a - 1], r[b - 1]);
      }
    }
  }

  lemma ConsRanked(z: seq<Entry>, descending: bool, x: nat, s: seq<nat>)
    requires x < |z| && RankedBy(z, descending, s)
    requires forall k :: 0 <= k < |s| ==> Precedes(z, descending, x, s[k])
    ensures RankedBy(z, descending, [x] + s)
  {
    var res := [x] + s;
    forall a, b | 0 <= a < b < |res|
      ensures Precedes(z, descending, res[a], res[b])
    {
      if a == 0 {
        assert res[b] == s[b - 1];
      } else {
        assert Precedes(z, descending, s[a - 1], s[b - 1]);
      }
    }
  }

  lemma {:induction false} InsertRanked(z: seq<Entry>, descending: bool, i: nat, r: seq<nat>)
    requires i < |z| && RankedBy(z, descending, r) && i !in r
    ensures RankedBy(z, descending, Insert(z, descending, i, r))
    decreases |r|
  {
    if r == [] {
    } else if Precedes(z, descending, i, r[0]) {
      InsertFrontRanked(z, descending, i, r);
    } else {
      var tail := r[1..];
      assert RankedBy(z, descending, tail) by {
        forall a, b | 0 <= a < b < |tail|
          ensures Precedes(z, descending, tail[a], tail[b])
        {
          assert Precedes(z, descending, r[a + 1], r[b + 1]);
        }
      }
      InsertRanked(z, descending, i, tail);
      var ins := Insert(z, descending, i, tail);
      forall k | 0 <= k < |ins|
        ensures Precedes(z, descending, r[0], ins[k])
      {
        assert ins[k] in ins;
        if ins[k] != i {
          var b :| 0 <= b < |tail| && tail[b] == ins[k];
          assert Precedes(z, descending, r[0], r[b + 1]);
        }
      }
      ConsRanked(z, descending, r[0], ins);
    }
  }

  /** The ranking of the positions `0 .. m-1` of `z`. */
  function RankPrefix(z: seq<Entry>, descending: bool, m: nat): (r: seq<nat>)
    requires m <= |z|
    ensures |r| == m
    ensures RankedBy(z, descending, r)
    ensures forall j: int :: j in r <==> 0 <= j < m
  {
    if m == 0 then []
    else
      var prev := RankPrefix(z, descending, m - 1);
      InsertRanked(z, descending, m - 1, prev);
      Insert(z, descending, m - 1, prev)
  }

  /** The output order of a stable sort of `z` by weight, as positions of `z`:
      every position exactly once, each before every later one. */
  function Ranking(z: seq<Entry>, descending: bool): (r: seq<nat>)
    ensures |r| == |z|
    ensures RankedBy(z, descending, r)
    ensures forall j: int :: j in r <==> 0 <= j < |z|
  {
    RankPrefix(z, descending, |z|)
  }

  /** The entries of `z` at the listed positions. */
  function Select(z: seq<Entry>, r: seq<nat>): seq<Entry>
    requires InRange(|z|, r)
  {
    seq(|r|, k requires 0 <= k < |r| => z[r[k]])
  }

  lemma SelectCons(z: seq<Entry>, i: nat, r: seq<nat>)
    requires i < |z| && InRange(|z|, r)
    ensures InRange(|z|, [i] + r)
    ensures Select(z, [i] + r) == [z[i]] + Select(z, r)
  {
    assert InRange(|z|, [i] + r);
  }

  lemma {:induction false} SelectInsert(z: seq<Entry>, descending: bool, i: nat, r: seq<nat>)
    requires i < |z| && InRange(|z|, r)
    ensures multiset(Select(z, Insert(z, descending, i, r))) == multiset(Select(z, r)) + multiset{z[i]}
    decreases |r|
  {
    if r == [] {
      SelectCons(z, i, r);
    } else if Precedes(z, descending, i, r[0]) {
      SelectCons(z, i, r);
    } else {
      var tail := r[1..];
      var ins := Insert(z, descending, i, tail);
      SelectInsert(z, descending, i, tail);
      SelectCons(z, r[0], ins);
      SelectCons(z, r[0], tail);
      assert r == [r[0]] + tail;
    }
  }

  lemma InsertExtendsPrefix(z: seq<Entry>, descending: bool, prev: seq<nat>, m: nat)
    requires 0 < m <= |z| && InRange(|z|, prev)
    requires multiset(Select(z, prev)) == multiset(z[..m - 1])
    ensures multiset(Select(z, Insert(z, descending, m - 1, prev))) == multiset(z[..m])
  {
    SelectInsert(z, descending, m - 1, prev);
    assert z[..m] == z[..m - 1] + [z[m - 1]];
  }

  lemma {:induction false} RankPrefixPermutes(z: seq<Entry>, descending: bool, m: nat)
    requires m <= |z|
    ensures multiset(Select(z, RankPrefix(z, descending, m))) == multiset(z[..m])
  {
    if m > 0 {
      var prev := RankPrefix(z, descending, m - 1);
      RankPrefixPermutes(z, descending, m - 1);
      InsertExtendsPrefix(z, descending, prev, m);
      assert RankPrefix(z, descending, m) == Insert(z, descending, m - 1, prev);
    }
  }

  /** Consecutive or not, ranked positions carry weights in sort order. */
  lemma RankedOrdered(z: seq<Entry>, descending: bool, r: seq<nat>)
    requires RankedBy(z, descending, r)
    ensures forall a, b :: 0 <= a < b < |r| ==> Ordered(descending, z[r[a]].weight, z[r[b]].weight)
  {
    forall a, b | 0 <= a < b < |r|
      ensures Ordered(descending, z[r[a]].weight, z[r[b]].weight)
    {
      assert Precedes(z, descending, r[a], r[b]);
    }
  }

  /** Ranked positions are distinct, and of two ranked positions with equal
      weights the earlier in the ranking is the earlier in the input. */
  lemma RankedStable(z: seq<Entry>, descending: bool, r: seq<nat>)
    requires RankedBy(z, descending, r)
    ensures forall a, b :: 0 <= a < b < |r| ==> r[a] != r[b]
    ensures forall a, b :: 0 <= a < b < |r| && z[r[a]].weight == z[r[b]].weight ==> r[a] < r[b]
  {
    forall a, b | 0 <= a < b < |r|
      ensures r[a] != r[b] && (z[r[a]].weight == z[r[b]].weight ==> r[a] < r[b])
    {
      assert Precedes(z, descending, r[a], r[b]);
    }
  }

  /** `sorted(z, key=weight, reverse=descending)`: a permutation of `z`
      ordered by weight, and stable: it takes every position of `z` once, in
      an order where each position precedes every later one, so entries of
      equal weight keep their input order. */
  function SortByWeight(z: seq<Entry>, descending: bool): (s: seq<Entry>)
    ensures multiset(s) == multiset(z)
    ensures forall a, b :: 0 <= a < b < |s| ==> Ordered(descending, s[a].weight, s[b].weight)
    ensures exists r :: && |r| == |z| && RankedBy(z, descending, r)
                        && (forall j: int :: j in r <==> 0 <= j < |z|)
                        && s == Select(z, r)
  {
    var r := Ranking(z, descending);
    RankPrefixPermutes(z, descending, |z|);
    RankedOrdered(z, descending, r);
    assert z[..|z|] == z;
    Select(z, r)
  }
}
