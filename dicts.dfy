/** Python dicts as the core uses them: a sequence of (key, value) pairs in
    insertion order, where assigning to an existing key keeps its position. */
module Dicts {
  import opened Wrappers

  function Keys<K, V>(d: seq<(K, V)>): seq<K>
  {
    seq(|d|, i requires 0 <= i < |d| => d[i].0)
  }

  function Values<K, V>(d: seq<(K, V)>): seq<V>
  {
    seq(|d|, i requires 0 <= i < |d| => d[i].1)
  }

  /** No key occurs twice: the sequence is a dict. */
  predicate DistinctKeys<K(==), V>(d: seq<(K, V)>)
  {
    forall i, j :: 0 <= i < j < |d| ==> d[i].0 != d[j].0
  }

  /** `d.get(k)` */
  function Get<K(==), V>(d: seq<(K, V)>, k: K): (r: Option<V>)
    ensures r.Some? <==> k in Keys(d)
    ensures r.Some? ==> r.value in Values(d)
  {
    if d == [] then None
    else
      assert Keys(d) == [d[0].0] + Keys(d[1..]);
      assert Values(d) == [d[0].1] + Values(d[1..]);
      if d[0].0 == k then Some(d[0].1) else Get(d[1..], k)
  }

  /** `d[k] = v`: an existing key keeps its position, a new key goes last. */
  function Upsert<K(==), V>(d: seq<(K, V)>, k: K, v: V): (r: seq<(K, V)>)
    ensures Keys(r) == if k in Keys(d) then Keys(d) else Keys(d) + [k]
  {
    assert d != [] ==> Keys(d) == [d[0].0] + Keys(d[1..]);
    if d == [] then [(k, v)]
    else if d[0].0 == k then [(k, v)] + d[1..]
    else
      var rest := Upsert(d[1..], k, v);
      assert Keys([d[0]] + rest) == [d[0].0] + Keys(rest);
      [d[0]] + rest
  }

  /** After `d[k] = v`, `k` maps to `v` and every other key to what it did before. */
  lemma {:induction false} GetUpsert<K, V>(d: seq<(K, V)>, k: K, v: V, k': K)
    ensures Get(Upsert(d, k, v), k') == if k' == k then Some(v) else Get(d, k')
  {
    if d != [] && d[0].0 != k {
      GetUpsert(d[1..], k, v, k');
      assert ([d[0]] + Upsert(d[1..], k, v))[1..] == Upsert(d[1..], k, v);
    }
  }

  lemma {:induction false} UpsertKeepsDistinct<K, V>(d: seq<(K, V)>, k: K, v: V)
    requires DistinctKeys(d)
    ensures DistinctKeys(Upsert(d, k, v))
  {
    var r := Upsert(d, k, v);
    assert Keys(r) == if k in Keys(d) then Keys(d) else Keys(d) + [k];
    forall i, j | 0 <= i < j < |r| ensures r[i].0 != r[j].0 {
      assert r[i].0 == Keys(r)[i] && r[j].0 == Keys(r)[j];
      if j < |d| {
        assert Keys(d)[i] == d[i].0 && Keys(d)[j] == d[j].0;
      } else {
        assert Keys(d)[i] == d[i].0;
      }
    }
  }

  /** `d[k] = v` adds no pair other than `(k, v)`. */
  lemma {:induction false} UpsertEntries<K, V>(d: seq<(K, V)>, k: K, v: V)
    ensures forall p :: p in Upsert(d, k, v) ==> p == (k, v) || p in d
  {
    if d != [] && d[0].0 != k {
      UpsertEntries(d[1..], k, v);
    }
  }

  /** `d[k] = v` for a new key appends the pair. */
  lemma {:induction false} UpsertNew<K, V>(d: seq<(K, V)>, k: K, v: V)
    requires k !in Keys(d)
    ensures Upsert(d, k, v) == d + [(k, v)]
  {
    if d != [] {
      assert Keys(d) == [d[0].0] + Keys(d[1..]);
      UpsertNew(d[1..], k, v);
      assert [d[0]] + (d[1..] + [(k, v)]) == d + [(k, v)];
    }
  }

  /** In a dict, looking up the key at position `i` gives the value there. */
  lemma ValueIn<K, V>(d: seq<(K, V)>, i: nat)
    requires i < |d|
    ensures d[i].1 in Values(d)
  {
    assert Values(d)[i] == d[i].1;
  }

  /** A loop that assigns `d[k] = v` for each present pair of `es`, in order,
      starting from the empty dict. */
  function AssignAll<K(==), V>(es: seq<Option<(K, V)>>): (d: seq<(K, V)>)
    ensures DistinctKeys(d)
  {
    if es == [] then []
    else
      var prev := AssignAll(es[..|es| - 1]);
      var e := es[|es| - 1];
      if e.None? then prev
      else
        UpsertKeepsDistinct(prev, e.value.0, e.value.1);
        Upsert(prev, e.value.0, e.value.1)
  }

  /** `e` assigns to key `k`. */
  predicate Assigns<K(==), V>(e: Option<(K, V)>, k: K)
  {
    e.Some? && e.value.0 == k
  }

  /** The last assignment to a key decides its value. */
  lemma {:induction false} AssignAllLastWins<K, V>(es: seq<Option<(K, V)>>, j: nat, k: K, v: V)
    requires j < |es| && es[j] == Some((k, v))
    requires forall j' :: j < j' < |es| ==> !Assigns(es[j'], k)
    ensures Get(AssignAll(es), k) == Some(v)
  {
    var n := |es|;
    var prev := es[..n - 1];
    var e := es[n - 1];
    if j < n - 1 {
      assert prev[j] == es[j];
      assert forall j' :: j < j' < |prev| ==> prev[j'] == es[j'];
      AssignAllLastWins(prev, j, k, v);
      assert !Assigns(e, k);
      if e.Some? {
        GetUpsert(AssignAll(prev), e.value.0, e.value.1, k);
      }
    } else {
      GetUpsert(AssignAll(prev), k, v, k);
    }
  }

  /** A key is present exactly when something assigned to it. */
  lemma {:induction false} AssignAllHasKey<K, V>(es: seq<Option<(K, V)>>, k: K)
    ensures Get(AssignAll(es), k).Some? <==> exists j :: 0 <= j < |es| && Assigns(es[j], k)
  {
    if es != [] {
      var n := |es|;
      var prev := es[..n - 1];
      var e := es[n - 1];
      AssignAllHasKey(prev, k);
      if e.Some? {
        GetUpsert(AssignAll(prev), e.value.0, e.value.1, k);
      }
      if Assigns(e, k) {
        assert Assigns(es[n - 1], k);
      } else if Get(AssignAll(prev), k).Some? {
        var j :| 0 <= j < |prev| && Assigns(prev[j], k);
        assert Assigns(es[j], k);
      }
      if exists j :: 0 <= j < |es| && Assigns(es[j], k) {
        var j :| 0 <= j < |es| && Assigns(es[j], k);
        if j < n - 1 {
          assert Assigns(prev[j], k);
        }
      }
    }
  }

  /** Every pair of the result was assigned by some element. */
  lemma {:induction false} AssignAllEntries<K, V>(es: seq<Option<(K, V)>>)
    ensures forall p :: p in AssignAll(es) ==> Some(p) in es
  {
    if es != [] {
      var n := |es|;
      var prev := es[..n - 1];
      var e := es[n - 1];
      AssignAllEntries(prev);
      assert forall j :: 0 <= j < |prev| ==> prev[j] == es[j];
      if e.Some? {
        UpsertEntries(AssignAll(prev), e.value.0, e.value.1);
      }
    }
  }
}

/** The two scans both lookups share: the first exact hit, and the fuzzy
    search that keeps the first candidate whose score strictly beats the
    best so far. */
module Ranking {
  import opened Wrappers

  /** Position of the first occurrence of `x`. */
  function FirstIndexOf<T(==)>(s: seq<T>, x: T): (r: Option<nat>)
    ensures r.None? <==> x !in s
    ensures r.Some? ==> r.value < |s| && s[r.value] == x
    ensures r.Some? ==> forall j :: 0 <= j < r.value ==> s[j] != x
  {
    if s == [] then None
    else if s[0] == x then Some(0)
    else
      match FirstIndexOf(s[1..], x)
      case None => None
      case Some(j) => Some(j + 1)
  }

  /** `FirstIndexOf` finds the first occurrence. */
  lemma FirstIndexOfAt<T>(s: seq<T>, x: T, j: nat)
    requires j < |s| && s[j] == x
    requires forall i :: 0 <= i < j ==> s[i] != x
    ensures FirstIndexOf(s, x) == Some(j)
  {
  }

  /** The running best score: `0.0` before anything was kept. */
  function ScoreOf(scores: seq<real>, best: Option<nat>): real
  {
    if best.Some? && best.value < |scores| then scores[best.value] else 0.0
  }

  /** The fuzzy loop, as a function of the scores seen so far: start with no
      candidate and score `0.0`; take candidate `i` when its score is at least
      `floor` and strictly greater than the best kept so far. */
  function FirstBest(scores: seq<real>, floor: real): (r: Option<nat>)
    ensures r.Some? ==> r.value < |scores|
  {
    if scores == [] then None
    else
      var prev := FirstBest(scores[..|scores| - 1], floor);
      var x := scores[|scores| - 1];
      if x >= floor && x > ScoreOf(scores, prev) then Some(|scores| - 1) else prev
  }

  /** One more step of the fuzzy loop. */
  lemma FirstBestStep(scores: seq<real>, i: nat, floor: real)
    requires i < |scores|
    ensures var prev := FirstBest(scores[..i], floor);
      && FirstBest(scores[..i + 1], floor) ==
           (if scores[i] >= floor && scores[i] > ScoreOf(scores[..i], prev) then Some(i) else prev)
      && ScoreOf(scores[..i + 1], FirstBest(scores[..i + 1], floor)) ==
           (if scores[i] >= floor && scores[i] > ScoreOf(scores[..i], prev) then scores[i]
            else ScoreOf(scores[..i], prev))
  {
    assert scores[..i + 1][..i] == scores[..i];
    var prev := FirstBest(scores[..i], floor);
    if prev.Some? {
      assert scores[..i + 1][prev.value] == scores[..i][prev.value];
    }
  }

  /** `k` has the maximal score among the candidates scoring at least `floor`,
      that score is positive, and no earlier candidate reaches it. */
  predicate IsFirstBest(scores: seq<real>, floor: real, k: nat)
  {
    && k < |scores|
    && scores[k] >= floor
    && scores[k] > 0.0
    && (forall j :: 0 <= j < |scores| && scores[j] >= floor ==> scores[j] <= scores[k])
    && (forall j :: 0 <= j < k && scores[j] >= floor ==> scores[j] < scores[k])
  }

  /** What the fuzzy loop finds: nothing exactly when no candidate at or above
      `floor` has a positive score, and otherwise the first maximal one. */
  lemma {:induction false} FirstBestSpec(scores: seq<real>, floor: real)
    ensures FirstBest(scores, floor).None? <==>
      forall j :: 0 <= j < |scores| && scores[j] >= floor ==> scores[j] <= 0.0
    ensures FirstBest(scores, floor).Some? ==> IsFirstBest(scores, floor, FirstBest(scores, floor).value)
  {
    if scores != [] {
      var n := |scores|;
      var p := scores[..n - 1];
      FirstBestSpec(p, floor);
      var prev := FirstBest(p, floor);
      var x := scores[n - 1];
      assert forall j :: 0 <= j < n - 1 ==> scores[j] == p[j];
      if prev.Some? {
        assert ScoreOf(scores, prev) == p[prev.value];
      }
    }
  }

  /** `IsFirstBest` picks out at most one candidate. */
  lemma IsFirstBestUnique(scores: seq<real>, floor: real, k: nat, k': nat)
    requires IsFirstBest(scores, floor, k) && IsFirstBest(scores, floor, k')
    ensures k == k'
  {
  }
}
