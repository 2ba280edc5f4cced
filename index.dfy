/** The index of politicians already present in the remote store
    (pipeline.py, `_load_politicians_index`) and the best-match search over
    it (`_best_fuzzy_politician_match`). */
module PoliticiansIndex {
  import opened Wrappers
  import opened Values
  import opened Text
  import opened Tokens
  import opened Similarity
  import opened PersonNames
  import Dicts
  import Ranking

  /** Normalised person name to politician id, in insertion order. */
  type Index = seq<(string, string)>

  /** The value stored under one politician id: a JSON object (its fields in
      order) or anything else. */
  datatype Payload = Record(fields: seq<(string, Value)>) | Scalar(v: Value)

  /** What reading the politicians path gives: the read raised, a JSON
      object (its children in order), or some other JSON value. */
  datatype Snapshot = Unavailable | Tree(children: seq<(string, Payload)>) | NonTree(v: Value)

  /** `payload.get(key)` */
  function Field(fields: seq<(string, Value)>, key: string): Value
  {
    match Dicts.Get(fields, key)
    case Some(v) => v
    case None => Null
  }

  /** The fields tried for a politician's name, in order of preference. */
  const NameFields: seq<string> := ["name", "full_name", "politician_name", "display_name"]

  /** `vs[0] or vs[1] or ...`: the first truthy value, or the last one. */
  function FirstTruthy(vs: seq<Value>): Value
    requires |vs| >= 1
  {
    if |vs| == 1 || Truthy(vs[0]) then vs[0] else FirstTruthy(vs[1..])
  }

  /** The name fields of a payload, in the order they are tried. */
  function NameCandidates(fields: seq<(string, Value)>): (vs: seq<Value>)
    ensures |vs| == |NameFields|
    ensures forall i :: 0 <= i < |vs| ==> vs[i] == Field(fields, NameFields[i])
  {
    seq(|NameFields|, i requires 0 <= i < |NameFields| => Field(fields, NameFields[i]))
  }

  function ChosenName(fields: seq<(string, Value)>): Value
  {
    FirstTruthy(NameCandidates(fields))
  }

  /** The `or` chain picks the first truthy value. */
  lemma {:induction false} FirstTruthyPicksFirst(vs: seq<Value>, i: nat)
    requires i < |vs| && Truthy(vs[i])
    requires forall j :: 0 <= j < i ==> !Truthy(vs[j])
    ensures FirstTruthy(vs) == vs[i]
  {
    if i > 0 {
      assert !Truthy(vs[0]);
      assert forall j :: 0 <= j < i - 1 ==> vs[1..][j] == vs[j + 1];
      FirstTruthyPicksFirst(vs[1..], i - 1);
    }
  }

  /** When nothing is truthy, the chain yields the last value, which is falsy. */
  lemma {:induction false} FirstTruthyNone(vs: seq<Value>)
    requires |vs| >= 1
    requires forall j :: 0 <= j < |vs| ==> !Truthy(vs[j])
    ensures FirstTruthy(vs) == vs[|vs| - 1] && !Truthy(FirstTruthy(vs))
  {
    if |vs| > 1 {
      assert !Truthy(vs[0]);
      assert forall j :: 0 <= j < |vs| - 1 ==> vs[1..][j] == vs[j + 1];
      FirstTruthyNone(vs[1..]);
    }
  }

  /** A name is usable when it is a string with a non-whitespace character. */
  predicate UsableName(v: Value)
  {
    v.Str? && Strip(v.s) != ""
  }

  /** The assignment one child of the snapshot makes, if any:
      normalised name to id. */
  function EntryOf(child: (string, Payload)): Option<(string, string)>
  {
    var (id, payload) := child;
    if id == "" || !payload.Record? then None
    else
      var name := ChosenName(payload.fields);
      if UsableName(name) then Some((NormalizePersonName(name.s), id)) else None
  }

  function Entries(children: seq<(string, Payload)>): (es: seq<Option<(string, string)>>)
    ensures |es| == |children|
  {
    seq(|children|, i requires 0 <= i < |children| => EntryOf(children[i]))
  }

  /** The loop over the snapshot's children: each usable child assigns its
      normalised name to its id, so a later child overwrites an earlier one
      with the same normalised name. */
  function BuildIndex(children: seq<(string, Payload)>): (ix: Index)
    ensures Dicts.DistinctKeys(ix)
  {
    Dicts.AssignAll(Entries(children))
  }

  /** The index after `_load_politicians_index`, given the one before. A read
      that raises is caught and changes nothing; a falsy value reads as an
      empty object; any other value that is not an object returns early. */
  function IndexAfterLoad(snap: Snapshot, current: Index): Index
  {
    match snap
    case Unavailable => current
    case Tree(children) => BuildIndex(children)
    case NonTree(v) => if Truthy(v) then current else []
  }

  /** A child that is neither overwritten later nor skipped decides its key. */
  lemma BuildIndexLastWins(cs: seq<(string, Payload)>, j: nat, k: string, id: string)
    requires j < |cs| && EntryOf(cs[j]) == Some((k, id))
    requires forall j' :: j < j' < |cs| ==> !Dicts.Assigns(EntryOf(cs[j']), k)
    ensures Dicts.Get(BuildIndex(cs), k) == Some(id)
  {
    Dicts.AssignAllLastWins(Entries(cs), j, k, id);
  }

  /** The loop over the children, one child at a time. */
  lemma BuildIndexSnoc(cs: seq<(string, Payload)>, i: nat)
    requires i < |cs|
    ensures BuildIndex(cs[..i + 1]) ==
      var e := EntryOf(cs[i]);
      if e.None? then BuildIndex(cs[..i]) else Dicts.Upsert(BuildIndex(cs[..i]), e.value.0, e.value.1)
  {
    var es := Entries(cs[..i + 1]);
    assert es[..i] == Entries(cs[..i]);
    assert es[i] == EntryOf(cs[i]);
  }

  /** A key is in the index exactly when some child assigns it. */
  lemma BuildIndexHasKey(cs: seq<(string, Payload)>, k: string)
    ensures Dicts.Get(BuildIndex(cs), k).Some? <==>
      exists j :: 0 <= j < |cs| && Dicts.Assigns(EntryOf(cs[j]), k)
  {
    var es := Entries(cs);
    Dicts.AssignAllHasKey(es, k);
    if exists j :: 0 <= j < |cs| && Dicts.Assigns(EntryOf(cs[j]), k) {
      var j :| 0 <= j < |cs| && Dicts.Assigns(EntryOf(cs[j]), k);
      assert Dicts.Assigns(es[j], k);
    }
  }

  /** Every entry of the index was assigned by a child of the snapshot, and
      every id in it is non-empty. */
  lemma BuildIndexProvenance(cs: seq<(string, Payload)>)
    ensures forall p :: p in BuildIndex(cs) ==>
      exists j :: 0 <= j < |cs| && EntryOf(cs[j]) == Some(p)
    ensures forall i :: 0 <= i < |BuildIndex(cs)| ==> BuildIndex(cs)[i].1 != ""
  {
    var es := Entries(cs);
    Dicts.AssignAllEntries(es);
    forall p | p in BuildIndex(cs) ensures exists j :: 0 <= j < |cs| && EntryOf(cs[j]) == Some(p) {
      var j :| 0 <= j < |es| && es[j] == Some(p);
      assert EntryOf(cs[j]) == Some(p);
    }
    forall i | 0 <= i < |BuildIndex(cs)| ensures BuildIndex(cs)[i].1 != "" {
      var p := BuildIndex(cs)[i];
      assert p in BuildIndex(cs);
      var j :| 0 <= j < |cs| && EntryOf(cs[j]) == Some(p);
    }
  }

  /** The first truthy name field is the one used. */
  lemma ChosenNamePriority(fields: seq<(string, Value)>, i: nat)
    requires i < |NameFields| && Truthy(Field(fields, NameFields[i]))
    requires forall j :: 0 <= j < i ==> !Truthy(Field(fields, NameFields[j]))
    ensures ChosenName(fields) == Field(fields, NameFields[i])
  {
    FirstTruthyPicksFirst(NameCandidates(fields), i);
  }

  /** A `name` made only of whitespace is truthy, so it is chosen over a
      usable `full_name`, and the record is skipped. */
  lemma BlankNameSuppresses(id: string, fields: seq<(string, Value)>)
    requires Field(fields, "name").Str? && Field(fields, "name").s != ""
    requires Strip(Field(fields, "name").s) == ""
    ensures EntryOf((id, Record(fields))) == None
  {
    ChosenNamePriority(fields, 0);
  }

  /** Children with an empty id or a payload that is not an object are skipped. */
  lemma SkippedChildren(id: string, payload: Payload)
    requires id == "" || payload.Scalar?
    ensures EntryOf((id, payload)) == None
  {
  }

  /** Read at start-up, over the empty index: a value that is not an object
      leaves the index empty. */
  lemma NonTreeGivesEmpty(v: Value)
    ensures IndexAfterLoad(NonTree(v), []) == []
  {
  }

  // ---------------------------------------------------------------------
  // _best_fuzzy_politician_match

  /** The better of the plain ratio and the ratio of the token-sorted forms,
      without the guard for empty arguments the mapping table's similarity has. */
  function IndexScore(q: string, c: string, ratio: Ratio): real
  {
    Max(ratio(q, c), ratio(TokenSortKey(q), TokenSortKey(c)))
  }

  /** A candidate made of the query's words in another order scores at
      least what the ratio gives the query's token key against itself. */
  lemma IndexScoreOrderInsensitive(q: string, c: string, ratio: Ratio)
    requires multiset(Split(q)) == multiset(Split(c))
    ensures IndexScore(q, c, ratio) >= ratio(TokenSortKey(q), TokenSortKey(q))
  {
    TokenSortKeyOrderInsensitive(q, c);
  }

  function IndexScores(ix: Index, q: string, ratio: Ratio): seq<real>
  {
    seq(|ix|, i requires 0 <= i < |ix| => IndexScore(q, ix[i].0, ratio))
  }

  /** The scan of `_best_fuzzy_politician_match`: it keeps the first
      candidate whose score strictly beats the best so far, starting from
      score 0, which is the first-best search with floor 0; the kept id is
      returned only when it is non-empty and its score reaches the
      threshold. */
  function FuzzyPick(ix: Index, scores: seq<real>, threshold: real): Option<string>
    requires |scores| == |ix|
  {
    match Ranking.FirstBest(scores, 0.0)
    case Some(k) => if ix[k].1 != "" && scores[k] >= threshold then Some(ix[k].1) else None
    case None => None
  }

  /** `_best_fuzzy_politician_match(name, threshold)` */
  function BestMatch(ix: Index, name: string, ratio: Ratio, threshold: real): Option<string>
  {
    if ix == [] then None
    else
      var q := NormalizePersonName(name);
      if q == "" then None
      else
        match Dicts.Get(ix, q)
        case Some(id) => Some(id)
        case None => FuzzyPick(ix, IndexScores(ix, q, ratio), threshold)
  }

  /** The scan's result: the id of the first candidate with the highest
      positive score, when that id is non-empty and the score reaches the
      threshold; nothing when no score is positive. */
  lemma FuzzyPickSpec(ix: Index, scores: seq<real>, threshold: real, k: nat)
    requires |scores| == |ix|
    ensures Ranking.IsFirstBest(scores, 0.0, k) ==>
      FuzzyPick(ix, scores, threshold) ==
        (if ix[k].1 != "" && scores[k] >= threshold then Some(ix[k].1) else None)
    ensures (forall j :: 0 <= j < |ix| ==> scores[j] <= 0.0) ==> FuzzyPick(ix, scores, threshold) == None
    ensures FuzzyPick(ix, scores, threshold).Some? ==>
      FuzzyPick(ix, scores, threshold).value != "" && FuzzyPick(ix, scores, threshold).value in Dicts.Values(ix)
  {
    Ranking.FirstBestSpec(scores, 0.0);
    var best := Ranking.FirstBest(scores, 0.0);
    if Ranking.IsFirstBest(scores, 0.0, k) {
      Ranking.IsFirstBestUnique(scores, 0.0, k, best.value);
    }
    if best.Some? {
      Dicts.ValueIn(ix, best.value);
    }
  }

  /** An empty index or a name that normalises to nothing matches nothing. */
  lemma BestMatchNothing(ix: Index, name: string, ratio: Ratio, threshold: real)
    requires ix == [] || NormalizePersonName(name) == ""
    ensures BestMatch(ix, name, ratio, threshold) == None
  {
  }

  /** A normalised name that is a key of the index is answered from it,
      whatever the scores and the threshold. */
  lemma BestMatchExact(ix: Index, name: string, ratio: Ratio, threshold: real)
    requires NormalizePersonName(name) != ""
    requires Dicts.Get(ix, NormalizePersonName(name)).Some?
    ensures BestMatch(ix, name, ratio, threshold) == Dicts.Get(ix, NormalizePersonName(name))
  {
  }

  /** Without an exact key: the id of the first candidate with the highest
      positive score, when that id is non-empty and the score reaches the
      threshold; nothing when no candidate scores above 0. */
  lemma BestMatchFuzzy(ix: Index, name: string, ratio: Ratio, threshold: real, k: nat)
    requires NormalizePersonName(name) != "" && ix != []
    requires Dicts.Get(ix, NormalizePersonName(name)).None?
    ensures var scores := IndexScores(ix, NormalizePersonName(name), ratio);
      Ranking.IsFirstBest(scores, 0.0, k) ==>
        BestMatch(ix, name, ratio, threshold) ==
          (if ix[k].1 != "" && scores[k] >= threshold then Some(ix[k].1) else None)
    ensures var scores := IndexScores(ix, NormalizePersonName(name), ratio);
      (forall j :: 0 <= j < |ix| ==> scores[j] <= 0.0) ==> BestMatch(ix, name, ratio, threshold) == None
  {
    FuzzyPickSpec(ix, IndexScores(ix, NormalizePersonName(name), ratio), threshold, k);
  }

  /** A match is always an id taken from the index, and a non-empty one
      when every id of the index is. */
  lemma BestMatchFromIndex(ix: Index, name: string, ratio: Ratio, threshold: real)
    ensures var r := BestMatch(ix, name, ratio, threshold);
      r.Some? ==> r.value in Dicts.Values(ix)
    ensures var r := BestMatch(ix, name, ratio, threshold);
      (forall i :: 0 <= i < |ix| ==> ix[i].1 != "") && r.Some? ==> r.value != ""
  {
    var q := NormalizePersonName(name);
    if ix != [] && q != "" && Dicts.Get(ix, q).None? {
      FuzzyPickSpec(ix, IndexScores(ix, q, ratio), threshold, 0);
    } else if ix != [] && q != "" {
      var v := Dicts.Get(ix, q).value;
      var i :| 0 <= i < |Dicts.Values(ix)| && Dicts.Values(ix)[i] == v;
      assert ix[i].1 == v;
    }
  }
}
