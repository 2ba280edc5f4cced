/** The persisted name-to-identity table (politician_mapping.py): the first
    resolution tier. */
module Mapping {
  import opened Wrappers
  import opened Values
  import opened Text
  import opened Tokens
  import opened Similarity
  import Dicts
  import Ranking

  /** Raw name as first seen -> identity key, in insertion order. */
  type Table = seq<(string, string)>

  /** The threshold `get_politician_id` is called with by the resolver. */
  const DefaultThreshold: real := 0.90

  const MappingDropWords: set<string> :=
    {"jr", "sr", "ii", "iii", "iv", "mr", "mrs", "ms", "dr",
     "sen", "senator", "rep", "representative", "gov", "governor"}

  // ---------------------------------------------------------------------
  // _normalize_name

  predicate IsPunctuation(c: char) { c == '.' || c == ',' || c == '\'' }

  /** Full stops, commas and apostrophes become spaces. */
  function PunctuationToSpace(s: string): string
  {
    seq(|s|, i requires 0 <= i < |s| => if IsPunctuation(s[i]) then ' ' else s[i])
  }

  predicate IsNameChar(c: char) { IsLowerLetter(c) || IsSpace(c) || c == '-' }

  /** Every character other than a lower-case ASCII letter, whitespace or a
      hyphen becomes a space. */
  function NonNameToSpace(s: string): string
  {
    seq(|s|, i requires 0 <= i < |s| => if IsNameChar(s[i]) then s[i] else ' ')
  }

  predicate Kept(t: string) { t != "" && t !in MappingDropWords }

  /** The string `_normalize_name` hands to `split()`: lowered and stripped,
      punctuation and then every character outside `[a-z\s-]` turned into a
      space, whitespace runs collapsed and stripped, hyphens turned into
      spaces. */
  function Cleaned(name: string): string
  {
    var s := Strip(Lower(name));
    var s := PunctuationToSpace(s);
    var s := NonNameToSpace(s);
    var s := Strip(CollapseSpaces(s));
    ReplaceChar(s, '-', ' ')
  }

  /** The tokens `_normalize_name` keeps, in order. */
  function NameTokens(name: string): seq<string>
  {
    FilterBy(Split(Cleaned(name)), Kept)
  }

  /** `_normalize_name` on a string. */
  function NormalizeName(name: string): string
  {
    JoinWith(NameTokens(name), ' ')
  }

  /** `_normalize_name` on any value: `""` for anything that is not a string. */
  function NormalizeNameOf(v: Value): (r: string)
    ensures !v.Str? ==> r == ""
  {
    if v.Str? then NormalizeName(v.s) else ""
  }

  predicate IsLetterOrSpace(c: char) { IsLowerLetter(c) || IsSpace(c) }

  predicate IsCanonicalChar(c: char) { c == ' ' || IsLowerLetter(c) }

  lemma CollapsedChars(name: string)
    ensures AllChars(Strip(CollapseSpaces(NonNameToSpace(PunctuationToSpace(Strip(Lower(name)))))), IsNameChar)
  {
    var s3 := NonNameToSpace(PunctuationToSpace(Strip(Lower(name))));
    assert AllChars(s3, IsNameChar);
    CollapseChars(s3, IsNameChar);
    StripChars(CollapseSpaces(s3), IsNameChar);
  }

  /** Only lower-case letters and whitespace reach `split()`. */
  lemma CleanedChars(name: string)
    ensures AllChars(Cleaned(name), IsLetterOrSpace)
  {
    CollapsedChars(name);
  }

  lemma WordsOfLetters(ws: seq<string>, ts: seq<string>)
    requires forall m :: 0 <= m < |ws| ==> AllChars(ws[m], IsLetterOrSpace) && IsWord(ws[m])
    requires forall k :: 0 <= k < |ts| ==> ts[k] in ws
    ensures forall k :: 0 <= k < |ts| ==> AllChars(ts[k], IsLowerLetter)
  {
    forall k | 0 <= k < |ts| ensures AllChars(ts[k], IsLowerLetter) {
      var m :| 0 <= m < |ws| && ws[m] == ts[k];
    }
  }

  lemma NameTokensShape(name: string)
    ensures var ts := NameTokens(name);
      && AllWords(ts)
      && forall k :: 0 <= k < |ts| ==> AllChars(ts[k], IsLowerLetter) && Kept(ts[k])
  {
    var x := Cleaned(name);
    CleanedChars(name);
    SplitChars(x, IsLetterOrSpace);
    var ws := Split(x);
    FilterWords(ws, Kept);
    WordsOfLetters(ws, FilterBy(ws, Kept));
  }

  /** The output of `_normalize_name` is lower-case letter tokens separated by
      single spaces, with no space at either end and no title or suffix
      among its tokens. */
  lemma NormalizeNameShape(name: string)
    ensures var r := NormalizeName(name);
      && AllChars(r, IsCanonicalChar)
      && Trimmed(r)
      && NoDoubleSpace(r)
      && Split(r) == NameTokens(name)
      && forall k :: 0 <= k < |Split(r)| ==> Split(r)[k] !in MappingDropWords
  {
    var ts := NameTokens(name);
    NameTokensShape(name);
    JoinShape(ts, IsCanonicalChar);
    SplitJoin(ts);
  }

  /** A canonical string goes through every cleaning step unchanged. */
  lemma CleanedCanonical(r: string)
    requires AllChars(r, IsCanonicalChar) && Trimmed(r) && NoDoubleSpace(r)
    ensures Cleaned(r) == r
  {
    assert forall i :: 0 <= i < |r| ==> r[i] == ' ' || IsLowerLetter(r[i]);
    var s1 := Strip(Lower(r));
    assert s1 == r by {
      LowerIdentity(r);
      StripIdentity(r);
    }
    var s2 := PunctuationToSpace(s1);
    assert s2 == r;
    var s3 := NonNameToSpace(s2);
    assert s3 == r;
    var s4 := Strip(CollapseSpaces(s3));
    assert s4 == r by {
      CollapseIdentity(r);
      StripIdentity(r);
    }
    ReplaceIdentity(r, '-', ' ');
  }

  lemma {:induction false} NormalizeNameIdempotent(name: string)
    ensures NormalizeName(NormalizeName(name)) == NormalizeName(name)
  {
    var ts := NameTokens(name);
    var r := JoinWith(ts, ' ');
    NameTokensShape(name);
    JoinShape(ts, IsCanonicalChar);
    CleanedCanonical(r);
    SplitJoin(ts);
    FilterAll(ts, Kept);
  }

  // ---------------------------------------------------------------------
  // _name_similarity

  /** `_name_similarity(a, b)` */
  function NameSimilarity(a: string, b: string, ratio: Ratio): real
  {
    if a == "" || b == "" then 0.0
    else Max(ratio(a, b), ratio(TokenSortKey(a), TokenSortKey(b)))
  }

  /** The similarity is a score in `[0, 1]`: zero when either side is empty,
      and otherwise the better of the plain ratio and the ratio of the
      token-sorted forms. */
  lemma NameSimilarityBounds(a: string, b: string, ratio: Ratio)
    ensures var r := NameSimilarity(a, b, ratio);
      && 0.0 <= r <= 1.0
      && (a == "" || b == "" ==> r == 0.0)
      && (a != "" && b != "" ==>
            && r >= ratio(a, b) && r >= ratio(TokenSortKey(a), TokenSortKey(b))
            && (r == ratio(a, b) || r == ratio(TokenSortKey(a), TokenSortKey(b))))
  {
  }

  /** Names made of the same words in another order score at least what
      the ratio gives a token key against itself (1 for a ratio that scores
      identical strings 1). */
  lemma SimilarityOrderInsensitive(a: string, b: string, ratio: Ratio)
    requires a != "" && b != ""
    requires multiset(Split(a)) == multiset(Split(b))
    ensures NameSimilarity(a, b, ratio) >= ratio(TokenSortKey(a), TokenSortKey(a))
  {
    TokenSortKeyOrderInsensitive(a, b);
  }

  // ---------------------------------------------------------------------
  // get_politician_id, as a function of the table

  function NormalizedKeys(t: Table): seq<string>
  {
    seq(|t|, i requires 0 <= i < |t| => NormalizeName(t[i].0))
  }

  function Similarities(t: Table, q: string, ratio: Ratio): seq<real>
  {
    seq(|t|, i requires 0 <= i < |t| => NameSimilarity(q, NormalizeName(t[i].0), ratio))
  }

  /** What `get_politician_id(name, threshold)` returns for table `t`. */
  function Lookup(t: Table, name: Value, ratio: Ratio, threshold: real): Option<string>
  {
    if !Truthy(name) then None
    else
      var q := NormalizeNameOf(name);
      match Ranking.FirstIndexOf(NormalizedKeys(t), q)
      case Some(j) => Some(t[j].1)
      case None =>
        match Ranking.FirstBest(Similarities(t, q, ratio), threshold)
        case Some(k) => Some(t[k].1)
        case None => None
  }

  /** An exact hit after normalisation wins before any scoring: the first
      entry whose stored name normalises like `name` decides, whatever the
      scores and the threshold. */
  lemma LookupExactWins(t: Table, name: Value, ratio: Ratio, threshold: real, j: nat)
    requires Truthy(name) && j < |t|
    requires NormalizeName(t[j].0) == NormalizeNameOf(name)
    requires forall i :: 0 <= i < j ==> NormalizeName(t[i].0) != NormalizeNameOf(name)
    ensures Lookup(t, name, ratio, threshold) == Some(t[j].1)
  {
    var q := NormalizeNameOf(name);
    var keys := NormalizedKeys(t);
    assert keys[j] == q;
    assert forall i :: 0 <= i < j ==> keys[i] != q;
    Ranking.FirstIndexOfAt(keys, q, j);
  }

  /** Without an exact hit: nothing, when no entry at or above the threshold
      has a positive score; otherwise the id of the first entry with the
      highest such score. */
  lemma LookupFuzzy(t: Table, name: Value, ratio: Ratio, threshold: real)
    requires Truthy(name)
    requires forall i :: 0 <= i < |t| ==> NormalizeName(t[i].0) != NormalizeNameOf(name)
    ensures var scores := Similarities(t, NormalizeNameOf(name), ratio);
      && (Lookup(t, name, ratio, threshold).None? <==>
            forall j :: 0 <= j < |t| && scores[j] >= threshold ==> scores[j] <= 0.0)
      && (Lookup(t, name, ratio, threshold).Some? ==>
            exists k: nat :: Ranking.IsFirstBest(scores, threshold, k)
                     && Lookup(t, name, ratio, threshold) == Some(t[k].1))
  {
    var q := NormalizeNameOf(name);
    NoExactHit(t, q);
    var scores := Similarities(t, q, ratio);
    Ranking.FirstBestSpec(scores, threshold);
    var best := Ranking.FirstBest(scores, threshold);
    assert Lookup(t, name, ratio, threshold) == if best.Some? then Some(t[best.value].1) else None;
    if best.Some? {
      assert Ranking.IsFirstBest(scores, threshold, best.value);
    }
  }

  lemma NoExactHit(t: Table, q: string)
    requires forall i :: 0 <= i < |t| ==> NormalizeName(t[i].0) != q
    ensures Ranking.FirstIndexOf(NormalizedKeys(t), q) == None
  {
    var keys := NormalizedKeys(t);
    assert forall i :: 0 <= i < |keys| ==> keys[i] != q;
  }

  /** Whatever is returned is an id stored in the table. */
  lemma LookupDrawnFromTable(t: Table, name: Value, ratio: Ratio, threshold: real)
    ensures Lookup(t, name, ratio, threshold).Some? ==>
      Lookup(t, name, ratio, threshold).value in Dicts.Values(t)
  {
    if Truthy(name) {
      var q := NormalizeNameOf(name);
      var exact := Ranking.FirstIndexOf(NormalizedKeys(t), q);
      var best := Ranking.FirstBest(Similarities(t, q, ratio), threshold);
      if exact.Some? {
        Dicts.ValueIn(t, exact.value);
      } else if best.Some? {
        Dicts.ValueIn(t, best.value);
      }
    }
  }

  // ---------------------------------------------------------------------
  // The mapping file

  /** What `_load_mappings` finds on disk: no file, a file whose read raises
      an I/O error or whose content is not valid JSON, or the pairs of a JSON
      object in file order. */
  datatype MappingFile = Missing | Unreadable | Parsed(pairs: seq<(string, string)>)

  /** What the file on disk is known to hold. `Indeterminate` after a failed
      read (corrupt content) or a failed rewrite (opening for writing
      truncates the file before the dump). */
  datatype Persisted = NoFile | Holds(table: Table) | Indeterminate

  /** The pairs of a JSON object in file order, as the assignments `json.load`
      makes while it builds the dict. */
  function PairSteps(pairs: seq<(string, string)>): (es: seq<Option<(string, string)>>)
    ensures |es| == |pairs|
    ensures forall i :: 0 <= i < |pairs| ==> es[i] == Some(pairs[i])
  {
    seq(|pairs|, i requires 0 <= i < |pairs| => Some(pairs[i]))
  }

  /** `json.load` of an object: a later duplicate key overwrites the value of
      the earlier one and keeps its position. */
  function FromPairs(pairs: seq<(string, string)>): (t: Table)
    ensures Dicts.DistinctKeys(t)
  {
    Dicts.AssignAll(PairSteps(pairs))
  }

  /** The last occurrence of a key in the file decides its value. */
  lemma FromPairsLastWins(pairs: seq<(string, string)>, j: nat)
    requires j < |pairs|
    requires forall j' :: j < j' < |pairs| ==> pairs[j'].0 != pairs[j].0
    ensures Dicts.Get(FromPairs(pairs), pairs[j].0) == Some(pairs[j].1)
  {
    var es := PairSteps(pairs);
    forall j' | j < j' < |es| ensures !Dicts.Assigns(es[j'], pairs[j].0) {
      assert es[j'] == Some(pairs[j']);
    }
    Dicts.AssignAllLastWins(es, j, pairs[j].0, pairs[j].1);
  }

  /** A key is in the loaded table exactly when it occurs in the file. */
  lemma FromPairsHasKey(pairs: seq<(string, string)>, k: string)
    ensures Dicts.Get(FromPairs(pairs), k).Some? <==> exists j :: 0 <= j < |pairs| && pairs[j].0 == k
  {
    var es := PairSteps(pairs);
    Dicts.AssignAllHasKey(es, k);
    if exists j :: 0 <= j < |pairs| && pairs[j].0 == k {
      var j :| 0 <= j < |pairs| && pairs[j].0 == k;
      assert Dicts.Assigns(es[j], k);
    }
    if exists j :: 0 <= j < |es| && Dicts.Assigns(es[j], k) {
      var j :| 0 <= j < |es| && Dicts.Assigns(es[j], k);
      assert pairs[j].0 == k;
    }
  }

  /** `_load_mappings`: a missing or unreadable file gives the empty table. */
  function LoadedTable(file: MappingFile): Table
  {
    if file.Parsed? then FromPairs(file.pairs) else []
  }

  class PoliticianMapping {
    var mappings: Table
    /** The table the mapping file is known to hold. */
    ghost var persisted: Persisted
    /** Number of rewrites of the mapping file attempted so far. */
    ghost var saves: nat

    ghost predicate Valid()
      reads this
    {
      Dicts.DistinctKeys(mappings)
    }

    constructor (file: MappingFile)
      ensures Valid()
      ensures mappings == LoadedTable(file)
      ensures persisted == match file
                           case Missing => NoFile
                           case Unreadable => Indeterminate
                           case Parsed(_) => Holds(mappings)
      ensures saves == 0
    {
      mappings := LoadedTable(file);
      persisted := match file
                   case Missing => NoFile
                   case Unreadable => Indeterminate
                   case Parsed(_) => Holds(LoadedTable(file));
      saves := 0;
    }

    /** `_save_mappings`: rewrites the whole file; `saveOk` says whether the
        file system lets the write through. A failure propagates. */
    method SaveMappings(saveOk: bool) returns (outcome: Outcome)
      modifies this`persisted, this`saves
      ensures saves == old(saves) + 1
      ensures outcome == if saveOk then Pass else Fail(SaveFailed)
      ensures persisted == if saveOk then Holds(mappings) else Indeterminate
    {
      saves := saves + 1;
      if saveOk {
        persisted := Holds(mappings);
        outcome := Pass;
      } else {
        persisted := Indeterminate;
        outcome := Fail(SaveFailed);
      }
    }

    /** `get_politician_id(name, threshold)` */
    method GetPoliticianId(name: Value, ratio: Ratio, threshold: real) returns (id: Option<string>)
      ensures id == Lookup(mappings, name, ratio, threshold)
      ensures !Truthy(name) ==> id == None
    {
      if !Truthy(name) {
        return None;
      }
      var t := mappings;
      var q := NormalizeNameOf(name);
      var exact := ExactScan(t, q);
      if exact.Some? {
        return Some(t[exact.value].1);
      }
      id := FuzzyScan(t, q, ratio, threshold);
    }

    /** `add_mapping(name, id)` */
    method AddMapping(name: string, id: string, saveOk: bool) returns (outcome: Outcome)
      requires Valid()
      modifies this
      ensures Valid()
      ensures name == "" || id == "" ==>
        mappings == old(mappings) && persisted == old(persisted) && saves == old(saves) && outcome == Pass
      ensures name != "" && id != "" ==>
        && mappings == Dicts.Upsert(old(mappings), name, id)
        && saves == old(saves) + 1
        && outcome == (if saveOk then Pass else Fail(SaveFailed))
        && persisted == (if saveOk then Holds(mappings) else Indeterminate)
      ensures name != "" && id != "" ==>
        && Dicts.Get(mappings, name) == Some(id)
        && forall k :: k != name ==> Dicts.Get(mappings, k) == Dicts.Get(old(mappings), k)
    {
      if name == "" || id == "" {
        return Pass;
      }
      Dicts.UpsertKeepsDistinct(mappings, name, id);
      forall k {
        Dicts.GetUpsert(mappings, name, id, k);
      }
      mappings := Dicts.Upsert(mappings, name, id);
      outcome := SaveMappings(saveOk);
    }

    /** `get_all_mappings()`: a copy of the table. */
    method GetAllMappings() returns (copy: Table)
      requires Valid()
      ensures copy == mappings && Dicts.DistinctKeys(copy)
    {
      copy := mappings;
    }
  }

  /** The exact-match loop of `get_politician_id`: the first stored name
      that normalises to `q`. */
  method ExactScan(t: Table, q: string) returns (j: Option<nat>)
    ensures j == Ranking.FirstIndexOf(NormalizedKeys(t), q)
  {
    ghost var keys := NormalizedKeys(t);
    var i := 0;
    while i < |t|
      invariant 0 <= i <= |t|
      invariant forall k :: 0 <= k < i ==> keys[k] != q
    {
      assert keys[i] == NormalizeName(t[i].0);
      if NormalizeName(t[i].0) == q {
        Ranking.FirstIndexOfAt(keys, q, i);
        return Some(i);
      }
      i := i + 1;
    }
    assert q !in keys;
    return None;
  }

  /** The fuzzy loop of `get_politician_id`: the id of the first entry
      whose score strictly beats every earlier one and reaches `threshold`. */
  method FuzzyScan(t: Table, q: string, ratio: Ratio, threshold: real) returns (bestMatch: Option<string>)
    ensures bestMatch == match Ranking.FirstBest(Similarities(t, q, ratio), threshold)
                         case Some(k) => Some(t[k].1)
                         case None => None
  {
    ghost var scores := Similarities(t, q, ratio);
    bestMatch := None;
    var bestRatio := 0.0;
    var i := 0;
    while i < |t|
      invariant 0 <= i <= |t|
      invariant var k := Ranking.FirstBest(scores[..i], threshold);
        && bestMatch == (if k.Some? then Some(t[k.value].1) else None)
        && bestRatio == Ranking.ScoreOf(scores[..i], k)
    {
      var r := NameSimilarity(q, NormalizeName(t[i].0), ratio);
      assert r == scores[i];
      Ranking.FirstBestStep(scores, i, threshold);
      if r > bestRatio && r >= threshold {
        bestRatio := r;
        bestMatch := Some(t[i].1);
      }
      i := i + 1;
    }
    assert scores[..i] == scores;
  }
}
