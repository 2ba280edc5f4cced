/** The three-tier resolver `get_or_create_politician_id`, the grouping of
    the tabular rows in `store_issues_in_firebase`, and the pipeline object
    that owns the mapping table and the politicians index (pipeline.py). */
module Pipeline {
  import opened Wrappers
  import opened Values
  import opened Similarity
  import opened PersonNames
  import opened Mapping
  import opened PoliticiansIndex
  import opened Issues
  import Dicts

  /** The mapping-table tier is called without a threshold, so it always
      uses the default one. */
  const TierOneThreshold: real := DefaultThreshold

  /** The outcome of one resolution: the id or the exception, the mapping
      table afterwards, and how many rewrites of the mapping file it made. */
  datatype Resolution = Resolution(result: Result<string>, table: Table, writes: nat)

  /** `add_mapping(name, id)` followed by `return id`: an empty name or id
      writes nothing; otherwise the table is updated and rewritten, and a
      failed rewrite raises after the update. */
  function Recorded(t: Table, name: string, id: string, saveOk: bool): Resolution
  {
    if name == "" || id == "" then Resolution(Ok(id), t, 0)
    else Resolution(if saveOk then Ok(id) else Err(SaveFailed), Dicts.Upsert(t, name, id), 1)
  }

  /** `get_or_create_politician_id(name)` over table `t` and index `ix`. A
      name that is not a string and misses tier 1 reaches `.lower()` in the
      pipeline's normaliser and raises. */
  function Resolve(t: Table, ix: Index, name: Value, ratio: Ratio, threshold: real, saveOk: bool): Resolution
  {
    var first := Lookup(t, name, ratio, TierOneThreshold);
    if first.Some? && first.value != "" then Resolution(Ok(first.value), t, 0)
    else if !name.Str? then Resolution(Err(NameNotAString), t, 0)
    else
      var second := BestMatch(ix, name.s, ratio, threshold);
      if second.Some? && second.value != "" then Recorded(t, name.s, second.value, saveOk)
      else Recorded(t, name.s, SlugifyPersonName(name.s), saveOk)
  }

  /** Tier 1 wins whenever it yields an id, and then nothing is written. */
  lemma ResolveTierOne(t: Table, ix: Index, name: Value, ratio: Ratio, threshold: real, saveOk: bool)
    requires Lookup(t, name, ratio, TierOneThreshold).Some?
    requires Lookup(t, name, ratio, TierOneThreshold).value != ""
    ensures Resolve(t, ix, name, ratio, threshold, saveOk) ==
      Resolution(Ok(Lookup(t, name, ratio, TierOneThreshold).value), t, 0)
  {
  }

  /** Without a tier-1 id, a tier-2 match is recorded under the raw name. */
  lemma ResolveTierTwo(t: Table, ix: Index, name: string, ratio: Ratio, threshold: real, saveOk: bool)
    requires var first := Lookup(t, Str(name), ratio, TierOneThreshold); first.None? || first.value == ""
    requires BestMatch(ix, name, ratio, threshold).Some?
    requires BestMatch(ix, name, ratio, threshold).value != ""
    ensures var id := BestMatch(ix, name, ratio, threshold).value;
      var r := Resolve(t, ix, Str(name), ratio, threshold, saveOk);
      && name != ""
      && r.table == Dicts.Upsert(t, name, id)
      && Dicts.Get(r.table, name) == Some(id)
      && r.writes == 1
      && r.result == (if saveOk then Ok(id) else Err(SaveFailed))
  {
    var id := BestMatch(ix, name, ratio, threshold).value;
    Dicts.GetUpsert(t, name, id, name);
  }

  /** Without a tier-1 id or a tier-2 match, the id is the slug of the name,
      recorded under the raw name when both are non-empty. */
  lemma ResolveFallback(t: Table, ix: Index, name: string, ratio: Ratio, threshold: real, saveOk: bool)
    requires var first := Lookup(t, Str(name), ratio, TierOneThreshold); first.None? || first.value == ""
    requires var second := BestMatch(ix, name, ratio, threshold); second.None? || second.value == ""
    ensures var id := SlugifyPersonName(name);
      var r := Resolve(t, ix, Str(name), ratio, threshold, saveOk);
      && (saveOk || name == "" || id == "" ==> r.result == Ok(id))
      && (!saveOk && name != "" && id != "" ==> r.result == Err(SaveFailed))
      && (name != "" && id != "" ==> r.table == Dicts.Upsert(t, name, id) && r.writes == 1)
      && (name == "" || id == "" ==> r.table == t && r.writes == 0)
  {
  }

  /** What a resolution can do to the table: at most one rewrite, which
      records a non-empty id under the raw name; the only failures are the
      two exceptions, each in its own circumstances. */
  lemma ResolveEffect(t: Table, ix: Index, name: Value, ratio: Ratio, threshold: real, saveOk: bool)
    ensures var r := Resolve(t, ix, name, ratio, threshold, saveOk);
      && r.writes <= 1
      && (r.writes == 0 ==> r.table == t)
      && (r.writes == 1 ==>
            && name.Str? && name.s != ""
            && Dicts.Get(r.table, name.s).Some? && Dicts.Get(r.table, name.s).value != ""
            && r.table == Dicts.Upsert(t, name.s, Dicts.Get(r.table, name.s).value))
      && (r.result.Ok? && r.writes == 1 ==> Dicts.Get(r.table, name.s) == Some(r.result.value))
      && (r.result == Err(NameNotAString) ==> !name.Str? && r.writes == 0)
      && (r.result == Err(SaveFailed) ==> !saveOk && r.writes == 1)
      && r.result != Err(WriteFailed)
  {
    var r := Resolve(t, ix, name, ratio, threshold, saveOk);
    if r.writes == 1 {
      var id := if BestMatch(ix, name.s, ratio, threshold).Some? && BestMatch(ix, name.s, ratio, threshold).value != ""
                then BestMatch(ix, name.s, ratio, threshold).value else SlugifyPersonName(name.s);
      assert r.table == Dicts.Upsert(t, name.s, id);
      Dicts.GetUpsert(t, name.s, id, name.s);
    }
  }

  /** Every id of the table is non-empty. */
  predicate IdsNonEmpty(t: Table)
  {
    forall p :: p in t ==> p.1 != ""
  }

  /** A resolution never stores an empty id. */
  lemma ResolveKeepsIds(t: Table, ix: Index, name: Value, ratio: Ratio, threshold: real, saveOk: bool)
    requires IdsNonEmpty(t)
    ensures IdsNonEmpty(Resolve(t, ix, name, ratio, threshold, saveOk).table)
  {
    var r := Resolve(t, ix, name, ratio, threshold, saveOk);
    ResolveEffect(t, ix, name, ratio, threshold, saveOk);
    if r.writes == 1 {
      Dicts.UpsertEntries(t, name.s, Dicts.Get(r.table, name.s).value);
    }
  }

  /** Tier 1 of a table whose ids are all non-empty yields nothing only when
      no stored name normalises like the query. */
  lemma NoTierOneHit(t: Table, name: string, ratio: Ratio)
    requires IdsNonEmpty(t) && name != ""
    requires var first := Lookup(t, Str(name), ratio, TierOneThreshold); first.None? || first.value == ""
    ensures forall i :: 0 <= i < |t| ==> NormalizeName(t[i].0) != NormalizeName(name)
  {
    TierOneNoExact(t, name, ratio);
    forall i | 0 <= i < |t| ensures NormalizeName(t[i].0) != NormalizeName(name) {
      assert NormalizedKeys(t)[i] == NormalizeName(t[i].0);
    }
  }

  lemma TierOneNoExact(t: Table, name: string, ratio: Ratio)
    requires IdsNonEmpty(t) && name != ""
    requires var first := Lookup(t, Str(name), ratio, TierOneThreshold); first.None? || first.value == ""
    ensures Ranking.FirstIndexOf(NormalizedKeys(t), NormalizeNameOf(Str(name))).None?
  {
    LookupDrawnFromTable(t, Str(name), ratio, TierOneThreshold);
  }

  /** A resolution that writes nothing does not depend on whether a
      rewrite would succeed. */
  lemma ResolveWithoutWrite(t: Table, ix: Index, name: Value, ratio: Ratio, threshold: real, saveOk: bool, saveOk': bool)
    requires Resolve(t, ix, name, ratio, threshold, saveOk).writes == 0
    ensures Resolve(t, ix, name, ratio, threshold, saveOk') == Resolve(t, ix, name, ratio, threshold, saveOk)
  {
  }

  /** A name recorded at the end of a table in which nothing normalised like
      it before is found again by tier 1. */
  lemma TierOneFindsRecorded(t: Table, n: string, id: string, ratio: Ratio)
    requires n != "" && id != ""
    requires forall i :: 0 <= i < |t| ==> NormalizeName(t[i].0) != NormalizeName(n)
    ensures Lookup(t + [(n, id)], Str(n), ratio, TierOneThreshold) == Some(id)
  {
    var t' := t + [(n, id)];
    assert t'[|t|] == (n, id);
    assert forall i :: 0 <= i < |t| ==> t'[i] == t[i];
    LookupExactWins(t', Str(n), ratio, TierOneThreshold, |t|);
  }

  /** Recording a name whose normal form no key has appends it. */
  lemma RecordAppends(t: Table, n: string, id: string)
    requires forall i :: 0 <= i < |t| ==> NormalizeName(t[i].0) != NormalizeName(n)
    ensures Dicts.Upsert(t, n, id) == t + [(n, id)]
  {
    Dicts.UpsertNew(t, n, id);
  }

  /** Resolving a name a second time returns the same id and writes nothing,
      provided the table holds no empty id (the resolver never stores one). */
  lemma ResolveTwice(t: Table, ix: Index, name: Value, ratio: Ratio, threshold: real, saveOk: bool, saveOk': bool)
    requires IdsNonEmpty(t)
    requires Resolve(t, ix, name, ratio, threshold, saveOk).result.Ok?
    ensures var r := Resolve(t, ix, name, ratio, threshold, saveOk);
      Resolve(r.table, ix, name, ratio, threshold, saveOk') == Resolution(r.result, r.table, 0)
  {
    var r := Resolve(t, ix, name, ratio, threshold, saveOk);
    ResolveEffect(t, ix, name, ratio, threshold, saveOk);
    if r.writes == 0 {
      ResolveWithoutWrite(t, ix, name, ratio, threshold, saveOk, saveOk');
    } else {
      var n := name.s;
      var id := r.result.value;
      NoTierOneHit(t, n, ratio);
      RecordAppends(t, n, id);
      TierOneFindsRecorded(t, n, id, ratio);
      ResolveTierOne(r.table, ix, name, ratio, threshold, saveOk');
    }
  }

  // ---------------------------------------------------------------------
  // Grouping the rows

  /** One row of the tabular result: column name to value. */
  type Row = seq<(string, Value)>

  /** The names of the three columns the rows are read through. */
  datatype Columns = Columns(name: string, issue: string, value: string)

  /** What every resolution of one run shares. */
  datatype Config = Config(index: Index, ratio: Ratio, threshold: real, saveOk: bool)

  /** The state of the grouping loop: the nested dict so far (or the
      exception that ended it), the mapping table, and the rewrites made. */
  datatype Progress = Progress(result: Result<Grouped>, table: Table, writes: nat)

  /** One iteration of the loop over the rows. */
  function StepRow(p: Progress, row: Row, cols: Columns, cfg: Config): Progress
  {
    if p.result.Err? then p
    else
      var name := Field(row, cols.name);
      var issue := Field(row, cols.issue);
      if !Truthy(name) || !Truthy(issue) then p
      else
        var r := Resolve(p.table, cfg.index, name, cfg.ratio, cfg.threshold, cfg.saveOk);
        match r.result
        case Err(e) => Progress(Err(e), r.table, p.writes + r.writes)
        case Ok(id) =>
          var issueName := IssueColumnToDisplayName(StrOf(issue));
          var v := TransformIssueValue(Field(row, cols.value));
          Progress(Ok(SetIssue(p.result.value, id, issueName, v)), r.table, p.writes + r.writes)
  }

  /** The loop of `store_issues_in_firebase` over `rows`, from table `t`. */
  function Group(t: Table, rows: seq<Row>, cols: Columns, cfg: Config): Progress
  {
    if rows == [] then Progress(Ok([]), t, 0)
    else StepRow(Group(t, rows[..|rows| - 1], cols, cfg), rows[|rows| - 1], cols, cfg)
  }

  lemma StepRowSkipped(p: Progress, row: Row, cols: Columns, cfg: Config)
    requires !Truthy(Field(row, cols.name)) || !Truthy(Field(row, cols.issue))
    ensures StepRow(p, row, cols, cfg) == p
  {
  }

  lemma StepRowResolved(p: Progress, row: Row, cols: Columns, cfg: Config)
    requires p.result.Ok? && Truthy(Field(row, cols.name)) && Truthy(Field(row, cols.issue))
    ensures var r := Resolve(p.table, cfg.index, Field(row, cols.name), cfg.ratio, cfg.threshold, cfg.saveOk);
      && StepRow(p, row, cols, cfg).table == r.table
      && StepRow(p, row, cols, cfg).writes == p.writes + r.writes
      && (r.result.Err? ==> StepRow(p, row, cols, cfg).result == Err(r.result.error))
      && (r.result.Ok? ==>
            StepRow(p, row, cols, cfg).result
            == Ok(SetIssue(p.result.value, r.result.value, IssueColumnToDisplayName(StrOf(Field(row, cols.issue))),
                           TransformIssueValue(Field(row, cols.value)))))
  {
  }

  lemma GroupSnoc(t: Table, rows: seq<Row>, i: nat, cols: Columns, cfg: Config)
    requires i < |rows|
    ensures Group(t, rows[..i + 1], cols, cfg) == StepRow(Group(t, rows[..i], cols, cfg), rows[i], cols, cfg)
  {
    assert rows[..i + 1][..i] == rows[..i];
  }

  /** Rows whose name or issue column is falsy are skipped. */
  lemma GroupSkipsRow(t: Table, rows: seq<Row>, row: Row, cols: Columns, cfg: Config)
    requires !Truthy(Field(row, cols.name)) || !Truthy(Field(row, cols.issue))
    ensures Group(t, rows + [row], cols, cfg) == Group(t, rows, cols, cfg)
  {
    assert (rows + [row])[..|rows|] == rows;
  }

  /** A kept row sets the value of its (id, issue) pair, overwriting an
      earlier one, and leaves every other pair as it was. */
  lemma GroupLastWriteWins(t: Table, rows: seq<Row>, row: Row, cols: Columns, cfg: Config,
                           id': string, issue': string)
    requires Truthy(Field(row, cols.name)) && Truthy(Field(row, cols.issue))
    requires Group(t, rows, cols, cfg).result.Ok?
    requires Resolve(Group(t, rows, cols, cfg).table, cfg.index, Field(row, cols.name),
                     cfg.ratio, cfg.threshold, cfg.saveOk).result.Ok?
    ensures var p := Group(t, rows, cols, cfg);
      var id := Resolve(p.table, cfg.index, Field(row, cols.name), cfg.ratio, cfg.threshold, cfg.saveOk).result.value;
      var issue := IssueColumnToDisplayName(StrOf(Field(row, cols.issue)));
      var q := Group(t, rows + [row], cols, cfg);
      && q.result.Ok?
      && Stored(q.result.value, id', issue') ==
           if id' == id && issue' == issue then Some(TransformIssueValue(Field(row, cols.value)))
           else Stored(p.result.value, id', issue')
  {
    assert (rows + [row])[..|rows|] == rows;
    var p := Group(t, rows, cols, cfg);
    var id := Resolve(p.table, cfg.index, Field(row, cols.name), cfg.ratio, cfg.threshold, cfg.saveOk).result.value;
    StoredSetIssue(p.result.value, id, IssueColumnToDisplayName(StrOf(Field(row, cols.issue))),
                   TransformIssueValue(Field(row, cols.value)), id', issue');
  }

  /** The grouped result holds only -1, 0 and 1, and both of its levels are dicts. */
  lemma {:induction false} GroupInRange(t: Table, rows: seq<Row>, cols: Columns, cfg: Config)
    ensures var p := Group(t, rows, cols, cfg);
      p.result.Ok? ==> InRange(p.result.value) && WellFormed(p.result.value)
  {
    if rows != [] {
      var prev := Group(t, rows[..|rows| - 1], cols, cfg);
      GroupInRange(t, rows[..|rows| - 1], cols, cfg);
      var row := rows[|rows| - 1];
      if prev.result.Ok? && Truthy(Field(row, cols.name)) && Truthy(Field(row, cols.issue)) {
        var r := Resolve(prev.table, cfg.index, Field(row, cols.name), cfg.ratio, cfg.threshold, cfg.saveOk);
        if r.result.Ok? {
          SetIssueKeeps(prev.result.value, r.result.value, IssueColumnToDisplayName(StrOf(Field(row, cols.issue))),
                        TransformIssueValue(Field(row, cols.value)));
        }
      }
    }
  }

  /** The first exception ends the loop: later rows change nothing. */
  lemma {:induction false} GroupStopsAtError(t: Table, rows: seq<Row>, i: nat, cols: Columns, cfg: Config)
    requires i <= |rows| && Group(t, rows[..i], cols, cfg).result.Err?
    ensures Group(t, rows, cols, cfg) == Group(t, rows[..i], cols, cfg)
  {
    if i < |rows| {
      var n := |rows|;
      assert rows[..n - 1][..i] == rows[..i];
      GroupStopsAtError(t, rows[..n - 1], i, cols, cfg);
    } else {
      assert rows[..i] == rows;
    }
  }

  /** What the mapping file holds after the loop has made `writes` rewrites
      and reached `result`, starting from `before`: nothing changed without a
      rewrite; a failed rewrite leaves it unknown; otherwise it holds `t`. */
  ghost predicate FileAfter(f: Persisted, before: Persisted, t: Table, result: Result<Grouped>, writes: nat)
  {
    && (writes == 0 ==> f == before)
    && (writes > 0 ==> f == if result == Err(SaveFailed) then Indeterminate else Holds(t))
  }

  /** One row keeps `FileAfter`. */
  lemma FileAfterStep(before: Persisted, p: Progress, q: Progress, f: Persisted, f': Persisted)
    requires FileAfter(f, before, p.table, p.result, p.writes) && p.result.Ok?
    requires q.writes >= p.writes
    requires q.writes == p.writes ==> f' == f && q.table == p.table && q.result != Err(SaveFailed)
    requires q.writes > p.writes ==> f' == if q.result.Err? then Indeterminate else Holds(q.table)
    requires q.writes > p.writes && q.result.Err? ==> q.result == Err(SaveFailed)
    ensures FileAfter(f', before, q.table, q.result, q.writes)
  {
    if q.writes == p.writes {
      assert f' == f && q.table == p.table;
    }
  }

  // ---------------------------------------------------------------------
  // The pipeline object

  class PoliticianIssuesPipeline {
    const mapping: PoliticianMapping
    var politiciansIndex: Index

    ghost predicate Valid()
      reads this, mapping
    {
      mapping.Valid() && Dicts.DistinctKeys(politiciansIndex)
    }

    /** The constructor: the mapping table is loaded from its file, the
        index starts empty and is then loaded from the snapshot. */
    constructor (file: MappingFile, snap: Snapshot)
      ensures Valid() && fresh(mapping)
      ensures mapping.mappings == LoadedTable(file) && mapping.saves == 0
      ensures politiciansIndex == IndexAfterLoad(snap, [])
    {
      mapping := new PoliticianMapping(file);
      politiciansIndex := [];
      new;
      LoadPoliticiansIndex(snap);
    }

    /** `_load_politicians_index()` given what the read returns. */
    method LoadPoliticiansIndex(snap: Snapshot)
      requires Dicts.DistinctKeys(politiciansIndex)
      modifies this`politiciansIndex
      ensures politiciansIndex == IndexAfterLoad(snap, old(politiciansIndex))
      ensures Dicts.DistinctKeys(politiciansIndex)
    {
      if snap.Unavailable? {
        // the read raised; the handler logs and carries on
        return;
      }
      if snap.NonTree? && Truthy(snap.v) {
        // not a dict
        return;
      }
      // a falsy value reads as the empty dict
      var children := if snap.Tree? then snap.children else [];
      var index: Index := [];
      var i := 0;
      while i < |children|
        invariant 0 <= i <= |children|
        invariant index == BuildIndex(children[..i])
      {
        BuildIndexSnoc(children, i);
        var (id, payload) := children[i];
        if id != "" && payload.Record? {
          var name := ChosenName(payload.fields);
          if name.Str? && Text.Strip(name.s) != "" {
            index := Dicts.Upsert(index, NormalizePersonName(name.s), id);
          }
        }
        i := i + 1;
      }
      assert children[..i] == children;
      politiciansIndex := index;
    }

    /** `_best_fuzzy_politician_match(name, threshold)` */
    method BestFuzzyPoliticianMatch(name: string, ratio: Ratio, threshold: real) returns (id: Option<string>)
      ensures id == BestMatch(politiciansIndex, name, ratio, threshold)
    {
      var ix := politiciansIndex;
      if ix == [] {
        return None;
      }
      var q := NormalizePersonName(name);
      if q == "" {
        return None;
      }
      var exact := Dicts.Get(ix, q);
      if exact.Some? {
        return exact;
      }

      var bestId, bestScore := ScanIndex(ix, q, ratio);
      if bestId.Some? && bestId.value != "" && bestScore >= threshold {
        return bestId;
      }
      return None;
    }

    /** `get_or_create_politician_id(name)`. */
    method GetOrCreatePoliticianId(name: Value, ratio: Ratio, threshold: real, saveOk: bool)
      returns (result: Result<string>)
      requires Valid()
      modifies mapping
      ensures Valid()
      ensures var r := Resolve(old(mapping.mappings), politiciansIndex, name, ratio, threshold, saveOk);
        && result == r.result
        && mapping.mappings == r.table
        && mapping.saves == old(mapping.saves) + r.writes
        && (r.writes == 0 ==> mapping.persisted == old(mapping.persisted))
        && (r.writes > 0 ==> mapping.persisted == if result.Ok? then Holds(mapping.mappings) else Indeterminate)
    {
      ghost var t := mapping.mappings;
      // Strategy 1: the mapping table
      var first := mapping.GetPoliticianId(name, ratio, TierOneThreshold);
      if first.Some? && first.value != "" {
        return Ok(first.value);
      }
      if !name.Str? {
        // `.lower()` of the pipeline's normaliser raises
        return Err(NameNotAString);
      }

      // Strategy 2: the politicians index
      var second := BestFuzzyPoliticianMatch(name.s, ratio, threshold);
      if second.Some? && second.value != "" {
        assert Resolve(t, politiciansIndex, name, ratio, threshold, saveOk) == Recorded(t, name.s, second.value, saveOk);
        result := Record(name.s, second.value, saveOk);
        return;
      }

      // Strategy 3: the slug of the name
      var slug := SlugifyPersonName(name.s);
      assert Resolve(t, politiciansIndex, name, ratio, threshold, saveOk) == Recorded(t, name.s, slug, saveOk);
      result := Record(name.s, slug, saveOk);
    }

    /** Recording a tier-2 or tier-3 id in the mapping table, then returning it. */
    method Record(name: string, id: string, saveOk: bool) returns (result: Result<string>)
      requires Valid()
      modifies mapping
      ensures Valid()
      ensures var r := Recorded(old(mapping.mappings), name, id, saveOk);
        && result == r.result
        && mapping.mappings == r.table
        && mapping.saves == old(mapping.saves) + r.writes
        && (r.writes == 0 ==> mapping.persisted == old(mapping.persisted))
        && (r.writes > 0 ==> mapping.persisted == if result.Ok? then Holds(mapping.mappings) else Indeterminate)
    {
      var outcome := mapping.AddMapping(name, id, saveOk);
      result := if outcome.Pass? then Ok(id) else Err(outcome.error);
    }

    /** One iteration of the loop of `store_issues_in_firebase`, from the
        loop state `p`: the dict so far, or the exception that ends the loop. */
    method StoreRow(row: Row, cols: Columns, grouped: Grouped, ghost p: Progress,
                    ratio: Ratio, threshold: real, saveOk: bool)
      returns (grouped': Grouped, failure: Option<Failure>)
      requires Valid() && p.result == Ok(grouped) && p.table == mapping.mappings
      modifies mapping
      ensures Valid()
      ensures var q := StepRow(p, row, cols, Config(politiciansIndex, ratio, threshold, saveOk));
        && q.table == mapping.mappings
        && q.writes >= p.writes
        && mapping.saves == old(mapping.saves) + (q.writes - p.writes)
        && q.result == (if failure.Some? then Err(failure.value) else Ok(grouped'))
        && (q.writes == p.writes ==> mapping.mappings == old(mapping.mappings))
        && (q.writes == p.writes ==> mapping.persisted == old(mapping.persisted))
        && (q.writes > p.writes ==>
              mapping.persisted == if failure.Some? then Indeterminate else Holds(mapping.mappings))
        && (q.writes > p.writes && failure.Some? ==> failure.value == SaveFailed)
        && (q.result == Err(SaveFailed) ==> q.writes > p.writes)
    {
      ghost var cfg := Config(politiciansIndex, ratio, threshold, saveOk);
      var name := Field(row, cols.name);
      var issue := Field(row, cols.issue);
      var value := Field(row, cols.value);
      if !Truthy(name) || !Truthy(issue) {
        StepRowSkipped(p, row, cols, cfg);
        return grouped, None;
      }
      StepRowResolved(p, row, cols, cfg);
      ResolveEffect(p.table, cfg.index, name, ratio, threshold, saveOk);
      var id := GetOrCreatePoliticianId(name, ratio, threshold, saveOk);
      if id.Err? {
        return grouped, Some(id.error);
      }
      var issueName := IssueColumnToDisplayName(StrOf(issue));
      var v := TransformIssueValue(value);
      grouped' := SetIssue(grouped, id.value, issueName, v);
      failure := None;
    }

    /** The loop of `store_issues_in_firebase`: the nested dict, or the
        first exception, with the table and its rewrites as `Group` says. */
    method GroupRows(rows: seq<Row>, cols: Columns, ratio: Ratio, threshold: real, saveOk: bool)
      returns (res: Result<Grouped>)
      requires Valid()
      modifies mapping
      ensures Valid()
      ensures var p := Group(old(mapping.mappings), rows, cols, Config(politiciansIndex, ratio, threshold, saveOk));
        && res == p.result
        && mapping.mappings == p.table
        && mapping.saves == old(mapping.saves) + p.writes
        && (p.writes == 0 ==> mapping.persisted == old(mapping.persisted))
        && (p.writes > 0 ==>
              mapping.persisted == if p.result == Err(SaveFailed) then Indeterminate else Holds(mapping.mappings))
    {
      ghost var cfg := Config(politiciansIndex, ratio, threshold, saveOk);
      ghost var t0 := mapping.mappings;
      var grouped: Grouped := [];
      var failure: Option<Failure> := None;
      var i := 0;
      ghost var p := Progress(Ok([]), t0, 0);
      while i < |rows| && failure.None?
        invariant 0 <= i <= |rows|
        invariant Valid()
        invariant p == Group(t0, rows[..i], cols, cfg)
        invariant p.result == if failure.Some? then Err(failure.value) else Ok(grouped)
        invariant p.table == mapping.mappings
        invariant mapping.saves == old(mapping.saves) + p.writes
        invariant FileAfter(mapping.persisted, old(mapping.persisted), mapping.mappings, p.result, p.writes)
      {
        GroupSnoc(t0, rows, i, cols, cfg);
        ghost var q := StepRow(p, rows[i], cols, cfg);
        ghost var f := mapping.persisted;
        grouped, failure := StoreRow(rows[i], cols, grouped, p, ratio, threshold, saveOk);
        FileAfterStep(old(mapping.persisted), p, q, f, mapping.persisted);
        p := q;
        i := i + 1;
      }
      if failure.Some? {
        GroupStopsAtError(t0, rows, i, cols, cfg);
        return Err(failure.value);
      }
      assert rows[..i] == rows;
      return Ok(grouped);
    }

    /** `store_issues_in_firebase(rows, ...)`: the grouped dict and the path
        it is written to, or the exception that stopped the run. `setOk`
        says whether the remote store accepts the write. */
    method StoreIssuesInFirebase(rows: seq<Row>, cols: Columns, rootPath: string,
                                 ratio: Ratio, threshold: real, saveOk: bool, setOk: bool)
      returns (r: Result<(string, Grouped)>)
      requires Valid()
      modifies mapping
      ensures Valid()
      ensures var p := Group(old(mapping.mappings), rows, cols, Config(politiciansIndex, ratio, threshold, saveOk));
        && mapping.mappings == p.table
        && mapping.saves == old(mapping.saves) + p.writes
        && r == (match p.result
                 case Err(e) => Err(e)
                 case Ok(g) => if setOk then Ok((RootPath(rootPath), g)) else Err(WriteFailed))
        && (p.writes == 0 ==> mapping.persisted == old(mapping.persisted))
        && (p.writes > 0 ==>
              mapping.persisted == if p.result == Err(SaveFailed) then Indeterminate else Holds(mapping.mappings))
    {
      var grouped := GroupRows(rows, cols, ratio, threshold, saveOk);
      if grouped.Err? {
        return Err(grouped.error);
      }
      // overwrite the whole path
      var path := RootPath(rootPath);
      if !setOk {
        return Err(WriteFailed);
      }
      return Ok((path, grouped.value));
    }
  }

  /** The scoring loop of `_best_fuzzy_politician_match`: the first candidate
      whose score strictly beats the best so far, starting from 0. */
  method ScanIndex(ix: Index, q: string, ratio: Ratio) returns (bestId: Option<string>, bestScore: real)
    ensures var scores := IndexScores(ix, q, ratio);
      var k := Ranking.FirstBest(scores, 0.0);
      && bestId == (if k.Some? then Some(ix[k.value].1) else None)
      && bestScore == Ranking.ScoreOf(scores, k)
  {
    ghost var scores := IndexScores(ix, q, ratio);
    bestId := None;
    bestScore := 0.0;
    var qTok := Tokens.TokenSortKey(q);
    var i := 0;
    while i < |ix|
      invariant 0 <= i <= |ix|
      invariant var k := Ranking.FirstBest(scores[..i], 0.0);
        && bestId == (if k.Some? then Some(ix[k.value].1) else None)
        && bestScore == Ranking.ScoreOf(scores[..i], k)
      invariant bestScore >= 0.0
    {
      var (cand, candId) := ix[i];
      var raw := ratio(q, cand);
      var tok := ratio(qTok, Tokens.TokenSortKey(cand));
      var score := Max(raw, tok);
      assert score == scores[i];
      Ranking.FirstBestStep(scores, i, 0.0);
      if score > bestScore {
        bestScore := score;
        bestId := Some(candId);
      }
      i := i + 1;
    }
    assert scores[..i] == scores;
  }
}
