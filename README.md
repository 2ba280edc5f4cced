# Politician identity resolution, modelled in Dafny

This project models the part of the politician-issues pipeline that turns a
politician's display name into a stable identity key, and the loop that
groups the issue rows by that key. It covers two Python files:

- `politician_mapping.py`, the persisted name-to-id mapping table. It
  holds a name normaliser, the exact-then-fuzzy lookup, `add_mapping`
  with its file rewrite, and the load of the JSON file.
- `pipeline.py`, the pipeline object. It holds the second name
  normaliser and the slug built from it, the index of politicians read
  from the remote store and the fuzzy match against it, and the
  three-tier `get_or_create_politician_id`. It also holds the pure
  transforms of `store_issues_in_firebase`: the value classifier, the
  column display names, the grouping into `id -> issue -> value` and the
  path normalisation.

Modules:

- `Wrappers` and `Values` (wrappers.dfy): `Option`, `Result`, the
  exceptions, and Python's dynamic values with their truthiness.
- `Text` (text.dfy): the `str` builtins the core uses, on ASCII text.
- `Tokens` and `Similarity` (tokens.dfy): the token-sort key and the
  abstract `SequenceMatcher` ratio.
- `Dicts` and `Ranking` (dicts.dfy): an insertion-ordered Python dict as
  a sequence of pairs, and the "first strictly better score" search
  that both fuzzy loops perform.
- `Mapping` (mapping.dfy): `politician_mapping.py`, with the class
  `PoliticianMapping`.
- `PersonNames` (persons.dfy): `_normalize_person_name` and
  `_slugify_person_name`.
- `PoliticiansIndex` (index.dfy): `_load_politicians_index` as a
  function of the snapshot, and `_best_fuzzy_politician_match`.
- `Issues` (issues.dfy): `transform_issue_value`,
  `_issue_column_to_display_name`, the nested dict and the root path.
- `Pipeline` (pipeline.py's resolver and loop, pipeline.dfy):
  `Resolve` (the three tiers as a function), `Group` (the loop as a
  fold), and the class `PoliticianIssuesPipeline`. Its methods are
  proved against those functions.

Each loop of the source keeps its loop in a method: the two scans of
`get_politician_id`, the index build, the fuzzy scan of the index and the
row loop. That method is proved equal to a specification function, and
the properties are lemmas about the function.

The outside world becomes parameters:

- `ratio: Ratio` is `SequenceMatcher(...).ratio()`: any function into
  [0, 1].
- `saveOk` says whether the file system lets a rewrite of the mapping
  file through.
- `setOk` says whether the remote store accepts the final write.
- `MappingFile` is what `_load_mappings` finds on disk.
- `Snapshot` is what the read of the politicians path returns.
- `threshold` is the tier-2 threshold that `get_or_create_politician_id`
  reads from the environment.

The mapping object has two ghost fields, `persisted` and `saves`. They
record what the file on disk is known to hold and how many rewrites
were attempted.

Points where the code's behaviour is easy to misread:

- The mapping lookup of tier 1 is always called with its default 0.90;
  the threshold is not configurable at the call site.
- Both normalisers turn an apostrophe into a space. So "O'Brien, Jr."
  normalises to "o brien", not to the same form as "obrien".
- A name that is not a string gets `""` from `_normalize_name`. Tier 1
  can therefore still hit on a stored name that normalises to `""`.
  Otherwise the `.lower()` of the pipeline's normaliser raises, which
  is modelled as `Err(NameNotAString)`.
- A snapshot that is truthy but not a dict returns early, so the index
  keeps its previous value (empty at start-up). A falsy snapshot reads
  as an empty dict and gives the empty index. A read that raises is
  caught and also leaves the index as it was.
- The two normalisers differ. Only the mapping table's normaliser drops
  `mr`, `mrs`, `ms` and `dr`, and it replaces every character outside
  `[a-z\s-]` with a space, so "o3brien" becomes "o brien". The
  pipeline's normaliser keeps digits and other characters.

## Model

| member | source | states |
|---|---|---|
| Mapping.PoliticianMapping.constructor | politician_mapping.py:28-54 | the table is the file's JSON object when it parses, and empty when the file is missing, its read raises an I/O error, or its content is not valid JSON; no rewrite has happened |
| Mapping.FromPairs | politician_mapping.py:47-48 | loading a JSON object gives a table with distinct keys |
| Mapping.FromPairsLastWins | politician_mapping.py:47-48 | the last occurrence of a key in the file decides its value |
| Mapping.FromPairsHasKey | politician_mapping.py:47-48 | a key is in the loaded table exactly when it occurs in the file |
| Mapping.PoliticianMapping.SaveMappings | politician_mapping.py:56-64 | a rewrite is counted; on success the file holds the current table, on failure its content is unknown and the error propagates |
| Mapping.PoliticianMapping.GetPoliticianId | politician_mapping.py:80-104 | the result is `Lookup` of the current table; a falsy name gives nothing; the table is not changed |
| Mapping.ExactScan | politician_mapping.py:86-89 | the loop finds the first stored name whose normal form equals the query's, or none |
| Mapping.FuzzyScan | politician_mapping.py:91-104 | the loop returns the id of the first-best entry among those scoring at least the threshold, or none |
| Mapping.LookupExactWins | politician_mapping.py:86-89 | the first exact hit after normalisation decides, whatever the scores and the threshold |
| Mapping.LookupFuzzy | politician_mapping.py:91-104 | without an exact hit: nothing exactly when no entry at or above the threshold scores above 0, otherwise the id of the first entry with the highest score |
| Mapping.LookupDrawnFromTable | politician_mapping.py:80-104 | every id the lookup returns is a value of the table |
| Mapping.PoliticianMapping.AddMapping | politician_mapping.py:114-120 | an empty name or id changes nothing; otherwise the name maps to the id, every other key keeps its value, the file is rewritten once, and a failed rewrite raises after the in-memory update |
| Mapping.PoliticianMapping.GetAllMappings | politician_mapping.py:196 | the copy equals the table and has distinct keys |
| Mapping.NormalizeNameOf | politician_mapping.py:138-139 | a value that is not a string normalises to `""` |
| Mapping.CleanedChars | politician_mapping.py:140-143 | only lower-case letters and whitespace are left before the split |
| Mapping.NormalizeNameShape | politician_mapping.py:138-153 | the normal form is single-space-separated lower-case letter tokens, trimmed, with no title or suffix token |
| Mapping.NormalizeNameIdempotent | politician_mapping.py:138-153 | normalising twice is normalising once |
| Mapping.NameSimilarityBounds | politician_mapping.py:183-187 | the score is in [0, 1], 0 when either side is empty, otherwise the larger of the plain and the token-sorted ratio |
| Mapping.SimilarityOrderInsensitive | politician_mapping.py:183-187 | names with the same words in a different order score at least the ratio of their common token key against itself |
| Tokens.TokenSortKeyTokens | politician_mapping.py:165-167 | the key's tokens are the input's tokens, sorted, as a permutation |
| Tokens.TokenSortKeyIdempotent | pipeline.py:328-330 | the key of a key is the key |
| Tokens.TokenSortKeyOrderInsensitive | pipeline.py:328-330 | inputs with the same multiset of tokens have the same key |
| Tokens.SortWordsSorted | politician_mapping.py:166 | the token sort yields a sorted list |
| Tokens.SortWords | politician_mapping.py:166 | the token sort yields a permutation of its input, of the same length |
| Tokens.SortedUnique | politician_mapping.py:166 | two sorted lists with the same elements are equal, so the sorted order is determined by the tokens alone |
| Dicts.GetUpsert | politician_mapping.py:118 | after `d[k] = v`, `k` maps to `v` and every other key to its old value |
| Dicts.UpsertKeepsDistinct | politician_mapping.py:118 | assignment keeps the keys distinct |
| Dicts.UpsertNew | politician_mapping.py:118 | assigning a new key appends the pair at the end |
| Dicts.AssignAllLastWins | pipeline.py:129-139 | in a loop of assignments, the last one to a key decides its value |
| Dicts.AssignAllHasKey | pipeline.py:129-139 | a key is present exactly when some step assigned it |
| Ranking.FirstBestSpec | politician_mapping.py:95-99 | the "strictly better and at least the floor" loop finds nothing exactly when no score at or above the floor is positive, and otherwise the first maximal one |
| Ranking.IsFirstBestUnique | pipeline.py:177-183 | the first-best candidate is unique |
| PersonNames.NormalizePersonNameShape | pipeline.py:311-316 | the normal form is lower-case, free of `, . ' -`, single-space-separated tokens, trimmed, with no suffix or title token |
| PersonNames.NormalizePersonNameIdempotent | pipeline.py:311-316 | normalising twice is normalising once |
| PersonNames.SlugShape | pipeline.py:342-343 | the slug is the normal form with spaces turned into underscores; it has no whitespace and is empty exactly when the normal form is |
| PersonNames.SlugOfNormalForm | pipeline.py:342-343 | names that normalise alike get the same generated id |
| PersonNames.SlugExample | pipeline.py:342-343 | "Robert A. Smith Jr." normalises to "robert a smith" and gets the id "robert_a_smith" |
| PoliticiansIndex.FirstTruthyPicksFirst | pipeline.py:132-137 | the `or` chain yields the first truthy value |
| PoliticiansIndex.FirstTruthyNone | pipeline.py:132-137 | with no truthy value the chain yields the last one |
| PoliticiansIndex.ChosenNamePriority | pipeline.py:132-137 | the first truthy name field is the one used |
| PoliticiansIndex.BlankNameSuppresses | pipeline.py:132-138 | a whitespace-only `name` is chosen over a usable `full_name`, and the record is skipped |
| PoliticiansIndex.SkippedChildren | pipeline.py:130-131 | a child with an empty id or a payload that is not a dict is skipped |
| PoliticiansIndex.BuildIndex | pipeline.py:128-141 | the built index has distinct keys |
| PoliticiansIndex.BuildIndexLastWins | pipeline.py:139 | a child not overwritten by a later one decides its key |
| PoliticiansIndex.BuildIndexHasKey | pipeline.py:128-139 | a normalised name is a key exactly when some child assigns it |
| PoliticiansIndex.BuildIndexProvenance | pipeline.py:128-139 | every entry comes from a child of the snapshot, and every id is non-empty |
| PoliticiansIndex.NonTreeGivesEmpty | pipeline.py:123-126 | at start-up, a snapshot that is not a dict leaves the index empty |
| PoliticiansIndex.IndexScoreOrderInsensitive | pipeline.py:176-180 | a candidate with the query's words in another order scores at least the ratio of the query's token key against itself |
| PoliticiansIndex.FuzzyPickSpec | pipeline.py:173-188 | the scan keeps the first candidate with the highest positive score; its id is returned only when non-empty and at or above the threshold |
| PoliticiansIndex.BestMatchNothing | pipeline.py:162-167 | an empty index, or a name that normalises to nothing, matches nothing |
| PoliticiansIndex.BestMatchExact | pipeline.py:169-171 | a normalised name that is a key is answered from the index, whatever the scores |
| PoliticiansIndex.BestMatchFuzzy | pipeline.py:173-188 | without an exact key the result is the first-best candidate's id, if non-empty and at or above the threshold, and nothing when no score is positive |
| PoliticiansIndex.BestMatchFromIndex | pipeline.py:162-188 | a match is always an id of the index, and a non-empty one when every id is |
| Pipeline.PoliticianIssuesPipeline.constructor | pipeline.py:47-55 | the mapping table is loaded from its file and the index from the snapshot, starting from empty |
| Pipeline.PoliticianIssuesPipeline.LoadPoliticiansIndex | pipeline.py:121-145 | the index becomes `IndexAfterLoad` of the snapshot and the old index, and keeps distinct keys |
| Pipeline.PoliticianIssuesPipeline.BestFuzzyPoliticianMatch | pipeline.py:162-188 | the result is `BestMatch` of the current index |
| Pipeline.ScanIndex | pipeline.py:173-183 | the loop ends with the first-best candidate (floor 0) and its score |
| Pipeline.PoliticianIssuesPipeline.GetOrCreatePoliticianId | pipeline.py:233-254 | the result, the new table, the number of rewrites and what the file holds are those of `Resolve` |
| Pipeline.PoliticianIssuesPipeline.Record | pipeline.py:243-245 | recording an id is `add_mapping` on the table and returns the id, or the save error |
| Pipeline.ResolveTierOne | pipeline.py:234-237 | an id from the mapping table is returned at once and nothing is written |
| Pipeline.ResolveTierTwo | pipeline.py:239-245 | without a tier-1 id, a tier-2 match is recorded under the raw name with one rewrite, and returned unless the rewrite fails |
| Pipeline.ResolveFallback | pipeline.py:247-254 | without either, the slug is the id; it is recorded, with one rewrite, when name and slug are non-empty, and a failed rewrite raises instead of returning it |
| Pipeline.ResolveEffect | pipeline.py:233-254 | at most one rewrite; a rewrite records a non-empty id under the raw name; each exception arises only in its own circumstances |
| Pipeline.ResolveKeepsIds | pipeline.py:233-254 | resolution never stores an empty id |
| Pipeline.NoTierOneHit | politician_mapping.py:86-89 | over a table of non-empty ids, tier 1 misses only when no stored name normalises like the query |
| Pipeline.ResolveWithoutWrite | pipeline.py:233-254 | a resolution that writes nothing does not depend on the file system |
| Pipeline.TierOneFindsRecorded | politician_mapping.py:86-89 | a name just appended is found again by the exact scan |
| Pipeline.RecordAppends | politician_mapping.py:118 | recording a name no key normalises like appends it |
| Pipeline.ResolveTwice | pipeline.py:233-254 | resolving the same name again returns the same id and writes nothing, when the table holds no empty id |
| Pipeline.StepRowSkipped | pipeline.py:449-450 | a row with a falsy name or issue leaves the state unchanged |
| Pipeline.StepRowResolved | pipeline.py:452-462 | a kept row resolves its name and, on success, stores the transformed value under the display name of its issue |
| Pipeline.GroupSkipsRow | pipeline.py:449-450 | appending a skipped row changes nothing |
| Pipeline.GroupLastWriteWins | pipeline.py:453-462 | a kept row sets its (id, issue) pair, overwriting an earlier value, and leaves every other pair unchanged |
| Pipeline.GroupInRange | pipeline.py:444-462 | the grouped dict holds only -1, 0 and 1, and both of its levels have distinct keys |
| Pipeline.GroupStopsAtError | pipeline.py:453 | the first exception ends the loop, so later rows change nothing |
| Pipeline.PoliticianIssuesPipeline.StoreRow | pipeline.py:445-462 | one loop iteration does what `StepRow` says to the dict, the table and the rewrites; the file is unchanged without a rewrite, holds the table after a successful one, and is unknown after a failed one |
| Pipeline.PoliticianIssuesPipeline.GroupRows | pipeline.py:442-462 | the loop's dict or exception, table and rewrites are those of `Group`; after any rewrite the file holds the final table, unless the run ended on a failed rewrite, which leaves it unknown |
| Pipeline.PoliticianIssuesPipeline.StoreIssuesInFirebase | pipeline.py:442-474 | the run's result is the grouped dict written at the normalised path; otherwise it is the first exception, or the failed write; the table, the rewrites and the file are as for `GroupRows` |
| Issues.TransformIssueValue | pipeline.py:271-293 | the result is -1, 0 or 1, and is non-zero only for strings, numbers and booleans |
| Issues.TransformString | pipeline.py:275-282 | a string gives 1 exactly for the pro words, -1 exactly for the anti words, and 0 otherwise |
| Issues.TransformNumber | pipeline.py:285-291 | a number gives its sign |
| Issues.TransformOther | pipeline.py:271-293 | `None`, and any value that is neither a string nor a number, give 0 |
| Issues.TransformIgnoresPadding | pipeline.py:276 | surrounding whitespace does not change a string's classification |
| Issues.TransformIgnoresCase | pipeline.py:276 | letter case does not change a string's classification |
| Issues.TitleWordsTitled | pipeline.py:371-372 | the generic conversion is the character-by-character title casing |
| Issues.TitledAt | pipeline.py:371-372 | at each position: a space for an underscore, otherwise the character, upper-cased at a word start and lower-cased elsewhere |
| Issues.TitledShape | pipeline.py:371-372 | the conversion keeps the length and leaves no underscore; the spaces of the result are the underscores and the spaces of the input |
| Issues.DisplayNameGeneric | pipeline.py:367-372 | a column that is not special gets the title-cased form, with no underscore and the same length |
| Issues.DisplayNameSpecial | pipeline.py:359-368 | a special column gets its fixed name, which has no underscore |
| Issues.SpecialNamesPlain | pipeline.py:359-366 | no fixed display name contains an underscore |
| Issues.DisplayNameExamples | pipeline.py:359-368 | "DEI" stays "DEI", and "ABORTION_REPRODUCTIVE_RIGHTS" becomes "Abortion & Reproductive Rights" |
| Issues.StoredSetIssue | pipeline.py:455-462 | the last write to an (id, issue) pair wins and every other pair is unchanged |
| Issues.SetIssueKeeps | pipeline.py:455-462 | storing a value in -1..1 keeps the dict in range and both levels with distinct keys |
| Issues.RootPathShape | pipeline.py:465-467 | the path starts with `/`, has no surrounding whitespace, and normalising it again changes nothing |

## Left out

- Connections, credentials and environment: the database connections,
  `_init_snowflake`, `_init_firebase`, `load_dotenv` and `sys.exit` are
  left out because they are I/O. The environment variables become
  parameters: the politicians path, through the snapshot it yields,
  and the tier-2 threshold.
- `fetch_politician_issues_from_snowflake`, `run`, `close` and `main` are
  left out as I/O. The rows reach the model as a parameter.
- `build_unpivot_query` is left out because it only builds a string and
  the query is outside the core.
- `SequenceMatcher`'s algorithm is not modelled. The ratio is a
  parameter, and nothing is assumed about it beyond its range.
- Mapping.PoliticianMapping.constructor: a mapping file whose bytes do
  not decode as text (a Latin-1 "Peña", say) makes `json.load` raise
  `UnicodeDecodeError`. That exception is not caught, so it escapes
  both constructors. The model has no such case: `Unreadable` stands
  only for the I/O error and the invalid JSON that the source catches.
- JSON parsing and file access are not modelled: the mapping file is
  given as what the parse yields. A file whose JSON is not an object,
  or whose values are not strings, is not modelled.
- Logging is left out.
- Floats, NaN and non-ASCII text are not modelled. Numbers are
  integers, and `lower`, `upper`, `strip` and `split` follow their
  ASCII behaviour.
- `saveOk` is one per call of `GetOrCreatePoliticianId`, `AddMapping`
  and `SaveMappings`. The ghost `persisted` records only the last
  rewrite.
- Pipeline.PoliticianIssuesPipeline.GroupRows and
  Pipeline.PoliticianIssuesPipeline.StoreIssuesInFirebase: a run is
  modelled with one uniform file-system behaviour. With `saveOk` false
  the first rewrite of the run raises. A run in which early rewrites
  succeed and a later one raises is not modelled.
- Pipeline.ResolveTwice requires every stored id to be non-empty
  (`IdsNonEmpty`). The pipeline itself never stores an empty id
  (`ResolveKeepsIds`), but a loaded file may hold one. Take `{"A": ""}`
  and the name "a": tier 1 returns `""`, the truthiness test at
  pipeline.py:236 fails, and every call goes on to tier 3 and rewrites
  the file. Re-resolving without a write is not promised for such a
  table.
- Pipeline.Resolve: for a name that is not a string, the model raises
  before tier 2 even when the index is empty. The source then raises
  at tier 3 instead; the outcome is the same.
- Pipeline.PoliticianIssuesPipeline.StoreIssuesInFirebase: the remote
  write is modelled as the pair (path, dict) and a success flag. What
  the remote store then holds is not modelled.
- Concurrency and repeated initialisation of the remote SDK are not
  modelled.
