/** The pure transforms of the issues pipeline (pipeline.py): the issue-value
    classifier, the column-name-to-display-name conversion, the nested
    `politician id -> issue -> value` dict the rows are grouped into, and the
    normalisation of the path it is written to. */
module Issues {
  import opened Wrappers
  import opened Values
  import opened Text
  import Dicts

  // ---------------------------------------------------------------------
  // transform_issue_value

  const ProWords: seq<string> := ["pro", "1", "yes", "support", "for"]
  const AntiWords: seq<string> := ["anti", "-1", "no", "oppose", "against"]

  /** `transform_issue_value(value)`. Python's `bool` is an `int`, so `True`
      counts as 1 and `False` as 0. */
  function TransformIssueValue(v: Value): (r: int)
    ensures -1 <= r <= 1
    ensures r != 0 ==> v.Str? || v.Int? || v.Bool?
  {
    match v
    case Null => 0
    case Str(s) =>
      var w := Strip(Lower(s));
      if w in ProWords then 1 else if w in AntiWords then -1 else 0
    case Int(i) => if i > 0 then 1 else if i < 0 then -1 else 0
    case Bool(b) => if b then 1 else 0
    case Object(_, _) => 0
  }

  /** Strings are classified by their lower-cased, stripped form; no word is
      both for and against, so the order of the two tests is immaterial. */
  lemma TransformString(s: string)
    ensures var w := Strip(Lower(s));
      && (TransformIssueValue(Str(s)) == 1 <==> w in ProWords)
      && (TransformIssueValue(Str(s)) == -1 <==> w in AntiWords)
      && (TransformIssueValue(Str(s)) == 0 <==> w !in ProWords && w !in AntiWords)
  {
    var w := Strip(Lower(s));
    if w in ProWords {
      assert w !in AntiWords;
    }
  }

  /** A number gives its sign. */
  lemma TransformNumber(i: int)
    ensures var r := TransformIssueValue(Int(i));
      (r == 0 <==> i == 0) && r * i >= 0
  {
  }

  /** `None` and values that are neither strings nor numbers give 0. */
  lemma TransformOther(v: Value)
    requires v.Null? || v.Object?
    ensures TransformIssueValue(v) == 0
  {
  }

  lemma LowerAppend(a: string, b: string)
    ensures Lower(a + b) == Lower(a) + Lower(b)
  {
  }

  lemma LowerSpaces(s: string)
    requires forall i :: 0 <= i < |s| ==> IsSpace(s[i])
    ensures forall i :: 0 <= i < |Lower(s)| ==> IsSpace(Lower(s)[i])
  {
  }

  /** Whitespace around a string value does not change its classification. */
  lemma TransformIgnoresPadding(pre: string, s: string, post: string)
    requires forall i :: 0 <= i < |pre| ==> IsSpace(pre[i])
    requires forall i :: 0 <= i < |post| ==> IsSpace(post[i])
    ensures TransformIssueValue(Str(pre + s + post)) == TransformIssueValue(Str(s))
  {
    LowerAppend(pre + s, post);
    LowerAppend(pre, s);
    LowerSpaces(pre);
    LowerSpaces(post);
    StripPadded(Lower(pre), Lower(s), Lower(post));
  }

  lemma LowerUpper(s: string)
    ensures Lower(Upper(s)) == Lower(s)
  {
  }

  /** Neither does letter case. */
  lemma TransformIgnoresCase(s: string)
    ensures TransformIssueValue(Str(Upper(s))) == TransformIssueValue(Str(s))
  {
    LowerUpper(s);
  }

  // ---------------------------------------------------------------------
  // _issue_column_to_display_name

  /** The columns whose display names are written out. */
  const SpecialColumns: seq<(string, string)> := [
    ("ABORTION_REPRODUCTIVE_RIGHTS", "Abortion & Reproductive Rights"),
    ("ENVIRONMENT_REGULATIONS_RENEWABLE_ENERGY", "Environment Regulations & Renewable Energy"),
    ("SOCIAL_SECURITY_MEDICARE_EXPANSION", "Social Security & Medicare Expansion"),
    ("LGBTQ_RIGHTS", "LGBTQ Rights"),
    ("DEI", "DEI"),
    ("ISRAEL", "Israel")
  ]

  /** `p.capitalize()`: the first character upper-cased, the rest lower-cased. */
  function Capitalize(p: string): string
  {
    if p == "" then "" else [UpperChar(p[0])] + Lower(p[1..])
  }

  function Caps(ps: seq<string>): (cs: seq<string>)
    ensures |cs| == |ps|
  {
    seq(|ps|, i requires 0 <= i < |ps| => Capitalize(ps[i]))
  }

  /** The generic conversion: the parts between underscores, each
      capitalised, joined with single spaces. */
  function TitleWords(col: string): string
  {
    JoinWith(Caps(SplitOn(col, '_')), ' ')
  }

  /** `_issue_column_to_display_name(col)` */
  function IssueColumnToDisplayName(col: string): string
  {
    match Dicts.Get(SpecialColumns, col)
    case Some(name) => name
    case None => TitleWords(col)
  }

  /** The generic conversion, character by character: an underscore becomes a
      space, the character after an underscore (or the first one, when
      `atStart`) is upper-cased, every other one lower-cased. */
  function Titled(s: string, atStart: bool): (r: string)
    ensures |r| == |s|
  {
    if s == [] then []
    else
      var c := if s[0] == '_' then ' ' else if atStart then UpperChar(s[0]) else LowerChar(s[0]);
      [c] + Titled(s[1..], s[0] == '_')
  }

  /** `Capitalize` at a word start, `Lower` inside a word. */
  function CapWith(p: string, atStart: bool): string
  {
    if atStart then Capitalize(p) else Lower(p)
  }

  lemma JoinConsChar(x: char, w: string, tail: seq<string>)
    ensures JoinWith([[x] + w] + tail, ' ') == [x] + JoinWith([w] + tail, ' ')
  {
    if tail != [] {
      assert ([[x] + w] + tail)[1..] == tail;
      assert ([w] + tail)[1..] == tail;
    }
  }

  lemma CapsCons(p: string, ps: seq<string>)
    ensures Caps([p] + ps) == [Capitalize(p)] + Caps(ps)
  {
  }

  lemma {:induction false} TitledSplit(s: string, atStart: bool)
    ensures var ps := SplitOn(s, '_');
      JoinWith([CapWith(ps[0], atStart)] + Caps(ps[1..]), ' ') == Titled(s, atStart)
  {
    var ps := SplitOn(s, '_');
    if s == [] {
    } else if s[0] == '_' {
      var qs := SplitOn(s[1..], '_');
      TitledSplit(s[1..], true);
      assert ps == [""] + qs;
      assert ps[1..] == qs;
      assert CapWith(ps[0], atStart) == "";
      CapsCons(qs[0], qs[1..]);
      assert [qs[0]] + qs[1..] == qs;
      var cs := Caps(qs);
      assert ([""] + cs)[1..] == cs;
      assert JoinWith([""] + cs, ' ') == [' '] + JoinWith(cs, ' ');
    } else {
      var rest := SplitOn(s[1..], '_');
      TitledSplit(s[1..], false);
      assert ps == [[s[0]] + rest[0]] + rest[1..];
      var x := if atStart then UpperChar(s[0]) else LowerChar(s[0]);
      assert ([s[0]] + rest[0])[1..] == rest[0];
      assert CapWith([s[0]] + rest[0], atStart) == [x] + Lower(rest[0]);
      JoinConsChar(x, Lower(rest[0]), Caps(rest[1..]));
    }
  }

  /** The generic conversion is the character-by-character one. */
  lemma TitleWordsTitled(col: string)
    ensures TitleWords(col) == Titled(col, true)
  {
    var ps := SplitOn(col, '_');
    TitledSplit(col, true);
    CapsCons(ps[0], ps[1..]);
    assert [ps[0]] + ps[1..] == ps;
  }

  /** At each position: a space for an underscore, otherwise the character,
      upper-cased at the start of a word and lower-cased elsewhere. */
  lemma {:induction false} TitledAt(s: string, atStart: bool, i: nat)
    requires i < |s|
    ensures Titled(s, atStart)[i] ==
      if s[i] == '_' then ' '
      else if (if i == 0 then atStart else s[i - 1] == '_') then UpperChar(s[i])
      else LowerChar(s[i])
  {
    if i > 0 {
      TitledAt(s[1..], s[0] == '_', i - 1);
      assert s[1..][i - 1] == s[i];
      if i > 1 {
        assert s[1..][i - 2] == s[i - 1];
      }
    }
  }

  /** The generic conversion keeps the length, leaves no underscore, and
      turns each underscore into a space. */
  lemma {:induction false} TitledShape(s: string, atStart: bool)
    ensures |Titled(s, atStart)| == |s|
    ensures '_' !in Titled(s, atStart)
    ensures Count(Titled(s, atStart), ' ') == Count(s, '_') + Count(s, ' ')
  {
    if s != [] {
      TitledShape(s[1..], s[0] == '_');
      var r := Titled(s, atStart);
      assert r[1..] == Titled(s[1..], s[0] == '_');
    }
  }

  /** The display name of a column that is not special has no underscore and
      a space for each underscore of the column name. */
  lemma DisplayNameGeneric(col: string)
    requires Dicts.Get(SpecialColumns, col).None?
    ensures IssueColumnToDisplayName(col) == Titled(col, true)
    ensures '_' !in IssueColumnToDisplayName(col)
    ensures |IssueColumnToDisplayName(col)| == |col|
    ensures Count(IssueColumnToDisplayName(col), ' ') == Count(col, '_') + Count(col, ' ')
  {
    TitleWordsTitled(col);
    TitledShape(col, true);
  }

  /** The special columns have their fixed names, which have no underscore either. */
  lemma DisplayNameSpecial(col: string)
    requires Dicts.Get(SpecialColumns, col).Some?
    ensures (col, IssueColumnToDisplayName(col)) in SpecialColumns
    ensures '_' !in IssueColumnToDisplayName(col)
  {
    GetIn(SpecialColumns, col);
    SpecialNamesPlain();
  }

  /** No character of `s` is an underscore. */
  predicate NoUnderscore(s: string)
  {
    forall j | 0 <= j < |s| :: s[j] != '_'
  }

  lemma AbortionNamePlain()
    ensures NoUnderscore(SpecialColumns[0].1)
  {
    assert SpecialColumns[0].1 == "Abortion & Reproductive Rights";
  }

  lemma EnvironmentNamePlain()
    ensures NoUnderscore(SpecialColumns[1].1)
  {
    assert SpecialColumns[1].1 == "Environment Regulations & Renewable Energy";
  }

  lemma SocialSecurityNamePlain()
    ensures NoUnderscore(SpecialColumns[2].1)
  {
    assert SpecialColumns[2].1 == "Social Security & Medicare Expansion";
  }

  lemma SpecialNamePlainAt(i: nat)
    requires i < |SpecialColumns|
    ensures '_' !in SpecialColumns[i].1
  {
    if i == 0 {
      AbortionNamePlain();
    } else if i == 1 {
      EnvironmentNamePlain();
    } else if i == 2 {
      SocialSecurityNamePlain();
    }
  }

  lemma SpecialNamesPlain()
    ensures forall p :: p in SpecialColumns ==> '_' !in p.1
  {
    forall p | p in SpecialColumns ensures '_' !in p.1 {
      var i :| 0 <= i < |SpecialColumns| && SpecialColumns[i] == p;
      SpecialNamePlainAt(i);
    }
  }

  /** Two special columns: the acronym kept as is, and the `&` phrasing. */
  lemma DisplayNameExamples()
    ensures IssueColumnToDisplayName("DEI") == "DEI"
    ensures IssueColumnToDisplayName("ABORTION_REPRODUCTIVE_RIGHTS") == "Abortion & Reproductive Rights"
  {
  }

  // ---------------------------------------------------------------------
  // Grouping in store_issues_in_firebase

  /** Issue display name to issue value, for one politician. */
  type IssueMap = seq<(string, int)>

  /** Politician id to that politician's issues. */
  type Grouped = seq<(string, IssueMap)>

  /** The value stored for `(id, issue)`, if any. */
  function Stored(g: Grouped, id: string, issue: string): Option<int>
  {
    match Dicts.Get(g, id)
    case Some(m) => Dicts.Get(m, issue)
    case None => None
  }

  /** Store `v` under `issue` in the inner dict of `id`, creating an empty
      inner dict first when `id` is new. */
  function SetIssue(g: Grouped, id: string, issue: string, v: int): Grouped
  {
    var inner := match Dicts.Get(g, id) case Some(m) => m case None => [];
    Dicts.Upsert(g, id, Dicts.Upsert(inner, issue, v))
  }

  /** The last write to `(id, issue)` wins and nothing else changes. */
  lemma StoredSetIssue(g: Grouped, id: string, issue: string, v: int, id': string, issue': string)
    ensures Stored(SetIssue(g, id, issue, v), id', issue') ==
      if id' == id && issue' == issue then Some(v) else Stored(g, id', issue')
  {
    var inner := match Dicts.Get(g, id) case Some(m) => m case None => [];
    Dicts.GetUpsert(g, id, Dicts.Upsert(inner, issue, v), id');
    Dicts.GetUpsert(inner, issue, v, issue');
  }

  /** Every stored value is -1, 0 or 1. */
  predicate InRange(g: Grouped)
  {
    forall p :: p in g ==> forall q :: q in p.1 ==> -1 <= q.1 <= 1
  }

  /** Both levels are dicts. */
  predicate WellFormed(g: Grouped)
  {
    Dicts.DistinctKeys(g) && forall p :: p in g ==> Dicts.DistinctKeys(p.1)
  }

  lemma GetIn<K, V>(d: seq<(K, V)>, k: K)
    ensures Dicts.Get(d, k).Some? ==> (k, Dicts.Get(d, k).value) in d
  {
    if d != [] && d[0].0 != k {
      GetIn(d[1..], k);
    }
  }

  lemma SetIssueKeeps(g: Grouped, id: string, issue: string, v: int)
    requires -1 <= v <= 1
    ensures InRange(g) ==> InRange(SetIssue(g, id, issue, v))
    ensures WellFormed(g) ==> WellFormed(SetIssue(g, id, issue, v))
  {
    var inner := match Dicts.Get(g, id) case Some(m) => m case None => [];
    GetIn(g, id);
    assert inner == [] || (id, inner) in g;
    Dicts.UpsertEntries(inner, issue, v);
    Dicts.UpsertEntries(g, id, Dicts.Upsert(inner, issue, v));
    if WellFormed(g) {
      Dicts.UpsertKeepsDistinct(inner, issue, v);
      Dicts.UpsertKeepsDistinct(g, id, Dicts.Upsert(inner, issue, v));
    }
  }

  // ---------------------------------------------------------------------
  // The write path

  /** `p.strip()`, with a leading `/` added when missing. */
  function RootPath(p: string): string
  {
    var s := Strip(p);
    if |s| > 0 && s[0] == '/' then s else "/" + s
  }

  /** The path always starts with `/`, has no surrounding whitespace, and
      normalising it again changes nothing. */
  lemma RootPathShape(p: string)
    ensures var r := RootPath(p);
      |r| > 0 && r[0] == '/' && Trimmed(r) && RootPath(r) == r
  {
    var s := Strip(p);
    StripTrimmed(p);
    var r := RootPath(p);
    assert Trimmed(r);
    StripIdentity(r);
  }

  lemma StripTrimmed(p: string)
    ensures Trimmed(Strip(p))
  {
    var l := StripLeft(p);
    StripRightPrefix(l);
    var r := StripRight(l);
    if r != [] {
      assert r[0] == l[0];
    }
  }
}
