/** The second name normaliser and the slug built from it (pipeline.py):
    used by the remote-index tier and by the generated fallback id. */
module PersonNames {
  import opened Text

  /** Unlike the mapping table's drop set, the courtesy titles
      `mr`, `mrs`, `ms` and `dr` are kept. */
  const PersonDropWords: set<string> :=
    {"jr", "sr", "ii", "iii", "iv", "sen", "senator", "rep", "representative", "gov", "governor"}

  predicate PersonKept(t: string) { t != "" && t !in PersonDropWords }

  /** Commas, then full stops, then apostrophes become spaces. */
  function PunctuationToSpace(s: string): string
  {
    ReplaceChar(ReplaceChar(ReplaceChar(s, ',', ' '), '.', ' '), '\'', ' ')
  }

  /** The string the token filter splits: lowered and stripped, the three
      punctuation marks turned into spaces, whitespace runs collapsed by a
      split-and-rejoin, hyphens turned into spaces. Digits and every other
      character are kept. */
  function PersonCleaned(name: string): string
  {
    var s := PunctuationToSpace(Strip(Lower(name)));
    var s := JoinWith(Split(s), ' ');
    ReplaceChar(s, '-', ' ')
  }

  function PersonTokens(name: string): seq<string>
  {
    FilterBy(Split(PersonCleaned(name)), PersonKept)
  }

  /** `_normalize_person_name(name)` */
  function NormalizePersonName(name: string): string
  {
    JoinWith(PersonTokens(name), ' ')
  }

  /** `_slugify_person_name(name)` */
  function SlugifyPersonName(name: string): string
  {
    ReplaceChar(RemoveChar(RemoveChar(NormalizePersonName(name), '\''), '.'), ' ', '_')
  }

  /** Characters a normalised person name can contain besides its separators. */
  predicate Unmarked(c: char)
  {
    !IsUpper(c) && c != ',' && c != '.' && c != '\'' && c != '-'
  }

  predicate UnpunctuatedLower(c: char)
  {
    !IsUpper(c) && c != ',' && c != '.' && c != '\''
  }

  lemma LowerChars(s: string)
    ensures AllChars(Lower(s), c => !IsUpper(c))
  {
  }

  lemma PunctuatedChars(name: string)
    ensures AllChars(PunctuationToSpace(Strip(Lower(name))), UnpunctuatedLower)
  {
    LowerChars(name);
    StripChars(Lower(name), c => !IsUpper(c));
  }

  lemma PersonCleanedChars(name: string)
    ensures AllChars(PersonCleaned(name), Unmarked)
  {
    var s := PunctuationToSpace(Strip(Lower(name)));
    PunctuatedChars(name);
    SplitChars(s, UnpunctuatedLower);
    JoinShape(Split(s), UnpunctuatedLower);
  }

  lemma WordsUnmarked(ws: seq<string>, ts: seq<string>)
    requires forall m :: 0 <= m < |ws| ==> AllChars(ws[m], Unmarked) && IsWord(ws[m])
    requires forall k :: 0 <= k < |ts| ==> ts[k] in ws
    ensures forall k :: 0 <= k < |ts| ==> AllChars(ts[k], Unmarked)
  {
    forall k | 0 <= k < |ts| ensures AllChars(ts[k], Unmarked) {
      var m :| 0 <= m < |ws| && ws[m] == ts[k];
    }
  }

  lemma PersonTokensShape(name: string)
    ensures var ts := PersonTokens(name);
      && AllWords(ts)
      && forall k :: 0 <= k < |ts| ==> AllChars(ts[k], Unmarked) && PersonKept(ts[k])
  {
    var x := PersonCleaned(name);
    PersonCleanedChars(name);
    SplitChars(x, Unmarked);
    var ws := Split(x);
    FilterWords(ws, PersonKept);
    WordsUnmarked(ws, FilterBy(ws, PersonKept));
  }

  predicate SeparatorOrUnmarked(c: char) { c == ' ' || (Unmarked(c) && !IsSpace(c)) }

  /** The output is lower-case, free of `, . ' -`, made of single-space
      separated tokens with no space at either end, and holds no suffix or
      title token. */
  lemma NormalizePersonNameShape(name: string)
    ensures var r := NormalizePersonName(name);
      && AllChars(r, SeparatorOrUnmarked)
      && Trimmed(r)
      && NoDoubleSpace(r)
      && Split(r) == PersonTokens(name)
      && forall k :: 0 <= k < |Split(r)| ==> Split(r)[k] !in PersonDropWords
  {
    var ts := PersonTokens(name);
    PersonTokensShape(name);
    forall k | 0 <= k < |ts| ensures AllChars(ts[k], SeparatorOrUnmarked) {
      assert IsWord(ts[k]);
    }
    JoinShape(ts, SeparatorOrUnmarked);
    SplitJoin(ts);
  }

  /** A string already in normal form goes through every cleaning step
      unchanged. */
  lemma PersonCleanedCanonical(r: string, ts: seq<string>)
    requires AllWords(ts) && r == JoinWith(ts, ' ')
    requires forall k :: 0 <= k < |ts| ==> AllChars(ts[k], Unmarked)
    ensures PersonCleaned(r) == r
  {
    JoinShape(ts, Unmarked);
    assert AllChars(r, Unmarked);
    var s1 := Strip(Lower(r));
    assert s1 == r by {
      LowerIdentity(r);
      StripIdentity(r);
    }
    var s2 := PunctuationToSpace(s1);
    assert s2 == r by {
      ReplaceIdentity(r, ',', ' ');
      ReplaceIdentity(r, '.', ' ');
      ReplaceIdentity(r, '\'', ' ');
    }
    SplitJoin(ts);
    ReplaceIdentity(r, '-', ' ');
  }

  lemma {:induction false} NormalizePersonNameIdempotent(name: string)
    ensures NormalizePersonName(NormalizePersonName(name)) == NormalizePersonName(name)
  {
    var ts := PersonTokens(name);
    var r := JoinWith(ts, ' ');
    PersonTokensShape(name);
    PersonCleanedCanonical(r, ts);
    SplitJoin(ts);
    FilterAll(ts, PersonKept);
  }

  /** The slug has no whitespace at all: it is the normalised name with its
      single separating spaces turned into underscores. */
  lemma SlugShape(name: string)
    ensures SlugifyPersonName(name) == ReplaceChar(NormalizePersonName(name), ' ', '_')
    ensures AllChars(SlugifyPersonName(name), c => !IsSpace(c))
    ensures SlugifyPersonName(name) == "" <==> NormalizePersonName(name) == ""
  {
    var r := NormalizePersonName(name);
    NormalizePersonNameShape(name);
    RemoveIdentity(r, '\'');
    RemoveIdentity(r, '.');
  }

  /** The slug depends on the name only through its normal form, so names
      that normalise alike get the same generated id. */
  lemma SlugOfNormalForm(name: string)
    ensures SlugifyPersonName(NormalizePersonName(name)) == SlugifyPersonName(name)
  {
    NormalizePersonNameIdempotent(name);
  }

  // ---------------------------------------------------------------------
  // A worked example: "Robert A. Smith Jr." gets the id "robert_a_smith".

  lemma TwoWordsTrailing(c: string, d: string)
    requires IsWord(c) && IsWord(d)
    ensures Split(c + [' '] + (d + [' '])) == [c, d]
  {
    SplitJoinStep(c, d + [' ']);
    SplitWord(d, [' ']);
    StripBlank([' ']);
  }

  lemma WordThenDoubleSpace(b: string, r: string)
    requires IsWord(b)
    ensures Split(b + [' '] + ([' '] + r)) == [b] + Split(r)
  {
    SplitJoinStep(b, [' '] + r);
    SplitLeadingSpace(r);
  }

  lemma SplitFourWords(p: string, a: string, b: string, c: string, d: string)
    requires IsWord(a) && IsWord(b) && IsWord(c) && IsWord(d)
    requires p == a + [' '] + (b + [' '] + ([' '] + (c + [' '] + (d + [' ']))))
    ensures Split(p) == [a, b, c, d]
  {
    var r3 := c + [' '] + (d + [' ']);
    TwoWordsTrailing(c, d);
    WordThenDoubleSpace(b, r3);
    SplitJoinStep(a, b + [' '] + ([' '] + r3));
  }

  lemma ExamplePunctuated(name: string)
    requires name == "Robert A. Smith Jr."
    ensures PunctuationToSpace(Strip(Lower(name))) == "robert a  smith jr "
  {
    var l := Lower(name);
    assert l == "robert a. smith jr.";
    StripIdentity(l);
  }

  lemma ExampleWords(p: string)
    requires p == "robert a  smith jr "
    ensures Split(p) == ["robert", "a", "smith", "jr"]
  {
    SplitFourWords(p, "robert", "a", "smith", "jr");
  }

  lemma ExampleNoHyphen(ws: seq<string>)
    requires ws == ["robert", "a", "smith", "jr"]
    ensures ReplaceChar(JoinWith(ws, ' '), '-', ' ') == JoinWith(ws, ' ')
  {
    assert forall k :: 0 <= k < |ws| ==> AllChars(ws[k], c => c != '-');
    JoinShape(ws, c => c != '-');
    ReplaceIdentity(JoinWith(ws, ' '), '-', ' ');
  }

  lemma ExampleKept(ws: seq<string>)
    requires ws == ["robert", "a", "smith", "jr"]
    ensures FilterBy(ws, PersonKept) == ["robert", "a", "smith"]
  {
    assert !PersonKept(ws[3]) && FilterBy(ws[4..], PersonKept) == [];
    assert FilterBy(ws[3..], PersonKept) == [];
    assert PersonKept(ws[2]) && FilterBy(ws[2..], PersonKept) == ["smith"];
    assert PersonKept(ws[1]) && FilterBy(ws[1..], PersonKept) == ["a", "smith"];
    assert PersonKept(ws[0]);
  }

  lemma ExampleTokens(ws: seq<string>)
    requires ws == ["robert", "a", "smith", "jr"]
    ensures FilterBy(Split(ReplaceChar(JoinWith(ws, ' '), '-', ' ')), PersonKept) == ["robert", "a", "smith"]
  {
    ExampleNoHyphen(ws);
    assert AllWords(ws);
    SplitJoin(ws);
    ExampleKept(ws);
  }

  lemma ExampleJoin(ts: seq<string>)
    requires ts == ["robert", "a", "smith"]
    ensures JoinWith(ts, ' ') == "robert a smith"
  {
    assert JoinWith(ts[2..], ' ') == "smith";
    assert JoinWith(ts[1..], ' ') == "a" + [' '] + "smith";
  }

  lemma ExampleUnderscores(n: string)
    requires n == "robert a smith"
    ensures ReplaceChar(n, ' ', '_') == "robert_a_smith"
  {
  }

  /** The generated id of "Robert A. Smith Jr.": case folded, the initial's
      full stop and the suffix dropped, spaces turned into underscores. */
  lemma SlugExample(name: string)
    requires name == "Robert A. Smith Jr."
    ensures NormalizePersonName(name) == "robert a smith"
    ensures SlugifyPersonName(name) == "robert_a_smith"
  {
    var p := PunctuationToSpace(Strip(Lower(name)));
    ExamplePunctuated(name);
    var ws := Split(p);
    ExampleWords(p);
    ExampleTokens(ws);
    var ts := PersonTokens(name);
    ExampleJoin(ts);
    SlugShape(name);
    ExampleUnderscores(NormalizePersonName(name));
  }
}
