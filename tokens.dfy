/** The token-sort key shared by both name matchers (`_token_sort_key` is
    written out identically in politician_mapping.py and pipeline.py). */
module Tokens {
  import opened Text

  /** Python's `a <= b` on strings: code-point lexicographic order, a proper
      prefix before the longer string. */
  predicate LexLe(a: string, b: string)
    decreases |a|
  {
    a == [] || (b != [] && (a[0] < b[0] || (a[0] == b[0] && LexLe(a[1..], b[1..]))))
  }

  lemma {:induction false} LexTotal(a: string, b: string)
    ensures LexLe(a, b) || LexLe(b, a)
    decreases |a|
  {
    if a != [] && b != [] && a[0] == b[0] {
      LexTotal(a[1..], b[1..]);
    }
  }

  lemma {:induction false} LexAntisymmetric(a: string, b: string)
    requires LexLe(a, b) && LexLe(b, a)
    ensures a == b
    decreases |a|
  {
    if a != [] {
      LexAntisymmetric(a[1..], b[1..]);
      assert a == [a[0]] + a[1..] && b == [b[0]] + b[1..];
    }
  }

  lemma {:induction false} LexTransitive(a: string, b: string, c: string)
    requires LexLe(a, b) && LexLe(b, c)
    ensures LexLe(a, c)
    decreases |a|
  {
    if a != [] && a[0] == b[0] && b[0] == c[0] {
      LexTransitive(a[1..], b[1..], c[1..]);
    }
  }

  predicate Sorted(ts: seq<string>)
  {
    forall i, j :: 0 <= i < |ts| && j == i + 1 < |ts| ==> LexLe(ts[i], ts[j])
  }

  /** Inserts `x` before the first element it does not exceed. */
  function Insert(x: string, ts: seq<string>): (r: seq<string>)
    ensures multiset(r) == multiset(ts) + multiset{x}
    ensures |r| == |ts| + 1
    ensures r[0] == x || (ts != [] && r[0] == ts[0])
  {
    if ts == [] then [x]
    else if LexLe(x, ts[0]) then [x] + ts
    else
      assert ts == [ts[0]] + ts[1..];
      [ts[0]] + Insert(x, ts[1..])
  }

  lemma {:induction false} InsertSorted(x: string, ts: seq<string>)
    requires Sorted(ts)
    ensures Sorted(Insert(x, ts))
  {
    if ts != [] && !LexLe(x, ts[0]) {
      LexTotal(x, ts[0]);
      InsertSorted(x, ts[1..]);
    }
  }

  /** `tokens.sort()`: as an insertion sort (equal strings are identical, so
      the stability of Python's sort is not observable). */
  function SortWords(ts: seq<string>): (r: seq<string>)
    ensures multiset(r) == multiset(ts)
    ensures |r| == |ts|
  {
    if ts == [] then []
    else
      assert ts == [ts[0]] + ts[1..];
      Insert(ts[0], SortWords(ts[1..]))
  }

  lemma {:induction false} SortWordsSorted(ts: seq<string>)
    ensures Sorted(SortWords(ts))
  {
    if ts != [] {
      SortWordsSorted(ts[1..]);
      InsertSorted(ts[0], SortWords(ts[1..]));
    }
  }

  lemma {:induction false} SortSortedIdentity(ts: seq<string>)
    requires Sorted(ts)
    ensures SortWords(ts) == ts
  {
    if ts != [] {
      SortSortedIdentity(ts[1..]);
      assert ts == [ts[0]] + ts[1..];
    }
  }

  lemma {:induction false} SortedHeadLeast(ts: seq<string>, j: nat)
    requires Sorted(ts) && j < |ts|
    ensures LexLe(ts[0], ts[j])
  {
    if j == 0 {
      LexReflexive(ts[0]);
    } else {
      SortedHeadLeast(ts, j - 1);
      LexTransitive(ts[0], ts[j - 1], ts[j]);
    }
  }

  lemma {:induction false} LexReflexive(a: string)
    ensures LexLe(a, a)
  {
    if a != [] {
      LexReflexive(a[1..]);
    }
  }

  /** A sorted sequence is determined by its multiset of elements. */
  lemma {:induction false} SortedUnique(a: seq<string>, b: seq<string>)
    requires Sorted(a) && Sorted(b) && multiset(a) == multiset(b)
    ensures a == b
  {
    assert |a| == |multiset(a)| == |b|;
    if a != [] {
      SortedHeadsEqual(a, b);
      TailMultisets(a, b);
      assert Sorted(a[1..]) && Sorted(b[1..]);
      SortedUnique(a[1..], b[1..]);
      SeqCons(a);
      SeqCons(b);
    }
  }

  lemma SortedHeadsEqual(a: seq<string>, b: seq<string>)
    requires Sorted(a) && Sorted(b) && multiset(a) == multiset(b)
    requires a != [] && b != []
    ensures a[0] == b[0]
  {
    assert b[0] in multiset(a);
    var i :| 0 <= i < |a| && a[i] == b[0];
    assert a[0] in multiset(b);
    var j :| 0 <= j < |b| && b[j] == a[0];
    SortedHeadLeast(a, i);
    SortedHeadLeast(b, j);
    LexAntisymmetric(a[0], b[0]);
  }

  lemma TailMultisets<T>(a: seq<T>, b: seq<T>)
    requires a != [] && b != [] && a[0] == b[0] && multiset(a) == multiset(b)
    ensures multiset(a[1..]) == multiset(b[1..])
  {
    SeqCons(a);
    SeqCons(b);
    assert multiset(a) == multiset{a[0]} + multiset(a[1..]);
    assert multiset(b) == multiset{b[0]} + multiset(b[1..]);
    assert multiset(a[1..]) == multiset(a) - multiset{a[0]};
    assert multiset(b[1..]) == multiset(b) - multiset{b[0]};
  }

  lemma {:induction false} PermutedWords(ts: seq<string>, r: seq<string>)
    requires AllWords(ts) && multiset(r) == multiset(ts)
    ensures AllWords(r)
  {
    forall k | 0 <= k < |r| ensures IsWord(r[k]) {
      assert r[k] in multiset(r);
      assert r[k] in ts;
    }
  }

  /** The whitespace-separated tokens of `s`, sorted and joined with single spaces. */
  function TokenSortKey(s: string): string
  {
    JoinWith(SortWords(Split(s)), ' ')
  }

  /** The key holds the whitespace tokens of `s`, sorted, as a permutation. */
  lemma TokenSortKeyTokens(s: string)
    ensures var ks := Split(TokenSortKey(s));
      Sorted(ks) && multiset(ks) == multiset(Split(s))
  {
    PermutedWords(Split(s), SortWords(Split(s)));
    SplitJoin(SortWords(Split(s)));
    SortWordsSorted(Split(s));
  }

  lemma TokenSortKeyIdempotent(s: string)
    ensures TokenSortKey(TokenSortKey(s)) == TokenSortKey(s)
  {
    var ws := SortWords(Split(s));
    PermutedWords(Split(s), ws);
    SplitJoin(ws);
    SortWordsSorted(Split(s));
    SortSortedIdentity(ws);
  }

  /** Reordering the words of a name does not change its key. */
  lemma TokenSortKeyOrderInsensitive(s: string, t: string)
    requires multiset(Split(s)) == multiset(Split(t))
    ensures TokenSortKey(s) == TokenSortKey(t)
  {
    SortWordsSorted(Split(s));
    SortWordsSorted(Split(t));
    SortedUnique(SortWords(Split(s)), SortWords(Split(t)));
  }
}

/** The character-level similarity both matchers use. */
module Similarity {

  type Unit = r: real | 0.0 <= r <= 1.0

  /** `SequenceMatcher(None, a, b).ratio()` from Python's difflib, supplied by
      the caller: a score in [0, 1], about which nothing else (not even
      symmetry) is assumed. */
  type Ratio = (string, string) -> Unit

  function Max(x: real, y: real): (m: real)
    ensures m >= x && m >= y && (m == x || m == y)
  {
    if x >= y then x else y
  }
}
