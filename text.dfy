/** The Python `str` builtins the core uses, on ASCII text: `lower`, `upper`,
    `strip`, `split()`, `split(sep)`, `replace` of one character, `join`. */
module Text {

  /** Python's whitespace among the ASCII characters (`str.isspace`, regex `\s`). */
  predicate IsSpace(c: char)
  {
    c == ' ' || c == '\t' || c == '\n' || c == '\r' || c == '\U{B}' || c == '\U{C}'
    || ('\U{1C}' <= c <= '\U{1F}')
  }

  predicate IsUpper(c: char) { 'A' <= c <= 'Z' }

  predicate IsLowerLetter(c: char) { 'a' <= c <= 'z' }

  function LowerChar(c: char): char
  {
    if IsUpper(c) then (c as int + 32) as char else c
  }

  function UpperChar(c: char): char
  {
    if IsLowerLetter(c) then (c as int - 32) as char else c
  }

  /** `s.lower()` */
  function Lower(s: string): string
  {
    seq(|s|, i requires 0 <= i < |s| => LowerChar(s[i]))
  }

  /** `s.upper()` */
  function Upper(s: string): string
  {
    seq(|s|, i requires 0 <= i < |s| => UpperChar(s[i]))
  }

  /** `s.replace(c, d)` for one-character `c` and `d`. */
  function ReplaceChar(s: string, c: char, d: char): string
  {
    seq(|s|, i requires 0 <= i < |s| => if s[i] == c then d else s[i])
  }

  /** `s.replace(c, "")` for a one-character `c`. */
  function RemoveChar(s: string, c: char): (r: string)
    ensures forall i :: 0 <= i < |r| ==> r[i] != c
    ensures forall i :: 0 <= i < |r| ==> r[i] in s
  {
    if s == [] then []
    else (if s[0] == c then [] else [s[0]]) + RemoveChar(s[1..], c)
  }

  /** Every character of `s` satisfies `P`. */
  predicate AllChars(s: string, P: char -> bool)
  {
    forall i :: 0 <= i < |s| ==> P(s[i])
  }

  /** `s.lstrip()` */
  function StripLeft(s: string): (r: string)
    ensures |r| <= |s|
    ensures r == [] || !IsSpace(r[0])
  {
    if s != [] && IsSpace(s[0]) then StripLeft(s[1..]) else s
  }

  /** `s.rstrip()` */
  function StripRight(s: string): (r: string)
    ensures |r| <= |s|
    ensures r == [] || !IsSpace(r[|r| - 1])
  {
    if s != [] && IsSpace(s[|s| - 1]) then StripRight(s[..|s| - 1]) else s
  }

  /** What `lstrip` leaves is a suffix of its input. */
  lemma {:induction false} StripLeftSuffix(s: string)
    ensures StripLeft(s) == s[|s| - |StripLeft(s)|..]
  {
    if s != [] && IsSpace(s[0]) {
      StripLeftSuffix(s[1..]);
    }
  }

  /** What `rstrip` leaves is a prefix of its input. */
  lemma {:induction false} StripRightPrefix(s: string)
    ensures StripRight(s) == s[..|StripRight(s)|]
  {
    if s != [] && IsSpace(s[|s| - 1]) {
      StripRightPrefix(s[..|s| - 1]);
    }
  }

  /** `s.strip()` */
  function Strip(s: string): string
  {
    StripRight(StripLeft(s))
  }

  /** Every maximal run of whitespace becomes one space. */
  function CollapseSpaces(s: string): string
    decreases |s|
  {
    if s == [] then []
    else if IsSpace(s[0]) then [' '] + CollapseSpaces(StripLeft(s[1..]))
    else [s[0]] + CollapseSpaces(s[1..])
  }

  /** A token of `str.split()`: non-empty, without whitespace. */
  predicate IsWord(w: string)
  {
    w != [] && forall i :: 0 <= i < |w| ==> !IsSpace(w[i])
  }

  predicate AllWords(ts: seq<string>)
  {
    forall k :: 0 <= k < |ts| ==> IsWord(ts[k])
  }

  /** Length of the leading run of non-whitespace characters. */
  function WordLength(t: string): (n: nat)
    ensures n <= |t|
    ensures forall i :: 0 <= i < n ==> !IsSpace(t[i])
    ensures n == |t| || IsSpace(t[n])
  {
    if t == [] || IsSpace(t[0]) then 0 else 1 + WordLength(t[1..])
  }

  /** `s.split()`: the maximal runs of non-whitespace characters, in order. */
  function Split(s: string): (ts: seq<string>)
    decreases |s|
    ensures AllWords(ts)
  {
    var t := StripLeft(s);
    if t == [] then []
    else
      var n := WordLength(t);
      var rest := Split(t[n..]);
      AllWordsCons(t[..n], rest);
      [t[..n]] + rest
  }

  lemma AllWordsCons(w: string, rest: seq<string>)
    requires IsWord(w) && AllWords(rest)
    ensures AllWords([w] + rest)
  {
  }

  /** `sep.join(ts)` for a one-character separator. */
  function JoinWith(ts: seq<string>, sep: char): string
  {
    if ts == [] then ""
    else if |ts| == 1 then ts[0]
    else ts[0] + [sep] + JoinWith(ts[1..], sep)
  }

  /** `s.split(sep)` for a one-character separator: always at least one part,
      empty parts kept. */
  function SplitOn(s: string, sep: char): (parts: seq<string>)
    ensures |parts| >= 1
  {
    if s == [] then [""]
    else
      var rest := SplitOn(s[1..], sep);
      if s[0] == sep then [""] + rest else [[s[0]] + rest[0]] + rest[1..]
  }

  /** Number of occurrences of `c` in `s`. */
  function Count(s: string, c: char): nat
  {
    if s == [] then 0 else (if s[0] == c then 1 else 0) + Count(s[1..], c)
  }

  /** Characters `i` and `i + 1` are both whitespace. */
  predicate DoubleSpaceAt(s: string, i: nat)
    requires i + 1 < |s|
  {
    IsSpace(s[i]) && IsSpace(s[i + 1])
  }

  /** Adjacent characters are never both whitespace. */
  predicate NoDoubleSpace(s: string)
  {
    forall i: nat :: i + 1 < |s| ==> !DoubleSpaceAt(s, i)
  }

  /** Neither the first nor the last character is whitespace. */
  predicate Trimmed(s: string)
  {
    s == [] || (!IsSpace(s[0]) && !IsSpace(s[|s| - 1]))
  }

  // ---------------------------------------------------------------------
  // Lemmas

  lemma LowerIdentity(s: string)
    requires forall i :: 0 <= i < |s| ==> !IsUpper(s[i])
    ensures Lower(s) == s
  {
  }

  lemma ReplaceIdentity(s: string, c: char, d: char)
    requires forall i :: 0 <= i < |s| ==> s[i] != c
    ensures ReplaceChar(s, c, d) == s
  {
  }

  lemma RemoveIdentity(s: string, c: char)
    requires forall i :: 0 <= i < |s| ==> s[i] != c
    ensures RemoveChar(s, c) == s
  {
  }

  lemma {:induction false} StripChars(s: string, P: char -> bool)
    requires AllChars(s, P)
    ensures AllChars(StripLeft(s), P) && AllChars(Strip(s), P)
  {
    var l := StripLeft(s);
    StripLeftSuffix(s);
    AllCharsSlice(s, P, |s| - |l|, |s|);
    StripRightPrefix(l);
    AllCharsSlice(l, P, 0, |StripRight(l)|);
  }

  lemma AllCharsSlice(s: string, P: char -> bool, a: nat, b: nat)
    requires AllChars(s, P) && a <= b <= |s|
    ensures AllChars(s[a..b], P)
  {
    forall i | 0 <= i < b - a ensures P(s[a..b][i]) {
      assert s[a..b][i] == s[a + i];
    }
  }

  lemma StripIdentity(s: string)
    requires Trimmed(s)
    ensures Strip(s) == s
  {
  }

  /** A whitespace-only string strips to the empty string. */
  lemma {:induction false} StripBlank(s: string)
    requires forall i :: 0 <= i < |s| ==> IsSpace(s[i])
    ensures StripLeft(s) == [] && Strip(s) == []
  {
    if s != [] {
      StripBlank(s[1..]);
    }
  }

  /** `strip` ignores whitespace added on either side. */
  lemma {:induction false} StripPadded(pre: string, s: string, post: string)
    requires forall i :: 0 <= i < |pre| ==> IsSpace(pre[i])
    requires forall i :: 0 <= i < |post| ==> IsSpace(post[i])
    ensures Strip(pre + s + post) == Strip(s)
  {
    assert pre + s + post == pre + (s + post);
    StripLeftPadded(pre, s + post);
    var l := StripLeft(s);
    StripLeftAppend(s, post);
    if l != [] {
      StripRightPadded(l, post);
    }
  }

  lemma {:induction false} StripLeftPadded(pre: string, s: string)
    requires forall i :: 0 <= i < |pre| ==> IsSpace(pre[i])
    ensures StripLeft(pre + s) == StripLeft(s)
  {
    if pre == [] {
      assert pre + s == s;
    } else {
      assert (pre + s)[0] == pre[0];
      assert (pre + s)[1..] == pre[1..] + s;
      StripLeftPadded(pre[1..], s);
    }
  }

  lemma {:induction false} StripLeftAppend(s: string, post: string)
    requires forall i :: 0 <= i < |post| ==> IsSpace(post[i])
    ensures StripLeft(s + post) == if StripLeft(s) == [] then [] else StripLeft(s) + post
  {
    if s == [] {
      assert s + post == post;
      StripBlank(post);
    } else {
      assert (s + post)[0] == s[0];
      if IsSpace(s[0]) {
        assert (s + post)[1..] == s[1..] + post;
        StripLeftAppend(s[1..], post);
      }
    }
  }

  lemma {:induction false} StripRightPadded(s: string, post: string)
    requires forall i :: 0 <= i < |post| ==> IsSpace(post[i])
    ensures StripRight(s + post) == StripRight(s)
  {
    if post == [] {
      assert s + post == s;
    } else {
      var p := post[..|post| - 1];
      assert (s + post)[|s + post| - 1] == post[|post| - 1];
      assert (s + post)[..|s + post| - 1] == s + p;
      StripRightPadded(s, p);
    }
  }

  lemma {:induction false} CollapseChars(s: string, P: char -> bool)
    requires AllChars(s, P) && P(' ')
    ensures AllChars(CollapseSpaces(s), P)
    decreases |s|
  {
    if s != [] {
      var rest := if IsSpace(s[0]) then StripLeft(s[1..]) else s[1..];
      assert AllChars(s[1..], P);
      StripChars(s[1..], P);
      assert AllChars(rest, P);
      CollapseChars(rest, P);
      var c := if IsSpace(s[0]) then ' ' else s[0];
      assert P(c);
      assert CollapseSpaces(s) == [c] + CollapseSpaces(rest);
    }
  }

  /** On text whose only whitespace is single spaces, collapsing changes nothing. */
  lemma {:induction false} CollapseIdentity(s: string)
    requires forall i :: 0 <= i < |s| ==> IsSpace(s[i]) ==> s[i] == ' '
    requires NoDoubleSpace(s)
    ensures CollapseSpaces(s) == s
  {
    if s != [] {
      forall i: nat | i + 1 < |s[1..]| ensures !DoubleSpaceAt(s[1..], i) {
        assert !DoubleSpaceAt(s, i + 1);
      }
      CollapseIdentity(s[1..]);
      if IsSpace(s[0]) {
        if |s| > 1 {
          assert !DoubleSpaceAt(s, 0);
        }
        assert s[1..] == [] || !IsSpace(s[1]);
        assert StripLeft(s[1..]) == s[1..];
      }
      assert s == [s[0]] + s[1..];
    }
  }

  lemma {:induction false} SplitChars(s: string, P: char -> bool)
    requires AllChars(s, P)
    ensures forall k :: 0 <= k < |Split(s)| ==> AllChars(Split(s)[k], P)
    decreases |s|
  {
    var t := StripLeft(s);
    StripChars(s, P);
    if t != [] {
      var n := WordLength(t);
      assert AllChars(t[..n], P);
      assert AllChars(t[n..], P);
      SplitChars(t[n..], P);
    }
  }

  lemma {:induction false} WordLengthOfWord(w: string, rest: string)
    requires forall i :: 0 <= i < |w| ==> !IsSpace(w[i])
    requires rest == [] || IsSpace(rest[0])
    ensures WordLength(w + rest) == |w|
  {
    if w == [] {
      assert w + rest == rest;
    } else {
      assert (w + rest)[1..] == w[1..] + rest;
      WordLengthOfWord(w[1..], rest);
    }
  }

  /** A word followed by nothing or by whitespace is split off first. */
  lemma {:induction false} SplitWord(w: string, rest: string)
    requires IsWord(w)
    requires rest == [] || IsSpace(rest[0])
    ensures Split(w + rest) == [w] + Split(rest)
  {
    var s := w + rest;
    assert s[0] == w[0];
    assert StripLeft(s) == s;
    WordLengthOfWord(w, rest);
    assert s[..|w|] == w;
    assert s[|w|..] == rest;
  }

  lemma SplitLeadingSpace(j: string)
    ensures Split([' '] + j) == Split(j)
  {
    assert ([' '] + j)[1..] == j;
    assert StripLeft([' '] + j) == StripLeft(j);
  }

  /** Splitting a space-joined sequence of words gives the words back. */
  lemma {:induction false} SplitJoin(ts: seq<string>)
    requires AllWords(ts)
    ensures Split(JoinWith(ts, ' ')) == ts
  {
    if ts == [] {
    } else if |ts| == 1 {
      SplitSingle(ts[0]);
    } else {
      var j := JoinWith(ts[1..], ' ');
      SplitJoin(ts[1..]);
      SplitJoinStep(ts[0], j);
      calc {
        Split(JoinWith(ts, ' '));
        Split(ts[0] + [' '] + j);
        [ts[0]] + Split(j);
        [ts[0]] + ts[1..];
        { SeqCons(ts); }
        ts;
      }
    }
  }

  lemma SplitSingle(w: string)
    requires IsWord(w)
    ensures Split(w) == [w]
  {
    assert w + [] == w;
    SplitWord(w, []);
  }

  lemma SeqCons<T>(s: seq<T>)
    requires s != []
    ensures [s[0]] + s[1..] == s
  {
  }

  lemma SplitJoinStep(w: string, j: string)
    requires IsWord(w)
    ensures Split(w + [' '] + j) == [w] + Split(j)
  {
    assert w + [' '] + j == w + ([' '] + j);
    SplitWord(w, [' '] + j);
    SplitLeadingSpace(j);
  }

  /** The shape of a space-joined sequence of words. */
  lemma {:induction false} JoinShape(ts: seq<string>, P: char -> bool)
    requires AllWords(ts) && P(' ')
    requires forall k :: 0 <= k < |ts| ==> AllChars(ts[k], P)
    ensures var j := JoinWith(ts, ' ');
      && AllChars(j, P)
      && (j == [] <==> ts == [])
      && Trimmed(j)
      && NoDoubleSpace(j)
      && (forall i :: 0 <= i < |j| ==> IsSpace(j[i]) ==> j[i] == ' ')
  {
    if |ts| > 1 {
      JoinShape(ts[1..], P);
      var w := ts[0];
      var rest := JoinWith(ts[1..], ' ');
      var j := w + [' '] + rest;
      assert forall i :: 0 <= i < |w| ==> j[i] == w[i];
      assert j[|w|] == ' ';
      assert forall i :: |w| < i < |j| ==> j[i] == rest[i - |w| - 1];
      forall i: nat | i + 1 < |j| ensures !DoubleSpaceAt(j, i) {
        if i > |w| {
          assert !DoubleSpaceAt(rest, i - |w| - 1);
        }
      }
    }
  }

  lemma {:induction false} FilterWords(ts: seq<string>, P: string -> bool)
    requires AllWords(ts)
    ensures AllWords(FilterBy(ts, P))
    ensures forall k :: 0 <= k < |FilterBy(ts, P)| ==> FilterBy(ts, P)[k] in ts && P(FilterBy(ts, P)[k])
  {
    if ts != [] {
      FilterWords(ts[1..], P);
    }
  }

  /** The elements of `ts` that satisfy `P`, in order. */
  function FilterBy(ts: seq<string>, P: string -> bool): seq<string>
  {
    if ts == [] then [] else (if P(ts[0]) then [ts[0]] else []) + FilterBy(ts[1..], P)
  }

  lemma {:induction false} FilterAll(ts: seq<string>, P: string -> bool)
    requires forall k :: 0 <= k < |ts| ==> P(ts[k])
    ensures FilterBy(ts, P) == ts
  {
    if ts != [] {
      FilterAll(ts[1..], P);
      assert ts == [ts[0]] + ts[1..];
    }
  }
}
