/** The parts of Python's `str` that `wrap_text` relies on: `split()` with no
    argument, `strip()` with no argument, and `sep.join(parts)`. */
module Text {

  /** The code points Python's `str.isspace` accepts; `split()` and `strip()`
      without arguments break and trim on exactly these. */
  predicate IsSpace(c: char) {
    || ('\t' <= c <= '\r')
    || ('\U{1C}' <= c <= '\U{1F}')
    || c == ' '
    || c == '\U{85}'
    || c == '\U{A0}'
    || c == '\U{1680}'
    || ('\U{2000}' <= c <= '\U{200A}')
    || c == '\U{2028}'
    || c == '\U{2029}'
    || c == '\U{202F}'
    || c == '\U{205F}'
    || c == '\U{3000}'
  }

  /** A word as `split()` yields it: non-empty and free of whitespace. */
  predicate IsWord(w: string) {
    |w| > 0 && forall i :: 0 <= i < |w| ==> !IsSpace(w[i])
  }

  predicate AllWords(ws: seq<string>) {
    forall i :: 0 <= i < |ws| ==> IsWord(ws[i])
  }

  /** Concatenation of a sequence of sequences. */
  function Flatten<T>(xss: seq<seq<T>>): seq<T> {
    if xss == [] then [] else xss[0] + Flatten(xss[1..])
  }

  /** The characters of `s` that are not whitespace, in order. */
  function NonSpace(s: string): string {
    if s == [] then []
    else (if IsSpace(s[0]) then [] else [s[0]]) + NonSpace(s[1..])
  }

  /** The end of the word that starts at `i`: the first whitespace position at
      or after `i`, or `|s|` when there is none. */
  function WordEnd(s: string, i: nat): (k: nat)
    requires i <= |s|
    ensures i <= k <= |s|
    ensures forall j :: i <= j < k ==> !IsSpace(s[j])
    ensures k < |s| ==> IsSpace(s[k])
    decreases |s| - i
  {
    if i == |s| || IsSpace(s[i]) then i else WordEnd(s, i + 1)
  }

  /** Python's `s.split()`: the maximal runs of non-whitespace characters,
      left to right. Every piece is a word, and together they hold every
      non-whitespace character of `s` in order. */
  function Split(s: string): (ws: seq<string>)
    ensures AllWords(ws)
    ensures Flatten(ws) == NonSpace(s)
    decreases |s|
  {
    if s == [] then []
    else if IsSpace(s[0]) then Split(s[1..])
    else
      var k := WordEnd(s, 0);
      NonSpaceAppend(s[..k], s[k..]);
      NoSpaceFixed(s[..k]);
      assert s[..k] + s[k..] == s;
      [s[..k]] + Split(s[k..])
  }

  /** Python's `sep.join(parts)`. */
  function Join(parts: seq<string>, sep: string): string {
    if parts == [] then ""
    else if |parts| == 1 then parts[0]
    else parts[0] + sep + Join(parts[1..], sep)
  }

  function TrimLeft(s: string): string {
    if s != [] && IsSpace(s[0]) then TrimLeft(s[1..]) else s
  }

  function TrimRight(s: string): string {
    if s != [] && IsSpace(s[|s| - 1]) then TrimRight(s[..|s| - 1]) else s
  }

  /** `r` is `s[i..j]`, and everything of `s` before `i` and from `j` on is
      whitespace. */
  predicate TrimmedAt(r: string, s: string, i: nat, j: nat) {
    && i <= j <= |s| && r == s[i..j]
    && (forall k :: 0 <= k < i ==> IsSpace(s[k]))
    && (forall k :: j <= k < |s| ==> IsSpace(s[k]))
  }

  /** `r` is `s` with a run of whitespace removed from its front and one
      from its back, and nothing else. */
  predicate TrimmedSlice(r: string, s: string) {
    exists i: nat, j: nat :: i <= j <= |s| && TrimmedAt(r, s, i, j)
  }

  /** Neither starts nor ends with whitespace. */
  predicate Tight(r: string) {
    r == [] || (!IsSpace(r[0]) && !IsSpace(r[|r| - 1]))
  }

  /** Python's `s.strip()`: the result neither starts nor ends with
      whitespace, is no longer than `s`, and keeps every non-whitespace
      character of `s`. `StripCharacterised` says which slice of `s` it is. */
  function Strip(s: string): (r: string)
    ensures |r| <= |s|
    ensures r == [] || (!IsSpace(r[0]) && !IsSpace(r[|r| - 1]))
    ensures NonSpace(r) == NonSpace(s)
  {
    TrimLeftFacts(s);
    TrimRightFacts(TrimLeft(s));
    TrimRight(TrimLeft(s))
  }

  // ---------------------------------------------------------------------
  // Lemmas about the helpers above

  lemma {:induction false} NonSpaceAppend(a: string, b: string)
    ensures NonSpace(a + b) == NonSpace(a) + NonSpace(b)
    decreases |a|
  {
    if a == [] {
      assert a + b == b;
    } else {
      assert (a + b)[1..] == a[1..] + b;
      NonSpaceAppend(a[1..], b);
    }
  }

  /** A string without whitespace is its own `NonSpace`. */
  lemma {:induction false} NoSpaceFixed(s: string)
    requires forall i :: 0 <= i < |s| ==> !IsSpace(s[i])
    ensures NonSpace(s) == s
    decreases |s|
  {
    if s != [] {
      NoSpaceFixed(s[1..]);
    }
  }

  lemma {:induction false} FlattenAppend<T>(a: seq<seq<T>>, b: seq<seq<T>>)
    ensures Flatten(a + b) == Flatten(a) + Flatten(b)
    decreases |a|
  {
    if a == [] {
      assert a + b == b;
    } else {
      assert (a + b)[1..] == a[1..] + b;
      FlattenAppend(a[1..], b);
    }
  }

  /** `TrimLeft` drops exactly the leading run of whitespace. */
  lemma {:induction false} TrimLeftFacts(s: string)
    ensures |TrimLeft(s)| <= |s|
    ensures TrimLeft(s) == s[|s| - |TrimLeft(s)|..]
    ensures forall k :: 0 <= k < |s| - |TrimLeft(s)| ==> IsSpace(s[k])
    ensures TrimLeft(s) == [] || !IsSpace(TrimLeft(s)[0])
    ensures NonSpace(TrimLeft(s)) == NonSpace(s)
    decreases |s|
  {
    if s != [] && IsSpace(s[0]) {
      TrimLeftFacts(s[1..]);
      assert s[1..][|s| - 1 - |TrimLeft(s)|..] == s[|s| - |TrimLeft(s)|..];
      forall k | 1 <= k < |s| - |TrimLeft(s)|
        ensures IsSpace(s[k])
      {
        assert s[k] == s[1..][k - 1];
      }
    }
  }

  /** `TrimRight` drops exactly the trailing run of whitespace. */
  lemma {:induction false} TrimRightFacts(s: string)
    requires s == [] || !IsSpace(s[0])
    ensures |TrimRight(s)| <= |s|
    ensures TrimRight(s) == s[..|TrimRight(s)|]
    ensures forall k :: |TrimRight(s)| <= k < |s| ==> IsSpace(s[k])
    ensures TrimRight(s) == [] || (!IsSpace(TrimRight(s)[0]) && !IsSpace(TrimRight(s)[|TrimRight(s)| - 1]))
    ensures NonSpace(TrimRight(s)) == NonSpace(s)
    decreases |s|
  {
    if s != [] && IsSpace(s[|s| - 1]) {
      var p := s[..|s| - 1];
      assert s == p + [s[|s| - 1]];
      NonSpaceAppend(p, [s[|s| - 1]]);
      assert NonSpace([s[|s| - 1]]) == [];
      TrimRightFacts(p);
    }
  }

  /** `WordEnd` only looks ahead until the first whitespace: a suffix that
      begins with whitespace does not move it. */
  lemma {:induction false} WordEndAppend(a: string, b: string, i: nat)
    requires i <= |a|
    requires b != [] && IsSpace(b[0])
    ensures WordEnd(a + b, i) == WordEnd(a, i)
    decreases |a| - i
  {
    if i < |a| && !IsSpace(a[i]) {
      WordEndAppend(a, b, i + 1);
    }
  }

  /** Splitting around one whitespace character splits each side on its own. */
  lemma {:induction false} SplitAroundSpace(a: string, c: char, b: string)
    requires IsSpace(c)
    ensures Split(a + [c] + b) == Split(a) + Split(b)
    decreases |a|
  {
    var s := a + [c] + b;
    if a == [] {
      assert s == [c] + b;
      assert s[1..] == b;
    } else if IsSpace(a[0]) {
      assert s[1..] == a[1..] + [c] + b;
      SplitAroundSpace(a[1..], c, b);
    } else {
      WordEndAppend(a, [c] + b, 0);
      assert s == a + ([c] + b);
      var k := WordEnd(a, 0);
      assert s[..k] == a[..k];
      assert s[k..] == a[k..] + [c] + b;
      SplitAroundSpace(a[k..], c, b);
    }
  }

  /** A single word splits into itself. */
  lemma SplitWord(w: string)
    requires IsWord(w)
    ensures Split(w) == [w]
  {
    assert WordEnd(w, 0) == |w|;
    assert w[..|w|] == w;
    assert w[|w|..] == [];
  }

  /** Round trip: joining words with single spaces and splitting again gives
      the same words back. */
  lemma {:induction false} SplitJoinWords(ws: seq<string>)
    requires AllWords(ws)
    ensures Split(Join(ws, " ")) == ws
    decreases |ws|
  {
    if ws == [] {
    } else if |ws| == 1 {
      SplitWord(ws[0]);
    } else {
      SplitJoinWords(ws[1..]);
      SplitAroundSpace(ws[0], ' ', Join(ws[1..], " "));
      assert ws[0] + " " + Join(ws[1..], " ") == ws[0] + [' '] + Join(ws[1..], " ");
      SplitWord(ws[0]);
      assert ws == [ws[0]] + ws[1..];
    }
  }

  /** The words of every line, in line order. */
  function LineWords(lines: seq<string>): seq<string> {
    if lines == [] then [] else Split(lines[0]) + LineWords(lines[1..])
  }

  /** Splitting text made by joining lines with newlines yields the words of
      each line in turn: the newline only ever separates words. */
  lemma {:induction false} SplitJoinLines(lines: seq<string>)
    ensures Split(Join(lines, "\n")) == LineWords(lines)
    decreases |lines|
  {
    if lines == [] {
    } else if |lines| == 1 {
      assert LineWords(lines[1..]) == [];
    } else {
      SplitJoinLines(lines[1..]);
      assert lines[0] + "\n" + Join(lines[1..], "\n") == lines[0] + ['\n'] + Join(lines[1..], "\n");
      SplitAroundSpace(lines[0], '\n', Join(lines[1..], "\n"));
    }
  }

  /** Words joined by single spaces: the empty string exactly when there are
      no words, and otherwise beginning and ending with a non-space. */
  lemma {:induction false} JoinWordsEnds(ws: seq<string>)
    requires AllWords(ws)
    ensures Join(ws, " ") == [] <==> ws == []
    ensures ws != [] ==> !IsSpace(Join(ws, " ")[0]) && !IsSpace(Join(ws, " ")[|Join(ws, " ")| - 1])
    ensures ws != [] ==> |Join(ws, " ")| >= |ws[0]|
    decreases |ws|
  {
    if |ws| > 1 {
      JoinWordsEnds(ws[1..]);
      var r := Join(ws, " ");
      var t := Join(ws[1..], " ");
      assert r == ws[0] + " " + t;
      assert r[0] == ws[0][0];
      assert r[|r| - 1] == t[|t| - 1];
    }
  }

  /** Joining one more part onto the end adds the separator and the part. */
  lemma {:induction false} JoinSnoc(parts: seq<string>, p: string, sep: string)
    requires parts != []
    ensures Join(parts + [p], sep) == Join(parts, sep) + sep + p
    decreases |parts|
  {
    if |parts| == 1 {
      assert parts + [p] == [parts[0], p];
    } else {
      assert (parts + [p])[1..] == parts[1..] + [p];
      JoinSnoc(parts[1..], p, sep);
    }
  }

  /** Joining a non-empty prefix of the parts gives a string no longer than
      joining all of them. */
  lemma {:induction false} JoinPrefixShorter(parts: seq<string>, n: nat, sep: string)
    requires 1 <= n <= |parts|
    ensures |Join(parts[..n], sep)| <= |Join(parts, sep)|
    decreases |parts| - n
  {
    if n < |parts| {
      assert parts[..n + 1] == parts[..n] + [parts[n]];
      JoinSnoc(parts[..n], parts[n], sep);
      JoinPrefixShorter(parts, n + 1, sep);
    } else {
      assert parts[..n] == parts;
    }
  }

  /** `strip()` removes the leading space the wrapper puts before the first
      line's words and leaves words joined by single spaces unchanged. */
  lemma {:induction false} StripJoinedWords(ws: seq<string>)
    requires AllWords(ws)
    ensures Strip(Join(ws, " ")) == Join(ws, " ")
    ensures ws != [] ==> Strip(" " + Join(ws, " ")) == Join(ws, " ")
  {
    JoinWordsEnds(ws);
    var j := Join(ws, " ");
    if ws != [] {
      assert TrimLeft(j) == j;
      assert TrimRight(j) == j;
      assert (" " + j)[1..] == j;
      assert TrimLeft(" " + j) == j;
    }
  }

  /** `strip()` removes only a leading and a trailing run of whitespace. */
  lemma StripIsSlice(s: string)
    ensures TrimmedSlice(Strip(s), s)
  {
    TrimLeftFacts(s);
    var t := TrimLeft(s);
    TrimRightFacts(t);
    var i := |s| - |t|;
    var j := i + |TrimRight(t)|;
    assert Strip(s) == s[i..j];
    forall k | j <= k < |s|
      ensures IsSpace(s[k])
    {
      assert s[k] == t[k - i];
    }
    assert TrimmedAt(Strip(s), s, i, j);
  }

  /** A tight trimmed slice is determined by `s`. */
  lemma TrimmedAtUnique(r: string, t: string, s: string, i: nat, j: nat, i2: nat, j2: nat)
    requires TrimmedAt(r, s, i, j) && Tight(r)
    requires TrimmedAt(t, s, i2, j2) && Tight(t)
    ensures r == t
  {
  }

  /** `Strip(s)` is exactly the slice of `s` that drops a leading and a
      trailing run of whitespace and neither starts nor ends with
      whitespace: for `"a b"` that is `"a b"`, not `"ab"`. */
  lemma StripCharacterised(s: string, r: string)
    ensures r == Strip(s) <==> TrimmedSlice(r, s) && Tight(r)
  {
    StripIsSlice(s);
    if TrimmedSlice(r, s) && Tight(r) {
      var i: nat, j: nat :| i <= j <= |s| && TrimmedAt(r, s, i, j);
      var i0: nat, j0: nat :| i0 <= j0 <= |s| && TrimmedAt(Strip(s), s, i0, j0);
      TrimmedAtUnique(r, Strip(s), s, i, j, i0, j0);
    }
  }
}
