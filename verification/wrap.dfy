/** `wrap_text(text, max_w)` (main.py lines 16-27), the greedy word wrapper
    that formats each generated completion.

    The wrapper is modelled twice. `WrapLines` follows the Python loop
    literally: a list of closed lines, a `current_line` string that starts
    out empty and so carries a leading space while the first line fills, and
    `strip()` when a line closes. `Groups` is the same greedy decision made
    on groups of words, without strings; `GreedyLayout` states declaratively
    what a greedy grouping is. `WrapLinesIsGroups` proves the two models
    agree, and the properties of the wrapped text are proved from the
    grouping. */
module Wrap {
  import opened Text

  // ---------------------------------------------------------------------
  // The loop of wrap_text, as written

  /** The loop variables `lines` and `current_line`. */
  datatype WrapState = WrapState(lines: seq<string>, current: string)

  const Start := WrapState([], "")

  /** One pass of the loop body. The fit test measures `current_line + word`,
      which leaves out the space that joining then adds. */
  function Step(st: WrapState, word: string, maxW: int): WrapState {
    if |st.current + word| <= maxW then WrapState(st.lines, st.current + " " + word)
    else WrapState(st.lines + [Strip(st.current)], word)
  }

  /** The `for` loop over the words. */
  function Fold(words: seq<string>, maxW: int, st: WrapState): WrapState
    decreases |words|
  {
    if words == [] then st else Fold(words[1..], maxW, Step(st, words[0], maxW))
  }

  /** The closed lines plus the final line, before they are joined. */
  function WrapLines(words: seq<string>, maxW: int): seq<string> {
    var st := Fold(words, maxW, Start);
    st.lines + [Strip(st.current)]
  }

  /** `wrap_text(text, max_w)`. */
  function WrapText(text: string, maxW: int): string {
    Join(WrapLines(Split(text), maxW), "\n")
  }

  /** The same loop as a `while` statement over the split words. */
  method WrapTextLoop(text: string, maxW: int) returns (r: string)
    ensures r == WrapText(text, maxW)
    ensures Split(r) == Split(text)
  {
    var words := Split(text);
    var lines: seq<string> := [];
    var current := "";
    var i := 0;
    while i < |words|
      invariant i <= |words|
      invariant Fold(words[i..], maxW, WrapState(lines, current)) == Fold(words, maxW, Start)
    {
      var word := words[i];
      assert words[i..][1..] == words[i + 1..];
      if |current + word| <= maxW {
        current := current + " " + word;
      } else {
        lines := lines + [Strip(current)];
        current := word;
      }
      i := i + 1;
    }
    lines := lines + [Strip(current)];
    r := Join(lines, "\n");
    WrapTextKeepsWords(text, maxW);
  }

  // ---------------------------------------------------------------------
  // The greedy decision on groups of words

  /** The length the fit test sees for a line holding the words `g`, at line
      position `index`. The first line's `current_line` carries a leading
      space, so the test counts every separating space; on later lines it
      misses the last one. */
  function Measured(index: nat, g: seq<string>): int {
    |Join(g, " ")| - (if index == 0 then 0 else 1)
  }

  /** The first group may be empty (the first word did not fit); every later
      group starts with a word. */
  predicate StartsWithWord(index: nat, g: seq<string>) {
    index == 0 || g != []
  }

  /** Every word the test let join the group fitted: a group that grew past
      its starting word (on the first line, past nothing) is within the
      bound. Measured only grows as words are added, so the last test
      implies the earlier ones. */
  predicate Fits(index: nat, g: seq<string>, maxW: int) {
    g != [] && (index == 0 || |g| >= 2) ==> Measured(index, g) <= maxW
  }

  /** The first word `next` of the following group failed the test. */
  predicate Breaks(index: nat, g: seq<string>, next: string, maxW: int) {
    Measured(index, g + [next]) > maxW
  }

  /** Group `i` (numbered from `base`) was closed because the first word of
      group `i + 1` failed the test. */
  predicate BreaksAfter(groups: seq<seq<string>>, maxW: int, base: nat, i: nat) {
    i + 1 < |groups| && groups[i + 1] != [] && Breaks(base + i, groups[i], groups[i + 1][0], maxW)
  }

  /** The greedy conditions on `groups`, numbering them from `base`. */
  predicate GreedyFrom(groups: seq<seq<string>>, maxW: int, base: nat) {
    && (forall i :: 0 <= i < |groups| ==> StartsWithWord(base + i, groups[i]))
    && (forall i :: 0 <= i < |groups| ==> Fits(base + i, groups[i], maxW))
    && (forall i :: 0 <= i < |groups| - 1 ==> BreaksAfter(groups, maxW, base, i))
  }

  /** A grouping that the greedy rule could have produced so far. */
  predicate GreedyPrefix(groups: seq<seq<string>>, maxW: int) {
    |groups| >= 1 && GreedyFrom(groups, maxW, 0)
  }

  /** A greedy grouping of exactly the words `words`. */
  predicate GreedyLayout(words: seq<string>, maxW: int, groups: seq<seq<string>>) {
    GreedyPrefix(groups, maxW) && Flatten(groups) == words
  }

  /** A word that passed the test joins the last group and the grouping
      stays greedy. */
  lemma ExtendKeepsGreedy(groups: seq<seq<string>>, word: string, maxW: int)
    requires GreedyPrefix(groups, maxW)
    requires Measured(|groups| - 1, groups[|groups| - 1] + [word]) <= maxW
    ensures GreedyPrefix(groups[..|groups| - 1] + [groups[|groups| - 1] + [word]], maxW)
  {
    var last := |groups| - 1;
    var r := groups[..last] + [groups[last] + [word]];
    forall i | 0 <= i < |r|
      ensures StartsWithWord(i, r[i]) && Fits(i, r[i], maxW)
    {
      if i < last {
        assert r[i] == groups[i];
        assert StartsWithWord(0 + i, groups[i]) && Fits(0 + i, groups[i], maxW);
      }
    }
    forall i | 0 <= i < |r| - 1
      ensures BreaksAfter(r, maxW, 0, i)
    {
      assert r[i] == groups[i];
      assert StartsWithWord(0 + (i + 1), groups[i + 1]);
      assert r[i + 1][0] == groups[i + 1][0];
      assert BreaksAfter(groups, maxW, 0, i);
    }
  }

  /** A word that failed the test opens a new group and the grouping stays
      greedy. */
  lemma OpenKeepsGreedy(groups: seq<seq<string>>, word: string, maxW: int)
    requires GreedyPrefix(groups, maxW)
    requires Measured(|groups| - 1, groups[|groups| - 1] + [word]) > maxW
    ensures GreedyPrefix(groups + [[word]], maxW)
  {
    var r := groups + [[word]];
    forall i | 0 <= i < |r|
      ensures StartsWithWord(i, r[i]) && Fits(i, r[i], maxW)
    {
      if i < |groups| {
        assert r[i] == groups[i];
        assert StartsWithWord(0 + i, groups[i]) && Fits(0 + i, groups[i], maxW);
      }
    }
    forall i | 0 <= i < |r| - 1
      ensures BreaksAfter(r, maxW, 0, i)
    {
      assert r[i] == groups[i];
      if i + 1 < |groups| {
        assert r[i + 1] == groups[i + 1];
        assert BreaksAfter(groups, maxW, 0, i);
      }
    }
  }

  /** Places one word: onto the last group when the test allows it, otherwise
      into a new group of its own. */
  function Place(groups: seq<seq<string>>, word: string, maxW: int): (r: seq<seq<string>>)
    requires |groups| >= 1
    ensures |r| >= 1
    ensures Flatten(r) == Flatten(groups) + [word]
  {
    var last := |groups| - 1;
    FlattenAppend(groups[..last], [groups[last]]);
    assert groups == groups[..last] + [groups[last]];
    if Measured(last, groups[last] + [word]) <= maxW then
      FlattenAppend(groups[..last], [groups[last] + [word]]);
      groups[..last] + [groups[last] + [word]]
    else
      FlattenAppend(groups, [[word]]);
      groups + [[word]]
  }

  /** One step of the loop keeps the grouping greedy. */
  lemma PlaceKeepsGreedy(groups: seq<seq<string>>, word: string, maxW: int)
    requires GreedyPrefix(groups, maxW)
    ensures GreedyPrefix(Place(groups, word, maxW), maxW)
  {
    var last := |groups| - 1;
    if Measured(last, groups[last] + [word]) <= maxW {
      ExtendKeepsGreedy(groups, word, maxW);
    } else {
      OpenKeepsGreedy(groups, word, maxW);
    }
  }

  /** Places the words one after another. */
  function Layout(words: seq<string>, maxW: int, groups: seq<seq<string>>): (r: seq<seq<string>>)
    requires |groups| >= 1
    ensures |r| >= 1
    ensures Flatten(r) == Flatten(groups) + words
    decreases |words|
  {
    if words == [] then groups
    else
      var r := Layout(words[1..], maxW, Place(groups, words[0], maxW));
      assert words == [words[0]] + words[1..];
      r
  }

  /** The whole loop keeps the grouping greedy. */
  lemma {:induction false} LayoutKeepsGreedy(words: seq<string>, maxW: int, groups: seq<seq<string>>)
    requires GreedyPrefix(groups, maxW)
    ensures GreedyPrefix(Layout(words, maxW, groups), maxW)
    decreases |words|
  {
    if words != [] {
      PlaceKeepsGreedy(groups, words[0], maxW);
      LayoutKeepsGreedy(words[1..], maxW, Place(groups, words[0], maxW));
    }
  }

  /** The greedy grouping of `words`, starting from one empty group. */
  function Groups(words: seq<string>, maxW: int): (r: seq<seq<string>>)
    ensures GreedyLayout(words, maxW, r)
  {
    assert GreedyPrefix([[]], maxW);
    LayoutKeepsGreedy(words, maxW, [[]]);
    Layout(words, maxW, [[]])
  }

  // ---------------------------------------------------------------------
  // The greedy grouping is the only one

  /** Groups after the first all hold words, so they flatten to nothing only
      when there are none. */
  lemma FlattenNonEmpty(groups: seq<seq<string>>, maxW: int, base: nat)
    requires base > 0 && GreedyFrom(groups, maxW, base)
    ensures Flatten(groups) == [] <==> groups == []
  {
  }

  /** The rest of a greedy grouping is greedy, numbered one further on. */
  lemma GreedyFromTail(groups: seq<seq<string>>, maxW: int, base: nat)
    requires |groups| >= 1 && GreedyFrom(groups, maxW, base)
    ensures GreedyFrom(groups[1..], maxW, base + 1)
  {
    var t := groups[1..];
    forall i | 0 <= i < |t|
      ensures StartsWithWord(base + 1 + i, t[i]) && Fits(base + 1 + i, t[i], maxW)
    {
      assert t[i] == groups[i + 1];
      assert StartsWithWord(base + (i + 1), groups[i + 1]);
      assert Fits(base + (i + 1), groups[i + 1], maxW);
    }
    var next: nat := base + 1;
    forall i | 0 <= i < |t| - 1
      ensures BreaksAfter(t, maxW, next, i)
    {
      assert BreaksAfter(groups, maxW, base, i + 1);
      assert t[i] == groups[i + 1] && t[i + 1] == groups[i + 2];
    }
  }

  /** The test's measure only grows as words are added to a group. */
  lemma MeasuredPrefix(index: nat, g: seq<string>, n: nat)
    requires 1 <= n <= |g|
    ensures Measured(index, g[..n]) <= Measured(index, g)
  {
    JoinPrefixShorter(g, n, " ");
  }

  /** In a grouping whose second group is not empty, the words start with
      the first group, followed by the second group's first word. */
  lemma FlattenFront<T>(groups: seq<seq<T>>)
    requires |groups| >= 2 && groups[1] != []
    ensures |Flatten(groups)| > |groups[0]|
    ensures Flatten(groups)[..|groups[0]|] == groups[0]
    ensures Flatten(groups)[|groups[0]|] == groups[1][0]
  {
  }

  /** A group that holds a shorter group followed by a word that failed the
      test cannot itself have passed it. */
  lemma RejectedWordStaysOut(a: seq<string>, next: string, b: seq<string>, index: nat, maxW: int)
    requires |a| < |b| && b[..|a| + 1] == a + [next]
    requires index == 0 || a != []
    requires Breaks(index, a, next, maxW)
    ensures !Fits(index, b, maxW)
  {
    MeasuredPrefix(index, b, |a| + 1);
  }

  /** When two groupings of the same words have first groups of different
      lengths, the longer one holds the shorter one and the word after it. */
  lemma LongerFirstGroup<T>(g1: seq<seq<T>>, g2: seq<seq<T>>)
    requires |g1| >= 2 && g1[1] != [] && |g2| >= 1
    requires Flatten(g1) == Flatten(g2)
    requires |g1[0]| < |g2[0]|
    ensures g2[0][..|g1[0]| + 1] == g1[0] + [g1[1][0]]
  {
    var w := Flatten(g1);
    var n := |g1[0]|;
    FlattenFront(g1);
    assert w == g2[0] + Flatten(g2[1..]);
    assert g2[0][..n + 1] == w[..n + 1];
    assert w[..n + 1] == w[..n] + [w[n]];
  }

  /** Two greedy groupings of the same words cannot have a shorter first
      group on one side: the word after the shorter group failed the test,
      yet the longer group holds it. */
  lemma FirstGroupNotShorter(g1: seq<seq<string>>, g2: seq<seq<string>>, maxW: int, base: nat)
    requires |g1| >= 1 && |g2| >= 1
    requires GreedyFrom(g1, maxW, base) && GreedyFrom(g2, maxW, base)
    requires Flatten(g1) == Flatten(g2)
    ensures |g1[0]| >= |g2[0]|
  {
    var a, b := g1[0], g2[0];
    if |a| < |b| {
      if |g1| == 1 {
        assert false;
      }
      assert StartsWithWord(base + 1, g1[1]);
      LongerFirstGroup(g1, g2);
      var next := g1[1][0];
      assert BreaksAfter(g1, maxW, base, 0);
      assert StartsWithWord(base + 0, a);
      assert Fits(base + 0, b, maxW);
      RejectedWordStaysOut(a, next, b, base, maxW);
      assert false;
    }
  }

  /** Two groupings of the same words whose first groups have the same
      length share the first group and group the rest of the words. */
  lemma SameFirstGroup<T>(g1: seq<seq<T>>, g2: seq<seq<T>>)
    requires |g1| >= 1 && |g2| >= 1
    requires Flatten(g1) == Flatten(g2)
    requires |g1[0]| == |g2[0]|
    ensures g1[0] == g2[0]
    ensures Flatten(g1[1..]) == Flatten(g2[1..])
  {
    var w := Flatten(g1);
    assert w == g1[0] + Flatten(g1[1..]);
    assert w == g2[0] + Flatten(g2[1..]);
    assert g1[0] == w[..|g1[0]|] == g2[0];
  }

  lemma {:induction false} GreedyFromUnique(g1: seq<seq<string>>, g2: seq<seq<string>>, maxW: int, base: nat)
    requires |g1| >= 1 && |g2| >= 1
    requires GreedyFrom(g1, maxW, base) && GreedyFrom(g2, maxW, base)
    requires Flatten(g1) == Flatten(g2)
    ensures g1 == g2
    decreases |g1|
  {
    FirstGroupNotShorter(g1, g2, maxW, base);
    FirstGroupNotShorter(g2, g1, maxW, base);
    SameFirstGroup(g1, g2);
    GreedyFromTail(g1, maxW, base);
    GreedyFromTail(g2, maxW, base);
    FlattenNonEmpty(g1[1..], maxW, base + 1);
    FlattenNonEmpty(g2[1..], maxW, base + 1);
    if |g1| > 1 {
      GreedyFromUnique(g1[1..], g2[1..], maxW, base + 1);
      assert g1 == [g1[0]] + g1[1..];
      assert g2 == [g2[0]] + g2[1..];
    } else {
      assert g1 == [g1[0]];
      assert g2 == [g2[0]];
    }
  }

  /** `GreedyLayout` pins the grouping down: any greedy grouping of the
      words is the one `Groups` computes. */
  lemma GreedyLayoutUnique(words: seq<string>, maxW: int, groups: seq<seq<string>>)
    requires GreedyLayout(words, maxW, groups)
    ensures groups == Groups(words, maxW)
  {
    GreedyFromUnique(groups, Groups(words, maxW), maxW, 0);
  }

  // ---------------------------------------------------------------------
  // The loop computes the greedy grouping

  function JoinEach(groups: seq<seq<string>>): seq<string> {
    seq(|groups|, i requires 0 <= i < |groups| => Join(groups[i], " "))
  }

  predicate GroupsOfWords(groups: seq<seq<string>>) {
    forall i :: 0 <= i < |groups| ==> AllWords(groups[i])
  }

  /** The loop state that corresponds to a grouping: the closed groups joined
      by spaces, and the last group as `current_line` holds it. */
  function Abs(groups: seq<seq<string>>): WrapState
    requires |groups| >= 1
  {
    var last := |groups| - 1;
    var cur := Join(groups[last], " ");
    WrapState(JoinEach(groups[..last]),
              if last == 0 && groups[0] != [] then " " + cur else cur)
  }

  /** The loop's fit test on `current_line + word` reads the measure of the
      last group with the word added. */
  lemma TestIsMeasured(groups: seq<seq<string>>, word: string)
    requires |groups| >= 1 && StartsWithWord(|groups| - 1, groups[|groups| - 1])
    ensures |Abs(groups).current + word| == Measured(|groups| - 1, groups[|groups| - 1] + [word])
  {
    var last := |groups| - 1;
    var g := groups[last];
    var cur := Join(g, " ");
    if g != [] {
      JoinSnoc(g, word, " ");
      assert |Join(g + [word], " ")| == |cur| + 1 + |word|;
      if last == 0 {
        assert Abs(groups).current == " " + cur;
      } else {
        assert Abs(groups).current == cur;
      }
    } else {
      assert g + [word] == [word];
      assert Abs(groups).current == "";
    }
  }

  /** Closing the last group with `strip()` gives the last group joined by
      single spaces. */
  lemma CloseIsJoin(groups: seq<seq<string>>)
    requires |groups| >= 1 && AllWords(groups[|groups| - 1])
    ensures Abs(groups).lines + [Strip(Abs(groups).current)] == JoinEach(groups)
  {
    var last := |groups| - 1;
    StripJoinedWords(groups[last]);
    assert Strip(Abs(groups).current) == Join(groups[last], " ");
    assert JoinEach(groups) == JoinEach(groups[..last]) + [Join(groups[last], " ")];
  }

  /** A word that passes the test is appended to `current_line`, which is
      then the last group with the word added. */
  lemma StepExtends(groups: seq<seq<string>>, word: string, maxW: int)
    requires |groups| >= 1 && StartsWithWord(|groups| - 1, groups[|groups| - 1])
    requires |Abs(groups).current + word| <= maxW
    ensures Step(Abs(groups), word, maxW) ==
      Abs(groups[..|groups| - 1] + [groups[|groups| - 1] + [word]])
  {
    var last := |groups| - 1;
    var g := groups[last];
    var r := groups[..last] + [g + [word]];
    assert r[..last] == groups[..last];
    if g != [] {
      JoinSnoc(g, word, " ");
    } else {
      assert g + [word] == [word];
    }
  }

  /** A word that fails the test closes the stripped `current_line` and
      starts a new group. */
  lemma StepOpens(groups: seq<seq<string>>, word: string, maxW: int)
    requires |groups| >= 1 && AllWords(groups[|groups| - 1])
    requires |Abs(groups).current + word| > maxW
    ensures Step(Abs(groups), word, maxW) == Abs(groups + [[word]])
  {
    var r := groups + [[word]];
    CloseIsJoin(groups);
    assert r[..|r| - 1] == groups;
  }

  /** What the loop needs of a grouping: there is a last group, and it is
      the first one or holds a word. */
  predicate LastStarted(groups: seq<seq<string>>) {
    |groups| >= 1 && StartsWithWord(|groups| - 1, groups[|groups| - 1])
  }

  /** One iteration of the loop on the state of a grouping is the state of
      the grouping with the word placed. */
  lemma StepIsPlace(groups: seq<seq<string>>, word: string, maxW: int)
    requires LastStarted(groups) && GroupsOfWords(groups)
    requires IsWord(word)
    ensures Step(Abs(groups), word, maxW) == Abs(Place(groups, word, maxW))
    ensures LastStarted(Place(groups, word, maxW))
    ensures GroupsOfWords(Place(groups, word, maxW))
  {
    var last := |groups| - 1;
    var g := groups[last];
    TestIsMeasured(groups, word);
    if Measured(last, g + [word]) <= maxW {
      StepExtends(groups, word, maxW);
      assert Place(groups, word, maxW) == groups[..last] + [g + [word]];
    } else {
      StepOpens(groups, word, maxW);
      assert Place(groups, word, maxW) == groups + [[word]];
    }
  }

  lemma {:induction false} FoldIsLayout(words: seq<string>, maxW: int, groups: seq<seq<string>>)
    requires LastStarted(groups) && GroupsOfWords(groups)
    requires AllWords(words)
    ensures Fold(words, maxW, Abs(groups)) == Abs(Layout(words, maxW, groups))
    ensures GroupsOfWords(Layout(words, maxW, groups))
    decreases |words|
  {
    if words != [] {
      var next := Place(groups, words[0], maxW);
      StepIsPlace(groups, words[0], maxW);
      FoldIsLayout(words[1..], maxW, next);
      assert Fold(words, maxW, Abs(groups)) == Fold(words[1..], maxW, Abs(next));
      assert Layout(words, maxW, groups) == Layout(words[1..], maxW, next);
    }
  }

  /** The lines the loop produces are exactly the greedy groups, each joined
      by single spaces. */
  lemma WrapLinesIsGroups(words: seq<string>, maxW: int)
    requires AllWords(words)
    ensures WrapLines(words, maxW) == JoinEach(Groups(words, maxW))
    ensures GroupsOfWords(Groups(words, maxW))
  {
    var g0: seq<seq<string>> := [[]];
    assert Abs(g0) == Start;
    FoldIsLayout(words, maxW, g0);
    CloseIsJoin(Groups(words, maxW));
  }

  /** The lines `wrap_text` produces are a greedy grouping of the words,
      each group joined by single spaces, and any greedy grouping of the
      words gives exactly these lines. */
  lemma WrapLinesIsGreedy(words: seq<string>, maxW: int, groups: seq<seq<string>>)
    requires AllWords(words)
    ensures GreedyLayout(words, maxW, groups) ==> WrapLines(words, maxW) == JoinEach(groups)
    ensures exists g :: GreedyLayout(words, maxW, g) && WrapLines(words, maxW) == JoinEach(g)
  {
    WrapLinesIsGroups(words, maxW);
    var g := Groups(words, maxW);
    assert GreedyLayout(words, maxW, g);
    if GreedyLayout(words, maxW, groups) {
      GreedyLayoutUnique(words, maxW, groups);
    }
  }

  // ---------------------------------------------------------------------
  // Properties of the wrapped lines

  lemma {:induction false} LineWordsOfGroups(groups: seq<seq<string>>)
    requires GroupsOfWords(groups)
    ensures LineWords(JoinEach(groups)) == Flatten(groups)
    decreases |groups|
  {
    if groups != [] {
      assert JoinEach(groups)[1..] == JoinEach(groups[1..]);
      SplitJoinWords(groups[0]);
      LineWordsOfGroups(groups[1..]);
    }
  }

  /** Every word lands in exactly one line, in its original order: the
      words of the lines, taken line by line, are the input words. */
  lemma LinesKeepWords(words: seq<string>, maxW: int)
    requires AllWords(words)
    ensures LineWords(WrapLines(words, maxW)) == words
  {
    WrapLinesIsGroups(words, maxW);
    LineWordsOfGroups(Groups(words, maxW));
  }

  /** Splitting the wrapped text gives exactly the words of the input. */
  lemma WrapTextKeepsWords(text: string, maxW: int)
    ensures Split(WrapText(text, maxW)) == Split(text)
  {
    SplitJoinLines(WrapLines(Split(text), maxW));
    LinesKeepWords(Split(text), maxW);
  }

  /** Wrapping already wrapped text changes nothing. */
  lemma WrapTextIdempotent(text: string, maxW: int)
    ensures WrapText(WrapText(text, maxW), maxW) == WrapText(text, maxW)
  {
    WrapTextKeepsWords(text, maxW);
  }

  /** Every line is its own words joined by single spaces. */
  lemma LinesAreJoinedWords(words: seq<string>, maxW: int)
    requires AllWords(words)
    ensures forall i :: 0 <= i < |WrapLines(words, maxW)| ==>
      WrapLines(words, maxW)[i] == Join(Split(WrapLines(words, maxW)[i]), " ")
  {
    WrapLinesIsGroups(words, maxW);
    var groups := Groups(words, maxW);
    forall i | 0 <= i < |groups|
      ensures JoinEach(groups)[i] == Join(Split(JoinEach(groups)[i]), " ")
    {
      SplitJoinWords(groups[i]);
    }
  }

  /** The first group is empty exactly when there are no words or the first
      word failed the test on its own. */
  lemma FirstGroupEmpty(words: seq<string>, maxW: int)
    requires AllWords(words)
    ensures Groups(words, maxW)[0] == [] <==> words == [] || |words[0]| > maxW
  {
    WrapLinesIsGroups(words, maxW);
    var groups := Groups(words, maxW);
    assert Flatten(groups) == groups[0] + Flatten(groups[1..]);
    if groups[0] == [] {
      if |groups| > 1 {
        assert StartsWithWord(1, groups[1]);
        assert Flatten(groups[1..]) == groups[1] + Flatten(groups[2..]);
        var f := groups[1][0];
        assert words[0] == f;
        assert BreaksAfter(groups, maxW, 0, 0);
        assert groups[0] + [f] == [f];
      } else {
        assert Flatten(groups[1..]) == [];
      }
    } else {
      assert Fits(0, groups[0], maxW);
      JoinWordsEnds(groups[0]);
    }
  }

  /** Only the first line can be empty, and it is empty exactly when there
      are no words or the first word is longer than `maxW`. */
  lemma EmptyLines(words: seq<string>, maxW: int)
    requires AllWords(words)
    ensures |WrapLines(words, maxW)| >= 1
    ensures forall i :: 0 <= i < |WrapLines(words, maxW)| ==>
      (WrapLines(words, maxW)[i] == "" <==> i == 0 && (words == [] || |words[0]| > maxW))
  {
    WrapLinesIsGroups(words, maxW);
    FirstGroupEmpty(words, maxW);
    var groups := Groups(words, maxW);
    var lines := JoinEach(groups);
    forall i | 0 <= i < |groups|
      ensures lines[i] == "" <==> groups[i] == []
    {
      JoinWordsEnds(groups[i]);
    }
    assert StartsWithWord(0, groups[0]);
  }

  /** The length bound the test on line 21 gives. The first line is empty or
      fits within `maxW`; a later line that holds two or more words can
      exceed `maxW` by one, the separating space the test does not count; a
      later line longer than `maxW + 1` is a single word. */
  lemma LineLengthBound(words: seq<string>, maxW: int)
    requires AllWords(words)
    ensures |WrapLines(words, maxW)| >= 1
    ensures WrapLines(words, maxW)[0] == "" || |WrapLines(words, maxW)[0]| <= maxW
    ensures forall i :: 0 < i < |WrapLines(words, maxW)| ==>
      |WrapLines(words, maxW)[i]| <= maxW + 1 || IsWord(WrapLines(words, maxW)[i])
  {
    WrapLinesIsGroups(words, maxW);
    var groups := Groups(words, maxW);
    forall i | 0 < i < |groups|
      ensures |Join(groups[i], " ")| <= maxW + 1 || IsWord(Join(groups[i], " "))
    {
      if |groups[i]| == 1 {
        assert IsWord(groups[i][0]);
      }
    }
  }

  /** The test on line 21 rejected the first word of line `i + 1` when it
      was tried on line `i`. For the first line the test measured the line
      with its leading space (or the word alone when the line is empty); for
      later lines it measured the line and the word with no space between
      them. */
  predicate ClosedByTest(lines: seq<string>, i: nat, maxW: int) {
    && i + 1 < |lines|
    && var line := lines[i];
       var next := Split(lines[i + 1]);
       && next != []
       && (if i == 0 && line != "" then 1 + |line| + |next[0]| else |line| + |next[0]|) > maxW
  }

  /** One closed group, seen as lines: the next line's first word failed
      the test against this line. */
  lemma GroupClosedByTest(groups: seq<seq<string>>, maxW: int, i: nat)
    requires GreedyPrefix(groups, maxW) && GroupsOfWords(groups)
    requires i < |groups| - 1
    ensures ClosedByTest(JoinEach(groups), i, maxW)
  {
    assert BreaksAfter(groups, maxW, 0, i);
    SplitJoinWords(groups[i + 1]);
    var f := groups[i + 1][0];
    JoinWordsEnds(groups[i]);
    if groups[i] == [] {
      assert groups[i] + [f] == [f];
    } else {
      JoinSnoc(groups[i], f, " ");
    }
  }

  /** Greediness: every line but the last was closed only because the next
      line's first word failed the test. */
  lemma LinesAreGreedy(words: seq<string>, maxW: int)
    requires AllWords(words)
    ensures forall i :: 0 <= i < |WrapLines(words, maxW)| - 1 ==> ClosedByTest(WrapLines(words, maxW), i, maxW)
  {
    WrapLinesIsGroups(words, maxW);
    var groups := Groups(words, maxW);
    forall i | 0 <= i < |groups| - 1
      ensures ClosedByTest(JoinEach(groups), i, maxW)
    {
      GroupClosedByTest(groups, maxW, i);
    }
  }
}
