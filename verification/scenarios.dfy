/** Families of inputs on which the wrapper and the handler give a result
    that can be written down in full. Each is proved from the
    characterisation of the loop as the greedy grouping. */
module Scenarios {
  import opened Text
  import opened Wrap
  import opened Wrappers
  import opened Handler

  lemma JoinTwo(x: string, y: string, sep: string)
    ensures Join([x, y], sep) == x + sep + y
  {
  }

  lemma JoinThree(x: string, y: string, z: string, sep: string)
    ensures Join([x, y, z], sep) == x + sep + y + sep + z
  {
    assert [x, y, z][1..] == [y, z];
    JoinTwo(y, z, sep);
  }

  /** Wrapping words joined by single spaces wraps exactly those words. */
  lemma WrapJoined(ws: seq<string>, maxW: int)
    requires AllWords(ws)
    ensures WrapText(Join(ws, " "), maxW) == Join(WrapLines(ws, maxW), "\n")
  {
    SplitJoinWords(ws);
  }

  /** Three words where the second opens a new line and the third joins it:
      the fit test compares `b + c` without the space it then adds, so the
      second line is `|b| + |c| + 1` long and can reach `max_w + 1`. */
  lemma SecondLineLines(a: string, b: string, c: string, maxW: int)
    requires IsWord(a) && IsWord(b) && IsWord(c)
    requires |a| <= maxW && |a| + 1 + |b| > maxW && |b| + |c| <= maxW
    ensures WrapLines([a, b, c], maxW) == [a, b + " " + c]
  {
    var ws := [a, b, c];
    var groups := [[a], [b, c]];
    assert AllWords(ws);
    JoinTwo(a, b, " ");
    JoinTwo(b, c, " ");
    assert Fits(0, groups[0], maxW) && Fits(1, groups[1], maxW);
    assert BreaksAfter(groups, maxW, 0, 0);
    assert groups[1..] == [[b, c]] && groups[1..][1..] == [];
    assert Flatten(groups[1..]) == [b, c];
    assert Flatten(groups) == [a] + [b, c] == ws;
    assert GreedyLayout(ws, maxW, groups);
    WrapLinesIsGreedy(ws, maxW, groups);
    assert JoinEach(groups) == [a, b + " " + c];
  }

  /** The same three words as text: the second line holds `b` and `c`. */
  lemma SecondLineReachesBoundPlusOne(a: string, b: string, c: string, maxW: int)
    requires IsWord(a) && IsWord(b) && IsWord(c)
    requires |a| <= maxW && |a| + 1 + |b| > maxW && |b| + |c| <= maxW
    ensures WrapText(a + " " + b + " " + c, maxW) == a + "\n" + b + " " + c
  {
    var lines := WrapLines([a, b, c], maxW);
    assert WrapText(a + " " + b + " " + c, maxW) == Join(lines, "\n") by {
      assert AllWords([a, b, c]);
      JoinThree(a, b, c, " ");
      WrapJoined([a, b, c], maxW);
    }
    assert Join(lines, "\n") == a + "\n" + b + " " + c by {
      SecondLineLines(a, b, c, maxW);
      JoinTwo(a, b + " " + c, "\n");
    }
  }

  /** A first word longer than `max_w` closes the still empty first line
      and stands alone on the second. */
  lemma LongFirstWordLines(a: string, b: string, maxW: int)
    requires IsWord(a) && IsWord(b)
    requires |a| > maxW
    ensures WrapLines([a, b], maxW) == ["", a, b]
  {
    var ws := [a, b];
    var groups: seq<seq<string>> := [[], [a], [b]];
    assert AllWords(ws);
    JoinTwo(a, b, " ");
    assert BreaksAfter(groups, maxW, 0, 0);
    assert BreaksAfter(groups, maxW, 0, 1);
    assert groups[1..] == [[a], [b]] && groups[1..][1..] == [[b]] && groups[1..][1..][1..] == [];
    assert Flatten(groups[1..][1..]) == [b];
    assert Flatten(groups[1..]) == [a] + [b];
    assert Flatten(groups) == [] + ([a] + [b]) == ws;
    assert GreedyLayout(ws, maxW, groups);
    WrapLinesIsGreedy(ws, maxW, groups);
    assert JoinEach(groups) == ["", a, b];
  }

  /** So the wrapped text starts with a newline. */
  lemma LongFirstWordEmptyFirstLine(a: string, b: string, maxW: int)
    requires IsWord(a) && IsWord(b)
    requires |a| > maxW
    ensures WrapText(a + " " + b, maxW) == "\n" + a + "\n" + b
  {
    var lines := WrapLines([a, b], maxW);
    assert WrapText(a + " " + b, maxW) == Join(lines, "\n") by {
      assert AllWords([a, b]);
      JoinTwo(a, b, " ");
      WrapJoined([a, b], maxW);
    }
    assert Join(lines, "\n") == "\n" + a + "\n" + b by {
      LongFirstWordLines(a, b, maxW);
      JoinThree("", a, b, "\n");
    }
  }

  /** The words stay on one line exactly when, joined by single spaces, they
      fit in `max_w`; the line is then that join. */
  lemma OneLineExactlyWhenFits(words: seq<string>, maxW: int)
    requires AllWords(words) && words != []
    ensures |WrapLines(words, maxW)| == 1 <==> |Join(words, " ")| <= maxW
    ensures |Join(words, " ")| <= maxW ==> WrapLines(words, maxW) == [Join(words, " ")]
  {
    var one := [words];
    assert Flatten(one) == words;
    WrapLinesIsGroups(words, maxW);
    if |Join(words, " ")| <= maxW {
      assert GreedyLayout(words, maxW, one);
      WrapLinesIsGreedy(words, maxW, one);
    }
    var groups := Groups(words, maxW);
    if |groups| == 1 {
      assert Flatten(groups) == groups[0];
      assert groups == one;
      assert Fits(0, words, maxW);
    }
  }

  /** Text whose words, joined by single spaces, fit in `max_w` comes back
      as exactly that join: one line, with its runs of whitespace collapsed
      and its ends trimmed. */
  lemma FittingTextOneLine(text: string, maxW: int)
    requires Split(text) != [] && |Join(Split(text), " ")| <= maxW
    ensures WrapText(text, maxW) == Join(Split(text), " ")
  {
    OneLineExactlyWhenFits(Split(text), maxW);
  }

  /** A prompt answered by one completion that fits the width gives one
      "Assistant" item that shows and copies the completion unchanged. */
  lemma OneCompletion(prompt: string, post: RequestBody -> Transport, width: int,
                      shown: string, words: seq<string>)
    requires prompt != "" && AllWords(words) && words != []
    requires |Join(words, " ")| <= width
    requires post(BuildRequest(prompt)) == Delivered(Response(shown, [TextChoice(Join(words, " "))]))
    ensures OnEvent(Some(prompt), post, width) ==
      [ResultItem("images/icon.png", "Assistant", Some(Join(words, " ")), CopyToClipboard(Join(words, " ")))]
  {
    SplitJoinWords(words);
    FittingTextOneLine(Join(words, " "), width);
    assert Prompt(Some(prompt)) == Some(prompt);
  }
}
