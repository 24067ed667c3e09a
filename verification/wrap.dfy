/**
 * The greedy word wrapper `wrap_text`. The rendering surface's string-width
 * measurement for the chosen font and size is the parameter `width`; nothing
 * is assumed about it (not even monotonicity).
 */
module Wrap {
  import opened Text

  /** A wrapped line: one or more words separated by single spaces. */
  predicate IsLine(l: string) {
    Split(l) != [] && Join(Split(l), " ") == l
  }

  /** The words of all lines, in order. */
  function Words(lines: seq<string>): seq<string> {
    if lines == [] then [] else Split(lines[0]) + Words(lines[1..])
  }

  lemma {:induction false} WordsAppend(a: seq<string>, b: seq<string>)
    ensures Words(a + b) == Words(a) + Words(b)
    decreases |a|
  {
    if a != [] {
      assert (a + b)[1..] == a[1..] + b;
      WordsAppend(a[1..], b);
    } else {
      assert a + b == b;
    }
  }

  /** A line is within budget, or it is one word too wide to split. */
  ghost predicate Fits(width: string -> real, maxWidth: real, line: string) {
    width(line) <= maxWidth || |Split(line)| == 1
  }

  /** The first word of `next` would have overflowed `line`. */
  ghost predicate Forced(width: string -> real, maxWidth: real, line: string, next: string) {
    Split(next) != [] && width(line + " " + Split(next)[0]) > maxWidth
  }

  ghost predicate WellWrapped(width: string -> real, maxWidth: real, lines: seq<string>) {
    && (forall i :: 0 <= i < |lines| ==> IsLine(lines[i]) && Fits(width, maxWidth, lines[i]))
    && (forall i, j :: 0 <= i < j < |lines| && j == i + 1 ==> Forced(width, maxWidth, lines[i], lines[j]))
  }

  /** Appending a word to the line being built (`test_line`). */
  lemma ExtendLine(current: string, word: string)
    requires current == "" || IsLine(current)
    requires IsWord(word)
    ensures var candidate := current + (if current != "" then " " else "") + word;
      && IsLine(candidate)
      && Split(candidate) == Split(current) + [word]
      && (current != "" ==> Split(candidate)[0] == Split(current)[0])
  {
    SplitWord(word);
    if current == "" {
      assert current + "" + word == word;
    } else {
      var candidate := current + " " + word;
      assert candidate == current + [' '] + word;
      SplitAroundSpace(current, ' ', word);
      JoinSnoc(Split(current), word, " ");
    }
  }

  /** What the loop of `wrap_text` keeps true of its emitted lines and its current line. */
  ghost predicate PackState(width: string -> real, maxWidth: real, done: seq<string>, current: string) {
    && WellWrapped(width, maxWidth, done)
    && (current == "" ==> done == [])
    && (current != "" ==> IsLine(current) && Fits(width, maxWidth, current))
    && (current != "" && done != [] ==> Forced(width, maxWidth, Last(done), current))
  }

  /** The line `wrap_text` tries before deciding: `test_line`. */
  function Candidate(current: string, word: string): string {
    current + (if current != "" then " " else "") + word
  }

  /** One iteration of the loop of `wrap_text`: the next (emitted lines, current line). */
  function Step(width: string -> real, maxWidth: real, done: seq<string>, current: string,
                word: string): (seq<string>, string)
  {
    if width(Candidate(current, word)) <= maxWidth then (done, Candidate(current, word))
    else (if current != "" then done + [current] else done, word)
  }

  /**
   * The loop of `wrap_text` from the state (`done` lines emitted, `current`
   * line under construction) over the remaining `words`, then the final flush.
   */
  function Pack(width: string -> real, maxWidth: real, done: seq<string>, current: string,
                words: seq<string>): seq<string>
    decreases |words|
  {
    if words == [] then
      if current != "" then done + [current] else done
    else
      var next := Step(width, maxWidth, done, current, words[0]);
      Pack(width, maxWidth, next.0, next.1, words[1..])
  }

  /** Emitting a line that fits and was forced by its predecessor keeps the lines well wrapped. */
  lemma WellWrappedSnoc(width: string -> real, maxWidth: real, done: seq<string>, line: string)
    requires WellWrapped(width, maxWidth, done)
    requires IsLine(line) && Fits(width, maxWidth, line)
    requires done != [] ==> Forced(width, maxWidth, Last(done), line)
    ensures WellWrapped(width, maxWidth, done + [line])
  {
    var lines := done + [line];
    forall i | 0 <= i < |lines| ensures IsLine(lines[i]) && Fits(width, maxWidth, lines[i]) {
      if i < |done| {
        assert lines[i] == done[i];
      }
    }
    forall i, j | 0 <= i < j < |lines| && j == i + 1 ensures Forced(width, maxWidth, lines[i], lines[j]) {
      if j < |done| {
        assert lines[i] == done[i] && lines[j] == done[j];
      } else {
        assert lines[i] == Last(done);
      }
    }
  }

  /** The word fits on the current line: the line grows and keeps its first word. */
  lemma StepFitsKeepsState(width: string -> real, maxWidth: real, done: seq<string>, current: string, word: string)
    requires PackState(width, maxWidth, done, current) && IsWord(word)
    requires width(Candidate(current, word)) <= maxWidth
    ensures PackState(width, maxWidth, done, Candidate(current, word))
  {
    ExtendLine(current, word);
    var candidate := Candidate(current, word);
    if current != "" && done != [] {
      assert FirstWord(candidate) == FirstWord(current);
      assert Forced(width, maxWidth, Last(done), candidate);
    }
  }

  /** The word overflows: the current line is emitted and the word starts the next one. */
  lemma StepOverflowKeepsState(width: string -> real, maxWidth: real, done: seq<string>, current: string, word: string)
    requires PackState(width, maxWidth, done, current) && IsWord(word)
    requires width(Candidate(current, word)) > maxWidth
    ensures var done' := if current != "" then done + [current] else done;
      PackState(width, maxWidth, done', word)
  {
    SplitWord(word);
    if current != "" {
      WellWrappedSnoc(width, maxWidth, done, current);
      assert Candidate(current, word) == current + " " + Split(word)[0];
      assert Last(done + [current]) == current;
    }
  }

  /** An iteration keeps the loop invariant. */
  lemma StepKeepsState(width: string -> real, maxWidth: real, done: seq<string>, current: string, word: string)
    requires PackState(width, maxWidth, done, current) && IsWord(word)
    ensures var next := Step(width, maxWidth, done, current, word);
      PackState(width, maxWidth, next.0, next.1)
  {
    if width(Candidate(current, word)) <= maxWidth {
      StepFitsKeepsState(width, maxWidth, done, current, word);
    } else {
      StepOverflowKeepsState(width, maxWidth, done, current, word);
    }
  }

  /** An iteration moves one word from the input to the lines. */
  lemma StepKeepsWords(width: string -> real, maxWidth: real, done: seq<string>, current: string, word: string)
    requires IsWord(word)
    ensures var next := Step(width, maxWidth, done, current, word);
      Words(next.0) + Split(next.1) == Words(done) + Split(current) + [word]
  {
    SplitWord(word);
    if current == "" {
      assert Candidate(current, word) == word;
    } else {
      assert Candidate(current, word) == current + [' '] + word;
      SplitAroundSpace(current, ' ', word);
      WordsAppend(done, [current]);
      assert Words([current]) == Split(current) + Words([]);
    }
  }

  /** No words left: the final flush keeps the invariant and the words. */
  lemma FinishLines(width: string -> real, maxWidth: real, done: seq<string>, current: string)
    requires PackState(width, maxWidth, done, current)
    ensures var lines := if current != "" then done + [current] else done;
      WellWrapped(width, maxWidth, lines)
  {
    var lines := if current != "" then done + [current] else done;
    assert forall i :: 0 <= i < |done| ==> lines[i] == done[i];
  }

  lemma {:induction false} PackWellWrapped(width: string -> real, maxWidth: real, done: seq<string>,
                                           current: string, words: seq<string>)
    requires forall k :: 0 <= k < |words| ==> IsWord(words[k])
    requires PackState(width, maxWidth, done, current)
    ensures WellWrapped(width, maxWidth, Pack(width, maxWidth, done, current, words))
    decreases |words|
  {
    if words == [] {
      FinishLines(width, maxWidth, done, current);
    } else {
      StepKeepsState(width, maxWidth, done, current, words[0]);
      var next := Step(width, maxWidth, done, current, words[0]);
      PackWellWrapped(width, maxWidth, next.0, next.1, words[1..]);
    }
  }

  /** The loop emits exactly the words it was given, after those already placed. */
  lemma {:induction false} PackKeepsWords(width: string -> real, maxWidth: real, done: seq<string>,
                                          current: string, words: seq<string>)
    requires forall k :: 0 <= k < |words| ==> IsWord(words[k])
    ensures Words(Pack(width, maxWidth, done, current, words)) == Words(done) + Split(current) + words
    decreases |words|
  {
    if words == [] {
      WordsAppend(done, [current]);
      assert Words([current]) == Split(current) + Words([]);
      assert Split("") == [];
    } else {
      var next := Step(width, maxWidth, done, current, words[0]);
      assert Pack(width, maxWidth, done, current, words) == Pack(width, maxWidth, next.0, next.1, words[1..]);
      PackKeepsWords(width, maxWidth, next.0, next.1, words[1..]);
      StepKeepsWords(width, maxWidth, done, current, words[0]);
      var before := Words(done) + Split(current);
      assert Words(next.0) + Split(next.1) == before + [words[0]];
      assert (before + [words[0]]) + words[1..] == before + words;
    }
  }

  /**
   * Every prefix of two or more words of `line` was a `test_line` the loop
   * accepted, so each of them fit.
   */
  ghost predicate PrefixesFit(width: string -> real, maxWidth: real, line: string) {
    forall k :: 2 <= k <= |Split(line)| ==> width(Join(Split(line)[..k], " ")) <= maxWidth
  }

  ghost predicate AllPrefixesFit(width: string -> real, maxWidth: real, lines: seq<string>) {
    forall i :: 0 <= i < |lines| ==> PrefixesFit(width, maxWidth, lines[i])
  }

  /** An accepted extension fits as a whole, and its shorter prefixes are the current line's. */
  lemma StepFitsPrefixes(width: string -> real, maxWidth: real, current: string, word: string)
    requires current == "" || IsLine(current)
    requires IsWord(word)
    requires PrefixesFit(width, maxWidth, current)
    requires width(Candidate(current, word)) <= maxWidth
    ensures IsLine(Candidate(current, word)) && PrefixesFit(width, maxWidth, Candidate(current, word))
  {
    ExtendLine(current, word);
    var candidate := Candidate(current, word);
    var ws := Split(candidate);
    forall k | 2 <= k <= |ws| ensures width(Join(ws[..k], " ")) <= maxWidth {
      if k < |ws| {
        assert ws[..k] == Split(current)[..k];
      } else {
        assert ws[..k] == ws;
      }
    }
  }

  /** An iteration keeps every prefix of every line within budget. */
  lemma StepPrefixes(width: string -> real, maxWidth: real, done: seq<string>, current: string, word: string)
    requires current == "" || IsLine(current)
    requires IsWord(word)
    requires AllPrefixesFit(width, maxWidth, done) && PrefixesFit(width, maxWidth, current)
    ensures var next := Step(width, maxWidth, done, current, word);
      && (next.1 == "" || IsLine(next.1))
      && AllPrefixesFit(width, maxWidth, next.0) && PrefixesFit(width, maxWidth, next.1)
  {
    if width(Candidate(current, word)) <= maxWidth {
      StepFitsPrefixes(width, maxWidth, current, word);
    } else {
      ExtendLine("", word);
      assert Candidate("", word) == word;
      SplitWord(word);
      if current != "" {
        var emitted := done + [current];
        assert forall i :: 0 <= i < |done| ==> emitted[i] == done[i];
        assert Last(emitted) == current;
      }
    }
  }

  lemma {:induction false} PackPrefixesFit(width: string -> real, maxWidth: real, done: seq<string>,
                                           current: string, words: seq<string>)
    requires forall k :: 0 <= k < |words| ==> IsWord(words[k])
    requires current == "" || IsLine(current)
    requires AllPrefixesFit(width, maxWidth, done) && PrefixesFit(width, maxWidth, current)
    ensures AllPrefixesFit(width, maxWidth, Pack(width, maxWidth, done, current, words))
    decreases |words|
  {
    if words == [] {
      if current != "" {
        var lines := done + [current];
        assert forall i :: 0 <= i < |done| ==> lines[i] == done[i];
        assert Last(lines) == current;
      }
    } else {
      StepPrefixes(width, maxWidth, done, current, words[0]);
      var next := Step(width, maxWidth, done, current, words[0]);
      PackPrefixesFit(width, maxWidth, next.0, next.1, words[1..]);
    }
  }

  /** The first word of a line ("" for a blank one). */
  function FirstWord(line: string): string {
    var ws := Split(line);
    if ws == [] then "" else ws[0]
  }

  /** `wrap_text(text, max_width, ...)` with `width` the measurement at its font and size. */
  function WrapText(text: string, width: string -> real, maxWidth: real): (lines: seq<string>)
    ensures forall i :: 0 <= i < |lines| ==> IsLine(lines[i])
    ensures forall i :: 0 <= i < |lines| ==> width(lines[i]) <= maxWidth || |Split(lines[i])| == 1
    ensures forall i, j :: 0 <= i < j < |lines| && j == i + 1 ==> width(lines[i] + " " + FirstWord(lines[j])) > maxWidth
    ensures forall i, k :: 0 <= i < |lines| && 2 <= k <= |Split(lines[i])| ==>
      width(Join(Split(lines[i])[..k], " ")) <= maxWidth
    ensures Words(lines) == Split(text)
    ensures lines == [] <==> Split(text) == []
  {
    var lines := Pack(width, maxWidth, [], "", Split(text));
    assert Split("") == [];
    PackPrefixesFit(width, maxWidth, [], "", Split(text));
    PackWellWrapped(width, maxWidth, [], "", Split(text));
    PackKeepsWords(width, maxWidth, [], "", Split(text));
    assert Split("") == [];
    assert lines == [] ==> Words(lines) == [];
    assert lines != [] ==> Words(lines) == Split(lines[0]) + Words(lines[1..]);
    lines
  }

  /** Space-joined lines split back into their words. */
  lemma {:induction false} SplitJoinedLines(lines: seq<string>)
    ensures Split(Join(lines, " ")) == Words(lines)
    decreases |lines|
  {
    if |lines| == 0 {
    } else if |lines| == 1 {
      assert Words(lines[1..]) == [];
    } else {
      SplitJoinedLines(lines[1..]);
      assert Join(lines, " ") == lines[0] + [' '] + Join(lines[1..], " ");
      SplitAroundSpace(lines[0], ' ', Join(lines[1..], " "));
    }
  }

  /** `" ".join(wrap_text(text, ...)).split() == text.split()`: no word dropped, duplicated or moved. */
  lemma WrapKeepsWords(text: string, width: string -> real, maxWidth: real)
    ensures Split(Join(WrapText(text, width, maxWidth), " ")) == Split(text)
  {
    SplitJoinedLines(WrapText(text, width, maxWidth));
  }

  // ---------------------------------------------------------------------
  // The contract fixes the lines
  // ---------------------------------------------------------------------

  /**
   * What `WrapText` promises about its lines for the words `ws`: each is a
   * line whose prefixes of two or more words fit, each break was forced, and
   * together they hold exactly `ws`.
   */
  ghost predicate Greedy(width: string -> real, maxWidth: real, ws: seq<string>, lines: seq<string>) {
    && (forall i :: 0 <= i < |lines| ==> IsLine(lines[i]) && PrefixesFit(width, maxWidth, lines[i]))
    && (forall i :: 0 <= i < |lines| - 1 ==> width(lines[i] + " " + FirstWord(lines[i + 1])) > maxWidth)
    && Words(lines) == ws
  }

  /** The first line holds the first words, and the other lines the rest. */
  lemma FirstLineWords(ws: seq<string>, lines: seq<string>)
    requires lines != [] && Words(lines) == ws
    ensures |Split(lines[0])| <= |ws|
    ensures Split(lines[0]) == ws[..|Split(lines[0])|]
    ensures Words(lines[1..]) == ws[|Split(lines[0])|..]
  {
  }

  /** The remaining lines are greedy for the remaining words. */
  lemma GreedyTail(width: string -> real, maxWidth: real, ws: seq<string>, lines: seq<string>)
    requires lines != [] && Greedy(width, maxWidth, ws, lines)
    ensures Greedy(width, maxWidth, ws[|Split(lines[0])|..], lines[1..])
  {
    FirstLineWords(ws, lines);
    var tail := lines[1..];
    assert forall i :: 0 <= i < |tail| ==> tail[i] == lines[i + 1];
  }

  /** No words, no lines: every line holds a word. */
  lemma GreedyEmpty(width: string -> real, maxWidth: real, lines: seq<string>)
    requires Greedy(width, maxWidth, [], lines)
    ensures lines == []
  {
    if lines != [] {
      assert false;
    }
  }

  /** Any prefix of two or more words of a greedy first line fit. */
  lemma GreedyPrefixFits(width: string -> real, maxWidth: real, ws: seq<string>,
                         lines: seq<string>, n: nat)
    requires lines != [] && Greedy(width, maxWidth, ws, lines)
    requires 2 <= n <= |Split(lines[0])|
    ensures width(Join(ws[..n], " ")) <= maxWidth
  {
    FirstLineWords(ws, lines);
    assert PrefixesFit(width, maxWidth, lines[0]);
    assert Split(lines[0])[..n] == ws[..n];
  }

  /** The first line of greedy lines plus the next word does not fit. */
  lemma GreedyBreakForced(width: string -> real, maxWidth: real, ws: seq<string>, lines: seq<string>)
    requires lines != [] && Greedy(width, maxWidth, ws, lines)
    requires |Split(lines[0])| < |ws|
    ensures width(Join(ws[..|Split(lines[0])| + 1], " ")) > maxWidth
  {
    var a := |Split(lines[0])|;
    FirstLineWords(ws, lines);
    assert IsLine(lines[0]);
    assert Words(lines[1..]) == ws[a..];
    assert |lines| > 1;
    assert Words(lines[1..]) == Split(lines[1]) + Words(lines[2..]);
    assert IsLine(lines[1]);
    assert FirstWord(lines[1]) == ws[a];
    assert ws[..a + 1] == ws[..a] + [ws[a]];
    JoinSnoc(ws[..a], ws[a], " ");
  }

  /**
   * A greedy first line is at least as long as any other greedy first line:
   * one more word fit on the longer one, so the break after the shorter one
   * was not forced.
   */
  lemma GreedyFirstLongest(width: string -> real, maxWidth: real, ws: seq<string>,
                           lines: seq<string>, other: seq<string>)
    requires lines != [] && other != []
    requires Greedy(width, maxWidth, ws, lines) && Greedy(width, maxWidth, ws, other)
    ensures |Split(other[0])| <= |Split(lines[0])|
  {
    var a := |Split(lines[0])|;
    var b := |Split(other[0])|;
    FirstLineWords(ws, lines);
    FirstLineWords(ws, other);
    if a < b {
      assert IsLine(lines[0]);
      GreedyPrefixFits(width, maxWidth, ws, other, a + 1);
      GreedyBreakForced(width, maxWidth, ws, lines);
      assert false;
    }
  }

  /** At most one list of lines is greedy for given words. */
  lemma {:induction false} GreedyUnique(width: string -> real, maxWidth: real, ws: seq<string>,
                                        lines: seq<string>, other: seq<string>)
    requires Greedy(width, maxWidth, ws, lines) && Greedy(width, maxWidth, ws, other)
    ensures lines == other
    decreases |ws|
  {
    if lines == [] {
      GreedyEmpty(width, maxWidth, other);
    } else if other == [] {
      GreedyEmpty(width, maxWidth, lines);
    } else {
      GreedyFirstLongest(width, maxWidth, ws, lines, other);
      GreedyFirstLongest(width, maxWidth, ws, other, lines);
      var a := |Split(lines[0])|;
      FirstLineWords(ws, lines);
      FirstLineWords(ws, other);
      assert IsLine(lines[0]) && IsLine(other[0]);
      assert lines[0] == other[0];
      assert a > 0;
      GreedyTail(width, maxWidth, ws, lines);
      GreedyTail(width, maxWidth, ws, other);
      GreedyUnique(width, maxWidth, ws[a..], lines[1..], other[1..]);
      assert lines == [lines[0]] + lines[1..];
      assert other == [other[0]] + other[1..];
    }
  }

  /**
   * The contract of `WrapText` fixes its result for every measurement, even a
   * non-monotone one: any greedy lines for `text.split()` are `wrap_text`'s.
   */
  lemma WrapTextUnique(text: string, width: string -> real, maxWidth: real, lines: seq<string>)
    requires Greedy(width, maxWidth, Split(text), lines)
    ensures lines == WrapText(text, width, maxWidth)
  {
    var wrapped := WrapText(text, width, maxWidth);
    assert Greedy(width, maxWidth, Split(text), wrapped);
    GreedyUnique(width, maxWidth, Split(text), lines, wrapped);
  }
}
