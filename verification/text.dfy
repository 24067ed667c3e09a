/**
 * String primitives with the meaning of the Python built-ins the receipt
 * converter is written with: `str.split()` without argument, `str.strip()`,
 * `str.splitlines()`, `str.split(sep)`, `sep.join(...)`, `in`, `find`,
 * `startswith`, ASCII `upper()`/`lower()`, and the decimal-token regular
 * expressions `^\d+\.\d+` and `^\d+\.\d+$`.
 */
module Text {

  datatype Option<T> = None | Some(value: T)

  function Last<T>(s: seq<T>): T
    requires s != []
  {
    s[|s| - 1]
  }

  /** The characters for which Python's `str.isspace()` holds (also what `\s` matches). */
  predicate IsSpace(c: char) {
    var n := c as int;
    n == 0x20 || 0x09 <= n <= 0x0D || 0x1C <= n <= 0x1F || n == 0x85 || n == 0xA0
    || n == 0x1680 || 0x2000 <= n <= 0x200A || n == 0x2028 || n == 0x2029
    || n == 0x202F || n == 0x205F || n == 0x3000
  }

  /** The line boundaries recognised by Python's `str.splitlines()`. */
  predicate IsLineBreak(c: char) {
    var n := c as int;
    0x0A <= n <= 0x0D || 0x1C <= n <= 0x1E || n == 0x85 || n == 0x2028 || n == 0x2029
  }

  /** `\d`, restricted to ASCII digits. */
  predicate IsDigit(c: char) {
    '0' <= c <= '9'
  }

  /** A non-empty run of non-whitespace characters: what `str.split()` yields. */
  predicate IsWord(w: string) {
    w != [] && forall i :: 0 <= i < |w| ==> !IsSpace(w[i])
  }

  predicate NoLineBreak(s: string) {
    forall i :: 0 <= i < |s| ==> !IsLineBreak(s[i])
  }

  predicate AllSpaces(s: string) {
    forall i :: 0 <= i < |s| ==> IsSpace(s[i])
  }

  // ---------------------------------------------------------------------
  // str.split() and " ".join
  // ---------------------------------------------------------------------

  /** Length of the longest whitespace-free prefix of `s`. */
  function WordLength(s: string): (n: nat)
    ensures n <= |s|
    ensures forall i :: 0 <= i < n ==> !IsSpace(s[i])
    ensures n < |s| ==> IsSpace(s[n])
  {
    if s == [] || IsSpace(s[0]) then 0 else 1 + WordLength(s[1..])
  }

  /** Python's `s.split()`: the maximal whitespace-free runs of `s`, in order. */
  function Split(s: string): (words: seq<string>)
    ensures forall k :: 0 <= k < |words| ==> IsWord(words[k])
    decreases |s|
  {
    if s == [] then []
    else if IsSpace(s[0]) then Split(s[1..])
    else
      var n := WordLength(s);
      [s[..n]] + Split(s[n..])
  }

  /** Python's `sep.join(parts)`. */
  function Join(parts: seq<string>, sep: string): string
  {
    if |parts| == 0 then ""
    else if |parts| == 1 then parts[0]
    else parts[0] + sep + Join(parts[1..], sep)
  }

  lemma {:induction false} WordLengthExact(s: string, n: nat)
    requires n <= |s| && forall j :: 0 <= j < n ==> !IsSpace(s[j])
    requires n < |s| ==> IsSpace(s[n])
    ensures WordLength(s) == n
    decreases n
  {
    if n > 0 {
      WordLengthExact(s[1..], n - 1);
    }
  }

  lemma WordLengthOfPrefix(a: string, b: string)
    requires b != [] && IsSpace(b[0])
    ensures WordLength(a + b) == WordLength(a)
  {
    var s := a + b;
    var m := WordLength(a);
    assert forall j :: 0 <= j < m ==> s[j] == a[j];
    assert m < |a| ==> s[m] == a[m];
    assert m == |a| ==> s[m] == b[0];
    WordLengthExact(s, m);
  }

  lemma SplitWord(w: string)
    requires IsWord(w)
    ensures Split(w) == [w]
  {
    assert w[..|w|] == w;
  }

  lemma {:induction false} SplitAllSpaces(s: string)
    requires AllSpaces(s)
    ensures Split(s) == []
    decreases |s|
  {
    if s != [] {
      SplitAllSpaces(s[1..]);
    }
  }

  /** Splitting at a whitespace character splits the word lists apart. */
  lemma {:induction false} SplitAroundSpace(a: string, c: char, b: string)
    requires IsSpace(c)
    ensures Split(a + [c] + b) == Split(a) + Split(b)
    decreases |a|
  {
    var s := a + [c] + b;
    if a == [] {
      assert s[1..] == b;
    } else if IsSpace(a[0]) {
      assert s[1..] == a[1..] + [c] + b;
      SplitAroundSpace(a[1..], c, b);
    } else {
      WordLengthOfPrefix(a, [c] + b);
      assert s == a + ([c] + b);
      var n := WordLength(a);
      assert s[..n] == a[..n];
      assert s[n..] == a[n..] + [c] + b;
      SplitAroundSpace(a[n..], c, b);
    }
  }

  lemma SplitAppendSpaces(a: string, b: string)
    requires AllSpaces(b)
    ensures Split(a + b) == Split(a)
  {
    if b != [] {
      assert a + b == a + [b[0]] + b[1..];
      SplitAroundSpace(a, b[0], b[1..]);
      SplitAllSpaces(b[1..]);
    } else {
      assert a + b == a;
    }
  }

  lemma {:induction false} SplitDropSpaces(s: string, n: nat)
    requires n <= |s| && AllSpaces(s[..n])
    ensures Split(s[n..]) == Split(s)
    decreases n
  {
    if n > 0 {
      assert s[1..][..n - 1] == s[..n][1..];
      assert IsSpace(s[..n][0]);
      SplitDropSpaces(s[1..], n - 1);
      assert s[1..][n - 1..] == s[n..];
    }
  }

  /** `" ".join(ws).split() == ws` for any list of words. */
  lemma {:induction false} SplitJoin(ws: seq<string>)
    requires forall k :: 0 <= k < |ws| ==> IsWord(ws[k])
    ensures Split(Join(ws, " ")) == ws
    decreases |ws|
  {
    if |ws| == 1 {
      SplitWord(ws[0]);
    } else if |ws| > 1 {
      SplitJoin(ws[1..]);
      assert Join(ws, " ") == ws[0] + [' '] + Join(ws[1..], " ");
      SplitAroundSpace(ws[0], ' ', Join(ws[1..], " "));
      SplitWord(ws[0]);
      assert ws == [ws[0]] + ws[1..];
    }
  }

  lemma {:induction false} JoinSnoc(parts: seq<string>, x: string, sep: string)
    requires parts != []
    ensures Join(parts + [x], sep) == Join(parts, sep) + sep + x
    decreases |parts|
  {
    if |parts| == 1 {
      assert parts + [x] == [parts[0], x];
    } else {
      assert (parts + [x])[1..] == parts[1..] + [x];
      JoinSnoc(parts[1..], x, sep);
    }
  }

  lemma SplitNonEmpty(s: string, i: nat)
    requires i < |s| && !IsSpace(s[i])
    ensures Split(s) != []
    decreases |s|
  {
    if IsSpace(s[0]) {
      SplitNonEmpty(s[1..], i - 1);
    }
  }

  // ---------------------------------------------------------------------
  // str.strip()
  // ---------------------------------------------------------------------

  /** Length of the longest all-whitespace prefix of `s` (what `\s*` consumes). */
  function SpaceRun(s: string): (n: nat)
    ensures n <= |s|
    ensures forall i :: 0 <= i < n ==> IsSpace(s[i])
    ensures n < |s| ==> !IsSpace(s[n])
  {
    SkipSpaces(s, 0)
  }

  /** Where the run of digits starting at `i` ends (what a greedy `\d+` or `\d*` consumes). */
  function SkipDigits(s: string, i: nat): (j: nat)
    requires i <= |s|
    ensures i <= j <= |s|
    ensures forall k :: i <= k < j ==> IsDigit(s[k])
    ensures j < |s| ==> !IsDigit(s[j])
    decreases |s| - i
  {
    if i == |s| || !IsDigit(s[i]) then i else SkipDigits(s, i + 1)
  }

  /** Where the run of whitespace starting at `i` ends (what a greedy `\s*` consumes). */
  function SkipSpaces(s: string, i: nat): (j: nat)
    requires i <= |s|
    ensures i <= j <= |s|
    ensures forall k :: i <= k < j ==> IsSpace(s[k])
    ensures j < |s| ==> !IsSpace(s[j])
    decreases |s| - i
  {
    if i == |s| || !IsSpace(s[i]) then i else SkipSpaces(s, i + 1)
  }

  lemma {:induction false} SkipDigitsExact(s: string, i: nat, j: nat)
    requires i <= j <= |s| && forall k :: i <= k < j ==> IsDigit(s[k])
    requires j < |s| ==> !IsDigit(s[j])
    ensures SkipDigits(s, i) == j
    decreases j - i
  {
    if i < j {
      SkipDigitsExact(s, i + 1, j);
    }
  }

  lemma {:induction false} SkipSpacesExact(s: string, i: nat, j: nat)
    requires i <= j <= |s| && forall k :: i <= k < j ==> IsSpace(s[k])
    requires j < |s| ==> !IsSpace(s[j])
    ensures SkipSpaces(s, i) == j
    decreases j - i
  {
    if i < j {
      SkipSpacesExact(s, i + 1, j);
    }
  }

  /** Length of the longest all-whitespace suffix of `s`. */
  function TrailingSpaces(s: string): (n: nat)
    ensures n <= |s|
    ensures forall i :: |s| - n <= i < |s| ==> IsSpace(s[i])
    ensures n < |s| ==> !IsSpace(s[|s| - 1 - n])
  {
    if s == [] || !IsSpace(Last(s)) then 0 else 1 + TrailingSpaces(s[..|s| - 1])
  }

  /** Python's `s.strip()`. */
  function Strip(s: string): (r: string)
    ensures r == [] || (!IsSpace(r[0]) && !IsSpace(Last(r)))
    ensures SpaceRun(s) + |r| <= |s| && r == s[SpaceRun(s)..SpaceRun(s) + |r|]
  {
    var t := s[SpaceRun(s)..];
    t[..|t| - TrailingSpaces(t)]
  }

  /** A piece of a line without boundaries has none either. */
  lemma SliceNoLineBreak(s: string, a: nat, b: nat)
    requires a <= b <= |s| && NoLineBreak(s)
    ensures NoLineBreak(s[a..b])
  {
    assert forall j :: 0 <= j < b - a ==> s[a..b][j] == s[a + j];
  }

  /** Stripping a line without boundaries gives a line without boundaries. */
  lemma StripNoLineBreak(s: string)
    ensures NoLineBreak(s) ==> NoLineBreak(Strip(s))
  {
    var r := Strip(s);
    var a := SpaceRun(s);
    assert forall i :: 0 <= i < |r| ==> r[i] == s[a + i];
  }

  lemma DropLeadingSpaces(s: string)
    ensures Split(s[SpaceRun(s)..]) == Split(s)
  {
    var a := SpaceRun(s);
    assert AllSpaces(s[..a]) by {
      forall i | 0 <= i < a ensures IsSpace(s[..a][i]) {
        assert s[..a][i] == s[i];
      }
    }
    SplitDropSpaces(s, a);
  }

  lemma DropTrailingSpaces(t: string)
    ensures Split(t[..|t| - TrailingSpaces(t)]) == Split(t)
  {
    var n := TrailingSpaces(t);
    var r := t[..|t| - n];
    var b := t[|t| - n..];
    assert AllSpaces(b) by {
      forall i | 0 <= i < |b| ensures IsSpace(b[i]) {
        assert b[i] == t[|t| - n + i];
      }
    }
    assert t == r + b;
    SplitAppendSpaces(r, b);
  }

  /** Stripping removes only whitespace: the words are the same. */
  lemma StripKeepsWords(s: string)
    ensures Split(Strip(s)) == Split(s)
  {
    var t := s[SpaceRun(s)..];
    DropLeadingSpaces(s);
    DropTrailingSpaces(t);
    assert Strip(s) == t[..|t| - TrailingSpaces(t)];
  }

  /** A line is blank (`not line.strip()`) exactly when it has no words. */
  lemma StripEmptyIffNoWords(s: string)
    ensures Strip(s) == [] <==> Split(s) == []
  {
    StripKeepsWords(s);
    var r := Strip(s);
    if r != [] {
      SplitNonEmpty(r, 0);
    }
  }

  lemma StripIdempotent(s: string)
    ensures Strip(Strip(s)) == Strip(s)
  {
    var r := Strip(s);
    if r != [] {
      assert SpaceRun(r) == 0;
      assert TrailingSpaces(r) == 0;
      assert r[0..] == r;
      assert r[..|r|] == r;
    }
  }

  // ---------------------------------------------------------------------
  // Substring search
  // ---------------------------------------------------------------------

  predicate OccursAt(s: string, pat: string, i: nat) {
    i + |pat| <= |s| && s[i..i + |pat|] == pat
  }

  /** Python's `pat in s`. */
  predicate Contains(s: string, pat: string) {
    exists i :: 0 <= i <= |s| && OccursAt(s, pat, i)
  }

  predicate StartsWith(s: string, prefix: string) {
    OccursAt(s, prefix, 0)
  }

  /** An occurrence inside a slice is an occurrence in the whole string. */
  lemma OccursInSliceIf(s: string, a: nat, b: nat, pat: string, j: nat)
    requires a <= b <= |s|
    ensures OccursAt(s[a..b], pat, j) ==> OccursAt(s, pat, a + j) && a + j + |pat| <= b
  {
    if OccursAt(s[a..b], pat, j) {
      OccursInSlice(s, a, b, pat, j);
    }
  }

  /** The first occurrence of `pat` in `s` at or after `from` (Python's `s.find`). */
  function Find(s: string, pat: string, from: nat): (r: Option<nat>)
    ensures r.Some? ==> from <= r.value && OccursAt(s, pat, r.value)
    ensures r.Some? ==> forall j :: from <= j < r.value ==> !OccursAt(s, pat, j)
    ensures r.None? ==> forall j :: from <= j ==> !OccursAt(s, pat, j)
    decreases |s| - from
  {
    if from + |pat| > |s| then None
    else if OccursAt(s, pat, from) then Some(from)
    else Find(s, pat, from + 1)
  }

  lemma OccursInPrefix(s: string, pat: string, n: nat, j: nat)
    requires n <= |s| && OccursAt(s[..n], pat, j)
    ensures OccursAt(s, pat, j) && j + |pat| <= n
  {
    assert s[..n][j..j + |pat|] == s[j..j + |pat|];
  }

  lemma OccursInSlice(s: string, a: nat, b: nat, pat: string, j: nat)
    requires a <= b <= |s| && OccursAt(s[a..b], pat, j)
    ensures OccursAt(s, pat, a + j) && a + j + |pat| <= b
  {
    var t := s[a..b];
    assert forall k :: j <= k < j + |pat| ==> t[k] == s[a + k];
    assert t[j..j + |pat|] == s[a + j..a + j + |pat|];
  }

  // ---------------------------------------------------------------------
  // str.split(sep) for a non-empty separator
  // ---------------------------------------------------------------------

  /** Python's `s.split(sep)`: cut at every non-overlapping occurrence, left to right. */
  function SplitOn(s: string, sep: string): (parts: seq<string>)
    requires sep != []
    ensures parts != []
    ensures forall k :: 0 <= k < |parts| ==> !Contains(parts[k], sep)
    decreases |s|
  {
    match Find(s, sep, 0)
    case None => [s]
    case Some(i) =>
      assert !Contains(s[..i], sep) by {
        forall j | 0 <= j <= i && OccursAt(s[..i], sep, j) ensures false {
          OccursInPrefix(s, sep, i, j);
        }
      }
      [s[..i]] + SplitOn(s[i + |sep|..], sep)
  }

  /**
   * The cuts are made left to right at the leftmost occurrence: there is one
   * piece exactly when `sep` does not occur, and otherwise the first piece
   * ends where `sep` first occurs and the rest is the split of what follows it.
   */
  lemma SplitOnCuts(s: string, sep: string)
    requires sep != []
    ensures var parts := SplitOn(s, sep);
      && (|parts| == 1 <==> !Contains(s, sep))
      && (|parts| > 1 ==> FirstAt(s, sep, |parts[0]|))
      && (|parts| > 1 ==> parts[1..] == SplitOn(s[|parts[0]| + |sep|..], sep))
  {
    var f := Find(s, sep, 0);
    if f.None? {
      SplitOnWhole(s, sep);
    } else {
      SplitOnAt(s, sep, f.value);
    }
  }

  lemma SplitOnWhole(s: string, sep: string)
    requires sep != [] && Find(s, sep, 0).None?
    ensures SplitOn(s, sep) == [s] && !Contains(s, sep)
  {
  }

  lemma SplitOnAt(s: string, sep: string, i: nat)
    requires sep != [] && Find(s, sep, 0) == Some(i)
    ensures var parts := SplitOn(s, sep);
      && |parts| > 1 && Contains(s, sep)
      && FirstAt(s, sep, |parts[0]|)
      && parts[1..] == SplitOn(s[|parts[0]| + |sep|..], sep)
  {
    var parts := SplitOn(s, sep);
    var rest := SplitOn(s[i + |sep|..], sep);
    assert parts == [s[..i]] + rest;
    assert |parts[0]| == i && OccursAt(s, sep, i);
  }

  /** `i` is where `pat` first occurs in `s`. */
  predicate FirstAt(s: string, pat: string, i: nat) {
    OccursAt(s, pat, i) && forall j :: 0 <= j < i ==> !OccursAt(s, pat, j)
  }

  /** Joining the pieces back with the separator restores the string. */
  lemma {:induction false} JoinSplitOn(s: string, sep: string)
    requires sep != []
    ensures Join(SplitOn(s, sep), sep) == s
    decreases |s|
  {
    match Find(s, sep, 0)
    case None =>
    case Some(i) =>
      var rest := s[i + |sep|..];
      JoinSplitOn(rest, sep);
      var parts := SplitOn(s, sep);
      assert parts == [s[..i]] + SplitOn(rest, sep);
      assert parts[1..] == SplitOn(rest, sep);
      assert s == s[..i] + s[i..i + |sep|] + rest;
  }

  // ---------------------------------------------------------------------
  // str.splitlines()
  // ---------------------------------------------------------------------

  function FindBreak(s: string, from: nat): (r: Option<nat>)
    ensures r.Some? ==> from <= r.value < |s| && IsLineBreak(s[r.value])
    ensures r.Some? ==> forall j :: from <= j < r.value ==> !IsLineBreak(s[j])
    ensures r.None? ==> forall j :: from <= j < |s| ==> !IsLineBreak(s[j])
    decreases |s| - from
  {
    if from >= |s| then None
    else if IsLineBreak(s[from]) then Some(from)
    else FindBreak(s, from + 1)
  }

  /**
   * Python's `s.splitlines()`: pieces between line boundaries, "\r\n"
   * counting as one boundary, and no trailing empty piece.
   */
  function SplitLines(s: string): (lines: seq<string>)
    ensures forall k :: 0 <= k < |lines| ==> NoLineBreak(lines[k])
    decreases |s|
  {
    if s == [] then []
    else match FindBreak(s, 0)
      case None => [s]
      case Some(i) =>
        var next := if s[i] == '\r' && i + 1 < |s| && s[i + 1] == '\n' then i + 2 else i + 1;
        [s[..i]] + SplitLines(s[next..])
  }

  lemma {:induction false} FindBreakAt(s: string, from: nat, i: nat)
    requires from <= i < |s| && IsLineBreak(s[i])
    requires forall j :: from <= j < i ==> !IsLineBreak(s[j])
    ensures FindBreak(s, from) == Some(i)
    decreases i - from
  {
    if from < i {
      FindBreakAt(s, from + 1, i);
    }
  }

  lemma {:induction false} FindBreakNone(s: string, from: nat)
    requires forall j :: from <= j < |s| ==> !IsLineBreak(s[j])
    ensures FindBreak(s, from) == None
    decreases |s| - from
  {
    if from < |s| {
      FindBreakNone(s, from + 1);
    }
  }

  /**
   * A boundary character ends the first line; only "\r" directly followed by
   * "\n" takes the "\n" with it.
   */
  lemma SplitLinesBreak(x: string, b: char, rest: string)
    requires NoLineBreak(x) && IsLineBreak(b)
    requires b == '\r' ==> rest == [] || rest[0] != '\n'
    ensures SplitLines(x + [b] + rest) == [x] + SplitLines(rest)
  {
    var s := x + [b] + rest;
    assert forall j :: 0 <= j < |x| ==> s[j] == x[j];
    assert s[|x|] == b;
    FindBreakAt(s, 0, |x|);
    assert s[..|x|] == x;
    assert s[|x| + 1..] == rest;
  }

  /** "\r\n" is one boundary, not two: no empty line appears between them. */
  lemma SplitLinesCrlf(x: string, rest: string)
    requires NoLineBreak(x)
    ensures SplitLines(x + "\r\n" + rest) == [x] + SplitLines(rest)
  {
    var s := x + "\r\n" + rest;
    assert forall j :: 0 <= j < |x| ==> s[j] == x[j];
    assert s[|x|] == '\r' && s[|x| + 1] == '\n';
    FindBreakAt(s, 0, |x|);
    assert s[..|x|] == x;
    assert s[|x| + 2..] == rest;
  }

  /** Text without boundaries is one line, or none when it is empty. */
  lemma SplitLinesLast(x: string)
    requires NoLineBreak(x)
    ensures SplitLines(x) == if x == "" then [] else [x]
  {
    if x != "" {
      FindBreakNone(x, 0);
    }
  }

  /** A line without boundaries, possibly empty, then "\n", splits off as the first line. */
  lemma SplitLinesCons(x: string, rest: string)
    requires NoLineBreak(x)
    ensures SplitLines(x + "\n" + rest) == [x] + SplitLines(rest)
  {
    SplitLinesBreak(x, '\n', rest);
  }

  /**
   * `"\n".join(xs).splitlines() == xs` for lines without boundaries, empty ones
   * included, as long as the last is not empty.
   */
  lemma {:induction false} SplitLinesJoin(xs: seq<string>)
    requires forall k :: 0 <= k < |xs| ==> NoLineBreak(xs[k])
    requires xs != [] ==> Last(xs) != ""
    ensures SplitLines(Join(xs, "\n")) == xs
    decreases |xs|
  {
    if |xs| == 1 {
      SplitLinesLast(xs[0]);
    } else if |xs| > 1 {
      SplitLinesCons(xs[0], Join(xs[1..], "\n"));
      assert Last(xs[1..]) == Last(xs);
      SplitLinesJoin(xs[1..]);
      assert xs == [xs[0]] + xs[1..];
    }
  }

  /**
   * `("\n".join(xs) + "\n").splitlines() == xs` for any non-empty list of lines
   * without boundaries: the final "\n" adds no empty line, and empty lines
   * inside are kept.
   */
  lemma {:induction false} SplitLinesTerminated(xs: seq<string>)
    requires xs != []
    requires forall k :: 0 <= k < |xs| ==> NoLineBreak(xs[k])
    ensures SplitLines(Join(xs, "\n") + "\n") == xs
    decreases |xs|
  {
    if |xs| == 1 {
      SplitLinesCons(xs[0], "");
      assert xs[0] + "\n" + "" == Join(xs, "\n") + "\n";
    } else {
      var tail := Join(xs[1..], "\n") + "\n";
      assert Join(xs, "\n") + "\n" == xs[0] + "\n" + tail;
      SplitLinesCons(xs[0], tail);
      SplitLinesTerminated(xs[1..]);
      assert xs == [xs[0]] + xs[1..];
    }
  }

  // ---------------------------------------------------------------------
  // ASCII case mapping
  // ---------------------------------------------------------------------

  function UpperChar(c: char): char {
    if 'a' <= c <= 'z' then (c as int - 32) as char else c
  }

  function LowerChar(c: char): char {
    if 'A' <= c <= 'Z' then (c as int + 32) as char else c
  }

  /** `s.upper()` on ASCII letters; every other character is left alone. */
  function Upper(s: string): (r: string)
    ensures |r| == |s|
    ensures forall i :: 0 <= i < |s| ==> r[i] == UpperChar(s[i])
  {
    seq(|s|, i requires 0 <= i < |s| => UpperChar(s[i]))
  }

  /** `s.lower()` on ASCII letters; every other character is left alone. */
  function Lower(s: string): (r: string)
    ensures |r| == |s|
    ensures forall i :: 0 <= i < |s| ==> r[i] == LowerChar(s[i])
  {
    seq(|s|, i requires 0 <= i < |s| => LowerChar(s[i]))
  }

  // ---------------------------------------------------------------------
  // Decimal tokens: ^\d+\.\d+ and ^\d+\.\d+$
  // ---------------------------------------------------------------------

  /** Length of the longest all-digit prefix of `s`. */
  function DigitRun(s: string): (n: nat)
    ensures n <= |s|
    ensures forall i :: 0 <= i < n ==> IsDigit(s[i])
    ensures n < |s| ==> !IsDigit(s[n])
  {
    SkipDigits(s, 0)
  }

  /** Digits, one dot, digits: the whole of `s` matches `\d+\.\d+`. */
  ghost predicate DecimalShape(s: string) {
    exists i :: 0 < i < |s| - 1 && s[i] == '.' && forall j :: 0 <= j < |s| && j != i ==> IsDigit(s[j])
  }

  lemma DigitRunExact(s: string, n: nat)
    requires n <= |s| && forall j :: 0 <= j < n ==> IsDigit(s[j])
    requires n < |s| ==> !IsDigit(s[n])
    ensures DigitRun(s) == n
  {
    SkipDigitsExact(s, 0, n);
  }

  /** A decimal-shaped prefix fixes where the digit runs of `s` stop. */
  lemma ShapedPrefix(s: string, k: nat)
    ensures k <= |s| && DecimalShape(s[..k]) ==>
      var a := DigitRun(s);
      0 < a < |s| && s[a] == '.' && DigitRun(s[a + 1..]) > 0
  {
    if k <= |s| && DecimalShape(s[..k]) {
      var i :| 0 < i < k - 1 && s[..k][i] == '.' && forall j :: 0 <= j < k && j != i ==> IsDigit(s[..k][j]);
      assert forall j :: 0 <= j < k ==> s[..k][j] == s[j];
      DigitRunExact(s, i);
      assert s[i + 1..][0] == s[i + 1];
    }
  }

  /** The text matched by `re.match(r'^(\d+\.\d+)', s)`, if any: a digit run, a dot, a digit run. */
  function LeadingDecimal(s: string): (r: Option<string>)
    ensures r.Some? ==> 0 < |r.value| <= |s| && r.value == s[..|r.value|]
  {
    var a := DigitRun(s);
    if 0 < a < |s| && s[a] == '.' && DigitRun(s[a + 1..]) > 0 then Some(s[..a + 1 + DigitRun(s[a + 1..])])
    else None
  }

  /**
   * The walk finds what the regular expression matches: a decimal-shaped
   * prefix not followed by a further digit, and nothing when no prefix of
   * `s` is decimal-shaped.
   */
  lemma LeadingDecimalMeaning(s: string)
    ensures var r := LeadingDecimal(s);
      && (r.Some? ==> |r.value| <= |s| && r.value == s[..|r.value|] && DecimalShape(r.value))
      && (r.Some? ==> |r.value| == |s| || !IsDigit(s[|r.value|]))
      && (r.None? ==> forall k :: 0 <= k <= |s| ==> !DecimalShape(s[..k]))
  {
    var a := DigitRun(s);
    if 0 < a < |s| && s[a] == '.' && DigitRun(s[a + 1..]) > 0 {
      var b := DigitRun(s[a + 1..]);
      var d := s[..a + 1 + b];
      assert forall j :: 0 <= j < |d| && j != a ==> IsDigit(d[j]) by {
        forall j | 0 <= j < |d| && j != a ensures IsDigit(d[j]) {
          if j > a {
            assert d[j] == s[a + 1..][j - a - 1];
          }
        }
      }
      assert DecimalShape(d);
      assert a + 1 + b < |s| ==> s[a + 1 + b] == s[a + 1..][b];
    } else {
      forall k | 0 <= k <= |s| ensures !DecimalShape(s[..k]) {
        ShapedPrefix(s, k);
      }
    }
  }

  /** `re.match(r'^\d+\.\d+$', s)` for a token `s` (tokens hold no newline). */
  predicate IsBareDecimal(s: string) {
    LeadingDecimal(s) == Some(s)
  }

  /** The regular-expression test agrees with the declarative token shape. */
  lemma BareDecimalShape(s: string)
    ensures IsBareDecimal(s) <==> DecimalShape(s)
  {
    LeadingDecimalMeaning(s);
    if DecimalShape(s) {
      var i :| 0 < i < |s| - 1 && s[i] == '.' && forall j :: 0 <= j < |s| && j != i ==> IsDigit(s[j]);
      DigitRunExact(s, i);
      DigitRunExact(s[i + 1..], |s| - i - 1);
      assert s[..|s|] == s;
    }
  }

  lemma {:induction false} WordLengthAtLeast(s: string, m: nat)
    requires m <= |s| && forall j :: 0 <= j < m ==> !IsSpace(s[j])
    ensures WordLength(s) >= m
    decreases m
  {
    if m > 0 {
      WordLengthAtLeast(s[1..], m - 1);
    }
  }

  /** The digits-dot-digits prefix found by the walk of `LeadingDecimal`. */
  lemma LeadingDecimalOf(s: string, a: nat, b: nat)
    requires a == DigitRun(s) && 0 < a < |s| && s[a] == '.'
    requires b == DigitRun(s[a + 1..]) && b > 0
    ensures LeadingDecimal(s) == Some(s[..a + 1 + b])
  {
  }

  lemma SpaceNotDigit(c: char)
    ensures IsSpace(c) ==> !IsDigit(c)
  {
  }

  /** The digit runs of `s` end where they do in any prefix long enough to hold them. */
  lemma PrefixDigitRuns(s: string, n: nat, a: nat, b: nat)
    requires n <= |s|
    requires a == DigitRun(s) && 0 < a < |s| && s[a] == '.'
    requires b == DigitRun(s[a + 1..]) && a + 1 + b <= n
    ensures var w := s[..n]; a < |w| && DigitRun(w) == a && w[a] == '.' && DigitRun(w[a + 1..]) == b
  {
    var w := s[..n];
    assert forall j :: 0 <= j < a ==> w[j] == s[j];
    assert a < |w| ==> w[a] == s[a];
    DigitRunExact(w, a);
    var u := s[a + 1..];
    var v := w[a + 1..];
    assert forall j :: 0 <= j < |v| ==> v[j] == u[j];
    DigitRunExact(v, b);
  }

  /** The characters of a decimal prefix are digits and one dot, never whitespace. */
  lemma DecimalPrefixNoSpace(s: string, a: nat, b: nat)
    requires a == DigitRun(s) && 0 < a < |s| && s[a] == '.'
    requires b == DigitRun(s[a + 1..])
    ensures a + 1 + b <= |s| && forall j :: 0 <= j < a + 1 + b ==> !IsSpace(s[j])
  {
    var u := s[a + 1..];
    forall j | 0 <= j < a + 1 + b ensures !IsSpace(s[j]) {
      if j < a {
        SpaceNotDigit(s[j]);
      } else if j > a {
        assert s[j] == u[j - a - 1];
        SpaceNotDigit(s[j]);
      }
    }
  }

  /** Cutting `s` anywhere after its decimal prefix leaves the prefix found. */
  lemma DecimalPrefixKept(s: string, n: nat)
    requires n <= |s|
    requires var a := DigitRun(s); 0 < a < |s| && s[a] == '.' && DigitRun(s[a + 1..]) > 0
    requires DigitRun(s) + 1 + DigitRun(s[DigitRun(s) + 1..]) <= n
    ensures LeadingDecimal(s[..n]) == LeadingDecimal(s)
  {
    var a := DigitRun(s);
    var b := DigitRun(s[a + 1..]);
    var w := s[..n];
    PrefixDigitRuns(s, n, a, b);
    LeadingDecimalOf(s, a, b);
    LeadingDecimalOf(w, a, b);
    assert w[..a + 1 + b] == s[..a + 1 + b];
  }

  /** A decimal prefix never crosses whitespace, so it lies inside the first word. */
  lemma LeadingDecimalInWord(s: string)
    requires LeadingDecimal(s).Some?
    ensures LeadingDecimal(s[..WordLength(s)]) == LeadingDecimal(s)
  {
    var a := DigitRun(s);
    var b := DigitRun(s[a + 1..]);
    DecimalPrefixNoSpace(s, a, b);
    WordLengthAtLeast(s, a + 1 + b);
    DecimalPrefixKept(s, WordLength(s));
  }
}
