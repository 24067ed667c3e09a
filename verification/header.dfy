/**
 * `limpiar_header_line`: trimming one of the first lines of the receipt so
 * that only the business name, legal name or address is left.
 *
 * The document-number pattern `EB\d+\s*[-–]\s*\d+` is decided by a direct walk
 * (`DocNumberAt`) and proved equal to its declarative reading (`DocNumberShape`).
 */
module Header {
  import opened Text

  /** The two dash characters the pattern accepts: hyphen-minus and en dash. */
  predicate IsDash(c: char) {
    c == '-' || c == '–'
  }

  /** `EB\d+\s*[-–]\s*\d+` matches `s` at position `p`, walked left to right. */
  predicate DocNumberAt(s: string, p: nat) {
    && OccursAt(s, "EB", p)
    && var m := SkipDigits(s, p + 2);
       && m > p + 2
       && var q := SkipSpaces(s, m);
          && q < |s| && IsDash(s[q])
          && var r := SkipSpaces(s, q + 1);
             r < |s| && IsDigit(s[r])
  }

  ghost predicate DigitsIn(s: string, a: nat, b: nat) {
    b <= |s| && forall i :: a <= i < b ==> IsDigit(s[i])
  }

  ghost predicate SpacesIn(s: string, a: nat, b: nat) {
    b <= |s| && forall i :: a <= i < b ==> IsSpace(s[i])
  }

  /**
   * The declarative reading of the pattern at `p`: "EB", one or more digits
   * ending at `m`, whitespace up to the dash at `q`, whitespace up to the digit at `r`.
   */
  ghost predicate DocNumberShape(s: string, p: nat) {
    exists m: nat, q: nat, r: nat ::
      && p + 2 < m <= q < r < |s|
      && OccursAt(s, "EB", p)
      && DigitsIn(s, p + 2, m)
      && SpacesIn(s, m, q) && IsDash(s[q])
      && SpacesIn(s, q + 1, r) && IsDigit(s[r])
  }

  lemma DocNumberAtIff(s: string, p: nat)
    ensures DocNumberAt(s, p) <==> DocNumberShape(s, p)
  {
    if DocNumberAt(s, p) {
      DocNumberAtShape(s, p);
    }
    if DocNumberShape(s, p) {
      var m: nat, q: nat, r: nat :|
        && p + 2 < m <= q < r < |s|
        && OccursAt(s, "EB", p)
        && DigitsIn(s, p + 2, m)
        && SpacesIn(s, m, q) && IsDash(s[q])
        && SpacesIn(s, q + 1, r) && IsDigit(s[r]);
      ShapeDocNumberAt(s, p, m, q, r);
    }
  }

  lemma DocNumberAtShape(s: string, p: nat)
    requires DocNumberAt(s, p)
    ensures DocNumberShape(s, p)
  {
    var m := SkipDigits(s, p + 2);
    var q := SkipSpaces(s, m);
    var r := SkipSpaces(s, q + 1);
    assert DigitsIn(s, p + 2, m) && SpacesIn(s, m, q) && SpacesIn(s, q + 1, r);
  }

  /** The runs of a declarative match are exactly the greedy ones. */
  lemma ShapeDocNumberAt(s: string, p: nat, m: nat, q: nat, r: nat)
    requires p + 2 < m <= q < r < |s|
    requires OccursAt(s, "EB", p)
    requires DigitsIn(s, p + 2, m)
    requires SpacesIn(s, m, q) && IsDash(s[q])
    requires SpacesIn(s, q + 1, r) && IsDigit(s[r])
    ensures DocNumberAt(s, p)
  {
    ShapeRuns(s, p, m, q, r);
  }

  lemma ShapeRuns(s: string, p: nat, m: nat, q: nat, r: nat)
    requires p + 2 < m <= q < r < |s|
    requires DigitsIn(s, p + 2, m)
    requires SpacesIn(s, m, q) && IsDash(s[q])
    requires SpacesIn(s, q + 1, r) && IsDigit(s[r])
    ensures SkipDigits(s, p + 2) == m && SkipSpaces(s, m) == q && SkipSpaces(s, q + 1) == r
  {
    assert !IsDigit(s[m]) by {
      if m < q {
        SpaceNotDigit(s[m]);
      }
    }
    SkipDigitsExact(s, p + 2, m);
    SkipSpacesExact(s, m, q);
    SpaceNotDigit(s[r]);
    SkipSpacesExact(s, q + 1, r);
  }

  /** `re.search(r'(EB\d+\s*[-–]\s*\d+)', s)`: the first match position at or after `from`. */
  function FindDocNumber(s: string, from: nat): (r: Option<nat>)
    ensures r.Some? ==> from <= r.value < |s| && DocNumberAt(s, r.value)
    ensures r.Some? ==> forall j :: from <= j < r.value ==> !DocNumberAt(s, j)
    ensures r.None? ==> forall j :: from <= j ==> !DocNumberAt(s, j)
    decreases |s| - from
  {
    if from >= |s| then None
    else if DocNumberAt(s, from) then Some(from)
    else FindDocNumber(s, from + 1)
  }

  /** `p` is where the document-number pattern first matches `s`. */
  ghost predicate FirstDocNumber(s: string, p: nat) {
    DocNumberShape(s, p) && forall j: nat :: j < p ==> !DocNumberShape(s, j)
  }

  /** Upper-casing a stripped prefix gives a slice of the upper-cased line. */
  lemma UpperStrippedPrefix(line: string, n: nat)
    requires n <= |line|
    ensures var r := Strip(line[..n]); var a := SpaceRun(line[..n]);
      a + |r| <= n && Upper(r) == Upper(line)[a..a + |r|]
  {
    var t := line[..n];
    var a := SpaceRun(t);
    var r := Strip(t);
    assert forall i :: 0 <= i < |r| ==> r[i] == line[a + i];
  }

  /** Nothing in the whole string means nothing in a stripped prefix of it. */
  lemma NoPatternInStrippedPrefix(line: string, n: nat, pat: string)
    requires n <= |line|
    requires forall j :: 0 <= j && j + |pat| <= n ==> !OccursAt(Upper(line), pat, j)
    ensures !Contains(Upper(Strip(line[..n])), pat)
  {
    var a := SpaceRun(line[..n]);
    var r := Strip(line[..n]);
    var up := Upper(line);
    UpperStrippedPrefix(line, n);
    forall j | 0 <= j <= |Upper(r)| ensures !OccursAt(Upper(r), pat, j) {
      OccursInSliceIf(up, a, a + |r|, pat, j);
    }
  }

  /**
   * `limpiar_header_line(line)`: the text before "BOLETA"; nothing for a RUC
   * line; the text before a document number; otherwise the stripped line.
   * Every test runs on the upper-cased line and cuts the original one.
   */
  function CleanHeaderLine(line: string): (r: string)
    ensures |r| <= |line|
  {
    var up := Upper(line);
    match Find(up, "BOLETA", 0)
    case Some(i) => Strip(line[..i])
    case None =>
      if StartsWith(up, "RUC") then ""
      else
        match FindDocNumber(up, 0)
        case Some(p) => Strip(line[..p])
        case None => Strip(line)
  }

  /** A line mentioning "BOLETA" (in any ASCII case) keeps only the text before it. */
  lemma CleanBoletaLine(line: string, i: nat)
    requires FirstAt(Upper(line), "BOLETA", i)
    ensures i + 6 <= |line| && CleanHeaderLine(line) == Strip(line[..i])
  {
    var f := Find(Upper(line), "BOLETA", 0);
    assert f.Some?;
  }

  /** A line starting with "RUC" and not mentioning "BOLETA" is dropped. */
  lemma CleanRucLine(line: string)
    requires !Contains(Upper(line), "BOLETA") && StartsWith(Upper(line), "RUC")
    ensures CleanHeaderLine(line) == ""
  {
    var f := Find(Upper(line), "BOLETA", 0);
    assert f.None?;
  }

  /** Otherwise a document number cuts the line where it starts. */
  lemma CleanDocNumberLine(line: string, p: nat)
    requires !Contains(Upper(line), "BOLETA") && !StartsWith(Upper(line), "RUC")
    requires FirstDocNumber(Upper(line), p)
    ensures p < |line| && CleanHeaderLine(line) == Strip(line[..p])
  {
    var up := Upper(line);
    var f := Find(up, "BOLETA", 0);
    assert f.None?;
    DocNumberAtIff(up, p);
    var g := FindDocNumber(up, 0);
    assert g.Some?;
    DocNumberAtIff(up, g.value);
    assert g.value == p;
  }

  /** A line with none of the three markers is only stripped. */
  lemma CleanPlainLine(line: string)
    requires !Contains(Upper(line), "BOLETA") && !StartsWith(Upper(line), "RUC")
    requires forall p: nat :: !DocNumberShape(Upper(line), p)
    ensures CleanHeaderLine(line) == Strip(line)
  {
    var up := Upper(line);
    var f := Find(up, "BOLETA", 0);
    assert f.None?;
    var g := FindDocNumber(up, 0);
    assert g.None? by {
      if g.Some? {
        DocNumberAtIff(up, g.value);
      }
    }
  }

  lemma PrefixNoLineBreak(line: string, n: nat)
    requires n <= |line|
    ensures NoLineBreak(line) ==> NoLineBreak(line[..n])
  {
    assert forall i :: 0 <= i < n ==> line[..n][i] == line[i];
  }

  /** A stripped prefix holding no "BOLETA" is stripped, single-line if the line is, and free of it. */
  lemma StrippedPrefixShape(line: string, n: nat)
    requires n <= |line|
    requires forall j :: 0 <= j && j + 6 <= n ==> !OccursAt(Upper(line), "BOLETA", j)
    ensures var r := Strip(line[..n]);
      && Strip(r) == r
      && (NoLineBreak(line) ==> NoLineBreak(r))
      && !Contains(Upper(r), "BOLETA")
  {
    var t := line[..n];
    StripIdempotent(t);
    PrefixNoLineBreak(line, n);
    StripNoLineBreak(t);
    NoPatternInStrippedPrefix(line, n, "BOLETA");
  }

  /** The cleaned line is stripped, keeps a line without boundaries so, and never mentions "BOLETA". */
  lemma CleanHeaderLineShape(line: string)
    ensures Strip(CleanHeaderLine(line)) == CleanHeaderLine(line)
    ensures NoLineBreak(line) ==> NoLineBreak(CleanHeaderLine(line))
    ensures !Contains(Upper(CleanHeaderLine(line)), "BOLETA")
  {
    var up := Upper(line);
    var f := Find(up, "BOLETA", 0);
    if f.Some? {
      assert CleanHeaderLine(line) == Strip(line[..f.value]);
      StrippedPrefixShape(line, f.value);
    } else if StartsWith(up, "RUC") {
      assert CleanHeaderLine(line) == "";
      assert Upper("") == "";
    } else {
      var g := FindDocNumber(up, 0);
      var n := if g.Some? then g.value else |line|;
      assert line[..|line|] == line;
      assert CleanHeaderLine(line) == Strip(line[..n]);
      StrippedPrefixShape(line, n);
    }
  }

  /** A stripped prefix is a slice of the whole line. */
  lemma StrippedPrefixSlice(line: string, n: nat)
    requires n <= |line|
    ensures exists a: nat, b: nat :: a <= b <= |line| && Strip(line[..n]) == line[a..b]
  {
    var t := line[..n];
    var a := SpaceRun(t);
    var r := Strip(t);
    assert r == t[a..a + |r|] == line[a..a + |r|];
  }

  /** The cleaned line is a piece of the original line. */
  lemma CleanHeaderLineSlice(line: string)
    ensures exists a: nat, b: nat :: a <= b <= |line| && CleanHeaderLine(line) == line[a..b]
  {
    var up := Upper(line);
    var f := Find(up, "BOLETA", 0);
    var n: nat;
    if f.Some? {
      n := f.value;
    } else if StartsWith(up, "RUC") {
      assert CleanHeaderLine(line) == line[0..0];
      return;
    } else {
      var g := FindDocNumber(up, 0);
      n := if g.Some? then g.value else |line|;
      assert line[..|line|] == line;
    }
    assert CleanHeaderLine(line) == Strip(line[..n]);
    StrippedPrefixSlice(line, n);
  }

  /** A line without boundaries stays one after cleaning. */
  lemma CleanHeaderLineSingle(line: string)
    ensures NoLineBreak(line) ==> NoLineBreak(CleanHeaderLine(line))
  {
    CleanHeaderLineShape(line);
  }
}
