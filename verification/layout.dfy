/**
 * The pure helpers of `generar_pdf_58mm` and the height estimate
 * `calcular_altura`. The rendering surface's width measurement is the
 * parameter `measure` (text, font, size in points); lengths are in points
 * and the `mm` unit is 72/25.4 points.
 */
module Layout {
  import opened Text
  import Wrap
  import Items
  import Receipt

  datatype Font = Helvetica | HelveticaBold

  /** A string-width measurement: text, font and size to a width in points. */
  type Measure = (string, Font, int) -> real

  /** The measurement at one font and size, as `wrap_text` uses it. */
  function At(measure: Measure, font: Font, size: int): string -> real {
    t => measure(t, font, size)
  }

  /** reportlab's `mm`, in points. */
  const MM: real := 72.0 / 25.4

  const PageWidth: real := 58.0 * MM
  const LeftMargin: real := 3.0 * MM

  /** `ancho_hoja - 2 * left_margin`: the 52 mm the centred header lines may use. */
  const EffectiveWidth: real := PageWidth - 2.0 * LeftMargin

  // ---------------------------------------------------------------------
  // Name font size
  // ---------------------------------------------------------------------

  /**
   * The loop that lowers a font size one point at a time while the text is
   * too wide and the size is above `floor`.
   */
  method BackOff(width: int -> real, maxWidth: real, start: int, floor: int) returns (size: int)
    ensures start <= floor ==> size == start
    ensures start > floor ==> floor <= size <= start
    ensures width(size) <= maxWidth || size <= floor
    ensures forall s :: size < s <= start ==> width(s) > maxWidth
  {
    size := start;
    while width(size) > maxWidth && size > floor
      invariant start <= floor ==> size == start
      invariant start > floor ==> floor <= size <= start
      invariant forall s :: size < s <= start ==> width(s) > maxWidth
      decreases size - floor
    {
      size := size - 1;
    }
  }

  /** The business-name size: the loop starts at 12 with floor 12, so it never moves. */
  method NameFontSize(measure: Measure, name: string) returns (size: int)
    ensures size == 12
  {
    size := BackOff(s => measure(name, HelveticaBold, s), EffectiveWidth, 12, 12);
  }

  // ---------------------------------------------------------------------
  // Address clean-up
  // ---------------------------------------------------------------------

  /** `if l not in unique_lines: unique_lines.append(l)`. */
  function AddNew(acc: seq<string>, x: string): seq<string> {
    if x in acc then acc else acc + [x]
  }

  /** The dedup loop from the list built so far over the remaining lines. */
  function UniqueFrom(acc: seq<string>, rest: seq<string>): seq<string>
    decreases |rest|
  {
    if rest == [] then acc else UniqueFrom(AddNew(acc, rest[0]), rest[1..])
  }

  predicate Distinct(xs: seq<string>) {
    forall i, j :: 0 <= i < j < |xs| ==> xs[i] != xs[j]
  }

  lemma {:induction false} UniqueFromDistinct(acc: seq<string>, rest: seq<string>)
    requires Distinct(acc)
    ensures Distinct(UniqueFrom(acc, rest))
    decreases |rest|
  {
    if rest != [] {
      var next := AddNew(acc, rest[0]);
      assert Distinct(next) by {
        if rest[0] !in acc {
          forall i, j | 0 <= i < j < |next| ensures next[i] != next[j] {
            assert next[i] == acc[i];
            if j < |acc| {
              assert next[j] == acc[j];
            }
          }
        }
      }
      UniqueFromDistinct(next, rest[1..]);
    }
  }

  lemma {:induction false} UniqueFromElements(acc: seq<string>, rest: seq<string>)
    ensures forall x :: x in UniqueFrom(acc, rest) <==> x in acc || x in rest
    decreases |rest|
  {
    if rest != [] {
      var next := AddNew(acc, rest[0]);
      UniqueFromElements(next, rest[1..]);
      assert forall x :: x in next <==> x in acc || x == rest[0];
      assert forall x :: x in rest <==> x == rest[0] || x in rest[1..];
    }
  }

  /** `unique_lines`: the first occurrence of each line, in the original order. */
  function UniqueLines(lines: seq<string>): (r: seq<string>)
    ensures Distinct(r)
    ensures forall x :: x in r <==> x in lines
  {
    UniqueFromDistinct([], lines);
    UniqueFromElements([], lines);
    UniqueFrom([], lines)
  }

  /**
   * The reference reading: line `k` survives exactly when it does not occur
   * among the lines before it.
   */
  function FirstOccurrences(lines: seq<string>): seq<string> {
    if lines == [] then []
    else
      var before := lines[..|lines| - 1];
      FirstOccurrences(before) + (if Last(lines) in before then [] else [Last(lines)])
  }

  lemma {:induction false} FirstOccurrencesElements(lines: seq<string>)
    ensures forall x :: x in FirstOccurrences(lines) <==> x in lines
  {
    if lines != [] {
      var before := lines[..|lines| - 1];
      FirstOccurrencesElements(before);
      assert lines == before + [Last(lines)];
    }
  }

  /** One step of the dedup loop extends the reference reading by one line. */
  lemma AddNewFirstOccurrences(done: seq<string>, x: string)
    ensures AddNew(FirstOccurrences(done), x) == FirstOccurrences(done + [x])
  {
    var next := done + [x];
    FirstOccurrencesElements(done);
    assert next[..|next| - 1] == done && Last(next) == x;
  }

  lemma ShiftFirst(done: seq<string>, rest: seq<string>)
    requires rest != []
    ensures (done + [rest[0]]) + rest[1..] == done + rest
  {
    assert rest == [rest[0]] + rest[1..];
  }

  lemma {:induction false} UniqueFromFirstOccurrences(done: seq<string>, rest: seq<string>)
    ensures UniqueFrom(FirstOccurrences(done), rest) == FirstOccurrences(done + rest)
    decreases |rest|
  {
    if rest == [] {
      assert done + rest == done;
    } else {
      var next := done + [rest[0]];
      var acc := FirstOccurrences(done);
      assert UniqueFrom(acc, rest) == UniqueFrom(AddNew(acc, rest[0]), rest[1..]);
      AddNewFirstOccurrences(done, rest[0]);
      UniqueFromFirstOccurrences(next, rest[1..]);
      ShiftFirst(done, rest);
    }
  }

  /** The dedup loop keeps exactly the lines that do not occur earlier, in their order. */
  lemma UniqueLinesKeepsFirstOccurrences(lines: seq<string>)
    ensures UniqueLines(lines) == FirstOccurrences(lines)
  {
    UniqueFromFirstOccurrences([], lines);
    assert [] + lines == lines;
  }

  /** Lines that are already distinct come through unchanged. */
  lemma {:induction false} UniqueLinesOfDistinct(lines: seq<string>)
    requires Distinct(lines)
    ensures UniqueLines(lines) == lines
  {
    UniqueLinesKeepsFirstOccurrences(lines);
    FirstOccurrencesOfDistinct(lines);
  }

  /** Dropping the last of distinct lines leaves distinct lines, none equal to it. */
  lemma DistinctSplit(lines: seq<string>)
    requires lines != [] && Distinct(lines)
    ensures Distinct(lines[..|lines| - 1]) && Last(lines) !in lines[..|lines| - 1]
  {
    var before := lines[..|lines| - 1];
    assert forall i :: 0 <= i < |before| ==> before[i] == lines[i];
  }

  lemma {:induction false} FirstOccurrencesOfDistinct(lines: seq<string>)
    requires Distinct(lines)
    ensures FirstOccurrences(lines) == lines
  {
    if lines != [] {
      var before := lines[..|lines| - 1];
      DistinctSplit(lines);
      FirstOccurrencesOfDistinct(before);
      assert lines == before + [Last(lines)];
    }
  }

  /** `if not new_parts or part != new_parts[-1]: new_parts.append(part)`. */
  function Push(acc: seq<string>, x: string): seq<string> {
    if acc != [] && Last(acc) == x then acc else acc + [x]
  }

  /** The loop of `remove_line_duplication` from the parts kept so far over the remaining ones. */
  function CollapseFrom(acc: seq<string>, rest: seq<string>): seq<string>
    decreases |rest|
  {
    if rest == [] then acc else CollapseFrom(Push(acc, rest[0]), rest[1..])
  }

  /** No two neighbours are equal. */
  ghost predicate NoRepeats(xs: seq<string>) {
    forall i, j :: 0 <= i < j < |xs| && j == i + 1 ==> xs[i] != xs[j]
  }

  lemma {:induction false} CollapseFromFacts(acc: seq<string>, rest: seq<string>)
    requires NoRepeats(acc)
    ensures var r := CollapseFrom(acc, rest);
      && NoRepeats(r)
      && |acc| <= |r| && r[..|acc|] == acc
      && (forall x :: x in r <==> x in acc || x in rest)
    decreases |rest|
  {
    if rest != [] {
      var next := Push(acc, rest[0]);
      assert NoRepeats(next) by {
        if next != acc {
          forall i, j | 0 <= i < j < |next| && j == i + 1 ensures next[i] != next[j] {
            if j < |acc| {
              assert next[i] == acc[i] && next[j] == acc[j];
            }
          }
        }
      }
      CollapseFromFacts(next, rest[1..]);
      var r := CollapseFrom(next, rest[1..]);
      assert r[..|acc|] == r[..|next|][..|acc|];
      assert rest == [rest[0]] + rest[1..];
    }
  }

  /** The segments `remove_line_duplication` keeps: each run of equal neighbours becomes one. */
  function CollapseRuns(parts: seq<string>): (r: seq<string>)
    ensures NoRepeats(r)
    ensures parts != [] ==> r != [] && r[0] == parts[0]
    ensures forall x :: x in r <==> x in parts
    ensures |r| <= |parts|
  {
    CollapseFromFacts([], parts);
    CollapseLength([], parts);
    CollapseKeepsFirstIf(parts);
    CollapseFrom([], parts)
  }

  lemma CollapseKeepsFirstIf(parts: seq<string>)
    ensures parts != [] ==> var r := CollapseFrom([], parts); r != [] && r[0] == parts[0]
  {
    if parts != [] {
      CollapseKeepsFirst(parts);
    }
  }

  lemma CollapseKeepsFirst(parts: seq<string>)
    requires parts != []
    ensures var r := CollapseFrom([], parts); r != [] && r[0] == parts[0]
  {
    assert Push([], parts[0]) == [parts[0]];
    assert CollapseFrom([], parts) == CollapseFrom([parts[0]], parts[1..]);
    CollapseFromFacts([parts[0]], parts[1..]);
    assert CollapseFrom([], parts)[..1] == [parts[0]];
  }

  lemma {:induction false} CollapseLength(acc: seq<string>, rest: seq<string>)
    ensures |CollapseFrom(acc, rest)| <= |acc| + |rest|
    decreases |rest|
  {
    if rest != [] {
      CollapseLength(Push(acc, rest[0]), rest[1..]);
    }
  }

  lemma {:induction false} CollapseFromAppend(acc: seq<string>, a: seq<string>, b: seq<string>)
    ensures CollapseFrom(acc, a + b) == CollapseFrom(CollapseFrom(acc, a), b)
    decreases |a|
  {
    if a == [] {
      assert a + b == b;
    } else {
      assert (a + b)[0] == a[0] && (a + b)[1..] == a[1..] + b;
      CollapseFromAppend(Push(acc, a[0]), a[1..], b);
    }
  }

  /** Doubling a segment next to itself makes no difference to the result. */
  lemma RepeatAbsorbed(a: seq<string>, x: string, b: seq<string>)
    ensures CollapseRuns(a + [x, x] + b) == CollapseRuns(a + [x] + b)
  {
    var c := CollapseFrom([], a);
    CollapseFromAppend([], a, [x, x] + b);
    CollapseFromAppend(c, [x, x], b);
    CollapseFromAppend([], a, [x] + b);
    CollapseFromAppend(c, [x], b);
    assert a + [x, x] + b == a + ([x, x] + b);
    assert a + [x] + b == a + ([x] + b);
    assert CollapseFrom(c, [x, x]) == CollapseFrom(c, [x]) by {
      assert [x, x][1..] == [x];
      assert [x][1..] == [];
    }
  }

  lemma {:induction false} CollapseFromNoRepeats(acc: seq<string>, rest: seq<string>)
    requires NoRepeats(acc + rest)
    ensures CollapseFrom(acc, rest) == acc + rest
    decreases |rest|
  {
    if rest == [] {
      assert acc + rest == acc;
    } else {
      var xs := acc + rest;
      if acc != [] {
        assert xs[|acc| - 1] == Last(acc) && xs[|acc|] == rest[0];
      }
      assert Push(acc, rest[0]) == acc + [rest[0]];
      assert (acc + [rest[0]]) + rest[1..] == xs;
      CollapseFromNoRepeats(acc + [rest[0]], rest[1..]);
    }
  }

  /** Segments with no equal neighbours come through unchanged. */
  lemma CollapseOfNoRepeats(parts: seq<string>)
    requires NoRepeats(parts)
    ensures CollapseRuns(parts) == parts
  {
    assert [] + parts == parts;
    CollapseFromNoRepeats([], parts);
  }

  /** Collapsing twice is collapsing once. */
  lemma CollapseIdempotent(parts: seq<string>)
    ensures CollapseRuns(CollapseRuns(parts)) == CollapseRuns(parts)
  {
    CollapseOfNoRepeats(CollapseRuns(parts));
  }

  const Dash: string := " - "

  /** `remove_line_duplication(line)`: collapse runs of equal `" - "` segments. */
  function RemoveLineDuplication(line: string): (r: string)
    ensures StartsWith(r, SplitOn(line, Dash)[0])
  {
    var segments := CollapseRuns(SplitOn(line, Dash));
    JoinStartsWithFirst(segments, Dash);
    Join(segments, Dash)
  }

  lemma JoinStartsWithFirst(parts: seq<string>, sep: string)
    requires parts != []
    ensures StartsWith(Join(parts, sep), parts[0])
  {
    if |parts| > 1 {
      var j := Join(parts, sep);
      assert j == parts[0] + (sep + Join(parts[1..], sep));
      assert j[..|parts[0]|] == parts[0];
    }
  }

  /** A line whose `" - "` segments have no equal neighbours is left as it is. */
  lemma RemoveLineDuplicationOfPlain(line: string)
    requires NoRepeats(SplitOn(line, Dash))
    ensures RemoveLineDuplication(line) == line
  {
    CollapseOfNoRepeats(SplitOn(line, Dash));
    JoinSplitOn(line, Dash);
  }

  /** A doubled segment collapses: `"A - B - B - C"` reads as `"A - B - C"`. */
  lemma RemoveLineDuplicationOfRepeat(a: seq<string>, x: string, b: seq<string>)
    requires SplitOn(Join(a + [x, x] + b, Dash), Dash) == a + [x, x] + b
    requires SplitOn(Join(a + [x] + b, Dash), Dash) == a + [x] + b
    ensures RemoveLineDuplication(Join(a + [x, x] + b, Dash)) == RemoveLineDuplication(Join(a + [x] + b, Dash))
  {
    RepeatAbsorbed(a, x, b);
  }

  /** The pieces of a line without line boundaries have none either. */
  lemma {:induction false} SplitOnNoLineBreak(s: string, sep: string)
    requires sep != [] && NoLineBreak(s)
    ensures forall k :: 0 <= k < |SplitOn(s, sep)| ==> NoLineBreak(SplitOn(s, sep)[k])
    decreases |s|
  {
    match Find(s, sep, 0)
    case None =>
    case Some(i) =>
      var rest := s[i + |sep|..];
      SliceNoLineBreak(s, i + |sep|, |s|);
      assert s[i + |sep|..|s|] == rest;
      SplitOnNoLineBreak(rest, sep);
      var parts := SplitOn(s, sep);
      assert parts == [s[..i]] + SplitOn(rest, sep);
      SliceNoLineBreak(s, 0, i);
      assert s[0..i] == s[..i];
      forall k | 0 <= k < |parts| ensures NoLineBreak(parts[k]) {
        if k > 0 {
          assert parts[k] == SplitOn(rest, sep)[k - 1];
        }
      }
  }

  /** Joining pieces without line boundaries by a separator without any gives none. */
  lemma {:induction false} JoinNoLineBreak(parts: seq<string>, sep: string)
    requires NoLineBreak(sep)
    requires forall k :: 0 <= k < |parts| ==> NoLineBreak(parts[k])
    ensures NoLineBreak(Join(parts, sep))
    decreases |parts|
  {
    if |parts| > 1 {
      JoinNoLineBreak(parts[1..], sep);
      var tail := Join(parts[1..], sep);
      var j := Join(parts, sep);
      assert j == parts[0] + sep + tail;
      forall i | 0 <= i < |j| ensures !IsLineBreak(j[i]) {
        if i < |parts[0]| {
          assert j[i] == parts[0][i];
        } else if i < |parts[0]| + |sep| {
          assert j[i] == sep[i - |parts[0]|];
        } else {
          assert j[i] == tail[i - |parts[0]| - |sep|];
        }
      }
    }
  }

  /** `remove_line_duplication` keeps a line a single line. */
  lemma RemoveLineDuplicationNoLineBreak(line: string)
    requires NoLineBreak(line)
    ensures NoLineBreak(RemoveLineDuplication(line))
  {
    var parts := SplitOn(line, Dash);
    SplitOnNoLineBreak(line, Dash);
    var segments := CollapseRuns(parts);
    forall k | 0 <= k < |segments| ensures NoLineBreak(segments[k]) {
      assert segments[k] in parts;
    }
    JoinNoLineBreak(segments, Dash);
  }

  /** `[remove_line_duplication(l) for l in lines]`. */
  function CleanLines(lines: seq<string>): (r: seq<string>)
    ensures |r| == |lines|
    ensures forall k :: 0 <= k < |lines| ==> r[k] == RemoveLineDuplication(lines[k])
  {
    seq(|lines|, k requires 0 <= k < |lines| => RemoveLineDuplication(lines[k]))
  }

  /**
   * `direccion_limpia`: the address lines without repeats, each with its
   * repeated segments collapsed, joined into one line by spaces.
   */
  function CleanAddress(address: string): (r: string)
    ensures NoLineBreak(r)
  {
    var lines := UniqueLines(SplitLines(address));
    var clean := CleanLines(lines);
    UniqueLinesNoLineBreak(SplitLines(address));
    CleanLinesNoLineBreak(lines);
    JoinNoLineBreak(clean, " ");
    Join(clean, " ")
  }

  lemma CleanLinesNoLineBreak(lines: seq<string>)
    requires forall k :: 0 <= k < |lines| ==> NoLineBreak(lines[k])
    ensures forall k :: 0 <= k < |lines| ==> NoLineBreak(CleanLines(lines)[k])
  {
    forall k | 0 <= k < |lines| ensures NoLineBreak(CleanLines(lines)[k]) {
      RemoveLineDuplicationNoLineBreak(lines[k]);
    }
  }

  lemma UniqueLinesNoLineBreak(all: seq<string>)
    requires forall k :: 0 <= k < |all| ==> NoLineBreak(all[k])
    ensures forall k :: 0 <= k < |UniqueLines(all)| ==> NoLineBreak(UniqueLines(all)[k])
  {
    var lines := UniqueLines(all);
    forall k | 0 <= k < |lines| ensures NoLineBreak(lines[k]) {
      assert lines[k] in all;
    }
  }

  /** An address of distinct lines, none with a doubled segment, is only joined into one line. */
  lemma CleanAddressOfPlain(xs: seq<string>)
    requires forall k :: 0 <= k < |xs| ==> xs[k] != "" && NoLineBreak(xs[k])
    requires Distinct(xs)
    requires forall k :: 0 <= k < |xs| ==> NoRepeats(SplitOn(xs[k], Dash))
    ensures CleanAddress(Join(xs, "\n")) == Join(xs, " ")
  {
    SplitLinesJoin(xs);
    UniqueLinesOfDistinct(xs);
    var clean := CleanLines(xs);
    forall k | 0 <= k < |xs| ensures clean[k] == xs[k] {
      RemoveLineDuplicationOfPlain(xs[k]);
    }
    assert clean == xs;
  }

  lemma {:induction false} UniqueFromAppend(acc: seq<string>, a: seq<string>, b: seq<string>)
    ensures UniqueFrom(acc, a + b) == UniqueFrom(UniqueFrom(acc, a), b)
    decreases |a|
  {
    if a == [] {
      assert a + b == b;
    } else {
      assert (a + b)[0] == a[0] && (a + b)[1..] == a[1..] + b;
      UniqueFromAppend(AddNew(acc, a[0]), a[1..], b);
    }
  }

  lemma {:induction false} UniqueFromSeen(acc: seq<string>, rest: seq<string>)
    requires forall k :: 0 <= k < |rest| ==> rest[k] in acc
    ensures UniqueFrom(acc, rest) == acc
    decreases |rest|
  {
    if rest != [] {
      assert rest[0] in acc;
      UniqueFromSeen(acc, rest[1..]);
    }
  }

  /** Lines that only repeat earlier ones are dropped. */
  lemma UniqueLinesDropsRepeats(xs: seq<string>, ys: seq<string>)
    requires forall k :: 0 <= k < |ys| ==> ys[k] in xs
    ensures UniqueLines(xs + ys) == UniqueLines(xs)
  {
    UniqueFromAppend([], xs, ys);
    UniqueFromElements([], xs);
    UniqueFromSeen(UniqueFrom([], xs), ys);
  }

  /** An address whose later lines repeat earlier ones cleans to the same text as without them. */
  lemma CleanAddressDropsRepeatedLines(xs: seq<string>, ys: seq<string>)
    requires forall k :: 0 <= k < |xs| ==> xs[k] != "" && NoLineBreak(xs[k])
    requires forall k :: 0 <= k < |ys| ==> ys[k] in xs
    ensures CleanAddress(Join(xs + ys, "\n")) == CleanAddress(Join(xs, "\n"))
  {
    var all := xs + ys;
    forall k | 0 <= k < |all| ensures all[k] != "" && NoLineBreak(all[k]) {
      if k >= |xs| {
        assert all[k] == ys[k - |xs|];
        assert exists j :: 0 <= j < |xs| && xs[j] == all[k];
      }
    }
    SplitLinesJoin(all);
    SplitLinesJoin(xs);
    UniqueLinesDropsRepeats(xs, ys);
  }

  // ---------------------------------------------------------------------
  // Height estimate
  // ---------------------------------------------------------------------

  /** `len(wrap_text(text, maxWidth, c, font, size))`. */
  function WrappedLines(measure: Measure, text: string, maxWidth: real, font: Font, size: int): (n: nat)
    ensures n == 0 <==> Split(text) == []
  {
    |Wrap.WrapText(text, At(measure, font, size), maxWidth)|
  }

  const Title: string := "BOLETA ELECTRÓNICA"

  /** The identification lines, the optional ones only when their value is non-empty. */
  function Fields(r: Receipt.Receipt): (fields: seq<string>)
    ensures 4 <= |fields| <= 6
    ensures fields[0] == "RUC: " + r.ruc && fields[1] == r.docNumber
    ensures fields[2] == "Fecha de Emisión: " + r.issueDate && fields[3] == "Señor (es): " + r.customer
    ensures |fields| == 4 + (if r.customerDoc != "" then 1 else 0) + (if r.currency != "" then 1 else 0)
    ensures r.customerDoc != "" ==> fields[4] == "DNI: " + r.customerDoc
    ensures r.currency != "" ==> Last(fields) == "Tipo de Moneda: " + r.currency
  {
    ["RUC: " + r.ruc, r.docNumber, "Fecha de Emisión: " + r.issueDate, "Señor (es): " + r.customer]
      + (if r.customerDoc != "" then ["DNI: " + r.customerDoc] else [])
      + (if r.currency != "" then ["Tipo de Moneda: " + r.currency] else [])
  }

  /** Ten points per wrapped line of a field, at 48 mm in Helvetica 10. */
  function FieldHeight(measure: Measure, field: string): real {
    WrappedLines(measure, field, 48.0 * MM, Helvetica, 10) as real * 10.0
  }

  function FieldsHeight(measure: Measure, fields: seq<string>): real {
    if fields == [] then 0.0
    else FieldsHeight(measure, fields[..|fields| - 1]) + FieldHeight(measure, Last(fields))
  }

  /** Eight points per wrapped description line plus two per item, at 36 mm in Helvetica 7. */
  function ItemsHeight(measure: Measure, items: seq<Items.Item>): real {
    if items == [] then 0.0
    else
      ItemsHeight(measure, items[..|items| - 1])
        + WrappedLines(measure, Last(items).description, 36.0 * MM, Helvetica, 7) as real * 8.0 + 2.0
  }

  /** The three centred header blocks, each at 52 mm. */
  function HeadingHeight(measure: Measure, r: Receipt.Receipt): real {
    (if r.businessName != "" then WrappedLines(measure, r.businessName, 52.0 * MM, HelveticaBold, 20) as real * 22.0 else 0.0)
      + (if r.legalName != "" then WrappedLines(measure, r.legalName, 52.0 * MM, Helvetica, 12) as real * 14.0 else 0.0)
      + (if r.address != "" then WrappedLines(measure, r.address, 52.0 * MM, Helvetica, 10) as real * 12.0 else 0.0)
  }

  /**
   * `calcular_altura(datos, c)`: the page height the content is estimated to
   * need. Whatever the measurement it covers both margins, a line for the
   * title, a line each for the RUC, date and customer fields, the fixed rules
   * and totals, and two points per item.
   */
  function EstimateHeight(measure: Measure, r: Receipt.Receipt): (h: real)
    ensures h >= 10.0 * MM + 127.0 + 2.0 * |r.items| as real
  {
    TitleLines(measure);
    FieldsHeightAtLeastThree(measure, r);
    ItemsHeightAtLeast(measure, r.items);
    HeadingHeightAtLeast(measure, r);
    5.0 * MM + HeadingHeight(measure, r) + 5.0 * MM
      + WrappedLines(measure, Title, 48.0 * MM, HelveticaBold, 12) as real * 12.0
      + FieldsHeight(measure, Fields(r)) + 10.0
      + 12.0 + ItemsHeight(measure, r.items)
      + 5.0 + 10.0 + (12.0 + 12.0 + 14.0 + 10.0)
  }

  lemma {:induction false} ItemsHeightAtLeast(measure: Measure, items: seq<Items.Item>)
    ensures ItemsHeight(measure, items) >= 2.0 * |items| as real
  {
    if items != [] {
      ItemsHeightAtLeast(measure, items[..|items| - 1]);
    }
  }

  lemma {:induction false} FieldsHeightAtLeast(measure: Measure, fields: seq<string>)
    ensures FieldsHeight(measure, fields) >= 0.0
  {
    if fields != [] {
      FieldsHeightAtLeast(measure, fields[..|fields| - 1]);
    }
  }

  lemma HeadingHeightAtLeast(measure: Measure, r: Receipt.Receipt)
    ensures HeadingHeight(measure, r) >= 0.0
  {
  }

  /** A field that starts with a label takes at least one line. */
  lemma LabelledFieldLines(measure: Measure, text: string)
    requires |text| > 0 && !IsSpace(text[0])
    ensures FieldHeight(measure, text) >= 10.0
  {
    SplitNonEmpty(text, 0);
  }

  /** The title always takes at least one line. */
  lemma TitleLines(measure: Measure)
    ensures WrappedLines(measure, Title, 48.0 * MM, HelveticaBold, 12) >= 1
  {
    SplitNonEmpty(Title, 0);
  }

  /** The identification fields take at least the lines of the RUC, date and customer fields. */
  lemma FieldsHeightAtLeastThree(measure: Measure, r: Receipt.Receipt)
    ensures FieldsHeight(measure, Fields(r)) >= 30.0
  {
    var fields := Fields(r);
    LabelledFieldLines(measure, fields[0]);
    LabelledFieldLines(measure, fields[2]);
    LabelledFieldLines(measure, fields[3]);
    FieldsPrefixHeight(measure, fields);
  }

  /** The first four fields alone take the height of the RUC, date and customer fields. */
  lemma {:induction false} FieldsPrefixHeight(measure: Measure, fields: seq<string>)
    requires |fields| >= 4
    ensures FieldsHeight(measure, fields)
      >= FieldHeight(measure, fields[0]) + FieldHeight(measure, fields[2]) + FieldHeight(measure, fields[3])
    decreases |fields|
  {
    var before := fields[..|fields| - 1];
    if |fields| > 4 {
      FieldsPrefixHeight(measure, before);
      assert before[0] == fields[0] && before[2] == fields[2] && before[3] == fields[3];
    } else {
      assert fields == [fields[0], fields[1], fields[2], fields[3]];
      FieldsFour(measure, fields[0], fields[1], fields[2], fields[3]);
    }
  }

  lemma FieldsFour(measure: Measure, a: string, b: string, c: string, d: string)
    ensures FieldsHeight(measure, [a, b, c, d])
      == FieldHeight(measure, a) + FieldHeight(measure, b) + FieldHeight(measure, c) + FieldHeight(measure, d)
  {
    assert [a, b, c, d][..3] == [a, b, c] && Last([a, b, c, d]) == d;
    assert [a, b, c][..2] == [a, b] && Last([a, b, c]) == c;
    assert [a, b][..1] == [a] && Last([a, b]) == b;
    assert [a][..0] == [] && Last([a]) == a;
    assert FieldsHeight(measure, [a]) == FieldHeight(measure, a);
    assert FieldsHeight(measure, [a, b]) == FieldsHeight(measure, [a]) + FieldHeight(measure, b);
    assert FieldsHeight(measure, [a, b, c]) == FieldsHeight(measure, [a, b]) + FieldHeight(measure, c);
  }

  /** One more item adds eight points per line of its wrapped description, plus two. */
  lemma EstimateHeightAddItem(measure: Measure, r: Receipt.Receipt, it: Items.Item)
    ensures EstimateHeight(measure, r.(items := r.items + [it]))
      == EstimateHeight(measure, r) + WrappedLines(measure, it.description, 36.0 * MM, Helvetica, 7) as real * 8.0 + 2.0
  {
    var more := r.items + [it];
    assert more[..|more| - 1] == r.items;
    assert Fields(r.(items := more)) == Fields(r);
  }
}
