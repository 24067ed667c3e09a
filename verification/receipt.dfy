/**
 * The non-pattern parts of `extraer_datos_boleta`: the line list, the header
 * slots, the customer default and the item-table block. The scalar fields that
 * the source reads with regular-expression searches over the whole text are
 * inputs here (`Captures`): each is the search's captured group, or `None`
 * when the search fails.
 */
module Receipt {
  import opened Text
  import Header
  import Items

  // ---------------------------------------------------------------------
  // The line list
  // ---------------------------------------------------------------------

  /** A line as the extractor keeps it: non-blank and already stripped. */
  ghost predicate KeptLine(line: string) {
    line != "" && Strip(line) == line && NoLineBreak(line)
  }

  /** The stripped, non-blank pieces, in order. */
  function NonBlank(pieces: seq<string>): seq<string> {
    if pieces == [] then []
    else
      var line := Strip(pieces[0]);
      if line == "" then NonBlank(pieces[1..]) else [line] + NonBlank(pieces[1..])
  }

  /** Every piece that survives is a kept line. */
  lemma {:induction false} NonBlankKeptLines(pieces: seq<string>)
    requires forall k :: 0 <= k < |pieces| ==> NoLineBreak(pieces[k])
    ensures |NonBlank(pieces)| <= |pieces|
    ensures forall k :: 0 <= k < |NonBlank(pieces)| ==> KeptLine(NonBlank(pieces)[k])
    decreases |pieces|
  {
    if pieces != [] {
      var line := Strip(pieces[0]);
      var rest := NonBlank(pieces[1..]);
      NonBlankKeptLines(pieces[1..]);
      if line != "" {
        StripIdempotent(pieces[0]);
        StripNoLineBreak(pieces[0]);
        assert KeptLine(line);
        var r := [line] + rest;
        assert NonBlank(pieces) == r;
        forall k | 0 <= k < |r| ensures KeptLine(r[k]) {
          if k > 0 {
            assert r[k] == rest[k - 1];
          }
        }
      }
    }
  }

  /** `[line.strip() for line in texto.splitlines() if line.strip()]`. */
  function TextLines(text: string): (lines: seq<string>)
    ensures forall k :: 0 <= k < |lines| ==> KeptLine(lines[k])
  {
    NonBlankKeptLines(SplitLines(text));
    NonBlank(SplitLines(text))
  }

  /** Kept lines pass through unchanged. */
  lemma {:induction false} NonBlankKept(xs: seq<string>)
    requires forall k :: 0 <= k < |xs| ==> KeptLine(xs[k])
    ensures NonBlank(xs) == xs
    decreases |xs|
  {
    if xs != [] {
      assert KeptLine(xs[0]);
      NonBlankKept(xs[1..]);
    }
  }

  /** Lines that are already kept lines come back unchanged from a newline-joined text. */
  lemma TextLinesOfJoined(xs: seq<string>)
    requires forall k :: 0 <= k < |xs| ==> KeptLine(xs[k])
    ensures TextLines(Join(xs, "\n")) == xs
  {
    assert forall k :: 0 <= k < |xs| ==> xs[k] != "" && NoLineBreak(xs[k]) by {
      forall k | 0 <= k < |xs| ensures xs[k] != "" && NoLineBreak(xs[k]) {
        assert KeptLine(xs[k]);
      }
    }
    SplitLinesJoin(xs);
    NonBlankKept(xs);
  }

  /** One piece: kept stripped when it is not blank, dropped otherwise. */
  lemma NonBlankSingle(piece: string)
    ensures NonBlank([piece]) == if Strip(piece) == "" then [] else [Strip(piece)]
  {
    assert [piece][1..] == [];
  }

  /** Filtering a concatenation filters each part. */
  lemma {:induction false} NonBlankAppend(a: seq<string>, b: seq<string>)
    ensures NonBlank(a + b) == NonBlank(a) + NonBlank(b)
    decreases |a|
  {
    if a == [] {
      assert a + b == b;
    } else {
      assert (a + b)[0] == a[0];
      assert (a + b)[1..] == a[1..] + b;
      NonBlankAppend(a[1..], b);
    }
  }

  /**
   * Text as the converter builds it: lines joined by "\n" with a final "\n".
   * The kept lines are the raw lines stripped, with the blank ones dropped.
   */
  lemma TextLinesTerminated(xs: seq<string>)
    requires xs != []
    requires forall k :: 0 <= k < |xs| ==> NoLineBreak(xs[k])
    ensures TextLines(Join(xs, "\n") + "\n") == NonBlank(xs)
  {
    SplitLinesTerminated(xs);
  }

  /** A "\r\n" boundary and a blank line between two lines leave just the two, stripped. */
  lemma TextLinesSample()
    ensures TextLines(" A \r\n\nB\n") == ["A", "B"]
  {
    SplitLinesSample();
    NonBlankSample();
  }

  lemma SplitLinesSample()
    ensures SplitLines(" A \r\n\nB\n") == [" A ", "", "B"]
  {
    var last := "B\n";
    assert last == "B" + "\n" + "";
    SplitLinesCons("B", "");
    var mid := "\nB\n";
    assert mid == "" + "\n" + last;
    SplitLinesCons("", last);
    assert " A \r\n\nB\n" == " A " + "\r\n" + mid;
    SplitLinesCrlf(" A ", mid);
  }

  lemma NonBlankSample()
    ensures NonBlank([" A ", "", "B"]) == ["A", "B"]
  {
    StripSample();
    NonBlankSingle(" A ");
    NonBlankSingle("");
    NonBlankSingle("B");
    NonBlankAppend([""], ["B"]);
    NonBlankAppend([" A "], ["", "B"]);
    assert [" A ", "", "B"] == [" A "] + ([""] + ["B"]);
  }

  lemma StripSample()
    ensures Strip(" A ") == "A" && Strip("") == "" && Strip("B") == "B"
  {
    assert IsSpace(' ') && !IsSpace('A') && !IsSpace('B');
    assert SpaceRun(" A ") == 1;
    assert TrailingSpaces("A ") == 1;
    assert " A "[1..] == "A ";
    assert SpaceRun("B") == 0 && TrailingSpaces("B") == 0;
  }

  // ---------------------------------------------------------------------
  // Header slots
  // ---------------------------------------------------------------------

  /** How many leading lines the header is read from. */
  const HeaderWindow := 6

  /** The non-empty cleaned forms of `lines`, in order. */
  function CleanAll(lines: seq<string>): (header: seq<string>)
    ensures |header| <= |lines|
    ensures forall k :: 0 <= k < |header| ==> header[k] != ""
    ensures (forall k :: 0 <= k < |lines| ==> NoLineBreak(lines[k])) ==>
      forall k :: 0 <= k < |header| ==> NoLineBreak(header[k])
  {
    if lines == [] then []
    else
      var cleaned := Header.CleanHeaderLine(lines[0]);
      Header.CleanHeaderLineSingle(lines[0]);
      if cleaned == "" then CleanAll(lines[1..]) else [cleaned] + CleanAll(lines[1..])
  }

  /** A single line contributes its cleaned form, unless that is empty. */
  lemma CleanAllSingle(line: string)
    ensures CleanAll([line]) == if Header.CleanHeaderLine(line) == "" then [] else [Header.CleanHeaderLine(line)]
  {
    assert [line][1..] == [];
  }

  /** Cleaning works line by line: the header list of two runs of lines is the two lists in order. */
  lemma {:induction false} CleanAllAppend(a: seq<string>, b: seq<string>)
    ensures CleanAll(a + b) == CleanAll(a) + CleanAll(b)
    decreases |a|
  {
    if a == [] {
      assert a + b == b;
    } else {
      assert (a + b)[0] == a[0] && (a + b)[1..] == a[1..] + b;
      CleanAllAppend(a[1..], b);
    }
  }

  /** When no line cleans to nothing, entry `k` is the cleaned form of line `k`. */
  lemma {:induction false} CleanAllKeepsEveryLine(lines: seq<string>)
    requires forall k :: 0 <= k < |lines| ==> Header.CleanHeaderLine(lines[k]) != ""
    ensures |CleanAll(lines)| == |lines|
    ensures forall k :: 0 <= k < |lines| ==> CleanAll(lines)[k] == Header.CleanHeaderLine(lines[k])
    decreases |lines|
  {
    if lines != [] {
      var rest := lines[1..];
      assert forall k :: 0 <= k < |rest| ==> rest[k] == lines[k + 1];
      CleanAllKeepsEveryLine(rest);
      var header := CleanAll(lines);
      assert header == [Header.CleanHeaderLine(lines[0])] + CleanAll(rest);
      forall k | 0 <= k < |lines| ensures header[k] == Header.CleanHeaderLine(lines[k]) {
        if k > 0 {
          assert header[k] == CleanAll(rest)[k - 1];
        }
      }
    }
  }

  /** The header list: cleaned, non-empty forms of the first six lines. */
  function HeaderLines(lines: seq<string>): (header: seq<string>)
    ensures |header| <= HeaderWindow
  {
    CleanAll(if |lines| <= HeaderWindow then lines else lines[..HeaderWindow])
  }

  /** Lines after the sixth never reach the header. */
  lemma HeaderIgnoresLaterLines(lines: seq<string>, more: seq<string>)
    requires |lines| >= HeaderWindow
    ensures HeaderLines(lines + more) == HeaderLines(lines)
  {
    var all := lines + more;
    var w1 := if |all| <= HeaderWindow then all else all[..HeaderWindow];
    var w2 := if |lines| <= HeaderWindow then lines else lines[..HeaderWindow];
    assert w1 == w2 by {
      assert |w1| == HeaderWindow == |w2|;
      forall k | 0 <= k < HeaderWindow ensures w1[k] == w2[k] {
        assert w1[k] == all[k] == lines[k] == w2[k];
      }
    }
  }

  /** The first line that cleans to something is the first header entry. */
  lemma HeaderLinesFirst(lines: seq<string>)
    ensures lines != [] && Header.CleanHeaderLine(lines[0]) != "" ==>
      HeaderLines(lines) != [] && HeaderLines(lines)[0] == Header.CleanHeaderLine(lines[0])
  {
    if lines != [] {
      var window := if |lines| <= HeaderWindow then lines else lines[..HeaderWindow];
      assert window[0] == lines[0];
    }
  }

  /**
   * Among the first six lines, those that clean to nothing are skipped and
   * the others fill the header list in order: a first block of lines `a`
   * (at most six) contributes its cleaned lines ahead of the following ones.
   */
  lemma HeaderLinesSplit(a: seq<string>, b: seq<string>)
    requires |a| + |b| <= HeaderWindow
    ensures HeaderLines(a + b) == CleanAll(a) + HeaderLines(b)
  {
    CleanAllAppend(a, b);
  }

  /** The three header fields of the receipt. */
  datatype Heading = Heading(businessName: string, legalName: string, address: string)

  /** Line 1 is the business name, line 2 the legal name, the rest the address (newline-joined). */
  function Slot(header: seq<string>): (h: Heading)
    ensures header != [] ==> h.businessName == header[0]
    ensures |header| >= 2 ==> h.legalName == header[1]
    ensures |header| >= 3 ==> h.address == Join(header[2..], "\n")
    ensures |header| < 3 ==> h.address == ""
    ensures |header| < 2 ==> h.legalName == ""
    ensures header == [] ==> h.businessName == ""
  {
    Heading(
      if header != [] then header[0] else "",
      if |header| >= 2 then header[1] else "",
      if |header| >= 3 then Join(header[2..], "\n") else "")
  }

  /** Reading the header list back from the three fields. */
  function Unslot(h: Heading): seq<string> {
    (if h.businessName == "" then [] else [h.businessName])
      + (if h.legalName == "" then [] else [h.legalName])
      + SplitLines(h.address)
  }

  /** Slotting loses nothing: the header list is recovered from the three fields. */
  lemma SlotRoundTrip(header: seq<string>)
    requires forall k :: 0 <= k < |header| ==> header[k] != "" && NoLineBreak(header[k])
    ensures Unslot(Slot(header)) == header
  {
    if |header| >= 3 {
      var rest := header[2..];
      assert forall k :: 0 <= k < |rest| ==> rest[k] == header[k + 2];
      SplitLinesJoin(rest);
      assert header == [header[0]] + [header[1]] + header[2..];
    } else if |header| == 2 {
      assert header == [header[0]] + [header[1]];
    }
  }

  /** The header fields of a text: slotted, cleaned, first six kept lines. */
  function HeadingOf(text: string): Heading {
    Slot(HeaderLines(TextLines(text)))
  }

  /** The heading of any text gives back its header list. */
  lemma HeadingRoundTrip(text: string)
    ensures Unslot(HeadingOf(text)) == HeaderLines(TextLines(text))
  {
    var lines := TextLines(text);
    var window := if |lines| <= HeaderWindow then lines else lines[..HeaderWindow];
    assert forall k :: 0 <= k < |window| ==> NoLineBreak(window[k]);
    SlotRoundTrip(HeaderLines(lines));
  }

  // ---------------------------------------------------------------------
  // Customer
  // ---------------------------------------------------------------------

  /** The value used when no customer name is given. */
  const Placeholder := "Clientes Varios"

  /** A captured customer name that counts as a name: not blank, not "null" in any ASCII case. */
  predicate IsNamed(candidate: string) {
    candidate != "" && Lower(candidate) != "null"
  }

  /** The `cliente` field from the `Señor (es):` capture. */
  function Customer(capture: Option<string>): (r: string)
    ensures r != "" && Strip(r) == r && Lower(r) != "null"
    ensures capture.Some? && IsNamed(Strip(capture.value)) ==> r == Strip(capture.value)
    ensures capture.None? || !IsNamed(Strip(capture.value)) ==> r == Placeholder
  {
    PlaceholderIsNamed();
    match capture
    case None => Placeholder
    case Some(c) =>
      var candidate := Strip(c);
      StripIdempotent(c);
      if IsNamed(candidate) then candidate else Placeholder
  }

  lemma PlaceholderIsNamed()
    ensures IsNamed(Placeholder) && Strip(Placeholder) == Placeholder
  {
    var low := Lower(Placeholder);
    assert |low| == 15;
    assert SpaceRun(Placeholder) == 0;
    assert Placeholder[0..] == Placeholder;
    assert TrailingSpaces(Placeholder) == 0;
    assert Placeholder[..15] == Placeholder;
  }

  // ---------------------------------------------------------------------
  // The item-table block
  // ---------------------------------------------------------------------

  /** The column titles that mark the table header line. */
  const TableKeywords: seq<string> := ["Cantidad", "Unidad Medida", "Código", "Valor Unitario", "Descripción"]

  /** Every column title occurs in the line (case-sensitive). */
  predicate IsTableHeader(line: string) {
    forall k :: 0 <= k < |TableKeywords| ==> Contains(line, TableKeywords[k])
  }

  /** `Sub\s*Total` or `Importe Total` matches at `p` of the lower-cased line. */
  predicate TotalsAt(low: string, p: nat) {
    || (OccursAt(low, "sub", p) && OccursAt(low, "total", SkipSpaces(low, p + 3)))
    || OccursAt(low, "importe total", p)
  }

  /** The declarative reading of `Sub\s*Total|Importe Total` at `p`: any run of whitespace between "sub" and "total". */
  ghost predicate TotalsShape(low: string, p: nat) {
    || OccursAt(low, "importe total", p)
    || (OccursAt(low, "sub", p) && exists q: nat :: p + 3 <= q && Header.SpacesIn(low, p + 3, q) && OccursAt(low, "total", q))
  }

  /** The greedy walk of `TotalsAt` accepts exactly where the pattern matches. */
  lemma TotalsAtIff(low: string, p: nat)
    ensures TotalsAt(low, p) <==> TotalsShape(low, p)
  {
    if OccursAt(low, "sub", p) {
      var m := SkipSpaces(low, p + 3);
      if OccursAt(low, "total", m) {
        assert Header.SpacesIn(low, p + 3, m);
      }
      if q: nat :| p + 3 <= q && Header.SpacesIn(low, p + 3, q) && OccursAt(low, "total", q) {
        assert low[q] == low[q..q + 5][0] == 't';
        SkipSpacesExact(low, p + 3, q);
      }
    }
  }

  /** `re.search(r'(Sub\s*Total|Importe Total)', line, re.IGNORECASE)` succeeds. */
  predicate IsTotalsLine(line: string) {
    exists p :: 0 <= p < |line| && TotalsAt(Lower(line), p)
  }

  /** Lines up to, not including, the first totals line. */
  function UntilTotals(lines: seq<string>): (block: seq<string>)
    ensures |block| <= |lines| && block == lines[..|block|]
    ensures forall k :: 0 <= k < |block| ==> !IsTotalsLine(block[k])
    ensures |block| < |lines| ==> IsTotalsLine(lines[|block|])
  {
    if lines == [] || IsTotalsLine(lines[0]) then [] else [lines[0]] + UntilTotals(lines[1..])
  }

  /** The index of the first table header line at or after `from`. */
  function FindTableHeader(lines: seq<string>, from: nat): (r: Option<nat>)
    ensures r.Some? ==> from <= r.value < |lines| && IsTableHeader(lines[r.value])
    ensures r.Some? ==> forall j :: from <= j < r.value ==> !IsTableHeader(lines[j])
    ensures r.None? ==> forall j :: from <= j < |lines| ==> !IsTableHeader(lines[j])
    decreases |lines| - from
  {
    if from >= |lines| then None
    else if IsTableHeader(lines[from]) then Some(from)
    else FindTableHeader(lines, from + 1)
  }

  /**
   * The lines handed to `extraer_items`: those after the first table header
   * line, up to the first totals line; `None` without a header line.
   */
  function ItemBlock(lines: seq<string>): (r: Option<seq<string>>)
    ensures r.None? <==> forall j :: 0 <= j < |lines| ==> !IsTableHeader(lines[j])
    ensures r.Some? ==>
      exists h :: 0 <= h < |lines| && IsTableHeader(lines[h])
        && (forall j :: 0 <= j < h ==> !IsTableHeader(lines[j]))
        && r.value == UntilTotals(lines[h + 1..])
  {
    match FindTableHeader(lines, 0)
    case None => None
    case Some(h) => Some(UntilTotals(lines[h + 1..]))
  }

  /** `datos["items"]`: the parsed block, or no items without a table header. */
  function ReceiptItems(lines: seq<string>): (items: seq<Items.Item>)
    ensures (forall j :: 0 <= j < |lines| ==> !IsTableHeader(lines[j])) ==> items == []
    ensures ItemBlock(lines).Some? ==> items == Items.ExtractItems(ItemBlock(lines).value)
    ensures forall k :: 0 <= k < |items| ==> Items.ValidItem(items[k])
  {
    match ItemBlock(lines)
    case None => []
    case Some(block) => Items.ExtractItems(block)
  }

  /** A block line never reaches the totals: the subtotal and total lines are not parsed as items. */
  lemma BlockStopsAtTotals(lines: seq<string>)
    requires ItemBlock(lines).Some?
    ensures forall k :: 0 <= k < |ItemBlock(lines).value| ==> !IsTotalsLine(ItemBlock(lines).value[k])
  {
  }

  // ---------------------------------------------------------------------
  // The whole record
  // ---------------------------------------------------------------------

  /** The captured groups of the scalar searches over the whole text. */
  datatype Captures = Captures(
    ruc: Option<string>, issueDate: Option<string>, docNumber: Option<string>,
    customer: Option<string>, customerDoc: Option<string>, currency: Option<string>,
    subtotal: Option<string>, total: Option<string>)

  /** The dictionary `extraer_datos_boleta` returns. */
  datatype Receipt = Receipt(
    businessName: string, legalName: string, address: string,
    ruc: string, issueDate: string, docNumber: string,
    customer: string, customerDoc: string, currency: string,
    items: seq<Items.Item>, subtotal: string, total: string)

  /** `m.group(n) if m else ""`. */
  function OrEmpty(capture: Option<string>): string {
    match capture
    case None => ""
    case Some(v) => v
  }

  /** `m.group(n).strip() if m else ""`. */
  function StrippedOrEmpty(capture: Option<string>): string {
    match capture
    case None => ""
    case Some(v) => Strip(v)
  }

  /** `extraer_datos_boleta(texto)`, with the scalar searches' results given as `caps`. */
  function ExtractReceipt(text: string, caps: Captures): (r: Receipt)
    ensures var h := HeaderLines(TextLines(text));
      && (h != [] ==> r.businessName == h[0])
      && (|h| >= 2 ==> r.legalName == h[1])
      && Unslot(Heading(r.businessName, r.legalName, r.address)) == h
    ensures var lines := TextLines(text);
      lines != [] && Header.CleanHeaderLine(lines[0]) != "" ==> r.businessName == Header.CleanHeaderLine(lines[0])
    ensures r.customer == Customer(caps.customer)
    ensures r.items == ReceiptItems(TextLines(text))
    ensures caps.ruc.Some? ==> r.ruc == caps.ruc.value
    ensures caps.issueDate.Some? ==> r.issueDate == caps.issueDate.value
    ensures caps.docNumber.Some? ==> r.docNumber == caps.docNumber.value
    ensures caps.customerDoc.Some? ==> r.customerDoc == Strip(caps.customerDoc.value)
    ensures caps.currency.Some? ==> r.currency == Strip(caps.currency.value)
    ensures caps.subtotal.Some? ==> r.subtotal == caps.subtotal.value
    ensures caps.total.Some? ==> r.total == caps.total.value
    ensures caps.ruc.None? ==> r.ruc == ""
    ensures caps.issueDate.None? ==> r.issueDate == ""
    ensures caps.docNumber.None? ==> r.docNumber == ""
    ensures caps.customerDoc.None? ==> r.customerDoc == ""
    ensures caps.currency.None? ==> r.currency == ""
    ensures caps.subtotal.None? ==> r.subtotal == ""
    ensures caps.total.None? ==> r.total == ""
  {
    var heading := HeadingOf(text);
    HeadingRoundTrip(text);
    HeaderLinesFirst(TextLines(text));
    Receipt(
      heading.businessName, heading.legalName, heading.address,
      OrEmpty(caps.ruc), OrEmpty(caps.issueDate), OrEmpty(caps.docNumber),
      Customer(caps.customer), StrippedOrEmpty(caps.customerDoc), StrippedOrEmpty(caps.currency),
      ReceiptItems(TextLines(text)),
      OrEmpty(caps.subtotal), OrEmpty(caps.total))
  }
}
