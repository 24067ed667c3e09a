# boletapdf58mm — a Dafny model of the receipt text pipeline

boletapdf58mm reads the text of an electronic sales receipt ("boleta
electrónica") that was extracted from a PDF. It turns that text into a
record:
- business name, legal name and address;
- RUC, date, document number, customer and customer document;
- currency, the item table, subtotal and total.

It then lays the record out on a 58 mm thermal-printer page.

This project models the pure text logic of `main.py` and proves properties of it:

- **Text**: the Python string built-ins the code relies on, each written out:
  - `str.split()`, `str.strip()` and `str.splitlines()` (with Python's whitespace and line-boundary sets);
  - `" ".join`, `str.split(sep)`, `in`, `find` and `startswith`;
  - ASCII `upper`/`lower`;
  - the `^\d+\.\d+` match as `LeadingDecimal`.
- **Wrap**: `wrap_text`, the greedy word wrapper. The string-width measurement is a function parameter.
- **Items**: `extraer_items`, the item-table state machine. The Python loop can append the same dictionary to the list twice and later change both entries through the shared reference; the model reproduces this exactly.
- **Header**: `limpiar_header_line`, the header-line cleaner with its three rules in priority order. It includes the `EB\d+\s*[-–]\s*\d+` search.
- **Receipt**: `extraer_datos_boleta`, covering:
  - the kept-line list;
  - the header slots filled from the first six lines;
  - the `Clientes Varios` customer default;
  - the item block between the column-title line and the first totals line.

  The scalar regular-expression searches are inputs: each is the captured group, or `None`.
- **Layout**: the pure helpers of `generar_pdf_58mm`, namely:
  - the business-name font-size loop;
  - the address clean-up (drop repeated lines, collapse repeated `" - "` segments, join with spaces);
  - the height estimate `calcular_altura`.

Lengths are in points, stated as reals, with `mm` = 72/25.4 points.

Where the documentation and the code disagree, the model follows the code:
- `extraer_datos_boleta`'s doc comment says the header comes from the first four lines. The code reads six (`Receipt.HeaderWindow`).
- The business-name font loop starts at 12 with floor 12, so it never changes the size (`Layout.NameFontSize`). The drawing docstring speaks of a size that starts at 30 and is lowered as needed.
- `calcular_altura` is modelled as written, though nothing calls it. Its font sizes differ from those the drawing code uses.
- A quantity line with fewer than four tokens re-lists the current item instead of being ignored. The item count therefore follows `Items.ExtractItems`' formula, not "one per quantity line". The per-line reading holds when every quantity line has four tokens (`Items.ExtractItemsByGroups`).

## Model

| member | source | states |
|---|---|---|
| Text.SplitJoin | main.py:51-52 | splitting a space-joined list of words gives back exactly those words |
| Text.StripKeepsWords | main.py:38 | stripping removes only whitespace: the words of a line are unchanged |
| Text.StripEmptyIffNoWords | main.py:38-40 | a line strips to empty exactly when it has no words |
| Text.StripIdempotent | main.py:117 | stripping a stripped line changes nothing |
| Text.Strip | main.py:38 | the result is a slice of the input with no whitespace at either end |
| Text.SplitLines | main.py:117 | no piece contains a line boundary; what it yields on every input is stated by `Text.SplitLinesBreak`, `Text.SplitLinesCrlf` and `Text.SplitLinesLast` |
| Text.SplitLinesJoin | main.py:117 | lines without boundaries, empty ones included, joined by newlines split back into the same lines, as long as the last line is not empty |
| Text.SplitLinesTerminated | main.py:117 | text built as the converter builds it, lines joined by newlines plus a final newline, splits back into exactly those lines: empty lines inside are kept and the final newline adds none |
| Text.SplitLinesBreak | main.py:117 | any line-boundary character ends the first line, even an empty one, and the rest is split on its own; a carriage return absorbs only a following newline |
| Text.SplitLinesCrlf | main.py:117 | "\r\n" is a single boundary: no empty line appears between the two characters |
| Text.SplitLinesCons | main.py:117 | a line, possibly empty, followed by a newline splits off as the first line |
| Text.SplitLinesLast | main.py:117 | text without a boundary is one line, or no line when it is empty |
| Text.Split | main.py:44 | every piece is a non-empty word without whitespace; what the result is on every input is stated by `Text.SplitAroundSpace`, `Text.SplitWord` and `Text.SplitAllSpaces` |
| Text.SplitAroundSpace | main.py:44 | splitting at a whitespace character splits the word lists apart: the words of the two sides, one after the other |
| Text.SplitWord | main.py:44 | a word without whitespace splits into itself alone |
| Text.SplitAllSpaces | main.py:14 | text made only of whitespace has no words |
| Text.SplitOn | main.py:270 | there is at least one piece, and no piece contains the separator |
| Text.SplitOnCuts | main.py:270 | one piece exactly when the separator does not occur; otherwise the first piece ends where the separator first occurs, and the other pieces are the split of what follows that occurrence |
| Text.JoinSplitOn | main.py:270-275 | re-joining the pieces of a split on a separator gives back the original string |
| Text.LeadingDecimal | main.py:41 | a match is a non-empty prefix of the string |
| Text.LeadingDecimalMeaning | main.py:41 | `^\d+\.\d+` succeeds exactly when some prefix is digits, a dot and digits; the match is such a prefix and is not followed by a further digit |
| Text.BareDecimalShape | main.py:53 | a token matches `^\d+\.\d+$` exactly when it is digits, a dot and digits |
| Text.LeadingDecimalInWord | main.py:41-47 | the leading decimal of a line is also the leading decimal of its first token |
| Wrap.WrapText | main.py:12-27 | each line is one or more words joined by single spaces; each line fits or is one word; every prefix of two or more words of a line fits, since the loop accepted each as `test_line`; every break is forced, because the next line's first word would not have fit; the words are those of the text, in order; blank text, and only blank text, gives no lines |
| Wrap.PackPrefixesFit | main.py:17-26 | the loop only ever emits lines whose prefixes of two or more words fit |
| Wrap.GreedyUnique | main.py:12-27 | at most one list of lines holds the given words with fitting prefixes and forced breaks, whatever the measurement |
| Wrap.WrapTextUnique | main.py:12-27 | any lines meeting `Wrap.WrapText`'s contract are `wrap_text`'s lines, even for a measurement that is not monotone |
| Wrap.PackWellWrapped | main.py:17-26 | from a well-wrapped state, the loop ends with lines that all fit and whose breaks are all forced |
| Wrap.PackKeepsWords | main.py:17-26 | the loop emits exactly the words already placed followed by the words still to place |
| Wrap.WrapKeepsWords | main.py:12-27 | joining the wrapped lines with spaces and splitting gives `text.split()` |
| Items.TrailingPrice | main.py:63-65 | a price is taken exactly when the line has a last token made of digits, a dot and digits, and the price is that token |
| Items.CodePrice | main.py:48-50 | a non-empty price is the prefix of the code that is digits, a dot and digits and is not followed by a further digit; the price is empty exactly when no prefix of the code has that shape |
| Items.NewItem | main.py:47-60 | quantity is the first token; a bare-decimal last token becomes the price and leaves the description; otherwise the description is tokens 4 onwards and the price is the code's leading decimal or empty |
| Items.ExtendItem | main.py:62-68 | the quantity is kept; a trailing bare decimal replaces the price (last one wins); the description grows by a space and the line's remaining words |
| Items.QuantityConsistent | main.py:41-60 | a quantity line keeps the loop invariant, counting one more quantity line |
| Items.StepConsistent | main.py:37-68 | each pass of the loop (blank, quantity or continuation line) keeps the loop invariant |
| Items.FlushValid | main.py:69-70 | everything the final append hands back from a consistent state is a valid item |
| Items.OnQuantityFull | main.py:41-60 | a quantity line with four tokens hands over every listed entry and the current item, then starts the new item with no aliases |
| Items.RunConsistent | main.py:35-68 | the loop invariant: every listed entry is a valid item, and the entry count follows the quantity lines seen |
| Items.ExtractItems | main.py:29-71 | every item has a quantity token starting with a decimal and an empty or bare-decimal price; one entry per quantity line, except the short ones before the first full line |
| Items.BlankLineIgnored | main.py:38-40 | inserting a blank line anywhere does not change the result |
| Items.PreambleIgnored | main.py:61-62 | lines before the first quantity line do not change the result |
| Items.LongRowStartsItem | main.py:41-60 | a quantity line with four tokens lists the current item and starts a new one with no aliases |
| Items.ShortRowListsItemAgain | main.py:42-46 | a quantity line with fewer than four tokens lists the current item once more and keeps it as current |
| Items.ContinuationChangesEveryCopy | main.py:61-68 | a continuation line changes the current item and every listed reference to it |
| Items.ShortRowRepeatsItem | main.py:42-46 | after a short quantity line, the next continuation line extends the item, and the extended item appears once more in the final list |
| Items.GroupHeads | main.py:41-46 | the reference grouping has one group per quantity line, headed by that line, in order |
| Items.ExtractItemsByGroups | main.py:29-71 | with four tokens on every quantity line, the result is one item per group, built from its quantity line and its continuation lines |
| Items.ItemsFollowQuantityLines | main.py:41-60 | with four tokens on every quantity line, item k's quantity is the first token of quantity line k, and there are as many items as quantity lines |
| Header.CleanHeaderLine | main.py:73-90 | the cleaned line is never longer than the line; what each rule yields is stated by `Header.CleanBoletaLine`, `Header.CleanRucLine`, `Header.CleanDocNumberLine` and `Header.CleanPlainLine` |
| Header.DocNumberAtIff | main.py:87 | the left-to-right scan accepts exactly the positions where `EB\d+\s*[-–]\s*\d+` matches |
| Header.FindDocNumber | main.py:87-88 | the position found is the first match at or after the start; no match exists when none is found |
| Header.CleanBoletaLine | main.py:82-84 | a line with "BOLETA" in any ASCII case gives the stripped text before its first occurrence |
| Header.CleanRucLine | main.py:85-86 | a line starting with "RUC" and without "BOLETA" gives the empty string |
| Header.CleanDocNumberLine | main.py:87-89 | otherwise the first document-number match cuts the line, and the stripped text before it is kept |
| Header.CleanPlainLine | main.py:90 | a line with none of the three markers is only stripped |
| Header.CleanHeaderLineShape | main.py:81-90 | the cleaned line is stripped, has no line boundary if the line had none, and never contains "BOLETA" |
| Header.CleanHeaderLineSlice | main.py:81-90 | the cleaned line is a contiguous piece of the input line |
| Receipt.TextLines | main.py:117 | every kept line is non-blank, stripped and free of line boundaries; which lines are kept is stated by `Receipt.TextLinesTerminated` |
| Receipt.TextLinesOfJoined | main.py:117 | already-kept lines joined by newlines come back unchanged |
| Receipt.TextLinesTerminated | main.py:117 | for text built as lines joined by newlines plus a final newline, the kept lines are the raw lines stripped, with the blank ones dropped, in order |
| Receipt.NonBlankSingle | main.py:117 | one raw line gives its stripped form, or nothing when that is empty |
| Receipt.NonBlankAppend | main.py:117 | the raw lines are filtered one by one, in order: two runs of lines give their two results one after the other |
| Receipt.TextLinesSample | main.py:117 | `" A \r\n\nB\n"` gives the kept lines "A" and "B" |
| Receipt.CleanAll | main.py:120-123 | the header list holds no empty entry, is no longer than its input, and keeps single lines single |
| Receipt.CleanAllSingle | main.py:121-123 | one line contributes its cleaned form, or nothing when that is empty |
| Receipt.CleanAllAppend | main.py:120-123 | the lines are cleaned one by one, in order: the header list of two runs of lines is their two lists one after the other |
| Receipt.CleanAllKeepsEveryLine | main.py:120-123 | when no line cleans to nothing, header entry k is the cleaned form of line k |
| Receipt.HeaderLines | main.py:119-123 | at most six header lines |
| Receipt.HeaderLinesFirst | main.py:120-125 | when the first kept line cleans to something, that is the first header entry, and so the business name |
| Receipt.HeaderLinesSplit | main.py:120-123 | within the first six lines, a first block of lines contributes its cleaned lines ahead of those of the following lines |
| Receipt.HeaderIgnoresLaterLines | main.py:120 | lines after the sixth never affect the header |
| Receipt.SlotRoundTrip | main.py:124-129 | the header list is recovered from the three fields, so slotting loses nothing |
| Receipt.HeadingRoundTrip | main.py:117-129 | for any text, the three fields give back its header list |
| Receipt.Customer | main.py:140-146 | the captured name, stripped, when it is non-empty and not "null" in any case; otherwise "Clientes Varios"; never empty or "null" |
| Receipt.TotalsAtIff | main.py:163 | the left-to-right scan accepts exactly where `Sub\s*Total` (any whitespace run between the words) or `Importe Total` matches the lower-cased line |
| Receipt.UntilTotals | main.py:162-165 | the longest prefix with no totals line; the next line, if any, is a totals line |
| Receipt.FindTableHeader | main.py:155-159 | the first line containing all five column titles, or none |
| Receipt.ItemBlock | main.py:154-168 | none exactly when no line is a table header; otherwise the lines after the first header line, up to the first totals line |
| Receipt.ReceiptItems | main.py:160-168 | no items without a header line; otherwise the block parsed by `extraer_items`, all valid items |
| Receipt.BlockStopsAtTotals | main.py:163-164 | no line handed to the item parser is a subtotal or total line |
| Receipt.ExtractReceipt | main.py:103-174 | the heading fields recover the header list, and the business name is the first kept line's cleaned form when that is non-empty; the customer is the defaulted capture; the items are those of the table block; each scalar field is its capture (stripped for the customer document and currency), or empty when the search fails |
| Layout.BackOff | main.py:247-249 | the size only goes down, stops at the floor, and stops at the first size that fits; every larger size did not fit |
| Layout.NameFontSize | main.py:246-249 | the business-name size is 12 whatever the measured width |
| Layout.UniqueLines | main.py:264-268 | no line repeats, and the set of lines is unchanged |
| Layout.UniqueLinesKeepsFirstOccurrences | main.py:265-268 | the kept lines are exactly those that do not occur earlier, in their original order |
| Layout.UniqueLinesOfDistinct | main.py:265-268 | distinct lines come through unchanged |
| Layout.UniqueLinesDropsRepeats | main.py:265-268 | appending lines that repeat earlier ones makes no difference |
| Layout.CollapseRuns | main.py:271-274 | no two neighbouring segments are equal; the first segment is kept; the set of segments is unchanged; nothing is added |
| Layout.RepeatAbsorbed | main.py:272-274 | doubling a segment next to itself makes no difference |
| Layout.CollapseOfNoRepeats | main.py:271-274 | segments with no equal neighbours come through unchanged |
| Layout.CollapseIdempotent | main.py:271-274 | collapsing twice is collapsing once |
| Layout.RemoveLineDuplication | main.py:269-275 | the rebuilt line starts with the first `" - "` segment of the original |
| Layout.RemoveLineDuplicationOfPlain | main.py:269-275 | a line whose segments have no equal neighbours is unchanged |
| Layout.RemoveLineDuplicationOfRepeat | main.py:269-275 | "A - B - B - C" cleans to the same line as "A - B - C" |
| Layout.CleanAddress | main.py:264-277 | the cleaned address is a single line |
| Layout.CleanAddressOfPlain | main.py:264-277 | an address of distinct lines, none with a doubled segment, is only joined with spaces |
| Layout.CleanAddressDropsRepeatedLines | main.py:264-268 | address lines that repeat earlier ones do not change the cleaned address |
| Layout.WrappedLines | main.py:184-211 | a text takes no wrapped lines exactly when it is blank |
| Layout.Fields | main.py:196-203 | the four fixed identification lines, then "DNI: " and the customer document when that is non-empty, and last "Tipo de Moneda: " and the currency when that is non-empty |
| Layout.EstimateHeight | main.py:176-215 | whatever the measurement, the estimate covers both margins, the title, the RUC, date and customer lines, the fixed rules and totals, and two points per item |
| Layout.EstimateHeightAddItem | main.py:209-211 | one more item adds eight points per wrapped description line, plus two |

## Left out

- Flask: the web routes, templates and file responses are web glue.
- pdfplumber: text extraction from the PDF is foreign I/O. The model starts from the extracted text.
- ReportLab drawing: the canvas calls and coordinates are drawing only. The string-width measurement is an uninterpreted parameter (`Layout.Measure`, and `string -> real` in `Wrap`).
- The scalar regular-expression searches (RUC, date, document number, customer, customer document, currency, subtotal, total) are not modelled as searches. Each is an input holding its captured group, and only what the code does with the capture is modelled.
- Unicode: `\d`, `upper()`, `lower()` and `re.IGNORECASE` are taken as ASCII, where Python applies Unicode digit classes and case mappings. Under ASCII, `upper()` keeps the length, so indices into the upper-cased line are valid in the original.
- Floating point: the height estimate and page geometry use exact reals in place of floats.
- Header.CleanHeaderLineShape: states that the result is stripped and a piece of the line (with `Header.CleanHeaderLineSlice`), not that it is a prefix; the prefix rules are stated case by case in `Header.CleanBoletaLine`, `Header.CleanDocNumberLine` and `Header.CleanPlainLine`.
- Items.ShortRowRepeatsItem: states the duplication for one short quantity line followed by one continuation line. Longer runs follow by applying `Items.ShortRowListsItemAgain` and `Items.ContinuationChangesEveryCopy` step by step.
- Items.ExtractItemsByGroups: the one-item-per-quantity-line reading is proved only when every quantity line has at least four tokens. Without that, the code lists aliases of one dictionary, and `Items.ExtractItems` states the count.
- Header.CleanHeaderLine: its own contract only bounds the length of the result; what each rule yields is stated by `Header.CleanBoletaLine`, `Header.CleanRucLine`, `Header.CleanDocNumberLine` and `Header.CleanPlainLine`.
