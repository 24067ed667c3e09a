/**
 * The item-table parser `extraer_items`: a two-state machine (no current
 * item / an item being accumulated) over the lines of the table block.
 *
 * The Python loop appends the current dictionary to the result list when a
 * quantity line arrives, even when that line then turns out to have fewer than
 * four tokens and is skipped without replacing the current item. The list then
 * holds the same dictionary more than once, and continuation lines read later
 * change every one of those entries. The state below keeps that count
 * (`aliases`), so the model returns exactly the list the Python code returns.
 */
module Items {
  import opened Text

  /** One row of the item table: `cantidad`, `valor_unitario`, `descripcion`. */
  datatype Item = Item(quantity: string, unitPrice: string, description: string)

  /**
   * The loop state. The Python list is `items` followed by `aliases` more
   * references to the dictionary `current`, which continuation lines still change.
   */
  datatype Table = Table(items: seq<Item>, current: Option<Item>, aliases: nat)

  const Initial := Table([], None, 0)

  /** `re.match(r'^\d+\.\d+', line)`: the line starts a new item. */
  predicate StartsItem(line: string) {
    LeadingDecimal(line).Some?
  }

  /** A unit price as the parser leaves it: empty, or a bare decimal token. */
  predicate PriceShape(price: string) {
    price == "" || IsBareDecimal(price)
  }

  /** What every produced item satisfies. */
  ghost predicate ValidItem(it: Item) {
    && PriceShape(it.unitPrice)
    && IsWord(it.quantity)
    && LeadingDecimal(it.quantity).Some?
  }

  /** The last token of a line when it is a bare decimal: a unit price written at the end. */
  function TrailingPrice(line: string): (r: Option<string>)
    ensures r.Some? <==> Split(line) != [] && DecimalShape(Last(Split(line)))
    ensures r.Some? ==> r.value == Last(Split(line)) && IsBareDecimal(r.value)
  {
    var tokens := Split(line);
    BareDecimalShape(if tokens != [] then Last(tokens) else "");
    if tokens != [] && IsBareDecimal(Last(tokens)) then Some(Last(tokens)) else None
  }

  /** The price read from the code column: its leading decimal, or nothing. */
  function CodePrice(code: string): (price: string)
    ensures PriceShape(price)
    ensures price != "" ==>
      |price| <= |code| && price == code[..|price|] && DecimalShape(price)
      && (|price| == |code| || !IsDigit(code[|price|]))
    ensures price == "" ==> forall k :: 0 <= k <= |code| ==> !DecimalShape(code[..k])
  {
    LeadingDecimalMeaning(code);
    match LeadingDecimal(code)
    case Some(d) =>
      BareDecimalShape(d);
      d
    case None => ""
  }

  /** The item a quantity line with at least four tokens starts. */
  function NewItem(tokens: seq<string>): (it: Item)
    requires |tokens| >= 4
    requires forall k :: 0 <= k < |tokens| ==> IsWord(tokens[k])
    ensures it.quantity == tokens[0]
    ensures IsBareDecimal(Last(tokens)) ==>
      it.unitPrice == Last(tokens) && it.description == Join(tokens[3..|tokens| - 1], " ")
    ensures !IsBareDecimal(Last(tokens)) ==>
      it.description == Join(tokens[3..], " ") &&
      (LeadingDecimal(tokens[2]).Some? ==> it.unitPrice == LeadingDecimal(tokens[2]).value) &&
      (LeadingDecimal(tokens[2]).None? ==> it.unitPrice == "")
    ensures PriceShape(it.unitPrice)
  {
    var fromCode := CodePrice(tokens[2]);
    var descripcion := Join(tokens[3..], " ");
    var descTokens := Split(descripcion);
    SplitJoin(tokens[3..]);
    assert descTokens[..|descTokens| - 1] == tokens[3..|tokens| - 1];
    if descTokens != [] && IsBareDecimal(Last(descTokens)) then
      Item(tokens[0], Last(descTokens), Join(descTokens[..|descTokens| - 1], " "))
    else
      Item(tokens[0], fromCode, descripcion)
  }

  /** A continuation line read while an item is being accumulated. */
  function ExtendItem(it: Item, line: string): (r: Item)
    ensures r.quantity == it.quantity
    ensures TrailingPrice(line).Some? ==> r.unitPrice == TrailingPrice(line).value
    ensures TrailingPrice(line).None? ==> r.unitPrice == it.unitPrice
    ensures PriceShape(it.unitPrice) ==> PriceShape(r.unitPrice)
    ensures |it.description| < |r.description| && r.description[..|it.description| + 1] == it.description + " "
    ensures TrailingPrice(line).Some? ==>
      Split(r.description) == Split(it.description) + Split(line)[..|Split(line)| - 1]
    ensures TrailingPrice(line).None? ==> Split(r.description) == Split(it.description) + Split(line)
  {
    var descTokens := Split(line);
    var rest := if TrailingPrice(line).Some? then Join(descTokens[..|descTokens| - 1], " ") else line;
    assert Split(rest) == (if TrailingPrice(line).Some? then descTokens[..|descTokens| - 1] else descTokens) by {
      if TrailingPrice(line).Some? {
        SplitJoin(descTokens[..|descTokens| - 1]);
      }
    }
    assert it.description + " " + rest == it.description + [' '] + rest;
    SplitAroundSpace(it.description, ' ', rest);
    var description := it.description + " " + rest;
    assert description[..|it.description| + 1] == it.description + " ";
    if TrailingPrice(line).Some? then
      it.(unitPrice := TrailingPrice(line).value, description := description)
    else
      it.(description := description)
  }

  /** `n` references to the current dictionary, if there is one. */
  function Copies(current: Option<Item>, n: nat): (r: seq<Item>)
    ensures current.None? ==> r == []
    ensures current.Some? ==> |r| == n && forall k :: 0 <= k < n ==> r[k] == current.value
  {
    match current
    case None => []
    case Some(it) => seq(n, _ => it)
  }

  /** A quantity line: list the current item, then start a new one if the line has four tokens. */
  function OnQuantity(t: Table, line: string): Table {
    var listed := if t.current.Some? then t.(aliases := t.aliases + 1) else t;
    var tokens := Split(line);
    if |tokens| < 4 then listed
    else Table(listed.items + Copies(listed.current, listed.aliases), Some(NewItem(tokens)), 0)
  }

  /** Any other non-blank line: it continues the current item, if there is one. */
  function OnContinuation(t: Table, line: string): Table {
    match t.current
    case None => t
    case Some(it) => t.(current := Some(ExtendItem(it, line)))
  }

  /** One iteration of the loop of `extraer_items`. */
  function Step(t: Table, raw: string): Table {
    var line := Strip(raw);
    if line == "" then t
    else if StartsItem(line) then OnQuantity(t, line)
    else OnContinuation(t, line)
  }

  /** The final `if current_item is not None: items.append(current_item)`. */
  function Flush(t: Table): seq<Item> {
    t.items + Copies(t.current, t.aliases + 1)
  }

  // ---------------------------------------------------------------------
  // Counting: which lines produce list entries
  // ---------------------------------------------------------------------

  /** The stripped lines that start an item, in input order. */
  function QuantityLines(lines: seq<string>): seq<string> {
    if lines == [] then []
    else
      var line := Strip(Last(lines));
      if StartsItem(line) then QuantityLines(lines[..|lines| - 1]) + [line]
      else QuantityLines(lines[..|lines| - 1])
  }

  /** How many quantity lines at the front have fewer than four tokens. */
  function LeadingShort(qs: seq<string>): (n: nat)
    ensures n <= |qs|
  {
    if qs == [] || |Split(qs[0])| >= 4 then 0 else 1 + LeadingShort(qs[1..])
  }

  lemma {:induction false} LeadingShortSnoc(qs: seq<string>, x: string)
    ensures LeadingShort(qs + [x]) ==
      if LeadingShort(qs) == |qs| && |Split(x)| < 4 then |qs| + 1 else LeadingShort(qs)
    decreases |qs|
  {
    if qs != [] {
      assert (qs + [x])[1..] == qs[1..] + [x];
      LeadingShortSnoc(qs[1..], x);
    }
  }

  /** The loop of `extraer_items` over all lines, before the final flush. */
  function Run(lines: seq<string>): Table {
    if lines == [] then Initial else Step(Run(lines[..|lines| - 1]), Last(lines))
  }

  /**
   * The loop invariant, for a state reached after the quantity lines `qs`:
   * every entry is a valid item, and the list holds one entry per quantity
   * line from the first one with four tokens onwards.
   */
  ghost predicate Consistent(t: Table, qs: seq<string>) {
    && (t.current.None? ==> t.aliases == 0)
    && (t.current.Some? ==> ValidItem(t.current.value))
    && (forall k :: 0 <= k < |t.items| ==> ValidItem(t.items[k]))
    && (t.current.None? <==> LeadingShort(qs) == |qs|)
    && |t.items| + t.aliases + (if t.current.Some? then 1 else 0) == |qs| - LeadingShort(qs)
  }

  /** The quantity lines seen after one more input line. */
  function SeenAfter(qs: seq<string>, raw: string): seq<string> {
    if StartsItem(Strip(raw)) then qs + [Strip(raw)] else qs
  }

  /** A quantity line keeps the invariant. */
  lemma QuantityConsistent(t: Table, qs: seq<string>, line: string)
    requires Consistent(t, qs)
    requires line == Strip(line) && line != "" && StartsItem(line)
    ensures Consistent(OnQuantity(t, line), qs + [line])
  {
    LeadingShortSnoc(qs, line);
    if |Split(line)| >= 4 {
      NewItemValid(line);
      OnQuantityFull(t, line);
      FlushValid(t, qs);
    }
  }

  /** Everything a consistent state lists is a valid item. */
  lemma FlushValid(t: Table, qs: seq<string>)
    requires Consistent(t, qs)
    ensures forall k :: 0 <= k < |Flush(t)| ==> ValidItem(Flush(t)[k])
  {
    var items := Flush(t);
    forall k | 0 <= k < |items| ensures ValidItem(items[k]) {
      if k >= |t.items| {
        assert items[k] == t.current.value;
      }
    }
  }

  /** A continuation line keeps the invariant. */
  lemma ContinuationConsistent(t: Table, qs: seq<string>, line: string)
    requires Consistent(t, qs)
    ensures Consistent(OnContinuation(t, line), qs)
  {
  }

  lemma StepConsistent(t: Table, qs: seq<string>, raw: string)
    requires Consistent(t, qs)
    ensures Consistent(Step(t, raw), SeenAfter(qs, raw))
  {
    var line := Strip(raw);
    if line == "" {
      assert !StartsItem(line);
    } else if StartsItem(line) {
      StripIdempotent(raw);
      QuantityConsistent(t, qs, line);
    } else {
      ContinuationConsistent(t, qs, line);
    }
  }

  lemma {:induction false} RunConsistent(lines: seq<string>)
    ensures Consistent(Run(lines), QuantityLines(lines))
    decreases |lines|
  {
    if lines != [] {
      var prefix := lines[..|lines| - 1];
      RunConsistent(prefix);
      StepConsistent(Run(prefix), QuantityLines(prefix), Last(lines));
    }
  }

  /** A quantity line's first token carries the leading decimal. */
  lemma NewItemValid(line: string)
    requires line == Strip(line) && line != "" && StartsItem(line) && |Split(line)| >= 4
    ensures ValidItem(NewItem(Split(line)))
  {
    var d := LeadingDecimal(line).value;
    assert !IsSpace(line[0]);
    LeadingDecimalInWord(line);
    var n := WordLength(line);
    assert Split(line) == [line[..n]] + Split(line[n..]);
  }

  /** `extraer_items(lines)`. */
  function ExtractItems(lines: seq<string>): (items: seq<Item>)
    ensures forall k :: 0 <= k < |items| ==> ValidItem(items[k])
    ensures |items| == |QuantityLines(lines)| - LeadingShort(QuantityLines(lines))
  {
    RunConsistent(lines);
    Flush(Run(lines))
  }

  // ---------------------------------------------------------------------
  // Lines that do not matter
  // ---------------------------------------------------------------------

  /** The loop only depends on the state a prefix leaves behind. */
  lemma {:induction false} RunCongruent(x1: seq<string>, x2: seq<string>, y: seq<string>)
    requires Run(x1) == Run(x2)
    ensures Run(x1 + y) == Run(x2 + y)
    decreases |y|
  {
    if y == [] {
      assert x1 + y == x1 && x2 + y == x2;
    } else {
      var y' := y[..|y| - 1];
      RunCongruent(x1, x2, y');
      assert (x1 + y)[..|x1 + y| - 1] == x1 + y';
      assert (x2 + y)[..|x2 + y| - 1] == x2 + y';
      assert Last(x1 + y) == Last(y) == Last(x2 + y);
    }
  }

  /** A blank line (`if not line: continue`) changes nothing, wherever it is. */
  lemma BlankLineIgnored(before: seq<string>, blank: string, after: seq<string>)
    requires Strip(blank) == ""
    ensures ExtractItems(before + [blank] + after) == ExtractItems(before + after)
  {
    assert (before + [blank])[..|before|] == before;
    RunCongruent(before + [blank], before, after);
  }

  /** Lines before the first quantity line are dropped. */
  lemma {:induction false} PreambleIgnored(preamble: seq<string>, lines: seq<string>)
    requires forall k :: 0 <= k < |preamble| ==> !StartsItem(Strip(preamble[k]))
    ensures ExtractItems(preamble + lines) == ExtractItems(lines)
  {
    PreambleLeavesInitial(preamble);
    assert [] + lines == lines;
    RunCongruent(preamble, [], lines);
  }

  lemma {:induction false} PreambleLeavesInitial(preamble: seq<string>)
    requires forall k :: 0 <= k < |preamble| ==> !StartsItem(Strip(preamble[k]))
    ensures Run(preamble) == Initial
    decreases |preamble|
  {
    if preamble != [] {
      PreambleLeavesInitial(preamble[..|preamble| - 1]);
      assert !StartsItem(Strip(preamble[|preamble| - 1]));
    }
  }

  /** A quantity line with four tokens or more lists the current item and starts a new one. */
  lemma LongRowStartsItem(t: Table, raw: string)
    requires Strip(raw) != "" && StartsItem(Strip(raw)) && |Split(Strip(raw))| >= 4
    ensures Step(t, raw).current == Some(NewItem(Split(Strip(raw))))
    ensures Step(t, raw).aliases == 0
    ensures Flush(Step(t, raw)) == Flush(t) + [NewItem(Split(Strip(raw)))]
  {
    var it := NewItem(Split(Strip(raw)));
    assert Step(t, raw) == OnQuantity(t, Strip(raw));
    OnQuantityFull(t, Strip(raw));
    assert Copies(Some(it), 1) == [it];
  }

  /**
   * A quantity line with fewer than four tokens still lists the current item
   * (a second reference to the same dictionary) and keeps accumulating into it.
   */
  lemma ShortRowListsItemAgain(t: Table, raw: string)
    requires t.current.Some?
    requires Strip(raw) != "" && StartsItem(Strip(raw)) && |Split(Strip(raw))| < 4
    ensures Step(t, raw) == t.(aliases := t.aliases + 1)
    ensures Flush(Step(t, raw)) == Flush(t) + [t.current.value]
  {
    assert Step(t, raw) == OnQuantity(t, Strip(raw));
    assert Copies(t.current, t.aliases + 2) == Copies(t.current, t.aliases + 1) + [t.current.value];
  }

  /** A continuation line changes every listed reference to the current item. */
  lemma ContinuationChangesEveryCopy(t: Table, raw: string)
    requires t.current.Some?
    requires Strip(raw) != "" && !StartsItem(Strip(raw))
    ensures Flush(Step(t, raw)) == t.items + Copies(Some(ExtendItem(t.current.value, Strip(raw))), t.aliases + 1)
  {
    assert Step(t, raw) == OnContinuation(t, Strip(raw));
  }

  /**
   * The duplication: after a short quantity line, the next continuation line
   * changes the current item and the extra reference to it alike, so the
   * final list holds the extended item once more than before.
   */
  lemma ShortRowRepeatsItem(t: Table, short: string, more: string)
    requires t.current.Some?
    requires Strip(short) != "" && StartsItem(Strip(short)) && |Split(Strip(short))| < 4
    requires Strip(more) != "" && !StartsItem(Strip(more))
    ensures var it := ExtendItem(t.current.value, Strip(more));
      Flush(Step(Step(t, short), more)) == t.items + Copies(Some(it), t.aliases + 2)
  {
    ShortRowListsItemAgain(t, short);
    ContinuationChangesEveryCopy(Step(t, short), more);
  }

  // ---------------------------------------------------------------------
  // Reference reading: one item per quantity line
  // ---------------------------------------------------------------------

  /** A quantity line and the continuation lines that follow it. */
  datatype Group = Group(head: string, continuations: seq<string>)

  /**
   * The table as the documentation describes it: non-blank lines grouped
   * under the quantity line before them; lines before the first quantity
   * line belong to no group.
   */
  function Groups(lines: seq<string>): seq<Group> {
    if lines == [] then [] else GroupStep(Groups(lines[..|lines| - 1]), Last(lines))
  }

  /** One more input line: a new group, a continuation of the last group, or nothing. */
  function GroupStep(gs: seq<Group>, raw: string): seq<Group> {
    var line := Strip(raw);
    if line == "" then gs
    else if StartsItem(line) then gs + [Group(line, [])]
    else if gs == [] then gs
    else gs[..|gs| - 1] + [Group(Last(gs).head, Last(gs).continuations + [line])]
  }

  ghost predicate HeadsMatch(gs: seq<Group>, qs: seq<string>) {
    |gs| == |qs| && forall k :: 0 <= k < |gs| ==> gs[k].head == qs[k]
  }

  lemma HeadsMatchSnoc(gs: seq<Group>, qs: seq<string>, line: string)
    requires HeadsMatch(gs, qs)
    ensures HeadsMatch(gs + [Group(line, [])], qs + [line])
  {
    var gs', qs' := gs + [Group(line, [])], qs + [line];
    forall k | 0 <= k < |gs'| ensures gs'[k].head == qs'[k] {
      if k < |gs| {
        assert gs'[k] == gs[k] && qs'[k] == qs[k];
      }
    }
  }

  lemma HeadsMatchReplaceLast(gs: seq<Group>, qs: seq<string>, g: Group)
    requires HeadsMatch(gs, qs) && gs != [] && g.head == Last(gs).head
    ensures HeadsMatch(gs[..|gs| - 1] + [g], qs)
  {
    var gs' := gs[..|gs| - 1] + [g];
    forall k | 0 <= k < |gs'| ensures gs'[k].head == qs[k] {
      if k < |gs| - 1 {
        assert gs'[k] == gs[k];
      }
    }
  }

  lemma {:induction false} GroupHeadsMatch(lines: seq<string>)
    ensures HeadsMatch(Groups(lines), QuantityLines(lines))
    decreases |lines|
  {
    if lines != [] {
      var prefix := lines[..|lines| - 1];
      GroupHeadsMatch(prefix);
      var gs := Groups(prefix);
      var qs := QuantityLines(prefix);
      var line := Strip(Last(lines));
      if line == "" {
        assert !StartsItem(line);
      } else if StartsItem(line) {
        HeadsMatchSnoc(gs, qs, line);
      } else if gs != [] {
        HeadsMatchReplaceLast(gs, qs, Group(Last(gs).head, Last(gs).continuations + [line]));
      }
    }
  }

  /** The groups are headed by exactly the quantity lines, in order. */
  lemma GroupHeads(lines: seq<string>)
    ensures |Groups(lines)| == |QuantityLines(lines)|
    ensures forall k :: 0 <= k < |Groups(lines)| ==> Groups(lines)[k].head == QuantityLines(lines)[k]
  {
    GroupHeadsMatch(lines);
  }

  /** Every quantity line has four tokens or more: no short-line duplication can occur. */
  ghost predicate WellFormedRows(lines: seq<string>) {
    forall k :: 0 <= k < |QuantityLines(lines)| ==> |Split(QuantityLines(lines)[k])| >= 4
  }

  ghost predicate FullHeads(gs: seq<Group>) {
    forall k :: 0 <= k < |gs| ==> |Split(gs[k].head)| >= 4
  }

  /** An item and its continuation lines, applied in order. */
  function ExtendAll(it: Item, continuations: seq<string>): (r: Item)
    ensures r.quantity == it.quantity
    ensures PriceShape(it.unitPrice) ==> PriceShape(r.unitPrice)
    decreases |continuations|
  {
    if continuations == [] then it
    else ExtendItem(ExtendAll(it, continuations[..|continuations| - 1]), Last(continuations))
  }

  /** The item one group describes. */
  function GroupItem(g: Group): Item
    requires |Split(g.head)| >= 4
  {
    ExtendAll(NewItem(Split(g.head)), g.continuations)
  }

  /** `f` applied to every group, in order. */
  function MapGroups(f: Group --> Item, gs: seq<Group>): (items: seq<Item>)
    requires forall k :: 0 <= k < |gs| ==> f.requires(gs[k])
  {
    seq(|gs|, k requires 0 <= k < |gs| => f(gs[k]))
  }

  lemma MapGroupsSnoc(f: Group --> Item, gs: seq<Group>)
    requires gs != [] && forall k :: 0 <= k < |gs| ==> f.requires(gs[k])
    ensures MapGroups(f, gs) == MapGroups(f, gs[..|gs| - 1]) + [f(Last(gs))]
  {
  }

  lemma GroupItemQuantity(g: Group)
    requires |Split(g.head)| >= 4
    ensures GroupItem(g).quantity == Split(g.head)[0]
  {
  }

  /** The reference result: one item per group. */
  function GroupItems(gs: seq<Group>): seq<Item>
    requires FullHeads(gs)
  {
    MapGroups(GroupItem, gs)
  }

  /** The loop state the reference reading predicts after the groups `gs`. */
  function Expected(gs: seq<Group>): Table
    requires FullHeads(gs)
  {
    if gs == [] then Initial
    else Table(GroupItems(gs[..|gs| - 1]), Some(GroupItem(Last(gs))), 0)
  }

  lemma ExpectedFlush(gs: seq<Group>)
    requires FullHeads(gs)
    ensures Flush(Expected(gs)) == GroupItems(gs)
  {
    if gs != [] {
      assert Copies(Some(GroupItem(Last(gs))), 1) == [GroupItem(Last(gs))];
      MapGroupsSnoc(GroupItem, gs);
    }
  }

  /** A full quantity line lists everything so far and starts a fresh item. */
  lemma OnQuantityFull(t: Table, line: string)
    requires |Split(line)| >= 4
    ensures OnQuantity(t, line) == Table(Flush(t), Some(NewItem(Split(line))), 0)
  {
  }

  lemma ExpectedQuantity(gs: seq<Group>, line: string)
    requires FullHeads(gs) && |Split(line)| >= 4
    requires FullHeads(gs + [Group(line, [])])
    ensures OnQuantity(Expected(gs), line) == Expected(gs + [Group(line, [])])
  {
    var gs' := gs + [Group(line, [])];
    assert gs'[..|gs'| - 1] == gs;
    OnQuantityFull(Expected(gs), line);
    ExpectedFlush(gs);
    assert GroupItem(Group(line, [])) == NewItem(Split(line));
  }

  lemma ExpectedContinuation(gs: seq<Group>, line: string)
    requires FullHeads(gs) && gs != []
    ensures var g := Group(Last(gs).head, Last(gs).continuations + [line]);
      var gs' := gs[..|gs| - 1] + [g];
      FullHeads(gs') && OnContinuation(Expected(gs), line) == Expected(gs')
  {
    var g := Group(Last(gs).head, Last(gs).continuations + [line]);
    var gs' := gs[..|gs| - 1] + [g];
    assert forall k :: 0 <= k < |gs| - 1 ==> gs'[k] == gs[k];
    assert gs'[..|gs'| - 1] == gs[..|gs| - 1];
    var cs := g.continuations;
    assert cs[..|cs| - 1] == Last(gs).continuations;
  }

  lemma FullHeadsSnoc(gs: seq<Group>, line: string)
    requires FullHeads(gs) && |Split(line)| >= 4
    ensures FullHeads(gs + [Group(line, [])])
  {
    var gs' := gs + [Group(line, [])];
    forall k | 0 <= k < |gs'| ensures |Split(gs'[k].head)| >= 4 {
      if k < |gs| {
        assert gs'[k] == gs[k];
      }
    }
  }

  /** The loop step and the group step agree on the predicted state. */
  lemma ExpectedStep(gs: seq<Group>, raw: string)
    requires FullHeads(gs)
    requires StartsItem(Strip(raw)) ==> |Split(Strip(raw))| >= 4
    ensures FullHeads(GroupStep(gs, raw)) && Step(Expected(gs), raw) == Expected(GroupStep(gs, raw))
  {
    var line := Strip(raw);
    if line == "" {
    } else if StartsItem(line) {
      FullHeadsSnoc(gs, line);
      ExpectedQuantity(gs, line);
    } else if gs != [] {
      ExpectedContinuation(gs, line);
    }
  }

  /** One more line keeps the loop state equal to the one the groups predict. */
  lemma StepByGroups(lines: seq<string>)
    requires lines != []
    requires var prefix := lines[..|lines| - 1];
      FullHeads(Groups(prefix)) && Run(prefix) == Expected(Groups(prefix))
    requires StartsItem(Strip(Last(lines))) ==> |Split(Strip(Last(lines)))| >= 4
    ensures FullHeads(Groups(lines)) && Run(lines) == Expected(Groups(lines))
  {
    var prefix := lines[..|lines| - 1];
    ExpectedStep(Groups(prefix), Last(lines));
  }

  /** The last line of a table of well-formed rows is a full row if it is a quantity line. */
  lemma WellFormedPrefix(lines: seq<string>)
    requires lines != [] && WellFormedRows(lines)
    ensures WellFormedRows(lines[..|lines| - 1])
    ensures StartsItem(Strip(Last(lines))) ==> |Split(Strip(Last(lines)))| >= 4
  {
    var qs := QuantityLines(lines[..|lines| - 1]);
    assert forall k :: 0 <= k < |qs| ==> QuantityLines(lines)[k] == qs[k];
    if StartsItem(Strip(Last(lines))) {
      assert Last(QuantityLines(lines)) == Strip(Last(lines));
    }
  }

  lemma {:induction false} RunByGroups(lines: seq<string>)
    requires WellFormedRows(lines)
    ensures FullHeads(Groups(lines)) && Run(lines) == Expected(Groups(lines))
    decreases |lines|
  {
    if lines != [] {
      var prefix := lines[..|lines| - 1];
      WellFormedPrefix(lines);
      RunByGroups(prefix);
      StepByGroups(lines);
    }
  }

  /**
   * When every quantity line has four tokens, `extraer_items` returns one item
   * per quantity line, each built from its own line and its continuation lines.
   */
  lemma ExtractItemsByGroups(lines: seq<string>)
    requires WellFormedRows(lines)
    ensures FullHeads(Groups(lines)) && ExtractItems(lines) == GroupItems(Groups(lines))
  {
    RunByGroups(lines);
    ExpectedFlush(Groups(lines));
  }

  /** The items follow the quantity lines: the k-th item's quantity is the k-th quantity line's first token. */
  lemma ItemsFollowQuantityLines(lines: seq<string>)
    requires WellFormedRows(lines)
    ensures |ExtractItems(lines)| == |QuantityLines(lines)|
    ensures forall k :: 0 <= k < |QuantityLines(lines)| ==>
      ExtractItems(lines)[k].quantity == Split(QuantityLines(lines)[k])[0]
  {
    ExtractItemsByGroups(lines);
    GroupHeads(lines);
    var gs := Groups(lines);
    forall k | 0 <= k < |gs| ensures GroupItems(gs)[k].quantity == Split(gs[k].head)[0] {
      GroupItemQuantity(gs[k]);
    }
  }
}
