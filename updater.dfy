/** GraphicsUpdater as Updater.ts has it: each poll reads every entry of
    `arrayMap` from the response, defaulting to '' where the response has no
    string, and hands it to the entry's handler; an exception in one entry is
    caught and reported, and the poll goes on. The handlers warn about a
    missing element instead of failing. The registry of handlers grows with
    addOperation and importPreset, and startUpdating starts polling once. */
module Updater {
  import opened Base
  import opened Text
  import opened Layout
  import opened Overlay

  /** `cells.values` of the response: for each column of the requested range
      (majorDimension=COLUMNS), its cell texts from the top; the service
      leaves out trailing empty cells, so columns may be short. */
  type Grid = seq<seq<string>>

  /** What the fetch gives a poll: a failure (network, status not ok, or a
      body that is not JSON), or a body whose `values` may be absent, as it
      is for a range with no data. */
  datatype Fetched = Failed | Body(values: Option<Grid>)

  /** The handlers `operations` holds: the four built-in ones, and those
      added by addOperation, which are code outside this model. */
  datatype Handler = StringOp | ImageOp | CounterOp | SwitchOp | Custom(tag: nat)

  /** The console warnings of Updater.ts. The missing-element warning names
      the kind its text gives: "string", "number" (the image handler's
      text), "counter" or "switch". */
  datatype Warning =
    | MissingElement(kind: string, id: string)
    | NoSwitchMatch(value: string)
    | EntryFailed(entry: Descriptor, value: string)
    | DuplicateOperation(name: string)
    | AlreadyUpdating

  /** The result of running a handler, an entry or a poll: the page after
      it, the warnings printed in order, and whether an exception escaped. */
  datatype Effect = Effect(elements: Elements, warnings: seq<Warning>, threw: bool)

  /** What an added handler does to the page, given its tag, its settings
      entry and the cell value. */
  type Behaviour = (nat, Descriptor, string, Elements) -> Effect

  /** The handlers a new GraphicsUpdater starts with. */
  const BuiltIns: Dict<Handler> :=
    [Entry("string", StringOp), Entry("image", ImageOp), Entry("counter", CounterOp), Entry("switch", SwitchOp)]

  /** The kinds whose array entries fan out over their ids. */
  const BuiltInSimple: seq<string> := ["string", "image"]

  // ----- Reading a cell of the response

  /** The cell value closure: split the location at commas and read
      `cells[coords[0]][coords[1]]`; '' when that column does not exist or
      holds no string there. */
  function LookupTs(grid: Grid, loc: string): string
  {
    var coords := Split(loc, ',');
    match Index(coords[0])
    case None => ""
    case Some(c) =>
      if c >= |grid| || |coords| < 2 then ""
      else match Index(coords[1])
        case None => ""
        case Some(r) => if r < |grid[c]| then grid[c][r] else ""
  }

  /** The text of the cell dc columns right of and dr rows below the range's
      top-left corner, or '' where the response has none. */
  function CellText(grid: Grid, dc: int, dr: int): string
  {
    if 0 <= dc < |grid| && 0 <= dr < |grid[dc]| then grid[dc][dr] else ""
  }

  /** The location a pair of offsets is stored under is read back at those
      offsets. */
  lemma LookupOfKey(grid: Grid, dc: int, dr: int)
    ensures LookupTs(grid, KeyText(dc, dr)) == CellText(grid, dc, dr)
  {
    KeySplits(dc, dr);
    IndexOfIntText(dc);
    IndexOfIntText(dr);
  }

  /** A label's location, taken against any rectangle, is read back at the
      label's offsets from that rectangle's top-left corner. */
  lemma LookupOfLabel(grid: Grid, name: string, c: Cell, r: Rect)
    requires LabelOk(name) && ParseLabel(name) == Some(c)
    ensures LookupTs(grid, LabelKey(name, r, false)) == CellText(grid, c.col - r.minCol, c.row - r.minRow)
  {
    var key := KeyText(c.col - r.minCol, c.row - r.minRow);
    assert LabelKey(name, r, false) == key + "";
    assert key + "" == key;
    LookupOfKey(grid, c.col - r.minCol, c.row - r.minRow);
  }

  // ----- The built-in handlers

  /** The count the counter handler works with: a falsy cell value (the empty
      text) is 0; any other text goes through parseInt, and a NaN result,
      being of type number, is kept. */
  function CounterCount(value: string): Num
  {
    if value == "" then Int(0) else ParseInt(value)
  }

  /** An empty cell counts 0, a cell of decimal digits counts their value,
      and a non-empty cell with no digit at all counts NaN. */
  lemma CounterCountCases(value: string)
    ensures value == "" ==> CounterCount(value) == Int(0)
    ensures |value| > 0 && AllDigits(value) ==> CounterCount(value) == Int(DecimalValue(value))
    ensures |value| > 0 && (forall i :: 0 <= i < |value| ==> !IsDigit(value[i])) ==> CounterCount(value) == NaN
  {
    if |value| > 0 && AllDigits(value) {
      ParseIntOfDigits(value);
    }
    if |value| > 0 && (forall i :: 0 <= i < |value| ==> !IsDigit(value[i])) {
      ParseIntWithoutDigits(value);
    }
  }

  /** A built-in handler of Updater.ts, or an added one, run on its settings
      entry and a cell value. The built-in ones report a missing element with
      a warning and never throw. */
  function HandlerTs(h: Handler, behave: Behaviour, arg: Descriptor, value: string, e: Elements): (r: Effect)
    ensures !h.Custom? ==> !r.threw && r.elements.Keys == e.Keys
  {
    match h
    case StringOp =>
      var id := IdText(arg);
      if id in e then Effect(e[id := e[id].(html := value)], [], false)
      else Effect(e, [MissingElement("string", id)], false)
    case ImageOp =>
      var id := IdText(arg);
      if id in e then Effect(e[id := e[id].(src := value)], [], false)
      else Effect(e, [MissingElement("number", id)], false)
    case CounterOp => CounterTs(arg, value, e)
    case SwitchOp => SwitchTs(arg, value, e)
    case Custom(tag) => behave(tag, arg, value, e)
  }

  /** The counter handler: the count, then the two loops, and a warning
      naming the first id that has no element. */
  function CounterTs(arg: Descriptor, value: string, e: Elements): (r: Effect)
    ensures !r.threw && r.elements.Keys == e.Keys
  {
    var count := CounterCount(value);
    if count.NaN? then Effect(e, [], false)
    else
      PerformKeepsElements(e, CounterWrites(arg, count.n));
      var o := Perform(e, CounterWrites(arg, count.n));
      Effect(o.elements, if o.missing.Some? then [MissingElement("counter", o.missing.value)] else [], false)
  }

  /** The switch handler: its loop over the keys, a warning naming the first
      id that has no element, and one when no key equals the value. */
  function SwitchTs(arg: Descriptor, value: string, e: Elements): (r: Effect)
    ensures !r.threw && r.elements.Keys == e.Keys
  {
    var t := SwitchView(arg);
    PerformKeepsElements(e, SwitchWrites(t, Some(value)));
    var o := Perform(e, SwitchWrites(t, Some(value)));
    Effect(o.elements,
      if o.missing.Some? then [MissingElement("switch", o.missing.value)]
      else if exists k :: 0 <= k < |t| && t[k].key == value then []
      else [NoSwitchMatch(value)],
      false)
  }

  /** `this.operations[type](arg, value)`: calling a kind that has no handler
      calls undefined, which throws. */
  function Call(h: Option<Handler>, behave: Behaviour, arg: Descriptor, value: string, e: Elements): Effect
  {
    match h
    case None => Effect(e, [], true)
    case Some(handler) => HandlerTs(handler, behave, arg, value, e)
  }

  /** An empty cell hides every tally of a counter whose distinct elements
      all exist, without a warning. */
  lemma CounterEmptyCellHidesAll(ids: seq<string>, e: Elements, behave: Behaviour)
    requires Distinct(ids) && forall i :: 0 <= i < |ids| ==> ids[i] in e
    ensures var r := HandlerTs(CounterOp, behave, Ids(ids), "", e);
      && r.warnings == []
      && (forall i :: 0 <= i < |ids| ==> r.elements[ids[i]] == e[ids[i]].(display := "none"))
      && (forall id :: id in e && id !in ids ==> r.elements[id] == e[id])
  {
    CounterShowsFirst(e, ids, 0);
  }

  /** A cell holding n, 0 <= n <= ids.length, shows the first n tallies and
      hides the rest, without a warning, when their distinct elements all
      exist. */
  lemma CounterShowsCount(ids: seq<string>, n: nat, e: Elements, behave: Behaviour)
    requires n <= |ids| && Distinct(ids) && forall i :: 0 <= i < |ids| ==> ids[i] in e
    ensures var r := HandlerTs(CounterOp, behave, Ids(ids), NatText(n), e);
      && r.warnings == []
      && (forall i :: 0 <= i < |ids| ==> r.elements[ids[i]] == e[ids[i]].(display := if i < n then "" else "none"))
      && (forall id :: id in e && id !in ids ==> r.elements[id] == e[id])
  {
    ParseIntOfNatText(n);
    CounterShowsFirst(e, ids, n);
  }

  /** A non-empty cell with no digit parses to NaN, and the counter then
      changes nothing and warns about nothing. */
  lemma CounterNaNChangesNothing(arg: Descriptor, value: string, e: Elements, behave: Behaviour)
    requires |value| > 0 && forall i :: 0 <= i < |value| ==> !IsDigit(value[i])
    ensures HandlerTs(CounterOp, behave, arg, value, e) == Effect(e, [], false)
  {
    CounterCountCases(value);
  }

  /** A switch over distinct elements that all exist shows the element of
      each key equal to the value and hides the others; it warns exactly
      when no key matched. */
  lemma SwitchWarnsWhenNothingMatches(t: Dict<string>, value: string, e: Elements, behave: Behaviour)
    requires forall k :: 0 <= k < |t| ==> t[k].value in e
    requires forall i, j :: 0 <= i < j < |t| ==> t[i].value != t[j].value
    ensures var r := HandlerTs(SwitchOp, behave, Table(t), value, e);
      && (r.warnings == [] <==> exists k :: 0 <= k < |t| && t[k].key == value)
      && (r.warnings != [] ==> r.warnings == [NoSwitchMatch(value)])
      && (forall k :: 0 <= k < |t| ==> r.elements[t[k].value] == e[t[k].value].(display := if t[k].key == value then "" else "none"))
  {
    SwitchShowsMatching(e, t, Some(value));
  }

  // ----- Dispatch

  /** The simple-kind wrapper's loop: a step once per id, in order; an
      exception ends the loop. */
  function FanOut(step: (string, Elements) -> Effect, ids: seq<string>, e: Elements): Effect
  {
    if ids == [] then Effect(e, [], false)
    else
      var prev := FanOut(step, ids[..|ids| - 1], e);
      if prev.threw then prev
      else
        var r := step(ids[|ids| - 1], prev.elements);
        Effect(r.elements, prev.warnings + r.warnings, r.threw)
  }

  /** The wrapper's step: the kind's handler on one id, with the entry's value. */
  function IdStep(h: Option<Handler>, behave: Behaviour, value: string): (string, Elements) -> Effect
  {
    (id: string, e: Elements) => Call(h, behave, Id(id), value, e)
  }

  /** What the string and image handlers write into an element. */
  function Written(h: Handler, el: Element, value: string): Element
  {
    if h == StringOp then el.(html := value) else el.(src := value)
  }

  /** The warning the string or image handler gives for a missing element. */
  function MissingFor(h: Handler, id: string): Warning
  {
    MissingElement(if h == StringOp then "string" else "number", id)
  }

  /** The string or image handler on one id writes the value into that
      element, or leaves the page as it is and warns when there is none. */
  lemma SimpleHandler(h: Handler, behave: Behaviour, id: string, value: string, e: Elements)
    requires h == StringOp || h == ImageOp
    ensures HandlerTs(h, behave, Id(id), value, e) ==
      if id in e then Effect(e[id := Written(h, e[id], value)], [], false) else Effect(e, [MissingFor(h, id)], false)
  {
    assert IdText(Id(id)) == id;
  }

  /** A step that writes into its id's element, or warns when it is missing. */
  ghost predicate WritesOrWarns(step: (string, Elements) -> Effect, h: Handler, value: string)
  {
    forall id, el :: step(id, el) ==
      (if id in el then Effect(el[id := Written(h, el[id], value)], [], false) else Effect(el, [MissingFor(h, id)], false))
  }

  /** Such steps keep the page's elements and never throw. */
  lemma {:induction false} FanOutDomain(step: (string, Elements) -> Effect, h: Handler, value: string, ids: seq<string>, e: Elements)
    requires WritesOrWarns(step, h, value)
    ensures !FanOut(step, ids, e).threw && FanOut(step, ids, e).elements.Keys == e.Keys
  {
    if ids != [] {
      var n := |ids| - 1;
      FanOutDomain(step, h, value, ids[..n], e);
      var prev := FanOut(step, ids[..n], e);
      var r := step(ids[n], prev.elements);
      assert r.elements.Keys == prev.elements.Keys;
    }
  }

  /** Such steps write into every listed element that exists and leave
      every other one as it was. */
  lemma {:induction false} FanOutWrites(step: (string, Elements) -> Effect, h: Handler, value: string, ids: seq<string>, e: Elements)
    requires WritesOrWarns(step, h, value)
    ensures var r := FanOut(step, ids, e);
      && (forall id :: id in e && id in ids ==> id in r.elements && r.elements[id] == Written(h, e[id], value))
      && (forall id :: id in e && id !in ids ==> id in r.elements && r.elements[id] == e[id])
  {
    FanOutDomain(step, h, value, ids, e);
    if ids != [] {
      var n := |ids| - 1;
      var init, x := ids[..n], ids[n];
      FanOutWrites(step, h, value, init, e);
      FanOutDomain(step, h, value, init, e);
      var prev := FanOut(step, init, e);
      var r := step(x, prev.elements);
      assert FanOut(step, ids, e).elements == r.elements;
      forall id | id in e && id in ids ensures r.elements[id] == Written(h, e[id], value) {
        MemberOfSnoc(ids, id);
      }
      forall id | id in e && id !in ids ensures r.elements[id] == e[id] {
        MemberOfSnoc(ids, id);
      }
    }
  }

  /** An id is listed when it is among the ids before the last or is the last. */
  lemma MemberOfSnoc(ids: seq<string>, id: string)
    requires ids != []
    ensures id in ids <==> id in ids[..|ids| - 1] || id == ids[|ids| - 1]
  {
    assert ids == ids[..|ids| - 1] + [ids[|ids| - 1]];
  }

  /** Such steps warn exactly when some id names no element. */
  lemma {:induction false} FanOutWarns(step: (string, Elements) -> Effect, h: Handler, value: string, ids: seq<string>, e: Elements)
    requires WritesOrWarns(step, h, value)
    ensures var r := FanOut(step, ids, e);
      r.warnings == [] <==> forall k :: 0 <= k < |ids| ==> ids[k] in e
  {
    if ids != [] {
      var n := |ids| - 1;
      var init, x := ids[..n], ids[n];
      FanOutWarns(step, h, value, init, e);
      FanOutDomain(step, h, value, init, e);
      var prev := FanOut(step, init, e);
      var r := step(x, prev.elements);
      assert FanOut(step, ids, e).warnings == prev.warnings + r.warnings;
      assert r.warnings == [] <==> x in e;
      if x in e && forall k :: 0 <= k < n ==> init[k] in e {
        forall k | 0 <= k < |ids| ensures ids[k] in e {
          if k < n {
            assert ids[k] == init[k];
          } else {
            assert ids[k] == x;
          }
        }
      }
      if forall k :: 0 <= k < |ids| ==> ids[k] in e {
        forall k | 0 <= k < n ensures init[k] in e {
          assert init[k] == ids[k];
        }
      }
    }
  }

  /** A string or image entry with an array of ids writes the value into
      every listed element that exists, leaves every other element as it
      was, never throws, and warns exactly when some id names no element. */
  lemma SimpleFanOut(h: Handler, behave: Behaviour, ids: seq<string>, value: string, e: Elements)
    requires h == StringOp || h == ImageOp
    ensures var r := FanOut(IdStep(Some(h), behave, value), ids, e);
      && !r.threw && r.elements.Keys == e.Keys
      && (forall id :: id in e && id in ids ==> r.elements[id] == Written(h, e[id], value))
      && (forall id :: id in e && id !in ids ==> r.elements[id] == e[id])
      && (r.warnings == [] <==> forall k :: 0 <= k < |ids| ==> ids[k] in e)
  {
    var step := IdStep(Some(h), behave, value);
    forall id, el
      ensures step(id, el) ==
        (if id in el then Effect(el[id := Written(h, el[id], value)], [], false) else Effect(el, [MissingFor(h, id)], false))
    {
      SimpleHandler(h, behave, id, value, el);
    }
    FanOutDomain(step, h, value, ids, e);
    FanOutWrites(step, h, value, ids, e);
    FanOutWarns(step, h, value, ids, e);
  }

  /** `run(entry, value)`: a simple kind fans an array entry out over its
      ids; any other entry goes to the handler once, as it is. */
  function RunTs(ops: Dict<Handler>, simple: seq<string>, behave: Behaviour, kind: string, arg: Descriptor, value: string, e: Elements): Effect
  {
    var h := Get(ops, kind);
    if kind in simple && arg.Ids? then FanOut(IdStep(h, behave, value), arg.ids, e)
    else Call(h, behave, arg, value, e)
  }

  /** One location of one kind: read its cell and run its entry; an
      exception is caught and reported with the entry and the value. */
  function EntryTs(ops: Dict<Handler>, simple: seq<string>, behave: Behaviour, kind: string, entry: Entry<Descriptor>, grid: Grid, e: Elements): (r: Effect)
    ensures !r.threw
    ensures var value := LookupTs(grid, entry.key);
      var run := RunTs(ops, simple, behave, kind, entry.value, value, e);
      && (run.threw ==> r.elements == run.elements && r.warnings == run.warnings + [EntryFailed(entry.value, value)])
      && (!run.threw ==> r == run)
  {
    var value := LookupTs(grid, entry.key);
    var r := RunTs(ops, simple, behave, kind, entry.value, value, e);
    if r.threw then Effect(r.elements, r.warnings + [EntryFailed(entry.value, value)], false) else r
  }

  /** Steps run one after another on the page, their warnings collected in
      order; each step runs whether or not an earlier one threw, and the
      run threw when some step did. */
  function Each<T>(step: (T, Elements) -> Effect, xs: seq<T>, e: Elements): Effect
  {
    if xs == [] then Effect(e, [], false)
    else
      var prev := Each(step, xs[..|xs| - 1], e);
      var r := step(xs[|xs| - 1], prev.elements);
      Effect(r.elements, prev.warnings + r.warnings, prev.threw || r.threw)
  }

  /** Steps that each catch their own exceptions make a run that never throws. */
  lemma {:induction false} EachCatches<T>(step: (T, Elements) -> Effect, xs: seq<T>, e: Elements)
    requires forall x, el :: !step(x, el).threw
    ensures !Each(step, xs, e).threw
  {
    if xs != [] {
      EachCatches(step, xs[..|xs| - 1], e);
    }
  }

  /** Running steps in two parts gives the same page and warnings as running
      them all at once. */
  lemma {:induction false} EachSplit<T>(step: (T, Elements) -> Effect, xs: seq<T>, ys: seq<T>, e: Elements)
    ensures var first := Each(step, xs, e);
      var second := Each(step, ys, first.elements);
      Each(step, xs + ys, e) == Effect(second.elements, first.warnings + second.warnings, first.threw || second.threw)
  {
    if ys == [] {
      assert xs + ys == xs;
    } else {
      var n := |ys| - 1;
      EachSplit(step, xs, ys[..n], e);
      assert (xs + ys)[..|xs + ys| - 1] == xs + ys[..n];
      assert (xs + ys)[|xs + ys| - 1] == ys[n];
    }
  }

  /** The per-location step of one kind. */
  function EntryStep(ops: Dict<Handler>, simple: seq<string>, behave: Behaviour, kind: string, grid: Grid): (Entry<Descriptor>, Elements) -> Effect
  {
    (entry: Entry<Descriptor>, e: Elements) => EntryTs(ops, simple, behave, kind, entry, grid, e)
  }

  /** The locations of one kind, in order. */
  function KindTs(ops: Dict<Handler>, simple: seq<string>, behave: Behaviour, kind: string, m: Dict<Descriptor>, grid: Grid, e: Elements): Effect
  {
    Each(EntryStep(ops, simple, behave, kind, grid), m, e)
  }

  /** Every kind of `arrayMap`, in order. */
  function CycleTs(ops: Dict<Handler>, simple: seq<string>, behave: Behaviour, arrayMap: Dict<Dict<Descriptor>>, grid: Grid, e: Elements): Effect
  {
    if arrayMap == [] then Effect(e, [], false)
    else
      var prev := CycleTs(ops, simple, behave, arrayMap[..|arrayMap| - 1], grid, e);
      var last := arrayMap[|arrayMap| - 1];
      var r := KindTs(ops, simple, behave, last.key, last.value, grid, prev.elements);
      Effect(r.elements, prev.warnings + r.warnings, prev.threw || r.threw)
  }

  /** The locations of one kind never let an exception out: each is caught
      by its own entry. */
  lemma {:induction false} KindTsNeverThrows(ops: Dict<Handler>, simple: seq<string>, behave: Behaviour, kind: string,
                                             m: Dict<Descriptor>, grid: Grid, e: Elements)
    ensures !KindTs(ops, simple, behave, kind, m, grid, e).threw
  {
    var step := EntryStep(ops, simple, behave, kind, grid);
    forall entry, el ensures !step(entry, el).threw {
      var r := EntryTs(ops, simple, behave, kind, entry, grid, el);
    }
    EachCatches(step, m, e);
  }

  /** A poll over a fetched response never throws, because no kind does. */
  lemma {:induction false} CycleTsNeverThrows(ops: Dict<Handler>, simple: seq<string>, behave: Behaviour,
                                              arrayMap: Dict<Dict<Descriptor>>, grid: Grid, e: Elements)
    ensures !CycleTs(ops, simple, behave, arrayMap, grid, e).threw
  {
    if arrayMap != [] {
      var n := |arrayMap| - 1;
      CycleTsNeverThrows(ops, simple, behave, arrayMap[..n], grid, e);
      var prev := CycleTs(ops, simple, behave, arrayMap[..n], grid, e);
      KindTsNeverThrows(ops, simple, behave, arrayMap[n].key, arrayMap[n].value, grid, prev.elements);
    }
  }

  /** Some kind of `arrayMap` has a location. */
  predicate HasEntries(arrayMap: Dict<Dict<Descriptor>>)
  {
    exists i :: 0 <= i < |arrayMap| && |arrayMap[i].value| > 0
  }

  /** One poll after the fetch. A failed fetch rejects before anything
      happens; a body without `values` rejects at the first location, as
      reading a column of undefined throws outside the per-entry catch. */
  function UpdateTs(ops: Dict<Handler>, simple: seq<string>, behave: Behaviour, arrayMap: Dict<Dict<Descriptor>>, fetched: Fetched, e: Elements): Effect
  {
    match fetched
    case Failed => Effect(e, [], true)
    case Body(None) => Effect(e, [], HasEntries(arrayMap))
    case Body(Some(grid)) => CycleTs(ops, simple, behave, arrayMap, grid, e)
  }

  /** A poll rejects only outside the per-entry catch: when the fetch fails,
      or when a body without `values` meets its first location. */
  lemma UpdateTsRejects(ops: Dict<Handler>, simple: seq<string>, behave: Behaviour,
                        arrayMap: Dict<Dict<Descriptor>>, fetched: Fetched, e: Elements)
    ensures UpdateTs(ops, simple, behave, arrayMap, fetched, e).threw <==>
      fetched.Failed? || (fetched.values.None? && HasEntries(arrayMap))
  {
    if fetched.Body? && fetched.values.Some? {
      CycleTsNeverThrows(ops, simple, behave, arrayMap, fetched.values.value, e);
    }
  }

  /** Running the locations of a kind in two parts gives the same page and
      warnings as running them together: an exception in one location is
      caught and the locations after it still run. */
  lemma KindTsSplit(ops: Dict<Handler>, simple: seq<string>, behave: Behaviour, kind: string,
                     m1: Dict<Descriptor>, m2: Dict<Descriptor>, grid: Grid, e: Elements)
    ensures var first := KindTs(ops, simple, behave, kind, m1, grid, e);
      var second := KindTs(ops, simple, behave, kind, m2, grid, first.elements);
      KindTs(ops, simple, behave, kind, m1 + m2, grid, e) == Effect(second.elements, first.warnings + second.warnings, false)
  {
    EachSplit(EntryStep(ops, simple, behave, kind, grid), m1, m2, e);
    KindTsNeverThrows(ops, simple, behave, kind, m1, grid, e);
    KindTsNeverThrows(ops, simple, behave, kind, m2, grid, KindTs(ops, simple, behave, kind, m1, grid, e).elements);
  }

  // ----- The registry

  /** The registry's invariant: every name is registered once, and every
      simple kind is a registered one. */
  predicate RegistryOk(ops: Dict<Handler>, simple: seq<string>)
  {
    DistinctKeys(ops) && forall k :: 0 <= k < |simple| ==> HasKey(ops, simple[k])
  }

  /** addOperation: a name already present only draws a warning; a new one
      is added, and listed as simple when asked. */
  function Register(ops: Dict<Handler>, simple: seq<string>, name: string, h: Handler, isSimple: bool): (Dict<Handler>, seq<string>, seq<Warning>)
  {
    if HasKey(ops, name) then (ops, simple, [DuplicateOperation(name)])
    else (Assign(ops, name, h), if isSimple then simple + [name] else simple, [])
  }

  /** After addOperation the new name finds its handler and every other name
      finds what it found before; a duplicate changes nothing and warns; the
      registry's invariant is kept. */
  lemma RegisterSpec(ops: Dict<Handler>, simple: seq<string>, name: string, h: Handler, isSimple: bool)
    ensures var (ops', simple', warnings) := Register(ops, simple, name, h, isSimple);
      && (HasKey(ops, name) ==> ops' == ops && simple' == simple && warnings == [DuplicateOperation(name)])
      && (!HasKey(ops, name) ==>
            && Get(ops', name) == Some(h)
            && (forall other :: other != name ==> Get(ops', other) == Get(ops, other))
            && simple' == simple + (if isSimple then [name] else [])
            && warnings == [])
      && (RegistryOk(ops, simple) ==> RegistryOk(ops', simple'))
  {
    if !HasKey(ops, name) {
      var ops' := Assign(ops, name, h);
      GetAssign(ops, name, h, name);
      forall other | other != name ensures Get(ops', other) == Get(ops, other) {
        GetAssign(ops, name, h, other);
      }
      if RegistryOk(ops, simple) {
        AssignDistinct(ops, name, h);
        var simple' := if isSimple then simple + [name] else simple;
        forall k | 0 <= k < |simple'| ensures HasKey(ops', simple'[k]) {
          GetFindsKey(ops', simple'[k]);
          GetFindsKey(ops, simple'[k]);
          GetAssign(ops, name, h, simple'[k]);
        }
      }
    }
  }

  /** A simple kind of a well-formed registry has a handler, so its array
      entries never call undefined. */
  lemma SimpleKindsHaveHandlers(ops: Dict<Handler>, simple: seq<string>, kind: string)
    requires RegistryOk(ops, simple) && kind in simple
    ensures Get(ops, kind).Some?
  {
    var k :| 0 <= k < |simple| && simple[k] == kind;
    GetFindsKey(ops, kind);
  }

  /** The built-in handlers are registered under distinct names, and the
      simple kinds string and image are among them. */
  lemma BuiltInsOk()
    ensures RegistryOk(BuiltIns, BuiltInSimple)
  {
    forall i, j | 0 <= i < j < |BuiltIns| ensures BuiltIns[i].key != BuiltIns[j].key {
      assert BuiltIns[i].key[1] != BuiltIns[j].key[1];
    }
    assert BuiltIns[0].key == BuiltInSimple[0] && BuiltIns[1].key == BuiltInSimple[1];
  }

  /** A preset operation: a name, a handler and whether it is simple. */
  datatype Preset = Preset(name: string, operation: Handler, isSimple: bool)

  // ----- Running the handlers on the page

  /** A built-in or added handler, run on the page. */
  method CallHandler(doc: Document, h: Option<Handler>, behave: Behaviour, arg: Descriptor, value: string)
    returns (warnings: seq<Warning>, threw: bool)
    modifies doc
    ensures Effect(doc.elements, warnings, threw) == Call(h, behave, arg, value, old(doc.elements))
  {
    if h.None? {
      return [], true;
    }
    threw := false;
    match h.value
    case StringOp =>
      warnings := WriteHtml(doc, behave, arg, value);
    case ImageOp =>
      warnings := WriteSrc(doc, behave, arg, value);
    case CounterOp =>
      warnings := ShowCount(doc, arg, value);
    case SwitchOp =>
      warnings := ShowSwitch(doc, arg, value);
    case Custom(tag) =>
      var r := behave(tag, arg, value, doc.elements);
      doc.elements := r.elements;
      warnings, threw := r.warnings, r.threw;
  }

  /** The string handler: `innerHTML` of the element the entry names. */
  method WriteHtml(doc: Document, behave: Behaviour, arg: Descriptor, value: string) returns (warnings: seq<Warning>)
    modifies doc
    ensures Effect(doc.elements, warnings, false) == HandlerTs(StringOp, behave, arg, value, old(doc.elements))
  {
    var id := IdText(arg);
    var found := doc.SetHtml(id, value);
    warnings := if found then [] else [MissingElement("string", id)];
  }

  /** The image handler: the image source of the element the entry names. */
  method WriteSrc(doc: Document, behave: Behaviour, arg: Descriptor, value: string) returns (warnings: seq<Warning>)
    modifies doc
    ensures Effect(doc.elements, warnings, false) == HandlerTs(ImageOp, behave, arg, value, old(doc.elements))
  {
    var id := IdText(arg);
    var found := doc.SetSrc(id, value);
    warnings := if found then [] else [MissingElement("number", id)];
  }

  /** The counter handler: the count read from the cell, then its two loops. */
  method ShowCount(doc: Document, arg: Descriptor, value: string) returns (warnings: seq<Warning>)
    modifies doc
    ensures Effect(doc.elements, warnings, false) == CounterTs(arg, value, old(doc.elements))
  {
    warnings := [];
    var count := if value == "" then Int(0) else ParseInt(value);
    if count.Int? {
      var missing := doc.ShowFirst(arg, count.n);
      if missing.Some? {
        warnings := [MissingElement("counter", missing.value)];
      }
    }
  }

  /** The switch handler: its loop over the entry's keys, then the warning
      when no key matched. */
  method ShowSwitch(doc: Document, arg: Descriptor, value: string) returns (warnings: seq<Warning>)
    modifies doc
    ensures Effect(doc.elements, warnings, false) == SwitchTs(arg, value, old(doc.elements))
  {
    warnings := [];
    var missing, switched := doc.ShowMatching(SwitchView(arg), Some(value));
    if missing.Some? {
      warnings := [MissingElement("switch", missing.value)];
    } else if !switched {
      warnings := [NoSwitchMatch(value)];
    }
  }

  /** `run(entry, value)` on the page. */
  method Run(doc: Document, ops: Dict<Handler>, simple: seq<string>, behave: Behaviour, kind: string, arg: Descriptor, value: string)
    returns (warnings: seq<Warning>, threw: bool)
    modifies doc
    ensures Effect(doc.elements, warnings, threw) == RunTs(ops, simple, behave, kind, arg, value, old(doc.elements))
  {
    var h := Get(ops, kind);
    if kind in simple && arg.Ids? {
      var ids := arg.ids;
      warnings, threw := [], false;
      var k := 0;
      while k < |ids|
        invariant 0 <= k <= |ids|
        invariant !threw
        invariant Effect(doc.elements, warnings, threw) == FanOut(IdStep(h, behave, value), ids[..k], old(doc.elements))
      {
        assert ids[..k + 1][..k] == ids[..k];
        var more, failed := CallHandler(doc, h, behave, Id(ids[k]), value);
        warnings, threw := warnings + more, failed;
        if threw {
          FanOutStops(IdStep(h, behave, value), ids, k + 1, old(doc.elements));
          return;
        }
        k := k + 1;
      }
      assert ids[..k] == ids;
    } else {
      warnings, threw := CallHandler(doc, h, behave, arg, value);
    }
  }

  /** Once the fan-out has thrown, the ids after that one are not run. */
  lemma {:induction false} FanOutStops(step: (string, Elements) -> Effect, ids: seq<string>, k: nat, e: Elements)
    requires k <= |ids| && FanOut(step, ids[..k], e).threw
    ensures FanOut(step, ids, e) == FanOut(step, ids[..k], e)
    decreases |ids|
  {
    if k < |ids| {
      var n := |ids| - 1;
      assert ids[..n][..k] == ids[..k];
      FanOutStops(step, ids[..n], k, e);
    } else {
      assert ids[..k] == ids;
    }
  }

  /** The page and its updater, as Updater.ts keeps them. The url is kept as
      the range text it is built around. */
  class GraphicsUpdater {
    var updating: bool
    /** The range the constructor computed; only its text is kept at run time. */
    ghost var cellRange: Option<Rect>
    var rangeText: Option<string>
    var arrayMap: Dict<Dict<Descriptor>>
    var simpleOperations: seq<string>
    var operations: Dict<Handler>
    var updateInterval: int

    ghost predicate Valid()
      reads this
    {
      RegistryOk(operations, simpleOperations)
    }

    /** Compiles the settings and installs the built-in handlers; with
        updateNow it is updating from the start. */
    constructor(settings: Settings, updateInterval: int, updateNow: bool)
      requires SettingsOk(settings)
      ensures Valid()
      ensures var cells := CellsOf(settings);
        && (cells == [] ==> cellRange == None && rangeText == None)
        && (cells != [] ==> cellRange == Some(BoundingRect(cells))
                            && rangeText == Some(RangeText(BoundingRect(cells))))
      ensures arrayMap == ArrayMapOf(settings, RectOf(cellRange), false)
      ensures operations == BuiltIns && simpleOperations == BuiltInSimple
      ensures updating == updateNow && this.updateInterval == updateInterval
    {
      var cfg := Compile(settings);
      cellRange := cfg.range;
      rangeText := cfg.rangeText;
      arrayMap := cfg.arrayMap;
      simpleOperations := BuiltInSimple;
      operations := BuiltIns;
      this.updateInterval := updateInterval;
      updating := updateNow;
      BuiltInsOk();
    }

    /** One poll: the fetched response is written into the page. */
    method Update(doc: Document, fetched: Fetched, behave: Behaviour) returns (rejected: bool, warnings: seq<Warning>)
      modifies doc
      ensures Effect(doc.elements, warnings, rejected) == UpdateTs(operations, simpleOperations, behave, arrayMap, fetched, old(doc.elements))
    {
      if fetched.Failed? {
        return true, [];
      }
      if fetched.values.None? {
        return HasEntries(arrayMap), [];
      }
      var grid := fetched.values.value;
      warnings := [];
      var i := 0;
      while i < |arrayMap|
        invariant 0 <= i <= |arrayMap|
        invariant Effect(doc.elements, warnings, false) == CycleTs(operations, simpleOperations, behave, arrayMap[..i], grid, old(doc.elements))
      {
        assert arrayMap[..i + 1][..i] == arrayMap[..i];
        var more := UpdateKind(doc, arrayMap[i].key, arrayMap[i].value, grid, behave);
        warnings := warnings + more;
        i := i + 1;
      }
      assert arrayMap[..i] == arrayMap;
      rejected := false;
    }

    /** The locations of one kind, each read and run under its own catch. */
    method UpdateKind(doc: Document, kind: string, m: Dict<Descriptor>, grid: Grid, behave: Behaviour) returns (warnings: seq<Warning>)
      modifies doc
      ensures Effect(doc.elements, warnings, false) == KindTs(operations, simpleOperations, behave, kind, m, grid, old(doc.elements))
    {
      warnings := [];
      var j := 0;
      while j < |m|
        invariant 0 <= j <= |m|
        invariant Effect(doc.elements, warnings, false) == KindTs(operations, simpleOperations, behave, kind, m[..j], grid, old(doc.elements))
      {
        assert m[..j + 1][..j] == m[..j];
        var value := LookupTs(grid, m[j].key);
        var more, threw := Run(doc, operations, simpleOperations, behave, kind, m[j].value, value);
        if threw {
          more := more + [EntryFailed(m[j].value, value)];
        }
        warnings := warnings + more;
        j := j + 1;
      }
      assert m[..j] == m;
    }

    /** addOperation. */
    method AddOperation(name: string, operation: Handler, isSimple: bool) returns (warnings: seq<Warning>)
      requires Valid()
      modifies this
      ensures Valid()
      ensures (operations, simpleOperations, warnings) == Register(old(operations), old(simpleOperations), name, operation, isSimple)
      ensures updating == old(updating) && cellRange == old(cellRange) && rangeText == old(rangeText) && arrayMap == old(arrayMap)
      ensures updateInterval == old(updateInterval)
    {
      RegisterSpec(operations, simpleOperations, name, operation, isSimple);
      if !HasKey(operations, name) {
        operations := Assign(operations, name, operation);
        if isSimple {
          simpleOperations := simpleOperations + [name];
        }
        warnings := [];
      } else {
        warnings := [DuplicateOperation(name)];
      }
    }

    /** importPreset: addOperation with the preset's name, handler and flag. */
    method ImportPreset(preset: Preset) returns (warnings: seq<Warning>)
      requires Valid()
      modifies this
      ensures Valid()
      ensures (operations, simpleOperations, warnings) == Register(old(operations), old(simpleOperations), preset.name, preset.operation, preset.isSimple)
      ensures updating == old(updating) && cellRange == old(cellRange) && rangeText == old(rangeText) && arrayMap == old(arrayMap)
      ensures updateInterval == old(updateInterval)
    {
      warnings := AddOperation(preset.name, preset.operation, preset.isSimple);
    }

    /** startUpdating: the first call starts polling, a later one only warns. */
    method StartUpdating() returns (warnings: seq<Warning>)
      modifies this
      ensures updating
      ensures warnings == if old(updating) then [AlreadyUpdating] else []
      ensures cellRange == old(cellRange) && rangeText == old(rangeText) && arrayMap == old(arrayMap) && updateInterval == old(updateInterval)
      ensures operations == old(operations) && simpleOperations == old(simpleOperations)
    {
      if !updating {
        updating := true;
        warnings := [];
      } else {
        warnings := [AlreadyUpdating];
      }
    }
  }
}
