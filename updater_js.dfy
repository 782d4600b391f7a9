/** GraphicsUpdater as the older Updater.js has it. The same arrayMap, but
    each location's value is read with no default: a column the response
    does not have throws, a row it does not have reads undefined. The four
    handlers are fixed, none of them warns, and an element that does not
    exist makes them throw. Nothing catches an exception: it ends the poll,
    and the entries and kinds after it do not run. */
module UpdaterJs {
  import opened Base
  import opened Text
  import opened Layout
  import opened Overlay
  import Updater

  /** The result of a handler, an entry or a poll: the page after it, and
      whether an exception escaped. */
  datatype Step = Step(elements: Elements, threw: bool)

  /** `String(v)` for the value a location reads; undefined gives "undefined". */
  function ValueText(v: Option<string>): string
  {
    match v
    case None => "undefined"
    case Some(s) => s
  }

  // ----- Reading a cell of the response

  /** `cells[coords[0]][coords[1]]` after splitting the location at commas:
      reading a row of a column that does not exist throws; a row the
      column does not have is undefined (None). */
  function LookupJs(grid: Updater.Grid, loc: string): Completion<Option<string>>
  {
    var coords := Split(loc, ',');
    match Index(coords[0])
    case None => Throw
    case Some(c) =>
      if c >= |grid| then Throw
      else if |coords| < 2 then Normal(None)
      else match Index(coords[1])
        case None => Normal(None)
        case Some(r) => if r < |grid[c]| then Normal(Some(grid[c][r])) else Normal(None)
  }

  /** A label's location, taken against any rectangle, is read at the
      label's offsets from that rectangle's top-left corner, whatever
      further runs the label has: it throws exactly when the column is
      missing, and is undefined exactly when the column is shorter than the
      row. */
  lemma LookupJsOfLabel(grid: Updater.Grid, name: string, c: Cell, r: Rect)
    requires LabelOk(name) && ParseLabel(name) == Some(c)
    ensures var dc, dr := c.col - r.minCol, c.row - r.minRow;
      LookupJs(grid, LabelKey(name, r, true)) ==
        if 0 <= dc < |grid| then Normal(if 0 <= dr < |grid[dc]| then Some(grid[dc][dr]) else None) else Throw
  {
    var dc, dr := c.col - r.minCol, c.row - r.minRow;
    var extra := ExtraParts(Runs(name), 2, r);
    assert LabelKey(name, r, true) == KeyText(dc, dr) + extra;
    assert LookupJs(grid, KeyText(dc, dr) + extra) ==
      if 0 <= dc < |grid| then Normal(if 0 <= dr < |grid[dc]| then Some(grid[dc][dr]) else None) else Throw
    by {
      ExtraPartsShape(Runs(name), 2, r);
      LookupJsOfKey(grid, dc, dr, extra);
    }
  }

  /** A location made of two offsets and further comma-led parts is read at
      the two offsets. */
  lemma LookupJsOfKey(grid: Updater.Grid, dc: int, dr: int, extra: string)
    requires extra == [] || extra[0] == ','
    ensures LookupJs(grid, KeyText(dc, dr) + extra) ==
      if 0 <= dc < |grid| then Normal(if 0 <= dr < |grid[dc]| then Some(grid[dc][dr]) else None) else Throw
  {
    KeyThenPartsSplits(dc, dr, extra);
    IndexOfIntText(dc);
    IndexOfIntText(dr);
  }

  // ----- The handlers

  /** `this.operations` of Updater.js: the four built-in handlers. */
  function OperationJs(kind: string): (h: Option<Updater.Handler>)
    ensures h.Some? ==> !h.value.Custom?
  {
    if kind == "string" then Some(Updater.StringOp)
    else if kind == "image" then Some(Updater.ImageOp)
    else if kind == "counter" then Some(Updater.CounterOp)
    else if kind == "switch" then Some(Updater.SwitchOp)
    else None
  }

  /** Updater.js knows the same handlers under the same names as a new
      Updater.ts updater. */
  lemma OperationJsIsBuiltIns(kind: string)
    ensures OperationJs(kind) == Get(Updater.BuiltIns, kind)
  {
    var ops := Updater.BuiltIns;
    assert ops[1..][1..][1..][1..] == [];
    assert Get(ops[1..][1..][1..], kind) == if kind == "switch" then Some(Updater.SwitchOp) else None;
    assert Get(ops[1..][1..], kind) == if kind == "counter" then Some(Updater.CounterOp) else Get(ops[1..][1..][1..], kind);
    assert Get(ops[1..], kind) == if kind == "image" then Some(Updater.ImageOp) else Get(ops[1..][1..], kind);
    assert Get(ops, kind) == if kind == "string" then Some(Updater.StringOp) else Get(ops[1..], kind);
  }

  /** `this.operations[type](arg, value)`. The string and image handlers
      write `String(value)` into the element the entry names; the counter
      parses it, and for a number runs the loops of Updater.ts; the switch
      compares each key with it. A missing element throws, and so does a
      kind with no handler. */
  function CallJs(kind: string, arg: Descriptor, value: Option<string>, e: Elements): Step
  {
    match OperationJs(kind)
    case None => Step(e, true)
    case Some(StringOp) =>
      var id := IdText(arg);
      if id in e then Step(e[id := e[id].(html := ValueText(value))], false) else Step(e, true)
    case Some(ImageOp) =>
      var id := IdText(arg);
      if id in e then Step(e[id := e[id].(src := ValueText(value))], false) else Step(e, true)
    case Some(CounterOp) => CounterJs(arg, value, e)
    case Some(SwitchOp) => SwitchJs(arg, value, e)
  }

  /** The counter: parseInt of the value, then for a number the two loops
      of Updater.ts, which throw at the first id that has no element. */
  function CounterJs(arg: Descriptor, value: Option<string>, e: Elements): Step
  {
    var count := ParseInt(ValueText(value));
    if count.NaN? then Step(e, false)
    else
      var o := Perform(e, CounterWrites(arg, count.n));
      Step(o.elements, o.missing.Some?)
  }

  /** The switch: each key is compared with the value, loosely, so that
      undefined equals no key; it throws at the first id that has no
      element. */
  function SwitchJs(arg: Descriptor, value: Option<string>, e: Elements): Step
  {
    var o := Perform(e, SwitchWrites(SwitchView(arg), value));
    Step(o.elements, o.missing.Some?)
  }

  /** A counter over distinct elements that all exist, given the decimal
      text of n, 0 <= n <= ids.length: the first n are shown, the rest
      hidden, nothing else changes and nothing throws. */
  lemma CounterJsShowsFirst(ids: seq<string>, n: nat, e: Elements)
    requires n <= |ids| && Distinct(ids)
    requires forall i :: 0 <= i < |ids| ==> ids[i] in e
    ensures var r := CounterJs(Ids(ids), Some(NatText(n)), e);
      && !r.threw && r.elements.Keys == e.Keys
      && (forall i :: 0 <= i < |ids| ==> r.elements[ids[i]] == e[ids[i]].(display := if i < n then "" else "none"))
      && (forall id :: id in e && id !in ids ==> r.elements[id] == e[id])
  {
    ParseIntOfNatText(n);
    CounterShowsFirst(e, ids, n);
  }

  /** An empty cell, or a row the response does not have, parses to NaN:
      the counter's loops do not run and the page is unchanged. */
  lemma CounterJsBlankChangesNothing(arg: Descriptor, value: Option<string>, e: Elements)
    requires value == Some("") || value == None
    ensures CounterJs(arg, value, e) == Step(e, false)
  {
    if value == None {
      UndefinedIsNaN();
    } else {
      assert ParseInt("") == NaN;
    }
  }

  /** `parseInt(undefined)` reads the text "undefined", which has no digit. */
  lemma UndefinedIsNaN()
    ensures ParseInt("undefined") == NaN
  {
    var s := "undefined";
    assert s[0] == 'u';
    assert TrimStart(s) == s;
    assert DigitPrefix(s, false) == 0;
  }

  /** The two versions part on an empty cell: Updater.ts counts it as 0 and
      hides every tally, Updater.js leaves every tally as it was. */
  lemma EmptyCellVersionsDiffer(ids: seq<string>, e: Elements, behave: Updater.Behaviour)
    requires Distinct(ids) && forall i :: 0 <= i < |ids| ==> ids[i] in e
    ensures CounterJs(Ids(ids), Some(""), e) == Step(e, false)
    ensures var r := Updater.HandlerTs(Updater.CounterOp, behave, Ids(ids), "", e);
      forall i :: 0 <= i < |ids| ==> r.elements[ids[i]] == e[ids[i]].(display := "none")
  {
    CounterJsBlankChangesNothing(Ids(ids), Some(""), e);
    Updater.CounterEmptyCellHidesAll(ids, e, behave);
  }

  /** A counter asked for more tallies than it has ids, when no element has
      id "undefined": every tally is shown and then the handler throws at
      `ids[ids.length]`, where Updater.ts only warns. */
  lemma CounterJsOverflowThrows(ids: seq<string>, n: nat, e: Elements)
    requires n > |ids| && "undefined" !in e
    requires forall i :: 0 <= i < |ids| ==> ids[i] in e
    ensures var r := CounterJs(Ids(ids), Some(NatText(n)), e);
      && r.threw
      && r.elements == Perform(e, seq(|ids|, i requires 0 <= i < |ids| => Style(ids[i], ""))).elements
  {
    ParseIntOfNatText(n);
    CounterOverflowStops(e, ids, n);
  }

  /** A switch over distinct elements that all exist: the element of every
      key equal to the value is shown, every other one hidden, nothing else
      changes and nothing throws. */
  lemma SwitchJsShowsMatching(t: Dict<string>, value: Option<string>, e: Elements)
    requires forall k :: 0 <= k < |t| ==> t[k].value in e
    requires forall i, j :: 0 <= i < j < |t| ==> t[i].value != t[j].value
    ensures var r := SwitchJs(Table(t), value, e);
      && !r.threw && r.elements.Keys == e.Keys
      && (forall k :: 0 <= k < |t| ==> r.elements[t[k].value] == e[t[k].value].(display := if Some(t[k].key) == value then "" else "none"))
      && (forall id :: id in e && (forall k :: 0 <= k < |t| ==> t[k].value != id) ==> r.elements[id] == e[id])
  {
    SwitchShowsMatching(e, t, value);
  }

  /** A row the response does not have reads undefined, which equals no
      key: every element of the switch is hidden. */
  lemma SwitchJsUndefinedHidesAll(t: Dict<string>, e: Elements)
    requires forall k :: 0 <= k < |t| ==> t[k].value in e
    requires forall i, j :: 0 <= i < j < |t| ==> t[i].value != t[j].value
    ensures var r := SwitchJs(Table(t), None, e);
      !r.threw && r.elements.Keys == e.Keys && forall k :: 0 <= k < |t| ==> r.elements[t[k].value].display == "none"
  {
    SwitchJsShowsMatching(t, None, e);
  }

  // ----- Running entries until one throws

  /** Steps over xs in order, from the page e; an exception ends the run
      and nothing after it happens. */
  function Until<T>(step: (T, Elements) -> Step, xs: seq<T>, e: Elements): Step
  {
    if xs == [] then Step(e, false)
    else
      var prev := Until(step, xs[..|xs| - 1], e);
      if prev.threw then prev else step(xs[|xs| - 1], prev.elements)
  }

  /** A run in two parts: the second part runs, from where the first left
      the page, only when the first did not throw. */
  lemma {:induction false} UntilSplit<T>(step: (T, Elements) -> Step, xs: seq<T>, ys: seq<T>, e: Elements)
    ensures var first := Until(step, xs, e);
      Until(step, xs + ys, e) == if first.threw then first else Until(step, ys, first.elements)
    decreases |ys|
  {
    if ys == [] {
      assert xs + ys == xs;
    } else {
      var n := |ys| - 1;
      UntilSplit(step, xs, ys[..n], e);
      assert (xs + ys)[..|xs + ys| - 1] == xs + ys[..n];
      assert (xs + ys)[|xs + ys| - 1] == ys[n];
    }
  }

  /** Once a prefix of the run has thrown, the rest of it does not run. */
  lemma UntilPrefix<T>(step: (T, Elements) -> Step, xs: seq<T>, k: nat, e: Elements)
    requires k <= |xs| && Until(step, xs[..k], e).threw
    ensures Until(step, xs, e) == Until(step, xs[..k], e)
  {
    UntilSplit(step, xs[..k], xs[k..], e);
    assert xs[..k] + xs[k..] == xs;
  }

  /** One more step of a run that has not thrown; when it throws, the run
      ends there. */
  lemma UntilNext<T>(step: (T, Elements) -> Step, xs: seq<T>, k: nat, e: Elements, before: Step, after: Step)
    requires k < |xs| && before == Until(step, xs[..k], e) && !before.threw
    requires after == step(xs[k], before.elements)
    ensures Until(step, xs[..k + 1], e) == after
    ensures after.threw ==> Until(step, xs, e) == after
  {
    assert xs[..k + 1][..k] == xs[..k];
    if after.threw {
      UntilPrefix(step, xs, k + 1, e);
    }
  }

  /** A step that writes into its id's element, or throws when it is missing. */
  ghost predicate WritesOrThrows(step: (string, Elements) -> Step, h: Updater.Handler, text: string)
  {
    forall id, el :: step(id, el) ==
      (if id in el then Step(el[id := Updater.Written(h, el[id], text)], false) else Step(el, true))
  }

  /** Such steps never add or remove an element. */
  lemma {:induction false} UntilKeys(step: (string, Elements) -> Step, h: Updater.Handler, text: string, ids: seq<string>, e: Elements)
    requires WritesOrThrows(step, h, text)
    ensures Until(step, ids, e).elements.Keys == e.Keys
  {
    if ids != [] {
      var n := |ids| - 1;
      UntilKeys(step, h, text, ids[..n], e);
      var prev := Until(step, ids[..n], e);
      if !prev.threw {
        var r := step(ids[n], prev.elements);
        assert r.elements.Keys == prev.elements.Keys;
      }
    }
  }

  /** Such steps throw exactly when some id names no element. */
  lemma {:induction false} UntilThrows(step: (string, Elements) -> Step, h: Updater.Handler, text: string, ids: seq<string>, e: Elements)
    requires WritesOrThrows(step, h, text)
    ensures Until(step, ids, e).threw <==> exists k :: 0 <= k < |ids| && ids[k] !in e
  {
    if ids != [] {
      var n := |ids| - 1;
      var init := ids[..n];
      UntilThrows(step, h, text, init, e);
      UntilKeys(step, h, text, init, e);
      var prev := Until(step, init, e);
      assert forall k :: 0 <= k < n ==> init[k] == ids[k];
      if !prev.threw {
        assert step(ids[n], prev.elements).threw <==> ids[n] !in e;
      }
    }
  }

  /** When every id names an element, such steps write into each of them
      and leave every other element as it was. */
  lemma {:induction false} UntilWrites(step: (string, Elements) -> Step, h: Updater.Handler, text: string, ids: seq<string>, e: Elements)
    requires WritesOrThrows(step, h, text)
    requires forall k :: 0 <= k < |ids| ==> ids[k] in e
    ensures var r := Until(step, ids, e);
      && !r.threw && r.elements.Keys == e.Keys
      && forall id :: id in e ==> r.elements[id] == if id in ids then Updater.Written(h, e[id], text) else e[id]
  {
    UntilKeys(step, h, text, ids, e);
    UntilThrows(step, h, text, ids, e);
    if ids != [] {
      var n := |ids| - 1;
      var init, x := ids[..n], ids[n];
      assert forall k :: 0 <= k < n ==> init[k] == ids[k];
      UntilWrites(step, h, text, init, e);
      var prev := Until(step, init, e);
      var r := Until(step, ids, e);
      assert r.elements == prev.elements[x := Updater.Written(h, prev.elements[x], text)] by {
        assert r == step(x, prev.elements);
      }
      WrittenSnoc(h, text, ids, e, prev.elements, r.elements);
    }
  }

  /** Writing the last id into the page as the earlier ids left it gives
      the page with every id written. */
  lemma WrittenSnoc(h: Updater.Handler, text: string, ids: seq<string>, e: Elements, before: Elements, after: Elements)
    requires ids != [] && ids[|ids| - 1] in e && before.Keys == e.Keys
    requires forall id :: id in e ==> before[id] == if id in ids[..|ids| - 1] then Updater.Written(h, e[id], text) else e[id]
    requires after == before[ids[|ids| - 1] := Updater.Written(h, before[ids[|ids| - 1]], text)]
    ensures after.Keys == e.Keys
    ensures forall id :: id in e ==> after[id] == if id in ids then Updater.Written(h, e[id], text) else e[id]
  {
    forall id | id in e
      ensures after[id] == if id in ids then Updater.Written(h, e[id], text) else e[id]
    {
      Updater.MemberOfSnoc(ids, id);
    }
  }

  /** The simple-kind wrapper's step: the kind's handler on one id. */
  function IdStepJs(kind: string, value: Option<string>): (string, Elements) -> Step
  {
    (id: string, e: Elements) => CallJs(kind, Id(id), value, e)
  }

  /** A string or image entry with an array of ids throws exactly when some
      id names no element; when all exist, the value's text is written into
      each of them and every other element is left as it was. */
  lemma SimpleFanOutJs(kind: string, ids: seq<string>, value: Option<string>, e: Elements)
    requires kind == "string" || kind == "image"
    ensures var r := Until(IdStepJs(kind, value), ids, e);
      && r.elements.Keys == e.Keys
      && (r.threw <==> exists k :: 0 <= k < |ids| && ids[k] !in e)
      && ((forall k :: 0 <= k < |ids| ==> ids[k] in e) ==>
            forall id :: id in e ==> r.elements[id] == if id in ids then Updater.Written(OperationJs(kind).value, e[id], ValueText(value)) else e[id])
  {
    var h := OperationJs(kind).value;
    var step := IdStepJs(kind, value);
    forall id, el
      ensures step(id, el) ==
        (if id in el then Step(el[id := Updater.Written(h, el[id], ValueText(value))], false) else Step(el, true))
    {
      assert IdText(Id(id)) == id;
    }
    UntilKeys(step, h, ValueText(value), ids, e);
    UntilThrows(step, h, ValueText(value), ids, e);
    if forall k :: 0 <= k < |ids| ==> ids[k] in e {
      UntilWrites(step, h, ValueText(value), ids, e);
    }
  }

  // ----- The poll

  /** `run(f, ids, value)`: a simple kind fans an array entry out over its
      ids, and any other entry goes to the handler once, as it is. */
  function RunJs(kind: string, arg: Descriptor, value: Option<string>, e: Elements): Step
  {
    if kind in Updater.BuiltInSimple && arg.Ids? then Until(IdStepJs(kind, value), arg.ids, e)
    else CallJs(kind, arg, value, e)
  }

  /** One location: its value is read, which may throw, and then run. */
  function EntryJs(kind: string, entry: Entry<Descriptor>, grid: Updater.Grid, e: Elements): Step
  {
    match LookupJs(grid, entry.key)
    case Throw => Step(e, true)
    case Normal(v) => RunJs(kind, entry.value, v, e)
  }

  function EntryStepJs(kind: string, grid: Updater.Grid): (Entry<Descriptor>, Elements) -> Step
  {
    (entry: Entry<Descriptor>, e: Elements) => EntryJs(kind, entry, grid, e)
  }

  /** The locations of one kind, in order, until one throws. */
  function KindJs(kind: string, m: Dict<Descriptor>, grid: Updater.Grid, e: Elements): Step
  {
    Until(EntryStepJs(kind, grid), m, e)
  }

  function KindStepJs(grid: Updater.Grid): (Entry<Dict<Descriptor>>, Elements) -> Step
  {
    (kindMap: Entry<Dict<Descriptor>>, e: Elements) => KindJs(kindMap.key, kindMap.value, grid, e)
  }

  /** Every kind of `arrayMap`, in order, until one throws. */
  function CycleJs(arrayMap: Dict<Dict<Descriptor>>, grid: Updater.Grid, e: Elements): Step
  {
    Until(KindStepJs(grid), arrayMap, e)
  }

  /** One poll after the fetch. A failed fetch rejects before anything
      happens; a body without `values` rejects at the first location. */
  function UpdateJs(arrayMap: Dict<Dict<Descriptor>>, fetched: Updater.Fetched, e: Elements): Step
  {
    match fetched
    case Failed => Step(e, true)
    case Body(None) => Step(e, Updater.HasEntries(arrayMap))
    case Body(Some(grid)) => CycleJs(arrayMap, grid, e)
  }

  /** A location whose column the response does not have ends its kind
      there: the page is as the locations before it left it, the poll
      throws, and no later location of the kind runs. */
  lemma MissingColumnAborts(kind: string, m: Dict<Descriptor>, j: nat, grid: Updater.Grid, e: Elements)
    requires j < |m| && LookupJs(grid, m[j].key) == Throw
    ensures KindJs(kind, m, grid, e) == Step(KindJs(kind, m[..j], grid, e).elements, true)
  {
    var step := EntryStepJs(kind, grid);
    var before := Until(step, m[..j], e);
    if !before.threw {
      assert Until(step, m[..j + 1], e) == Step(before.elements, true) by {
        assert m[..j + 1][..j] == m[..j];
      }
      UntilPrefix(step, m, j + 1, e);
    } else {
      UntilPrefix(step, m, j, e);
    }
  }

  /** A kind that throws ends the poll: the kinds after it do not run. */
  lemma ThrowingKindEndsPoll(arrayMap: Dict<Dict<Descriptor>>, i: nat, grid: Updater.Grid, e: Elements)
    requires i < |arrayMap|
    requires var before := CycleJs(arrayMap[..i], grid, e);
      !before.threw && KindJs(arrayMap[i].key, arrayMap[i].value, grid, before.elements).threw
    ensures CycleJs(arrayMap, grid, e) ==
      KindJs(arrayMap[i].key, arrayMap[i].value, grid, CycleJs(arrayMap[..i], grid, e).elements)
  {
    var step := KindStepJs(grid);
    assert arrayMap[..i + 1][..i] == arrayMap[..i];
    UntilPrefix(step, arrayMap, i + 1, e);
  }

  // ----- Running the poll on the page

  /** A handler of Updater.js, run on the page. */
  method Call(doc: Document, kind: string, arg: Descriptor, value: Option<string>) returns (threw: bool)
    modifies doc
    ensures Step(doc.elements, threw) == CallJs(kind, arg, value, old(doc.elements))
  {
    var h := OperationJs(kind);
    if h.None? {
      return true;
    }
    match h.value
    case StringOp =>
      var found := doc.SetHtml(IdText(arg), ValueText(value));
      threw := !found;
    case ImageOp =>
      var found := doc.SetSrc(IdText(arg), ValueText(value));
      threw := !found;
    case CounterOp =>
      threw := Count(doc, arg, value);
    case SwitchOp =>
      var missing, _ := doc.ShowMatching(SwitchView(arg), value);
      threw := missing.Some?;
  }

  /** The counter of Updater.js: parseInt of the value, then the two loops
      of Updater.ts when it is a number. */
  method Count(doc: Document, arg: Descriptor, value: Option<string>) returns (threw: bool)
    modifies doc
    ensures Step(doc.elements, threw) == CounterJs(arg, value, old(doc.elements))
  {
    var count := ParseInt(ValueText(value));
    threw := false;
    if count.Int? {
      var missing := doc.ShowFirst(arg, count.n);
      threw := missing.Some?;
    }
  }

  /** `run(f, ids, value)` on the page. */
  method Run(doc: Document, kind: string, arg: Descriptor, value: Option<string>) returns (threw: bool)
    modifies doc
    ensures Step(doc.elements, threw) == RunJs(kind, arg, value, old(doc.elements))
  {
    if kind in Updater.BuiltInSimple && arg.Ids? {
      var ids := arg.ids;
      threw := false;
      var k := 0;
      while k < |ids|
        invariant 0 <= k <= |ids|
        invariant Step(doc.elements, false) == Until(IdStepJs(kind, value), ids[..k], old(doc.elements))
      {
        var before := Step(doc.elements, false);
        threw := Call(doc, kind, Id(ids[k]), value);
        UntilNext(IdStepJs(kind, value), ids, k, old(doc.elements), before, Step(doc.elements, threw));
        if threw {
          return;
        }
        k := k + 1;
      }
      assert ids[..k] == ids;
    } else {
      threw := Call(doc, kind, arg, value);
    }
  }

  /** The locations of one kind on the page, until one throws. */
  method PollKind(doc: Document, kind: string, m: Dict<Descriptor>, grid: Updater.Grid) returns (threw: bool)
    modifies doc
    ensures Step(doc.elements, threw) == KindJs(kind, m, grid, old(doc.elements))
  {
    threw := false;
    var j := 0;
    while j < |m|
      invariant 0 <= j <= |m|
      invariant Step(doc.elements, false) == KindJs(kind, m[..j], grid, old(doc.elements))
    {
      var before := Step(doc.elements, false);
      var read := LookupJs(grid, m[j].key);
      if read.Throw? {
        threw := true;
      } else {
        threw := Run(doc, kind, m[j].value, read.value);
      }
      UntilNext(EntryStepJs(kind, grid), m, j, old(doc.elements), before, Step(doc.elements, threw));
      if threw {
        return;
      }
      j := j + 1;
    }
    assert m[..j] == m;
  }

  /** One poll of Updater.js: the fetched response is written into the
      page until something throws. */
  method Poll(doc: Document, arrayMap: Dict<Dict<Descriptor>>, fetched: Updater.Fetched) returns (rejected: bool)
    modifies doc
    ensures Step(doc.elements, rejected) == UpdateJs(arrayMap, fetched, old(doc.elements))
  {
    if fetched.Failed? {
      return true;
    }
    if fetched.values.None? {
      return Updater.HasEntries(arrayMap);
    }
    var grid := fetched.values.value;
    rejected := false;
    var i := 0;
    while i < |arrayMap|
      invariant 0 <= i <= |arrayMap|
      invariant Step(doc.elements, false) == CycleJs(arrayMap[..i], grid, old(doc.elements))
    {
      var before := Step(doc.elements, false);
      rejected := PollKind(doc, arrayMap[i].key, arrayMap[i].value, grid);
      UntilNext(KindStepJs(grid), arrayMap, i, old(doc.elements), before, Step(doc.elements, rejected));
      if rejected {
        return;
      }
      i := i + 1;
    }
    assert arrayMap[..i] == arrayMap;
  }
}
