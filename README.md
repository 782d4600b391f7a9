# GraphicsUpdater, modelled in Dafny

GraphicsUpdater keeps a web overlay in step with a Google Sheets worksheet. It
is configured with a settings object: for each kind of update (`string`, `image`,
`counter`, `switch`, or one added later), a map from cell names such as `"B3"`
to the element ids that cell drives. The updater does the following:

- It turns the cell names into the smallest rectangle of the sheet that covers
  them, and the range text (`"A1:F7"`) that asks the Sheets API for that
  rectangle.
- It turns each cell name into a location, the cell's column and row offsets
  from the rectangle's top-left corner, written `"dc,dr"`.
- On every poll, it reads each location's value from the response's columns,
  then hands the value and the settings entry to the kind's handler. The
  handler writes the text, sets the image source, shows the first n tallies
  of a counter, or shows the one element of a switch whose key matches.

This project models two versions of that engine:

- `Updater.ts`, the current one. It skips a name the regular expression does
  not match at all (a name with no letter and no digit), reads a missing cell
  as the empty text, warns instead of throwing, catches an
  exception in one entry and goes on, and lets handlers be added.
- `Updater.js`, the older one. It throws on a name the regular expression does
  not match at all, and its location keeps any further runs of the name
  (`"A1B2"` gives `"dc,dr,NaN,…"`, and `"A1Infinity"` gives
  `"dc,dr,Infinity"`). Other names that are not cell names, such as `"Total"`
  or `"A"`, are neither skipped nor thrown on in either version. A column the response lacks throws, and a missing row
  reads `undefined`. Its handlers throw at a missing element, and the first
  exception ends the poll.

Modules, one per file:

- `Base` (`base.dfy`): optional values, JavaScript completions (normal or
  thrown), numbers that may be infinite or NaN, and JavaScript objects as ordered lists of
  properties, with property read and write.
- `Text` (`text.dfy`):
  - the regular expression `/[a-zA-Z]+|[0-9]+/g`, as runs of letters and digits;
  - number to text, and `split`;
  - `parseInt`, with optional sign, leading white space and `0x` prefix;
  - array index keys.
- `Columns` (`columns.dfy`):
  - `colToIndex` and `indexToCol`, as the source's loops, proved against the
    bijective base-26 numbering;
  - round trips both ways between that numbering and column labels.
- `Layout` (`layout.dfy`): the constructor's configuration work.
  - The cells needed, with the TypeScript null skip.
  - The covering rectangle and the range text.
  - `arrayMap` for both versions' key formats.
- `Overlay` (`overlay.dfy`):
  - the page, as a `Document` whose elements the handlers update in place;
  - the display writes of the counter's two loops and the switch's loop, as
    write sequences that stop at the first missing element.
- `Updater` (`updater.dfy`): the Updater.ts engine.
  - Cell lookup, the four handlers and the simple-kind fan-out.
  - The poll, whose entries each catch their own exception.
  - The `GraphicsUpdater` class: its configuration, its handler registry
    (`addOperation`, `importPreset`) and its `updating` flag.
- `UpdaterJs` (`updater_js.dfy`): the Updater.js lookup, handlers and poll, in
  which the first exception ends the poll.

Each imperative operation is a method proved against a function. The methods
are `colToIndex`, `indexToCol`, collecting the cells, building `arrayMap`,
each handler's loops, and each poll. Lemmas about those functions state what
the source promises.

Where a comment in the source and its code disagree, the model follows the
code:

- Updater.ts:121-125 says a counter value that fails to parse defaults to 0.
  But `parseInt` gives NaN, whose type is `number`, so the default never
  applies. Both of the counter's loops then skip, and the page is left as it
  was with no warning (`Updater.CounterNaNChangesNothing`).
- Updater.js:77-80 catches an exception from `parseInt`. `parseInt` of a
  string or `undefined` never throws, so the model has no such path.

## Model

| member | source | states |
|---|---|---|
| Base.GetFindsKey | Updater.ts:274 | a property read finds a value exactly when the object has a property of that name (`name in this.operations`) |
| Base.GetAtIndex | Updater.ts:229 | reading the key of the i-th enumerated property of an object gives that property's value |
| Base.GetAssign | Updater.ts:81 | after `d[k] = v`, reading k gives v and every other key reads as before |
| Base.AssignKeepsOrder | Updater.ts:81 | a property write keeps every property in its enumeration place and appends the key only when it is new |
| Base.AssignNew | Updater.ts:71 | writing a new property appends it as the last in enumeration order |
| Base.AssignDistinct | Updater.ts:81 | property writes never create two properties with the same name |
| Base.AssignAllHasKey | Updater.ts:72-82 | after a sequence of writes, a key exists exactly when some non-skipped write names it |
| Base.AssignAllLastWins | Updater.ts:72-82 | after a sequence of writes, a key holds the value of the last write that names it |
| Base.AssignAllDistinct | Updater.ts:70-82 | the object built by the writes has no duplicate key |
| Base.AssignAllFresh | Updater.ts:70-71 | writes to distinct new keys build the object listing them in write order |
| Text.RunsOfLettersThenDigits | Updater.ts:38 | the global match of letters followed by digits is exactly the two runs `[letters, digits]` |
| Text.DecimalOfNatText | Updater.ts:81 | the decimal text of n reads back as n |
| Text.IntTextSign | Updater.ts:81 | the text of an integer starts with '-' exactly when the integer is negative |
| Text.IntTextInjective | Updater.ts:81 | two integers with the same text are equal |
| Text.IntTextHasNoComma | Updater.ts:81 | the text of an offset never contains the comma that separates location parts |
| Text.IndexOfIntText | Updater.ts:232-233 | the text of an integer is an array index key exactly when the integer is non-negative, and then it indexes that position |
| Text.IndexOfNatText | Updater.ts:151 | the decimal text of n is the array index key of position n |
| Text.SplitWhole | Updater.ts:230 | splitting a text without the separator gives the text alone |
| Text.SplitAfter | Updater.ts:230 | splitting `a + sep + b` where a has no separator gives a followed by the parts of b |
| Text.ParseIntOfDigits | Updater.ts:46 | parseInt of a non-empty digit run is its decimal value |
| Text.ParseIntOfNatText | Updater.ts:119 | parseInt of the decimal text of n is n |
| Text.ParseIntWithoutDigits | Updater.ts:119 | parseInt of a text with no decimal digit at all is NaN |
| Columns.ColLabel | Updater.ts:329-334 | the column label of n is made of capital letters, and is empty exactly when n < 1 |
| Columns.LetterOf | Updater.ts:331 | the letter for digit d is the capital letter of value d + 1 |
| Columns.ColToIndex | Updater.ts:315-321 | the loop's result is the bijective base-26 value of the column text, each capital letter counting its place in the alphabet plus one and any other character 0 |
| Columns.IndexToCol | Updater.ts:329-334 | the loop's result is the column label of num, and the empty text for num < 1 |
| Columns.ColSumOfLabel | Updater.ts:315-334 | colToIndex of indexToCol(n) is n for every n >= 1 |
| Columns.ColLabelOfSum | Updater.ts:315-334 | indexToCol of colToIndex(s) is s for every non-empty capital-letter text |
| Columns.ColSumPositive | Updater.ts:315-321 | every non-empty capital-letter column has index at least 1 |
| Layout.ParseCellName | Updater.ts:38-46 | the usual name of a cell with column >= 1 is a label whose match gives back that cell |
| Layout.LabelCellsMembers | Updater.ts:37-40 | a cell is collected from one kind's labels exactly when some label of that kind names it |
| Layout.CellsOfMembers | Updater.ts:34-43 | a cell is in cellsNeeded exactly when some label of some kind names it |
| Layout.LabelsStep | Updater.ts:37-40 | one more label appends its cell, if it has one, and records whether its match was null |
| Layout.SettingsStep | Updater.ts:36-41 | one more kind appends its labels' cells and records whether any of its matches was null |
| Layout.CollectLabelCells | Updater.ts:37-40 | the loop over one kind's labels collects exactly their cells in order and reports a null match |
| Layout.CollectCells | Updater.ts:34-43 | the loop over all kinds collects cellsNeeded and reports whether some label did not match |
| Layout.MinOf | Updater.ts:53-54 | Math.min of a non-empty list is a member of it and no greater than any member |
| Layout.MaxOf | Updater.ts:55-56 | Math.max of a non-empty list is a member of it and no smaller than any member |
| Layout.BoundingRect | Updater.ts:49-58 | every needed cell is inside the rectangle, and each of its four edges is reached by some cell |
| Layout.BoundingRectIsLeast | Updater.ts:49-58 | any rectangle holding every needed cell contains the computed one |
| Layout.RangeTextNamesCorners | Updater.ts:61 | the range text splits at ':' into the names of the top-left and bottom-right corners, which parse back to them |
| Layout.NameHasNoColon | Updater.ts:61 | a cell name has no ':' so the range text splits at its own colon only |
| Layout.KeySplits | Updater.ts:81 | splitting a location at commas gives back the texts of its two offsets |
| Layout.KeyTextInjective | Updater.ts:81 | two locations with the same text have the same offsets, so distinct cells never share a location |
| Layout.LabelKeySplits | Updater.ts:73-81 | whatever further runs a label has, its location's first two parts are its column and row offsets, and the TypeScript key has no others |
| Layout.KeyThenPartsSplits | Updater.js:59-60 | a location followed by further comma-led parts still splits into the two offsets first |
| Layout.KindMapHasKey | Updater.ts:72-82 | a location is in a kind's map exactly when some matching label of that kind produces it |
| Layout.KindMapLastWins | Updater.ts:72-82 | a location holds the settings entry of the last label that produces it |
| Layout.KindMapDistinct | Updater.ts:72-82 | a kind's map has no duplicate location |
| Layout.ArrayMapMirrorsSettings | Updater.ts:68-86 | arrayMap has one property per kind of the settings, in the same order, holding that kind's map |
| Layout.LabelInsideRange | Updater.ts:49-80 | the cell of every matching label lies inside the range, so its offsets are between 0 and the range's extent |
| Layout.BuildKindMap | Updater.ts:71-82 | the loop over one kind's labels builds exactly that kind's map |
| Layout.BuildArrayMap | Updater.ts:68-86 | the loop over the kinds builds exactly arrayMap |
| Layout.Build | Updater.ts:49-86 | from cellsNeeded: no range for no cells, else the covering rectangle and its range text, and arrayMap against that rectangle |
| Layout.Compile | Updater.ts:34-86 | the TypeScript configuration: labels whose match is null are skipped, the range covers all other labels, and arrayMap uses two-part keys |
| Layout.CompileJs | Updater.js:19-65 | the JavaScript configuration throws exactly when some label does not match, and otherwise has the same range and keys with further parts |
| Layout.LetterPartsDiffer | Updater.js:57-60 | a further letter run subtracted from a corner gives the part "Infinity" when it is `Infinity` and "NaN" otherwise, so "A1Infinity" and "A1B" are kept under two locations |
| Overlay.SwitchViewReads | Updater.ts:151-153 | an array or string switch enumerates the distinct keys "0", "1", …, and `valueSwitch[key]` of the key of index k is the k-th id (or character); an object switch enumerates its own properties |
| Overlay.Perform | Updater.ts:128-146 | when a write sequence stops, it stops at an id that names no element |
| Overlay.PerformKeepsElements | Updater.ts:128-146 | display writes never add or remove an element |
| Overlay.PerformStops | Updater.ts:128-146 | a write sequence runs to the end exactly when every id names an element, and otherwise stops at the first id that does not |
| Overlay.PerformAppend | Updater.ts:128-146 | the hide loop runs, from the page as the show loop left it, only when the show loop did not stop |
| Overlay.PerformDisplays | Updater.ts:128-146 | with every element present, each element takes the display of the last write naming it |
| Overlay.PerformDistinct | Updater.ts:128-171 | writes to distinct present elements give each its own display and leave every other element unchanged |
| Overlay.CounterWritesOfIds | Updater.ts:128-146 | for 0 <= n <= ids.length the counter writes each id once, "" for the first n and "none" for the rest |
| Overlay.CounterShowsFirst | Updater.ts:128-146 | over distinct present elements, the counter shows exactly the first n and hides the others |
| Overlay.CounterOverflowStops | Updater.ts:128-136 | a count above ids.length shows every tally, then stops at `ids[ids.length]`, which is id "undefined" |
| Overlay.SwitchShowsMatching | Updater.ts:151-171 | over distinct present elements, the switch shows exactly the elements whose key equals the value |
| Overlay.Document.SetHtml | Updater.ts:95-101 | innerHTML of an existing element becomes the text, and a missing id changes nothing and is reported |
| Overlay.Document.SetSrc | Updater.ts:104-110 | the src attribute of an existing element becomes the text, and a missing id changes nothing and is reported |
| Overlay.Document.SetDisplay | Updater.ts:129-134 | the display style of an existing element becomes the value, and a missing id changes nothing and is reported |
| Overlay.Document.ShowTallies | Updater.ts:128-136 | the show loop updates the page as the show writes do, stopping at the first missing element |
| Overlay.Document.HideTallies | Updater.ts:138-146 | the hide loop updates the page as the hide writes do, stopping at the first missing element |
| Overlay.Document.ShowFirst | Updater.ts:128-146 | both counter loops update the page as the counter's write sequence does |
| Overlay.Document.ShowMatching | Updater.ts:151-171 | the switch loop updates the page as its writes do, and when nothing is missing it reports whether some key matched |
| Updater.LookupOfKey | Updater.ts:230-241 | a two-offset location reads the cell at those offsets, and the empty text when there is no such cell |
| Updater.LookupOfLabel | Updater.ts:73-81 | a label's location reads the label's cell, at its offsets from the range's corner |
| Updater.CounterCountCases | Updater.ts:114-125 | an empty cell counts 0, a digit cell counts its value, and a non-empty cell with no digit counts NaN |
| Updater.HandlerTs | Updater.ts:93-175 | the built-in handlers never throw and never add or remove an element |
| Updater.CounterTs | Updater.ts:112-147 | the counter never throws and never adds or removes an element |
| Updater.SwitchTs | Updater.ts:148-174 | the switch never throws and never adds or removes an element |
| Updater.CounterEmptyCellHidesAll | Updater.ts:114-116 | an empty cell hides every tally, without a warning |
| Updater.CounterShowsCount | Updater.ts:119-146 | a cell holding n shows the first n tallies and hides the others, without a warning |
| Updater.CounterNaNChangesNothing | Updater.ts:119-125 | a non-empty cell with no digit leaves the page as it was, without a warning |
| Updater.SwitchWarnsWhenNothingMatches | Updater.ts:148-174 | the switch shows matching keys and hides the rest, and warns exactly when no key equals the value |
| Updater.SimpleHandler | Updater.ts:94-111 | the string and image handlers write the value into an existing element, and warn about a missing one |
| Updater.FanOutDomain | Updater.ts:211-215 | a fan-out of writing handlers neither throws nor adds or removes an element |
| Updater.FanOutWrites | Updater.ts:211-215 | the fan-out writes the value into every listed element and leaves the others as they were |
| Updater.FanOutWarns | Updater.ts:211-215 | the fan-out warns exactly when some listed id names no element |
| Updater.SimpleFanOut | Updater.ts:208-216 | a string or image entry with an array of ids writes all of them, changes nothing else and warns exactly when one is missing |
| Updater.FanOutStops | Updater.ts:211-215 | once a handler in the fan-out throws, the ids after it are not run |
| Updater.EntryTs | Updater.ts:243-248 | one entry never lets an exception escape: when its run throws, the page is what the run left and the warnings end with one naming the entry and the cell value; when it does not throw, the entry is exactly its run |
| Updater.EachCatches | Updater.ts:229-249 | steps that each catch their own exceptions, run in turn, never throw |
| Updater.KindTsNeverThrows | Updater.ts:229-249 | the locations of one kind never let an exception out, because each entry catches its own |
| Updater.EachSplit | Updater.ts:229-249 | the entries in two parts give the second part's page and the warnings of both, in order |
| Updater.KindTsSplit | Updater.ts:229-249 | a failing location does not stop the later locations of its kind |
| Updater.CycleTsNeverThrows | Updater.ts:205-250 | a poll over a fetched response never throws, because no kind does |
| Updater.UpdateTsRejects | Updater.ts:196-250 | a poll rejects exactly when the fetch failed, or when the body has no `values` and some kind has a location |
| Updater.RegisterSpec | Updater.ts:273-284 | addOperation adds a new name with its handler, and marks it simple if asked. A taken name changes nothing and warns. Registry consistency is preserved |
| Updater.SimpleKindsHaveHandlers | Updater.ts:208-216 | in a consistent registry every simple kind has a handler |
| Updater.BuiltInsOk | Updater.ts:89-175 | the built-in registry is consistent: both simple kinds have handlers and names are distinct |
| Updater.CallHandler | Updater.ts:208-224 | calling a kind's handler on the page does what the handler's function says, and calling a missing one throws |
| Updater.WriteHtml | Updater.ts:94-102 | the string handler on the page does what its function says |
| Updater.WriteSrc | Updater.ts:103-111 | the image handler on the page does what its function says |
| Updater.ShowCount | Updater.ts:112-147 | the counter handler's count and loops on the page do what its function says |
| Updater.ShowSwitch | Updater.ts:148-174 | the switch handler's loop and warning on the page do what its function says |
| Updater.Run | Updater.ts:208-224 | the run wrapper on the page fans array entries of simple kinds out over their ids, stopping at a throw |
| Updater.GraphicsUpdater.constructor | Updater.ts:29-182 | the range and range text cover every matching label, arrayMap is compiled against them, the registry holds the four built-ins, and updating starts as asked |
| Updater.GraphicsUpdater.Update | Updater.ts:188-251 | one poll updates the page as the poll function says: a failed fetch rejects, a body without values rejects when there is any location, otherwise every location runs |
| Updater.GraphicsUpdater.UpdateKind | Updater.ts:229-249 | the loop over one kind's locations updates the page as that kind's function says |
| Updater.GraphicsUpdater.AddOperation | Updater.ts:273-284 | the registry changes as addOperation specifies, keeps its consistency, and nothing else changes |
| Updater.GraphicsUpdater.ImportPreset | Updater.ts:290-292 | importing a preset is addOperation with the preset's name, handler and flag |
| Updater.GraphicsUpdater.StartUpdating | Updater.ts:297-307 | after startUpdating the updater is updating, and a second call only warns |
| UpdaterJs.LookupJsOfKey | Updater.js:149-150 | a location reads the cell at its first two parts, throws when the column is missing, and reads undefined when the row is |
| UpdaterJs.LookupJsOfLabel | Updater.js:57-60 | a label's location, further parts and all, is read at the label's offsets from the range's corner |
| UpdaterJs.OperationJsIsBuiltIns | Updater.js:71-98 | Updater.js has the same four handlers under the same names as Updater.ts |
| UpdaterJs.CounterJsShowsFirst | Updater.js:74-87 | a cell holding n, 0 <= n <= ids.length, shows the first n tallies and hides the rest, without throwing |
| UpdaterJs.CounterJsBlankChangesNothing | Updater.js:76-86 | an empty cell or a missing row parses to NaN, and the page is left as it was |
| UpdaterJs.UndefinedIsNaN | Updater.js:76 | parseInt of undefined is NaN |
| UpdaterJs.EmptyCellVersionsDiffer | Updater.js:74-87 | on an empty cell Updater.js leaves every tally as it was, where Updater.ts hides them all |
| UpdaterJs.CounterJsOverflowThrows | Updater.js:81-83 | a count above ids.length shows every tally and then throws at the missing `ids[ids.length]` |
| UpdaterJs.SwitchJsShowsMatching | Updater.js:88-97 | over distinct present elements, the switch shows exactly the elements whose key equals the value, and does not throw |
| UpdaterJs.SwitchJsUndefinedHidesAll | Updater.js:88-97 | a missing row reads undefined, which equals no key, so every element of the switch is hidden |
| UpdaterJs.UntilSplit | Updater.js:125-152 | a run in two parts runs the second part only when the first did not throw |
| UpdaterJs.UntilPrefix | Updater.js:125-152 | once part of a run has thrown, nothing after it runs |
| UpdaterJs.UntilThrows | Updater.js:72-73 | writing handlers over a list of ids throw exactly when some id names no element |
| UpdaterJs.UntilWrites | Updater.js:131-133 | when every id names an element, writing handlers write each one and leave the others as they were |
| UpdaterJs.SimpleFanOutJs | Updater.js:126-138 | a string or image entry with an array of ids throws exactly when one is missing, and otherwise writes each of them |
| UpdaterJs.MissingColumnAborts | Updater.js:148-151 | a location whose column the response lacks throws, and no later location of the kind runs |
| UpdaterJs.ThrowingKindEndsPoll | Updater.js:125-152 | a kind that throws ends the poll, and the later kinds do not run |
| UpdaterJs.Call | Updater.js:71-98 | a handler of Updater.js run on the page does what its function says, and a missing handler throws |
| UpdaterJs.Count | Updater.js:74-87 | the counter's parse and loops on the page do what its function says |
| UpdaterJs.Run | Updater.js:126-143 | the run wrapper on the page fans array entries of simple kinds out over their ids and stops at the first throw |
| UpdaterJs.PollKind | Updater.js:148-151 | the loop over one kind's locations updates the page as that kind's function says, and stops at the first throw |
| UpdaterJs.Poll | Updater.js:108-153 | one poll updates the page as the poll function says: a failed fetch rejects, a body without values rejects when there is any location, and otherwise the kinds run until one throws |

## Left out

- Fetch, the network and the JSON body are not modelled. The response is a
  parameter: it failed, it has no `values`, or it has columns of cell texts.
- Timers, `async` and the request URL are not modelled. `setInterval` and the
  first `update()` called from `startUpdating` and from the Updater.js
  constructor are left out. The model keeps only the `updating` flag.
- `console.warn` is modelled as a returned list of warnings. The warning
  texts are not modelled.
- The DOM is modelled as a map from ids to elements with `innerHTML`, `src`
  and `display`. Nothing else of the page is modelled.
- Handlers added with `addOperation` are modelled as opaque handlers, whose
  effect is a function parameter of the poll.
  - A thrown value is assumed to have a `toString` method. A handler that
    throws `null` or `undefined` makes the catch block at Updater.ts:247
    throw in turn; the poll then rejects and the later locations and kinds
    do not run. The model does not capture this, so Updater.EntryTs,
    Updater.KindTsNeverThrows, Updater.CycleTsNeverThrows and
    Updater.UpdateTsRejects hold only for handlers that never throw `null`
    or `undefined`.
- The preset files are not part of this model. A preset is modelled by its
  name, handler and simple flag only.
- Layout.Compile, Layout.CompileJs, Layout.CollectCells,
  Updater.GraphicsUpdater.constructor and every other member that requires
  `LabelOk`, `LabelsOk` or `SettingsOk` exclude some labels. They require each
  label either not to match the regular expression at all, or to match in at
  least two runs, the second of them digits. The members are:
  - in `Layout`: ParseLabel, CellOf, LabelCells, CellsOf, LabelCellsMembers,
    CellsOfMembers, LabelsStep, SettingsStep, CollectLabelCells, CollectCells,
    LabelKey, LabelKeySplits, LabelWrite, KeyedWrites, KindMap, ArrayMapOf,
    KindWrites, WritesKey, WritesKeyIsWritesAt, KindMapHasKey,
    KindMapLastWins, KindMapDistinct, ArrayMapMirrorsSettings,
    LabelInsideRange, BuildKindMap, BuildArrayMap, Compile, CompileJs and
    Build;
  - Updater.LookupOfLabel, Updater.GraphicsUpdater.constructor and
    UpdaterJs.LookupJsOfLabel.

  For any other label, such as `"Total"` or `"A"`, the source computes a NaN
  row, and so NaN keys and a NaN range, which the model does not carry.
- Layout.Compile and Layout.CompileJs give no range when no label names a
  cell. The source then computes infinite bounds and a range text made of
  them.
- Settings values are modelled as one id, an array of ids, or an object of
  strings. Other JavaScript values are not modelled, and neither is an object
  with a `length` property used as a counter.
- Object key order is modelled as insertion order. JavaScript lists
  integer-like keys first, so a settings kind named like an integer would be
  visited earlier in the source.
- `name in this.operations` also finds names inherited from
  `Object.prototype`, such as `toString`. The model's registry has only its
  own names.
- Array properties other than indices, such as `cells["length"]`, are not
  modelled. No location the model produces has such a name.
- Numbers are unbounded integers. `Math.pow` precision limits and the 2^32
  array length limit are not modelled.
- `parseInt` of a float printed in exponent notation is not modelled. In
  Updater.js `indexToCol` that happens only for columns of six or more
  letters.
- The `cellRange` field is a ghost field. The class keeps the range text,
  which the source builds from it.
