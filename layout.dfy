/** The configuration compiler of GraphicsUpdater's constructor: the cells the
    settings name, the smallest rectangle that covers them, the range text of
    the one request made per poll, and `arrayMap`, the settings re-keyed by
    each cell's offset from the rectangle's top-left corner. Both versions of
    the updater are covered: Updater.ts keys an entry by `"c,r"` and skips a
    label the regex does not match; Updater.js keys it by every run of the
    label and throws on such a label. */
module Layout {
  import opened Base
  import opened Text
  import opened Columns

  /** A cell's 1-based column number and its row number. */
  datatype Cell = Cell(col: nat, row: nat)

  /** `cellRange`: the corners of a rectangle of cells, both included. */
  datatype Rect = Rect(minCol: nat, minRow: nat, maxCol: nat, maxRow: nat)

  /** The settings object: operation kind to (cell label to descriptor). */
  type Settings = Dict<Dict<Descriptor>>

  /** What the constructor leaves behind: the covering rectangle and its
      range text (None when no label names a cell), and `arrayMap`. */
  datatype Config = Config(range: Option<Rect>, rangeText: Option<string>, arrayMap: Dict<Dict<Descriptor>>)

  /** A label whose regex match is null, or whose second run is a digit run.
      These are exactly the labels for which `[colToIndex(coords[0]),
      parseInt(coords[1])]` is a pair of integers; for any other label the
      row is NaN. */
  predicate LabelOk(name: string)
  {
    var runs := Runs(name);
    |runs| != 1 && (|runs| >= 2 ==> AllDigits(runs[1]))
  }

  predicate LabelsOk(labels: Dict<Descriptor>)
  {
    forall j :: 0 <= j < |labels| ==> LabelOk(labels[j].key)
  }

  predicate SettingsOk(settings: Settings)
  {
    forall i :: 0 <= i < |settings| ==> LabelsOk(settings[i].value)
  }

  /** The cell a label names, from the first two runs of its match (any
      further runs are ignored); None when the match is null. The column
      counts only upper-case letters, as colToIndex does. */
  function ParseLabel(name: string): Option<Cell>
    requires LabelOk(name)
  {
    var runs := Runs(name);
    if runs == [] then None else Some(Cell(ColSum(runs[0]), DecimalValue(runs[1])))
  }

  /** The usual name of a cell, such as "AA12". */
  function CellName(c: Cell): string
  {
    ColLabel(c.col) + NatText(c.row)
  }

  /** A cell's usual name parses back to that cell. */
  lemma ParseCellName(c: Cell)
    requires c.col >= 1
    ensures LabelOk(CellName(c)) && ParseLabel(CellName(c)) == Some(c)
  {
    var letters, digits := ColLabel(c.col), NatText(c.row);
    assert AllLetters(letters);
    RunsOfLettersThenDigits(letters, digits);
    ColSumOfLabel(c.col);
    DecimalOfNatText(c.row);
  }

  function CellOf(name: string): seq<Cell>
    requires LabelOk(name)
  {
    match ParseLabel(name)
    case None => []
    case Some(c) => [c]
  }

  /** The cells one kind's labels name, in order. */
  function LabelCells(labels: Dict<Descriptor>): seq<Cell>
    requires LabelsOk(labels)
  {
    if labels == [] then []
    else LabelCells(labels[..|labels| - 1]) + CellOf(labels[|labels| - 1].key)
  }

  /** `cellsNumeric`: the cells all labels of all kinds name. */
  function CellsOf(settings: Settings): seq<Cell>
    requires SettingsOk(settings)
  {
    if settings == [] then []
    else CellsOf(settings[..|settings| - 1]) + LabelCells(settings[|settings| - 1].value)
  }

  /** Some label has no letter or digit run at all: its match is null. */
  predicate Unmatched(labels: Dict<Descriptor>)
  {
    exists j :: 0 <= j < |labels| && Runs(labels[j].key) == []
  }

  /** Some label of some kind has a null match. */
  predicate AnyUnmatched(settings: Settings)
  {
    exists i :: 0 <= i < |settings| && Unmatched(settings[i].value)
  }

  /** Label j of one kind names cell c. */
  predicate LabelNames(labels: Dict<Descriptor>, j: int, c: Cell)
  {
    0 <= j < |labels| && LabelOk(labels[j].key) && ParseLabel(labels[j].key) == Some(c)
  }

  /** Label j of kind i names cell c. */
  predicate SettingNames(settings: Settings, i: int, j: int, c: Cell)
  {
    0 <= i < |settings| && LabelNames(settings[i].value, j, c)
  }

  /** A cell is collected from one kind exactly when one of its labels names it. */
  lemma {:induction false} LabelCellsMembers(labels: Dict<Descriptor>, c: Cell)
    requires LabelsOk(labels)
    ensures c in LabelCells(labels) <==> exists j :: LabelNames(labels, j, c)
  {
    if labels != [] {
      var n := |labels| - 1;
      var init := labels[..n];
      LabelCellsMembers(init, c);
      assert LabelCells(labels) == LabelCells(init) + CellOf(labels[n].key);
      if c in LabelCells(labels) {
        if c in LabelCells(init) {
          var j :| LabelNames(init, j, c);
          assert labels[j] == init[j];
          assert LabelNames(labels, j, c);
        } else {
          assert LabelNames(labels, n, c);
        }
      }
      if exists j :: LabelNames(labels, j, c) {
        var j :| LabelNames(labels, j, c);
        if j < n {
          assert init[j] == labels[j];
          assert LabelNames(init, j, c);
        }
      }
    }
  }

  /** A cell is collected exactly when some label of some kind names it. */
  lemma {:induction false} CellsOfMembers(settings: Settings, c: Cell)
    requires SettingsOk(settings)
    ensures c in CellsOf(settings) <==> exists i, j :: SettingNames(settings, i, j, c)
  {
    if settings != [] {
      var n := |settings| - 1;
      var init := settings[..n];
      CellsOfMembers(init, c);
      LabelCellsMembers(settings[n].value, c);
      assert CellsOf(settings) == CellsOf(init) + LabelCells(settings[n].value);
      if c in CellsOf(settings) {
        if c in CellsOf(init) {
          var i, j :| SettingNames(init, i, j, c);
          assert settings[i] == init[i];
          assert SettingNames(settings, i, j, c);
        } else {
          var j :| LabelNames(settings[n].value, j, c);
          assert SettingNames(settings, n, j, c);
        }
      }
      if exists i, j :: SettingNames(settings, i, j, c) {
        var i, j :| SettingNames(settings, i, j, c);
        if i < n {
          assert init[i] == settings[i];
          assert SettingNames(init, i, j, c);
        }
      }
    }
  }

  /** One more label adds its cell, if any, and its match. */
  lemma LabelsStep(labels: Dict<Descriptor>, j: nat)
    requires LabelsOk(labels) && j < |labels|
    ensures LabelsOk(labels[..j]) && LabelsOk(labels[..j + 1])
    ensures LabelCells(labels[..j + 1]) == LabelCells(labels[..j]) + CellOf(labels[j].key)
    ensures Unmatched(labels[..j + 1]) <==> Unmatched(labels[..j]) || Runs(labels[j].key) == []
  {
    var next := labels[..j + 1];
    assert next[..j] == labels[..j];
    assert next[j] == labels[j];
    if Unmatched(next) {
      var k :| 0 <= k < |next| && Runs(next[k].key) == [];
      assert k < j ==> labels[..j][k] == next[k];
    }
  }

  /** One more kind adds the cells of its labels and their matches. */
  lemma SettingsStep(settings: Settings, i: nat)
    requires SettingsOk(settings) && i < |settings|
    ensures SettingsOk(settings[..i]) && SettingsOk(settings[..i + 1])
    ensures CellsOf(settings[..i + 1]) == CellsOf(settings[..i]) + LabelCells(settings[i].value)
    ensures AnyUnmatched(settings[..i + 1]) <==> AnyUnmatched(settings[..i]) || Unmatched(settings[i].value)
  {
    var prev, next := settings[..i], settings[..i + 1];
    assert next[..i] == prev;
    assert next[i] == settings[i];
    UnmatchedStep(settings, i);
  }

  lemma UnmatchedStep(settings: Settings, i: nat)
    requires i < |settings|
    ensures AnyUnmatched(settings[..i + 1]) <==> AnyUnmatched(settings[..i]) || Unmatched(settings[i].value)
  {
    var prev, next := settings[..i], settings[..i + 1];
    if AnyUnmatched(next) {
      var k :| 0 <= k < |next| && Unmatched(next[k].value);
      assert k < i ==> prev[k] == next[k];
    }
    if AnyUnmatched(prev) {
      var k :| 0 <= k < |prev| && Unmatched(prev[k].value);
      assert next[k] == prev[k];
    }
    if Unmatched(settings[i].value) {
      assert Unmatched(next[i].value);
    }
  }

  /** The cells of one kind's labels, as the constructor's inner loop
      collects them; it also reports whether some label's match was null
      (Updater.ts skips such a label, Updater.js pushes the null and fails
      on it). */
  method CollectLabelCells(labels: Dict<Descriptor>) returns (cells: seq<Cell>, sawNull: bool)
    requires LabelsOk(labels)
    ensures cells == LabelCells(labels)
    ensures sawNull == Unmatched(labels)
  {
    cells, sawNull := [], false;
    var j := 0;
    assert LabelsOk(labels[..0]);
    while j < |labels|
      invariant 0 <= j <= |labels|
      invariant LabelsOk(labels[..j])
      invariant cells == LabelCells(labels[..j])
      invariant sawNull == Unmatched(labels[..j])
    {
      LabelsStep(labels, j);
      var runs := Runs(labels[j].key);
      if runs == [] {
        sawNull := true;
      } else {
        var col := ColToIndex(runs[0]);
        cells := cells + [Cell(col, DecimalValue(runs[1]))];
      }
      j := j + 1;
    }
    assert labels[..j] == labels;
  }

  /** `cellsNumeric`, collected by the constructor's nested loops. */
  method CollectCells(settings: Settings) returns (cells: seq<Cell>, sawNull: bool)
    requires SettingsOk(settings)
    ensures cells == CellsOf(settings)
    ensures sawNull == AnyUnmatched(settings)
  {
    cells, sawNull := [], false;
    var i := 0;
    assert SettingsOk(settings[..0]);
    while i < |settings|
      invariant 0 <= i <= |settings|
      invariant SettingsOk(settings[..i])
      invariant cells == CellsOf(settings[..i])
      invariant sawNull == AnyUnmatched(settings[..i])
    {
      SettingsStep(settings, i);
      var more, missing := CollectLabelCells(settings[i].value);
      cells, sawNull := cells + more, sawNull || missing;
      i := i + 1;
    }
    assert settings[..i] == settings;
  }

  predicate Inside(c: Cell, r: Rect)
  {
    r.minCol <= c.col <= r.maxCol && r.minRow <= c.row <= r.maxRow
  }

  /** `Math.min(...xs)` for a non-empty list. */
  function MinOf(xs: seq<nat>): (m: nat)
    requires |xs| > 0
    ensures m in xs && forall k :: 0 <= k < |xs| ==> m <= xs[k]
  {
    if |xs| == 1 then xs[0]
    else
      var rest := MinOf(xs[1..]);
      if xs[0] <= rest then xs[0] else rest
  }

  /** `Math.max(...xs)` for a non-empty list. */
  function MaxOf(xs: seq<nat>): (m: nat)
    requires |xs| > 0
    ensures m in xs && forall k :: 0 <= k < |xs| ==> xs[k] <= m
  {
    if |xs| == 1 then xs[0]
    else
      var rest := MaxOf(xs[1..]);
      if xs[0] >= rest then xs[0] else rest
  }

  function Cols(cells: seq<Cell>): seq<nat>
  {
    seq(|cells|, k requires 0 <= k < |cells| => cells[k].col)
  }

  function Rows(cells: seq<Cell>): seq<nat>
  {
    seq(|cells|, k requires 0 <= k < |cells| => cells[k].row)
  }

  /** `cellRange`: the componentwise minimum and maximum of the cells. Every
      cell lies inside it, and each of its four sides passes through a cell. */
  function BoundingRect(cells: seq<Cell>): (r: Rect)
    requires |cells| > 0
    ensures forall k :: 0 <= k < |cells| ==> Inside(cells[k], r)
    ensures exists k :: 0 <= k < |cells| && cells[k].col == r.minCol
    ensures exists k :: 0 <= k < |cells| && cells[k].row == r.minRow
    ensures exists k :: 0 <= k < |cells| && cells[k].col == r.maxCol
    ensures exists k :: 0 <= k < |cells| && cells[k].row == r.maxRow
  {
    var cols, rows := Cols(cells), Rows(cells);
    assert forall k :: 0 <= k < |cells| ==> cols[k] == cells[k].col && rows[k] == cells[k].row;
    Rect(MinOf(cols), MinOf(rows), MaxOf(cols), MaxOf(rows))
  }

  /** No smaller rectangle covers the cells: any rectangle that covers them
      all contains the bounding rectangle. */
  lemma BoundingRectIsLeast(cells: seq<Cell>, other: Rect)
    requires |cells| > 0
    requires forall k :: 0 <= k < |cells| ==> Inside(cells[k], other)
    ensures var r := BoundingRect(cells);
      other.minCol <= r.minCol && other.minRow <= r.minRow && r.maxCol <= other.maxCol && r.maxRow <= other.maxRow
  {
    var r := BoundingRect(cells);
    var a :| 0 <= a < |cells| && cells[a].col == r.minCol;
    var b :| 0 <= b < |cells| && cells[b].row == r.minRow;
    var c :| 0 <= c < |cells| && cells[c].col == r.maxCol;
    var d :| 0 <= d < |cells| && cells[d].row == r.maxRow;
    assert Inside(cells[a], other) && Inside(cells[b], other) && Inside(cells[c], other) && Inside(cells[d], other);
  }

  /** `rangeText`: "{indexToCol(minCol)}{minRow}:{indexToCol(maxCol)}{maxRow}". */
  function RangeText(r: Rect): string
  {
    CellName(Cell(r.minCol, r.minRow)) + ":" + CellName(Cell(r.maxCol, r.maxRow))
  }

  /** The range text names the rectangle's two corners: split at the colon,
      each half parses back to its corner. */
  lemma RangeTextNamesCorners(r: Rect)
    requires r.minCol >= 1 && r.minCol <= r.maxCol
    ensures var parts := Split(RangeText(r), ':');
      |parts| == 2 && LabelOk(parts[0]) && LabelOk(parts[1])
      && ParseLabel(parts[0]) == Some(Cell(r.minCol, r.minRow))
      && ParseLabel(parts[1]) == Some(Cell(r.maxCol, r.maxRow))
  {
    var a, b := CellName(Cell(r.minCol, r.minRow)), CellName(Cell(r.maxCol, r.maxRow));
    NameHasNoColon(Cell(r.minCol, r.minRow));
    NameHasNoColon(Cell(r.maxCol, r.maxRow));
    SplitAfter(a, ':', b);
    SplitWhole(b, ':');
    ParseCellName(Cell(r.minCol, r.minRow));
    ParseCellName(Cell(r.maxCol, r.maxRow));
  }

  lemma NameHasNoColon(c: Cell)
    ensures ':' !in CellName(c)
  {
    var l, d := ColLabel(c.col), NatText(c.row);
    assert forall k :: 0 <= k < |l| ==> l[k] != ':' by {
      forall k | 0 <= k < |l| ensures l[k] != ':' { assert IsUpper(l[k]); }
    }
    assert forall k :: 0 <= k < |d| ==> d[k] != ':' by {
      forall k | 0 <= k < |d| ensures d[k] != ':' { assert IsDigit(d[k]); }
    }
    assert forall k :: 0 <= k < |l + d| ==> (l + d)[k] != ':' by {
      forall k | 0 <= k < |l + d| ensures (l + d)[k] != ':' {
        if k < |l| { assert (l + d)[k] == l[k]; } else { assert (l + d)[k] == d[k - |l|]; }
      }
    }
  }

  /** `relativeCoords.toString()`: the text of a pair of integers. */
  function KeyText(dc: int, dr: int): string
  {
    IntText(dc) + "," + IntText(dr)
  }

  /** `locationString.split(',')` gives back the two coordinates' texts. */
  lemma KeySplits(dc: int, dr: int)
    ensures Split(KeyText(dc, dr), ',') == [IntText(dc), IntText(dr)]
  {
    IntTextHasNoComma(dc);
    IntTextHasNoComma(dr);
    SplitAfter(IntText(dc), ',', IntText(dr));
    SplitWhole(IntText(dr), ',');
  }

  /** Two pairs have the same key text only if they are the same pair. */
  lemma KeyTextInjective(dc: int, dr: int, dc': int, dr': int)
    requires KeyText(dc, dr) == KeyText(dc', dr')
    ensures dc == dc' && dr == dr'
  {
    KeySplits(dc, dr);
    KeySplits(dc', dr');
    IntTextInjective(dc, dc');
    IntTextInjective(dr, dr');
  }

  /** `x - y` for a run's number and a corner, which is never infinite:
      NaN when either is NaN, and infinity minus an integer stays infinite. */
  function Minus(x: Num, y: Num): Num
    requires !y.Inf?
  {
    if x.NaN? || y.NaN? then NaN else if x.Inf? then Inf else Int(x.n - y.n)
  }

  /** `Number(run)` for a run of the match: a digit run is its decimal value,
      the letter run "Infinity" is infinite, and any other letters give NaN. */
  function RunNumber(run: string): Num
  {
    if AllDigits(run) then Int(DecimalValue(run)) else if run == "Infinity" then Inf else NaN
  }

  /** `cellRange[k]`, undefined (NaN in arithmetic) past its four entries. */
  function Corner(r: Rect, k: nat): Num
  {
    if k == 0 then Int(r.minCol) else if k == 1 then Int(r.minRow)
    else if k == 2 then Int(r.maxCol) else if k == 3 then Int(r.maxRow) else NaN
  }

  /** Updater.js keys an entry by `coords.map((v, i) => v - cellRange[i])`:
      these are the parts for the runs past the first two, each with its
      leading comma. */
  function ExtraParts(runs: seq<string>, k: nat, r: Rect): string
    decreases |runs| - k
  {
    if k >= |runs| then ""
    else "," + NumText(Minus(RunNumber(runs[k]), Corner(r, k))) + ExtraParts(runs, k + 1, r)
  }

  /** The key a label's entry is stored under in `arrayMap[kind]`:
      the column and row offsets from the top-left corner, and in the
      Updater.js version the offsets of every further run. */
  function LabelKey(name: string, r: Rect, js: bool): string
    requires LabelOk(name) && Runs(name) != []
  {
    KeyOfRuns(Runs(name), r, js)
  }

  /** The key, from the runs of the label's match. */
  function KeyOfRuns(runs: seq<string>, r: Rect, js: bool): string
    requires |runs| >= 2
  {
    KeyHead(runs[0], runs[1], r) + (if js then ExtraParts(runs, 2, r) else "")
  }

  /** The column and row offsets of a label's first two runs, as a location. */
  function KeyHead(col: string, row: string, r: Rect): string
  {
    KeyText(ColSum(col) - r.minCol, DecimalValue(row) - r.minRow)
  }

  lemma {:induction false} ExtraPartsShape(runs: seq<string>, k: nat, r: Rect)
    ensures ExtraParts(runs, k, r) == [] || ExtraParts(runs, k, r)[0] == ','
    decreases |runs| - k
  {
  }

  /** In Updater.js a letter run at place 2 or 3 is subtracted from a corner:
      the run "Infinity" gives the part "Infinity", any other letters "NaN".
      So "A1Infinity" and "A1B" are kept under two distinct locations. */
  lemma LetterPartsDiffer(col: string, row: string, other: string, r: Rect)
    requires |other| > 0 && AllLetters(other) && other != "Infinity"
    ensures ExtraParts([col, row, "Infinity"], 2, r) == ",Infinity"
    ensures ExtraParts([col, row, other], 2, r) == ",NaN"
    ensures KeyOfRuns([col, row, "Infinity"], r, true) != KeyOfRuns([col, row, other], r, true)
  {
    var inf, oth := [col, row, "Infinity"], [col, row, other];
    assert RunNumber(inf[2]) == Inf by { assert !IsDigit(inf[2][0]); }
    assert RunNumber(oth[2]) == NaN by { assert IsLetter(other[0]); }
    assert ExtraParts(inf, 3, r) == "" && ExtraParts(oth, 3, r) == "";
    assert ExtraParts(inf, 2, r) == ",Infinity" by { assert ",Infinity" == "," + NumText(Inf) + ""; }
    assert ExtraParts(oth, 2, r) == ",NaN" by { assert ",NaN" == "," + NumText(NaN) + ""; }
    KeysDifferInPart(inf, oth, r);
  }

  /** Two Updater.js keys with the same first two runs and the further parts
      ",Infinity" and ",NaN" differ. */
  lemma KeysDifferInPart(inf: seq<string>, oth: seq<string>, r: Rect)
    requires |inf| >= 2 && |oth| >= 2 && inf[0] == oth[0] && inf[1] == oth[1]
    requires ExtraParts(inf, 2, r) == ",Infinity" && ExtraParts(oth, 2, r) == ",NaN"
    ensures KeyOfRuns(inf, r, true) != KeyOfRuns(oth, r, true)
  {
    var key := KeyHead(inf[0], inf[1], r);
    var ka, kb := KeyOfRuns(inf, r, true), KeyOfRuns(oth, r, true);
    assert ka[|key| + 1] == 'I' && kb[|key| + 1] == 'N';
  }

  /** Whatever further runs a label has, splitting its key at commas gives
      the column and row offsets first: both versions look up the same cell. */
  lemma {:induction false} LabelKeySplits(name: string, r: Rect, js: bool)
    requires LabelOk(name) && Runs(name) != []
    ensures var c := ParseLabel(name).value;
      var parts := Split(LabelKey(name, r, js), ',');
      |parts| >= 2 && parts[0] == IntText(c.col - r.minCol) && parts[1] == IntText(c.row - r.minRow)
      && (!js ==> |parts| == 2)
  {
    var c := ParseLabel(name).value;
    var extra := if js then ExtraParts(Runs(name), 2, r) else "";
    ExtraPartsShape(Runs(name), 2, r);
    assert LabelKey(name, r, js) == KeyText(c.col - r.minCol, c.row - r.minRow) + extra;
    KeyThenPartsSplits(c.col - r.minCol, c.row - r.minRow, extra);
  }

  /** A key followed by further comma-led parts splits into the two offsets
      first, and into exactly them when nothing follows. */
  lemma {:induction false} KeyThenPartsSplits(dc: int, dr: int, extra: string)
    requires extra == [] || extra[0] == ','
    ensures var parts := Split(KeyText(dc, dr) + extra, ',');
      |parts| >= 2 && parts[0] == IntText(dc) && parts[1] == IntText(dr)
      && (extra == [] ==> |parts| == 2)
  {
    var a, b := IntText(dc), IntText(dr);
    IntTextHasNoComma(dc);
    IntTextHasNoComma(dr);
    assert KeyText(dc, dr) + extra == a + [','] + (b + extra);
    SplitAfter(a, ',', b + extra);
    var tail := Split(b + extra, ',');
    if extra == [] {
      assert b + extra == b;
      SplitWhole(b, ',');
      assert tail == [b];
    } else {
      assert b + extra == b + [','] + extra[1..];
      SplitAfter(b, ',', extra[1..]);
      assert tail[0] == b;
    }
  }

  /** The write a label makes into `arrayMap[kind]`: its settings value
      under its key, or none for a label with no match. */
  function LabelWrite(labelEntry: Entry<Descriptor>, r: Rect, js: bool): Option<Entry<Descriptor>>
    requires LabelOk(labelEntry.key)
  {
    if Runs(labelEntry.key) == [] then None else Some(Entry(LabelKey(labelEntry.key, r, js), labelEntry.value))
  }

  /** The writes of all labels of a kind, in order. */
  function KeyedWrites(labels: Dict<Descriptor>, r: Rect, js: bool): (writes: seq<Option<Entry<Descriptor>>>)
    requires LabelsOk(labels)
    ensures |writes| == |labels|
    ensures forall j :: 0 <= j < |labels| ==> writes[j] == LabelWrite(labels[j], r, js)
  {
    seq(|labels|, j requires 0 <= j < |labels| => LabelWrite(labels[j], r, js))
  }

  /** `arrayMap[kind]`: the labels' writes in order, a later label with the
      same key overwriting the earlier value. */
  function KindMap(labels: Dict<Descriptor>, r: Rect, js: bool): Dict<Descriptor>
    requires LabelsOk(labels)
  {
    AssignAll(KeyedWrites(labels, r, js))
  }

  /** `arrayMap`: every kind of the settings, with its re-keyed labels. */
  function ArrayMapOf(settings: Settings, r: Rect, js: bool): Dict<Dict<Descriptor>>
    requires SettingsOk(settings)
  {
    AssignAll(KindWrites(settings, r, js))
  }

  /** The constructor's `map[kind] = {...}` for each kind, in order. */
  function KindWrites(settings: Settings, r: Rect, js: bool): (writes: seq<Option<Entry<Dict<Descriptor>>>>)
    requires SettingsOk(settings)
    ensures |writes| == |settings|
  {
    seq(|settings|, i requires 0 <= i < |settings| => Some(Entry(settings[i].key, KindMap(settings[i].value, r, js))))
  }


  /** Label j of a kind has a match and writes its entry under `key`. */
  predicate WritesKey(labels: Dict<Descriptor>, j: int, r: Rect, js: bool, key: string)
    requires LabelsOk(labels)
  {
    0 <= j < |labels| && Runs(labels[j].key) != [] && LabelKey(labels[j].key, r, js) == key
  }

  lemma WritesKeyIsWritesAt(labels: Dict<Descriptor>, r: Rect, js: bool, key: string)
    requires LabelsOk(labels)
    ensures forall j :: WritesAt(KeyedWrites(labels, r, js), j, key) <==> WritesKey(labels, j, r, js, key)
  {
  }

  /** `arrayMap[kind][key]` exists exactly when some label writes that key. */
  lemma KindMapHasKey(labels: Dict<Descriptor>, r: Rect, js: bool, key: string)
    requires LabelsOk(labels)
    ensures Get(KindMap(labels, r, js), key).Some? <==> exists j :: WritesKey(labels, j, r, js, key)
  {
    AssignAllHasKey(KeyedWrites(labels, r, js), key);
    WritesKeyIsWritesAt(labels, r, js, key);
  }

  /** `arrayMap[kind][key]` holds the settings value of the last label that
      writes the key: a later label with the same offset overwrites an
      earlier one. */
  lemma KindMapLastWins(labels: Dict<Descriptor>, r: Rect, js: bool, key: string, j: int)
    requires LabelsOk(labels) && WritesKey(labels, j, r, js, key)
    requires forall j' :: j < j' < |labels| ==> !WritesKey(labels, j', r, js, key)
    ensures Get(KindMap(labels, r, js), key) == Some(labels[j].value)
  {
    WritesKeyIsWritesAt(labels, r, js, key);
    AssignAllLastWins(KeyedWrites(labels, r, js), key, j);
  }

  /** `arrayMap[kind]` names each location once. */
  lemma KindMapDistinct(labels: Dict<Descriptor>, r: Rect, js: bool)
    requires LabelsOk(labels)
    ensures DistinctKeys(KindMap(labels, r, js))
  {
    AssignAllDistinct(KeyedWrites(labels, r, js));
  }

  /** `arrayMap` has the kinds of the settings, in their order, each with its
      re-keyed labels. */
  lemma ArrayMapMirrorsSettings(settings: Settings, r: Rect, js: bool)
    requires SettingsOk(settings) && DistinctKeys(settings)
    ensures |ArrayMapOf(settings, r, js)| == |settings|
    ensures forall i :: 0 <= i < |settings| ==>
      ArrayMapOf(settings, r, js)[i] == Entry(settings[i].key, KindMap(settings[i].value, r, js))
  {
    AssignAllFresh(KindWrites(settings, r, js));
  }

  /** Every label with a match names a cell inside the requested range, so
      its offsets lie in [0, maxCol - minCol] x [0, maxRow - minRow]. */
  lemma LabelInsideRange(settings: Settings, i: nat, j: nat)
    requires SettingsOk(settings) && i < |settings| && j < |settings[i].value|
    requires Runs(settings[i].value[j].key) != []
    ensures var c := ParseLabel(settings[i].value[j].key).value;
      var cells := CellsOf(settings);
      && cells != []
      && Inside(c, BoundingRect(cells))
      && 0 <= c.col - BoundingRect(cells).minCol <= BoundingRect(cells).maxCol - BoundingRect(cells).minCol
      && 0 <= c.row - BoundingRect(cells).minRow <= BoundingRect(cells).maxRow - BoundingRect(cells).minRow
  {
    var c := ParseLabel(settings[i].value[j].key).value;
    CellsOfMembers(settings, c);
    assert SettingNames(settings, i, j, c);
    var cells := CellsOf(settings);
    var k :| 0 <= k < |cells| && cells[k] == c;
  }

  /** The key of one label, computed from its match with colToIndex and
      the corner of the range. */
  method ComputeKey(runs: seq<string>, r: Rect, js: bool) returns (key: string)
    requires |runs| >= 2
    ensures key == KeyOfRuns(runs, r, js)
  {
    var col := ColToIndex(runs[0]);
    var row := DecimalValue(runs[1]);
    var extra := if js then ExtraParts(runs, 2, r) else "";
    key := KeyText(col - r.minCol, row - r.minRow) + extra;
    assert KeyText(col - r.minCol, row - r.minRow) == KeyHead(runs[0], runs[1], r);
  }

  /** Builds `arrayMap[kind]` with the constructor's inner loop. */
  method BuildKindMap(labels: Dict<Descriptor>, r: Rect, js: bool) returns (kindMap: Dict<Descriptor>)
    requires LabelsOk(labels)
    ensures kindMap == KindMap(labels, r, js)
  {
    ghost var writes := KeyedWrites(labels, r, js);
    kindMap := [];
    var j := 0;
    while j < |labels|
      invariant 0 <= j <= |labels|
      invariant kindMap == AssignAll(writes[..j])
    {
      var runs := Runs(labels[j].key);
      AssignAllStep(writes, j);
      assert LabelOk(labels[j].key);
      if runs != [] {
        var key := ComputeKey(runs, r, js);
        kindMap := Assign(kindMap, key, labels[j].value);
      } else {
        assert writes[j] == None;
      }
      j := j + 1;
    }
    assert writes[..j] == writes;
  }

  /** Builds `arrayMap` with the constructor's nested loops. */
  method BuildArrayMap(settings: Settings, r: Rect, js: bool) returns (arrayMap: Dict<Dict<Descriptor>>)
    requires SettingsOk(settings)
    ensures arrayMap == ArrayMapOf(settings, r, js)
  {
    ghost var writes := KindWrites(settings, r, js);
    arrayMap := [];
    var i := 0;
    while i < |settings|
      invariant 0 <= i <= |settings|
      invariant arrayMap == AssignAll(writes[..i])
    {
      var kindMap := BuildKindMap(settings[i].value, r, js);
      AssignAllStep(writes, i);
      assert writes[i] == Some(Entry(settings[i].key, kindMap));
      arrayMap := Assign(arrayMap, settings[i].key, kindMap);
      i := i + 1;
    }
    assert writes[..i] == writes;
  }

  /** The constructor of Updater.ts (lines 33-86): collect the cells, skipping
      labels with no match; bound them; build the range text with indexToCol;
      re-key the settings. */
  method Compile(settings: Settings) returns (cfg: Config)
    requires SettingsOk(settings)
    ensures var cells := CellsOf(settings);
      && (cells == [] ==> cfg.range == None && cfg.rangeText == None)
      && (cells != [] ==> cfg.range == Some(BoundingRect(cells))
                          && cfg.rangeText == Some(RangeText(BoundingRect(cells))))
    ensures cfg.arrayMap == ArrayMapOf(settings, RectOf(cfg.range), false)
  {
    var cells, _ := CollectCells(settings);
    cfg := Build(settings, cells, false);
  }

  /** The constructor of Updater.js (lines 20-65): any label with no match
      makes `coords[0]` throw and construction fails; otherwise as in
      Updater.ts, but every run of a label goes into its key. */
  method CompileJs(settings: Settings) returns (result: Completion<Config>)
    requires SettingsOk(settings)
    ensures result.Throw? <==> AnyUnmatched(settings)
    ensures result.Normal? ==> var cells := CellsOf(settings);
      && (cells == [] ==> result.value.range == None && result.value.rangeText == None)
      && (cells != [] ==> result.value.range == Some(BoundingRect(cells))
                          && result.value.rangeText == Some(RangeText(BoundingRect(cells))))
      && result.value.arrayMap == ArrayMapOf(settings, RectOf(result.value.range), true)
  {
    var cells, sawNull := CollectCells(settings);
    if sawNull {
      return Throw;
    }
    var cfg := Build(settings, cells, true);
    result := Normal(cfg);
  }

  /** The rectangle the offsets are taken from. With no cells no offset is
      ever computed, and the source's infinite corners are not modelled. */
  function RectOf(range: Option<Rect>): Rect
  {
    if range.Some? then range.value else Rect(0, 0, 0, 0)
  }

  method Build(settings: Settings, cells: seq<Cell>, js: bool) returns (cfg: Config)
    requires SettingsOk(settings) && cells == CellsOf(settings)
    ensures cells == [] ==> cfg.range == None && cfg.rangeText == None
    ensures cells != [] ==> cfg.range == Some(BoundingRect(cells))
                            && cfg.rangeText == Some(RangeText(BoundingRect(cells)))
    ensures cfg.arrayMap == ArrayMapOf(settings, RectOf(cfg.range), js)
  {
    var range: Option<Rect> := None;
    var rangeText: Option<string> := None;
    if |cells| > 0 {
      var r := BoundingRect(cells);
      var first := IndexToCol(r.minCol);
      var last := IndexToCol(r.maxCol);
      range := Some(r);
      rangeText := Some(first + NatText(r.minRow) + ":" + last + NatText(r.maxRow));
      assert rangeText.value == RangeText(r);
    }
    var arrayMap := BuildArrayMap(settings, RectOf(range), js);
    cfg := Config(range, rangeText, arrayMap);
  }
}
