/**
 * src/Page.js: one dive log sheet. A page has an id (its creation time in
 * milliseconds), six metadata fields and rows of cells; it is captured from
 * the on-screen table, written back to it, stored under `"dive_page_" + id`
 * and flattened into upload records.
 *
 * The screen is an explicit snapshot object (`UI`): the `.value` and
 * `.checked` of every `.datum` input of the dive table, row after row, eleven
 * per row as `Page.createRows` lays them out, plus the `#currentPage` text and
 * the metadata inputs.
 */
module DivePage {
  import opened Wrappers
  import opened JsText
  import opened LocalStorage

  // ---------------------------------------------------------------------------
  // The column layout of `COLUMNS`

  /** `COLUMNS.length`: Name, Grade, Led, CTC, Cylinders, Gas in, Time in, Time out, Gas out, Max depth, Dive time. */
  const Columns: nat := 11
  /** The "Led" column, the only checkbox. */
  const LedCol: nat := 2
  const TimeInCol: nat := 6
  const TimeOutCol: nat := 7
  const DiveTimeCol: nat := 10
  const MinutesPerDay: int := 1440

  /** `LS_KEY_ROOT + id`: where a page is stored. */
  function PageKey(id: int): string
  {
    "dive_page_" + IntToString(id)
  }

  lemma PageKeyInjective(a: int, b: int)
    requires PageKey(a) == PageKey(b)
    ensures a == b
  {
    assert IntToString(a) == PageKey(a)[10..] == PageKey(b)[10..] == IntToString(b);
    IntToStringInjective(a, b);
  }

  // ---------------------------------------------------------------------------
  // The screen

  class UI {
    /** `#currentPage`'s text, held as the number `parseInt` reads back from it. */
    var currentPage: int
    var site: string
    var date: string
    var manager: string
    var boat: string
    var weather: string
    var comments: string
    /** `.value` of each `.datum` input of `#diveTable`, in document order. */
    const values: array<string>
    /** `.checked` of the same inputs; only the Led column's is ever read. */
    const checked: array<bool>

    predicate Valid()
    {
      values.Length == checked.Length && values.Length % Columns == 0
    }

    constructor (rowCount: nat)
      ensures Valid() && values.Length == rowCount * Columns
      ensures fresh(values) && fresh(checked)
    {
      currentPage, site, date, manager, boat, weather, comments := 0, "", "", "", "", "", "";
      values := new string[rowCount * Columns](_ => "");
      checked := new bool[rowCount * Columns](_ => false);
    }
  }

  /** Input `k` of the table as `updateFromUI` reads it: `.checked` for the checkbox, `.value` otherwise. */
  function CellAt(values: seq<string>, checked: seq<bool>, k: nat): Value
    requires k < |values| == |checked|
  {
    if k % Columns == LedCol then Bool(checked[k]) else Str(values[k])
  }

  /** Table row `r` as `rowData`. */
  function UIRow(values: seq<string>, checked: seq<bool>, r: nat): (row: seq<Value>)
    requires |values| == |checked| && (r + 1) * Columns <= |values|
    ensures |row| == Columns
  {
    seq(Columns, c requires 0 <= c < Columns => CellAt(values, checked, r * Columns + c))
  }

  /** Every table row. */
  function UIRows(values: seq<string>, checked: seq<bool>): (rows: seq<seq<Value>>)
    requires |values| == |checked| && |values| % Columns == 0
    ensures |rows| == |values| / Columns
  {
    seq(|values| / Columns, r requires 0 <= r < |values| / Columns => UIRow(values, checked, r))
  }

  /** Input `r * Columns + c` sits in row `r`, column `c`. */
  lemma CellIndex(r: nat, c: nat)
    requires c < Columns
    ensures (r * Columns + c) / Columns == r && (r * Columns + c) % Columns == c
  {
  }

  lemma RowOfIndex(r: nat, k: nat)
    requires r * Columns <= k < (r + 1) * Columns
    ensures k / Columns == r && k % Columns == k - r * Columns
  {
    CellIndex(r, k - r * Columns);
  }

  /** A row read from two tables that agree on that row's inputs. */
  lemma SameRow(a: seq<string>, b: seq<string>, checked: seq<bool>, r: nat)
    requires |a| == |b| == |checked| && (r + 1) * Columns <= |a|
    requires forall k :: r * Columns <= k < (r + 1) * Columns ==> a[k] == b[k]
    ensures UIRow(a, checked, r) == UIRow(b, checked, r)
  {
    forall c | 0 <= c < Columns
      ensures UIRow(a, checked, r)[c] == UIRow(b, checked, r)[c]
    {
      assert a[r * Columns + c] == b[r * Columns + c];
      assert UIRow(a, checked, r)[c] == CellAt(a, checked, r * Columns + c);
      assert UIRow(b, checked, r)[c] == CellAt(b, checked, r * Columns + c);
    }
  }

  // ---------------------------------------------------------------------------
  // Dive time

  /** Minutes since midnight of an `HH:MM` time, `None` when the text is no such time. */
  function ParseTime(t: string): (m: Option<nat>)
    ensures m.Some? ==> m.value < MinutesPerDay
  {
    if |t| == 5 && IsDigit(t[0]) && IsDigit(t[1]) && t[2] == ':' && IsDigit(t[3]) && IsDigit(t[4]) then
      var h := (t[0] as int - '0' as int) * 10 + (t[1] as int - '0' as int);
      var m := (t[3] as int - '0' as int) * 10 + (t[4] as int - '0' as int);
      if h < 24 && m < 60 then Some(h * 60 + m) else None
    else None
  }

  /** A minute of the day as an `HH:MM` time input value: two-digit hour, `:`, two-digit minute. */
  function TimeText(m: nat): (t: string)
    requires m < MinutesPerDay
    ensures |t| == 5 && t[2] == ':'
  {
    var h, mm := m / 60, m % 60;
    [DigitChar(h / 10), DigitChar(h % 10), ':', DigitChar(mm / 10), DigitChar(mm % 10)]
  }

  /** Every minute of the day reads back from its `HH:MM` text. */
  lemma ParseTimeText(m: nat)
    requires m < MinutesPerDay
    ensures ParseTime(TimeText(m)) == Some(m)
  {
    var t := TimeText(m);
    var h, mm := m / 60, m % 60;
    assert (t[0] as int - '0' as int) * 10 + (t[1] as int - '0' as int) == h;
    assert (t[3] as int - '0' as int) * 10 + (t[4] as int - '0' as int) == mm;
  }

  /** Only the `HH:MM` text of a minute parses, and it parses as that minute. */
  lemma TextOfParseTime(t: string)
    requires ParseTime(t).Some?
    ensures t == TimeText(ParseTime(t).value)
  {
    var h := (t[0] as int - '0' as int) * 10 + (t[1] as int - '0' as int);
    var mm := (t[3] as int - '0' as int) * 10 + (t[4] as int - '0' as int);
    var m := h * 60 + mm;
    assert m / 60 == h && m % 60 == mm;
    var u := TimeText(m);
    assert h / 10 == t[0] as int - '0' as int && h % 10 == t[1] as int - '0' as int;
    assert mm / 10 == t[3] as int - '0' as int && mm % 10 == t[4] as int - '0' as int;
    assert u[0] == t[0] && u[1] == t[1] && u[3] == t[3] && u[4] == t[4];
  }

  /** `end - start` in minutes, plus a day when negative: the dive crossed midnight. */
  function DiveMinutes(start: nat, end: nat): (d: int)
    requires start < MinutesPerDay && end < MinutesPerDay
    ensures 0 <= d < MinutesPerDay
    ensures d == (end - start) % MinutesPerDay
  {
    var diff := end - start;
    if diff < 0 then diff + MinutesPerDay else diff
  }

  /**
   * The Dive time input after `calculateDiveTime`: rewritten only when both
   * times are non-empty. A time that does not parse gives `NaN`, which a number
   * input's value sanitisation turns into the empty string.
   */
  function DiveTimeValue(timeIn: string, timeOut: string, current: string): string
  {
    if timeIn != "" && timeOut != "" then
      match (ParseTime(timeIn), ParseTime(timeOut))
      case (Some(a), Some(b)) => IntToString(DiveMinutes(a, b))
      case _ => ""
    else current
  }

  /** Two `HH:MM` times give the minutes from the first to the second, modulo one day. */
  lemma DiveTimeOfTimes(a: nat, b: nat, current: string)
    requires a < MinutesPerDay && b < MinutesPerDay
    ensures DiveTimeValue(TimeText(a), TimeText(b), current) == IntToString((b - a) % MinutesPerDay)
  {
    ParseTimeText(a);
    ParseTimeText(b);
  }

  lemma DiveTimeOverMidnight()
    ensures DiveTimeValue("23:50", "00:10", "") == "20"
  {
    assert ParseTime("23:50") == Some(1430);
    assert ParseTime("00:10") == Some(10);
    assert NatToString(20) == NatToString(2) + [DigitChar(0)];
  }

  /** A recomputed dive time is what recomputing it again gives. */
  lemma DiveTimeValueStable(timeIn: string, timeOut: string, current: string)
    ensures DiveTimeValue(timeIn, timeOut, DiveTimeValue(timeIn, timeOut, current)) == DiveTimeValue(timeIn, timeOut, current)
  {
  }

  /** The table's values once `calculateDiveTime` has run on rows `0 .. upto-1`. */
  function WithDiveTimes(values: seq<string>, upto: nat): (v: seq<string>)
    ensures |v| == |values|
  {
    seq(|values|, k requires 0 <= k < |values| =>
      if k % Columns == DiveTimeCol && k / Columns < upto
      then DiveTimeValue(values[k - DiveTimeCol + TimeInCol], values[k - DiveTimeCol + TimeOutCol], values[k])
      else values[k])
  }

  /** Recomputing dive times changes nothing: the times they come from are left alone. */
  lemma WithDiveTimesIdempotent(values: seq<string>, upto: nat)
    requires |values| % Columns == 0
    ensures WithDiveTimes(WithDiveTimes(values, upto), upto) == WithDiveTimes(values, upto)
  {
    var once := WithDiveTimes(values, upto);
    var twice := WithDiveTimes(once, upto);
    forall k | 0 <= k < |values|
      ensures twice[k] == once[k]
    {
      DiveTimeCellStable(values, upto, k);
    }
    assert twice == once;
  }

  /** One cell of the idempotence: a dive-time cell reads times that recomputation left alone. */
  lemma DiveTimeCellStable(values: seq<string>, upto: nat, k: nat)
    requires |values| % Columns == 0 && k < |values|
    ensures WithDiveTimes(WithDiveTimes(values, upto), upto)[k] == WithDiveTimes(values, upto)[k]
  {
    var once := WithDiveTimes(values, upto);
    var r := k / Columns;
    RowOfIndex(r, k);
    if k % Columns == DiveTimeCol && r < upto {
      var i, o := k - DiveTimeCol + TimeInCol, k - DiveTimeCol + TimeOutCol;
      CellIndex(r, TimeInCol);
      CellIndex(r, TimeOutCol);
      assert once[i] == values[i] && once[o] == values[o];
      DiveTimeValueStable(values[i], values[o], values[k]);
    }
  }

  /** `calculateDiveTime` on row `r` extends the recomputed rows by one. */
  lemma WithDiveTimesStep(values: seq<string>, r: nat)
    requires |values| % Columns == 0 && (r + 1) * Columns <= |values|
    ensures var cur := WithDiveTimes(values, r);
            var k := r * Columns + DiveTimeCol;
            cur[k := DiveTimeValue(cur[r * Columns + TimeInCol], cur[r * Columns + TimeOutCol], cur[k])]
              == WithDiveTimes(values, r + 1)
  {
    var cur := WithDiveTimes(values, r);
    var next := WithDiveTimes(values, r + 1);
    var k := r * Columns + DiveTimeCol;
    CellIndex(r, TimeInCol);
    CellIndex(r, TimeOutCol);
    CellIndex(r, DiveTimeCol);
    forall j | 0 <= j < |values| && j != k
      ensures cur[j] == next[j]
    {
      var q := j / Columns;
      RowOfIndex(q, j);
    }
  }

  /** Row `r` is final once `calculateDiveTime` has run on it. */
  lemma DiveTimesRowFinal(values: seq<string>, checked: seq<bool>, r: nat, n: nat)
    requires |values| == |checked| && |values| % Columns == 0 && r < n && (r + 1) * Columns <= |values|
    ensures UIRow(WithDiveTimes(values, r + 1), checked, r) == UIRow(WithDiveTimes(values, n), checked, r)
  {
    forall k | r * Columns <= k < (r + 1) * Columns
      ensures WithDiveTimes(values, r + 1)[k] == WithDiveTimes(values, n)[k]
    {
      RowOfIndex(r, k);
    }
    SameRow(WithDiveTimes(values, r + 1), WithDiveTimes(values, n), checked, r);
  }

  // ---------------------------------------------------------------------------
  // Capture

  /** `rowData[0] !== ""`: the row names a diver. */
  predicate HasDiver(row: seq<Value>)
  {
    !(|row| > 0 && row[0] == Str(""))
  }

  /** The rows `updateFromUI` keeps, in table order. */
  function Kept(rows: seq<seq<Value>>): seq<seq<Value>>
  {
    if rows == [] then []
    else Kept(rows[..|rows| - 1]) + (if HasDiver(rows[|rows| - 1]) then [rows[|rows| - 1]] else [])
  }

  lemma KeptStep(rows: seq<seq<Value>>, r: nat)
    requires r < |rows|
    ensures Kept(rows[..r + 1]) == Kept(rows[..r]) + (if HasDiver(rows[r]) then [rows[r]] else [])
  {
    assert rows[..r + 1][..r] == rows[..r];
  }

  /** A row survives capture exactly when it names a diver. */
  lemma {:induction false} KeptMembers(rows: seq<seq<Value>>)
    ensures forall row :: row in Kept(rows) <==> row in rows && HasDiver(row)
  {
    if rows != [] {
      KeptMembers(rows[..|rows| - 1]);
      assert rows == rows[..|rows| - 1] + [rows[|rows| - 1]];
    }
  }

  /** Kept rows keep their table order: if every row names a diver, all are kept as they are. */
  lemma {:induction false} KeptAll(rows: seq<seq<Value>>)
    requires forall i :: 0 <= i < |rows| ==> HasDiver(rows[i])
    ensures Kept(rows) == rows
  {
    if rows != [] {
      KeptAll(rows[..|rows| - 1]);
    }
  }

  function UIMetadata(site: string, date: string, manager: string, boat: string, weather: string, comments: string): Metadata
  {
    Metadata(site, Str(date), manager, boat, weather, comments)
  }

  /** The record `updateFromUI` builds from a table whose values were `values` before its dive times. */
  function Captured(id: int, meta: Metadata, values: seq<string>, checked: seq<bool>): (r: PageRecord)
    requires |values| == |checked| && |values| % Columns == 0
  {
    PageRecord(id, meta, Kept(UIRows(WithDiveTimes(values, |values| / Columns), checked)))
  }

  /** One entry per column: a boolean for Led, a string for the rest. */
  predicate RowShaped(row: seq<Value>)
  {
    |row| == Columns && forall c :: 0 <= c < Columns ==> (row[c].Bool? <==> c == LedCol)
  }

  /** Each captured row has one entry per column: a boolean for Led, a string for the rest. */
  lemma CapturedRowShape(id: int, meta: Metadata, values: seq<string>, checked: seq<bool>)
    requires |values| == |checked| && |values| % Columns == 0
    ensures forall row :: row in Captured(id, meta, values, checked).rows ==> RowShaped(row) && row[0] != Str("")
  {
    var shown := WithDiveTimes(values, |values| / Columns);
    var table := UIRows(shown, checked);
    KeptMembers(table);
    forall row: seq<Value> | row in table
      ensures RowShaped(row)
    {
      var r :| 0 <= r < |table| && table[r] == row;
      UIRowShaped(shown, checked, r);
    }
  }

  lemma UIRowShaped(values: seq<string>, checked: seq<bool>, r: nat)
    requires |values| == |checked| && (r + 1) * Columns <= |values|
    ensures RowShaped(UIRow(values, checked, r))
  {
    var row := UIRow(values, checked, r);
    forall c | 0 <= c < Columns ensures (row[c].Bool? <==> c == LedCol) {
      CellIndex(r, c);
      assert row[c] == CellAt(values, checked, r * Columns + c);
    }
  }

  /** Text of each cell of `rows`, row after row: what `loadIntoUI` writes into the inputs. */
  function CellTexts(rows: seq<seq<Value>>): seq<string>
  {
    if rows == [] then []
    else CellTexts(rows[..|rows| - 1]) + Texts(rows[|rows| - 1])
  }

  function Texts(row: seq<Value>): (t: seq<string>)
    ensures |t| == |row| && forall c :: 0 <= c < |row| ==> t[c] == ToText(row[c])
  {
    seq(|row|, c requires 0 <= c < |row| => ToText(row[c]))
  }

  lemma CellTextsStep(rows: seq<seq<Value>>, i: nat)
    requires i < |rows|
    ensures CellTexts(rows[..i + 1]) == CellTexts(rows[..i]) + Texts(rows[i])
  {
    assert rows[..i + 1][..i] == rows[..i];
  }

  /** Cell `c` of row `ri` comes right after the cells of the rows before it. */
  lemma CellTextAt(rows: seq<seq<Value>>, ri: nat, c: nat)
    requires ri < |rows| && c < |rows[ri]|
    ensures |CellTexts(rows[..ri])| + c < |CellTexts(rows)|
    ensures CellTexts(rows)[|CellTexts(rows[..ri])| + c] == ToText(rows[ri][c])
  {
    RowFollows(rows, ri);
    var done, t := CellTexts(rows[..ri]), Texts(rows[ri]);
    assert (done + t)[|done| + c] == t[c];
  }

  /** The cells of row `ri` come right after those of the rows before it. */
  lemma RowFollows(rows: seq<seq<Value>>, ri: nat)
    requires ri < |rows|
    ensures CellTexts(rows[..ri]) + Texts(rows[ri]) <= CellTexts(rows)
  {
    CellTextsStep(rows, ri);
    CellTextsPrefix(rows, ri + 1);
  }

  lemma {:induction false} CellTextsPrefix(rows: seq<seq<Value>>, i: nat)
    requires i <= |rows|
    ensures CellTexts(rows[..i]) <= CellTexts(rows)
    decreases |rows| - i
  {
    if i < |rows| {
      CellTextsPrefix(rows, i + 1);
      CellTextsStep(rows, i);
    } else {
      assert rows[..i] == rows;
    }
  }

  function Blanks(n: nat): (b: seq<string>)
    ensures |b| == n && forall i :: 0 <= i < n ==> b[i] == ""
  {
    seq(n, _ => "")
  }

  /** The page's cells fit the table's inputs. */
  predicate Fits(rows: seq<seq<Value>>, ui: UI)
  {
    |CellTexts(rows)| <= ui.values.Length
  }

  /**
   * The screen after `loadIntoUI` of page `p`: its id and metadata, then its
   * cells' texts input by input and blanks after them; when the cells do not
   * fit, as many of them as there are inputs.
   */
  ghost predicate Shows(ui: UI, p: Page)
    reads ui, ui.values, p
  {
    && ui.currentPage == p.id
    && ui.site == p.metadata.site && ui.date == ToText(p.metadata.date) && ui.manager == p.metadata.manager
    && ui.boat == p.metadata.boat && ui.weather == p.metadata.weather && ui.comments == p.metadata.comments
    && (Fits(p.rows, ui) ==> ui.values[..] == CellTexts(p.rows) + Blanks(ui.values.Length - |CellTexts(p.rows)|))
    && (!Fits(p.rows, ui) ==> ui.values[..] == CellTexts(p.rows)[..ui.values.Length])
  }

  // ---------------------------------------------------------------------------
  // Upload records

  /** The first record `uploadToDrive` pushes. */
  function HeaderRecord(id: int, m: Metadata): seq<Value>
  {
    [Num(id), Str(m.site), m.date, Str(m.manager), Str(m.boat), Str(m.weather), Str(m.comments)]
  }

  /** Rebuilds a page from its upload records: the partner that shows the flattening loses nothing. */
  function RecordsToPage(records: seq<seq<Value>>): (r: Option<PageRecord>)
  {
    if |records| == 0 || |records[0]| != 7 || !records[0][0].Num? then None
    else
      var h := records[0];
      var id := h[0].n;
      if !(h[1].Str? && h[3].Str? && h[4].Str? && h[5].Str? && h[6].Str?) then None
      else if exists i :: 1 <= i < |records| && (|records[i]| == 0 || records[i][0] != Num(id)) then None
      else
        Some(PageRecord(id, Metadata(h[1].s, h[2], h[3].s, h[4].s, h[5].s, h[6].s),
                        seq(|records| - 1, i requires 0 <= i < |records| - 1 => records[i + 1][1..])))
  }

  // ---------------------------------------------------------------------------
  // The page object

  class Page {
    var id: int
    var metadata: Metadata
    var rows: seq<seq<Value>>

    /** What `JSON.stringify(this)` records. */
    function Record(): PageRecord
      reads this
    {
      PageRecord(id, metadata, rows)
    }

    /** `new Page()`: a blank page whose date is the id, a number. */
    constructor Blank(now: int)
      ensures Record() == PageRecord(now, Metadata("", Num(now), "", "", "", ""), [])
    {
      id := now;
      metadata := Metadata("", Num(now), "", "", "", "");
      rows := [];
    }

    /** `new Page(object)`: the object's fields, as they are. */
    constructor FromRecord(r: PageRecord)
      ensures Record() == r
    {
      id, metadata, rows := r.id, r.metadata, r.rows;
    }

    /** `new Page(null)`: stamps `#currentPage` with the time and captures the screen. */
    constructor FromUI(ui: UI, store: Storage, now: int)
      requires ui.Valid()
      modifies ui, ui.values, store
      ensures ui.currentPage == now
      ensures Record() == Captured(now, old(UIMetadata(ui.site, ui.date, ui.manager, ui.boat, ui.weather, ui.comments)),
                                   old(ui.values[..]), ui.checked[..])
      ensures ui.values[..] == WithDiveTimes(old(ui.values[..]), ui.values.Length / Columns)
      ensures ui.site == old(ui.site) && ui.date == old(ui.date) && ui.manager == old(ui.manager)
      ensures ui.boat == old(ui.boat) && ui.weather == old(ui.weather) && ui.comments == old(ui.comments)
      ensures store.items == old(store.items)[PageKey(now) := PageJson(Record())]
    {
      id, metadata, rows := now, Metadata("", Num(now), "", "", "", ""), [];
      new;
      ui.currentPage := now;
      UpdateFromUI(ui, store);
    }

    /**
     * `new Page(n)` for a number: the record stored under `"dive_page_" + n`;
     * when there is none `JSON.parse(null)` is `null`, and the page is captured
     * from the screen as `new Page(null)` would.
     */
    constructor Load(n: int, ui: UI, store: Storage, now: int)
      requires ui.Valid()
      modifies ui, ui.values, store
      ensures var key := PageKey(n);
              key in old(store.items) && old(store.items)[key].PageJson? ==>
                && Record() == old(store.items)[key].page
                && store.items == old(store.items)
                && ui.values[..] == old(ui.values[..]) && ui.currentPage == old(ui.currentPage)
      ensures var key := PageKey(n);
              !(key in old(store.items) && old(store.items)[key].PageJson?) ==>
                && ui.currentPage == now
                && Record() == Captured(now, old(UIMetadata(ui.site, ui.date, ui.manager, ui.boat, ui.weather, ui.comments)),
                                        old(ui.values[..]), ui.checked[..])
                && ui.values[..] == WithDiveTimes(old(ui.values[..]), ui.values.Length / Columns)
                && store.items == old(store.items)[PageKey(now) := PageJson(Record())]
      ensures ui.site == old(ui.site) && ui.date == old(ui.date) && ui.manager == old(ui.manager)
      ensures ui.boat == old(ui.boat) && ui.weather == old(ui.weather) && ui.comments == old(ui.comments)
    {
      var key := PageKey(n);
      var found := key in store.items && store.items[key].PageJson?;
      if found {
        var r := store.items[key].page;
        id, metadata, rows := r.id, r.metadata, r.rows;
      } else {
        id, metadata, rows := now, Metadata("", Num(now), "", "", "", ""), [];
      }
      new;
      if !found {
        ui.currentPage := now;
        UpdateFromUI(ui, store);
      }
    }

    /** `saveToLocal()`. */
    method SaveToLocal(store: Storage)
      modifies store
      ensures store.items == old(store.items)[PageKey(id) := PageJson(Record())]
    {
      store.SetItem(PageKey(id), PageJson(Record()));
    }

    /** `calculateDiveTime(tr)` for table row `r`. */
    static method CalculateDiveTime(ui: UI, r: nat)
      requires ui.Valid() && (r + 1) * Columns <= ui.values.Length
      modifies ui.values
      ensures var k := r * Columns + DiveTimeCol;
              ui.values[..] == old(ui.values[..])[k := DiveTimeValue(
                old(ui.values[r * Columns + TimeInCol]), old(ui.values[r * Columns + TimeOutCol]), old(ui.values[k]))]
    {
      var timeIn := ui.values[r * Columns + TimeInCol];
      var timeOut := ui.values[r * Columns + TimeOutCol];
      if timeIn != "" && timeOut != "" {
        ui.values[r * Columns + DiveTimeCol] := DiveTimeValue(timeIn, timeOut, "");
      }
    }

    /** The `.datum` loop of one table row: `rowData`. */
    static method ReadRow(ui: UI, r: nat) returns (rowData: seq<Value>)
      requires ui.Valid() && (r + 1) * Columns <= ui.values.Length
      ensures rowData == UIRow(ui.values[..], ui.checked[..], r)
    {
      rowData := [];
      var c := 0;
      while c < Columns
        invariant 0 <= c <= Columns
        invariant rowData == UIRow(ui.values[..], ui.checked[..], r)[..c]
      {
        var k := r * Columns + c;
        if c == LedCol {
          rowData := rowData + [Bool(ui.checked[k])];
        } else {
          rowData := rowData + [Str(ui.values[k])];
        }
        CellIndex(r, c);
        c := c + 1;
      }
    }

    /** `updateFromUI()`: recompute dive times, keep the rows that name a diver, take the metadata, save. */
    method UpdateFromUI(ui: UI, store: Storage)
      requires ui.Valid()
      modifies this, ui.values, store
      ensures Record() == Captured(ui.currentPage, UIMetadata(ui.site, ui.date, ui.manager, ui.boat, ui.weather, ui.comments),
                                   old(ui.values[..]), ui.checked[..])
      ensures ui.values[..] == WithDiveTimes(old(ui.values[..]), ui.values.Length / Columns)
      ensures store.items == old(store.items)[PageKey(id) := PageJson(Record())]
    {
      var n := ui.values.Length / Columns;
      ghost var before := ui.values[..];
      ghost var after := WithDiveTimes(before, n);
      ghost var table := UIRows(after, ui.checked[..]);
      var kept: seq<seq<Value>> := [];
      var r := 0;
      while r < n
        invariant 0 <= r <= n
        invariant ui.values[..] == WithDiveTimes(before, r)
        invariant kept == Kept(table[..r])
        modifies ui.values
      {
        CalculateDiveTime(ui, r);
        WithDiveTimesStep(before, r);
        assert ui.values[..] == WithDiveTimes(before, r + 1);
        var rowData := ReadRow(ui, r);
        DiveTimesRowFinal(before, ui.checked[..], r, n);
        assert rowData == table[r];
        KeptStep(table, r);
        if rowData[0] != Str("") {
          kept := kept + [rowData];
        }
        r := r + 1;
      }
      assert table[..n] == table;
      id := ui.currentPage;
      metadata := UIMetadata(ui.site, ui.date, ui.manager, ui.boat, ui.weather, ui.comments);
      rows := kept;
      SaveToLocal(store);
    }

    /**
     * `loadIntoUI()`: show this page. `ok` is false when the page has more
     * cells than the table has inputs: the source then throws a TypeError on
     * `inputs[i]`, after every input has been written.
     */
    method LoadIntoUI(ui: UI) returns (ok: bool)
      modifies ui, ui.values
      ensures ok <==> Fits(rows, ui)
      ensures Shows(ui, this)
    {
      ui.currentPage := id;
      ui.site, ui.date, ui.manager := metadata.site, ToText(metadata.date), metadata.manager;
      ui.boat, ui.weather, ui.comments := metadata.boat, metadata.weather, metadata.comments;
      ok := WriteCells(ui.values, rows);
    }

    /** The input loop of `loadIntoUI`: each cell's text in turn, then blanks for the inputs left over. */
    static method WriteCells(inputs: array<string>, rows: seq<seq<Value>>) returns (ok: bool)
      modifies inputs
      ensures ok <==> |CellTexts(rows)| <= inputs.Length
      ensures ok ==> inputs[..] == CellTexts(rows) + Blanks(inputs.Length - |CellTexts(rows)|)
      ensures !ok ==> inputs[..] == CellTexts(rows)[..inputs.Length]
    {
      ghost var all := CellTexts(rows);
      var n := inputs.Length;
      var i := 0;
      var ri := 0;
      while ri < |rows|
        invariant 0 <= ri <= |rows|
        invariant i == |CellTexts(rows[..ri])| && i <= n && i <= |all|
        invariant forall j :: 0 <= j < i ==> inputs[j] == all[j]
      {
        var r := rows[ri];
        RowFollows(rows, ri);
        CellTextsStep(rows, ri);
        var c := 0;
        while c < |r|
          invariant 0 <= c <= |r|
          invariant i == |CellTexts(rows[..ri])| + c && i <= n
          invariant forall j :: 0 <= j < i ==> inputs[j] == all[j]
        {
          if i == n {
            assert inputs[..] == all[..n];
            return false;
          }
          CellTextAt(rows, ri, c);
          inputs[i] := ToText(r[c]);
          i := i + 1;
          c := c + 1;
        }
        ri := ri + 1;
      }
      assert rows[..ri] == rows;
      ghost var k := i;
      while i < n
        invariant k <= i <= n
        invariant forall j :: 0 <= j < k ==> inputs[j] == all[j]
        invariant forall j :: k <= j < i ==> inputs[j] == ""
      {
        inputs[i] := "";
        i := i + 1;
      }
      assert inputs[..] == all + Blanks(n - k);
      ok := true;
    }

    /**
     * `uploadToDrive()`: a header record, then `[id, ...row]` for each row in
     * order; the records carry the whole page, which is rebuilt from them exactly.
     */
    function UploadToDrive(): (records: seq<seq<Value>>)
      reads this
      ensures |records| == 1 + |rows|
      ensures records[0] == HeaderRecord(id, metadata)
      ensures forall i :: 0 <= i < |rows| ==> records[i + 1] == [Num(id)] + rows[i]
      ensures RecordsToPage(records) == Some(Record())
    {
      UploadRecordsRebuild(Record());
      UploadRecords(Record())
    }
  }

  /** The records `uploadToDrive` pushes for a page with record `r`. */
  function UploadRecords(r: PageRecord): (records: seq<seq<Value>>)
    ensures |records| == 1 + |r.rows|
    ensures records[0] == HeaderRecord(r.id, r.metadata)
    ensures forall i :: 0 <= i < |r.rows| ==> records[i + 1] == [Num(r.id)] + r.rows[i]
  {
    var rs, first := r.rows, Num(r.id);
    [HeaderRecord(r.id, r.metadata)] + seq(|rs|, i requires 0 <= i < |rs| => [first] + rs[i])
  }

  /** The upload records carry the whole page record: it can be rebuilt from them. */
  lemma UploadRecordsRebuild(r: PageRecord)
    ensures RecordsToPage(UploadRecords(r)) == Some(r)
  {
    var records := UploadRecords(r);
    assert |records[0]| == 7 && records[0][0] == Num(r.id);
    RowsTagged(records, r);
    RowsUntagged(records, r);
  }

  lemma RowsTagged(records: seq<seq<Value>>, r: PageRecord)
    requires records == UploadRecords(r)
    ensures !exists i :: 1 <= i < |records| && (|records[i]| == 0 || records[i][0] != Num(r.id))
  {
    forall i | 1 <= i < |records| ensures |records[i]| > 0 && records[i][0] == Num(r.id) {
      assert records[i] == [Num(r.id)] + r.rows[i - 1];
    }
  }

  lemma RowsUntagged(records: seq<seq<Value>>, r: PageRecord)
    requires records == UploadRecords(r)
    ensures seq(|records| - 1, i requires 0 <= i < |records| - 1 => records[i + 1][1..]) == r.rows
  {
    var back := seq(|records| - 1, i requires 0 <= i < |records| - 1 => records[i + 1][1..]);
    forall i | 0 <= i < |r.rows| ensures back[i] == r.rows[i] {
      assert records[i + 1] == [Num(r.id)] + r.rows[i];
    }
  }
}
