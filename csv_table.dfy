/**
  The column-store table `CSV` of `_CSV/Intramodular/CSV.swift`.

  A table keeps its headers in order, a map from column names to headers,
  and a dictionary from headers to columns of cells. Headers compare by
  position only, so the dictionary is keyed here by the header's index; a
  column keeps the header under which it was first inserted, as a Swift
  dictionary keeps its first key when a value is replaced. The functions
  before the class are the specification of the class's state changes.
 */
module CsvTable {
  import opened Wrappers
  import opened CsvHeader

  /** A dictionary entry: the key header as stored and the column's cells. */
  datatype Column = Column(key: ColumnHeader, cells: seq<string>)

  /** What `read(from:)` sees of a `CSVReader`: the header row, if any, then the data rows. */
  datatype CsvReader = CsvReader(headerRow: Option<seq<string>>, rows: seq<seq<string>>)

  /** Every header's index is its position. */
  predicate Positional(hs: seq<ColumnHeader>) {
    forall i :: 0 <= i < |hs| ==> hs[i].index == i
  }

  /** Every dictionary entry sits under its key header's index. */
  predicate KeyedByIndex(data: map<int, Column>) {
    forall k :: k in data ==> data[k].key.index == k
  }

  /** All columns have the same number of cells. */
  predicate Rectangular(data: map<int, Column>) {
    forall k1, k2 :: k1 in data && k2 in data ==> |data[k1].cells| == |data[k2].cells|
  }

  /** Every column has exactly `n` cells. */
  predicate AllColumnsHave(data: map<int, Column>, n: nat) {
    forall k :: k in data ==> |data[k].cells| == n
  }

  lemma NonEmptyMapHasKey(m: map<int, Column>)
    requires |m| != 0
    ensures exists k :: k in m.Keys
  {
    assert m.Keys != {} by { assert |m.Keys| == |m|; }
    if forall k :: k !in m.Keys {
      assert false;
    }
  }

  /** `rowCount`: the length of some column, or 0 without columns; all agree on a rectangular table. */
  ghost function RowCount(data: map<int, Column>): (n: nat)
    requires Rectangular(data)
    ensures AllColumnsHave(data, n)
    ensures |data| == 0 ==> n == 0
  {
    if |data| == 0 then 0 else NonEmptyMapHasKey(data); var k :| k in data.Keys; |data[k].cells|
  }

  /** The headers after the `didSet` renumbering: each index set to its position. */
  function Reindexed(hs: seq<ColumnHeader>): (r: seq<ColumnHeader>)
    ensures |r| == |hs| && Positional(r)
    ensures forall i :: 0 <= i < |r| ==> r[i].name == hs[i].name
  {
    seq(|hs|, i requires 0 <= i < |hs| => hs[i].(index := i))
  }

  /**
    The name map after the `didSet`: every named header of `hs`, as it was
    before renumbering, registered under its name, a later header
    replacing an earlier one of the same name.
   */
  function Registered(m: map<string, ColumnHeader>, hs: seq<ColumnHeader>): map<string, ColumnHeader>
    decreases |hs|
  {
    if |hs| == 0 then m
    else Registered(if hs[0].name.Some? then m[hs[0].name.value := hs[0]] else m, hs[1..])
  }

  /** A name some header carries maps to the last header carrying it. */
  lemma {:induction false} RegisteredNamed(m: map<string, ColumnHeader>, hs: seq<ColumnHeader>, i: nat, n: string)
    requires i < |hs| && hs[i].name == Some(n)
    requires forall j :: i < j < |hs| ==> hs[j].name != Some(n)
    ensures n in Registered(m, hs) && Registered(m, hs)[n] == hs[i]
    decreases |hs|
  {
    var m' := if hs[0].name.Some? then m[hs[0].name.value := hs[0]] else m;
    if i == 0 {
      RegisteredUnnamed(m', hs[1..], n);
    } else {
      RegisteredNamed(m', hs[1..], i - 1, n);
    }
  }

  /** A name no header carries keeps its old entry, or stays absent. */
  lemma {:induction false} RegisteredUnnamed(m: map<string, ColumnHeader>, hs: seq<ColumnHeader>, n: string)
    requires forall j :: 0 <= j < |hs| ==> hs[j].name != Some(n)
    ensures n in Registered(m, hs) <==> n in m
    ensures n in m ==> Registered(m, hs)[n] == m[n]
    decreases |hs|
  {
    if |hs| > 0 {
      var m' := if hs[0].name.Some? then m[hs[0].name.value := hs[0]] else m;
      RegisteredUnnamed(m', hs[1..], n);
    }
  }

  /** `columnHeader(at:)`: the header at that position, or an unnamed header with that index. */
  function HeaderAt(hs: seq<ColumnHeader>, i: int): (h: ColumnHeader)
    ensures 0 <= i < |hs| ==> h == hs[i]
    ensures !(0 <= i < |hs|) ==> h == ColumnHeader(i, None)
  {
    if 0 <= i < |hs| then hs[i] else ColumnHeader(i, None)
  }

  /** `data[h, default: []].append(cell)`: an existing column keeps its key header. */
  function AppendCell(data: map<int, Column>, h: ColumnHeader, cell: string): map<int, Column> {
    if h.index in data then data[h.index := Column(data[h.index].key, data[h.index].cells + [cell])]
    else data[h.index := Column(h, [cell])]
  }

  /** The cells of one row appended, left to right, under `columnHeader(at:)` of their positions. */
  function AddRow(data: map<int, Column>, hs: seq<ColumnHeader>, row: seq<string>): map<int, Column>
    decreases |row|
  {
    if |row| == 0 then data
    else AppendCell(AddRow(data, hs, row[..|row| - 1]), HeaderAt(hs, |row| - 1), row[|row| - 1])
  }

  /** Rows appended in order. */
  function AddRows(data: map<int, Column>, hs: seq<ColumnHeader>, rows: seq<seq<string>>): map<int, Column>
    decreases |rows|
  {
    if |rows| == 0 then data
    else AddRow(AddRows(data, hs, rows[..|rows| - 1]), hs, rows[|rows| - 1])
  }

  /** The `c`-th cell of every row. */
  function ColumnOf(rows: seq<seq<string>>, c: nat): (col: seq<string>)
    requires forall r :: 0 <= r < |rows| ==> c < |rows[r]|
    ensures |col| == |rows| && forall r :: 0 <= r < |rows| ==> col[r] == rows[r][c]
  {
    seq(|rows|, r requires 0 <= r < |rows| => rows[r][c])
  }

  /** The header row written by `write`: each header's name, or `""`. */
  function NameRow(hs: seq<ColumnHeader>): (r: seq<string>)
    ensures |r| == |hs|
    ensures forall i :: 0 <= i < |hs| ==> r[i] == hs[i].name.GetOr("")
  {
    seq(|hs|, i requires 0 <= i < |hs| => hs[i].name.GetOr(""))
  }

  /** `hasHeaderRow`: some dictionary key carries a name. */
  predicate HasNamedKey(data: map<int, Column>) {
    exists k :: k in data && data[k].key.name.Some?
  }

  /** A data row as `write` emits it: each header's cell, or `""` where the header has no column. */
  function RowOut(hs: seq<ColumnHeader>, data: map<int, Column>, r: nat): (row: seq<string>)
    requires forall k :: k in data ==> r < |data[k].cells|
    ensures |row| == |hs|
    ensures forall c :: 0 <= c < |hs| ==>
      row[c] == if hs[c].index in data then data[hs[c].index].cells[r] else ""
  {
    seq(|hs|, c requires 0 <= c < |hs| => if hs[c].index in data then data[hs[c].index].cells[r] else "")
  }

  /** Everything `write(to:)` emits for a table with `n` rows. */
  function WriteLines(hs: seq<ColumnHeader>, data: map<int, Column>, n: nat): (lines: seq<seq<string>>)
    requires AllColumnsHave(data, n)
  {
    (if HasNamedKey(data) then [NameRow(hs)] else [])
      + seq(n, r requires 0 <= r < n => RowOut(hs, data, r))
  }

  /** The positions whose flag is set, in increasing order. */
  function KeptIndices(flags: seq<bool>): (ks: seq<nat>)
    ensures forall j :: 0 <= j < |ks| ==> ks[j] < |flags| && flags[ks[j]]
    ensures forall j, l :: 0 <= j < l < |ks| ==> ks[j] < ks[l]
    ensures forall i :: 0 <= i < |flags| && flags[i] ==> i in ks
    decreases |flags|
  {
    if |flags| == 0 then []
    else if flags[|flags| - 1] then KeptIndices(flags[..|flags| - 1]) + [|flags| - 1]
    else KeptIndices(flags[..|flags| - 1])
  }

  /** The cells at the kept positions, in order. */
  function Select(cells: seq<string>, flags: seq<bool>): (r: seq<string>)
    requires |cells| == |flags|
    ensures |r| == |KeptIndices(flags)|
    ensures forall j :: 0 <= j < |r| ==> r[j] == cells[KeptIndices(flags)[j]]
  {
    var ks := KeptIndices(flags);
    seq(|ks|, j requires 0 <= j < |ks| => cells[ks[j]])
  }

  /** The dictionary `filter` leaves: every column cut down to the kept rows. */
  function FilterColumns(data: map<int, Column>, flags: seq<bool>): (r: map<int, Column>)
    requires AllColumnsHave(data, |flags|)
    ensures r.Keys == data.Keys
    ensures forall k :: k in r ==> r[k] == Column(data[k].key, Select(data[k].cells, flags))
  {
    map k | k in data :: Column(data[k].key, Select(data[k].cells, flags))
  }

  /** `renameColumn`'s new headers, each rebuilt by `CSVColumnHeader(index:name:)`. */
  function RenamedHeaders(hs: seq<ColumnHeader>, originalName: string, newName: string): (r: seq<ColumnHeader>)
    ensures |r| == |hs|
    ensures forall i :: 0 <= i < |hs| ==>
      r[i] == MakeHeader(hs[i].index, if hs[i].name == Some(originalName) then Some(newName) else hs[i].name)
  {
    seq(|hs|, i requires 0 <= i < |hs| =>
      MakeHeader(hs[i].index, if hs[i].name == Some(originalName) then Some(newName) else hs[i].name))
  }

  /** Every header has a column holding a cell at row `r`. */
  predicate HasRow(hs: seq<ColumnHeader>, data: map<int, Column>, r: int) {
    forall c :: 0 <= c < |hs| ==> hs[c].index in data && 0 <= r < |data[hs[c].index].cells|
  }

  /** The cells of row `r` in header order: `subscript(row:)` get. */
  function RowAt(hs: seq<ColumnHeader>, data: map<int, Column>, r: int): (row: seq<string>)
    requires HasRow(hs, data, r)
    ensures |row| == |hs|
    ensures forall c :: 0 <= c < |hs| ==> row[c] == data[hs[c].index].cells[r]
  {
    seq(|hs|, c requires 0 <= c < |hs| => data[hs[c].index].cells[r])
  }

  /** `appendRow(_:)` on the dictionary: the first `n` columns each gain one cell. */
  function WithRowAppended(data: map<int, Column>, n: nat, row: seq<string>): (r: map<int, Column>)
    requires |row| >= n
    ensures r.Keys == data.Keys
  {
    map k | k in data :: if 0 <= k < n then Column(data[k].key, data[k].cells + [row[k]]) else data[k]
  }

  /** `subscript(row:)` set inside the table: the first `n` columns each have cell `i` replaced. */
  function WithRowSet(data: map<int, Column>, n: nat, i: nat, row: seq<string>): (r: map<int, Column>)
    requires |row| >= n
    requires forall k :: k in data && 0 <= k < n ==> i < |data[k].cells|
    ensures r.Keys == data.Keys
  {
    map k | k in data :: if 0 <= k < n then Column(data[k].key, data[k].cells[i := row[k]]) else data[k]
  }

  lemma WithRowSetStep(data: map<int, Column>, c: nat, i: nat, row: seq<string>)
    requires |row| > c && c in data
    requires forall k :: k in data && 0 <= k <= c ==> i < |data[k].cells|
    ensures var d := WithRowSet(data, c, i, row);
      d[c := Column(d[c].key, d[c].cells[i := row[c]])] == WithRowSet(data, c + 1, i, row)
  {
  }

  /** A map over the positions `0 .. c - 1` extended by position `c`. */
  lemma MapPrefixStep(m: map<int, string>, cells: seq<string>, c: nat)
    requires c < |cells|
    requires m == map c' | 0 <= c' < c :: cells[c']
    ensures m[c := cells[c]] == map c' | 0 <= c' < c + 1 :: cells[c']
  {
  }

  /** The cells `appendRow(_: [String: String])` appends: the named cell, or `""`. */
  function DictCells(hs: seq<ColumnHeader>, row: map<string, string>): (cells: seq<string>)
    requires forall c :: 0 <= c < |hs| ==> hs[c].name.Some?
    ensures |cells| == |hs|
    ensures forall c :: 0 <= c < |hs| ==>
      cells[c] == if hs[c].name.value in row then row[hs[c].name.value] else ""
  {
    seq(|hs|, c requires 0 <= c < |hs| => if hs[c].name.value in row then row[hs[c].name.value] else "")
  }

  /** The row dictionary `filter` hands to its predicate, keyed by header index. */
  function RowDict(hs: seq<ColumnHeader>, data: map<int, Column>, r: nat): (d: map<int, string>)
    requires forall c :: 0 <= c < |hs| ==> hs[c].index in data && r < |data[hs[c].index].cells|
  {
    map c | 0 <= c < |hs| :: data[hs[c].index].cells[r]
  }

  /** The predicate's verdict on every row. */
  function RowFlags(hs: seq<ColumnHeader>, data: map<int, Column>, n: nat, isIncluded: map<int, string> -> bool): (flags: seq<bool>)
    requires forall c :: 0 <= c < |hs| ==> hs[c].index in data && n <= |data[hs[c].index].cells|
    ensures |flags| == n
  {
    seq(n, r requires 0 <= r < n => isIncluded(RowDict(hs, data, r)))
  }

  /** The headers `read(from:)` appends: one per header-row name, else one unnamed per cell of the first row. */
  function ReadHeaders(reader: CsvReader): seq<ColumnHeader>
    requires |reader.rows| > 0
  {
    if reader.headerRow.Some? then
      seq(|reader.headerRow.value|, i requires 0 <= i < |reader.headerRow.value| => MakeHeader(i, Some(reader.headerRow.value[i])))
    else
      seq(|reader.rows[0]|, i requires 0 <= i < |reader.rows[0]| => MakeHeader(i, None))
  }

  /** The name map after appending `news` one by one to `hs`, each append running the `didSet`. */
  function MapAfterAppends(m: map<string, ColumnHeader>, hs: seq<ColumnHeader>, news: seq<ColumnHeader>): map<string, ColumnHeader>
    decreases |news|
  {
    if |news| == 0 then m
    else
      var pre := news[..|news| - 1];
      Registered(MapAfterAppends(m, hs, pre), Reindexed(hs + pre) + [news[|news| - 1]])
  }

  // ----- lemmas about the specification -----

  /** Renumbering after an append is renumbering the whole sequence. */
  lemma ReindexedAppend(hs: seq<ColumnHeader>, h: ColumnHeader)
    ensures Reindexed(Reindexed(hs) + [h]) == Reindexed(hs + [h])
  {
  }

  /** A positional sequence is its own renumbering. */
  lemma ReindexedPositional(hs: seq<ColumnHeader>)
    requires Positional(hs)
    ensures Reindexed(hs) == hs
  {
  }

  /** Appending a cell keeps every entry under its key's index. */
  lemma AppendCellKeyed(data: map<int, Column>, h: ColumnHeader, cell: string)
    requires KeyedByIndex(data)
    ensures KeyedByIndex(AppendCell(data, h, cell))
  {
  }

  lemma {:induction false} AddRowKeyed(data: map<int, Column>, hs: seq<ColumnHeader>, row: seq<string>)
    requires KeyedByIndex(data)
    ensures KeyedByIndex(AddRow(data, hs, row))
    decreases |row|
  {
    if |row| > 0 {
      AddRowKeyed(data, hs, row[..|row| - 1]);
      AppendCellKeyed(AddRow(data, hs, row[..|row| - 1]), HeaderAt(hs, |row| - 1), row[|row| - 1]);
    }
  }

  lemma {:induction false} AddRowsKeyed(data: map<int, Column>, hs: seq<ColumnHeader>, rows: seq<seq<string>>)
    requires KeyedByIndex(data)
    ensures KeyedByIndex(AddRows(data, hs, rows))
    decreases |rows|
  {
    if |rows| > 0 {
      AddRowsKeyed(data, hs, rows[..|rows| - 1]);
      AddRowKeyed(AddRows(data, hs, rows[..|rows| - 1]), hs, rows[|rows| - 1]);
    }
  }

  /** The cells of column `c`, or none when it is absent. */
  function CellsOr(data: map<int, Column>, c: int): seq<string> {
    if c in data then data[c].cells else []
  }

  /**
    `r` is `data` with one row's first `k` cells appended: column `c < k`
    gains `row[c]`, created under `columnHeader(at: c)` when absent, and
    nothing else changes.
   */
  ghost predicate RowAdded(data: map<int, Column>, r: map<int, Column>, hs: seq<ColumnHeader>, row: seq<string>, k: nat)
    requires k <= |row|
  {
    (forall key :: key in r <==> key in data || 0 <= key < k)
    && (forall key :: key in data && !(0 <= key < k) ==> r[key] == data[key])
    && (forall c :: 0 <= c < k ==>
          r[c] == Column(if c in data then data[c].key else HeaderAt(hs, c), CellsOr(data, c) + [row[c]]))
  }

  lemma {:induction false} AddRowEffect(data: map<int, Column>, hs: seq<ColumnHeader>, row: seq<string>, k: nat)
    requires Positional(hs)
    requires k <= |row|
    ensures RowAdded(data, AddRow(data, hs, row[..k]), hs, row, k)
    decreases k
  {
    if k > 0 {
      AddRowEffect(data, hs, row, k - 1);
      assert row[..k][..k - 1] == row[..k - 1];
      var r0 := AddRow(data, hs, row[..k - 1]);
      assert AddRow(data, hs, row[..k]) == AppendCell(r0, HeaderAt(hs, k - 1), row[k - 1]);
      RowAddedStep(data, r0, hs, row, k);
    }
  }

  /** Appending cell `k - 1` under its header extends a row added up to `k - 1` to one added up to `k`. */
  lemma RowAddedStep(data: map<int, Column>, r0: map<int, Column>, hs: seq<ColumnHeader>, row: seq<string>, k: nat)
    requires Positional(hs)
    requires 0 < k <= |row|
    requires RowAdded(data, r0, hs, row, k - 1)
    ensures RowAdded(data, AppendCell(r0, HeaderAt(hs, k - 1), row[k - 1]), hs, row, k)
  {
    var h := HeaderAt(hs, k - 1);
    assert h.index == k - 1;
    var r := AppendCell(r0, h, row[k - 1]);
    assert k - 1 !in r0 <==> k - 1 !in data;
    assert k - 1 in r0 ==> r0[k - 1] == data[k - 1];
    assert r[k - 1] == Column(if k - 1 in data then data[k - 1].key else h, CellsOr(data, k - 1) + [row[k - 1]]);
  }

  /** `d` holds exactly the columns `0 .. w - 1`, each under `columnHeader(at:)` with that position's cells. */
  ghost predicate ColumnsAre(d: map<int, Column>, hs: seq<ColumnHeader>, rows: seq<seq<string>>, w: nat) {
    (forall r :: 0 <= r < |rows| ==> |rows[r]| == w)
    && (forall key :: key in d <==> 0 <= key < w)
    && (forall c :: 0 <= c < w ==> d[c] == Column(HeaderAt(hs, c), ColumnOf(rows, c)))
  }

  lemma ColumnsGrow(d0: map<int, Column>, d1: map<int, Column>, hs: seq<ColumnHeader>, rows: seq<seq<string>>, last: seq<string>, w: nat)
    requires ColumnsAre(d0, hs, rows, w) && |last| == w
    requires RowAdded(d0, d1, hs, last, w)
    ensures ColumnsAre(d1, hs, rows + [last], w)
  {
    assert forall r :: 0 <= r < |rows + [last]| ==> |(rows + [last])[r]| == w;
    forall c | 0 <= c < w ensures d1[c] == Column(HeaderAt(hs, c), ColumnOf(rows + [last], c)) {
      assert c in d0 && d0[c] == Column(HeaderAt(hs, c), ColumnOf(rows, c));
      assert d1[c] == Column(d0[c].key, d0[c].cells + [last[c]]);
      ColumnOfSnoc(rows, last, c);
    }
  }

  lemma ColumnOfSnoc(rows: seq<seq<string>>, last: seq<string>, c: nat)
    requires forall r :: 0 <= r < |rows| ==> c < |rows[r]|
    requires c < |last|
    ensures ColumnOf(rows + [last], c) == ColumnOf(rows, c) + [last[c]]
  {
  }

  /**
    Reading rows of equal width `w` into an empty dictionary gives the
    columns `0 .. w - 1`, each under `columnHeader(at:)` and holding that
    position's cell of every row, in row order.
   */
  lemma {:induction false} AddRowsFresh(hs: seq<ColumnHeader>, rows: seq<seq<string>>, w: nat, n: nat)
    requires Positional(hs)
    requires 1 <= n <= |rows|
    requires forall r :: 0 <= r < |rows| ==> |rows[r]| == w
    ensures ColumnsAre(AddRows(map[], hs, rows[..n]), hs, rows[..n], w)
    decreases n
  {
    var last := rows[n - 1];
    assert rows[..n] == rows[..n - 1] + [last];
    assert rows[..n][..n - 1] == rows[..n - 1];
    assert last[..w] == last;
    var d0 := AddRows(map[], hs, rows[..n - 1]);
    AddRowEffect(d0, hs, last, w);
    if n == 1 {
      assert d0 == map[];
      forall c | 0 <= c < w ensures ColumnOf(rows[..1], c) == [last[c]] {
      }
    } else {
      AddRowsFresh(hs, rows, w, n - 1);
      ColumnsGrow(d0, AddRows(map[], hs, rows[..n]), hs, rows[..n - 1], last, w);
    }
  }

  /** Writing columns laid out from named headers gives the names, then the rows. */
  lemma WriteColumns(hs: seq<ColumnHeader>, d: map<int, Column>, names: seq<string>, rows: seq<seq<string>>)
    requires |names| >= 1 && |hs| == |names|
    requires forall i :: 0 <= i < |hs| ==> hs[i] == ColumnHeader(i, Some(names[i]))
    requires ColumnsAre(d, hs, rows, |names|)
    ensures AllColumnsHave(d, |rows|)
    ensures WriteLines(hs, d, |rows|) == [names] + rows
  {
    assert 0 in d && d[0].key.name.Some?;
    assert NameRow(hs) == names;
    forall r | 0 <= r < |rows| ensures RowOut(hs, d, r) == rows[r] {
    }
  }

  /** The headers read from a header row are named by it and numbered by position. */
  lemma ReadHeadersNamed(names: seq<string>, rows: seq<seq<string>>)
    requires |rows| >= 1
    requires forall i :: 0 <= i < |names| ==> !(|names[i]| > 0 && names[i][0] == Bom)
    ensures var hs := Reindexed([] + ReadHeaders(CsvReader(Some(names), rows)));
      |hs| == |names| && forall i :: 0 <= i < |hs| ==> hs[i] == ColumnHeader(i, Some(names[i]))
  {
    assert [] + ReadHeaders(CsvReader(Some(names), rows)) == ReadHeaders(CsvReader(Some(names), rows));
  }

  /**
    Reading a header row and rows of its width into an empty table, then
    writing the table, gives back the header row and the rows.
   */
  lemma ReadThenWrite(names: seq<string>, rows: seq<seq<string>>)
    requires |names| >= 1 && |rows| >= 1
    requires forall i :: 0 <= i < |names| ==> !(|names[i]| > 0 && names[i][0] == Bom)
    requires forall r :: 0 <= r < |rows| ==> |rows[r]| == |names|
    ensures var hs := Reindexed([] + ReadHeaders(CsvReader(Some(names), rows)));
      var d := AddRows(map[], hs, rows);
      AllColumnsHave(d, |rows|) && WriteLines(hs, d, |rows|) == [names] + rows
  {
    var hs := Reindexed([] + ReadHeaders(CsvReader(Some(names), rows)));
    ReadHeadersNamed(names, rows);
    AddRowsFresh(hs, rows, |names|, |rows|);
    assert rows[..|rows|] == rows;
    WriteColumns(hs, AddRows(map[], hs, rows), names, rows);
  }

  /** Filtering keeps, in order, exactly the rows whose flag is set. */
  lemma FilterKeepsAcceptedRows(hs: seq<ColumnHeader>, data: map<int, Column>, flags: seq<bool>, j: nat)
    requires AllColumnsHave(data, |flags|)
    requires forall c :: 0 <= c < |hs| ==> hs[c].index in data
    requires j < |KeptIndices(flags)|
    ensures AllColumnsHave(FilterColumns(data, flags), |KeptIndices(flags)|)
    ensures RowAt(hs, FilterColumns(data, flags), j) == RowAt(hs, data, KeptIndices(flags)[j])
  {
  }

  /** After an append, the new last row reads back as the appended cells. */
  lemma AppendedRowReadsBack(hs: seq<ColumnHeader>, data: map<int, Column>, n: nat, row: seq<string>)
    requires Positional(hs) && |row| >= |hs|
    requires forall c :: 0 <= c < |hs| ==> c in data && |data[c].cells| == n
    ensures RowAt(hs, WithRowAppended(data, |hs|, row), n) == row[..|hs|]
    ensures forall r :: 0 <= r < n ==> RowAt(hs, WithRowAppended(data, |hs|, row), r) == RowAt(hs, data, r)
  {
  }

  /** After a row is overwritten, it reads back as the new cells and every other row is as before. */
  lemma SetRowReadsBack(hs: seq<ColumnHeader>, data: map<int, Column>, n: nat, i: nat, row: seq<string>)
    requires Positional(hs) && |row| >= |hs| && i < n
    requires forall c :: 0 <= c < |hs| ==> c in data && |data[c].cells| == n
    ensures RowAt(hs, WithRowSet(data, |hs|, i, row), i) == row[..|hs|]
    ensures forall r :: 0 <= r < n && r != i ==> RowAt(hs, WithRowSet(data, |hs|, i, row), r) == RowAt(hs, data, r)
  {
  }

  /** An appended row makes every column under a header one cell longer. */
  lemma AppendRowGrowsEveryColumn(data: map<int, Column>, n: nat, m: nat, row: seq<string>)
    requires |row| >= n
    requires forall k :: k in data ==> 0 <= k < n
    requires AllColumnsHave(data, m)
    ensures AllColumnsHave(WithRowAppended(data, n, row), m + 1)
  {
  }

  /** Renaming keeps every header's index and touches only the names equal to the old one. */
  lemma RenameKeepsIndices(hs: seq<ColumnHeader>, originalName: string, newName: string)
    requires Positional(hs)
    requires forall i :: 0 <= i < |hs| && hs[i].name.Some? ==> !(|hs[i].name.value| > 0 && hs[i].name.value[0] == Bom)
    requires !(|newName| > 0 && newName[0] == Bom)
    ensures Reindexed(RenamedHeaders(hs, originalName, newName)) == RenamedHeaders(hs, originalName, newName)
    ensures forall i :: 0 <= i < |hs| ==> RenamedHeaders(hs, originalName, newName)[i].index == hs[i].index
    ensures forall i :: 0 <= i < |hs| ==>
      RenamedHeaders(hs, originalName, newName)[i].name == if hs[i].name == Some(originalName) then Some(newName) else hs[i].name
  {
    ReindexedPositional(RenamedHeaders(hs, originalName, newName));
  }

  /** The first position whose header carries `name`. */
  function FirstNamed(hs: seq<ColumnHeader>, name: string, from: nat): (i: nat)
    requires exists j :: from <= j < |hs| && hs[j].name == Some(name)
    ensures from <= i < |hs| && hs[i].name == Some(name)
    ensures forall j :: from <= j < i ==> hs[j].name != Some(name)
    decreases |hs| - from
  {
    if hs[from].name == Some(name) then from else FirstNamed(hs, name, from + 1)
  }

  lemma NonEmptySetHasElement(s: set<int>)
    requires s != {}
    ensures exists k :: k in s
  {
    if forall k :: k !in s {
      assert false;
    }
  }

  /** The removal `filter` performs on the copy: every column loses the rejected rows. */
  method DropRows(data: map<int, Column>, flags: seq<bool>) returns (kept: map<int, Column>)
    requires AllColumnsHave(data, |flags|)
    ensures kept == FilterColumns(data, flags)
  {
    kept := map[];
    var keys := data.Keys;
    while keys != {}
      invariant keys <= data.Keys
      invariant kept.Keys == data.Keys - keys
      invariant forall k :: k in kept ==> kept[k] == Column(data[k].key, Select(data[k].cells, flags))
      decreases keys
    {
      NonEmptySetHasElement(keys);
      var k :| k in keys;
      kept := kept[k := Column(data[k].key, Select(data[k].cells, flags))];
      keys := keys - {k};
    }
    assert kept.Keys == data.Keys;
    assert forall k :: k in kept ==> kept[k] == FilterColumns(data, flags)[k];
  }

  /** The `CSV` value: positional headers, the name map, and the column dictionary. */
  class Csv {
    var headers: seq<ColumnHeader>
    var nameToColumnMap: map<string, ColumnHeader>
    var data: map<int, Column>

    /** Headers sit at their positions and columns under their keys' indices. */
    ghost predicate Valid()
      reads this
    {
      Positional(headers) && KeyedByIndex(data)
    }

    /** Every header has a column, which `data[column]!` demands. */
    ghost predicate Covered()
      reads this
    {
      forall c :: 0 <= c < |headers| ==> headers[c].index in data
    }

    /** `init()`. */
    constructor ()
      ensures headers == [] && nameToColumnMap == map[] && data == map[]
      ensures Valid()
    {
      headers := [];
      nameToColumnMap := map[];
      data := map[];
    }

    /** The copy `build(self)` makes. */
    constructor Copy(hs: seq<ColumnHeader>, m: map<string, ColumnHeader>, d: map<int, Column>)
      ensures headers == hs && nameToColumnMap == m && data == d
    {
      headers := hs;
      nameToColumnMap := m;
      data := d;
    }

    /**
      An assignment to `headers` followed by its `didSet`: each header's
      index becomes its position, and each named header, as assigned, is
      registered under its name.
     */
    method AssignHeaders(newHeaders: seq<ColumnHeader>)
      modifies this
      ensures headers == Reindexed(newHeaders)
      ensures nameToColumnMap == Registered(old(nameToColumnMap), newHeaders)
      ensures data == old(data)
    {
      headers := newHeaders;
      var index := 0;
      assert newHeaders[0..] == newHeaders;
      while index < |newHeaders|
        invariant 0 <= index <= |newHeaders|
        invariant |headers| == |newHeaders|
        invariant forall i :: 0 <= i < index ==> headers[i] == newHeaders[i].(index := i)
        invariant forall i :: index <= i < |newHeaders| ==> headers[i] == newHeaders[i]
        invariant Registered(nameToColumnMap, newHeaders[index..]) == Registered(old(nameToColumnMap), newHeaders)
        invariant data == old(data)
      {
        var column := newHeaders[index];
        assert newHeaders[index..][1..] == newHeaders[index + 1..];
        headers := headers[index := headers[index].(index := index)];
        if column.name.Some? {
          nameToColumnMap := nameToColumnMap[column.name.value := column];
        }
        index := index + 1;
      }
    }

    /** `headers.append(h)` for each of `news`, one assignment (and `didSet`) per header. */
    method AppendHeaders(news: seq<ColumnHeader>)
      requires Valid()
      modifies this
      ensures headers == Reindexed(old(headers) + news)
      ensures nameToColumnMap == MapAfterAppends(old(nameToColumnMap), old(headers), news)
      ensures data == old(data)
      ensures Valid()
    {
      ReindexedPositional(headers);
      assert old(headers) + news[..0] == old(headers);
      var i := 0;
      while i < |news|
        invariant 0 <= i <= |news|
        invariant headers == Reindexed(old(headers) + news[..i])
        invariant nameToColumnMap == MapAfterAppends(old(nameToColumnMap), old(headers), news[..i])
        invariant data == old(data)
      {
        ReindexedAppend(old(headers) + news[..i], news[i]);
        assert old(headers) + news[..i] + [news[i]] == old(headers) + news[..i + 1];
        assert news[..i + 1][..i] == news[..i];
        AssignHeaders(headers + [news[i]]);
        i := i + 1;
      }
      assert news[..|news|] == news;
    }

    /** `columnHeader(at:)`. */
    function ColumnHeaderAt(index: int): (h: ColumnHeader)
      reads this
      ensures Valid() ==> h.index == index
      ensures 0 <= index < |headers| ==> h == headers[index]
      ensures !(0 <= index < |headers|) ==> h.name.None?
    {
      HeaderAt(headers, index)
    }

    /** `columnHeader(named:)`: the registered header, else the first header of that name. */
    function ColumnHeaderNamed(name: string): (h: ColumnHeader)
      reads this
      requires name in nameToColumnMap || exists j :: 0 <= j < |headers| && headers[j].name == Some(name)
      ensures name in nameToColumnMap ==> h == nameToColumnMap[name]
      ensures name !in nameToColumnMap ==>
        h.name == Some(name)
        && exists i :: 0 <= i < |headers| && headers[i] == h && forall j :: 0 <= j < i ==> headers[j].name != Some(name)
    {
      if name in nameToColumnMap then nameToColumnMap[name] else headers[FirstNamed(headers, name, 0)]
    }

    /** `renameColumn(named:to:)`: the map entry moves, then every header is rebuilt. */
    method RenameColumn(originalName: string, newName: string)
      requires Valid()
      requires newName !in nameToColumnMap
      modifies this
      ensures headers == Reindexed(RenamedHeaders(old(headers), originalName, newName))
      ensures nameToColumnMap == Registered(
        if originalName in old(nameToColumnMap) then old(nameToColumnMap)[newName := old(nameToColumnMap)[originalName]]
        else old(nameToColumnMap),
        RenamedHeaders(old(headers), originalName, newName))
      ensures data == old(data)
      ensures Valid()
    {
      if originalName in nameToColumnMap {
        nameToColumnMap := nameToColumnMap[newName := nameToColumnMap[originalName]];
      } else {
        nameToColumnMap := nameToColumnMap - {newName};
        assert nameToColumnMap == old(nameToColumnMap);
      }
      AssignHeaders(RenamedHeaders(headers, originalName, newName));
    }

    /** `rowCount`. */
    method RowCountOf() returns (n: nat)
      requires Rectangular(data)
      ensures n == RowCount(data)
      ensures AllColumnsHave(data, n)
    {
      if |data| == 0 {
        return 0;
      }
      NonEmptyMapHasKey(data);
      var k :| k in data.Keys;
      n := |data[k].cells|;
    }

    /** `subscript(row:)` get. */
    function GetRow(rowIndex: int): (row: seq<string>)
      reads this
      requires HasRow(headers, data, rowIndex)
      ensures row == RowAt(headers, data, rowIndex)
    {
      RowAt(headers, data, rowIndex)
    }

    /** `appendRow(_: [String])`. */
    method AppendRow(row: seq<string>)
      requires Valid() && Covered()
      requires |row| >= |headers|
      modifies this
      ensures headers == old(headers) && nameToColumnMap == old(nameToColumnMap)
      ensures data == WithRowAppended(old(data), |headers|, row)
      ensures Valid() && Covered()
    {
      var columnIndex := 0;
      while columnIndex < |headers|
        invariant 0 <= columnIndex <= |headers|
        invariant headers == old(headers) && nameToColumnMap == old(nameToColumnMap)
        invariant data == WithRowAppended(old(data), columnIndex, row)
      {
        var column := headers[columnIndex];
        data := data[column.index := Column(data[column.index].key, data[column.index].cells + [row[columnIndex]])];
        columnIndex := columnIndex + 1;
      }
    }

    /** `appendRow(_: [String: String])`: each header's named cell, or `""`. */
    method AppendRowDict(row: map<string, string>)
      requires Valid() && Covered()
      requires forall c :: 0 <= c < |headers| ==> headers[c].name.Some?
      modifies this
      ensures headers == old(headers) && nameToColumnMap == old(nameToColumnMap)
      ensures data == WithRowAppended(old(data), |headers|, DictCells(headers, row))
      ensures Valid() && Covered()
    {
      var columnIndex := 0;
      while columnIndex < |headers|
        invariant 0 <= columnIndex <= |headers|
        invariant headers == old(headers) && nameToColumnMap == old(nameToColumnMap)
        invariant data == WithRowAppended(old(data), columnIndex, DictCells(headers, row))
      {
        var column := headers[columnIndex];
        var cell := if column.name.value in row then row[column.name.value] else "";
        data := data[column.index := Column(data[column.index].key, data[column.index].cells + [cell])];
        columnIndex := columnIndex + 1;
      }
    }

    /**
      `appendColumn(named:)`: a header at the next position and a column of
      `rowCount` empty cells, stored under an existing key of that index if
      there is one.
     */
    method AppendColumn(headerName: Option<string>) returns (columnHeader: ColumnHeader)
      requires Valid() && Rectangular(data)
      modifies this
      ensures columnHeader == MakeHeader(|old(headers)|, headerName)
      ensures headers == old(headers) + [columnHeader]
      ensures nameToColumnMap == Registered(old(nameToColumnMap), old(headers) + [columnHeader])
      ensures data == old(data)[columnHeader.index := Column(
        if columnHeader.index in old(data) then old(data)[columnHeader.index].key else columnHeader,
        seq(RowCount(old(data)), _ => ""))]
      ensures Valid() && Rectangular(data)
    {
      var index := if |headers| == 0 then 0 else (|headers| - 1) + 1;
      columnHeader := MakeHeader(index, headerName);
      ReindexedPositional(headers + [columnHeader]);
      AssignHeaders(headers + [columnHeader]);
      var n := RowCountOf();
      var key := if columnHeader.index in data then data[columnHeader.index].key else columnHeader;
      data := data[columnHeader.index := Column(key, seq(n, _ => ""))];
    }

    /** `subscript(row:)` set: appends at `rowCount`, otherwise overwrites that row. */
    method SetRow(rowIndex: int, newValue: seq<string>)
      requires Valid() && Covered() && Rectangular(data)
      requires |newValue| >= |headers|
      requires 0 <= rowIndex <= RowCount(data)
      modifies this
      ensures headers == old(headers) && nameToColumnMap == old(nameToColumnMap)
      ensures rowIndex == old(RowCount(data)) ==> data == WithRowAppended(old(data), |headers|, newValue)
      ensures rowIndex < old(RowCount(data)) ==> data == WithRowSet(old(data), |headers|, rowIndex, newValue)
      ensures Valid() && Covered()
    {
      var n := RowCountOf();
      if rowIndex == n {
        AppendRow(newValue);
      } else {
        OverwriteRow(rowIndex, newValue);
      }
    }

    /** The overwriting branch of the setter: cell `rowIndex` of each header's column is replaced. */
    method OverwriteRow(rowIndex: nat, newValue: seq<string>)
      requires Valid() && Covered()
      requires |newValue| >= |headers|
      requires forall k :: k in data ==> rowIndex < |data[k].cells|
      modifies this
      ensures headers == old(headers) && nameToColumnMap == old(nameToColumnMap)
      ensures data == WithRowSet(old(data), |headers|, rowIndex, newValue)
      ensures Valid() && Covered()
    {
      var columnIndex := 0;
      while columnIndex < |headers|
        invariant 0 <= columnIndex <= |headers|
        invariant headers == old(headers) && nameToColumnMap == old(nameToColumnMap)
        invariant data == WithRowSet(old(data), columnIndex, rowIndex, newValue)
      {
        var column := headers[columnIndex];
        assert column.index == columnIndex && columnIndex in old(data);
        WithRowSetStep(old(data), columnIndex, rowIndex, newValue);
        data := data[column.index := Column(data[column.index].key, data[column.index].cells[rowIndex := newValue[columnIndex]])];
        columnIndex := columnIndex + 1;
      }
    }

    /**
      `filter(_:)`: the predicate sees each row as a dictionary from header
      to cell; the copy keeps the headers and name map and drops the
      rejected rows from every column.
     */
    method Filter(isIncluded: map<int, string> -> bool) returns (result: Csv)
      requires Valid() && Covered() && Rectangular(data)
      ensures fresh(result)
      ensures result.headers == headers && result.nameToColumnMap == nameToColumnMap
      ensures result.data == FilterColumns(data, RowFlags(headers, data, RowCount(data), isIncluded))
      ensures result.Valid()
    {
      var n := RowCountOf();
      var flags: seq<bool> := [];
      var rowIndex := 0;
      while rowIndex < n
        invariant 0 <= rowIndex <= n
        invariant flags == RowFlags(headers, data, rowIndex, isIncluded)
      {
        var row := RowDictionary(rowIndex);
        flags := flags + [isIncluded(row)];
        rowIndex := rowIndex + 1;
      }
      var kept := DropRows(data, flags);
      result := new Csv.Copy(headers, nameToColumnMap, kept);
    }

    /** The row dictionary `filter` builds: each header mapped to its cell in that row. */
    method RowDictionary(rowIndex: nat) returns (row: map<int, string>)
      requires Valid() && Covered()
      requires forall c :: 0 <= c < |headers| ==> rowIndex < |data[headers[c].index].cells|
      ensures row == RowDict(headers, data, rowIndex)
      ensures forall c :: 0 <= c < |headers| ==> c in row && row[c] == data[c].cells[rowIndex]
    {
      ghost var hs, d := headers, data;
      ghost var cells := seq(|hs|, c' requires 0 <= c' < |hs| => d[hs[c'].index].cells[rowIndex]);
      row := map[];
      var c := 0;
      while c < |headers|
        invariant 0 <= c <= |headers|
        invariant row == map c' | 0 <= c' < c :: cells[c']
      {
        assert headers[c].index == c && cells[c] == data[headers[c].index].cells[rowIndex];
        MapPrefixStep(row, cells, c);
        row := row[headers[c].index := data[headers[c].index].cells[rowIndex]];
        c := c + 1;
      }
      assert RowDict(headers, data, rowIndex) == map c' | 0 <= c' < |headers| :: cells[c'];
    }

    /**
      `read(from:)`: nothing without a first row; otherwise the headers of
      the header row (or one unnamed header per cell of the first row) are
      appended, then every cell of every row is appended to the column of
      its position.
     */
    method Read(reader: CsvReader)
      requires Valid()
      modifies this
      ensures |reader.rows| == 0 ==>
        headers == old(headers) && nameToColumnMap == old(nameToColumnMap) && data == old(data)
      ensures |reader.rows| > 0 ==>
        headers == Reindexed(old(headers) + ReadHeaders(reader))
        && nameToColumnMap == MapAfterAppends(old(nameToColumnMap), old(headers), ReadHeaders(reader))
        && data == AddRows(old(data), headers, reader.rows)
      ensures Valid()
    {
      if |reader.rows| == 0 {
        return;
      }
      AppendHeaders(ReadHeaders(reader));
      var rows := reader.rows;
      var r := 0;
      while r < |rows|
        invariant 0 <= r <= |rows|
        invariant Valid()
        invariant headers == Reindexed(old(headers) + ReadHeaders(reader))
        invariant nameToColumnMap == MapAfterAppends(old(nameToColumnMap), old(headers), ReadHeaders(reader))
        invariant data == AddRows(old(data), headers, rows[..r])
      {
        var row := rows[r];
        var columnIndex := 0;
        while columnIndex < |row|
          invariant 0 <= columnIndex <= |row|
          invariant headers == Reindexed(old(headers) + ReadHeaders(reader))
          invariant nameToColumnMap == MapAfterAppends(old(nameToColumnMap), old(headers), ReadHeaders(reader))
          invariant data == AddRow(AddRows(old(data), headers, rows[..r]), headers, row[..columnIndex])
        {
          assert row[..columnIndex + 1][..columnIndex] == row[..columnIndex];
          var h := ColumnHeaderAt(columnIndex);
          if h.index in data {
            data := data[h.index := Column(data[h.index].key, data[h.index].cells + [row[columnIndex]])];
          } else {
            data := data[h.index := Column(h, [row[columnIndex]])];
          }
          columnIndex := columnIndex + 1;
        }
        assert row[..|row|] == row;
        assert rows[..r + 1][..r] == rows[..r];
        AddRowsKeyed(old(data), headers, rows[..r + 1]);
        r := r + 1;
      }
      assert rows[..|rows|] == rows;
    }

    /** `write(to:)`: the name row when some column is named, then every row. */
    method Write() returns (lines: seq<seq<string>>)
      requires Rectangular(data)
      ensures lines == WriteLines(headers, data, RowCount(data))
    {
      lines := [];
      if HasNamedKey(data) {
        lines := [NameRow(headers)];
      }
      var prefix := lines;
      var n := RowCountOf();
      var hs, d := headers, data;
      var rowIndex := 0;
      while rowIndex < n
        invariant 0 <= rowIndex <= n
        invariant lines == prefix + seq(rowIndex, r requires 0 <= r < rowIndex => RowOut(hs, d, r))
      {
        lines := lines + [RowOut(hs, d, rowIndex)];
        rowIndex := rowIndex + 1;
      }
    }
  }
}
