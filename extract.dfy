/** The triple extractor: the grid of stringified cell values that the CSV
    reader produces is scanned in row-major order, the cells that hold a
    value are kept, and every two consecutive kept cells of one row are
    linked by a `next_to` triple. */
module Extract {
  import opened Text

  /** One extracted relation. `relation` is the record's `predicate` field and `kind` its `type` field. */
  datatype Triple = Triple(
    subject: string, relation: string, object: string,
    kind: string, space: string, createdAt: string)

  /** A kept cell: its trimmed value, its position and its column's name. */
  datatype Cell = Cell(value: string, row: nat, col: nat, colName: string)

  /** The CSV reader's output: column names and data rows of `str()`-ed values. */
  datatype Frame = Frame(columns: seq<string>, rows: seq<seq<string>>)

  /** A data frame is rectangular: every row has one value per column. */
  type Table = f: Frame | forall i :: 0 <= i < |f.rows| ==> |f.rows[i]| == |f.columns|
    witness Frame([], [])

  /** The wall clock as seen by the scan: the ISO-8601 time read while the
      scan is at pair `i` of the kept cells. */
  type Clock = nat -> string

  const NextTo: string := "next_to"
  const RowAdjacentKind: string := "row_adjacent"
  /** What `str()` gives for a missing value. */
  const MissingMarker: string := "nan"

  /** A cell is kept when its trimmed text is neither empty nor the missing marker. */
  predicate Kept(raw: string) {
    Trim(raw) != "" && Trim(raw) != MissingMarker
  }

  function CellAt(t: Table, i: nat, j: nat): Cell
    requires i < |t.rows| && j < |t.columns|
  {
    Cell(Trim(t.rows[i][j]), i, j, t.columns[j])
  }

  /** The kept cells among the first `n` columns of row `i`, left to right. */
  function RowCells(t: Table, i: nat, n: nat): seq<Cell>
    requires i < |t.rows| && n <= |t.columns|
  {
    if n == 0 then []
    else RowCells(t, i, n - 1) + (if Kept(t.rows[i][n - 1]) then [CellAt(t, i, n - 1)] else [])
  }

  /** The kept cells of the first `m` rows, in row-major order. */
  function ScanCells(t: Table, m: nat): seq<Cell>
    requires m <= |t.rows|
  {
    if m == 0 then [] else ScanCells(t, m - 1) + RowCells(t, m - 1, |t.columns|)
  }

  /** All kept cells of the frame, in row-major order. */
  function KeptCells(t: Table): seq<Cell> {
    ScanCells(t, |t.rows|)
  }

  /** The rows that hold at least one kept cell. */
  ghost function KeptRows(t: Table): set<nat> {
    set i: nat | i < |t.rows| && exists j :: 0 <= j < |t.columns| && Kept(t.rows[i][j])
  }

  /** The triple linking two neighbouring cells. */
  function Link(a: Cell, b: Cell, space: string, stamp: string): Triple {
    Triple(a.value, NextTo, b.value, RowAdjacentKind, space, stamp)
  }

  /** The number of consecutive pairs in `cells`. */
  function PairCount<T>(cells: seq<T>): nat {
    if |cells| == 0 then 0 else |cells| - 1
  }

  /** The triples of the first `n` consecutive pairs of `cells`: one for
      every pair whose cells share a row. */
  function Joins(cells: seq<Cell>, n: nat, space: string, clock: Clock): seq<Triple>
    requires n <= PairCount(cells)
  {
    if n == 0 then []
    else
      Joins(cells, n - 1, space, clock)
      + (if cells[n - 1].row == cells[n].row
         then [Link(cells[n - 1], cells[n], space, clock(n - 1))] else [])
  }

  /** The row-adjacency triples of a sequence of kept cells. */
  function RowAdjacent(cells: seq<Cell>, space: string, clock: Clock): seq<Triple> {
    Joins(cells, PairCount(cells), space, clock)
  }

  /** The indices `p < n` at which `cells[p]` and `cells[p + 1]` share a row,
      in increasing order: the pairs that produce a triple. */
  function JoinPoints(cells: seq<Cell>, n: nat): seq<nat>
    requires n <= PairCount(cells)
  {
    if n == 0 then []
    else JoinPoints(cells, n - 1) + (if cells[n - 1].row == cells[n].row then [n - 1] else [])
  }

  predicate Before(a: Cell, b: Cell) {
    a.row < b.row || (a.row == b.row && a.col < b.col)
  }

  /** Strictly increasing in row-major position. */
  ghost predicate ScanOrdered(cells: seq<Cell>) {
    forall a, b :: 0 <= a < b < |cells| ==> Before(cells[a], cells[b])
  }

  ghost predicate StrictlyIncreasing(ps: seq<nat>) {
    forall a, b :: 0 <= a < b < |ps| ==> ps[a] < ps[b]
  }

  /** The rows the first `m` cells lie in. */
  ghost function RowsUpTo(cells: seq<Cell>, m: nat): set<nat>
    requires m <= |cells|
  {
    set k | 0 <= k < m :: cells[k].row
  }

  /** The rows the cells lie in. */
  ghost function RowsOf(cells: seq<Cell>): set<nat> {
    RowsUpTo(cells, |cells|)
  }

  // ---------------------------------------------------------------------
  // The kept cells

  lemma OrderedConcat(a: seq<Cell>, b: seq<Cell>)
    requires ScanOrdered(a) && ScanOrdered(b)
    requires forall x, y :: 0 <= x < |a| && 0 <= y < |b| ==> Before(a[x], b[y])
    ensures ScanOrdered(a + b)
  {
    var s := a + b;
    forall x, y | 0 <= x < y < |s|
      ensures Before(s[x], s[y])
    {
      if y < |a| {
        assert s[x] == a[x] && s[y] == a[y];
      } else if x >= |a| {
        assert s[x] == b[x - |a|] && s[y] == b[y - |a|];
      } else {
        assert s[x] == a[x] && s[y] == b[y - |a|];
      }
    }
  }

  /** A kept cell of row `i` among the first `n` columns. */
  ghost predicate InRow(t: Table, i: nat, n: nat, c: Cell)
    requires i < |t.rows| && n <= |t.columns|
  {
    c.row == i && c.col < n && Kept(t.rows[i][c.col]) && c == CellAt(t, i, c.col)
  }

  /** A kept cell of the first `m` rows. */
  ghost predicate InRows(t: Table, m: nat, c: Cell)
    requires m <= |t.rows|
  {
    c.row < m && c.col < |t.columns| && Kept(t.rows[c.row][c.col]) && c == CellAt(t, c.row, c.col)
  }

  /** Every cell of a row's scan is a kept cell of that row. */
  lemma {:induction false} RowCellsSound(t: Table, i: nat, n: nat)
    requires i < |t.rows| && n <= |t.columns|
    ensures forall k :: 0 <= k < |RowCells(t, i, n)| ==> InRow(t, i, n, RowCells(t, i, n)[k])
  {
    if n > 0 {
      RowCellsSound(t, i, n - 1);
      var prev := RowCells(t, i, n - 1);
      forall k | 0 <= k < |prev|
        ensures InRow(t, i, n, prev[k])
      {
        assert InRow(t, i, n - 1, prev[k]);
      }
    }
  }

  /** Every kept value of a row appears in the row's scan. */
  lemma {:induction false} RowCellsComplete(t: Table, i: nat, n: nat)
    requires i < |t.rows| && n <= |t.columns|
    ensures forall j :: 0 <= j < n && Kept(t.rows[i][j]) ==> CellAt(t, i, j) in RowCells(t, i, n)
  {
    if n > 0 {
      RowCellsComplete(t, i, n - 1);
      var prev := RowCells(t, i, n - 1);
      forall j | 0 <= j < n - 1 && Kept(t.rows[i][j])
        ensures CellAt(t, i, j) in RowCells(t, i, n)
      {
        assert CellAt(t, i, j) in prev;
      }
    }
  }

  /** A row's scan holds cells of that row, among its first `n` columns. */
  lemma {:induction false} RowCellsAt(t: Table, i: nat, n: nat)
    requires i < |t.rows| && n <= |t.columns|
    ensures forall k :: 0 <= k < |RowCells(t, i, n)| ==>
      RowCells(t, i, n)[k].row == i && RowCells(t, i, n)[k].col < n
  {
    if n > 0 {
      RowCellsAt(t, i, n - 1);
    }
  }

  /** The scan of the first `m` rows holds cells of those rows. */
  lemma {:induction false} ScanCellsAt(t: Table, m: nat)
    requires m <= |t.rows|
    ensures forall k :: 0 <= k < |ScanCells(t, m)| ==> ScanCells(t, m)[k].row < m
  {
    if m > 0 {
      ScanCellsAt(t, m - 1);
      RowCellsAt(t, m - 1, |t.columns|);
      var prev: seq<Cell> := ScanCells(t, m - 1);
      var last: seq<Cell> := RowCells(t, m - 1, |t.columns|);
      var all: seq<Cell> := prev + last;
      forall k | 0 <= k < |all|
        ensures all[k].row < m
      {
        if k < |prev| {
          assert all[k] == prev[k];
        } else {
          assert all[k] == last[k - |prev|];
        }
      }
    }
  }

  /** A row's scan runs left to right. */
  lemma {:induction false} RowCellsOrdered(t: Table, i: nat, n: nat)
    requires i < |t.rows| && n <= |t.columns|
    ensures ScanOrdered(RowCells(t, i, n))
  {
    if n > 0 {
      RowCellsOrdered(t, i, n - 1);
      RowCellsAt(t, i, n - 1);
      var prev := RowCells(t, i, n - 1);
      var last := if Kept(t.rows[i][n - 1]) then [CellAt(t, i, n - 1)] else [];
      forall x, y | 0 <= x < |prev| && 0 <= y < |last|
        ensures Before(prev[x], last[y])
      {
      }
      OrderedConcat(prev, last);
    }
  }

  /** Every cell of the first `m` rows' scan is a kept cell of those rows. */
  lemma {:induction false} ScanCellsSound(t: Table, m: nat)
    requires m <= |t.rows|
    ensures forall k :: 0 <= k < |ScanCells(t, m)| ==> InRows(t, m, ScanCells(t, m)[k])
  {
    if m > 0 {
      ScanCellsSound(t, m - 1);
      RowCellsSound(t, m - 1, |t.columns|);
      var prev := ScanCells(t, m - 1);
      var row := RowCells(t, m - 1, |t.columns|);
      forall k | 0 <= k < |prev| + |row|
        ensures InRows(t, m, (prev + row)[k])
      {
        if k < |prev| {
          assert InRows(t, m - 1, prev[k]);
        } else {
          assert InRow(t, m - 1, |t.columns|, row[k - |prev|]);
        }
      }
    }
  }

  /** Every kept value of the first `m` rows appears in their scan. */
  lemma {:induction false} ScanCellsComplete(t: Table, m: nat)
    requires m <= |t.rows|
    ensures forall i, j :: 0 <= i < m && 0 <= j < |t.columns| && Kept(t.rows[i][j]) ==>
      CellAt(t, i, j) in ScanCells(t, m)
  {
    if m > 0 {
      ScanCellsComplete(t, m - 1);
      RowCellsComplete(t, m - 1, |t.columns|);
      var prev := ScanCells(t, m - 1);
      var row := RowCells(t, m - 1, |t.columns|);
      forall i, j | 0 <= i < m && 0 <= j < |t.columns| && Kept(t.rows[i][j])
        ensures CellAt(t, i, j) in prev + row
      {
        if i < m - 1 {
          assert CellAt(t, i, j) in prev;
        } else {
          assert CellAt(t, i, j) in row;
        }
      }
    }
  }

  /** The scan of the first `m` rows is in strictly increasing row-major order. */
  lemma {:induction false} ScanCellsOrdered(t: Table, m: nat)
    requires m <= |t.rows|
    ensures ScanOrdered(ScanCells(t, m))
  {
    if m > 0 {
      ScanCellsOrdered(t, m - 1);
      ScanCellsAt(t, m - 1);
      RowCellsAt(t, m - 1, |t.columns|);
      RowCellsOrdered(t, m - 1, |t.columns|);
      var prev := ScanCells(t, m - 1);
      var row := RowCells(t, m - 1, |t.columns|);
      forall x, y | 0 <= x < |prev| && 0 <= y < |row|
        ensures Before(prev[x], row[y])
      {
      }
      OrderedConcat(prev, row);
    }
  }

  /** A cell is kept exactly when its trimmed text is neither empty nor "nan";
      the kept cells carry that trimmed text, their position and column name,
      and come in strictly increasing row-major order. */
  lemma KeptCellsExact(t: Table)
    ensures forall k :: 0 <= k < |KeptCells(t)| ==>
      var c := KeptCells(t)[k];
      c.row < |t.rows| && c.col < |t.columns| && Kept(t.rows[c.row][c.col]) && c == CellAt(t, c.row, c.col)
    ensures forall i, j :: 0 <= i < |t.rows| && 0 <= j < |t.columns| && Kept(t.rows[i][j]) ==>
      CellAt(t, i, j) in KeptCells(t)
    ensures ScanOrdered(KeptCells(t))
  {
    ScanCellsSound(t, |t.rows|);
    ScanCellsComplete(t, |t.rows|);
    ScanCellsOrdered(t, |t.rows|);
    forall k | 0 <= k < |KeptCells(t)|
      ensures var c := KeptCells(t)[k];
        c.row < |t.rows| && c.col < |t.columns| && Kept(t.rows[c.row][c.col]) && c == CellAt(t, c.row, c.col)
    {
      assert InRows(t, |t.rows|, KeptCells(t)[k]);
    }
  }

  /** The rows of the kept cells are the rows holding a kept value. */
  lemma RowsOfKeptCells(t: Table)
    ensures RowsOf(KeptCells(t)) == KeptRows(t)
  {
    var cells := KeptCells(t);
    KeptCellsExact(t);
    forall r | r in RowsOf(cells)
      ensures r in KeptRows(t)
    {
      var k :| 0 <= k < |cells| && cells[k].row == r;
    }
    forall r | r in KeptRows(t)
      ensures r in RowsOf(cells)
    {
      var j :| 0 <= j < |t.columns| && Kept(t.rows[r][j]);
      var c := CellAt(t, r, j);
      assert c in cells;
      var k :| 0 <= k < |cells| && cells[k] == c;
      assert cells[k].row == r;
    }
  }

  // ---------------------------------------------------------------------
  // The adjacency triples

  /** The join points are the same-row pairs, each once, in increasing order. */
  lemma {:induction false} JoinPointsExact(cells: seq<Cell>, n: nat)
    requires n <= PairCount(cells)
    ensures forall k :: 0 <= k < |JoinPoints(cells, n)| ==> JoinPoints(cells, n)[k] < n
    ensures forall p: nat :: p in JoinPoints(cells, n) <==> p < n && cells[p].row == cells[p + 1].row
    ensures StrictlyIncreasing(JoinPoints(cells, n))
  {
    if n > 0 {
      JoinPointsExact(cells, n - 1);
    }
  }

  /** `ts[k]` links the two cells at join point `ps[k]`, for every `k`. */
  ghost predicate LinkedAt(cells: seq<Cell>, ps: seq<nat>, ts: seq<Triple>, space: string, clock: Clock) {
    && |ts| == |ps|
    && forall k :: 0 <= k < |ps| ==>
         ps[k] + 1 < |cells| && ts[k] == Link(cells[ps[k]], cells[ps[k] + 1], space, clock(ps[k]))
  }

  /** Triple `k` of the first `n` pairs links the cells of join point `k`. */
  lemma {:induction false} JoinsAtPoints(cells: seq<Cell>, n: nat, space: string, clock: Clock)
    requires n <= PairCount(cells)
    ensures LinkedAt(cells, JoinPoints(cells, n), Joins(cells, n, space, clock), space, clock)
  {
    if n > 0 {
      JoinsAtPoints(cells, n - 1, space, clock);
      var ps := JoinPoints(cells, n - 1);
      var ts := Joins(cells, n - 1, space, clock);
      if cells[n - 1].row == cells[n].row {
        var ps', ts' := ps + [n - 1], ts + [Link(cells[n - 1], cells[n], space, clock(n - 1))];
        assert JoinPoints(cells, n) == ps';
        assert Joins(cells, n, space, clock) == ts';
        forall k | 0 <= k < |ps'|
          ensures ps'[k] + 1 < |cells| && ts'[k] == Link(cells[ps'[k]], cells[ps'[k] + 1], space, clock(ps'[k]))
        {
          if k < |ps| {
            assert ps'[k] == ps[k] && ts'[k] == ts[k];
          }
        }
      } else {
        assert JoinPoints(cells, n) == ps;
        assert Joins(cells, n, space, clock) == ts;
      }
    }
  }

  /** What the row-adjacency rule emits: every triple is a `next_to` /
      `row_adjacent` triple of the given space whose subject and object are
      the values of two consecutive cells of one row; there is one for every
      such pair, none for a pair that straddles rows, and they come in scan
      order. */
  lemma RowAdjacentExact(cells: seq<Cell>, space: string, clock: Clock)
    ensures var ps := JoinPoints(cells, PairCount(cells));
      && LinkedAt(cells, ps, RowAdjacent(cells, space, clock), space, clock)
      && StrictlyIncreasing(ps)
      && (forall p: nat :: p in ps <==> p + 1 < |cells| && cells[p].row == cells[p + 1].row)
    ensures forall tr :: tr in RowAdjacent(cells, space, clock) ==>
      tr.relation == NextTo && tr.kind == RowAdjacentKind && tr.space == space
  {
    var ts := RowAdjacent(cells, space, clock);
    JoinPointsExact(cells, PairCount(cells));
    JoinsAtPoints(cells, PairCount(cells), space, clock);
    forall tr | tr in ts
      ensures tr.relation == NextTo && tr.kind == RowAdjacentKind && tr.space == space
    {
      var k :| 0 <= k < |ts| && ts[k] == tr;
    }
  }

  // ---------------------------------------------------------------------
  // Counting

  ghost predicate RowsSorted(cells: seq<Cell>) {
    forall a, b :: 0 <= a < b < |cells| ==> cells[a].row <= cells[b].row
  }

  /** Adding a cell adds its row; with rows sorted, that row is new exactly
      when the cell before it lies in another row. */
  lemma RowsUpToStep(cells: seq<Cell>, m: nat)
    requires RowsSorted(cells)
    requires 2 <= m <= |cells|
    ensures RowsUpTo(cells, m) == RowsUpTo(cells, m - 1) + {cells[m - 1].row}
    ensures cells[m - 1].row in RowsUpTo(cells, m - 1) <==> cells[m - 2].row == cells[m - 1].row
  {
    if cells[m - 1].row in RowsUpTo(cells, m - 1) {
      var k :| 0 <= k < m - 1 && cells[k].row == cells[m - 1].row;
      assert cells[k].row <= cells[m - 2].row;
    }
  }

  /** With rows sorted, the first `m - 1` pairs give one triple fewer than
      the first `m` cells, for every row those cells span. */
  lemma {:induction false} JoinsCountPrefix(cells: seq<Cell>, m: nat, space: string, clock: Clock)
    requires RowsSorted(cells)
    requires 1 <= m <= |cells|
    ensures |Joins(cells, m - 1, space, clock)| == m - |RowsUpTo(cells, m)|
  {
    if m == 1 {
      assert RowsUpTo(cells, 1) == {cells[0].row};
    } else {
      JoinsCountPrefix(cells, m - 1, space, clock);
      RowsUpToStep(cells, m);
    }
  }

  /** With rows sorted, the number of triples is the number of cells minus
      the number of rows they span. */
  lemma RowAdjacentCount(cells: seq<Cell>, space: string, clock: Clock)
    requires RowsSorted(cells)
    ensures |RowAdjacent(cells, space, clock)| == |cells| - |RowsOf(cells)|
  {
    if |cells| == 0 {
      assert RowsOf(cells) == {};
    } else {
      JoinsCountPrefix(cells, |cells|, space, clock);
    }
  }

  /** Over a whole frame: the number of triples is the number of kept cells
      minus the number of rows holding at least one kept cell. So a frame
      without rows yields none, and a row with one kept cell adds none. */
  lemma TripleCount(t: Table, space: string, clock: Clock)
    ensures |RowAdjacent(KeptCells(t), space, clock)| == |KeptCells(t)| - |KeptRows(t)|
  {
    var cells := KeptCells(t);
    KeptCellsExact(t);
    assert RowsSorted(cells) by {
      forall a, b | 0 <= a < b < |cells| ensures cells[a].row <= cells[b].row {
        assert Before(cells[a], cells[b]);
      }
    }
    RowAdjacentCount(cells, space, clock);
    RowsOfKeptCells(t);
  }

  // ---------------------------------------------------------------------
  // The extractor

  /** The inner loop of `csv_to_triples`: the kept cells of row `i`. */
  method ScanRow(t: Table, i: nat) returns (row: seq<Cell>)
    requires i < |t.rows|
    ensures row == RowCells(t, i, |t.columns|)
  {
    row := [];
    for j := 0 to |t.columns|
      invariant row == RowCells(t, i, j)
    {
      var value := Trim(t.rows[i][j]);
      if value != "" && value != MissingMarker {
        row := row + [Cell(value, i, j, t.columns[j])];
      }
    }
  }

  /** The nested loops of `csv_to_triples`: all kept cells, row by row. */
  method CollectCells(t: Table) returns (cells: seq<Cell>)
    ensures cells == KeptCells(t)
  {
    cells := [];
    for i := 0 to |t.rows|
      invariant cells == ScanCells(t, i)
    {
      var row := ScanRow(t, i);
      cells := cells + row;
    }
  }

  /** The second loop of `csv_to_triples`: a triple for every consecutive
      pair of cells that share a row. */
  method LinkNeighbours(cells: seq<Cell>, space: string, clock: Clock) returns (triples: seq<Triple>)
    ensures triples == RowAdjacent(cells, space, clock)
  {
    triples := [];
    var i := 0;
    while i + 1 < |cells|
      invariant i <= PairCount(cells)
      invariant triples == Joins(cells, i, space, clock)
    {
      if cells[i].row == cells[i + 1].row {
        triples := triples + [Link(cells[i], cells[i + 1], space, clock(i))];
      }
      i := i + 1;
    }
  }

  /** `csv_to_triples` from the reader's output onward: the kept cells are
      collected in scan order and same-row neighbours are linked. */
  method CsvToTriples(t: Table, space: string, clock: Clock) returns (triples: seq<Triple>)
    ensures triples == RowAdjacent(KeptCells(t), space, clock)
    ensures |triples| == |KeptCells(t)| - |KeptRows(t)|
  {
    var cells := CollectCells(t);
    triples := LinkNeighbours(cells, space, clock);
    TripleCount(t, space, clock);
  }

  // ---------------------------------------------------------------------
  // Examples

  /** A value without surrounding white space is its own trimmed text. */
  lemma TrimUnpadded(v: string)
    requires v != [] && !IsSpace(v[0]) && !IsSpace(v[|v| - 1])
    ensures Trim(v) == v
  {
    assert LeadingSpace(v) == 0;
    assert v[0..] == v;
  }

  /** The CSV text "a,b\n1,2\n" as the reader gives it: columns a, b and one row 1, 2. */
  const OneRowFrame: Table := Frame(["a", "b"], [["1", "2"]])

  /** That frame yields the single triple 1 next_to 2. */
  lemma OneRowExample(space: string, clock: Clock)
    ensures RowAdjacent(KeptCells(OneRowFrame), space, clock)
      == [Triple("1", NextTo, "2", RowAdjacentKind, space, clock(0))]
  {
    var t := OneRowFrame;
    TrimUnpadded("1");
    TrimUnpadded("2");
    var c0, c1 := Cell("1", 0, 0, "a"), Cell("2", 0, 1, "b");
    assert RowCells(t, 0, 1) == [c0];
    assert RowCells(t, 0, 2) == [c0, c1];
    assert KeptCells(t) == ScanCells(t, 0) + RowCells(t, 0, 2) == [c0, c1];
    assert Joins([c0, c1], 1, space, clock) == [Link(c0, c1, space, clock(0))];
  }

  /** A padded missing marker is skipped. */
  lemma PaddedMarkerSkipped()
    ensures !Kept(" nan ")
  {
    assert LeadingSpace(" nan ") == 1;
    assert " nan "[1..] == "nan ";
    assert TrailingSpace("nan ") == 1;
    assert "nan "[..3] == "nan";
  }

  /** A blank cell is skipped. */
  lemma BlankSkipped()
    ensures !Kept("  ")
  {
    assert LeadingSpace("  ") == 2;
    assert "  "[2..] == [];
  }

  /** A frame whose one row is x, a padded missing marker, a blank cell, y. */
  const SkippedFrame: Table := Frame(["a", "b", "c", "d"], [["x", " nan ", "  ", "y"]])

  /** The kept cells of that row are x and y. */
  lemma SkippedRow()
    ensures KeptCells(SkippedFrame) == [Cell("x", 0, 0, "a"), Cell("y", 0, 3, "d")]
  {
    var t := SkippedFrame;
    var cx, cy := Cell("x", 0, 0, "a"), Cell("y", 0, 3, "d");
    TrimUnpadded("x");
    TrimUnpadded("y");
    PaddedMarkerSkipped();
    BlankSkipped();
    assert RowCells(t, 0, 1) == [cx];
    assert RowCells(t, 0, 3) == [cx];
    assert RowCells(t, 0, 4) == [cx, cy];
    assert KeptCells(t) == ScanCells(t, 0) + RowCells(t, 0, 4);
  }

  /** Skipped cells are not placeholders: " nan " and a blank cell between
      x and y leave x and y adjacent. */
  lemma SkippedCellsExample(space: string, clock: Clock)
    ensures RowAdjacent(KeptCells(SkippedFrame), space, clock)
      == [Triple("x", NextTo, "y", RowAdjacentKind, space, clock(0))]
  {
    var cx, cy := Cell("x", 0, 0, "a"), Cell("y", 0, 3, "d");
    SkippedRow();
    assert Joins([cx, cy], 1, space, clock) == [Link(cx, cy, space, clock(0))];
  }
}
