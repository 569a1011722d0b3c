/** The connection matrix, packed as a default for each row and the cells that
    differ from it, and the runtime's lookup in the packed bytes. */
module Matrix {
  import opened Wrappers
  import opened Sequences
  import opened Wire

  datatype BuildError = RowTruncated | OverBudget

  const MAGIC_LEN := 4
  const HEADER_LEN := 16
  const ROW_LEN := 8
  const OVERRIDE_LEN := 4
  const MAX_MATRIX_IMAGE_BYTES := 4 * 1024 * 1024

  // -------------------------------------------------------------- row defaults

  function Count(costs: seq<u16>, cost: u16): nat {
    if costs == [] then 0
    else Count(costs[..|costs| - 1], cost) + if costs[|costs| - 1] == cost then 1 else 0
  }

  /** The most frequent cost; the smallest one among equally frequent ones. */
  ghost predicate IsMode(costs: seq<u16>, mode: u16) {
    && (forall c: u16 :: Count(costs, c) <= Count(costs, mode))
    && (forall c: u16 :: c < mode ==> Count(costs, c) < Count(costs, mode))
  }

  /** The mode, as the sweep finds it among the costs below a limit. */
  ghost function BestBelow(costs: seq<u16>, limit: nat): (best: u16)
    requires limit <= U16_MAX + 1
    ensures limit > 0 ==> best < limit
  {
    if limit == 0 then 0
    else
      var best := BestBelow(costs, limit - 1);
      if Count(costs, limit - 1) > Count(costs, best) then limit - 1 else best
  }

  ghost function Mode(costs: seq<u16>): u16 { BestBelow(costs, U16_MAX + 1) }

  lemma {:induction false} BestIsBest(costs: seq<u16>, limit: nat, c: u16)
    requires c < limit <= U16_MAX + 1
    ensures Count(costs, c) <= Count(costs, BestBelow(costs, limit))
    ensures c < BestBelow(costs, limit) ==> Count(costs, c) < Count(costs, BestBelow(costs, limit))
    decreases limit
  {
    hide Count;
    if c < limit - 1 { BestIsBest(costs, limit - 1, c); }
  }

  /** Every row has exactly one mode. */
  lemma ModeIsUnique(costs: seq<u16>, mode: u16)
    ensures IsMode(costs, mode) <==> mode == Mode(costs)
  {
    hide Count, BestBelow;
    forall c: u16
      ensures Count(costs, c) <= Count(costs, Mode(costs))
      ensures c < Mode(costs) ==> Count(costs, c) < Count(costs, Mode(costs))
    {
      BestIsBest(costs, U16_MAX + 1, c);
    }
    assert IsMode(costs, Mode(costs));
    if IsMode(costs, mode) {
      var best := Mode(costs);
      assert Count(costs, best) <= Count(costs, mode) && Count(costs, mode) <= Count(costs, best);
      assert !(best < mode) && !(mode < best);
    }
  }

  lemma {:induction false} CountAbsent(costs: seq<u16>, cost: u16)
    requires cost !in costs
    ensures Count(costs, cost) == 0
  {
    if costs != [] { CountAbsent(costs[..|costs| - 1], cost); }
  }

  method Frequencies(costs: seq<u16>) returns (frequencies: map<u16, nat>)
    ensures forall c: u16 :: c in frequencies <==> c in costs
    ensures forall c: u16 :: c in frequencies ==> frequencies[c] == Count(costs, c)
  {
    frequencies := map[];
    for i := 0 to |costs|
      invariant forall c: u16 :: c in frequencies <==> c in costs[..i]
      invariant forall c: u16 :: c in frequencies ==> frequencies[c] == Count(costs[..i], c)
    {
      var cost := costs[i];
      assert costs[..i + 1][..i] == costs[..i];
      if cost !in frequencies { CountAbsent(costs[..i], cost); }
      frequencies := frequencies[cost := (if cost in frequencies then frequencies[cost] else 0) + 1];
    }
    assert costs[..|costs|] == costs;
  }

  /** The sweep over the frequencies in ascending order of cost. */
  method RowMode(costs: seq<u16>) returns (mode: u16)
    ensures IsMode(costs, mode)
  {
    var frequencies := Frequencies(costs);
    mode := 0;
    var modeCount := 0;
    forall c: u16 | c !in costs ensures Count(costs, c) == 0 { CountAbsent(costs, c); }
    for cost := 0 to U16_MAX + 1
      invariant forall c: u16 :: c < cost ==> Count(costs, c) <= modeCount
      invariant forall c: u16 :: c < mode ==> Count(costs, c) < modeCount
      invariant modeCount == 0 ==> mode == 0
      invariant modeCount > 0 ==> mode < cost && modeCount == Count(costs, mode)
    {
      if cost in frequencies && frequencies[cost] > modeCount {
        mode, modeCount := cost, frequencies[cost];
      }
    }
  }

  // ---------------------------------------------------------------- overrides

  datatype Override = Override(leftId: u16, cost: u16)

  /** The cells of the first n columns that differ from the default. */
  function Overrides(costs: seq<u16>, mode: u16, n: nat): seq<Override>
    requires n <= |costs| <= U16_MAX + 1
  {
    if n == 0 then []
    else Overrides(costs, mode, n - 1) + if costs[n - 1] != mode then [Override(n - 1, costs[n - 1])] else []
  }

  function RowOverrides(costs: seq<u16>, mode: u16): seq<Override>
    requires |costs| <= U16_MAX + 1
  {
    Overrides(costs, mode, |costs|)
  }

  ghost predicate Overridden(o: seq<Override>, k: nat) { exists i :: 0 <= i < |o| && o[i].leftId == k }

  /** Exactly the differing cells of the first n columns, by ascending column. */
  ghost predicate ExactOverrides(costs: seq<u16>, mode: u16, n: nat, o: seq<Override>)
    requires n <= |costs|
  {
    && (forall i :: 0 <= i < |o| ==> o[i].leftId < n && costs[o[i].leftId] == o[i].cost != mode)
    && (forall i, j :: 0 <= i < j < |o| ==> o[i].leftId < o[j].leftId)
    && (forall k {:trigger Overridden(o, k)} :: 0 <= k < n && costs[k] != mode ==> Overridden(o, k))
  }

  lemma ExactStep(costs: seq<u16>, mode: u16, n: nat, front: seq<Override>)
    requires n < |costs| <= U16_MAX + 1 && ExactOverrides(costs, mode, n, front)
    ensures ExactOverrides(costs, mode, n + 1, front + if costs[n] != mode then [Override(n, costs[n])] else [])
  {
    var all := front + if costs[n] != mode then [Override(n, costs[n])] else [];
    forall k {:trigger Overridden(all, k)} | 0 <= k < n + 1 && costs[k] != mode ensures Overridden(all, k) {
      if k < n {
        assert Overridden(front, k);
        var i :| 0 <= i < |front| && front[i].leftId == k;
        assert all[i].leftId == k;
      } else {
        assert all[|front|].leftId == k;
      }
    }
  }

  lemma {:induction false} OverridesExact(costs: seq<u16>, mode: u16, n: nat)
    requires n <= |costs| <= U16_MAX + 1
    ensures ExactOverrides(costs, mode, n, Overrides(costs, mode, n))
    decreases n
  {
    if n > 0 {
      OverridesExact(costs, mode, n - 1);
      ExactStep(costs, mode, n - 1, Overrides(costs, mode, n - 1));
    }
  }

  lemma {:induction false} OverrideCount(costs: seq<u16>, mode: u16, n: nat)
    requires n <= |costs| <= U16_MAX + 1
    ensures |Overrides(costs, mode, n)| + Count(costs[..n], mode) == n
    decreases n
  {
    if n > 0 {
      OverrideCount(costs, mode, n - 1);
      assert costs[..n][..n - 1] == costs[..n - 1];
    }
  }

  /** No other default of a row needs fewer overrides. */
  lemma ModeIsBest(costs: seq<u16>, mode: u16, other: u16)
    requires |costs| <= U16_MAX + 1 && IsMode(costs, mode)
    ensures |RowOverrides(costs, mode)| <= |RowOverrides(costs, other)|
  {
    OverrideCount(costs, mode, |costs|);
    OverrideCount(costs, other, |costs|);
    assert costs[..|costs|] == costs;
  }

  // ---------------------------------------------------------------- the image

  datatype Row = Row(mode: u16, start: nat, count: nat)

  /** Everything encode_matrix collects before it writes bytes. */
  datatype Packed = Packed(classes: u16, rows: seq<Row>, overrides: seq<Override>)

  /** Where a row begins. */
  function RowStart(classes: nat, row: nat): nat { row * classes }

  function RowCosts(costs: seq<u16>, classes: nat, row: nat): (cells: seq<u16>)
    requires RowStart(classes, row) + classes <= |costs|
    ensures |cells| == classes
  {
    costs[RowStart(classes, row)..RowStart(classes, row) + classes]
  }

  /** Row r is described by its default and a stretch of the overrides. */
  ghost predicate Describes(p: Packed, costs: seq<u16>, r: nat)
  {
    && r < |p.rows| && RowStart(p.classes, r) + p.classes <= |costs|
    && var row, cells := p.rows[r], RowCosts(costs, p.classes, r);
    && IsMode(cells, row.mode)
    && row.start + row.count <= |p.overrides|
    && p.overrides[row.start..row.start + row.count] == RowOverrides(cells, row.mode)
  }

  lemma RowsFit(classes: nat, row: nat)
    requires row < classes
    ensures RowStart(classes, row) + classes == RowStart(classes, row + 1) <= RowStart(classes, classes)
  {
    assert (row + 1) * classes <= classes * classes;
  }

  /** How many cells of the first n rows differ from the mode of their row. */
  ghost function DifferingCells(costs: seq<u16>, classes: nat, n: nat): nat
    requires RowStart(classes, n) <= |costs|
  {
    if n == 0 then 0
    else
      assert RowStart(classes, n) == RowStart(classes, n - 1) + classes;
      var cells := RowCosts(costs, classes, n - 1);
      CountBound(cells, Mode(cells));
      DifferingCells(costs, classes, n - 1) + (classes - Count(cells, Mode(cells)))
  }

  lemma {:induction false} CountBound(costs: seq<u16>, cost: u16)
    ensures Count(costs, cost) <= |costs|
  {
    if costs != [] { CountBound(costs[..|costs| - 1], cost); }
  }

  lemma MoreDiffers(costs: seq<u16>, classes: u16, n: nat, mode: u16)
    requires RowStart(classes, n + 1) <= |costs| && RowStart(classes, n) + classes == RowStart(classes, n + 1)
    requires IsMode(RowCosts(costs, classes, n), mode)
    ensures DifferingCells(costs, classes, n + 1)
         == DifferingCells(costs, classes, n) + |RowOverrides(RowCosts(costs, classes, n), mode)|
  {
    var cells := RowCosts(costs, classes, n);
    ModeIsUnique(cells, mode);
    OverrideCount(cells, mode, |cells|);
    assert cells[..|cells|] == cells;
  }

  ghost predicate AllDescribed(p: Packed, costs: seq<u16>, n: nat) {
    forall r {:trigger Describes(p, costs, r)} :: 0 <= r < n ==> Describes(p, costs, r)
  }

  lemma NoRows(classes: nat)
    ensures RowStart(classes, 0) == 0
  {}

  /** The row loop. */
  method Pack(costs: seq<u16>, classes: u16) returns (r: Result<Packed, BuildError>)
    ensures r.Ok? <==> RowStart(classes, classes) <= |costs|
    ensures r.Ok? ==> r.value.classes == classes && |r.value.rows| == classes && AllDescribed(r.value, costs, classes)
    ensures r.Ok? ==> |r.value.overrides| <= RowStart(classes, classes)
    ensures r.Ok? ==> |r.value.overrides| == DifferingCells(costs, classes, classes)
    ensures r.Err? ==> r.error == RowTruncated
  {
    hide IsMode, RowOverrides, RowStart, Count, Mode;
    NoRows(classes);
    var rows: seq<Row>, overrides: seq<Override> := [], [];
    for row := 0 to classes
      invariant |rows| == row && RowStart(classes, row) <= |costs|
      invariant AllDescribed(Packed(classes, rows, overrides), costs, row)
      invariant |overrides| <= RowStart(classes, row) && |overrides| == DifferingCells(costs, classes, row)
    {
      RowsFit(classes, row);
      if RowStart(classes, row) + classes > |costs| { return Err(RowTruncated); }
      var cells := RowCosts(costs, classes, row);
      var mode := RowMode(cells);
      var first := |overrides|;
      var differing := CollectOverrides(cells, mode);
      ghost var before := Packed(classes, rows, overrides);
      overrides := overrides + differing;
      rows := rows + [Row(mode, first, |differing|)];
      RowPushed(before, costs, row, rows[row], differing);
      MoreDiffers(costs, classes, row, mode);
    }
    r := Ok(Packed(classes, rows, overrides));
  }

  method CollectOverrides(cells: seq<u16>, mode: u16) returns (o: seq<Override>)
    requires |cells| <= U16_MAX + 1
    ensures o == RowOverrides(cells, mode) && |o| <= |cells|
  {
    o := [];
    for leftId := 0 to |cells|
      invariant o == Overrides(cells, mode, leftId) && |o| <= leftId
    {
      if cells[leftId] != mode {
        o := o + [Override(leftId, cells[leftId])];
      } else {
        assert o + [] == o;
      }
    }
  }

  lemma RowPushed(p: Packed, costs: seq<u16>, row: nat, added: Row, differing: seq<Override>)
    requires AllDescribed(p, costs, row) && |p.rows| == row
    requires RowStart(p.classes, row) + p.classes <= |costs|
    requires IsMode(RowCosts(costs, p.classes, row), added.mode)
    requires differing == RowOverrides(RowCosts(costs, p.classes, row), added.mode)
    requires added.start == |p.overrides| && added.count == |differing|
    ensures AllDescribed(Packed(p.classes, p.rows + [added], p.overrides + differing), costs, row + 1)
  {
    hide IsMode, RowOverrides, RowCosts, RowStart;
    var q := Packed(p.classes, p.rows + [added], p.overrides + differing);
    forall r {:trigger Describes(q, costs, r)} | 0 <= r < row + 1 ensures Describes(q, costs, r) {
      if r < row {
        assert Describes(p, costs, r);
        assert q.rows[r] == p.rows[r];
        var kept := p.rows[r];
        assert q.overrides[kept.start..kept.start + kept.count] == p.overrides[kept.start..kept.start + kept.count];
      } else {
        assert q.overrides[added.start..added.start + added.count] == differing;
      }
    }
  }

  // ----------------------------------------------------------- bytes and lookup

  function AlignUp4(n: nat): nat { if n % 4 == 0 then n else n + (4 - n % 4) }

  function Header(magic: Bytes, p: Packed): Bytes {
    magic + (ToLe(p.classes, 2) + (ToLe(0, 2) + (ToLe(|p.overrides|, 4) + ToLe(0, 4))))
  }

  function ModeRecords(rows: seq<Row>): (parts: seq<Bytes>)
    ensures |parts| == |rows| && forall i :: 0 <= i < |rows| ==> parts[i] == Record([Field(rows[i].mode, 2)])
  {
    seq(|rows|, i requires 0 <= i < |rows| => Record([Field(rows[i].mode, 2)]))
  }

  function RowRecords(rows: seq<Row>): (parts: seq<Bytes>)
    ensures |parts| == |rows|
    ensures forall i :: 0 <= i < |rows| ==> parts[i] == Record([Field(rows[i].start, 4), Field(rows[i].count, 4)])
  {
    seq(|rows|, i requires 0 <= i < |rows| => Record([Field(rows[i].start, 4), Field(rows[i].count, 4)]))
  }

  function OverrideRecords(o: seq<Override>): (parts: seq<Bytes>)
    ensures |parts| == |o|
    ensures forall i :: 0 <= i < |o| ==> parts[i] == Record([Field(o[i].leftId, 2), Field(o[i].cost, 2)])
  {
    seq(|o|, i requires 0 <= i < |o| => Record([Field(o[i].leftId, 2), Field(o[i].cost, 2)]))
  }

  function Zeros(n: nat): (z: Bytes)
    ensures |z| == n && forall i :: 0 <= i < n ==> z[i] == 0
  {
    seq(n, _ => 0)
  }

  function Padding(classes: nat): (pad: Bytes)
    ensures HEADER_LEN + 2 * classes + |pad| == AlignUp4(HEADER_LEN + 2 * classes)
  {
    Zeros(AlignUp4(HEADER_LEN + 2 * classes) - (HEADER_LEN + 2 * classes))
  }

  /** The written image. */
  function Image(magic: Bytes, p: Packed): Bytes {
    Header(magic, p) + (Join(ModeRecords(p.rows)) + (Padding(p.classes) +
      (Join(RowRecords(p.rows)) + Join(OverrideRecords(p.overrides)))))
  }

  /** Binary search for a column among the overrides of a row. */
  function Search(matrix: Bytes, at: nat, low: nat, high: nat, column: nat, mode: nat): Option<nat>
    decreases high - low
  {
    if low >= high then Some(mode)
    else
      var middle := low + (high - low) / 2;
      match Read(matrix, at + OVERRIDE_LEN * middle, 2)
      case None => None
      case Some(leftId) =>
        if leftId < column then Search(matrix, at, middle + 1, high, column, mode)
        else if leftId > column then Search(matrix, at, low, middle, column, mode)
        else Read(matrix, at + OVERRIDE_LEN * middle + 2, 2)
  }

  function RowsAt(classes: nat): nat { AlignUp4(HEADER_LEN + 2 * classes) }

  /** connection_cost */
  function Lookup(matrix: Bytes, classes: nat, row: nat, column: nat): Option<nat> {
    if row >= classes || column >= classes then None
    else
      match (Read(matrix, HEADER_LEN + 2 * row, 2), Read(matrix, RowsAt(classes) + ROW_LEN * row, 4),
             Read(matrix, RowsAt(classes) + ROW_LEN * row + 4, 4))
      case (Some(mode), Some(start), Some(count)) =>
        Search(matrix, RowsAt(classes) + ROW_LEN * classes + OVERRIDE_LEN * start, 0, count, column, mode)
      case _ => None
  }

  method ConnectionCost(matrix: Bytes, classes: nat, row: nat, column: nat) returns (r: Option<nat>)
    ensures r == Lookup(matrix, classes, row, column)
  {
    hide Read, AlignUp4;
    if row >= classes || column >= classes { return None; }
    var mode := Read(matrix, HEADER_LEN + 2 * row, 2);
    var start := Read(matrix, RowsAt(classes) + ROW_LEN * row, 4);
    var count := Read(matrix, RowsAt(classes) + ROW_LEN * row + 4, 4);
    if mode.None? || start.None? || count.None? { return None; }
    var at := RowsAt(classes) + ROW_LEN * classes + OVERRIDE_LEN * start.value;
    var low: nat, high: nat := 0, count.value;
    while low < high
      invariant low <= high
      invariant Search(matrix, at, 0, count.value, column, mode.value) == Search(matrix, at, low, high, column, mode.value)
      decreases high - low
    {
      var middle := low + (high - low) / 2;
      var leftId := Read(matrix, at + OVERRIDE_LEN * middle, 2);
      if leftId.None? { return None; }
      if leftId.value < column {
        low := middle + 1;
      } else if leftId.value > column {
        high := middle;
      } else {
        return Read(matrix, at + OVERRIDE_LEN * middle + 2, 2);
      }
    }
    r := mode;
  }

  /** What each field of the image reads as. */
  ghost predicate Readable(matrix: Bytes, p: Packed) {
    && (forall r {:trigger p.rows[r]} :: 0 <= r < |p.rows| ==>
          && Read(matrix, HEADER_LEN + 2 * r, 2) == Some(p.rows[r].mode)
          && Read(matrix, RowsAt(p.classes) + ROW_LEN * r, 4) == Some(p.rows[r].start)
          && Read(matrix, RowsAt(p.classes) + ROW_LEN * r + 4, 4) == Some(p.rows[r].count))
    && (forall i {:trigger p.overrides[i]} :: 0 <= i < |p.overrides| ==>
          && Read(matrix, RowsAt(p.classes) + ROW_LEN * p.classes + OVERRIDE_LEN * i, 2) == Some(p.overrides[i].leftId)
          && Read(matrix, RowsAt(p.classes) + ROW_LEN * p.classes + OVERRIDE_LEN * i + 2, 2) == Some(p.overrides[i].cost))
  }

  /** The search finds the override of a column, or the default where there is none. */
  lemma {:induction false} SearchFinds(matrix: Bytes, at: nat, o: seq<Override>, low: nat, high: nat, column: nat, mode: nat)
    requires low <= high <= |o|
    requires forall i {:trigger o[i]} :: 0 <= i < |o| ==>
               Read(matrix, at + OVERRIDE_LEN * i, 2) == Some(o[i].leftId)
               && Read(matrix, at + OVERRIDE_LEN * i + 2, 2) == Some(o[i].cost)
    requires forall i, j :: 0 <= i < j < |o| ==> o[i].leftId < o[j].leftId
    requires forall i :: 0 <= i < |o| && o[i].leftId == column ==> low <= i < high
    ensures !Overridden(o, column) ==> Search(matrix, at, low, high, column, mode) == Some(mode)
    ensures forall i :: 0 <= i < |o| && o[i].leftId == column ==>
              Search(matrix, at, low, high, column, mode) == Some(o[i].cost)
    decreases high - low
  {
    hide Read;
    if low < high {
      var middle := low + (high - low) / 2;
      if o[middle].leftId < column {
        SearchFinds(matrix, at, o, middle + 1, high, column, mode);
      } else if o[middle].leftId > column {
        SearchFinds(matrix, at, o, low, middle, column, mode);
      }
    }
  }

  lemma StretchReads(matrix: Bytes, p: Packed, start: nat, count: nat)
    requires Readable(matrix, p) && start + count <= |p.overrides|
    ensures var at := RowsAt(p.classes) + ROW_LEN * p.classes + OVERRIDE_LEN * start;
            var o := p.overrides[start..start + count];
            forall i {:trigger o[i]} :: 0 <= i < count ==>
              Read(matrix, at + OVERRIDE_LEN * i, 2) == Some(o[i].leftId)
              && Read(matrix, at + OVERRIDE_LEN * i + 2, 2) == Some(o[i].cost)
  {
    hide Read, RowsAt;
    var o := p.overrides[start..start + count];
    forall i {:trigger o[i]} | 0 <= i < count
      ensures var at := RowsAt(p.classes) + ROW_LEN * p.classes + OVERRIDE_LEN * start;
              Read(matrix, at + OVERRIDE_LEN * i, 2) == Some(o[i].leftId)
              && Read(matrix, at + OVERRIDE_LEN * i + 2, 2) == Some(o[i].cost)
    {
      assert p.overrides[start + i] == o[i];
    }
  }

  /** The lookup in a readable image returns every original cell. */
  lemma LookupReturnsCell(matrix: Bytes, p: Packed, costs: seq<u16>, row: nat, column: nat)
    requires Readable(matrix, p) && |p.rows| == p.classes && AllDescribed(p, costs, p.classes)
    requires row < p.classes && column < p.classes
    ensures RowStart(p.classes, row) + column < |costs|
    ensures Lookup(matrix, p.classes, row, column) == Some(costs[RowStart(p.classes, row) + column])
  {
    hide Read, RowsAt, RowStart, IsMode, Search, AlignUp4, Overrides, ExactOverrides;
    assert Describes(p, costs, row);
    var r := p.rows[row];
    var cells := RowCosts(costs, p.classes, row);
    var o := p.overrides[r.start..r.start + r.count];
    var at := RowsAt(p.classes) + ROW_LEN * p.classes + OVERRIDE_LEN * r.start;
    assert cells[column] == costs[RowStart(p.classes, row) + column];
    OverridesExact(cells, r.mode, |cells|);
    StretchReads(matrix, p, r.start, r.count);
    CellFound(matrix, at, cells, r.mode, o, column);
  }

  lemma CellFound(matrix: Bytes, at: nat, cells: seq<u16>, mode: u16, o: seq<Override>, column: nat)
    requires ExactOverrides(cells, mode, |cells|, o) && column < |cells|
    requires forall i {:trigger o[i]} :: 0 <= i < |o| ==>
               Read(matrix, at + OVERRIDE_LEN * i, 2) == Some(o[i].leftId)
               && Read(matrix, at + OVERRIDE_LEN * i + 2, 2) == Some(o[i].cost)
    ensures Search(matrix, at, 0, |o|, column, mode) == Some(cells[column])
  {
    hide Read, Search;
    SearchFinds(matrix, at, o, 0, |o|, column, mode);
    if cells[column] != mode {
      assert Overridden(o, column);
      var i :| 0 <= i < |o| && o[i].leftId == column;
    } else {
      NotOverridden(cells, mode, o, column);
    }
  }

  lemma NotOverridden(cells: seq<u16>, mode: u16, o: seq<Override>, column: nat)
    requires ExactOverrides(cells, mode, |cells|, o) && column < |cells| && cells[column] == mode
    ensures !Overridden(o, column)
  {}

  // ------------------------------------------------------- reading the image

  lemma HeaderLength(magic: Bytes, p: Packed)
    requires |magic| == MAGIC_LEN
    ensures |Header(magic, p)| == HEADER_LEN
  {}

  lemma TableLength(parts: seq<Bytes>, width: nat)
    requires forall i :: 0 <= i < |parts| ==> |parts[i]| == width
    ensures |Join(parts)| == |parts| * width
  {
    if parts != [] { JoinAt(parts, width, 0); }
  }

  lemma ModesLength(rows: seq<Row>)
    ensures |Join(ModeRecords(rows))| == 2 * |rows|
    ensures forall i :: 0 <= i < |rows| ==> |ModeRecords(rows)[i]| == 2
  {
    forall i | 0 <= i < |rows| ensures |ModeRecords(rows)[i]| == 2 {
      var fs := [Field(rows[i].mode, 2)];
      assert Offset(fs, 1) == Offset(fs, 0) + 2;
    }
    TableLength(ModeRecords(rows), 2);
  }

  lemma PairLength(fs: seq<Field>, width: nat)
    requires |fs| == 2 && fs[0].width == fs[1].width == width
    ensures |Record(fs)| == 2 * width && Offset(fs, 0) == 0 && Offset(fs, 1) == width
  {
    assert Offset(fs, 2) == Offset(fs, 1) + width;
    assert Offset(fs, 1) == Offset(fs, 0) + width;
  }

  lemma RowsLength(rows: seq<Row>)
    ensures |Join(RowRecords(rows))| == ROW_LEN * |rows|
    ensures forall i :: 0 <= i < |rows| ==> |RowRecords(rows)[i]| == ROW_LEN
  {
    forall i | 0 <= i < |rows| ensures |RowRecords(rows)[i]| == ROW_LEN {
      PairLength([Field(rows[i].start, 4), Field(rows[i].count, 4)], 4);
    }
    TableLength(RowRecords(rows), ROW_LEN);
  }

  lemma OverridesLength(o: seq<Override>)
    ensures |Join(OverrideRecords(o))| == OVERRIDE_LEN * |o|
    ensures forall i :: 0 <= i < |o| ==> |OverrideRecords(o)[i]| == OVERRIDE_LEN
  {
    forall i | 0 <= i < |o| ensures |OverrideRecords(o)[i]| == OVERRIDE_LEN {
      PairLength([Field(o[i].leftId, 2), Field(o[i].cost, 2)], 2);
    }
    TableLength(OverrideRecords(o), OVERRIDE_LEN);
  }

  ghost predicate Small(p: Packed) {
    && |p.rows| == p.classes && |p.overrides| <= U32_MAX
    && forall r :: 0 <= r < |p.rows| ==> p.rows[r].start + p.rows[r].count <= |p.overrides|
  }

  lemma ModeReads(magic: Bytes, p: Packed, r: nat)
    requires |magic| == MAGIC_LEN && r < |p.rows|
    ensures Read(Image(magic, p), HEADER_LEN + 2 * r, 2) == Some(p.rows[r].mode)
  {
    hide Read, Record, Join, Header, Offset;
    HeaderLength(magic, p);
    ModesLength(p.rows);
    var modes := Join(ModeRecords(p.rows));
    var fs := [Field(p.rows[r].mode, 2)];
    ZeroOffset(fs);
    Radixes();
    TableField(ModeRecords(p.rows), 2, r, 2 * r, fs, 0);
    var tail := Padding(p.classes) + (Join(RowRecords(p.rows)) + Join(OverrideRecords(p.overrides)));
    ReadPrefix(modes, tail, 2 * r, 2);
    ReadShift(Header(magic, p), modes + tail, 2 * r, 2);
  }

  lemma ZeroOffset(fs: seq<Field>)
    ensures Offset(fs, 0) == 0
  {}

  /** Reading in the row table. */
  lemma RowReads(magic: Bytes, p: Packed, r: nat)
    requires |magic| == MAGIC_LEN && r < |p.rows| && Small(p)
    ensures Read(Image(magic, p), RowsAt(p.classes) + ROW_LEN * r, 4) == Some(p.rows[r].start)
    ensures Read(Image(magic, p), RowsAt(p.classes) + ROW_LEN * r + 4, 4) == Some(p.rows[r].count)
  {
    hide Read, Record, Join, Header, Offset, Image;
    RowsLength(p.rows);
    var fs := [Field(p.rows[r].start, 4), Field(p.rows[r].count, 4)];
    PairLength(fs, 4);
    Radixes();
    TableField(RowRecords(p.rows), ROW_LEN, r, ROW_LEN * r, fs, 0);
    TableField(RowRecords(p.rows), ROW_LEN, r, ROW_LEN * r, fs, 1);
    InRows(magic, p, ROW_LEN * r, 4);
    InRows(magic, p, ROW_LEN * r + 4, 4);
  }

  lemma InRows(magic: Bytes, p: Packed, at: nat, width: nat)
    requires |magic| == MAGIC_LEN && |p.rows| == p.classes
    requires Read(Join(RowRecords(p.rows)), at, width).Some?
    ensures Read(Image(magic, p), RowsAt(p.classes) + at, width) == Read(Join(RowRecords(p.rows)), at, width)
  {
    hide Read, Record, Join, Header;
    HeaderLength(magic, p);
    ModesLength(p.rows);
    var rows, overrides := Join(RowRecords(p.rows)), Join(OverrideRecords(p.overrides));
    var header, modes, pad := Header(magic, p), Join(ModeRecords(p.rows)), Padding(p.classes);
    ReadPrefix(rows, overrides, at, width);
    ReadShift(pad, rows + overrides, at, width);
    ReadShift(modes, pad + (rows + overrides), |pad| + at, width);
    ReadShift(header, modes + (pad + (rows + overrides)), |modes| + |pad| + at, width);
  }

  /** Reading in the override table. */
  lemma OverrideReads(magic: Bytes, p: Packed, i: nat)
    requires |magic| == MAGIC_LEN && i < |p.overrides| && |p.rows| == p.classes
    ensures var at := RowsAt(p.classes) + ROW_LEN * p.classes + OVERRIDE_LEN * i;
            && Read(Image(magic, p), at, 2) == Some(p.overrides[i].leftId)
            && Read(Image(magic, p), at + 2, 2) == Some(p.overrides[i].cost)
  {
    hide Read, Record, Join, Header, Offset, Image;
    OverridesLength(p.overrides);
    var fs := [Field(p.overrides[i].leftId, 2), Field(p.overrides[i].cost, 2)];
    PairLength(fs, 2);
    Radixes();
    TableField(OverrideRecords(p.overrides), OVERRIDE_LEN, i, OVERRIDE_LEN * i, fs, 0);
    TableField(OverrideRecords(p.overrides), OVERRIDE_LEN, i, OVERRIDE_LEN * i, fs, 1);
    InOverrides(magic, p, OVERRIDE_LEN * i, 2);
    InOverrides(magic, p, OVERRIDE_LEN * i + 2, 2);
  }

  lemma InOverrides(magic: Bytes, p: Packed, at: nat, width: nat)
    requires |magic| == MAGIC_LEN && |p.rows| == p.classes
    ensures Read(Image(magic, p), RowsAt(p.classes) + ROW_LEN * p.classes + at, width)
         == Read(Join(OverrideRecords(p.overrides)), at, width)
  {
    hide Read, Record, Join, Header;
    HeaderLength(magic, p);
    ModesLength(p.rows);
    RowsLength(p.rows);
    var rows, overrides := Join(RowRecords(p.rows)), Join(OverrideRecords(p.overrides));
    var header, modes, pad := Header(magic, p), Join(ModeRecords(p.rows)), Padding(p.classes);
    ReadShift(rows, overrides, at, width);
    ReadShift(pad, rows + overrides, |rows| + at, width);
    ReadShift(modes, pad + (rows + overrides), |pad| + |rows| + at, width);
    ReadShift(header, modes + (pad + (rows + overrides)), |modes| + |pad| + |rows| + at, width);
  }

  lemma ImageReadable(magic: Bytes, p: Packed)
    requires |magic| == MAGIC_LEN && Small(p)
    ensures Readable(Image(magic, p), p)
  {
    hide Image, Read, RowsAt;
    forall r {:trigger p.rows[r]} | 0 <= r < |p.rows|
      ensures Read(Image(magic, p), HEADER_LEN + 2 * r, 2) == Some(p.rows[r].mode)
      ensures Read(Image(magic, p), RowsAt(p.classes) + ROW_LEN * r, 4) == Some(p.rows[r].start)
      ensures Read(Image(magic, p), RowsAt(p.classes) + ROW_LEN * r + 4, 4) == Some(p.rows[r].count)
    {
      ModeReads(magic, p, r);
      RowReads(magic, p, r);
    }
    forall i {:trigger p.overrides[i]} | 0 <= i < |p.overrides|
      ensures var at := RowsAt(p.classes) + ROW_LEN * p.classes + OVERRIDE_LEN * i;
              && Read(Image(magic, p), at, 2) == Some(p.overrides[i].leftId)
              && Read(Image(magic, p), at + 2, 2) == Some(p.overrides[i].cost)
    {
      OverrideReads(magic, p, i);
    }
  }

  // ----------------------------------------------------------------- the writer

  lemma Squares(classes: u16)
    ensures RowStart(classes, classes) <= U32_MAX
  {
    SquareBound(classes, U16_MAX);
  }

  lemma SquareBound(n: nat, m: nat)
    requires n <= m
    ensures n * n <= m * m
  {
    assert n * n <= n * m <= m * m;
  }

  lemma DescribedRowsFit(p: Packed, costs: seq<u16>)
    requires |p.rows| == p.classes && AllDescribed(p, costs, p.classes) && |p.overrides| <= U32_MAX
    ensures Small(p)
  {
    hide IsMode, RowOverrides, RowStart, RowCosts;
    forall r | 0 <= r < |p.rows| ensures p.rows[r].start + p.rows[r].count <= |p.overrides| {
      assert Describes(p, costs, r);
    }
  }

  lemma PushRecord(parts: seq<Bytes>, n: nat)
    requires n < |parts|
    ensures Join(parts[..n + 1]) == Join(parts[..n]) + parts[n]
  {
    assert parts[..n + 1] == parts[..n] + [parts[n]];
    JoinPush(parts[..n], parts[n]);
  }

  lemma PushedAll(parts: seq<Bytes>)
    ensures parts[..0] == [] && parts[..|parts|] == parts
  {}

  lemma SingleRecord(value: nat, width: nat)
    ensures Record([Field(value, width)]) == ToLe(value, width)
  {
    hide ToLe;
    var fs := [Field(value, width)];
    assert fs[..0] == [];
    assert Record([]) == [];
    assert [] + ToLe(value, width) == ToLe(value, width);
  }

  lemma PairRecord(a: nat, b: nat, width: nat)
    ensures Record([Field(a, width), Field(b, width)]) == ToLe(a, width) + ToLe(b, width)
  {
    hide ToLe;
    var fs := [Field(a, width), Field(b, width)];
    assert fs[..1] == [Field(a, width)];
    SingleRecord(a, width);
  }

  /** The writing loops. */
  method WriteImage(magic: Bytes, p: Packed) returns (matrix: Bytes)
    requires |magic| == MAGIC_LEN && |p.rows| == p.classes
    ensures matrix == Image(magic, p)
  {
    hide ToLe, Record, Join, AlignUp4;
    var header := Header(magic, p);
    matrix := header;
    ghost var modes, rows, overrides := ModeRecords(p.rows), RowRecords(p.rows), OverrideRecords(p.overrides);
    PushedAll(modes);
    PushedAll(rows);
    PushedAll(overrides);
    NothingJoined();
    for i := 0 to |p.rows|
      invariant matrix == header + Join(modes[..i])
    {
      SingleRecord(p.rows[i].mode, 2);
      PushRecord(modes, i);
      Regroup(header, Join(modes[..i]), modes[i]);
      matrix := matrix + ToLe(p.rows[i].mode, 2);
    }
    HeaderLength(magic, p);
    ModesLength(p.rows);
    matrix := Pad(matrix);
    PadIsPadding(matrix, header + Join(modes), p.classes);
    ghost var padded := matrix;
    for i := 0 to |p.rows|
      invariant matrix == padded + Join(rows[..i])
    {
      PairRecord(p.rows[i].start, p.rows[i].count, 4);
      PushRecord(rows, i);
      Regroup(padded, Join(rows[..i]), rows[i]);
      matrix := matrix + (ToLe(p.rows[i].start, 4) + ToLe(p.rows[i].count, 4));
    }
    ghost var described := matrix;
    for i := 0 to |p.overrides|
      invariant matrix == described + Join(overrides[..i])
    {
      PairRecord(p.overrides[i].leftId, p.overrides[i].cost, 2);
      PushRecord(overrides, i);
      Regroup(described, Join(overrides[..i]), overrides[i]);
      matrix := matrix + (ToLe(p.overrides[i].leftId, 2) + ToLe(p.overrides[i].cost, 2));
    }
    ImageInOrder(magic, p);
  }

  lemma NothingJoined()
    ensures Join<byte>([]) == []
  {}

  /** The zero bytes up to a multiple of four. */
  method Pad(bytes: Bytes) returns (padded: Bytes)
    ensures padded == bytes + Zeros(AlignUp4(|bytes|) - |bytes|)
  {
    padded := bytes;
    ghost var pushed: Bytes := [];
    while |padded| % 4 != 0
      invariant padded == bytes + pushed && |padded| <= AlignUp4(|bytes|)
      invariant forall i :: 0 <= i < |pushed| ==> pushed[i] == 0
      decreases AlignUp4(|bytes|) - |padded|
    {
      padded := padded + [0];
      pushed := pushed + [0];
    }
    assert pushed == Zeros(AlignUp4(|bytes|) - |bytes|);
  }

  lemma PadIsPadding(padded: Bytes, bytes: Bytes, classes: nat)
    requires |bytes| == HEADER_LEN + 2 * classes && AlignUp4(|bytes|) >= |bytes|
    requires padded == bytes + Zeros(AlignUp4(|bytes|) - |bytes|)
    ensures padded == bytes + Padding(classes)
  {
    assert Padding(classes) == Zeros(AlignUp4(|bytes|) - |bytes|);
  }

  lemma ImageInOrder(magic: Bytes, p: Packed)
    ensures (((Header(magic, p) + Join(ModeRecords(p.rows))) + Padding(p.classes)) + Join(RowRecords(p.rows)))
              + Join(OverrideRecords(p.overrides)) == Image(magic, p)
  {
    hide Join, Header;
    var rows, overrides := Join(RowRecords(p.rows)), Join(OverrideRecords(p.overrides));
    var header, modes, pad := Header(magic, p), Join(ModeRecords(p.rows)), Padding(p.classes);
    Regroup((header + modes) + pad, rows, overrides);
    Regroup(header + modes, pad, rows + overrides);
    Regroup(header, modes, pad + (rows + overrides));
  }

  /** The lookup answers the original cell, and nothing outside the matrix. */
  ghost predicate ReturnsCell(matrix: Bytes, costs: seq<u16>, classes: nat, row: nat, column: nat) {
    if row < classes && column < classes then
      RowStart(classes, row) + column < |costs|
      && Lookup(matrix, classes, row, column) == Some(costs[RowStart(classes, row) + column])
    else Lookup(matrix, classes, row, column) == None
  }

  /** The bytes an image of these costs takes: header and modes padded to four,
      a record for each row, and one for each cell that differs from its row's mode. */
  ghost function ImageSize(costs: seq<u16>, classes: nat): nat
    requires RowStart(classes, classes) <= |costs|
  {
    AlignUp4(HEADER_LEN + 2 * classes) + ROW_LEN * classes + OVERRIDE_LEN * DifferingCells(costs, classes, classes)
  }

  lemma ImageLength(magic: Bytes, p: Packed)
    requires |magic| == MAGIC_LEN && |p.rows| == p.classes
    ensures |Image(magic, p)| == AlignUp4(HEADER_LEN + 2 * p.classes) + ROW_LEN * p.classes + OVERRIDE_LEN * |p.overrides|
  {
    hide Join, Header, AlignUp4;
    HeaderLength(magic, p);
    ModesLength(p.rows);
    RowsLength(p.rows);
    OverridesLength(p.overrides);
  }

  /** encode_matrix: a matrix of enough costs is accepted exactly when its image
      is within budget; it then looks up to every original cell, and to nothing
      outside. */
  method EncodeMatrix(magic: Bytes, costs: seq<u16>, classes: u16) returns (r: Result<Bytes, BuildError>)
    requires |magic| == MAGIC_LEN
    ensures r == Err(RowTruncated) <==> |costs| < RowStart(classes, classes)
    ensures r == Err(OverBudget) <==>
      RowStart(classes, classes) <= |costs| && ImageSize(costs, classes) > MAX_MATRIX_IMAGE_BYTES
    ensures r.Ok? ==> |r.value| == ImageSize(costs, classes)
    ensures r.Ok? ==> forall row: nat, column: nat :: ReturnsCell(r.value, costs, classes, row, column)
  {
    hide AllDescribed, Image, RowStart, Search, Readable, Small, DifferingCells;
    var packed := Pack(costs, classes);
    if packed.Err? { return Err(packed.error); }
    var p := packed.value;
    var matrix := WriteImage(magic, p);
    ImageLength(magic, p);
    if |matrix| > MAX_MATRIX_IMAGE_BYTES { return Err(OverBudget); }
    Squares(classes);
    DescribedRowsFit(p, costs);
    ImageReadable(magic, p);
    forall row: nat, column: nat ensures ReturnsCell(matrix, costs, classes, row, column) {
      if row < classes && column < classes { LookupReturnsCell(matrix, p, costs, row, column); }
    }
    r := Ok(matrix);
  }
}
