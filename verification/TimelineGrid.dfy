/**
 The grid as one piece: months and their counts laid out as rows with positions, and the binary
 searches over them. internal/web/static/timeline.js.
 */
module TimelineGrid {
  import opened Basics

  /** A month's heading, or a line of cells. Positions are in pixels, fractions and all. */
  datatype Row =
    | Head(band: nat, top: real, height: real)
    | Cells(band: nat, top: real, height: real, first: nat, count: nat)

  datatype Metrics = Metrics(columns: int, cellHeight: real, gap: real, headHeight: real)

  // Rows take up room.
  predicate Sensible(m: Metrics) {
    m.cellHeight > 0.0 && m.headHeight > 0.0 && m.gap >= 0.0
  }

  // A month is on the grid because it has items.
  predicate Positive(counts: seq<nat>) {
    forall b :: 0 <= b < |counts| ==> counts[b] > 0
  }

  function Start(counts: seq<nat>, band: nat): nat
    requires band <= |counts|
  {
    if band == 0 then 0 else Start(counts, band - 1) + counts[band - 1]
  }

  function Max(a: int, b: int): int {
    if a > b then a else b
  }

  // The item after the last one at or above a row.
  function Upto(counts: seq<nat>, row: Row): nat
    requires row.band < |counts|
  {
    match row
    case Head(band, _, _) => Start(counts, band)
    case Cells(_, _, _, first, count) => first + count
  }

  // What every row of a layout is in itself.
  predicate RowFits(counts: seq<nat>, columns: nat, row: Row) {
    && row.band < |counts| && row.height > 0.0
    && (row.Cells? ==>
          && 0 < row.count <= columns
          // Only the last line of a month may be short.
          && (row.count == columns || row.first + row.count == Start(counts, row.band) + counts[row.band])
          && Start(counts, row.band) <= row.first
          && row.first + row.count <= Start(counts, row.band) + counts[row.band])
  }

  // What follows a row, and where.
  predicate Follows(counts: seq<nat>, gap: real, row: Row, next: Row)
    requires row.band < |counts| && next.band < |counts|
  {
    && next.top == row.top + row.height + gap
    && (match next
        case Head(band, _, _) =>
          row.Cells? && band == row.band + 1 && Upto(counts, row) == Start(counts, band)
        case Cells(band, _, _, first, _) =>
          band == row.band && first == Upto(counts, row))
  }

  // Rows laid one after another from the first month's heading, up to an item of the grid.
  ghost predicate LaidOut(counts: seq<nat>, columns: nat, gap: real, rows: seq<Row>, upto: nat, top: real) {
    && (forall i :: 0 <= i < |rows| ==> RowFits(counts, columns, rows[i]))
    && (forall i :: 0 < i < |rows| ==> Follows(counts, gap, rows[i - 1], rows[i]))
    && (rows == [] ==> upto == 0 && top == 0.0)
    && (rows != [] ==>
          && rows[0].Head? && rows[0].band == 0 && rows[0].top == 0.0
          && Upto(counts, rows[|rows| - 1]) == upto
          && top == rows[|rows| - 1].top + rows[|rows| - 1].height + gap)
  }

  lemma LaidOutNext(counts: seq<nat>, columns: nat, gap: real, rows: seq<Row>, upto: nat, top: real, row: Row)
    requires LaidOut(counts, columns, gap, rows, upto, top) && RowFits(counts, columns, row) && row.top == top
    requires if rows == [] then row.Head? && row.band == 0
             else RowFits(counts, columns, rows[|rows| - 1]) && Follows(counts, gap, rows[|rows| - 1], row)
    ensures LaidOut(counts, columns, gap, rows + [row], Upto(counts, row), top + (row.height + gap))
  {
  }

  /** Lays the months out line by line from the top, and answers how tall they are together. */
  method Layout(counts: seq<nat>, m: Metrics) returns (rows: seq<Row>, height: real)
    requires Positive(counts) && Sensible(m)
    ensures LaidOut(counts, if m.columns < 1 then 1 else m.columns, m.gap, rows, Start(counts, |counts|), height)
    ensures forall row :: row in rows ==> row.height == if row.Head? then m.headHeight else m.cellHeight
  {
    var columns := Max(1, m.columns);
    rows, height := [], 0.0;
    var start := 0;
    for b := 0 to |counts|
      invariant start == Start(counts, b)
      invariant LaidOut(counts, columns, m.gap, rows, start, height)
      invariant forall row :: row in rows ==> row.height == if row.Head? then m.headHeight else m.cellHeight
      invariant b == 0 <==> rows == []
      invariant b > 0 ==> rows[|rows| - 1].Cells? && rows[|rows| - 1].band == b - 1
    {
      LaidOutNext(counts, columns, m.gap, rows, start, height, Head(b, height, m.headHeight));
      rows := rows + [Head(b, height, m.headHeight)];
      height := height + (m.headHeight + m.gap);
      var first := 0;
      while first < counts[b]
        invariant 0 <= first <= counts[b]
        invariant LaidOut(counts, columns, m.gap, rows, start + first, height)
        invariant forall row :: row in rows ==> row.height == if row.Head? then m.headHeight else m.cellHeight
        invariant rows != [] && rows[|rows| - 1].band == b
        invariant first > 0 ==> rows[|rows| - 1].Cells?
      {
        var count := if columns < counts[b] - first then columns else counts[b] - first;
        LaidOutNext(counts, columns, m.gap, rows, start + first, height,
                    Cells(b, height, m.cellHeight, start + first, count));
        rows := rows + [Cells(b, height, m.cellHeight, start + first, count)];
        height := height + (m.cellHeight + m.gap);
        first := first + count;
      }
      start := start + counts[b];
    }
  }

  // ---- What the order of the rows gives ----

  lemma {:induction false} Ordered(counts: seq<nat>, columns: nat, gap: real, rows: seq<Row>, upto: nat, top: real,
                                   i: nat, j: nat)
    requires LaidOut(counts, columns, gap, rows, upto, top) && gap >= 0.0
    requires i <= j < |rows|
    ensures Upto(counts, rows[i]) <= Upto(counts, rows[j])
    ensures i < j ==> rows[i].top + rows[i].height <= rows[j].top
    ensures i < j && rows[j].Cells? ==> Upto(counts, rows[i]) <= rows[j].first
    decreases j - i
  {
    if i < j {
      Ordered(counts, columns, gap, rows, upto, top, i, j - 1);
      assert Follows(counts, gap, rows[j - 1], rows[j]);
    }
  }

  // ---- The searches ----

  // The first index at which a test holds, if any: what a linear scan finds.
  ghost predicate ScansTo(rows: seq<Row>, test: Row -> bool, found: nat) {
    && found <= |rows|
    && (forall i :: 0 <= i < found ==> !test(rows[i]))
    && (found < |rows| ==> test(rows[found]))
  }

  /** The first row whose bottom is at or below a position. */
  method FirstRowBelow(rows: seq<Row>, position: real, ghost counts: seq<nat>, ghost columns: nat, ghost gap: real,
                       ghost upto: nat, ghost top: real)
    returns (low: nat)
    requires LaidOut(counts, columns, gap, rows, upto, top) && gap >= 0.0
    ensures ScansTo(rows, (row: Row) => row.top + row.height >= position, low)
  {
    low := 0;
    var high := |rows|;
    while low < high
      invariant low <= high <= |rows|
      invariant forall i :: 0 <= i < low ==> rows[i].top + rows[i].height < position
      invariant forall i :: high <= i < |rows| ==> rows[i].top + rows[i].height >= position
    {
      var middle := (low + high) / 2;
      forall i, j | 0 <= i <= j < |rows|
        ensures rows[i].top + rows[i].height <= rows[j].top + rows[j].height
      {
        Ordered(counts, columns, gap, rows, upto, top, i, j);
      }
      if rows[middle].top + rows[middle].height < position {
        low := middle + 1;
      } else {
        high := middle;
      }
    }
  }

  /** The cells row an item is in. */
  method RowOfIndex(rows: seq<Row>, item: nat, counts: seq<nat>, ghost columns: nat, ghost gap: real,
                    ghost upto: nat, ghost top: real)
    returns (found: nat)
    requires LaidOut(counts, columns, gap, rows, upto, top) && gap >= 0.0 && rows != []
    ensures found < |rows|
    ensures item < upto ==>
      && ScansTo(rows, (row: Row) => row.band < |counts| && Upto(counts, row) > item, found)
      && rows[found].Cells? && rows[found].first <= item < rows[found].first + rows[found].count
    ensures item >= upto ==> found == |rows| - 1
  {
    var low, high := 0, |rows|;
    while low < high
      invariant low <= high <= |rows|
      invariant forall i :: 0 <= i < low ==> Upto(counts, rows[i]) <= item
      invariant forall i :: high <= i < |rows| ==> Upto(counts, rows[i]) > item
    {
      var middle := (low + high) / 2;
      forall i, j | 0 <= i <= j < |rows|
        ensures Upto(counts, rows[i]) <= Upto(counts, rows[j])
      {
        Ordered(counts, columns, gap, rows, upto, top, i, j);
      }
      // The last item at or above the row, against the one looked for.
      var last := (if rows[middle].Cells? then rows[middle].first + rows[middle].count
                   else Start(counts, rows[middle].band)) - 1;
      if last < item {
        low := middle + 1;
      } else {
        high := middle;
      }
    }
    if low == |rows| {
      assert Upto(counts, rows[|rows| - 1]) <= item;
    } else {
      Ordered(counts, columns, gap, rows, upto, top, low, |rows| - 1);
      if low > 0 {
        assert Follows(counts, gap, rows[low - 1], rows[low]);
      }
    }
    found := if low < |rows| then low else |rows| - 1;
  }

  lemma {:induction false} StartsGrow(counts: seq<nat>, a: nat, b: nat)
    requires a <= b <= |counts|
    ensures Start(counts, a) <= Start(counts, b)
    decreases b
  {
    if a < b {
      StartsGrow(counts, a, b - 1);
    }
  }

  /** The month an item is in: the last to start at or before it. */
  method BandOfIndex(counts: seq<nat>, starts: seq<nat>, item: nat) returns (low: nat)
    requires |counts| > 0 && |starts| == |counts| && Positive(counts)
    requires forall b :: 0 <= b < |counts| ==> starts[b] == Start(counts, b)
    ensures low < |counts| && Start(counts, low) <= item
    ensures forall b :: low < b < |counts| ==> Start(counts, b) > item
    ensures item < Start(counts, |counts|) ==> item < Start(counts, low) + counts[low]
  {
    low := 0;
    var high := |counts| - 1;
    while low < high
      invariant 0 <= low <= high < |counts|
      invariant Start(counts, low) <= item
      invariant forall b :: high < b < |counts| ==> Start(counts, b) > item
    {
      var middle := (low + high + 1) / 2;
      if starts[middle] <= item {
        low := middle;
      } else {
        forall b | middle <= b < |counts|
          ensures Start(counts, b) > item
        {
          StartsGrow(counts, middle, b);
        }
        high := middle - 1;
      }
    }
    if low + 1 < |counts| {
      assert Start(counts, low + 1) > item;
    }
  }

  // ---- The index as a whole ----

  /** Every item of the grid is in exactly one row. */
  lemma ExactlyOneRow(counts: seq<nat>, columns: nat, gap: real, rows: seq<Row>, upto: nat, top: real, item: nat)
    returns (row: nat)
    requires LaidOut(counts, columns, gap, rows, upto, top) && gap >= 0.0 && item < upto
    ensures row < |rows| && Shows(rows[row], item)
    ensures forall i :: 0 <= i < |rows| && Shows(rows[i], item) ==> i == row
  {
    row := 0;
    while Upto(counts, rows[row]) <= item
      invariant 0 <= row < |rows|
      invariant forall i :: 0 <= i < row ==> Upto(counts, rows[i]) <= item
      decreases |rows| - row
    {
      Ordered(counts, columns, gap, rows, upto, top, row, |rows| - 1);
      row := row + 1;
    }
    if row > 0 {
      assert Follows(counts, gap, rows[row - 1], rows[row]);
    }
    forall i | row < i < |rows|
      ensures !Shows(rows[i], item)
    {
      Ordered(counts, columns, gap, rows, upto, top, row, i);
    }
  }

  predicate Shows(row: Row, item: nat) {
    row.Cells? && row.first <= item < row.first + row.count
  }

  /** Positions never repeat and never go back. */
  lemma PositionsIncrease(counts: seq<nat>, columns: nat, gap: real, rows: seq<Row>, upto: nat, top: real,
                          i: nat, j: nat)
    requires LaidOut(counts, columns, gap, rows, upto, top) && gap >= 0.0 && i < j < |rows|
    ensures rows[i].top < rows[j].top
  {
    Ordered(counts, columns, gap, rows, upto, top, i, j);
  }

  // Where a jump to an item scrolls to: its row, or its month's heading if it leads the month.
  method ScrollTarget(rows: seq<Row>, item: nat, counts: seq<nat>, ghost columns: nat, ghost gap: real,
                      ghost upto: nat, ghost top: real)
    returns (target: nat)
    requires LaidOut(counts, columns, gap, rows, upto, top) && gap >= 0.0 && rows != [] && Positive(counts)
    ensures target < |rows|
    ensures item < upto ==>
      || Shows(rows[target], item)
      || (rows[target].Head? && target + 1 < |rows| && Shows(rows[target + 1], item)
          && rows[target + 1].band == rows[target].band)
    ensures item < upto ==> forall b :: 0 <= b < |counts| && item == Start(counts, b) ==>
      rows[target].Head? && rows[target].band == b
    ensures item >= upto ==> |rows| - 2 <= target
  {
    target := RowOfIndex(rows, item, counts, columns, gap, upto, top);
    var row := rows[target];
    if item < upto {
      forall b | 0 <= b < |counts| && item == Start(counts, b)
        ensures row.band == b && row.first == Start(counts, b)
      {
        if b < row.band {
          StartsGrow(counts, b + 1, row.band);
        } else if row.band < b {
          StartsGrow(counts, row.band + 1, b);
        }
      }
    }
    if row.Cells? && row.first == Start(counts, row.band) {
      if target > 0 {
        assert Follows(counts, gap, rows[target - 1], row);
      }
      target := target - 1;
    }
  }
}
