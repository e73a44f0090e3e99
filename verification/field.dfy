/**
 The generic fixed-size 2-D grid of cells (Field.ts). A field is stored as
 `height` rows of `width` cells, and every cell remembers the coordinate it
 was placed at. Cells are values here; "the identical cell" of the source is
 an equal cell value.
 */
module Fields {
  import opened Nullable
  import opened Vector2

  /** `TCell`: a payload with a position that is set once, at placement. */
  datatype Cell<T> = Cell(position: Option<Vec2>, value: T)

  /** `_setPosition`: a cell may be placed, or re-placed at the same coordinate, but never moved. */
  function SetPosition<T>(c: Cell<T>, p: Vec2): (r: Cell<T>)
    requires c.position == None || c.position == Some(p)
    ensures r.position == Some(p) && r.value == c.value
    ensures c.position == Some(p) ==> r == c
  {
    Cell(Some(p), c.value)
  }

  datatype Field<T> = Field(width: int, height: int, rows: seq<seq<Cell<T>>>)

  predicate InBounds(width: int, height: int, p: Vec2) {
    0 <= p.x < width && 0 <= p.y < height
  }

  /** The representation invariant the constructor establishes: `height` rows of
      `width` cells, the cell in slot (x, y) positioned at (x, y). */
  ghost predicate Valid<T>(f: Field<T>) {
    && f.width > 0 && f.height > 0
    && |f.rows| == f.height
    && (forall y :: 0 <= y < f.height ==> |f.rows[y]| == f.width)
    && (forall y, x :: 0 <= y < f.height && 0 <= x < f.width ==> f.rows[y][x].position == Some(Vec2(x, y)))
  }

  /** A fill function may hand back a fresh cell or one already placed at that very coordinate. */
  ghost predicate Placeable<T>(width: int, height: int, fill: Vec2 -> Cell<T>) {
    forall p :: InBounds(width, height, p) ==> fill(p).position == None || fill(p).position == Some(p)
  }

  /** The `TField` constructor: every slot filled by `fill` and then placed. */
  function New<T>(width: int, height: int, fill: Vec2 -> Cell<T>): (f: Field<T>)
    requires width > 0 && height > 0
    requires Placeable(width, height, fill)
    ensures Valid(f) && f.width == width && f.height == height
    ensures forall y, x :: 0 <= y < height && 0 <= x < width ==> f.rows[y][x].value == fill(Vec2(x, y)).value
  {
    Field(width, height,
      seq(height, y requires 0 <= y < height =>
        seq(width, x requires 0 <= x < width =>
          assert InBounds(width, height, Vec2(x, y));
          SetPosition(fill(Vec2(x, y)), Vec2(x, y)))))
  }

  /** `hasCellAt`: whether row `y` exists and has a slot `x`, which for a valid field is the bounds check. */
  function HasCellAt<T>(f: Field<T>, p: Vec2): (r: bool)
    ensures Valid(f) ==> (r <==> InBounds(f.width, f.height, p))
  {
    0 <= p.y < |f.rows| && 0 <= p.x < |f.rows[p.y]|
  }

  /** `getCellAt`: the cell stored at a coordinate, which is positioned there. */
  function GetCellAt<T>(f: Field<T>, p: Vec2): (c: Cell<T>)
    requires HasCellAt(f, p)
    ensures Valid(f) ==> c.position == Some(p)
    ensures c in f.rows[p.y]
  {
    f.rows[p.y][p.x]
  }

  /** `resize`: the cells inside both the old and the new bounds are kept as they are,
      the others are fresh cells holding `empty`, placed at their coordinates. */
  function Resize<T>(f: Field<T>, newWidth: int, newHeight: int, empty: T): (r: Field<T>)
    requires Valid(f)
    requires newWidth > 0 && newHeight > 0
    ensures Valid(r) && r.width == newWidth && r.height == newHeight
    ensures forall y, x :: 0 <= y < newHeight && 0 <= x < newWidth ==>
      r.rows[y][x] == (if y < f.height && x < f.width then f.rows[y][x] else Cell(Some(Vec2(x, y)), empty))
  {
    var fill := (p: Vec2) => if HasCellAt(f, p) then GetCellAt(f, p) else Cell(None, empty);
    assert Placeable(newWidth, newHeight, fill);
    var r := New(newWidth, newHeight, fill);
    assert forall y, x :: 0 <= y < newHeight && 0 <= x < newWidth ==>
      r.rows[y][x] == Cell(Some(Vec2(x, y)), fill(Vec2(x, y)).value);
    r
  }

  /** The positions of a run of cells, in order. */
  function Positions<T>(cells: seq<Cell<T>>): seq<Option<Vec2>> {
    seq(|cells|, i requires 0 <= i < |cells| => cells[i].position)
  }

  /** What the neighbour scan has gathered before offset `upTo`: well-placed
      adjacent cells, each before `upTo` in column-major order, in increasing order. */
  ghost predicate Gathered<T>(f: Field<T>, p: Vec2, cells: seq<Cell<T>>, upTo: Vec2) {
    && (forall i :: 0 <= i < |cells| ==>
         && cells[i].position.Some?
         && HasCellAt(f, cells[i].position.value)
         && Adjacent(p, cells[i].position.value)
         && cells[i] == GetCellAt(f, cells[i].position.value)
         && ColumnMajorBefore(cells[i].position.value, upTo))
    && (forall i, j :: 0 <= i < j < |cells| ==>
         ColumnMajorBefore(cells[i].position.value, cells[j].position.value))
    && (forall q :: InBounds(f.width, f.height, q) && Adjacent(p, q) && ColumnMajorBefore(q, upTo) ==>
         Some(q) in Positions(cells))
  }

  /** Passing over offset `upTo` without taking a cell (it is the centre or out of bounds). */
  lemma GatherSkip<T>(f: Field<T>, p: Vec2, cells: seq<Cell<T>>, upTo: Vec2)
    requires Valid(f)
    requires upTo == p || !InBounds(f.width, f.height, upTo)
    requires Gathered(f, p, cells, upTo)
    ensures Gathered(f, p, cells, Vec2(upTo.x, upTo.y + 1))
  {
  }

  /** Taking the in-bounds neighbour at offset `upTo`. */
  lemma GatherTake<T>(f: Field<T>, p: Vec2, cells: seq<Cell<T>>, upTo: Vec2)
    requires Valid(f)
    requires Adjacent(p, upTo) && InBounds(f.width, f.height, upTo)
    requires Gathered(f, p, cells, upTo)
    ensures Gathered(f, p, cells + [GetCellAt(f, upTo)], Vec2(upTo.x, upTo.y + 1))
  {
    var c := GetCellAt(f, upTo);
    assert Positions(cells + [c]) == Positions(cells) + [Some(upTo)];
  }

  /** Finishing column `x`: every neighbour before (x, p.y + 2) is before (x + 1, p.y - 1). */
  lemma GatherNextColumn<T>(f: Field<T>, p: Vec2, cells: seq<Cell<T>>, x: int)
    requires Gathered(f, p, cells, Vec2(x, p.y + 2))
    ensures Gathered(f, p, cells, Vec2(x + 1, p.y - 1))
  {
  }

  /** After the last column every neighbour has been considered. */
  lemma GatheredAll<T>(f: Field<T>, p: Vec2, cells: seq<Cell<T>>)
    requires Gathered(f, p, cells, Vec2(p.x + 2, p.y - 1))
    ensures forall i :: 0 <= i < |cells| ==>
      && cells[i].position.Some?
      && HasCellAt(f, cells[i].position.value)
      && Adjacent(p, cells[i].position.value)
      && cells[i] == GetCellAt(f, cells[i].position.value)
    ensures forall q :: InBounds(f.width, f.height, q) && Adjacent(p, q) ==> Some(q) in Positions(cells)
    ensures forall i, j :: 0 <= i < j < |cells| ==>
      ColumnMajorBefore(cells[i].position.value, cells[j].position.value)
  {
    forall q | InBounds(f.width, f.height, q) && Adjacent(p, q)
      ensures Some(q) in Positions(cells)
    {
      assert ColumnMajorBefore(q, Vec2(p.x + 2, p.y - 1));
    }
  }

  /** `getNeighbourCellsAt`: the in-bounds cells at Chebyshev distance exactly 1,
      at most eight of them, enumerated with dx in the outer loop and dy in the
      inner one, so their positions come in column-major order. */
  method GetNeighbourCellsAt<T>(f: Field<T>, p: Vec2) returns (cells: seq<Cell<T>>)
    requires Valid(f) && HasCellAt(f, p)
    ensures |cells| <= 8
    ensures forall i :: 0 <= i < |cells| ==>
      && cells[i].position.Some?
      && HasCellAt(f, cells[i].position.value)
      && Adjacent(p, cells[i].position.value)
      && cells[i] == GetCellAt(f, cells[i].position.value)
    ensures forall q :: InBounds(f.width, f.height, q) && Adjacent(p, q) ==> Some(q) in Positions(cells)
    ensures forall i, j :: 0 <= i < j < |cells| ==>
      ColumnMajorBefore(cells[i].position.value, cells[j].position.value)
  {
    cells := [];
    var ix := -1;
    while ix <= 1
      invariant -1 <= ix <= 2
      invariant |cells| <= 3 * (ix + 1) - (if ix >= 1 then 1 else 0)
      invariant Gathered(f, p, cells, Vec2(p.x + ix, p.y - 1))
    {
      cells := ScanColumn(f, p, cells, ix);
      ix := ix + 1;
    }
    GatheredAll(f, p, cells);
  }

  /** The inner loop of `getNeighbourCellsAt`: dy from -1 to 1 at a fixed dx, skipping the centre. */
  method ScanColumn<T>(f: Field<T>, p: Vec2, cells0: seq<Cell<T>>, ix: int) returns (cells: seq<Cell<T>>)
    requires Valid(f) && -1 <= ix <= 1
    requires Gathered(f, p, cells0, Vec2(p.x + ix, p.y - 1))
    ensures |cells| <= |cells0| + (if ix == 0 then 2 else 3)
    ensures Gathered(f, p, cells, Vec2(p.x + ix + 1, p.y - 1))
  {
    cells := cells0;
    var iy := -1;
    while iy <= 1
      invariant -1 <= iy <= 2
      invariant |cells| <= |cells0| + (iy + 1) - (if ix == 0 && iy > 0 then 1 else 0)
      invariant Gathered(f, p, cells, Vec2(p.x + ix, p.y + iy))
    {
      cells := ScanOffset(f, p, cells, Vec2(p.x + ix, p.y + iy));
      iy := iy + 1;
    }
    GatherNextColumn(f, p, cells, p.x + ix);
  }

  /** The body of the inner loop: the cell at `neighbourPosition` is taken
      unless it is the centre or outside the field. */
  method ScanOffset<T>(f: Field<T>, p: Vec2, cells0: seq<Cell<T>>, neighbourPosition: Vec2) returns (cells: seq<Cell<T>>)
    requires Valid(f) && Chebyshev(p, neighbourPosition) <= 1
    requires Gathered(f, p, cells0, neighbourPosition)
    ensures Gathered(f, p, cells, Vec2(neighbourPosition.x, neighbourPosition.y + 1))
    ensures |cells| <= |cells0| + 1
    ensures neighbourPosition == p ==> cells == cells0
  {
    cells := cells0;
    if neighbourPosition == p {
      GatherSkip(f, p, cells, neighbourPosition);
    } else if HasCellAt(f, neighbourPosition) {
      GatherTake(f, p, cells, neighbourPosition);
      cells := cells + [GetCellAt(f, neighbourPosition)];
    } else {
      GatherSkip(f, p, cells, neighbourPosition);
    }
  }

  /** The order in which `forEachCell` hands cells to its callback: row by row. */
  function VisitOrder<T>(f: Field<T>): (visited: seq<Cell<T>>)
    requires Valid(f)
  {
    VisitRows(f, 0)
  }

  function VisitRows<T>(f: Field<T>, y: int): seq<Cell<T>>
    requires Valid(f) && 0 <= y <= f.height
    decreases f.height - y
  {
    if y == f.height then [] else f.rows[y] + VisitRows(f, y + 1)
  }

  /** `forEachCell` visits every cell exactly once, in row-major order: the visit
      has one entry per slot, each an in-bounds cell, every coordinate occurs,
      and the coordinates strictly increase in row-major order (so none repeats). */
  lemma VisitOrderIsRowMajor<T>(f: Field<T>)
    requires Valid(f)
    ensures |VisitOrder(f)| == f.width * f.height
    ensures forall i :: 0 <= i < |VisitOrder(f)| ==>
      VisitOrder(f)[i].position.Some? && InBounds(f.width, f.height, VisitOrder(f)[i].position.value)
    ensures forall p :: InBounds(f.width, f.height, p) ==> Some(p) in Positions(VisitOrder(f))
    ensures forall i, j :: 0 <= i < j < |VisitOrder(f)| ==>
      RowMajorBefore(VisitOrder(f)[i].position.value, VisitOrder(f)[j].position.value)
  {
    VisitRowsLength(f, 0);
    VisitRowsPlaced(f, 0);
    VisitRowsComplete(f, 0);
    VisitRowsSorted(f, 0);
  }

  lemma {:induction false} VisitRowsLength<T>(f: Field<T>, y: int)
    requires Valid(f) && 0 <= y <= f.height
    decreases f.height - y
    ensures |VisitRows(f, y)| == f.width * (f.height - y)
  {
    if y < f.height {
      VisitRowsLength(f, y + 1);
      calc {
        f.width * (f.height - y);
        f.width * ((f.height - (y + 1)) + 1);
        f.width * (f.height - (y + 1)) + f.width;
      }
    }
  }

  lemma {:induction false} VisitRowsPlaced<T>(f: Field<T>, y: int)
    requires Valid(f) && 0 <= y <= f.height
    decreases f.height - y
    ensures forall i :: 0 <= i < |VisitRows(f, y)| ==>
      && VisitRows(f, y)[i].position.Some?
      && InBounds(f.width, f.height, VisitRows(f, y)[i].position.value)
      && y <= VisitRows(f, y)[i].position.value.y
  {
    if y < f.height {
      VisitRowsPlaced(f, y + 1);
      var row, rest := f.rows[y], VisitRows(f, y + 1);
      assert VisitRows(f, y) == row + rest;
      assert forall i :: 0 <= i < |row| ==> row[i].position == Some(Vec2(i, y));
    }
  }

  lemma {:induction false} VisitRowsComplete<T>(f: Field<T>, y: int)
    requires Valid(f) && 0 <= y <= f.height
    decreases f.height - y
    ensures forall p :: InBounds(f.width, f.height, p) && y <= p.y ==> Some(p) in Positions(VisitRows(f, y))
  {
    if y < f.height {
      VisitRowsComplete(f, y + 1);
      var row, rest := f.rows[y], VisitRows(f, y + 1);
      assert VisitRows(f, y) == row + rest;
      assert Positions(row + rest) == Positions(row) + Positions(rest);
      forall p | InBounds(f.width, f.height, p) && p.y == y
        ensures Some(p) in Positions(row)
      {
        assert Positions(row)[p.x] == row[p.x].position == Some(Vec2(p.x, y));
      }
    }
  }

  lemma {:induction false} VisitRowsSorted<T>(f: Field<T>, y: int)
    requires Valid(f) && 0 <= y <= f.height
    decreases f.height - y
    ensures forall i, j :: 0 <= i < j < |VisitRows(f, y)| ==>
      && VisitRows(f, y)[i].position.Some? && VisitRows(f, y)[j].position.Some?
      && RowMajorBefore(VisitRows(f, y)[i].position.value, VisitRows(f, y)[j].position.value)
  {
    if y < f.height {
      VisitRowsSorted(f, y + 1);
      VisitRowsPlaced(f, y + 1);
      var row, rest := f.rows[y], VisitRows(f, y + 1);
      var all := VisitRows(f, y);
      assert all == row + rest;
      assert forall i :: 0 <= i < |row| ==> row[i].position == Some(Vec2(i, y));
      forall i, j | 0 <= i < j < |all|
        ensures all[i].position.Some? && all[j].position.Some?
        ensures RowMajorBefore(all[i].position.value, all[j].position.value)
      {
        if j < |row| {
          assert all[i] == row[i] && all[j] == row[j];
        } else if i < |row| {
          assert all[i] == row[i] && all[j] == rest[j - |row|];
        } else {
          assert all[i] == rest[i - |row|] && all[j] == rest[j - |row|];
        }
      }
      assert forall i, j :: 0 <= i < j < |all| ==>
        all[i].position.Some? && all[j].position.Some? && RowMajorBefore(all[i].position.value, all[j].position.value);
    } else {
      assert VisitRows(f, y) == [];
    }
  }

  /** `forEachCell` with a callback that rewrites each cell's payload: every slot
      gets `update` applied to its own cell; positions are untouched. */
  function ForEachCell<T>(f: Field<T>, update: Cell<T> -> T): (r: Field<T>)
    requires Valid(f)
    ensures Valid(r) && r.width == f.width && r.height == f.height
    ensures forall p :: InBounds(f.width, f.height, p) ==>
      GetCellAt(r, p).position == Some(p) && GetCellAt(r, p).value == update(GetCellAt(f, p))
  {
    Field(f.width, f.height,
      seq(f.height, y requires 0 <= y < f.height =>
        seq(f.width, x requires 0 <= x < f.width =>
          Cell(f.rows[y][x].position, update(f.rows[y][x])))))
  }

  /** The callback sees the cells in visit order: listing the updated field
      row by row gives, entry for entry, the original cells with `update`
      applied. */
  lemma ForEachCellInVisitOrder<T>(f: Field<T>, update: Cell<T> -> T)
    requires Valid(f)
    ensures var r := ForEachCell(f, update);
      && |VisitOrder(r)| == |VisitOrder(f)|
      && forall i :: 0 <= i < |VisitOrder(f)| ==>
           VisitOrder(r)[i] == Cell(VisitOrder(f)[i].position, update(VisitOrder(f)[i]))
  {
    VisitRowsUpdate(f, update, 0);
  }

  lemma {:induction false} VisitRowsUpdate<T>(f: Field<T>, update: Cell<T> -> T, y: int)
    requires Valid(f) && 0 <= y <= f.height
    ensures var r := ForEachCell(f, update);
      && |VisitRows(r, y)| == |VisitRows(f, y)|
      && forall i :: 0 <= i < |VisitRows(f, y)| ==>
           VisitRows(r, y)[i] == Cell(VisitRows(f, y)[i].position, update(VisitRows(f, y)[i]))
    decreases f.height - y
  {
    if y < f.height {
      VisitRowsUpdate(f, update, y + 1);
      var r := ForEachCell(f, update);
      var vf, vr := VisitRows(f, y), VisitRows(r, y);
      var tf, tr := VisitRows(f, y + 1), VisitRows(r, y + 1);
      assert vf == f.rows[y] + tf;
      assert vr == r.rows[y] + tr;
      assert |r.rows[y]| == |f.rows[y]| == f.width;
      forall i | 0 <= i < |vf|
        ensures vr[i] == Cell(vf[i].position, update(vf[i]))
      {
        if i < f.width {
          assert GetCellAt(r, Vec2(i, y)) == r.rows[y][i];
          assert GetCellAt(f, Vec2(i, y)) == f.rows[y][i];
        } else {
          assert vr[i] == tr[i - f.width] && vf[i] == tf[i - f.width];
        }
      }
    }
  }
}
