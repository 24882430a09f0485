/** The uniform-grid broad phase (www.js:174-215): hearts, named by their
    index in the manager's array, are bucketed by the cell their position
    falls in, and a query returns the buckets of the 3x3 block of cells
    around a point. */
module Grid {
  import opened Basics

  /** A cell key; the source spells it as the string "cx,cy", which is
      injective in the pair, so the pair itself is used here. */
  datatype Cell = Cell(cx: int, cy: int)

  /** The cell a point falls in (`_hash`, www.js:184-188). */
  function Hash(cellSize: real, x: real, y: real): Cell
    requires cellSize > 0.0
  {
    Cell((x / cellSize).Floor, (y / cellSize).Floor)
  }

  /** Measured in cell units, a point lies in the half-open unit square of its cell. */
  lemma HashBounds(cellSize: real, x: real, y: real)
    requires cellSize > 0.0
    ensures var c := Hash(cellSize, x, y);
      c.cx as real <= x / cellSize < c.cx as real + 1.0 &&
      c.cy as real <= y / cellSize < c.cy as real + 1.0
  {
  }

  /** Two cells are neighbours (or equal) when both coordinates differ by at most one. */
  predicate Adjacent(a: Cell, b: Cell)
  {
    -1 <= a.cx - b.cx <= 1 && -1 <= a.cy - b.cy <= 1
  }

  /** Points closer than one cell size on both axes fall in adjacent cells. */
  lemma CloseMeansAdjacent(s: real, x1: real, y1: real, x2: real, y2: real)
    requires s > 0.0
    requires Abs(x1 - x2) < s && Abs(y1 - y2) < s
    ensures Adjacent(Hash(s, x1, y1), Hash(s, x2, y2))
  {
    HashBounds(s, x1, y1);
    HashBounds(s, x2, y2);
    ShrinkBelowOne(x1, x2, s);
    ShrinkBelowOne(y1, y2, s);
  }

  /** A gap smaller than s becomes a gap smaller than one after dividing by s. */
  lemma ShrinkBelowOne(u: real, v: real, s: real)
    requires s > 0.0 && Abs(u - v) < s
    ensures -1.0 < u / s - v / s < 1.0
  {
    DivBelowOne(u - v, s);
    DivDiff(u, v, s);
  }

  lemma DivBelowOne(d: real, s: real)
    requires s > 0.0 && -s < d < s
    ensures -1.0 < d / s < 1.0
  {
  }

  lemma DivDiff(a: real, b: real, s: real)
    requires s > 0.0
    ensures a / s - b / s == (a - b) / s
  {
  }

  /** The bucket stored under a key, or nothing when the key is absent. */
  function Bucket(cells: map<Cell, seq<nat>>, c: Cell): seq<nat>
  {
    if c in cells then cells[c] else []
  }

  /** The grid after appending `id` to the bucket of `c` (`insert`). */
  function Add(cells: map<Cell, seq<nat>>, c: Cell, id: nat): (r: map<Cell, seq<nat>>)
    ensures r.Keys == cells.Keys + {c}
    ensures Bucket(r, c) == Bucket(cells, c) + [id]
    ensures forall d :: d != c ==> Bucket(r, d) == Bucket(cells, d)
  {
    cells[c := Bucket(cells, c) + [id]]
  }

  /** The buckets of the first n cells of column c.cx + dx of the 3x3
      block, from row c.cy - 1 downwards: the inner loop of `getNearby`. */
  function Column(cells: map<Cell, seq<nat>>, c: Cell, dx: int, n: nat): seq<nat>
    requires n <= 3
  {
    if n == 0 then [] else Column(cells, c, dx, n - 1) + Bucket(cells, Cell(c.cx + dx, c.cy + n - 2))
  }

  /** The first m columns of the 3x3 block, from column c.cx - 1: the outer loop. */
  function Block(cells: map<Cell, seq<nat>>, c: Cell, m: nat): seq<nat>
    requires m <= 3
  {
    if m == 0 then [] else Block(cells, c, m - 1) + Column(cells, c, m - 2, 3)
  }

  /** What `getNearby` returns for a point in cell c. */
  function Nearby(cells: map<Cell, seq<nat>>, c: Cell): seq<nat>
  {
    Block(cells, c, 3)
  }

  lemma ColumnCells(cells: map<Cell, seq<nat>>, c: Cell, dx: int)
    ensures Column(cells, c, dx, 3) == Bucket(cells, Cell(c.cx + dx, c.cy - 1))
      + Bucket(cells, Cell(c.cx + dx, c.cy)) + Bucket(cells, Cell(c.cx + dx, c.cy + 1))
  {
    assert Column(cells, c, dx, 1) == Bucket(cells, Cell(c.cx + dx, c.cy - 1));
  }

  /** The query is exactly the union of the buckets of the cells adjacent to c. */
  lemma NearbyMembers(cells: map<Cell, seq<nat>>, c: Cell, id: nat)
    ensures id in Nearby(cells, c) <==> exists d :: Adjacent(d, c) && id in Bucket(cells, d)
  {
    var left, mid, right := Column(cells, c, -1, 3), Column(cells, c, 0, 3), Column(cells, c, 1, 3);
    NearbyColumns(cells, c);
    InThree(left, mid, right, id);
    if id in left {
      InColumn(cells, c, -1, id);
    } else if id in mid {
      InColumn(cells, c, 0, id);
    } else if id in right {
      InColumn(cells, c, 1, id);
    }
    if d :| Adjacent(d, c) && id in Bucket(cells, d) {
      AdjacentInColumn(cells, c, d, 3, id);
      assert id in left || id in mid || id in right by {
        if d.cx < c.cx {
          assert d.cx - c.cx == -1;
        } else if d.cx == c.cx {
          assert d.cx - c.cx == 0;
        } else {
          assert d.cx - c.cx == 1;
        }
      }
    }
  }

  lemma InThree(a: seq<nat>, b: seq<nat>, c: seq<nat>, id: nat)
    ensures id in a + b + c <==> id in a || id in b || id in c
  {
  }

  lemma NearbyColumns(cells: map<Cell, seq<nat>>, c: Cell)
    ensures Nearby(cells, c) == Column(cells, c, -1, 3) + Column(cells, c, 0, 3) + Column(cells, c, 1, 3)
  {
    assert Block(cells, c, 1) == Column(cells, c, -1, 3);
    assert Block(cells, c, 2) == Column(cells, c, -1, 3) + Column(cells, c, 0, 3);
  }

  /** The bucket of a cell d of the block is part of its column, in every
      prefix of the column that reaches d's row. */
  lemma {:induction false} AdjacentInColumn(cells: map<Cell, seq<nat>>, c: Cell, d: Cell, n: nat, id: nat)
    requires 1 <= d.cy - c.cy + 2 <= n <= 3
    requires id in Bucket(cells, d)
    ensures id in Column(cells, c, d.cx - c.cx, n)
    decreases n
  {
    if d.cy - c.cy + 2 < n {
      AdjacentInColumn(cells, c, d, n - 1, id);
    } else {
      assert Cell(c.cx + (d.cx - c.cx), c.cy + n - 2) == d;
    }
  }

  lemma InColumn(cells: map<Cell, seq<nat>>, c: Cell, dx: int, id: nat)
    requires -1 <= dx <= 1
    requires id in Column(cells, c, dx, 3)
    ensures exists d :: Adjacent(d, c) && id in Bucket(cells, d)
  {
    ColumnCells(cells, c, dx);
    var top, here, below := Cell(c.cx + dx, c.cy - 1), Cell(c.cx + dx, c.cy), Cell(c.cx + dx, c.cy + 1);
    assert Adjacent(top, c) && Adjacent(here, c) && Adjacent(below, c);
    if id in Bucket(cells, top) {
    } else if id in Bucket(cells, here) {
    } else {
      assert id in Bucket(cells, below);
    }
  }

  /** Every id stored in the grid is below n. */
  ghost predicate CellsWithin(cells: map<Cell, seq<nat>>, n: nat)
  {
    forall c, id :: id in Bucket(cells, c) ==> id < n
  }

  lemma NearbyWithin(cells: map<Cell, seq<nat>>, c: Cell, n: nat)
    requires CellsWithin(cells, n)
    ensures forall id :: id in Nearby(cells, c) ==> id < n
  {
    forall id | id in Nearby(cells, c)
      ensures id < n
    {
      NearbyMembers(cells, c, id);
    }
  }

  /** The grid object: a fixed cell size and a map from cell to bucket. */
  class SpatialGrid {
    const cellSize: real
    var cells: map<Cell, seq<nat>>

    constructor (cellSize: real)
      requires cellSize > 0.0
      ensures this.cellSize == cellSize && cells == map[]
    {
      this.cellSize := cellSize;
      cells := map[];
    }

    /** Drops every bucket (www.js:180-182). */
    method Clear()
      modifies this
      ensures cells == map[]
    {
      cells := map[];
    }

    /** Appends heart `id`, standing at (x, y), to the bucket of its cell,
        creating the bucket when it is missing (www.js:190-196). */
    method Insert(id: nat, x: real, y: real)
      requires cellSize > 0.0
      modifies this
      ensures cells == Add(old(cells), Hash(cellSize, x, y), id)
    {
      var key := Hash(cellSize, x, y);
      if key !in cells {
        cells := cells[key := []];
      }
      cells := cells[key := cells[key] + [id]];
    }

    /** Concatenates the buckets of the 3x3 block of cells around (x, y),
        column by column (www.js:198-214). */
    method GetNearby(x: real, y: real) returns (nearby: seq<nat>)
      requires cellSize > 0.0
      ensures nearby == Nearby(cells, Hash(cellSize, x, y))
      ensures forall id :: id in nearby <==> exists d :: Adjacent(d, Hash(cellSize, x, y)) && id in Bucket(cells, d)
    {
      var c := Hash(cellSize, x, y);
      nearby := [];
      var dx := -1;
      while dx <= 1
        invariant -1 <= dx <= 2
        invariant nearby == Block(cells, c, dx + 1)
      {
        var dy := -1;
        while dy <= 1
          invariant -1 <= dy <= 2
          invariant nearby == Block(cells, c, dx + 1) + Column(cells, c, dx, dy + 1)
        {
          var key := Cell(c.cx + dx, c.cy + dy);
          if key in cells {
            nearby := nearby + cells[key];
          }
          dy := dy + 1;
        }
        dx := dx + 1;
      }
      forall id
        ensures id in nearby <==> exists d :: Adjacent(d, c) && id in Bucket(cells, d)
      {
        NearbyMembers(cells, c, id);
      }
    }
  }
}
