/** The Tetris playing field: a fixed Rows x Columns matrix of cells, where 0 is a free
    cell and any other value is the id of the block kind that occupies it. The grid
    answers bounds and emptiness queries and clears full rows with a single bottom-up
    "gravity" pass that works in place. */
module TetrisGrid {

  /** Every cell of the row is occupied. */
  predicate RowFull(row: seq<int>) {
    forall c :: 0 <= c < |row| ==> row[c] != 0
  }

  /** The cell (r, c) exists in g and is free. */
  predicate FreeAt(g: seq<seq<int>>, r: int, c: int) {
    0 <= r < |g| && 0 <= c < |g[r]| && g[r][c] == 0
  }

  /** Every cell of the row is free. */
  predicate RowEmpty(row: seq<int>) {
    forall c :: 0 <= c < |row| ==> row[c] == 0
  }

  /** Every row of g has exactly `width` cells. */
  predicate Rectangular(g: seq<seq<int>>, width: nat) {
    forall i :: 0 <= i < |g| ==> |g[i]| == width
  }

  /** The number of full rows in g. */
  function FullCount(g: seq<seq<int>>): (n: nat)
    ensures n <= |g|
  {
    if g == [] then 0 else (if RowFull(g[0]) then 1 else 0) + FullCount(g[1..])
  }

  /** The rows of g that are not full, in their original top-to-bottom order. */
  function Survivors(g: seq<seq<int>>): (s: seq<seq<int>>)
    ensures |s| + FullCount(g) == |g|
  {
    if g == [] then [] else (if RowFull(g[0]) then [] else [g[0]]) + Survivors(g[1..])
  }

  /** n rows of `width` free cells. */
  function ZeroRows(n: nat, width: nat): (z: seq<seq<int>>)
  {
    seq(n, _ => seq(width, _ => 0))
  }

  /** The grid that gravity compaction should leave behind: one free row on top for every
      full row of g, then the rows of g that were not full, in order. */
  function Compacted(g: seq<seq<int>>, width: nat): seq<seq<int>>
  {
    ZeroRows(FullCount(g), width) + Survivors(g)
  }

  lemma {:induction false} FullCountAppend(a: seq<seq<int>>, b: seq<seq<int>>)
    ensures FullCount(a + b) == FullCount(a) + FullCount(b)
    ensures Survivors(a + b) == Survivors(a) + Survivors(b)
  {
    if a == [] {
      assert a + b == b;
    } else {
      assert (a + b)[1..] == a[1..] + b;
      FullCountAppend(a[1..], b);
    }
  }

  /** Unfolding FullCount and Survivors at row r of a suffix. */
  lemma SuffixStep(g: seq<seq<int>>, r: nat)
    requires r < |g|
    ensures FullCount(g[r..]) == (if RowFull(g[r]) then 1 else 0) + FullCount(g[r + 1..])
    ensures Survivors(g[r..]) == (if RowFull(g[r]) then [] else [g[r]]) + Survivors(g[r + 1..])
  {
    assert g[r..][1..] == g[r + 1..];
  }

  /** Every surviving row is a row of g that is not full. */
  lemma {:induction false} SurvivorsFrom(g: seq<seq<int>>)
    ensures forall i :: 0 <= i < |Survivors(g)| ==> Survivors(g)[i] in g && !RowFull(Survivors(g)[i])
  {
    if g != [] {
      SurvivorsFrom(g[1..]);
      var s := Survivors(g);
      var t := Survivors(g[1..]);
      var h := if RowFull(g[0]) then [] else [g[0]];
      assert s == h + t;
      forall i | 0 <= i < |s| ensures s[i] in g && !RowFull(s[i]) {
        if i < |h| {
          assert s[i] == g[0];
        } else {
          assert s[i] == t[i - |h|];
          assert t[i - |h|] in g[1..];
        }
      }
    }
  }

  /** A row that is not full moves down by exactly the number of full rows below it and
      keeps its contents. */
  lemma {:induction false} SurvivorLands(g: seq<seq<int>>, width: nat, r: nat)
    requires r < |g| && !RowFull(g[r])
    ensures r + FullCount(g[r + 1..]) < |g|
    ensures Compacted(g, width)[r + FullCount(g[r + 1..])] == g[r]
  {
    assert g == g[..r] + g[r..];
    FullCountAppend(g[..r], g[r..]);
    SuffixStep(g, r);
    var s := Survivors(g);
    assert s == Survivors(g[..r]) + [g[r]] + Survivors(g[r + 1..]);
    assert s[|Survivors(g[..r])|] == g[r];
  }

  /** Compaction keeps the relative order of the rows that survive. */
  lemma SurvivorOrder(g: seq<seq<int>>, r1: nat, r2: nat)
    requires r1 < r2 < |g| && !RowFull(g[r1]) && !RowFull(g[r2])
    ensures r1 + FullCount(g[r1 + 1..]) < r2 + FullCount(g[r2 + 1..])
  {
    assert g[r1 + 1..] == g[r1 + 1..r2] + g[r2..];
    FullCountAppend(g[r1 + 1..r2], g[r2..]);
    SuffixStep(g, r2);
  }

  lemma {:induction false} NoFullRowsFixed(g: seq<seq<int>>)
    requires forall i :: 0 <= i < |g| ==> !RowFull(g[i])
    ensures FullCount(g) == 0 && Survivors(g) == g
  {
    if g != [] {
      NoFullRowsFixed(g[1..]);
    }
  }

  /** After compaction no row is full (as long as rows have at least one cell), so a second
      compaction changes nothing. */
  lemma CompactedIdempotent(g: seq<seq<int>>, width: nat)
    requires 0 < width
    ensures forall i :: 0 <= i < |Compacted(g, width)| ==> !RowFull(Compacted(g, width)[i])
    ensures Compacted(Compacted(g, width), width) == Compacted(g, width)
  {
    var h := Compacted(g, width);
    SurvivorsFrom(g);
    forall i | 0 <= i < |h| ensures !RowFull(h[i]) {
      if i < FullCount(g) {
        assert h[i][0] == 0;
      } else {
        assert h[i] == Survivors(g)[i - FullCount(g)];
      }
    }
    NoFullRowsFixed(h);
    assert ZeroRows(0, width) == [];
  }

  /** The grid part-way through the bottom-up pass, once every row from p down has been
      handled and k full rows have been met: rows above p are untouched, then k freed rows,
      then the surviving rows seen so far. */
  function Stage(g: seq<seq<int>>, p: nat, k: nat, width: nat): seq<seq<int>>
    requires p <= |g|
  {
    g[..p] + ZeroRows(k, width) + Survivors(g[p..])
  }

  /** Handling a full row: it is freed and joins the block of freed rows. */
  lemma StageClear(g: seq<seq<int>>, p: nat, k: nat, width: nat)
    requires 0 < p <= |g| && RowFull(g[p - 1]) && k == FullCount(g[p..])
    ensures Stage(g, p, k, width)[p - 1 := seq(width, _ => 0)] == Stage(g, p - 1, k + 1, width)
  {
    SuffixStep(g, p - 1);
    var a := Stage(g, p, k, width)[p - 1 := seq(width, _ => 0)];
    var b := Stage(g, p - 1, k + 1, width);
    assert |a| == |b|;
    forall i | 0 <= i < |a| ensures a[i] == b[i] {
      if i < p - 1 {
      } else if i < p + k {
      } else {
        assert a[i] == Survivors(g[p..])[i - p - k];
      }
    }
  }

  /** Handling a surviving row below which k > 0 full rows were met: it drops k rows,
      to the top of the surviving rows, and its old place is freed. */
  lemma StageShift(g: seq<seq<int>>, p: nat, k: nat, width: nat)
    requires 0 < p <= |g| && !RowFull(g[p - 1]) && 0 < k && k == FullCount(g[p..])
    ensures p - 1 + k < |Stage(g, p, k, width)|
    ensures Stage(g, p, k, width)[p - 1 + k := Stage(g, p, k, width)[p - 1]][p - 1 := seq(width, _ => 0)]
            == Stage(g, p - 1, k, width)
  {
    SuffixStep(g, p - 1);
    var st := Stage(g, p, k, width);
    var a := st[p - 1 + k := st[p - 1]][p - 1 := seq(width, _ => 0)];
    var b := Stage(g, p - 1, k, width);
    var s := Survivors(g[p..]);
    assert Survivors(g[p - 1..]) == [g[p - 1]] + s;
    assert |a| == |b|;
    forall i | 0 <= i < |a| ensures a[i] == b[i] {
      if i < p - 1 {
      } else if i < p - 1 + k {
      } else if i == p - 1 + k {
        assert b[i] == Survivors(g[p - 1..])[0];
      } else {
        assert a[i] == s[i - p - k];
        assert b[i] == Survivors(g[p - 1..])[i - p + 1 - k];
      }
    }
  }

  /** Handling a surviving row before any full row was met: nothing moves. */
  lemma StageKeep(g: seq<seq<int>>, p: nat, width: nat)
    requires 0 < p <= |g| && !RowFull(g[p - 1])
    ensures Stage(g, p, 0, width) == Stage(g, p - 1, 0, width)
  {
    SuffixStep(g, p - 1);
    assert g[..p] == g[..p - 1] + [g[p - 1]];
    assert ZeroRows(0, width) == [];
  }

  /** The pass starts from the untouched grid and ends with the compacted one. */
  lemma StageEnds(g: seq<seq<int>>, width: nat)
    ensures Stage(g, |g|, 0, width) == g
    ensures Stage(g, 0, FullCount(g), width) == Compacted(g, width)
  {
    assert g[..|g|] == g && g[|g|..] == [] && g[..0] == [] && g[0..] == g;
    assert ZeroRows(0, width) == [];
  }

  class GameGrid {
    const rows: nat
    const columns: nat
    const grid: array2<int>

    ghost predicate Valid() {
      grid.Length0 == rows && grid.Length1 == columns
    }

    /** The grid's contents as a value, row by row. */
    ghost function Cells(): (g: seq<seq<int>>)
      reads grid
      ensures |g| == grid.Length0 && Rectangular(g, grid.Length1)
      ensures forall r, c :: 0 <= r < grid.Length0 && 0 <= c < grid.Length1 ==> g[r][c] == grid[r, c]
    {
      seq(grid.Length0, r requires 0 <= r < grid.Length0 reads grid =>
        seq(grid.Length1, c requires 0 <= c < grid.Length1 reads grid => grid[r, c]))
    }

    lemma CellsAre(s: seq<seq<int>>)
      requires |s| == grid.Length0 && Rectangular(s, grid.Length1)
      requires forall r, c :: 0 <= r < grid.Length0 && 0 <= c < grid.Length1 ==> grid[r, c] == s[r][c]
      ensures Cells() == s
    {
      var g := Cells();
      forall r | 0 <= r < |s| ensures g[r] == s[r] {
        assert forall c :: 0 <= c < |s[r]| ==> g[r][c] == s[r][c];
      }
    }

    constructor (rows: nat, columns: nat)
      ensures Valid() && this.rows == rows && this.columns == columns && fresh(grid)
      ensures Cells() == ZeroRows(rows, columns)
    {
      this.rows := rows;
      this.columns := columns;
      grid := new int[rows, columns]((r, c) => 0);
      new;
      CellsAre(ZeroRows(rows, columns));
    }

    /** The indexer's getter. */
    function Get(r: int, c: int): (v: int)
      requires Valid() && IsInside(r, c)
      reads grid
      ensures v == Cells()[r][c]
    {
      grid[r, c]
    }

    /** The indexer's setter. */
    method Set(r: int, c: int, v: int)
      requires Valid() && IsInside(r, c)
      modifies grid
      ensures Cells() == old(Cells())[r := old(Cells())[r][c := v]]
    {
      grid[r, c] := v;
      CellsAre(old(Cells())[r := old(Cells())[r][c := v]]);
    }

    /** Whether (r, c) addresses a cell of the grid. */
    function IsInside(r: int, c: int): (inside: bool)
      requires Valid()
      reads grid
      ensures inside <==> 0 <= r < |Cells()| && 0 <= c < |Cells()[r]|
    {
      0 <= r < rows && 0 <= c < columns
    }

    /** Out-of-bounds cells are never empty; an in-bounds cell is empty when it holds 0. */
    function IsEmpty(r: int, c: int): (e: bool)
      requires Valid()
      reads grid
      ensures e <==> FreeAt(Cells(), r, c)
    {
      IsInside(r, c) && grid[r, c] == 0
    }

    method IsRowFull(r: int) returns (full: bool)
      requires Valid() && 0 <= r < rows
      ensures full <==> RowFull(Cells()[r])
    {
      for c := 0 to columns
        invariant forall j :: 0 <= j < c ==> grid[r, j] != 0
      {
        if grid[r, c] == 0 {
          return false;
        }
      }
      return true;
    }

    method IsRowEmpty(r: int) returns (empty: bool)
      requires Valid() && 0 <= r < rows
      ensures empty <==> RowEmpty(Cells()[r])
    {
      for c := 0 to columns
        invariant forall j :: 0 <= j < c ==> grid[r, j] == 0
      {
        if grid[r, c] != 0 {
          return false;
        }
      }
      return true;
    }

    /** Clears every full row and lets the rows above fall into the gaps. The pass runs
        bottom-up; `cleared` counts the full rows met so far, which is how far each later
        surviving row has to move down. */
    method ClearFullRows() returns (cleared: int)
      requires Valid()
      modifies grid
      ensures cleared == FullCount(old(Cells()))
      ensures Cells() == Compacted(old(Cells()), columns)
    {
      ghost var g := Cells();
      cleared := 0;
      var r := rows - 1;
      StageEnds(g, columns);
      while r >= 0
        invariant -1 <= r < rows
        invariant cleared == FullCount(g[r + 1..])
        invariant Cells() == Stage(g, r + 1, cleared, columns)
      {
        SuffixStep(g, r);
        assert Cells()[r] == g[r];
        var full := IsRowFull(r);
        if full {
          ClearRow(r);
          StageClear(g, r + 1, cleared, columns);
          cleared := cleared + 1;
        } else if cleared > 0 {
          MoveRowDown(r, cleared);
          StageShift(g, r + 1, cleared, columns);
        } else {
          StageKeep(g, r + 1, columns);
        }
        r := r - 1;
      }
      assert g[0..] == g;
    }

    method ClearRow(r: int)
      requires Valid() && 0 <= r < rows
      modifies grid
      ensures Cells() == old(Cells())[r := seq(columns, _ => 0)]
    {
      for c := 0 to columns
        invariant forall i, j :: 0 <= i < rows && 0 <= j < columns ==>
                    grid[i, j] == if i == r && j < c then 0 else old(grid[i, j])
      {
        grid[r, c] := 0;
      }
      CellsAre(old(Cells())[r := seq(columns, _ => 0)]);
    }

    /** Copies row r numRows rows further down and frees row r; never writes past the
        last row. */
    method MoveRowDown(r: int, numRows: int)
      requires Valid() && 0 <= r && 0 <= numRows && r + numRows < rows
      modifies grid
      ensures Cells() == old(Cells())[r + numRows := old(Cells())[r]][r := seq(columns, _ => 0)]
    {
      for c := 0 to columns
        invariant forall i, j :: 0 <= i < rows && 0 <= j < columns ==>
                    grid[i, j] == if j < c && i == r then 0
                                  else if j < c && i == r + numRows then old(grid[r, j])
                                  else old(grid[i, j])
      {
        grid[r + numRows, c] := grid[r, c];
        grid[r, c] := 0;
      }
      CellsAre(old(Cells())[r + numRows := old(Cells())[r]][r := seq(columns, _ => 0)]);
    }
  }
}
