/** The 4x4 board geometry: cells, grids of per-cell values held as rows,
    and the row-major reading order in which the board is dealt. */
module Grids {

  /** Side of the square board (the source's SIZE). */
  const Size := 4

  /** A position on the board. */
  datatype Cell = Cell(row: int, col: int)

  predicate InGrid(c: Cell)
  {
    0 <= c.row < Size && 0 <= c.col < Size
  }

  /** A Size x Size grid, stored as a sequence of rows. */
  predicate IsGrid<T>(g: seq<seq<T>>)
  {
    |g| == Size && forall r :: 0 <= r < Size ==> |g[r]| == Size
  }

  function At<T>(g: seq<seq<T>>, c: Cell): T
    requires IsGrid(g) && InGrid(c)
  {
    g[c.row][c.col]
  }

  /** The grid whose cell c holds f(c). */
  function Tabulate<T>(f: Cell -> T): (h: seq<seq<T>>)
    ensures IsGrid(h)
    ensures forall c :: InGrid(c) ==> At(h, c) == f(c)
  {
    seq(Size, r => seq(Size, k => f(Cell(r, k))))
  }

  /** The grid holding v in every cell. */
  function Filled<T>(v: T): (h: seq<seq<T>>)
    ensures IsGrid(h)
    ensures forall c :: InGrid(c) ==> At(h, c) == v
  {
    Tabulate(_ => v)
  }

  /** g with cell c set to v and every other cell kept. */
  function Update<T>(g: seq<seq<T>>, c: Cell, v: T): (h: seq<seq<T>>)
    requires IsGrid(g) && InGrid(c)
    ensures IsGrid(h)
    ensures At(h, c) == v
    ensures forall d :: InGrid(d) && d != c ==> At(h, d) == At(g, d)
  {
    g[c.row := g[c.row][c.col := v]]
  }

  /** Two grids that agree on every cell are the same grid. */
  lemma {:induction false} GridExt<T>(g: seq<seq<T>>, h: seq<seq<T>>)
    requires IsGrid(g) && IsGrid(h)
    requires forall c :: InGrid(c) ==> At(g, c) == At(h, c)
    ensures g == h
  {
    forall r | 0 <= r < Size
      ensures g[r] == h[r]
    {
      forall k | 0 <= k < Size
        ensures g[r][k] == h[r][k]
      {
        assert At(g, Cell(r, k)) == At(h, Cell(r, k));
      }
    }
  }

  /** The cells of a grid read row by row. */
  function Flatten<T>(g: seq<seq<T>>): seq<T>
  {
    if g == [] then [] else g[0] + Flatten(g[1..])
  }

  /** Lays out Size * Size values row by row, the first Size of them in row 0. */
  function Rows<T>(s: seq<T>): (g: seq<seq<T>>)
    requires |s| == Size * Size
    ensures IsGrid(g)
    ensures forall c :: InGrid(c) ==> At(g, c) == s[Size * c.row + c.col]
  {
    Tabulate(c => if InGrid(c) then s[Size * c.row + c.col] else s[0])
  }

  /** Reading back the laid-out values row by row gives them in their original order. */
  lemma FlattenRows<T>(s: seq<T>)
    requires |s| == Size * Size
    ensures Flatten(Rows(s)) == s
  {
    var g := Rows(s);
    forall r | 0 <= r < Size
      ensures g[r] == s[Size * r .. Size * r + Size]
    {
      forall k | 0 <= k < Size
        ensures g[r][k] == s[Size * r + k]
      {
        assert At(g, Cell(r, k)) == s[Size * r + k];
      }
    }
    calc {
      Flatten(g);
      g[0] + Flatten(g[1..]);
      g[0] + (g[1] + Flatten(g[2..]));
      g[0] + (g[1] + (g[2] + Flatten(g[3..])));
      g[0] + (g[1] + (g[2] + (g[3] + Flatten(g[4..]))));
      { assert g[4..] == []; }
      s[0..4] + (s[4..8] + (s[8..12] + (s[12..16] + [])));
      s;
    }
  }
}
