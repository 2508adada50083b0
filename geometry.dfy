/** Board geometry: cells, the board's bounds, the x-major order on cells and
    the enumeration of every cell of a board. */
module Geometry {

  /** A cell (x, y): x is the column, y the row. The game stores coordinates
      as unsigned integers, so they are never negative. */
  type Pos = (nat, nat)

  /** The cell lies on a board of the given size. */
  predicate OnBoard(width: nat, height: nat, p: Pos)
  {
    p.0 < width && p.1 < height
  }

  predicate AllOnBoard(width: nat, height: nat, s: seq<Pos>)
  {
    forall p :: p in s ==> OnBoard(width, height, p)
  }

  /** No element occurs twice. */
  predicate Distinct<T(==)>(s: seq<T>)
  {
    forall i, j :: 0 <= i < j < |s| ==> s[i] != s[j]
  }

  /** The set of elements of a sequence. */
  function Elements<T>(s: seq<T>): set<T>
  {
    set x | x in s
  }

  /** A sequence without repetitions has as many elements as its length. */
  lemma {:induction false} DistinctCard<T>(s: seq<T>)
    requires Distinct(s)
    ensures |Elements(s)| == |s|
  {
    if s != [] {
      DistinctCard(s[1..]);
      assert Elements(s) == Elements(s[1..]) + {s[0]};
      assert s[0] !in Elements(s[1..]);
    }
  }

  /** Any sequence has at most as many distinct elements as its length. */
  lemma {:induction false} ElementsCard<T>(s: seq<T>)
    ensures |Elements(s)| <= |s|
  {
    if s != [] {
      ElementsCard(s[1..]);
      assert Elements(s) == Elements(s[1..]) + {s[0]};
    }
  }

  /** Every element of a prefix is an element of the whole. */
  lemma PrefixElements<T>(a: seq<T>, b: seq<T>)
    requires a <= b
    ensures forall x :: x in a ==> x in b
    ensures Elements(a) <= Elements(b)
  {
    forall x | x in a ensures x in b {
      var i :| 0 <= i < |a| && a[i] == x;
      assert b[i] == x;
    }
  }

  /** A subset is no larger than its superset. */
  lemma {:induction false} SubsetCard<T>(a: set<T>, b: set<T>)
    requires a <= b
    ensures |a| <= |b|
  {
    if a != {} {
      var x :| x in a;
      SubsetCard(a - {x}, b - {x});
    }
  }

  /** A subset as large as its superset is the whole superset. */
  lemma SubsetCardEqual<T>(a: set<T>, b: set<T>)
    requires a <= b && |b| <= |a|
    ensures a == b
  {
    assert |b - a| == |b| - |a|;
  }

  /** The order of cells: by column, then by row (the derived order of a pair
      of unsigned integers). */
  predicate Before(a: Pos, b: Pos)
  {
    a.0 < b.0 || (a.0 == b.0 && a.1 < b.1)
  }

  predicate StrictlySorted(s: seq<Pos>)
  {
    forall i, j :: 0 <= i < j < |s| ==> Before(s[i], s[j])
  }

  lemma SortedIsDistinct(s: seq<Pos>)
    requires StrictlySorted(s)
    ensures Distinct(s)
  {
  }

  /** The cells (x, 0), ..., (x, height - 1) of column x, in that order. */
  function Column(x: nat, height: nat): (col: seq<Pos>)
    ensures |col| == height
    ensures StrictlySorted(col)
    ensures forall p :: p in col <==> p.0 == x && p.1 < height
  {
    if height == 0 then [] else Column(x, height - 1) + [(x, height - 1)]
  }

  /** Every cell of a width-by-height board, column after column: the
      enumeration the game builds by mapping every x to its column and
      flattening. Column-major enumeration is the order Before. */
  function AllCells(width: nat, height: nat): (cells: seq<Pos>)
    ensures |cells| == width * height
    ensures StrictlySorted(cells)
    ensures forall p :: p in cells <==> OnBoard(width, height, p)
  {
    if width == 0 then []
    else
      var front := AllCells(width - 1, height);
      var last := Column(width - 1, height);
      assert forall i, j :: 0 <= i < |front| && 0 <= j < |last| ==> Before(front[i], last[j]) by {
        forall i, j | 0 <= i < |front| && 0 <= j < |last| ensures Before(front[i], last[j]) {
          assert front[i] in front && last[j] in last;
        }
      }
      assert (width - 1) * height + height == width * height;
      front + last
  }

  /** The set of all cells of the board. */
  function BoardCells(width: nat, height: nat): set<Pos>
  {
    Elements(AllCells(width, height))
  }

  /** A board has width * height cells, and any set of cells on it has at
      most that many elements. */
  lemma BoardCellsCard(width: nat, height: nat, cells: set<Pos>)
    requires forall p :: p in cells ==> OnBoard(width, height, p)
    ensures |BoardCells(width, height)| == width * height
    ensures |cells| <= width * height
  {
    var all := AllCells(width, height);
    SortedIsDistinct(all);
    DistinctCard(all);
    SubsetCard(cells, BoardCells(width, height));
  }

  /** The range test as the game writes it: a cell is refused only when a
      coordinate EXCEEDS the board's size, so x == width and y == height are
      admitted. */
  predicate InRangeAsWritten(width: nat, height: nat, x: nat, y: nat)
  {
    !(x > width || y > height)
  }

  /** The range test the game evidently intends (its error message speaks of
      a position out of range, and the cursor is clamped to width - 1 and
      height - 1): exactly the cells of the board. */
  function InRange(width: nat, height: nat, x: nat, y: nat): bool
  {
    x < width && y < height
  }

  /** The range test admits exactly the cells that the board's enumeration
      lists. */
  lemma InRangeOnBoard(width: nat, height: nat, x: nat, y: nat)
    ensures InRange(width, height, x, y) <==> (x, y) in AllCells(width, height)
    ensures InRange(width, height, x, y) <==> (x, y) in BoardCells(width, height)
  {
  }

  /** On every board the written test admits a cell that is not on the
      board: the cell just past the bottom-right corner. */
  lemma InRangeAsWrittenAdmitsOffBoard(width: nat, height: nat)
    ensures InRangeAsWritten(width, height, width, height)
    ensures !InRange(width, height, width, height)
    ensures (width, height) !in BoardCells(width, height)
  {
  }
}
