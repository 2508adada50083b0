/** The win test of the game, on the board's size, its mines and the opened
    cells. The game lists the closed cells (every cell not opened, and every
    mine), sorts that list and the mine list, zips the two, counts the pairs
    that agree and declares a win when that count equals the number of mines.
    Because zipping stops at the shorter list, the test only looks at the
    first |mines| closed cells. */
module WinCheck {
  import opened Geometry
  import opened Sorting

  /** The cells of `cells` that are closed: not opened, or holding a mine.
      Keeps the order of `cells`. */
  function ClosedAmong(cells: seq<Pos>, openedCells: seq<Pos>, mines: seq<Pos>): (r: seq<Pos>)
    ensures forall c :: c in r <==> c in cells && (c !in openedCells || c in mines)
    ensures Distinct(cells) ==> Distinct(r)
  {
    if cells == [] then []
    else
      var rest := ClosedAmong(cells[1..], openedCells, mines);
      var c := cells[0];
      assert cells == [c] + cells[1..];
      assert Distinct(cells) ==> Distinct(cells[1..]) && c !in rest;
      if c !in openedCells || c in mines then [c] + rest else rest
  }

  /** The closed cells of the board, in the enumeration order of the board. */
  function Closed(width: nat, height: nat, openedCells: seq<Pos>, mines: seq<Pos>): seq<Pos>
  {
    ClosedAmong(AllCells(width, height), openedCells, mines)
  }

  /** The win test as the game writes it (without its flag-count guard). */
  predicate ZipTest(width: nat, height: nat, mines: seq<Pos>, openedCells: seq<Pos>)
  {
    CountMatches(Sort(Closed(width, height, openedCells, mines)), Sort(mines)) == |mines|
  }

  /** No cell that is neither opened nor a mine comes before a mine. */
  ghost predicate NoSafeCellBeforeAMine(width: nat, height: nat, mines: seq<Pos>, openedCells: seq<Pos>)
  {
    forall c, m :: OnBoard(width, height, c) && c !in openedCells && c !in mines && m in mines ==> Before(m, c)
  }

  /** Every cell of the board that holds no mine is opened. */
  ghost predicate AllSafeOpened(width: nat, height: nat, mines: seq<Pos>, openedCells: seq<Pos>)
  {
    forall c :: OnBoard(width, height, c) && c !in mines ==> c in openedCells
  }

  /** The sorted closed list and the sorted mine list are strictly sorted,
      and the first holds every element of the second. */
  lemma SortedLists(width: nat, height: nat, mines: seq<Pos>, openedCells: seq<Pos>)
    requires Distinct(mines) && AllOnBoard(width, height, mines)
    ensures StrictlySorted(Sort(Closed(width, height, openedCells, mines)))
    ensures StrictlySorted(Sort(mines))
    ensures Elements(Sort(Closed(width, height, openedCells, mines))) == Elements(Closed(width, height, openedCells, mines))
    ensures Elements(Sort(mines)) == Elements(mines)
    ensures Elements(mines) <= Elements(Closed(width, height, openedCells, mines))
    ensures |Sort(mines)| == |mines|
  {
    var cells := AllCells(width, height);
    SortedIsDistinct(cells);
    var closed := Closed(width, height, openedCells, mines);
    SortElements(closed);
    SortElements(mines);
    SortStrictlySorted(closed);
    SortStrictlySorted(mines);
    assert |multiset(Sort(mines))| == |multiset(mines)|;
  }

  /** The zip test succeeds exactly when no safe cell that is still closed
      comes before a mine in the board's order. In particular it succeeds
      once every safe cell is opened. */
  lemma ZipTestMeaning(width: nat, height: nat, mines: seq<Pos>, openedCells: seq<Pos>)
    requires Distinct(mines) && AllOnBoard(width, height, mines)
    ensures ZipTest(width, height, mines, openedCells) <==> NoSafeCellBeforeAMine(width, height, mines, openedCells)
    ensures AllSafeOpened(width, height, mines, openedCells) ==> ZipTest(width, height, mines, openedCells)
  {
    var cs := Sort(Closed(width, height, openedCells, mines));
    var ms := Sort(mines);
    SortedLists(width, height, mines, openedCells);
    PrefixMeaning(cs, ms);
    assert (forall c, m :: c in cs && c !in ms && m in ms ==> Before(m, c)) <==>
           NoSafeCellBeforeAMine(width, height, mines, openedCells) by {
      forall c
        ensures c in cs && c !in ms <==> OnBoard(width, height, c) && c !in openedCells && c !in mines
      {
        assert c in cs <==> c in Elements(cs);
        assert c in ms <==> c in Elements(ms);
      }
      forall m ensures m in ms <==> m in mines {
        assert m in ms <==> m in Elements(ms);
      }
    }
  }

  /** The test evidently intended: the closed cells are exactly the mines. */
  predicate ExactTest(width: nat, height: nat, mines: seq<Pos>, openedCells: seq<Pos>)
  {
    Sort(Closed(width, height, openedCells, mines)) == Sort(mines)
  }

  /** The intended test succeeds exactly when every safe cell is opened. */
  lemma ExactTestMeaning(width: nat, height: nat, mines: seq<Pos>, openedCells: seq<Pos>)
    requires Distinct(mines) && AllOnBoard(width, height, mines)
    ensures ExactTest(width, height, mines, openedCells) <==> AllSafeOpened(width, height, mines, openedCells)
  {
    var closed := Closed(width, height, openedCells, mines);
    SortedLists(width, height, mines, openedCells);
    if AllSafeOpened(width, height, mines, openedCells) {
      assert Elements(closed) == Elements(mines);
      SortedUnique(Sort(closed), Sort(mines));
    }
    if ExactTest(width, height, mines, openedCells) {
      forall c | OnBoard(width, height, c) && c !in mines ensures c in openedCells {
        assert c !in Elements(closed);
      }
    }
  }

  /** On a board of three cells in one row, with the only mine in the first
      cell and nothing opened, the zip test already succeeds although two
      safe cells are still closed; the intended test does not. */
  lemma ZipTestAcceptsUnopenedBoard()
    ensures ZipTest(3, 1, [(0, 0)], [])
    ensures !AllSafeOpened(3, 1, [(0, 0)], [])
    ensures !ExactTest(3, 1, [(0, 0)], [])
  {
    var mines: seq<Pos> := [(0, 0)];
    ZipTestMeaning(3, 1, mines, []);
    ExactTestMeaning(3, 1, mines, []);
    assert OnBoard(3, 1, (1, 0)) && (1, 0) !in mines;
  }
}
