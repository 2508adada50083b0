/** Placement of the mines when a game is created. The game draws cells from
    a random generator; here the draws are a sequence of candidate cells
    supplied by the caller, so the model covers every possible run of the
    generator that stays within the candidates given. */
module MineLayout {
  import opened Geometry

  /** The number of mines a generation that stops yields: the length test
      runs after a first cell is pushed, so a request for no mines still
      places one. */
  function Requested(nofMines: nat): (n: nat)
    ensures n >= 1 && n >= nofMines
    ensures nofMines >= 1 ==> n == nofMines
  {
    if nofMines == 0 then 1 else nofMines
  }

  /** The mine list the loop builds from the draws, ignoring its stop test:
      each draw is pushed unless the list already holds it. */
  function Accumulate(draws: seq<Pos>): (mines: seq<Pos>)
    ensures Distinct(mines)
    ensures Elements(mines) == Elements(draws)
  {
    if draws == [] then []
    else
      var front := Accumulate(draws[..|draws| - 1]);
      var last := draws[|draws| - 1];
      assert draws == draws[..|draws| - 1] + [last];
      assert Elements(draws) == Elements(draws[..|draws| - 1]) + {last};
      if last in front then front else front + [last]
  }

  /** The generation loop, run on the candidate cells of `oracle` in order.
      It stops as soon as the list holds at least nofMines cells (checked
      after each draw) and otherwise runs until the candidates are used up.
      `drawn` is the number of candidates consumed and `stopped` says
      whether the loop stopped by its own test. */
  method GenerateMines(width: nat, height: nat, nofMines: nat, oracle: seq<Pos>)
    returns (mines: seq<Pos>, drawn: nat, stopped: bool)
    requires AllOnBoard(width, height, oracle)
    ensures drawn <= |oracle|
    ensures mines == Accumulate(oracle[..drawn])
    ensures Distinct(mines) && AllOnBoard(width, height, mines)
    ensures stopped ==> |mines| == Requested(nofMines)
    ensures !stopped ==> drawn == |oracle| && |mines| < Requested(nofMines)
    ensures stopped <==> Requested(nofMines) <= |Elements(oracle)|
  {
    mines, drawn, stopped := [], 0, false;
    while !stopped && drawn < |oracle|
      invariant drawn <= |oracle|
      invariant mines == Accumulate(oracle[..drawn])
      invariant stopped ==> |mines| == Requested(nofMines)
      invariant !stopped ==> |mines| < Requested(nofMines)
      decreases |oracle| - drawn
    {
      var mine := oracle[drawn];
      assert oracle[..drawn + 1] == oracle[..drawn] + [mine];
      drawn := drawn + 1;
      if mine !in mines {
        mines := mines + [mine];
      }
      if |mines| >= nofMines {
        stopped := true;
      }
    }
    assert Elements(mines) <= Elements(oracle) by {
      assert Elements(mines) == Elements(oracle[..drawn]);
      assert forall m :: m in oracle[..drawn] ==> m in oracle;
    }
    assert AllOnBoard(width, height, mines) by {
      forall m | m in mines ensures OnBoard(width, height, m) {
        assert m in Elements(mines);
      }
    }
    DistinctCard(mines);
    if stopped {
      SubsetCard(Elements(mines), Elements(oracle));
    } else {
      assert oracle[..drawn] == oracle;
    }
  }

  /** The candidates are cells of the board, so at most width * height of
      them are distinct: a request for more mines than the board has cells
      can never stop, whatever the generator draws. */
  lemma OracleBound(width: nat, height: nat, nofMines: nat, oracle: seq<Pos>)
    requires AllOnBoard(width, height, oracle)
    requires Requested(nofMines) <= |Elements(oracle)|
    ensures Requested(nofMines) <= width * height
  {
    BoardCellsCard(width, height, Elements(oracle));
  }

  /** A request that fits the board does end: once the generator has drawn
      every cell of the board, the draws hold enough distinct cells for the
      loop's stop test (GenerateMines stops exactly then). */
  lemma FittingRequestStops(width: nat, height: nat, nofMines: nat, oracle: seq<Pos>)
    requires AllOnBoard(width, height, oracle)
    requires Requested(nofMines) <= width * height
    requires BoardCells(width, height) <= Elements(oracle)
    ensures Requested(nofMines) <= |Elements(oracle)|
  {
    BoardCellsCard(width, height, Elements(oracle));
    SubsetCard(BoardCells(width, height), Elements(oracle));
  }
}
