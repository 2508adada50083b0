/** The rules engine: one game, owned by the terminal front end, which calls
    the moves, the flag toggle, reveal and the win check once per key press
    or frame and reads the queries to draw the board. */
module Game {
  import opened Geometry
  import opened Sorting
  import opened MineLayout
  import opened WinCheck

  /** One more than the largest value of the game's unsigned counters
      (`usize` on a 64-bit target). */
  const WordModulus: nat := 0x1_0000_0000_0000_0000

  /** Two different cells that touch, side by side or diagonally. */
  predicate Touches(a: Pos, b: Pos)
  {
    a != b && a.0 <= b.0 + 1 && b.0 <= a.0 + 1 && a.1 <= b.1 + 1 && b.1 <= a.1 + 1
  }

  /** The flag list without p; the order of the other flags is kept (the
      game removes a flag with `retain`). */
  function Without(s: seq<Pos>, p: Pos): (r: seq<Pos>)
    ensures forall q :: q in r <==> q in s && q != p
    ensures Distinct(s) ==> Distinct(r)
    ensures p !in s ==> r == s
  {
    if s == [] then []
    else
      var front := Without(s[..|s| - 1], p);
      var last := s[|s| - 1];
      assert s == s[..|s| - 1] + [last];
      assert Distinct(s) ==> Distinct(s[..|s| - 1]) && last !in front;
      if last == p then front else front + [last]
  }

  /** The flag list after the player toggles the flag on p: p is removed
      when flagged and pushed at the end otherwise; no other cell changes. */
  function ToggleFlag(flags: seq<Pos>, p: Pos): (r: seq<Pos>)
    ensures forall q :: q in r <==> if q == p then p !in flags else q in flags
    ensures Distinct(flags) ==> Distinct(r)
  {
    if p in flags then Without(flags, p) else flags + [p]
  }

  /** Toggling a flag changes the number of flags by exactly one. */
  lemma ToggleFlagCount(flags: seq<Pos>, p: Pos)
    requires Distinct(flags)
    ensures |ToggleFlag(flags, p)| == if p in flags then |flags| - 1 else |flags| + 1
  {
    var r := ToggleFlag(flags, p);
    DistinctCard(flags);
    DistinctCard(r);
    if p in flags {
      assert Elements(r) == Elements(flags) - {p};
    } else {
      assert Elements(r) == Elements(flags) + {p};
    }
  }

  /** Toggling the same flag twice gives back the same flagged cells and the
      same number of flags, and the very same list when p was not flagged. */
  lemma ToggleTwice(flags: seq<Pos>, p: Pos)
    requires Distinct(flags)
    ensures Elements(ToggleFlag(ToggleFlag(flags, p), p)) == Elements(flags)
    ensures |ToggleFlag(ToggleFlag(flags, p), p)| == |flags|
    ensures p !in flags ==> ToggleFlag(ToggleFlag(flags, p), p) == flags
  {
    var once := ToggleFlag(flags, p);
    ToggleFlagCount(flags, p);
    ToggleFlagCount(once, p);
    if p !in flags {
      assert once == flags + [p];
      assert Without(once, p) == Without(flags, p) by {
        assert once[..|once| - 1] == flags;
      }
    }
  }

  class GameState {
    const mines: seq<Pos>
    var openedCells: seq<Pos>
    var flags: seq<Pos>
    var player: Pos
    const width: nat
    const height: nat
    var isAlive: bool

    /** The state every operation keeps: the cursor and every listed cell
        are on the board, and no list holds a cell twice. */
    ghost predicate Valid()
      reads this
    {
      && OnBoard(width, height, player)
      && Distinct(mines) && AllOnBoard(width, height, mines)
      && Distinct(openedCells) && AllOnBoard(width, height, openedCells)
      && Distinct(flags) && AllOnBoard(width, height, flags)
    }

    /** A new game: mines drawn from `oracle` (the random generator's
        successive draws), nothing opened, nothing flagged, the cursor in
        the top-left corner. The generator must eventually draw enough
        distinct cells for the generation loop to stop. */
    constructor (width: nat, height: nat, nofMines: nat, oracle: seq<Pos>)
      requires AllOnBoard(width, height, oracle)
      requires Requested(nofMines) <= |Elements(oracle)|
      ensures Valid()
      ensures this.width == width && this.height == height
      ensures |mines| == Requested(nofMines) && Elements(mines) <= Elements(oracle)
      ensures openedCells == [] && flags == [] && player == (0, 0) && isAlive
      ensures MinesLeft() == Requested(nofMines)
    {
      var generated, drawn, stopped := GenerateMines(width, height, nofMines, oracle);
      ElementsCard(oracle);
      assert oracle[0] in oracle;
      assert Elements(generated) <= Elements(oracle) by {
        assert Elements(generated) == Elements(oracle[..drawn]);
        assert forall m :: m in oracle[..drawn] ==> m in oracle;
      }
      mines := generated;
      openedCells := [];
      flags := [];
      player := (0, 0);
      this.width := width;
      this.height := height;
      isAlive := true;
    }

    predicate HasMine(x: nat, y: nat)
    {
      (x, y) in mines
    }

    predicate IsOpened(x: nat, y: nat)
      reads this`openedCells
    {
      (x, y) in openedCells
    }

    predicate IsFlagged(x: nat, y: nat)
      reads this`flags
    {
      (x, y) in flags
    }

    predicate IsPlayer(x: nat, y: nat)
      reads this`player
    {
      player == (x, y)
    }

    /** The counter the front end shows: mines minus flags, that is, the
        number of distinct mines less the number of distinct flagged cells.
        Nothing stops the player from flagging more cells than there are
        mines, and then the counter is negative. */
    function MinesLeft(): (n: int)
      reads this
      requires Valid()
      ensures n == |Elements(mines)| - |Elements(flags)|
    {
      DistinctCard(mines);
      DistinctCard(flags);
      |mines| - |flags|
    }

    /** The counter as the game computes it, an unsigned subtraction that
        wraps around (as a release build does): the counter is the one
        value below WordModulus that adds up with the flag count to the mine
        count, modulo WordModulus. It agrees with MinesLeft while there are
        no more flags than mines. */
    function MinesLeftAsWritten(): (n: nat)
      reads this
      requires Valid() && |mines| < WordModulus && |flags| < WordModulus
      ensures n < WordModulus && (n + |flags|) % WordModulus == |mines|
      ensures |flags| <= |mines| ==> n == MinesLeft()
    {
      DistinctCard(mines);
      DistinctCard(flags);
      if |flags| <= |mines| then |mines| - |flags| else WordModulus + |mines| - |flags|
    }

    /** One mine and two flags: the game shows 18446744073709551615 mines
        left where one too many flags, -1, is meant. */
    lemma MinesLeftWraps()
      requires Valid() && |mines| == 1 && |flags| == 2
      ensures MinesLeftAsWritten() == WordModulus - 1
      ensures MinesLeft() == -1
    {
      DistinctCard(mines);
      DistinctCard(flags);
    }

    /** Record (x, y) as opened unless it already is. A cell off the board is
        refused (the range error) and nothing changes. */
    method Open(x: nat, y: nat) returns (ok: bool)
      requires Valid()
      modifies this`openedCells
      ensures Valid()
      ensures ok <==> InRange(width, height, x, y)
      ensures openedCells == if ok && (x, y) !in old(openedCells) then old(openedCells) + [(x, y)] else old(openedCells)
    {
      ok := InRange(width, height, x, y);
      if ok && !IsOpened(x, y) {
        openedCells := openedCells + [(x, y)];
      }
    }

    /** Toggle the flag under the cursor, unless the game is over or the
        cell is opened. */
    method Flag()
      requires Valid()
      modifies this`flags
      ensures Valid()
      ensures flags == if !isAlive || player in openedCells then old(flags) else ToggleFlag(old(flags), player)
    {
      var x, y := player.0, player.1;
      if !isAlive || IsOpened(x, y) {
        return;
      }
      if IsFlagged(x, y) {
        flags := Without(flags, (x, y));
      } else {
        flags := flags + [(x, y)];
      }
    }

    method MovePlayerRight()
      requires Valid()
      modifies this`player
      ensures Valid()
      ensures player == if isAlive && old(player).0 + 1 < width then (old(player).0 + 1, old(player).1) else old(player)
    {
      if isAlive && player.0 < width - 1 {
        player := (player.0 + 1, player.1);
      }
    }

    method MovePlayerLeft()
      requires Valid()
      modifies this`player
      ensures Valid()
      ensures player == if isAlive && old(player).0 > 0 then (old(player).0 - 1, old(player).1) else old(player)
    {
      if isAlive && player.0 > 0 {
        player := (player.0 - 1, player.1);
      }
    }

    method MovePlayerUp()
      requires Valid()
      modifies this`player
      ensures Valid()
      ensures player == if isAlive && old(player).1 > 0 then (old(player).0, old(player).1 - 1) else old(player)
    {
      if isAlive && player.1 > 0 {
        player := (player.0, player.1 - 1);
      }
    }

    method MovePlayerDown()
      requires Valid()
      modifies this`player
      ensures Valid()
      ensures player == if isAlive && old(player).1 + 1 < height then (old(player).0, old(player).1 + 1) else old(player)
    {
      if isAlive && player.1 < height - 1 {
        player := (player.0, player.1 + 1);
      }
    }

    /** Bring the player back to life. Nothing else is reset: opened cells,
        flags and shown mines stay as they are. */
    method Resurrect()
      requires Valid()
      modifies this`isAlive
      ensures Valid()
      ensures isAlive
    {
      isAlive := true;
    }

    /** The cells of the board not opened yet: the fill's measure of
        progress, since each of its steps goes to such a cell. */
    ghost function Unopened(): set<Pos>
      reads this`openedCells
    {
      set x: nat, y: nat | x < width && y < height && (x, y) !in openedCells :: (x, y)
    }

    /** The mines touching c. */
    ghost function NearbyMines(c: Pos): set<Pos>
    {
      set m | m in mines && Touches(m, c)
    }

    /** The mines other than c in the rectangle [x0, ..] x [y0, y1] that a
        column-by-column scan has passed when it reaches (xi, yi). */
    ghost function Scanned(c: Pos, x0: nat, y0: nat, y1: nat, xi: nat, yi: nat): set<Pos>
    {
      set m | m in mines && m != c && x0 <= m.0 && y0 <= m.1 <= y1 && (m.0 < xi || (m.0 == xi && m.1 < yi))
    }

    /** Scanning one more cell of a column adds it when it is a mine other
        than c. */
    lemma ScanCell(c: Pos, x0: nat, y0: nat, y1: nat, xi: nat, yi: nat)
      requires x0 <= xi && y0 <= yi <= y1
      ensures |Scanned(c, x0, y0, y1, xi, yi + 1)| ==
              |Scanned(c, x0, y0, y1, xi, yi)| + if (xi, yi) != c && (xi, yi) in mines then 1 else 0
    {
      var before := Scanned(c, x0, y0, y1, xi, yi);
      if (xi, yi) != c && (xi, yi) in mines {
        assert Scanned(c, x0, y0, y1, xi, yi + 1) == before + {(xi, yi)};
      } else {
        assert Scanned(c, x0, y0, y1, xi, yi + 1) == before;
      }
    }

    /** Past the last row of column xi, the scan is at the top of column xi + 1. */
    lemma ScanColumn(c: Pos, x0: nat, y0: nat, y1: nat, xi: nat, yi: nat)
      requires y1 < yi
      ensures Scanned(c, x0, y0, y1, xi, yi) == Scanned(c, x0, y0, y1, xi + 1, y0)
    {
    }

    /** The scanned block, clamped as the game clamps it, holds exactly the
        mines touching (x, y). */
    lemma ScanWhole(x: nat, y: nat, minX: nat, minY: nat, maxX: nat, maxY: nat, xi: nat)
      requires Valid()
      requires minX == (if x == 0 then 0 else x - 1) && minY == (if y == 0 then 0 else y - 1)
      requires maxX == (if x >= width then width else x + 1) && maxY == (if y >= height then height else y + 1)
      requires maxX < xi && (xi <= maxX + 1 || xi == minX)
      ensures Scanned((x, y), minX, minY, maxY, xi, minY) == NearbyMines((x, y))
    {
      forall m | m in NearbyMines((x, y)) ensures m in Scanned((x, y), minX, minY, maxY, xi, minY) {
        assert OnBoard(width, height, m);
      }
    }

    /** No cell has more than eight mines around it. */
    lemma NearbyAtMostEight(c: Pos)
      ensures |NearbyMines(c)| <= 8
    {
      var x, y := c.0 as int, c.1 as int;
      var ring: set<(int, int)> := {(x - 1, y - 1), (x - 1, y), (x - 1, y + 1), (x, y - 1),
                                    (x, y + 1), (x + 1, y - 1), (x + 1, y), (x + 1, y + 1)};
      var near: set<(int, int)> := NearbyMines(c);
      assert near <= ring;
      SubsetCard(near, ring);
    }

    /** The number of mines around (x, y), scanning the 3 x 3 block around it
        (clamped at 0 below, and at width / height above when the cell is
        past the edge) and skipping the cell itself. The block may reach one
        column or row past the board, where there are no mines. */
    method CountMinesAround(x: nat, y: nat) returns (count: nat)
      requires Valid()
      ensures count == |NearbyMines((x, y))|
      ensures count <= 8
    {
      var minX := if x == 0 then 0 else x - 1;
      var minY := if y == 0 then 0 else y - 1;
      var maxX := if x >= width then width else x + 1;
      var maxY := if y >= height then height else y + 1;
      count := 0;
      var xi := minX;
      while xi <= maxX
        invariant minX <= xi && (xi <= maxX + 1 || xi == minX)
        invariant count == |Scanned((x, y), minX, minY, maxY, xi, minY)|
      {
        var yi := minY;
        while yi <= maxY
          invariant minY <= yi && (yi <= maxY + 1 || yi == minY)
          invariant count == |Scanned((x, y), minX, minY, maxY, xi, yi)|
        {
          ScanCell((x, y), minX, minY, maxY, xi, yi);
          if (xi, yi) != (x, y) && HasMine(xi, yi) {
            count := count + 1;
          }
          yi := yi + 1;
        }
        ScanColumn((x, y), minX, minY, maxY, xi, yi);
        xi := xi + 1;
      }
      ScanWhole(x, y, minX, minY, maxX, maxY, xi);
      NearbyAtMostEight((x, y));
    }

    /* The flood fill. Its outcome is stated on the flag list (which the
       fill does not change) and on the opened list before and after a call
       that starts at cell s. */

    /** The fill goes on from c: no mine around it, none on it, no flag on it. */
    ghost predicate Expands(flags: seq<Pos>, c: Pos)
    {
      |NearbyMines(c)| == 0 && c !in mines && c !in flags
    }

    /** After the fill, c is opened, or it is a flagged cell with no mine
        around it, where the fill stops without opening. */
    ghost predicate Covered(flags: seq<Pos>, c: Pos, after: seq<Pos>)
    {
      c in after || (c in flags && |NearbyMines(c)| == 0)
    }

    /** Every side neighbour of c that lies on the board is covered. */
    ghost predicate NeighboursCovered(flags: seq<Pos>, c: Pos, after: seq<Pos>)
    {
      && (c.0 > 0 ==> Covered(flags, (c.0 - 1, c.1), after))
      && (c.1 > 0 ==> Covered(flags, (c.0, c.1 - 1), after))
      && (c.0 + 1 < width ==> Covered(flags, (c.0 + 1, c.1), after))
      && (c.1 + 1 < height ==> Covered(flags, (c.0, c.1 + 1), after))
    }

    /** e was expanded by the fill that started at s: it is the start or a
        cell the fill opened, and the fill goes on from it. */
    ghost predicate ExpandedBy(flags: seq<Pos>, e: Pos, before: seq<Pos>, after: seq<Pos>, s: Pos)
    {
      e in after && (e !in before || e == s) && Expands(flags, e)
    }

    /** e can be the cell a newly opened cell was reached from: e was
        expanded, and it is the start s or was opened earlier (it lies in
        earlier, the part of the list in front of the new cell). */
    ghost predicate Parent(flags: seq<Pos>, e: Pos, before: seq<Pos>, earlier: seq<Pos>, after: seq<Pos>, s: Pos)
    {
      ExpandedBy(flags, e, before, after, s) && (e == s || e in earlier)
    }

    /** c is a side neighbour of a cell the fill expanded before opening c. */
    ghost predicate ReachedFrom(flags: seq<Pos>, c: Pos, before: seq<Pos>, earlier: seq<Pos>, after: seq<Pos>, s: Pos)
    {
      || (c.0 > 0 && Parent(flags, (c.0 - 1, c.1), before, earlier, after, s))
      || (c.1 > 0 && Parent(flags, (c.0, c.1 - 1), before, earlier, after, s))
      || Parent(flags, (c.0 + 1, c.1), before, earlier, after, s)
      || Parent(flags, (c.0, c.1 + 1), before, earlier, after, s)
    }

    /** What holds of a fill from s part way through: nothing opened before
        is lost; every cell opened since (other than s) is safe, is not a
        flagged cell with no mine around, and touches an expanded cell that is s or was opened ahead of it in the list, so
        following those cells back always ends at s; and every expanded cell
        other than s has its neighbours covered. */
    ghost predicate FillSoFar(flags: seq<Pos>, before: seq<Pos>, after: seq<Pos>, s: Pos)
    {
      && before <= after
      && (forall i {:trigger ReachedFrom(flags, after[i], before, after[..i], after, s)} ::
            0 <= i < |after| && after[i] !in before && after[i] != s ==>
              && after[i] !in mines
              && (after[i] !in flags || |NearbyMines(after[i])| > 0)
              && ReachedFrom(flags, after[i], before, after[..i], after, s))
      && (forall c {:trigger NeighboursCovered(flags, c, after)} ::
            ExpandedBy(flags, c, before, after, s) && c != s ==> NeighboursCovered(flags, c, after))
    }

    /** The outcome of a completed fill from s: as FillSoFar; when the fill
        opened anything and s was not open already, s is the first cell it
        opened; s itself is opened exactly when the fill does not stop on it
        (a flag or mine with no mine around) or it was open already; and when the fill goes on from s its
        neighbours are covered. */
    ghost predicate FloodFilled(flags: seq<Pos>, before: seq<Pos>, after: seq<Pos>, s: Pos)
    {
      && FillSoFar(flags, before, after, s)
      && (s in before || |after| == |before| || after[|before|] == s)
      && (s in after || (|NearbyMines(s)| == 0 && (s in mines || s in flags)))
      && (s !in before && |NearbyMines(s)| == 0 && (s in mines || s in flags) ==> s !in after)
      && (Expands(flags, s) ==> NeighboursCovered(flags, s, after))
    }

    /** A side neighbour of a cell with no mine around it holds no mine. */
    lemma NoMineBeside(s: Pos, n: Pos)
      requires |NearbyMines(s)| == 0 && Touches(n, s)
      ensures n !in mines
    {
      assert n !in NearbyMines(s);
    }

    /** Being reached carries over to a longer list whose earlier part
        holds at least as much, with no more cells opened beforehand, and to
        an enclosing fill from s2 when the start s1 is s2 or a cell the
        enclosing fill opened earlier. */
    lemma ReachedGrows(flags: seq<Pos>, c: Pos,
                       before1: seq<Pos>, earlier1: seq<Pos>, after1: seq<Pos>, s1: Pos,
                       before2: seq<Pos>, earlier2: seq<Pos>, after2: seq<Pos>, s2: Pos)
      requires ReachedFrom(flags, c, before1, earlier1, after1, s1)
      requires forall e :: e in earlier1 ==> e in earlier2
      requires forall e :: e in after1 ==> e in after2
      requires forall e :: e in before2 ==> e in before1
      requires s1 == s2 || (s1 in earlier2 && s1 !in before2)
      ensures ReachedFrom(flags, c, before2, earlier2, after2, s2)
    {
    }

    /** Carry a partial fill from s across one neighbour step to n. */
    lemma ExtendFill(flags: seq<Pos>, b0: seq<Pos>, bi: seq<Pos>, bj: seq<Pos>, s: Pos, n: Pos)
      requires FillSoFar(flags, b0, bi, s)
      requires s in bi && Expands(flags, s)
      requires n == (s.0 - 1, s.1) || n == (s.0, s.1 - 1) || n == (s.0 + 1, s.1) || n == (s.0, s.1 + 1)
      requires if OnBoard(width, height, n) && n !in bi then FloodFilled(flags, bi, bj, n) else bj == bi
      ensures FillSoFar(flags, b0, bj, s)
      ensures OnBoard(width, height, n) ==> Covered(flags, n, bj)
    {
      PrefixElements(bi, bj);
      PrefixElements(b0, bi);
      if OnBoard(width, height, n) && n !in bi {
        NoMineBeside(s, n);
        forall i | 0 <= i < |bj| && bj[i] !in b0 && bj[i] != s
          ensures bj[i] !in mines && (bj[i] !in flags || |NearbyMines(bj[i])| > 0)
          ensures ReachedFrom(flags, bj[i], b0, bj[..i], bj, s)
        {
          var c := bj[i];
          if i < |bi| || c in bi {
            var k :| 0 <= k <= i && k < |bi| && bi[k] == c;
            assert ReachedFrom(flags, bi[k], b0, bi[..k], bi, s);
            assert bj[..i][..k] == bi[..k];
            ReachedGrows(flags, c, b0, bi[..k], bi, s, b0, bj[..i], bj, s);
          } else if c == n {
            assert Parent(flags, s, b0, bj[..i], bj, s);
          } else {
            assert ReachedFrom(flags, bj[i], bi, bj[..i], bj, n);
            assert bj[|bi|] == n && n in bj[..i];
            ReachedGrows(flags, c, bi, bj[..i], bj, n, b0, bj[..i], bj, s);
          }
        }
        forall c | ExpandedBy(flags, c, b0, bj, s) && c != s
          ensures NeighboursCovered(flags, c, bj)
        {
          if c in bi {
            assert ExpandedBy(flags, c, b0, bi, s);
            assert NeighboursCovered(flags, c, bi);
          } else {
            assert ExpandedBy(flags, c, bi, bj, n);
          }
        }
      }
    }

    /** The fill as the game writes it, from (x, y). A cell with mines
        around it is opened and ends the fill there; a mine or a flagged
        cell ends it without opening; otherwise the cell is opened and the
        fill goes on to its four side neighbours. Each step goes to a cell
        not yet opened, after (x, y) has been opened, so the set of cells of
        the board not yet opened shrinks, or stays the same while (x, y)
        changes from opened to not opened. */
    method RecursiveOpen(x: nat, y: nat)
      requires Valid() && OnBoard(width, height, (x, y))
      modifies this`openedCells
      ensures Valid()
      ensures FloodFilled(flags, old(openedCells), openedCells, (x, y))
      decreases Unopened(), if (x, y) in openedCells then 1 else 0, 0
    {
      var s := (x, y);
      ghost var b0 := openedCells;
      var nofMinesAround := CountMinesAround(x, y);
      if nofMinesAround > 0 {
        var ok := Open(x, y);
        assert ok;
        return;
      }
      if HasMine(x, y) {
        return;
      }
      if IsFlagged(x, y) {
        return;
      }
      var ok := Open(x, y);
      assert ok;
      ghost var b1 := openedCells;
      PrefixElements(b0, b1);
      assert Unopened() <= old(Unopened()) && s !in Unopened();
      assert s !in b0 ==> s in old(Unopened());
      ExpandAround(x, y);
      FillFromOpenedStart(flags, b0, b1, openedCells, s);
    }

    /** The four neighbour steps from an opened cell (x, y) that the fill
        goes on from: left and up here, then right and down. */
    method ExpandAround(x: nat, y: nat)
      requires Valid() && OnBoard(width, height, (x, y))
      requires (x, y) in openedCells && Expands(flags, (x, y))
      modifies this`openedCells
      ensures Valid()
      ensures FloodFilled(flags, old(openedCells), openedCells, (x, y))
      decreases Unopened(), 0, 4
    {
      var s := (x, y);
      ghost var b1 := openedCells;
      assert FillSoFar(flags, b1, b1, s);
      Step(s, x - 1, y, b1);
      ghost var b2 := openedCells;
      Step(s, x, y - 1, b1);
      ghost var b3 := openedCells;
      ExpandForward(s, b1);
      CoveredGrows(flags, x, y, b1, b2, b3, openedCells);
    }

    /** The right and down steps of a fill from s, which began on the list
        b1. */
    method ExpandForward(s: Pos, ghost b1: seq<Pos>)
      requires Valid() && s in openedCells && Expands(flags, s)
      requires FillSoFar(flags, b1, openedCells, s)
      modifies this`openedCells
      ensures Valid()
      ensures old(openedCells) <= openedCells
      ensures FillSoFar(flags, b1, openedCells, s)
      ensures s.0 + 1 < width && s.1 < height ==> Covered(flags, (s.0 + 1, s.1), openedCells)
      ensures s.0 < width && s.1 + 1 < height ==> Covered(flags, (s.0, s.1 + 1), openedCells)
      decreases Unopened(), 0, 3
    {
      Step(s, s.0 + 1, s.1, b1);
      ghost var b4 := openedCells;
      Step(s, s.0, s.1 + 1, b1);
      PrefixElements(b4, openedCells);
    }

    /** One neighbour step of a fill from s, which began on the list b1: a
        neighbour with a negative coordinate is skipped, any other goes to
        Spread. The fill so far stays a fill from s and the neighbour, when
        it is on the board, ends up covered. */
    method Step(s: Pos, nx: int, ny: int, ghost b1: seq<Pos>)
      requires Valid() && s in openedCells && Expands(flags, s)
      requires FillSoFar(flags, b1, openedCells, s)
      requires (nx, ny) == (s.0 - 1, s.1) || (nx, ny) == (s.0, s.1 - 1) || (nx, ny) == (s.0 + 1, s.1) || (nx, ny) == (s.0, s.1 + 1)
      modifies this`openedCells
      ensures Valid() && s in openedCells
      ensures old(openedCells) <= openedCells
      ensures Elements(old(openedCells)) <= Elements(openedCells)
      ensures FillSoFar(flags, b1, openedCells, s)
      ensures 0 <= nx < width && 0 <= ny < height ==> Covered(flags, (nx, ny), openedCells)
      decreases Unopened(), 0, 2
    {
      if nx >= 0 && ny >= 0 {
        ghost var bi := openedCells;
        Spread(nx, ny);
        ExtendFill(flags, b1, bi, openedCells, s, (nx, ny));
        PrefixElements(bi, openedCells);
      }
    }

    /** What the four neighbour steps of a fill from (x, y) leave behind:
        each step covers its neighbour, and the later steps only add cells. */
    lemma CoveredGrows(flags: seq<Pos>, x: nat, y: nat, b1: seq<Pos>, b2: seq<Pos>, b3: seq<Pos>, b4: seq<Pos>)
      requires b1 <= b2 <= b3 <= b4
      requires (x, y) in b1
      requires 0 <= x - 1 < width && y < height ==> Covered(flags, (x - 1, y), b2)
      requires x < width && 0 <= y - 1 < height ==> Covered(flags, (x, y - 1), b3)
      requires x + 1 < width && y < height ==> Covered(flags, (x + 1, y), b4)
      requires x < width && y + 1 < height ==> Covered(flags, (x, y + 1), b4)
      ensures OnBoard(width, height, (x, y)) ==> NeighboursCovered(flags, (x, y), b4)
      ensures (x, y) in b4
    {
      PrefixElements(b1, b4);
      PrefixElements(b2, b4);
      PrefixElements(b3, b4);
    }

    /** One of the four neighbour steps of the fill: go on from (x, y) if it
        is in range and not opened yet. */
    method Spread(x: nat, y: nat)
      requires Valid()
      modifies this`openedCells
      ensures Valid()
      ensures if InRange(width, height, x, y) && (x, y) !in old(openedCells)
              then FloodFilled(flags, old(openedCells), openedCells, (x, y))
              else openedCells == old(openedCells)
      decreases Unopened(), 0, 1
    {
      if InRange(width, height, x, y) && !IsOpened(x, y) {
        RecursiveOpen(x, y);
      }
    }

    /** A fill from s that started right after s itself was opened (s being
        a cell the fill opens: neither a mine nor flagged) is a fill from s on
        the list before that opening, too. */
    lemma FillFromOpenedStart(flags: seq<Pos>, b0: seq<Pos>, b1: seq<Pos>, b2: seq<Pos>, s: Pos)
      requires b1 == b0 || (b1 == b0 + [s] && s !in mines && s !in flags)
      requires FloodFilled(flags, b1, b2, s)
      ensures FloodFilled(flags, b0, b2, s)
    {
      PrefixElements(b1, b2);
      forall e ensures ExpandedBy(flags, e, b1, b2, s) == ExpandedBy(flags, e, b0, b2, s) {
      }
      forall i | 0 <= i < |b2| && b2[i] !in b0 && b2[i] != s
        ensures b2[i] !in mines && (b2[i] !in flags || |NearbyMines(b2[i])| > 0)
        ensures ReachedFrom(flags, b2[i], b0, b2[..i], b2, s)
      {
        assert ReachedFrom(flags, b2[i], b1, b2[..i], b2, s);
        ReachedGrows(flags, b2[i], b1, b2[..i], b2, s, b0, b2[..i], b2, s);
      }
      if b1 == b0 + [s] {
        assert b2[|b0|] == b1[|b0|];
      }
      forall c | ExpandedBy(flags, c, b0, b2, s) && c != s ensures NeighboursCovered(flags, c, b2) {
        assert ExpandedBy(flags, c, b1, b2, s);
      }
    }

    /** A fill that starts on a safe cell opens no mine. */
    lemma FillOpensNoMine(flags: seq<Pos>, before: seq<Pos>, after: seq<Pos>, s: Pos)
      requires FillSoFar(flags, before, after, s) && s !in mines
      ensures forall c :: c in after && c !in before ==> c !in mines
    {
      forall c | c in after && c !in before ensures c !in mines {
        if c != s {
          var i :| 0 <= i < |after| && after[i] == c;
          assert ReachedFrom(flags, after[i], before, after[..i], after, s);
        }
      }
    }

    /** On a board of one row of seven cells with a mine at the right end
        and a flag on the third cell, the fill from the left end opens the
        two cells in front of the flag, in that order, and nothing else:
        neither the flagged cell nor the cells behind it. A fill started on
        the flagged cell opens nothing. */
    lemma FillStopsAtFlag()
      requires width == 7 && height == 1 && mines == [(6, 0)]
      ensures FloodFilled([(2, 0)], [], [(0, 0), (1, 0)], (0, 0))
      ensures forall after: seq<Pos> {:trigger FloodFilled([(2, 0)], [], after, (0, 0))} ::
        Distinct(after) && AllOnBoard(width, height, after) && FloodFilled([(2, 0)], [], after, (0, 0)) ==>
          after == [(0, 0), (1, 0)]
      ensures !FloodFilled([(2, 0)], [], [(0, 0), (1, 0), (2, 0)], (0, 0))
      ensures forall after: seq<Pos> {:trigger FloodFilled([(2, 0)], [], after, (2, 0))} ::
        FloodFilled([(2, 0)], [], after, (2, 0)) ==> after == []
    {
      var flags, near := [(2, 0)], [(0, 0), (1, 0)];
      assert NearbyMines((0, 0)) == {} && NearbyMines((1, 0)) == {} && NearbyMines((2, 0)) == {};
      assert ReachedFrom(flags, near[1], [], near[..1], near, (0, 0)) by {
        assert Parent(flags, (0, 0), [], near[..1], near, (0, 0));
      }
      assert NeighboursCovered(flags, (1, 0), near);
      forall after | Distinct(after) && AllOnBoard(width, height, after) && FloodFilled(flags, [], after, (0, 0))
        ensures after == near
      {
        var front: set<Pos> := {(0, 0), (1, 0)};
        forall c | c in after ensures c in front {
          var i :| 0 <= i < |after| && after[i] == c;
          InFrontOfFlag(after, i);
        }
        assert NeighboursCovered(flags, (0, 0), after);
        assert Elements(after) == front;
        assert |front| == 2 by {
          assert front == {(0, 0)} + {(1, 0)} && (0, 0) !in {(1, 0)};
        }
        DistinctCard(after);
        assert |after| == 2 && after[0] == (0, 0);
        assert after[1] != after[0] && after[1] in Elements(after);
      }
      var onto := [(0, 0), (1, 0), (2, 0)];
      assert !(onto[2] !in flags || |NearbyMines(onto[2])| > 0);
    }

    /** In the fill of FillStopsAtFlag, every cell opened lies in front of
        the flag. */
    lemma InFrontOfFlag(after: seq<Pos>, i: nat)
      requires width == 7 && height == 1 && mines == [(6, 0)]
      requires AllOnBoard(width, height, after) && FloodFilled([(2, 0)], [], after, (0, 0))
      requires i < |after|
      ensures after[i] == (0, 0) || after[i] == (1, 0)
      decreases i
    {
      var flags, c := [(2, 0)], after[i];
      assert NearbyMines((2, 0)) == {};
      if c != (0, 0) {
        assert ReachedFrom(flags, after[i], [], after[..i], after, (0, 0));
        assert OnBoard(width, height, c);
        var e: Pos;
        if c.0 > 0 && Parent(flags, (c.0 - 1, c.1), [], after[..i], after, (0, 0)) {
          e := (c.0 - 1, c.1);
        } else {
          e := (c.0 + 1, c.1);
          assert (c.0, c.1 + 1) !in after;
          assert Parent(flags, e, [], after[..i], after, (0, 0));
        }
        if e != (0, 0) {
          assert e in after[..i];
          var j :| 0 <= j < |after[..i]| && after[..i][j] == e;
          InFrontOfFlag(after, j);
        }
      }
    }

    /** Open every mine (after the player stepped on one). */
    method ShowAllMines()
      requires Valid()
      modifies this`openedCells
      ensures Valid()
      ensures old(openedCells) <= openedCells
      ensures Elements(openedCells) == Elements(old(openedCells)) + Elements(mines)
    {
      var all := mines;
      for i := 0 to |all|
        invariant Valid()
        invariant old(openedCells) <= openedCells
        invariant forall c :: c in openedCells <==> c in old(openedCells) || c in all[..i]
      {
        ghost var prev := openedCells;
        assert all[i] in mines;
        var ok := Open(all[i].0, all[i].1);
        assert ok;
        assert all[..i + 1] == all[..i] + [all[i]];
        assert forall c :: c in openedCells <==> c in prev || c == all[i];
      }
      assert all[..|all|] == all;
    }

    /** Reveal the cell under the cursor. Nothing happens when the game is
        over or the cell is flagged. On a mine the player dies and every mine
        is opened; otherwise the cell is opened and the fill runs from it. */
    method Reveal()
      requires Valid()
      modifies this`openedCells, this`isAlive
      ensures Valid()
      ensures !old(isAlive) || player in flags ==> openedCells == old(openedCells) && isAlive == old(isAlive)
      ensures old(isAlive) && player !in flags && player in mines ==>
                && !isAlive
                && old(openedCells) <= openedCells
                && Elements(openedCells) == Elements(old(openedCells)) + Elements(mines)
      ensures old(isAlive) && player !in flags && player !in mines ==>
                && isAlive
                && player in openedCells
                && FloodFilled(flags, old(openedCells), openedCells, player)
                && (forall c :: c in openedCells && c !in old(openedCells) ==> c !in mines)
    {
      if !isAlive {
        return;
      }
      var x, y := player.0, player.1;
      if IsFlagged(x, y) {
        return;
      }
      ghost var b0 := openedCells;
      if HasMine(x, y) {
        var ok := Open(x, y);
        assert ok;
        isAlive := false;
        ShowAllMines();
        PrefixElements(b0, openedCells);
        return;
      }
      var ok := Open(x, y);
      assert ok;
      ghost var b1 := openedCells;
      RecursiveOpen(x, y);
      FillFromOpenedStart(flags, b0, b1, openedCells, player);
      FillOpensNoMine(flags, b0, openedCells, player);
      PrefixElements(b1, openedCells);
    }

    /** The win check: with as many flags as mines, the sorted closed cells
        are compared with the sorted mines, and the game is won when the two
        lists are equal. Winning ends the game. The game itself zips the two
        lists and so compares only the first |mines| closed cells; this is
        the comparison it evidently intends (see WinCheck.ZipTest). */
    method CheckHasWon() returns (hasWon: bool)
      requires Valid()
      modifies this`isAlive
      ensures hasWon <==> |flags| == |mines| && AllSafeOpened(width, height, mines, openedCells)
      ensures isAlive == (old(isAlive) && !hasWon)
    {
      if |flags| != |mines| {
        return false;
      }
      var sortedMines := Sort(mines);
      var closed := Sort(Closed(width, height, openedCells, mines));
      hasWon := closed == sortedMines;
      if hasWon {
        isAlive := false;
      }
      ExactTestMeaning(width, height, mines, openedCells);
    }
  }
}
