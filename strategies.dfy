/**
 * The three placement strategies. Each works in place on the game's grid
 * (and, for Boring, on the two players' counters) and is proved to leave
 * exactly the state `Columns.Placement` prescribes for its kind of disc.
 */
module Strategies {
  import opened Wrappers
  import opened Discs
  import opened Players
  import opened Columns
  import opened Games

  /** Gravity drop: the disc takes the lowest empty cell of the column; a full column is rejected. */
  method OrdinaryPlaceDisc(game: Game, disc: Disc, col: int) returns (ok: bool)
    requires game.Valid()
    modifies game.grid
    ensures game.Placed(Ordinary, disc, col, ok)
  {
    if col < 0 || col >= game.cols {
      return false;
    }
    ghost var before := game.ColumnAt(col);
    var row := game.rows - 1;
    while row >= 0
      invariant -1 <= row < game.rows
      invariant forall r :: row < r < game.rows ==> game.grid[r, col].Some?
      invariant unchanged(game.grid)
    {
      if game.grid[row, col].None? {
        game.grid[row, col] := Some(disc);
        assert game.ColumnAt(col) == before[row := Some(disc)];
        return true;
      }
      row := row - 1;
    }
    return false;
  }

  /** Refund a removed disc to player 1 or player 2 by its owner id; any other id gets nothing back. */
  method ReturnToOwner(game: Game, removedDisc: Disc)
    requires game.Valid()
    modifies game.player1, game.player2
    ensures game.player1.Stock() == Plus(old(game.player1.Stock()), Refund(Some(removedDisc), 1))
    ensures game.player2.Stock() == Plus(old(game.player2.Stock()), Refund(Some(removedDisc), 2))
  {
    if removedDisc.playerId == 1 {
      game.player1.ReturnDisc(removedDisc.discType);
    } else if removedDisc.playerId == 2 {
      game.player2.ReturnDisc(removedDisc.discType);
    }
  }

  /** One step of the clearing loop: empty cell (`row`, `col`) and refund the disc it held. */
  method RemoveDisc(game: Game, row: int, col: int)
    requires game.Valid() && 0 <= row < game.rows && 0 <= col < game.cols
    modifies game.grid, game.player1, game.player2
    ensures game.grid[row, col].None?
    ensures forall r, k :: 0 <= r < game.rows && 0 <= k < game.cols && (r != row || k != col) ==>
      game.grid[r, k] == old(game.grid[r, k])
    ensures game.player1.Stock() == Plus(old(game.player1.Stock()), Refund(old(game.grid[row, col]), 1))
    ensures game.player2.Stock() == Plus(old(game.player2.Stock()), Refund(old(game.grid[row, col]), 2))
  {
    if game.grid[row, col].Some? {
      var removedDisc := game.grid[row, col].value;
      game.grid[row, col] := None;
      ReturnToOwner(game, removedDisc);
    }
  }

  /**
   * The clearing loop of Boring: every disc in column `col` is removed, top to
   * bottom, and refunded to its owner.
   */
  method ClearColumn(game: Game, col: int)
    requires game.Valid() && 0 <= col < game.cols
    modifies game.grid, game.player1, game.player2
    ensures game.OtherColumnsUnchanged(col)
    ensures forall r :: 0 <= r < game.rows ==> game.grid[r, col].None?
    ensures game.player1.Stock() == Plus(old(game.player1.Stock()), Tally(old(game.ColumnAt(col)), 1))
    ensures game.player2.Stock() == Plus(old(game.player2.Stock()), Tally(old(game.ColumnAt(col)), 2))
  {
    ghost var before := game.ColumnAt(col);
    var row := 0;
    while row < game.rows
      invariant 0 <= row <= game.rows
      invariant forall r, k :: 0 <= r < game.rows && 0 <= k < game.cols ==>
        game.grid[r, k] == if k == col && r < row then None else old(game.grid[r, k])
      invariant game.player1.Stock() == Plus(old(game.player1.Stock()), Tally(before[..row], 1))
      invariant game.player2.Stock() == Plus(old(game.player2.Stock()), Tally(before[..row], 2))
    {
      RemoveDisc(game, row, col);
      TallyStep(old(game.player1.Stock()), before, row, 1);
      TallyStep(old(game.player2.Stock()), before, row, 2);
      row := row + 1;
    }
    assert before[..game.rows] == before;
  }

  /**
   * Boring: every disc in the column is removed top to bottom and refunded to
   * player 1 or player 2 according to its owner id, then the new disc takes
   * the bottom row.
   */
  method BoringPlaceDisc(game: Game, disc: Disc, col: int) returns (ok: bool)
    requires game.Valid()
    modifies game.grid, game.player1, game.player2
    ensures game.Placed(Boring, disc, col, ok)
  {
    if col < 0 || col >= game.cols {
      return false;
    }
    ClearColumn(game, col);
    game.grid[game.rows - 1, col] := Some(disc);
    assert game.ColumnAt(col) == Cleared(game.rows, disc);
    return true;
  }

  /**
   * The Magnetic scan of column `col` from row `from` to the bottom: the row of
   * the first Ordinary disc of the current player, and the row of the last
   * Ordinary disc of another player seen while the first has not been found.
   */
  method ScanBelow(game: Game, col: int, from: int) returns (nearestPlayerDisc: int, lastOpponentDisc: int)
    requires game.Valid() && 0 <= col < game.cols && 0 <= from <= game.rows
    ensures ScanResult(nearestPlayerDisc, lastOpponentDisc) ==
            Scan(game.ColumnAt(col), from, game.currentPlayer.playerId)
  {
    ghost var c := game.ColumnAt(col);
    ghost var pid := game.currentPlayer.playerId;
    nearestPlayerDisc, lastOpponentDisc := -1, -1;
    var row := from;
    while row < game.rows
      invariant from <= row <= game.rows
      invariant nearestPlayerDisc == FirstOwn(c, from, row, pid)
      invariant lastOpponentDisc == LastOpponent(c, from, if nearestPlayerDisc == -1 then row else nearestPlayerDisc, pid)
    {
      var cell := game.grid[row, col];
      if cell.Some? {
        if cell.value.discType == Ordinary {
          if cell.value.playerId == game.currentPlayer.playerId {
            nearestPlayerDisc := if nearestPlayerDisc == -1 then row else nearestPlayerDisc;
          } else {
            if nearestPlayerDisc == -1 {
              lastOpponentDisc := row;
            }
          }
        }
      }
      row := row + 1;
    }
  }

  /** Exchange the discs in rows `i` and `j` of column `col`. */
  method SwapRows(game: Game, col: int, i: int, j: int)
    requires game.Valid() && 0 <= col < game.cols && 0 <= i < game.rows && 0 <= j < game.rows && i != j
    modifies game.grid
    ensures game.OtherColumnsUnchanged(col)
    ensures game.ColumnAt(col) == Swap(old(game.ColumnAt(col)), i, j)
  {
    game.grid[i, col], game.grid[j, col] := game.grid[j, col], game.grid[i, col];
    assert game.ColumnAt(col) == Swap(old(game.ColumnAt(col)), i, j);
  }

  /**
   * The drop loop of Magnetic: the disc takes the lowest empty cell of column
   * `col`, whose row is returned; -1 and nothing changed when the column is full.
   */
  method DropDisc(game: Game, disc: Disc, col: int) returns (currDisc: int)
    requires game.Valid() && 0 <= col < game.cols
    modifies game.grid
    ensures currDisc == LowestEmpty(old(game.ColumnAt(col)))
    ensures game.OtherColumnsUnchanged(col)
    ensures game.ColumnAt(col) ==
            if currDisc == -1 then old(game.ColumnAt(col)) else old(game.ColumnAt(col))[currDisc := Some(disc)]
  {
    ghost var before := game.ColumnAt(col);
    currDisc := -1;
    var row := game.rows - 1;
    while row >= 0
      invariant -1 <= row < game.rows
      invariant forall r :: row < r < game.rows ==> game.grid[r, col].Some?
      invariant unchanged(game.grid)
    {
      if game.grid[row, col].None? {
        game.grid[row, col] := Some(disc);
        currDisc := row;
        break;
      }
      row := row - 1;
    }
    if currDisc != -1 {
      assert game.ColumnAt(col) == before[currDisc := Some(disc)];
    }
  }

  /**
   * The Magnetic step after the disc landed in row `currDisc`: scan the rows
   * below it and swap the mover's nearest Ordinary disc with the opponent's
   * last one above it, when both were found.
   */
  method AttractBelow(game: Game, col: int, currDisc: int)
    requires game.Valid() && 0 <= col < game.cols && 0 <= currDisc < game.rows
    modifies game.grid
    ensures game.OtherColumnsUnchanged(col)
    ensures game.ColumnAt(col) == Attract(old(game.ColumnAt(col)), currDisc, game.currentPlayer.playerId)
  {
    var nearestPlayerDisc, lastOpponentDisc := ScanBelow(game, col, currDisc + 1);
    if nearestPlayerDisc != -1 && lastOpponentDisc != -1 && nearestPlayerDisc > lastOpponentDisc {
      SwapRows(game, col, nearestPlayerDisc, lastOpponentDisc);
    }
  }

  /**
   * Magnetic: a gravity drop, then a scan below the dropped disc; when the scan
   * found both rows, the current player's disc and the opponent's disc swap
   * places. A full column is rejected.
   */
  method MagneticPlaceDisc(game: Game, disc: Disc, col: int) returns (ok: bool)
    requires game.Valid()
    modifies game.grid
    ensures game.Placed(Magnetic, disc, col, ok)
  {
    if col < 0 || col >= game.cols {
      return false;
    }
    ghost var before := game.ColumnAt(col);
    ghost var pid := game.currentPlayer.playerId;
    var currDisc := DropDisc(game, disc, col);
    if currDisc == -1 {
      return false;
    }
    AttractBelow(game, col, currDisc);
    MagneticOutcome(before, disc, pid, game.player1.Stock(), game.player2.Stock(), currDisc, game.ColumnAt(col));
    return true;
  }

  /** Apply the strategy the game currently holds. */
  method ExecutePlaceDisc(game: Game, disc: Disc, col: int) returns (ok: bool)
    requires game.Valid()
    modifies game.grid, game.player1, game.player2
    ensures game.Placed(Kind(game.strategy), disc, col, ok)
  {
    match game.strategy
    case OrdinaryStrategy => ok := OrdinaryPlaceDisc(game, disc, col);
    case BoringStrategy => ok := BoringPlaceDisc(game, disc, col);
    case MagneticStrategy => ok := MagneticPlaceDisc(game, disc, col);
  }
}
