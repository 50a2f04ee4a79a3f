/**
 * The game state the placement strategies and commands work on: a
 * `rows x cols` grid of optional discs (row 0 at the top), the two players,
 * the current player, the strategy the next placement is delegated to, and
 * whether the game has ended. Only the accessors the strategies and commands
 * use are modelled; win detection is not part of this model, so whether the
 * game has ended is a flag.
 */
module Games {
  import opened Wrappers
  import opened Discs
  import opened Players
  import opened Columns

  /** The three placement strategies. */
  datatype Strategy = OrdinaryStrategy | BoringStrategy | MagneticStrategy

  /** The kind of disc whose rule a strategy applies. */
  function Kind(s: Strategy): DiscType
  {
    match s
    case OrdinaryStrategy => Ordinary
    case BoringStrategy => Boring
    case MagneticStrategy => Magnetic
  }

  /** The strategy chosen for a disc of kind `t`. */
  function StrategyFor(t: DiscType): (s: Strategy)
    ensures Kind(s) == t
  {
    match t
    case Ordinary => OrdinaryStrategy
    case Boring => BoringStrategy
    case Magnetic => MagneticStrategy
  }

  class Game {
    const rows: nat
    const cols: nat
    const grid: array2<Cell>
    const player1: Player
    const player2: Player
    var currentPlayer: Player
    var strategy: Strategy
    var ended: bool

    /** The grid has the game's dimensions, the players are two objects, and one of them is current. */
    ghost predicate Valid()
      reads this`currentPlayer
    {
      grid.Length0 == rows && grid.Length1 == cols && rows >= 1 && cols >= 1 &&
      player1 != player2 && (currentPlayer == player1 || currentPlayer == player2)
    }

    constructor (rows: nat, cols: nat, player1: Player, player2: Player)
      requires rows >= 1 && cols >= 1 && player1 != player2
      ensures Valid() && fresh(grid) && !ended
      ensures this.rows == rows && this.cols == cols
      ensures this.player1 == player1 && this.player2 == player2 && currentPlayer == player1
      ensures forall r, c :: 0 <= r < rows && 0 <= c < cols ==> grid[r, c].None?
    {
      this.rows, this.cols := rows, cols;
      grid := new Cell[rows, cols]((r, c) => None);
      this.player1, this.player2, currentPlayer := player1, player2, player1;
      strategy, ended := OrdinaryStrategy, false;
    }

    /** The cells of column `col`, top row first. */
    ghost function ColumnAt(col: int): (c: Column)
      reads grid
      requires 0 <= col < grid.Length1
      ensures |c| == grid.Length0
      ensures forall r :: 0 <= r < |c| ==> c[r] == grid[r, col]
    {
      seq(grid.Length0, r requires 0 <= r < grid.Length0 reads grid => grid[r, col])
    }

    predicate EndGame()
      reads this`ended
    {
      ended
    }

    method SetPlaceDiscStrategy(s: Strategy)
      modifies this`strategy
      ensures strategy == s
    {
      strategy := s;
    }

    /** What the placement rule prescribes for a disc of kind `t` dropped into column `col` now. */
    ghost function Predict(t: DiscType, disc: Disc, col: int): Outcome
      reads this`currentPlayer, grid, player1, player2
      requires Valid() && 0 <= col < cols
    {
      Placement(t, ColumnAt(col), disc, currentPlayer.playerId, player1.Stock(), player2.Stock())
    }

    /** Column `col` and both inventories are those of outcome `o`. */
    ghost predicate Shows(o: Outcome, col: int)
      reads grid, player1, player2
      requires 0 <= col < grid.Length1
    {
      ColumnAt(col) == o.column && player1.Stock() == o.stock1 && player2.Stock() == o.stock2
    }

    /** No cell outside column `col` has changed. */
    twostate predicate OtherColumnsUnchanged(col: int)
      reads grid
    {
      forall r, k :: 0 <= r < grid.Length0 && 0 <= k < grid.Length1 && k != col ==>
        grid[r, k] == old(grid[r, k])
    }

    /**
     * A placement of `disc` by the rule for kind `t` into column `col` reported
     * `ok` and left the state the rule prescribes: an out-of-range column is
     * rejected with the grid and both inventories untouched.
     */
    twostate predicate Placed(t: DiscType, disc: Disc, col: int, ok: bool)
      reads this`currentPlayer, grid, player1, player2
      requires old(Valid())
    {
      OtherColumnsUnchanged(col) &&
      if 0 <= col < cols then
        var o := old(Predict(t, disc, col));
        ok == o.ok && Shows(o, col)
      else
        !ok && player1.Stock() == old(player1.Stock()) && player2.Stock() == old(player2.Stock())
    }
  }
}
