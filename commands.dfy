/**
 * The command layer: each player intent is a command with a precondition and
 * an execute step, and the invoker runs commands and keeps the history of the
 * ones that succeeded. The command interface's four implementations become the
 * variants of one datatype.
 */
module Commands {
  import opened Wrappers
  import opened Discs
  import opened Players
  import opened Columns
  import opened Games
  import opened Strategies

  datatype Command =
    | ExitGame
      /**
       * Place `disc` in `column`; `player` is the player the command was built
       * for. `None` stands for a missing disc, a case the command cannot be
       * built with, since building it reads the disc's kind.
       */
    | PlaceDisc(game: Game, disc: Option<Disc>, column: int, player: Player)
    | SaveGame(gameToSave: Game?, filePath: string)
    | ShowHelp(winningThreshold: int)

  /** The objects executing `cmd` may change. */
  ghost function Footprint(cmd: Command): set<object>
  {
    match cmd
    case PlaceDisc(g, _, _, _) => {g, g.grid, g.player1, g.player2}
    case _ => {}
  }

  ghost predicate Valid(cmd: Command)
    reads Footprint(cmd)
  {
    cmd.PlaceDisc? ==> cmd.game.Valid()
  }

  /**
   * The precondition of each command: Exit and Help can always run, Save needs
   * a game and a non-empty path, and a placement needs a disc, a column inside
   * the grid and a game that has not ended.
   */
  predicate CanExecute(cmd: Command)
    reads Footprint(cmd)
  {
    match cmd
    case ExitGame => true
    case PlaceDisc(g, disc, column, _) => disc.Some? && column >= 0 && column < g.cols && !g.EndGame()
    case SaveGame(g, path) => g != null && |path| > 0
    case ShowHelp(_) => true
  }

  /** Whether executing `cmd` in the current state reports success. */
  ghost function Succeeds(cmd: Command): bool
    reads Footprint(cmd)
    requires Valid(cmd)
  {
    match cmd
    case ExitGame => true
    case ShowHelp(_) => true
    case SaveGame(_, _) => false
    case PlaceDisc(g, disc, column, _) =>
      CanExecute(cmd) && g.Predict(disc.value.discType, disc.value, column).ok
  }

  /** A command whose precondition fails never reports success. */
  lemma RejectedNeverSucceeds(cmd: Command)
    requires Valid(cmd)
    ensures !CanExecute(cmd) ==> !Succeeds(cmd)
  {
  }

  /**
   * Exit and Help can always run; Save can run exactly when it has a game and
   * a non-empty path, and never reports success.
   */
  lemma NonPlacementPreconditions(g: Game?, path: string, threshold: int)
    ensures CanExecute(ExitGame) && CanExecute(ShowHelp(threshold))
    ensures CanExecute(SaveGame(g, path)) <==> g != null && |path| > 0
    ensures !Succeeds(SaveGame(g, path))
  {
  }

  /**
   * What running `cmd` leaves behind, reporting `ok`. A command whose
   * precondition fails changes nothing and reports failure. A placement picks
   * the strategy for the disc's kind, applies it and, only when the placement
   * succeeded, charges the current player one disc of that kind; whose turn it
   * is and whether the game ended stay as they were. Help reports success; Save
   * reports what the file manager reports, which is failure; Exit reports
   * success, and ending the session is not modelled.
   */
  twostate predicate Executed(cmd: Command, ok: bool)
    requires old(Valid(cmd))
    reads Footprint(cmd)
  {
    && ok == old(Succeeds(cmd))
    && (!old(CanExecute(cmd)) ==> unchanged(Footprint(cmd)))
    && (cmd.PlaceDisc? ==>
          cmd.game.currentPlayer == old(cmd.game.currentPlayer) && cmd.game.ended == old(cmd.game.ended))
    && (cmd.PlaceDisc? && old(CanExecute(cmd)) ==>
          var g, d := cmd.game, cmd.disc.value;
          && g.strategy == StrategyFor(d.discType)
          && g.OtherColumnsUnchanged(cmd.column)
          && g.Shows(Charged(old(g.Predict(d.discType, d, cmd.column)), d.discType, g.currentPlayer == g.player1),
                     cmd.column))
  }

  /** Run a command; the new state is the one `Executed` describes. */
  method Execute(cmd: Command) returns (ok: bool)
    requires Valid(cmd)
    modifies Footprint(cmd)
    ensures Executed(cmd, ok)
  {
    match cmd
    case ExitGame =>
      ok := true;
    case ShowHelp(_) =>
      ok := true;
    case SaveGame(_, _) =>
      if !CanExecute(cmd) {
        return false;
      }
      ok := false;
    case PlaceDisc(game, disc, column, _) =>
      if !CanExecute(cmd) {
        return false;
      }
      var d := disc.value;
      game.SetPlaceDiscStrategy(StrategyFor(d.discType));
      ok := ExecutePlaceDisc(game, d, column);
      if ok {
        game.currentPlayer.DeductDisc(d.discType);
      }
  }

  /** Reserved for undoing a command; it does nothing. */
  method Undo(cmd: Command)
  {
  }

  /** Reserved for redoing a command; it does nothing. */
  method Redo(cmd: Command)
  {
  }

  class CommandInvoker {
    /** The commands that were executed successfully, oldest first. */
    var commandHistory: seq<Command>

    constructor ()
      ensures commandHistory == []
    {
      commandHistory := [];
    }

    /**
     * Run `command` once if its precondition holds, and record it only when it
     * succeeded; the result and the new state are the command's own.
     */
    method ExecuteCommand(command: Command) returns (result: bool)
      requires Valid(command)
      modifies this, Footprint(command)
      ensures Executed(command, result)
      ensures !old(CanExecute(command)) ==> !result
      ensures commandHistory == if result then old(commandHistory) + [command] else old(commandHistory)
    {
      RejectedNeverSucceeds(command);
      if CanExecute(command) {
        result := Execute(command);
        if result {
          commandHistory := commandHistory + [command];
        }
        return;
      }
      result := false;
    }

    /** Drop the most recent entry of the history, if there is one. */
    method UndoLastCommand()
      modifies this
      ensures |old(commandHistory)| == 0 ==> commandHistory == []
      ensures |old(commandHistory)| > 0 ==>
        commandHistory == old(commandHistory)[..|old(commandHistory)| - 1]
    {
      if |commandHistory| > 0 {
        var lastCommand := commandHistory[|commandHistory| - 1];
        Undo(lastCommand);
        commandHistory := commandHistory[..|commandHistory| - 1];
      }
    }

    function GetCommandCount(): (n: nat)
      reads this
      ensures n == |commandHistory|
    {
      |commandHistory|
    }
  }
}
