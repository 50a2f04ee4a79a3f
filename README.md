# Line-Up rules engine in Dafny

This project models the rules engine of Line-Up, a two-player Connect-Four
variant with three kinds of disc, and proves what those rules promise. The
engine has four parts:

* **Discs** (`discs.dfy`, module `Discs`). A disc is a closed three-way kind
  (Ordinary, Boring, Magnetic, with integer tags 0, 1, 2) plus its owner's
  player id and symbol. The source's class hierarchy becomes the datatype
  `Disc`. Its constructor stores the three fields as given, and one function
  per subclass fixes the kind.
* **Players** (`players.dfy`, module `Players`). A `Player` is an object whose
  three counters (ordinary, boring, magnetic) are updated in place.
  * `MakeMove` dispatches a disc only when that counter is positive.
  * `ReturnDisc` refunds one disc.
  * `DeductDisc` charges one disc after a successful placement.
  * The value `Inventory` and the functions `Take`, `Give` and `Deduct` state
    what these methods do to the counters.
* **Placement strategies** (`strategies.dfy`, module `Strategies`, on top of
  `game.dfy`, module `Games`). They work in place on the game's
  `array2<Option<Disc>>` grid. Row 0 is the top.
  * **Ordinary** is a gravity drop.
  * **Boring** empties the column top to bottom. It refunds each removed disc
    to player 1 or player 2 according to the disc's owner id, then puts the new
    disc in the bottom row.
  * **Magnetic** does a gravity drop, then scans the rows below the new disc.
    The scan looks for the mover's first Ordinary disc and for the last
    opponent Ordinary disc seen before it. When both are found, the two discs
    swap places.

  Each strategy method is proved to leave the column and both inventories
  exactly as `Columns.Placement` prescribes (`columns.dfy`). `Placement` states
  the three rules on one column as values, and the lemmas in `Columns` state
  what the rules promise.
* **Commands** (`commands.dfy`, module `Commands`). The four command classes
  (exit, place disc, save, help) become the variants of `Command`, each with a
  precondition (`CanExecute`) and an execute step (`Execute`).
  * A placement picks the strategy that matches the disc's kind and applies it.
    Only when the placement succeeds does it charge the current player one disc
    of that kind.
  * `CommandInvoker` runs a command only when its precondition holds. Its
    history records exactly the commands that succeeded.

`Game` (module `Games`) holds only the state the strategies and commands use:

* the dimensions, the grid and the two players;
* the current player;
* the strategy the next placement goes to;
* whether the game has ended.

The source's `GetGrid`, `GetRows`, `GetCols`, `GetPlayer1`, `GetPlayer2` and
`GetCurrentPlayer` accessors are its fields `grid`, `rows`, `cols`, `player1`,
`player2` and `currentPlayer`. `EndGame` reads the `ended` flag, because the
win detector is not part of this model. `Game.Valid` asks for at least one row
and one column (Program.cs:71 and Program.cs:87 re-prompt until both are at
least 1) and for two distinct player objects.

Points where the code behaves in a way worth noting:

* A placement's precondition does not look at the player's inventory. It looks
  only at whether there is a disc (Commands.cs:75-81). An exhausted inventory
  shows up earlier, as `MakeMove` returning no disc.
* Boring refunds by the literal owner ids 1 and 2, not through a player lookup.
  A disc with any other owner id is refunded to nobody.
* `DeductDisc` is called at Commands.cs:70 but player.cs does not define it.
  It is modelled as an unguarded decrement of that kind's counter.
  * `MakeMove` already decrements the counter when it hands out the disc.
  * So a disc obtained with `MakeMove` and then placed successfully costs two
    from that counter. `Players.MoveThenDeductChargesTwice` states this.
  * The caller that pairs the two calls is not part of this model, so the
    double charge cannot be shown on a concrete game here.
* The file manager's `SaveGame` returns `false` unconditionally
  (filemanager.cs:12). A save command therefore never reports success and
  never enters the history.

## Model

| member | source | states |
|---|---|---|
| Discs.Tag | disc.cs:6-11 | the integer value of a kind lies in 0..2 and casting it back gives the same kind |
| Discs.FromTag | disc.cs:6-11 | casting an integer names a kind exactly for 0, 1 and 2 |
| Discs.TagsFollowDeclarationOrder | disc.cs:6-11 | Ordinary, Boring and Magnetic are 0, 1 and 2, and each of 0..2 round-trips through the kind |
| Discs.OrdinaryDisc | disc.cs:29 | an OrdinaryDisc has kind Ordinary and keeps the given owner id and symbol |
| Discs.BoringDisc | disc.cs:34 | a BoringDisc has kind Boring and keeps the given owner id and symbol |
| Discs.MagneticDisc | disc.cs:39 | a MagneticDisc has kind Magnetic and keeps the given owner id and symbol |
| Players.Give | player.cs:48-63 | a refund raises exactly the counter of its kind by one and leaves the other two |
| Players.Take | player.cs:18-46 | a dispatch happens exactly when the counter is positive; it lowers that counter by one, leaves the others, and a refund of the same kind restores the inventory |
| Players.Deduct | Commands.cs:70 | the charge after a placement is undone by a refund of the same kind and leaves the other counters |
| Players.TakeKeepsNonNegative | player.cs:22-41 | starting from non-negative counters, neither a dispatch nor a refund makes a counter negative |
| Players.MoveThenDeductChargesTwice | Commands.cs:67-71 | a disc dispatched by MakeMove and then charged by DeductDisc costs two from that counter |
| Players.Player.constructor | player.cs:5-16 | a new player has the given ordinary count, two boring and two magnetic discs, and the given symbol and id |
| Players.Player.Computer | player.cs:68 | the computer player always has id 2 and the same starting counters |
| Players.Player.DispenseDisc | player.cs:18-46 | with a positive counter: that counter drops by one and a disc of the kind with the player's id and symbol is returned; otherwise no disc and no change |
| Players.Player.MakeMove | player.cs:18-46 | only a human player's move dispatches the requested kind (the computer's override is separate); the counter and result are as for DispenseDisc |
| Players.Player.MakeComputerMove | player.cs:70-77 | the computer ignores the requested kind and dispatches the kind whose tag the random draw in 0..2 gave |
| Players.Player.ReturnDisc | player.cs:48-63 | the counters become `Give` of the old counters |
| Players.Player.DeductDisc | Commands.cs:70 | the counters become `Deduct` of the old counters |
| Columns.LowestEmpty | discplacestrategy.cs:16-24 | the gravity target is an empty cell with only occupied cells below it, or -1 exactly when the column has no empty cell |
| Columns.Cleared | discplacestrategy.cs:36-50 | after a Boring placement the bottom row holds the new disc and every other row is empty |
| Columns.TallyCountsRemovedDiscs | discplacestrategy.cs:36-47 | clearing a column refunds to an owner id exactly one disc per removed disc of that id, kind by kind |
| Columns.TallyNonNegative | discplacestrategy.cs:43-46 | refunds never lower a counter |
| Columns.FirstOwn | discplacestrategy.cs:83-88 | the scan's player row is the first row in range holding the mover's Ordinary disc, or -1 when there is none |
| Columns.LastOpponent | discplacestrategy.cs:89-96 | the scan's opponent row is the last row in range holding another player's Ordinary disc, or -1 |
| Columns.Scan | discplacestrategy.cs:75-99 | the opponent row is only recorded while no player row is known, so when both are found the opponent row is strictly above the player row and the swap condition holds |
| Columns.Swap | discplacestrategy.cs:104-107 | the swap exchanges exactly two cells and keeps the column's discs as a multiset |
| Columns.Placement | discplacestrategy.cs:10-110 | Boring always succeeds, Ordinary and Magnetic succeed exactly when the column has an empty cell, and a failed placement changes nothing; only Boring changes counters |
| Columns.Charged | Commands.cs:67-72 | the mover is charged one disc of the placed kind only when the placement succeeded; a failure changes nothing |
| Columns.OrdinaryDrop | discplacestrategy.cs:13-24 | Ordinary succeeds iff the column has an empty cell; the disc then fills the empty cell with the largest row index and no other cell changes |
| Columns.FullColumnRejects | discplacestrategy.cs:63-73 | a full column rejects Ordinary and Magnetic discs and stays unchanged |
| Columns.BoringClearsAndRefunds | discplacestrategy.cs:33-51 | Boring succeeds, leaves only the new disc in the bottom row, refunds players 1 and 2 one disc per removed disc of theirs by kind, and keeps counters non-negative |
| Columns.MagneticDropsLikeOrdinary | discplacestrategy.cs:62-73 | Magnetic succeeds exactly when Ordinary does, puts the disc in the same cell and leaves every row at or above it as Ordinary would |
| Columns.MagneticSwapsBelow | discplacestrategy.cs:75-107 | Magnetic either equals the Ordinary drop or exchanges the mover's Ordinary disc with an opponent's Ordinary disc above it, both strictly below the dropped disc; the column's discs are the same multiset |
| Columns.PlacementConservesDiscs | discplacestrategy.cs:10-110 | for players 1 and 2 and each kind, counter plus discs in the column grows by exactly the new disc when it is theirs |
| Columns.ChargedPlacementConservesDiscs | Commands.cs:67-72 | a placement of the mover's own disc, charged on success, conserves counter plus discs in the column for both players and every kind |
| Games.StrategyFor | Commands.cs:58-64 | the strategy chosen for a disc applies the rule of that disc's kind |
| Games.Game.SetPlaceDiscStrategy | Commands.cs:66 | the game's strategy becomes the chosen one |
| Strategies.OrdinaryPlaceDisc | discplacestrategy.cs:10-25 | rejects a column outside the grid with nothing changed; otherwise the column becomes the Ordinary placement of the old column and no other column changes |
| Strategies.ReturnToOwner | discplacestrategy.cs:43-46 | a removed disc is refunded to player 1 if its owner id is 1, to player 2 if it is 2, and to nobody otherwise |
| Strategies.RemoveDisc | discplacestrategy.cs:38-47 | the cell becomes empty, every other cell is unchanged, and the removed disc is refunded to its owner |
| Strategies.ClearColumn | discplacestrategy.cs:35-48 | every cell of the column ends empty, other columns are unchanged, and each player's counters grow by the refunds of the removed discs |
| Strategies.BoringPlaceDisc | discplacestrategy.cs:30-52 | rejects a column outside the grid with nothing changed; otherwise the column and both inventories become the Boring placement of the old state |
| Strategies.ScanBelow | discplacestrategy.cs:75-99 | the two rows found by the scan loop are the first player row and the last opponent row before it, as `Columns.Scan` defines them |
| Strategies.DropDisc | discplacestrategy.cs:62-73 | the disc lands in the lowest empty cell of the column and its row is returned, or -1 with nothing changed when the column is full; no other column changes |
| Strategies.SwapRows | discplacestrategy.cs:104-107 | the two cells of the column exchange their contents; nothing else in the grid changes |
| Strategies.AttractBelow | discplacestrategy.cs:75-107 | after the drop, the column becomes the attraction of the mover's nearest Ordinary disc and the opponent's last Ordinary disc above it; no other column changes |
| Strategies.MagneticPlaceDisc | discplacestrategy.cs:57-110 | rejects a column outside the grid with nothing changed; otherwise the column becomes the Magnetic placement of the old column, counters untouched, no other column changes |
| Strategies.ExecutePlaceDisc | Commands.cs:67 | the game applies the placement rule of the strategy it holds |
| Commands.CanExecute | Commands.cs:75-81 | a placement can run exactly with a disc, a column in 0..cols-1 and a game that has not ended; Exit and Help always can; Save exactly with a game and a non-empty path |
| Commands.RejectedNeverSucceeds | Commands.cs:195-208 | a command whose precondition fails never reports success |
| Commands.NonPlacementPreconditions | Commands.cs:109-128 | Exit and Help can always run; Save can run exactly with a game and a non-empty path, and never reports success |
| Commands.Execute | Commands.cs:53-81 | the new state is the one `Executed` describes: a failed precondition changes nothing; a placement selects the strategy of the disc's kind, leaves the Placement outcome and charges the current player one disc of that kind only on success |
| Commands.CommandInvoker.constructor | Commands.cs:190-193 | the history starts empty |
| Commands.CommandInvoker.ExecuteCommand | Commands.cs:195-209 | the command runs once: the result and the new game state are those `Executed` gives for one run; a rejected command changes nothing; the history grows by exactly the command, appended last, exactly when it succeeded |
| Commands.CommandInvoker.UndoLastCommand | Commands.cs:211-220 | an empty history stays empty; otherwise exactly the last entry is removed |
| Commands.CommandInvoker.GetCommandCount | Commands.cs:231 | the count is the length of the history |

## Left out

- Console menus, input parsing and re-prompt loops (Program.cs): input plumbing with no rules in it.
- Saving and loading (filemanager.cs, `Game.ToJSON` and `Game.LoadFromJSON`): file I/O. The document codec is not part of this model, so no round trip is stated.
- game.cs is an out-of-date stub that does not match the API the strategies and commands call. `Game` here has only that API; its constructor is an assumption.
- Win detection and the turn switch between players: neither is part of this model. `EndGame` is a flag and `currentPlayer` is never switched here.
- Console output: command descriptions, `ShowCommandHistory`, the help text and the debug print at discplacestrategy.cs:101 are display only.
- Commands.Execute: ending the process for Exit is not modelled. Execute reports success, whereas the source ends the session before the invoker could record the command.
- Commands.Execute: Save's file write is not modelled. Its result is the `false` that filemanager.cs:12 returns.
- DiscFactory.cs: thin constructors whose argument lists do not match the disc constructors. They add no behaviour.
- Players.Player.MakeComputerMove: the random draw is a parameter `choice` in 0..2, not a random source.
- `Undo` and `Redo` are kept as methods that do nothing, as in the source. They have no contract to state.
- The unreachable default arm `_ => new OrdinaryDiscStrategy()` (Commands.cs:63) has no counterpart, because the kind datatype is closed.
- Discs.FromTag: a C# cast of an integer outside 0..2 yields an unnamed enum value. Here it yields no kind; only 0..2 are ever cast.
- Players.Player.ReturnDisc: counters are unbounded integers. The source's 32-bit `int` would wrap only after more than 2^31 refunds, which no game reaches.
- Players.Player.DeductDisc: the same unbounded-integer note applies to the unguarded decrement.
- Discs are values, so two cells cannot share one disc object. Disc identity and aliasing are not captured.
- `PlaceDiscCommand` keeps its `player` field, but, as in the source, the charge goes to the game's current player.
