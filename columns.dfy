/**
 * The placement rules stated on one column of the grid, as values. A column is
 * the sequence of its cells from row 0 (the top) to row `rows - 1` (the bottom,
 * where gravity takes a disc). `Placement` is what each of the three strategies
 * does to the column and to the two players' inventories; the strategy methods
 * over the real grid are proved to do exactly this, and the lemmas below state
 * what the rules promise.
 */
module Columns {
  import opened Wrappers
  import opened Discs
  import opened Players

  /** A grid cell: empty, or holding one disc. */
  type Cell = Option<Disc>

  /** The cells of one column, top row first. */
  type Column = seq<Cell>

  /**
   * The row a gravity drop lands on: the empty cell with the largest row index,
   * or -1 when the column has no empty cell.
   */
  function LowestEmpty(c: Column): (r: int)
    ensures -1 <= r < |c|
    ensures r >= 0 ==> c[r].None?
    ensures forall i :: r < i < |c| ==> c[i].Some?
  {
    if |c| == 0 then -1
    else if c[|c| - 1].None? then |c| - 1
    else LowestEmpty(c[..|c| - 1])
  }

  /** The column after a Boring placement: empty except for the new disc in the bottom row. */
  function Cleared(n: nat, d: Disc): (c: Column)
    requires n > 0
    ensures |c| == n && c[n - 1] == Some(d)
    ensures forall i :: 0 <= i < n - 1 ==> c[i].None?
  {
    seq(n, i => if i == n - 1 then Some(d) else None)
  }

  /** The disc a removed cell refunds to the player with id `id`: one of its kind if it is theirs. */
  function Refund(cell: Cell, id: int): Inventory
  {
    if cell.Some? && cell.value.playerId == id then Give(Empty, cell.value.discType) else Empty
  }

  /** The refunds the player with id `id` receives when the cells of `c` are removed top to bottom. */
  function Tally(c: Column, id: int): Inventory
  {
    if |c| == 0 then Empty else Plus(Tally(c[..|c| - 1], id), Refund(c[|c| - 1], id))
  }

  /** Removing one more cell adds that cell's refund. */
  lemma TallyStep(k: Inventory, c: Column, row: int, id: int)
    requires 0 <= row < |c|
    ensures Plus(k, Tally(c[..row + 1], id)) == Plus(Plus(k, Tally(c[..row], id)), Refund(c[row], id))
  {
    assert c[..row + 1][..row] == c[..row];
    var t, r := Tally(c[..row], id), Refund(c[row], id);
    assert Tally(c[..row + 1], id) == Plus(t, r);
    assert Plus(k, Plus(t, r)) == Plus(Plus(k, t), r);
  }

  predicate Holds(cell: Cell, id: int, t: DiscType)
  {
    cell.Some? && cell.value.playerId == id && cell.value.discType == t
  }

  /** How many cells of `c` hold a disc of kind `t` owned by `id`. */
  function Occurrences(c: Column, id: int, t: DiscType): nat
  {
    if |c| == 0 then 0 else (if Holds(c[0], id, t) then 1 else 0) + Occurrences(c[1..], id, t)
  }

  lemma {:induction false} OccurrencesAppend(c: Column, x: Cell, id: int, t: DiscType)
    ensures Occurrences(c + [x], id, t) == Occurrences(c, id, t) + (if Holds(x, id, t) then 1 else 0)
  {
    if |c| > 0 {
      assert (c + [x])[1..] == c[1..] + [x];
      OccurrencesAppend(c[1..], x, id, t);
    }
  }

  /**
   * A Boring clear refunds to `id` exactly one disc of each kind for every
   * removed disc of that kind that `id` owned, and nothing else.
   */
  lemma {:induction false} TallyCountsRemovedDiscs(c: Column, id: int, t: DiscType)
    ensures Count(Tally(c, id), t) == Occurrences(c, id, t)
  {
    if |c| > 0 {
      var init, last := c[..|c| - 1], c[|c| - 1];
      TallyCountsRemovedDiscs(init, id, t);
      assert c == init + [last];
      OccurrencesAppend(init, last, id, t);
    }
  }

  /** Overwriting one cell changes the count by what left and what arrived. */
  lemma {:induction false} OccurrencesUpdate(c: Column, i: int, x: Cell, id: int, t: DiscType)
    requires 0 <= i < |c|
    ensures Occurrences(c[i := x], id, t) ==
            Occurrences(c, id, t) - (if Holds(c[i], id, t) then 1 else 0) + (if Holds(x, id, t) then 1 else 0)
  {
    if i == 0 {
      assert c[i := x][1..] == c[1..];
    } else {
      assert c[i := x][1..] == c[1..][i - 1 := x];
      OccurrencesUpdate(c[1..], i - 1, x, id, t);
    }
  }

  /** A column without discs counts nothing. */
  lemma {:induction false} OccurrencesOfEmpty(c: Column, id: int, t: DiscType)
    requires forall i :: 0 <= i < |c| ==> c[i].None?
    ensures Occurrences(c, id, t) == 0
  {
    if |c| > 0 {
      OccurrencesOfEmpty(c[1..], id, t);
    }
  }

  /** Refunds never take a disc away. */
  lemma {:induction false} TallyNonNegative(c: Column, id: int)
    ensures NonNegative(Tally(c, id))
  {
    if |c| > 0 {
      TallyNonNegative(c[..|c| - 1], id);
    }
  }

  /** An Ordinary disc of the mover (the player with id `pid`). */
  predicate OwnOrdinary(cell: Cell, pid: int)
  {
    cell.Some? && cell.value.discType == Ordinary && cell.value.playerId == pid
  }

  /** An Ordinary disc of anyone other than the mover. */
  predicate OpponentOrdinary(cell: Cell, pid: int)
  {
    cell.Some? && cell.value.discType == Ordinary && cell.value.playerId != pid
  }

  /** The smallest row in [lo, hi) holding an Ordinary disc of the mover, or -1. */
  function FirstOwn(c: Column, lo: int, hi: int, pid: int): (r: int)
    requires 0 <= lo <= hi <= |c|
    decreases hi - lo
    ensures r == -1 || (lo <= r < hi && OwnOrdinary(c[r], pid))
    ensures forall i :: lo <= i < hi && (r == -1 || i < r) ==> !OwnOrdinary(c[i], pid)
  {
    if lo == hi then -1
    else
      var f := FirstOwn(c, lo, hi - 1, pid);
      if f != -1 then f
      else if OwnOrdinary(c[hi - 1], pid) then hi - 1
      else -1
  }

  /** The largest row in [lo, hi) holding an Ordinary disc of an opponent, or -1. */
  function LastOpponent(c: Column, lo: int, hi: int, pid: int): (r: int)
    requires 0 <= lo <= hi <= |c|
    decreases hi - lo
    ensures r == -1 || (lo <= r < hi && OpponentOrdinary(c[r], pid))
    ensures forall i :: lo <= i < hi && r < i ==> !OpponentOrdinary(c[i], pid)
  {
    if lo == hi then -1
    else if OpponentOrdinary(c[hi - 1], pid) then hi - 1
    else LastOpponent(c, lo, hi - 1, pid)
  }

  /** The two rows the Magnetic scan finds below the dropped disc. */
  datatype ScanResult = ScanResult(nearestPlayerDisc: int, lastOpponentDisc: int)

  /**
   * The Magnetic scan from row `from` down to the bottom: the first Ordinary
   * disc of the mover, and the last Ordinary disc of an opponent seen before it
   * (before the bottom when the mover has none). The opponent row is only ever
   * recorded above the mover's row, so when both are found the swap condition
   * `nearest > last` holds.
   */
  function Scan(c: Column, from: int, pid: int): (s: ScanResult)
    requires 0 <= from <= |c|
    ensures s.nearestPlayerDisc != -1 && s.lastOpponentDisc != -1 ==>
      from <= s.lastOpponentDisc < s.nearestPlayerDisc < |c|
  {
    var n := FirstOwn(c, from, |c|, pid);
    ScanResult(n, LastOpponent(c, from, if n == -1 then |c| else n, pid))
  }

  /** Exchange the contents of rows `i` and `j`. */
  function Swap(c: Column, i: int, j: int): (r: Column)
    requires 0 <= i < |c| && 0 <= j < |c|
    ensures |r| == |c| && r[i] == c[j] && r[j] == c[i]
    ensures forall k :: 0 <= k < |c| && k != i && k != j ==> r[k] == c[k]
    ensures multiset(r) == multiset(c)
  {
    c[i := c[j]][j := c[i]]
  }

  /** The Magnetic step after the drop to row `r`: scan below it and swap when both rows were found. */
  function Attract(c: Column, r: int, pid: int): Column
    requires 0 <= r < |c|
  {
    var s := Scan(c, r + 1, pid);
    if s.nearestPlayerDisc != -1 && s.lastOpponentDisc != -1 && s.nearestPlayerDisc > s.lastOpponentDisc
    then Swap(c, s.nearestPlayerDisc, s.lastOpponentDisc)
    else c
  }

  /** What a placement reports and leaves behind: the column and both players' inventories. */
  datatype Outcome = Outcome(ok: bool, column: Column, stock1: Inventory, stock2: Inventory)

  /**
   * The placement rule for a disc `d` of kind `t` dropped by the player with
   * id `pid` into column `c`, with player 1 holding `k1` and player 2 holding
   * `k2`. A failed placement changes nothing.
   */
  function Placement(t: DiscType, c: Column, d: Disc, pid: int, k1: Inventory, k2: Inventory): (o: Outcome)
    requires |c| > 0
    ensures |o.column| == |c|
    ensures o.ok <==> t == Boring || LowestEmpty(c) >= 0
    ensures !o.ok ==> o == Outcome(false, c, k1, k2)
    ensures t != Boring ==> o.stock1 == k1 && o.stock2 == k2
  {
    match t
    case Ordinary =>
      var r := LowestEmpty(c);
      if r < 0 then Outcome(false, c, k1, k2) else Outcome(true, c[r := Some(d)], k1, k2)
    case Boring =>
      Outcome(true, Cleared(|c|, d), Plus(k1, Tally(c, 1)), Plus(k2, Tally(c, 2)))
    case Magnetic =>
      var r := LowestEmpty(c);
      if r < 0 then Outcome(false, c, k1, k2) else Outcome(true, Attract(c[r := Some(d)], r, pid), k1, k2)
  }

  /** The Magnetic outcome, given the column the drop to row `r` and the attraction leave. */
  lemma MagneticOutcome(c: Column, d: Disc, pid: int, k1: Inventory, k2: Inventory, r: int, after: Column)
    requires |c| > 0 && r == LowestEmpty(c) && r >= 0
    requires after == Attract(c[r := Some(d)], r, pid)
    ensures Placement(Magnetic, c, d, pid, k1, k2) == Outcome(true, after, k1, k2)
  {
  }

  /** Charge the mover one disc of kind `t` after a successful placement. */
  function Charged(o: Outcome, t: DiscType, moverIsPlayer1: bool): (r: Outcome)
    ensures r.ok == o.ok && r.column == o.column
    ensures !o.ok ==> r == o
    ensures o.ok && moverIsPlayer1 ==> Give(r.stock1, t) == o.stock1 && r.stock2 == o.stock2
    ensures o.ok && !moverIsPlayer1 ==> r.stock1 == o.stock1 && Give(r.stock2, t) == o.stock2
  {
    if !o.ok then o
    else if moverIsPlayer1 then o.(stock1 := Deduct(o.stock1, t))
    else o.(stock2 := Deduct(o.stock2, t))
  }

  /**
   * Ordinary: the placement succeeds exactly when the column has an empty
   * cell; the disc then occupies the empty cell with the largest row index and
   * no other cell changes.
   */
  lemma OrdinaryDrop(c: Column, d: Disc, pid: int, k1: Inventory, k2: Inventory)
    requires |c| > 0
    ensures var o := Placement(Ordinary, c, d, pid, k1, k2);
      (o.ok <==> exists i :: 0 <= i < |c| && c[i].None?) &&
      (o.ok ==> exists r :: 0 <= r < |c| && c[r].None? && (forall i :: r < i < |c| ==> c[i].Some?) &&
                            o.column[r] == Some(d) &&
                            (forall i :: 0 <= i < |c| && i != r ==> o.column[i] == c[i]))
  {
    var r := LowestEmpty(c);
    if r >= 0 {
      assert Placement(Ordinary, c, d, pid, k1, k2).column == c[r := Some(d)];
    }
  }

  /** A column with no empty cell rejects Ordinary and Magnetic discs and stays as it was. */
  lemma FullColumnRejects(c: Column, d: Disc, pid: int, k1: Inventory, k2: Inventory)
    requires |c| > 0
    requires forall i :: 0 <= i < |c| ==> c[i].Some?
    ensures Placement(Ordinary, c, d, pid, k1, k2) == Outcome(false, c, k1, k2)
    ensures Placement(Magnetic, c, d, pid, k1, k2) == Outcome(false, c, k1, k2)
  {
  }

  /**
   * Boring: always succeeds; afterwards the bottom row holds the new disc,
   * every other row is empty, and each of players 1 and 2 has been refunded
   * one disc per removed disc of theirs, by kind. Discs owned by any other id
   * are refunded to nobody.
   */
  lemma BoringClearsAndRefunds(c: Column, d: Disc, pid: int, k1: Inventory, k2: Inventory)
    requires |c| > 0
    ensures var o := Placement(Boring, c, d, pid, k1, k2);
      o.ok && o.column[|c| - 1] == Some(d) &&
      (forall i :: 0 <= i < |c| - 1 ==> o.column[i].None?) &&
      (forall t :: Count(o.stock1, t) == Count(k1, t) + Occurrences(c, 1, t)) &&
      (forall t :: Count(o.stock2, t) == Count(k2, t) + Occurrences(c, 2, t)) &&
      (NonNegative(k1) ==> NonNegative(o.stock1)) && (NonNegative(k2) ==> NonNegative(o.stock2))
  {
    forall t: DiscType
      ensures Count(Tally(c, 1), t) == Occurrences(c, 1, t) && Count(Tally(c, 2), t) == Occurrences(c, 2, t)
    {
      TallyCountsRemovedDiscs(c, 1, t);
      TallyCountsRemovedDiscs(c, 2, t);
    }
    TallyNonNegative(c, 1);
    TallyNonNegative(c, 2);
  }

  /**
   * Magnetic drops to the same cell as Ordinary, succeeds exactly when Ordinary
   * does, and whatever the scan does afterwards the dropped disc stays there and
   * nothing at or above it changes.
   */
  lemma MagneticDropsLikeOrdinary(c: Column, d: Disc, pid: int, k1: Inventory, k2: Inventory)
    requires |c| > 0
    ensures var om, oo := Placement(Magnetic, c, d, pid, k1, k2), Placement(Ordinary, c, d, pid, k1, k2);
      om.ok == oo.ok &&
      (om.ok ==> om.column[LowestEmpty(c)] == Some(d) &&
                 forall i :: 0 <= i <= LowestEmpty(c) ==> om.column[i] == oo.column[i])
  {
  }

  /**
   * A Magnetic placement differs from the Ordinary drop either not at all or by
   * one exchange of two cells strictly below the dropped disc: the mover's
   * nearest Ordinary disc moves up to the row of the last opponent Ordinary
   * disc above it, and that disc moves down. The discs in the column are the
   * same either way.
   */
  lemma MagneticSwapsBelow(c: Column, d: Disc, pid: int, k1: Inventory, k2: Inventory)
    requires |c| > 0
    ensures var om, oo := Placement(Magnetic, c, d, pid, k1, k2), Placement(Ordinary, c, d, pid, k1, k2);
      multiset(om.column) == multiset(oo.column) &&
      (om.column == oo.column ||
       exists i, j :: LowestEmpty(c) < j < i < |c| &&
         OwnOrdinary(oo.column[i], pid) && OpponentOrdinary(oo.column[j], pid) &&
         om.column == Swap(oo.column, i, j))
  {
    var r := LowestEmpty(c);
    if r >= 0 {
      var dropped := c[r := Some(d)];
      var s := Scan(dropped, r + 1, pid);
      if s.nearestPlayerDisc != -1 && s.lastOpponentDisc != -1 && s.nearestPlayerDisc > s.lastOpponentDisc {
        var i, j := s.nearestPlayerDisc, s.lastOpponentDisc;
        assert OwnOrdinary(dropped[i], pid) && OpponentOrdinary(dropped[j], pid);
      }
    }
  }

  /**
   * For players 1 and 2, a placement conserves, per kind of disc, the player's
   * counter plus that player's discs in the column: Ordinary and Magnetic only
   * add the new disc (Magnetic merely exchanges two cells), and Boring refunds
   * every removed disc of the player.
   */
  lemma PlacementConservesDiscs(t: DiscType, c: Column, d: Disc, pid: int, k1: Inventory, k2: Inventory,
                                id: int, u: DiscType)
    requires |c| > 0 && (id == 1 || id == 2)
    ensures var o := Placement(t, c, d, pid, k1, k2);
      Count(if id == 1 then o.stock1 else o.stock2, u) + Occurrences(o.column, id, u) ==
      Count(if id == 1 then k1 else k2, u) + Occurrences(c, id, u) + (if o.ok && Holds(Some(d), id, u) then 1 else 0)
  {
    var r := LowestEmpty(c);
    match t
    case Ordinary =>
      if r >= 0 {
        OccurrencesUpdate(c, r, Some(d), id, u);
      }
    case Boring =>
      var cleared := Cleared(|c|, d);
      assert cleared == cleared[..|c| - 1] + [Some(d)];
      OccurrencesOfEmpty(cleared[..|c| - 1], id, u);
      OccurrencesAppend(cleared[..|c| - 1], Some(d), id, u);
      TallyCountsRemovedDiscs(c, id, u);
    case Magnetic =>
      if r >= 0 {
        var dropped := c[r := Some(d)];
        OccurrencesUpdate(c, r, Some(d), id, u);
        var s := Scan(dropped, r + 1, pid);
        if s.nearestPlayerDisc != -1 && s.lastOpponentDisc != -1 && s.nearestPlayerDisc > s.lastOpponentDisc {
          var i, j := s.nearestPlayerDisc, s.lastOpponentDisc;
          OccurrencesUpdate(dropped, i, dropped[j], id, u);
          OccurrencesUpdate(dropped[i := dropped[j]], j, dropped[i], id, u);
        }
      }
  }

  /**
   * A placement by player `mover` (1 or 2) of its own disc of kind `t`, charged
   * to its inventory on success, leaves for both players and every kind the sum
   * of counter and discs in the column unchanged.
   */
  lemma ChargedPlacementConservesDiscs(t: DiscType, c: Column, d: Disc, pid: int, k1: Inventory, k2: Inventory,
                                       mover: int, id: int, u: DiscType)
    requires |c| > 0 && (mover == 1 || mover == 2) && (id == 1 || id == 2)
    requires d.discType == t && d.playerId == mover
    ensures var o := Charged(Placement(t, c, d, pid, k1, k2), t, mover == 1);
      Count(if id == 1 then o.stock1 else o.stock2, u) + Occurrences(o.column, id, u) ==
      Count(if id == 1 then k1 else k2, u) + Occurrences(c, id, u)
  {
    PlacementConservesDiscs(t, c, d, pid, k1, k2, id, u);
  }
}
