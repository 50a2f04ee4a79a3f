/**
 * A player's disc inventory: three counters, decremented when a disc is
 * dispatched and incremented when a disc is refunded. `Inventory` is the value
 * of the three counters; `Player` is the object whose fields the game updates.
 */
module Players {
  import opened Wrappers
  import opened Discs

  /** The three counters of one player. */
  datatype Inventory = Inventory(ordinary: int, boring: int, magnetic: int)

  const Empty := Inventory(0, 0, 0)

  /** The counter for one kind of disc. */
  function Count(inv: Inventory, t: DiscType): int
  {
    match t
    case Ordinary => inv.ordinary
    case Boring => inv.boring
    case Magnetic => inv.magnetic
  }

  predicate NonNegative(inv: Inventory)
  {
    inv.ordinary >= 0 && inv.boring >= 0 && inv.magnetic >= 0
  }

  /** Counter-wise sum; refunds are added to an inventory with it. */
  function Plus(a: Inventory, b: Inventory): (r: Inventory)
    ensures forall t :: Count(r, t) == Count(a, t) + Count(b, t)
  {
    Inventory(a.ordinary + b.ordinary, a.boring + b.boring, a.magnetic + b.magnetic)
  }

  /** One disc of kind `t` given back: that counter goes up by one, the others stay. */
  function Give(inv: Inventory, t: DiscType): (r: Inventory)
    ensures Count(r, t) == Count(inv, t) + 1
    ensures forall u :: u != t ==> Count(r, u) == Count(inv, u)
  {
    match t
    case Ordinary => inv.(ordinary := inv.ordinary + 1)
    case Boring => inv.(boring := inv.boring + 1)
    case Magnetic => inv.(magnetic := inv.magnetic + 1)
  }

  /**
   * One disc of kind `t` taken out, guarded by a positive count: absent when
   * that counter is not positive, otherwise the inventory that giving the disc
   * back restores.
   */
  function Take(inv: Inventory, t: DiscType): (r: Option<Inventory>)
    ensures r.Some? <==> Count(inv, t) > 0
    ensures r.Some? ==> Count(r.value, t) == Count(inv, t) - 1
    ensures r.Some? ==> forall u :: u != t ==> Count(r.value, u) == Count(inv, u)
    ensures r.Some? ==> Give(r.value, t) == inv
  {
    match t
    case Ordinary => if inv.ordinary > 0 then Some(inv.(ordinary := inv.ordinary - 1)) else None
    case Boring => if inv.boring > 0 then Some(inv.(boring := inv.boring - 1)) else None
    case Magnetic => if inv.magnetic > 0 then Some(inv.(magnetic := inv.magnetic - 1)) else None
  }

  /** One disc of kind `t` charged without a guard: the inverse of `Give`. */
  function Deduct(inv: Inventory, t: DiscType): (r: Inventory)
    ensures Give(r, t) == inv
    ensures forall u :: u != t ==> Count(r, u) == Count(inv, u)
  {
    match t
    case Ordinary => inv.(ordinary := inv.ordinary - 1)
    case Boring => inv.(boring := inv.boring - 1)
    case Magnetic => inv.(magnetic := inv.magnetic - 1)
  }

  /** Dispatching a disc never drives a counter below zero. */
  lemma TakeKeepsNonNegative(inv: Inventory, t: DiscType)
    requires NonNegative(inv)
    ensures Take(inv, t).Some? ==> NonNegative(Take(inv, t).value)
    ensures NonNegative(Give(inv, t))
  {
  }

  /**
   * A disc obtained from the inventory and then charged again on a successful
   * placement costs two of that counter.
   */
  lemma MoveThenDeductChargesTwice(inv: Inventory, t: DiscType)
    requires Count(inv, t) > 0
    ensures Take(inv, t).Some?
    ensures Count(Deduct(Take(inv, t).value, t), t) == Count(inv, t) - 2
  {
    var taken := Take(inv, t).value;
    assert Give(Deduct(taken, t), t) == taken;
  }

  class Player {
    var ordinaryDiscs: int
    var boringDiscs: int
    var magneticDiscs: int
    const symbol: string
    const playerId: int
    /** True for the computer opponent, whose move picks the disc kind at random. */
    const isComputer: bool

    /** The current value of the three counters. */
    function Stock(): Inventory
      reads this
    {
      Inventory(ordinaryDiscs, boringDiscs, magneticDiscs)
    }

    /** A human player: `numOfOrdDiscs` ordinary discs, two boring and two magnetic. */
    constructor (numOfOrdDiscs: int, symbol: string, playerId: int)
      ensures Stock() == Inventory(numOfOrdDiscs, 2, 2)
      ensures this.symbol == symbol && this.playerId == playerId && !isComputer
    {
      ordinaryDiscs, boringDiscs, magneticDiscs := numOfOrdDiscs, 2, 2;
      this.symbol, this.playerId, isComputer := symbol, playerId, false;
    }

    /** The computer opponent: always player 2, with the same starting counters. */
    constructor Computer(numOfOrdDiscs: int, symbol: string)
      ensures Stock() == Inventory(numOfOrdDiscs, 2, 2)
      ensures this.symbol == symbol && playerId == 2 && isComputer
    {
      ordinaryDiscs, boringDiscs, magneticDiscs := numOfOrdDiscs, 2, 2;
      this.symbol, playerId, isComputer := symbol, 2, true;
    }

    /**
     * A human player's move: dispatch a disc of the requested kind. The computer
     * overrides the move and ignores the requested kind, so it goes through
     * `MakeComputerMove` instead.
     */
    method MakeMove(column: int, discType: DiscType) returns (disc: Option<Disc>)
      requires !isComputer
      modifies this
      ensures Take(old(Stock()), discType).Some? ==>
        disc == Some(Disc(discType, playerId, symbol)) && Stock() == Take(old(Stock()), discType).value
      ensures Take(old(Stock()), discType).None? ==> disc == None && Stock() == old(Stock())
    {
      disc := DispenseDisc(discType);
    }

    /**
     * The move every player shares: when the counter for `discType` is positive
     * it drops by one and a disc of that kind carrying this player's id and
     * symbol comes back; otherwise nothing changes and no disc comes back.
     */
    method DispenseDisc(discType: DiscType) returns (disc: Option<Disc>)
      modifies this
      ensures Take(old(Stock()), discType).Some? ==>
        disc == Some(Disc(discType, playerId, symbol)) && Stock() == Take(old(Stock()), discType).value
      ensures Take(old(Stock()), discType).None? ==> disc == None && Stock() == old(Stock())
    {
      match discType {
        case Ordinary =>
          if ordinaryDiscs > 0 {
            ordinaryDiscs := ordinaryDiscs - 1;
            return Some(OrdinaryDisc(playerId, symbol));
          }
        case Boring =>
          if boringDiscs > 0 {
            boringDiscs := boringDiscs - 1;
            return Some(BoringDisc(playerId, symbol));
          }
        case Magnetic =>
          if magneticDiscs > 0 {
            magneticDiscs := magneticDiscs - 1;
            return Some(MagneticDisc(playerId, symbol));
          }
      }
      disc := None;
    }

    /**
     * The computer's move: the disc kind is the tag `choice`, drawn uniformly
     * from 0, 1, 2 by the random source, which is a parameter here.
     */
    method MakeComputerMove(column: int, choice: int) returns (disc: Option<Disc>)
      requires isComputer && 0 <= choice < 3
      modifies this
      ensures var t := FromTag(choice).value;
        Tag(t) == choice &&
        if Take(old(Stock()), t).Some? then
          disc == Some(Disc(t, playerId, symbol)) && Stock() == Take(old(Stock()), t).value
        else
          disc == None && Stock() == old(Stock())
    {
      TagsFollowDeclarationOrder();
      disc := DispenseDisc(FromTag(choice).value);
    }

    /** A refund: the counter for `discType` goes up by one, the others stay. */
    method ReturnDisc(discType: DiscType)
      modifies this
      ensures Stock() == Give(old(Stock()), discType)
    {
      match discType
      case Ordinary => ordinaryDiscs := ordinaryDiscs + 1;
      case Boring => boringDiscs := boringDiscs + 1;
      case Magnetic => magneticDiscs := magneticDiscs + 1;
    }

    /** The charge made after a successful placement: that counter goes down by one, unguarded. */
    method DeductDisc(discType: DiscType)
      modifies this
      ensures Stock() == Deduct(old(Stock()), discType)
    {
      match discType
      case Ordinary => ordinaryDiscs := ordinaryDiscs - 1;
      case Boring => boringDiscs := boringDiscs - 1;
      case Magnetic => magneticDiscs := magneticDiscs - 1;
    }
  }
}
