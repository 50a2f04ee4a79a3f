/**
 * The disc data model of the game: a closed three-way type tag plus the id and
 * display symbol of the owning player. The class hierarchy
 * Disc / OrdinaryDisc / BoringDisc / MagneticDisc becomes one datatype whose
 * constructor stores the three fields unchanged, and three functions that fix
 * the tag.
 */
module Discs {
  import opened Wrappers

  /** The three kinds of disc, in declaration order. */
  datatype DiscType = Ordinary | Boring | Magnetic

  /** A placed or dispatched disc: its kind, the id of its owner and the owner's symbol. */
  datatype Disc = Disc(discType: DiscType, playerId: int, symbol: string)

  /** The integer value of an enum member: its position in the declaration. */
  function Tag(t: DiscType): (n: int)
    ensures 0 <= n < 3
    ensures FromTag(n) == Some(t)
  {
    match t
    case Ordinary => 0
    case Boring => 1
    case Magnetic => 2
  }

  /** The cast `(DiscType)n`; only the three declared values name a disc kind. */
  function FromTag(n: int): (t: Option<DiscType>)
    ensures t.Some? <==> 0 <= n < 3
  {
    if n == 0 then Some(Ordinary)
    else if n == 1 then Some(Boring)
    else if n == 2 then Some(Magnetic)
    else None
  }

  /** The tags are 0, 1, 2 in declaration order, and every declared tag maps back to its kind. */
  lemma TagsFollowDeclarationOrder()
    ensures Tag(Ordinary) == 0 && Tag(Boring) == 1 && Tag(Magnetic) == 2
    ensures forall n :: 0 <= n < 3 ==> FromTag(n).Some? && Tag(FromTag(n).value) == n
  {
  }

  function OrdinaryDisc(playerId: int, symbol: string): (d: Disc)
    ensures d.discType == Ordinary && d.playerId == playerId && d.symbol == symbol
  {
    Disc(Ordinary, playerId, symbol)
  }

  function BoringDisc(playerId: int, symbol: string): (d: Disc)
    ensures d.discType == Boring && d.playerId == playerId && d.symbol == symbol
  {
    Disc(Boring, playerId, symbol)
  }

  function MagneticDisc(playerId: int, symbol: string): (d: Disc)
    ensures d.discType == Magnetic && d.playerId == playerId && d.symbol == symbol
  {
    Disc(Magnetic, playerId, symbol)
  }
}
