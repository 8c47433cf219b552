/** The catalog entities the mapping consumes: `ConverterCard` and
    `ConverterSet`. Their internals are defined outside the modelled file;
    only the members the mapping reads are kept. */
module Catalog {

  /** Identifier of the game a set belongs to (a GUID in the program). */
  type GameId = nat

  /** `ConvertEngine.Game.LoTR.GameGuidStatic`. Its value is defined outside
      this model; only the comparison against it matters. */
  const LotrGameId: GameId := 1

  /** A catalog card; `setName` is its `Set` label. `ConverterCard.Equals`
      is not part of this model: card equality, as `Contains` and `Remove`
      use it, is taken to be identity, and `id` stands for that identity,
      so two cards are the same card exactly when they are the same value
      here. */
  datatype ConverterCard = ConverterCard(
    id: nat,
    name: string,
    setName: string,
    multiverseId: int)

  /** A catalog set: the game it belongs to (`OctgnSet.GameId`), whether it
      takes part in searches, and its cards in catalog order. */
  datatype ConverterSet = ConverterSet(
    gameId: GameId,
    includeInSearches: bool,
    converterCards: seq<ConverterCard>)

  /** The dictionary built by `NormalizeConverterCards`: normalized first
      name -> (card, owning set) pairs. */
  type CardIndex = map<string, seq<(ConverterCard, ConverterSet)>>
}
