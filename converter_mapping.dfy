/** The class `ConverterMapping`: one parsed deck line (card name, set
    label, quantity), the OCTGN cards that may stand for it and the one
    chosen. */
module Mapping {
  import opened Wrappers
  import opened Catalog
  import opened SetMatching
  import opened ConverterIndex
  import opened Candidates
  import opened Matching

  class ConverterMapping {
    /** The parsed card name. */
    const cardName: string
    /** The parsed set label, empty when the deck line names no set; it
        has a public setter. */
    var cardSet: string
    /** How many copies the deck holds. */
    const quantity: int
    /** `PotentialOCTGNCards`. */
    var potentialCards: seq<ConverterCard>
    /** `SelectedOCTGNCard`; None stands for null. */
    var selected: Option<ConverterCard>

    /** The list never holds a card twice: every insertion goes through
        the `Contains` test of `AddPotentialOCTGNCard`. */
    ghost predicate Valid()
      reads this
    {
      Distinct(potentialCards)
    }

    constructor(cardName: string, cardSet: string, quantity: int)
      ensures this.cardName == cardName && this.cardSet == cardSet && this.quantity == quantity
      ensures potentialCards == [] && selected == None
      ensures Valid()
    {
      this.cardName := cardName;
      this.cardSet := cardSet;
      this.quantity := quantity;
      potentialCards := [];
      selected := None;
    }

    /** The setter of `SelectedOCTGNCard`: any card, or null, is accepted. */
    method SetSelectedOCTGNCard(card: Option<ConverterCard>)
      modifies this`selected
      ensures selected == card
    {
      selected := card;
    }

    /** Null throws `ArgumentNullException`; a card already present gives
        false and no change; any other card is inserted where the index
        loop says, and the result is true. */
    method AddPotentialOCTGNCard(potentialCard: Option<ConverterCard>) returns (r: Result<bool, Exception>)
      requires Valid()
      modifies this`potentialCards
      ensures Valid()
      ensures potentialCard.None? ==> r == Failure(ArgumentNull) && potentialCards == old(potentialCards)
      ensures potentialCard.Some? ==>
                && r == Success(potentialCard.value !in old(potentialCards))
                && potentialCards == Added(old(potentialCards), potentialCard.value)
    {
      if potentialCard.None? {
        return Failure(ArgumentNull);
      }
      var card := potentialCard.value;
      if card in potentialCards {
        return Success(false);
      }
      AddedDistinct(potentialCards, card);
      InsertAtEnd(potentialCards, card);
      if |potentialCards| == 0 {
        potentialCards := potentialCards + [card];
      } else if potentialCards[|potentialCards| - 1].multiverseId > card.multiverseId {
        potentialCards := potentialCards + [card];
      } else {
        var index := 0;
        var i := 0;
        while i < |potentialCards|
          invariant 0 <= i <= |potentialCards|
          invariant forall k :: 0 <= k < i ==> potentialCards[k].multiverseId <= card.multiverseId
          invariant index == if i == 0 then 0 else i - 1
        {
          if potentialCards[i].multiverseId > card.multiverseId {
            break;
          }
          index := i;
          i := i + 1;
        }
        ScanFindsInsertIndex(potentialCards, card.multiverseId, i, index);
        potentialCards := potentialCards[..index] + [card] + potentialCards[index..];
      }
      return Success(true);
    }

    /** The selection becomes the first card with the largest MultiverseID,
        or null when there are no cards. */
    method AutoSelectPotentialOCTGNCard()
      modifies this`selected
      ensures potentialCards == [] ==> selected == None
      ensures potentialCards != [] ==> selected == Some(potentialCards[MaxIndex(potentialCards)])
    {
      if |potentialCards| == 0 {
        selected := None;
      } else {
        var maxMultiverseIdCard := potentialCards[0];
        ghost var best := 0;
        assert potentialCards[..1] == [potentialCards[0]];
        var i := 0;
        while i < |potentialCards|
          invariant 0 <= i <= |potentialCards|
          invariant best == MaxIndex(potentialCards[..if i == 0 then 1 else i])
          invariant maxMultiverseIdCard == potentialCards[best]
        {
          var cc := potentialCards[i];
          if i > 0 {
            MaxIndexStep(potentialCards, i);
          }
          if cc.multiverseId > maxMultiverseIdCard.multiverseId {
            maxMultiverseIdCard := cc;
            best := i;
          }
          i := i + 1;
        }
        assert potentialCards[..i] == potentialCards;
        selected := Some(maxMultiverseIdCard);
      }
    }

    /** `Collection.Remove`: true exactly when the card was present, and
        then its occurrence is gone. The selection is left alone, even when
        it is the removed card. */
    method RemovePotentialOCTGNCard(potentialCard: Option<ConverterCard>) returns (removed: bool)
      requires Valid()
      modifies this`potentialCards
      ensures Valid()
      ensures removed <==> potentialCard.Some? && potentialCard.value in old(potentialCards)
      ensures potentialCards == if removed then RemoveFirst(old(potentialCards), potentialCard.value) else old(potentialCards)
      ensures selected == old(selected)
    {
      if potentialCard.None? || potentialCard.value !in potentialCards {
        return false;
      }
      RemoveFirstDistinct(potentialCards, potentialCard.value);
      potentialCards := RemoveFirst(potentialCards, potentialCard.value);
      return true;
    }

    /** Adds every card of the bucket of the line's first name that matches
        its names and, for LoTR, its set. Throws (`Fail`) with
        `InvalidOperation` when the card name has no name segment, and with
        `ArgumentOutOfRange` from the set check; cards added before that
        stay. */
    method PopulateWithPotentialCards(converterCardDictionary: CardIndex) returns (r: Outcome<Exception>)
      requires Valid()
      modifies this`potentialCards
      ensures Valid()
      ensures (potentialCards, r) == Populated(old(potentialCards), cardName, cardSet, converterCardDictionary)
    {
      var converterMappingNames := NameSegments(cardName);
      if converterMappingNames == [] {
        return Fail(InvalidOperation);
      }
      if converterMappingNames[0] !in converterCardDictionary {
        return Pass;
      }
      var bucket := converterCardDictionary[converterMappingNames[0]];
      ghost var verdict := CandidateVerdict(converterMappingNames, cardSet);
      ghost var start := potentialCards;
      PopulatedScans(start, cardName, cardSet, converterCardDictionary);
      var k := 0;
      assert bucket[..0] == [];
      while k < |bucket|
        invariant 0 <= k <= |bucket|
        invariant Valid()
        invariant ScanBucket(bucket[..k], verdict).outcome == Pass
        invariant potentialCards == AddAll(start, ScanBucket(bucket[..k], verdict).accepted)
      {
        var converterCard := bucket[k].0;
        var converterSet := bucket[k].1;
        ghost var accepted := ScanBucket(bucket[..k], verdict).accepted;
        ScanStep(bucket, verdict, k);
        CandidateVerdictIs(converterMappingNames, cardSet, bucket[k]);
        var converterCardNames := NameSegments(converterCard.name);
        var isNameMatch := NamesMatch(converterMappingNames, converterCardNames);
        var isSetMatch := true;
        if isNameMatch {
          var setMatch := SetLabelsMatch(converterSet.gameId, converterCard.setName, cardSet);
          if setMatch.Failure? {
            assert verdict(bucket[k]) == Failure(setMatch.error);
            ScanStaysFailed(bucket, verdict, k + 1);
            return Fail(setMatch.error);
          }
          isSetMatch := setMatch.value;
        }
        assert verdict(bucket[k]) == Success(isNameMatch && isSetMatch);
        if isNameMatch && isSetMatch {
          assert (accepted + [converterCard])[..|accepted|] == accepted;
          var _ := AddPotentialOCTGNCard(Some(converterCard));
        }
        k := k + 1;
      }
      assert bucket[..k] == bucket;
      return Pass;
    }
  }
}
