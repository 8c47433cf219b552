/** The set-label check of `PopulateWithPotentialCards`: for The Lord of
    the Rings card game only, a candidate must come from the set the
    imported record names, after a "The Hobbit" and a "The " prefix have
    been cut from each label. */
module SetMatching {
  import opened Wrappers
  import opened Text
  import opened Catalog
  import NameNormalization

  const HobbitPrefix: string := "The Hobbit"

  /** What `Substring(13)` cuts once a label starts with `HobbitPrefix`:
      the length of "The Hobbit - ", three more than the prefix tested. */
  const HobbitCut: nat := 13

  const ThePrefix: string := "The "

  /** The prefix cutting applied to one label. `Substring(13)` throws when
      the label starts with "The Hobbit" but has fewer than 13 characters. */
  function StripSetPrefixes(setLabel: string): (r: Result<string, Exception>)
    ensures r.Failure? <==> StartsWithIgnoreCase(setLabel, HobbitPrefix) && |setLabel| < HobbitCut
    ensures r.Failure? ==> r.error == ArgumentOutOfRange
    ensures r.Success? ==> |r.value| <= |setLabel| && r.value == setLabel[|setLabel| - |r.value|..]
  {
    var afterHobbit :- if StartsWithIgnoreCase(setLabel, HobbitPrefix) then
                         (if |setLabel| >= HobbitCut then Success(setLabel[HobbitCut..]) else Failure(ArgumentOutOfRange))
                       else Success(setLabel);
    Success(if StartsWithIgnoreCase(afterHobbit, ThePrefix) then afterHobbit[|ThePrefix|..] else afterHobbit)
  }

  /** Whether the check is skipped: the record names no set, or the
      candidate's set is not a LoTR set. */
  predicate SetCheckSkipped(gameId: GameId, mappingSetLabel: string) {
    IsNullOrWhiteSpace(mappingSetLabel) || gameId != LotrGameId
  }

  /** `isSetMatch` for a candidate whose name already matched: the
      candidate's set label against the record's, both cut and normalized. */
  function SetLabelsMatch(gameId: GameId, cardSetLabel: string, mappingSetLabel: string): (r: Result<bool, Exception>)
    ensures SetCheckSkipped(gameId, mappingSetLabel) ==> r == Success(true)
    ensures r.Failure? <==> !SetCheckSkipped(gameId, mappingSetLabel) &&
                            (StripSetPrefixes(cardSetLabel).Failure? || StripSetPrefixes(mappingSetLabel).Failure?)
    ensures r.Failure? ==> r.error == ArgumentOutOfRange
  {
    if SetCheckSkipped(gameId, mappingSetLabel) then Success(true)
    else
      var cardSet :- StripSetPrefixes(cardSetLabel);
      var mappingSet :- StripSetPrefixes(mappingSetLabel);
      Success(NameNormalization.NormalizeName(cardSet) == NameNormalization.NormalizeName(mappingSet))
  }

  /** A label that survives the cutting matches itself. */
  lemma SetLabelsMatchReflexive(gameId: GameId, setLabel: string)
    requires StripSetPrefixes(setLabel).Success?
    ensures SetLabelsMatch(gameId, setLabel, setLabel) == Success(true)
  {
  }

  /** "The Hobbit - X" and "X" name the same set, when X does not itself
      start with "The Hobbit". */
  lemma HobbitDashAlias(x: string)
    requires !StartsWithIgnoreCase(x, HobbitPrefix)
    ensures SetLabelsMatch(LotrGameId, "The Hobbit - " + x, x) == Success(true)
  {
    var setLabel := "The Hobbit - " + x;
    assert StartsWithIgnoreCase(setLabel, HobbitPrefix) by {
      assert forall i :: 0 <= i < |HobbitPrefix| ==> setLabel[i] == HobbitPrefix[i];
    }
    assert setLabel[HobbitCut..] == x;
    assert StripSetPrefixes(setLabel) == StripSetPrefixes(x);
  }

  lemma HobbitAfterThe(x: string)
    requires StartsWithIgnoreCase(ThePrefix + x, HobbitPrefix)
    ensures StartsWithIgnoreCase(x, "Hobbit")
  {
    var setLabel := ThePrefix + x;
    forall i | 0 <= i < 6 ensures ToLowerChar(x[i]) == ToLowerChar("Hobbit"[i]) {
      assert setLabel[i + 4] == x[i];
      assert HobbitPrefix[i + 4] == "Hobbit"[i];
    }
  }

  lemma HobbitStartsWithThe(x: string)
    requires StartsWithIgnoreCase(x, HobbitPrefix)
    ensures StartsWithIgnoreCase(x, ThePrefix)
  {
    assert forall i :: 0 <= i < |ThePrefix| ==> HobbitPrefix[i] == ThePrefix[i];
  }

  lemma StripTheExample(x: string)
    requires !StartsWithIgnoreCase(x, ThePrefix)
    requires !StartsWithIgnoreCase(x, "Hobbit")
    ensures StripSetPrefixes(ThePrefix + x) == Success(x)
  {
    var setLabel := ThePrefix + x;
    if StartsWithIgnoreCase(setLabel, HobbitPrefix) {
      HobbitAfterThe(x);
      assert false;
    }
    assert StartsWithIgnoreCase(setLabel, ThePrefix) by {
      assert forall i :: 0 <= i < |ThePrefix| ==> setLabel[i] == ThePrefix[i];
    }
    assert setLabel[|ThePrefix|..] == x;
  }

  lemma StripPlainExample(x: string)
    requires !StartsWithIgnoreCase(x, ThePrefix)
    ensures StripSetPrefixes(x) == Success(x)
  {
    if StartsWithIgnoreCase(x, HobbitPrefix) {
      HobbitStartsWithThe(x);
      assert false;
    }
  }

  /** "The X" and "X" name the same set, when X starts neither with
      "The " nor with "Hobbit". */
  lemma TheAlias(x: string)
    requires !StartsWithIgnoreCase(x, ThePrefix)
    requires !StartsWithIgnoreCase(x, "Hobbit")
    ensures SetLabelsMatch(LotrGameId, ThePrefix + x, x) == Success(true)
  {
    StripTheExample(x);
    StripPlainExample(x);
  }

  /** A label written "The Hobbit: X" has only 12 characters before X, so
      the cut also takes the first letter of X. */
  lemma HobbitColonLosesALetter()
    ensures StripSetPrefixes("The Hobbit: On the Doorstep") == Success("n the Doorstep")
  {
    var setLabel := "The Hobbit: On the Doorstep";
    assert StartsWithIgnoreCase(setLabel, HobbitPrefix);
    assert setLabel[HobbitCut..] == "n the Doorstep";
    var rest := "n the Doorstep";
    assert ToLowerChar(rest[0]) != ToLowerChar(ThePrefix[0]);
  }

  /** A LoTR label that is exactly "The Hobbit" makes the check throw as
      soon as the record names a set. */
  lemma BareHobbitLabelThrows(mappingSetLabel: string)
    requires !IsNullOrWhiteSpace(mappingSetLabel)
    ensures SetLabelsMatch(LotrGameId, HobbitPrefix, mappingSetLabel) == Failure(ArgumentOutOfRange)
  {
    assert StartsWithIgnoreCase(HobbitPrefix, HobbitPrefix);
  }
}
