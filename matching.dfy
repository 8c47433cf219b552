/** What `PopulateWithPotentialCards` does, as values: the normalized name
    segments, the overlap test between two name lists, the scan of one
    dictionary bucket, and the resulting candidate list. */
module Matching {
  import opened Wrappers
  import opened Text
  import opened Catalog
  import opened NameNormalization
  import opened SetMatching
  import opened ConverterIndex
  import opened Candidates

  /** The LINQ `select` over the name segments, for any per-segment map. */
  function SelectAll(segments: seq<string>, f: string -> string): seq<string>
    decreases |segments|
  {
    if segments == [] then []
    else SelectAll(segments[..|segments| - 1], f) + [f(segments[|segments| - 1])]
  }

  lemma {:induction false} SelectAllAt(segments: seq<string>, f: string -> string)
    ensures |SelectAll(segments, f)| == |segments|
    ensures forall i :: 0 <= i < |segments| ==> SelectAll(segments, f)[i] == f(segments[i])
    decreases |segments|
  {
    if segments != [] {
      var init := segments[..|segments| - 1];
      SelectAllAt(init, f);
      assert SelectAll(segments, f) == SelectAll(init, f) + [f(segments[|segments| - 1])];
      forall i | 0 <= i < |segments| ensures SelectAll(segments, f)[i] == f(segments[i]) {
        if i < |init| {
          assert segments[i] == init[i];
        }
      }
    }
  }

  function NormalizeAll(segments: seq<string>): seq<string> {
    SelectAll(segments, NormalizeName)
  }

  /** The normalized names of a card or a deck line: one per non-empty
      `/` segment, in order. */
  function NameSegments(name: string): seq<string> {
    NormalizeAll(Split(name, '/'))
  }

  lemma NormalizeAllAt(segments: seq<string>)
    ensures |NormalizeAll(segments)| == |segments|
    ensures forall i :: 0 <= i < |segments| ==> NormalizeAll(segments)[i] == NormalizeName(segments[i])
  {
    SelectAllAt(segments, NormalizeName);
  }

  /** The first name segment is the dictionary key of `NormalizeConverterCards`,
      and there is none exactly when `.First()` throws. */
  lemma NameSegmentsFirst(name: string)
    ensures NameSegments(name) == [] <==> FirstNameKey(name).None?
    ensures NameSegments(name) != [] ==> NameSegments(name)[0] == FirstNameKey(name).value
  {
    NormalizeAllAt(Split(name, '/'));
  }

  /** Two name lists match when they agree wherever both have a name. */
  predicate NamesAgree(cardNames: seq<string>, mappingNames: seq<string>) {
    forall i :: 0 <= i < |cardNames| && i < |mappingNames| ==> cardNames[i] == mappingNames[i]
  }

  /** The comparison loop of `PopulateWithPotentialCards`. */
  method NamesMatch(mappingNames: seq<string>, cardNames: seq<string>) returns (isNameMatch: bool)
    ensures isNameMatch <==> NamesAgree(cardNames, mappingNames)
  {
    var numIndexToCompare := if |mappingNames| < |cardNames| then |mappingNames| else |cardNames|;
    isNameMatch := true;
    var i := 0;
    while i < numIndexToCompare
      invariant 0 <= i <= numIndexToCompare
      invariant isNameMatch
      invariant forall k :: 0 <= k < i ==> cardNames[k] == mappingNames[k]
    {
      if cardNames[i] != mappingNames[i] {
        isNameMatch := false;
        break;
      }
      i := i + 1;
    }
  }

  /** How one visited pair is judged: not a match, a match, or an error. */
  type Verdict = Entry -> Result<bool, Exception>

  /** The verdict for a deck line with names `mappingNames` and set label
      `mappingSet`: names first, then the LoTR set check. */
  function CandidateVerdict(mappingNames: seq<string>, mappingSet: string): Verdict {
    (e: Entry) =>
      if !NamesAgree(NameSegments(e.0.name), mappingNames) then Success(false)
      else SetLabelsMatch(e.1.gameId, e.0.setName, mappingSet)
  }

  datatype Scan = Scan(accepted: seq<ConverterCard>, outcome: Outcome<Exception>)

  /** The `foreach` over one bucket: the cards accepted, in order, up to
      the first pair whose verdict throws. */
  function ScanBucket(bucket: seq<Entry>, verdict: Verdict): Scan
    decreases |bucket|
  {
    if bucket == [] then Scan([], Pass)
    else
      var prev := ScanBucket(bucket[..|bucket| - 1], verdict);
      var last := bucket[|bucket| - 1];
      if prev.outcome.Fail? then prev
      else
        match verdict(last)
        case Failure(error) => Scan(prev.accepted, Fail(error))
        case Success(true) => Scan(prev.accepted + [last.0], Pass)
        case Success(false) => prev
  }

  /** One more pair, while the scan still runs. */
  lemma ScanStep(bucket: seq<Entry>, verdict: Verdict, k: nat)
    requires k < |bucket| && ScanBucket(bucket[..k], verdict).outcome == Pass
    ensures ScanBucket(bucket[..k + 1], verdict) ==
            match verdict(bucket[k])
            case Failure(error) => Scan(ScanBucket(bucket[..k], verdict).accepted, Fail(error))
            case Success(true) => Scan(ScanBucket(bucket[..k], verdict).accepted + [bucket[k].0], Pass)
            case Success(false) => ScanBucket(bucket[..k], verdict)
  {
    assert bucket[..k + 1][..k] == bucket[..k];
  }

  /** Once a verdict throws, the rest of the bucket is not looked at. */
  lemma {:induction false} ScanStaysFailed(bucket: seq<Entry>, verdict: Verdict, n: nat)
    requires n <= |bucket| && ScanBucket(bucket[..n], verdict).outcome.Fail?
    ensures ScanBucket(bucket, verdict) == ScanBucket(bucket[..n], verdict)
    decreases |bucket| - n
  {
    if n == |bucket| {
      assert bucket[..n] == bucket;
    } else {
      assert bucket[..n + 1][..n] == bucket[..n];
      ScanStaysFailed(bucket, verdict, n + 1);
    }
  }

  lemma CandidateVerdictIs(mappingNames: seq<string>, mappingSet: string, e: Entry)
    ensures CandidateVerdict(mappingNames, mappingSet)(e) ==
            if !NamesAgree(NameSegments(e.0.name), mappingNames) then Success(false)
            else SetLabelsMatch(e.1.gameId, e.0.setName, mappingSet)
  {
  }

  /** Every accepted card comes from a pair of the bucket judged a match. */
  lemma {:induction false} ScanAcceptsOnlyMatches(bucket: seq<Entry>, verdict: Verdict, c: ConverterCard)
    requires c in ScanBucket(bucket, verdict).accepted
    ensures exists e :: e in bucket && e.0 == c && verdict(e) == Success(true)
    decreases |bucket|
  {
    var init := bucket[..|bucket| - 1];
    var last := bucket[|bucket| - 1];
    assert forall e :: e in init ==> e in bucket;
    if c in ScanBucket(init, verdict).accepted {
      ScanAcceptsOnlyMatches(init, verdict, c);
    } else {
      assert c == last.0 && verdict(last) == Success(true);
    }
  }

  /** A scan that ran to the end accepted every matching pair. */
  lemma {:induction false} ScanPassAcceptsAll(bucket: seq<Entry>, verdict: Verdict, e: Entry)
    requires ScanBucket(bucket, verdict).outcome == Pass
    requires e in bucket && verdict(e) == Success(true)
    ensures e.0 in ScanBucket(bucket, verdict).accepted
    decreases |bucket|
  {
    var init := bucket[..|bucket| - 1];
    var last := bucket[|bucket| - 1];
    assert bucket == init + [last];
    if e != last {
      ScanPassAcceptsAll(init, verdict, e);
    }
  }

  /** The scan runs to the end exactly when no verdict throws, and when it
      stops, it reports the error of a pair of the bucket. */
  lemma {:induction false} ScanOutcome(bucket: seq<Entry>, verdict: Verdict)
    ensures ScanBucket(bucket, verdict).outcome == Pass <==> forall e :: e in bucket ==> verdict(e).Success?
    ensures ScanBucket(bucket, verdict).outcome.Fail? ==>
              exists e :: e in bucket && verdict(e) == Failure(ScanBucket(bucket, verdict).outcome.error)
    decreases |bucket|
  {
    if bucket != [] {
      var init := bucket[..|bucket| - 1];
      assert bucket == init + [bucket[|bucket| - 1]];
      ScanOutcome(init, verdict);
    }
  }

  /** The candidate list after `AddPotentialOCTGNCard` of each card in turn. */
  function AddAll(s: seq<ConverterCard>, cards: seq<ConverterCard>): seq<ConverterCard>
    decreases |cards|
  {
    if cards == [] then s else Added(AddAll(s, cards[..|cards| - 1]), cards[|cards| - 1])
  }

  /** Adding cards loses none and brings in only those added. */
  lemma {:induction false} AddAllContents(s: seq<ConverterCard>, cards: seq<ConverterCard>, c: ConverterCard)
    ensures c in AddAll(s, cards) <==> c in s || c in cards
    decreases |cards|
  {
    if cards != [] {
      var init := cards[..|cards| - 1];
      assert cards == init + [cards[|cards| - 1]];
      AddAllContents(s, init, c);
      AddedMultiset(AddAll(s, init), cards[|cards| - 1]);
      assert c in AddAll(s, cards) <==> c in AddAll(s, init) || c == cards[|cards| - 1];
    }
  }

  lemma {:induction false} AddAllDistinct(s: seq<ConverterCard>, cards: seq<ConverterCard>)
    requires Distinct(s)
    ensures Distinct(AddAll(s, cards))
    decreases |cards|
  {
    if cards != [] {
      AddAllDistinct(s, cards[..|cards| - 1]);
      AddedDistinct(AddAll(s, cards[..|cards| - 1]), cards[|cards| - 1]);
    }
  }

  /** The candidate list and the outcome after `PopulateWithPotentialCards`
      on a list `s`, for the deck line `cardName`/`cardSet` and the
      dictionary `index`. */
  function Populated(s: seq<ConverterCard>, cardName: string, cardSet: string, index: CardIndex): (seq<ConverterCard>, Outcome<Exception>) {
    var names := NameSegments(cardName);
    if names == [] then (s, Fail(InvalidOperation))
    else if names[0] !in index then (s, Pass)
    else
      var scan := ScanBucket(index[names[0]], CandidateVerdict(names, cardSet));
      (AddAll(s, scan.accepted), scan.outcome)
  }

  lemma PopulatedScans(s: seq<ConverterCard>, cardName: string, cardSet: string, index: CardIndex)
    requires NameSegments(cardName) != [] && NameSegments(cardName)[0] in index
    ensures var names := NameSegments(cardName);
            var scan := ScanBucket(index[names[0]], CandidateVerdict(names, cardSet));
            Populated(s, cardName, cardSet, index) == (AddAll(s, scan.accepted), scan.outcome)
  {
  }

  // Properties of `PopulateWithPotentialCards`, through `Populated`.

  /** A card name without a name segment throws before anything changes. */
  lemma PopulateWithoutNameThrows(s: seq<ConverterCard>, cardName: string, cardSet: string, index: CardIndex)
    requires FirstNameKey(cardName).None?
    ensures Populated(s, cardName, cardSet, index) == (s, Fail(InvalidOperation))
  {
    NameSegmentsFirst(cardName);
  }

  /** When no card has the line's first name, nothing changes. */
  lemma PopulateWithoutKeyIsNoOp(s: seq<ConverterCard>, cardName: string, cardSet: string, index: CardIndex)
    requires FirstNameKey(cardName).Some? && FirstNameKey(cardName).value !in index
    ensures Populated(s, cardName, cardSet, index) == (s, Pass)
  {
    NameSegmentsFirst(cardName);
  }

  /** What a new card must satisfy: it comes from the bucket of the line's
      first name, its names agree with the line's names on the shorter
      of the two lists, and the set check passes. */
  predicate IsMatch(e: Entry, cardName: string, cardSet: string, index: CardIndex) {
    && FirstNameKey(cardName).Some?
    && FirstNameKey(cardName).value in index
    && e in index[FirstNameKey(cardName).value]
    && NamesAgree(NameSegments(e.0.name), NameSegments(cardName))
    && SetLabelsMatch(e.1.gameId, e.0.setName, cardSet) == Success(true)
  }

  lemma VerdictTrueIsMatch(cardName: string, cardSet: string, index: CardIndex, e: Entry)
    requires NameSegments(cardName) != [] && NameSegments(cardName)[0] in index
    requires e in index[NameSegments(cardName)[0]]
    ensures CandidateVerdict(NameSegments(cardName), cardSet)(e) == Success(true) <==> IsMatch(e, cardName, cardSet, index)
  {
    NameSegmentsFirst(cardName);
    CandidateVerdictIs(NameSegments(cardName), cardSet, e);
  }

  /** Every card the call adds is a match. */
  lemma PopulateAddsOnlyMatches(s: seq<ConverterCard>, cardName: string, cardSet: string, index: CardIndex, c: ConverterCard)
    requires c in Populated(s, cardName, cardSet, index).0 && c !in s
    ensures exists e: Entry :: e.0 == c && IsMatch(e, cardName, cardSet, index)
  {
    var names := NameSegments(cardName);
    NameSegmentsFirst(cardName);
    var verdict := CandidateVerdict(names, cardSet);
    var bucket := index[names[0]];
    var scan := ScanBucket(bucket, verdict);
    AddAllContents(s, scan.accepted, c);
    ScanAcceptsOnlyMatches(bucket, verdict, c);
    var e :| e in bucket && e.0 == c && verdict(e) == Success(true);
    VerdictTrueIsMatch(cardName, cardSet, index, e);
  }

  /** A call that does not throw adds every match. */
  lemma PopulateAddsEveryMatch(s: seq<ConverterCard>, cardName: string, cardSet: string, index: CardIndex, e: Entry)
    requires Populated(s, cardName, cardSet, index).1 == Pass
    requires IsMatch(e, cardName, cardSet, index)
    ensures e.0 in Populated(s, cardName, cardSet, index).0
  {
    var names := NameSegments(cardName);
    NameSegmentsFirst(cardName);
    var verdict := CandidateVerdict(names, cardSet);
    var bucket := index[names[0]];
    VerdictTrueIsMatch(cardName, cardSet, index, e);
    ScanPassAcceptsAll(bucket, verdict, e);
    AddAllContents(s, ScanBucket(bucket, verdict).accepted, e.0);
  }

  /** No card is lost and none is listed twice. */
  lemma PopulateKeepsCards(s: seq<ConverterCard>, cardName: string, cardSet: string, index: CardIndex)
    ensures forall c :: c in s ==> c in Populated(s, cardName, cardSet, index).0
    ensures Distinct(s) ==> Distinct(Populated(s, cardName, cardSet, index).0)
  {
    var names := NameSegments(cardName);
    if names != [] && names[0] in index {
      var scan := ScanBucket(index[names[0]], CandidateVerdict(names, cardSet));
      forall c | c in s ensures c in AddAll(s, scan.accepted) {
        AddAllContents(s, scan.accepted, c);
      }
      if Distinct(s) {
        AddAllDistinct(s, scan.accepted);
      }
    }
  }

  /** The call throws `InvalidOperation` exactly when the card name has no
      name segment; any other throw is an `ArgumentOutOfRange` from the set
      check of a pair whose names agree. */
  lemma PopulateErrors(s: seq<ConverterCard>, cardName: string, cardSet: string, index: CardIndex)
    ensures Populated(s, cardName, cardSet, index).1 == Fail(InvalidOperation) <==> FirstNameKey(cardName).None?
    ensures Populated(s, cardName, cardSet, index).1.Fail? && FirstNameKey(cardName).Some? ==>
              && Populated(s, cardName, cardSet, index).1 == Fail(ArgumentOutOfRange)
              && FirstNameKey(cardName).value in index
              && exists e :: && e in index[FirstNameKey(cardName).value]
                             && NamesAgree(NameSegments(e.0.name), NameSegments(cardName))
                             && SetLabelsMatch(e.1.gameId, e.0.setName, cardSet).Failure?
  {
    var names := NameSegments(cardName);
    NameSegmentsFirst(cardName);
    if names != [] && names[0] in index {
      var verdict := CandidateVerdict(names, cardSet);
      var bucket := index[names[0]];
      ScanOutcome(bucket, verdict);
      var outcome := ScanBucket(bucket, verdict).outcome;
      if outcome.Fail? {
        var e :| e in bucket && verdict(e) == Failure(outcome.error);
        CandidateVerdictIs(names, cardSet, e);
        assert outcome.error == ArgumentOutOfRange;
      }
    }
  }

  /** With the dictionary `NormalizeConverterCards` builds, every added card
      is a card of an included set and has the line's first name. */
  lemma PopulateFromBuiltIndex(s: seq<ConverterCard>, cardName: string, cardSet: string, sets: seq<ConverterSet>, index: CardIndex, c: ConverterCard)
    requires IsIndexOf(index, SearchEntries(sets), FirstNameKey)
    requires c in Populated(s, cardName, cardSet, index).0 && c !in s
    ensures exists e :: && e in SearchEntries(sets) && e.0 == c
                        && e.1 in sets && e.1.includeInSearches && c in e.1.converterCards
                        && FirstNameKey(c.name) == FirstNameKey(cardName)
  {
    PopulateAddsOnlyMatches(s, cardName, cardSet, index, c);
    var e: Entry :| e.0 == c && IsMatch(e, cardName, cardSet, index);
    IndexBucketsAreKeyed(index, SearchEntries(sets), FirstNameKey, FirstNameKey(cardName).value, e);
    EntriesComeFromIncludedSets(sets, e);
  }
}
