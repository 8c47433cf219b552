/** `ConverterMapping.NormalizeConverterCards`: the dictionary from the
    normalized first name of a card to every (card, set) pair of the sets
    that take part in searches. */
module ConverterIndex {
  import opened Wrappers
  import opened Text
  import opened Catalog
  import opened NameNormalization

  type Entry = (ConverterCard, ConverterSet)

  /** The normalized first non-empty `/` segment of a card name, or None
      when there is none (where `.First()` throws). */
  function FirstNameKey(name: string): Option<string> {
    var segments := Split(name, '/');
    if segments == [] then None else Some(NormalizeName(segments[0]))
  }

  /** How an entry is keyed. The index lemmas hold for any key function;
      `NormalizeConverterCards` uses `FirstNameKey`. */
  type KeyFunction = string -> Option<string>

  predicate HasKey(e: Entry, key: string, keyOf: KeyFunction) {
    keyOf(e.0.name) == Some(key)
  }

  /** The pairs one set contributes, in card order. */
  function SetEntries(cards: seq<ConverterCard>, s: ConverterSet): (r: seq<Entry>)
    ensures |r| == |cards|
    ensures forall j :: 0 <= j < |cards| ==> r[j] == (cards[j], s)
    decreases |cards|
  {
    if cards == [] then [] else SetEntries(cards[..|cards| - 1], s) + [(cards[|cards| - 1], s)]
  }

  /** Every pair the nested loops visit, in set-then-card order: only sets
      with `IncludeInSearches` add pairs. */
  function SearchEntries(sets: seq<ConverterSet>): seq<Entry>
    decreases |sets|
  {
    if sets == [] then []
    else
      var last := sets[|sets| - 1];
      SearchEntries(sets[..|sets| - 1]) + (if last.includeInSearches then SetEntries(last.converterCards, last) else [])
  }

  /** The entries with the given key, in the order they were visited. */
  function Bucket(entries: seq<Entry>, key: string, keyOf: KeyFunction): seq<Entry>
    decreases |entries|
  {
    if entries == [] then []
    else
      var last := entries[|entries| - 1];
      Bucket(entries[..|entries| - 1], key, keyOf) + (if HasKey(last, key, keyOf) then [last] else [])
  }

  predicate AllKeyed(entries: seq<Entry>, keyOf: KeyFunction) {
    forall e :: e in entries ==> keyOf(e.0.name).Some?
  }

  function KeysOf(entries: seq<Entry>, keyOf: KeyFunction): set<string> {
    set e | e in entries && keyOf(e.0.name).Some? :: keyOf(e.0.name).value
  }

  /** `m` is the dictionary built from `entries`: one key per first name
      that occurs, and under it exactly the entries with that key, in
      visiting order. */
  predicate IsIndexOf(m: CardIndex, entries: seq<Entry>, keyOf: KeyFunction) {
    && m.Keys == KeysOf(entries, keyOf)
    && forall key :: key in m ==> m[key] == Bucket(entries, key, keyOf)
  }

  lemma {:induction false} BucketOfAbsentKey(entries: seq<Entry>, key: string, keyOf: KeyFunction)
    requires key !in KeysOf(entries, keyOf)
    ensures Bucket(entries, key, keyOf) == []
    decreases |entries|
  {
    if entries != [] {
      var init := entries[..|entries| - 1];
      assert KeysOf(init, keyOf) <= KeysOf(entries, keyOf) by {
        assert forall x :: x in init ==> x in entries;
      }
      BucketOfAbsentKey(init, key, keyOf);
    }
  }

  /** One step of the inner loop: adding a keyed entry to its bucket. */
  lemma {:induction false} IndexOfAppend(m: CardIndex, entries: seq<Entry>, e: Entry, key: string, keyOf: KeyFunction)
    requires IsIndexOf(m, entries, keyOf)
    requires HasKey(e, key, keyOf)
    ensures IsIndexOf(m[key := (if key in m then m[key] else []) + [e]], entries + [e], keyOf)
  {
    var entries' := entries + [e];
    assert entries'[..|entries'| - 1] == entries;
    var m' := m[key := (if key in m then m[key] else []) + [e]];
    assert KeysOf(entries', keyOf) == KeysOf(entries, keyOf) + {key} by {
      assert forall x :: x in entries' <==> x in entries || x == e;
    }
    forall k | k in m' ensures m'[k] == Bucket(entries', k, keyOf) {
      if k != key {
        assert !HasKey(e, k, keyOf);
      } else if key !in m {
        BucketOfAbsentKey(entries, key, keyOf);
      }
    }
  }

  /** The whole effect of one inner iteration on the loop invariant. */
  lemma VisitCard(m: CardIndex, done: seq<Entry>, e: Entry, key: string, keyOf: KeyFunction)
    requires AllKeyed(done, keyOf) && IsIndexOf(m, done, keyOf)
    requires keyOf(e.0.name) == Some(key)
    ensures AllKeyed(done + [e], keyOf)
    ensures IsIndexOf(m[key := (if key in m then m[key] else []) + [e]], done + [e], keyOf)
  {
    IndexOfAppend(m, done, e, key, keyOf);
  }

  lemma {:induction false} EntriesOfPrefix(sets: seq<ConverterSet>, i: nat)
    requires i < |sets|
    ensures SearchEntries(sets[..i + 1]) ==
            SearchEntries(sets[..i]) + (if sets[i].includeInSearches then SetEntries(sets[i].converterCards, sets[i]) else [])
  {
    assert sets[..i + 1][..i] == sets[..i];
  }

  lemma {:induction false} SetEntriesPrefix(cards: seq<ConverterCard>, s: ConverterSet, j: nat)
    requires j < |cards|
    ensures SetEntries(cards[..j + 1], s) == SetEntries(cards[..j], s) + [(cards[j], s)]
  {
    assert cards[..j + 1][..j] == cards[..j];
  }

  /** Every card of an included set is visited. */
  lemma {:induction false} IncludedCardIsEntry(sets: seq<ConverterSet>, i: nat, j: nat)
    requires i < |sets| && sets[i].includeInSearches && j < |sets[i].converterCards|
    ensures (sets[i].converterCards[j], sets[i]) in SearchEntries(sets)
    decreases |sets|
  {
    var n := |sets| - 1;
    if i < n {
      assert sets[..n][i] == sets[i];
      IncludedCardIsEntry(sets[..n], i, j);
    } else {
      assert SetEntries(sets[i].converterCards, sets[i])[j] == (sets[i].converterCards[j], sets[i]);
    }
  }

  /** Creating a missing bucket and then appending to it is appending to
      the bucket, or to an empty one. */
  lemma BucketAppendInTwoSteps(m: CardIndex, key: string, e: Entry)
    ensures var created := if key in m then m else m[key := []];
            created[key := created[key] + [e]] == m[key := (if key in m then m[key] else []) + [e]]
  {
  }

  /** One iteration of the inner loop of `AddSetCards`, for a card with a key. */
  lemma AddSetCardsStep(index: CardIndex, before: seq<Entry>, visited: seq<Entry>, cards: seq<ConverterCard>,
                        s: ConverterSet, j: nat, key: string, keyOf: KeyFunction)
    requires j < |cards| && keyOf(cards[j].name) == Some(key)
    requires visited == before + SetEntries(cards[..j], s)
    requires AllKeyed(SetEntries(cards[..j], s), keyOf) && AllKeyed(visited, keyOf) && IsIndexOf(index, visited, keyOf)
    ensures visited + [(cards[j], s)] == before + SetEntries(cards[..j + 1], s)
    ensures AllKeyed(SetEntries(cards[..j + 1], s), keyOf) && AllKeyed(visited + [(cards[j], s)], keyOf)
    ensures IsIndexOf(index[key := (if key in index then index[key] else []) + [(cards[j], s)]], visited + [(cards[j], s)], keyOf)
  {
    var e := (cards[j], s);
    VisitCard(index, visited, e, key, keyOf);
    SetEntriesPrefix(cards, s, j);
    AllKeyedAppend(SetEntries(cards[..j], s), [e], keyOf);
  }

  /** The inner `foreach` of `NormalizeConverterCards`: adds the cards of
      one included set to the dictionary built so far. It stops with
      `Failure(InvalidOperation)` at the first card without a key. Written
      for any key function; `NormalizeConverterCards` passes `FirstNameKey`. */
  method AddSetCards(normalized: CardIndex, ghost before: seq<Entry>, converterSet: ConverterSet, keyOf: KeyFunction)
    returns (r: Result<CardIndex, Exception>)
    requires AllKeyed(before, keyOf) && IsIndexOf(normalized, before, keyOf)
    ensures r.Failure? <==> !AllKeyed(SetEntries(converterSet.converterCards, converterSet), keyOf)
    ensures r.Failure? ==> r.error == InvalidOperation
    ensures r.Success? ==> IsIndexOf(r.value, before + SetEntries(converterSet.converterCards, converterSet), keyOf)
  {
    var cards := converterSet.converterCards;
    var index := normalized;
    ghost var visited := before;
    var j := 0;
    assert cards[..0] == [];
    while j < |cards|
      invariant 0 <= j <= |cards|
      invariant visited == before + SetEntries(cards[..j], converterSet)
      invariant AllKeyed(SetEntries(cards[..j], converterSet), keyOf)
      invariant AllKeyed(visited, keyOf)
      invariant IsIndexOf(index, visited, keyOf)
    {
      var converterCard := cards[j];
      var firstNameKey := keyOf(converterCard.name);
      if firstNameKey.None? {
        assert SetEntries(cards, converterSet)[j] == (converterCard, converterSet);
        return Failure(InvalidOperation);
      }
      var normalizedFirstName := firstNameKey.value;
      AddSetCardsStep(index, before, visited, cards, converterSet, j, normalizedFirstName, keyOf);
      ghost var previous := index;
      if normalizedFirstName !in index {
        index := index[normalizedFirstName := []];
      }
      index := index[normalizedFirstName := index[normalizedFirstName] + [(converterCard, converterSet)]];
      BucketAppendInTwoSteps(previous, normalizedFirstName, (converterCard, converterSet));
      visited := visited + [(converterCard, converterSet)];
      j := j + 1;
    }
    assert cards[..j] == cards;
    return Success(index);
  }

  lemma AllKeyedAppend(xs: seq<Entry>, ys: seq<Entry>, keyOf: KeyFunction)
    ensures AllKeyed(xs + ys, keyOf) <==> AllKeyed(xs, keyOf) && AllKeyed(ys, keyOf)
  {
    assert forall e :: e in xs + ys <==> e in xs || e in ys;
  }

  /** The nested `foreach` of `NormalizeConverterCards`. It throws (here:
      returns `Failure(InvalidOperation)`) exactly when some card of an
      included set has no non-empty name segment; otherwise it returns the
      index of every visited pair. */
  method NormalizeConverterCards(converterSets: seq<ConverterSet>) returns (r: Result<CardIndex, Exception>)
    ensures r.Failure? <==> !AllKeyed(SearchEntries(converterSets), FirstNameKey)
    ensures r.Failure? ==> r.error == InvalidOperation
    ensures r.Success? ==> IsIndexOf(r.value, SearchEntries(converterSets), FirstNameKey)
  {
    var normalized: CardIndex := map[];
    var i := 0;
    while i < |converterSets|
      invariant 0 <= i <= |converterSets|
      invariant AllKeyed(SearchEntries(converterSets[..i]), FirstNameKey)
      invariant IsIndexOf(normalized, SearchEntries(converterSets[..i]), FirstNameKey)
    {
      var converterSet := converterSets[i];
      ghost var before := SearchEntries(converterSets[..i]);
      EntriesOfPrefix(converterSets, i);
      ghost var after := SearchEntries(converterSets[..i + 1]);
      if !converterSet.includeInSearches {
        assert after == before + [] == before;
      } else {
        var added := AddSetCards(normalized, before, converterSet, FirstNameKey);
        AllKeyedAppend(before, SetEntries(converterSet.converterCards, converterSet), FirstNameKey);
        if added.Failure? {
          PrefixNotKeyed(converterSets, i + 1);
          return Failure(added.error);
        }
        normalized := added.value;
      }
      i := i + 1;
    }
    assert converterSets[..i] == converterSets;
    return Success(normalized);
  }

  /** A card without a key in the first `n` sets is a card without a key
      among all of them. */
  lemma {:induction false} PrefixNotKeyed(sets: seq<ConverterSet>, n: nat)
    requires n <= |sets|
    requires !AllKeyed(SearchEntries(sets[..n]), FirstNameKey)
    ensures !AllKeyed(SearchEntries(sets), FirstNameKey)
    decreases |sets| - n
  {
    if n < |sets| {
      EntriesOfPrefix(sets, n);
      AllKeyedAppend(SearchEntries(sets[..n]), if sets[n].includeInSearches then SetEntries(sets[n].converterCards, sets[n]) else [], FirstNameKey);
      PrefixNotKeyed(sets, n + 1);
    } else {
      assert sets[..n] == sets;
    }
  }

  // Properties of the dictionary `NormalizeConverterCards` returns.

  /** Only cards of included sets are visited, each paired with its own set. */
  lemma {:induction false} EntriesComeFromIncludedSets(sets: seq<ConverterSet>, e: Entry)
    requires e in SearchEntries(sets)
    ensures e.1 in sets && e.1.includeInSearches && e.0 in e.1.converterCards
    decreases |sets|
  {
    var n := |sets| - 1;
    var last := sets[n];
    var tail := if last.includeInSearches then SetEntries(last.converterCards, last) else [];
    assert SearchEntries(sets) == SearchEntries(sets[..n]) + tail;
    if e in SearchEntries(sets[..n]) {
      EntriesComeFromIncludedSets(sets[..n], e);
      assert e.1 in sets[..n];
    } else {
      assert e in tail;
      var j :| 0 <= j < |tail| && tail[j] == e;
      assert e == (last.converterCards[j], last);
    }
  }

  /** A dictionary built from `entries` holds exactly the visited pairs
      with a given key, so a pair is in the bucket of its own key and in
      no other. */
  lemma {:induction false} BucketMembership(entries: seq<Entry>, key: string, keyOf: KeyFunction, e: Entry)
    ensures e in Bucket(entries, key, keyOf) <==> e in entries && HasKey(e, key, keyOf)
    decreases |entries|
  {
    if entries != [] {
      var init := entries[..|entries| - 1];
      assert entries == init + [entries[|entries| - 1]];
      BucketMembership(init, key, keyOf, e);
    }
  }

  /** Pairs are neither duplicated nor lost: a pair occurs in the bucket of
      its key as often as it was visited. */
  lemma {:induction false} BucketMultiplicity(entries: seq<Entry>, key: string, keyOf: KeyFunction, e: Entry)
    ensures multiset(Bucket(entries, key, keyOf))[e] == if HasKey(e, key, keyOf) then multiset(entries)[e] else 0
    decreases |entries|
  {
    if entries != [] {
      var init := entries[..|entries| - 1];
      assert entries == init + [entries[|entries| - 1]];
      BucketMultiplicity(init, key, keyOf, e);
    }
  }

  /** Buckets keep visiting order: the pairs of earlier sets come first. */
  lemma {:induction false} BucketAppend(xs: seq<Entry>, ys: seq<Entry>, key: string, keyOf: KeyFunction)
    ensures Bucket(xs + ys, key, keyOf) == Bucket(xs, key, keyOf) + Bucket(ys, key, keyOf)
    decreases |ys|
  {
    if ys == [] {
      assert xs + ys == xs;
    } else {
      var init := ys[..|ys| - 1];
      assert (xs + ys)[..|xs + ys| - 1] == xs + init;
      assert (xs + ys)[|xs + ys| - 1] == ys[|ys| - 1];
      BucketAppend(xs, init, key, keyOf);
    }
  }

  /** In a dictionary built from `entries`, every keyed pair is found under
      its key. */
  lemma IndexFindsEntry(m: CardIndex, entries: seq<Entry>, keyOf: KeyFunction, e: Entry, key: string)
    requires IsIndexOf(m, entries, keyOf)
    requires e in entries && keyOf(e.0.name) == Some(key)
    ensures key in m && e in m[key]
  {
    assert key in KeysOf(entries, keyOf);
    BucketMembership(entries, key, keyOf, e);
  }

  /** In the dictionary `NormalizeConverterCards` returns, every card of
      an included set is found, with its set, under its own first name. */
  lemma IncludedCardIsIndexed(m: CardIndex, sets: seq<ConverterSet>, i: nat, j: nat)
    requires IsIndexOf(m, SearchEntries(sets), FirstNameKey)
    requires i < |sets| && sets[i].includeInSearches && j < |sets[i].converterCards|
    requires FirstNameKey(sets[i].converterCards[j].name).Some?
    ensures var key := FirstNameKey(sets[i].converterCards[j].name).value;
            key in m && (sets[i].converterCards[j], sets[i]) in m[key]
  {
    IncludedCardIsEntry(sets, i, j);
    IndexFindsEntry(m, SearchEntries(sets), FirstNameKey, (sets[i].converterCards[j], sets[i]),
                    FirstNameKey(sets[i].converterCards[j].name).value);
  }

  /** Every bucket of a dictionary built from `entries` holds only pairs
      of `entries` with that bucket's key. */
  lemma IndexBucketsAreKeyed(m: CardIndex, entries: seq<Entry>, keyOf: KeyFunction, key: string, e: Entry)
    requires IsIndexOf(m, entries, keyOf)
    requires key in m && e in m[key]
    ensures e in entries && keyOf(e.0.name) == Some(key)
  {
    BucketMembership(entries, key, keyOf, e);
  }

  /** No bucket of a dictionary built from `entries` is empty: a key is
      created only for a card that is then appended under it. */
  lemma IndexBucketsAreNonEmpty(m: CardIndex, entries: seq<Entry>, keyOf: KeyFunction, key: string)
    requires IsIndexOf(m, entries, keyOf)
    requires key in m
    ensures m[key] != []
  {
    assert key in KeysOf(entries, keyOf);
    var e :| e in entries && keyOf(e.0.name).Some? && keyOf(e.0.name).value == key;
    BucketMembership(entries, key, keyOf, e);
  }

  /** The number of cards in included sets. */
  function IncludedCardCount(sets: seq<ConverterSet>): nat
    decreases |sets|
  {
    if sets == [] then 0
    else
      var last := sets[|sets| - 1];
      IncludedCardCount(sets[..|sets| - 1]) + (if last.includeInSearches then |last.converterCards| else 0)
  }

  lemma {:induction false} SearchEntriesCount(sets: seq<ConverterSet>)
    ensures |SearchEntries(sets)| == IncludedCardCount(sets)
    decreases |sets|
  {
    if sets != [] {
      SearchEntriesCount(sets[..|sets| - 1]);
    }
  }

  predicate KeyIn(e: Entry, keys: set<string>, keyOf: KeyFunction) {
    keyOf(e.0.name).Some? && keyOf(e.0.name).value in keys
  }

  /** The visited pairs whose key is one of `keys`. */
  function WithKeyIn(entries: seq<Entry>, keys: set<string>, keyOf: KeyFunction): seq<Entry>
    decreases |entries|
  {
    if entries == [] then []
    else
      var last := entries[|entries| - 1];
      WithKeyIn(entries[..|entries| - 1], keys, keyOf) + (if KeyIn(last, keys, keyOf) then [last] else [])
  }

  lemma {:induction false} WithKeyInSplit(entries: seq<Entry>, keys: set<string>, key: string, keyOf: KeyFunction)
    requires key in keys
    ensures |WithKeyIn(entries, keys, keyOf)| == |Bucket(entries, key, keyOf)| + |WithKeyIn(entries, keys - {key}, keyOf)|
    decreases |entries|
  {
    if entries != [] {
      WithKeyInSplit(entries[..|entries| - 1], keys, key, keyOf);
    }
  }

  lemma WithAllKeys(entries: seq<Entry>, keyOf: KeyFunction)
    requires AllKeyed(entries, keyOf)
    ensures WithKeyIn(entries, KeysOf(entries, keyOf), keyOf) == entries
  {
    forall k | 0 <= k < |entries| ensures KeyIn(entries[k], KeysOf(entries, keyOf), keyOf) {
      assert entries[k] in entries;
    }
    WithKeysCovering(entries, KeysOf(entries, keyOf), keyOf);
  }

  lemma {:induction false} WithKeysCovering(entries: seq<Entry>, keys: set<string>, keyOf: KeyFunction)
    requires forall k :: 0 <= k < |entries| ==> KeyIn(entries[k], keys, keyOf)
    ensures WithKeyIn(entries, keys, keyOf) == entries
    decreases |entries|
  {
    if entries != [] {
      var n := |entries| - 1;
      var init := entries[..n];
      assert forall k :: 0 <= k < |init| ==> init[k] == entries[k];
      WithKeysCovering(init, keys, keyOf);
      assert KeyIn(entries[n], keys, keyOf);
      assert entries == init + [entries[n]];
    }
  }

  /** The total size of the buckets of `m` under `keys`. */
  ghost function BucketSizes(m: CardIndex, keys: set<string>): nat
    requires keys <= m.Keys
    decreases keys
  {
    if keys == {} then 0
    else
      var key :| key in keys;
      |m[key]| + BucketSizes(m, keys - {key})
  }

  lemma {:induction false} BucketSizesCount(m: CardIndex, entries: seq<Entry>, keyOf: KeyFunction, keys: set<string>)
    requires IsIndexOf(m, entries, keyOf) && keys <= m.Keys
    ensures BucketSizes(m, keys) == |WithKeyIn(entries, keys, keyOf)|
    decreases keys
  {
    if keys == {} {
      WithKeysNone(entries, keyOf);
    } else {
      var key :| key in keys && BucketSizes(m, keys) == |m[key]| + BucketSizes(m, keys - {key});
      BucketSizesCount(m, entries, keyOf, keys - {key});
      WithKeyInSplit(entries, keys, key, keyOf);
    }
  }

  lemma {:induction false} WithKeysNone(entries: seq<Entry>, keyOf: KeyFunction)
    ensures WithKeyIn(entries, {}, keyOf) == []
    decreases |entries|
  {
    if entries != [] {
      WithKeysNone(entries[..|entries| - 1], keyOf);
    }
  }

  /** All buckets together hold as many pairs as the included sets have
      cards. */
  lemma IndexSizeIsIncludedCardCount(m: CardIndex, sets: seq<ConverterSet>)
    requires IsIndexOf(m, SearchEntries(sets), FirstNameKey)
    requires AllKeyed(SearchEntries(sets), FirstNameKey)
    ensures BucketSizes(m, m.Keys) == IncludedCardCount(sets)
  {
    BucketSizesCount(m, SearchEntries(sets), FirstNameKey, m.Keys);
    WithAllKeys(SearchEntries(sets), FirstNameKey);
    SearchEntriesCount(sets);
  }
}
