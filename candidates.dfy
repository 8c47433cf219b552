/** The potential-card list of a `ConverterMapping` as a value: where
    `AddPotentialOCTGNCard` inserts, what `RemovePotentialOCTGNCard` takes
    out, and which card `AutoSelectPotentialOCTGNCard` picks. */
module Candidates {
  import opened Catalog

  predicate Distinct(s: seq<ConverterCard>) {
    forall i, j :: 0 <= i < j < |s| ==> s[i] != s[j]
  }

  function InsertAt(s: seq<ConverterCard>, p: nat, c: ConverterCard): seq<ConverterCard>
    requires p <= |s|
  {
    s[..p] + [c] + s[p..]
  }

  /** How many leading cards have a MultiverseID of at most `key`: where
      the index loop of `AddPotentialOCTGNCard` stops. */
  function LeadingRun(s: seq<ConverterCard>, key: int): (n: nat)
    ensures n <= |s|
    decreases |s|
  {
    if s == [] || s[0].multiverseId > key then 0 else 1 + LeadingRun(s[1..], key)
  }

  /** A scan that stops at `i` has found the leading run. */
  lemma {:induction false} LeadingRunIs(s: seq<ConverterCard>, key: int, i: nat)
    requires i <= |s|
    requires forall k :: 0 <= k < i ==> s[k].multiverseId <= key
    requires i == |s| || s[i].multiverseId > key
    ensures LeadingRun(s, key) == i
    decreases |s|
  {
    if i > 0 {
      LeadingRunIs(s[1..], key, i - 1);
    }
  }

  lemma {:induction false} LeadingRunBounds(s: seq<ConverterCard>, key: int)
    ensures forall k :: 0 <= k < LeadingRun(s, key) ==> s[k].multiverseId <= key
    ensures LeadingRun(s, key) < |s| ==> s[LeadingRun(s, key)].multiverseId > key
    decreases |s|
  {
    if s != [] && s[0].multiverseId <= key {
      LeadingRunBounds(s[1..], key);
    }
  }

  /** The position `AddPotentialOCTGNCard` inserts a new card with
      MultiverseID `key` at. */
  function InsertIndex(s: seq<ConverterCard>, key: int): (p: nat)
    ensures p <= |s|
  {
    if s == [] || s[|s| - 1].multiverseId > key then |s|
    else
      var n := LeadingRun(s, key);
      if n == 0 then 0 else n - 1
  }

  /** The three cases of the insert position, each stated without the scan:
      appended when the list is empty or its last key is larger; at the
      front when only the first key is larger; otherwise at the last card
      of the leading run of keys at most `key`, which is never past the
      last card. */
  lemma InsertPosition(s: seq<ConverterCard>, key: int)
    ensures s == [] || s[|s| - 1].multiverseId > key ==> InsertIndex(s, key) == |s|
    ensures s != [] && s[|s| - 1].multiverseId <= key && s[0].multiverseId > key ==> InsertIndex(s, key) == 0
    ensures s != [] && s[|s| - 1].multiverseId <= key && s[0].multiverseId <= key ==>
              var p := InsertIndex(s, key);
              && p < |s|
              && (forall k :: 0 <= k <= p ==> s[k].multiverseId <= key)
              && (p + 1 < |s| ==> s[p + 1].multiverseId > key)
  {
    LeadingRunBounds(s, key);
  }

  /** The index loop of `AddPotentialOCTGNCard` (run only when the last
      key is at most `key`) ends on `InsertIndex`. */
  lemma ScanFindsInsertIndex(s: seq<ConverterCard>, key: int, i: nat, index: int)
    requires s != [] && s[|s| - 1].multiverseId <= key
    requires i <= |s| && forall k :: 0 <= k < i ==> s[k].multiverseId <= key
    requires i == |s| || s[i].multiverseId > key
    requires index == if i == 0 then 0 else i - 1
    ensures index == InsertIndex(s, key)
  {
    LeadingRunIs(s, key, i);
  }

  lemma InsertAtEnd(s: seq<ConverterCard>, c: ConverterCard)
    ensures InsertAt(s, |s|, c) == s + [c]
  {
    assert s[..|s|] == s;
  }

  /** The list after `AddPotentialOCTGNCard(c)`. */
  function Added(s: seq<ConverterCard>, c: ConverterCard): seq<ConverterCard> {
    if c in s then s else InsertAt(s, InsertIndex(s, c.multiverseId), c)
  }

  /** The list after `Collection.Remove(c)`: its first occurrence goes. */
  function RemoveFirst(s: seq<ConverterCard>, c: ConverterCard): seq<ConverterCard>
    decreases |s|
  {
    if s == [] then []
    else if s[0] == c then s[1..]
    else [s[0]] + RemoveFirst(s[1..], c)
  }

  lemma {:induction false} RemoveFirstAbsent(s: seq<ConverterCard>, c: ConverterCard)
    requires c !in s
    ensures RemoveFirst(s, c) == s
    decreases |s|
  {
    if s != [] {
      RemoveFirstAbsent(s[1..], c);
    }
  }

  /** Taking out a card put in at any position gives the old list back. */
  lemma {:induction false} RemoveFirstInsertAt(s: seq<ConverterCard>, p: nat, c: ConverterCard)
    requires p <= |s| && c !in s
    ensures RemoveFirst(InsertAt(s, p, c), c) == s
    decreases p
  {
    if p == 0 {
      assert InsertAt(s, p, c) == [c] + s;
    } else {
      assert InsertAt(s, p, c) == [s[0]] + InsertAt(s[1..], p - 1, c);
      RemoveFirstInsertAt(s[1..], p - 1, c);
    }
  }

  /** Where `Collection.IndexOf(c)` finds a present card: its first
      occurrence. */
  function FirstIndex(s: seq<ConverterCard>, c: ConverterCard): (k: nat)
    requires c in s
    ensures k < |s| && s[k] == c && c !in s[..k]
    decreases |s|
  {
    if s[0] == c then 0
    else
      var k := FirstIndex(s[1..], c);
      assert s[..k + 1] == [s[0]] + s[1..][..k];
      k + 1
  }

  /** Removing a present card cuts out its first occurrence and keeps the
      other cards in order. */
  lemma {:induction false} RemoveFirstCutsFirstOccurrence(s: seq<ConverterCard>, c: ConverterCard)
    requires c in s
    ensures RemoveFirst(s, c) == s[..FirstIndex(s, c)] + s[FirstIndex(s, c) + 1..]
    decreases |s|
  {
    if s[0] != c {
      var k := FirstIndex(s[1..], c);
      RemoveFirstCutsFirstOccurrence(s[1..], c);
      assert s[..k + 1] == [s[0]] + s[1..][..k];
      assert s[k + 2..] == s[1..][k + 1..];
    }
  }

  lemma {:induction false} RemoveFirstMultiset(s: seq<ConverterCard>, c: ConverterCard)
    ensures multiset(RemoveFirst(s, c)) == multiset(s) - multiset{c}
    decreases |s|
  {
    if s != [] {
      assert s == [s[0]] + s[1..];
      if s[0] != c {
        RemoveFirstMultiset(s[1..], c);
      }
    }
  }

  lemma {:induction false} DistinctMultiset(s: seq<ConverterCard>, c: ConverterCard)
    requires Distinct(s)
    ensures multiset(s)[c] <= 1
    decreases |s|
  {
    if s != [] {
      assert s == [s[0]] + s[1..];
      assert forall j :: 0 <= j < |s[1..]| ==> s[1..][j] == s[j + 1];
      assert s[0] !in s[1..];
      DistinctMultiset(s[1..], c);
    }
  }

  lemma RepeatedCardCountsTwice(s: seq<ConverterCard>, i: int, j: int)
    requires 0 <= i < j < |s| && s[i] == s[j]
    ensures multiset(s)[s[i]] >= 2
  {
    assert s == s[..i] + [s[i]] + s[i + 1..j] + [s[j]] + s[j + 1..];
  }

  lemma DistinctFromMultiset(s: seq<ConverterCard>)
    requires forall c :: multiset(s)[c] <= 1
    ensures Distinct(s)
  {
    forall i, j | 0 <= i < j < |s| ensures s[i] != s[j] {
      if s[i] == s[j] {
        RepeatedCardCountsTwice(s, i, j);
        assert false;
      }
    }
  }

  /** Removing a card from a duplicate-free list leaves a duplicate-free
      list without it. */
  lemma RemoveFirstDistinct(s: seq<ConverterCard>, c: ConverterCard)
    requires Distinct(s)
    ensures Distinct(RemoveFirst(s, c)) && c !in RemoveFirst(s, c)
  {
    RemoveFirstMultiset(s, c);
    DistinctMultiset(s, c);
    forall d ensures multiset(RemoveFirst(s, c))[d] <= 1 {
      DistinctMultiset(s, d);
    }
    DistinctFromMultiset(RemoveFirst(s, c));
  }

  /** Adding keeps the cards: the new card is present afterwards, and
      unless it was there already it is the one card more. */
  lemma AddedMultiset(s: seq<ConverterCard>, c: ConverterCard)
    ensures c in Added(s, c)
    ensures multiset(Added(s, c)) == if c in s then multiset(s) else multiset(s) + multiset{c}
  {
    if c !in s {
      var p := InsertIndex(s, c.multiverseId);
      assert s == s[..p] + s[p..];
    }
  }

  /** The list stays free of duplicates. */
  lemma AddedDistinct(s: seq<ConverterCard>, c: ConverterCard)
    requires Distinct(s)
    ensures Distinct(Added(s, c))
  {
    AddedMultiset(s, c);
    forall d ensures multiset(Added(s, c))[d] <= 1 {
      DistinctMultiset(s, d);
    }
    DistinctFromMultiset(Added(s, c));
  }

  /** The old cards keep their relative order: taking the new card out of
      the list after adding it gives the old list back. */
  lemma AddedThenRemoved(s: seq<ConverterCard>, c: ConverterCard)
    requires c !in s
    ensures RemoveFirst(Added(s, c), c) == s
  {
    RemoveFirstInsertAt(s, InsertIndex(s, c.multiverseId), c);
  }

  /** The insert does not keep any MultiverseID order. Starting from keys
      [20, 5], a card with key 30 lands between them and one with key 10
      lands before both. */
  lemma InsertKeepsNoOrder(a: ConverterCard, b: ConverterCard, c: ConverterCard, d: ConverterCard)
    requires a.multiverseId == 20 && b.multiverseId == 5
    requires c.multiverseId == 30 && d.multiverseId == 10
    requires c != a && c != b && d != a && d != b
    ensures Added([a, b], c) == [a, c, b]
    ensures Added([a, b], d) == [d, a, b]
  {
    assert LeadingRun([a, b], 30) == 2 by {
      assert [a, b][1..] == [b];
      assert LeadingRun([b], 30) == 1 by { assert [b][1..] == []; }
    }
    assert LeadingRun([a, b], 10) == 0;
  }

  /** `k` is the card `AutoSelectPotentialOCTGNCard` promises to pick: a
      largest MultiverseID, and the first card having it. */
  predicate IsEarliestMax(s: seq<ConverterCard>, k: int) {
    && 0 <= k < |s|
    && (forall j :: 0 <= j < |s| ==> s[j].multiverseId <= s[k].multiverseId)
    && (forall j :: 0 <= j < k ==> s[j].multiverseId < s[k].multiverseId)
  }

  /** The index the running maximum ends on, with the strict `>` test. */
  function MaxIndex(s: seq<ConverterCard>): (k: nat)
    requires s != []
    ensures k < |s|
    decreases |s|
  {
    if |s| == 1 then 0
    else
      var k := MaxIndex(s[..|s| - 1]);
      if s[|s| - 1].multiverseId > s[k].multiverseId then |s| - 1 else k
  }

  lemma {:induction false} MaxIndexIsEarliestMax(s: seq<ConverterCard>)
    requires s != []
    ensures IsEarliestMax(s, MaxIndex(s))
    decreases |s|
  {
    if |s| > 1 {
      var init := s[..|s| - 1];
      MaxIndexIsEarliestMax(init);
      assert forall j :: 0 <= j < |init| ==> init[j] == s[j];
    }
  }

  /** At most one index satisfies `IsEarliestMax`, so it fixes the pick. */
  lemma EarliestMaxUnique(s: seq<ConverterCard>, k1: int, k2: int)
    requires IsEarliestMax(s, k1) && IsEarliestMax(s, k2)
    ensures k1 == k2
  {
    assert s[k1].multiverseId == s[k2].multiverseId;
  }

  /** The running maximum over one more card. */
  lemma MaxIndexStep(s: seq<ConverterCard>, i: nat)
    requires 1 <= i < |s|
    ensures MaxIndex(s[..i + 1]) ==
            if s[i].multiverseId > s[MaxIndex(s[..i])].multiverseId then i else MaxIndex(s[..i])
  {
    assert s[..i + 1][..i] == s[..i];
  }
}
