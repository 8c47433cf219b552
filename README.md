# ConverterMapping: matching an imported deck line against the OCTGN catalog

OCTGN Deck Converter reads a deck list written for some other program. Each
line becomes a `ConverterMapping` that holds the parsed card name, an
optional set label and a quantity. The class then collects every OCTGN card
that could stand for that line, keeps those candidates in a list, and picks
one of them as the default selection. This project models that class
(`OCTGNDeckConverter/Model/ConverterMapping.cs`) and proves properties of
the model:

- **Name normalization** (`NameNormalization`). `NormalizeName` trims,
  removes diacritics, applies the replacement table in its declared order
  ("Æ", "æ", "’", ":", "-", "'") and lower-cases. It rests on the string
  primitives in `Text`: .NET `Trim`, `Split` with `RemoveEmptyEntries`,
  `Replace`, `StartsWith` ignoring case, and `IsNullOrWhiteSpace`.
- **The catalog index** (`ConverterIndex`). `NormalizeConverterCards`
  builds the dictionary from the normalized first name of each card to the
  (card, set) pairs of the searchable sets, in visiting order. It is
  imperative, with two nested loops. It is proved to build exactly the
  index that `IsIndexOf` describes. It throws when a card of an included
  set has no name segment.
- **The set-label check** (`SetMatching`). For The Lord of the Rings card
  game only, a "The Hobbit" and a "The " prefix are cut from both labels,
  which are then normalized and compared.
- **The candidate list** (`Candidates`, `Mapping.ConverterMapping`).
  Adding a card inserts it at the position the source's index loop
  chooses, and never inserts a card twice. Removing a card drops its
  occurrence. Auto-selection picks the first card with the largest
  MultiverseID.
- **Population** (`Matching`, `Mapping.ConverterMapping.PopulateWithPotentialCards`).
  The card name is split on '/' and each segment normalized. The bucket
  of the first segment is scanned, and every card whose names agree (and,
  for LoTR, whose set agrees) is added. The method is proved equal to the
  whole-call function `Populated`. Lemmas then show that every card it adds
  is a match and that, when nothing throws, every match is added. They
  also show that earlier cards stay and which errors arise. A throw from
  the set check ends the scan, so matches later in the bucket are then
  not added.

A program's exceptions are modelled as results. `Result.Failure` and
`Outcome.Fail` carry an `Exception` value: `ArgumentNull`,
`InvalidOperation` or `ArgumentOutOfRange`.

Some behaviour of the code worth knowing, all modelled as written:

- The doc comments at ConverterMapping.cs:75 and :114 say the candidate
  list is kept in MultiverseID order. The insert at :142-155 does not keep
  that order (`Candidates.InsertKeepsNoOrder`).
- `RemovePotentialOCTGNCard` (:306-309) leaves `SelectedOCTGNCard` as it
  was, even when the removed card is the selected one.
- `NormalizeName` (:332-347) trims before it removes characters, so
  normalizing a result again can change it
  (`NameNormalization.NormalizeNameNotIdempotent`).
- The comment at :234 speaks of "The Hobbit - ", which is 13 characters
  long. The test at :235 and :239 is for the 10-character "The Hobbit",
  and `Substring(13)` follows. So a label of the form "The Hobbit: X"
  loses the first letter of X (`SetMatching.HobbitColonLosesALetter`),
  and such a label shorter than 13 characters throws
  (`SetMatching.BareHobbitLabelThrows`).
- `First()` at :200 and :288 throws when a name has no name segment, that
  is, when it is empty or made only of '/' characters (`Text.SplitEmptyIff`).

## Model

| member | source | states |
|---|---|---|
| Mapping.ConverterMapping.constructor | OCTGNDeckConverter/Model/ConverterMapping.cs:28-33 | The name, set label and quantity are stored; the candidate list starts empty and there is no selection. |
| Mapping.ConverterMapping.SetSelectedOCTGNCard | OCTGNDeckConverter/Model/ConverterMapping.cs:103-107 | The setter accepts any card, or null, and changes nothing else. |
| Mapping.ConverterMapping.AddPotentialOCTGNCard | OCTGNDeckConverter/Model/ConverterMapping.cs:118-159 | Null gives ArgumentNull and no change. A present card gives false and no change. Otherwise the card is inserted at `InsertIndex` and the result is true. The list stays duplicate-free. |
| Mapping.ConverterMapping.AutoSelectPotentialOCTGNCard | OCTGNDeckConverter/Model/ConverterMapping.cs:164-183 | An empty list clears the selection. Otherwise the selection is the card at `MaxIndex`, which `MaxIndexIsEarliestMax` shows is the earliest card with the largest MultiverseID. |
| Mapping.ConverterMapping.RemovePotentialOCTGNCard | OCTGNDeckConverter/Model/ConverterMapping.cs:306-309 | The result is true exactly when the card was present. The card's occurrence is then removed, the list stays duplicate-free, and the selection is unchanged. |
| Mapping.ConverterMapping.PopulateWithPotentialCards | OCTGNDeckConverter/Model/ConverterMapping.cs:193-271 | The new list and the outcome equal `Populated` of the old list; the list stays duplicate-free. |
| Candidates.InsertIndex | OCTGNDeckConverter/Model/ConverterMapping.cs:130-155 | The position `Insert(index, …)` or `Add` puts a new card at: the end when the list is empty or its last key is larger, otherwise the last index of the leading run of keys not above the new key (0 when the first key is larger). Its properties are `InsertPosition` and `LeadingRunBounds`. |
| Candidates.Added | OCTGNDeckConverter/Model/ConverterMapping.cs:125-156 | The list after adding a card: unchanged when the card is present, otherwise the card inserted at `InsertIndex`. Its properties are `AddedMultiset`, `AddedDistinct` and `AddedThenRemoved`. |
| Candidates.RemoveFirst | OCTGNDeckConverter/Model/ConverterMapping.cs:308 | The list after `Collection.Remove`: the first occurrence of the card is dropped. Its properties are `RemoveFirstCutsFirstOccurrence`, `RemoveFirstMultiset` and `RemoveFirstAbsent`. |
| Candidates.MaxIndex | OCTGNDeckConverter/Model/ConverterMapping.cs:172-179 | The index the running maximum with a strict `>` ends on; `MaxIndexIsEarliestMax` shows it is the earliest card with the largest MultiverseID. |
| Candidates.LeadingRun | OCTGNDeckConverter/Model/ConverterMapping.cs:143-153 | Where the index loop stops: the number of leading cards whose key is not above the new key, at most the list length. Its properties are `LeadingRunIs` and `LeadingRunBounds`. |
| Candidates.LeadingRunIs | OCTGNDeckConverter/Model/ConverterMapping.cs:142-153 | The loop's stopping index is the length of the leading run of keys not above the new key. |
| Candidates.LeadingRunBounds | OCTGNDeckConverter/Model/ConverterMapping.cs:143-153 | Every key inside the leading run is at most the new key, and the key just after it is larger. |
| Candidates.InsertPosition | OCTGNDeckConverter/Model/ConverterMapping.cs:130-156 | The three cases of the insert: at the end when the list is empty or its last key is larger; at the front when only the first key is larger; otherwise at the last index of the leading run. |
| Candidates.ScanFindsInsertIndex | OCTGNDeckConverter/Model/ConverterMapping.cs:142-155 | Whatever `index` holds when the loop stops is `InsertIndex`. |
| Candidates.RemoveFirstAbsent | OCTGNDeckConverter/Model/ConverterMapping.cs:306-309 | Removing an absent card changes nothing. |
| Candidates.RemoveFirstInsertAt | OCTGNDeckConverter/Model/ConverterMapping.cs:155 | Inserting a card absent from the list at any position and then removing it gives back the list. |
| Candidates.FirstIndex | OCTGNDeckConverter/Model/ConverterMapping.cs:308 | The position of the first occurrence of a present card. |
| Candidates.RemoveFirstCutsFirstOccurrence | OCTGNDeckConverter/Model/ConverterMapping.cs:308 | Removal cuts out exactly the first occurrence. |
| Candidates.RemoveFirstMultiset | OCTGNDeckConverter/Model/ConverterMapping.cs:308 | Removal takes one copy of the card out of the multiset of the list. |
| Candidates.DistinctMultiset | OCTGNDeckConverter/Model/ConverterMapping.cs:125-128 | In a duplicate-free list, each card occurs at most once. |
| Candidates.DistinctFromMultiset | OCTGNDeckConverter/Model/ConverterMapping.cs:125-128 | A list in which no card occurs twice is duplicate-free. |
| Candidates.RemoveFirstDistinct | OCTGNDeckConverter/Model/ConverterMapping.cs:306-309 | Removal keeps a list duplicate-free and leaves the card absent. |
| Candidates.AddedMultiset | OCTGNDeckConverter/Model/ConverterMapping.cs:125-156 | After adding, the card is present, and the multiset grows by the card exactly when the card was absent. |
| Candidates.AddedDistinct | OCTGNDeckConverter/Model/ConverterMapping.cs:125-156 | Adding keeps a list duplicate-free. |
| Candidates.AddedThenRemoved | OCTGNDeckConverter/Model/ConverterMapping.cs:118-159 | Removing a newly added card restores the list. |
| Candidates.InsertKeepsNoOrder | OCTGNDeckConverter/Model/ConverterMapping.cs:135-155 | Adding key 30 to keys [20, 5] gives [20, 30, 5]; adding key 10 gives [10, 20, 5]. So the list is not kept in MultiverseID order. |
| Candidates.MaxIndexIsEarliestMax | OCTGNDeckConverter/Model/ConverterMapping.cs:172-179 | The running maximum with a strict `>` ends on the earliest card with the largest MultiverseID. |
| Candidates.EarliestMaxUnique | OCTGNDeckConverter/Model/ConverterMapping.cs:172-179 | At most one index is the earliest maximum. |
| Candidates.MaxIndexStep | OCTGNDeckConverter/Model/ConverterMapping.cs:173-179 | One iteration of the `foreach`: the maximum moves to the new card only when its key is strictly larger. |
| ConverterIndex.FirstNameKey | OCTGNDeckConverter/Model/ConverterMapping.cs:288 | The dictionary key of a card: its name split on '/' without empty entries, then the first segment normalized; none when there is no segment, where `First()` throws. |
| ConverterIndex.SearchEntries | OCTGNDeckConverter/Model/ConverterMapping.cs:282-297 | The (card, set) pairs visited, in order: every card of every set included in searches, set by set. Its properties are `EntriesComeFromIncludedSets`, `IncludedCardIsEntry` and `SearchEntriesCount`. |
| ConverterIndex.SetEntries | OCTGNDeckConverter/Model/ConverterMapping.cs:286-295 | A set contributes one (card, set) pair per card, in card order. |
| ConverterIndex.BucketOfAbsentKey | OCTGNDeckConverter/Model/ConverterMapping.cs:289-292 | A key that no visited card has has an empty bucket. |
| ConverterIndex.IndexOfAppend | OCTGNDeckConverter/Model/ConverterMapping.cs:289-294 | Creating the bucket if needed and appending the pair turns the index of the visited pairs into the index of those pairs plus one. |
| ConverterIndex.VisitCard | OCTGNDeckConverter/Model/ConverterMapping.cs:288-294 | One card visit keeps "every visited name has a key" and the index relation. |
| ConverterIndex.EntriesOfPrefix | OCTGNDeckConverter/Model/ConverterMapping.cs:282-297 | Visiting one more set appends its pairs exactly when it is included in searches. |
| ConverterIndex.SetEntriesPrefix | OCTGNDeckConverter/Model/ConverterMapping.cs:286-295 | Visiting one more card of a set appends its pair. |
| ConverterIndex.IncludedCardIsEntry | OCTGNDeckConverter/Model/ConverterMapping.cs:282-297 | Every card of an included set is visited. |
| ConverterIndex.BucketAppendInTwoSteps | OCTGNDeckConverter/Model/ConverterMapping.cs:289-294 | `Add` of an empty list followed by the list's `Add` is one map update. |
| ConverterIndex.AddSetCardsStep | OCTGNDeckConverter/Model/ConverterMapping.cs:286-295 | One iteration of the inner loop keeps its invariant. |
| ConverterIndex.AddSetCards | OCTGNDeckConverter/Model/ConverterMapping.cs:286-295 | It throws InvalidOperation exactly when some card of the set has no name segment. Otherwise it extends the index to that set's pairs. |
| ConverterIndex.AllKeyedAppend | OCTGNDeckConverter/Model/ConverterMapping.cs:282-297 | Every name in a concatenation has a key exactly when every name in both parts has one. |
| ConverterIndex.NormalizeConverterCards | OCTGNDeckConverter/Model/ConverterMapping.cs:278-299 | It throws InvalidOperation exactly when some card of an included set has no name segment. Otherwise the result is the index of all pairs of the included sets, in visiting order. |
| ConverterIndex.PrefixNotKeyed | OCTGNDeckConverter/Model/ConverterMapping.cs:282-297 | A card without a key among the first sets stays without a key among all sets, so throwing early is right. |
| ConverterIndex.EntriesComeFromIncludedSets | OCTGNDeckConverter/Model/ConverterMapping.cs:282-297 | Every indexed pair is a card together with its own set, and that set is included in searches. |
| ConverterIndex.BucketMembership | OCTGNDeckConverter/Model/ConverterMapping.cs:288-294 | A pair is in a key's bucket exactly when it was visited and has that key. |
| ConverterIndex.BucketMultiplicity | OCTGNDeckConverter/Model/ConverterMapping.cs:288-294 | A bucket holds a pair as often as it was visited with that key: nothing is lost or duplicated. |
| ConverterIndex.BucketAppend | OCTGNDeckConverter/Model/ConverterMapping.cs:294 | The bucket of a concatenation is the concatenation of the buckets, so bucket order is visiting order. |
| ConverterIndex.IndexFindsEntry | OCTGNDeckConverter/Model/ConverterMapping.cs:288-294 | Every visited pair is found under its key. |
| ConverterIndex.IncludedCardIsIndexed | OCTGNDeckConverter/Model/ConverterMapping.cs:278-299 | Every card of an included set is found under its normalized first name, together with its set. |
| ConverterIndex.IndexBucketsAreKeyed | OCTGNDeckConverter/Model/ConverterMapping.cs:288-294 | Everything in a bucket was visited and has that bucket's key. |
| ConverterIndex.IndexBucketsAreNonEmpty | OCTGNDeckConverter/Model/ConverterMapping.cs:289-294 | No bucket of the built dictionary is empty: a key is created only for a card that is then appended under it. |
| ConverterIndex.SearchEntriesCount | OCTGNDeckConverter/Model/ConverterMapping.cs:282-297 | There are as many visited pairs as there are cards in the included sets. |
| ConverterIndex.WithKeyInSplit | OCTGNDeckConverter/Model/ConverterMapping.cs:289-294 | The pairs with a key from a set of keys split into one key's bucket and the rest. |
| ConverterIndex.WithAllKeys | OCTGNDeckConverter/Model/ConverterMapping.cs:289-294 | When every name has a key, the pairs with a key among all the keys are all the pairs. |
| ConverterIndex.WithKeysCovering | OCTGNDeckConverter/Model/ConverterMapping.cs:289-294 | Filtering by a set of keys that covers every pair keeps every pair. |
| ConverterIndex.BucketSizesCount | OCTGNDeckConverter/Model/ConverterMapping.cs:289-294 | The bucket sizes over a set of keys add up to the number of pairs with those keys. |
| ConverterIndex.WithKeysNone | OCTGNDeckConverter/Model/ConverterMapping.cs:289-294 | No pair has a key in the empty set of keys. |
| ConverterIndex.IndexSizeIsIncludedCardCount | OCTGNDeckConverter/Model/ConverterMapping.cs:278-299 | The bucket sizes add up to the number of cards in the included sets. |
| Matching.NameSegments | OCTGNDeckConverter/Model/ConverterMapping.cs:196-198 | The name split on '/' without empty entries, each segment normalized, in order; the same query is at :206-208. Its properties are `NormalizeAllAt` and `NameSegmentsFirst`. |
| Matching.SelectAllAt | OCTGNDeckConverter/Model/ConverterMapping.cs:196-198 | The `select` over the name segments maps each segment on its own and keeps their count. |
| Matching.NormalizeAllAt | OCTGNDeckConverter/Model/ConverterMapping.cs:196-198 | Each name segment is normalized on its own, and the segment count is kept. |
| Matching.NameSegmentsFirst | OCTGNDeckConverter/Model/ConverterMapping.cs:196-200 | The first normalized name segment is the index key, and it is missing exactly when the key is. |
| Matching.NamesMatch | OCTGNDeckConverter/Model/ConverterMapping.cs:209-221 | The comparison loop is true exactly when the names agree at every index both lists have. |
| Matching.CandidateVerdict | OCTGNDeckConverter/Model/ConverterMapping.cs:206-265 | How one bucket pair is judged: false when the names disagree, otherwise the set check, which may throw. `VerdictTrueIsMatch` ties a true verdict to `IsMatch`. |
| Matching.ScanBucket | OCTGNDeckConverter/Model/ConverterMapping.cs:202-269 | The `foreach` over a bucket: the cards accepted, in bucket order, up to the first pair whose verdict throws. Its properties are `ScanStep`, `ScanAcceptsOnlyMatches`, `ScanPassAcceptsAll` and `ScanOutcome`. |
| Matching.Populated | OCTGNDeckConverter/Model/ConverterMapping.cs:193-271 | The whole call: a throw when the name has no segment, no change when the first name is not a key, otherwise the scan of its bucket, with the accepted cards added one by one. Its properties are the `Populate…` lemmas. |
| Matching.ScanStep | OCTGNDeckConverter/Model/ConverterMapping.cs:202-269 | One bucket pair: a throw stops the scan; a match is appended; a non-match changes nothing. |
| Matching.ScanStaysFailed | OCTGNDeckConverter/Model/ConverterMapping.cs:202-269 | After a throw, the later pairs of the bucket are not looked at. |
| Matching.ScanAcceptsOnlyMatches | OCTGNDeckConverter/Model/ConverterMapping.cs:265-268 | Every accepted card comes from a bucket pair whose verdict is true. |
| Matching.ScanPassAcceptsAll | OCTGNDeckConverter/Model/ConverterMapping.cs:265-268 | When nothing throws, every bucket pair whose verdict is true is accepted. |
| Matching.ScanOutcome | OCTGNDeckConverter/Model/ConverterMapping.cs:223-262 | The scan passes exactly when no verdict throws; a failure carries the error of some pair. |
| Matching.AddAll | OCTGNDeckConverter/Model/ConverterMapping.cs:265-267 | The `AddPotentialOCTGNCard` call repeated for each accepted card, in bucket order. Its properties are `AddAllContents` and `AddAllDistinct`. |
| Matching.AddAllContents | OCTGNDeckConverter/Model/ConverterMapping.cs:265-268 | After adding the cards, the list holds exactly the old cards and the added ones. |
| Matching.AddAllDistinct | OCTGNDeckConverter/Model/ConverterMapping.cs:265-268 | Adding cards one by one keeps the list duplicate-free. |
| Matching.PopulateWithoutNameThrows | OCTGNDeckConverter/Model/ConverterMapping.cs:196-200 | A card name without a name segment throws InvalidOperation and adds nothing. |
| Matching.PopulateWithoutKeyIsNoOp | OCTGNDeckConverter/Model/ConverterMapping.cs:200 | A first name missing from the dictionary adds nothing and does not throw. |
| Matching.VerdictTrueIsMatch | OCTGNDeckConverter/Model/ConverterMapping.cs:206-265 | A pair of the bucket passes the name-and-set test exactly when it is a match. |
| Matching.PopulateAddsOnlyMatches | OCTGNDeckConverter/Model/ConverterMapping.cs:200-269 | Every newly added card comes from a matching pair of the first name's bucket. |
| Matching.PopulateAddsEveryMatch | OCTGNDeckConverter/Model/ConverterMapping.cs:200-269 | When nothing throws, every matching card ends up in the list. |
| Matching.PopulateKeepsCards | OCTGNDeckConverter/Model/ConverterMapping.cs:193-271 | Earlier candidates stay, and a duplicate-free list stays duplicate-free. |
| Matching.PopulateErrors | OCTGNDeckConverter/Model/ConverterMapping.cs:196-262 | It throws InvalidOperation exactly when the name has no segment. The only other error is ArgumentOutOfRange, raised by the set check of a name-matching pair. |
| Matching.PopulateFromBuiltIndex | OCTGNDeckConverter/Model/ConverterMapping.cs:193-299 | Using the index that `NormalizeConverterCards` builds, every added card belongs to an included set and has the same first name as the line. |
| SetMatching.StripSetPrefixes | OCTGNDeckConverter/Model/ConverterMapping.cs:234-252 | It throws ArgumentOutOfRange exactly when the label starts with "The Hobbit" and is shorter than 13 characters. Otherwise the result is a suffix of the label. |
| SetMatching.SetLabelsMatch | OCTGNDeckConverter/Model/ConverterMapping.cs:223-262 | With no set label, or with a set of another game, the labels match. Otherwise it throws exactly when cutting either label throws. |
| SetMatching.SetLabelsMatchReflexive | OCTGNDeckConverter/Model/ConverterMapping.cs:223-262 | A label that can be cut matches itself. |
| SetMatching.HobbitDashAlias | OCTGNDeckConverter/Model/ConverterMapping.cs:234-242 | "The Hobbit - X" matches "X" when X does not start with "The Hobbit". |
| SetMatching.TheAlias | OCTGNDeckConverter/Model/ConverterMapping.cs:244-252 | "The X" matches "X" when X starts neither with "The " nor with "Hobbit". |
| SetMatching.HobbitColonLosesALetter | OCTGNDeckConverter/Model/ConverterMapping.cs:235-252 | "The Hobbit: On the Doorstep" is cut to "n the Doorstep". |
| SetMatching.BareHobbitLabelThrows | OCTGNDeckConverter/Model/ConverterMapping.cs:235-242 | A LoTR card labelled exactly "The Hobbit" makes the check throw whenever the line names a set. |
| NameNormalization.NormalizeName | OCTGNDeckConverter/Model/ConverterMapping.cs:332-347 | Trim, then `RemoveDiacritics`, then the replacement table in its declared order, then lower-casing. Its properties are the `NormalizeName…` rows below. |
| NameNormalization.RemoveDiacritics | OCTGNDeckConverter/Model/ConverterMapping.cs:355-362 | Each precomposed Latin-1 letter becomes its base letter and each combining mark is dropped. Its properties are `RemoveDiacriticsClean` and `RemoveDiacriticsUnchanged`. |
| NameNormalization.ApplyReplacements | OCTGNDeckConverter/Model/ConverterMapping.cs:341-344 | The `foreach` over `replacementChars`: each entry of `ReplacementTable` is applied, in order, to the result of the ones before it. Its properties are the `ApplyReplacements…` rows below. |
| NameNormalization.RemoveDiacriticsClean | OCTGNDeckConverter/Model/ConverterMapping.cs:355-362 | The result has no combining marks and no letters with diacritics, and is no longer than the input. |
| NameNormalization.RemoveDiacriticsUnchanged | OCTGNDeckConverter/Model/ConverterMapping.cs:355-362 | A string without diacritics is left as it is. |
| NameNormalization.ApplyReplacementsKeepsAbsent | OCTGNDeckConverter/Model/ConverterMapping.cs:341-344 | A character that is neither in the string nor in any replacement stays absent. |
| NameNormalization.ApplyReplacementsRemoves | OCTGNDeckConverter/Model/ConverterMapping.cs:341-344 | A table entry whose character no later replacement brings back leaves that character absent. |
| NameNormalization.ApplyReplacementsKeepsOthers | OCTGNDeckConverter/Model/ConverterMapping.cs:341-344 | A character that no entry replaces stays present. |
| NameNormalization.TableRemovesAll | OCTGNDeckConverter/Model/ConverterMapping.cs:315-344 | After the table, no "Æ", "æ", "’", ":", "-" or "'" is left. |
| NameNormalization.LowerKeepsRemovedAbsent | OCTGNDeckConverter/Model/ConverterMapping.cs:346 | Lower-casing brings none of those characters back. |
| NameNormalization.NormalizeNameKeyChars | OCTGNDeckConverter/Model/ConverterMapping.cs:332-347 | A normalized name holds no removed character and no upper-case ASCII letter. |
| NameNormalization.ApplyReplacementsNoOp | OCTGNDeckConverter/Model/ConverterMapping.cs:341-344 | A string holding none of the table's characters is left as it is. |
| NameNormalization.NormalizeTrimmed | OCTGNDeckConverter/Model/ConverterMapping.cs:332-347 | For a trimmed string, normalization is the later three steps alone. |
| NameNormalization.PlainKeyUnchangedAfterTrim | OCTGNDeckConverter/Model/ConverterMapping.cs:338-346 | Lower-case letters, digits and spaces pass the later three steps unchanged. |
| NameNormalization.NormalizeNameFixesPlainKeys | OCTGNDeckConverter/Model/ConverterMapping.cs:332-347 | A trimmed string of lower-case letters, digits and spaces is its own normalization. |
| NameNormalization.ApplyReplacementsSkip | OCTGNDeckConverter/Model/ConverterMapping.cs:341-344 | Entries whose characters are absent can be skipped. |
| NameNormalization.NormalizeNameNotIdempotent | OCTGNDeckConverter/Model/ConverterMapping.cs:332-347 | "- a" normalizes to " a", and that normalizes to "a", so normalizing twice can differ from normalizing once. |
| NameNormalization.RightQuoteRemovedThroughApostrophe | OCTGNDeckConverter/Model/ConverterMapping.cs:317-324 | "’" is first turned into "'", which a later entry removes. |
| NameNormalization.SwappedEntriesLeaveApostrophe | OCTGNDeckConverter/Model/ConverterMapping.cs:320-323 | With the "'" entry before the "’" entry, an apostrophe would survive, so the table's order matters. |
| Text.Trim | OCTGNDeckConverter/Model/ConverterMapping.cs:335 | `String.Trim`: white space, as `Char.IsWhiteSpace` defines it, is dropped from both ends. Its properties are `TrimIsInnerSlice` and `TrimUnchanged`. |
| Text.ToLower | OCTGNDeckConverter/Model/ConverterMapping.cs:346 | `ToLowerInvariant`, character by character. Its properties are `ToLowerAt`, `ToLowerCharAlphabet` and `ToLowerIdempotent`. |
| Text.ReplaceChar | OCTGNDeckConverter/Model/ConverterMapping.cs:343 | `String.Replace` of one character by a string. Its properties are `ReplaceCharContents` and `ReplaceCharAbsent`. |
| Text.Split | OCTGNDeckConverter/Model/ConverterMapping.cs:197 | `Split('/', RemoveEmptyEntries)`: the maximal non-empty runs without the separator, in order. Its properties are `SplitSegments`, `SplitLosesOnlySeparators` and `SplitEmptyIff`. |
| Text.StartsWithIgnoreCase | OCTGNDeckConverter/Model/ConverterMapping.cs:235-251 | `StartsWith` with `InvariantCultureIgnoreCase`: the prefix fits and agrees after lower-casing each character. |
| Text.IsNullOrWhiteSpace | OCTGNDeckConverter/Model/ConverterMapping.cs:224 | `String.IsNullOrWhiteSpace` on a non-null string: every character is white space. |
| Text.TrimStartIsSuffix | OCTGNDeckConverter/Model/ConverterMapping.cs:335 | `TrimStart` leaves the suffix that begins at the first character that is not white space. |
| Text.TrimEndIsPrefix | OCTGNDeckConverter/Model/ConverterMapping.cs:335 | `TrimEnd` leaves the prefix that ends at the last character that is not white space. |
| Text.TrimIsInnerSlice | OCTGNDeckConverter/Model/ConverterMapping.cs:335 | `Trim` returns an inner slice with only white space outside it and none at its ends. |
| Text.TrimUnchanged | OCTGNDeckConverter/Model/ConverterMapping.cs:335 | A string without white space at its ends is left unchanged. |
| Text.ToLowerCharAlphabet | OCTGNDeckConverter/Model/ConverterMapping.cs:346 | An upper-case ASCII letter becomes the letter at the same place in the lower-case alphabet. |
| Text.ToLowerIdempotent | OCTGNDeckConverter/Model/ConverterMapping.cs:346 | Lower-casing a lower-cased string changes nothing. |
| Text.ToLowerAt | OCTGNDeckConverter/Model/ConverterMapping.cs:346 | Lower-casing keeps the length and works position by position. |
| Text.ReplaceCharContents | OCTGNDeckConverter/Model/ConverterMapping.cs:343 | After `Replace`, a character is present exactly when it was present and is not the replaced one, or when it is in the replacement and the replaced one occurred. |
| Text.ReplaceCharAbsent | OCTGNDeckConverter/Model/ConverterMapping.cs:343 | Replacing an absent character changes nothing. |
| Text.SplitSegments | OCTGNDeckConverter/Model/ConverterMapping.cs:197 | With `RemoveEmptyEntries`, no segment is empty and none holds the separator. |
| Text.SplitLosesOnlySeparators | OCTGNDeckConverter/Model/ConverterMapping.cs:197 | The segments, concatenated, are the string with its separators removed. |
| Text.SplitEmptyIff | OCTGNDeckConverter/Model/ConverterMapping.cs:197-200 | There are no segments exactly when the string is made only of separators. |
| Text.SplitAtSeparator | OCTGNDeckConverter/Model/ConverterMapping.cs:197 | A separator cuts the input in two: the segments of the whole are the segments before it followed by the segments after it. |
| Text.SplitWithoutSeparator | OCTGNDeckConverter/Model/ConverterMapping.cs:197 | A non-empty input without the separator is a single segment, itself. |
| Text.ConcatAppend | OCTGNDeckConverter/Model/ConverterMapping.cs:197 | Concatenation distributes over appending segment lists. |

## Left out

- Unicode normalization: .NET FormD, FormC and the `NonSpacingMark` category are modelled only for precomposed Latin-1 letters and the combining marks U+0300 to U+036F. No other letter is decomposed.
- `ToLowerInvariant` and the `InvariantCultureIgnoreCase` comparison are modelled on ASCII letters only.
- Null strings, a null dictionary and null cards inside a bucket are not modelled. A null card passed to Add or Remove is modelled as `None`.
- `RemovePotentialOCTGNCard`: `Collection.Remove(null)` returns false. The model does the same for `None`.
- Property-change notification (`INotifyPropertyChangedBase`, `SetValue`) and the `ReadOnlyObservableCollection` wrapper are not modelled. The list is a `seq` field the methods reassign.
- `CardName` and `Quantity` (private setters, set only by the constructor) are `const` fields. `CardSet` (a public setter) is a public `var`.
- The LoTR game GUID is the constant `LotrGameId`. The `OctgnSet` behind `ConverterSet` is reduced to its game id.
- `ConverterCard`, `ConverterSet` and the OCTGN game classes are not part of this model.
- Card equality, as `Contains` (:125) and `Remove` (:308) use it through `ConverterCard.Equals`, is taken to be identity. The `id` field of the `ConverterCard` datatype stands for that identity.
- Exceptions end the call in the model as they do in the program. Cards added before a throw stay, as in the program. Exception messages and types beyond the three kinds are not modelled.
- `Dictionary` enumeration order is not modelled: `CardIndex` is a Dafny `map`. Bucket order is modelled and proved.
- `IEnumerable<ConverterSet>` is modelled as a finite sequence, visited in order.
- Strings are sequences of Unicode scalar values, while a .NET string is a sequence of UTF-16 code units. For characters outside the Basic Multilingual Plane, lengths and the offsets of `Substring(13)` and `Substring(4)` therefore differ from .NET: "The Hobbit" followed by two such characters has 14 code units in .NET, so `Substring(13)` does not throw there, while `StripSetPrefixes` sees 12 characters and fails.
- ConvertEngine, the view models and the dialogs that call this class are not part of this model.
