# Verified models of PostgreSQL contrib modules

This project models seven pieces of the `contrib` tree in Dafny 4.11 and proves what they promise:

- **hstore**: the packed key/value store. Values are modelled down to the end-position entries and the string
  bytes. Every operation refines a finite map and yields the one canonical byte form of its result; the text
  parser accepts exactly a grammar; printing and reading back is the identity; the old layout is rewritten in
  place; the signature index never misses a row.
- **intarray**: in-place sorting and set operations, boolean queries stored in linked postfix form, the lossy
  range compressor of internal keys, and both index operator classes.
- **fuzzystrmatch**: the two-row Levenshtein program computes the least cost over all edit scripts.
- **pg_stat_statements**: the shared table as a class, and the locking protocol as a state machine over single
  shared-memory steps of any number of backends.
- **ltree**: the order of label paths, common ancestors, and index keys that span what is below them.
- **pgcrypto**: Blowfish as an invertible ladder of rounds, and its chained mode over a mutable buffer.
- **pg_trgm**: trigram similarity and the upper bound index keys give for it.

## How the model reads

- Code that works in place keeps that form: `array` buffers, `class` objects with `modifies` clauses, loops with
  invariants. Each such method is proved against a specification function or a property stated outright, and the
  laws are lemmas about the specification.
- C strings and text values are sequences of bytes 1 to 255; old-format hstore images hold any bytes. Integers are
  unbounded except where a width decides the outcome: entry positions of 30 bits, the palloc limit, 16-bit query
  links, 32-bit subtraction, counting and array sizes in the key compressor, the 32-bit result of
  `ltree_compare`, 32-bit cipher words.
- An hstore under construction is one allocation: entries from the front, strings behind the room for all entries,
  and the final move of the strings down to the entries in use.
- `qsort` is some sorted permutation, with no promise about equal elements. CRC functions are parameters: every
  statement holds for any hash. `strncmp` and `memcmp` return the sign of the byte order. Floating-point division
  in pg_trgm is division of reals followed by any monotone rounding.
- Trees of index entries are well built when every inner key covers the keys right below it; union, compress and
  picksplit are shown to build such trees, and search completeness is proved for all of them at any depth.
- Inductive lemmas make their calls themselves: automatic induction is switched off wherever it would apply.

## What holds only under a condition

Each of these is proved as an equivalence, or with a concrete input for the failing side.

- An old-format hstore whose first value is null with a stale length of 32768 or more is taken for a new-format
  one and left alone (`HStoreCompat.OldTakenForNew`, `HStoreCompat.StaleNullTakenForNew`).
- The range compressor yields the smallest cover by 100 ranges exactly when no gap between neighbours exceeds
  2147483647 (`IntCompress.SmallestIff`). A key with such a gap stands for more integers than an int counts
  (`IntCompress.WideIsHuge`), and for one of them the computed size is -1 (`IntCompress.SizeWraps`).
- A key of 200 or more elements can be compressed and read back exactly when it has at most 134217724 elements,
  these stop short of 2147483647, no gap exceeds 2147483647, and some cover by 100 ranges has at most 268435449
  integers, as many as palloc can hold (`IntCompress.RoundTrip`, `IntCompress.Compress`, `IntCompress.ExtentFits`,
  `IntCompress.ExpansionEnds`).
- A leaf key of 200 or more elements is read back as if it were ranges, and survives exactly when it consists of
  pairs of neighbours (`IntCompress.LeafReadBack`). Containment and boolean answers at a leaf are the operator's
  exactly for such keys and for short ones (`IntGist.LeafIsExact`, `IntGist.BooleanLeafComplete`).
- Index search for equality with the empty array finds nothing (`IntGist.SearchIsComplete`), and boolean search
  in an index differs from the operator on empty arrays (`IntGist.BooleanLeaf`, `IntBool.GinAgrees`).
- A query link reaches its left operand exactly when the right operand has fewer than 32768 items
  (`IntBool.LinkExact`, `IntBool.ShortIsReachable`, `IntBool.FarLink`).
- The sign of `ltree_compare` is the order of paths except between a path and an ancestor so many levels above
  that the last product leaves 32 bits with the wrong sign; 14653 levels are always safe and 14654 are not
  (`LTree.CompareCorrect`, `LTree.DepthLimit`, `LTree.DeepComparesWrong`).
- Below, a path lies too far below another where that happens. The order operators of ltree say what they stand for
  exactly unless the path lies too far below the query (`LTreeGist.OpMeans`). A leaf answers as they do exactly
  unless one of the two lies too far below the other (`LTreeGist.LeafIsExact`). A key above a path that satisfies
  the operator accepts the query exactly unless the strategy compares the query with a left end it lies too far
  below, or, for < and <=, the left end is behind the query (`LTreeGist.SearchIsComplete`); lost and misplaced rows
  are given (`LTreeGist.DeepPathLost`, `LTreeGist.DeepPathMisplaced`).
- An ltree union spans its page exactly when a least left end is not turned away and a greatest right end is not
  given up for one it lies too far below (`LTreeGist.LeastIs`, `LTreeGist.GreatestIs`, `LTreeGist.Union`,
  `LTreeGist.DeepUnionWrong`); picksplit's halves likewise (`LTreeGist.PickSplit`).

## Model

| member | source | states |
|---|---|---|
| `Levenshtein.LevenshteinInternal` | prlpg/contrib/fuzzystrmatch/fuzzystrmatch.c:193-284 | refused exactly for two non-empty strings of which one is longer than 255; otherwise the least cost over all edit scripts |
| `Levenshtein.FillRow` | prlpg/contrib/fuzzystrmatch/fuzzystrmatch.c:255-272 | one pass of the inner loop turns row j-1 of the notional table into row j |
| `Levenshtein.Achieved` | prlpg/contrib/fuzzystrmatch/fuzzystrmatch.c:239-283 | some script from one prefix to the other costs exactly the table entry |
| `Levenshtein.NoneCheaper` | prlpg/contrib/fuzzystrmatch/fuzzystrmatch.c:239-283 | no script costs less than the table entry |
| `Levenshtein.DistanceIsLeast` | prlpg/contrib/fuzzystrmatch/fuzzystrmatch.c:193-284 | the last entry is the minimum over all scripts, attained, for any costs |
| `Levenshtein.DistanceReversed` | prlpg/contrib/fuzzystrmatch/fuzzystrmatch.c:193-284 | swapping the strings swaps the insert and delete costs |
| `Levenshtein.Compose` | prlpg/contrib/fuzzystrmatch/fuzzystrmatch.c:193-284 | two scripts that meet compose into one that is no dearer than both |
| `Levenshtein.TriangleInequality` | prlpg/contrib/fuzzystrmatch/fuzzystrmatch.c:193-284 | for non-negative costs, going through a third string is never cheaper |
| `Levenshtein.ZeroExactlyOnEqual` | prlpg/contrib/fuzzystrmatch/fuzzystrmatch.c:193-284 | with positive costs the distance is zero exactly for equal strings |
| `Levenshtein.UnitDistanceIsMetric` | prlpg/contrib/fuzzystrmatch/fuzzystrmatch.c:193-284 | with unit costs the distance is a metric on strings of any length |
| `Levenshtein.EmptyEnds` | prlpg/contrib/fuzzystrmatch/fuzzystrmatch.c:209-216 | from the empty string every byte is inserted, to it every byte is deleted, each at its cost |
| `Levenshtein.OneByte` | prlpg/contrib/fuzzystrmatch/fuzzystrmatch.c:255-272 | one byte becomes another at the substitution cost or the cost of a deletion and an insertion, whichever is less |
| `StatTable.HashTable.EntryDealloc` | prlpg/contrib/pg_stat_statements/pg_stat_statements.c:967-998 | all of fewer than ten entries go, ten of fewer than two hundred, else one in twenty rounded down; none used more than a survivor; survivors keep 99 hundredths of their usage and all else |
| `StatTable.HashTable.EntryAlloc` | prlpg/contrib/pg_stat_statements/pg_stat_statements.c:911-944 | the key is in the table afterwards, keys stay unique, the table never exceeds its maximum, and a full table is evicted first |
| `StatTable.HashTable.EntryReset` | prlpg/contrib/pg_stat_statements/pg_stat_statements.c:1003-1018 | the table is empty afterwards |
| `StatTable.LeastFirst` | prlpg/contrib/pg_stat_statements/pg_stat_statements.c:949-998 | the first entries of any sort by usage are a least-used choice |
| `StatTable.Survivors` | prlpg/contrib/pg_stat_statements/pg_stat_statements.c:967-998 | eviction keeps keys unique, removes exactly so many entries and always makes room |
| `StatTable.EnteredNew` | prlpg/contrib/pg_stat_statements/pg_stat_statements.c:925-940 | a new statement enters with all counters zero, a usage of one and a free spinlock; other entries stay |
| `StatProtocol.StepKeepsInv` | prlpg/contrib/pg_stat_statements/pg_stat_statements.c:695-756 | every step of every backend keeps lock exclusion, live references, spinlock ownership, unique keys, the size limit and the balance of counters |
| `StatProtocol.RunKeepsInv` | prlpg/contrib/pg_stat_statements/pg_stat_statements.c:695-756 | the invariant holds in every state of every interleaving |
| `StatProtocol.RunIsSafe` | prlpg/contrib/pg_stat_statements/pg_stat_statements.c:6-11 | in every run: no duplicate key, at most the maximum of entries, each entry a backend refers to is in the table under its key, and no entry has two writers |
| `StatProtocol.RemovalSparesReferences` | prlpg/contrib/pg_stat_statements/pg_stat_statements.c:723-755 | no step of another backend removes an entry a lock holder refers to |
| `StatProtocol.StoresAreConserved` | prlpg/contrib/pg_stat_statements/pg_stat_statements.c:723-755 | at rest, completed stores equal the counters of live entries plus those evicted or reset, for each counter, over all statements and for each one |
| `StatProtocol.EntryShowsItsStores` | prlpg/contrib/pg_stat_statements/pg_stat_statements.c:723-755 | at rest, the live entry of a statement shows exactly its completed stores less what went with its earlier entries; without an entry all has gone |
| `StatProtocol.CallsCountReturns` | prlpg/contrib/pg_stat_statements/pg_stat_statements.c:740-755 | completed calls count exactly the stores that returned, over all statements and for each one |
| `StatProtocol.UsageFades` | prlpg/contrib/pg_stat_statements/pg_stat_statements.c:740-752 | at every point of every run a live entry's usage is one plus the usages stored since it was entered, each times 0.99 for every later eviction |
| `StatProtocol.NeverStuck` | prlpg/contrib/pg_stat_statements/pg_stat_statements.c:695-756 | no deadlock: in every reachable state with an unfinished backend some backend can move |
| `HStoreLayout.DecodeEncode` | prlpg/contrib/hstore/hstore.h:18-80 | packing pairs into entries and bytes and reading them back with the macros loses nothing |
| `HStoreLayout.EncodeDecode` | prlpg/contrib/hstore/hstore.h:18-80 | every well-shaped value is, byte for byte, the packing of its pairs |
| `HStoreLayout.EncodeValid` | prlpg/contrib/hstore/hstore.h:83-138 | packing sorted pairs gives a valid value that denotes their map |
| `HStoreLayout.SameMapSamePairs` | prlpg/contrib/hstore/hstore_op.c:1232-1242 | two sorted pair lists with one map are the same list |
| `HStoreLayout.Canonical` | prlpg/contrib/hstore/hstore_op.c:1232-1242 | valid values that denote the same map are the same bytes |
| `HStoreLayout.KeyLessMeans` | prlpg/contrib/hstore/hstore_io.c:279-305 | keys are ordered by length, and keys of one length by the first byte that differs |
| `HStoreLayout.SizeOf` | prlpg/contrib/hstore/hstore.h:44-62 | eight bytes of header, eight for each pair and one for each string byte, at most a gigabyte less one |
| `HStoreLayout.StoredTwo` | prlpg/contrib/hstore/hstore.h:18-80 | the stored form of a=>1 and b=>NULL, byte for byte |
| `HStoreBuild.Builder.CopyItem` | prlpg/contrib/hstore/hstore.h:90-98 | HS_COPYITEM appends one pair of the source, entries and bytes, within the buffer |
| `HStoreBuild.Builder.AddItem` | prlpg/contrib/hstore/hstore.h:103-117 | HS_ADDITEM appends one parsed pair, a null as an empty flagged value |
| `HStoreBuild.Builder.Finalize` | prlpg/contrib/hstore/hstore.h:120-131 | HS_FINALIZE yields exactly the packing of the pairs added, and the memory starts with its entries and strings side by side |
| `HStoreMemory.WritePair` | prlpg/contrib/hstore/hstore.h:90-117 | an item and its bytes, written into the one allocation, stand behind the entries and strings already there, which stay |
| `HStoreMemory.Flag` | prlpg/contrib/hstore/hstore.h:123-124 | HENTRY_ISFIRST is set in the first entry; all other entries and all strings stay |
| `HStoreMemory.Close` | prlpg/contrib/hstore/hstore.h:125-129 | moving the strings down over unused entries leaves entries and strings side by side, also when the regions overlap |
| `HStoreBuild.UniquePairs` | prlpg/contrib/hstore/hstore_io.c:307-347 | in place: strictly sorted keys, exactly the input keys, each pair from the input, and buflen the bytes they need |
| `HStoreBuild.CompactPairs` | prlpg/contrib/hstore/hstore_io.c:318-345 | the compaction loop over sorted pairs keeps one pair per key |
| `HStoreBuild.HStorePairs` | prlpg/contrib/hstore/hstore_io.c:370-397 | builds the packing of the pairs, refused exactly when it would exceed the allocation limit |
| `HStoreOps.FindKey` | prlpg/contrib/hstore/hstore_op.c:36-71 | for any admissible lower bound, the index of the key or -1, and a bound good for every later key |
| `HStoreOps.FoundOnce` | prlpg/contrib/hstore/hstore_op.c:36-71 | what a search with a carried bound finds is what a fresh search finds |
| `HStoreOps.ArrayToPairs` | prlpg/contrib/hstore/hstore_op.c:73-112 | strictly sorted pairs whose keys are exactly the non-null elements |
| `HStoreOps.ExistsAny` | prlpg/contrib/hstore/hstore_op.c:153-181 | true exactly when some element is a key |
| `HStoreOps.ExistsAll` | prlpg/contrib/hstore/hstore_op.c:186-214 | true exactly when there are non-null elements and all are keys |
| `HStoreOps.Delete` | prlpg/contrib/hstore/hstore_op.c:235-276 | map without the key, again valid |
| `HStoreOps.DeleteArray` | prlpg/contrib/hstore/hstore_op.c:281-355 | map without all the keys, again valid |
| `HStoreOps.DeleteHStore` | prlpg/contrib/hstore/hstore_op.c:360-453 | map without the pairs the other store has with equal value, again valid |
| `HStoreOps.Concat` | prlpg/contrib/hstore/hstore_op.c:458-551 | map override with the second operand winning, again valid; refused exactly when both sizes together exceed the allocation limit |
| `HStoreOps.SliceToHStore` | prlpg/contrib/hstore/hstore_op.c:620-677 | exactly the pairs of the asked keys, again valid |
| `HStoreOps.CollectSlice` | prlpg/contrib/hstore/hstore_op.c:643-670 | the collecting loop with a carried bound gathers the restriction in order and its exact size |
| `HStoreOps.Contains` | prlpg/contrib/hstore/hstore_op.c:955-997 | true exactly when the template is a sub-map |
| `HStoreOps.SubMapSize` | prlpg/contrib/hstore/hstore_op.c:620-677 | a sorted sub-map is no larger, in pairs and in bytes |
| `HStoreCmp.HStoreCompare` | prlpg/contrib/hstore/hstore_op.c:1076-1153 | negative exactly if the first comes before: empty first, then by string bytes as in a dictionary, then fewer pairs, then the earlier end or the value that is not null at the first entry that differs; positive exactly the other way round |
| `HStoreCmp.CmpMeans` | prlpg/contrib/hstore/hstore_op.c:1076-1153 | the same of the order itself |
| `HStoreCmp.CmpAntisymmetric` | prlpg/contrib/hstore/hstore_op.c:1076-1153 | exchanging the operands negates the result |
| `HStoreCmp.CmpTransitive` | prlpg/contrib/hstore/hstore_op.c:1076-1153 | the order is transitive |
| `HStoreCmp.CmpZero` | prlpg/contrib/hstore/hstore_op.c:1076-1153 | zero exactly for the same map |
| `HStoreCmp.CmpZeroIsSame` | prlpg/contrib/hstore/hstore_op.c:1076-1153 | zero exactly for the same bytes |
| `HStoreText.HSParser.GetVal` | prlpg/contrib/hstore/hstore_io.c:55-170 | the state machine over ptr and word yields the word, flag and position of its specification |
| `HStoreText.HSParser.ParseHStore` | prlpg/contrib/hstore/hstore_io.c:179-276 | accepts and collects exactly what the specification of the parser yields |
| `HStoreParse.ReadsSpelling` | prlpg/contrib/hstore/hstore_io.c:55-170 | every quoted or bare spelling is read as its word, with the pointer left right behind |
| `HStoreParse.SpellingSound` | prlpg/contrib/hstore/hstore_io.c:55-170 | every word read is spelled at that place |
| `HStoreParse.EndSound` | prlpg/contrib/hstore/hstore_io.c:55-170 | the end is reported exactly when only spaces are left |
| `HStoreGrammar.ReadsDoc` | prlpg/contrib/hstore/hstore_io.c:179-276 | every text of the grammar is accepted with its meaning |
| `HStoreGrammar.DocSound` | prlpg/contrib/hstore/hstore_io.c:179-276 | every accepted text is of the grammar |
| `HStoreGrammar.ParserIsGrammar` | prlpg/contrib/hstore/hstore_io.c:179-276 | a text yields given pairs exactly when the grammar derives it with that meaning |
| `HStoreGrammar.DocMeans` | prlpg/contrib/hstore/hstore_io.c:230-250 | each pair of a text means the words spelled, and NULL exactly for a bare null in any mixture of cases |
| `HStorePrint.Output.Cpw` | prlpg/contrib/hstore/hstore_io.c:1086-1098 | writes the text with quotes and backslashes escaped |
| `HStorePrint.EscapeSize` | prlpg/contrib/hstore/hstore_io.c:1086-1098 | escaping at most doubles a text |
| `HStorePrint.EscapeAdds` | prlpg/contrib/hstore/hstore_io.c:1086-1098 | escaping adds exactly one byte for each quote or backslash, and changes no other text |
| `HStorePrint.PlainPrinted` | prlpg/contrib/hstore/hstore_io.c:1141-1170 | a text without quotes and backslashes is printed between quotes as it is |
| `HStorePrint.PrintedLength` | prlpg/contrib/hstore/hstore_io.c:1121-1139 | the length computed in advance is the sum over the pairs |
| `HStorePrint.EstimateExact` | prlpg/contrib/hstore/hstore_io.c:1121-1139 | the length computed for a pair exceeds what it takes by exactly the bytes that need no escape |
| `HStorePrint.PrintAll` | prlpg/contrib/hstore/hstore_io.c:1141-1170 | everything is written inside a buffer of that length, with room for the terminator |
| `HStorePrint.PrintedTwo` | prlpg/contrib/hstore/hstore_io.c:1141-1170 | the text printed for a=>1 and b=>NULL |
| `HStorePrint.HStoreOut` | prlpg/contrib/hstore/hstore_io.c:1102-1173 | prints every valid value; refused exactly when the estimate exceeds the allocation limit |
| `HStoreRoundTrip.HStoreIn` | prlpg/contrib/hstore/hstore_io.c:402-418 | an error exactly for unparsable or oversized input, else the packing of a duplicate-free choice of the parsed pairs; it has exactly the keys the text says, each with a value said for it, NULL exactly for a bare null in any case |
| `HStoreRoundTrip.InIsFaithful` | prlpg/contrib/hstore/hstore_io.c:402-418 | the stored map has exactly the parsed keys, each with a value parsed for it |
| `HStoreRoundTrip.OnePair` | prlpg/contrib/hstore/hstore_io.c:402-418 | a text of one pair stores that pair |
| `HStoreRoundTrip.LowerCaseNull` | prlpg/contrib/hstore/hstore_io.c:245-250 | the text a=>null stores NULL |
| `HStoreRoundTrip.SpacesSkipped` | prlpg/contrib/hstore/hstore_io.c:55-110 | each of the six space characters is skipped around words |
| `HStoreRoundTrip.DistinctKeysStored` | prlpg/contrib/hstore/hstore_io.c:307-347 | pairs already strictly sorted pass duplicate removal unchanged |
| `HStoreRoundTrip.ParsePrinted` | prlpg/contrib/hstore/hstore_io.c:1102-1173 | the printed text parses to the pairs printed |
| `HStoreRoundTrip.RoundTrip` | prlpg/contrib/hstore/hstore_io.c:402-418 | reading any printed valid value gives back the identical value |
| `HStoreRoundTrip.OutThenIn` | prlpg/contrib/hstore/hstore_io.c:1102-1173 | hstore_out followed by hstore_in is the identity wherever hstore_out succeeds |
| `HStoreCompat.ValidOldFormat` | prlpg/contrib/hstore/hstore_compat.c:171-228 | non-zero exactly for ordered, contiguous old entries inside the value, whatever bytes it holds, 2 exactly for an exact size |
| `HStoreCompat.Varlena.RewriteEntries` | prlpg/contrib/hstore/hstore_compat.c:335-354 | each old entry is replaced, in place, by the two new entries of its pair |
| `HStoreCompat.Varlena.Upgrade` | prlpg/contrib/hstore/hstore_compat.c:335-360 | the whole rewrite, count and size included |
| `HStoreCompat.Upgraded` | prlpg/contrib/hstore/hstore_compat.c:335-360 | the rewritten value is well shaped and holds the same keys, values and nulls in the same order |
| `HStoreCompat.OldTakenForNew` | prlpg/contrib/hstore/hstore_compat.c:234-262 | an old value is left alone exactly when its first value is null with a stale length of 32768 or more |
| `HStoreCompat.StaleNullTakenForNew` | prlpg/contrib/hstore/hstore_compat.c:234-262 | such a value exists |
| `HStoreCompat.PackedWords` | prlpg/contrib/hstore/hstore.h:18-34 | two entries as 32-bit words |
| `HStoreCompat.OldTwo` | prlpg/contrib/hstore/hstore_compat.c:100-107 | the old stored form of a=>1 and b=>NULL |
| `Signature.Union` | prlpg/contrib/hstore/hstore_gist.c:284-315 | exactly the bits of all entries, all of them once an entry is all true |
| `Signature.UnionCovers` | prlpg/contrib/intarray/_intbig_gist.c:267-310 | the union covers each entry |
| `Signature.CompressInner` | prlpg/contrib/hstore/hstore_gist.c:145-166 | the flag form is used exactly for full signatures and keeps the bits |
| `Signature.PickSplit` | prlpg/contrib/hstore/hstore_gist.c:344-506 | every entry on exactly one side, neither side empty, each side's key covering its entries |
| `Signature.CoversLeaves` | prlpg/contrib/hstore/hstore_gist.c:284-506 | through any nesting of unions and splits a key covers every leaf below |
| `Signature.Parent` | prlpg/contrib/intarray/_intbig_gist.c:280-310 | union and compress over a page build a covering parent |
| `Signature.Split` | prlpg/contrib/intarray/_intbig_gist.c:339-501 | a split page becomes two covering parents that share out its entries |
| `HStoreGist.Compress` | prlpg/contrib/hstore/hstore_gist.c:109-144 | a leaf signature has exactly the bits of the keys and non-null values |
| `HStoreGist.Consistent` | prlpg/contrib/hstore/hstore_gist.c:509-610 | the answer of each strategy as a condition on the bits of the key |
| `HStoreGist.NeverMisses` | prlpg/contrib/hstore/hstore_gist.c:509-610 | a key covering a store that satisfies the operator is consistent |
| `HStoreGist.ConsistentIsTight` | prlpg/contrib/hstore/hstore_gist.c:509-610 | a key accepts a query only if it could stand above a store that satisfies the operator, but for exists-all without keys |
| `HStoreGist.SearchIsComplete` | prlpg/contrib/hstore/hstore_gist.c:509-610 | no key above a matching store rejects the query, for contains, exists, exists-all and exists-any |
| `IntArray.ISort` | prlpg/contrib/intarray/_int_tool.c:197-226 | ends on every input, sorts in place, and reports exactly whether elements repeat |
| `IntArray.Pass` | prlpg/contrib/intarray/_int_tool.c:208-223 | one pass settles one more place; a pass without a swap leaves a sorted array |
| `IntArray.DistinctPermuted` | prlpg/contrib/intarray/_int_tool.c:197-226 | whether elements repeat does not depend on their order |
| `IntArray.OrderMeans` | prlpg/contrib/intarray/_int_tool.c:197-226 | in order is rising from each element to the next, and strictly so without repeats |
| `IntArray.Unique` | prlpg/contrib/intarray/_int_tool.c:286-306 | in place: the elements once each, in order |
| `IntArray.Prepare` | prlpg/contrib/intarray/_int.h:42-47 | sorts and removes repeats only if the sort reported any; the result is the set of elements |
| `IntArray.InnerContains` | prlpg/contrib/intarray/_int_tool.c:11-47 | true exactly when both are non-empty and the second is a subset |
| `IntArray.InnerOverlap` | prlpg/contrib/intarray/_int_tool.c:49-80 | true exactly when they share an element |
| `IntArray.InnerUnion` | prlpg/contrib/intarray/_int_tool.c:82-137 | the union, in order, without repeats |
| `IntArray.Contains` | prlpg/contrib/intarray/_int_op.c:41-59 | on arrays in any order: both non-empty and the second a subset of the first |
| `IntArray.Subtract` | prlpg/contrib/intarray/_int_op.c:435-479 | the set difference, in order |
| `IntBool.SpellsOne` | prlpg/contrib/intarray/_int_bool.c:410-438 | postfix is unambiguous: items ending at one place spell one query |
| `IntBool.FindOprnd` | prlpg/contrib/intarray/_int_bool.c:410-438 | links the query that ends at pos, moves pos before it, changes nothing else |
| `IntBool.LinkQuery` | prlpg/contrib/intarray/_int_bool.c:488-489 | on a whole query every item is consumed and linked |
| `IntBool.LinkExact` | prlpg/contrib/intarray/_int_bool.c:424-436 | a link is the distance to the left operand exactly when the right operand has fewer than 32768 items |
| `IntBool.ShortIsReachable` | prlpg/contrib/intarray/_int_bool.c:424-436 | every query of at most 32768 items can be evaluated through its links |
| `IntBool.FarLink` | prlpg/contrib/intarray/_int_bool.c:424-436 | in a family of longer queries the link does not point back |
| `IntBool.Search` | prlpg/contrib/intarray/_int_bool.c:241-261 | binary search decides membership |
| `IntBool.Execute` | prlpg/contrib/intarray/_int_bool.c:272-299 | through the links, the value of the query tree, with or without negation |
| `IntBool.Consistent` | prlpg/contrib/intarray/_int_bool.c:304-327 | signconsistent and execconsistent give the value of the query for their notion of membership |
| `IntBool.BoolOp` | prlpg/contrib/intarray/_int_bool.c:380-408 | non-empty and the query true of the array's elements, in any order |
| `IntBool.GinConsistent` | prlpg/contrib/intarray/_int_bool.c:343-365 | with answers for the operands in order, the value of the query |
| `IntBool.GinAgrees` | prlpg/contrib/intarray/_int_bool.c:343-408 | ginconsistent and boolop agree exactly on non-empty arrays and on queries false of the empty set |
| `IntBool.Monotone` | prlpg/contrib/intarray/_int_bool.c:272-299 | with negation ignored, a query true of a set stays possible for every larger one |
| `IntBool.AndMeansAll` | prlpg/contrib/intarray/_int_bool.c:284-290 | values joined by & alone are all asked for |
| `IntBool.OrMeansSome` | prlpg/contrib/intarray/_int_bool.c:291-297 | of values joined by | alone one is asked for |
| `IntBool.NotMeansNot` | prlpg/contrib/intarray/_int_bool.c:278-283 | a negation holds exactly where its operand does not, and always when ignored |
| `IntBool.StoredForms` | prlpg/contrib/intarray/_int_bool.c:410-438 | the stored items of u&v, u|v and !u |
| `IntCover.FillIsLeast` | prlpg/contrib/intarray/_int_gist.c:185-223 | keeping the widest gaps open is smallest among all integer sets with no more maximal ranges that hold the elements |
| `IntCover.Exchange` | prlpg/contrib/intarray/_int_gist.c:205-218 | the cost of a greedy choice of gaps against any other, by their numbers |
| `IntCover.OpenBounded` | prlpg/contrib/intarray/_int_gist.c:185-223 | a set with m maximal ranges leaves fewer than m gaps open |
| `IntCover.FillStarts` | prlpg/contrib/intarray/_int_gist.c:185-223 | filling all but some gaps leaves at most one range more than there are open gaps |
| `IntCompress.Double` | prlpg/contrib/intarray/_int_gist.c:202-203 | in place from the end, every element becomes a range of itself |
| `IntCompress.SubWraps` | prlpg/contrib/intarray/_int_gist.c:210-215 | the difference compared is the one of 32 bits |
| `IntCompress.Narrowest` | prlpg/contrib/intarray/_int_gist.c:209-215 | finds a gap no wider, in 32 bits, than any other |
| `IntCompress.MergeOne` | prlpg/contrib/intarray/_int_gist.c:207-218 | closing that gap by memmove keeps a list of ranges over the elements, only narrower gaps being closed |
| `IntCompress.Compress` | prlpg/contrib/intarray/_int_gist.c:182-229 | short keys unchanged; others 100 ranges cut greedily by 32-bit width, exactly when an array of twice the length can be had |
| `IntCompress.InternalSize` | prlpg/contrib/intarray/_int_tool.c:272-283 | the number of integers the ranges expand to, cut to 32 bits |
| `IntCompress.RoomExact` | prlpg/contrib/intarray/_int_tool.c:228-234 | the array allocated for so many integers exists and holds them exactly up to 268435449 of them |
| `IntCompress.Decompress` | prlpg/contrib/intarray/_int_gist.c:231-294 | short keys unchanged; others refused, undefined or the integers of all ranges, exactly as the computed size and the last range decide |
| `IntCompress.KeyCovers` | prlpg/contrib/intarray/_int_gist.c:182-229 | whatever the gaps, the integers a key stands for hold every element, lie between the first and the last, and form at most so many ranges |
| `IntCompress.SmallestIff` | prlpg/contrib/intarray/_int_gist.c:205-218 | they are the smallest such set exactly when no gap exceeds 32 bits |
| `IntCompress.WideIsHuge` | prlpg/contrib/intarray/_int_gist.c:205-218 | a gap beyond 32 bits is closed, so that the key stands for more than 2147483647 integers |
| `IntCompress.ExtentFits` | prlpg/contrib/intarray/_int_gist.c:277-280 | an array can hold the key exactly when no gap is so wide and some cover by so many ranges fits |
| `IntCompress.RoundTrip` | prlpg/contrib/intarray/_int_gist.c:151-294 | compress then decompress: identity on short keys; on long ones a key comes back exactly under the stated condition, and is then the smallest cover by 100 ranges within the bounds of the elements |
| `IntCompress.SizeWraps` | prlpg/contrib/intarray/_int_tool.c:272-283 | a union of two runs whose key stands for 4294967295 integers, counted as -1 |
| `IntCompress.WalkEnds` | prlpg/contrib/intarray/_int_gist.c:282-285 | the 32-bit counter of a range passes its high end exactly below the largest integer |
| `IntCompress.ExpansionEnds` | prlpg/contrib/intarray/_int_gist.c:282-285 | all loops over a compressed key end exactly when its elements stop short of the largest integer |
| `IntCompress.LeafReadBack` | prlpg/contrib/intarray/_int_gist.c:161-180 | a leaf key of any length survives reading back exactly when it is short or consists of pairs of neighbours below the largest integer that fit an array |
| `IntCompress.LeafReadable` | prlpg/contrib/intarray/_int_gist.c:161-180 | a leaf key of 200 or more elements comes back at all exactly when its length is even, it ends short of the largest integer and its ranges fit an array |
| `IntCompress.LeafCovers` | prlpg/contrib/intarray/_int_gist.c:161-180 | if a leaf key is read back at all, it holds its elements |
| `IntGist.Consistent` | prlpg/contrib/intarray/_int_gist.c:39-109 | the answer of each set strategy as a condition on key and query sets |
| `IntGist.GSame` | prlpg/contrib/intarray/_int_gist.c:321-350 | equality of the two arrays |
| `IntGist.Union` | prlpg/contrib/intarray/_int_gist.c:111-146 | exactly the elements of all keys, in order, once each |
| `IntGist.LeafEntry` | prlpg/contrib/intarray/_int_gist.c:161-180 | an array becomes a leaf entry whose key covers it exactly when its sorted elements can be read back, always if fewer than 200 |
| `IntGist.LeafKeyIs` | prlpg/contrib/intarray/_int_gist.c:161-180 | a leaf key has exactly the elements of its array exactly when it comes back as stored |
| `IntGist.Parent` | prlpg/contrib/intarray/_int_gist.c:111-294 | union, compress and decompress over a page of leaves or of parents build a covering parent, exactly unless the compressed union cannot be read back |
| `IntGist.SearchIsComplete` | prlpg/contrib/intarray/_int_gist.c:39-109 | for arrays of any length, a key above a matching array accepts the query exactly unless an empty array is sought by equality; at the leaf the exact condition for grown keys is given |
| `IntGist.InnerIsTight` | prlpg/contrib/intarray/_int_gist.c:39-109 | an inner key accepts a query exactly if it could stand above an array that satisfies the operator, the empty array by equality excepted |
| `IntGist.Containment` | prlpg/contrib/intarray/_int_op.c:28-59 | the two containment strategies are the operators @> and <@ |
| `IntGist.LeafIsExact` | prlpg/contrib/intarray/_int_gist.c:50-51 | for all strategies but equality, a leaf answers every query as the operator does exactly when its key comes back as stored |
| `IntGist.BooleanIsComplete` | prlpg/contrib/intarray/_int_gist.c:53-61 | boolean search rejects no inner key above an array that satisfies the query, nor a leaf that comes back as stored |
| `IntGist.BooleanLeafComplete` | prlpg/contrib/intarray/_int_gist.c:53-61 | a leaf's key satisfies every query its array does exactly when it comes back as stored |
| `IntGist.BooleanLeaf` | prlpg/contrib/intarray/_int_gist.c:53-61 | at such a leaf it agrees with the operator exactly unless the array is empty and satisfies the query |
| `IntBigGist.Compress` | prlpg/contrib/intarray/_intbig_gist.c:148-186 | a leaf signature has exactly the hashed bits of the elements |
| `IntBigGist.Consistent` | prlpg/contrib/intarray/_intbig_gist.c:503-622 | the answer of each set strategy as a condition on bits |
| `IntBigGist.SignOverlap` | prlpg/contrib/intarray/_intbig_gist.c:80-96 | true exactly when some element of the query hits |
| `IntBigGist.SignContains` | prlpg/contrib/intarray/_intbig_gist.c:98-114 | true exactly when every element of the query hits |
| `IntBigGist.NeverMisses` | prlpg/contrib/intarray/_intbig_gist.c:503-622 | bits covering a matching array are consistent, exactly unless an empty array is sought by equality |
| `IntBigGist.InnerIsTight` | prlpg/contrib/intarray/_intbig_gist.c:503-622 | an inner key accepts a query exactly if it could stand above an array that satisfies the operator, the empty array by equality excepted |
| `IntBigGist.SearchIsComplete` | prlpg/contrib/intarray/_intbig_gist.c:503-622 | no key above a matching array rejects the query |
| `IntBigGist.BooleanIsComplete` | prlpg/contrib/intarray/_intbig_gist.c:517-524 | nor one above an array that satisfies a boolean query |
| `LTree.LTreeCompare` | prlpg/contrib/ltree/ltree_op.c:60-86 | negative exactly if the first path is an ancestor or has the label that comes first in a dictionary where they first differ, or lies too far below; positive exactly the other way round |
| `LTree.PathMeans` | prlpg/contrib/ltree/ltree_op.c:60-86 | the order of paths, with indices: ancestors first, then the first label that differs, by prefix or first byte |
| `LTree.CompareCorrect` | prlpg/contrib/ltree/ltree_op.c:60-86 | its sign is the order of paths exactly when the last product keeps its sign |
| `LTree.CompareSigns` | prlpg/contrib/ltree/ltree_op.c:60-86 | each test of the result against zero, at every depth, as the order and the one exception |
| `LTree.CompareZero` | prlpg/contrib/ltree/ltree_op.c:60-86 | zero exactly for equal paths, at every depth |
| `LTree.DepthLimit` | prlpg/contrib/ltree/ltree_op.c:85 | level counts that differ by at most 14653 are safe, one more is not |
| `LTree.DeepComparesWrong` | prlpg/contrib/ltree/ltree_op.c:85 | every path of 14654 levels compares as smaller than the empty path |
| `LTree.PathOpposite` | prlpg/contrib/ltree/ltree_op.c:60-86 | exchanging paths negates the order, and only equal paths compare equal |
| `LTree.PathTransitive` | prlpg/contrib/ltree/ltree_op.c:60-86 | the order of paths is transitive |
| `LTree.IsParent` | prlpg/contrib/ltree/ltree_op.c:154-176 | true exactly for the path itself and its ancestors |
| `LTree.Lca` | prlpg/contrib/ltree/ltree_op.c:424-487 | nothing exactly when some path is empty, else the longest path properly above all |
| `LTreeGist.Hashing` | prlpg/contrib/ltree/ltree_gist.c:152-166 | adds exactly the bits of the labels |
| `LTreeGist.Union` | prlpg/contrib/ltree/ltree_gist.c:168-250 | bits of all entries; it spans every entry exactly if its comparisons find the least left and the greatest right end |
| `LTreeGist.LowerIs` | prlpg/contrib/ltree/ltree_gist.c:192-211 | the left end chosen of two is the lower exactly unless the one held lies too far below the other |
| `LTreeGist.UpperIs` | prlpg/contrib/ltree/ltree_gist.c:194-214 | the right end chosen of two is the upper exactly under the like condition, in union and in picksplit |
| `LTreeGist.LeastIs` | prlpg/contrib/ltree/ltree_gist.c:192-211 | the left end chosen is least exactly if a least path does not come when the end held lies too far below it |
| `LTreeGist.GreatestIs` | prlpg/contrib/ltree/ltree_gist.c:194-214 | the right end chosen is greatest exactly if a greatest path is kept: in union no later path is one it lies too far below, in picksplit it does not lie too far below the end held when it comes |
| `LTreeGist.SafeFinds` | prlpg/contrib/ltree/ltree_gist.c:168-250 | both ends are found if no path lies too far below another |
| `LTreeGist.DeepUnionWrong` | prlpg/contrib/ltree/ltree_gist.c:192-193 | of a path of 14654 levels and the empty path the union keeps the wrong left end |
| `LTreeGist.ShallowIsSafe` | prlpg/contrib/ltree/ltree_gist.c:168-250 | paths of at most 14653 levels are safe together |
| `LTreeGist.PickSplit` | prlpg/contrib/ltree/ltree_gist.c:286-441 | every entry on exactly one side, neither side empty; each side's key spans it exactly if its ends are found, as they are if no end lies too far below another |
| `LTreeGist.GistIsParent` | prlpg/contrib/ltree/ltree_gist.c:443-461 | true exactly when the comparisons place some ancestor of the query between the ends, at every depth |
| `LTreeGist.GistIsChild` | prlpg/contrib/ltree/ltree_gist.c:472-495 | true exactly when they place the query between the ends cut to its length, at every depth |
| `LTreeGist.Consistent` | prlpg/contrib/ltree/ltree_gist.c:624-687 | the answer of each order and ancestry strategy as a condition on the ends and the depth exception |
| `LTreeGist.TruncMonotone` | prlpg/contrib/ltree/ltree_gist.c:472-495 | cutting paths to one length keeps their order |
| `LTreeGist.OpMeans` | prlpg/contrib/ltree/ltree_op.c:102-143 | an operator agrees with the order of paths exactly unless the path lies too far below the query |
| `LTreeGist.MeantNeverMissed` | prlpg/contrib/ltree/ltree_gist.c:624-687 | by the order of paths, ends around a matching path are consistent exactly unless the strategy compares the query with a left end it lies too far below |
| `LTreeGist.InnerIsTight` | prlpg/contrib/ltree/ltree_gist.c:624-687 | for queries of at most 14653 levels an inner key accepts exactly if some path between its ends could match, the ends themselves counting for < and > |
| `LTreeGist.NeverMisses` | prlpg/contrib/ltree/ltree_gist.c:624-687 | ends around a path that satisfies the operator are consistent exactly unless so, or a left end behind the query meets < or <=, as only a path too far below the query allows |
| `LTreeGist.LeafIsExact` | prlpg/contrib/ltree/ltree_gist.c:624-687 | at a leaf the answer is the operator's exactly unless an order strategy meets a path and a query of which one lies too far below the other |
| `LTreeGist.DeepPathLost` | prlpg/contrib/ltree/ltree_gist.c:652-662 | a path of 14654 levels is not found by equality below a key that starts at the empty path |
| `LTreeGist.DeepPathMisplaced` | prlpg/contrib/ltree/ltree_gist.c:640-672 | a path of 14654 levels that < has before the empty path is found there neither at its leaf nor above, and >= returns it though the operator does not |
| `LTreeGist.SearchIsComplete` | prlpg/contrib/ltree/ltree_gist.c:624-687 | a key above a path of any depth that satisfies the operator accepts the query exactly under that condition, for all seven strategies |
| `LTreeGist.Parent` | prlpg/contrib/ltree/ltree_gist.c:168-250 | union over a page builds a parent, well built exactly if union finds its ends |
| `LTreeGist.Split` | prlpg/contrib/ltree/ltree_gist.c:286-441 | a split page becomes two parents that share out its entries, each well built exactly if its ends are found |
| `Feistel.DownUndoesUp` | prlpg/contrib/pgcrypto/blf.c:248-318 | sixteen rounds down undo sixteen rounds up, for any mixing function and round keys |
| `Feistel.UpUndoesDown` | prlpg/contrib/pgcrypto/blf.c:248-318 | and the other way round |
| `Feistel.DownIsUp` | prlpg/contrib/pgcrypto/blf.c:248-318 | going down is going up with the round keys reversed |
| `Feistel.UpTraces` | prlpg/contrib/pgcrypto/blf.c:250-284 | the rounds are a recurrence of seventeen words in which the round keys go in from first to last |
| `Blowfish.BlowfishEncrypt` | prlpg/contrib/pgcrypto/blf.c:252-284 | the rounds on xL and xR compute the block cipher |
| `Blowfish.BlowfishDecrypt` | prlpg/contrib/pgcrypto/blf.c:286-318 | the reverse rounds compute its inverse |
| `Blowfish.MixReads` | prlpg/contrib/pgcrypto/blf.c:248-249 | the mixing function reads one word of each box, of the first at the highest byte down to the last at the lowest |
| `Blowfish.BlendAddsLast` | prlpg/contrib/pgcrypto/blf.c:248 | adding to the last word adds to the mixture |
| `Blowfish.BlendXorsThird` | prlpg/contrib/pgcrypto/blf.c:248 | xoring into the third word xors into the mixture less the last |
| `Blowfish.BlendAddsFirst` | prlpg/contrib/pgcrypto/blf.c:248 | adding to the first or the second word adds to what is left when the last two are taken out |
| `Blowfish.EncryptTraces` | prlpg/contrib/pgcrypto/blf.c:252-284 | encryption is that recurrence and ends with its last two words |
| `Blowfish.EncryptOne` | prlpg/contrib/pgcrypto/blf.c:248-284 | a block encrypted with boxes that pass the lowest byte on |
| `Blowfish.DecryptEncrypt` | prlpg/contrib/pgcrypto/blf.c:248-318 | decryption undoes encryption for all tables and blocks |
| `Blowfish.EncryptDecrypt` | prlpg/contrib/pgcrypto/blf.c:248-318 | encryption undoes decryption |
| `Blowfish.GetPut` | prlpg/contrib/pgcrypto/blf.c:44-52 | a stored block is loaded back |
| `Blowfish.PutGet` | prlpg/contrib/pgcrypto/blf.c:44-52 | a loaded block is stored back as the same bytes |
| `Blowfish.JoinIsBigEndian` | prlpg/contrib/pgcrypto/blf.c:44-48 | the first byte of a word is the most significant |
| `Blowfish.Context.EncryptCbc` | prlpg/contrib/pgcrypto/blf.c:320-351 | in place: the first len bytes become their chained encryption, the rest is untouched, and the vector is carried on |
| `Blowfish.Context.DecryptCbc` | prlpg/contrib/pgcrypto/blf.c:353-384 | in place: the first len bytes become their chained decryption, the rest is untouched, and the vector is carried on |
| `Blowfish.EncChains` | prlpg/contrib/pgcrypto/blf.c:320-351 | each block is xored with the encrypted block before it, the first with the vector, and then encrypted; the last is left as vector |
| `Blowfish.DecEnc` | prlpg/contrib/pgcrypto/blf.c:320-384 | decryption with the same vector restores any number of blocks and leaves the same vector |
| `Blowfish.EncDec` | prlpg/contrib/pgcrypto/blf.c:320-384 | encryption restores decrypted blocks and leaves the same vector |
| `Blowfish.EncSplit` | prlpg/contrib/pgcrypto/blf.c:320-351 | encrypting in several calls is encrypting in one |
| `Blowfish.DecSplit` | prlpg/contrib/pgcrypto/blf.c:353-384 | decrypting in several calls is decrypting in one |
| `Trgm.UniqueArray` | prlpg/contrib/pg_trgm/trgm_op.c:41-59 | in place: the trigrams once each, in order |
| `Trgm.CmpMeans` | prlpg/contrib/pg_trgm/trgm.h:24-26 | trigrams are ordered by the first character that differs |
| `Trgm.CntSml` | prlpg/contrib/pg_trgm/trgm_op.c:299-336 | the number of shared over that of united trigrams, rounded; nothing exactly for two empty sets |
| `Trgm.CountShared` | prlpg/contrib/pg_trgm/trgm_op.c:315-330 | the two-pointer loop counts exactly the shared trigrams |
| `Trgm.MakeSign` | prlpg/contrib/pg_trgm/trgm_gist.c:77-92 | exactly the hashed bits and the last, unused one |
| `Trgm.UnionKey` | prlpg/contrib/pg_trgm/trgm_gist.c:231-258 | adds exactly the bits of an entry or reports it all true |
| `Trgm.Union` | prlpg/contrib/pg_trgm/trgm_gist.c:261-292 | builds a parent whose key covers its page |
| `Trgm.Consistent` | prlpg/contrib/pg_trgm/trgm_gist.c:203-226 | accepts exactly when all-true, all hit, or hits over misses reach the limit |
| `Trgm.PossibleMeans` | prlpg/contrib/pg_trgm/trgm_gist.c:203-226 | without rounding the test is that the hits are at least the limit times the misses, or all |
| `Trgm.NeverMisses` | prlpg/contrib/pg_trgm/trgm_gist.c:203-226 | a key covering a row as similar as the limit asks passes, for any limit and any monotone rounding |
| `Trgm.GinConsistent` | prlpg/contrib/pg_trgm/trgm_gin.c:66-97 | counts the true answers and accepts exactly when all are true or they reach the limit over the others |
| `Trgm.AnswersCount` | prlpg/contrib/pg_trgm/trgm_gin.c:85-87 | right answers count exactly the trigrams shared |
| `Trgm.GinNeverMisses` | prlpg/contrib/pg_trgm/trgm_gin.c:66-97 | with right answers, the condition it tests holds for every row as similar as the limit asks |
| `Trgm.SearchIsComplete` | prlpg/contrib/pg_trgm/trgm_gist.c:203-292 | no signature above a similar row rejects the query |

## Left out

- Levenshtein.LevenshteinInternal: costs are unbounded integers, so overflow of int with very large costs is not modelled.
- HStoreGist.Compress: reads the decoded pairs of the store, which the accessor macros give one by one.
- HStoreCompat.Upgraded: the string bytes in use hold no NUL, as in text values; bytes behind them may be anything.
- IntGist.Union: the allocation of the concatenated keys is not modelled.
- IntCompress.Decompress: where the code reads or writes outside an array, or does not end, the outcome is only named.
- LTreeGist.PickSplit: the two halves are gathered one after the other instead of in one loop.
- Blowfish.BlowfishEncrypt: the sixteen unrolled rounds are written as a loop over the round number.
- Signature.PickSplit: which side an entry goes to is a heuristic; the choice is modelled, its quality is not stated.
- hstoreUpgrade's recognition of new-format values written without the version flag by an early release.
- hstore: isspace is that of the C locale; conversions to and from arrays, records and sets of rows.
- intarray: parsing and printing of query texts, shorterquery, inner_int_inter, picksplit of the array operator class, sorting in descending order, array editing functions.
- ltree: lquery and ltxtquery matching and their index strategies, array operator classes, text input and output.
- pg_trgm: extraction of trigrams from text, picksplit, and the cache of the last query.
- pgcrypto: the key schedule, the electronic-codebook mode, and every other cipher and hash.
- pg_stat_statements: reading and writing the dump file, query normalization, timing hooks.
- Penalty functions, CRC tables, the function-manager interface, detoasting, memory management and error texts.
- The rest of contrib: cube, btree_gist, isn, metaphone and soundex, dblink, pgbench and the administrative tools.
