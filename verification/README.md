# Models and proofs

This project models five pieces of logic and proves what they promise:

* the extendible hash table `PmEHash`, an index over persistent pages that must behave like a map
  while it splits buckets, doubles its directory and hands out bucket slots from pages;
* the search for a maximum bipartite matching behind unordered container matchers, and the two
  checks and the graph enumeration that go with it;
* the simple regular expression engine: validator, matcher, and the class that anchors patterns;
* the prerequisite graph of mock expectations: its three traversals and what handling a call changes;
* the two prime tables: trial division and the sieve.

## How it is built

`PmEHash` is modelled twice. The class `PmTable.PmEHash` has the source's fields and bucket objects and
changes them in place, with aliased directory entries; `BucketObject.Bucket` is one bucket. The value
models say what a state means: `Buckets` (one bucket), `HashIndex` (directory and buckets), `HashRuns`
(operations and runs), `PageStore` and `PageLayout` (address array, catalog files, data pages). Every
method of the class is proved equal to a step of the value models, and the properties are proved about
those steps, so that `PmTable.PmEHash.FreshRun` can state them for real objects and any sequence of
operations. A `HashIndex.Division` describes a split under way: which residue class leaves which bucket
for which. `Divergence` holds runs from the fresh table that lose copies. Bucket number k is the k-th
bucket the allocator created: slot k % 16 of page k / 16.

`Graphs` holds matchings, covers and the numbering of graphs; `Matching` holds the matrix, the search and
the checks. `RegexPatterns` holds syntax trees, their texts, parsing and the language they denote;
`RegexTexts` says what atoms and plain texts match, in terms of character codes and of the text itself;
`SimpleRegex` holds the validator, the matcher and the class `RE`. `BitOps` and `Bitmaps` hold the bit
expressions, `Pigeonhole` two counting arguments. `Expectations` and `Primes` stand alone.

Three properties that the source's comments or names suggest do not hold of the code; each is stated
with the exact condition under which it does, and with a concrete input, or a run from the fresh table,
on which it fails:

* A full match is a match of the whole string if and only if the pattern does not end in an escaped `$`
  (`SimpleRegex.FullMatchExactness`, `SimpleRegex.EscapedDollarExample`): `RE::Init` takes the last
  character of the text for an anchor.
* The flat array of bucket addresses follows a split if and only if the bucket has local depth g or
  g - 1 (`PageStore.AddressesAfterSplit`): a split redirects every entry of the new bucket but writes
  the flat array at one position. The catalog files do follow the split, and lose that when a later
  doubling writes them anew from the flat array (`PageStore.CatalogAfterSplit`). A run of 32 insertions
  into a fresh table makes a flat address wrong, and one more insertion the catalog files
  (`Divergence.RunsLoseAddresses`).
* After a removal that hits, the page holds exact copies of the buckets if and only if the bucket is the
  first of its page, and an update has a similar condition (`PageStore.RemoveExactness`,
  `PageStore.UpdateExactness`, `Divergence.TwoOperationsLoseTheCopy`): both write through the first
  bucket copy of the page. The table in memory is not affected.

The header of the table says that file numbers start at 1 and the code starts at 0; the model follows
the code. The two prime tables agree on the next prime of p if and only if p is not negative
(`Primes.TablesAgree`). Expressions over 32-bit ints are proved to have the modelled values up to global
depth 30 (`HashRuns.TableIsMapWithinInt`) and, in trial division, up to the primes below 46340 squared.

## Model

| member | source | states |
|---|---|---|
| BitOps.AndMask | src/pm_ehash.cpp:318-322 | masking with `(1 << g) - 1` is the residue modulo 2^g |
| BitOps.ShiftInInt | src/pm_ehash.cpp:320 | the shifted one has the value 2^d over 32-bit ints exactly up to depth 30 |
| BitOps.BitByBit | src/pm_ehash.cpp:397-398 | the operators on unsigned words combine bits of equal position |
| BitOps.NotFlips | src/pm_ehash.cpp:397-398 | the complement flips every bit of the width |
| BitOps.SplitTarget | src/pm_ehash.cpp:397-398 | on unsigned words of any width the expression for the other half of a split names the position that differs in bit l |
| BitOps.BuddyResidue | src/pm_ehash.cpp:409-416 | that position agrees modulo 2^l and differs modulo 2^(l+1), and every number of the old residue class falls into one of the two new ones |
| BitOps.BuddyRange | src/pm_ehash.cpp:397-401 | that position lies in the directory exactly when the local depth is below the global depth |
| Bitmaps.FullBytes | src/pm_ehash.cpp:332 | the bytes 255 and 254 mean that exactly the first fifteen bits are set |
| Bitmaps.BitOrder | src/pm_ehash.cpp:242-270 | slots 0 to 7 are the bits 128 to 1 of the first byte and slots 8 to 15 those of the second |
| Bitmaps.SetFirst | src/pm_ehash.cpp:354-357 | the xor expression sets one bit of the first byte and changes no other |
| Bitmaps.SetSecond | src/pm_ehash.cpp:366-369 | the same for the second byte |
| Bitmaps.ClearFirst | src/pm_ehash.cpp:177-178 | the mask expression clears one bit of the first byte and changes no other |
| Bitmaps.ClearSecond | src/pm_ehash.cpp:187-188 | the same for the second byte |
| Bitmaps.SetPageBit | src/pm_ehash.cpp:602 | the xor expression sets the bit of one slot in the page bitmap and changes no other |
| Bitmaps.PageBitOrder | src/pm_ehash.cpp:602 | slots 0 to 15 of a page are the bits 0x8000 to 1 of its bitmap |
| Buckets.PutLookup | src/pm_ehash.cpp:142-145 | storing a new key in a free slot adds that key to what lookups find, changes nothing else and keeps keys unique |
| Buckets.DropLookup | src/pm_ehash.cpp:176-183 | clearing a live slot removes its key from what lookups find and nothing else |
| Buckets.StoreLookup | src/pm_ehash.cpp:215-221 | storing a value in a live slot changes the answer for its key only |
| BucketObject.Bucket.IsFull | src/pm_ehash.cpp:332 | the test on the two bytes is true exactly when all fifteen slots are taken |
| BucketObject.Bucket.FindSlot | src/pm_ehash.cpp:242-270 | the scan with a shifted probe byte finds the first live slot that holds the key, or none |
| BucketObject.Bucket.TakeFreeSlot | src/pm_ehash.cpp:345-379 | claims the first free slot, sets its bit only, and fails only on a full bucket |
| BucketObject.Bucket.Add | src/pm_ehash.cpp:142-144 | stores a pair in the first free slot and leaves the rest of the bucket |
| BucketObject.Bucket.Clear | src/pm_ehash.cpp:177-188 | clears the occupancy bit of one slot and leaves its contents |
| HashIndex.DoubledConsistent | src/pm_ehash.cpp:500-537 | doubling keeps the directory invariant: size 2^g, depths, sharing by residue, placement of keys, allocation |
| HashIndex.DoublingInvisible | src/pm_ehash.cpp:529-534 | after doubling every 64-bit key reaches the bucket it reached before and both halves equal the old directory |
| HashIndex.DividedConsistent | src/pm_ehash.cpp:404-425 | redirecting one residue class and redistributing a full bucket keeps the directory invariant, raises the depth by one and leaves all other entries |
| HashIndex.SplitKeeps | src/pm_ehash.cpp:386-425 | a split keeps the whole invariant, answers every lookup as before, takes one new bucket and changes no other one |
| HashIndex.SplitDeepens | src/pm_ehash.cpp:329-338 | a split raises the depth of the key's bucket by exactly one |
| HashIndex.SplitConserves | src/pm_ehash.cpp:386-425 | the pairs of the two buckets after a split are those of the full bucket as a multiset, separated by one bit of the key |
| HashRuns.FullBucketDepth | src/pm_ehash.cpp:329-338 | a full bucket holds fifteen distinct 64-bit keys of one residue class, so its local depth is at most 60 |
| HashRuns.MakeRoom | src/pm_ehash.cpp:329-338 | the split loop terminates, ends with room in the key's bucket, keeps invariant and lookups, and splits once per added depth |
| HashRuns.SplitLoopBound | src/pm_ehash.cpp:329-338 | one insertion splits at most 60 buckets |
| HashRuns.InsertKeeps | src/pm_ehash.cpp:138-157 | insertion keeps the invariant; it adds an absent key and changes nothing for a present one |
| HashRuns.RemoveKeeps | src/pm_ehash.cpp:167-195 | removal keeps the invariant and removes exactly the key; a miss changes nothing |
| HashRuns.UpdateKeeps | src/pm_ehash.cpp:202-234 | update keeps the invariant and changes exactly the value of the key; a miss changes nothing |
| HashRuns.FreshInv | src/pm_ehash.cpp:51-75 | the fresh table satisfies the invariant and holds no key |
| HashRuns.StepRefines | src/pm_ehash.cpp:138-270 | one operation on a table that represents a map returns what the map returns and represents the new map |
| HashRuns.RunRefines | src/pm_ehash.cpp:138-270 | the same for every sequence of operations |
| HashRuns.TableIsMap | src/pm_ehash.cpp:138-270 | every run from the fresh table returns the codes and values of a plain map and ends in a valid table that represents it |
| HashRuns.TurnWithinInt | src/pm_ehash.cpp:329-338 | a turn of the split loop uses no depth above the global depth at which the loop ends |
| HashRuns.TableIsMapWithinInt | src/pm_ehash.cpp:138-270 | a run that ends with global depth at most 30 is that of a plain map, and in every state on the way the 32-bit hash expression and shifts have the modelled values |
| HashRuns.LiveSlotsAreTheMap | src/pm_ehash.cpp:242-270 | the live slots of the buckets in use are exactly the map, each key in one slot of one bucket |
| HashRuns.EntriesOfBucket | src/pm_ehash.cpp:409-416 | a bucket of local depth l occurs exactly 2^(g-l) times in the directory |
| PageStore.AddrInverse | src/pm_ehash.cpp:655-661 | the address of a bucket determines page and slot: `(offset - 2) / 255` recovers the slot index |
| PageStore.FilesCoverDirectory | src/pm_ehash.cpp:502-508 | the catalog files cover the directory in the one-file and in the many-file regime |
| PageStore.SplitStoreKeeps | src/pm_ehash.cpp:426-453 | a split keeps page bitmaps right and page copies exact |
| PageStore.DoublingRefiles | src/pm_ehash.cpp:551-580 | after a split that doubles the directory the catalog files agree with the flat address array on all entries |
| PageStore.AddressesAfterSplit | src/pm_ehash.cpp:410-430 | the flat addresses still match the directory after a split if and only if the depth was g or g - 1 |
| PageStore.CatalogAfterSplit | src/pm_ehash.cpp:551-580 | the catalog files follow every split that keeps the directory size; after one that doubles it they match the directory if and only if the flat addresses did before |
| PageStore.ApplyStoreBits | src/pm_ehash.cpp:138-234 | every operation keeps the page bitmaps right: set exactly for the buckets in use |
| PageStore.RemoveExactness | src/pm_ehash.cpp:176-191 | after a removal that hits, page copies are exact if and only if the bucket is the first of its page |
| PageStore.UpdateExactness | src/pm_ehash.cpp:215-231 | after an update that hits, page copies are exact if and only if bucket and slot are the first ones, or both places held the value already |
| PageStore.InsertStoreKeeps | src/pm_ehash.cpp:138-157 | insertion, with any number of splits, keeps page bitmaps right and page copies exact |
| PageStore.InsertRunExact | src/pm_ehash.cpp:143-157 | every run of insertions and searches keeps all page copies exact |
| PageStore.PagesFollowRuns | src/pm_ehash.cpp:432-453 | from the fresh table the page bitmaps tell the used buckets after every run, and the page copies are exact after every run of insertions and searches |
| PageStore.RunSound | src/pm_ehash.cpp:329-338 | on every run the global depth stays at most 61 |
| PageLayout.WithItemEffect | src/pm_ehash.cpp:413-414 | writing an item at (i / 512, i % 512) changes catalog entry i and no other |
| PageLayout.WithCopyEffect | src/pm_ehash.cpp:150-155 | writing a bucket copy changes the copy of that bucket and neither another copy nor a page bitmap |
| PageLayout.AllWritten | src/pm_ehash.cpp:551-580 | files written item by item in both halves hold the doubled address array, followed by zeros |
| PmTable.PmEHash.HashFunc | src/pm_ehash.cpp:318-322 | the 32-bit mask expression, up to depth 30, gives the residue of the key modulo the directory size |
| PmTable.PmEHash.constructor | src/pm_ehash.cpp:51-75 | a table over fresh files is valid: one page, two empty buckets of depth 1, one catalog file |
| PmTable.PmEHash.FreshObject | src/pm_ehash.cpp:51-75 | the numbers and contents of its fields: depth 1, two different empty buckets, their addresses on file, their two page bits |
| PmTable.PmEHash.Search | src/pm_ehash.cpp:242-270 | code and value of a search; a miss leaves the reference argument as it was |
| PmTable.PmEHash.Insert | src/pm_ehash.cpp:138-157 | the table object changes as the value models say, in memory and on its pages; -1 exactly for a present key, and otherwise the bitmap bytes and all pairs of the key's bucket lie on its page |
| PmTable.PmEHash.Remove | src/pm_ehash.cpp:167-195 | the same for removal, which changes one bucket object only; -1 exactly for an absent key; on the pages nothing but one bit of the first copy of the page changes |
| PmTable.PmEHash.Update | src/pm_ehash.cpp:202-234 | the same for update; on the pages nothing but one value in the first copy of the page changes |
| PmTable.PmEHash.GetFreeBucket | src/pm_ehash.cpp:329-338 | the loop of splits terminates in the state that the value model reaches and returns the key's bucket |
| PmTable.PmEHash.SplitBucket | src/pm_ehash.cpp:386-454 | the statements of a split make up the split of the value models and keep the object structure |
| PmTable.PmEHash.FindTarget | src/pm_ehash.cpp:396-401 | the directory is doubled exactly when the bucket uses all its bits |
| PmTable.PmEHash.Redirect | src/pm_ehash.cpp:409-416 | gives exactly the entries of one residue class to the new bucket, in the directory and on file |
| PmTable.PmEHash.Rehash | src/pm_ehash.cpp:417-425 | every saved pair finds a free slot; each bucket ends with the pairs of its residue class in order |
| PmTable.PmEHash.WriteBack | src/pm_ehash.cpp:426-453 | the flat address at one position, the page bits and both bucket copies, byte by byte and pair by pair, and nothing else |
| PmTable.PmEHash.ExtendCatalog | src/pm_ehash.cpp:500-585 | both arrays are doubled into new ones and the catalog files hold the new addresses |
| PmTable.PmEHash.WriteCatalog | src/pm_ehash.cpp:551-580 | the loop that writes two items a turn and maps a file at every 512th writes item i to (i / 512, i % 512) and leaves zeros behind the last |
| PmTable.PmEHash.GetFreeSlot | src/pm_ehash.cpp:592-606 | takes the next bucket in order, from a new page if none is free, and marks its bit |
| PmTable.PmEHash.AllocNewPage | src/pm_ehash.cpp:613-673 | adds sixteen new, empty buckets to the free list and to both address maps, and a zero page |
| PmTable.PmEHash.BucketsConserved | src/pm_ehash.cpp:592-673 | the free list has no duplicates, is disjoint from the directory, and together they are the 16 * max_file_id buckets of the address map |
| PmTable.PmEHash.AddressesConserved | src/pm_ehash.cpp:592-673 | the address maps are inverse, addresses determine page and slot, and a page bit is set exactly for a bucket that is not free |
| PmTable.PmEHash.SlotIsInMap | src/pm_ehash.cpp:242-270 | every live slot of a bucket in the directory holds a pair of the map that the table represents |
| PmTable.PmEHash.KeyIsInSlot | src/pm_ehash.cpp:242-270 | every key of that map is with its value in a live slot of the bucket it is hashed to |
| PmTable.PmEHash.AddressOfBucket | src/pm_ehash.cpp:655-661 | bucket k has file k / 16 and offset 2 + 255 * (k % 16) |
| PmTable.PmEHash.PagesHoldBuckets | src/pm_ehash.cpp:150-155 | page copies are exact if and only if both bitmap bytes and all fifteen pairs of every bucket are found at its place |
| PmTable.PmEHash.CatalogHoldsAddresses | src/pm_ehash.cpp:410-430 | flat addresses and catalog items are right if and only if they are the mapped addresses of the buckets of the directory entries |
| PmTable.PmEHash.PerformAll | src/pm_ehash.cpp:138-270 | any sequence of operations on a valid table object reaches the state and gives the replies of the value models |
| PmTable.PmEHash.FreshRun | src/pm_ehash.cpp:138-270 | a new table object answers every sequence of operations like a plain map and represents it at the end; when the sequence only inserts and searches, the bytes and pairs of every bucket lie on its page |
| Divergence.TwoOperationsLoseTheCopy | src/pm_ehash.cpp:176-191 | inserting an odd key into the fresh table and removing it, or changing its value, leaves an inexact page copy |
| Divergence.RunsLoseAddresses | src/pm_ehash.cpp:410-430 | a run of 32 insertions from the fresh table leaves a wrong flat address and right catalog files; one insertion more leaves wrong catalog files |
| Graphs.CoverBounds | gtest/googlemock/src/gmock-matchers.cc:130-161 | a matching has no more edges than a set of nodes that covers it |
| Graphs.CertifiedMaximum | gtest/googlemock/src/gmock-matchers.cc:130-161 | a set of matched matchers that cuts off all other edges of the first l elements proves that no matching of these elements is larger |
| Graphs.CoverageIsSize | gtest/googlemock/src/gmock-matchers.cc:420-459 | a matching covers one side exactly when it has as many edges as that side has nodes |
| Graphs.MaximumDecides | gtest/googlemock/src/gmock-matchers.cc:420-459 | comparing the size of a maximum matching with the two sides decides whether the required pairings exist |
| Graphs.PairableIsBijection | gtest/googlemock/src/gmock-matchers.cc:420-459 | with both flags the requirement is a one-to-one correspondence of elements and matchers |
| Graphs.ElementForEachMatcher | gtest/googlemock/src/gmock-matchers.cc:420-459 | all matchers can be covered exactly when each can be given an element of its own |
| Graphs.MatcherForEachElement | gtest/googlemock/src/gmock-matchers.cc:420-459 | the same for the elements |
| Graphs.PairableHasNoLoneNode | gtest/googlemock/src/gmock-matchers.cc:370-417 | the cheap check never rejects a matrix that can be paired |
| Graphs.LoneNodeCheckIsIncomplete | gtest/googlemock/src/gmock-matchers.cc:370-417 | it accepts a matrix that cannot be paired |
| Graphs.SuccessorAddsOne | gtest/googlemock/src/gmock-matchers.cc:247-259 | the step adds one to the matrix read as a binary number and wraps from all ones to all zeros |
| Graphs.EveryGraphOnce | gtest/googlemock/src/gmock-matchers.cc:247-259 | starting from the empty matrix every matrix of the size is visited at exactly one of the first 2^n steps |
| Graphs.EnumerationEnds | gtest/googlemock/src/gmock-matchers.cc:247-259 | the last of those is the only full one, and the step behind it gives the empty matrix |
| Matching.TakeOver | gtest/googlemock/src/gmock-matchers.cc:198-203 | linking an element to a matcher whose element has moved away restores the mutual references except at the old matcher |
| Matching.FailureIsHallViolator | gtest/googlemock/src/gmock-matchers.cc:182-206 | the matchers seen by a failed search and their elements, with the start, form a set with fewer neighbours than members |
| Matching.MatchMatrix.SetEdge | gtest/googlemock/include/gmock/gmock-matchers.h:2850-2852 | changes one edge of the matrix and no other |
| Matching.MatchMatrix.NextGraph | gtest/googlemock/src/gmock-matchers.cc:247-259 | takes the matrix to its successor in place and returns false exactly from the full matrix |
| Matching.MaxBipartiteMatchState.TryAugment | gtest/googlemock/src/gmock-matchers.cc:182-206 | on success exactly the start is newly matched and matchers seen before or in a dead end keep their partners; on failure nothing changes and all edges of what was explored are seen; terminates |
| Matching.MaxBipartiteMatchState.TryElement | gtest/googlemock/src/gmock-matchers.cc:145-153 | one turn keeps the pairs found so far a maximum matching of the elements tried so far |
| Matching.ExhaustedIsMaximum | gtest/googlemock/src/gmock-matchers.cc:130-161 | if the unmatched among the first l elements have all edges into a dead end, the pairs of the first l elements are a maximum matching of them |
| Matching.MaxBipartiteMatchState.Compute | gtest/googlemock/src/gmock-matchers.cc:130-161 | returns a matching that no other matching exceeds, although each element is tried once; after l turns the pairs are a maximum matching of the first l elements |
| Matching.FindMaxBipartiteMatching | gtest/googlemock/src/gmock-matchers.cc:228-230 | the same for the function that callers use |
| Matching.FindPairing | gtest/googlemock/src/gmock-matchers.cc:420-459 | with the flag for supersets true exactly when a matching covers all matchers, with that for subsets all elements, with both both |
| Matching.VerifyMatchMatrix | gtest/googlemock/src/gmock-matchers.cc:370-417 | with the flag for supersets true exactly when every matcher has an edge, with that for subsets every element, with both both |
| Matching.AnalyzeElements | gtest/googlemock/include/gmock/gmock-matchers.h:3001-3025 | the matrix filled from the outcomes in row order has an edge for exactly the positive ones |
| Matching.AcceptMatrix | gtest/googlemock/include/gmock/gmock-matchers.h:2979-2996 | the shortcuts for empty and for different sizes and the cheap check never change the answer, which is that of the flags in terms of matchings |
| Matching.MatchAndExplain | gtest/googlemock/include/gmock/gmock-matchers.h:2971-2997 | as a superset: each matcher has an element of its own that it matches; as a subset: each element has a matcher of its own; exactly: both and equal numbers |
| RegexTexts.PlainAtom | gtest/googletest/src/gtest-port.cc:810 | `.` matches exactly the characters but the newline, any other unescaped atom exactly itself |
| RegexTexts.EscapedAtom | gtest/googletest/src/gtest-port.cc:792-808 | escaped punctuation matches exactly itself, the letters their classes of codes, complements or control characters, nothing else anything |
| RegexTexts.PunctuationMarks | gtest/googletest/src/gtest-port.cc:775-777 | the punctuation marks are the printable codes that are no letters, digits or spaces |
| RegexTexts.PlainMatches | gtest/googletest/src/gtest-port.cc:944-956 | a text of ordinary characters matches exactly the strings that contain it up to dots, at the start behind `^`, at the end before `$` |
| RegexTexts.ShortPatterns | gtest/googletest/src/gtest-port.cc:821-872 | which characters are patterns alone and which behind a backslash |
| RegexPatterns.ParseInvertsText | gtest/googletest/src/gtest-port.cc:821-872 | reading the text of a well-formed pattern gives the pattern back |
| RegexPatterns.TextInvertsParse | gtest/googletest/src/gtest-port.cc:821-872 | a text that can be read is the text of the pattern it is read as |
| RegexPatterns.MatchesHeadStep | gtest/googletest/src/gtest-port.cc:908-934 | a pattern matches at the head exactly when its first item takes some characters and the rest matches behind them |
| SimpleRegex.ScanIsParse | gtest/googletest/src/gtest-port.cc:821-872 | the scan with one flag of memory finds no error exactly in texts that can be read as patterns |
| SimpleRegex.ValidateRegex | gtest/googletest/src/gtest-port.cc:821-872 | accepts exactly the texts of patterns, and never a null pointer; in particular all texts of ordinary characters, and behind a backslash the punctuation marks and eleven letters |
| SimpleRegex.MatchRepetitionAndRegexAtHead | gtest/googletest/src/gtest-port.cc:881-903 | true exactly when some allowed number of characters matches the atom and the rest of the pattern matches behind them |
| SimpleRegex.MatchRegexAtHead | gtest/googletest/src/gtest-port.cc:908-934 | true exactly when a prefix is in the language of the pattern, the whole string if it ends in `$`; terminates |
| SimpleRegex.MatchRegexAnywhere | gtest/googletest/src/gtest-port.cc:944-956 | true exactly when a substring is in the language, a prefix under `^` and a suffix under `$`; for ordinary characters exactly when the string contains the text up to dots |
| SimpleRegex.AnchoredPattern | gtest/googletest/src/gtest-port.cc:989-1007 | the anchored text is valid and has the same items between anchors, without the anchor at the end if the text ends in an escaped `$` |
| SimpleRegex.FullMatchExactness | gtest/googletest/src/gtest-port.cc:966-968 | a full match means membership of the whole string, for all strings, if and only if the pattern does not end in an escaped `$` |
| SimpleRegex.EscapedDollarExample | gtest/googletest/src/gtest-port.cc:1003-1004 | a pattern of one escaped `$` fully matches a string outside its language |
| SimpleRegex.OneItemFullMatch | gtest/googletest/src/gtest-port.cc:881-903 | one atom with its repetition fully matches exactly the strings of an allowed length whose characters all match the atom |
| SimpleRegex.RepeatedCharacter | gtest/googletest/src/gtest-port.cc:881-903 | `a?`, `a*` and `a+` fully match at most one, any number of, and at least one `a` |
| SimpleRegex.EscapeAlone | gtest/googletest/src/gtest-port.cc:908-934 | an escape fully matches exactly the strings of one character that it stands for |
| SimpleRegex.RE.constructor | gtest/googletest/include/gtest/internal/gtest-port.h:922 | a new object is valid and keeps its pattern |
| SimpleRegex.RE.Init | gtest/googletest/src/gtest-port.cc:977-1008 | the object is valid exactly for texts of patterns and then holds the anchored text |
| SimpleRegex.RE.WriteAnchored | gtest/googletest/src/gtest-port.cc:989-1007 | the buffer of three more characters suffices and holds the anchored text |
| SimpleRegex.RE.FullMatch | gtest/googletest/src/gtest-port.cc:966-968 | true exactly for valid patterns and strings in the language, or with a prefix in it if the pattern ends in an escaped `$`; for ordinary characters exactly when the string is the text up to dots |
| SimpleRegex.RE.PartialMatch | gtest/googletest/src/gtest-port.cc:972-974 | true exactly for valid patterns that match a substring; for ordinary characters exactly when the string contains the text up to dots |
| Expectations.Expectation.RetireAllPreRequisites | gtest/googlemock/src/gmock-spec-builders.cc:104-127 | exactly the transitive prerequisites are newly retired and retirement is closed again, on every graph |
| Expectations.Expectation.AllPrerequisitesAreSatisfied | gtest/googlemock/src/gmock-spec-builders.cc:131-147 | terminates on every acyclic graph without a record of visited nodes; true exactly when every transitive prerequisite was called at least its minimum and at most its maximum of times |
| Expectations.Expectation.FindUnsatisfiedPrerequisites | gtest/googlemock/src/gmock-spec-builders.cc:151-178 | adds exactly the prerequisites called too rarely or too often that are reached through satisfied ones that were never called |
| Expectations.Expectation.ShouldHandleArguments | gtest/googlemock/include/gmock/gmock-spec-builders.h:1096-1106 | an expectation handles a call exactly when it is not retired, the call counts of its transitive prerequisites are within their bounds, and the arguments match |
| Expectations.Expectation.GetActionForArguments | gtest/googlemock/include/gmock/gmock-spec-builders.h:1192-1218 | counts the call; an action exactly if it was called less than its maximum before, and then exactly the transitive prerequisites, and on demand itself once the maximum is reached, are newly retired; keeps the invariant |
| Expectations.TransitiveIsLeast | gtest/googlemock/src/gmock-spec-builders.cc:104-127 | the transitive prerequisites lie in every set that holds the immediate ones and is closed under prerequisites |
| Expectations.TransitiveStep | gtest/googlemock/src/gmock-spec-builders.cc:104-127 | they are closed under prerequisites |
| Expectations.FrontierSteps | gtest/googlemock/src/gmock-spec-builders.cc:151-178 | reported are the immediate prerequisites outside their bounds, and what is reported at those within them that were never called |
| Expectations.ReplaceByPrerequisites | gtest/googlemock/src/gmock-spec-builders.cc:131-147 | replacing a node on the stack by its prerequisites lowers the number of paths from the stack |
| Expectations.PruningIsExact | gtest/googlemock/src/gmock-spec-builders.cc:151-178 | if what lies below called and satisfied nodes is satisfied, the pruned search finds nothing exactly when all transitive prerequisites are satisfied |
| Expectations.SoundPruning | gtest/googlemock/src/gmock-spec-builders.cc:151-178 | that holds in every state the invariant describes |
| Expectations.FindMatchingExpectation | gtest/googlemock/include/gmock/gmock-spec-builders.h:1728-1744 | the expectation declared last among those that can handle the call; it is not retired and matches |
| Expectations.HandleCall | gtest/googlemock/include/gmock/gmock-spec-builders.h:1694-1716 | exactly the chosen expectation counts the call; the call is excessive exactly if the maximum had been reached before, and otherwise gets an action and retires exactly what the expectation retires; the invariant is kept |
| Expectations.HandleCalls | gtest/googlemock/include/gmock/gmock-spec-builders.h:1694-1716 | after any sequence of calls everything below a retired expectation is retired, and everything below one called within its maximum is retired and called within its bounds |
| Primes.TrialDivision | gtest/googletest/samples/prime_tables.h:57-66 | trial division up to the square root decides primality |
| Primes.PrimeAbove | gtest/googletest/samples/prime_tables.h:68-74 | there is a prime above every number, so the search for the next one ends |
| Primes.OnTheFlyPrimeTable.IsPrime | gtest/googletest/samples/prime_tables.h:57-66 | true exactly for primes, on all integers; every square it computes is an int unless n is a prime from 46340 squared on |
| Primes.OnTheFlyPrimeTable.GetNextPrime | gtest/googletest/samples/prime_tables.h:68-74 | the next prime of every number from 0 on, and -1 below; every square and candidate is an int exactly if the answer is below 46340 squared |
| Primes.SkipComposite | gtest/googletest/samples/prime_tables.h:111-112 | skipping a candidate with a smaller divisor leaves the sieve as crossing out its multiples would |
| Primes.PreCalculatedPrimeTable.CalculatePrimesUpTo | gtest/googletest/samples/prime_tables.h:105-123 | for every max of at least 1 the entries are exactly the primes, although marking starts at the square and even candidates are skipped; below 1 it writes outside its array |
| Primes.PreCalculatedPrimeTable.IsPrime | gtest/googletest/samples/prime_tables.h:88-90 | true exactly for the primes that the table holds |
| Primes.PreCalculatedPrimeTable.GetNextPrime | gtest/googletest/samples/prime_tables.h:92-98 | from -1 on the next prime if the table holds it, otherwise -1; below that it reads outside its array |
| Primes.TablesAgree | gtest/googletest/samples/prime_tables.h:68-98 | an answer of the table is that of the other table if and only if the question is not negative, and it has none exactly when the next prime is beyond it |
| Primes.TablesDifferBelowZero | gtest/googletest/samples/prime_tables.h:68-98 | asked for -1 the tables answer 2, if it holds 2, and -1 |

## Left out

- PmTable.PmEHash.HashFunc: from depth 31 on the shifted int has no defined value in the source and is modelled as 2^depth; `BitOps.ShiftInInt` gives the bound and `HashRuns.TableIsMapWithinInt` the runs that stay within it.
- PmTable.PmEHash.FindTarget: the source compares the directory entry at the target position even when that lies past the end of the directory; the model tests for the end first.
- PmTable.PmEHash.ExtendCatalog: the copies of the old arrays are the old arrays themselves; data pages and catalog files are values inside sequences, because nothing else refers to them.
- PmTable.PmEHash.AllocNewPage: the local depth of a new bucket is indeterminate in the source until it is taken, and 0 in the model; a newly mapped file is zero; file numbers and offsets are unbounded.
- PmTable.PmEHash.Update: for the last bucket of a page the source writes behind the fifteen pairs of the first bucket copy; with natural alignment that place is unused, and the model writes nothing.
- HashRuns.TableIsMap: runs do not include `mergeBucket` (src/pm_ehash.cpp:462-493), which nothing calls and which puts a bucket in use on the free list.
- Reopening an existing table (`recover`, `mapAllPage`), the destructor, `selfDestory` and `display`: file and console input and output.
- Mapping, unmapping and persisting of files, and the construction of their names.
- SimpleRegex.MatchRegexAnywhere: strings are shorter than the largest `size_t`, as the source demands of its callers; a pointer is the string it points to, so aliasing of pointers is not modelled.
- SimpleRegex.ValidateRegex: the messages of the failures it reports are not modelled.
- Matching.MatchAndExplain: whether a matcher accepts an element is a table of outcomes; nothing is written to the listener; sizes and indices are unbounded, and the unused marker is -1.
- `MatchMatrix::Randomize` and `DebugString`: randomness and printing.
- Expectations.Expectation.ShouldHandleArguments: whether the arguments match is a parameter; locks, actions, descriptions and the check of the action count are not modelled.
- Expectations.HandleCall: which action is taken is not modelled, so an action that is the default one counts as an action.
- Expectations.Expectation.GetActionForArguments: cardinalities are the built-in ones with a lower and an upper bound; call counts are unbounded.
- Primes.OnTheFlyPrimeTable.IsPrime: integers are unbounded; what the source computes after an overflow of `i*i` is not modelled, only when that happens.
- Primes.OnTheFlyPrimeTable.GetNextPrime: the same for `i*i` and `n++`.
- Primes.PreCalculatedPrimeTable.CalculatePrimesUpTo: integers are unbounded, so the overflow of `max + 1`, of the squares and of the multiples is not modelled; nothing is said of the memory outside the array, which it writes for a maximum below 1.
- Primes.PreCalculatedPrimeTable.GetNextPrime: nothing is said of the answer for questions below -1, where the source reads before its array.
- Expectations.Expectation.AllPrerequisitesAreSatisfied: the graph is acyclic because an expectation waits only for earlier ones; clauses that add prerequisites are part of the constructor, and prerequisites are a sequence in some order.
- The earlier copy of the table in `sth_self`, the benchmark driver, and the rest of the test framework.
