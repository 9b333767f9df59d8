# Data-mining tools: a Dafny model of their self-contained core

The repository is a collection of small data-mining tools. This project
models, and proves properties of, the parts of them that are plain
sequential logic over sequences, maps and strings:

- **COP-KMeans** (`cluster/kmeans/cop_kmeans.cc`): k-means under must-link
  and cannot-link constraints. The `KMeans` class keeps the vectors, the
  centres, the labels and both constraint relations as fields. It seeds the
  centres k-means++ style, runs the constraint-aware assignment pass over an
  `array`, takes the mean of each cluster, and repeats for at most 10
  passes. The readers for the vector and constraint files are modelled too.
- **k-means++** (`cluster/kmeans/kmeanspp.cc`): the sparse word-vector
  operations (`add_vector`, `mult_each`, `product`, `squared_dist`,
  `parse_dbmdata`), the seeding scan, the first-minimum assignment, a centre
  update that keeps empty clusters, and the change-detection loop.
- **LSH pair finder** (`lsh/lsh.cc`): the record reader with its key limit,
  the inner product, norm and cosine guards, the sign-bit signatures, and
  the ±10 neighbour window over the sorted signatures. Each pair key is
  compared at most once.
- **Variable byte code** (`compress/variable_byte_code.cc`). This is the
  code of section 5.3.1 of *Introduction to Information Retrieval*: base-128
  digits, most significant first, with the high bit on the last byte, a
  count header, and a gap layer on top. The model proves the decoder
  inverts the encoder.
- **String utilities**. There are two split semantics:
  - exact-delimiter splitting that keeps empty pieces (`splitstring`,
    `splitAll`, `MF::split` and the `split` of the MovieLens tool);
  - character-set splitting that drops empty pieces (`split_string`).

  Alongside them are `join_strings` and `get_extension`. The repository
  holds several copies of each; every copy runs the same algorithm, so the
  copies share one model (`Strings`), and each row below names the copies it
  covers.
- **SIFT visual words** (`image/visual_words/sift/nearest_neighbor.cc`):
  the centroid and descriptor readers, the capped nearest-centroid search,
  and the per-file histogram.
- **SURF matching** (`image/surf/compare_surf.cc`): the nearest neighbour
  with the second-nearest ratio test, and the list of matched pairs.
- **HOG ranking** (`image/hog/calc_hog_distance.cc`, `matrix/mf/util.h`):
  the `(value, key)` comparators, and the sort that shows the ten closest
  images.
- **Rating files** (`matrix/factorize_sgd.cc`, `matrix/sgd_movielens.cc`):
  the first pass that sizes the rating matrix, and the hit / off-by-one
  counts of `check_test_data`.

Shared modules: `Wrappers` (Option and Result), `SetSums` (sums over finite
sets, independent of order), `Sorting` (an insertion sort standing for
`std::sort`, and the unique ascending order of a set) and `SparseVectors`
(maps with an absent key reading as 0).

Most steps of the source that are undefined behaviour or end the program
become failure values of the model. The rest become preconditions, each
listed under "Left out":
- the two `assert`s (`nclusters <= vectors_.size()` and equal vector lengths);
- the `rand() % size` draws of a first centre, which are undefined for an
  empty input;
- the usage check `ncenters <= 0` of k-means++;
- a non-empty split delimiter, without which the split loops never end.

One such step is neither: COP-KMeans inserting the hash map's reserved empty
key `""` for an empty key-name field is modelled as an ordinary name (also
under "Left out").

Failure values model:
- `exit(1)`;
- a missing `splited[1]`;
- a centroid index outside 0..127;
- an encoded buffer that ends early;
- a signature shorter than the number of bits read.

Random numbers, `atoi`, `atof`, `sqrt` and the distances computed by
library code are parameters of the model.

## Model

| member | source | states |
|---|---|---|
| Strings.FindFrom | cluster/kmeans/cop_kmeans.cc:395 | the result is the first occurrence of the delimiter at or after the start, and None means there is none |
| Strings.Find | cluster/kmeans/cop_kmeans.cc:395 | the result is the first occurrence of the delimiter, and None means it does not occur |
| Strings.CharOccurs | cluster/kmeans/cop_kmeans.cc:395 | a one-character delimiter occurs exactly at the positions holding that character |
| Strings.Pieces | cluster/kmeans/cop_kmeans.cc:392-403 | the find loop always yields at least one piece (the text after the last delimiter) |
| Strings.PiecesStep | cluster/kmeans/cop_kmeans.cc:395-399 | one turn of the loop emits the text before the first delimiter and continues after it |
| Strings.Split | cluster/kmeans/cop_kmeans.cc:392-403 | splitstring appends the pieces to splited, keeping its earlier contents, and returns their number |
| Strings.SplitAll | image/visual_words/sift/nearest_neighbor.cc:14-22 | splitAll returns the pieces, and joining them with the delimiter gives back the string |
| Strings.JoinPieces | matrix/factorize_sgd.cc:39-50 | joining the pieces with the delimiter restores the split string |
| Strings.PiecesAvoidDelimiter | matrix/factorize_sgd.cc:42-48 | no piece contains the delimiter |
| Strings.PiecesCount | matrix/sgd_movielens.cc:42-53 | with a one-character delimiter the number of pieces is the number of delimiter occurrences plus one |
| Strings.PiecesOfJoin | cluster/kmeans/cop_kmeans.cc:392-403 | splitting a join of delimiter-free strings restores them, empty strings included |
| Strings.JoinSnoc | matrix/mf/util.cc:74-77 | the stream join grows at the back: the delimiter, then the next element |
| Strings.JoinCons | matrix/mf/util.cc:74-77 | a join of two or more elements is the first element, the delimiter and the join of the rest |
| Strings.FirstNotOf | matrix/mf/util.cc:53 | find_first_not_of returns the first position at or after the start holding no delimiter character, every position before it holding one |
| Strings.FirstOf | matrix/mf/util.cc:54 | find_first_of returns the first position at or after the start holding a delimiter character, every position before it holding none |
| Strings.Fields | matrix/mf/util.cc:51-63 | the character-set fields always number at least one |
| Strings.NonEmpty | matrix/mf/util.cc:55-60 | the kept pieces are non-empty and each comes from the fields |
| Strings.FieldsAvoid | matrix/mf/util.cc:53-54 | no field contains a delimiter character |
| Strings.TokensShape | matrix/mf/util.cc:53-62 | split_string never yields an empty token nor a token holding a delimiter character |
| Strings.TokensSkipRun | matrix/mf/util.cc:53-57 | a run of delimiter characters before a token contributes nothing |
| Strings.TokensRun | matrix/mf/util.cc:54-56 | a maximal run of non-delimiters is the next token |
| Strings.StepFound | matrix/mf/util.cc:54-57 | a round that finds a delimiter emits the text up to it and resumes at the next non-delimiter |
| Strings.StepLast | matrix/mf/util.cc:58-60 | a round that finds no delimiter emits the rest of the string as the last token |
| Strings.SplitString | matrix/mf/util.cc:51-63 | split_string appends the tokens (maximal runs of non-delimiter characters, in order) to splited without clearing it |
| Strings.SplitStringStep | matrix/mf/util.cc:54-61 | one round of the loop appends one token and moves past it, and the rest still yields the remaining tokens |
| Strings.TokensOfJoin | matrix/mf/util.cc:51-79 | splitting the tab join of non-empty, tab-free strings on tab gives them back |
| Strings.FieldsOfJoin | image/bof/util.cc:13-41 | the character-set fields of a join of delimiter-free strings are those strings |
| Strings.JoinStrings | matrix/mf/util.cc:71-79 | join_strings puts the delimiter only between consecutive elements, and an empty input gives "" |
| Strings.SplitStringSpaceExample | matrix/mf/utiltest.cc:28-36 | "This is a pen" split on a space gives the four words |
| Strings.SplitStringTabExample | matrix/mf/utiltest.cc:38-46 | "This\tis\ta\tpen" split on a tab gives the same four words |
| Strings.SplitStringMultibyteSpaceExample | matrix/mf/utiltest.cc:48-55 | the three multibyte words split on a space |
| Strings.SplitStringMultibyteTabExample | matrix/mf/utiltest.cc:57-64 | the three multibyte words split on a tab |
| Strings.JoinStringsExample | matrix/mf/utiltest.cc:67-75 | {"a","bc","def","gh"} joined on a tab gives "a\tbc\tdef\tgh" |
| Strings.LastIndexOf | image/visual_words/sift/nearest_neighbor.cc:35 | rfind returns a position holding the character with none after it, or None when the character does not occur |
| Strings.GetExtension | image/emd/compare_emd.cc:19-25 | no '.' gives ""; otherwise the result holds no '.' and the name is the text before the last '.', the '.', then the result |
| Strings.GetExtensionDotExamples | image/emd/compare_emd.cc:19-159 | "list." gives "" and ".txt" gives "txt" |
| Strings.GetExtensionPlainExamples | image/visual_words/sift/nearest_neighbor.cc:34-125 | "a.b.sift" gives "sift" and "noext" gives "" |
| Strings.StrLessIrreflexive | image/hog/calc_hog_distance.cc:73 | the string comparison of the keys is irreflexive |
| Strings.StrLessAsymmetric | image/hog/calc_hog_distance.cc:73 | the string comparison of the keys is asymmetric |
| Strings.StrLessTransitive | image/hog/calc_hog_distance.cc:73 | the string comparison of the keys is transitive |
| Strings.StrLessTotal | image/hog/calc_hog_distance.cc:73 | two different keys are ordered one way or the other |
| CopKMeans.ClosestDists | cluster/kmeans/cop_kmeans.cc:103-107 | one closest distance per vector |
| CopKMeans.ScanFrom | cluster/kmeans/cop_kmeans.cc:111-119 | the selection scan yields index 0 (the fallback) or an index at or after the start |
| CopKMeans.ScanCumulative | cluster/kmeans/cop_kmeans.cc:111-119 | the scan from index i, with r less the sum before i left over, stops at the first k at or after i whose running sum reaches r; if no prefix past i reaches r it falls back to 0 |
| CopKMeans.ScanLands | cluster/kmeans/cop_kmeans.cc:111-119 | when some prefix past the start reaches the draw, the scan stops at the first index whose running sum reaches it |
| CopKMeans.ScanFallsBack | cluster/kmeans/cop_kmeans.cc:111-119 | when no prefix past the start reaches the draw, the scan yields the fallback 0 |
| CopKMeans.Seeding | cluster/kmeans/cop_kmeans.cc:97-130 | seeding yields max(ncenters, 1) indexes, the first one the initial random pick, all of them valid vector indexes |
| CopKMeans.MinDistSnoc | cluster/kmeans/cop_kmeans.cc:122-126 | after a new centre each closest distance is the smaller of the old one and the distance to the new centre, so it never increases |
| CopKMeans.ClosestCentre | cluster/kmeans/cop_kmeans.cc:122-126 | the closest distance is attained at some centre |
| CopKMeans.MinDistIsMinimum | cluster/kmeans/cop_kmeans.cc:122-126 | the closest distance is at most the distance to every centre |
| CopKMeans.ClosestDistsNonNegative | cluster/kmeans/cop_kmeans.cc:103-107 | closest distances are never negative |
| CopKMeans.ScanPositive | cluster/kmeans/cop_kmeans.cc:111-119 | a draw in (0, potential] stops inside the scan at a point with a positive closest distance |
| CopKMeans.SeedingZeroDraw | cluster/kmeans/cop_kmeans.cc:110-119 | a zero draw picks index 0, so a centre can be picked twice |
| CopKMeans.SeedingPicksNewPoint | cluster/kmeans/cop_kmeans.cc:110-124 | a draw in (0, potential] picks a vector different from every centre picked before |
| CopKMeans.CopiesSnoc | cluster/kmeans/cop_kmeans.cc:120-127 | the centres are copies of the picked vectors, in pick order |
| CopKMeans.SeedingStep | cluster/kmeans/cop_kmeans.cc:109-130 | one round of the while loop appends the scan result over the current closest distances |
| CopKMeans.InitClosest | cluster/kmeans/cop_kmeans.cc:103-107 | the first pass fills closest_dist with the distances to the first centre and potential with their sum |
| CopKMeans.Tighten | cluster/kmeans/cop_kmeans.cc:121-129 | the update pass lowers each closest distance to the new centre's when that is smaller, and the new potential is their sum |
| CopKMeans.Scan | cluster/kmeans/cop_kmeans.cc:110-119 | the loop returns the selection-scan index |
| CopKMeans.SeedCenters | cluster/kmeans/cop_kmeans.cc:91-131 | choose_smart_centers picks the Seeding indexes and copies their vectors as centres |
| CopKMeans.AssignFrom | cluster/kmeans/cop_kmeans.cc:141-188 | placing points from i on keeps the slots before i and keeps the length |
| CopKMeans.Assignment | cluster/kmeans/cop_kmeans.cc:133-189 | a completed pass has one slot per vector |
| CopKMeans.MustTargetErrStays | cluster/kmeans/cop_kmeans.cc:145-155 | once two must-link targets disagree the loop has exited; later pairs change nothing |
| CopKMeans.FindMustTarget | cluster/kmeans/cop_kmeans.cc:142-155 | the must-link loop computes MustTarget, failing at the first disagreeing target |
| CopKMeans.CollectBlocked | cluster/kmeans/cop_kmeans.cc:157-163 | the cannot-link loop collects the clusters of the assigned cannot-link partners |
| CopKMeans.SearchNearest | cluster/kmeans/cop_kmeans.cc:174-181 | the distance loop computes Nearest over the unblocked centres |
| CopKMeans.Assign | cluster/kmeans/cop_kmeans.cc:133-189 | (corrected guard) assign_clusters fills the array with the Assignment, or returns the error on which the program exits |
| CopKMeans.NearestMeaning | cluster/kmeans/cop_kmeans.cc:142-181 | the search returns the first unblocked centre with the strictly smallest distance below LONG_DIST, or the sentinel with LONG_DIST when there is none |
| CopKMeans.MustTargetMeaning | cluster/kmeans/cop_kmeans.cc:145-155 | the must-link check yields the cluster shared by all assigned partners, none when no partner is assigned, and fails exactly when two assigned partners disagree |
| CopKMeans.BlockedMeaning | cluster/kmeans/cop_kmeans.cc:157-163 | a cluster is blocked exactly when an assigned cannot-link partner is in it |
| CopKMeans.AssignFromTrace | cluster/kmeans/cop_kmeans.cc:141-188 | each point is placed by the slot rule applied to the slots as they read at its turn |
| CopKMeans.AssignmentTrace | cluster/kmeans/cop_kmeans.cc:135-188 | a completed pass satisfies the slot rule at every point, all later slots still at the sentinel |
| CopKMeans.SlotBelow | cluster/kmeans/cop_kmeans.cc:164-187 | with the guard against the centre count, a placed point gets a real cluster |
| CopKMeans.AssignFromBelow | cluster/kmeans/cop_kmeans.cc:141-188 | with the corrected guard, every slot of a completed pass is a real cluster |
| CopKMeans.AssignedInRange | cluster/kmeans/cop_kmeans.cc:182-200 | with the corrected guard, every point of a completed pass is in a real cluster, so move_centers indexes only existing centres |
| CopKMeans.MustLinksKept | cluster/kmeans/cop_kmeans.cc:145-171 | on completion, every must-link pair whose ends are both placed shares a cluster |
| CopKMeans.CannotLinksKept | cluster/kmeans/cop_kmeans.cc:157-175 | on completion, a cannot-link pair of two different points, both placed, is in different clusters |
| CopKMeans.SentinelSurvives | cluster/kmeans/cop_kmeans.cc:182 | the guard as written lets a point keep the sentinel cluster |
| CopKMeans.GuardRejects | cluster/kmeans/cop_kmeans.cc:182-184 | the guard against the centre count rejects the same input |
| CopKMeans.SentinelSteps | cluster/kmeans/cop_kmeans.cc:141-188 | the two placements of that example under either guard |
| CopKMeans.MovedCenters | cluster/kmeans/cop_kmeans.cc:191-217 | move_centers yields one centre per cluster |
| CopKMeans.ClusterSumMeaning | cluster/kmeans/cop_kmeans.cc:197-209 | a cluster's accumulated vector holds exactly its members' keys, each with the members' total, and is empty without members |
| CopKMeans.MovedCentersMeaning | cluster/kmeans/cop_kmeans.cc:191-217 | a cluster without members ends empty; any other holds its members' keys, and each value times the member count is the members' total |
| CopKMeans.AddVectorInto | cluster/kmeans/cop_kmeans.cc:198-207 | the find/insert loop adds the vector key by key into the centre |
| CopKMeans.DivideAll | cluster/kmeans/cop_kmeans.cc:212-215 | the division loop divides every value of the centre by the count |
| CopKMeans.Move | cluster/kmeans/cop_kmeans.cc:191-217 | clear, accumulate and divide give MovedCenters |
| CopKMeans.Constrained | cluster/kmeans/cop_kmeans.cc:244-275 | an unknown label changes nothing; otherwise (i, j) and (j, i) are added to the relation of that kind only, and the other is unchanged |
| CopKMeans.ConstrainedLinked | cluster/kmeans/cop_kmeans.cc:263-271 | add_constraint keeps both relations symmetric and within the stored vectors |
| CopKMeans.AppendLinked | cluster/kmeans/cop_kmeans.cc:265-270 | inserting a pair with its reverse keeps a relation symmetric |
| CopKMeans.Iterate | cluster/kmeans/cop_kmeans.cc:30-294 | the loop makes at most MAX_ITER passes, stops only on convergence or at MAX_ITER, and the centres are the moved centres of the final assignment |
| CopKMeans.IterateFixedPoint | cluster/kmeans/cop_kmeans.cc:285-294 | a run converging after its first pass ends at a fixed point of assign against the final centres |
| CopKMeans.IterateSound | cluster/kmeans/cop_kmeans.cc:285-294 | a completed run puts every point in a real cluster, keeps must-links together and cannot-links of distinct points apart |
| CopKMeans.IsSameArray | cluster/kmeans/cop_kmeans.cc:219-224 | true exactly when the first size elements agree |
| CopKMeans.Run | cluster/kmeans/cop_kmeans.cc:285-294 | the loop of execute computes Iterate from the previous assignment |
| CopKMeans.KMeans.constructor | cluster/kmeans/cop_kmeans.cc:227 | a new engine stores nothing |
| CopKMeans.KMeans.AddVector | cluster/kmeans/cop_kmeans.cc:238-242 | the vector is stored at the next index and the label points at it; a reused label is redirected |
| CopKMeans.KMeans.AddConstraint | cluster/kmeans/cop_kmeans.cc:244-275 | the relations become Constrained of the old ones; nothing else changes |
| CopKMeans.KMeans.ConstrainedLinkedIfValid | cluster/kmeans/cop_kmeans.cc:244-275 | from a valid state add_constraint yields linked relations |
| CopKMeans.KMeans.ChooseSmartCenters | cluster/kmeans/cop_kmeans.cc:91-131 | the centres become copies of the Seeding picks; nothing else changes |
| CopKMeans.KMeans.AssignClusters | cluster/kmeans/cop_kmeans.cc:133-189 | (corrected guard) the array holds the Assignment of the stored vectors and centres, or the exit error is returned |
| CopKMeans.KMeans.MoveCenters | cluster/kmeans/cop_kmeans.cc:191-217 | the centres become MovedCenters of the assignment; nothing else changes |
| CopKMeans.KMeans.Execute | cluster/kmeans/cop_kmeans.cc:277-294 | (corrected guard) seeds, then runs Iterate from the previous assignment; on success the stored centres are the final ones |
| CopKMeans.NumberingStep | cluster/kmeans/cop_kmeans.cc:354-357 | numbering a new field with curkey keeps keys 1..curkey-1 one per name |
| CopKMeans.AddPairFacts | cluster/kmeans/cop_kmeans.cc:350-362 | one pair numbers its name, renumbers no name, keeps every stored value and stores only a non-zero value |
| CopKMeans.PairsReadFacts | cluster/kmeans/cop_kmeans.cc:349-363 | the pair loop keeps the numbering consistent and renumbers no name |
| CopKMeans.PairsReadKeepsFirst | cluster/kmeans/cop_kmeans.cc:360-361 | insert does not overwrite: a repeated key keeps its first value |
| CopKMeans.ReadLineGrown | cluster/kmeans/cop_kmeans.cc:342-367 | one line keeps the earlier records and adds only a labelled non-empty one |
| CopKMeans.ReadAllFacts | cluster/kmeans/cop_kmeans.cc:341-368 | reading keeps earlier records, adds only labelled non-empty records and keeps labels pointing at stored records |
| CopKMeans.NothingStale | cluster/kmeans/cop_kmeans.cc:343-367 | the intended reader keeps no fields of a rejected line |
| CopKMeans.MalformedLineSkipped | cluster/kmeans/cop_kmeans.cc:343-346 | with the intended reader a line with an even number of fields changes nothing |
| CopKMeans.StaleFieldsCarried | cluster/kmeans/cop_kmeans.cc:343-367 | as written, the fields of a rejected line are prepended to the next line's |
| CopKMeans.StalePairs | cluster/kmeans/cop_kmeans.cc:349-363 | the pairs read from the stale and the new fields of that example |
| CopKMeans.MalformedLineDropped | cluster/kmeans/cop_kmeans.cc:343-346 | the intended reader stores only the second line's record of that example |
| CopKMeans.ExamplePieces | cluster/kmeans/cop_kmeans.cc:392-403 | the tab pieces of the two example lines |
| CopKMeans.TwoLineSteps | cluster/kmeans/cop_kmeans.cc:342-367 | the first example line leaves its fields behind only in the reader as written |
| CopKMeans.ReadPairs | cluster/kmeans/cop_kmeans.cc:349-363 | the pair loop computes PairsRead |
| CopKMeans.ReadVectors | cluster/kmeans/cop_kmeans.cc:330-369 | (intended: malformed lines leave nothing) read_vectors stores the records ReadAll describes; centres and constraints are unchanged |
| CopKMeans.LineConstraintOfFields | cluster/kmeans/cop_kmeans.cc:380-387 | a line of two labels and a kind gives a cannot-link for "c", a must-link for "m", and nothing otherwise |
| CopKMeans.LineConstraintTabs | cluster/kmeans/cop_kmeans.cc:381 | only a line with exactly three fields (two tabs) carries a constraint |
| CopKMeans.ConstrainAllLinked | cluster/kmeans/cop_kmeans.cc:379-389 | reading constraint lines keeps both relations symmetric and within the stored vectors |
| CopKMeans.ReadConstraints | cluster/kmeans/cop_kmeans.cc:371-390 | read_constraints hands every constraint line to add_constraint; vectors, labels and centres are unchanged |
| CopKMeans.CopyArray | cluster/kmeans/cop_kmeans.cc:292 | std::copy leaves prev_assign equal to assign, element by element |
| Sorting.SortBy | image/hog/calc_hog_distance.cc:159-160 | std::sort rearranges the distances: the result is a permutation of the input, of the same length |
| Sorting.InsertSorted | image/hog/calc_hog_distance.cc:159-160 | under a strict total order, inserting into an ascending sequence keeps it ascending |
| Sorting.SortBySorted | image/hog/calc_hog_distance.cc:159-160 | under a strict total order the sorted result is ascending |
| Sorting.SortedDistinctStrict | lsh/lsh.cc:207 | an ascending sequence without repeats (the signature, key pairs) is strictly ascending |
| Sorting.PermutationDistinct | lsh/lsh.cc:191-207 | reordering a repeat-free sequence keeps it repeat-free |
| Sorting.LeastExists | lsh/lsh.cc:207 | a non-empty set has a least element under a strict total order |
| Sorting.LeastUnique | lsh/lsh.cc:207 | that least element is unique |
| Sorting.Ordered | lsh/lsh.cc:207 | the sorted vector of a set of pairs holds exactly its elements, once each, strictly ascending |
| Sorting.SortedUnique | lsh/lsh.cc:207 | any strictly ascending sequence with the set's elements is that sorted vector, so the sorted order depends only on the set |
| Sorting.Range | lsh/lsh.cc:187-190 | indexes holds 0, 1, ..., n - 1 in order |
| Sorting.PermutationInRange | lsh/lsh.cc:191 | after random_shuffle every index is still a valid position |
| Sorting.PermutedMultiset | lsh/lsh.cc:191-200 | reading a sequence through a shuffle of its positions only reorders it |
| SparseVectors.SqTermFacts | cluster/kmeans/cop_kmeans.cc:61-70 | each squared difference is non-negative, and positive exactly where the two readings differ |
| SparseVectors.SqTermSymmetric | cluster/kmeans/cop_kmeans.cc:61-70 | each squared difference is the same with the vectors swapped |
| SparseVectors.SqDistSymmetric | cluster/kmeans/cop_kmeans.cc:51-73 | the squared distance does not depend on the order of its arguments |
| SparseVectors.SqDistZero | cluster/kmeans/cop_kmeans.cc:51-73 | the squared distance is non-negative and is 0 exactly when the vectors agree on every key, an absent key reading 0 |
| SparseVectors.SqDistSelf | cluster/kmeans/cop_kmeans.cc:51-73 | a vector is at distance 0 from itself |
| SparseVectors.Distance | cluster/kmeans/cop_kmeans.cc:51-73 | the two loops sum the squared differences over the union of the keys, each key once, an absent key reading 0 |
| SparseVectors.AddInto | cluster/kmeans/cop_kmeans.cc:198-207 | adding vectors keeps the keys of both and adds the readings key by key |
| SparseVectors.Divide | cluster/kmeans/cop_kmeans.cc:212-215 | dividing keeps the keys and divides every reading |
| SparseVectors.Pad | cluster/kmeans/kmeanspp.cc:188-199 | an operator[] lookup of a missing key stores 0 there and leaves every reading unchanged |
| SparseVectors.PadStep | cluster/kmeans/kmeanspp.cc:188-189 | a lookup of one more key extends the padding by that key |
| SparseVectors.SqDistReadings | cluster/kmeans/kmeanspp.cc:182-206 | the distance depends only on the readings, so the stored zeros change nothing |
| SparseVectors.InnerOver | cluster/kmeans/kmeanspp.cc:208-226 | summing the products over any superset of the common keys gives the inner product |
| SparseVectors.InnerSymmetric | lsh/lsh.cc:248-261 | the inner product does not depend on the order of its arguments |
| SparseVectors.InnerReadings | cluster/kmeans/kmeanspp.cc:208-226 | the inner product depends only on the readings, so the stored zeros change nothing |
| KMeansPlusPlus.AddVector | cluster/kmeans/kmeanspp.cc:137-145 | every key of vec2 ends at the old vec1 reading (0 when absent) plus vec2's value; keys only in vec1 are unchanged |
| KMeansPlusPlus.Scale | cluster/kmeans/kmeanspp.cc:147-153 | scaling keeps the key set |
| KMeansPlusPlus.ScaleAt | cluster/kmeans/kmeanspp.cc:150 | each reading of the scaled vector is the old one times x |
| KMeansPlusPlus.MultEach | cluster/kmeans/kmeanspp.cc:147-153 | mult_each multiplies every value by x and keeps the keys |
| KMeansPlusPlus.ParseDbmData | cluster/kmeans/kmeanspp.cc:155-169 | parse_dbmdata reads the whitespace tokens as word/value pairs into vec |
| KMeansPlusPlus.ParseTokens | cluster/kmeans/kmeanspp.cc:160-168 | the token loop stores each complete word/value pair in order |
| KMeansPlusPlus.ParsedKeys | cluster/kmeans/kmeanspp.cc:160-168 | a word is stored exactly when it was present before or is the word of a complete pair |
| KMeansPlusPlus.ParsedLastWins | cluster/kmeans/kmeanspp.cc:164-165 | a repeated word takes the value of its last pair, zeros included |
| KMeansPlusPlus.ParsedKeepsOthers | cluster/kmeans/kmeanspp.cc:160-168 | a word in no pair keeps its previous value |
| KMeansPlusPlus.ParsedTrailingWord | cluster/kmeans/kmeanspp.cc:160-168 | a trailing unpaired word is ignored |
| KMeansPlusPlus.ParsedPrefix | cluster/kmeans/kmeanspp.cc:160-168 | the result depends only on the tokens of the complete pairs |
| KMeansPlusPlus.Vectors | cluster/kmeans/kmeanspp.cc:314-315 | one parsed vector per record |
| KMeansPlusPlus.VectorsAt | cluster/kmeans/kmeanspp.cc:314-315 | vector i is record i's text parsed into an empty vector |
| KMeansPlusPlus.ReadVectors | cluster/kmeans/kmeanspp.cc:307-322 | a database pass parses every record's text into a fresh vector, in iteration order |
| KMeansPlusPlus.DistFirstPass | cluster/kmeans/kmeanspp.cc:185-193 | the first loop sums the squared differences over vec1's keys, and its lookups add vec1's keys to vec2 as 0 |
| KMeansPlusPlus.DistSecondPass | cluster/kmeans/kmeanspp.cc:194-204 | the second loop adds the squared differences over vec2's keys that vec1 lacks, and its lookups add them to vec1 as 0 |
| KMeansPlusPlus.SecondPassStep | cluster/kmeans/kmeanspp.cc:196-202 | one key of the second loop: a key already checked is skipped, a new one adds its term and is marked |
| KMeansPlusPlus.SquaredDist | cluster/kmeans/kmeanspp.cc:182-206 | squared_dist is the sum over the key union of the squared differences, and leaves each argument holding the other's keys as 0 |
| KMeansPlusPlus.ProductOver | cluster/kmeans/kmeanspp.cc:217-225 | the product loop sums the products over the iterated keys, and its lookups add them to both vectors as 0 |
| KMeansPlusPlus.ProductStep | cluster/kmeans/kmeanspp.cc:219-222 | one key of the product loop: both lookups, then the product added |
| KMeansPlusPlus.Product | cluster/kmeans/kmeanspp.cc:208-226 | product is the inner product; it iterates the smaller vector (vec2 on a tie) and pads only the other one |
| KMeansPlusPlus.Seeds | cluster/kmeans/kmeanspp.cc:278-363 | the seeding returns exactly ncenters centres |
| KMeansPlusPlus.ScanKey | cluster/kmeans/kmeanspp.cc:329-335 | the scan stops at or after its start, inside the database |
| KMeansPlusPlus.SmartPicks | cluster/kmeans/kmeanspp.cc:286-362 | the picks start with the initial random record and are all valid records |
| KMeansPlusPlus.ScanKeyCumulative | cluster/kmeans/kmeanspp.cc:329-335 | the scan lands on the first record where the running total of closest_dist reaches the draw, or on the last record |
| KMeansPlusPlus.ScanKeyPositive | cluster/kmeans/kmeanspp.cc:326-335 | a positive draw within the potential lands on a record at a positive distance |
| KMeansPlusPlus.ScanKeyFallback | cluster/kmeans/kmeanspp.cc:329-335 | a draw beyond the potential takes the last record |
| KMeansPlusPlus.SmartPicksRepeat | cluster/kmeans/kmeanspp.cc:342-358 | since closest_dist is overwritten with the distance to the newest centre, a record can be picked twice |
| KMeansPlusPlus.StoreDistances | cluster/kmeans/kmeanspp.cc:342-358 | the update pass stores every record's distance to the new centre and returns their sum as the potential |
| KMeansPlusPlus.Scan | cluster/kmeans/kmeanspp.cc:327-335 | the scan loop returns the record ScanKey names |
| KMeansPlusPlus.ChooseSmartCenters | cluster/kmeans/kmeanspp.cc:278-363 | choose_smart_centers returns copies of the picked records and the potential of the last pass |
| KMeansPlusPlus.FirstMin | cluster/kmeans/kmeanspp.cc:377-386 | the search yields a valid centre index once it holds one |
| KMeansPlusPlus.FirstMinNearest | cluster/kmeans/kmeanspp.cc:379-386 | the search keeps the first of the nearest centres |
| KMeansPlusPlus.ClosestIsFirstNearest | cluster/kmeans/kmeanspp.cc:377-386 | each record goes to the first of its nearest centres, and to 0 when there are none |
| KMeansPlusPlus.AssignAll | cluster/kmeans/kmeanspp.cc:365-390 | one centre index per record, each a valid centre when there are centres |
| KMeansPlusPlus.FindClosest | cluster/kmeans/kmeanspp.cc:377-386 | the inner loop returns the first nearest centre |
| KMeansPlusPlus.AssignClusters | cluster/kmeans/kmeanspp.cc:365-390 | assign_clusters gives every record its first nearest centre |
| KMeansPlusPlus.MembersOf | cluster/kmeans/kmeanspp.cc:393-400 | a cluster's member list holds exactly the records assigned to it, in order |
| KMeansPlusPlus.SumOfMeaning | cluster/kmeans/kmeanspp.cc:404-412 | the accumulated centre holds a key exactly when a member does, with the sum of the members' readings |
| KMeansPlusPlus.Moved | cluster/kmeans/kmeanspp.cc:392-415 | move_centers keeps the number of centres |
| KMeansPlusPlus.MovedEmpty | cluster/kmeans/kmeanspp.cc:402 | a cluster with no members keeps its previous centre |
| KMeansPlusPlus.MovedKeys | cluster/kmeans/kmeanspp.cc:403-412 | a non-empty cluster's centre holds exactly the keys of its members |
| KMeansPlusPlus.MovedMean | cluster/kmeans/kmeanspp.cc:403-413 | a non-empty cluster's centre is the mean of its members, key by key |
| KMeansPlusPlus.ScaledMean | cluster/kmeans/kmeanspp.cc:413 | scaling the sum by one over the member count gives the mean |
| KMeansPlusPlus.MembersExact | cluster/kmeans/kmeanspp.cc:395-399 | a record is a member of cluster c exactly when it is assigned to c |
| KMeansPlusPlus.MovedIdempotent | cluster/kmeans/kmeanspp.cc:392-415 | moving twice with the same assignment changes nothing more |
| KMeansPlusPlus.SumMembers | cluster/kmeans/kmeanspp.cc:403-412 | the add_vector loop sums the member vectors from an empty centre |
| KMeansPlusPlus.MoveCenters | cluster/kmeans/kmeanspp.cc:392-415 | move_centers builds the member lists and replaces each non-empty cluster's centre by its members' mean |
| KMeansPlusPlus.Rounds | cluster/kmeans/kmeanspp.cc:420-442 | at most MAX_ITERATION rounds, keeping the number of centres and one assignment per record |
| KMeansPlusPlus.RoundsConsistent | cluster/kmeans/kmeanspp.cc:418-442 | the assignment kmeans ends with is the assignment to the centres it ends with |
| KMeansPlusPlus.RoundsFixedPoint | cluster/kmeans/kmeanspp.cc:420-442 | a run that stops early ends at a fixed point of move and assign |
| KMeansPlusPlus.Changed | cluster/kmeans/kmeanspp.cc:430-439 | the change check is true exactly when some record's cluster differs |
| KMeansPlusPlus.KMeans | cluster/kmeans/kmeanspp.cc:417-443 | kmeans assigns once, then runs the move and reassign rounds |
| KMeansPlusPlus.Cluster | cluster/kmeans/kmeanspp.cc:99-113 | main seeds ncenters centres, clusters, and saves for every record key its cluster, a valid centre index |
| KMeansPlusPlus.SaveClusters | cluster/kmeans/kmeanspp.cc:445-452 | every record's key is mapped to its cluster |
| Lsh.ReadVector | lsh/lsh.cc:88-117 | read_vector leaves `v` as the record reading describes, and unchanged for a null key or a key with no stored value |
| Lsh.ReadField | lsh/lsh.cc:100-113 | one turn of the loop consumes one tab-terminated field (an even one names the key, an odd one gives its value) and shortens the text |
| Lsh.FillChanges | lsh/lsh.cc:101-110 | the loop only stores non-zero values under non-empty keys |
| Lsh.FillStored | lsh/lsh.cc:99-108 | the stored-pair count never decreases and stops at knum |
| Lsh.FillKeys | lsh/lsh.cc:106-108 | each stored pair adds at most one key, and no key is removed |
| Lsh.ReadStores | lsh/lsh.cc:99-110 | read_vector stores only non-empty keys with non-zero values and adds at most knum keys |
| Lsh.ConsumedOfJoin | lsh/lsh.cc:98-114 | the loop reaches exactly the fields that a tab follows |
| Lsh.LastFieldUnread | lsh/lsh.cc:98-114 | the text after the last tab of a record is never read: changing it changes nothing |
| Lsh.UntabbedRecordUnread | lsh/lsh.cc:98-99 | a record with no tab leaves `v` unchanged |
| Lsh.ReadVectorExample | lsh/lsh.cc:99-114 | in "a\t1\tb\t0\tc\t1" the zero value is skipped and the trailing field is ignored |
| Lsh.ExampleRecord | lsh/lsh.cc:98-113 | the example record is its six fields joined by tabs |
| Lsh.ExampleFill | lsh/lsh.cc:101-110 | the loop over the example's five reachable fields stores only "a" |
| Lsh.InnerProduct | lsh/lsh.cc:248-261 | inner_product sums the products over the keys of v1 that v2 also holds |
| Lsh.SumSquares | lsh/lsh.cc:267-273 | the norm loop sums the squares of the stored values |
| Lsh.Norm | lsh/lsh.cc:263-274 | norm of an empty vector is 0, otherwise the square root of the sum of squares |
| Lsh.Cosine | lsh/lsh.cc:239-246 | cosine is 0 when either norm is 0, otherwise the inner product over the product of the norms |
| Lsh.CosineSymmetric | lsh/lsh.cc:239-246 | the cosine does not depend on the order of its arguments |
| Lsh.SelfInner | lsh/lsh.cc:267-273 | the sum of squares is non-negative and is 0 only when every value is 0 |
| Lsh.SilentInner | lsh/lsh.cc:248-261 | a vector with no non-zero value has inner product 0 with anything |
| Lsh.CosineSign | lsh/lsh.cc:239-246 | with a square root that vanishes only at 0, the cosine is positive exactly when the inner product is |
| Lsh.Signature | lsh/lsh.cc:168-176 | one bit per random vector |
| Lsh.SignatureSign | lsh/lsh.cc:170-175 | bit i is 1 exactly when the inner product with random vector i is positive |
| Lsh.CalcSignature | lsh/lsh.cc:168-176 | the bit loop builds the signature: bit i is 1 exactly when the cosine with vector i is positive |
| Lsh.SignatureSnoc | lsh/lsh.cc:169-176 | one more random vector appends one more bit |
| Lsh.RandomVectors | lsh/lsh.cc:153-158 | one random vector per sampled key |
| Lsh.ReadRandomVectors | lsh/lsh.cc:153-158 | the loop reads the vector of every sampled key, in order |
| Lsh.BitsOf | lsh/lsh.cc:161-180 | every signature has one bit per random vector |
| Lsh.CalcBits | lsh/lsh.cc:161-180 | exactly the records with a non-empty vector get bits, and those bits are their signature |
| Lsh.SelectedCount | lsh/lsh.cc:135-144 | the collecting pass yields one key per drawn position, and exactly the keys at drawn positions |
| Lsh.SelectKeys | lsh/lsh.cc:135-144 | the iteration pass collects the keys at the drawn positions, in iteration order |
| Lsh.SmallSample | lsh/lsh.cc:121-133 | with fewer records than NUM_RANDOM_KEY every record is drawn, so the sample is shorter than NUM_RANDOM_KEY |
| Lsh.Digits | lsh/lsh.cc:197-202 | one digit per bit |
| Lsh.ShuffleIgnored | lsh/lsh.cc:198-200 | as written, the string does not depend on the shuffle |
| Lsh.ShortSignatureOverruns | lsh/lsh.cc:188-199 | as written, a signature shorter than NUM_RANDOM_KEY is read past its end |
| Lsh.ShuffledString | lsh/lsh.cc:197-202 | the shuffled string has bit indexes[j] at position j |
| Lsh.ShuffledStringPermutes | lsh/lsh.cc:187-202 | under a permutation of the positions the string rearranges the signature's digits |
| Lsh.ShuffleMatters | lsh/lsh.cc:198-199 | an example where the written and the shuffled strings differ |
| Lsh.BitString | lsh/lsh.cc:197-202 | (intended: bit indexes[j]) the stringstream loop writes the shuffled string |
| Lsh.WrittenBitString | lsh/lsh.cc:196-200 | the loop as written puts bit j at position j for each of the shuffle's positions, and gives None past the signature's end |
| Lsh.WrittenIsIdentity | lsh/lsh.cc:187-200 | for a full-width signature the string as written is the unshuffled string, whatever the shuffle |
| Lsh.EntryOrder | lsh/lsh.cc:207 | std::pair's `<` on (string, key) is a strict total order |
| Lsh.Shuffled | lsh/lsh.cc:193-207 | (intended: bit indexes[j]) bits_shuffled after the sort holds one (string, key) pair per record with bits, strictly ascending |
| Lsh.ShuffledCount | lsh/lsh.cc:193-207 | every record with bits appears exactly once |
| Lsh.EntriesOver | lsh/lsh.cc:194-206 | the building loop makes one pair per key |
| Lsh.SortedEntries | lsh/lsh.cc:193-207 | (intended: bit indexes[j]) the loop and std::sort yield that sorted vector |
| Lsh.WrittenEntries | lsh/lsh.cc:193-207 | as written, the entries of every pass are exactly the (string, key) pairs of the identity order, whatever the shuffle |
| Lsh.WindowBounds | lsh/lsh.cc:215-217 | the window of j holds exactly the positions within NUM_NEIGHBOR of j |
| Lsh.FoldAppend | lsh/lsh.cc:182-235 | comparing one sequence of pairs after another is comparing their concatenation, with one check map |
| Lsh.FoldChecks | lsh/lsh.cc:227-228 | the check map ends up holding every pair key compared |
| Lsh.FoldGood | lsh/lsh.cc:227-232 | no pair key is written twice, and every written cosine exceeds MIN_COSINE |
| Lsh.FoldLines | lsh/lsh.cc:232 | lines are only appended, each for a compared pair with a cosine above MIN_COSINE |
| Lsh.FoldIdle | lsh/lsh.cc:227 | pairs whose keys were all seen change nothing |
| Lsh.RepeatedPassIdle | lsh/lsh.cc:182-183 | repeating a pass over the same order writes nothing new |
| Lsh.SamePairSameCos | lsh/lsh.cc:221-226 | with tab-free keys and a symmetric cosine, one pair key means one pair of records and one cosine |
| Lsh.FoldComplete | lsh/lsh.cc:227-232 | starting with none of their keys seen, every compared pair with a cosine above MIN_COSINE is written |
| Lsh.Compare | lsh/lsh.cc:219-233 | one neighbour: a new pair key is marked, its cosine computed, and the line written when it exceeds MIN_COSINE |
| Lsh.VisitNeighbour | lsh/lsh.cc:217-234 | one turn of the k loop compares position k of the window, skipping j itself |
| Lsh.VisitWindow | lsh/lsh.cc:212-234 | the k loop compares position j with its whole window |
| Lsh.VisitPosition | lsh/lsh.cc:211-235 | one turn of the j loop reads the vector at j and compares its window |
| Lsh.VisitPass | lsh/lsh.cc:210-235 | the j loop compares every position with its window |
| Lsh.VisitShuffle | lsh/lsh.cc:183-236 | (intended: bit indexes[j]) one shuffle: sort by it, then compare the windows, with the shared check map |
| Lsh.Passes | lsh/lsh.cc:182-236 | (intended: bit indexes[j]) the shuffle loop compares the passes of all shuffles in order with one check map |
| Lsh.Lsh | lsh/lsh.cc:147-237 | (intended: bit indexes[j]) lsh writes the lines of the passes over the sample's signatures |
| Lsh.Unshuffled | lsh/lsh.cc:183-192 | fifteen shuffles that are all the identity order, the order in which the program as written reads every signature |
| Lsh.LshAsWritten | lsh/lsh.cc:147-237 | lsh as written: no output (the overrun) exactly when fewer than 100 keys are sampled and some record has bits; with no record holding bits the output is empty; otherwise the lines of fifteen identity passes, which equal the lines of a single pass |
| Lsh.NoBitsNoLines | lsh/lsh.cc:182-232 | with no record holding bits the shuffle loop writes no line, whatever the shuffles |
| Lsh.FoldRepeat | lsh/lsh.cc:182-232 | folding a pass repeated m times over the check map gives the same lines as folding it once |
| Lsh.UnshuffledVisits | lsh/lsh.cc:183-232 | with identity shuffles the first m passes are the first pass repeated m times |
| Lsh.OnePassOver | lsh/lsh.cc:182-232 | with identity shuffles, m passes write the same lines as one pass |
| Lsh.WrittenOnePass | lsh/lsh.cc:182-232 | as written, the shuffles after the first write no line lsh would not already have written |
| Lsh.WindowMembers | lsh/lsh.cc:215-218 | the comparisons of j's window are exactly j with each other position in the window |
| Lsh.PassMembers | lsh/lsh.cc:211-235 | the comparisons of a pass are those of the windows of its positions |
| Lsh.AllMembers | lsh/lsh.cc:183-236 | the comparisons of all shuffles are those of their passes |
| Lsh.ShuffledKeysDistinct | lsh/lsh.cc:193-207 | two positions of bits_shuffled hold different records |
| Lsh.WindowVisitKeys | lsh/lsh.cc:217-219 | a comparison in j's window pairs position j with another position |
| Lsh.PassVisitKeys | lsh/lsh.cc:211-219 | a comparison of a pass pairs two different positions |
| Lsh.VisitKeys | lsh/lsh.cc:183-219 | every comparison pairs two different records that have bits |
| Lsh.PassHas | lsh/lsh.cc:215-218 | two positions within NUM_NEIGHBOR of each other are compared |
| Lsh.NeighboursVisited | lsh/lsh.cc:183-235 | two records within NUM_NEIGHBOR positions in some shuffle are compared |
| Lsh.PairCosSymmetric | lsh/lsh.cc:231 | the cosine of two records does not depend on their order |
| Lsh.LshGood | lsh/lsh.cc:182-232 | no pair key (`a\tb`, in the order the pass compares the two records) is written twice, and every written cosine exceeds MIN_COSINE |
| Lsh.LshSound | lsh/lsh.cc:219-232 | every line names two different records, the earlier position first with a tab between, and their cosine |
| Lsh.LshComplete | lsh/lsh.cc:215-232 | with tab-free keys, two records within NUM_NEIGHBOR positions in some shuffle whose cosine exceeds MIN_COSINE are written |
| VariableByte.DigitsLE | compress/variable_byte_code.cc:13-17 | the loop pushes at least one digit, each below 128, the first being num % 128 |
| VariableByte.Plain | compress/variable_byte_code.cc:13-17 | the digits most significant first, at least one, each below 128 |
| VariableByte.Bytes | compress/variable_byte_code.cc:12-26 | a number's bytes: every byte but the last is below 128 and the last is 128 or more |
| VariableByte.ReadNum | compress/variable_byte_code.cc:44-47 | reading a number consumes at least one byte and leaves a suffix of the buffer |
| VariableByte.ReadMany | compress/variable_byte_code.cc:49-58 | reading the numbers yields exactly `size` of them |
| VariableByte.HornerSnoc | compress/variable_byte_code.cc:46-54 | one more digit multiplies the accumulator by 128 and adds the digit, in uint64_t |
| VariableByte.PlainValue | compress/variable_byte_code.cc:52-55 | the digits of a 64-bit number fold back to it |
| VariableByte.ReadDigits | compress/variable_byte_code.cc:52-55 | reading runs over the bytes below 128 and stops at the first byte of 128 or more |
| VariableByte.ReadBytes | compress/variable_byte_code.cc:12-55 | a number's bytes read back as that number, whatever follows |
| VariableByte.ReadConcat | compress/variable_byte_code.cc:29-58 | numbers written one after the other read back in order |
| VariableByte.RoundTrip | compress/variable_byte_code.cc:21-59 | decoding the encoding of the numbers gives them back, and bytes after the encoding are not read |
| VariableByte.OneByte | compress/variable_byte_code.cc:14-15 | a number takes a single byte exactly when it is below 128 |
| VariableByte.ReversedDigits | compress/variable_byte_code.cc:18-31 | the pushed digits, reversed, with 128 added to element 0, are the number's bytes |
| VariableByte.ConcatLength | compress/variable_byte_code.cc:29-33 | the numbers take as many bytes as they have base-128 digits |
| VariableByte.EncodingLength | compress/variable_byte_code.cc:24-35 | the encoded length is the digit count of the count plus the digit counts of the numbers |
| VariableByte.ConcatSnoc | compress/variable_byte_code.cc:29-33 | one more number appends its bytes |
| VariableByte.MarkFirst | compress/variable_byte_code.cc:18 | adding 128 to element 0 changes only that element |
| VariableByte.EncodeNumber | compress/variable_byte_code.cc:12-19 | encode_number appends the digits least significant first and adds 128 to element 0 of the vector, which marks the right byte only when the vector was empty |
| VariableByte.EncodeNumberFresh | compress/variable_byte_code.cc:25-27 | on a cleared vector, the reversed result is the number's bytes |
| VariableByte.EncodeReversed | compress/variable_byte_code.cc:30-32 | one number: encode_number on a cleared vector, copied out backwards |
| VariableByte.Encode | compress/variable_byte_code.cc:21-38 | variable_byte_encode returns NULL for no numbers, otherwise the count followed by every number in order |
| VariableByte.EncodingStep | compress/variable_byte_code.cc:29-33 | each turn of the loop appends the bytes of number i |
| VariableByte.ReadFrom | compress/variable_byte_code.cc:52-55 | reading from position p advances the pointer by at least one byte and stays inside the buffer |
| VariableByte.ReadFromSuffix | compress/variable_byte_code.cc:52-55 | reading from a pointer is reading the rest of the buffer |
| VariableByte.ReadNumber | compress/variable_byte_code.cc:51-55 | the do-while loop reads one number from the pointer |
| VariableByte.Decode | compress/variable_byte_code.cc:40-59 | variable_byte_decode appends the count-many numbers after the count, and fails on a buffer that ends early |
| VariableByte.ReadNumbers | compress/variable_byte_code.cc:49-58 | the outer loop reads `size` numbers from the pointer on |
| VariableByte.ReadManyStep | compress/variable_byte_code.cc:50-58 | one round of the outer loop reads one number and then the rest |
| VariableByte.Sub | compress/variable_byte_code.cc:65 | uint64_t subtraction wraps around |
| VariableByte.Add | compress/variable_byte_code.cc:73 | uint64_t addition wraps around |
| VariableByte.Diffs | compress/variable_byte_code.cc:62-67 | one gap per number |
| VariableByte.PrefixSums | compress/variable_byte_code.cc:73 | one running sum per number |
| VariableByte.SortedDiffs | compress/variable_byte_code.cc:63-87 | for sorted numbers the gaps are the plain differences, the first gap the first number |
| VariableByte.TotalOfDiffs | compress/variable_byte_code.cc:63-73 | the running sum of the gaps up to i is number i |
| VariableByte.PrefixSumsOfDiffs | compress/variable_byte_code.cc:61-74 | the running sums undo the gaps, wrap-around included |
| VariableByte.CompressDiff | compress/variable_byte_code.cc:61-69 | compress_diff encodes the gaps from the previous number, starting from 0 |
| VariableByte.RunningSums | compress/variable_byte_code.cc:73 | the in-place loop turns every element into the running sum |
| VariableByte.DecompressDiff | compress/variable_byte_code.cc:71-74 | decompress_diff decodes onto the vector and then prefix-sums the whole vector, earlier contents included |
| VariableByte.CompressRoundTrip | compress/variable_byte_code.cc:104-109 | compress_diff then decompress_diff into an empty vector gives the numbers back |
| Sift.EuclidDistanceSquared | image/visual_words/sift/nearest_neighbor.cc:24-32 | the loop sums the squared element differences of two vectors of equal length |
| Sift.SqSign | image/visual_words/sift/nearest_neighbor.cc:29 | a squared difference is non-negative, and positive exactly when the difference is not 0 |
| Sift.SqEuclidSymmetric | image/visual_words/sift/nearest_neighbor.cc:24-32 | the distance does not depend on the order of its arguments |
| Sift.SqEuclidZero | image/visual_words/sift/nearest_neighbor.cc:24-32 | the distance is non-negative and is 0 exactly for equal vectors |
| Sift.SearchNearestCentroid | image/visual_words/sift/nearest_neighbor.cc:87-100 | the loop returns the index the first-minimum search names |
| Sift.SearchFacts | image/visual_words/sift/nearest_neighbor.cc:90-98 | the scan keeps the first strictly smallest distance below 1000000, and index 0 while there is none |
| Sift.NearestCentroidMeaning | image/visual_words/sift/nearest_neighbor.cc:87-100 | the result is the first index with the smallest distance when some distance is below 1000000, and 0 otherwise, also with no centroids |
| Sift.SlotsMeaning | image/visual_words/sift/nearest_neighbor.cc:52-56 | a line is read exactly when every pair has a value field and an index in 0..127; then each of the 128 slots holds the value of the last pair naming it, or 0 |
| Sift.ReadCentroid | image/visual_words/sift/nearest_neighbor.cc:51-56 | one line: 128 zero slots, each (index, value) field pair after the first field setting one |
| Sift.SlotsFail | image/visual_words/sift/nearest_neighbor.cc:54-55 | once a pair cannot be read, the whole line cannot |
| Sift.CentroidsShape | image/visual_words/sift/nearest_neighbor.cc:50-58 | every line gives one centroid of exactly 128 slots |
| Sift.ReadCentroids | image/visual_words/sift/nearest_neighbor.cc:42-59 | read_centroids reads one centroid per line |
| Sift.CentroidsPrefixFails | image/visual_words/sift/nearest_neighbor.cc:50-58 | a line that cannot be read makes the whole file unreadable |
| Sift.ReadSift | image/visual_words/sift/nearest_neighbor.cc:61-85 | read_sift appends the descriptors the line-by-line state machine emits |
| Sift.AppendNumbers | image/visual_words/sift/nearest_neighbor.cc:73-77 | the inner loop appends atoi of each non-empty field |
| Sift.NumbersOfCons | image/visual_words/sift/nearest_neighbor.cc:73-77 | the first field contributes its number when it is not empty, nothing when it is |
| Sift.LineNumbersOf | image/visual_words/sift/nearest_neighbor.cc:72-77 | the numbers of a line are atoi of its non-empty space-separated fields, one each, in order |
| Sift.NumbersNonEmpty | image/visual_words/sift/nearest_neighbor.cc:74-76 | reading the non-empty fields is reading all fields and skipping the empty ones |
| Sift.SiftKeepsNumbers | image/visual_words/sift/nearest_neighbor.cc:70-84 | no number is lost or reordered: the emitted descriptors and the pending one are exactly the numbers read |
| Sift.FeedKeeps | image/visual_words/sift/nearest_neighbor.cc:71-83 | one line appends its numbers, if indented, to the emitted and pending numbers |
| Sift.FlattenSnoc | image/visual_words/sift/nearest_neighbor.cc:79-82 | emitting a descriptor appends its numbers to the flattened output |
| Sift.SiftNoneEmpty | image/visual_words/sift/nearest_neighbor.cc:78-83 | a descriptor is emitted only when it is non-empty |
| Sift.FeedNoneEmpty | image/visual_words/sift/nearest_neighbor.cc:78 | one line never emits an empty descriptor |
| Sift.PendingDropped | image/visual_words/sift/nearest_neighbor.cc:70-84 | a descriptor still pending at end of file is dropped |
| Sift.SiftPrefix | image/visual_words/sift/nearest_neighbor.cc:70 | the state after a line depends only on the lines before it |
| Sift.Histogram | image/visual_words/sift/nearest_neighbor.cc:131-135 | the histogram counts the nearest centroid of every feature |
| Sift.CountsMeaning | image/visual_words/sift/nearest_neighbor.cc:131-135 | the histogram holds exactly the ids seen, each with its number of occurrences |
| Sift.CountsTotal | image/visual_words/sift/nearest_neighbor.cc:131-135 | the counts add up to the number of features |
| Pairs.PairsAreLexicographic | image/hog/calc_hog_distance.cc:55-77 | less_pair is the lexicographic order on (value, key), and greater_pair its reverse |
| Pairs.GreaterPairByValue | matrix/mf/util.h:32-48 | as its comment promises, greater_pair holds when the left value is greater, and not when it is smaller |
| Pairs.GreaterIsReversedLess | image/hog/calc_hog_distance.cc:55-77 | greater_pair(a, b) is less_pair(b, a) |
| Pairs.LessPairOrder | image/hog/calc_hog_distance.cc:67-77 | less_pair is irreflexive, transitive and total on distinct pairs, as std::sort needs |
| Pairs.GreaterPairOrder | matrix/mf/util.h:38-48 | greater_pair is a strict total order too |
| Pairs.GreaterPairExactlyOne | matrix/mf/util.h:41-47 | of two distinct pairs exactly one is greater_pair than the other, and no pair is greater than itself |
| Pairs.Shown | image/hog/calc_hog_distance.cc:158-163 | the printed entries number min(10, n) |
| Pairs.CalcDistances | image/hog/calc_hog_distance.cc:158-163 | the sort and the print loop show the first min(10, n) sorted entries |
| Pairs.ShownSmallest | image/hog/calc_hog_distance.cc:200-205 | the printed entries come from the input, in ascending distance with ties by ascending name, and no entry left out is below a printed one |
| Pairs.SortedByLessPair | image/hog/calc_hog_distance.cc:201-202 | the distances sorted with less_pair are ascending |
| Surf.ScanFacts | image/surf/compare_surf.cc:32-46 | min_dist is the smallest eligible distance and secmin_dist the smallest of the others, both capped at 1e6, with min_dist <= secmin_dist; neighbor is the first index attaining min_dist, or -1 |
| Surf.NearestNeighbor | image/surf/compare_surf.cc:28-51 | nearest_neighbor ignores candidates of another laplacian and returns the neighbour only when it passes the ratio test |
| Surf.NearestMeaning | image/surf/compare_surf.cc:36-50 | a match is the first eligible candidate at the smallest distance, below 0.6 times every other eligible distance and below 600000 |
| Surf.NearestConverse | image/surf/compare_surf.cc:36-50 | conversely, an eligible candidate below 600000 and below 0.6 times every other eligible distance is the one returned |
| Surf.NoCandidateNoMatch | image/surf/compare_surf.cc:31-50 | with no candidate of the query's laplacian the result is -1 |
| Surf.OneCandidate | image/surf/compare_surf.cc:31-47 | a single eligible candidate matches exactly when its distance is below 600000 |
| Surf.PairsFacts | image/surf/compare_surf.cc:56-65 | the pair list has even length, its query indexes strictly increase, each neighbour is that query's match and at least 0, and every query with a match is listed |
| Surf.FindPairs | image/surf/compare_surf.cc:53-66 | find_pairs appends the (i, neighbor) pairs of every query with a match, in order |
| Ratings.AsSize | matrix/factorize_sgd.cc:64-65 | the size_t conversion of atoi's result is below 2^64 and keeps values already in range |
| Ratings.Rows | matrix/factorize_sgd.cc:62-63 | one field list per line |
| Ratings.ReadDims | matrix/factorize_sgd.cc:58-70 | the first pass of read_file computes (max user id + 1, max item id + 1) in size_t, and fails on a line without a second field |
| Ratings.ReadLineIds | matrix/sgd_movielens.cc:65-71 | one line: split it, read both ids and raise the maxima |
| Ratings.MaximaFails | matrix/sgd_movielens.cc:65-72 | once a line lacks a second field, the whole read fails |
| Ratings.MaximaMeaning | matrix/sgd_movielens.cc:61-72 | the read succeeds exactly when every line has at least two fields; then the maxima bound every id and each is 0 or some line's id |
| Ratings.DimsCover | matrix/sgd_movielens.cc:73 | every id indexes the resized matrix, unless the size wraps to 0 |
| Ratings.CountWhere | matrix/sgd_movielens.cc:136-144 | a count never exceeds the number of test ratings |
| Ratings.CheckTestData | matrix/sgd_movielens.cc:135-144 | ncorrect counts the exact hits and ndiffone the ratings missed by exactly one |
| Ratings.CountDisjoint | matrix/sgd_movielens.cc:141-142 | counting two disjoint conditions separately counts their union |
| Ratings.CheckCountsBounded | matrix/sgd_movielens.cc:141-142 | no rating is counted twice: ncorrect + ndiffone is at most the number of test ratings |
| Ratings.AllCorrect | matrix/sgd_movielens.cc:141 | ncorrect equals the number of test ratings exactly when every prediction hits |

## Left out

- File I/O, usage messages, printing and float formatting are not modelled. Examples: the result dump of COP-KMeans in hash-map order; `save_clusters` output; the printed distance lists; the histogram lines. Only the per-line parsing and the values printed are modelled.
- Tokyo Cabinet: the hash database of k-means++ is a sequence of (key, record text) pairs in iteration order, and the one of the LSH tool is a map from key to record text. The open, close and iteration calls are left out.
- Randomness is not modelled. `rand`, `srand(time)` and `random_shuffle` become parameters: the first centre's index, the draws in [0, potential], the sampled record keys and the shuffles. As written the shuffles have no effect on the bit strings (see the LSH lines below).
- `choose_random_centers` of both clustering tools is left out, because `main` never calls it.
- `mysrand`/`myrand` of the matrix utilities and `random_numbers` of the codec are randomness and are left out.
- IEEE floating point is not modelled; values are exact reals. `sqrt`, `atof`, `atoi` and `round` are parameters.
- The cosine distance that k-means++ clusters with is a parameter. Its `length` and `cosine` helpers are not modelled on their own.
- The SURF descriptor distance and the HOG distances between images are supplied as values. `euclid_distance`, `norm`, `cosine`, `cosine_distance` and `calc_hog` of the HOG tool call OpenCV and are left out, and so are `print_distances` and the HOG `main`.
- `std::sort` is modelled by an insertion sort (`Sorting.SortBy`). Under a strict total order every sort gives the same result, and the comparators are proved to be such an order.
- Undefined behaviour is modelled as a failure value, not a crash. This covers:
  - `splited[1]` on a line without a second field;
  - a centroid field pair without a value, or with an index outside 0..127;
  - a decode buffer that ends inside a number;
  - a signature shorter than the bits read.
- `size_t` and `uint64_t` wrap-around is modelled explicitly modulo 2^64. This covers the codec's gaps and prefix sums, the decoder's accumulator, and the `max + 1` matrix sizes.
- The second pass of both rating readers (filling the sparse matrix), Eigen, and the SGD and NMF training and RMSE code are left out. They are dense floating-point numerics over a library this model cannot see.
- The directory walk of the image tools is left out. The extension filter is only the `GetExtension` examples.
- The OpenCV image code, SURF extraction (`get_surf`), the bayon and lshkit wrappers, the Python scripts, and the OpenMP loop of the EMD tool are left out. They are foreign calls and concurrency.
- `show_vectors` of COP-KMeans and `print_vector` of k-means++ only print and are left out.
- The byte-wise `memset` of `prev_assign` in COP-KMeans is not modelled. The initial previous assignment is an arbitrary sequence given to `Execute`, and it is only compared once.
- CopKMeans.KMeans.Execute: the precondition `nclusters <= |vectors|` models `assert(nclusters <= vectors_.size())` (cluster/kmeans/cop_kmeans.cc:278); the abort on a failed assert is not modelled as a failure value.
- CopKMeans.KMeans.Execute: runs the corrected guard of `Assign`; see the next two lines for what the program as written does.
- CopKMeans.Assign: models the corrected guard (compare with the number of centres). As written (cluster/kmeans/cop_kmeans.cc:182) a pass can complete with a point holding the sentinel K (`CopKMeans.SentinelSurvives`); the next step, `move_centers` indexing `centers_[K]` (cluster/kmeans/cop_kmeans.cc:198-206), is undefined behaviour, which the model reports early as the exit error.
- CopKMeans.KMeans.AssignClusters: the same corrected guard as `CopKMeans.Assign`; the as-written sentinel and the undefined `centers_[K]` of `move_centers` are reported early as the exit error.
- CopKMeans.ReadVectors: models the intended reader, in which a line with an even field count leaves nothing behind. As written (cluster/kmeans/cop_kmeans.cc:343-367) the `continue` skips `splited.clear()`, so that line's fields carry into the next record (`CopKMeans.StaleFieldsCarried`).
- CopKMeans.ReadVectors: an empty key-name field (as in `a\t\t1`) is numbered like any other name. In the source `""` is the keymap's empty key (cluster/kmeans/cop_kmeans.cc:337), and inserting it through `keymap[splited[i]]` (cluster/kmeans/cop_kmeans.cc:355) is forbidden by `dense_hash_map`: an assertion failure or undefined behaviour, which the model neither reports nor excludes.
- CopKMeans.ReadPairs: numbers an empty name like any other, for the same reason.
- KMeansPlusPlus.Cluster: requires `first < |db|`. `rand() % rnum` (cluster/kmeans/kmeanspp.cc:288) is undefined for an empty database, so an empty database is excluded rather than reported.
- KMeansPlusPlus.Cluster: requires `1 <= ncenters`. `main` exits through `usage_exit` when `ncenters <= 0` (cluster/kmeans/kmeanspp.cc:89); that exit is not modelled as a failure value.
- KMeansPlusPlus.ChooseSmartCenters: requires `first < |vs|` and `1 <= ncenters`, for the same draw and usage check.
- CopKMeans.KMeans.Execute: requires `first < |vectors|`. `rand() % vectors_.size()` (cluster/kmeans/cop_kmeans.cc:98) is undefined for an empty vector file, so that case is excluded rather than reported.
- CopKMeans.KMeans.ChooseSmartCenters: requires `first < |vectors|`, for the same draw.
- CopKMeans.Seeding: requires `first < |vs|`, for the same draw.
- Sift.EuclidDistanceSquared: the precondition of equal lengths models `assert(vec1.size() == vec2.size())` (image/visual_words/sift/nearest_neighbor.cc:26); the abort is not modelled as a failure value.
- Sift.SearchNearestCentroid: requires the query and every centroid to have equal lengths, for the same assert in the distance it calls.
- Sift.Histogram: requires `SameLengths` for every feature, for the same assert, reached through the nearest-centroid search.
- CopKMeans.KMeans.Execute: when a pass fails with an error, the program exits, so the model states nothing about the centres left behind.
- In the model, the `operator[]` insertions of `squared_dist` and `product` return the padded maps (`KMeansPlusPlus.SquaredDist`, `KMeansPlusPlus.Product`); the maps are not updated in place.
- The `check` and `bits` maps of the LSH tool are values that the loop methods rebuild; they are not updated in place.
- Strings are sequences of characters, not of bytes as `std::string` is. `find_first_of` and `find_first_not_of` (matrix/mf/util.cc:53-57 and image/bof/util.cc:15-19) match any single byte of the delimiter, so a multi-byte UTF-8 delimiter would also split inside another character sharing a byte; the character-set split of `Strings.Fields` and `Strings.Tokens` equals the byte split only for ASCII delimiters. Every caller passes a tab or a space. Input that is not valid text cannot be represented.
- Strings.Pieces: requires a non-empty delimiter. With `""`, `find` returns 0 and `s = s.substr(0)` never shrinks the string, so `splitstring` (cluster/kmeans/cop_kmeans.cc:391-402), `splitAll` (image/visual_words/sift/nearest_neighbor.cc:14-22) and `MF::split` (matrix/factorize_sgd.cc:39-50) never return. Every caller passes a tab or a space.
- Strings.Split and Strings.SplitAll: require a non-empty delimiter for the same non-termination.
- Lsh.Lsh: models the intended program, in which each pass writes the bits in its shuffled order. As written (lsh/lsh.cc:199) the loop writes `bits[key][j]` and ignores the shuffle; that program is `Lsh.LshAsWritten`, and `Lsh.WrittenOnePass` shows that then only the first pass can write lines.
- Lsh.Passes: compares the passes of the intended shuffled strings; as written every pass is the identity pass (`Lsh.UnshuffledVisits`).
- Lsh.VisitShuffle: sorts by the intended shuffled string; as written it sorts by the unshuffled one (`Lsh.WrittenEntries`).
- Lsh.SortedEntries: sorts the intended shuffled strings; as written the entries are those of the identity order (`Lsh.WrittenEntries`).
- Lsh.Shuffled: describes the intended shuffled strings; as written the pairs are those of the identity order (`Lsh.WrittenEntries`).
- Lsh.BitString: writes bit `indexes[j]` at position `j`, as intended; the loop as written is `Lsh.WrittenBitString`.
- KMeansPlusPlus.Cluster: models `main` without its database and file I/O; the clusters it saves are returned as a keyed map.

## Findings

| source | as written | input that shows it | evidently intended | confidence | as-written member | corrected member |
|---|---|---|---|---|---|---|
| cluster/kmeans/cop_kmeans.cc:182 | the feasibility guard compares `min_index` with `vectors_.size()`, so when every cluster is ruled out and K < N the point keeps the sentinel K, and `move_centers` then indexes `centers_[K]` | points {1:1} and {1:2}, one centre {1:1}, a cannot-link between the two points: point 1 keeps the sentinel 1 | compare with `centers_.size()` and exit when no cluster can take the point | not executed | CopKMeans.SentinelSurvives | CopKMeans.Assign |
| cluster/kmeans/cop_kmeans.cc:343-367 | the `continue` for a line with an even field count skips `splited.clear()`, so that line's fields are prepended to the next line's | lines "a\tb" then "x\t1\t2": the record is labelled "a" and gets key 2 | a line with an even field count is dropped and leaves nothing behind | not executed | CopKMeans.StaleFieldsCarried | CopKMeans.MalformedLineDropped |
| lsh/lsh.cc:198-199 | the bit string is written from `bit[j]` rather than `bit[indexes[j]]`, so every shuffle sorts the signatures the same way | signature [1, 0] with shuffle [1, 0]: the as-written string is "10", the shuffled one "01" | each loop writes the bits in its shuffled order | not executed | Lsh.ShuffleIgnored | Lsh.ShuffledStringPermutes |
| lsh/lsh.cc:188-199 | the string loop reads NUM_RANDOM_KEY bits whatever the signature's length, so a signature built from fewer sampled keys is read past its end | a signature of 99 bits, read at positions 0..99 | read only the signature's own positions | not executed | Lsh.ShortSignatureOverruns | Lsh.ShuffledString |
