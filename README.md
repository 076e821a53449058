# GPS taxi-trace cleaner and converter, modelled in Dafny

The repository cleans GPS taxi traces. A trace record holds a vehicle id, a latitude, a
longitude and a millisecond timestamp. It has two programs, each written twice, once in C
and once in Python.

- **The fixer** (`trajectory_fixer_c.c`, `trajectory_fixer.py`) groups the records by
  vehicle and sorts each group by time. It then splits each group into trajectories whose
  consecutive samples lie close together. It keeps only trajectories whose bounding box
  is wider than a minimum, and numbers them 0, 1, 2, ...
- **The converter** (`my_converter_c.c`, `my_converter.py`) groups the records by
  vehicle. It prints one line per group: the id, then the coordinates of every sample.

The model follows the source file by file.

- The C code is imperative Dafny:
  - a `Trajectory` class over a growable `array`;
  - a `TrajectoryReader` class with a one-point lookahead;
  - a `TrajectoryWriter` class with its running id counter;
  - an in-place quicksort;
  - the segmentation loop with its start and end indices.
- The Python code is modelled as follows:
  - a `TrajectoryDict` class: the dict, with its insertion-ordered keys and its lists;
  - the `deque`s of `fix_and_split` become sequence variables that the loops pop from and push to;
  - methods whose loops are those of the source.

Every method is proved against a specification function:
- `Groups` for the reader;
- `Segments`/`Written` for the C segmentation;
- `KeysOf`/`ListsOf` for the dict grouping;
- `SortByTime` for Python's stable sort;
- `Pieces`/`AllPieces` for fix_and_split and fix_trajectories.

The properties the source relies on are proved about those functions as lemmas.

Coordinates are real numbers. Distances are compared through their squares: a
non-negative root orders like its square (`Geometry.RootComparisons`,
`Geometry.RootsOrdered`). So `distance(p, q) > SPATIAL_LIMIT` becomes a comparison of
`SqDistance(p, q)` with `SPATIAL_LIMIT * SPATIAL_LIMIT`. In the same way, the
nearest-neighbour searches compare squared distances.

The input file is an abstract sequence of parsed records, and its first element is the
header line. The output file is a sequence of rows (C fixer), of field lists (C converter)
or of `OutLine`s (Python converter).

Modules:
- `SeqUtil`, `Options`, `Geometry`: shared helpers for sequences, optional values, squared distance, bounding boxes and the first minimum.
- `CTrajectory`, `CReader`, `CWriter`, `CSort`, `CSegment`, `CSegmentFacts`, `CSegmentExamples`: the C fixer. Its point, trajectory and reader code is shared word for word with the C converter, except `readPoint`: the converter's skips a leading field (my_converter_c.c:83), which `CConverter.Decode` models.
- `CConverter`: what `my_converter_c.c` does differently.
- `PyData`: the records, the dict grouping and the stable sort. These are shared by both Python programs.
- `PyFixer`: the `TrajectoryFixer` class.
- `PyConverter`: `main` of `my_converter.py`.

Constants:
- The C fixer's limits are `SPATIAL_LIMIT` 0.003, `TIME_LIMIT` 30000 and `MIN_BOUNDARY` 0.01 (trajectory_fixer_c.c:7-9).
- `TrajectoryFixer`'s defaults are spatial_limit 0.002, time_limit 30000 and min_boundary 0.01 (trajectory_fixer.py:102).

Reference definitions. These functions define what the operations compute. Their own
`ensures` only give shapes and lengths, so they have no row of their own below; the
lemmas and methods that use them do:
- `CWriter.RowsOf`: the rows of one trajectory. See `CWriter.RowsOfRoundTrip`.
- `CSegment.SqDistances`, `CSegment.Steps`, `CSegment.Cuts`: the squared distances, successors and cut flags of the walk. See `CSegment.NextSpec` and `CSegment.StepsIsWalk`.
- `CSegment.Pick`, `CSegment.PickAll`: the samples at given indices. See `CSegmentFacts.PickLinked`.
- `CConverter.DecodePoint`, `CConverter.Decode`: the converter's record layout. See `CConverter.LeadIgnored`.
- `CConverter.LineOf`: the printed line. See `CConverter.LineRoundTrip`.
- `PyData.PointOf`, `PyData.Body`, `PyData.ListsOf`: the point of a record, `lines[1:]` and the dict's lists. See `PyData.ReadTrajectories` and `PyData.TotalPoints`.
- `PyFixer.Dists`: the distance key of `min`. See `PyFixer.TrajectoryFixer.Advance`.
- `PyFixer.TrajectoryFixer.GrowFrom`, `GrowAt`, `Pieces` and `AllPieces`: fix_and_split and fix_trajectories as functions. See `FixAndSplit`, `SplitKeys` and `FixTrajectories`.
- `PyConverter.CoordsOf`: the coordinates of a list. See `PyConverter.ConvertedCount`.

## Model

| member | source | states |
|---|---|---|
| `Geometry.RootComparisons` | trajectory_fixer_c.c:91-93 | for a non-negative root d of sq, `d < L`, `d <= L` and `d > L` hold exactly when the squared comparisons `Below`, `AtMost` and `!AtMost` do |
| `Geometry.RootsOrdered` | trajectory_fixer.py:74-75 | two non-negative distances compare as their squares do, so minimising squared distance picks the same point as minimising distance |
| `Geometry.FirstMin` | trajectory_fixer.py:137 | the index returned holds a minimal value, and every earlier index holds a strictly larger one: the element `min(..., key=...)` keeps |
| `Geometry.FirstMinUnique` | trajectory_fixer.py:137 | those two properties determine the index, so any first argmin equals FirstMin |
| `Geometry.SpreadMonotone` | trajectory_fixer_c.c:276-283 | the bounding box of a prefix is never wider than that of the whole sequence |
| `Geometry.SpreadSameValues` | trajectory_fixer_c.c:263-265 | two sequences with the same set of values have the same spread, so reordering does not change the span test |
| `CTrajectory.Trajectory.constructor` | trajectory_fixer_c.c:109-116 | a new trajectory has id -1, capacity 100 and no stored samples |
| `CTrajectory.Trajectory.AddPoint` | trajectory_fixer_c.c:118-125 | the stored samples become the old ones followed by p, and `filled` grows by one. Capacity grows by 100 exactly when the buffer was full. It stays a multiple of 100 and at least `filled`. The id is unchanged |
| `CTrajectory.Trajectory.GetPoint` | trajectory_fixer_c.c:127-130 | None for an index at or past `filled`; otherwise the sample stored at that index |
| `CReader.RunLength` | trajectory_fixer_c.c:206-210 | the length of the maximal prefix whose points share the first point's taxi id: at least 1, and the point after it (if any) has another id |
| `CReader.RunLengthUnique` | trajectory_fixer_c.c:206-210 | any prefix length with those two properties is RunLength |
| `CReader.GroupsPartition` | trajectory_fixer_c.c:195-213 | the groups handed out, concatenated in order, are exactly the point stream |
| `CReader.GroupsSameId` | trajectory_fixer_c.c:206-210 | every group is non-empty and all its points carry one taxi id |
| `CReader.GroupsSeparated` | trajectory_fixer_c.c:210-211 | neighbouring groups have different ids where they meet |
| `CReader.GroupSizesExample` | trajectory_fixer_c.c:195-213 | ids 1,1,1,2,2,3 give exactly three groups, of sizes 3, 2 and 1 |
| `CReader.NonContiguousIdsSplit` | trajectory_fixer_c.c:206-210 | an id that comes back after another id starts a new group: ids p, q, p give three singleton groups |
| `CReader.TakeGroup` | trajectory_fixer_c.c:207-211 | taking a maximal same-id run off the pending points yields the first group of the pending points and leaves the remaining groups |
| `CReader.ReaderInvCovers` | trajectory_fixer_c.c:191-211 | under the reader invariant, the groups handed out followed by the pending points are all the records after the header |
| `CReader.ReaderStep` | trajectory_fixer_c.c:199-211 | one readTrajectory call that returns a maximal run keeps the reader invariant. Its lookahead is then NULL or a point of another id |
| `CReader.TrajectoryReader.constructor` | trajectory_fixer_c.c:187-193 | the buffer starts empty and one record (the header) is consumed, so the pending points are the records after the header |
| `CReader.TrajectoryReader.ReadPoint` | trajectory_fixer_c.c:167-180 | the next record, advancing by one, or NULL at end of input without advancing |
| `CReader.TrajectoryReader.NextSeed` | trajectory_fixer_c.c:199-204 | the buffered point if there is one, else a newly read record; NULL exactly when nothing is pending |
| `CReader.TrajectoryReader.ReadRun` | trajectory_fixer_c.c:206-210 | the do-while loop stores the seed and the following records of the same id, and returns the first record of another id, or NULL at end |
| `CReader.TrajectoryReader.StoreAndRead` | trajectory_fixer_c.c:208-209 | one pass of the do-while body: the stored samples grow by the record read last, and the next record (or NULL at end) is read |
| `CReader.TrajectoryReader.ReadGroup` | trajectory_fixer_c.c:206-212 | the trajectory returned is the first group of the pending points, and the groups still pending are the rest |
| `CReader.TrajectoryReader.ReadTrajectory` | trajectory_fixer_c.c:195-213 | NULL exactly when no points are pending. Otherwise it returns a fresh trajectory with id -1: the first group of the pending points. The groups left pending are the remaining ones |
| `CWriter.RowsOfAllAppend` | trajectory_fixer_c.c:228-235 | writing one more trajectory appends its rows under the next id |
| `CWriter.RowsOfRoundTrip` | trajectory_fixer_c.c:230-233 | reading a trajectory's rows back (dropping the id) gives its samples |
| `CWriter.RowsOfAllRoundTrip` | trajectory_fixer_c.c:228-235 | all rows of trajectories written in turn are data rows, and reading them back gives the concatenation of the trajectories |
| `CWriter.RowsOfAllNumbered` | trajectory_fixer_c.c:232-234 | the rows of trajectories written in turn from id n on are data rows, one per sample, whose ids never decrease and stay in [0, n + count) |
| `CWriter.NumberedAppend` | trajectory_fixer_c.c:232-234 | appending rows tagged with the current counter keeps the rows numbered in order below the next counter |
| `CWriter.TrajectoryWriter.constructor` | trajectory_fixer_c.c:220-226 | the counter starts at 0 and the header row is the only output |
| `CWriter.TrajectoryWriter.WriteTrajectory` | trajectory_fixer_c.c:228-235 | the output grows by exactly one row per stored sample, in stored order, tagged with the current counter. The counter then grows by one, and the header and id ordering are kept |
| `CSort.Swap` | trajectory_fixer_c.c:240-245 | the two entries are exchanged and nothing else changes |
| `CSort.PartitionSwapStep` | trajectory_fixer_c.c:252-255 | swapping an entry at most the pivot to position i keeps the partition invariant |
| `CSort.PartitionSkipStep` | trajectory_fixer_c.c:251-256 | passing an entry above the pivot keeps the partition invariant |
| `CSort.Scan` | trajectory_fixer_c.c:250-257 | the scan ends with the range partitioned into entries at most the pivot, then entries above it |
| `CSort.Partition` | trajectory_fixer_c.c:248-257 | the range is permuted so that [start, i) has timestamps at most the pivot's, the pivot sits at i - 1 and [i, end) is above it |
| `CSort.SortedAroundPivot` | trajectory_fixer_c.c:258-259 | two sorted halves around the pivot make a sorted range |
| `CSort.QuickSortStep` | trajectory_fixer_c.c:258-259 | partition then the two recursive sorts, on [start, i-1) and [i, end), leave the whole range a sorted permutation |
| `CSort.QuickSortSorted` | trajectory_fixer_c.c:258-259 | after both recursive sorts the partition bounds still hold, so the whole range is sorted |
| `CSort.QuickSort` | trajectory_fixer_c.c:247-261 | entries in [start, end) end up nondecreasing in timestamp and a permutation of what they were; entries outside are untouched |
| `CSort.SortTrajectory` | trajectory_fixer_c.c:263-265 | the stored samples become a timestamp-sorted permutation of themselves |
| `CSegment.OnePointNotValid` | trajectory_fixer_c.c:267-287 | a single sample never passes the span test |
| `CSegment.ValidSpanHasTwo` | trajectory_fixer_c.c:276-284 | a trajectory that passes the span test has at least two samples |
| `CSegment.ValidSpanPermutation` | trajectory_fixer_c.c:307 | a permutation of the samples passes the span test exactly when the original does, so sorting first does not change which segments are valid |
| `CSegment.ScanStep` | trajectory_fixer_c.c:276-283 | the running extremes of a prefix extend by one sample with max/min, and a prefix that already exceeds the bound means the whole does: the early return agrees with the full span |
| `CSegment.Widen` | trajectory_fixer_c.c:278-281 | the four comparisons update the running maximum and minimum |
| `CSegment.IsValid` | trajectory_fixer_c.c:267-287 | 1 exactly when the trajectory is non-null, non-empty and its lat or lng span exceeds 0.01 |
| `CSegment.ClosestIndex` | trajectory_fixer_c.c:289-303 | `filled` when rangeStart is past the samples. Otherwise it is the first index of least distance in [rangeStart, max(rangeStart+1, rangeEnd)), so rangeStart is returned even for an empty window |
| `CSegment.ClosestIndexUnique` | trajectory_fixer_c.c:289-303 | an index in that window that is minimal and first is ClosestIndex |
| `CSegment.GetClosestPointIndex` | trajectory_fixer_c.c:289-303 | the loop returns ClosestIndex of the stored samples |
| `CSegment.Extend` | trajectory_fixer_c.c:313-314 | `end` never decreases, every index it passes is less than TIME_LIMIT after t0, and the index it stops at (if any) is not |
| `CSegment.ExtendUnique` | trajectory_fixer_c.c:313-314 | an end index with those properties is Extend |
| `CSegment.AdvanceEnd` | trajectory_fixer_c.c:313-314 | the inner while loop computes Extend |
| `CSegment.Next` | trajectory_fixer_c.c:315-321 | the next visited index is strictly after the current one, so `start` strictly increases and the loop ends |
| `CSegment.NextSpec` | trajectory_fixer_c.c:313-321 | the next index is `filled` only from the last sample. Otherwise it is start+1 or inside the time window, and it is the first nearest sample of the window |
| `CSegment.StepsIsWalk` | trajectory_fixer_c.c:310-322 | successors move strictly forward, and the last sample always cuts |
| `CSegment.SplitInRange` | trajectory_fixer_c.c:310-322 | every index in every segment of the walk is a valid sample index |
| `CSegment.SegmentsFromInRange` | trajectory_fixer_c.c:310-322 | the same, for the segments from any point of the walk onward |
| `CSegment.KeepValidAppend` | trajectory_fixer_c.c:317-318 | one more segment is kept exactly when it passes isValid |
| `CSegment.EmittedStep` | trajectory_fixer_c.c:316-320 | closing a segment writes it exactly when it is valid, and the output is then the rows of the valid segments closed so far |
| `CSegment.RowsStep` | trajectory_fixer_c.c:317-318 | the same fact on rows and ids: a written segment takes the next id |
| `CSegment.Advance` | trajectory_fixer_c.c:313-315 | on sorted samples, extending `end` from its current value or from start+1 gives the same window. The closest index of that window is Next, and the window invariant is kept |
| `CSegment.WalkStart` | trajectory_fixer_c.c:306-308 | start 0, end 1 and an empty open segment satisfy the walk invariant |
| `CSegment.WalkCut` | trajectory_fixer_c.c:316-321 | a cut closes the open segment with the current sample and the walk continues at Next with an empty segment |
| `CSegment.CutUnfold` | trajectory_fixer_c.c:316-321 | the segments of the walk are the closed ones, then the newly closed one, then the segments from Next on |
| `CSegment.WalkKeep` | trajectory_fixer_c.c:311-321 | without a cut the current sample joins the open segment and the walk continues at Next |
| `CSegment.WalkEnd` | trajectory_fixer_c.c:310 | when `start` reaches `filled`, the closed segments are all segments of the walk |
| `CSegment.SliceNSpliceNSave` | trajectory_fixer_c.c:305-323 | the trajectory becomes a sorted permutation of itself. The output grows by the rows of Written of the sorted samples: the valid segments of the walk, in order, under consecutive ids from the current counter |
| `CSegment.WalkSorted` | trajectory_fixer_c.c:308-322 | on sorted samples, the loop writes the rows of exactly the Written segments, and the counter grows by their number |
| `CSegment.Visit` | trajectory_fixer_c.c:311-315 | one loop round adds the current sample to the open segment and moves `end` to Extend and `start` to Next. It reports whether the walk cuts there |
| `CSegment.Flush` | trajectory_fixer_c.c:316-320 | the open segment is written exactly when it passes isValid, and a new empty segment replaces it |
| `CSegmentFacts.ChainShape` | trajectory_fixer_c.c:310-322 | the indices the walk visits from i are increasing, follow successors, start at i and end at the last sample |
| `CSegmentFacts.SplitCover` | trajectory_fixer_c.c:310-322 | the segments of the walk, concatenated, are the open segment followed by the visited indices |
| `CSegmentFacts.ChainStep` | trajectory_fixer_c.c:321 | the visited chain from i is i followed by the chain from its successor |
| `CSegmentFacts.SplitCutStep` | trajectory_fixer_c.c:316-319 | a cut closes the open segment with the current index |
| `CSegmentFacts.FlattenJoin` | trajectory_fixer_c.c:310-322 | concatenating a closed segment with the rest joins their indices |
| `CSegmentFacts.SegmentsArePath` | trajectory_fixer_c.c:306-322 | all segments together are the visited indices: strictly increasing (no sample twice), from 0 to filled-1. Skipped indices are in no segment |
| `CSegmentFacts.SplitLinked` | trajectory_fixer_c.c:313-321 | every segment is non-empty and linked by successors without a cut inside. It ends at a cut, and the next segment starts at its successor |
| `CSegmentFacts.LinkedIncreasing` | trajectory_fixer_c.c:315-321 | a linked segment's indices strictly increase |
| `CSegmentFacts.PickLinked` | trajectory_fixer_c.c:313-321 | on sorted samples a linked segment is time-sorted, and its consecutive samples are at most SPATIAL_LIMIT apart |
| `CSegmentFacts.KeepValidExact` | trajectory_fixer_c.c:317-318 | a segment is kept exactly when it is one of the segments and passes isValid |
| `CSegmentFacts.WrittenValid` | trajectory_fixer_c.c:316-319 | every written segment passes isValid and so has at least two samples |
| `CSegmentFacts.WrittenChained` | trajectory_fixer_c.c:310-321 | on sorted samples every written segment is time-sorted, and its consecutive samples are at most 0.003 apart |
| `CSegmentFacts.WrittenFacts` | trajectory_fixer_c.c:313-321 | every written segment passes isValid, has at least two samples, is time-sorted, and has consecutive samples at most 0.003 apart |
| `CSegmentExamples.TimeGapDoesNotCut` | trajectory_fixer_c.c:289-303 | two close samples 40 s apart stay in one segment: the time window is not enforced when it is empty |
| `CSegmentExamples.KeepThenCut` | trajectory_fixer_c.c:316-321 | a walk 0→1 that cuts only at the end gives one segment |
| `CSegmentExamples.DistanceCuts` | trajectory_fixer_c.c:316 | two samples 0.005 apart are cut into two segments |
| `CSegmentExamples.CutThenCut` | trajectory_fixer_c.c:316-319 | a walk that cuts at every sample gives singleton segments |
| `CSegmentExamples.CloserSampleSkipsOne` | trajectory_fixer_c.c:315-321 | a later but nearer sample is chosen, and the sample in between is skipped |
| `CSegmentExamples.SkipThenCut` | trajectory_fixer_c.c:315-321 | a walk 0→2 gives the segment [0, 2] |
| `CConverter.LeadIgnored` | my_converter_c.c:83 | records that differ only in the first field decode to the same point |
| `CConverter.CoordsOf` | my_converter_c.c:128-131 | two fields per sample, lat then lng, in stored order |
| `CConverter.LineRoundTrip` | my_converter_c.c:125-133 | reading a printed line back gives its id and the coordinates of every sample, in order |
| `CConverter.WriteTrajectory` | my_converter_c.c:125-133 | the loop prints LineOf the trajectory's id and samples |
| `CConverter.Convert` | my_converter_c.c:149-156 | one line per group of the records after the header, in order. Each line is LineOf(-1, group), so every line starts with -1 |
| `CConverter.ConvertStep` | my_converter_c.c:153-154 | printing the first pending group moves it to the printed side |
| `CConverter.Emit` | my_converter_c.c:153-155 | one loop round prints the group just read and reads the next one, NULL exactly when none is left |
| `CConverter.Fetch` | my_converter_c.c:153 | one readTrajectory call returns the first pending group, or NULL when none is pending |
| `PyData.FirstWith` | trajectory_fixer.py:87-88 | the first record with the key |
| `PyData.KeysOfExact` | trajectory_fixer.py:84-89 | the dict's keys are distinct, and they are exactly the first fields that occur in the records |
| `PyData.KeysOfFirstAppearance` | trajectory_fixer.py:87-88 | keys are in the order of their first record: an earlier key first appears earlier |
| `PyData.InPrefix` | trajectory_fixer.py:87-88 | a key of a prefix of the records keeps its position among the keys of all records |
| `PyData.FirstWithPrefix` | trajectory_fixer.py:87-88 | a key first seen in a prefix has the same first record in the whole sequence |
| `PyData.PointsOfEmpty` | trajectory_fixer.py:87-89 | a key's list is empty exactly when the key is not in the dict |
| `PyData.TotalPoints` | my_converter.py:20-25 | the lists together hold exactly one point per record after the header |
| `PyData.TotalSame` | trajectory_fixer.py:89 | lists that are unchanged keep their total length |
| `PyData.TotalBump` | trajectory_fixer.py:89 | appending one point to one list raises the total by one |
| `PyData.NonContiguousKeysMerge` | trajectory_fixer.py:86-89 | records with keys p, q, p give two keys, p's list holding both of its points in file order |
| `PyData.TrajectoryDict.constructor` | trajectory_fixer.py:80 | an empty dict |
| `PyData.TrajectoryDict.Put` | trajectory_fixer.py:87-88 | the key is bound to the value, and a new key goes last in insertion order |
| `PyData.TrajectoryDict.Append` | trajectory_fixer.py:89 | the point is appended to the key's list, and nothing else changes |
| `PyData.GroupStep` | trajectory_fixer.py:85-89 | one more record adds its key if new and appends its point to that key's list |
| `PyData.RecordStep` | trajectory_fixer.py:86-89 | the dict update one record makes turns the dict of the earlier records into that of one more record |
| `PyData.AddRecord` | trajectory_fixer.py:87-89 | a new key gets an empty list placed last in key order, then the record's point is appended to its key's list |
| `PyData.ReadTrajectories` | trajectory_fixer.py:77-90 | the dict's keys are KeysOf the records after the header (first-appearance order), and each key's list is its records' points in file order |
| `PyData.AtTimeAppend` | trajectory_fixer.py:111 | the points at one timestamp of a concatenation are those of each part, in order |
| `PyData.AtTimeOne` | trajectory_fixer.py:111 | a single point is at its own timestamp only |
| `PyData.InsertPerm` | trajectory_fixer.py:111 | inserting a point adds exactly that point |
| `PyData.InsertSorted` | trajectory_fixer.py:111 | inserting after every point of no larger timestamp keeps a list sorted |
| `PyData.InsertAtTime` | trajectory_fixer.py:111 | inserting puts the point after the others of its timestamp |
| `PyData.SortByTimeFacts` | trajectory_fixer.py:109-111 | the stable sort is nondecreasing in timestamp, a permutation, and keeps the input order among points of equal timestamp |
| `PyData.StableExample` | my_converter.py:27-28 | two points of equal timestamp keep their order, whichever it is |
| `PyData.SortLists` | trajectory_fixer.py:109-111 | every list is replaced by its stable sort; keys and key order are unchanged |
| `PyFixer.ExtMax` | trajectory_fixer.py:116 | `max` with a finite point value is finite and at least both |
| `PyFixer.ExtMin` | trajectory_fixer.py:116 | `min` with a finite point value is finite and at most both |
| `PyFixer.EmptyGapFails` | trajectory_fixer.py:114-120 | with no points the accumulators stay at -inf and +inf. Each span is -inf - (+inf) = -inf, which is not above the bound, so the test is False |
| `PyFixer.OnePointNotValid` | trajectory_fixer.py:113-120 | a single point never passes isvalid |
| `PyFixer.PickSorted` | trajectory_fixer.py:122-151 | increasing positions of a sorted list pick a sorted list |
| `PyFixer.PickGrow` | trajectory_fixer.py:148 | appending a later position appends its point and keeps the positions increasing |
| `PyFixer.ConcatBelow` | trajectory_fixer.py:127-150 | positions of a new piece, taken from the front of l, follow all positions used so far |
| `PyFixer.ApartGrow` | trajectory_fixer.py:149-150 | a kept new piece comes after every earlier kept piece |
| `PyFixer.TrajectoryFixer.constructor` | trajectory_fixer.py:102-105 | the limits are the arguments, with defaults 0.002, 30000 and 0.01 |
| `PyFixer.TrajectoryFixer.AnchoredGrow` | trajectory_fixer.py:142-148 | appending a point that an earlier piece point let into the working list keeps every point anchored |
| `PyFixer.TrajectoryFixer.ChainedGrow` | trajectory_fixer.py:145-148 | appending a point at most spatial_limit from the tail keeps consecutive points close |
| `PyFixer.TrajectoryFixer.AnchoredInGrow` | trajectory_fixer.py:142-143 | a point anchored by the piece stays anchored when the piece grows |
| `PyFixer.TrajectoryFixer.IsValid` | trajectory_fixer.py:113-120 | True exactly when the lat span or the lng span exceeds min_boundary, with the infinite accumulators of an empty list |
| `PyFixer.TrajectoryFixer.Gather` | trajectory_fixer.py:131-132 | moves from the front of l into the working list every point that joins the tail (closer than spatial_limit, strictly later, less than time_limit later). It stops at the first that does not |
| `PyFixer.TrajectoryFixer.GatherEnd` | trajectory_fixer.py:131-132 | the loop of lines 131 and 142 stops at the first point that does not join the tail, or at the end of l. Every point before it joins |
| `PyFixer.TrajectoryFixer.PopEnd` | trajectory_fixer.py:139-140 | the pop loop stops at the first point later than closest, or when the working list is empty. Every popped point is no later than closest, so two points with closest's timestamp both go |
| `PyFixer.TrajectoryFixer.PopPastClosest` | trajectory_fixer.py:139-140 | on sorted input the pop loop removes closest and every point before it, so the working list shrinks |
| `PyFixer.TrajectoryFixer.GrowFromStep` | trajectory_fixer.py:134-148 | one turn of the inner loop, unfolded: the piece ends when closest is too far, else closest is appended and the loop continues from the popped and refilled working list |
| `PyFixer.TrajectoryFixer.PopThrough` | trajectory_fixer.py:139-140 | pops from the front of the working list exactly as far as PopEnd says. On sorted input that is past closest |
| `PyFixer.TrajectoryFixer.KeepGrowing` | trajectory_fixer.py:139-143 | popping and refilling behind the tail keep the working list a window of the input, every point of which a piece point let in |
| `PyFixer.TrajectoryFixer.AppendClosest` | trajectory_fixer.py:145-148 | appending a near closest keeps the piece taken at increasing positions, chained and anchored |
| `PyFixer.TrajectoryFixer.Advance` | trajectory_fixer.py:134-148 | closest is the first point of least distance to the tail. The loop breaks exactly when that distance is above spatial_limit, else closest is appended. The working list and l after the turn are the PopEnd and GatherEnd positions, so the turn is one unfolding of GrowFrom |
| `PyFixer.TrajectoryFixer.Grow` | trajectory_fixer.py:128-148 | the new trajectory and the remaining l are exactly GrowAt. The trajectory starts at the front of l, is taken at increasing positions, has consecutive points at most spatial_limit apart, and every later point was let in behind an earlier one |
| `PyFixer.TrajectoryFixer.FixAndSplit` | trajectory_fixer.py:122-151 | on time-sorted input, the result is exactly Pieces(trajectory, 0). The pieces are taken at positions that increase across all pieces: disjoint subsequences in input order. Each piece is non-empty, sorted, chained within spatial_limit, anchored, and passes isvalid |
| `PyFixer.TrajectoryFixer.PiecesSorted` | trajectory_fixer.py:149-151 | pieces taken at increasing positions of a sorted list are sorted |
| `PyFixer.TrajectoryFixer.PiecesStep` | trajectory_fixer.py:127-150 | one outer round moves the next grown piece, if it passes isvalid, from the pieces still to come to fixed |
| `PyFixer.TrajectoryFixer.NextPiece` | trajectory_fixer.py:127-150 | one outer round strictly shrinks l and returns the grown trajectory GrowAt. fixed gains that trajectory exactly when it passes isvalid, and the properties of all kept pieces are preserved |
| `PyFixer.TrajectoryFixer.SelectKeys` | trajectory_fixer.py:158 | the keys, in dict order, whose whole list passes isvalid |
| `PyFixer.TrajectoryFixer.AddPieces` | trajectory_fixer.py:170-171 | each piece goes under the next unused number len(new_trajectories), and earlier entries are unchanged |
| `PyFixer.TrajectoryFixer.CollectFromKeys` | trajectory_fixer.py:165-171 | after the pieces of key i are added, every numbered piece comes from one of the first i+1 valid keys |
| `PyFixer.TrajectoryFixer.SplitKey` | trajectory_fixer.py:165-171 | one key's pieces are numbered after those of the earlier keys, and the numbering stays AllPieces of the keys done |
| `PyFixer.TrajectoryFixer.SplitKeys` | trajectory_fixer.py:165-171 | the outputs are exactly AllPieces numbered 0..n-1: every piece fix_and_split returns for each key, keys in key_list order. Each is a piece of one valid key's list, and pieces of one key come in list order |
| `PyFixer.TrajectoryFixer.FixTrajectories` | trajectory_fixer.py:153-175 | the lists are sorted as by order_by_timestamp. The result is None exactly when no key passes isvalid (the progress bar of lines 160-161 then divides by zero in its first draw, line 48). Otherwise it is exactly AllPieces of the keys whose sorted list passes isvalid, as SplitKeys states |
| `PyFixer.NumberedAppend` | trajectory_fixer.py:170-171 | numbering one more key's pieces after the earlier ones keeps the numbering in order |
| `PyFixer.ExtendedOrder` | trajectory_fixer.py:165-171 | appending the pieces of a later key keeps the key order and the position order of pieces of one key |
| `PyFixer.ValidKeysExact` | trajectory_fixer.py:158 | a key is selected exactly when it is a dict key whose list passes isvalid |
| `PyFixer.ValidSpanSorted` | trajectory_fixer.py:154-158 | sorting a list does not change its isvalid answer |
| `PyConverter.LineOf` | my_converter.py:36-37 | the line of a key has the key and one coordinate pair per point of that key |
| `PyConverter.WriteLines` | my_converter.py:35-39 | one line per key, in dict order, with the key's list's coordinates |
| `PyConverter.Convert` | my_converter.py:12-39 | with no records, None (max of an empty dict raises before anything is written). Otherwise one line per key in first-appearance order: the key, then the coordinates of its points sorted stably by timestamp |
| `PyConverter.PairCountLines` | my_converter.py:36-39 | the coordinate pairs of the lines of some keys add up to those keys' list lengths |
| `PyConverter.ConvertedCount` | my_converter.py:20-39 | the output holds exactly one coordinate pair per record after the header |

## Left out

- Progress bars and timing (`ProgressBar`, `StopWatch`, the `progress_bar.set` call inside `fix_and_split`): terminal output and clock reads. Their one effect on the results is the ZeroDivisionError of a bar with `max_value` 0, which is the None result of `PyFixer.TrajectoryFixer.FixTrajectories`.
- File plumbing and command line: `getTotalNumberOfPoints`, `getOutputFileName`, `readAndProcess` and `main` of both C files, `main` and `save_trajectories` of trajectory_fixer.py, and the opening and closing of files in both converters. The model starts from the sequence of records and ends with the sequence of output rows or lines.
- Text parsing and formatting: `fgets` with its 128-byte buffer, `strtol`/`strtod`, the skipped separator byte, `line.split(';')`, `%.8lf`, `str(float)`, and the `';'.join` of the output line. Records and output rows are kept as fields.
- Floating point: coordinates are reals. `sqrt` and `pow` are replaced by squared comparisons. Infinities appear only where isvalid starts its accumulators at -inf/+inf (`PyFixer.GapExceeds`).
- Integer widths: `int` and `long long` ids and timestamps are unbounded integers. Nothing in the fixed code overflows at realistic sizes, and `p->t + TIME_LIMIT` is not modelled as wrapping.
- Memory management: `malloc`/`realloc`/`free`, the trajectory leaked on the NULL path of readTrajectory, and the segment buffers that are never freed. Segments hold copies of the points, not pointers into the original trajectory, so aliasing between them is not modelled.
- The `print` of `max(keys), min(keys)` in my_converter.py: only its failure on an empty dict is modelled (the None result of `PyConverter.Convert`).
- `list.sort` in place (my_converter.py) and `sorted` reassigned (trajectory_fixer.py) are both modelled by `PyData.SortLists`: their results are the same stable sort.
- PyFixer.TrajectoryFixer.FixAndSplit: requires time-sorted input. Its only caller, fix_trajectories, sorts every list first. On unsorted input the pop loop of line 139 need not remove closest, and the source can loop forever.
- PyFixer.TrajectoryFixer.FixAndSplit: also models only the call from fix_trajectories, where the progress bar exists. Called on a fresh TrajectoryFixer, fix_and_split raises AttributeError at line 135 as soon as a working list is non-empty, because `progress_bar` is still None (line 107); the model does not give that call a failure result.
- CTrajectory.Trajectory.GetPoint: requires `index >= 0`. getPoint (trajectory_fixer_c.c:127-130) does not check for a negative index and reads outside the buffer; the model does not give that read a meaning.
