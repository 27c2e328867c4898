# blockpartyrfid event pipeline, modelled in Dafny

This project models `blockpartyrfid/db.py`. That file turns one board's
time-ordered table of sensor rows `(time, board, event, data0, data1)` into
merged tube visits:

- `sel` filters rows.
- `beam_events_to_duration` and `rfid_events_to_duration` turn each channel's
  edge-triggered rows into intervals. The channels are the left beam, the
  right beam and the RFID reader.
- `find_overlapping_durations` and `generate_overlap_map` link the intervals
  that overlap.
- `find_neighbors` walks that link graph depth first.
- `find_tube_events` merges each group found from a right-beam interval into
  one event spanning all its members.

Beside the pipeline sit these queries:

- `find_adjacent` and `closest_event` look up neighbours by time.
- `next_event` does the same, including its tie behaviour.
- `select_events_by_duration` picks rows by edge duration.
- `sum_range` totals covered time with its pairwise overlap correction.

Modules, one per file:

| file | module | models |
|---|---|---|
| `wrappers.dfy` | `Wrappers` | `Option` and `Result` |
| `events.dfy` | `Events` | rows, intervals, event codes, the errors the pipeline raises |
| `selector.dfy` | `Selector` | `sel` |
| `neighbors.dfy` | `Neighbors` | `find_adjacent`, `closest_event`, `next_event` |
| `durations.dfy` | `Durations` | `select_events_by_duration`, `beam_events_to_duration`, `rfid_events_to_duration` |
| `coverage.dfy` | `Coverage` | `sum_range` |
| `overlap.dfy` | `Overlap` | `find_overlapping_durations`, `generate_overlap_map` |
| `components.dfy` | `Components` | `find_neighbors` |
| `tube.dfy` | `Tube` | `find_tube_events` |

How the model is built:

- Code that updates state step by step is written as methods with loops, each
  proved to meet a specification. Some are proved equal to a function; others
  are proved to satisfy a predicate:
  - the `&=` mask in `sel` equals the function `Sel`;
  - the trimming loops equal `SkipTo` and `TrimBackTo`;
  - the accumulation in `sum_range` equals `SumRangeSpec`;
  - the list building in `find_overlapping_durations` equals `OverlapLists`;
  - the array writes in `find_adjacent` satisfy the predicate `Brackets` row by row;
  - the recursive search satisfies the predicate `Searching`;
  - the merge loop satisfies the predicate `TubeEventsOf`.
- Expression-only code becomes functions.
- NaN used as "absent" becomes `Option`.
- Each exception becomes an `Err` of the `Error` datatype:
  - `NotSplitBySide` for a mixed-side beam stream;
  - `NotOneBoard` for a table that is not from exactly one board;
  - `NoFrame` for the index error when trimming empties a stream;
  - `ShapeMismatch` for a failed numpy column assignment;
  - `NoEvents` for an empty column that is indexed or reduced.
- The event codes and the left/right beam values come from the `consts`
  module, which is not part of this model. They are a `Codes` record supplied
  by the caller.

Numpy's broadcasting on column assignment is modelled exactly. A single value
is repeated onto every row, so these frames do not fail:

- a beam frame of three rows;
- RFID frames of four or five rows.

## Model

| member | source | states |
|---|---|---|
| Events.OneDistinct | blockpartyrfid/db.py:255 | A column has exactly one distinct value iff it is non-empty and constant. This is the board check, and also the side check at line 167. |
| Selector.SelectRows | blockpartyrfid/db.py:15-28 | Narrowing an all-true mask with `&=` by each set filter, then taking the rows it keeps, gives `Sel`: the rows whose board, event, data0 and data1 equal the set filters and whose time lies strictly between the bounds. |
| Selector.SelSound | blockpartyrfid/db.py:15-28 | Every returned row passes every set filter and is a row of the input. |
| Selector.SelComplete | blockpartyrfid/db.py:15-28 | Every input row that passes every set filter is returned. |
| Selector.SelSingle | blockpartyrfid/db.py:15-28 | A one-row table is kept iff its row passes. |
| Selector.CompressAppend | blockpartyrfid/db.py:28 | Boolean-mask indexing of a concatenation is the concatenation of the indexed parts. |
| Selector.SelOrder | blockpartyrfid/db.py:28 | Selecting from a concatenation concatenates the selections, so relative order is kept. |
| Selector.SelNoFilter | blockpartyrfid/db.py:15-28 | With no filter set, every row is returned unchanged. |
| Neighbors.SearchSortedRight | blockpartyrfid/db.py:93 | On a sorted column, the insertion point lies after every value ≤ t and before every value > t. |
| Neighbors.AdjacentTo | blockpartyrfid/db.py:93-108 | For one time t against sorted times: prev ≤ t < next. The previous time is absent iff t precedes the first time, the next iff t is at or after the last time. Indices point at the bracketing rows. Past the end, the previous index is -1 and the previous time is the last time. Both are never absent. |
| Neighbors.FindAdjacent | blockpartyrfid/db.py:86-111 | Against sorted times: prev ≤ t < next. The previous time is absent iff t precedes the first time. The next time is absent iff t is at or after the last time. Indices point at the bracketing rows. Past the end, the previous index is -1 and the previous time is the last time. The mask is never set. Rows against an empty `b` fail. |
| Neighbors.ArgMin | blockpartyrfid/db.py:136 | `argmin` returns the first index holding the least value. |
| Neighbors.ClosestEvent | blockpartyrfid/db.py:134-139 | Returns the first row nearest to t. Returns `None` iff max_dt is given and every row is farther than max_dt. An empty table fails with `NoEvents`. |
| Neighbors.Max | blockpartyrfid/db.py:144 | The maximum is an element and bounds every element. |
| Neighbors.NextGaps | blockpartyrfid/db.py:143-144 | Each gap is the row's time minus t, except that a row before t gets the largest gap of all rows. |
| Neighbors.NextEvent | blockpartyrfid/db.py:142-148 | Returns the row at the first least gap after negative gaps are replaced by the largest gap. Returns `None` iff max_dt is given and that gap exceeds it. An empty table fails. |
| Neighbors.NextEventChoice | blockpartyrfid/db.py:143-145 | When some row is at or after t, the chosen gap is no larger than any gap at or after t. A chosen row before t can only come from the tie with the latest row. |
| Neighbors.NextEventAllBefore | blockpartyrfid/db.py:144-145 | When every row precedes t, the first row is returned. |
| Neighbors.NextEventTie | blockpartyrfid/db.py:143-145 | Times [0, 10] with t = 5 give the row at 0. The corrected choice gives the row at 10. |
| Neighbors.FirstNext | blockpartyrfid/db.py:142-148 | The corrected choice: the first row at or after t with the least gap. It is `None` iff every row precedes t. |
| Neighbors.NextEventCorrected | blockpartyrfid/db.py:142-148 | The corrected `next_event` returns a row at or after t with the least gap, within max_dt. It returns `None` only when no such row is within max_dt. |
| Durations.SelectEventsByDuration | blockpartyrfid/db.py:114-131 | Fewer than two rows give nothing. Otherwise the output has fewer rows than the input. |
| Durations.SelectEventsByDurationExact | blockpartyrfid/db.py:119-131 | A row is returned iff it is some row k followed by a falling edge (data1 drops by one) after a delta strictly between min_t and max_t. Its data1 holds that delta. |
| Durations.KeptFrom | blockpartyrfid/db.py:119-127 | The kept edge indices from a start index, ascending: k is listed iff row k is followed by a falling edge whose delta lies strictly between min_t and max_t. |
| Durations.SelectEventsByDurationInOrder | blockpartyrfid/db.py:119-131 | The output has exactly one row per kept edge, in row order: output row p is the p-th kept row with its data1 replaced by the delta. |
| Durations.SelectEventsByDurationDefaults | blockpartyrfid/db.py:114-127 | With the default bounds 100 and 5000, an edge after exactly 100 or 5000 is dropped and one after 101 is kept with its delta. |
| Durations.SkipTo | blockpartyrfid/db.py:169-170 | The result is a suffix starting at the first matching row; every dropped row fails to match. |
| Durations.TrimBackTo | blockpartyrfid/db.py:171-172 | The result is a prefix ending at the last matching row; every dropped row fails to match. |
| Durations.Frame | blockpartyrfid/db.py:169-172 | The trimmed frame starts with a rising edge (entry) and ends with a falling edge (exit). Running off the end is `NoFrame`. |
| Durations.FrameExact | blockpartyrfid/db.py:169-172 | A frame exists iff an opening row comes at or before a closing row. |
| Durations.FrameSlice | blockpartyrfid/db.py:169-172 | The frame is the slice from the first opening row to the last closing row: no opening row precedes it and no closing row follows it. |
| Durations.Broadcast | blockpartyrfid/db.py:174 | Assigning a column succeeds iff the value has n entries or one. A single value is repeated. |
| Durations.PairBeams | blockpartyrfid/db.py:173-175 | Pairing fails only with `ShapeMismatch`. On success there is one beam interval per even-indexed frame row, starting at that row's time, with duration = end − start. |
| Durations.PairBeamsEven | blockpartyrfid/db.py:173-175 | For an even frame, output row k is (time[2k], time[2k+1], time[2k+1] − time[2k]). |
| Durations.PairBeamsOdd | blockpartyrfid/db.py:173-175 | An odd frame fails with `ShapeMismatch` unless it has three rows. Then its one end time goes onto both output rows. |
| Durations.GroupRfid | blockpartyrfid/db.py:190-193 | Grouping fails only with `ShapeMismatch`. On success there is one RFID interval per frame row 3k, starting at that row's time, with duration = end − start. |
| Durations.GroupRfidTriplets | blockpartyrfid/db.py:190-193 | Output row k is (time[3k], time[3k+2], time[3k+2] − time[3k], data0[3k+1]). |
| Durations.GroupRfidShape | blockpartyrfid/db.py:190-193 | Grouping succeeds iff the frame length is a multiple of three, or is exactly four or five. |
| Durations.KeepAtLeast | blockpartyrfid/db.py:176-177 | With no minimum, the intervals are returned unchanged. With one, every kept interval reaches it and is one of the input intervals. |
| Durations.KeepAtLeastExact | blockpartyrfid/db.py:176-177 | The minimum-duration filter keeps exactly the intervals with duration ≥ the minimum. The comparison is inclusive. |
| Durations.KeepAtLeastOrder | blockpartyrfid/db.py:194-195 | The filter distributes over concatenation, so order is kept. |
| Durations.ShrinkFront | blockpartyrfid/db.py:169-170 | The front-trimming loop computes `SkipTo`. |
| Durations.ShrinkBack | blockpartyrfid/db.py:171-172 | The back-trimming loop computes `TrimBackTo`. |
| Durations.BeamEventsToDuration | blockpartyrfid/db.py:166-178 | The method (side check, both loops, pairing, filter) computes `BeamDurations`. |
| Durations.RfidEventsToDuration | blockpartyrfid/db.py:181-196 | The method (both loops, grouping, filter) computes `RfidDurations`. |
| Durations.BeamSideCheck | blockpartyrfid/db.py:167-168 | The side error is raised iff the stream is empty or its data0 column is not constant. |
| Durations.BeamDurationsPairs | blockpartyrfid/db.py:166-178 | For a one-side stream with an even frame, output row k pairs frame rows 2k and 2k+1. A minimum keeps exactly the long-enough rows. |
| Durations.BeamRoundTrip | blockpartyrfid/db.py:166-178 | Writing well-formed intervals back as rising/falling rows and extracting them again gives the same intervals. |
| Durations.RfidDurationsTriplets | blockpartyrfid/db.py:181-196 | For a frame that is a multiple of three, output row k runs from entry to exit of triplet k and carries its middle tag. A minimum filters inclusively. |
| Coverage.SumRange | blockpartyrfid/db.py:151-163 | The loop computes the pairwise-corrected sum. It is 0 for no intervals. |
| Coverage.SumRangeBounds | blockpartyrfid/db.py:151-163 | For start-sorted intervals with start ≤ end, 0 ≤ the result ≤ the sum of all spans. |
| Coverage.SumRangeNoOverlap | blockpartyrfid/db.py:157-162 | When no interval runs past the next start, the result is the sum of spans. |
| Coverage.SumRangeExamples | blockpartyrfid/db.py:151-163 | [0,10],[20,30] gives 20 and [0,10],[5,15] gives 15. |
| Coverage.SumRangePairwiseOnly | blockpartyrfid/db.py:157-162 | [0,100],[10,20],[30,40] gives 30, while the merged coverage is [0,100), which is 100 long. |
| Coverage.MergeAllCovers | blockpartyrfid/db.py:151-153 | Merging start-sorted intervals gives separated pieces that cover exactly the same times. |
| Coverage.SumRangeMerged | blockpartyrfid/db.py:151-163 | The corrected sweep computes the total length of the merged pieces. |
| Overlap.TouchingFrom | blockpartyrfid/db.py:207-208 | Index j is listed iff it is in range and interval j is not disjoint from [st, et] (inclusive). The list is ascending. |
| Overlap.OverlapLists | blockpartyrfid/db.py:199-213 | There is one list per interval of a. j is in list i iff b[j].start ≤ a[i].end + after and b[j].end ≥ a[i].start − before. Each list is ascending. |
| Overlap.FindOverlappingDurations | blockpartyrfid/db.py:199-213 | The loop builds exactly `OverlapLists`, with the default margin [0, 0]. |
| Overlap.OverlapSymmetric | blockpartyrfid/db.py:205-208 | With equal margins, j is in result(a,b)[i] iff i is in result(b,a)[j]. |
| Overlap.GenerateOverlapMap | blockpartyrfid/db.py:237-251 | Each of the six directed lists is the overlap of its two channels. Beam pairs use no margin; pairs involving RFID use the margin. |
| Overlap.OverlapMapMeets | blockpartyrfid/db.py:237-251 | In the map, interval i of channel c lists exactly the intervals of d it meets, in ascending order. |
| Overlap.OverlapMapSymmetric | blockpartyrfid/db.py:237-251 | With a symmetric margin, the map is symmetric between every two channels. |
| Components.OtherKeys | blockpartyrfid/db.py:223-226 | These are the two other channels, in the source's order. |
| Components.FindNeighbors | blockpartyrfid/db.py:216-234 | Each list stays duplicate-free and holds exactly the visited indices other than the seed. The seed is never in its own list. Every newly visited interval has all its neighbours visited. The visited sets stay inside every closed set holding them and the start. |
| Components.VisitList | blockpartyrfid/db.py:227-233 | Visiting one neighbour list leaves every listed index visited and keeps the same invariants. |
| Components.FindNeighborsFrom | blockpartyrfid/db.py:216-234 | From empty lists, the lists are duplicate-free and exclude the seed. Together with the seed they form the smallest set that is closed under the map and holds the seed: the seed's component. |
| Tube.MapWellFormed | blockpartyrfid/db.py:266 | The generated map has one list per interval, and every listed index is in range. |
| Tube.MapSymmetric | blockpartyrfid/db.py:266 | With a symmetric margin, every link of the generated map runs both ways. |
| Tube.ComplementClosed | blockpartyrfid/db.py:270-291 | When links run both ways, the intervals outside a closed set form a closed set. |
| Tube.FreshComponent | blockpartyrfid/db.py:270-291 | With symmetric links, the component of a seed outside a closed set lies wholly outside it. |
| Tube.Widen | blockpartyrfid/db.py:280-283 | The inner min/max loop gives bounds that hold every listed interval of a channel. Each bound is either kept or attained by one of them. |
| Tube.Envelope | blockpartyrfid/db.py:277-283 | [start, end] holds every member interval. The start is some member's start and the end is some member's end. |
| Tube.Pick | blockpartyrfid/db.py:289 | `[ed[k][i] for i in inds[k]]` picks the listed intervals in list order. |
| Tube.SeedAppended | blockpartyrfid/db.py:274-275 | Appending the seed keeps the right list duplicate-free, and the lists then name exactly the seed's component. |
| Tube.GrowEvent | blockpartyrfid/db.py:274-289 | One loop pass builds the event for seed ri: its component, member intervals and envelope. |
| Tube.MergeStep | blockpartyrfid/db.py:270-291 | A new event keeps seeds ascending and every visited right interval covered. With symmetric links it is disjoint from all earlier events. |
| Tube.MergeTubeEvents | blockpartyrfid/db.py:268-292 | Each event is the component of its seed, with envelope and members. Seeds strictly increase. Each seed is listed by no earlier event, and every right interval below it is (the `if ri in visited: continue` skip). Every right interval is in some event. With a symmetric margin, no interval is in two events. |
| Tube.Channels | blockpartyrfid/db.py:258-264 | Extraction succeeds iff the left, right and RFID extractions all succeed, and then it returns the three lists. Otherwise the error is the left extractor's, else the right's, else the RFID one's. |
| Tube.FindTubeEvents | blockpartyrfid/db.py:254-292 | Fails with `NotOneBoard` unless all rows share one board. Otherwise it fails with the first extractor error, or returns the merged events of the three channels. RFID has no minimum duration. |
| Tube.RightOnce | blockpartyrfid/db.py:270-291 | With a symmetric margin, every right-beam interval is in exactly one event. |
| Tube.SeedsDetermined | blockpartyrfid/db.py:270-272 | In a merge result, a listed right interval seeds an event iff no event with a smaller seed lists it, so the events that are kept are determined. |

## Left out

- `split_events` and `_reduce_dict` (db.py:31-70) are not modelled. They build None-keyed nested dictionaries out of repeated `sel` calls, so their filtering is already covered by `sel`.
- `all_boards`, `all_animals` and `by_animal` (db.py:73-83) are not modelled. They are thin `numpy.unique` wrappers over `sel` and the `consts` tables.
- Name resolution in `sel` (db.py:9-14) is not modelled. It looks up the `consts` name tables, so `Filter` takes numeric codes that are already resolved.
- `assert len(timerange) == 2` needs no model: a `TimeRange` always has two bounds.
- The code does not reject an inverted range (lo ≥ hi). It selects nothing, and the model follows the code.
- Times and durations are integers; the source uses floats but only compares and subtracts them. NaN markers are `None`.
- Neighbors.FindAdjacent: requires `b` to be sorted by time, which `searchsorted` assumes. It always returns the mask; without `return_mask` the source returns the array alone.
- Components.FindNeighbors: requires an in-range start and a well-formed map, as `generate_overlap_map` produces. The IndexError a bad index raises is not modelled.
- Components.FindNeighbors: the `inds` and `visited` dictionaries shared across calls are passed in and returned as values. Aliasing is not modelled; every caller reads them only after the call returns.
- Tube.TubeEvent: also carries each event's member indices, which the source does not return.
- The dictionary iteration order in the envelope loop is taken as left, right, RFID. A minimum and a maximum do not depend on order.
- Tube.MergeTubeEvents: disjointness of events is proved only for a symmetric or absent margin. With an asymmetric margin the links are one-way, and the source can put an interval into two events.
- numpy array shapes, dtypes and column slicing (`d[:, :3]`) are not modelled. Intervals are the `Interval` datatype.
- Exception messages are not modelled; each exception is one `Error` kind.

## Findings

| source | as written | input that shows it | evidently intended | confidence | as-written member | corrected member |
|---|---|---|---|---|---|---|
| blockpartyrfid/db.py:143-145 | Negative gaps are replaced by the largest gap, so a past row ties with the latest row, and argmin takes the earlier one. | times [0, 10], t = 5: the row at 0 is returned | the next row at or after t, here the row at 10 | high, not executed | Neighbors.NextEventTie | Neighbors.NextEventCorrected |
| blockpartyrfid/db.py:157-162 | The overlap is corrected only between consecutive intervals, so an interval nested in an earlier one shortens the total. | [0,100], [10,20], [30,40]: 30 | the covered time without double counting, 100 | medium, not executed | Coverage.SumRangePairwiseOnly | Coverage.SumRangeMerged |
