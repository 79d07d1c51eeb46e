# Randomized networking groups, modelled in Dafny

`randomize_networking.py` seats the participants of a networking event
at tables, over several time blocks. Participants come in categories
(senior, postdoc, student, ...), and every table should get a mix of them.
The project models the two pure functions at the centre of the script and
proves what they guarantee.

- **`gen_groups(rsvpdict, order, Nblocks, groupsize)`** computes three things.
  - The table count `Ngroup = total div groupsize` and the seats per table
    `chairs`. `chairs` is `groupsize`, or `groupsize + 1` when the division
    leaves a remainder.
  - `participant_list`: the categories of `order`, each repeated as often as
    its headcount. Category j therefore owns a contiguous range of
    participant indices.
  - For every block: a permutation `pinds` that is reshuffled only inside
    each category's range. Participant i sits at table
    `(pinds[i] mod Ngroup) + 1`.

  It returns `participant_list`, the `locs` matrix (participant × block →
  table) and the `tables` roster. The roster has one row per (block, table):
  the block label, the table label, then the indices seated there in
  ascending order, padded with -1.
- **`group_rsvps(granular_rsvps, categories)`** folds fine-grained headcounts
  into coarse categories, summing the fine keys each category lists.

## How the model is organised

| file | module | contents |
|---|---|---|
| wrappers.dfy | `Wrappers` | `Option` and `Result` |
| arrays.dfy | `Arrays` | numpy-like helpers: `Iota` (`arange`), `Tile`, `RepeatEach` (`repeat`), `Permute` (fancy indexing), `Where` (`np.where`), `Sum` |
| dicts.dfy | `Dicts` | a Python dict as an association list with distinct keys: `Get`, `Total`, `Lookups`, `OtherKeys` |
| categories.dfy | `Categories` | `participant_list` and the index range of each category |
| shuffle.dfy | `Shuffle` | the per-block, per-category shuffle of `pinds` |
| balance.dfy | `Balance` | counting residues mod `Ngroup` over index windows (floor/ceiling bounds) |
| roster.dfy | `Roster` | seat occupancy and per-category seat counts of a roster row |
| seating.dfy | `Seating` | `GenGroups` with its three error cases, and `Arrange` (the arrays it builds) |
| arrangement.dfy | `Arrangement` | the properties of `Arrange` |
| properties.dfy | `Properties` | the same properties, stated about `GenGroups` itself |
| aggregate.dfy | `Aggregate` | `group_rsvps` |

### Randomness

`np.random.shuffle` is not modelled as a random source. Instead, the caller
passes `shuffles`.
- For each block b and each category j, `shuffles[b][j]` is the permutation
  the shuffle applied to that category's slice of `pinds`.
- `WellFormed` requires each of them to be a permutation of
  `0..rsvpdict[order[j]]-1`.
- Every property below holds for every such choice, so it holds for every
  outcome of the random shuffle.
- As in the source, `pinds` is not reset between blocks: block b's order is
  the composition of the shuffles of blocks 0..b (`Shuffle.BlockOrder`).

### Errors

`GenGroups` returns `Err` wherever the Python code raises:
- `MissingCategory(k)`: `rsvpdict[k]` is missing for a category of `order`
  (KeyError, line 32). The first such category in order is reported.
- `ZeroGroupSize`: `groupsize == 0` (ZeroDivisionError, line 42).
- `TooFewSeats`: at least one block is seated and the `Ngroup * chairs` seats
  cannot hold `total` people. Line 69 then indexes `tile(tableinds, chairs)`
  past its end (IndexError). This happens exactly when `0 < total` and either
  `total < groupsize` or `total mod groupsize > total div groupsize`
  (e.g. `total = 7, groupsize = 4`).

### People outside `order`

Line 22 adds the headcount of every key of `rsvpdict` to `total`, including
keys that `order` does not list. The model follows the code.
- Those `Others(rsvps, order)` people get the trailing indices of `locs`.
- They get no entry of `participant_list` and belong to no category range,
  so no shuffle moves them.
- They sit at table `i mod Ngroup + 1` in every block (`GenGroupsLocs`).

When `order` lists every key (the intended use), `Others` is 0
(`Seating.OthersVanish`).

## Model

| member | source | states |
|---|---|---|
| Seating.GenGroups | randomize_networking.py:11-75 | the call fails with MissingCategory exactly when some category of `order` has no headcount, and then it names the first missing one; it fails with ZeroGroupSize exactly when all are present and `groupsize` is 0; it fails with TooFewSeats exactly when a block is to be seated and `total` exceeds `Ngroup * chairs`, i.e. `0 < total` and (`total < groupsize` or `total mod groupsize > total div groupsize`); otherwise it succeeds |
| Seating.Arrange | randomize_networking.py:39-75 | the arrays have the shapes numpy allocates: `participant_list` has one entry per person of a listed category, `locs` is `total × Nblocks` (line 39), and the roster has `Ngroup * Nblocks` rows of `chairs + 2` columns (line 48) |
| Seating.Seat | randomize_networking.py:42-75 | with every category present and a positive group size, the only possible failure is TooFewSeats, and it happens exactly when the tables cannot hold everyone in some block |
| Seating.ChairsWiden | randomize_networking.py:42-47 | every table seats `groupsize` people or one more, and the extra chair is added exactly when `groupsize` does not divide `total` |
| Seating.SeatsSuffice | randomize_networking.py:42-47 | `Ngroup` is the number of whole groups in `total` (`Ngroup * groupsize <= total < (Ngroup + 1) * groupsize`), and `Ngroup` tables of `chairs` seats hold `total` people iff `total == 0` or (`Ngroup >= 1` and the remainder is at most `Ngroup`) |
| Seating.FirstMissing | randomize_networking.py:30-32 | reports no category iff every category of `order` has a headcount; otherwise it reports the first one, in order, that has none |
| Seating.TotalIsSum | randomize_networking.py:18-24 | the sum over all dict keys equals the sum of the ordered category headcounts plus the people whose keys `order` does not list |
| Seating.OthersVanish | randomize_networking.py:19-24 | nobody is left outside the category ranges iff every key missing from `order` has headcount 0 |
| Seating.SizesRanges | randomize_networking.py:32-33 | each category of `order` has an entry, and its index range (its mask) starts where the previous category's ends and is exactly `rsvpdict[order[j]]` long |
| Seating.ParticipantList | randomize_networking.py:18-34 | `participant_list` holds each category of `order` exactly `rsvpdict[k]` times, holds only keys of the dict and none outside `order`, and its length plus the people outside `order` is `total` |
| Dicts.Get | randomize_networking.py:32 | the lookup is absent iff the key is not in the dict; otherwise it yields the key's one entry |
| Dicts.OtherKeys | randomize_networking.py:19-24 | the keys collected are exactly the dict keys not in `order`, each once |
| Dicts.TotalSplit | randomize_networking.py:18-24 | the total headcount splits into the headcounts of the ordered keys plus those of the other keys |
| Dicts.SumLookups | randomize_networking.py:18-22 | `total` is the sum of all headcounts: summing the headcounts of a list that names every key once gives the dict total, whatever the order of the list |
| Categories.Participants | randomize_networking.py:28-34 | the participant list has one entry per person of a listed category |
| Categories.OffsetsFacts | randomize_networking.py:32 | the range of category j starts at the sum of the earlier headcounts and is `sizes[j]` long; the ranges start at 0, never go backwards and end at the headcount total |
| Categories.ParticipantsLabels | randomize_networking.py:32-33 | every index in category j's range carries the label `order[j]` |
| Categories.ParticipantsPartition | randomize_networking.py:28-34 | every index below the listed total lies in some category range (the one `RangeOf` finds), no index lies in two, and an index carries label `order[j]` exactly when it lies in range j |
| Categories.ParticipantsCount | randomize_networking.py:28-34 | as a multiset, the participant list holds `order[j]` exactly `sizes[j]` times and no other label |
| Categories.ParticipantsOrdered | randomize_networking.py:30-33 | every participant of an earlier category of `order` has a smaller index than every participant of a later one |
| Categories.ParticipantsLabelled | randomize_networking.py:33 | every entry of the participant list is a category of `order` |
| Categories.RangeUnique | randomize_networking.py:32 | an index lies in at most one category range |
| Shuffle.ShuffleRange | randomize_networking.py:65-67 | shuffling one category's slice changes nothing outside the slice and keeps the multiset of indices in it |
| Shuffle.ShuffleRangeSegmented | randomize_networking.py:64-67 | if every category slice holds exactly its own range of indices, it still does after one category is shuffled |
| Shuffle.ShuffleCategories | randomize_networking.py:64-67 | after shuffling every category of `order` in turn, each category's slice holds exactly its own range of indices, and the people outside `order` are untouched |
| Shuffle.BlockOrder | randomize_networking.py:59-67 | block b's `pinds` (the shuffles of blocks 0..b, composed) maps every category range onto itself and leaves the trailing people outside `order` in place |
| Shuffle.BlockOrderPermutation | randomize_networking.py:59-67 | block b's `pinds` is a permutation of `0..total-1` |
| Shuffle.IdentitySegmented | randomize_networking.py:59 | the initial `np.arange(total)` already maps each category range onto itself |
| Shuffle.SegmentedIsPermutation | randomize_networking.py:59-67 | a sequence whose every category slice holds its own range is a permutation of `0..total-1` |
| Shuffle.SegmentedMapsInto | randomize_networking.py:64-67 | such a sequence sends every index of category j to an index of category j |
| Shuffle.SegmentedMapsOnto | randomize_networking.py:64-67 | every index of category j is the image of some index of category j |
| Arrays.PermutationPreservesMultiset | randomize_networking.py:65-67 | permuting a slice by index keeps its multiset of entries |
| Arrays.TileIndex | randomize_networking.py:53 | entry j of `np.tile(xs, reps)` is `xs[j mod len(xs)]` |
| Arrays.RepeatEachIndex | randomize_networking.py:50 | entry j of `np.repeat(xs, n)` is `xs[j div n]` |
| Arrays.WhereBelow | randomize_networking.py:72 | `np.where(col == t)` over the first n entries lists exactly the indices i with `col[i] == t`, strictly ascending |
| Arrangement.BlockColumnOf | randomize_networking.py:69 | in block b, participant i gets table `(pinds[i] mod Ngroup) + 1` |
| Arrangement.ArrangeLoc | randomize_networking.py:69 | `locs[i][b]` is a table label in `1..Ngroup` (so not -1), equal to `(pinds[i] mod Ngroup) + 1`; for a person outside `order` it is `i mod Ngroup + 1` |
| Arrangement.ArrangeLocs | randomize_networking.py:69 | the same for every participant and block at once |
| Arrangement.ArrangeRow | randomize_networking.py:50-73 | roster row `b * Ngroup + t - 1` is `[b + 1, t]` followed by the indices seated at table t in block b and -1 padding, and everyone fits in `Ngroup * chairs` seats |
| Arrangement.SeatSlotsFacts | randomize_networking.py:71-73 | writing the ascending indices of a table into a row of `chairs` -1s (when they fit) puts exactly those indices in the row, keeps them ascending ahead of the -1 padding, and leaves occupancy and per-category counts unchanged |
| Arrangement.RowIndexDivMod | randomize_networking.py:50-55 | row `b * Ngroup + t - 1` lies in the roster, and dividing it by `Ngroup` recovers b and t - 1 |
| Arrangement.RowOf | randomize_networking.py:50-55 | every roster row is the row of some block b and table t |
| Arrangement.ArrangeLabels | randomize_networking.py:50-55 | every roster row's first two columns name a valid block and table, and that pair leads back to the row |
| Arrangement.ArrangeSeats | randomize_networking.py:71-73 | the row of table t in block b seats exactly the participants whose `locs` entry for block b is t, in ascending order, followed only by -1 |
| Arrangement.ArrangeRowSeats | randomize_networking.py:71-73 | the row of table t in block b carries labels `[b + 1, t]`, and no table holds more than `chairs` people |
| Arrangement.BlockOccupancy | randomize_networking.py:69-72 | in every block, table t gets the floor or the ceiling of `total / Ngroup` people, and no more than `chairs` |
| Arrangement.ColumnOccupancy | randomize_networking.py:69-72 | when participant i sits at `(p[i] mod Ngroup) + 1` for a permutation p, each table gets the floor or the ceiling of `total / Ngroup` people |
| Arrangement.ArrangeOccupancy | randomize_networking.py:69-73 | the roster row of every table holds the floor or the ceiling of `total / Ngroup` occupied seats, never more than `chairs` |
| Arrangement.ColumnCategoryCount | randomize_networking.py:64-72 | when p maps a category's index range onto itself, the table gets the floor or the ceiling of that category's headcount divided by `Ngroup` |
| Arrangement.SegmentedCategoryCount | randomize_networking.py:64-72 | the same, for category j of the participant list under a range-preserving `pinds` |
| Arrangement.ArrangeCategorySeats | randomize_networking.py:64-73 | the roster row of every table holds the floor or the ceiling of `sizes[j] / Ngroup` people of category j |
| Balance.IotaResidueBounds | randomize_networking.py:69 | any window of consecutive indices holds the floor or the ceiling of its length divided by n of each residue mod n |
| Balance.CountResidueMultiset | randomize_networking.py:65-69 | how many entries fall on a table depends only on the multiset of indices, not on how the shuffle ordered them |
| Roster.WhereCount | randomize_networking.py:69-72 | the number of participants among the first m that `np.where` finds at table t equals the number whose `pinds` entry is congruent to t - 1 mod `Ngroup` |
| Roster.WhereCategoryCount | randomize_networking.py:64-72 | the same count, restricted to one category's range |
| Properties.GenGroupsShape | randomize_networking.py:39-48 | the arrays have `len(participant_list)` = listed people, `locs` of `total × Nblocks`, and a roster of `Ngroup * Nblocks` rows of `chairs + 2` columns |
| Properties.GenGroupsParticipants | randomize_networking.py:28-34 | `participant_list` holds each category `rsvpdict[k]` times, no key outside `order`, everybody but the people outside `order`, and the categories in the declared order |
| Properties.GenGroupsLocs | randomize_networking.py:59-69 | in every block, `pinds` is a permutation of `0..total-1` that maps each category range onto itself, and every `locs` entry is `(pinds[i] mod Ngroup) + 1`, in `1..Ngroup`; the people outside `order` keep table `i mod Ngroup + 1` |
| Properties.GenGroupsRoster | randomize_networking.py:48-55 | the roster has `Ngroup * Nblocks` rows; row `b * Ngroup + t - 1` is labelled `[b + 1, t]`; every row's labels name a valid block and table and lead back to the row |
| Properties.GenGroupsSeats | randomize_networking.py:71-73 | participant i is in the row of table t in block b iff `locs[i][b] == t`, so each participant is in exactly one row per block; the seats are ascending valid indices followed only by -1 |
| Properties.GenGroupsEveryoneSeated | randomize_networking.py:69-73 | in every block, every participant appears in the roster row of the table `locs` assigns them |
| Properties.GenGroupsBalance | randomize_networking.py:64-73 | every table in every block seats the floor or the ceiling of `total / Ngroup` people, at most `chairs`, and of each category k the floor or the ceiling of `rsvpdict[k] / Ngroup` |
| Properties.GenGroupsEven | randomize_networking.py:64-73 | no table of any block seats more than one person more than any other table |
| Aggregate.SumListed | randomize_networking.py:111-113 | the inner loop succeeds iff every listed subtype is present, and then yields the start value plus their summed counts; otherwise it reports the first missing subtype |
| Aggregate.GroupRsvps | randomize_networking.py:107-115 | the result succeeds iff every listed fine key is present; it then has one entry per category, in order, holding the sum of that category's listed fine counts; otherwise it reports the first missing key, scanning categories and their lists in order |
| Aggregate.GroupKeys | randomize_networking.py:108-114 | the result has exactly the keys of `categories`, each once |
| Aggregate.SumListedReadsListed | randomize_networking.py:112-113 | the inner loop reads the fine counts only at the listed subtypes |
| Aggregate.GroupIgnoresUnlisted | randomize_networking.py:107-115 | two inputs that agree on every listed fine key group identically, so unlisted fine keys are dropped |
| Aggregate.FlattenMembers | randomize_networking.py:110-112 | the concatenated subtype lists hold exactly the listed fine keys |
| Aggregate.GroupedSum | randomize_networking.py:110-114 | the grouped counts add up to the fine counts of all listed keys |
| Aggregate.GroupConserves | randomize_networking.py:107-115 | when every fine key is listed under exactly one category, grouping succeeds and conserves the total headcount |

## Left out

- `save_groups` (lines 77-104) is not modelled. It does file I/O, CSV formatting, header strings and 20-character label truncation.
- `main` (lines 121 onward) is not modelled. It holds a hard-coded roster and the command-line entry point.
- The `print` diagnostics (lines 51 and 68) are not modelled. They do not affect the results.
- `np.random.shuffle` (line 66) is not modelled as a random source. Each block's per-category permutations are an argument (see Randomness above).
- The `otherkeys` list (lines 19, 23-24) is computed but never used. The model derives the same keys (`Dicts.OtherKeys`), but only to count the people in them.
- The masks (lines 29-34) are represented by the category index ranges they select (`Categories.Offsets`), not as boolean arrays.
- Seating.WellFormed: the model requires the keys of `rsvpdict` and the entries of `order` to be distinct. A Python dict has distinct keys. A category repeated in `order` is not modelled. In the code, line 33 then lists its label twice, so `participant_list` no longer adds up to the headcounts and can grow past `total`. Line 34 keeps only the mask of its last occurrence, so its first range is never shuffled and its last range is shuffled twice.
- Headcounts, `Nblocks` and `groupsize` are `nat`, so negative inputs are not modelled. A negative `Nblocks` makes `np.ones` raise ValueError at line 39. A negative `groupsize` makes `Ngroup` negative whenever `total > 0`, and line 48 or line 50 then raises. A negative headcount runs on with meaningless (possibly overlapping or wrapped) ranges as long as `total` stays non-negative; a negative `total` raises ValueError at line 31, or at line 39 when `order` is empty.
- The default arguments `Nblocks=4, groupsize=4` (line 11) are not modelled: every call to `GenGroups` passes both explicitly.
- numpy's fixed-width integers cannot overflow at realistic headcounts, and the model uses unbounded integers.
- Aggregate.GroupRsvps: dicts are lists of (key, value) pairs, and the result keeps the order of `categories`. Python's `categories` is a dict, so its keys are distinct; `Aggregate.GroupKeys` shows that the result's keys are then distinct too. The model does not require this, and for a list with a repeated key it keeps one entry per occurrence.

## Notes on behaviour

The model follows the code in each of these cases, where a reader might expect something else.
- Within a table, seats are listed in ascending index order (`np.where`), not in shuffle order.
- There is no padding with a synthetic "extra" category, and no input validation beyond the three raised errors.
- `total` sums every key of the dict, not just the categories of `order` (see People outside `order`).
- The case where the tables cannot hold everyone raises at line 69. It does not leave -1 entries in `locs`.
