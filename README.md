# Overlap resolution by weighted interval scheduling

This project models the engine of `resolve_overlaps.py`. The tool reads
scored regions from a GFF file. For every group of regions that share a
sequence id, a feature type and a strand, it keeps a maximum-score set of
regions that do not overlap.

A region is a closed interval `[start, finish]` with an integer score.

Each group is handled in four steps:

1. Grouping: regions are bucketed by key, and keys are visited in the order
   they first appear in the file.
2. Start sort: the group is sorted by start, unless the caller says the file
   is already sorted.
3. Block split: the group is walked while `most_far` tracks the largest
   finish so far. A region that starts beyond `most_far` closes the open
   block.
4. Per-block solve: each block is handed to `get_partial`, a dynamic
   programme over the block sorted by finish:
   - `S[0]` is empty.
   - `S[1]` is the first region.
   - `S[i] = max(S[i-1], S[p] + region i)`, where `p` is found by
     `bisect_left` over the finishes.

   The group's `top_weight` is the sum of the block scores.

Modules (one file each):

- `Regions` (`regions.dfy`): the region record. It defines the predicates
  chain, disjointness and well-formedness, and the sum of scores.
- `Sequences` (`sequences.dfy`): the immutable partial solution `Sequence`.
  It provides `+` (`Add`), the strict comparison `Gt`, and the two-argument
  maximum `Max` with the host language's tie rule.
- `Sorting` (`sorting.dfy`): the stable sort by start or by finish, written as
  an insertion sort.
- `Scheduler` (`scheduler.dfy`): the parts of `get_partial`.
  - `BisectLeft` is a binary search.
  - `Table` is the recurrence as a function.
  - `FillTable` is the loop over an `array<Sequence>`.
  - `GetPartial` is the whole routine.
  - Lemmas prove consistency, non-overlap and optimality.
- `Splitting` (`blocks.dfy`): the block walk (`TakeRegion`, `ResolveGroup`)
  and its specification.
  - `SplitFrom` and `Blocks` give the blocks.
  - `Solutions` gives their `get_partial` results.
  - `GroupWeight` and `GroupChoice` give the group's score and printed
    regions.
- `Grouping` (`grouping.dfy`): the grouping loop of `read_input` (`Group`),
  against `Members` and `KeyOrder`. The key rule is a parameter: `Glued` is
  the key as the program builds it, `TabJoined` the corrected key described
  under Findings.
- `Resolver` (`resolver.dfy`): the outer loop of `resolve` over all keys
  (`ResolveKey`, `Resolve`).
- `Optimality` (`optimality.dfy`): optimality over any choice of regions,
  for a block and for a whole group, and how the split into blocks compares
  with solving the group as one block.
- `WorkedBlock` (`worked.dfy`): one concrete block, computed entry by entry.
- `Rerun` (`rerun.dfy`): resolving a group's printed regions again prints
  them unchanged with the same score. Every solution's regions after the
  first score above zero. The printed regions form a chain. Those after the
  first either start above 0, and so each opens a block of its own, or come
  from the first block's solution.

## Model

| member | source | states |
|---|---|---|
| Sequences.Add | resolve_overlaps.py:25-34 | The new score is the old score plus the region's. The finish is the region's finish. The regions are the old ones with the region appended. Consistency and the chain property carry over when the region starts after the old finish. |
| Sequences.Max | resolve_overlaps.py:92 | The result is one of the two arguments and scores at least as much as both. On equal scores the first argument (`S[i-1]`, without the new region) is kept. The comparison `max` uses is `Gt`, the `__gt__` of resolve_overlaps.py:36-41: strictly greater score. |
| Sorting.SortBy | resolve_overlaps.py:78 | The sort result has the input's length, is sorted by the key, and is a permutation of the input. |
| Sorting.SortByIsStable | resolve_overlaps.py:146 | For every key value, the regions carrying it keep their input order. |
| Sorting.SortBySorted | resolve_overlaps.py:145-146 | Sorting an input that is already sorted returns it unchanged. |
| Regions.ChainIsPairwiseDisjoint | resolve_overlaps.py:91 | Well-formed regions that each end strictly before the next starts are pairwise non-overlapping as closed intervals. |
| Scheduler.CountBelowSplits | resolve_overlaps.py:91 | In an ascending list of finishes, the values below `x` are exactly a prefix whose length is their count. |
| Scheduler.BisectLeft | resolve_overlaps.py:91 | The binary search returns the number of finishes strictly below the start. Every earlier position holds a value below it, and every later one does not. |
| Scheduler.Pred | resolve_overlaps.py:82-91 | The predecessor index of region `i` is below `i`. The regions before it finish strictly before region `i` starts, and no later one does. |
| Scheduler.TableInvariant | resolve_overlaps.py:86-92 | Every entry `S[i]` satisfies four facts: its score is the sum of its regions' scores; its regions are those at increasing positions below `i`, so they come from regions 1..i in finish order; each ends strictly before the next starts; and `S[i]` never scores below `S[i-1]`. |
| Scheduler.ChoiceIsFeasible | resolve_overlaps.py:86-92 | The regions of every table entry are pairwise non-overlapping. |
| Scheduler.TableStep | resolve_overlaps.py:91-92 | Entry `i` scores at least the previous entry and at least the candidate `S[p]` plus region `i`. |
| Scheduler.TableTieBreak | resolve_overlaps.py:91-92 | Entry `i` equals entry `i-1` exactly when the candidate `S[p]` plus region `i` does not score strictly more; on a tie region `i` is left out. When entry `i` differs from entry `i-1`, it is that candidate. |
| Scheduler.TableBeatsAny | resolve_overlaps.py:86-92 | If the first region by finish does not score below zero, no pairwise non-overlapping choice of regions drawn from the first `i` (each at most as often as they occur) outscores `S[i]`. |
| Scheduler.TableIsOptimal | resolve_overlaps.py:86-92 | If the first region by finish does not score below zero, no feasible choice of positions among the first `i` regions outscores `S[i]`; the picked regions form a choice of the kind `Scheduler.TableBeatsAny` bounds. |
| Scheduler.LastEntryIsConsistent | resolve_overlaps.py:103 | The final entry's score is the sum of its regions' scores. Its regions form a chain, overlap pairwise nowhere, and are drawn from the block. |
| Scheduler.BestIsConsistent | resolve_overlaps.py:72-103 | The same facts hold for the solution of an unsorted block, drawn from the block as given. |
| Scheduler.BestIsOptimal | resolve_overlaps.py:72-103 | If the first region by finish scores at least zero (in particular when no score is negative), no pairwise non-overlapping choice from the block scores more than its solution. |
| Scheduler.SingleRegionKept | resolve_overlaps.py:87 | A one-region block is solved by that region even when its score is negative, so the result then scores below the empty solution. |
| Scheduler.RecurrenceIsTable | resolve_overlaps.py:90-92 | Any list of solutions that satisfies the recurrence entry by entry equals the table. |
| Scheduler.FillTable | resolve_overlaps.py:85-92 | The loop fills a fresh array of `n + 1` entries. `S[0]` is empty, `S[1]` is the first region, and each later entry satisfies the recurrence with the index found by binary search. |
| Scheduler.GetPartial | resolve_overlaps.py:72-103 | The routine returns the score and regions of the block's solution. The score is the sum of the regions' scores. The regions form a chain, are pairwise disjoint, and are drawn from the block. The score is optimal when the first region by finish is not negative. |
| WorkedBlock.SampleTable | resolve_overlaps.py:86-92 | For the block `[1,5]:10`, `[3,8]:12`, `[6,10]:8`, `[9,12]:7`, the table scores 10, 12, 18 and 19. |
| WorkedBlock.WorkedExample | resolve_overlaps.py:72-103 | That block is solved by its second and fourth regions, with score 19. No non-overlapping choice scores more. The 25-point choice of the first, third and fourth regions overlaps. |
| Splitting.MaxFinish | resolve_overlaps.py:155 | The running maximum is at least the finish and the old maximum, and equals one of them. |
| Splitting.SplitFromFlattens | resolve_overlaps.py:148-160 | Joining the blocks gives back the open block followed by the remaining regions. Nothing is lost, duplicated or reordered. |
| Splitting.SplitFromNonEmpty | resolve_overlaps.py:148-160 | Every block the walk closes is non-empty. |
| Splitting.SplitFromSeparated | resolve_overlaps.py:148-156 | On start-sorted input, every region of a later block starts strictly after every region of the earlier blocks has finished. |
| Splitting.BlocksPartition | resolve_overlaps.py:148-160 | A start-sorted group's blocks join back to the group, are non-empty, and are separated. |
| Splitting.BlocksSolvable | resolve_overlaps.py:148-158 | Every block of a well-formed group can be given to the solver. |
| Splitting.SolutionsSolve | resolve_overlaps.py:150-158 | Each block's solution has a score equal to the sum of its regions' scores, and its regions form a chain drawn from that block. |
| Splitting.ConcatRegsConsistent | resolve_overlaps.py:150-159 | The summed block scores equal the score of all printed regions, which are drawn from the blocks. |
| Splitting.ConcatRegsChain | resolve_overlaps.py:148-160 | On separated blocks, the printed regions form one chain across block boundaries too. |
| Splitting.Arrange | resolve_overlaps.py:145-146 | The walk order is a permutation of the group. Without the sorted flag it is sorted by start. |
| Splitting.GroupChoiceFacts | resolve_overlaps.py:134-160 | A group's `top_weight` is the sum of the scores of its printed regions, which come from the group. On start-sorted input no two of them overlap. |
| Splitting.SolveBlock | resolve_overlaps.py:150-152 | Solving one more block adds its score to `top_weight` and its regions to the printed ones. |
| Splitting.TakeRegion | resolve_overlaps.py:148-156 | One step of the walk keeps the invariant: the closed blocks followed by the blocks of the rest of the walk are the group's blocks, and the running score and regions are those of the closed blocks' solutions. |
| Optimality.BestBeatsAny | resolve_overlaps.py:72-103 | If the block's first region by finish does not score below zero, no pairwise non-overlapping choice of regions drawn from the block outscores its solution. |
| Optimality.SolutionsBeatAny | resolve_overlaps.py:148-160 | For separated blocks whose first regions by finish score at least zero, no pairwise non-overlapping choice drawn from all the blocks together outscores the sum of the block scores. |
| Optimality.GroupBeatsAny | resolve_overlaps.py:134-160 | On start-sorted walk order, when no block's first region by finish scores below zero, no pairwise non-overlapping choice of the group's regions outscores the group's `top_weight`. |
| Optimality.SplitKeepsScore | resolve_overlaps.py:148-160 | When no region of the group scores below zero, the summed block scores equal the score of the group solved as one block. |
| Optimality.SplitDiffersFromWhole | resolve_overlaps.py:148-160 | For regions `[1,2]:5` and `[5,6]:w` with `w <= 0`, the split prints both regions and scores `5 + w`, while the group solved as one block keeps only the first and scores 5. At `w = 0` the selection differs at equal score; below zero the split scores less. |
| Optimality.NonNegativeLeads | resolve_overlaps.py:148-160 | When no region scores below zero, no block's first region by finish does. |
| Splitting.ResolveGroup | resolve_overlaps.py:134-160 | `top_weight` and the printed regions are the sums and concatenations over the group's blocks, including the final block solved after the loop. The score equals the printed regions' total and they come from the group. On start-sorted input they are pairwise disjoint. |
| Rerun.TableMonotone | resolve_overlaps.py:91-92 | From `S[1]` on, a later table entry never scores below an earlier one. |
| Rerun.TablePositiveTail | resolve_overlaps.py:86-92 | In every table entry, each region after the first scores above zero. `S[1]` holds one region, and the candidate `S[p]` plus region `i` replaces `S[i-1]` only when it scores strictly more, which needs region `i` to score above zero since `S[p]` does not outscore `S[i-1]`. |
| Rerun.BestPositiveTail | resolve_overlaps.py:72-103 | A block's solution holds at least one region, and each of its regions after the first scores above zero. |
| Rerun.ChainPred | resolve_overlaps.py:91 | When the block is a chain, the predecessor index of region `i` is `i - 1`. |
| Rerun.ChainTable | resolve_overlaps.py:86-92 | For a chain whose regions after the first score above zero, `S[i]` holds exactly the first `i` regions, with their total score. |
| Rerun.ChainBest | resolve_overlaps.py:72-103 | Such a chain, given as a block, is solved by all of its regions, with their total score. |
| Rerun.LaterBlocksStartAboveZero | resolve_overlaps.py:148-156 | On start-sorted input, since `most_far` starts at 0 and never falls, every region of a block after the first starts above 0. |
| Rerun.ChainWalk | resolve_overlaps.py:148-156 | On a chain whose later regions score above zero wherever they start at or before 0, every block the walk closes is a chain whose regions after the first score above zero. |
| Rerun.KeptBlocks | resolve_overlaps.py:150-159 | When every block is solved by all of its regions, the printed regions are the blocks joined in order. |
| Rerun.ChainBlocks | resolve_overlaps.py:148-158 | The blocks of such a chain can be solved, and each is solved by all of its regions. |
| Rerun.RerunChain | resolve_overlaps.py:134-160 | Such a chain, given as a group without the sorted flag, prints itself unchanged, and its `top_weight` is its total score. |
| Rerun.PrintedIsRerunnable | resolve_overlaps.py:134-160 | The regions printed for a non-empty group (without the sorted flag) are non-empty and well formed, and they form a chain. Each of them after the first that starts at or before 0 scores above zero. |
| Rerun.RerunKeepsOutput | resolve_overlaps.py:134-160 | Resolving a group's printed regions again, without the sorted flag, prints the same regions in the same order with the same `top_weight`: the group step is idempotent. |
| Grouping.RidAsWrittenCollides | resolve_overlaps.py:53 | Two parsed regions on different sequences can have the same key as the source builds it. |
| Grouping.GluedKeyMergesGroups | resolve_overlaps.py:119-120 | Those two regions form one group under the glued key and two groups under the tab-joined key. |
| Grouping.RidInjective | resolve_overlaps.py:52-53 | The tab-joined key of two parsed regions is equal exactly when sequence id, feature type and strand all agree. |
| Grouping.MembersCount | resolve_overlaps.py:119-120 | Under either key rule, a group holds every input region with its key, as often as the input does, and no other region. |
| Grouping.KeyOrderFacts | resolve_overlaps.py:119-134 | A key is listed exactly when its group is non-empty, and no key is listed twice. |
| Grouping.Group | resolve_overlaps.py:112-120 | With the glued key of line 53 (`Glued`), as the program builds it, or with the tab-joined key: the loop produces the keys in first-occurrence order. The dictionary has exactly those keys, and each maps to its regions in input order. |
| Resolver.TotalsAt | resolve_overlaps.py:134-160 | The `t`-th recorded score is the `top_weight` of the `t`-th key's group, which is non-empty and well formed. |
| Resolver.PrintedFromInput | resolve_overlaps.py:134-160 | Over distinct keys, no region is printed more often than it occurs in the input, and only regions whose key is listed are printed. |
| Resolver.OutputFromInput | resolve_overlaps.py:132-160 | Everything printed for a file is drawn from its regions. |
| Resolver.ResolveKey | resolve_overlaps.py:134-160 | One pass of the outer loop appends the next group's score and printed regions. The sum of the scores stays equal to the total score of the printed regions. |
| Resolver.Resolve | resolve_overlaps.py:132-160 | With either key rule (`Glued` is the program's): the keys come in first-occurrence order, each with its group's `top_weight`. The printed regions are the groups' choices in key order. The summed scores equal the printed total, and every printed region comes from the input. |

## Left out

- Reading the file, skipping comment and short lines, and parsing a line into
  fields (lines 47-56 and 105-116) are not modelled. A region arrives as a
  record. `Grouping.Parsed` records the one thing parsing guarantees: key
  fields contain no whitespace.
- Printing is left out: the header and date (lines 128-130), the per-region
  output lines (95-97) and the debug summaries (163-165). The regions the
  source prints are returned instead (`GetPartial`'s `regs`, `Resolve`'s
  `output`).
- The `debug` flag and the debug-only `count` (lines 9, 79, 98-103, 141, 152,
  160) are left out. The count is only the number of regions returned.
- Command-line handling (lines 168-175) is left out.
- The library sort is specified by a stable insertion sort (`Sorting.SortBy`),
  not by the host language's algorithm.
- In-place updates are modelled on values. This covers `routes.sort`, which
  sorts the caller's `sequences` list before it is cleared, `data[rid].sort`,
  and `sequences.clear()`. Neither the aliasing nor the resulting order of
  the dictionary's lists after the run is captured.
- Scheduler.GetPartial: requires a non-empty block with `start <= finish` for
  every region. The source crashes on an empty block at `routes[0]`. Every
  block the walk produces is non-empty (`Splitting.SplitFromNonEmpty`).
  A region with `start > finish` that is not the first by finish always
  crashes the source. Every finish up to its own is below its start, so the
  index `bisect_left` gives is at least its own position. That entry is not
  filled yet, and the dictionary's default `Sequence()` fails for lack of
  arguments (lines 77 and 91). The start of the first region by finish is
  never read, so the source solves and prints a block whose first region
  has `start > finish`, such as a lone `[10,5]`. On that one region per
  block the requirement is stronger than the source.
- Splitting.ResolveGroup: requires a non-empty group. Every key of the
  dictionary has at least one region (`Grouping.KeyOrderFacts`), so an empty
  group cannot occur.
- Scheduler.BestIsOptimal: optimality is stated only when the block's first
  region by finish scores at least zero. Without that condition it is false:
  `S[1]` keeps the first region without comparison
  (`Scheduler.SingleRegionKept`), so such a block can end below a choice that
  leaves that region out. The group-level statement
  (`Optimality.GroupBeatsAny`) needs the same condition for every block, and
  start-sorted walk order.
- Splitting.ResolveGroup: the split into blocks does not always print what
  solving the whole group as one block would. With no negative score the
  two scores agree (`Optimality.SplitKeepsScore`), but the selection can
  differ at equal score. When a block's first region by finish scores below
  zero, the split can also score less. Both happen for the pair `[1,2]:5`,
  `[5,6]:w` (`Optimality.SplitDiffersFromWhole`).
- Splitting.ResolveGroup: non-overlap of the printed regions is promised only
  when the walk order is sorted by start. With the sorted flag on unsorted
  input the source gives no guarantee, and neither does the model.
- Rerun.RerunKeepsOutput: idempotence is stated for one group, without the
  sorted flag on either run. Re-reading the printed lines as a file is not
  modelled, since parsing is not. With the sorted flag on unsorted input the
  printed regions need not be start-sorted, and no claim is made.
- `S[0]` holds an empty `set()` in the source where other entries hold
  tuples. Both are modelled as an empty sequence, which `+` extends the same
  way.

## Findings

| source | as written | input that shows it | evidently intended | confidence | as-written member | corrected member |
|---|---|---|---|---|---|---|
| resolve_overlaps.py:53 | The group key joins sequence id, feature type and strand with nothing between them | sequence id `chr1` with feature type `0exon` and sequence id `chr10` with feature type `exon`, same strand: both keys are `chr10exon+`, so the two are grouped and scheduled together | one group per (sequence id, feature type, strand) | not executed; needs a feature type that starts with characters that can end a sequence id | Grouping.RidAsWrittenCollides | Grouping.RidInjective |
