/** Optimality of the score `Resolver.resolve` records for a group, stated
    over any choice of regions: a choice is a sequence of pairwise
    non-overlapping regions drawn from the group, each at most as often as
    the group holds it. The solution of a block beats every such choice from
    the block, and the sum over the blocks of a start-sorted group beats
    every such choice from the whole group, as long as no block's first
    region by finish scores below zero. Splitting a group into blocks then
    keeps its score, though not always its selection. */
module Optimality {
  import opened Regions
  import opened Sorting
  import opened Sequences
  import opened Scheduler
  import opened Splitting

  /** The first region of a block in finish order. */
  function Lead(block: seq<Region>): Region
    requires |block| >= 1
  {
    SortBy(block, ByFinish)[0]
  }

  /** Optimality of the solution of a block over any choice: when the
      block's first region by finish does not score below zero, no
      non-overlapping choice drawn from the block scores more. */
  lemma BestBeatsAny(block: seq<Region>, c: seq<Region>)
    requires |block| >= 1 && AllWellFormed(block) && Lead(block).weight >= 0
    requires PairwiseDisjoint(c) && multiset(c) <= multiset(block)
    ensures TotalWeight(c) <= Best(block).weight
  {
    var rs := SortBy(block, ByFinish);
    PermutationWellFormed(block, rs);
    assert rs[..|rs|] == rs;
    TableBeatsAny(rs, |rs|, c);
  }

  /** No block's first region by finish scores below zero. */
  predicate LeadsNonNegative(bs: seq<seq<Region>>) {
    forall k :: 0 <= k < |bs| && |bs[k]| >= 1 ==> Lead(bs[k]).weight >= 0
  }

  /** A region of the earlier blocks never occurs in a later block of
      separated blocks, since it ends before every region there starts. */
  lemma NotInEarlier(bs: seq<seq<Region>>, y: Region)
    requires Solvable(bs) && Separated(bs) && bs != [] && y in bs[|bs| - 1]
    ensures multiset(Flatten(bs[..|bs| - 1]))[y] == 0
  {
    var n := |bs| - 1;
    assert WellFormed(y);
    assert n > 0 ==> y !in Flatten(bs[..n]);
  }

  /** The blocks' sum is the sum over all blocks but the last plus the last
      block's score. */
  lemma SumOfLast(bs: seq<seq<Region>>)
    requires Solvable(bs) && bs != []
    ensures SumWeights(Solutions(bs)) == SumWeights(Solutions(bs[..|bs| - 1])) + Best(bs[|bs| - 1]).weight
  {
    assert Solutions(bs)[..|bs| - 1] == Solutions(bs[..|bs| - 1]);
  }

  /** All blocks but the last keep the properties of the blocks, and the
      last is a block that can be solved with a lead that scores no less
      than zero. */
  lemma AllButLast(bs: seq<seq<Region>>)
    requires Solvable(bs) && Separated(bs) && LeadsNonNegative(bs) && bs != []
    ensures Solvable(bs[..|bs| - 1]) && Separated(bs[..|bs| - 1]) && LeadsNonNegative(bs[..|bs| - 1])
    ensures |bs[|bs| - 1]| >= 1 && AllWellFormed(bs[|bs| - 1]) && Lead(bs[|bs| - 1]).weight >= 0
  {
    SeparatedPrefix(bs, |bs| - 1);
  }

  /** A choice drawn from separated blocks splits into the part drawn from
      the last block and the part drawn from the others. */
  lemma LastBlockCounts(bs: seq<seq<Region>>, c: seq<Region>, y: Region)
    requires Solvable(bs) && Separated(bs) && bs != []
    requires multiset(c) <= multiset(Flatten(bs))
    ensures multiset(Part(c, bs[|bs| - 1], true))[y] <= multiset(bs[|bs| - 1])[y]
    ensures multiset(Part(c, bs[|bs| - 1], false))[y] <= multiset(Flatten(bs[..|bs| - 1]))[y]
  {
    var n := |bs| - 1;
    assert Flatten(bs) == Flatten(bs[..n]) + bs[n];
    PartCount(c, bs[n], true, y);
    PartCount(c, bs[n], false, y);
    if y in bs[n] {
      NotInEarlier(bs, y);
    }
  }

  /** Optimality over the blocks: the sum of the block solutions scores at
      least as much as any non-overlapping choice drawn from all the blocks
      together. */
  lemma {:induction false} SolutionsBeatAny(bs: seq<seq<Region>>, c: seq<Region>)
    requires Solvable(bs) && Separated(bs) && LeadsNonNegative(bs)
    requires PairwiseDisjoint(c) && multiset(c) <= multiset(Flatten(bs))
    ensures TotalWeight(c) <= SumWeights(Solutions(bs))
    decreases |bs|
  {
    if bs == [] {
      assert |multiset(c)| == 0;
    } else {
      var n := |bs| - 1;
      var init, last := bs[..n], bs[n];
      var inLast, rest := Part(c, last, true), Part(c, last, false);
      SumOfLast(bs);
      PartWeights(c, last);
      PartDisjoint(c, last, true);
      PartDisjoint(c, last, false);
      forall y ensures multiset(inLast)[y] <= multiset(last)[y] && multiset(rest)[y] <= multiset(Flatten(init))[y] {
        LastBlockCounts(bs, c, y);
      }
      assert multiset(inLast) <= multiset(last);
      assert multiset(rest) <= multiset(Flatten(init));
      AllButLast(bs);
      BestBeatsAny(last, inLast);
      SolutionsBeatAny(init, rest);
    }
  }

  /** Optimality of a group's score: on start-sorted input (always the case
      without the sorted flag), when no block's first region by finish scores
      below zero, no non-overlapping choice of the group's regions scores
      more than the `top_weight` recorded for it. */
  lemma GroupBeatsAny(group: seq<Region>, isSorted: bool, c: seq<Region>)
    requires |group| >= 1 && AllWellFormed(group)
    requires SortedBy(Arrange(group, isSorted), ByStart)
    requires LeadsNonNegative(Blocks(Arrange(group, isSorted)))
    requires PairwiseDisjoint(c) && multiset(c) <= multiset(group)
    ensures TotalWeight(c) <= GroupWeight(group, isSorted)
  {
    var rs := Arrange(group, isSorted);
    PermutationWellFormed(group, rs);
    BlocksSolvable(rs);
    BlocksPartition(rs);
    SolutionsBeatAny(Blocks(rs), c);
  }

  /** When no region scores below zero, no block's first region does. */
  lemma NonNegativeLeads(rs: seq<Region>)
    requires forall k :: 0 <= k < |rs| ==> rs[k].weight >= 0
    ensures LeadsNonNegative(Blocks(rs))
  {
    var bs := Blocks(rs);
    SplitFromFlattens(rs, [], 0);
    forall k | 0 <= k < |bs| && |bs[k]| >= 1 ensures Lead(bs[k]).weight >= 0 {
      assert Lead(bs[k]) in multiset(bs[k]);
      FlattenMember(bs, k, Lead(bs[k]));
    }
  }

  /** Without negative scores, splitting a group into blocks keeps its
      score: the summed block scores equal the score of the group solved as
      one block. */
  lemma SplitKeepsScore(group: seq<Region>)
    requires |group| >= 1 && AllWellFormed(group)
    requires forall k :: 0 <= k < |group| ==> group[k].weight >= 0
    ensures GroupWeight(group, false) == Best(group).weight
  {
    var rs := Arrange(group, false);
    forall k | 0 <= k < |rs| ensures rs[k].weight >= 0 {
      assert rs[k] in multiset(group);
    }
    NonNegativeLeads(rs);
    BestIsConsistent(group);
    GroupBeatsAny(group, false, Best(group).regs);
    GroupChoiceFacts(group, false);
    assert Lead(group) in multiset(group);
    BestBeatsAny(group, GroupChoice(group, false));
  }

  /** Regions `[1, 2]` scoring 5 and `[5, 6]` scoring `w`, in start order. */
  function Pair(w: int): seq<Region> {
    [Region("chr1", "exon", "+", 1, 2, 5), Region("chr1", "exon", "+", 5, 6, w)]
  }

  /** The walk splits the pair into two blocks, since the second region
      starts after the first ends. */
  lemma PairBlocks(w: int)
    ensures Blocks(Pair(w)) == [[Pair(w)[0]], [Pair(w)[1]]]
  {
    var rs := Pair(w);
    var a, b := rs[0], rs[1];
    assert rs[1..] == [b] && [b][1..] == [];
    assert [] + [a] == [a];
    assert Blocks(rs) == SplitFrom([b], [a], MaxFinish(2, 0));
    assert SplitFrom([b], [a], 2) == [[a]] + SplitFrom([], [b], MaxFinish(6, 2));
  }

  /** Solved as one block, the pair keeps only its first region when the
      second does not score above zero. */
  lemma PairWhole(w: int)
    requires w <= 0
    ensures Best(Pair(w)) == Sequence(5, 2, [Pair(w)[0]])
  {
    var rs := Pair(w);
    var a, b := rs[0], rs[1];
    assert SortedBy(rs, ByFinish);
    SortBySorted(rs, ByFinish);
    assert Schedulable(rs);
    assert Pred(rs, 2) == 1 by {
      assert a.finish < b.start;
    }
    var first := Sequence(5, 2, [a]);
    assert Table(rs, 1) == first;
    var candidate := Add(first, b);
    assert candidate.weight == 5 + w;
    assert Table(rs, 2) == Max(first, candidate);
  }

  /** The two one-region blocks of the pair, solved one by one. */
  lemma PairSolutions(w: int)
    ensures Solvable([[Pair(w)[0]], [Pair(w)[1]]])
    ensures Solutions([[Pair(w)[0]], [Pair(w)[1]]]) == [Sequence(5, 2, [Pair(w)[0]]), Sequence(w, 6, [Pair(w)[1]])]
  {
    var a, b := Pair(w)[0], Pair(w)[1];
    var bs := [[a], [b]];
    SingleRegionKept(a);
    SingleRegionKept(b);
    assert bs[..1] == [[a]] && [[a]][..0] == [];
    assert Solutions(bs[..1]) == [Best([a])];
  }

  /** Splitting changes what a group prints: when the second region of the
      pair scores zero, the split prints both regions while the group solved
      as one block keeps only the first, at equal score; when it scores below
      zero, the split also scores less. */
  lemma SplitDiffersFromWhole(w: int)
    requires w <= 0
    ensures GroupChoice(Pair(w), true) == Pair(w) && Best(Pair(w)).regs == [Pair(w)[0]]
    ensures GroupWeight(Pair(w), true) == 5 + w && Best(Pair(w)).weight == 5
  {
    var rs := Pair(w);
    var a, b := rs[0], rs[1];
    var s1, s2 := Sequence(5, 2, [a]), Sequence(w, 6, [b]);
    PairBlocks(w);
    PairWhole(w);
    PairSolutions(w);
    assert Arrange(rs, true) == rs;
    assert Solutions(Blocks(Arrange(rs, true))) == [s1, s2];
    assert GroupChoice(rs, true) == ConcatRegs([s1, s2]);
    assert GroupWeight(rs, true) == SumWeights([s1, s2]);
    TwoSolutions(s1, s2);
  }

  /** Two solutions print their regions one after the other and score the
      sum of their scores. */
  lemma TwoSolutions(s1: Sequence, s2: Sequence)
    ensures ConcatRegs([s1, s2]) == s1.regs + s2.regs
    ensures SumWeights([s1, s2]) == s1.weight + s2.weight
  {
    assert [s1, s2][..1] == [s1] && [s1][..0] == [];
    assert ConcatRegs([s1]) == [] + s1.regs == s1.regs;
    assert SumWeights([s1]) == 0 + s1.weight;
  }
}
