/** The block split of `Resolver.resolve`: the regions of one group, sorted by
    start, are walked in order while `most_far` tracks the largest finish seen
    so far (it starts at 0 and is never reset). A region that starts beyond
    `most_far` while the current block is non-empty closes that block; the
    closed blocks and the final one are solved independently by `GetPartial`
    and their scores summed into `top_weight`. */
module Splitting {
  import opened Regions
  import opened Sorting
  import opened Sequences
  import opened Scheduler

  /** The larger of a finish and the running maximum, as `max(region.finish,
      most_far)` computes it. */
  function MaxFinish(finish: int, mostFar: int): (m: int)
    ensures m >= finish && m >= mostFar && (m == finish || m == mostFar)
  {
    if finish > mostFar then finish else mostFar
  }

  /** The blocks the walk closes when the regions still to visit are `rs`,
      the open block is `cur` and the running maximum finish is `mostFar`;
      the open block is closed after the last region. */
  function SplitFrom(rs: seq<Region>, cur: seq<Region>, mostFar: int): seq<seq<Region>>
    decreases |rs|
  {
    if rs == [] then
      (if cur == [] then [] else [cur])
    else if |cur| > 0 && rs[0].start > mostFar then
      [cur] + SplitFrom(rs[1..], [rs[0]], MaxFinish(rs[0].finish, mostFar))
    else
      SplitFrom(rs[1..], cur + [rs[0]], MaxFinish(rs[0].finish, mostFar))
  }

  /** The blocks of a (start-sorted) group: the walk from an empty block with
      `most_far = 0`. */
  function Blocks(rs: seq<Region>): seq<seq<Region>> {
    SplitFrom(rs, [], 0)
  }

  /** The blocks joined back together, accumulated from the back. */
  function Flatten(bs: seq<seq<Region>>): seq<Region> {
    if bs == [] then [] else Flatten(bs[..|bs| - 1]) + bs[|bs| - 1]
  }

  lemma {:induction false} FlattenAppend(bs: seq<seq<Region>>, cs: seq<seq<Region>>)
    ensures Flatten(bs + cs) == Flatten(bs) + Flatten(cs)
    decreases |cs|
  {
    if cs == [] {
      assert bs + cs == bs;
    } else {
      var init, last := cs[..|cs| - 1], cs[|cs| - 1];
      assert (bs + cs)[..|bs + cs| - 1] == bs + init;
      assert (bs + cs)[|bs + cs| - 1] == last;
      FlattenAppend(bs, init);
      assert Flatten(bs + cs) == (Flatten(bs) + Flatten(init)) + last;
    }
  }

  /** A region of a block is a region of the joined blocks. */
  lemma {:induction false} FlattenMember(bs: seq<seq<Region>>, k: nat, x: Region)
    requires k < |bs| && x in bs[k]
    ensures x in Flatten(bs)
    decreases |bs|
  {
    if k < |bs| - 1 {
      FlattenMember(bs[..|bs| - 1], k, x);
    }
  }

  /** The walk loses, duplicates and reorders nothing: the blocks joined in
      order are the open block followed by the regions still to visit. */
  lemma {:induction false} SplitFromFlattens(rs: seq<Region>, cur: seq<Region>, mostFar: int)
    ensures Flatten(SplitFrom(rs, cur, mostFar)) == cur + rs
    decreases |rs|
  {
    if rs == [] {
      if cur != [] {
        assert Flatten([cur]) == Flatten([]) + cur;
      }
    } else {
      var m := MaxFinish(rs[0].finish, mostFar);
      assert rs == [rs[0]] + rs[1..];
      if |cur| > 0 && rs[0].start > mostFar {
        SplitFromFlattens(rs[1..], [rs[0]], m);
        FlattenAppend([cur], SplitFrom(rs[1..], [rs[0]], m));
        assert Flatten([cur]) == Flatten([]) + cur;
      } else {
        SplitFromFlattens(rs[1..], cur + [rs[0]], m);
      }
    }
  }

  /** Every block the walk closes holds at least one region. */
  lemma {:induction false} SplitFromNonEmpty(rs: seq<Region>, cur: seq<Region>, mostFar: int)
    ensures forall k :: 0 <= k < |SplitFrom(rs, cur, mostFar)| ==> SplitFrom(rs, cur, mostFar)[k] != []
    decreases |rs|
  {
    if rs != [] {
      var m := MaxFinish(rs[0].finish, mostFar);
      if |cur| > 0 && rs[0].start > mostFar {
        SplitFromNonEmpty(rs[1..], [rs[0]], m);
      } else {
        SplitFromNonEmpty(rs[1..], cur + [rs[0]], m);
      }
    }
  }

  /** Later blocks start strictly after everything before them has finished:
      every region of block `a` starts after the finish of every region of the
      blocks before it. */
  predicate Separated(bs: seq<seq<Region>>) {
    forall a, x, y :: 0 < a < |bs| && x in Flatten(bs[..a]) && y in bs[a] ==> x.finish < y.start
  }

  /** A region of a later block of the walk is one of the regions still to
      visit, so on start-sorted input it starts no earlier than the first. */
  lemma StartsAfterFirst(rs: seq<Region>, bs: seq<seq<Region>>, a: nat, y: Region)
    requires SortedBy(rs, ByStart) && rs != []
    requires Flatten(bs) == rs && a < |bs| && y in bs[a]
    ensures rs[0].start <= y.start
  {
    FlattenMember(bs, a, y);
    var j :| 0 <= j < |rs| && rs[j] == y;
    if j > 0 {
      assert KeyOf(rs[0], ByStart) <= KeyOf(rs[j], ByStart);
    }
  }

  /** One pair of `SeparatedCons`: a region before block `a` of `[cur] + rest`
      finishes before a region of that block starts. */
  lemma SeparatedConsAt(cur: seq<Region>, rest: seq<seq<Region>>, rs: seq<Region>, mostFar: int,
                        a: nat, x: Region, y: Region)
    requires SortedBy(rs, ByStart) && rs != [] && Flatten(rest) == rs && rs[0].start > mostFar
    requires forall x :: x in cur ==> x.finish <= mostFar
    requires Separated(rest)
    requires 0 < a < |rest| + 1 && x in Flatten(([cur] + rest)[..a]) && y in ([cur] + rest)[a]
    ensures x.finish < y.start
  {
    var bs := [cur] + rest;
    assert bs[..a] == [cur] + rest[..a - 1];
    FlattenAppend([cur], rest[..a - 1]);
    assert Flatten([cur]) == Flatten([]) + cur;
    assert bs[a] == rest[a - 1];
    StartsAfterFirst(rs, rest, a - 1, y);
    if x !in cur {
      assert x in Flatten(rest[..a - 1]);
    }
  }

  /** Closing the open block `cur` keeps the blocks separated when everything
      in `cur` finishes by `mostFar` and the rest starts after it. */
  lemma SeparatedCons(cur: seq<Region>, rest: seq<seq<Region>>, rs: seq<Region>, mostFar: int)
    requires SortedBy(rs, ByStart) && rs != [] && Flatten(rest) == rs && rs[0].start > mostFar
    requires forall x :: x in cur ==> x.finish <= mostFar
    requires Separated(rest)
    ensures Separated([cur] + rest)
  {
    var bs := [cur] + rest;
    forall a: nat, x: Region, y: Region | 0 < a < |bs| && x in Flatten(bs[..a]) && y in bs[a]
      ensures x.finish < y.start
    {
      SeparatedConsAt(cur, rest, rs, mostFar, a, x, y);
    }
  }

  /** The separation the walk establishes on start-sorted input, given that
      `mostFar` bounds the finishes of the open block. */
  lemma {:induction false} SplitFromSeparated(rs: seq<Region>, cur: seq<Region>, mostFar: int)
    requires SortedBy(rs, ByStart)
    requires forall x :: x in cur ==> x.finish <= mostFar
    ensures Separated(SplitFrom(rs, cur, mostFar))
    decreases |rs|
  {
    if rs != [] {
      var m := MaxFinish(rs[0].finish, mostFar);
      assert SortedBy(rs[1..], ByStart);
      if |cur| > 0 && rs[0].start > mostFar {
        var rest := SplitFrom(rs[1..], [rs[0]], m);
        SplitFromSeparated(rs[1..], [rs[0]], m);
        SplitFromFlattens(rs[1..], [rs[0]], m);
        assert [rs[0]] + rs[1..] == rs;
        SeparatedCons(cur, rest, rs, mostFar);
      } else {
        SplitFromSeparated(rs[1..], cur + [rs[0]], m);
      }
    }
  }

  /** The blocks of a start-sorted group are non-empty, join back to the
      group, and are separated. */
  lemma BlocksPartition(rs: seq<Region>)
    requires SortedBy(rs, ByStart)
    ensures Flatten(Blocks(rs)) == rs
    ensures forall k :: 0 <= k < |Blocks(rs)| ==> Blocks(rs)[k] != []
    ensures Separated(Blocks(rs))
  {
    SplitFromFlattens(rs, [], 0);
    SplitFromNonEmpty(rs, [], 0);
    SplitFromSeparated(rs, [], 0);
  }

  /** Every block can be handed to `GetPartial`. */
  predicate Solvable(bs: seq<seq<Region>>) {
    forall k :: 0 <= k < |bs| ==> |bs[k]| >= 1 && AllWellFormed(bs[k])
  }

  /** The blocks of any group of well-formed regions, sorted or not, can be
      solved. */
  lemma BlocksSolvable(rs: seq<Region>)
    requires AllWellFormed(rs)
    ensures Solvable(Blocks(rs))
  {
    var bs := Blocks(rs);
    SplitFromFlattens(rs, [], 0);
    SplitFromNonEmpty(rs, [], 0);
    forall k | 0 <= k < |bs| ensures AllWellFormed(bs[k]) {
      forall j | 0 <= j < |bs[k]| ensures WellFormed(bs[k][j]) {
        FlattenMember(bs, k, bs[k][j]);
      }
    }
  }

  /** The solutions `get_partial` returns for the blocks, in block order. */
  ghost function Solutions(bs: seq<seq<Region>>): (ss: seq<Sequence>)
    requires Solvable(bs)
    ensures |ss| == |bs|
  {
    if bs == [] then [] else Solutions(bs[..|bs| - 1]) + [Best(bs[|bs| - 1])]
  }

  /** The sum of the scores of a list of solutions (`top_weight`). */
  function SumWeights(ss: seq<Sequence>): int {
    if ss == [] then 0 else SumWeights(ss[..|ss| - 1]) + ss[|ss| - 1].weight
  }

  /** The regions of a list of solutions, solution after solution (the lines
      printed for a group). */
  function ConcatRegs(ss: seq<Sequence>): seq<Region> {
    if ss == [] then [] else ConcatRegs(ss[..|ss| - 1]) + ss[|ss| - 1].regs
  }

  /** `ss[k]` is a valid solution of block `bs[k]`: its score is the sum of its
      regions' scores, and its regions come from the block and form a chain. */
  predicate SolvedBy(ss: seq<Sequence>, bs: seq<seq<Region>>) {
    && |ss| == |bs|
    && forall k :: 0 <= k < |ss| ==>
      && ss[k].weight == TotalWeight(ss[k].regs)
      && Chain(ss[k].regs)
      && multiset(ss[k].regs) <= multiset(bs[k])
  }

  lemma {:induction false} SolutionsSolve(bs: seq<seq<Region>>)
    requires Solvable(bs)
    ensures SolvedBy(Solutions(bs), bs)
    decreases |bs|
  {
    if bs != [] {
      var n := |bs| - 1;
      var init, ss := bs[..n], Solutions(bs);
      SolutionsSolve(init);
      BestIsConsistent(bs[n]);
      assert ss == Solutions(init) + [Best(bs[n])];
      forall k | 0 <= k < |bs|
        ensures ss[k].weight == TotalWeight(ss[k].regs) && Chain(ss[k].regs)
        ensures multiset(ss[k].regs) <= multiset(bs[k])
      {
        if k < n {
          assert ss[k] == Solutions(init)[k] && bs[k] == init[k];
        }
      }
    }
  }

  /** The summed score is the score of the joined regions, and those regions
      are taken from the blocks. */
  lemma {:induction false} ConcatRegsConsistent(ss: seq<Sequence>, bs: seq<seq<Region>>)
    requires SolvedBy(ss, bs)
    ensures SumWeights(ss) == TotalWeight(ConcatRegs(ss))
    ensures multiset(ConcatRegs(ss)) <= multiset(Flatten(bs))
    decreases |ss|
  {
    if ss != [] {
      var n := |ss| - 1;
      assert SolvedBy(ss[..n], bs[..n]);
      ConcatRegsConsistent(ss[..n], bs[..n]);
      TotalWeightAppend(ConcatRegs(ss[..n]), ss[n].regs);
    }
  }

  /** Dropping the last blocks keeps the blocks separated. */
  lemma SeparatedPrefix(bs: seq<seq<Region>>, n: nat)
    requires Separated(bs) && n <= |bs|
    ensures Separated(bs[..n])
  {
    forall a: nat, x: Region, y: Region | 0 < a < n && x in Flatten(bs[..n][..a]) && y in bs[..n][a]
      ensures x.finish < y.start
    {
      assert bs[..n][..a] == bs[..a];
    }
  }

  /** On separated blocks the last region chosen before the last block ends
      strictly before the first region chosen in it starts. */
  lemma LastBlockBoundary(ss: seq<Sequence>, bs: seq<seq<Region>>)
    requires SolvedBy(ss, bs) && Separated(bs) && ss != []
    ensures var left, right := ConcatRegs(ss[..|ss| - 1]), ss[|ss| - 1].regs;
      left != [] && right != [] ==> left[|left| - 1].finish < right[0].start
  {
    var n := |ss| - 1;
    var left, right := ConcatRegs(ss[..n]), ss[n].regs;
    if left != [] && right != [] {
      assert SolvedBy(ss[..n], bs[..n]);
      ConcatRegsConsistent(ss[..n], bs[..n]);
      assert left[|left| - 1] in multiset(Flatten(bs[..n]));
      assert right[0] in multiset(bs[n]);
    }
  }

  /** On separated blocks the joined regions form one chain: each ends
      strictly before the next starts, across block boundaries too. */
  lemma {:induction false} ConcatRegsChain(ss: seq<Sequence>, bs: seq<seq<Region>>)
    requires SolvedBy(ss, bs) && Separated(bs)
    ensures Chain(ConcatRegs(ss))
    decreases |ss|
  {
    if ss != [] {
      var n := |ss| - 1;
      assert SolvedBy(ss[..n], bs[..n]) && Separated(bs[..n]) by {
        SeparatedPrefix(bs, n);
      }
      ConcatRegsChain(ss[..n], bs[..n]);
      assert Chain(ss[n].regs);
      LastBlockBoundary(ss, bs);
      ChainAppend(ConcatRegs(ss[..n]), ss[n].regs);
    }
  }

  /** The order the group is walked in: as given under `-s`, otherwise
      stably sorted by start. */
  function Arrange(group: seq<Region>, isSorted: bool): (rs: seq<Region>)
    ensures multiset(rs) == multiset(group)
    ensures !isSorted ==> SortedBy(rs, ByStart)
  {
    if isSorted then group else SortBy(group, ByStart)
  }

  /** The walk takes one region: it either closes the open block and opens
      a new one with the region, or adds the region to the open block. */
  lemma WalkStep(rest: seq<Region>, cur: seq<Region>, mostFar: int)
    requires rest != []
    ensures |cur| > 0 && rest[0].start > mostFar ==>
      SplitFrom(rest, cur, mostFar) == [cur] + SplitFrom(rest[1..], [rest[0]], MaxFinish(rest[0].finish, mostFar))
    ensures !(|cur| > 0 && rest[0].start > mostFar) ==>
      SplitFrom(rest, cur, mostFar) == SplitFrom(rest[1..], cur + [rest[0]], MaxFinish(rest[0].finish, mostFar))
  {
  }

  /** The loop invariant of the walk, carried over one region: the blocks
      closed so far followed by the blocks of the rest of the walk are the
      blocks of the group. */
  lemma WalkInvariant(rs: seq<Region>, i: nat, done: seq<seq<Region>>, cur: seq<Region>, mostFar: int)
    requires i < |rs| && done + SplitFrom(rs[i..], cur, mostFar) == Blocks(rs)
    ensures var m := MaxFinish(rs[i].finish, mostFar);
      |cur| > 0 && rs[i].start > mostFar ==> (done + [cur]) + SplitFrom(rs[i + 1..], [rs[i]], m) == Blocks(rs)
    ensures var m := MaxFinish(rs[i].finish, mostFar);
      !(|cur| > 0 && rs[i].start > mostFar) ==> done + SplitFrom(rs[i + 1..], cur + [rs[i]], m) == Blocks(rs)
  {
    var m := MaxFinish(rs[i].finish, mostFar);
    assert rs[i..][0] == rs[i] && rs[i..][1..] == rs[i + 1..];
    WalkStep(rs[i..], cur, mostFar);
    if |cur| > 0 && rs[i].start > mostFar {
      var tail := SplitFrom(rs[i + 1..], [rs[i]], m);
      assert done + ([cur] + tail) == (done + [cur]) + tail;
    }
  }

  /** Solving one more block adds its solution at the end of the list, its
      score to the sum and its regions to the joined regions. */
  lemma CloseBlock(done: seq<seq<Region>>, sols: seq<Sequence>, block: seq<Region>)
    requires Solvable(done) && sols == Solutions(done)
    requires |block| >= 1 && AllWellFormed(block)
    ensures Solvable(done + [block]) && Solutions(done + [block]) == sols + [Best(block)]
    ensures SumWeights(sols + [Best(block)]) == SumWeights(sols) + Best(block).weight
    ensures ConcatRegs(sols + [Best(block)]) == ConcatRegs(sols) + Best(block).regs
  {
    assert (done + [block])[..|done|] == done;
    assert (sols + [Best(block)])[..|sols|] == sols;
  }

  /** What the solutions of the blocks of a group add up to: the summed score
      is the score of the joined regions, which are taken from the group. */
  lemma GroupSolutionConsistent(group: seq<Region>, rs: seq<Region>)
    requires AllWellFormed(group) && multiset(rs) == multiset(group)
    ensures Solvable(Blocks(rs))
    ensures SumWeights(Solutions(Blocks(rs))) == TotalWeight(ConcatRegs(Solutions(Blocks(rs))))
    ensures multiset(ConcatRegs(Solutions(Blocks(rs)))) <= multiset(group)
  {
    PermutationWellFormed(group, rs);
    var bs := Blocks(rs);
    BlocksSolvable(rs);
    SolutionsSolve(bs);
    ConcatRegsConsistent(Solutions(bs), bs);
    SplitFromFlattens(rs, [], 0);
  }

  /** On a start-sorted group the joined regions of the block solutions form
      one chain, so no two of them overlap. */
  lemma GroupSolutionDisjoint(rs: seq<Region>)
    requires AllWellFormed(rs) && SortedBy(rs, ByStart)
    ensures Solvable(Blocks(rs))
    ensures Chain(ConcatRegs(Solutions(Blocks(rs)))) && PairwiseDisjoint(ConcatRegs(Solutions(Blocks(rs))))
  {
    var bs := Blocks(rs);
    BlocksSolvable(rs);
    var chosen := ConcatRegs(Solutions(bs));
    GroupSolutionConsistent(rs, rs);
    BlocksPartition(rs);
    SolutionsSolve(bs);
    ConcatRegsChain(Solutions(bs), bs);
    assert AllWellFormed(chosen) by {
      forall k | 0 <= k < |chosen| ensures WellFormed(chosen[k]) {
        assert chosen[k] in multiset(rs);
      }
    }
    ChainIsPairwiseDisjoint(chosen);
  }

  /** `top_weight` of a group: the summed scores of its block solutions. */
  ghost function GroupWeight(group: seq<Region>, isSorted: bool): int
    requires |group| >= 1 && AllWellFormed(group)
  {
    PermutationWellFormed(group, Arrange(group, isSorted));
    BlocksSolvable(Arrange(group, isSorted));
    SumWeights(Solutions(Blocks(Arrange(group, isSorted))))
  }

  /** The regions printed for a group, block after block. */
  ghost function GroupChoice(group: seq<Region>, isSorted: bool): seq<Region>
    requires |group| >= 1 && AllWellFormed(group)
  {
    PermutationWellFormed(group, Arrange(group, isSorted));
    BlocksSolvable(Arrange(group, isSorted));
    ConcatRegs(Solutions(Blocks(Arrange(group, isSorted))))
  }

  /** What a group prints has the group's score and comes from the group; on
      start-sorted input no two printed regions overlap. */
  lemma GroupChoiceFacts(group: seq<Region>, isSorted: bool)
    requires |group| >= 1 && AllWellFormed(group)
    ensures GroupWeight(group, isSorted) == TotalWeight(GroupChoice(group, isSorted))
    ensures multiset(GroupChoice(group, isSorted)) <= multiset(group)
    ensures SortedBy(Arrange(group, isSorted), ByStart) ==>
      Chain(GroupChoice(group, isSorted)) && PairwiseDisjoint(GroupChoice(group, isSorted))
  {
    var rs := Arrange(group, isSorted);
    GroupSolutionConsistent(group, rs);
    if SortedBy(rs, ByStart) {
      PermutationWellFormed(group, rs);
      GroupSolutionDisjoint(rs);
    }
  }

  /** `resolve_overlaps.py` lines 150-152 and 158-160: solve one closed block
      and add its score to `top_weight` (its regions are the lines the solver
      prints). */
  method SolveBlock(block: seq<Region>, ghost done: seq<seq<Region>>, topWeight: int, chosen: seq<Region>)
    returns (topWeight': int, chosen': seq<Region>)
    requires |block| >= 1 && AllWellFormed(block) && Solvable(done)
    requires topWeight == SumWeights(Solutions(done)) && chosen == ConcatRegs(Solutions(done))
    ensures Solvable(done + [block])
    ensures topWeight' == SumWeights(Solutions(done + [block]))
    ensures chosen' == ConcatRegs(Solutions(done + [block]))
  {
    var w, regs := GetPartial(block);
    CloseBlock(done, Solutions(done), block);
    topWeight', chosen' := topWeight + w, chosen + regs;
  }

  /** One pass of the block loop (`resolve_overlaps.py` lines 148-156): a
      region that starts beyond `most_far` closes the open block, which is
      solved; then the region joins the open block and `most_far` takes its
      finish into account. */
  method TakeRegion(rs: seq<Region>, i: nat, ghost done: seq<seq<Region>>, sequences: seq<Region>, mostFar: int,
                    topWeight: int, chosen: seq<Region>)
    returns (ghost done': seq<seq<Region>>, sequences': seq<Region>, mostFar': int, topWeight': int, chosen': seq<Region>)
    requires i < |rs| && AllWellFormed(rs)
    requires done + SplitFrom(rs[i..], sequences, mostFar) == Blocks(rs)
    requires Solvable(done) && AllWellFormed(sequences)
    requires topWeight == SumWeights(Solutions(done)) && chosen == ConcatRegs(Solutions(done))
    ensures done' + SplitFrom(rs[i + 1..], sequences', mostFar') == Blocks(rs)
    ensures Solvable(done') && AllWellFormed(sequences') && sequences' != []
    ensures topWeight' == SumWeights(Solutions(done')) && chosen' == ConcatRegs(Solutions(done'))
  {
    var region := rs[i];
    assert WellFormed(region);
    WalkInvariant(rs, i, done, sequences, mostFar);
    if |sequences| > 0 && region.start > mostFar {
      topWeight', chosen' := SolveBlock(sequences, done, topWeight, chosen);
      done' := done + [sequences];
      sequences' := [region];
    } else {
      done', topWeight', chosen' := done, topWeight, chosen;
      sequences' := sequences + [region];
    }
    mostFar' := MaxFinish(region.finish, mostFar);
  }

  /** The block loop of `Resolver.resolve` for one group
      (`resolve_overlaps.py` lines 134-160): returns `top_weight` and the
      regions printed for the group, which are those of the solutions of its
      blocks. */
  method ResolveGroup(group: seq<Region>, isSorted: bool) returns (topWeight: int, chosen: seq<Region>)
    requires |group| >= 1 && AllWellFormed(group)
    ensures topWeight == GroupWeight(group, isSorted) && chosen == GroupChoice(group, isSorted)
    ensures topWeight == TotalWeight(chosen)
    ensures multiset(chosen) <= multiset(group)
    ensures SortedBy(Arrange(group, isSorted), ByStart) ==> Chain(chosen) && PairwiseDisjoint(chosen)
  {
    var rs := group;
    if !isSorted {
      rs := SortBy(group, ByStart);
    }
    assert rs == Arrange(group, isSorted);
    PermutationWellFormed(group, rs);
    var sequences: seq<Region> := [];
    topWeight, chosen := 0, [];
    var mostFar := 0;
    ghost var done: seq<seq<Region>> := [];
    for i := 0 to |rs|
      invariant done + SplitFrom(rs[i..], sequences, mostFar) == Blocks(rs)
      invariant Solvable(done) && AllWellFormed(sequences)
      invariant i > 0 ==> sequences != []
      invariant topWeight == SumWeights(Solutions(done)) && chosen == ConcatRegs(Solutions(done))
    {
      done, sequences, mostFar, topWeight, chosen := TakeRegion(rs, i, done, sequences, mostFar, topWeight, chosen);
    }
    assert rs[|rs|..] == [];
    assert done + [sequences] == Blocks(rs);
    topWeight, chosen := SolveBlock(sequences, done, topWeight, chosen);
    done := done + [sequences];
    assert topWeight == GroupWeight(group, isSorted) && chosen == GroupChoice(group, isSorted);
    GroupChoiceFacts(group, isSorted);
  }
}
