/** Re-running the resolver on its own output (without the sorted flag)
    prints that output again with the same score. Two facts make this so:
    in every solution the table holds, each region after the first scores
    above zero, because it was only taken when it raised the score; and the
    regions printed for a group form one chain whose regions, after the
    first, either start above 0 (and so each opens a block of its own on the
    second run) or come from the group's first block. A chain whose later
    regions all score above zero is solved as itself. */
module Rerun {
  import opened Regions
  import opened Sorting
  import opened Sequences
  import opened Scheduler
  import opened Splitting

  /** Every region after the first scores above zero. */
  predicate PositiveTail(s: seq<Region>) {
    forall j :: 1 <= j < |s| ==> s[j].weight > 0
  }

  /** Every region after the first that starts at or before 0 scores above
      zero. */
  predicate LowStartsScore(s: seq<Region>) {
    forall k :: 1 <= k < |s| && s[k].start <= 0 ==> s[k].weight > 0
  }

  /** From `S[1]` on the table never loses score. */
  lemma TableMonotone(rs: seq<Region>, a: nat, b: nat)
    requires Schedulable(rs) && 1 <= a <= b <= |rs|
    ensures Table(rs, a).weight <= Table(rs, b).weight
  {
    var k := a;
    while k < b
      invariant a <= k <= b
      invariant Table(rs, a).weight <= Table(rs, k).weight
    {
      TableStep(rs, k + 1);
      k := k + 1;
    }
  }

  /** Every entry from `S[1]` on holds at least one region. */
  lemma {:induction false} TableNonEmpty(rs: seq<Region>, i: nat)
    requires Schedulable(rs) && 1 <= i <= |rs|
    ensures Table(rs, i).regs != []
    decreases i
  {
    if i >= 2 {
      TableNonEmpty(rs, i - 1);
    }
  }

  /** In every table entry each region after the first scores above zero:
      the candidate replaces `S[i - 1]` only by scoring strictly more, and
      `S[i - 1]` scores no less than the entry the candidate extends, unless
      that entry is the empty `S[0]`. */
  lemma {:induction false} TablePositiveTail(rs: seq<Region>, i: nat)
    requires Schedulable(rs) && i <= |rs|
    ensures PositiveTail(Table(rs, i).regs)
    decreases i
  {
    if i >= 2 {
      var p := Pred(rs, i);
      TablePositiveTail(rs, i - 1);
      TablePositiveTail(rs, p);
      TableTieBreak(rs, i);
      if Table(rs, i) != Table(rs, i - 1) {
        CandidatePositiveTail(rs, i);
      }
    }
  }

  /** The candidate that replaces `S[i - 1]` keeps the property of the entry
      it extends: the region it adds scores above zero unless that entry is
      empty, since then the entry is some `S[p]` with `p >= 1`, which scores
      no more than `S[i - 1]`. */
  lemma CandidatePositiveTail(rs: seq<Region>, i: nat)
    requires Schedulable(rs) && 2 <= i <= |rs|
    requires PositiveTail(Table(rs, Pred(rs, i)).regs)
    requires Add(Table(rs, Pred(rs, i)), rs[i - 1]).weight > Table(rs, i - 1).weight
    ensures PositiveTail(Add(Table(rs, Pred(rs, i)), rs[i - 1]).regs)
  {
    var p := Pred(rs, i);
    var base := Table(rs, p);
    assert p == 0 ==> base.regs == [];
    if p >= 1 {
      TableMonotone(rs, p, i - 1);
      Gain(base, Table(rs, i - 1), rs[i - 1]);
    }
    TailAppend(base.regs, rs[i - 1]);
  }

  /** A region whose addition lifts a solution above one that scores at
      least as much scores above zero. */
  lemma Gain(base: Sequence, prev: Sequence, r: Region)
    requires base.weight <= prev.weight && Add(base, r).weight > prev.weight
    ensures r.weight > 0
  {
  }

  /** The solution of a block holds at least one region, and each of its
      regions after the first scores above zero. */
  lemma BestPositiveTail(block: seq<Region>)
    requires |block| >= 1 && AllWellFormed(block)
    ensures Best(block).regs != [] && PositiveTail(Best(block).regs)
  {
    var rs := SortBy(block, ByFinish);
    PermutationWellFormed(block, rs);
    TableNonEmpty(rs, |rs|);
    TablePositiveTail(rs, |rs|);
  }

  /** A chain of well-formed regions is sorted by start and by finish. */
  lemma ChainSorted(s: seq<Region>)
    requires AllWellFormed(s) && Chain(s)
    ensures SortedBy(s, ByStart) && SortedBy(s, ByFinish)
  {
    ChainIsPairwiseDisjoint(s);
    forall j, k | 0 <= j < k < |s| ensures s[j].start < s[k].start && s[j].finish < s[k].finish {
      assert WellFormed(s[j]) && WellFormed(s[k]);
    }
  }

  /** In a chain every earlier region finishes before region `i` starts, so
      its predecessor index is `i - 1`. */
  lemma ChainPred(rs: seq<Region>, i: nat)
    requires Schedulable(rs) && Chain(rs) && 1 <= i <= |rs|
    ensures Pred(rs, i) == i - 1
  {
    ChainIsPairwiseDisjoint(rs);
    var p := Pred(rs, i);
    assert rs[i - 1].start <= rs[p].finish;
  }

  /** On a chain whose later regions all score above zero, every entry
      `S[i]` takes all of the first `i` regions. */
  lemma {:induction false} ChainTable(rs: seq<Region>, i: nat)
    requires Schedulable(rs) && Chain(rs) && PositiveTail(rs) && 1 <= i <= |rs|
    ensures Table(rs, i) == Sequence(TotalWeight(rs[..i]), rs[i - 1].finish, rs[..i])
    decreases i
  {
    if i == 1 {
      assert rs[..1] == [rs[0]] && [rs[0]][..0] == [];
    } else {
      ChainPred(rs, i);
      ChainTable(rs, i - 1);
      var prev := Table(rs, i - 1);
      assert Table(rs, i) == Max(prev, Add(prev, rs[i - 1]));
      AddNext(rs, i, prev);
    }
  }

  /** Adding region `i` to the solution that takes the first `i - 1`
      regions takes the first `i`. */
  lemma AddNext(rs: seq<Region>, i: nat, prev: Sequence)
    requires 1 <= i <= |rs| && prev == Sequence(TotalWeight(rs[..i - 1]), prev.finish, rs[..i - 1])
    ensures Add(prev, rs[i - 1]) == Sequence(TotalWeight(rs[..i]), rs[i - 1].finish, rs[..i])
  {
    assert rs[..i] == rs[..i - 1] + [rs[i - 1]];
    assert rs[..i][..i - 1] == rs[..i - 1];
  }

  /** A chain whose later regions all score above zero is solved as
      itself. */
  lemma ChainBest(block: seq<Region>)
    requires |block| >= 1 && AllWellFormed(block) && Chain(block) && PositiveTail(block)
    ensures Best(block).regs == block && Best(block).weight == TotalWeight(block)
  {
    ChainSorted(block);
    SortBySorted(block, ByFinish);
    ChainTable(block, |block|);
    assert block[..|block|] == block;
  }

  /** A slice of a chain is a chain. */
  lemma ChainSlice(s: seq<Region>, a: nat)
    requires Chain(s) && a <= |s|
    ensures Chain(s[a..])
  {
    forall k | 0 <= k < |s[a..]| - 1 ensures s[a..][k].finish < s[a..][k + 1].start {
      assert s[a..][k] == s[a + k] && s[a..][k + 1] == s[a + k + 1];
    }
  }

  /** The region after the open block, in a chain: it starts after the
      open block's last finish, so it starts at or before `most_far` only
      when it starts at or before 0, and then it scores above zero. */
  lemma ChainNext(rs: seq<Region>, cur: seq<Region>, mostFar: int)
    requires cur != [] && rs != [] && AllWellFormed(cur + rs) && Chain(cur + rs)
    requires mostFar == MaxFinish(cur[|cur| - 1].finish, 0) && LowStartsScore(cur + rs)
    ensures MaxFinish(rs[0].finish, mostFar) == MaxFinish(rs[0].finish, 0)
    ensures rs[0].start <= mostFar ==> rs[0].weight > 0
  {
    var all := cur + rs;
    assert all[|cur| - 1] == cur[|cur| - 1] && all[|cur|] == rs[0];
    assert WellFormed(all[|cur|]);
  }

  /** Cutting a chain after its first `|cur|` regions leaves two chains, and
      the second keeps the property of its later regions. */
  lemma ChainCut(rs: seq<Region>, cur: seq<Region>)
    requires AllWellFormed(cur + rs) && Chain(cur + rs) && LowStartsScore(cur + rs)
    ensures Chain(cur) && AllWellFormed(rs) && Chain(rs) && LowStartsScore(rs)
  {
    var all := cur + rs;
    ChainSlice(all, |cur|);
    assert all[|cur|..] == rs;
    forall k | 0 <= k < |cur| - 1 ensures cur[k].finish < cur[k + 1].start {
      assert cur[k] == all[k] && cur[k + 1] == all[k + 1];
    }
    forall k | 0 <= k < |rs| ensures rs[k] == all[|cur| + k] {
    }
  }

  /** Appending a region that scores above zero, or appending to nothing,
      keeps every region after the first above zero. */
  lemma TailAppend(s: seq<Region>, r: Region)
    requires PositiveTail(s) && (s != [] ==> r.weight > 0)
    ensures PositiveTail(s + [r])
  {
    forall j | 1 <= j < |s + [r]| ensures (s + [r])[j].weight > 0 {
      if j < |s| {
        assert (s + [r])[j] == s[j];
      }
    }
  }

  /** The walk over a chain: `most_far` is the open block's last finish or
      0, so a region joins the open block only when it starts at or before
      0, and every block the walk closes is a chain whose regions after the
      first score above zero when the later regions that start at or before
      0 do. */
  lemma {:induction false} ChainWalk(rs: seq<Region>, cur: seq<Region>, mostFar: int)
    requires cur != [] && AllWellFormed(cur + rs) && Chain(cur + rs) && PositiveTail(cur)
    requires mostFar == MaxFinish(cur[|cur| - 1].finish, 0)
    requires LowStartsScore(cur + rs)
    ensures forall k :: 0 <= k < |SplitFrom(rs, cur, mostFar)| ==>
      Chain(SplitFrom(rs, cur, mostFar)[k]) && PositiveTail(SplitFrom(rs, cur, mostFar)[k])
    decreases |rs|
  {
    if rs == [] {
      assert cur + rs == cur;
    } else {
      var r := rs[0];
      var m := MaxFinish(r.finish, mostFar);
      ChainNext(rs, cur, mostFar);
      if r.start > mostFar {
        ChainCut(rs, cur);
        assert [r] + rs[1..] == rs;
        ChainWalk(rs[1..], [r], m);
        var bs, rest := SplitFrom(rs, cur, mostFar), SplitFrom(rs[1..], [r], m);
        assert bs == [cur] + rest;
        forall k | 0 <= k < |bs| ensures Chain(bs[k]) && PositiveTail(bs[k]) {
          if k > 0 {
            assert bs[k] == rest[k - 1];
          }
        }
      } else {
        var cur' := cur + [r];
        assert cur' + rs[1..] == cur + rs;
        TailAppend(cur, r);
        ChainWalk(rs[1..], cur', m);
      }
    }
  }

  /** On start-sorted input the walk opens a block only at a region that
      starts beyond `most_far`, which is never below 0: every region after
      the walk's first block starts above 0. */
  lemma {:induction false} LaterBlocksStartAboveZero(rs: seq<Region>, cur: seq<Region>, mostFar: int)
    requires mostFar >= 0 && SortedBy(rs, ByStart)
    ensures |SplitFrom(rs, cur, mostFar)| >= 1 ==>
      forall y :: y in Flatten(SplitFrom(rs, cur, mostFar)[1..]) ==> y.start > 0
    decreases |rs|
  {
    var bs := SplitFrom(rs, cur, mostFar);
    if rs == [] {
      assert |bs| >= 1 ==> bs[1..] == [];
    } else {
      var m := MaxFinish(rs[0].finish, mostFar);
      if |cur| > 0 && rs[0].start > mostFar {
        var rest := SplitFrom(rs[1..], [rs[0]], m);
        assert bs[1..] == rest;
        SplitFromFlattens(rs[1..], [rs[0]], m);
        assert [rs[0]] + rs[1..] == rs;
        forall y | y in Flatten(rest) ensures y.start > 0 {
          var j :| 0 <= j < |rs| && rs[j] == y;
          assert KeyOf(rs[0], ByStart) <= KeyOf(rs[j], ByStart) || j == 0;
        }
      } else {
        assert SortedBy(rs[1..], ByStart);
        LaterBlocksStartAboveZero(rs[1..], cur + [rs[0]], m);
      }
    }
  }

  /** The joined regions of a list of solutions are the first solution's
      regions followed by those of the others. */
  lemma {:induction false} ConcatRegsFront(ss: seq<Sequence>)
    requires ss != []
    ensures ConcatRegs(ss) == ss[0].regs + ConcatRegs(ss[1..])
    decreases |ss|
  {
    var n := |ss| - 1;
    if n == 0 {
      assert ss[..0] == [] && ss[1..] == [];
    } else {
      var init, tail := ss[..n], ss[1..];
      ConcatRegsFront(init);
      assert init[0] == ss[0] && init[1..] == tail[..n - 1] && tail[n - 1] == ss[n];
      assert ConcatRegs(tail) == ConcatRegs(tail[..n - 1]) + ss[n].regs;
      assert ConcatRegs(ss) == ConcatRegs(init) + ss[n].regs;
    }
  }

  /** The `k`-th solution is the solution of the `k`-th block. */
  lemma {:induction false} SolutionsAt(bs: seq<seq<Region>>, k: nat)
    requires Solvable(bs) && k < |bs|
    ensures Solutions(bs)[k] == Best(bs[k])
    decreases |bs|
  {
    var n := |bs| - 1;
    if k < n {
      assert Solvable(bs[..n]);
      SolutionsAt(bs[..n], k);
    }
  }

  /** When every block is solved as itself, the joined regions are the
      blocks joined back together. */
  lemma {:induction false} KeptBlocks(bs: seq<seq<Region>>)
    requires Solvable(bs)
    requires forall k :: 0 <= k < |bs| ==> Best(bs[k]).regs == bs[k]
    ensures ConcatRegs(Solutions(bs)) == Flatten(bs)
    decreases |bs|
  {
    if bs != [] {
      var n := |bs| - 1;
      assert Solvable(bs[..n]);
      KeptBlocks(bs[..n]);
      var ss := Solutions(bs);
      assert ss[..n] == Solutions(bs[..n]);
    }
  }

  /** The blocks of a chain whose later regions score above zero wherever
      they start at or before 0 are each solved as themselves. */
  lemma ChainBlocks(c: seq<Region>)
    requires |c| >= 1 && AllWellFormed(c) && Chain(c) && LowStartsScore(c)
    ensures Solvable(Blocks(c))
    ensures forall k :: 0 <= k < |Blocks(c)| ==> Best(Blocks(c)[k]).regs == Blocks(c)[k]
  {
    var bs := Blocks(c);
    BlocksSolvable(c);
    BlocksOfChain(c);
    forall k | 0 <= k < |bs| ensures Best(bs[k]).regs == bs[k] {
      ChainBest(bs[k]);
    }
  }

  /** The blocks of such a chain are chains whose later regions score above
      zero. */
  lemma BlocksOfChain(c: seq<Region>)
    requires |c| >= 1 && AllWellFormed(c) && Chain(c) && LowStartsScore(c)
    ensures forall k :: 0 <= k < |Blocks(c)| ==> Chain(Blocks(c)[k]) && PositiveTail(Blocks(c)[k])
  {
    var first := [c[0]];
    var m := MaxFinish(c[0].finish, 0);
    assert [] + [c[0]] == first;
    assert Blocks(c) == SplitFrom(c[1..], first, m);
    assert first + c[1..] == c;
    ChainWalk(c[1..], first, m);
  }

  /** A chain of well-formed regions whose later regions score above zero
      wherever they start at or before 0 is printed unchanged and scores its
      total. */
  lemma RerunChain(c: seq<Region>)
    requires |c| >= 1 && AllWellFormed(c) && Chain(c) && LowStartsScore(c)
    ensures GroupChoice(c, false) == c && GroupWeight(c, false) == TotalWeight(c)
  {
    ChainSorted(c);
    SortBySorted(c, ByStart);
    assert Arrange(c, false) == c;
    ChainBlocks(c);
    KeptBlocks(Blocks(c));
    SplitFromFlattens(c, [], 0);
    GroupChoiceFacts(c, false);
  }

  /** Solutions that solve a list of blocks, without their first entry,
      solve the blocks without theirs. */
  lemma SolvedByRest(ss: seq<Sequence>, bs: seq<seq<Region>>)
    requires SolvedBy(ss, bs) && ss != []
    ensures SolvedBy(ss[1..], bs[1..])
  {
    forall k | 0 <= k < |ss[1..]|
      ensures ss[1..][k].weight == TotalWeight(ss[1..][k].regs) && Chain(ss[1..][k].regs)
      ensures multiset(ss[1..][k].regs) <= multiset(bs[1..][k])
    {
      assert ss[1..][k] == ss[k + 1] && bs[1..][k] == bs[k + 1];
    }
  }

  /** When the regions of all blocks after the first start above 0, so does
      every joined region past the first solution. */
  lemma PastHeadStartsAbove(ss: seq<Sequence>, bs: seq<seq<Region>>)
    requires SolvedBy(ss, bs) && ss != []
    requires forall y :: y in Flatten(bs[1..]) ==> y.start > 0
    ensures forall k :: |ss[0].regs| <= k < |ConcatRegs(ss)| ==> ConcatRegs(ss)[k].start > 0
  {
    var c, head := ConcatRegs(ss), ss[0].regs;
    ConcatRegsFront(ss);
    SolvedByRest(ss, bs);
    ConcatRegsConsistent(ss[1..], bs[1..]);
    forall k | |head| <= k < |c| ensures c[k].start > 0 {
      assert c[k] == ConcatRegs(ss[1..])[k - |head|];
      assert c[k] in multiset(Flatten(bs[1..]));
    }
  }

  /** When the regions of all blocks after the first start above 0, a
      joined region after the first that starts at or before 0 comes from
      the first solution, at a position after its first region. */
  lemma LowStartsInHead(ss: seq<Sequence>, bs: seq<seq<Region>>)
    requires SolvedBy(ss, bs) && ss != [] && ss[0].regs != [] && PositiveTail(ss[0].regs)
    requires forall y :: y in Flatten(bs[1..]) ==> y.start > 0
    ensures LowStartsScore(ConcatRegs(ss))
  {
    var c, head := ConcatRegs(ss), ss[0].regs;
    ConcatRegsFront(ss);
    PastHeadStartsAbove(ss, bs);
    forall k | 1 <= k < |c| && c[k].start <= 0 ensures c[k].weight > 0 {
      assert k < |head|;
      assert c[k] == head[k];
    }
  }

  /** The first block's solution holds at least one region, and each of its
      regions after the first scores above zero. */
  lemma FirstSolution(bs: seq<seq<Region>>)
    requires Solvable(bs) && bs != []
    ensures Solutions(bs)[0].regs != [] && PositiveTail(Solutions(bs)[0].regs)
  {
    SolutionsAt(bs, 0);
    BestPositiveTail(bs[0]);
  }

  /** The joined solutions of the blocks of a non-empty start-sorted group
      hold at least one region, and their later regions score above zero
      wherever they start at or before 0. */
  lemma SolutionsRerunnable(rs: seq<Region>)
    requires |rs| >= 1 && AllWellFormed(rs) && SortedBy(rs, ByStart)
    ensures Solvable(Blocks(rs))
    ensures |ConcatRegs(Solutions(Blocks(rs)))| >= 1 && LowStartsScore(ConcatRegs(Solutions(Blocks(rs))))
  {
    var bs := Blocks(rs);
    BlocksSolvable(rs);
    BlocksPartition(rs);
    assert bs != [];
    var ss := Solutions(bs);
    SolutionsSolve(bs);
    FirstSolution(bs);
    ConcatRegsFront(ss);
    LaterBlocksStartAboveZero(rs, [], 0);
    LowStartsInHead(ss, bs);
  }

  /** What a group prints without the sorted flag is a non-empty chain of
      well-formed regions whose later regions score above zero wherever they
      start at or before 0. */
  lemma PrintedIsRerunnable(group: seq<Region>)
    requires |group| >= 1 && AllWellFormed(group)
    ensures |GroupChoice(group, false)| >= 1 && AllWellFormed(GroupChoice(group, false))
    ensures Chain(GroupChoice(group, false)) && LowStartsScore(GroupChoice(group, false))
  {
    var rs := Arrange(group, false);
    PermutationWellFormed(group, rs);
    SolutionsRerunnable(rs);
    var c := GroupChoice(group, false);
    GroupChoiceFacts(group, false);
    assert AllWellFormed(c) by {
      forall k | 0 <= k < |c| ensures WellFormed(c[k]) {
        assert c[k] in multiset(group);
      }
    }
  }

  /** Idempotence: without the sorted flag, resolving the regions a group
      prints selects all of them again, with the same score. */
  lemma RerunKeepsOutput(group: seq<Region>)
    requires |group| >= 1 && AllWellFormed(group)
    ensures |GroupChoice(group, false)| >= 1 && AllWellFormed(GroupChoice(group, false))
    ensures GroupChoice(GroupChoice(group, false), false) == GroupChoice(group, false)
    ensures GroupWeight(GroupChoice(group, false), false) == GroupWeight(group, false)
  {
    PrintedIsRerunnable(group);
    RerunChain(GroupChoice(group, false));
    GroupChoiceFacts(group, false);
  }
}
