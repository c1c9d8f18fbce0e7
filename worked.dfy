/** A worked block: four regions of one key whose best schedule is computed
    entry by entry. Intervals are closed, so the third and fourth regions
    (`[6, 10]` and `[9, 12]`) overlap and cannot both be chosen. */
module WorkedBlock {
  import opened Regions
  import opened Sorting
  import opened Sequences
  import opened Scheduler

  /** Regions `[1, 5]`, `[3, 8]`, `[6, 10]` and `[9, 12]` scoring 10, 12, 8
      and 7, already sorted by finish. */
  function Sample(): seq<Region> {
    [Region("chr1", "exon", "+", 1, 5, 10), Region("chr1", "exon", "+", 3, 8, 12),
     Region("chr1", "exon", "+", 6, 10, 8), Region("chr1", "exon", "+", 9, 12, 7)]
  }

  /** The predecessor indices of regions 2, 3 and 4. */
  lemma SamplePreds()
    ensures Schedulable(Sample())
    ensures Pred(Sample(), 2) == 0 && Pred(Sample(), 3) == 1 && Pred(Sample(), 4) == 2
  {
    var rs := Sample();
    assert SortedBy(rs, ByFinish);
    var p2, p3, p4 := Pred(rs, 2), Pred(rs, 3), Pred(rs, 4);
    assert rs[0].finish == 5 && rs[1].finish == 8 && rs[2].finish == 10;
  }

  /** One step of the recurrence, with the two entries it reads given. */
  lemma TableStepIs(rs: seq<Region>, i: nat, prev: Sequence, base: Sequence)
    requires Schedulable(rs) && 2 <= i <= |rs|
    requires Table(rs, i - 1) == prev && Table(rs, Pred(rs, i)) == base
    ensures Table(rs, i) == Max(prev, Add(base, rs[i - 1]))
  {
  }

  /** Extending a solution, field by field. */
  lemma AddIs(s: Sequence, r: Region, t: Sequence)
    requires t.weight == s.weight + r.weight && t.finish == r.finish && t.regs == s.regs + [r]
    ensures Add(s, r) == t
  {
  }

  /** The table of the sample: `S[1..4]` score 10, 12, 18 and 19. */
  lemma SampleTable()
    ensures Schedulable(Sample())
    ensures Table(Sample(), 1) == Sequence(10, 5, [Sample()[0]])
    ensures Table(Sample(), 2) == Sequence(12, 8, [Sample()[1]])
    ensures Table(Sample(), 3) == Sequence(18, 10, [Sample()[0], Sample()[2]])
    ensures Table(Sample(), 4) == Sequence(19, 12, [Sample()[1], Sample()[3]])
  {
    var rs := Sample();
    SamplePreds();
    var a, b, c, d := rs[0], rs[1], rs[2], rs[3];
    var s0, s1 := Empty, Sequence(10, 5, [a]);
    var s2, s3, s4 := Sequence(12, 8, [b]), Sequence(18, 10, [a, c]), Sequence(19, 12, [b, d]);
    assert Table(rs, 0) == s0 && Table(rs, 1) == s1;
    AddIs(s0, b, s2);
    TableStepIs(rs, 2, s1, s0);
    AddIs(s1, c, s3);
    TableStepIs(rs, 3, s2, s1);
    AddIs(s2, d, s4);
    TableStepIs(rs, 4, s3, s2);
  }

  /** The block scores 19 with its second and fourth regions, no
      non-overlapping choice scores more, and the choice of the first, third
      and fourth regions (25) is not available because the last two overlap. */
  lemma WorkedExample()
    ensures Best(Sample()) == Sequence(19, 12, [Sample()[1], Sample()[3]])
    ensures forall idx :: Feasible(Sample(), idx, 4) ==> TotalWeight(Pick(Sample(), idx)) <= 19
    ensures !Disjoint(Sample()[2], Sample()[3])
  {
    SampleTable();
    SortBySorted(Sample(), ByFinish);
    BestIsOptimal(Sample());
  }
}
