/** The weighted-interval-scheduling dynamic programme that solves one block:
    `Resolver.get_partial`. The block is sorted by finish; `S[0]` is the empty
    solution, `S[1]` the first region, and for `i >= 2`
    `S[i] = max(S[i - 1], S[p] + region i)`, where `p` is the number of regions
    that finish strictly before region `i` starts. `Table` is that recurrence as
    a function; `GetPartial` fills an array with it. */
module Scheduler {
  import opened Regions
  import opened Sorting
  import opened Sequences

  predicate Ascending(s: seq<int>) {
    forall j, k :: 0 <= j < k < |s| ==> s[j] <= s[k]
  }

  /** The number of values in `s` that are strictly below `x`. */
  function CountBelow(s: seq<int>, x: int): (c: nat)
    ensures c <= |s|
  {
    if s == [] then 0 else CountBelow(s[..|s| - 1], x) + (if s[|s| - 1] < x then 1 else 0)
  }

  /** In an ascending sequence the values below `x` form a prefix, and
      `CountBelow` is its length. */
  lemma {:induction false} CountBelowSplits(s: seq<int>, x: int)
    requires Ascending(s)
    ensures forall k :: 0 <= k < CountBelow(s, x) ==> s[k] < x
    ensures forall k :: CountBelow(s, x) <= k < |s| ==> x <= s[k]
  {
    if s != [] {
      var init := s[..|s| - 1];
      CountBelowSplits(init, x);
      if s[|s| - 1] < x {
        forall k | 0 <= k < |s| ensures s[k] < x {
          assert s[k] <= s[|s| - 1];
        }
      } else {
        forall k | 0 <= k < |init| && s[k] < x ensures k < CountBelow(init, x) {
          assert init[k] == s[k];
        }
      }
    }
  }

  /** A position that splits `s` into values below `x` and values not below
      it is the count of values below `x`. */
  lemma {:induction false} SplitIsCountBelow(s: seq<int>, x: int, p: nat)
    requires p <= |s|
    requires forall k :: 0 <= k < p ==> s[k] < x
    requires forall k :: p <= k < |s| ==> x <= s[k]
    ensures p == CountBelow(s, x)
  {
    if s != [] {
      var init := s[..|s| - 1];
      if p == |s| {
        SplitIsCountBelow(init, x, p - 1);
      } else {
        SplitIsCountBelow(init, x, p);
      }
    }
  }

  /** Binary search for the leftmost position at which `x` could be inserted
      into the ascending `a` keeping it ascending (the host library's
      `bisect_left`). That position is the number of values below `x`. */
  method BisectLeft(a: seq<int>, x: int) returns (lo: nat)
    requires Ascending(a)
    ensures lo == CountBelow(a, x)
    ensures lo <= |a| && forall k :: 0 <= k < |a| ==> (a[k] < x <==> k < lo)
  {
    lo := 0;
    var hi := |a|;
    while lo < hi
      invariant 0 <= lo <= hi <= |a|
      invariant forall k :: 0 <= k < lo ==> a[k] < x
      invariant forall k :: hi <= k < |a| ==> x <= a[k]
    {
      var mid := (lo + hi) / 2;
      if a[mid] < x {
        lo := mid + 1;
      } else {
        hi := mid;
      }
    }
    SplitIsCountBelow(a, x, lo);
  }

  function Starts(rs: seq<Region>): (s: seq<int>)
    ensures |s| == |rs| && forall k :: 0 <= k < |rs| ==> s[k] == rs[k].start
  {
    seq(|rs|, k requires 0 <= k < |rs| => rs[k].start)
  }

  function Finishes(rs: seq<Region>): (s: seq<int>)
    ensures |s| == |rs| && forall k :: 0 <= k < |rs| ==> s[k] == rs[k].finish
  {
    seq(|rs|, k requires 0 <= k < |rs| => rs[k].finish)
  }

  /** What the programme needs of a block: at least one region, sorted by
      finish, every region with `start <= finish`. */
  predicate Schedulable(rs: seq<Region>) {
    |rs| >= 1 && SortedBy(rs, ByFinish) && AllWellFormed(rs)
  }

  /** The predecessor index of region `i` (1-based): how many regions of the
      block finish strictly before it starts. Those regions are exactly the
      ones before position `p`, and `p` lies below `i`, so `S[p]` is computed
      before `S[i]`. */
  function Pred(rs: seq<Region>, i: nat): (p: nat)
    requires Schedulable(rs) && 1 <= i <= |rs|
    ensures p < i
    ensures forall k :: 0 <= k < p ==> rs[k].finish < rs[i - 1].start
    ensures forall k :: p <= k < |rs| ==> rs[i - 1].start <= rs[k].finish
  {
    var fs := Finishes(rs);
    assert Ascending(fs);
    CountBelowSplits(fs, rs[i - 1].start);
    assert WellFormed(rs[i - 1]);
    CountBelow(fs, rs[i - 1].start)
  }

  /** `S[i]`: the solution the programme holds after considering the first `i`
      regions of the finish-sorted block. */
  ghost function Table(rs: seq<Region>, i: nat): Sequence
    requires Schedulable(rs) && i <= |rs|
    decreases i
  {
    if i == 0 then Empty
    else if i == 1 then Sequence(rs[0].weight, rs[0].finish, [rs[0]])
    else Max(Table(rs, i - 1), Add(Table(rs, Pred(rs, i)), rs[i - 1]))
  }

  /** The positions (0-based, in the finish-sorted block) of the regions that
      `Table(rs, i)` holds. */
  ghost function Choice(rs: seq<Region>, i: nat): seq<nat>
    requires Schedulable(rs) && i <= |rs|
    decreases i
  {
    if i == 0 then []
    else if i == 1 then [0]
    else if Gt(Add(Table(rs, Pred(rs, i)), rs[i - 1]), Table(rs, i - 1)) then Choice(rs, Pred(rs, i)) + [i - 1]
    else Choice(rs, i - 1)
  }

  /** Positions strictly increasing and all below `n`. */
  predicate Selection(idx: seq<nat>, n: nat) {
    && (forall a, b :: 0 <= a < b < |idx| ==> idx[a] < idx[b])
    && (forall a :: 0 <= a < |idx| ==> idx[a] < n)
  }

  /** Strictly increasing positions below `n` are at most `n` many. */
  lemma {:induction false} SelectionBound(idx: seq<nat>, n: nat)
    requires Selection(idx, n)
    ensures |idx| <= n
  {
    if idx != [] {
      SelectionBound(idx[..|idx| - 1], idx[|idx| - 1]);
    }
  }

  function Pick(rs: seq<Region>, idx: seq<nat>): (picked: seq<Region>)
    requires Selection(idx, |rs|)
    ensures |picked| == |idx| && forall a :: 0 <= a < |idx| ==> picked[a] == rs[idx[a]]
  {
    seq(|idx|, a requires 0 <= a < |idx| => rs[idx[a]])
  }

  /** A choice among the first `n` regions of the block that an optimal
      schedule may make: no two chosen regions overlap. */
  predicate Feasible(rs: seq<Region>, idx: seq<nat>, n: nat) {
    && n <= |rs|
    && Selection(idx, n)
    && forall a, b :: 0 <= a < b < |idx| ==> Disjoint(rs[idx[a]], rs[idx[b]])
  }

  /** Widening the bound keeps a selection a selection. */
  lemma SelectionWiden(idx: seq<nat>, n: nat, m: nat)
    requires Selection(idx, n) && n <= m
    ensures Selection(idx, m)
  {
  }

  /** Appending a position above all others keeps a selection a selection,
      and picks one more region. */
  lemma SelectionAppend(rs: seq<Region>, idx: seq<nat>, n: nat, j: nat)
    requires Selection(idx, n) && n <= j < |rs|
    ensures Selection(idx + [j], j + 1)
    ensures Pick(rs, idx + [j]) == Pick(rs, idx) + [rs[j]]
  {
  }

  /** Every entry of the table: its score is the sum of its regions' scores,
      its regions are the regions at increasing positions below `i` (so in
      increasing finish order), each ends strictly before the next starts, and
      the table never loses score from one entry to the next. */
  lemma {:induction false} TableInvariant(rs: seq<Region>, i: nat)
    requires Schedulable(rs) && i <= |rs|
    ensures Consistent(Table(rs, i))
    ensures Selection(Choice(rs, i), i) && Table(rs, i).regs == Pick(rs, Choice(rs, i))
    ensures Chain(Table(rs, i).regs)
    ensures i >= 2 ==> Table(rs, i).weight >= Table(rs, i - 1).weight
    decreases i
  {
    if i == 1 {
      assert [rs[0]][..0] == [];
    } else if i >= 2 {
      var p := Pred(rs, i);
      TableInvariant(rs, i - 1);
      TableInvariant(rs, p);
      var prev, cand := Table(rs, i - 1), Add(Table(rs, p), rs[i - 1]);
      if Gt(cand, prev) {
        assert Table(rs, i) == cand;
        assert Choice(rs, i) == Choice(rs, p) + [i - 1];
        ExtendInvariant(rs, i, Table(rs, p), Choice(rs, p));
      } else {
        assert Table(rs, i) == prev;
        assert Choice(rs, i) == Choice(rs, i - 1);
        SelectionWiden(Choice(rs, i - 1), i - 1, i);
      }
    }
  }

  /** The step of `TableInvariant` that takes region `i` into the solution
      `base` held at the predecessor index. */
  lemma ExtendInvariant(rs: seq<Region>, i: nat, base: Sequence, idx: seq<nat>)
    requires Schedulable(rs) && 2 <= i <= |rs|
    requires Consistent(base) && Chain(base.regs)
    requires Selection(idx, Pred(rs, i)) && base.regs == Pick(rs, idx)
    ensures Consistent(Add(base, rs[i - 1])) && Chain(Add(base, rs[i - 1]).regs)
    ensures Selection(idx + [i - 1], i) && Add(base, rs[i - 1]).regs == Pick(rs, idx + [i - 1])
  {
    var p := Pred(rs, i);
    if base.regs != [] {
      var last := idx[|idx| - 1];
      assert base.finish == rs[last].finish;
      assert last < p;
      assert base.finish < rs[i - 1].start;
    }
    SelectionAppend(rs, idx, p, i - 1);
  }

  /** The regions of a table entry never overlap one another. */
  lemma ChoiceIsFeasible(rs: seq<Region>, i: nat)
    requires Schedulable(rs) && i <= |rs|
    ensures Feasible(rs, Choice(rs, i), i)
    ensures PairwiseDisjoint(Table(rs, i).regs)
  {
    TableInvariant(rs, i);
    var idx, regs := Choice(rs, i), Table(rs, i).regs;
    assert AllWellFormed(regs) by {
      forall a | 0 <= a < |regs| ensures WellFormed(regs[a]) {
        assert regs[a] == rs[idx[a]];
      }
    }
    ChainIsPairwiseDisjoint(regs);
    forall a, b | 0 <= a < b < |idx| ensures Disjoint(rs[idx[a]], rs[idx[b]]) {
      assert Disjoint(regs[a], regs[b]);
    }
  }

  /** Entry `i` scores at least as much as the entry before it and as the
      candidate that adds region `i` to the entry at its predecessor index. */
  lemma TableStep(rs: seq<Region>, i: nat)
    requires Schedulable(rs) && 2 <= i <= |rs|
    ensures Table(rs, i).weight >= Table(rs, i - 1).weight
    ensures Table(rs, i).weight >= Table(rs, Pred(rs, i)).weight + rs[i - 1].weight
  {
  }

  /** The tie-break of the two-argument maximum, entry by entry: `S[i]` is
      `S[i - 1]` exactly when the candidate that adds region `i` does not
      score strictly more, so on equal scores region `i` is left out; when it
      differs, it is that candidate. */
  lemma TableTieBreak(rs: seq<Region>, i: nat)
    requires Schedulable(rs) && 2 <= i <= |rs|
    ensures Table(rs, i) == Table(rs, i - 1) <==>
      Add(Table(rs, Pred(rs, i)), rs[i - 1]).weight <= Table(rs, i - 1).weight
    ensures Table(rs, i) != Table(rs, i - 1) ==> Table(rs, i) == Add(Table(rs, Pred(rs, i)), rs[i - 1])
  {
    var candidate := Add(Table(rs, Pred(rs, i)), rs[i - 1]);
    if candidate.weight > Table(rs, i - 1).weight {
      assert Table(rs, i).weight != Table(rs, i - 1).weight;
    }
  }

  /** Dropping the last position of a selection drops the last region of
      the pick and its score. */
  lemma PickDropLast(rs: seq<Region>, idx: seq<nat>, n: nat)
    requires n <= |rs| && Selection(idx, n) && idx != []
    ensures Selection(idx[..|idx| - 1], n)
    ensures Pick(rs, idx) == Pick(rs, idx[..|idx| - 1]) + [rs[idx[|idx| - 1]]]
    ensures TotalWeight(Pick(rs, idx)) == TotalWeight(Pick(rs, idx[..|idx| - 1])) + rs[idx[|idx| - 1]].weight
  {
    var m := |idx| - 1;
    var init := idx[..m];
    assert Selection(init, n);
    var picked, before := Pick(rs, idx), Pick(rs, init);
    assert picked[..m] == before;
    assert picked == before + [rs[idx[m]]];
  }

  /** A region that overlaps region `i` of a finish-sorted block, without
      ending after it, occurs in the first `i - 1` regions only below the
      predecessor index. */
  lemma BelowPred(rs: seq<Region>, i: nat, y: Region)
    requires Schedulable(rs) && 2 <= i <= |rs|
    requires WellFormed(y) && Disjoint(y, rs[i - 1])
    ensures multiset(rs[..i - 1])[y] == multiset(rs[..Pred(rs, i)])[y]
  {
    var p := Pred(rs, i);
    assert rs[..i - 1] == rs[..p] + rs[p..i - 1];
    assert y !in rs[p..i - 1];
  }

  /** Optimality of the table over any choice: when the first region's score
      is not negative, entry `i` scores at least as much as any
      non-overlapping choice drawn from the first `i` regions. */
  lemma {:induction false} TableBeatsAny(rs: seq<Region>, i: nat, c: seq<Region>)
    requires Schedulable(rs) && i <= |rs| && rs[0].weight >= 0
    requires PairwiseDisjoint(c) && multiset(c) <= multiset(rs[..i])
    ensures TotalWeight(c) <= Table(rs, i).weight
    decreases i, 1
  {
    if i == 0 {
      assert |multiset(c)| == 0;
    } else if i == 1 {
      assert rs[..1] == [rs[0]];
      assert forall y :: y != rs[0] ==> multiset(c)[y] == 0;
      DrawnWellFormed(c, rs[..1]);
      NoRepeats(c);
      AtMostOne(c, rs[0]);
    } else if rs[i - 1] !in c {
      WithoutLast(rs, i, c);
    } else {
      WithLast(rs, i, c);
    }
  }

  /** The case of `TableBeatsAny` where region `i` is not chosen. */
  lemma {:induction false} WithoutLast(rs: seq<Region>, i: nat, c: seq<Region>)
    requires Schedulable(rs) && 2 <= i <= |rs| && rs[0].weight >= 0
    requires PairwiseDisjoint(c) && multiset(c) <= multiset(rs[..i]) && rs[i - 1] !in c
    ensures TotalWeight(c) <= Table(rs, i).weight
    decreases i, 0
  {
    assert rs[..i] == rs[..i - 1] + [rs[i - 1]];
    assert multiset(c) <= multiset(rs[..i - 1]);
    TableBeatsAny(rs, i - 1, c);
    TableStep(rs, i);
  }

  /** The case of `TableBeatsAny` where region `i` is chosen: the rest of the
      choice is drawn from the regions below the predecessor index. */
  lemma {:induction false} WithLast(rs: seq<Region>, i: nat, c: seq<Region>)
    requires Schedulable(rs) && 2 <= i <= |rs| && rs[0].weight >= 0
    requires PairwiseDisjoint(c) && multiset(c) <= multiset(rs[..i]) && rs[i - 1] in c
    ensures TotalWeight(c) <= Table(rs, i).weight
    decreases i, 0
  {
    var x, p := rs[i - 1], Pred(rs, i);
    var rest := Part(c, [x], false);
    assert rs[..i] == rs[..i - 1] + [x];
    assert AllWellFormed(rs[..i]);
    DrawnWellFormed(c, rs[..i]);
    NoRepeats(c);
    PartWeights(c, [x]);
    forall y ensures multiset(Part(c, [x], true))[y] == if y == x then multiset(c)[x] else 0 {
      PartCount(c, [x], true, y);
    }
    AtMostOne(Part(c, [x], true), x);
    PartDisjoint(c, [x], false);
    forall y ensures multiset(rest)[y] <= multiset(rs[..p])[y] {
      PartCount(c, [x], false, y);
      if y != x && y in c {
        DisjointMembers(c, y, x);
        BelowPred(rs, i, y);
      }
    }
    TableBeatsAny(rs, p, rest);
    TableStep(rs, i);
  }

  /** Optimality over positions: when the first region's score is not
      negative, entry `i` scores at least as much as any feasible choice of
      positions among the first `i`, since its pick is a non-overlapping
      choice drawn from those regions. */
  lemma TableIsOptimal(rs: seq<Region>, i: nat, idx: seq<nat>)
    requires Schedulable(rs) && i <= |rs| && rs[0].weight >= 0
    requires Feasible(rs, idx, i)
    ensures TotalWeight(Pick(rs, idx)) <= Table(rs, i).weight
  {
    PickIsSubMultiset(rs, idx, i);
    TableBeatsAny(rs, i, Pick(rs, idx));
  }

  /** A selection uses each region of the block at most as often as the block
      holds it. */
  lemma {:induction false} PickIsSubMultiset(rs: seq<Region>, idx: seq<nat>, n: nat)
    requires n <= |rs| && Selection(idx, n)
    ensures multiset(Pick(rs, idx)) <= multiset(rs[..n])
    decreases |idx|
  {
    if idx != [] {
      var m := |idx|;
      var last := idx[m - 1];
      var init := idx[..m - 1];
      PickIsSubMultiset(rs, init, last);
      PickDropLast(rs, idx, n);
      assert rs[..last + 1] == rs[..last] + [rs[last]];
      assert rs[..n] == rs[..last + 1] + rs[last + 1..n];
      calc {
        multiset(Pick(rs, idx));
      ==
        multiset(Pick(rs, init)) + multiset{rs[last]};
      <=
        multiset(rs[..last]) + multiset{rs[last]};
      ==
        multiset(rs[..last + 1]);
      <=
        multiset(rs[..n]);
      }
    }
  }

  /** A permutation of well-formed regions is well formed. */
  lemma PermutationWellFormed(s: seq<Region>, t: seq<Region>)
    requires multiset(s) == multiset(t) && AllWellFormed(s)
    ensures AllWellFormed(t)
  {
    forall k | 0 <= k < |t| ensures WellFormed(t[k]) {
      assert t[k] in multiset(s);
      var j :| 0 <= j < |s| && s[j] == t[k];
    }
  }

  /** The solution `get_partial` returns for a block: the last table entry
      over the block sorted by finish. */
  ghost function Best(block: seq<Region>): Sequence
    requires |block| >= 1 && AllWellFormed(block)
  {
    var rs := SortBy(block, ByFinish);
    PermutationWellFormed(block, rs);
    Table(rs, |rs|)
  }

  /** The last entry of the table over a finish-sorted block: its score is
      the sum of its regions' scores, its regions form a chain, and they are
      taken from the block. */
  lemma LastEntryIsConsistent(rs: seq<Region>)
    requires Schedulable(rs)
    ensures Table(rs, |rs|).weight == TotalWeight(Table(rs, |rs|).regs)
    ensures Chain(Table(rs, |rs|).regs) && PairwiseDisjoint(Table(rs, |rs|).regs)
    ensures multiset(Table(rs, |rs|).regs) <= multiset(rs)
  {
    var n := |rs|;
    TableInvariant(rs, n);
    ChoiceIsFeasible(rs, n);
    PickIsSubMultiset(rs, Choice(rs, n), n);
    assert rs[..n] == rs;
  }

  /** What the solution of a block satisfies: its score is the sum of its
      regions' scores; its regions come from the block, in increasing finish
      order, each ending strictly before the next starts, so no two overlap. */
  lemma BestIsConsistent(block: seq<Region>)
    requires |block| >= 1 && AllWellFormed(block)
    ensures Best(block).weight == TotalWeight(Best(block).regs)
    ensures Chain(Best(block).regs) && PairwiseDisjoint(Best(block).regs)
    ensures multiset(Best(block).regs) <= multiset(block)
  {
    var rs := SortBy(block, ByFinish);
    PermutationWellFormed(block, rs);
    LastEntryIsConsistent(rs);
  }

  /** Optimality of the solution of a block: when the first region by finish
      does not score below zero (in particular when no region does), no choice
      of pairwise non-overlapping regions of the block scores more. */
  lemma BestIsOptimal(block: seq<Region>)
    requires |block| >= 1 && AllWellFormed(block)
    ensures var rs := SortBy(block, ByFinish);
      rs[0].weight >= 0 ==> forall idx :: Feasible(rs, idx, |rs|) ==> TotalWeight(Pick(rs, idx)) <= Best(block).weight
  {
    var rs := SortBy(block, ByFinish);
    PermutationWellFormed(block, rs);
    forall idx | rs[0].weight >= 0 && Feasible(rs, idx, |rs|)
      ensures TotalWeight(Pick(rs, idx)) <= Best(block).weight
    {
      TableIsOptimal(rs, |rs|, idx);
    }
  }

  /** A block of one region is solved by that region, whatever its score: a
      region scoring below zero is kept rather than dropped for the empty
      solution, because `S[1]` is set without comparison. */
  lemma SingleRegionKept(r: Region)
    requires WellFormed(r)
    ensures Best([r]) == Sequence(r.weight, r.finish, [r])
    ensures r.weight < 0 ==> Best([r]).weight < Empty.weight
  {
  }

  /** `t` holds the first `|t|` entries of the table as the recurrence of
      `get_partial` defines them, entry by entry. */
  predicate Recurrence(rs: seq<Region>, t: seq<Sequence>)
    requires Schedulable(rs) && |t| <= |rs| + 1
  {
    && (|t| > 0 ==> t[0] == Empty)
    && (|t| > 1 ==> t[1] == Sequence(rs[0].weight, rs[0].finish, [rs[0]]))
    && forall k {:trigger Pred(rs, k)} :: 2 <= k < |t| ==> t[k] == Max(t[k - 1], Add(t[Pred(rs, k)], rs[k - 1]))
  }

  lemma RecurrenceExtend(rs: seq<Region>, t: seq<Sequence>, x: Sequence)
    requires Schedulable(rs) && 2 <= |t| <= |rs| && Recurrence(rs, t)
    requires x == Max(t[|t| - 1], Add(t[Pred(rs, |t|)], rs[|t| - 1]))
    ensures Recurrence(rs, t + [x])
  {
    var u := t + [x];
    forall k | 2 <= k < |u|
      ensures u[k] == Max(u[k - 1], Add(u[Pred(rs, k)], rs[k - 1]))
    {
      if k < |t| {
        assert u[k] == t[k] && u[k - 1] == t[k - 1] && u[Pred(rs, k)] == t[Pred(rs, k)];
      }
    }
  }

  /** Entry `k` of a list that satisfies the recurrence. */
  lemma RecurrenceAt(rs: seq<Region>, t: seq<Sequence>, k: nat)
    requires Schedulable(rs) && |t| <= |rs| + 1 && Recurrence(rs, t) && 2 <= k < |t|
    ensures t[k] == Max(t[k - 1], Add(t[Pred(rs, k)], rs[k - 1]))
  {
  }

  /** Entry `k` of the recurrence is the table's once the two entries it
      is built from are. */
  lemma StepIsTable(rs: seq<Region>, t: seq<Sequence>, k: nat)
    requires Schedulable(rs) && |t| <= |rs| + 1 && 2 <= k < |t|
    requires t[k] == Max(t[k - 1], Add(t[Pred(rs, k)], rs[k - 1]))
    requires t[k - 1] == Table(rs, k - 1) && t[Pred(rs, k)] == Table(rs, Pred(rs, k))
    ensures t[k] == Table(rs, k)
  {
  }

  /** Whatever satisfies the recurrence is the table. */
  lemma RecurrenceIsTable(rs: seq<Region>, t: seq<Sequence>, k: nat)
    requires Schedulable(rs) && |t| <= |rs| + 1 && Recurrence(rs, t) && k < |t|
    ensures t[k] == Table(rs, k)
  {
    var j := 0;
    while j <= k
      invariant j <= k + 1
      invariant forall m :: 0 <= m < j ==> t[m] == Table(rs, m)
    {
      if j >= 2 {
        RecurrenceAt(rs, t, j);
        StepIsTable(rs, t, j);
      }
      j := j + 1;
    }
  }

  /** The loop of `get_partial` (`resolve_overlaps.py` lines 85-92): `S[0]` is
      the empty solution, `S[1]` the first region, and each later entry the
      larger of the entry before it and the candidate that extends the entry
      at the predecessor index, found by binary search over the finishes. */
  method FillTable(rs: seq<Region>, start: seq<int>, finish: seq<int>) returns (sequences: array<Sequence>)
    requires Schedulable(rs) && start == Starts(rs) && finish == Finishes(rs)
    ensures fresh(sequences) && sequences.Length == |rs| + 1 && Recurrence(rs, sequences[..])
  {
    var n := |rs|;
    assert Ascending(finish);
    sequences := new Sequence[n + 1](_ => Empty);
    sequences[0] := Sequence(0, 0, []);
    sequences[1] := Sequence(rs[0].weight, rs[0].finish, [rs[0]]);
    for i := 2 to n + 1
      invariant Recurrence(rs, sequences[..i])
    {
      var p := BisectLeft(finish, start[i - 1]);
      assert p == Pred(rs, i);
      var newSeq := Add(sequences[p], rs[i - 1]);
      var next := Max(sequences[i - 1], newSeq);
      RecurrenceExtend(rs, sequences[..i], next);
      sequences[i] := next;
      assert sequences[..i + 1] == sequences[..i] + [next];
    }
    assert sequences[..] == sequences[..n + 1];
  }

  /** `Resolver.get_partial` for one non-empty block: sorts it by finish, fills
      the table `S[0..n]` and returns the score and the regions of `S[n]` (the
      regions the program prints). */
  method GetPartial(routes: seq<Region>) returns (weight: int, regs: seq<Region>)
    requires |routes| >= 1 && AllWellFormed(routes)
    ensures weight == Best(routes).weight && regs == Best(routes).regs
    ensures weight == TotalWeight(regs)
    ensures Chain(regs) && PairwiseDisjoint(regs)
    ensures multiset(regs) <= multiset(routes)
    ensures var rs := SortBy(routes, ByFinish);
      rs[0].weight >= 0 ==> forall idx :: Feasible(rs, idx, |rs|) ==> TotalWeight(Pick(rs, idx)) <= weight
  {
    var rs := SortBy(routes, ByFinish);
    PermutationWellFormed(routes, rs);
    var n := |rs|;
    var start := Starts(rs);
    var finish := Finishes(rs);
    var sequences := FillTable(rs, start, finish);
    RecurrenceIsTable(rs, sequences[..], n);
    weight, regs := sequences[n].weight, sequences[n].regs;
    BestIsConsistent(routes);
    BestIsOptimal(routes);
  }
}
