/** Regions: the scored intervals of a GFF file and the facts about them that
    every other part of the model relies on. Coordinates are closed,
    `[start, finish]`, so two regions that share a single coordinate overlap. */
module Regions {

  /** One GFF line, reduced to the fields the scheduler reads: sequence id
      (column 1), feature type (column 3), strand (column 7), start, finish and
      score (columns 4, 5 and 6). */
  datatype Region = Region(
    seqId: string,
    featureType: string,
    strand: string,
    start: int,
    finish: int,
    weight: int)

  /** The assumption `start <= finish` that the scheduler relies on. */
  predicate WellFormed(r: Region) {
    r.start <= r.finish
  }

  predicate AllWellFormed(s: seq<Region>) {
    forall k :: 0 <= k < |s| ==> WellFormed(s[k])
  }

  /** Two closed intervals do not share a coordinate. */
  predicate Disjoint(a: Region, b: Region) {
    a.finish < b.start || b.finish < a.start
  }

  predicate PairwiseDisjoint(s: seq<Region>) {
    forall j, k :: 0 <= j < k < |s| ==> Disjoint(s[j], s[k])
  }

  /** Each region ends strictly before the next one starts. */
  predicate Chain(s: seq<Region>) {
    forall k :: 0 <= k < |s| - 1 ==> s[k].finish < s[k + 1].start
  }

  /** Sum of the scores, accumulated from the back as appending does. */
  function TotalWeight(s: seq<Region>): int {
    if s == [] then 0 else TotalWeight(s[..|s| - 1]) + s[|s| - 1].weight
  }

  lemma TotalWeightAppend(s: seq<Region>, t: seq<Region>)
    ensures TotalWeight(s + t) == TotalWeight(s) + TotalWeight(t)
    decreases |t|
  {
    if t == [] {
      assert s + t == s;
    } else {
      assert (s + t)[..|s + t| - 1] == s + t[..|t| - 1];
      TotalWeightAppend(s, t[..|t| - 1]);
    }
  }

  /** Two chains joined where the first ends before the second starts form
      one chain. */
  lemma ChainAppend(s: seq<Region>, t: seq<Region>)
    requires Chain(s) && Chain(t)
    requires s != [] && t != [] ==> s[|s| - 1].finish < t[0].start
    ensures Chain(s + t)
  {
    forall k | 0 <= k < |s + t| - 1
      ensures (s + t)[k].finish < (s + t)[k + 1].start
    {
      if k < |s| - 1 {
        assert (s + t)[k] == s[k] && (s + t)[k + 1] == s[k + 1];
      } else if k >= |s| {
        assert (s + t)[k] == t[k - |s|] && (s + t)[k + 1] == t[k + 1 - |s|];
      }
    }
  }

  /** A chain of well-formed regions is ordered by start and by finish, and
      every earlier region ends before every later one starts. */
  lemma {:induction false} ChainIsPairwiseDisjoint(s: seq<Region>)
    requires AllWellFormed(s) && Chain(s)
    ensures forall j, k :: 0 <= j < k < |s| ==> s[j].finish < s[k].start
    ensures PairwiseDisjoint(s)
  {
    forall j, k | 0 <= j < k < |s|
      ensures s[j].finish < s[k].start
    {
      var m := j + 1;
      while m < k
        invariant j < m <= k
        invariant s[j].finish < s[m].start
      {
        assert WellFormed(s[m]);
        m := m + 1;
      }
    }
  }

  /** The regions of `c` whose membership in `b` is `inside`, in their order
      in `c`. */
  function Part(c: seq<Region>, b: seq<Region>, inside: bool): seq<Region> {
    if c == [] then []
    else Part(c[..|c| - 1], b, inside) + (if (c[|c| - 1] in b) == inside then [c[|c| - 1]] else [])
  }

  /** Splitting a choice by membership in `b` splits its score. */
  lemma {:induction false} PartWeights(c: seq<Region>, b: seq<Region>)
    ensures TotalWeight(c) == TotalWeight(Part(c, b, true)) + TotalWeight(Part(c, b, false))
  {
    if c != [] {
      var init, z := c[..|c| - 1], c[|c| - 1];
      PartWeights(init, b);
      var grown, same := Part(c, b, z in b), Part(c, b, z !in b);
      assert grown == Part(init, b, z in b) + [z];
      assert grown[..|grown| - 1] == Part(init, b, z in b);
      assert same == Part(init, b, z !in b);
    }
  }

  /** Each part keeps exactly the occurrences on its side. */
  lemma {:induction false} PartCount(c: seq<Region>, b: seq<Region>, inside: bool, x: Region)
    ensures multiset(Part(c, b, inside))[x] == if (x in b) == inside then multiset(c)[x] else 0
  {
    if c != [] {
      var init, z := c[..|c| - 1], c[|c| - 1];
      PartCount(init, b, inside, x);
      assert c == init + [z];
    }
  }

  /** A region that overlaps none of a non-overlapping sequence can be
      appended to it. */
  lemma DisjointAppend(s: seq<Region>, z: Region)
    requires PairwiseDisjoint(s)
    requires forall x :: x in s ==> Disjoint(x, z)
    ensures PairwiseDisjoint(s + [z])
  {
    forall j, k | 0 <= j < k < |s + [z]| ensures Disjoint((s + [z])[j], (s + [z])[k]) {
      if k == |s| {
        assert (s + [z])[j] in s;
      }
    }
  }

  /** Each part of a non-overlapping choice is non-overlapping. */
  lemma {:induction false} PartDisjoint(c: seq<Region>, b: seq<Region>, inside: bool)
    requires PairwiseDisjoint(c)
    ensures PairwiseDisjoint(Part(c, b, inside))
  {
    if c != [] {
      var n := |c| - 1;
      var init, z := c[..n], c[n];
      PartDisjoint(init, b, inside);
      if (z in b) == inside {
        forall x | x in Part(init, b, inside) ensures Disjoint(x, z) {
          assert multiset(Part(init, b, inside))[x] > 0;
          PartCount(init, b, inside, x);
          var k :| 0 <= k < n && init[k] == x;
          assert c[k] == x;
        }
        DisjointAppend(Part(init, b, inside), z);
      }
    }
  }

  /** A non-overlapping choice of well-formed regions holds no region twice,
      since a closed interval overlaps itself. */
  lemma {:induction false} NoRepeats(c: seq<Region>)
    requires AllWellFormed(c) && PairwiseDisjoint(c)
    ensures forall x :: multiset(c)[x] <= 1
  {
    if c != [] {
      var n := |c| - 1;
      var init, z := c[..n], c[n];
      NoRepeats(init);
      assert c == init + [z];
      assert WellFormed(z);
      assert z !in init;
    }
  }

  /** Two different regions of a non-overlapping choice do not overlap. */
  lemma DisjointMembers(c: seq<Region>, x: Region, y: Region)
    requires PairwiseDisjoint(c) && x in c && y in c && x != y
    ensures Disjoint(x, y)
  {
    var j :| 0 <= j < |c| && c[j] == x;
    var k :| 0 <= k < |c| && c[k] == y;
    if j < k {
      assert Disjoint(c[j], c[k]);
    } else {
      assert Disjoint(c[k], c[j]);
    }
  }

  /** Regions drawn from well-formed regions are well formed. */
  lemma DrawnWellFormed(c: seq<Region>, s: seq<Region>)
    requires multiset(c) <= multiset(s) && AllWellFormed(s)
    ensures AllWellFormed(c)
  {
    forall k | 0 <= k < |c| ensures WellFormed(c[k]) {
      assert c[k] in multiset(s);
    }
  }

  /** A choice in which no region but `x` occurs, and `x` at most once, is
      empty or `x` alone. */
  lemma AtMostOne(k: seq<Region>, x: Region)
    requires forall y :: y != x ==> multiset(k)[y] == 0
    requires multiset(k)[x] <= 1
    ensures TotalWeight(k) == if x in k then x.weight else 0
  {
    if k != [] {
      assert k[0] in multiset(k);
      assert k == [x] + k[1..];
      forall y ensures multiset(k[1..])[y] == 0 {
        assert multiset(k)[y] == multiset([k[0]])[y] + multiset(k[1..])[y];
      }
      assert multiset(k[1..]) == multiset{};
      assert k == [x];
    }
  }
}
