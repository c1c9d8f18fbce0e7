/** `Resolver.resolve` without its printing: the parsed regions of a file are
    grouped by key, and every group, in first-occurrence order of its key, is
    split into blocks whose solutions are printed and whose scores are summed
    into the group's `top_weight`. */
module Resolver {
  import opened Regions
  import opened Sorting
  import opened Sequences
  import opened Scheduler
  import opened Splitting
  import opened Grouping

  /** A group of well-formed regions is well formed. */
  lemma {:induction false} MembersWellFormed(s: seq<Region>, rule: KeyRule, k: string)
    requires AllWellFormed(s)
    ensures AllWellFormed(Members(s, rule, k))
  {
    if s != [] {
      assert AllWellFormed(s[..|s| - 1]);
      MembersWellFormed(s[..|s| - 1], rule, k);
      assert WellFormed(s[|s| - 1]);
    }
  }

  /** The regions printed for the group of key `k` (nothing for a key without
      regions). */
  ghost function GroupPrinted(regions: seq<Region>, rule: KeyRule, k: string, isSorted: bool): seq<Region> {
    var group := Members(regions, rule, k);
    if |group| >= 1 && AllWellFormed(group) then GroupChoice(group, isSorted) else []
  }

  /** The `top_weight` of the group of key `k` (0 for a key without regions). */
  ghost function GroupTotal(regions: seq<Region>, rule: KeyRule, k: string, isSorted: bool): int {
    var group := Members(regions, rule, k);
    if |group| >= 1 && AllWellFormed(group) then GroupWeight(group, isSorted) else 0
  }

  /** The regions printed for the groups of `keys`, group after group. */
  ghost function Printed(regions: seq<Region>, rule: KeyRule, keys: seq<string>, isSorted: bool): seq<Region> {
    if keys == [] then []
    else Printed(regions, rule, keys[..|keys| - 1], isSorted) + GroupPrinted(regions, rule, keys[|keys| - 1], isSorted)
  }

  /** The `top_weight` of each group of `keys`, in key order. */
  ghost function Totals(regions: seq<Region>, rule: KeyRule, keys: seq<string>, isSorted: bool): (ts: seq<int>)
    ensures |ts| == |keys|
  {
    if keys == [] then []
    else Totals(regions, rule, keys[..|keys| - 1], isSorted) + [GroupTotal(regions, rule, keys[|keys| - 1], isSorted)]
  }

  /** The sum of the group scores. */
  function Sum(xs: seq<int>): int {
    if xs == [] then 0 else Sum(xs[..|xs| - 1]) + xs[|xs| - 1]
  }

  /** The groups of one more key: its regions and its score are appended. */
  lemma PrefixAppend(regions: seq<Region>, rule: KeyRule, keys: seq<string>, j: nat, isSorted: bool)
    requires j < |keys|
    ensures Printed(regions, rule, keys[..j + 1], isSorted) ==
      Printed(regions, rule, keys[..j], isSorted) + GroupPrinted(regions, rule, keys[j], isSorted)
    ensures Totals(regions, rule, keys[..j + 1], isSorted) ==
      Totals(regions, rule, keys[..j], isSorted) + [GroupTotal(regions, rule, keys[j], isSorted)]
  {
    assert keys[..j + 1][..j] == keys[..j];
  }

  /** Every key of the input has a non-empty group of well-formed regions. */
  lemma KeyedGroup(regions: seq<Region>, rule: KeyRule, keys: seq<string>, j: nat)
    requires AllWellFormed(regions) && keys == KeyOrder(regions, rule) && j < |keys|
    ensures Members(regions, rule, keys[j]) != [] && AllWellFormed(Members(regions, rule, keys[j]))
  {
    KeyOrderFacts(regions, rule);
    assert keys[j] in keys;
    MembersWellFormed(regions, rule, keys[j]);
  }

  /** Resolving the group of the next key of the input appends that group's
      score and regions; the group is non-empty and well formed. */
  lemma GroupStep(regions: seq<Region>, rule: KeyRule, keys: seq<string>, j: nat, isSorted: bool)
    requires AllWellFormed(regions) && keys == KeyOrder(regions, rule) && j < |keys|
    ensures Members(regions, rule, keys[j]) != [] && AllWellFormed(Members(regions, rule, keys[j]))
    ensures Printed(regions, rule, keys[..j + 1], isSorted) ==
      Printed(regions, rule, keys[..j], isSorted) + GroupChoice(Members(regions, rule, keys[j]), isSorted)
    ensures Totals(regions, rule, keys[..j + 1], isSorted) ==
      Totals(regions, rule, keys[..j], isSorted) + [GroupWeight(Members(regions, rule, keys[j]), isSorted)]
  {
    KeyedGroup(regions, rule, keys, j);
    PrefixAppend(regions, rule, keys, j, isSorted);
  }

  /** Entry `t` of the totals of the input's keys is the `top_weight` of the
      group of `keys[t]`, a non-empty group of well-formed regions. */
  lemma TotalsAt(regions: seq<Region>, rule: KeyRule, keys: seq<string>, isSorted: bool, t: nat)
    requires AllWellFormed(regions) && keys == KeyOrder(regions, rule) && t < |keys|
    ensures Members(regions, rule, keys[t]) != [] && AllWellFormed(Members(regions, rule, keys[t]))
    ensures Totals(regions, rule, keys, isSorted)[t] == GroupWeight(Members(regions, rule, keys[t]), isSorted)
  {
    GroupStep(regions, rule, keys, t, isSorted);
    TotalsPrefix(regions, rule, keys, isSorted, t + 1);
    var before := Totals(regions, rule, keys[..t], isSorted);
    assert |before| == t;
    assert Totals(regions, rule, keys, isSorted)[t] == (before + [GroupWeight(Members(regions, rule, keys[t]), isSorted)])[t];
  }

  /** The totals of a prefix of the keys are a prefix of the totals. */
  lemma {:induction false} TotalsPrefix(regions: seq<Region>, rule: KeyRule, keys: seq<string>, isSorted: bool, j: nat)
    requires j <= |keys|
    ensures Totals(regions, rule, keys[..j], isSorted) == Totals(regions, rule, keys, isSorted)[..j]
  {
    if j < |keys| {
      var n := |keys| - 1;
      TotalsPrefix(regions, rule, keys[..n], isSorted, j);
      assert keys[..n][..j] == keys[..j];
    } else {
      assert keys[..j] == keys;
    }
  }

  /** The count of `x` after printing the group of key `k`, when `x` was
      counted at most once per input occurrence before and the group holds it
      only if `k` is its key. */
  lemma CountAfterGroup(printed: seq<Region>, chosen: seq<Region>, group: seq<Region>, regions: seq<Region>,
                        x: Region, before: bool, isKey: bool)
    requires multiset(printed)[x] <= (if before then multiset(regions)[x] else 0)
    requires multiset(chosen) <= multiset(group)
    requires multiset(group)[x] == (if isKey then multiset(regions)[x] else 0)
    requires isKey ==> !before
    ensures multiset(printed + chosen)[x] <= (if before || isKey then multiset(regions)[x] else 0)
  {
    assert multiset(chosen)[x] <= multiset(group)[x];
  }

  /** Nothing is printed that is not in the input, and nothing more often than
      it occurs there, provided no key is listed twice (the groups of distinct
      keys share no region). */
  lemma {:induction false} PrintedFromInput(regions: seq<Region>, rule: KeyRule, keys: seq<string>, isSorted: bool, x: Region)
    requires forall a, b :: 0 <= a < b < |keys| ==> keys[a] != keys[b]
    ensures multiset(Printed(regions, rule, keys, isSorted))[x] <= if Key(rule, x) in keys then multiset(regions)[x] else 0
    decreases |keys|
  {
    if keys != [] {
      var n := |keys| - 1;
      var k := keys[n];
      PrintedFromInput(regions, rule, keys[..n], isSorted, x);
      var group := Members(regions, rule, k);
      var chosen := GroupPrinted(regions, rule, k, isSorted);
      assert Printed(regions, rule, keys, isSorted) == Printed(regions, rule, keys[..n], isSorted) + chosen;
      if |group| >= 1 && AllWellFormed(group) {
        GroupChoiceFacts(group, isSorted);
      }
      MembersCount(regions, rule, k, x);
      assert Key(rule, x) in keys <==> Key(rule, x) in keys[..n] || Key(rule, x) == k;
      CountAfterGroup(Printed(regions, rule, keys[..n], isSorted), chosen, group, regions,
                      x, Key(rule, x) in keys[..n], Key(rule, x) == k);
    }
  }

  /** The printed regions of a whole file are drawn from its input. */
  lemma OutputFromInput(regions: seq<Region>, rule: KeyRule, isSorted: bool)
    ensures multiset(Printed(regions, rule, KeyOrder(regions, rule), isSorted)) <= multiset(regions)
  {
    KeyOrderFacts(regions, rule);
    forall x ensures multiset(Printed(regions, rule, KeyOrder(regions, rule), isSorted))[x] <= multiset(regions)[x] {
      PrintedFromInput(regions, rule, KeyOrder(regions, rule), isSorted, x);
    }
  }

  /** One pass of the outer loop of `Resolver.resolve` (`resolve_overlaps.py`
      lines 134-160): the group of the `j`-th key is resolved, its score
      recorded and its regions printed after those of the earlier keys. */
  method ResolveKey(regions: seq<Region>, rule: KeyRule, isSorted: bool, keys: seq<string>, j: nat, group: seq<Region>,
                    totals: seq<int>, output: seq<Region>) returns (totals': seq<int>, output': seq<Region>)
    requires AllWellFormed(regions) && keys == KeyOrder(regions, rule) && j < |keys|
    requires group == Members(regions, rule, keys[j])
    requires totals == Totals(regions, rule, keys[..j], isSorted) && output == Printed(regions, rule, keys[..j], isSorted)
    requires Sum(totals) == TotalWeight(output)
    ensures totals' == Totals(regions, rule, keys[..j + 1], isSorted) && output' == Printed(regions, rule, keys[..j + 1], isSorted)
    ensures Sum(totals') == TotalWeight(output')
  {
    GroupStep(regions, rule, keys, j, isSorted);
    var topWeight, chosen := ResolveGroup(group, isSorted);
    assert (totals + [topWeight])[..j] == totals;
    TotalWeightAppend(output, chosen);
    totals', output' := totals + [topWeight], output + chosen;
  }

  /** `Resolver.resolve` over the parsed regions of a file
      (`resolve_overlaps.py` lines 119-120 and 132-160): the keys in
      first-occurrence order, each group's `top_weight`, and the regions
      printed, group after group. With `Glued` the keys are the program's. */
  method Resolve(regions: seq<Region>, rule: KeyRule, isSorted: bool) returns (keys: seq<string>, totals: seq<int>, output: seq<Region>)
    requires AllWellFormed(regions)
    ensures keys == KeyOrder(regions, rule)
    ensures totals == Totals(regions, rule, keys, isSorted)
    ensures output == Printed(regions, rule, keys, isSorted)
    ensures Sum(totals) == TotalWeight(output)
    ensures multiset(output) <= multiset(regions)
  {
    var data;
    keys, data := Group(regions, rule);
    totals, output := [], [];
    for j := 0 to |keys|
      invariant totals == Totals(regions, rule, keys[..j], isSorted)
      invariant output == Printed(regions, rule, keys[..j], isSorted)
      invariant Sum(totals) == TotalWeight(output)
    {
      totals, output := ResolveKey(regions, rule, isSorted, keys, j, data[keys[j]], totals, output);
    }
    assert keys[..|keys|] == keys;
    OutputFromInput(regions, rule, isSorted);
  }
}
