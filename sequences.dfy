/** The partial solution of the scheduler: the regions chosen so far, their
    total score, and the finish of the last one (0 for the empty solution).
    Values are never updated: extending a solution builds a new one. */
module Sequences {
  import opened Regions

  datatype Sequence = Sequence(weight: int, finish: int, regs: seq<Region>)

  /** The solution that chooses nothing. */
  const Empty := Sequence(0, 0, [])

  /** The score is the sum of the chosen regions' scores and `finish` is the
      last chosen region's finish (0 when nothing is chosen). */
  predicate Consistent(s: Sequence) {
    && s.weight == TotalWeight(s.regs)
    && s.finish == (if s.regs == [] then 0 else s.regs[|s.regs| - 1].finish)
  }

  /** Extends `s` by `r`: the score grows by `r`'s score, the finish becomes
      `r`'s, and `r` is appended after the regions of `s`. */
  function Add(s: Sequence, r: Region): (t: Sequence)
    ensures t.weight == s.weight + r.weight && t.finish == r.finish
    ensures t.regs == s.regs + [r]
    ensures Consistent(s) ==> Consistent(t)
    ensures Consistent(s) && Chain(s.regs) && (s.regs == [] || s.finish < r.start) ==> Chain(t.regs)
  {
    var regs := s.regs + [r];
    assert regs[..|regs| - 1] == s.regs;
    Sequence(s.weight + r.weight, r.finish, regs)
  }

  /** `a` ranks above `b` exactly when its score is strictly greater. */
  predicate Gt(a: Sequence, b: Sequence) {
    a.weight > b.weight
  }

  /** The larger of two solutions, as the host language's two-argument maximum
      picks it: the second replaces the first only when it ranks strictly above
      it, so on equal scores the first (the one without the new region) wins. */
  function Max(a: Sequence, b: Sequence): (r: Sequence)
    ensures r == a || r == b
    ensures r.weight >= a.weight && r.weight >= b.weight
    ensures b.weight <= a.weight ==> r == a
  {
    if Gt(b, a) then b else a
  }
}
