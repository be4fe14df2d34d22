/** Paths of a machine given by a partial step function. */
module Paths {
  import opened Frames

  /** Steps ls lead from s to t. */
  ghost predicate Leads<S(!new), L(!new)>(step: (S, L) -> Option<S>, s: S, ls: seq<L>, t: S)
    decreases |ls|
  {
    if |ls| == 0 then s == t else step(s, ls[0]).Some? && Leads(step, step(s, ls[0]).value, ls[1..], t)
  }

  lemma LeadsOne<S(!new), L(!new)>(step: (S, L) -> Option<S>, s: S, l: L)
    requires step(s, l).Some?
    ensures Leads(step, s, [l], step(s, l).value)
  {
    assert [l][1..] == [];
  }

  lemma {:induction false} LeadsOn<S(!new), L(!new)>(step: (S, L) -> Option<S>, s: S, ls: seq<L>, t: S,
      more: seq<L>, u: S)
    requires Leads(step, s, ls, t) && Leads(step, t, more, u)
    ensures Leads(step, s, ls + more, u)
    decreases |ls|
  {
    if |ls| == 0 {
      assert ls + more == more;
    } else {
      LeadsOn(step, step(s, ls[0]).value, ls[1..], t, more, u);
      assert (ls + more)[1..] == ls[1..] + more;
    }
  }
}
