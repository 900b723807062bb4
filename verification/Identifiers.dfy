/** Handle numbers drawn from a wrapping 64-bit counter that skips zero and the numbers in use. */
module Identifiers {
  const MODULUS: nat := 0x1_0000_0000_0000_0000

  /** The value of the counter after `draws` draws; it starts at one. */
  function IdAt(draws: nat): nat {
    (1 + draws) % MODULUS
  }

  predicate IsTaken(id: nat, taken: set<nat>) {
    id == 0 || id in taken
  }

  predicate AllTaken(start: nat, end: nat, taken: set<nat>) {
    forall d | start <= d < end :: IsTaken(IdAt(d), taken)
  }

  /** Draws less than a whole round apart give different numbers. */
  lemma DrawsDiffer(a: nat, b: nat)
    requires a < b < a + MODULUS
    ensures IdAt(a) != IdAt(b)
  {
    var qa, qb := (1 + a) / MODULUS, (1 + b) / MODULUS;
    assert IdAt(b) - IdAt(a) == (b - a) - MODULUS * (qb - qa);
    if qb <= qa {
      assert MODULUS * (qb - qa) <= 0;
    } else {
      assert MODULUS * (qb - qa) >= MODULUS;
    }
  }

  lemma {:induction false} SubsetSize(a: set<nat>, b: set<nat>)
    requires a <= b
    ensures |a| <= |b|
  {
    if a != {} {
      var x :| x in a;
      SubsetSize(a - {x}, b - {x});
    }
  }

  function Drawn(start: nat, end: nat): set<nat>
    requires start <= end
  {
    if start == end then {} else Drawn(start, end - 1) + {IdAt(end - 1)}
  }

  lemma {:induction false} DrawnIsNew(start: nat, end: nat, draw: nat)
    requires start <= end <= draw < start + MODULUS
    ensures IdAt(draw) !in Drawn(start, end)
  {
    hide IdAt;
    if start < end {
      DrawnIsNew(start, end - 1, draw);
      DrawsDiffer(end - 1, draw);
    }
  }

  lemma {:induction false} DrawnSize(start: nat, end: nat, taken: set<nat>)
    requires start <= end <= start + MODULUS && AllTaken(start, end, taken)
    ensures |Drawn(start, end)| == end - start && Drawn(start, end) <= taken + {0}
  {
    hide IdAt;
    if start < end {
      DrawnSize(start, end - 1, taken);
      DrawnIsNew(start, end - 1, end - 1);
      assert IsTaken(IdAt(end - 1), taken);
    }
  }

  /** No more numbers are skipped than are in use, and zero. */
  lemma SkipsAreFew(start: nat, end: nat, taken: set<nat>)
    requires start <= end <= start + MODULUS && AllTaken(start, end, taken)
    ensures end - start <= |taken| + 1
  {
    hide IdAt;
    DrawnSize(start, end, taken);
    SubsetSize(Drawn(start, end), taken + {0});
  }

  /** The first draw from `start` on whose number is free; those before `at` are known to be taken. */
  function FirstFree(start: nat, at: nat, taken: set<nat>): (draw: nat)
    requires |taken| + 1 < MODULUS && start <= at <= start + |taken| + 1 && AllTaken(start, at, taken)
    ensures at <= draw <= start + |taken| + 1 && !IsTaken(IdAt(draw), taken) && AllTaken(start, draw, taken)
    decreases start + |taken| + 2 - at
  {
    hide IdAt;
    if !IsTaken(IdAt(at), taken) then at
    else
      SkipsAreFew(start, at + 1, taken);
      FirstFree(start, at + 1, taken)
  }

  /** The loop that draws until a number is free; it ends because fewer numbers are in use than exist. */
  method DrawId(start: nat, taken: set<nat>) returns (id: nat, draws: nat)
    requires |taken| + 1 < MODULUS
    ensures draws == FirstFree(start, start, taken) + 1 && id == IdAt(draws - 1)
    ensures id != 0 && id !in taken
  {
    hide IdAt;
    draws := start;
    id := IdAt(draws);
    draws := draws + 1;
    while id == 0 || id in taken
      invariant start < draws <= start + |taken| + 2 && id == IdAt(draws - 1)
      invariant AllTaken(start, draws - 1, taken)
      invariant FirstFree(start, start, taken) == FirstFree(start, draws - 1, taken)
      decreases start + |taken| + 3 - draws
    {
      SkipsAreFew(start, draws, taken);
      id := IdAt(draws);
      draws := draws + 1;
    }
  }

  /** The numbers of some draws. */
  function Ids(draws: seq<nat>): (ids: seq<nat>)
    ensures |ids| == |draws|
  {
    seq(|draws|, k requires 0 <= k < |draws| => IdAt(draws[k]))
  }

  /** Draws of one round have different numbers. */
  lemma {:induction false} DistinctIds(draws: seq<nat>, bound: nat, id: nat)
    requires bound <= MODULUS && forall k | 0 <= k < |draws| :: draws[k] < bound
    requires forall j, k | 0 <= j < k < |draws| :: draws[j] < draws[k]
    ensures multiset(Ids(draws))[id] <= 1
  {
    hide IdAt;
    if draws != [] {
      var last := draws[|draws| - 1];
      var front := draws[..|draws| - 1];
      assert Ids(draws) == Ids(front) + [IdAt(last)];
      DistinctIds(front, bound, id);
      if id == IdAt(last) {
        forall k | 0 <= k < |front|
          ensures Ids(front)[k] != id
        {
          DrawsDiffer(front[k], last);
        }
        assert id !in Ids(front);
      }
    }
  }

  lemma KeyRemoved<V>(m: map<nat, V>, k: nat)
    requires k in m
    ensures |m - {k}| + 1 == |m| && (m - {k}).Keys == m.Keys - {k}
    ensures multiset(m.Keys) == multiset((m - {k}).Keys) + multiset{k}
  {
    assert (m - {k}).Keys == m.Keys - {k};
    assert |(m - {k}).Keys| == |m.Keys| - 1;
  }

  lemma KeyAdded<V>(m: map<nat, V>, k: nat, v: V)
    requires k !in m
    ensures |m[k := v]| == |m| + 1 && m[k := v].Keys == m.Keys + {k}
    ensures multiset(m[k := v].Keys) == multiset(m.Keys) + multiset{k}
  {
    assert m[k := v].Keys == m.Keys + {k};
    assert |m[k := v].Keys| == |m.Keys| + 1;
  }
}
