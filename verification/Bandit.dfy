/** What the tuner's bookkeeping promises over whole runs, on the values of its tables: balanced coverage, fair probing
    and bounded discounted counts. */
module Bandit {
  import opened Util
  import opened FixedPoint

  const ARMS: nat := 60
  const MIN_VISITS: nat := 3
  const COVERAGE: nat := 180
  const PROBE_EVERY: nat := 8

  // ---------- Sums ----------

  lemma {:induction false} SumBounds(s: seq<nat>, lo: nat, hi: nat)
    requires forall i :: 0 <= i < |s| ==> lo <= s[i] <= hi
    ensures |s| * lo <= Sum(s) <= |s| * hi
  {
    if s != [] {
      SumBounds(s[1..], lo, hi);
      assert |s| * lo == |s[1..]| * lo + lo && |s| * hi == |s[1..]| * hi + hi;
    }
  }

  /** A sum at its lower bound has every term at the bound. */
  lemma SumTight(s: seq<nat>, lo: nat, i: nat)
    requires i < |s| && forall k :: 0 <= k < |s| ==> lo <= s[k]
    requires Sum(s) == |s| * lo
    ensures s[i] == lo
  {
    var t := s[i := lo];
    SumUpdate(s, i, lo);
    SumLower(t, lo);
  }

  lemma {:induction false} SumLower(s: seq<nat>, lo: nat)
    requires forall i :: 0 <= i < |s| ==> lo <= s[i]
    ensures |s| * lo <= Sum(s)
  {
    if s != [] {
      SumLower(s[1..], lo);
      assert |s| * lo == |s[1..]| * lo + lo;
    }
  }

  // ---------- Balanced coverage ----------

  ghost predicate Covered(visits: seq<nat>) {
    forall i :: 0 <= i < |visits| ==> visits[i] >= 3
  }

  ghost predicate LeastVisited(visits: seq<nat>, c: nat) {
    c < |visits| && forall i :: 0 <= i < |visits| ==> visits[c] <= visits[i]
  }

  /** Any two arms have been visited equally often, up to one visit. */
  ghost predicate Balanced(visits: seq<nat>) {
    forall i, j :: 0 <= i < |visits| && 0 <= j < |visits| ==> visits[i] <= visits[j] + 1
  }

  /** The epoch so far: visits add up to the windows; until coverage they are balanced and the arm under observation
      is one of the least visited; coverage is reached with the hundred-and-eightieth window. */
  ghost predicate EpochOk(visits: seq<nat>, epochWindows: nat, current: nat) {
    && |visits| == ARMS && current < ARMS
    && Sum(visits) == epochWindows
    && (Covered(visits) <==> epochWindows >= COVERAGE)
    && (!Covered(visits) ==> Balanced(visits) && LeastVisited(visits, current))
    && (epochWindows == 180 ==> forall i :: 0 <= i < ARMS ==> visits[i] == 3)
  }

  lemma EpochStart(visits: seq<nat>, current: nat)
    requires |visits| == ARMS && current < ARMS
    requires forall i :: 0 <= i < ARMS ==> visits[i] == 0
    ensures EpochOk(visits, 0, current)
  {
    SumZero(visits);
    assert visits[0] < MIN_VISITS;
  }

  /** Observing a least visited arm of a balanced epoch. */
  lemma ObserveBalanced(visits: seq<nat>, w: nat, current: nat)
    requires EpochOk(visits, w, current) && !Covered(visits)
    ensures var v := visits[current := visits[current] + 1];
            && Sum(v) == w + 1 && Balanced(v)
            && (Covered(v) <==> w + 1 >= COVERAGE)
            && (Covered(v) ==> w + 1 == 180 && forall i :: 0 <= i < ARMS ==> v[i] == 3)
  {
    var v := visits[current := visits[current] + 1];
    SumUpdate(visits, current, visits[current] + 1);
    if Covered(v) {
      SumLower(v, MIN_VISITS);
      forall i | 0 <= i < ARMS
        ensures v[i] == MIN_VISITS
      {
        SumTight(v, MIN_VISITS, i);
      }
    } else {
      var i :| 0 <= i < ARMS && v[i] < MIN_VISITS;
      SumUpdate(v, i, MIN_VISITS);
      SumBounds(v[i := MIN_VISITS], 0, MIN_VISITS);
    }
  }

  /** One accepted window in an epoch, with the arm that is observed next. */
  lemma EpochStep(visits: seq<nat>, w: nat, current: nat, next: nat)
    requires EpochOk(visits, w, current) && next < ARMS
    requires var v := visits[current := visits[current] + 1]; !Covered(v) ==> LeastVisited(v, next)
    ensures EpochOk(visits[current := visits[current] + 1], w + 1, next)
  {
    var v := visits[current := visits[current] + 1];
    if Covered(visits) {
      SumUpdate(visits, current, visits[current] + 1);
      assert Covered(v);
    } else {
      ObserveBalanced(visits, w, current);
    }
  }

  // ---------- Probe fairness ----------

  /** Arm `i` was last observed before arm `j`; equal times are ordered by number. */
  ghost predicate Older(last: seq<nat>, i: nat, j: nat)
    requires i < |last| && j < |last|
  {
    last[i] < last[j] || (last[i] == last[j] && i < j)
  }

  ghost predicate IsOldest(last: seq<nat>, omit: int, o: nat) {
    && o < |last| && o != omit
    && forall i :: 0 <= i < |last| && i != omit && i != o ==> Older(last, o, i)
  }

  /** The part of the tuner that decides which arm a settled tuner observes. */
  datatype Probing = Probing(last: seq<nat>, windows: nat, current: nat, best: nat, exploit: nat) {
    ghost predicate Ok() {
      && |last| == ARMS && current < ARMS && best < ARMS && exploit < PROBE_EVERY
      && (forall i :: 0 <= i < ARMS ==> last[i] <= windows)
      && (current == best || (IsOldest(last, best, current) && exploit == 0))
    }

    /** The other arms that would be probed before arm `a`. */
    ghost function Ahead(a: nat): set<nat>
      requires a < |last|
    {
      set i: nat | i < |last| && i != best && Older(last, i, a)
    }

    /** Windows until the next probe has been observed. */
    ghost function Wait(): nat
      requires exploit < PROBE_EVERY
    {
      if current != best then 1 else PROBE_EVERY + 1 - exploit
    }

    /** Windows until arm `a` has been observed, if the tuner stays settled. */
    ghost function Due(a: nat): nat
      requires a < |last| && exploit < PROBE_EVERY
    {
      (PROBE_EVERY + 1) * |Ahead(a)| + Wait()
    }
  }

  /** One accepted window of a tuner that stays settled on the same arm. */
  ghost predicate SettledStep(p: Probing, q: Probing) {
    && p.Ok() && |q.last| == ARMS
    && q.windows == p.windows + 1 && q.last == p.last[p.current := q.windows] && q.best == p.best
    && if p.current != p.best then q.current == p.best && q.exploit == 0
       else if p.exploit + 1 >= PROBE_EVERY then IsOldest(q.last, p.best, q.current) && q.exploit == 0
       else q.current == p.best && q.exploit == p.exploit + 1
  }

  lemma SettledStepOk(p: Probing, q: Probing)
    requires SettledStep(p, q)
    ensures q.Ok()
  {
  }

  lemma AheadBound(p: Probing, a: nat)
    requires p.Ok() && a < ARMS && a != p.best
    ensures |p.Ahead(a)| <= ARMS - 2
    ensures 1 <= p.Due(a) <= (PROBE_EVERY + 1) * (ARMS - 1)
  {
    var s := p.Ahead(a) + {a, p.best};
    BelowSize(s, ARMS);
    assert |s| == |p.Ahead(a)| + 2;
  }

  /** Every window brings an arm that is not being observed exactly one window closer to its turn. */
  lemma DueDecreases(p: Probing, q: Probing, a: nat)
    requires SettledStep(p, q) && a < ARMS && a != p.best && a != p.current
    ensures q.Due(a) == p.Due(a) - 1
  {
    if p.current == p.best {
      assert q.Ahead(a) == p.Ahead(a);
    } else {
      assert p.current in p.Ahead(a);
      assert q.Ahead(a) == p.Ahead(a) - {p.current};
    }
  }

  /** A stretch of accepted windows in which the tuner stays settled. */
  ghost predicate SettledRun(ps: seq<Probing>) {
    && ps != [] && ps[0].Ok()
    && forall i :: 0 <= i < |ps| - 1 ==> SettledStep(ps[i], ps[i + 1])
  }

  lemma {:induction false} SettledRunDue(ps: seq<Probing>, a: nat, n: nat)
    requires SettledRun(ps) && n < |ps| && a < ARMS && a != ps[0].best
    requires forall k :: 0 <= k < n ==> ps[k].current != a
    ensures ps[n].Ok() && ps[n].best == ps[0].best && ps[n].Due(a) == ps[0].Due(a) - n
  {
    if n > 0 {
      SettledRunDue(ps, a, n - 1);
      assert SettledStep(ps[n - 1], ps[n - 1 + 1]);
      SettledStepOk(ps[n - 1], ps[n]);
      DueDecreases(ps[n - 1], ps[n], a);
    }
  }

  /** While the tuner stays settled, every arm but the incumbent is observed at least once in any 531 consecutive
      accepted windows. */
  lemma ProbeFairness(ps: seq<Probing>, a: nat)
    requires SettledRun(ps) && |ps| > (PROBE_EVERY + 1) * (ARMS - 1) == 531
    requires a < ARMS && a != ps[0].best
    ensures exists k :: 0 <= k < 531 && ps[k].current == a
  {
    AheadBound(ps[0], a);
    var n := ps[0].Due(a);
    if forall k :: 0 <= k < 531 ==> ps[k].current != a {
      SettledRunDue(ps, a, n);
    }
  }

  // ---------- Bounded counts ----------

  /** The fixed point of discounting and adding one observation. */
  const COUNT_BOUND: nat := 130150524

  ghost function Discounted(s: seq<nat>): (r: seq<nat>)
    ensures |r| == |s| && forall i :: 0 <= i < |s| ==> r[i] == Discount(s[i])
  {
    seq(|s|, i requires 0 <= i < |s| => Discount(s[i]))
  }

  lemma {:induction false} SumDiscounted(s: seq<nat>)
    ensures Sum(Discounted(s)) * ONE <= Sum(s) * GAMMA
  {
    if s != [] {
      assert Discounted(s)[1..] == Discounted(s[1..]);
      SumDiscounted(s[1..]);
      DiscountExact(s[0]);
    }
  }

  /** Discounting every arm and adding one observation to one of them keeps the total below the bound. */
  lemma CountsBounded(s: seq<nat>, c: nat)
    requires Sum(s) <= COUNT_BOUND && c < |s|
    ensures Sum(Discounted(s)[c := Discounted(s)[c] + ONE]) <= COUNT_BOUND
  {
    SumDiscounted(s);
    var t := Discounted(s);
    SumUpdate(t, c, t[c] + ONE);
  }

  lemma {:induction false} SumMember(s: seq<nat>, i: nat)
    requires i < |s|
    ensures s[i] <= Sum(s)
  {
    if i > 0 {
      SumMember(s[1..], i - 1);
    }
  }
}
