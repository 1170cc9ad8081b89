/** The cost-age-times policy: a line's score is vpc / (ipc * age), where the age is a staircase function of the time
    since a page of the line was last invalidated. */
module CatPolicy {
  import opened Arith
  import opened Fractions
  import PQueue

  const MAX32: nat := 0xFFFF_FFFF

  datatype CatParam = CatParam(k: nat, thresholdNs: seq<nat>, ageValue: seq<nat>) {
    ghost predicate Ok() {
      && 2 <= k <= 10 && |thresholdNs| == 9 && |ageValue| == 10
      && (forall i :: 0 <= i < k ==> 1 <= ageValue[i] <= MAX32)
    }

    /** Stairs go up: later thresholds are higher and so are the values beyond them. */
    ghost predicate Climbs()
      requires Ok()
    {
      && (forall i, j :: 0 <= i < j < k - 1 ==> thresholdNs[i] < thresholdNs[j])
      && (forall i, j :: 0 <= i < j < k ==> ageValue[i] <= ageValue[j])
    }

    /** The first step from `i` on whose threshold exceeds the age, or the last step. */
    ghost function StepFrom(age: nat, i: nat): (r: nat)
      requires Ok() && i < k
      ensures i <= r < k
      ensures r < k - 1 ==> age < thresholdNs[r]
      ensures forall j :: i <= j < r ==> thresholdNs[j] <= age
      decreases k - i
    {
      if i + 1 < k && age >= thresholdNs[i] then StepFrom(age, i + 1) else i
    }

    /** A line never invalidated, or one stamped in the future, counts as young. */
    ghost function AgeOf(stamp: nat, now: nat): (r: nat)
      requires Ok()
      ensures 1 <= r <= MAX32
    {
      if stamp == 0 || now < stamp then ageValue[0] else ageValue[StepFrom(now - stamp, 0)]
    }
  }

  method TransformAge(p: CatParam, stamp: nat, now: nat) returns (a: nat)
    requires p.Ok()
    ensures a == p.AgeOf(stamp, now)
  {
    if stamp == 0 || now < stamp {
      return p.ageValue[0];
    }
    var age := now - stamp;
    var i := 0;
    while i + 1 < p.k
      invariant 0 <= i < p.k
      invariant p.StepFrom(age, 0) == p.StepFrom(age, i)
    {
      if age < p.thresholdNs[i] {
        return p.ageValue[i];
      }
      i := i + 1;
    }
    return p.ageValue[p.k - 1];
  }

  lemma {:induction false} StepMonotone(p: CatParam, a0: nat, a1: nat, i: nat)
    requires p.Ok() && i < p.k && a0 <= a1
    ensures p.StepFrom(a0, i) <= p.StepFrom(a1, i)
    decreases p.k - i
  {
    if i + 1 < p.k && a0 >= p.thresholdNs[i] {
      StepMonotone(p, a0, a1, i + 1);
    }
  }

  /** On a climbing staircase waiting never lowers a line's age value. */
  lemma AgeMonotone(p: CatParam, stamp: nat, t0: nat, t1: nat)
    requires p.Ok() && p.Climbs() && t0 <= t1
    ensures p.AgeOf(stamp, t0) <= p.AgeOf(stamp, t1)
  {
    if stamp != 0 && stamp <= t0 {
      StepMonotone(p, t0 - stamp, t1 - stamp, 0);
    }
  }

  /** The age value is that of the step whose threshold is the first above the waiting time, whatever the time of day.
      */
  lemma {:induction false} StepIs(p: CatParam, age: nat, i: nat, from: nat)
    requires p.Ok() && from <= i < p.k
    requires (forall j :: from <= j < i ==> p.thresholdNs[j] <= age) && (i + 1 < p.k ==> age < p.thresholdNs[i])
    ensures p.StepFrom(age, from) == i
    decreases i - from
  {
    if from < i {
      StepIs(p, age, i, from + 1);
    }
  }

  /** A line that has waited from one threshold on, but not yet up to the next, has the value between them. */
  lemma AgeExact(p: CatParam, stamp: nat, now: nat, i: nat)
    requires p.Ok() && p.Climbs() && 0 < stamp <= now && i < p.k
    requires (i > 0 ==> stamp + p.thresholdNs[i - 1] <= now) && (i + 1 < p.k ==> now < stamp + p.thresholdNs[i])
    ensures p.AgeOf(stamp, now) == p.ageValue[i]
  {
    StepIs(p, now - stamp, i, 0);
  }

  /** A line never invalidated, or stamped later than now, has the first value. */
  lemma AgeYoung(p: CatParam, stamp: nat, now: nat)
    requires p.Ok() && (stamp == 0 || now < stamp)
    ensures p.AgeOf(stamp, now) == p.ageValue[0]
  {
  }

  /** Of two lines the one invalidated earlier never has the lower age value. */
  lemma OlderStamp(p: CatParam, s0: nat, s1: nat, now: nat)
    requires p.Ok() && p.Climbs() && 0 < s0 <= s1
    ensures p.AgeOf(s1, now) <= p.AgeOf(s0, now)
  {
    if s1 <= now {
      StepMonotone(p, now - s1, now - s0, 0);
    }
  }

  /** Only the time since the stamp counts. */
  lemma AgeShift(p: CatParam, stamp: nat, now: nat, d: nat)
    requires p.Ok() && stamp > 0
    ensures p.AgeOf(stamp + d, now + d) == p.AgeOf(stamp, now)
  {
  }

  // ---------- The order of lines ----------

  /** The denominator of a line's score: its invalid pages, weighted by its age value. */
  ghost function Weight(p: CatParam, c: PQueue.Line, now: nat): nat
    requires p.Ok()
  {
    c.ipc * p.AgeOf(c.stamp, now)
  }

  /** Candidate line `i` comes before line `j`: a lower score, or the lower number on equal scores. */
  ghost predicate Better(p: CatParam, lines: seq<PQueue.Line>, i: nat, j: nat, now: nat)
    requires p.Ok() && i < |lines| && j < |lines|
  {
    var c := Cmp(lines[i].vpc, Weight(p, lines[i], now), lines[j].vpc, Weight(p, lines[j], now));
    c < 0 || (c == 0 && i < j)
  }

  /** A line with no more valid pages, no fewer invalid ones, and no later an invalidation is never the worse choice,
      and with fewer valid pages it is the better one. */
  lemma PrefersOld(p: CatParam, lines: seq<PQueue.Line>, i: nat, j: nat, now: nat)
    requires p.Ok() && p.Climbs() && i < |lines| && j < |lines|
    requires lines[i].vpc <= lines[j].vpc && lines[i].ipc >= lines[j].ipc > 0
    requires 0 < lines[i].stamp <= lines[j].stamp
    ensures Better(p, lines, j, i, now) ==> j < i
    ensures lines[i].vpc < lines[j].vpc ==> Better(p, lines, i, j, now)
  {
    hide CatParam.AgeOf;
    var wi, wj := Weight(p, lines[i], now), Weight(p, lines[j], now);
    OlderStamp(p, lines[i].stamp, lines[j].stamp, now);
    WeightPositive(p, lines[j], now);
    WeightLe(lines[j].ipc, lines[i].ipc, p.AgeOf(lines[j].stamp, now), p.AgeOf(lines[i].stamp, now));
    WeightLe(lines[i].vpc, lines[j].vpc, wj, wi);
    if lines[i].vpc < lines[j].vpc {
      MulLt(lines[i].vpc, lines[j].vpc, wj);
      MulLe(wj, wi, lines[j].vpc);
    }
  }

  lemma WeightLe(a: nat, b: nat, c: nat, d: nat)
    requires a <= b && c <= d
    ensures a * c <= b * d
  {
    MulLe(a, b, c);
    MulLe(c, d, b);
  }

  lemma WeightPositive(p: CatParam, c: PQueue.Line, now: nat)
    requires p.Ok() && c.ipc > 0
    ensures Weight(p, c, now) > 0
    ensures c.ipc <= MAX32 ==> Weight(p, c, now) <= MAX64
  {
    var a := p.AgeOf(c.stamp, now);
    MulLt(0, c.ipc, a);
    if c.ipc <= MAX32 {
      MulLe(c.ipc, MAX32, a);
      MulLe(a, MAX32, MAX32);
    }
  }

  lemma BetterTransitive(p: CatParam, lines: seq<PQueue.Line>, i: nat, j: nat, k: nat, now: nat)
    requires p.Ok() && i < |lines| && j < |lines| && k < |lines|
    requires lines[i].ipc > 0 && lines[j].ipc > 0 && lines[k].ipc > 0
    requires Better(p, lines, i, j, now) && Better(p, lines, j, k, now)
    ensures Better(p, lines, i, k, now)
  {
    WeightPositive(p, lines[i], now);
    WeightPositive(p, lines[j], now);
    WeightPositive(p, lines[k], now);
    CmpTransitive(lines[i].vpc, Weight(p, lines[i], now), lines[j].vpc, Weight(p, lines[j], now),
                  lines[k].vpc, Weight(p, lines[k], now));
  }

  lemma BetterTotal(p: CatParam, lines: seq<PQueue.Line>, i: nat, j: nat, now: nat)
    requires p.Ok() && i < |lines| && j < |lines| && i != j
    ensures Better(p, lines, i, j, now) <==> !Better(p, lines, j, i, now)
  {
    CmpAntisymmetric(lines[i].vpc, Weight(p, lines[i], now), lines[j].vpc, Weight(p, lines[j], now));
  }

  method LineIsBetter(p: CatParam, lines: seq<PQueue.Line>, i: nat, j: nat, now: nat) returns (b: bool)
    requires p.Ok() && i < |lines| && j < |lines|
    requires 0 < lines[i].ipc <= MAX32 && 0 < lines[j].ipc <= MAX32
    requires lines[i].vpc <= MAX64 && lines[j].vpc <= MAX64
    ensures b == Better(p, lines, i, j, now)
    ensures b <==>
            var x, y := lines[i].vpc * (lines[j].ipc * p.AgeOf(lines[j].stamp, now)),
                        lines[j].vpc * (lines[i].ipc * p.AgeOf(lines[i].stamp, now));
            x < y || (x == y && i < j)
  {
    hide CatParam.AgeOf, Cmp;
    WeightPositive(p, lines[i], now);
    WeightPositive(p, lines[j], now);
    var ai := TransformAge(p, lines[i].stamp, now);
    var aj := TransformAge(p, lines[j].stamp, now);
    var cmp := FractionCmp(lines[i].vpc, lines[i].ipc * ai, lines[j].vpc, lines[j].ipc * aj);
    return cmp < 0 || (cmp == 0 && i < j);
  }
}
