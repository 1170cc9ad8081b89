/** The online GC tuner: a discounted bandit over sixty staircase settings, observed in windows of host writes. */
module Tuner {
  import opened Util
  import opened Arith
  import opened Fractions
  import opened FixedPoint
  import opened Bandit
  import opened CatPolicy
  import opened Sampling
  import Arms

  const INITIAL_ARM: nat := 37
  const STALE_WINDOWS: nat := 240
  const STABLE_WINDOWS: nat := 12
  const BEST_CONFIRMATIONS: nat := 3
  const TOLERANCE: nat := 328
  const DRIFT: nat := 8192
  const DRIFT_WINDOWS: nat := 3
  const UCB_C: nat := 16384

  /** What is kept per setting: discounted page sums and sample count in Q16, visits, and the last window. */
  datatype Arm = Arm(host: nat, gc: nat, count: nat, visits: nat, last: nat) {
    ghost predicate Fits() {
      host <= MAX64 && gc <= MAX64 && count <= MAX64 && visits <= MAX64 && last <= MAX64
    }

    /** The write amplification the arm's sums stand for, where it can be expressed. */
    ghost function Mean(): Option<nat> {
      if host > 0 && Quot(gc, host) < 65535 then Some(Waf(host, gc)) else None
    }
  }

  /** The mean is 1 plus GC pages over host pages, in 65536 parts and rounded down; an arm has one exactly if it has
      host pages and the result is below 65536. */
  lemma MeanMeans(a: Arm)
    ensures a.Mean().Some? <==> a.gc < 65535 * a.host
    ensures a.Mean().Some? ==>
              var m := a.Mean().value; (m - 65536) * a.host <= a.gc * 65536 < (m - 65536 + 1) * a.host
  {
    if a.host > 0 {
      FixedPoint.WafBounds(a.host, a.gc);
      Divides(a.gc, a.host);
      if a.gc / a.host >= 65535 {
        MulLe(65535, a.gc / a.host, a.host);
      } else {
        MulLe(a.gc / a.host + 1, 65535, a.host);
      }
    }
  }

  ghost function Visits(arms: seq<Arm>): (r: seq<nat>)
    ensures |r| == |arms| && forall i :: 0 <= i < |arms| ==> r[i] == arms[i].visits
  {
    seq(|arms|, i requires 0 <= i < |arms| => arms[i].visits)
  }

  ghost function Lasts(arms: seq<Arm>): (r: seq<nat>)
    ensures |r| == |arms| && forall i :: 0 <= i < |arms| ==> r[i] == arms[i].last
  {
    seq(|arms|, i requires 0 <= i < |arms| => arms[i].last)
  }

  ghost function Counts(arms: seq<Arm>): (r: seq<nat>)
    ensures |r| == |arms| && forall i :: 0 <= i < |arms| ==> r[i] == arms[i].count
  {
    seq(|arms|, i requires 0 <= i < |arms| => arms[i].count)
  }

  // ---------- The incumbent ----------

  /** An arm that can lead: observed, with a mean below the largest 32-bit number. */
  ghost predicate Rated(a: Arm) {
    a.visits > 0 && a.Mean().Some? && a.Mean().value < MAX32
  }

  /** The arm with the least mean; the lowest number on ties. */
  ghost predicate Leader(arms: seq<Arm>, c: nat) {
    && c < |arms| && Rated(arms[c])
    && forall i :: 0 <= i < |arms| && i != c && Rated(arms[i]) ==>
         arms[c].Mean().value < arms[i].Mean().value || (arms[c].Mean().value == arms[i].Mean().value && c < i)
  }

  /** A challenger replaces the incumbent only when it is better by more than the tolerance. */
  ghost predicate Replaces(arms: seq<Arm>, best: nat, c: nat)
    requires best < |arms| && Leader(arms, c)
  {
    c != best
    && (arms[best].Mean().Some? ==>
          var i, m := arms[best].Mean().value, arms[c].Mean().value;
          i > m && (i - m) * ONE > i * TOLERANCE)
  }

  /** An incumbent that stays is within half a percent of every rated arm. */
  lemma KeptIsClose(arms: seq<Arm>, best: nat, c: nat, i: nat)
    requires best < |arms| && i < |arms| && Leader(arms, c) && !Replaces(arms, best, c)
    requires arms[best].Mean().Some? && Rated(arms[i])
    ensures arms[best].Mean().value * 65208 <= arms[i].Mean().value * 65536
  {
    hide Waf, Quot;
  }

  /** An incumbent that goes is beaten by more than half a percent, and no rated arm beats the one that comes. */
  lemma ReplacedByBetter(arms: seq<Arm>, best: nat, c: nat, i: nat)
    requires best < |arms| && i < |arms| && Leader(arms, c) && Replaces(arms, best, c) && Rated(arms[i])
    ensures arms[best].Mean().Some? ==> arms[c].Mean().value * 65536 < arms[best].Mean().value * 65208
    ensures arms[c].Mean().value <= arms[i].Mean().value
  {
    hide Waf, Quot;
  }

  /** The leader among the first `n` arms, if there is one. */
  method FindLeader(arm: array<Arm>, best: nat) returns (c: nat, minimum: nat)
    requires best < arm.Length && forall i :: 0 <= i < arm.Length ==> arm[i].Fits()
    ensures c < arm.Length && minimum <= MAX32
    ensures minimum == MAX32 ==> c == best && forall i :: 0 <= i < arm.Length ==> !Rated(arm[i])
    ensures minimum < MAX32 ==> Leader(arm[..], c) && minimum == arm[c].Mean().value
  {
    hide Waf, Quot;
    c, minimum := best, MAX32;
    var i: nat := 0;
    while i < arm.Length
      invariant i <= arm.Length && c < arm.Length && minimum <= MAX32
      invariant minimum == MAX32 ==> c == best && forall k :: 0 <= k < i ==> !Rated(arm[k])
      invariant minimum < MAX32 ==> c < i && Rated(arm[c]) && minimum == arm[c].Mean().value
      invariant minimum < MAX32 ==> forall k :: 0 <= k < i && k != c && Rated(arm[k]) ==>
                  minimum < arm[k].Mean().value || (minimum == arm[k].Mean().value && c < k)
    {
      var ok, mean := WafQ16(arm[i].host, arm[i].gc);
      if arm[i].visits != 0 && ok {
        if mean < minimum {
          minimum, c := mean, i;
        }
      }
      i := i + 1;
    }
  }

  // ---------- Exploration ----------

  ghost function IntSqrt(v: nat): (r: nat)
    ensures r * r <= v < (r + 1) * (r + 1)
  {
    if v == 0 then 0
    else
      var r := IntSqrt(v - 1);
      if (r + 1) * (r + 1) <= v then
        NextSquare(r);
        r + 1
      else r
  }

  lemma NextSquare(r: nat)
    ensures (r + 2) * (r + 2) >= (r + 1) * (r + 1) + 2
  {
  }

  lemma SqrtUnique(v: nat, a: nat, b: nat)
    requires a * a <= v < (a + 1) * (a + 1)
    requires b * b <= v < (b + 1) * (b + 1)
    ensures a == b
  {
    if a < b {
      FixedPoint.MulMono(a + 1, b);
    } else if b < a {
      FixedPoint.MulMono(b + 1, a);
    }
  }

  ghost function Ratio(total: nat, count: nat): nat
    requires count > 0
  {
    2 * Log(total) * ONE / count
  }

  /** The confidence bonus of an arm with `count` when all arms together have `total`. */
  ghost function Bonus(total: nat, count: nat): nat
    requires count > 0
  {
    UCB_C * IntSqrt(Ratio(total, count) * ONE) / ONE
  }

  lemma LogOfBound()
    ensures Log(COUNT_BOUND) <= 11 * LN2
  {
    hide Series;
    var c10 := COUNT_BOUND / 2 / 2 / 2 / 2 / 2 / 2 / 2 / 2 / 2 / 2;
    assert c10 == 127100;
    LogStep(COUNT_BOUND);
    LogStep(65075262);
    LogStep(32537631);
    LogStep(16268815);
    LogStep(8134407);
    LogStep(4067203);
    LogStep(2033601);
    LogStep(1016800);
    LogStep(508400);
    LogStep(254200);
    LogLarge(127100);
  }

  lemma LogStep(c: nat)
    requires c >= 2 * ONE
    ensures Log(c) == LN2 + Log(c / 2)
  {
  }

  /** With bounded counts no step of the confidence bonus leaves the 64-bit range. */
  lemma BonusFits(total: nat, count: nat, root: nat)
    requires total <= COUNT_BOUND && count > 0
    requires root * root <= Ratio(total, count) * ONE < (root + 1) * (root + 1)
    ensures 2 * Log(total) * ONE <= MAX64
    ensures Ratio(total, count) * ONE <= MAX64
    ensures UCB_C * root <= MAX64 && Bonus(total, count) == UCB_C * root / ONE
  {
    hide Log, IntSqrt;
    LogOfBound();
    LogMonotone(total, COUNT_BOUND);
    var n := 2 * Log(total) * ONE;
    RatioBound(n, count);
    if root > 0xFFFF_FFFF {
      FixedPoint.MulMono(0x1_0000_0000, root);
    }
    SqrtUnique(Ratio(total, count) * ONE, root, IntSqrt(Ratio(total, count) * ONE));
  }

  lemma RatioBound(n: nat, c: nat)
    requires c > 0
    ensures n / c <= n
  {
    var q := n / c;
    assert n == q * c + n % c;
    MulLe(1, c, q);
  }

  lemma RatioFits(total: nat, count: nat)
    requires total <= COUNT_BOUND && count > 0
    ensures 2 * Log(total) * ONE <= MAX64 && Ratio(total, count) * ONE <= MAX64
  {
    hide Log;
    LogOfBound();
    LogMonotone(total, COUNT_BOUND);
    RatioBound(2 * Log(total) * ONE, count);
  }

  /** `b` is, but for the rounding of two divisions and a root, a quarter of the root of twice the logarithm of the
      total over the count, stated with squares. */
  ghost predicate BonusBounds(total: nat, count: nat, b: nat) {
    && b * b * count <= 2 * 16384 * 16384 * Log(total)
    && 2 * 16384 * 16384 * (65536 * 65536) * Log(total) <=
       (((b + 1) * 65536 + 16384) * ((b + 1) * 65536 + 16384) + 16384 * 16384 * 65536) * count
  }

  lemma BonusBounded(total: nat, count: nat)
    requires count > 0
    ensures BonusBounds(total, count, Bonus(total, count))
  {
    hide Log, IntSqrt;
    var l, q := Log(total), Ratio(total, count);
    var r := IntSqrt(q * ONE);
    var b := UCB_C * r / ONE;
    var n := 2 * l * ONE;
    assert q * count <= n < (q + 1) * count by { Divides(n, count); }
    assert b * ONE <= UCB_C * r < (b + 1) * ONE by { Divides(UCB_C * r, ONE); }
    BonusUpper(l, q, r, b, count);
    BonusLower(l, q, r, b, count);
  }

  lemma BonusUpper(l: nat, q: nat, r: nat, b: nat, count: nat)
    requires q * count <= 2 * l * ONE && r * r <= q * ONE && b * ONE <= UCB_C * r
    ensures b * b * count <= 2 * UCB_C * UCB_C * l
  {
    var c := UCB_C;
    FixedPoint.MulMono(b * ONE, c * r);
    assert b * b * (ONE * ONE) == (b * ONE) * (b * ONE) <= (c * r) * (c * r) == c * c * (r * r);
    MulLe(r * r, q * ONE, c * c);
    assert b * b * (ONE * ONE) <= c * c * (q * ONE) == c * c * q * ONE;
    assert b * b * ONE <= c * c * q;
    MulLe(b * b * ONE, c * c * q, count);
    assert b * b * ONE * count == b * b * count * ONE;
    assert c * c * q * count == c * c * (q * count);
    MulLe(q * count, 2 * l * ONE, c * c);
    assert c * c * (2 * l * ONE) == 2 * c * c * l * ONE;
  }

  lemma BonusLower(l: nat, q: nat, r: nat, b: nat, count: nat)
    requires 2 * l * ONE < (q + 1) * count && q * ONE < (r + 1) * (r + 1) && UCB_C * r < (b + 1) * ONE
    ensures 2 * UCB_C * UCB_C * (ONE * ONE) * l <=
            (((b + 1) * ONE + UCB_C) * ((b + 1) * ONE + UCB_C) + UCB_C * UCB_C * ONE) * count
  {
    var c, s := UCB_C, (b + 1) * ONE + UCB_C;
    assert c * (r + 1) <= s;
    FixedPoint.MulMono(c * (r + 1), s);
    assert (c * (r + 1)) * (c * (r + 1)) == c * c * ((r + 1) * (r + 1));
    MulLe(q * ONE, (r + 1) * (r + 1), c * c);
    assert c * c * (q * ONE) + c * c * ONE == c * c * ONE * (q + 1);
    assert c * c * ONE * (q + 1) <= s * s + c * c * ONE;
    MulLe(c * c * ONE * (q + 1), s * s + c * c * ONE, count);
    assert c * c * ONE * (q + 1) * count == c * c * ONE * ((q + 1) * count);
    MulLe(2 * l * ONE, (q + 1) * count, c * c * ONE);
    assert c * c * ONE * (2 * l * ONE) == 2 * c * c * (ONE * ONE) * l;
  }

  /** More evidence, less bonus. */
  lemma BonusAntitone(total: nat, a: nat, b: nat)
    requires 0 < a <= b
    ensures Bonus(total, b) <= Bonus(total, a)
  {
    hide Log, IntSqrt, Ratio;
    RatioAntitone(total, a, b);
    SqrtMono(Ratio(total, b) * ONE, Ratio(total, a) * ONE);
    var r, s := IntSqrt(Ratio(total, b) * ONE), IntSqrt(Ratio(total, a) * ONE);
    DivMono(UCB_C * r, UCB_C * s, ONE);
  }

  lemma RatioAntitone(total: nat, a: nat, b: nat)
    requires 0 < a <= b
    ensures Ratio(total, b) <= Ratio(total, a)
  {
    hide Log;
    QuotientAntitone(2 * Log(total) * ONE, a, b);
  }

  lemma QuotientAntitone(n: nat, a: nat, b: nat)
    requires 0 < a <= b
    ensures n / b <= n / a
  {
    Divides(n, a);
    Divides(n, b);
    if n / b > n / a {
      MulLe(n / a + 1, n / b, a);
      MulLe(a, b, n / b);
    }
  }

  lemma SqrtMono(v: nat, w: nat)
    requires v <= w
    ensures IntSqrt(v) <= IntSqrt(w)
  {
    var r, s := IntSqrt(v), IntSqrt(w);
    if s < r {
      FixedPoint.MulMono(s + 1, r);
    }
  }

  /** The optimistic score that the search minimises. */
  ghost function Score(arms: seq<Arm>, i: nat): int
    requires i < |arms| && arms[i].count > 0 && arms[i].Mean().Some?
  {
    arms[i].Mean().value - Bonus(Sum(Counts(arms)), arms[i].count)
  }

  ghost predicate Scored(a: Arm) {
    a.count > 0 && a.Mean().Some?
  }

  /** The search's choice: the least visited arm until coverage, then a stale arm, an arm without a score, or the least
      optimistic score. */
  ghost predicate SearchChoice(arms: seq<Arm>, windows: nat, c: nat) {
    && c < |arms|
    && (!Covered(Visits(arms)) ==>
          LeastVisited(Visits(arms), c) && forall i :: 0 <= i < c ==> arms[i].visits > arms[c].visits)
    && (Covered(Visits(arms)) ==>
          forall o: nat :: IsOldest(Lasts(arms), -1, o) && arms[o].last <= windows ==>
            if windows - arms[o].last >= STALE_WINDOWS then c == o
            else if exists i :: 0 <= i < |arms| && !Scored(arms[i]) then
              !Scored(arms[c]) && forall i :: 0 <= i < c ==> Scored(arms[i])
            else BestScored(arms, c))
  }

  /** The arm with the least score; the lowest number on ties. */
  ghost predicate BestScored(arms: seq<Arm>, c: nat) {
    && c < |arms| && (forall i :: 0 <= i < |arms| ==> Scored(arms[i]))
    && forall i :: 0 <= i < |arms| && i != c ==>
         Score(arms, c) < Score(arms, i) || (Score(arms, c) == Score(arms, i) && c < i)
  }

  /** The choice between scored arms: no arm has both a smaller mean and no more evidence; one with no larger mean and
      less evidence is passed over only if the means are equal and the bonuses round to the same number. */
  lemma PrefersPromising(arms: seq<Arm>, c: nat, i: nat)
    requires BestScored(arms, c) && i < |arms| && i != c
    ensures var x, y := arms[c], arms[i];
            y.Mean().value <= x.Mean().value && y.count <= x.count ==>
              && c < i && y.Mean().value == x.Mean().value
              && exists b :: BonusBounds(Sum(Counts(arms)), x.count, b) && BonusBounds(Sum(Counts(arms)), y.count, b)
  {
    hide Bonus, BonusBounds, Waf, Quot;
    var total, x, y := Sum(Counts(arms)), arms[c], arms[i];
    assert Scored(x) && Scored(y);
    if y.Mean().value <= x.Mean().value && y.count <= x.count {
      BonusAntitone(total, y.count, x.count);
      assert Score(arms, c) <= Score(arms, i);
      BonusBounded(total, x.count);
      BonusBounded(total, y.count);
      assert Bonus(total, x.count) == Bonus(total, y.count);
    }
  }

  /** The chosen arm could be better than any other, within the bounds that the evidence leaves. */
  lemma ChosenOptimistic(arms: seq<Arm>, c: nat, i: nat)
    requires BestScored(arms, c) && i < |arms|
    ensures exists b, d :: BonusBounds(Sum(Counts(arms)), arms[c].count, b)
                           && BonusBounds(Sum(Counts(arms)), arms[i].count, d)
                           && arms[c].Mean().value - b <= arms[i].Mean().value - d
  {
    hide Bonus, BonusBounds, Waf, Quot;
    var total := Sum(Counts(arms));
    assert Scored(arms[c]) && Scored(arms[i]);
    BonusBounded(total, arms[c].count);
    BonusBounded(total, arms[i].count);
    assert Score(arms, c) <= Score(arms, i);
    var b, d := Bonus(total, arms[c].count), Bonus(total, arms[i].count);
    assert BonusBounds(total, arms[c].count, b) && BonusBounds(total, arms[i].count, d);
  }

  /** After coverage, while no arm is stale and every arm has a score, the search chooses by score. */
  lemma SearchByScore(arms: seq<Arm>, windows: nat, c: nat)
    requires SearchChoice(arms, windows, c) && Covered(Visits(arms))
    requires forall i :: 0 <= i < |arms| ==> Scored(arms[i]) && arms[i].last <= windows < arms[i].last + 240
    ensures BestScored(arms, c)
  {
    hide Scored, BestScored, Covered;
    var o := OldestOf(Lasts(arms), |arms|);
    assert IsOldest(Lasts(arms), -1, o);
  }

  lemma {:induction false} OldestOf(last: seq<nat>, n: nat) returns (o: nat)
    requires 0 < n <= |last|
    ensures o < n && forall k :: 0 <= k < n && k != o ==> last[o] < last[k] || (last[o] == last[k] && o < k)
  {
    if n == 1 {
      o := 0;
    } else {
      o := OldestOf(last, n - 1);
      if last[n - 1] < last[o] {
        o := n - 1;
      }
    }
  }

  /** The three sums halved `k` times, so that their ratios stay. */
  ghost function Halved(a: Arm, k: nat): Arm {
    if k == 0 then a
    else
      var h := Halved(a, k - 1);
      h.(host := h.host / 2, gc := h.gc / 2, count := h.count / 2)
  }

  /** The new sample can be added without leaving 64 bits. */
  ghost predicate HasRoom(a: Arm, host: nat, gc: nat) {
    a.host + host <= MAX64 && a.gc + gc <= MAX64 && a.count + ONE <= MAX64
  }

  /** `b` is `a` with one more observation, its sums halved together as often as needed and no more. */
  ghost predicate EnteredWith(a: Arm, b: Arm, host: nat, gc: nat, k: nat) {
    var h := Halved(a, k);
    && HasRoom(h, host, gc) && (forall j :: 0 <= j < k ==> !HasRoom(Halved(a, j), host, gc))
    && b == h.(host := h.host + host, gc := h.gc + gc, count := h.count + ONE, visits := h.visits + 1)
  }

  ghost predicate Entered(a: Arm, b: Arm, host: nat, gc: nat) {
    && (exists k: nat :: EnteredWith(a, b, host, gc, k))
    && b.Fits() && b.visits == a.visits + 1 && b.last == a.last && b.count <= a.count + ONE
  }

  /** The ratio of the sums after an observation lies between what it was, once halved, and that of the sample; all
      samples have the same count. */
  lemma EnteredBetween(a: Arm, b: Arm, host: nat, gc: nat, k: nat)
    requires EnteredWith(a, b, host, gc, k)
    ensures var h := Halved(a, k);
            && b.count == h.count + 65536 && b.visits == h.visits + 1
            && (h.gc * host <= gc * h.host ==> h.gc * b.host <= b.gc * h.host && b.gc * host <= gc * b.host)
            && (h.gc * host >= gc * h.host ==> h.gc * b.host >= b.gc * h.host && b.gc * host >= gc * b.host)
  {
    hide Halved;
    var h := Halved(a, k);
    assert h.gc * (h.host + host) == h.gc * h.host + h.gc * host;
    assert (h.gc + gc) * h.host == h.gc * h.host + gc * h.host;
    assert (h.gc + gc) * host == h.gc * host + gc * host;
    assert gc * (h.host + host) == gc * h.host + gc * host;
  }

  ghost function Faded(a: Arm): Arm {
    a.(host := Discount(a.host), gc := Discount(a.gc), count := Discount(a.count))
  }

  /** Discounting keeps the ratio of the page sums, and with it the mean, up to one unit of either sum. */
  lemma FadedRatio(a: Arm)
    ensures var b := Faded(a);
            && -(a.host as int) <= b.gc * a.host - a.gc * b.host <= a.gc
            && b.host <= a.host && b.gc <= a.gc && b.visits == a.visits && b.last == a.last
  {
    hide Discount;
    var b := Faded(a);
    DiscountBounds(a.host);
    DiscountBounds(a.gc);
    ScaledApart(a.gc, b.gc, a.host, b.host);
    ScaledApart(a.host, b.host, a.gc, b.gc);
  }

  lemma ScaledApart(x: nat, x1: nat, y: nat, y1: nat)
    requires x1 * ONE <= x * GAMMA && y * GAMMA <= y1 * ONE + ONE
    ensures x1 * y - x * y1 <= x
  {
    MulLe(x1 * ONE, x * GAMMA, y);
    MulLe(y * GAMMA, y1 * ONE + ONE, x);
    assert x * GAMMA * y == y * GAMMA * x;
    assert x1 * ONE * y == x1 * y * ONE;
    assert (y1 * ONE + ONE) * x == (x * y1 + x) * ONE;
  }

  /** Discounting multiplies by 65503/65536 and rounds down. */
  lemma DiscountBounds(v: nat)
    ensures Discount(v) * 65536 <= v * 65503 < Discount(v) * 65536 + 65536 && Discount(v) <= v
  {
    DiscountExact(v);
  }

  /** So does halving. */
  lemma HalvedRatio(a: Arm)
    ensures var b := Halved(a, 1);
            && -(a.host as int) <= 2 * (b.gc * a.host - a.gc * b.host) <= a.gc
            && b.visits == a.visits && b.last == a.last
  {
    var b := Halved(a, 1);
    assert Halved(a, 0) == a;
    MulLe(2 * b.gc, a.gc, a.host);
    MulLe(a.gc, 2 * b.gc + 1, a.host);
    MulLe(2 * b.host, a.host, a.gc);
    MulLe(a.host, 2 * b.host + 1, a.gc);
  }

  /** Every arm is discounted; then the observed one gets the sample and its time. */
  ghost predicate SampleEntered(before: seq<Arm>, after: seq<Arm>, c: nat, host: nat, gc: nat, window: nat) {
    && |before| == |after| && c < |before|
    && (forall i :: 0 <= i < |before| && i != c ==> after[i] == Faded(before[i]))
    && after[c].last == window
    && Entered(Faded(before[c]), after[c].(last := before[c].last), host * ONE, gc * ONE)
  }

  ghost function FreshArms(): seq<Arm> {
    seq(ARMS, _ => Arm(0, 0, 0, 0, 0))
  }

  lemma EnteredAfter(a: Arm, h: Arm, b: Arm, host: nat, gc: nat, k: nat)
    requires h == Halved(a, k) && HasRoom(h, host, gc) && forall j :: 0 <= j < k ==> !HasRoom(Halved(a, j), host, gc)
    requires a.Fits() && a.visits < MAX64 && h.visits == a.visits && h.last == a.last && h.count <= a.count
    requires b == h.(host := h.host + host, gc := h.gc + gc, count := h.count + ONE, visits := h.visits + 1)
    ensures Entered(a, b, host, gc)
  {
    assert EnteredWith(a, b, host, gc, k);
  }

  /** A 32-bit counter that stops at its largest value. */
  function OneMore(n: nat): nat {
    if n != MAX32 then n + 1 else n
  }

  // ---------- The tuner ----------

  class Tuner {
    const arm: array<Arm>
    var param: CatParam
    var phase: Phase
    var currentArm: nat
    var bestArm: nat
    var epoch: nat
    var windows: nat
    var epochWindows: nat
    var discardedWindows: nat
    var phaseHostStart: nat
    var phaseGcPageStart: nat
    var phaseGcStart: nat
    var phaseStartNs: nat
    var stableWindows: nat
    var bestConfirmations: nat
    var exploitWindows: nat
    var driftWindows: nat
    var referenceWaf: nat
    var settled: bool

    constructor ()
      ensures Valid() && fresh(arm) && phase == Warmup && currentArm == bestArm == 37 && windows == 0
      ensures Gauging().phase.Warmup? && Gauging().start == Totals(0, 0, 0)
    {
      arm := new Arm[ARMS](_ => Arm(0, 0, 0, 0, 0));
      phase, currentArm, bestArm := Warmup, INITIAL_ARM, INITIAL_ARM;
      var p := Arms.SetArm(INITIAL_ARM);
      param := p;
      epoch, windows, epochWindows, discardedWindows := 1, 0, 0, 0;
      phaseHostStart, phaseGcPageStart, phaseGcStart, phaseStartNs := 0, 0, 0, 0;
      stableWindows, bestConfirmations, exploitWindows, driftWindows, referenceWaf := 0, 0, 0, 0, 0;
      settled := false;
      new;
      EpochStart(Visits(arm[..]), currentArm);
      SumZero(Counts(arm[..]));
    }

    /** The tables and counters between calls. */
    ghost predicate Valid()
      reads this`param, this`windows, this`epochWindows, this`bestArm, this`settled, this`currentArm,
        this`exploitWindows, this`stableWindows, this`bestConfirmations, this`driftWindows, this`referenceWaf, arm
    {
      && Learning() && epochWindows <= windows && EpochOk(Visits(arm[..]), epochWindows, currentArm) && Probes().Ok()
      && Arms.Staircase(param, currentArm)
    }

    /** What holds at every step of a call. */
    ghost predicate Learning()
      reads this`param, this`windows, this`epochWindows, this`bestArm, this`settled, this`currentArm,
        this`exploitWindows, this`stableWindows, this`bestConfirmations, this`driftWindows, this`referenceWaf, arm
    {
      && arm.Length == ARMS && currentArm < ARMS && bestArm < ARMS
      && (forall i :: 0 <= i < ARMS ==> arm[i].Fits() && arm[i].last <= windows)
      && Sum(Counts(arm[..])) <= COUNT_BOUND
      && (settled ==> Covered(Visits(arm[..])))
      && exploitWindows < PROBE_EVERY && driftWindows < DRIFT_WINDOWS
      && stableWindows <= MAX32 && bestConfirmations <= MAX32 && referenceWaf <= MAX32
    }

    /** An unsettled tuner does not probe; for it the incumbent stands in as the arm under observation. */
    ghost function Probes(): Probing
      requires arm.Length == ARMS
      reads this`windows, this`bestArm, this`settled, this`currentArm, this`exploitWindows, arm
    {
      Probing(Lasts(arm[..]), windows, if settled then currentArm else bestArm, bestArm,
              if settled then exploitWindows else 0)
    }

    // ---------- Reading the tables ----------

    method OldestArm(omitBest: bool) returns (o: nat)
      requires arm.Length == ARMS && bestArm < ARMS
      ensures IsOldest(Lasts(arm[..]), if omitBest then bestArm else -1, o)
    {
      o := ARMS;
      var i: nat := 0;
      while i < ARMS
        invariant i <= ARMS
        invariant o == ARMS ==> i == 0 || (i == 1 && omitBest && bestArm == 0)
        invariant o != ARMS ==> o < i && !(omitBest && o == bestArm)
        invariant o != ARMS ==> forall k :: 0 <= k < i && k != o && !(omitBest && k == bestArm) ==>
                    arm[o].last < arm[k].last || (arm[o].last == arm[k].last && o < k)
      {
        if !(omitBest && i == bestArm) {
          if o == ARMS || arm[i].last < arm[o].last {
            o := i;
          }
        }
        i := i + 1;
      }
    }

    method IsCovered() returns (b: bool)
      requires arm.Length == ARMS
      ensures b <==> Covered(Visits(arm[..]))
    {
      var i: nat := 0;
      while i < ARMS
        invariant i <= ARMS
        invariant forall k :: 0 <= k < i ==> arm[k].visits >= MIN_VISITS
      {
        if arm[i].visits < MIN_VISITS {
          assert Visits(arm[..])[i] < MIN_VISITS;
          return false;
        }
        i := i + 1;
      }
      return true;
    }

    method LeastVisitedArm() returns (c: nat)
      requires arm.Length == ARMS
      ensures LeastVisited(Visits(arm[..]), c) && forall i :: 0 <= i < c ==> arm[i].visits > arm[c].visits
    {
      c := 0;
      var i: nat := 1;
      while i < ARMS
        invariant 1 <= i <= ARMS && c < i
        invariant forall k :: 0 <= k < i ==> arm[c].visits <= arm[k].visits
        invariant forall k :: 0 <= k < c ==> arm[k].visits > arm[c].visits
      {
        if arm[i].visits < arm[c].visits {
          c := i;
        }
        i := i + 1;
      }
    }

    /** Adds the counts up, or stops at the first arm without a score. */
    method TotalCount() returns (unscored: bool, first: nat, total: nat)
      requires arm.Length == ARMS && Sum(Counts(arm[..])) <= COUNT_BOUND
      requires forall i :: 0 <= i < ARMS ==> arm[i].Fits()
      ensures unscored ==> first < ARMS && !Scored(arm[first]) && forall i :: 0 <= i < first ==> Scored(arm[i])
      ensures !unscored ==> total == Sum(Counts(arm[..])) && forall i :: 0 <= i < ARMS ==> Scored(arm[i])
    {
      hide Waf, Quot;
      total := 0;
      unscored, first := false, 0;
      var i: nat := 0;
      ghost var counts := Counts(arm[..]);
      while i < ARMS
        invariant i <= ARMS && total == Sum(counts[..i])
        invariant forall k :: 0 <= k < i ==> Scored(arm[k])
      {
        if arm[i].count == 0 {
          return true, i, total;
        }
        var ok, mean := WafQ16(arm[i].host, arm[i].gc);
        if !ok {
          return true, i, total;
        }
        SumPrefix(counts, i);
        // the source saturates here; below the bound it never has to
        assert MAX64 - total >= arm[i].count;
        total := total + arm[i].count;
        i := i + 1;
      }
      assert counts[..ARMS] == counts;
    }

    /** watgc_v2_choose_search */
    method ChooseSearch() returns (c: nat)
      requires Learning()
      ensures SearchChoice(arm[..], windows, c)
    {
      hide Waf, Quot, Bonus, Log;
      c := LeastVisitedArm();
      if arm[c].visits < MIN_VISITS {
        assert Visits(arm[..])[c] < MIN_VISITS;
        return;
      }
      assert Covered(Visits(arm[..]));
      var o := OldestArm(false);
      OldestUnique(Lasts(arm[..]), o);
      if windows - arm[o].last >= STALE_WINDOWS {
        return o;
      }
      var unscored, first, total := TotalCount();
      if unscored {
        return first;
      }
      c := BestScore(total);
    }

    method BestScore(total: nat) returns (c: nat)
      requires Learning() && total == Sum(Counts(arm[..])) && forall i :: 0 <= i < ARMS ==> Scored(arm[i])
      ensures BestScored(arm[..], c)
    {
      hide Waf, Quot, Bonus, Log, Ratio, Covered;
      var logTotal := LogQ16(total);
      c := 0;
      var lowest: int := 0;
      var haveScore := false;
      var i: nat := 0;
      while i < ARMS
        invariant i <= ARMS && (haveScore <==> i > 0)
        invariant haveScore ==> c < i && lowest == Score(arm[..], c)
        invariant forall k :: 0 <= k < i && k != c ==>
                    lowest < Score(arm[..], k) || (lowest == Score(arm[..], k) && c < k)
      {
        var ok, mean := WafQ16(arm[i].host, arm[i].gc);
        var bonus := ArmBonus(total, logTotal, arm[i].count);
        var score := (mean as int) - (bonus as int);
        if !haveScore || score < lowest {
          c, lowest, haveScore := i, score, true;
        }
        i := i + 1;
      }
    }

    // ---------- Learning from a window ----------

    /** watgc_v2_reset_epoch: forget everything, keep observing the same arm. */
    method ResetEpoch()
      requires arm.Length == ARMS && currentArm < ARMS
      modifies this`epoch, this`epochWindows, this`bestArm, this`stableWindows, this`bestConfirmations,
        this`exploitWindows, this`driftWindows, this`referenceWaf, this`settled, arm
      ensures forall i :: 0 <= i < ARMS ==> arm[i] == Arm(0, 0, 0, 0, 0)
      ensures epoch == old(epoch) + 1 && epochWindows == 0 && bestArm == currentArm && !settled
      ensures stableWindows == bestConfirmations == exploitWindows == driftWindows == referenceWaf == 0
    {
      var i: nat := 0;
      while i < ARMS
        invariant i <= ARMS
        invariant forall k :: 0 <= k < i ==> arm[k] == Arm(0, 0, 0, 0, 0)
        modifies arm
      {
        arm[i] := Arm(0, 0, 0, 0, 0);
        i := i + 1;
      }
      epoch := epoch + 1;
      epochWindows := 0;
      bestArm := currentArm;
      stableWindows, bestConfirmations, exploitWindows, driftWindows, referenceWaf := 0, 0, 0, 0, 0;
      settled := false;
    }

    /** The sample of the incumbent is more than an eighth away from the reference, up or down. */
    ghost predicate Drifts(sample: nat)
      reads this`referenceWaf
    {
      (if sample > referenceWaf then sample - referenceWaf else referenceWaf - sample) * ONE > referenceWaf * DRIFT
    }

    /** A sample within an eighth of the reference, up or down, is no drift; any other is. */
    lemma DriftMeans(sample: nat)
      ensures !Drifts(sample) <==> 7 * referenceWaf <= 8 * sample <= 9 * referenceWaf
    {
    }

    /** Drifting windows in a row, counted while the settled incumbent is observed. */
    ghost function DriftCount(sample: nat): nat
      reads this`settled, this`currentArm, this`bestArm, this`driftWindows, this`referenceWaf
    {
      if !settled || currentArm != bestArm then driftWindows else if Drifts(sample) then driftWindows + 1 else 0
    }

    /** The drift test of watgc_v2_observe: the third drifting window in a row starts a new epoch. */
    method CheckDrift(sample: nat) returns (reset: bool)
      requires Learning() && sample <= MAX32
      modifies this`epoch, this`epochWindows, this`bestArm, this`stableWindows, this`bestConfirmations,
        this`exploitWindows, this`driftWindows, this`referenceWaf, this`settled, arm
      ensures Learning()
      ensures reset <==> old(settled && currentArm == bestArm && Drifts(sample) && driftWindows + 1 == 3)
      ensures reset ==> epochWindows == 0 && epoch == old(epoch) + 1 && !settled && bestArm == currentArm
                        && forall i :: 0 <= i < ARMS ==> arm[i] == Arm(0, 0, 0, 0, 0)
      ensures !reset ==> arm[..] == old(arm[..]) && epochWindows == old(epochWindows) && epoch == old(epoch)
                         && bestArm == old(bestArm) && settled == old(settled) && exploitWindows == old(exploitWindows)
                         && referenceWaf == old(referenceWaf)
      ensures !reset ==> driftWindows == old(DriftCount(sample))
    {
      hide Covered;
      reset := false;
      if settled && currentArm == bestArm {
        var delta := if sample > referenceWaf then sample - referenceWaf else referenceWaf - sample;
        assert delta * ONE <= MAX64 && referenceWaf * DRIFT <= MAX64;
        if delta * ONE > referenceWaf * DRIFT {
          driftWindows := driftWindows + 1;
        } else {
          driftWindows := 0;
        }
        if driftWindows >= DRIFT_WINDOWS {
          ResetEpoch();
          reset := true;
          SumZero(Counts(arm[..]));
        }
      }
    }

    /** Every arm's sums are discounted; visits and times stay. */
    method DiscountAll()
      requires arm.Length == ARMS && forall i :: 0 <= i < ARMS ==> arm[i].Fits()
      modifies arm
      ensures forall i :: 0 <= i < ARMS ==>
                arm[i] == Faded(old(arm[i])) && arm[i].Fits()
    {
      hide Discount;
      var i: nat := 0;
      while i < ARMS
        invariant i <= ARMS
        invariant forall k :: i <= k < ARMS ==> arm[k] == old(arm[k])
        invariant forall k :: 0 <= k < i ==>
                    arm[k] == Faded(old(arm[k])) && arm[k].Fits()
      {
        var a := arm[i];
        DiscountExact(a.host);
        DiscountExact(a.gc);
        DiscountExact(a.count);
        arm[i] := Arm(Discount(a.host), Discount(a.gc), Discount(a.count), a.visits, a.last);
        i := i + 1;
      }
    }

    /** The new sample enters the observed arm; paired sums are halved first if they would overflow. */
    method AddSample(host: nat, gc: nat)
      requires arm.Length == ARMS && currentArm < ARMS && arm[currentArm].Fits()
      requires host * ONE <= MAX64 && gc * ONE <= MAX64 && arm[currentArm].visits < MAX64
      modifies arm
      ensures forall i :: 0 <= i < ARMS && i != currentArm ==> arm[i] == old(arm[i])
      ensures Entered(old(arm[currentArm]), arm[currentArm], host * ONE, gc * ONE)
    {
      var weightedHost, weightedGc := host * ONE, gc * ONE;
      var a := arm[currentArm];
      ghost var k: nat := 0;
      while MAX64 - a.host < weightedHost || MAX64 - a.gc < weightedGc || MAX64 - a.count < ONE
        invariant a.Fits() && a == Halved(old(arm[currentArm]), k)
        invariant a.visits == old(arm[currentArm].visits) && a.last == old(arm[currentArm].last)
        invariant a.count <= old(arm[currentArm].count)
        invariant forall j :: 0 <= j < k ==> !HasRoom(Halved(old(arm[currentArm]), j), weightedHost, weightedGc)
        decreases a.host + a.gc + a.count
      {
        a := a.(host := a.host / 2, gc := a.gc / 2, count := a.count / 2);
        k := k + 1;
      }
      ghost var h := a;
      a := a.(host := a.host + weightedHost, gc := a.gc + weightedGc, count := a.count + ONE);
      if a.visits != MAX64 {
        a := a.(visits := a.visits + 1);
      }
      arm[currentArm] := a;
      EnteredAfter(old(arm[currentArm]), h, a, weightedHost, weightedGc, k);
    }

    /** watgc_v2_update_best: the leader becomes the incumbent if it is clearly better; an incumbent that stays long
        enough, and is confirmed often enough after coverage, settles the tuner. */
    method UpdateBest()
      requires Learning()
      modifies this`bestArm, this`stableWindows, this`bestConfirmations, this`exploitWindows, this`driftWindows,
        this`referenceWaf, this`settled
      ensures Learning()
      ensures (forall c: nat :: !Leader(arm[..], c)) ==> bestArm == old(bestArm)
      ensures forall c: nat :: Leader(arm[..], c) ==>
                bestArm == if Replaces(arm[..], old(bestArm), c) then c else old(bestArm)
      ensures bestArm != old(bestArm) ==> !settled && exploitWindows == 0
      ensures bestArm == old(bestArm) && old(settled) ==> settled && exploitWindows == old(exploitWindows)
      ensures !old(settled) ==>
                (settled <==> bestArm == old(bestArm) && Covered(Visits(arm[..]))
                              && stableWindows >= 12 && bestConfirmations >= 3)
      ensures !old(settled) && settled ==> exploitWindows == driftWindows == 0 && ReferenceTaken()
      ensures bestArm == old(bestArm) && old(settled) ==>
                driftWindows == old(driftWindows) && referenceWaf == old(referenceWaf)
      ensures stableWindows == if bestArm == old(bestArm) then OneMore(old(stableWindows)) else 0
      ensures bestConfirmations ==
                var c := if bestArm == old(bestArm) then old(bestConfirmations) else 0;
                if currentArm == bestArm then OneMore(c) else c
    {
      hide Waf, Quot, Covered;
      var hadIncumbent, incumbent := WafQ16(arm[bestArm].host, arm[bestArm].gc);
      var candidate, minimum := FindLeader(arm, bestArm);
      LeaderUnique(arm[..], candidate, minimum);
      if hadIncumbent && candidate != bestArm
         && (incumbent <= minimum || (incumbent - minimum) * ONE <= incumbent * TOLERANCE) {
        candidate := bestArm;
      }
      SettleOn(candidate);
    }

    lemma LeaderUnique(arms: seq<Arm>, c: nat, minimum: nat)
      requires minimum < MAX32 ==> Leader(arms, c)
      requires minimum >= MAX32 ==> forall i :: 0 <= i < |arms| ==> !Rated(arms[i])
      ensures forall k: nat :: Leader(arms, k) ==> k == c && minimum < MAX32
    {
      hide Rated;
      forall k: nat | Leader(arms, k)
        ensures k == c && minimum < MAX32
      {
      }
    }

    /** The second half of watgc_v2_update_best, with the candidate decided. */
    method SettleOn(candidate: nat)
      requires Learning() && candidate < ARMS
      modifies this`bestArm, this`stableWindows, this`bestConfirmations, this`exploitWindows, this`driftWindows,
        this`referenceWaf, this`settled
      ensures Learning() && bestArm == candidate
      ensures bestArm != old(bestArm) ==> !settled && exploitWindows == 0
      ensures bestArm == old(bestArm) && old(settled) ==> settled && exploitWindows == old(exploitWindows)
      ensures !old(settled) ==>
                (settled <==> bestArm == old(bestArm) && Covered(Visits(arm[..]))
                              && stableWindows >= 12 && bestConfirmations >= 3)
      ensures !old(settled) && settled ==> exploitWindows == driftWindows == 0 && ReferenceTaken()
      ensures bestArm == old(bestArm) && old(settled) ==>
                driftWindows == old(driftWindows) && referenceWaf == old(referenceWaf)
      ensures stableWindows == if bestArm == old(bestArm) then OneMore(old(stableWindows)) else 0
      ensures bestConfirmations ==
                var c := if bestArm == old(bestArm) then old(bestConfirmations) else 0;
                if currentArm == bestArm then OneMore(c) else c
    {
      hide Waf, Quot, Covered, Arm.Fits, Arm.Mean;
      if candidate != bestArm {
        bestArm := candidate;
        stableWindows, bestConfirmations, exploitWindows, driftWindows, referenceWaf := 0, 0, 0, 0, 0;
        settled := false;
      } else if stableWindows != MAX32 {
        stableWindows := stableWindows + 1;
      }
      if currentArm == bestArm && bestConfirmations != MAX32 {
        bestConfirmations := bestConfirmations + 1;
      }
      var covered := IsCovered();
      if !settled && covered && stableWindows >= STABLE_WINDOWS && bestConfirmations >= BEST_CONFIRMATIONS {
        Settle();
      }
    }

    /** The reference of the drift test is the incumbent's mean, where it has one. */
    ghost predicate ReferenceTaken()
      requires bestArm < arm.Length
      reads this`bestArm, this`referenceWaf, arm
    {
      arm[bestArm].Mean().Some? ==> referenceWaf == arm[bestArm].Mean().value
    }

    /** The tuner settles on its incumbent; the incumbent's mean becomes the reference of the drift test. */
    method Settle()
      requires Learning() && !settled && Covered(Visits(arm[..]))
      modifies this`exploitWindows, this`driftWindows, this`referenceWaf, this`settled
      ensures Learning() && settled && exploitWindows == driftWindows == 0
      ensures ReferenceTaken()
    {
      hide Waf, Quot, Covered;
      settled := true;
      exploitWindows := 0;
      driftWindows := 0;
      var ok, reference := WafQ16(arm[bestArm].host, arm[bestArm].gc);
      if ok {
        referenceWaf := reference;
      }
    }

    /** Discounts every arm and enters the sample, with its time, at the observed one. */
    method LearnSample(host: nat, gc: nat)
      requires Learning() && host * ONE <= MAX64 && gc * ONE <= MAX64 && windows <= MAX64
      requires arm[currentArm].visits < MAX64
      modifies arm
      ensures Learning()
      ensures Visits(arm[..]) == old(Visits(arm[..]))[currentArm := old(arm[currentArm].visits) + 1]
      ensures Lasts(arm[..]) == old(Lasts(arm[..]))[currentArm := windows]
      ensures SampleEntered(old(arm[..]), arm[..], currentArm, host, gc, windows)
    {
      hide Covered, Discount, EnteredWith;
      ghost var before, v := Counts(arm[..]), Visits(arm[..]);
      DiscountAll();
      ghost var discounted := Discounted(before);
      ghost var mid := Counts(arm[..]);
      assert mid == discounted;
      CountsBounded(before, currentArm);
      SumDiscountedLe(before);
      SumMember(mid, currentArm);
      AddSample(host, gc);
      SumMono(Counts(arm[..]), discounted[currentArm := discounted[currentArm] + ONE]);
      arm[currentArm] := arm[currentArm].(last := windows);
      SumMono(Counts(arm[..]), discounted[currentArm := discounted[currentArm] + ONE]);
      CoveredMore(v, Visits(arm[..]));
    }

    /** How an observation decides on the next arm. */
    method NextArm() returns (next: nat)
      requires Learning()
      modifies this`exploitWindows
      ensures Learning() && next < ARMS
      ensures !settled ==> SearchChoice(arm[..], windows, next) && exploitWindows == old(exploitWindows)
      ensures settled && currentArm != bestArm ==> next == bestArm && exploitWindows == 0
      ensures settled && currentArm == bestArm && old(exploitWindows) + 1 < PROBE_EVERY ==>
                next == bestArm && exploitWindows == old(exploitWindows) + 1
      ensures settled && currentArm == bestArm && old(exploitWindows) + 1 >= PROBE_EVERY ==>
                IsOldest(Lasts(arm[..]), bestArm, next) && exploitWindows == 0
    {
      hide SearchChoice, Covered;
      if !settled {
        next := ChooseSearch();
        SearchChoiceInRange(arm[..], windows, next);
        return;
      }
      if currentArm != bestArm {
        exploitWindows := 0;
        return bestArm;
      }
      exploitWindows := exploitWindows + 1;
      if exploitWindows >= PROBE_EVERY {
        exploitWindows := 0;
        next := OldestArm(true);
      } else {
        next := bestArm;
      }
    }

    /** The first half of watgc_v2_observe: drift test, discounting, the new sample, and the incumbent. */
    method Digest(host: nat, gc: nat, sample: nat) returns (reset: bool)
      requires Valid() && host * ONE <= MAX64 && gc * ONE <= MAX64 && sample <= MAX32 && windows < MAX64
      modifies this`windows, this`epoch, this`epochWindows, this`bestArm, this`stableWindows, this`bestConfirmations,
        this`exploitWindows, this`driftWindows, this`referenceWaf, this`settled, arm
      ensures Learning() && windows == old(windows) + 1
      ensures reset <==> old(settled && currentArm == bestArm && Drifts(sample) && driftWindows + 1 == 3)
      ensures epochWindows == (if reset then 0 else old(epochWindows)) + 1
      ensures epoch == old(epoch) + if reset then 1 else 0
      ensures Visits(arm[..]) == VisitedOnce(if reset then Zeros() else old(Visits(arm[..])), currentArm)
      ensures Lasts(arm[..]) == (if reset then Zeros() else old(Lasts(arm[..])))[currentArm := windows]
      ensures SampleEntered(if reset then FreshArms() else old(arm[..]), arm[..], currentArm, host, gc, windows)
      ensures bestArm != old(bestArm) ==> !settled
      ensures settled ==> !reset
      ensures old(settled) && settled ==> bestArm == old(bestArm) && exploitWindows == old(exploitWindows)
      ensures !old(settled) && settled ==> exploitWindows == 0
      ensures old(settled) && settled ==> driftWindows == old(DriftCount(sample)) && referenceWaf == old(referenceWaf)
      ensures !old(settled) && settled ==> JustSettled() && old(Covered(Visits(arm[..])))
    {
      hide Covered, Discount, EpochOk, Probing.Ok, Arm.Fits, Drifts, SampleEntered;
      FewerVisits(Visits(arm[..]), epochWindows, currentArm);
      windows := windows + 1;
      reset := CheckDrift(sample);
      assert Visits(arm[..]) == if reset then Zeros() else old(Visits(arm[..]));
      assert Lasts(arm[..]) == if reset then Zeros() else old(Lasts(arm[..]));
      assert arm[..] == if reset then FreshArms() else old(arm[..]);
      if reset {
        OneVisit(currentArm);
      }
      Absorb(host, gc);
    }

    /** The incumbent has stood twelve windows and three confirmations; the drift test starts afresh. */
    ghost predicate JustSettled()
      requires bestArm < arm.Length
      reads this`bestArm, this`referenceWaf, this`stableWindows, this`bestConfirmations, this`driftWindows, arm
    {
      && stableWindows >= 12 && bestConfirmations >= 3
      && driftWindows == 0 && ReferenceTaken()
    }

    /** The part of watgc_v2_observe after the drift test: the sample is learned and the incumbent reviewed; windows up
        to coverage do not count towards stability. */
    method Absorb(host: nat, gc: nat)
      requires Learning() && host * ONE <= MAX64 && gc * ONE <= MAX64 && windows <= MAX64
      requires arm[currentArm].visits < MAX64
      modifies this`epochWindows, this`bestArm, this`stableWindows, this`bestConfirmations,
        this`exploitWindows, this`driftWindows, this`referenceWaf, this`settled, arm
      ensures Learning() && epochWindows == old(epochWindows) + 1
      ensures Visits(arm[..]) == VisitedOnce(old(Visits(arm[..])), currentArm)
      ensures Lasts(arm[..]) == old(Lasts(arm[..]))[currentArm := windows]
      ensures SampleEntered(old(arm[..]), arm[..], currentArm, host, gc, windows)
      ensures bestArm != old(bestArm) ==> !settled
      ensures old(settled) && settled ==> bestArm == old(bestArm) && exploitWindows == old(exploitWindows)
      ensures old(settled) && settled ==> driftWindows == old(driftWindows) && referenceWaf == old(referenceWaf)
      ensures !old(settled) && settled ==>
                exploitWindows == 0 && JustSettled() && bestArm == old(bestArm) && old(Covered(Visits(arm[..])))
      ensures old(Covered(Visits(arm[..]))) == Covered(Visits(arm[..])) ==>
                && stableWindows == (if bestArm == old(bestArm) then OneMore(old(stableWindows)) else 0)
                && bestConfirmations ==
                   var c := if bestArm == old(bestArm) then old(bestConfirmations) else 0;
                   if currentArm == bestArm then OneMore(c) else c
      ensures !old(Covered(Visits(arm[..]))) && Covered(Visits(arm[..])) ==> stableWindows == bestConfirmations == 0
    {
      hide Discount, Arm.Fits, Drifts, Leader, Replaces, Covered, SampleEntered;
      var hadCoverage := IsCovered();
      epochWindows := epochWindows + 1;
      LearnSample(host, gc);
      var covered := IsCovered();
      if !hadCoverage && covered {
        stableWindows, bestConfirmations := 0, 0;
      }
      UpdateBest();
      if !hadCoverage && covered {
        stableWindows, bestConfirmations := 0, 0;
      }
    }

    /** watgc_v2_observe: learns from one accepted window and names the arm to observe next. */
    method Observe(host: nat, gc: nat, sample: nat) returns (next: nat)
      requires Valid() && host * ONE <= MAX64 && gc * ONE <= MAX64 && sample <= MAX32 && windows < MAX64
      modifies this`windows, this`epoch, this`epochWindows, this`bestArm, this`stableWindows, this`bestConfirmations,
        this`exploitWindows, this`driftWindows, this`referenceWaf, this`settled, arm
      ensures Learning() && next < ARMS && windows == old(windows) + 1 && epochWindows <= windows
      ensures epochWindows == (if epoch == old(epoch) then old(epochWindows) else 0) + 1
      ensures EpochOk(Visits(arm[..]), epochWindows, next) && ProbesWith(next).Ok()
      ensures Visits(arm[..]) ==
                VisitedOnce(if epoch == old(epoch) then old(Visits(arm[..])) else Zeros(), currentArm)
      ensures Lasts(arm[..]) == (if epoch == old(epoch) then old(Lasts(arm[..])) else Zeros())[currentArm := windows]
      ensures SampleEntered(if epoch == old(epoch) then old(arm[..]) else FreshArms(), arm[..], currentArm, host, gc,
                            windows)
      ensures epoch == old(epoch) + if old(settled && currentArm == bestArm && Drifts(sample)
                                           && driftWindows + 1 == 3) then 1 else 0
      ensures !settled ==> SearchChoice(arm[..], windows, next)
      ensures old(settled) && settled ==> epoch == old(epoch) && SettledStep(old(Probes()), ProbesWith(next))
      ensures old(settled) && settled ==> driftWindows == old(DriftCount(sample)) && referenceWaf == old(referenceWaf)
      ensures !old(settled) && settled ==> JustSettled() && old(Covered(Visits(arm[..])))
    {
      hide Covered, EpochOk, SearchChoice, Drifts, IsOldest, SampleEntered;
      ghost var v, w := Visits(arm[..]), epochWindows;
      ghost var p := Probes();
      var reset := Digest(host, gc, sample);
      next := NextArm();
      EpochGoesOn(v, w, currentArm, reset, arm[..], windows, next, settled);
    }

    /** The state after an observation, with `next` as the arm to observe. */
    ghost function ProbesWith(next: nat): Probing
      requires arm.Length == ARMS
      reads this, arm
    {
      Probing(Lasts(arm[..]), windows, if settled then next else bestArm, bestArm,
              if settled then exploitWindows else 0)
    }

    // ---------- Windows ----------

    /** The window in progress. */
    ghost function Gauging(): Gauge
      reads this
    {
      Gauge(phase, currentArm, Totals(phaseHostStart, phaseGcPageStart, phaseGcStart), phaseStartNs)
    }

    method BeginPhase(p: Phase, t: Totals, now: nat)
      modifies this`phase, this`phaseHostStart, this`phaseGcPageStart, this`phaseGcStart, this`phaseStartNs
      ensures Gauging() == Gauge(p, currentArm, t, now)
    {
      phase := p;
      phaseHostStart := t.host;
      phaseGcPageStart := t.gcPages;
      phaseGcStart := t.gcs;
      phaseStartNs := now;
    }

    /** What one accepted window changes, seen when the next arm is in force. */
    twostate predicate WindowObserved()
      requires arm.Length == ARMS && old(currentArm) < ARMS
      reads this`windows, this`epoch, this`epochWindows, this`bestArm, this`settled, this`currentArm,
        this`exploitWindows, arm
    {
      && windows == old(windows) + 1
      && epochWindows == (if epoch == old(epoch) then old(epochWindows) else 0) + 1
      && Visits(arm[..]) == VisitedOnce(if epoch == old(epoch) then old(Visits(arm[..])) else Zeros(), old(currentArm))
      && Lasts(arm[..]) == (if epoch == old(epoch) then old(Lasts(arm[..])) else Zeros())[old(currentArm) := windows]
      && (!settled ==> SearchChoice(arm[..], windows, currentArm))
      && (old(settled) && settled ==> epoch == old(epoch) && SettledStep(old(Probes()), Probes()))
    }

    /** What was learned is this sample, and it starts a new epoch exactly if it completes the drift. */
    twostate predicate SampleObserved(host: nat, gc: nat, sample: nat)
      reads this`windows, this`epoch, arm
    {
      && SampleEntered(if epoch == old(epoch) then old(arm[..]) else FreshArms(), arm[..], old(currentArm), host, gc,
                       windows)
      && epoch == old(epoch) + if old(settled && currentArm == bestArm && Drifts(sample)
                                      && driftWindows + 1 == 3) then 1 else 0
    }

    /** An accepted window: the learner observes it and the next arm is put in force. */
    method Accept(host: nat, gc: nat, sample: nat)
      requires Valid() && host * ONE <= MAX64 && gc * ONE <= MAX64 && sample <= MAX32 && windows < MAX64
      modifies this`windows, this`epoch, this`epochWindows, this`bestArm, this`stableWindows, this`bestConfirmations,
        this`exploitWindows, this`driftWindows, this`referenceWaf, this`settled, this`currentArm, this`param, arm
      ensures Valid() && WindowObserved() && SampleObserved(host, gc, sample)
    {
      hide SampleEntered, EpochOk, SearchChoice, Drifts, SettledStep, Arms.Staircase, Covered, Probing.Ok, Arm.Fits;
      ghost var p := Probes();
      var next := Observe(host, gc, sample);
      ghost var q := ProbesWith(next);
      if next != currentArm {
        param := Arms.SetArm(next);
        currentArm := next;
      }
      assert Probes() == q;
    }

    /** The end of a measuring window that is long enough: its sample is accepted if it is in range. */
    method CloseWindow(host: nat, gcPages: nat, t: Totals, now: nat)
      requires Valid() && windows < MAX64 && phase == Measure && Enough(Gauging(), t)
      requires host == t.host - phaseHostStart && gcPages == t.gcPages - phaseGcPageStart
      requires host <= MAX64 && gcPages <= MAX64
      modifies this, arm
      ensures Valid() && Gauging() == After(old(Gauging()), Event(t, now, currentArm))
      ensures old(Sampled(Gauging(), t)) ==>
                && WindowObserved() && SampleObserved(host, gcPages, Waf(host, gcPages))
                && discardedWindows == old(discardedWindows)
      ensures !old(Sampled(Gauging(), t)) ==> SameLearner() && discardedWindows == old(discardedWindows) + 1
    {
      hide EpochOk, SearchChoice, SettledStep, Arms.Staircase, Covered, Probing.Ok, Arm.Fits, Quot, Drifts, IsOldest,
        SampleEntered, Waf;
      var ok, sample := WafQ16(host, gcPages);
      if host > MAX64 / ONE || gcPages > MAX64 / ONE || !ok {
        discardedWindows := discardedWindows + 1;
        BeginPhase(Burnin, t, now);
        return;
      }
      var evaluated := currentArm;
      Accept(host, gcPages, sample);
      BeginPhase(if currentArm != evaluated then Burnin else Measure, t, now);
    }

    /** Nothing that was learned changes. */
    twostate predicate SameLearner()
      requires arm.Length == ARMS
      reads this`windows, this`epoch, this`epochWindows, this`bestArm, this`settled, this`currentArm,
        this`exploitWindows, arm
    {
      && arm[..] == old(arm[..]) && windows == old(windows) && epoch == old(epoch)
      && epochWindows == old(epochWindows) && Probes() == old(Probes()) && currentArm == old(currentArm)
    }

    /** watgc_v2_on_gc: after every completed collection, with the lifetime counters of the partition. */
    method OnGc(t: Totals, now: nat)
      requires Valid() && windows < MAX64
      requires Gauging().start.AtMost(t) && t.host <= MAX64 && t.gcPages <= MAX64
      modifies this, arm
      ensures Valid() && Gauging() == After(old(Gauging()), Event(t, now, currentArm))
      ensures old(Sampled(Gauging(), t)) ==>
                var host, gc := t.host - old(phaseHostStart), t.gcPages - old(phaseGcPageStart);
                WindowObserved() && SampleObserved(host, gc, Waf(host, gc))
      ensures !old(Sampled(Gauging(), t)) ==> SameLearner()
      ensures windows == old(windows) + if old(Sampled(Gauging(), t)) then 1 else 0
      ensures discardedWindows == old(discardedWindows) + if old(Discards(Gauging(), t, now)) then 1 else 0
    {
      hide EpochOk, SearchChoice, SettledStep, Arms.Staircase, Covered, Probing.Ok, Arm.Fits, Quot, Drifts, IsOldest,
        Measurable, SampleEntered, Waf;
      if phase == Warmup {
        if t.gcs >= WARMUP_GC {
          BeginPhase(Burnin, t, now);
        }
        return;
      }
      var host, gcPages, gcCount := t.host - phaseHostStart, t.gcPages - phaseGcPageStart, t.gcs - phaseGcStart;
      var ready := if phase == Burnin then host >= BURNIN_HOST_PAGES && gcCount >= BURNIN_GC
                   else host >= WINDOW_HOST_PAGES && gcCount >= WINDOW_GC;
      if !ready {
        if gcCount < MAX_WINDOW_GC && (now < phaseStartNs || now - phaseStartNs < MAX_WINDOW_NS) {
          return;
        }
        discardedWindows := discardedWindows + 1;
        BeginPhase(Burnin, t, now);
        return;
      }
      if phase == Burnin {
        BeginPhase(Measure, t, now);
        return;
      }
      CloseWindow(host, gcPages, t, now);
    }
  }

  ghost function VisitedOnce(visits: seq<nat>, c: nat): seq<nat>
    requires c < |visits|
  {
    visits[c := visits[c] + 1]
  }

  ghost function Zeros(): (r: seq<nat>)
    ensures |r| == ARMS && forall i :: 0 <= i < ARMS ==> r[i] == 0
  {
    seq(ARMS, _ => 0)
  }

  lemma SearchChoiceInRange(arms: seq<Arm>, windows: nat, c: nat)
    requires SearchChoice(arms, windows, c)
    ensures c < |arms|
  {
  }

  /** No arm has more visits than the epoch has windows. */
  lemma FewerVisits(visits: seq<nat>, epochWindows: nat, c: nat)
    requires EpochOk(visits, epochWindows, c)
    ensures visits[c] <= epochWindows
  {
    SumMember(visits, c);
  }

  lemma OneVisit(c: nat)
    requires c < ARMS
    ensures !Covered(VisitedOnce(Zeros(), c))
  {
    assert VisitedOnce(Zeros(), c)[c] < MIN_VISITS;
  }

  /** One observation keeps the epoch's bookkeeping, whether or not it started a new epoch. */
  lemma EpochGoesOn(visits: seq<nat>, w: nat, c: nat, reset: bool, arms: seq<Arm>, windows: nat, next: nat,
                    settled: bool)
    requires EpochOk(visits, w, c) && next < ARMS == |arms|
    requires Visits(arms) == VisitedOnce(if reset then Zeros() else visits, c)
    requires settled ==> Covered(Visits(arms))
    requires !settled ==> SearchChoice(arms, windows, next)
    ensures EpochOk(Visits(arms), (if reset then 0 else w) + 1, next)
  {
    if reset {
      EpochStart(Zeros(), c);
    }
    EpochStep(if reset then Zeros() else visits, if reset then 0 else w, c, next);
  }

  lemma {:induction false} SumMono(a: seq<nat>, b: seq<nat>)
    requires |a| == |b| && forall i :: 0 <= i < |a| ==> a[i] <= b[i]
    ensures Sum(a) <= Sum(b)
  {
    if a != [] {
      SumMono(a[1..], b[1..]);
    }
  }

  lemma SumDiscountedLe(s: seq<nat>)
    ensures Sum(Discounted(s)) <= Sum(s)
  {
    SumDiscounted(s);
  }

  lemma CoveredMore(a: seq<nat>, b: seq<nat>)
    requires |a| == |b| && forall i :: 0 <= i < |a| ==> a[i] <= b[i]
    ensures Covered(a) ==> Covered(b)
  {
  }

  /** The bonus of one arm, computed without leaving 64 bits. */
  method ArmBonus(total: nat, logTotal: nat, count: nat) returns (bonus: nat)
    requires total <= COUNT_BOUND && count > 0 && logTotal == Log(total)
    ensures bonus == Bonus(total, count)
  {
    hide Log, Bonus, IntSqrt;
    RatioFits(total, count);
    assert 2 * logTotal * ONE <= MAX64;
    var ratio := 2 * logTotal * ONE / count;
    assert ratio * ONE <= MAX64;
    var root := Sqrt(ratio * ONE);
    BonusFits(total, count, root);
    assert UCB_C * root <= MAX64;
    bonus := UCB_C * root / ONE;
  }

  lemma SumPrefix(s: seq<nat>, i: nat)
    requires i < |s|
    ensures Sum(s[..i + 1]) == Sum(s[..i]) + s[i] && Sum(s[..i + 1]) <= Sum(s)
  {
    SumSplit(s[..i + 1], i);
    SumSplit(s, i + 1);
    assert s[..i + 1][..i] == s[..i] && s[..i + 1][i..] == [s[i]];
    assert Sum([s[i]]) == s[i] by { assert [s[i]][1..] == []; }
  }

  lemma {:induction false} SumSplit(s: seq<nat>, i: nat)
    requires i <= |s|
    ensures Sum(s) == Sum(s[..i]) + Sum(s[i..])
  {
    if i == 0 {
      assert s[..0] == [] && s[0..] == s;
    } else {
      SumSplit(s[1..], i - 1);
      assert s[..i][1..] == s[1..][..i - 1] && s[1..][i - 1..] == s[i..];
    }
  }

  lemma OldestUnique(last: seq<nat>, o: nat)
    requires IsOldest(last, -1, o)
    ensures forall p: nat :: IsOldest(last, -1, p) ==> p == o
  {
    forall p: nat | IsOldest(last, -1, p)
      ensures p == o
    {
      assert p != o ==> Older(last, o, p) && Older(last, p, o);
    }
  }
}
