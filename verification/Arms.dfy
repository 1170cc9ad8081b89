/** The sixty staircases the tuner chooses from, and how an arm number stands for one. */
module Arms {
  import opened CatPolicy
  import opened Arith
  import opened Bandit

  const K_N: nat := 4
  const SCALE_N: nat := 5
  const RATIO_N: nat := 3
  const NSEC_PER_SEC: nat := 1_000_000_000

  datatype Setting = Setting(k: nat, scalePct: nat, ageRatio: nat)

  function Levels(): (r: seq<nat>) {
    [2, 4, 7, 10]
  }

  function Scales(): (r: seq<nat>) {
    [25, 50, 100, 200, 400]
  }

  function Ratios(): (r: seq<nat>) {
    [4, 7, 16]
  }

  function Decode(arm: nat): Setting
    requires arm < ARMS
  {
    Setting(Levels()[arm / RATIO_N / SCALE_N], Scales()[arm / RATIO_N % SCALE_N], Ratios()[arm % RATIO_N])
  }

  /** The arm number of a point of the grid. */
  function Encode(ki: nat, si: nat, ri: nat): (arm: nat)
    requires ki < K_N && si < SCALE_N && ri < RATIO_N
    ensures arm < ARMS
  {
    (ki * SCALE_N + si) * RATIO_N + ri
  }

  /** Arm numbers and the points of the grid correspond one to one. */
  lemma DecodeEncode(ki: nat, si: nat, ri: nat)
    requires ki < K_N && si < SCALE_N && ri < RATIO_N
    ensures Decode(Encode(ki, si, ri)) == Setting(Levels()[ki], Scales()[si], Ratios()[ri])
  {
    var arm := Encode(ki, si, ri);
    assert arm / RATIO_N == ki * SCALE_N + si && arm % RATIO_N == ri;
  }

  lemma DecodeInjective(a: nat, b: nat)
    requires a < ARMS && b < ARMS && Decode(a) == Decode(b)
    ensures a == b
  {
    assert a / RATIO_N / SCALE_N == b / RATIO_N / SCALE_N;
    assert a / RATIO_N % SCALE_N == b / RATIO_N % SCALE_N;
  }

  /** Thresholds in thirds of a second, before scaling. */
  function Thirds(ki: nat): (r: seq<nat>)
    requires ki < K_N
    ensures |r| == Levels()[ki] - 1
    ensures forall i :: 0 <= i < |r| ==> 20 <= r[i] <= 1080
    ensures forall i :: 0 < i < |r| ==> r[i - 1] < r[i]
  {
    [[1080], [60, 270, 1080], [30, 60, 135, 270, 540, 1080], [20, 40, 60, 110, 180, 270, 450, 720, 1080]][ki]
  }

  function Threshold(thirds: nat, scalePct: nat): nat {
    thirds * NSEC_PER_SEC * scalePct / 300
  }

  function AgeStep(ratio: nat, k: nat, i: nat): nat
    requires k > 1 && ratio > 0
  {
    18 + (ratio - 1) * 18 * i / (k - 1)
  }

  /** The staircase of an arm: `k` values from 18 to 18 * ratio, separated by the scaled thresholds. */
  ghost predicate Staircase(p: CatParam, arm: nat)
    requires arm < ARMS
  {
    var s := Decode(arm);
    && p.k == s.k && |p.thresholdNs| == 9 && |p.ageValue| == 10
    && (forall i :: 0 <= i < 10 ==> p.ageValue[i] == if i < s.k then AgeStep(s.ageRatio, s.k, i) else 0)
    && var t := Thirds(arm / (SCALE_N * RATIO_N));
       forall i :: 0 <= i < 9 ==> p.thresholdNs[i] == if i + 1 < s.k then Threshold(t[i], s.scalePct) else 0
  }

  lemma AgeStepMono(ratio: nat, k: nat, i: nat, j: nat)
    requires k > 1 && ratio > 0 && i <= j
    ensures AgeStep(ratio, k, i) <= AgeStep(ratio, k, j)
  {
    MulLe(i, j, (ratio - 1) * 18);
    DivMono((ratio - 1) * 18 * i, (ratio - 1) * 18 * j, k - 1);
  }

  lemma AgeStepEnds(ratio: nat, k: nat)
    requires k > 1 && ratio > 0
    ensures AgeStep(ratio, k, 0) == 18 && AgeStep(ratio, k, k - 1) == 18 * ratio
  {
    var d := k - 1;
    assert (ratio - 1) * 18 * 0 == 0;
    ExactQuotient((ratio - 1) * 18, d);
  }

  lemma ThresholdClimbs(a: nat, b: nat, s: nat)
    requires a < b && s in Scales()
    ensures Threshold(a, s) < Threshold(b, s)
  {
  }

  lemma {:induction false} ThirdsClimb(t: seq<nat>, i: nat, j: nat)
    requires i < j < |t| && forall k :: 0 < k < |t| ==> t[k - 1] < t[k]
    ensures t[i] < t[j]
  {
    if i + 1 < j {
      ThirdsClimb(t, i, j - 1);
    }
    assert t[j - 1] < t[j];
  }

  lemma AgeStepRange(ratio: nat, k: nat, i: nat)
    requires k > 1 && ratio > 0 && i < k
    ensures 18 <= AgeStep(ratio, k, i) <= 18 * ratio
  {
    AgeStepMono(ratio, k, 0, i);
    AgeStepMono(ratio, k, i, k - 1);
    AgeStepEnds(ratio, k);
  }

  /** Every staircase is one the policy accepts and climbs, from its first to its last value by exactly its ratio. */
  lemma StaircaseClimbs(p: CatParam, arm: nat)
    requires arm < ARMS && Staircase(p, arm)
    ensures p.Ok() && p.Climbs()
    ensures p.ageValue[0] == 18 && p.ageValue[p.k - 1] == 18 * Decode(arm).ageRatio
  {
    hide AgeStep, Threshold, Thirds;
    var s := Decode(arm);
    var t := Thirds(arm / (SCALE_N * RATIO_N));
    forall i | 0 <= i < p.k
      ensures 18 <= p.ageValue[i] <= 18 * s.ageRatio
    {
      AgeStepRange(s.ageRatio, s.k, i);
    }
    forall i, j | 0 <= i < j < p.k - 1
      ensures p.thresholdNs[i] < p.thresholdNs[j]
    {
      ThirdsClimb(t, i, j);
      ThresholdClimbs(t[i], t[j], s.scalePct);
    }
    forall i, j | 0 <= i < j < p.k
      ensures p.ageValue[i] <= p.ageValue[j]
    {
      AgeStepMono(s.ageRatio, s.k, i, j);
    }
    AgeStepEnds(s.ageRatio, s.k);
  }

  /** A threshold is its table entry, in thirds of a second, at the arm's percentage, rounded down; so two arms that
      differ only in scale have thresholds in the ratio of their scales, but for less than one unit. */
  lemma ThresholdsScale(p: CatParam, q: CatParam, arm: nat, other: nat, i: nat)
    requires arm < ARMS && other < ARMS && Staircase(p, arm) && Staircase(q, other)
    requires Decode(arm).k == Decode(other).k && i + 1 < p.k
    ensures var s, r, t := Decode(arm).scalePct, Decode(other).scalePct, Thirds(arm / 15)[i];
            && p.thresholdNs[i] * 300 <= t * 1_000_000_000 * s < (p.thresholdNs[i] + 1) * 300
            && p.thresholdNs[i] * r < q.thresholdNs[i] * s + s
            && q.thresholdNs[i] * s < p.thresholdNs[i] * r + r
  {
    hide Thirds;
    SameTable(arm, other);
    var s, r, t := Decode(arm).scalePct, Decode(other).scalePct, Thirds(arm / 15)[i];
    ScaledThreshold(t, s);
    ScaledThreshold(t, r);
    CrossScale(p.thresholdNs[i], t * 1_000_000_000, s, q.thresholdNs[i], r);
    CrossScale(q.thresholdNs[i], t * 1_000_000_000, r, p.thresholdNs[i], s);
  }

  lemma SameTable(arm: nat, other: nat)
    requires arm < ARMS && other < ARMS && Decode(arm).k == Decode(other).k
    ensures arm / 15 == other / 15 == arm / (SCALE_N * RATIO_N) == other / (SCALE_N * RATIO_N)
    ensures Decode(arm).scalePct > 0 && Decode(other).scalePct > 0 && |Thirds(arm / 15)| + 1 == Decode(arm).k
  {
    assert arm / 15 == arm / RATIO_N / SCALE_N && other / 15 == other / RATIO_N / SCALE_N;
  }

  lemma ScaledThreshold(t: nat, s: nat)
    ensures Threshold(t, s) * 300 <= t * 1_000_000_000 * s < (Threshold(t, s) + 1) * 300
  {
  }

  lemma CrossScale(a: nat, x: nat, s: nat, b: nat, r: nat)
    requires a * 300 <= x * s && x * r < (b + 1) * 300 && s > 0
    ensures a * r < b * s + s
  {
    MulLe(a * 300, x * s, r);
    MulLe(x * r + 1, (b + 1) * 300, s);
    assert x * s * r == x * r * s;
    assert (x * r + 1) * s == x * r * s + s;
    assert a * 300 * r == a * r * 300;
    assert (b + 1) * 300 * s == (b * s + s) * 300;
  }

  /** The values of a staircase rise from 18 in equal steps, rounded down. */
  lemma ValuesSpaced(p: CatParam, arm: nat, i: nat)
    requires arm < ARMS && Staircase(p, arm) && i < p.k
    ensures var d := p.k - 1;
            (p.ageValue[i] - 18) * d <= (Decode(arm).ageRatio - 1) * 18 * i < (p.ageValue[i] - 18 + 1) * d
  {
    hide Decode, Thirds;
    AboveOne(arm);
    var d := p.k - 1;
    StepSpaced(Decode(arm).ageRatio, p.k, i);
  }

  lemma AboveOne(arm: nat)
    requires arm < ARMS
    ensures 1 < Decode(arm).k <= 10 && Decode(arm).ageRatio > 0
  {
  }

  lemma StepSpaced(ratio: nat, k: nat, i: nat)
    requires k > 1 && ratio > 0
    ensures (AgeStep(ratio, k, i) - 18) * (k - 1) <= (ratio - 1) * 18 * i < (AgeStep(ratio, k, i) - 18 + 1) * (k - 1)
  {
    Divides((ratio - 1) * 18 * i, k - 1);
  }

  /** The arm a device starts with: seven values from 18 to 126, with thresholds from 10 to 360 seconds. */
  lemma InitialStaircase(p: CatParam)
    requires Staircase(p, 37)
    ensures Decode(37) == Setting(7, 100, 7) && p.k == 7
    ensures p.ageValue[..7] == [18, 36, 54, 72, 90, 108, 126]
    ensures p.thresholdNs[..6] ==
            [10_000_000_000, 20_000_000_000, 45_000_000_000, 90_000_000_000, 180_000_000_000, 360_000_000_000]
  {
    assert Thirds(37 / (SCALE_N * RATIO_N)) == [30, 60, 135, 270, 540, 1080];
  }

  /** watgc_v2_set_arm: tabulates the staircase of an arm. */
  method SetArm(arm: nat) returns (p: CatParam)
    requires arm < ARMS
    ensures Staircase(p, arm)
  {
    hide AgeStep, Threshold, Thirds;
    var s := Decode(arm);
    var ki := arm / (SCALE_N * RATIO_N);
    assert ki == arm / RATIO_N / SCALE_N;
    var thresholdNs, ageValue := seq(9, _ => 0), seq(10, _ => 0);
    var i: nat := 0;
    while i + 1 < s.k
      invariant i + 1 <= s.k && |thresholdNs| == 9
      invariant forall j :: 0 <= j < 9 ==>
                  thresholdNs[j] == if j < i then Threshold(Thirds(ki)[j], s.scalePct) else 0
    {
      thresholdNs := thresholdNs[i := Threshold(Thirds(ki)[i], s.scalePct)];
      i := i + 1;
    }
    i := 0;
    while i < s.k
      invariant i <= s.k && |ageValue| == 10
      invariant forall j :: 0 <= j < 10 ==> ageValue[j] == if j < i then AgeStep(s.ageRatio, s.k, j) else 0
    {
      ageValue := ageValue[i := AgeStep(s.ageRatio, s.k, i)];
      i := i + 1;
    }
    p := CatParam(s.k, thresholdNs, ageValue);
  }
}
