/** When the tuner measures: warm-up, burn-in and measuring windows, driven by the lifetime counters after every
    garbage collection, and what that guarantees about the accepted samples of a whole run. */
module Sampling {
  import opened Arith
  import opened Fractions
  import opened FixedPoint

  const WARMUP_GC: nat := 100
  const BURNIN_GC: nat := 32
  const BURNIN_HOST_PAGES: nat := 32768
  const WINDOW_GC: nat := 64
  const WINDOW_HOST_PAGES: nat := 65536
  const MAX_WINDOW_GC: nat := 4096
  const MAX_WINDOW_NS: nat := 300 * 1_000_000_000

  datatype Phase = Warmup | Burnin | Measure

  /** Lifetime counters of a partition. */
  datatype Totals = Totals(host: nat, gcPages: nat, gcs: nat) {
    ghost predicate AtMost(t: Totals) {
      host <= t.host && gcPages <= t.gcPages && gcs <= t.gcs
    }
  }

  /** The window in progress: its phase and arm, and the counters and the time at which it began. */
  datatype Gauge = Gauge(phase: Phase, arm: nat, start: Totals, startNs: nat)

  /** A collection has completed: the counters, the clock, and the arm the learner would name next. */
  datatype Event = Event(totals: Totals, now: nat, next: nat)

  /** The window covers the pages and the collections its phase asks for. */
  ghost predicate Enough(g: Gauge, t: Totals) {
    if g.phase.Burnin? then
      t.host - g.start.host >= BURNIN_HOST_PAGES && t.gcs - g.start.gcs >= BURNIN_GC
    else
      t.host - g.start.host >= WINDOW_HOST_PAGES && t.gcs - g.start.gcs >= WINDOW_GC
  }

  ghost predicate TimedOut(g: Gauge, t: Totals, now: nat) {
    t.gcs - g.start.gcs >= MAX_WINDOW_GC || (now >= g.startNs && now - g.startNs >= MAX_WINDOW_NS)
  }

  /** The interval's write amplification can be expressed and weighted. */
  ghost predicate Measurable(host: int, gc: int) {
    0 < host && 0 <= gc && host * ONE <= MAX64 && gc * ONE <= MAX64 && Quot(gc, host) < 65535
  }

  ghost predicate Sampled(g: Gauge, t: Totals) {
    g.phase.Measure? && Enough(g, t) && Measurable(t.host - g.start.host, t.gcPages - g.start.gcPages)
  }

  /** The window in progress is given up: too long without enough pages, or out of the numeric range. */
  ghost predicate Discards(g: Gauge, t: Totals, now: nat) {
    !g.phase.Warmup?
    && if !Enough(g, t) then TimedOut(g, t, now) else g.phase.Measure? && !Sampled(g, t)
  }

  /** The window after an event. */
  ghost function After(g: Gauge, e: Event): Gauge {
    if g.phase.Warmup? then
      if e.totals.gcs >= WARMUP_GC then Gauge(Burnin, g.arm, e.totals, e.now) else g
    else if !Enough(g, e.totals) then
      if TimedOut(g, e.totals, e.now) then Gauge(Burnin, g.arm, e.totals, e.now) else g
    else if g.phase.Burnin? then Gauge(Measure, g.arm, e.totals, e.now)
    else if !Sampled(g, e.totals) then Gauge(Burnin, g.arm, e.totals, e.now)
    else if e.next != g.arm then Gauge(Burnin, e.next, e.totals, e.now)
    else Gauge(Measure, g.arm, e.totals, e.now)
  }

  /** The windows `gs` before and after the events `es` of a device since it was initialised. */
  ghost predicate RunOf(gs: seq<Gauge>, es: seq<Event>) {
    && |gs| == |es| + 1
    && gs[0].phase.Warmup? && gs[0].start == Totals(0, 0, 0)
    && (forall i :: 0 <= i < |es| ==> gs[i + 1] == After(gs[i], es[i]))
    && (forall i, j :: 0 <= i < j < |es| ==> es[i].totals.AtMost(es[j].totals))
  }

  /** A window starts with counters the device has shown before. */
  lemma {:induction false} StartsInThePast(gs: seq<Gauge>, es: seq<Event>, i: nat, j: nat)
    requires RunOf(gs, es) && i <= j < |es|
    ensures gs[i].start.AtMost(es[j].totals)
  {
    if i > 0 {
      assert gs[i - 1 + 1] == After(gs[i - 1], es[i - 1]);
      StartsInThePast(gs, es, i - 1, j);
    }
  }

  lemma {:induction false} StartsAdvance(gs: seq<Gauge>, es: seq<Event>, i: nat, j: nat)
    requires RunOf(gs, es) && i <= j < |gs|
    ensures gs[i].start.AtMost(gs[j].start)
  {
    if i < j {
      StartsAdvance(gs, es, i, j - 1);
      StartsInThePast(gs, es, j - 1, j - 1);
      assert gs[j - 1 + 1] == After(gs[j - 1], es[j - 1]);
    }
  }

  /** Event `i` of the run yields an accepted sample of arm gs[i].arm over [gs[i].start, es[i].totals). */
  ghost predicate SampleAt(gs: seq<Gauge>, es: seq<Event>, i: nat) {
    i < |es| && i < |gs| && Sampled(gs[i], es[i].totals)
  }

  /** The intervals of two accepted samples do not overlap. */
  lemma SamplesDisjoint(gs: seq<Gauge>, es: seq<Event>, i: nat, j: nat)
    requires RunOf(gs, es) && SampleAt(gs, es, i) && SampleAt(gs, es, j) && i < j
    ensures es[i].totals.AtMost(gs[j].start)
  {
    assert gs[i + 1] == After(gs[i], es[i]);
    StartsAdvance(gs, es, i + 1, j);
  }

  /** A completed window is accepted exactly if its sums can be weighted in 64 bits and its write amplification is below
      65536. */
  lemma AcceptedInRange(gs: seq<Gauge>, es: seq<Event>, i: nat)
    requires i < |es| && i < |gs| && gs[i].start.AtMost(es[i].totals)
    ensures var host, gc := es[i].totals.host - gs[i].start.host, es[i].totals.gcPages - gs[i].start.gcPages;
            SampleAt(gs, es, i) <==>
            CompletedAt(gs, es, i) && host * 65536 <= MAX64 && gc * 65536 <= MAX64 && gc < 65535 * host
  {
    var host: nat, gc: nat := es[i].totals.host - gs[i].start.host, es[i].totals.gcPages - gs[i].start.gcPages;
    if host > 0 {
      assert gc == gc / host * host + gc % host;
      if gc < 65535 * host {
        if gc / host >= 65535 {
          MulLe(65535, gc / host, host);
        }
      } else if gc / host < 65535 {
        MulLe(gc / host + 1, 65535, host);
      }
    }
  }

  /** The arm changes only with an accepted sample, to the arm the learner names, which is burned in first. */
  lemma ArmChanges(gs: seq<Gauge>, es: seq<Event>, i: nat)
    requires RunOf(gs, es) && i < |es| && gs[i + 1].arm != gs[i].arm
    ensures SampleAt(gs, es, i) && gs[i + 1] == Gauge(Burnin, es[i].next, es[i].totals, es[i].now)
  {
    assert gs[i + 1] == After(gs[i], es[i]);
  }

  /** After an accepted sample the arm the learner names is in force. */
  lemma ArmNamed(gs: seq<Gauge>, es: seq<Event>, i: nat)
    requires RunOf(gs, es) && SampleAt(gs, es, i)
    ensures gs[i + 1].arm == es[i].next && gs[i + 1].start == es[i].totals
  {
    assert gs[i + 1] == After(gs[i], es[i]);
  }

  /** Host pages in the accepted samples of the first `n` events. */
  ghost function SampledPages(gs: seq<Gauge>, es: seq<Event>, n: nat): int
    requires n <= |es| < |gs|
  {
    if n == 0 then 0
    else SampledPages(gs, es, n - 1) +
         if SampleAt(gs, es, n - 1) then es[n - 1].totals.host - gs[n - 1].start.host else 0
  }

  /** No host page is counted in two samples: together they stay below the lifetime total. */
  lemma {:induction false} SampledPagesBounded(gs: seq<Gauge>, es: seq<Event>, n: nat)
    requires RunOf(gs, es) && n <= |es|
    ensures SampledPages(gs, es, n) <= gs[n].start.host
    ensures n > 0 ==> SampledPages(gs, es, n) <= es[n - 1].totals.host
  {
    if n > 0 {
      SampledPagesBounded(gs, es, n - 1);
      StartsInThePast(gs, es, n - 1, n - 1);
      assert gs[n - 1 + 1] == After(gs[n - 1], es[n - 1]);
    }
  }

  /** The accepted samples of the first `n` events. */
  ghost function Samples(gs: seq<Gauge>, es: seq<Event>, n: nat): nat
    requires n <= |es| < |gs|
  {
    if n == 0 then 0 else Samples(gs, es, n - 1) + if SampleAt(gs, es, n - 1) then 1 else 0
  }

  /** Every sample takes 65536 host pages of its own. */
  lemma {:induction false} SamplesTakePages(gs: seq<Gauge>, es: seq<Event>, n: nat)
    requires n <= |es| < |gs|
    ensures 65536 * Samples(gs, es, n) <= SampledPages(gs, es, n)
  {
    if n > 0 {
      SamplesTakePages(gs, es, n - 1);
    }
  }

  lemma {:induction false} SamplesOn(gs: seq<Gauge>, es: seq<Event>, g: Gauge, e: Event, n: nat)
    requires n <= |es| < |gs|
    ensures Samples(gs + [g], es + [e], n) == Samples(gs, es, n)
  {
    if n > 0 {
      SamplesOn(gs, es, g, e, n - 1);
    }
  }

  /** The window of state `i` began with event `b`, and nothing has changed since. */
  ghost predicate BeganAt(gs: seq<Gauge>, es: seq<Event>, b: nat, i: nat) {
    && b < i < |gs| && b < |es|
    && gs[b + 1].start == es[b].totals
    && (forall k :: b < k <= i ==> gs[k] == gs[i])
  }

  lemma {:induction false} Began(gs: seq<Gauge>, es: seq<Event>, i: nat) returns (b: nat)
    requires RunOf(gs, es) && i < |gs| && !gs[i].phase.Warmup?
    ensures BeganAt(gs, es, b, i) && gs[b] != gs[i]
  {
    assert gs[i - 1 + 1] == After(gs[i - 1], es[i - 1]);
    if gs[i - 1] == gs[i] {
      b := Began(gs, es, i - 1);
    } else {
      b := i - 1;
    }
  }

  /** Before state `i` a whole burn-in ran between the events `a` and `b`, and the arm has not changed since `a`. */
  ghost predicate BurnedIn(gs: seq<Gauge>, es: seq<Event>, a: nat, b: nat, i: nat) {
    && a < b < i < |gs| && b < |es|
    && gs[b].phase.Burnin? && gs[b].start == es[a].totals
    && es[b].totals.host - es[a].totals.host >= 32768
    && es[b].totals.gcs - es[a].totals.gcs >= 32
    && (forall k :: a < k <= i ==> gs[k].arm == gs[i].arm)
    && (forall k :: b < k <= i ==> gs[k].phase.Measure?)
  }

  /** A device measures only after a full burn-in with the arm it measures. */
  lemma {:induction false} MeasuresBurnedIn(gs: seq<Gauge>, es: seq<Event>, i: nat) returns (a: nat, b: nat)
    requires RunOf(gs, es) && i < |gs| && gs[i].phase.Measure?
    ensures BurnedIn(gs, es, a, b, i)
  {
    var o := Began(gs, es, i);
    assert gs[o + 1] == After(gs[o], es[o]);
    if gs[o].phase.Measure? {
      a, b := MeasuresBurnedIn(gs, es, o);
    } else {
      b := o;
      a := Began(gs, es, o);
    }
  }

  /** Every accepted sample covers at least 65536 host pages and 64 collections, during which the arm did not change,
      and follows a full burn-in with that arm since the last time another arm was in force. */
  lemma WindowDiscipline(gs: seq<Gauge>, es: seq<Event>, i: nat)
    requires RunOf(gs, es) && SampleAt(gs, es, i)
    ensures es[i].totals.host - gs[i].start.host >= 65536
    ensures es[i].totals.gcs - gs[i].start.gcs >= 64
    ensures exists a, b, m :: BurnedIn(gs, es, a, b, i) && BeganAt(gs, es, m, i) && b <= m
                              && forall j :: 0 <= j <= i && gs[j].arm != gs[i].arm ==> j <= a
  {
    var m := Began(gs, es, i);
    var a, b := MeasuresBurnedIn(gs, es, i);
    assert BurnedIn(gs, es, a, b, i) && BeganAt(gs, es, m, i);
  }

  // ---------- Progress ----------

  /** Event `i` ends a measuring window that is long enough, whether its sample is in range or not. */
  ghost predicate CompletedAt(gs: seq<Gauge>, es: seq<Event>, i: nat) {
    && i < |es| && i < |gs| && gs[i].phase.Measure?
    && es[i].totals.host - gs[i].start.host >= 65536 && es[i].totals.gcs - gs[i].start.gcs >= 64
  }

  ghost function Completed(gs: seq<Gauge>, es: seq<Event>, n: nat): nat
    requires n <= |es| < |gs|
  {
    if n == 0 then 0 else Completed(gs, es, n - 1) + if CompletedAt(gs, es, n - 1) then 1 else 0
  }

  /** A device that reports every collection, writes at most `p` host pages from one to the next, and is busy enough
      that no window runs out of time: between two collections that are 4096 collections or 300 seconds apart lie at
      least 65536 host pages and 64 collections. */
  ghost predicate Busy(es: seq<Event>, p: nat) {
    && (forall i :: 0 <= i < |es| ==> es[i].totals.gcs == i + 1)
    && (forall i :: 0 < i < |es| ==> es[i].totals.host <= es[i - 1].totals.host + p)
    && forall i, j :: 0 <= i < j < |es| && Apart(es[i], es[j]) ==>
         es[j].totals.host - es[i].totals.host >= 65536 && es[j].totals.gcs - es[i].totals.gcs >= 64
  }

  ghost predicate Apart(a: Event, b: Event) {
    b.totals.gcs - a.totals.gcs >= 4096 || b.now >= a.now + 300_000_000_000
  }

  /** Host pages of a whole burn-in and a whole measuring window, with what may be written up to the next collection. */
  function Burning(p: nat): nat {
    32768 + 32 * p
  }

  function Measuring(p: nat): nat {
    65536 + 64 * p
  }

  /** After the hundredth collection, and not before, the device has left warm-up. */
  lemma {:induction false} WarmupEnds(gs: seq<Gauge>, es: seq<Event>, i: nat)
    requires RunOf(gs, es) && i < |gs| && forall k :: 0 <= k < |es| ==> es[k].totals.gcs == k + 1
    ensures gs[i].phase.Warmup? <==> i < 100
    ensures i < 100 ==> gs[i] == gs[0]
  {
    if i > 0 {
      WarmupEnds(gs, es, i - 1);
      assert gs[i - 1 + 1] == After(gs[i - 1], es[i - 1]);
      assert es[i - 1].totals.gcs == i;
    }
  }

  function Times(p: int, k: int): int {
    p * k
  }

  lemma TimesNext(p: int, k: int)
    ensures Times(p, 0) == 0 && Times(p, k + 1) == Times(p, k) + p
  {
  }

  lemma TimesLe(p: nat, k: int, m: int)
    requires k <= m
    ensures Times(p, k) <= Times(p, m)
  {
  }

  /** The window in progress began with event `a`; since then at most `p` pages per collection were written, and it was
      not long enough before the last collection. */
  ghost predicate Underway(g: Gauge, es: seq<Event>, p: nat, a: nat, i: nat) {
    && a < i <= |es| && g.start == es[a].totals && g.startNs == es[a].now && !g.phase.Warmup?
    && g.start.host <= es[i - 1].totals.host <= g.start.host + Times(p, i - 1 - a)
    && (a + 1 < i ==> !Enough(g, es[i - 1].totals))
  }

  lemma {:induction false} AlwaysUnderway(gs: seq<Gauge>, es: seq<Event>, p: nat, i: nat) returns (a: nat)
    requires RunOf(gs, es) && Busy(es, p) && 100 <= i < |gs|
    ensures Underway(gs[i], es, p, a, i)
  {
    hide Times;
    WarmupEnds(gs, es, i);
    WarmupEnds(gs, es, i - 1);
    assert gs[i - 1 + 1] == After(gs[i - 1], es[i - 1]);
    TimesNext(p, 0);
    a := i - 1;
    if i > 100 {
      var b := AlwaysUnderway(gs, es, p, i - 1);
      InTime(gs[i - 1], es, p, b, i - 1);
      if !Enough(gs[i - 1], es[i - 1].totals) {
        a := b;
        TimesNext(p, i - 2 - b);
      }
    }
  }

  /** No window outlives 4096 collections or 300 seconds. */
  lemma WindowsEnd(gs: seq<Gauge>, es: seq<Event>, i: nat)
    requires RunOf(gs, es) && 0 < i < |gs| && !gs[i].phase.Warmup?
    ensures es[i - 1].totals.gcs < gs[i].start.gcs + 4096 && es[i - 1].now < gs[i].startNs + 300_000_000_000
  {
    assert gs[i - 1 + 1] == After(gs[i - 1], es[i - 1]);
  }

  /** A window that is not long enough has not run out of time. */
  lemma InTime(g: Gauge, es: seq<Event>, p: nat, a: nat, i: nat)
    requires Busy(es, p) && Underway(g, es, p, a, i) && i < |es|
    ensures !Enough(g, es[i].totals) ==> !TimedOut(g, es[i].totals, es[i].now)
  {
    hide Times;
    assert Apart(es[a], es[i]) <==> TimedOut(g, es[i].totals, es[i].now);
  }

  /** What the window in progress has seen by the last collection, and the burn-in before it. */
  ghost function Pending(g: Gauge, es: seq<Event>, p: nat, i: nat): int
    requires 0 < i <= |es|
  {
    es[i - 1].totals.host - g.start.host + if g.phase.Measure? then Burning(p) else 0
  }

  /** One more collection: its pages are those of the window in progress, which ends before it has seen too many. */
  lemma PendingNext(gs: seq<Gauge>, es: seq<Event>, p: nat, i: nat)
    requires RunOf(gs, es) && Busy(es, p) && 100 <= i < |es|
    ensures es[i].totals.host - es[i - 1].totals.host + Pending(gs[i], es, p, i) <=
            Pending(gs[i + 1], es, p, i + 1) + if CompletedAt(gs, es, i) then Burning(p) + Measuring(p) else 0
  {
    hide Times;
    var a := AlwaysUnderway(gs, es, p, i);
    var g, e := gs[i], es[i].totals;
    assert gs[i + 1] == After(g, es[i]);
    if !Enough(g, e) {
      InTime(g, es, p, a, i);
    } else {
      Stops(g, es, p, a, i);
    }
  }

  /** When a window is first long enough it is not much too long. */
  lemma Stops(g: Gauge, es: seq<Event>, p: nat, a: nat, i: nat)
    requires Busy(es, p) && Underway(g, es, p, a, i) && i < |es|
    ensures es[i].totals.host - g.start.host <= if g.phase.Burnin? then Burning(p) else Measuring(p)
  {
    hide Times;
    TimesNext(p, i - 1 - a);
    WindowPages(p);
    if a + 1 == i {
      TimesNext(p, 0);
    } else if g.phase.Burnin? && i - 1 - a < 32 {
      TimesLe(p, i - a, 32);
    } else if i - 1 - a < 64 {
      TimesLe(p, i - a, 64);
    }
  }

  lemma WindowPages(p: nat)
    ensures Burning(p) == 32768 + Times(p, 32) >= p && Measuring(p) == 65536 + Times(p, 64) >= p
    ensures Burning(p) + Measuring(p) == 98304 + 96 * p
  {
  }

  lemma {:induction false} PendingGrows(gs: seq<Gauge>, es: seq<Event>, p: nat, i: nat, n: nat)
    requires RunOf(gs, es) && Busy(es, p) && 100 <= i <= n <= |es|
    ensures Completed(gs, es, i) <= Completed(gs, es, n)
    ensures es[n - 1].totals.host - es[i - 1].totals.host <=
            Times(98304 + 96 * p, Completed(gs, es, n) - Completed(gs, es, i)) + Pending(gs[n], es, p, n)
  {
    hide Times, Pending, After, Busy, CompletedAt, Burning, Measuring;
    if i < n {
      PendingGrows(gs, es, p, i, n - 1);
      PendingNext(gs, es, p, n - 1);
      WindowPages(p);
      TimesNext(98304 + 96 * p, Completed(gs, es, n - 1) - Completed(gs, es, i));
    } else {
      var a := AlwaysUnderway(gs, es, p, n);
      PendingBound(gs[n], es, p, a, n);
      TimesNext(98304 + 96 * p, 0);
    }
  }

  /** The tuner goes on measuring: of a busy device, every stretch of more pages than a burn-in and a measuring window
      take completes a measuring window. */
  lemma KeepsMeasuring(gs: seq<Gauge>, es: seq<Event>, p: nat, i: nat, n: nat)
    requires RunOf(gs, es) && Busy(es, p) && 100 <= i <= n <= |es|
    ensures Completed(gs, es, i) <= Completed(gs, es, n)
    ensures es[n - 1].totals.host - es[i - 1].totals.host <=
            (Completed(gs, es, n) - Completed(gs, es, i) + 1) * (98304 + 96 * p)
  {
    hide Pending, After, Busy, CompletedAt, Completed;
    var a := AlwaysUnderway(gs, es, p, n);
    PendingGrows(gs, es, p, i, n);
    PendingBound(gs[n], es, p, a, n);
    var c, b := Completed(gs, es, n) - Completed(gs, es, i), 98304 + 96 * p;
    TimesNext(b, c);
    assert Times(b, c + 1) == (c + 1) * b;
  }

  lemma {:induction false} CompletedMore(gs: seq<Gauge>, es: seq<Event>, i: nat, n: nat)
    requires i <= n <= |es| < |gs| && Completed(gs, es, i) < Completed(gs, es, n)
    ensures exists m :: i <= m < n && CompletedAt(gs, es, m)
  {
    if !CompletedAt(gs, es, n - 1) {
      CompletedMore(gs, es, i, n - 1);
    }
  }

  /** So the next measuring window is complete before that many pages have been written. */
  lemma MeasuresSoon(gs: seq<Gauge>, es: seq<Event>, p: nat, i: nat, n: nat)
    requires RunOf(gs, es) && Busy(es, p) && 100 <= i <= n <= |es|
    requires es[n - 1].totals.host - es[i - 1].totals.host > 98304 + 96 * p
    ensures exists m :: i <= m < n && CompletedAt(gs, es, m)
  {
    hide After, Busy, CompletedAt, Completed;
    KeepsMeasuring(gs, es, p, i, n);
    CompletedMore(gs, es, i, n);
  }

  /** While samples stay in range every completed window is one: their number keeps up with the host pages. */
  lemma SamplesKeepUp(gs: seq<Gauge>, es: seq<Event>, p: nat, n: nat)
    requires RunOf(gs, es) && Busy(es, p) && 100 <= n <= |es|
    requires forall m: nat :: m < n && CompletedAt(gs, es, m) ==> SampleAt(gs, es, m)
    ensures es[n - 1].totals.host - es[99].totals.host <= (Samples(gs, es, n) + 1) * (98304 + 96 * p)
  {
    hide After, CompletedAt, SampleAt;
    KeepsMeasuring(gs, es, p, 100, n);
    AllSampled(gs, es, n);
    NoneWarm(gs, es, 100);
  }

  lemma {:induction false} AllSampled(gs: seq<Gauge>, es: seq<Event>, n: nat)
    requires n <= |es| < |gs|
    requires forall m: nat :: m < n && CompletedAt(gs, es, m) ==> SampleAt(gs, es, m)
    ensures Samples(gs, es, n) == Completed(gs, es, n)
  {
    if n > 0 {
      AllSampled(gs, es, n - 1);
      assert SampleAt(gs, es, n - 1) ==> CompletedAt(gs, es, n - 1);
    }
  }

  /** Nothing is measured in warm-up. */
  lemma {:induction false} NoneWarm(gs: seq<Gauge>, es: seq<Event>, n: nat)
    requires RunOf(gs, es) && n <= 100 && n <= |es| && forall k :: 0 <= k < |es| ==> es[k].totals.gcs == k + 1
    ensures Completed(gs, es, n) == 0
  {
    if n > 0 {
      NoneWarm(gs, es, n - 1);
      WarmupEnds(gs, es, n - 1);
    }
  }

  lemma PendingBound(g: Gauge, es: seq<Event>, p: nat, a: nat, i: nat)
    requires Busy(es, p) && Underway(g, es, p, a, i)
    ensures 0 <= Pending(g, es, p, i) <= 98304 + 96 * p
  {
    hide Times;
    WindowPages(p);
    if a + 1 == i {
      TimesNext(p, 0);
    } else if g.phase.Burnin? && i - 1 - a < 32 {
      TimesLe(p, i - 1 - a, 32);
    } else if i - 1 - a < 64 {
      TimesLe(p, i - 1 - a, 64);
    }
  }
}
