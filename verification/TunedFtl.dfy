/** A partition whose victim policy is the staircase that its tuner has in force. */
module TunedFtl {
  import opened Arith
  import opened Fractions
  import opened FtlState
  import opened FtlGc
  import opened FtlMirror
  import opened FtlCredits
  import opened HostWrite
  import opened HostRun
  import opened ConvFtl
  import opened Sampling
  import opened Tuner
  import opened Layouts
  import opened Geometry
  import Arms

  /** The lifetime counters that the tuner reads. */
  ghost function TotalsOf(s: Ftl): Totals {
    Totals(s.stats.totalHost, s.stats.totalGc, s.stats.totalGcs)
  }

  lemma CollectedTotals(y: Layout, s: Ftl, u: Ftl, victim: nat)
    requires Collected(y, s, u, victim)
    ensures Inv(y, u) && u.stats.totalHost == s.stats.totalHost && u.stats.totalGcs == s.stats.totalGcs + 1
    ensures s.stats.totalGc <= u.stats.totalGc <= s.stats.totalGc + y.perLine
  {
    hide MapsAgree, CountersAgree, Conserved, Layout.Ok, CollectedBy, SameContent, Erased, Room;
    assert s.vpc[victim] <= y.perLine;
  }

  lemma HoldsStats(f: ConvFtl, s: Ftl)
    requires f.Holds(s)
    ensures f.stats == s.stats && f.freeLineCnt == |s.free| && f.writeCredits == s.credits
    ensures Inv(f.y, s) ==> forall l :: l in s.victims ==> l < f.lines.Length
  {
    hide MapsAgree, CountersAgree, LinesAgree, Conserved, Layout.Ok, Lays, ConvFtl.MapOk, ConvFtl.RmapOk,
      ConvFtl.StatusOk, ConvFtl.BlocksOk, ConvFtl.PointersOk;
    if Inv(f.y, s) {
      forall l | l in s.victims
        ensures l < f.lines.Length
      {
        VictimNotOpen(f.y, s, l);
      }
    }
  }

  lemma ParamOk(t: Tuner)
    requires t.Valid()
    ensures t.param.Ok()
  {
    hide Arms.Staircase;
    Arms.StaircaseClimbs(t.param, t.currentArm);
  }

  /** The partition's life so far: a run of windows that ends in the one in progress, with one event for every
      collection, in order, and one window learned for every accepted sample.  The counters never went down. */
  ghost predicate Recorded(gauges: seq<Gauge>, events: seq<Event>, g: Gauge, now: Totals, windows: nat) {
    && RunOf(gauges, events) && gauges[|events|] == g && g.start.AtMost(now)
    && |events| == now.gcs && windows == Samples(gauges, events, |events|)
    && forall i :: 0 <= i < |events| ==> events[i].totals.gcs == i + 1 && events[i].totals.AtMost(now)
  }

  lemma RecordedOn(gauges: seq<Gauge>, events: seq<Event>, g: Gauge, now: Totals, windows: nat, e: Event)
    requires Recorded(gauges, events, g, now, windows) && now.AtMost(e.totals) && e.totals.gcs == now.gcs + 1
    ensures Recorded(gauges + [After(g, e)], events + [e], After(g, e), e.totals,
                     windows + if Sampled(g, e.totals) then 1 else 0)
  {
    hide Sampled, Enough, TimedOut;
    var gs, es := gauges + [After(g, e)], events + [e];
    forall i | 0 <= i < |es|
      ensures gs[i + 1] == After(gs[i], es[i])
    {
      if i < |events| {
        assert gauges[i + 1] == After(gauges[i], events[i]);
      }
    }
    SamplesOn(gauges, events, After(g, e), e, |events|);
  }

  /** Samples are so long that their number stays far below the host page counter. */
  lemma FewWindows(gauges: seq<Gauge>, events: seq<Event>, g: Gauge, now: Totals, windows: nat)
    requires Recorded(gauges, events, g, now, windows)
    ensures 65536 * windows <= SampledPages(gauges, events, |events|) <= now.host
  {
    SamplesTakePages(gauges, events, |events|);
    SampledPagesBounded(gauges, events, |events|);
  }

  lemma LaidOut(f: ConvFtl)
    requires f.Coupled() && Inv(f.y, f.st)
    ensures f.y.lines >= 2
  {
  }

  lemma NothingRecorded(y: Layout, g: Gauge)
    requires y.lines >= 2 && g.phase.Warmup? && g.start == Totals(0, 0, 0)
    ensures Recorded([g], [], g, TotalsOf(InitialState(y)), 0)
  {
  }

  /** The 64-bit page counters do not wrap in a collection. */
  ghost predicate InRange(y: Layout, s: Ftl) {
    s.stats.totalHost <= MAX64 && s.stats.totalGc + y.perLine <= MAX64
  }

  class TunedPartition {
    const f: ConvFtl
    const t: Tuner
    /** The window in progress before each collection reported to the tuner, and after the last. */
    ghost var gauges: seq<Gauge>
    ghost var events: seq<Event>

    ghost function Repr(): set<object> {
      {this, t, t.arm} + f.Repr()
    }

    ghost predicate Valid()
      reads Repr()
    {
      Holds(f.st)
    }

    /** The partition stands for `s`, and its tuner has been told the truth about it. */
    ghost predicate Holds(s: Ftl)
      reads Repr()
    {
      && {this, t, t.arm} !! f.Repr()
      && f.Holds(s) && Inv(f.y, s)
      && t.Valid() && Recorded(gauges, events, t.Gauging(), TotalsOf(s), t.windows)
    }

    /** A fresh partition; its tuner is warming up. */
    constructor (g: Geo)
      requires g.Ok() && g.ttLines >= 2
      ensures Valid() && fresh(Repr()) && f.g == g
      ensures f.st == InitialState(f.y) && events == []
      ensures Funded(f.y, f.st) <==> (g.ttLines - 3) * g.PgsPerLine() >= 2
    {
      hide Inv, ConvFtl.Holds, Tuner.Valid, Lays, Geo.Ok, InitialState, Funded, Recorded, RunOf, Samples,
        Geo.PgsPerLine;
      f := new ConvFtl(g);
      t := new Tuner();
      new;
      gauges, events := [t.Gauging()], [];
      LaidOut(f);
      NothingRecorded(f.y, t.Gauging());
    }

    /** do_gc with online learning: the victim is chosen and collected under the arm in force, and the completed
        collection is reported to the tuner together with the new counters. */
    method CollectAndLearn(force: bool, now: nat, later: nat, ghost s: Ftl) returns (rc: int, ghost u: Ftl)
      requires Holds(s) && s.free != [] && InRange(f.y, s)
      modifies Repr()
      ensures Holds(u) && (rc == 0 || rc == -1) && Grown(old(gauges), old(events), later)
      ensures u.stats.totalGc <= s.stats.totalGc + f.y.perLine
      ensures rc == -1 ==>
                && u == s && events == old(events)
                && forall l :: l in s.victims && l < f.y.lines && l < |s.vpc| ==>
                     !Eligible(s.vpc[l], f.y.perLine, force)
      ensures rc == 0 ==>
                && |events| == |old(events)| + 1
                && exists victim ::
                     Collected(f.y, s, u, victim)
                     && ChosenBy(old(t.param), old(f.lines[..]), s.victims, f.y.perLine, force, now, victim)
    {
      hide Inv, Collected, Chosen, ConvFtl.Holds, Tuner.Valid, Tuner.WindowObserved, Tuner.SameLearner, Sampled, Enough,
        TimedOut, Discards, RunOf, Recorded, After, Samples;
      ParamOk(t);
      HoldsStats(f, s);
      ghost var g, windows := t.Gauging(), t.windows;
      rc, u := f.DoGc(Cat(t.param), force, now, s);
      if rc == 0 {
        HoldsStats(f, u);
        ghost var victim :| Collected(f.y, s, u, victim);
        CollectedTotals(f.y, s, u, victim);
        MayReport(gauges, events, g, TotalsOf(s), windows, TotalsOf(u));
        t.OnGc(Totals(f.stats.totalHost, f.stats.totalGc, f.stats.totalGcs), later);
        ghost var e := Event(TotalsOf(u), later, t.currentArm);
        RecordedOn(gauges, events, g, TotalsOf(s), windows, e);
        gauges, events := gauges + [After(g, e)], events + [e];
      }
    }

    /** check_and_refill_write_credit, whose collection is by force and is reported to the tuner. */
    method Refill(now: nat, later: nat, ghost s: Ftl) returns (ghost u: Ftl)
      requires Holds(s) && s.free != [] && InRange(f.y, s)
      modifies Repr()
      ensures Holds(u) && Refilled(f.y, s, u) && Grown(old(gauges), old(events), later)
      ensures u.stats.totalGc <= s.stats.totalGc + f.y.perLine
    {
      hide Inv, Collected, CollectedBy, Chosen, ConvFtl.Holds, Tuner.Valid, Recorded, Layout.Ok, ChosenBy;
      HoldsStats(f, s);
      u := s;
      if f.writeCredits <= 0 {
        if f.freeLineCnt <= GC_THRES_LINES_HIGH {
          f.ForcedChoice(s);
          var rc;
          rc, u := CollectAndLearn(true, now, later, s);
          f.CollectedByAny(s, u);
        }
        assert Collects(f.y, s, u);
        CreditsInv(f.y, u, u.credits + u.refill);
        f.AddCredits(u);
        u := u.(credits := u.credits + u.refill);
      }
    }

    /** The write loop for one page of a partition that tunes itself. */
    method WritePage(lpn: nat, now: nat, later: nat, ghost v: Data)
      requires Valid() && Funded(f.y, f.st) && lpn < f.y.pages
      requires f.st.stats.totalHost < MAX64 && f.st.stats.totalGc + f.y.perLine <= MAX64
      modifies Repr()
      ensures Valid() && Grown(old(gauges), old(events), later)
      ensures FtlCredits.Fits(f.y, Mapped(old(f.st)) + {lpn}) ==> Funded(f.y, f.st)
      ensures Able(f.y, old(f.st), lpn) && HostStep(f.y, old(f.st), f.st, PageWrite(lpn, v), now)
      ensures Wrote(f.y, old(f.st), f.st, lpn, v)
      ensures f.st.stats.totalHost == old(f.st.stats.totalHost) + 1
      ensures f.st.stats.totalGc <= old(f.st.stats.totalGc) + f.y.perLine
    {
      hide Inv, ConvFtl.Holds, Tuner.Valid, Funded, FtlCredits.Fits, Wrote, Layout.Ok, Refilled, HostStep, Able, Paid,
        RunOf, Samples;
      ghost var s := f.st;
      ghost var x := f.StorePage(lpn, now, v, s);
      ghost var u := Refill(now, later, x);
      f.WriteStep(s, u, lpn, v, now);
      StepSound(f.y, s, u, PageWrite(lpn, v), now);
      f.st := u;
    }

    /** A run of page writes: every page holds what was last written to it, and the record has gone on. */
    method Serve(ws: seq<PageWrite>, nows: seq<nat>, laters: seq<nat>, ghost space: set<nat>)
      requires Valid() && Funded(f.y, f.st) && Roomy(f.y, space) && Mapped(f.st) <= space
      requires |nows| == |laters| == |ws| && forall w :: w in ws ==> w.lpn in space
      requires f.st.stats.totalHost + |ws| <= MAX64 && f.st.stats.totalGc + |ws| * f.y.perLine <= MAX64
      modifies Repr()
      ensures Valid() && Funded(f.y, f.st) && Mapped(f.st) <= space
      ensures forall k: nat :: Reading(f.st, k) == LastWrite(ws, k, Reading(old(f.st), k))
      ensures f.st.stats.totalHost == old(f.st.stats.totalHost) + |ws|
      ensures old(gauges) <= gauges && old(events) <= events
    {
      hide Inv, ConvFtl.Holds, Tuner.Valid, Funded, FtlCredits.Fits, Wrote, Layout.Ok, HostStep, Able, Recorded,
        Reading;
      var i: nat := 0;
      while i < |ws|
        invariant i <= |ws| && Valid() && Funded(f.y, f.st) && Mapped(f.st) <= space
        invariant forall k: nat :: Reading(f.st, k) == LastWrite(ws[..i], k, Reading(old(f.st), k))
        invariant f.st.stats.totalHost == old(f.st.stats.totalHost) + i
        invariant f.st.stats.totalGc <= old(f.st.stats.totalGc) + i * f.y.perLine
        invariant old(gauges) <= gauges && old(events) <= events
      {
        ghost var s := f.st;
        MulLe(i + 1, |ws|, f.y.perLine);
        FitsWithin(f.y, Mapped(s), ws[i].lpn, space);
        WritePage(ws[i].lpn, nows[i], laters[i], ws[i].v);
        WriteSeen(f.y, s, f.st, ws, i, old(f.st));
        i := i + 1;
      }
      assert ws[..i] == ws;
    }

    /** Whatever the partition has been through, the tuner was told of every collection and of nothing else, and what it
        has learned stems from windows of at least 65536 host pages each that share no page. */
    lemma Accounted()
      requires Valid()
      ensures RunOf(gauges, events) && |events| == f.st.stats.totalGcs
      ensures t.windows == Samples(gauges, events, |events|)
      ensures 65536 * t.windows <= SampledPages(gauges, events, |events|) <= f.st.stats.totalHost
    {
      hide Inv, ConvFtl.Holds, Tuner.Valid, RunOf, Samples;
      FewWindows(gauges, events, t.Gauging(), TotalsOf(f.st), t.windows);
    }

    /** A busy partition goes on learning: the windows learned keep up with the host pages. */
    lemma KeepsLearning(p: nat)
      requires Valid() && Busy(events, p) && |events| >= 100
      requires forall m: nat :: m < |events| && CompletedAt(gauges, events, m) ==> SampleAt(gauges, events, m)
      ensures events[|events| - 1].totals.host - events[99].totals.host <= (t.windows + 1) * (98304 + 96 * p)
    {
      hide Inv, ConvFtl.Holds, Tuner.Valid, RunOf, Samples, Busy, CompletedAt, SampleAt;
      SamplesKeepUp(gauges, events, p, |events|);
    }

    /** The record is kept, with at most one new entry, which was made at time `later`. */
    ghost predicate Grown(gs: seq<Gauge>, es: seq<Event>, later: nat)
      reads this
    {
      && gs <= gauges && es <= events && |gauges| - |gs| == |events| - |es| <= 1
      && (|events| > |es| ==> events[|es|].now == later)
    }
  }

  lemma WriteSeen(y: Layout, s: Ftl, t: Ftl, ws: seq<PageWrite>, i: nat, s0: Ftl)
    requires i < |ws| && Wrote(y, s, t, ws[i].lpn, ws[i].v)
    requires forall k: nat :: Reading(s, k) == LastWrite(ws[..i], k, Reading(s0, k))
    ensures Mapped(t) == Mapped(s) + {ws[i].lpn}
    ensures forall k: nat :: Reading(t, k) == LastWrite(ws[..i + 1], k, Reading(s0, k))
  {
    hide Inv, Reading, Wrote;
    WroteMapped(y, s, t, ws[i].lpn, ws[i].v);
    assert ws[..i + 1][..i] == ws[..i];
    forall k: nat
      ensures Reading(t, k) == LastWrite(ws[..i + 1], k, Reading(s0, k))
    {
      WroteReading(y, s, t, ws[i].lpn, ws[i].v, k);
    }
  }

  lemma MayReport(gauges: seq<Gauge>, events: seq<Event>, g: Gauge, now: Totals, windows: nat, later: Totals)
    requires Recorded(gauges, events, g, now, windows) && now.AtMost(later) && later.host <= MAX64
    ensures g.start.AtMost(later) && windows < MAX64
  {
    FewWindows(gauges, events, g, now, windows);
  }
}
