/** What the tables of a device remember of its run: when a page of a line was last invalidated, and what was written
    and collected since the counters started. */
module HostTrace {
  import opened Layouts
  import opened FtlState
  import opened FtlGc
  import opened FtlMirror
  import opened FtlCredits
  import opened HostWrite
  import opened HostRun

  // ---------- Stamps ----------

  /** A write of `lpn` invalidates a page of line `l`. */
  ghost predicate Hits(y: Layout, s: Ftl, lpn: nat, l: nat) {
    && lpn < |s.maptbl| && s.maptbl[lpn].Some?
    && s.maptbl[lpn].value < |y.lineOf| && y.lineOf[s.maptbl[lpn].value] == l
  }

  /** The lines of `a` are the last ones of `b`, in the same order. */
  ghost predicate Suffix(a: seq<nat>, b: seq<nat>) {
    |a| <= |b| && a == b[|b| - |a|..]
  }

  lemma SuffixTrans(a: seq<nat>, b: seq<nat>, c: seq<nat>)
    requires Suffix(a, b) && Suffix(b, c)
    ensures Suffix(a, c)
  {
  }

  lemma SuffixMembers(a: seq<nat>, b: seq<nat>)
    requires Suffix(a, b)
    ensures forall k :: k in a ==> k in b
  {
  }

  /** The time of the latest invalidation in line `l` before write `i`, or 0 if there was none since the line was free.
      */
  ghost function LatestHit(y: Layout, states: seq<Ftl>, ws: seq<PageWrite>, nows: seq<nat>, l: nat, i: nat): nat
    requires |states| == |ws| + 1 == |nows| + 1 && i < |states|
  {
    if i == 0 || l in states[i].free then 0
    else if Hits(y, states[i - 1], ws[i - 1].lpn, l) then nows[i - 1]
    else LatestHit(y, states, ws, nows, l, i - 1)
  }

  lemma AppendMarks(y: Layout, s: Ftl, lpn: nat, v: Data, io: IoType)
    requires Sized(y, s) && lpn < y.pages
    requires At(s, io).slot + 1 == y.perLine ==> s.free != []
    ensures var t := Append(y, s, lpn, v, io);
            t.stamp == s.stamp && t.stats == Tally(s.stats, io) && Suffix(t.free, s.free)
  {
    hide Layout.Ok;
  }

  lemma TrimMarks(y: Layout, s: Ftl, lpn: nat, x: nat, now: nat)
    requires Sized(y, s) && x < y.pages && lpn < y.pages
    requires s.vpc[y.lineOf[x]] > 0 && s.blkVpc[y.blkOf[x]] > 0
    ensures var t := Trim(y, s, lpn, x, now);
            t.stamp == s.stamp[y.lineOf[x] := now] && t.stats == s.stats && t.free == s.free
  {
    hide Layout.Ok;
  }

  /** A page write stamps the line whose page it invalidates, and no other. */
  lemma WriteMarks(y: Layout, s: Ftl, lpn: nat, v: Data, now: nat, l: nat)
    requires Inv(y, s) && lpn < y.pages && l < y.lines
    requires s.user.slot + 1 == y.perLine ==> s.free != []
    ensures var t := Write(y, s, lpn, v, now);
            && |t.stamp| == y.lines && t.stamp[l] == (if Hits(y, s, lpn, l) then now else s.stamp[l])
            && t.stats == Tally(s.stats, UserIo) && Suffix(t.free, s.free)
  {
    hide MapsAgree, CountersAgree, Placed, LinesAgree, Conserved, Layout.Bijective, TagsBounded, Append, Trim;
    UnmappedInv(y, s, lpn, now);
    AppendMarks(y, Unmapped(y, s, lpn, now), lpn, v, UserIo);
    if s.maptbl[lpn].Some? {
      SupersededOk(y, s, lpn);
      TrimMarks(y, s, lpn, s.maptbl[lpn].value, now);
    }
  }

  // ---------- Measured counters ----------

  /** The measured counters start with the hundredth collection, which is not counted itself. */
  ghost predicate Started(t: Stats) {
    && (t.measuring <==> t.totalGcs >= 100)
    && (t.measuring ==> t.gcCount == t.totalGcs - 100)
    && (!t.measuring ==> t.hostPages == t.gcPages == t.gcCount == 0)
  }

  /** From `a` to `b` the measured counters have moved with the lifetime counters. */
  ghost predicate Tracks(a: Stats, b: Stats) {
    && Started(b) && a.totalHost <= b.totalHost && a.totalGc <= b.totalGc && a.totalGcs <= b.totalGcs
    && (a.measuring ==>
          && b.hostPages - a.hostPages == b.totalHost - a.totalHost
          && b.gcPages - a.gcPages == b.totalGc - a.totalGc)
  }

  lemma TracksOn(a: Stats, b: Stats, c: Stats)
    requires Started(a) && Tracks(a, b) && Tracks(b, c)
    ensures Tracks(a, c)
  {
  }

  /** Copying leaves stamps alone, takes lines only from the free list, and counts only copies. */
  lemma CopyPageMarks(y: Layout, v: Ftl, x: nat)
    ensures var t := CopyPage(y, v, x);
            && t.stamp == v.stamp && Suffix(t.free, v.free)
            && t.stats.totalHost == v.stats.totalHost && (Started(v.stats) ==> Tracks(v.stats, t.stats))
  {
    hide MapsAgree, CountersAgree, Placed, LinesAgree, Conserved, Layout.Bijective, TagsBounded, Append, Rewrite, Trim;
    if CopyPage(y, v, x) != v {
      RewriteDef(y, v, x);
      var lpn := v.rmap[x].value;
      var u := Trim(y, v, lpn, x, v.stamp[y.lineOf[x]]);
      TrimMarks(y, v, lpn, x, v.stamp[y.lineOf[x]]);
      AppendMarks(y, u, lpn, v.data[x], GcIo);
      assert v.stamp[y.lineOf[x] := v.stamp[y.lineOf[x]]] == v.stamp;
    }
  }

  lemma {:induction false} CopyAllMarks(y: Layout, s: Ftl, order: seq<nat>)
    ensures var t := CopyAll(y, s, order);
            && t.stamp == s.stamp && Suffix(t.free, s.free)
            && t.stats.totalHost == s.stats.totalHost && (Started(s.stats) ==> Tracks(s.stats, t.stats))
  {
    hide CopyPage;
    if order != [] {
      var v := CopyAll(y, s, order[..|order| - 1]);
      CopyAllMarks(y, s, order[..|order| - 1]);
      CopyPageMarks(y, v, order[|order| - 1]);
      if Started(s.stats) {
        TracksOn(s.stats, v.stats, CopyAll(y, s, order).stats);
      }
    }
  }

  /** A collection forgets the stamp of the line it frees and no other, and is counted if counting has started. */
  lemma CollectionMarks(y: Layout, s: Ftl, t: Ftl, victim: nat, order: seq<nat>)
    requires CollectedBy(y, s, t, victim, order)
    ensures victim < y.lines == |s.stamp| && t.stamp == s.stamp[victim := 0]
    ensures t.free != [] && t.free[|t.free| - 1] == victim && Suffix(t.free[..|t.free| - 1], s.free)
    ensures t.stats.totalHost == s.stats.totalHost && (Started(s.stats) ==> Tracks(s.stats, t.stats))
  {
    hide Layout.Ok, CopyAll, EraseStatus, EraseCounts, ListsLine;
    var s0 := s.(refill := s.ipc[victim]);
    CopyAllMarks(y, s0, order);
  }

  // ---------- One step ----------

  /** A step stamps the line it invalidates a page of, and forgets the stamp of a line that it frees.  Lines are opened
      in the order in which they were freed. */
  lemma StepMarks(y: Layout, s: Ftl, u: Ftl, w: PageWrite, now: nat, l: nat)
    requires Able(y, s, w.lpn) && HostStep(y, s, u, w, now) && l < y.lines
    ensures |s.stamp| == |u.stamp| == y.lines
    ensures l !in u.free ==> u.stamp[l] == if Hits(y, s, w.lpn, l) then now else s.stamp[l]
    ensures l in u.free ==>
              u.stamp[l] == 0 || (l in s.free && u.stamp[l] == if Hits(y, s, w.lpn, l) then now else s.stamp[l])
    ensures Suffix(u.free, s.free) || (u.free != [] && Suffix(u.free[..|u.free| - 1], s.free))
    ensures Started(s.stats) ==> Tracks(s.stats, u.stats)
  {
    hide Inv, CollectedBy, Layout.Ok, Write, Started, Tracks, Hits, Suffix;
    var t := Paid(y, s, w, now);
    WriteMarks(y, s, w.lpn, w.v, now, l);
    SizedStamp(y, s);
    SuffixMembers(t.free, s.free);
    TallyTracks(s.stats);
    if t.credits == 0 {
      var c :| Collects(y, t, c) && u == c.(credits := c.credits + c.refill);
      if c != t {
        var victim: nat, order :| CollectedBy(y, t, c, victim, order);
        CollectionMarks(y, t, c, victim, order);
        SuffixTrans(c.free[..|c.free| - 1], t.free, s.free);
        SuffixMembers(c.free[..|c.free| - 1], t.free);
      }
      if Started(s.stats) {
        TracksStarted(s.stats, t.stats);
        SameTracks(t.stats);
        TracksOn(s.stats, t.stats, c.stats);
      }
    }
  }

  lemma SizedStamp(y: Layout, s: Ftl)
    requires Inv(y, s)
    ensures |s.stamp| == y.lines
  {
  }

  lemma TallyTracks(t: Stats)
    ensures Started(t) ==> Tracks(t, Tally(t, UserIo))
  {
  }

  lemma TracksStarted(a: Stats, b: Stats)
    requires Tracks(a, b)
    ensures Started(b)
  {
  }

  lemma SameTracks(t: Stats)
    requires Started(t)
    ensures Tracks(t, t)
  {
  }

  // ---------- Whole runs ----------

  /** In every run the stamp of a line is the time of the latest invalidation of one of its pages, or 0 if there was
      none since the line was free. */
  lemma {:induction false} StampsLatest(y: Layout, states: seq<Ftl>, ws: seq<PageWrite>, nows: seq<nat>, n: nat,
                                        l: nat, i: nat)
    requires HostRun.HostRun(y, states, ws, nows, n) && Provisioned(y, n) && l < y.lines && i < |states|
    ensures |states[i].stamp| == y.lines && states[i].stamp[l] == LatestHit(y, states, ws, nows, l, i)
  {
    hide Inv, Funded, HostStep, Able, FtlCredits.Fits, Layout.Ok, Hits, Started, Tracks;
    if i > 0 {
      StampsLatest(y, states, ws, nows, n, l, i - 1);
      NeverRunsOut(y, states, ws, nows, n, i - 1);
      assert HostStep(y, states[i - 1], states[i - 1 + 1], ws[i - 1], nows[i - 1]);
      StepMarks(y, states[i - 1], states[i], ws[i - 1], nows[i - 1], l);
      if l in states[i - 1].free {
        FreeNotHit(y, states[i - 1], ws[i - 1].lpn, l);
      }
    }
  }

  /** A free line has no page to invalidate. */
  lemma FreeNotHit(y: Layout, s: Ftl, lpn: nat, l: nat)
    requires Able(y, s, lpn) && l in s.free && l < y.lines
    ensures !Hits(y, s, lpn, l)
  {
    hide CountersAgree, Conserved, Layout.Bijective, TagsBounded;
    assert Erased(y, s, l);
  }

  /** In every run counting starts with the hundredth collection, and from then on the measured counters move with the
      lifetime counters. */
  lemma {:induction false} CountersTrack(y: Layout, states: seq<Ftl>, ws: seq<PageWrite>, nows: seq<nat>, n: nat,
                                         i: nat, j: nat)
    requires HostRun.HostRun(y, states, ws, nows, n) && Provisioned(y, n) && i <= j < |states|
    ensures Started(states[i].stats) && Tracks(states[i].stats, states[j].stats)
    decreases j
  {
    hide Inv, Funded, HostStep, Able, FtlCredits.Fits, Layout.Ok;
    if j > 0 {
      NeverRunsOut(y, states, ws, nows, n, j - 1);
      assert HostStep(y, states[j - 1], states[j - 1 + 1], ws[j - 1], nows[j - 1]);
      StepMarks(y, states[j - 1], states[j], ws[j - 1], nows[j - 1], 0);
      if i < j {
        CountersTrack(y, states, ws, nows, n, i, j - 1);
        TracksOn(states[i].stats, states[j - 1].stats, states[j].stats);
      } else {
        CountersTrack(y, states, ws, nows, n, j - 1, j - 1);
      }
    }
  }
}
