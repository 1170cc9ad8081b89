/** Whole runs of host writes: the flow control keeps every reachable state able to take the next write. */
module HostRun {
  import opened Util
  import opened Layouts
  import opened Counts
  import opened FtlState
  import opened FtlGc
  import opened FtlMirror
  import opened FtlCredits
  import opened HostWrite

  lemma CreditsInv(y: Layout, s: Ftl, n: nat)
    requires Inv(y, s)
    ensures Inv(y, s.(credits := n)) && SameContent(y, s, s.(credits := n)) && Mapped(s.(credits := n)) == Mapped(s)
  {
    hide Layout.Ok, Counted, Closed, Erased, Places.Partition, Sum;
    var t := s.(credits := n);
    assert Mapped(t) == Mapped(s);
    assert PlacesOf(t) == PlacesOf(s);
    SameStatus(y, s, t);
  }

  /** What foreground_gc does: one line is collected when at most two lines are free, if there is any to collect. */
  ghost predicate Collects(y: Layout, s: Ftl, t: Ftl) {
    if |s.free| > GC_THRES_LINES_HIGH || s.victims == {} then t == s
    else exists victim, order :: CollectedBy(y, s, t, victim, order)
  }

  /** What check_and_refill_write_credit does. */
  ghost predicate Refilled(y: Layout, s: Ftl, u: Ftl) {
    && (s.credits > 0 ==> u == s)
    && (s.credits == 0 ==> exists t :: Collects(y, s, t) && u == t.(credits := t.credits + t.refill))
  }

  /** Both states are sound and read alike; no host page was written between them. */
  ghost predicate Keeps(y: Layout, s: Ftl, t: Ftl) {
    Inv(y, s) && Inv(y, t) && SameContent(y, s, t) && t.stats.totalHost == s.stats.totalHost
  }

  /** What foreground_gc leaves: the same state if it has nothing to do or to collect, else as much more room as it
      lets the host refill. */
  lemma CollectsRoom(y: Layout, s: Ftl, t: Ftl)
    requires Inv(y, s) && Reserve(y, s) && 1 <= s.refill <= y.perLine && Collects(y, s, t)
    ensures Keeps(y, s, t) && t.credits == s.credits && 1 <= t.refill <= y.perLine
    ensures if |s.free| > GC_THRES_LINES_HIGH || s.victims == {} then t == s else Room(y, t) == Room(y, s) + t.refill
  {
    hide MapsAgree, CountersAgree, Placed, LinesAgree, Conserved, Layout.Ok, Reserve, CollectedBy, Content;
    CollectorFindsLine(y, s);
    if |s.free| <= GC_THRES_LINES_HIGH && s.victims != {} {
      var victim: nat, order :| CollectedBy(y, s, t, victim, order);
      CollectedSteps(y, s, t, victim, order);
    }
  }

  /** However the refill goes, the state it leaves is funded, as long as the logical space in use fits. */
  lemma CollectsFunds(y: Layout, s: Ftl, t: Ftl)
    requires Inv(y, s) && Reserve(y, s) && 1 <= s.refill <= y.perLine && s.credits == 0 && Collects(y, s, t)
    ensures Keeps(y, s, t.(credits := t.credits + t.refill))
    ensures Fits(y, Mapped(s)) ==> Funded(y, t.(credits := t.credits + t.refill))
  {
    hide MapsAgree, CountersAgree, Placed, LinesAgree, Conserved, Layout.Ok, Reserve, SameContent, Room, Content,
      CollectedBy;
    var u := t.(credits := t.credits + t.refill);
    CollectsRoom(y, s, t);
    CreditsInv(y, t, u.credits);
    SameContentTrans(y, s, t, u);
    if |s.free| > GC_THRES_LINES_HIGH {
      RefillPlenty(y, s);
    } else if s.victims != {} {
      RefillCollected(y, s, t, t.refill);
      assert u == t.(credits := t.refill, refill := t.refill);
    } else {
      NoVictimMapped(y, s);
    }
  }

  lemma RefilledFunds(y: Layout, s: Ftl, u: Ftl)
    requires Inv(y, s) && Reserve(y, s) && 1 <= s.refill <= y.perLine && Refilled(y, s, u)
    ensures Keeps(y, s, u) && (Fits(y, Mapped(s)) ==> Funded(y, u))
  {
    hide MapsAgree, CountersAgree, Placed, LinesAgree, Conserved, Layout.Ok, Reserve, Collects, Fits;
    if s.credits == 0 {
      var t :| Collects(y, s, t) && u == t.(credits := t.credits + t.refill);
      CollectsFunds(y, s, t);
    }
  }

  /** The device can take a write of `lpn`: its tables are sound, a credit is there, and a free line if the open one
      fills up. */
  ghost predicate Able(y: Layout, s: Ftl, lpn: nat) {
    && Inv(y, s) && lpn < y.pages && s.credits > 0
    && (s.user.slot + 1 == y.perLine ==> s.free != [])
  }

  /** One iteration of the write loop: the page is written, a credit is spent, and credits are refilled if none is left.
      Nothing is said about a device that cannot take the write. */
  ghost predicate HostStep(y: Layout, s: Ftl, u: Ftl, w: PageWrite, now: nat) {
    Able(y, s, w.lpn) ==> Refilled(y, Paid(y, s, w, now), u)
  }

  /** The state after the page is written and its credit spent. */
  ghost function Paid(y: Layout, s: Ftl, w: PageWrite, now: nat): Ftl
    requires Able(y, s, w.lpn)
  {
    Write(y, s, w.lpn, w.v, now).(credits := s.credits - 1)
  }

  /** The step does to the contents what a write should; a funded state stays funded while the space in use fits. */
  lemma StepSound(y: Layout, s: Ftl, u: Ftl, w: PageWrite, now: nat)
    requires HostStep(y, s, u, w, now) && Inv(y, s) && Funded(y, s) && w.lpn < y.pages
    ensures Inv(y, u) && Wrote(y, s, u, w.lpn, w.v) && Mapped(u) == Mapped(s) + {w.lpn}
    ensures Fits(y, Mapped(s) + {w.lpn}) ==> Funded(y, u)
    ensures u.stats.totalHost == s.stats.totalHost + 1
  {
    hide Inv, Refilled, Reserve, Wrote, Layout.Ok, SameContent, Unmapped, Append, Fits;
    WriteFunds(y, s, w.lpn, w.v, now);
    WriteInv(y, s, w.lpn, w.v, now);
    var t := Write(y, s, w.lpn, w.v, now);
    CreditsInv(y, t, s.credits - 1);
    RefilledFunds(y, t.(credits := s.credits - 1), u);
    WroteOn(y, s, t, u, s.credits - 1, w);
    WroteMapped(y, s, u, w.lpn, w.v);
  }

  lemma WroteOn(y: Layout, s: Ftl, t: Ftl, u: Ftl, n: nat, w: PageWrite)
    requires Wrote(y, s, t, w.lpn, w.v) && Inv(y, u) && Inv(y, t.(credits := n)) && SameContent(y, t.(credits := n), u)
    ensures Wrote(y, s, u, w.lpn, w.v)
  {
    hide CountersAgree, Placed, LinesAgree, Conserved, Layout.Ok;
    forall k | 0 <= k < y.pages
      ensures Content(u, k) == if k == w.lpn then Some(w.v) else Content(s, k)
    {
      assert Content(t, k) == if k == w.lpn then Some(w.v) else Content(s, k);
      assert Content(t.(credits := n), k) == Content(t, k);
    }
  }

  /** The collector has a line to copy to and, when it is forced to run, a line worth collecting. */
  ghost predicate CanCollect(t: Ftl) {
    && t.free != []
    && (|t.free| <= GC_THRES_LINES_HIGH ==> exists l :: l in t.victims && l < |t.ipc| && t.ipc[l] > 0)
  }

  /** A funded state takes any write that fits: there is a credit to spend, a line for the page, and, if credits run
      out when few lines are free, a victim to collect and a free line to copy to. */
  lemma NoStall(y: Layout, s: Ftl, w: PageWrite, now: nat)
    requires Inv(y, s) && Funded(y, s) && w.lpn < y.pages && Fits(y, Mapped(s) + {w.lpn})
    ensures Able(y, s, w.lpn) && CanCollect(Paid(y, s, w, now))
  {
    hide Inv, Reserve, Wrote, Layout.Ok, Unmapped, Append;
    WriteFunds(y, s, w.lpn, w.v, now);
    WriteInv(y, s, w.lpn, w.v, now);
    var t := Write(y, s, w.lpn, w.v, now);
    CreditsInv(y, t, s.credits - 1);
    StillRoom(y, t.(credits := s.credits - 1));
  }

  lemma StillRoom(y: Layout, t: Ftl)
    requires Inv(y, t) && Reserve(y, t) && Fits(y, Mapped(t))
    ensures CanCollect(t)
  {
    hide MapsAgree, CountersAgree, Conserved, Layout.Ok, Filling;
    ReserveFree(y, t);
    if |t.free| <= GC_THRES_LINES_HIGH {
      VictimExists(y, t);
      var l :| l in t.victims;
      VictimNotOpen(y, t, l);
      assert t.ipc[l] > 0;
    }
  }

  // ---------- Progress ----------

  /** The refill always has an outcome. */
  lemma RefillExists(y: Layout, s: Ftl)
    requires Inv(y, s) && s.free != []
    ensures exists u :: Refilled(y, s, u)
  {
    hide Inv, Layout.Ok, CollectedBy;
    if s.credits > 0 {
      assert Refilled(y, s, s);
    } else if |s.free| > GC_THRES_LINES_HIGH || s.victims == {} {
      assert Collects(y, s, s);
      assert Refilled(y, s, s.(credits := s.credits + s.refill));
    } else {
      var victim :| victim in s.victims;
      CollectionExists(y, s, victim);
      var t, order :| CollectedBy(y, s, t, victim, order);
      assert Collects(y, s, t);
      assert Refilled(y, s, t.(credits := t.credits + t.refill));
    }
  }

  lemma ReserveFree(y: Layout, s: Ftl)
    requires Inv(y, s) && Reserve(y, s)
    ensures s.free != []
  {
    hide MapsAgree, CountersAgree, Placed, LinesAgree, Conserved, Layout.Ok, Reserve;
    CollectorFindsLine(y, s);
  }

  /** A funded device carries out any write. */
  lemma StepExists(y: Layout, s: Ftl, w: PageWrite, now: nat)
    requires Inv(y, s) && Funded(y, s) && w.lpn < y.pages
    ensures Able(y, s, w.lpn) && exists u :: Refilled(y, Paid(y, s, w, now), u)
  {
    hide Inv, Reserve, Wrote, Layout.Ok, Unmapped, Append, Refilled;
    WriteFunds(y, s, w.lpn, w.v, now);
    WriteInv(y, s, w.lpn, w.v, now);
    var t := Write(y, s, w.lpn, w.v, now);
    CreditsInv(y, t, s.credits - 1);
    ReserveFree(y, t.(credits := s.credits - 1));
    RefillExists(y, t.(credits := s.credits - 1));
    FundedAble(y, s, w.lpn);
    assert Paid(y, s, w, now) == t.(credits := s.credits - 1);
  }

  // ---------- Whole runs ----------

  /** The states of a fresh device that is asked for the writes `ws` to a logical space of `n` pages. */
  ghost predicate HostRun(y: Layout, states: seq<Ftl>, ws: seq<PageWrite>, nows: seq<nat>, n: nat) {
    && |states| == |ws| + 1 == |nows| + 1
    && y.Ok() && y.lines >= 2 && states[0] == InitialState(y)
    && n <= y.pages
    && forall i :: 0 <= i < |ws| ==> ws[i].lpn < n && HostStep(y, states[i], states[i + 1], ws[i], nows[i])
  }

  /** Enough lines for the reserve, and a logical space that leaves more than four of them over. */
  ghost predicate Provisioned(y: Layout, n: nat) {
    (y.lines - 3) * y.perLine >= 2 && n < (y.lines - 4) * y.perLine
  }

  /** On a provisioned device every state of every run is sound and funded and can take any further write. */
  lemma {:induction false} NeverRunsOut(y: Layout, states: seq<Ftl>, ws: seq<PageWrite>, nows: seq<nat>, n: nat, i: nat)
    requires HostRun(y, states, ws, nows, n) && i < |states| && Provisioned(y, n)
    ensures Inv(y, states[i]) && Funded(y, states[i]) && forall k :: k in Mapped(states[i]) ==> k < n
    ensures forall lpn: nat :: lpn < n ==> Able(y, states[i], lpn) && Fits(y, Mapped(states[i]) + {lpn})
    ensures states[i].stats.totalHost == i
  {
    hide Inv, Reserve, HostStep, Wrote, Layout.Ok, Fits;
    if i == 0 {
      InitialInv(y);
      PerLinePositive(y);
      InitialFunded(y);
      assert Mapped(states[0]) == {};
    } else {
      NeverRunsOut(y, states, ws, nows, n, i - 1);
      assert HostStep(y, states[i - 1], states[i - 1 + 1], ws[i - 1], nows[i - 1]);
      StepSound(y, states[i - 1], states[i], ws[i - 1], nows[i - 1]);
    }
    forall lpn: nat | lpn < n
      ensures Able(y, states[i], lpn) && Fits(y, Mapped(states[i]) + {lpn})
    {
      SpaceFits(y, Mapped(states[i]) + {lpn}, n);
      FundedAble(y, states[i], lpn);
    }
  }

  lemma SpaceFits(y: Layout, mapped: set<nat>, n: nat)
    requires (forall k :: k in mapped ==> k < n) && n < (y.lines - 4) * y.perLine
    ensures Fits(y, mapped)
  {
    BelowSize(mapped, n);
  }

  lemma FundedAble(y: Layout, s: Ftl, lpn: nat)
    requires Inv(y, s) && Funded(y, s) && lpn < y.pages
    ensures Able(y, s, lpn)
  {
    hide MapsAgree, CountersAgree, Placed, LinesAgree, Conserved, Layout.Ok, Reserve;
    if s.user.slot + 1 == y.perLine {
      HostFindsLine(y, s);
    }
  }

  /** Every list of writes below `n` can be carried out from beginning to end. */
  lemma {:induction false} RunExists(y: Layout, ws: seq<PageWrite>, nows: seq<nat>, n: nat)
    requires y.Ok() && y.lines >= 2 && n <= y.pages && Provisioned(y, n)
    requires |nows| == |ws| && forall i :: 0 <= i < |ws| ==> ws[i].lpn < n
    ensures exists states :: HostRun(y, states, ws, nows, n)
  {
    hide Inv, Layout.Ok, Funded, Refilled, Paid;
    if ws == [] {
      assert HostRun(y, [InitialState(y)], ws, nows, n);
    } else {
      var m := |ws| - 1;
      RunExists(y, ws[..m], nows[..m], n);
      var states :| HostRun(y, states, ws[..m], nows[..m], n);
      NeverRunsOut(y, states, ws[..m], nows[..m], n, m);
      StepExists(y, states[m], ws[m], nows[m]);
      var u :| Refilled(y, Paid(y, states[m], ws[m], nows[m]), u);
      RunLonger(y, states, ws, nows, n, u);
    }
  }

  lemma RunLonger(y: Layout, states: seq<Ftl>, ws: seq<PageWrite>, nows: seq<nat>, n: nat, u: Ftl)
    requires ws != [] && |nows| == |ws| && ws[|ws| - 1].lpn < n
    requires HostRun(y, states, ws[..|ws| - 1], nows[..|ws| - 1], n)
    requires HostStep(y, states[|ws| - 1], u, ws[|ws| - 1], nows[|ws| - 1])
    ensures HostRun(y, states + [u], ws, nows, n)
  {
    hide HostStep, Layout.Ok;
    var m := |ws| - 1;
    forall i | 0 <= i < |ws|
      ensures ws[i].lpn < n && HostStep(y, (states + [u])[i], (states + [u])[i + 1], ws[i], nows[i])
    {
      if i < m {
        assert ws[..m][i].lpn < n && HostStep(y, states[i], states[i + 1], ws[..m][i], nows[..m][i]);
      }
    }
  }

  /** In every run, across all its collections, a read of a logical page returns the last write to it. */
  lemma {:induction false} ReadsLastWrite(y: Layout, states: seq<Ftl>, ws: seq<PageWrite>, nows: seq<nat>, n: nat,
                                          k: nat, i: nat)
    requires HostRun(y, states, ws, nows, n) && Provisioned(y, n) && k < y.pages && i < |states|
    ensures Inv(y, states[i]) && Content(states[i], k) == LastWrite(ws[..i], k, None)
  {
    hide Inv, Funded, HostStep, Wrote, Layout.Ok, Able;
    NeverRunsOut(y, states, ws, nows, n, i);
    if i == 0 {
      InitialInv(y);
    } else {
      ReadsLastWrite(y, states, ws, nows, n, k, i - 1);
      NeverRunsOut(y, states, ws, nows, n, i - 1);
      assert HostStep(y, states[i - 1], states[i - 1 + 1], ws[i - 1], nows[i - 1]);
      StepSound(y, states[i - 1], states[i], ws[i - 1], nows[i - 1]);
      WroteContentAt(y, states[i - 1], states[i], ws[i - 1], k);
      assert ws[..i][..i - 1] == ws[..i - 1];
    }
  }

  lemma WroteContentAt(y: Layout, s: Ftl, t: Ftl, w: PageWrite, k: nat)
    requires Wrote(y, s, t, w.lpn, w.v) && k < y.pages
    ensures Inv(y, s) && Inv(y, t) && Content(t, k) == if k == w.lpn then Some(w.v) else Content(s, k)
  {
  }

  /** The write amplification reported after `i` host writes is determined by the tables: the programmed pages are the
      mapped ones, the invalid ones still counted, and one line for every collection. */
  lemma ProgrammedPages(y: Layout, states: seq<Ftl>, ws: seq<PageWrite>, nows: seq<nat>, n: nat, i: nat)
    requires HostRun(y, states, ws, nows, n) && i < |states| && Provisioned(y, n)
    ensures i + states[i].stats.totalGc ==
            |Mapped(states[i])| + Sum(states[i].ipc) + y.perLine * states[i].stats.totalGcs
  {
    hide HostRun, Layout.Ok, Funded;
    NeverRunsOut(y, states, ws, nows, n, i);
  }

  lemma PerLinePositive(y: Layout)
    requires (y.lines - 3) * y.perLine >= 2
    ensures y.perLine > 0
  {
  }
}
