/** The bound on the logical space is tight: write as many different pages as leave four lines over, and a collection is
    forced that finds nothing to collect. */
module HostTight {
  import opened Util
  import opened Arith
  import opened Layouts
  import opened FtlState
  import opened FtlGc
  import opened FtlCredits
  import opened HostWrite
  import opened HostRun

  /** If the host writes are paused for a collection in this state, there is a line to collect. */
  ghost predicate FindsVictim(t: Ftl) {
    t.credits == 0 && |t.free| <= GC_THRES_LINES_HIGH ==> t.victims != {}
  }

  /** In every run over a logical space of `n` pages every forced collection finds a line to collect. */
  ghost predicate AlwaysFinds(y: Layout, n: nat) {
    forall states, ws: seq<PageWrite>, nows, i: nat ::
      HostRun.HostRun(y, states, ws, nows, n) && i < |ws| && Able(y, states[i], ws[i].lpn) ==>
        FindsVictim(Paid(y, states[i], ws[i], nows[i]))
  }

  /** With five lines or more, collections never come up empty-handed exactly if the logical space leaves more than four
      lines over. */
  lemma TightBound(y: Layout, n: nat)
    requires y.Ok() && y.lines >= 5 && n <= y.pages
    ensures AlwaysFinds(y, n) <==> n < (y.lines - 4) * y.perLine
  {
    hide HostStep, Able, Paid, FindsVictim, Layout.Ok;
    PerLineTwo(y);
    if n < (y.lines - 4) * y.perLine {
      forall states, ws: seq<PageWrite>, nows, i: nat |
        HostRun.HostRun(y, states, ws, nows, n) && i < |ws| && Able(y, states[i], ws[i].lpn)
        ensures FindsVictim(Paid(y, states[i], ws[i], nows[i]))
      {
        FindsBelow(y, states, ws, nows, n, i);
      }
    } else {
      var states, ws, nows, i := MissesAbove(y, n);
    }
  }

  lemma PerLineTwo(y: Layout)
    requires y.Ok() && y.lines >= 5
    ensures y.perLine > 0 && (y.lines - 3) * y.perLine >= 2 && (y.lines - 4) * y.perLine > 0
  {
    hide Inv;
    InitialInv(y);
    InvSized(y, InitialState(y));
    MulLe(2, y.lines - 3, y.perLine);
    MulLe(1, y.lines - 4, y.perLine);
  }

  lemma FindsBelow(y: Layout, states: seq<Ftl>, ws: seq<PageWrite>, nows: seq<nat>, n: nat, i: nat)
    requires HostRun.HostRun(y, states, ws, nows, n) && Provisioned(y, n) && i < |ws|
    ensures Able(y, states[i], ws[i].lpn) && FindsVictim(Paid(y, states[i], ws[i], nows[i]))
  {
    hide Inv, Funded, FtlCredits.Fits, HostStep, Layout.Ok, Paid;
    NeverRunsOut(y, states, ws, nows, n, i);
    NoStall(y, states[i], ws[i], nows[i]);
  }

  // ---------- Writing page after page ----------

  /** The first `i` pages have been written once each, and no page has been invalidated or copied. */
  ghost predicate Untouched(y: Layout, s: Ftl, i: nat) {
    && Inv(y, s) && (forall k: nat :: k in Mapped(s) <==> k < i)
    && s.victims == {} && (forall l :: 0 <= l < |s.ipc| ==> s.ipc[l] == 0)
    && s.gc.slot == 0 && s.refill == y.perLine && Room(y, s) == y.lines * y.perLine - i
  }

  /** Credits run out exactly when a line fills up. */
  ghost predicate Straight(y: Layout, s: Ftl, i: nat) {
    Untouched(y, s, i) && s.credits + s.user.slot == y.perLine
  }

  ghost function NextSlot(y: Layout, s: Ftl): nat {
    if s.user.slot + 1 == y.perLine then 0 else s.user.slot + 1
  }

  lemma StraightStart(y: Layout)
    requires y.Ok() && y.lines >= 5
    ensures Straight(y, InitialState(y), 0)
  {
    hide Layout.Ok, MapsAgree, CountersAgree, Placed, LinesAgree, Conserved;
    InitialInv(y);
    assert Mapped(InitialState(y)) == {};
    assert (y.lines - 2) * y.perLine + y.perLine + y.perLine == y.lines * y.perLine;
  }

  /** Writing the next page fills the open line; a line that fills up is full of valid pages. */
  lemma StraightPaid(y: Layout, s: Ftl, i: nat, v: Data, now: nat)
    requires Straight(y, s, i) && Able(y, s, i)
    ensures var t := Paid(y, s, PageWrite(i, v), now);
            Untouched(y, t, i + 1) && t.credits == s.credits - 1 && t.user.slot == NextSlot(y, s)
  {
    hide MapsAgree, CountersAgree, Placed, Conserved, ListsAgree, Layout.Ok, Append, Wrote;
    assert i !in Mapped(s) && s.maptbl[i] == None;
    var t := Write(y, s, i, v, now);
    assert t == Append(y, s, i, v, UserIo);
    WriteInv(y, s, i, v, now);
    CreditsInv(y, t, s.credits - 1);
    AppendEffect(y, s, i, v, UserIo);
    AppendRoom(y, s, i, v, UserIo);
    FillsUp(y, s, i, v);
  }

  lemma FillsUp(y: Layout, s: Ftl, i: nat, v: Data)
    requires Sized(y, s) && Filling(y, s, s.user) && s.victims == {} && s.ipc[s.user.line] == 0 && i < y.pages
    requires s.user.slot + 1 == y.perLine ==> s.free != []
    ensures var t := Append(y, s, i, v, UserIo); t.victims == {} && t.user.slot == NextSlot(y, s)
  {
    hide TagsBounded;
  }

  /** With no victim in the queue the refill collects nothing. */
  lemma StraightStep(y: Layout, s: Ftl, u: Ftl, i: nat, w: PageWrite, now: nat)
    requires Straight(y, s, i) && Able(y, s, i) && w.lpn == i && HostStep(y, s, u, w, now)
    ensures Straight(y, u, i + 1)
  {
    hide Inv, Layout.Ok, Paid;
    var t := Paid(y, s, w, now);
    assert w == PageWrite(i, w.v);
    StraightPaid(y, s, i, w.v, now);
    if t.credits == 0 {
      assert u == t.(credits := t.credits + t.refill);
      CreditsInv(y, t, t.credits + t.refill);
    }
  }

  ghost predicate InOrder(ws: seq<PageWrite>) {
    forall i :: 0 <= i < |ws| ==> ws[i].lpn == i
  }

  lemma {:induction false} StraightRun(y: Layout, states: seq<Ftl>, ws: seq<PageWrite>, nows: seq<nat>, n: nat, i: nat)
    requires HostRun.HostRun(y, states, ws, nows, n) && Provisioned(y, n) && y.lines >= 5 && InOrder(ws) && i < |states|
    ensures Straight(y, states[i], i)
  {
    hide Inv, HostStep, Layout.Ok, Straight, Able, Funded, FtlCredits.Fits;
    if i == 0 {
      StraightStart(y);
    } else {
      StraightRun(y, states, ws, nows, n, i - 1);
      NeverRunsOut(y, states, ws, nows, n, i - 1);
      assert HostStep(y, states[i - 1], states[i - 1 + 1], ws[i - 1], nows[i - 1]);
      StraightStep(y, states[i - 1], states[i], i - 1, ws[i - 1], nows[i - 1]);
    }
  }

  /** When four lines are left over, two of them are free and credits have run out. */
  lemma NothingToCollect(y: Layout, s: Ftl, i: nat, v: Data, now: nat)
    requires Straight(y, s, i) && Able(y, s, i) && i + 1 == (y.lines - 4) * y.perLine
    ensures !FindsVictim(Paid(y, s, PageWrite(i, v), now))
  {
    hide Inv, Layout.Ok, Paid;
    var t := Paid(y, s, PageWrite(i, v), now);
    StraightPaid(y, s, i, v, now);
    SlotBelow(y, s, t);
    var f := |t.free|;
    assert (y.lines - 4) * y.perLine == y.lines * y.perLine - 4 * y.perLine;
    assert f * y.perLine == 2 * y.perLine + t.user.slot;
    QuotientIs(f * y.perLine, 2, y.perLine);
    ExactQuotient(f, y.perLine);
  }

  lemma SlotBelow(y: Layout, s: Ftl, t: Ftl)
    requires Inv(y, s) && Inv(y, t)
    ensures s.user.slot < y.perLine && t.user.slot < y.perLine
  {
  }

  /** A logical space that leaves no more than four lines over has a run with a collection that finds nothing. */
  lemma MissesAbove(y: Layout, n: nat) returns (states: seq<Ftl>, ws: seq<PageWrite>, nows: seq<nat>, i: nat)
    requires y.Ok() && y.lines >= 5 && (y.lines - 4) * y.perLine <= n <= y.pages
    ensures HostRun.HostRun(y, states, ws, nows, n) && i < |ws| && Able(y, states[i], ws[i].lpn)
    ensures !FindsVictim(Paid(y, states[i], ws[i], nows[i]))
  {
    hide Inv, HostStep, Layout.Ok, Straight, Able, Funded, FtlCredits.Fits, Refilled, Paid, FindsVictim;
    PerLineTwo(y);
    var m := (y.lines - 4) * y.perLine;
    i := m - 1;
    ws, nows := seq(m, k requires 0 <= k => PageWrite(k, 0)), seq(m, _ => 0);
    RunExists(y, ws[..i], nows[..i], i);
    states :| HostRun.HostRun(y, states, ws[..i], nows[..i], i);
    NeverRunsOut(y, states, ws[..i], nows[..i], i, i);
    StraightRun(y, states, ws[..i], nows[..i], i, i);
    StepExists(y, states[i], ws[i], nows[i]);
    NothingToCollect(y, states[i], i, 0, 0);
    var u :| Refilled(y, Paid(y, states[i], ws[i], nows[i]), u);
    WiderRun(y, states, ws[..i], nows[..i], i, n);
    StepTaken(y, states[i], u, ws[i], nows[i]);
    RunLonger(y, states, ws, nows, n, u);
    states := states + [u];
  }

  lemma WiderRun(y: Layout, states: seq<Ftl>, ws: seq<PageWrite>, nows: seq<nat>, n: nat, m: nat)
    requires HostRun.HostRun(y, states, ws, nows, n) && n <= m <= y.pages
    ensures HostRun.HostRun(y, states, ws, nows, m)
  {
    hide HostStep, Layout.Ok;
  }

  lemma StepTaken(y: Layout, s: Ftl, u: Ftl, w: PageWrite, now: nat)
    requires Able(y, s, w.lpn) && Refilled(y, Paid(y, s, w, now), u)
    ensures HostStep(y, s, u, w, now)
  {
    hide Able, Paid, Refilled;
  }
}
