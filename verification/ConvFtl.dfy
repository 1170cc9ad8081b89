/** The conventional FTL: tables, counters, lists, queue and write pointers updated in place, step by step as the
    write path and the collector do, against the abstract state of FtlState. */
module ConvFtl {
  import opened Util
  import opened Layouts
  import opened Counts
  import opened Geometry
  import opened FtlState
  import opened FtlGc
  import opened FtlMirror
  import opened FtlCredits
  import opened GcOrder
  import opened HostWrite
  import opened HostRun
  import opened CatPolicy
  import PQueue

  datatype Block = Block(vpc: nat, ipc: nat, eraseCnt: nat)

  /** `curline` is the open line; `blk` repeats its number as part of the page address. */
  datatype WritePointer = WritePointer(curline: nat, ch: nat, lun: nat, pg: nat, blk: nat) {
    function Page(): Ppa {
      Ppa(ch, lun, blk, pg)
    }
  }

  /** The victim policy: least valid pages first, or the cost-age-times score. */
  datatype Policy = Greedy | Cat(param: CatParam)

  /** Unless forced, lines with more than an eighth of their pages valid are not collected. */
  predicate Eligible(vpc: nat, perLine: nat, force: bool) {
    force || vpc <= perLine / 8
  }

  /** Collecting a line that was not forced gains at least seven eighths of it. */
  lemma EligibleMeans(vpc: nat, ipc: nat, perLine: nat, force: bool)
    requires vpc + ipc == perLine
    ensures Eligible(vpc, perLine, force) <==> force || 8 * ipc >= 7 * perLine
  {
  }

  /** Line `v` is the policy's choice among the members of the queue. */
  ghost predicate Chosen(p: Policy, lines: seq<PQueue.Line>, members: set<nat>, perLine: nat, force: bool, now: nat,
                         v: nat)
    requires forall l :: l in members ==> l < |lines|
    requires p.Cat? ==> p.param.Ok()
  {
    && v in members && Eligible(lines[v].vpc, perLine, force)
    && forall l :: l in members && l != v && Eligible(lines[l].vpc, perLine, force) ==>
         match p
         case Greedy => lines[v].vpc <= lines[l].vpc
         case Cat(param) => Better(param, lines, v, l, now)
  }

  ghost predicate CellOk(g: Geo, m: Option<Ppa>, x: Option<nat>) {
    match m
    case None => x == None
    case Some(p) => g.Valid(p) && x == Some(g.PgIdx(p))
  }

  ghost predicate PointerOk(g: Geo, w: WritePointer, c: Cursor)
    requires g.Ok()
  {
    w.curline == w.blk == c.line && g.Valid(w.Page()) && c.slot == g.SlotOf(w.Page())
  }

  /** A table whose entries all hold `v`. */
  method InitTable<T>(n: nat, v: T) returns (a: array<T>)
    ensures fresh(a) && a.Length == n && forall i :: 0 <= i < n ==> a[i] == v
  {
    a := new T[n](_ => v);
  }

  /** `Chosen` for the cost-age-times policy, where it is defined. */
  ghost predicate ChosenBy(p: CatParam, lines: seq<PQueue.Line>, members: set<nat>, perLine: nat, force: bool, now: nat,
                           v: nat) {
    && p.Ok() && (forall l :: l in members ==> l < |lines|)
    && Chosen(Cat(p), lines, members, perLine, force, now, v)
  }

  lemma InitialFacts(g: Geo, y: Layout)
    requires g.Ok() && g.ttLines >= 2 && y == g.LayoutOf()
    ensures Lays(g, y) && y.lines == g.ttLines && y.pages == g.TtPgs() && y.blks == g.TtBlks()
    ensures y.perLine == g.PgsPerLine()
    ensures Sized(y, InitialState(y)) && Inv(y, InitialState(y))
    ensures Funded(y, InitialState(y)) <==> (g.ttLines - 3) * g.PgsPerLine() >= 2
  {
    hide Layout.Ok, MapsAgree, CountersAgree, Placed, LinesAgree, Conserved, Geo.LayoutOf, Geo.Ok, Geo.TtPgs,
      Geo.TtBlks, Geo.PgsPerLine, Funded;
    LaysOk(g, y);
    InitialInv(y);
    InitialFunded(y);
  }

  lemma FirstSlot(g: Geo)
    requires g.Ok()
    ensures g.SlotOf(Ppa(0, 0, 0, 0)) == 0 && g.SlotOf(Ppa(0, 0, 1, 0)) == 0
    ensures g.PgsPerBlk() > 0
  {
  }

  class ConvFtl {
    const g: Geo
    const maptbl: array<Option<Ppa>>
    const rmap: array<Option<nat>>
    const status: array<PgStatus>
    const blks: array<Block>
    const lines: array<PQueue.Line>
    const q: PQueue.PriorityQueue
    var freeLines: seq<nat>
    var fullLines: seq<nat>
    var freeLineCnt: nat
    var fullLineCnt: nat
    var victimLineCnt: nat
    var wp: WritePointer
    var gcWp: WritePointer
    var writeCredits: nat
    var creditsToRefill: nat
    var stats: Stats
    ghost const y: Layout
    ghost var st: Ftl

    ghost function Repr(): set<object> {
      {this, maptbl, rmap, status, blks, lines, q, q.d}
    }

    // ---------- The abstract state behind the tables ----------

    ghost predicate MapOk(m: seq<Option<nat>>)
      reads maptbl
    {
      maptbl.Length == |m| && forall l :: 0 <= l < maptbl.Length ==> CellOk(g, maptbl[l], m[l])
    }

    ghost predicate RmapOk(m: seq<Option<nat>>)
      reads rmap
    {
      rmap[..] == m
    }

    ghost predicate StatusOk(m: seq<PgStatus>)
      reads status
    {
      status[..] == m
    }

    ghost predicate BlocksOk(vpc: seq<nat>, ipc: seq<nat>)
      reads blks
    {
      && blks.Length == |vpc| == |ipc|
      && forall b :: 0 <= b < blks.Length ==> blks[b].vpc == vpc[b] && blks[b].ipc == ipc[b]
    }

    ghost predicate LinesOk(vpc: seq<nat>, ipc: seq<nat>, stamp: seq<nat>)
      reads lines
    {
      && lines.Length == |vpc| == |ipc| == |stamp|
      && forall l :: 0 <= l < lines.Length ==>
           lines[l].vpc == vpc[l] && lines[l].ipc == ipc[l] && lines[l].stamp == stamp[l]
    }

    /** A line's position is non-zero exactly while it is in the victim queue. */
    ghost predicate QueueOk(victims: set<nat>)
      reads q, q.d, lines, this`victimLineCnt
    {
      q.lines == lines && q.Valid() && q.Members() == victims && victimLineCnt == |victims|
    }

    ghost predicate FreeOk(free: seq<nat>)
      reads this`freeLines, this`freeLineCnt
    {
      freeLines == free && freeLineCnt == |free|
    }

    ghost predicate FullOk(full: seq<nat>)
      reads this`fullLines, this`fullLineCnt
    {
      fullLines == full && fullLineCnt == |full|
    }

    ghost predicate PointersOk(user: Cursor, gc: Cursor)
      requires g.Ok()
      reads this`wp, this`gcWp
    {
      PointerOk(g, wp, user) && PointerOk(g, gcWp, gc)
    }

    ghost predicate FlowOk(credits: nat, refill: nat, t: Stats)
      reads this`writeCredits, this`creditsToRefill, this`stats
    {
      writeCredits == credits && creditsToRefill == refill && stats == t
    }

    /** The tables, lists and counters represent `s`. */
    ghost predicate Holds(s: Ftl)
      reads this`freeLines, this`freeLineCnt, this`fullLines, this`fullLineCnt, this`victimLineCnt
      reads this`wp, this`gcWp, this`writeCredits, this`creditsToRefill, this`stats
      reads maptbl, rmap, status, blks, lines, q, q.d
    {
      && Lays(g, y)
      && Sized(y, s)
      && MapOk(s.maptbl) && RmapOk(s.rmap) && StatusOk(s.status)
      && BlocksOk(s.blkVpc, s.blkIpc) && LinesOk(s.vpc, s.ipc, s.stamp)
      && QueueOk(s.victims) && FreeOk(s.free) && FullOk(s.full)
      && PointersOk(s.user, s.gc) && FlowOk(s.credits, s.refill, s.stats)
    }

    ghost predicate Coupled()
      reads this, maptbl, rmap, status, blks, lines, q, q.d
    {
      Holds(st)
    }

    /** All pages free; the first two lines are opened for host writes and for the collector. */
    constructor (g: Geo)
      requires g.Ok() && g.ttLines >= 2
      ensures this.g == g && Coupled()
      ensures fresh(maptbl) && fresh(rmap) && fresh(status) && fresh(blks) && fresh(lines) && fresh(q) && fresh(q.d)
      ensures st == InitialState(y) && Inv(y, st)
      ensures Funded(y, st) <==> (g.ttLines - 3) * g.PgsPerLine() >= 2
    {
      hide *;
      this.g := g;
      var layout := g.LayoutOf();
      InitialFacts(g, layout);
      y := layout;
      var m: array<Option<Ppa>> := InitTable(g.TtPgs(), None);
      var r: array<Option<nat>> := InitTable(g.TtPgs(), None);
      var p := InitTable(g.TtPgs(), PgFree);
      var b := InitTable(g.TtBlks(), Block(0, 0, 0));
      var ls := InitTable(g.ttLines, PQueue.Line(0, 0, 0, 0));
      var victims := new PQueue.PriorityQueue(ls);
      maptbl, rmap, status, blks, lines, q := m, r, p, b, ls, victims;
      var ids := seq(g.ttLines - 2, i requires 0 <= i => 2 + i);
      assert ids == Ids(2, layout.lines - 2);
      freeLines := ids;
      fullLines := [];
      freeLineCnt, fullLineCnt, victimLineCnt := g.ttLines - 2, 0, 0;
      wp := WritePointer(0, 0, 0, 0, 0);
      gcWp := WritePointer(1, 0, 0, 0, 1);
      writeCredits, creditsToRefill := g.PgsPerLine(), g.PgsPerLine();
      stats := Stats(0, 0, 0, false, 0, 0, 0);
      st := InitialState(layout);
      new;
      InitialTables();
    }

    lemma InitialTables()
      requires Lays(g, y) && y.lines >= 2 && Sized(y, InitialState(y)) && st == InitialState(y)
      requires maptbl.Length == rmap.Length == status.Length == y.pages && blks.Length == y.blks
      requires lines.Length == y.lines == g.ttLines
      requires forall i :: 0 <= i < y.pages ==> maptbl[i] == None && rmap[i] == None && status[i] == PgFree
      requires forall b :: 0 <= b < y.blks ==> blks[b].vpc == 0 && blks[b].ipc == 0
      requires forall l :: 0 <= l < y.lines ==> lines[l] == PQueue.Line(0, 0, 0, 0)
      requires q.lines == lines && q.Valid() && q.Members() == {}
      requires freeLines == Ids(2, y.lines - 2) && fullLines == []
      requires freeLineCnt == y.lines - 2 && fullLineCnt == 0 && victimLineCnt == 0
      requires wp == WritePointer(0, 0, 0, 0, 0) && gcWp == WritePointer(1, 0, 0, 0, 1)
      requires writeCredits == creditsToRefill == y.perLine && stats == Stats(0, 0, 0, false, 0, 0, 0)
      ensures Coupled()
    {
      FirstSlot(g);
      hide Geo.LayoutOf, Geo.SlotOf, Geo.PgIdx, Geo.PgsPerBlk, Layout.Ok;
      assert RmapOk(st.rmap) && StatusOk(st.status);
    }

    // ---------- Invalidating a page ----------

    /** The page's status and its block's counters. */
    method InvalidateInBlock(p: Ppa, ghost s: Ftl, ghost x: nat)
      requires Lays(g, y) && Sized(y, s) && CountersAgree(y, s) && StatusOk(s.status) && BlocksOk(s.blkVpc, s.blkIpc)
      requires g.Valid(p) && x == g.PgIdx(p) && x < y.pages && s.status[x] == PgValid
      requires s.blkVpc[y.blkOf[x]] > 0
      modifies status, blks
      ensures StatusOk(s.status[x := PgInvalid])
      ensures var b := y.blkOf[x]; BlocksOk(s.blkVpc[b := s.blkVpc[b] - 1], s.blkIpc[b := s.blkIpc[b] + 1])
    {
      LaysPage(g, y, p);
      LaysOk(g, y);
      CountInvalidate(y.blkOf, s.status, y.blks, s.blkVpc, s.blkIpc, x);
      CountBounds(y.blkOf, s.status, y.blks, s.blkVpc, s.blkIpc, y.perBlk, x);
      hide Lays, Geo.PgIdx, Geo.BlkIdx, Counted, Layout.Ok, Geo.PgsPerBlk, CountersAgree;
      var i := g.PgIdx(p);
      assert status[i] == PgValid;
      status[i] := PgInvalid;
      var b := g.BlkIdx(p);
      assert blks[b].ipc < g.PgsPerBlk();
      blks[b] := blks[b].(ipc := blks[b].ipc + 1);
      assert 0 < blks[b].vpc <= g.PgsPerBlk();
      blks[b] := blks[b].(vpc := blks[b].vpc - 1);
    }

    /** Writing a line's record without touching its position, nor its priority while it is queued. */
    method SetLine(l: nat, n: PQueue.Line)
      requires q.lines == lines && q.Valid() && l < lines.Length
      requires n.pos == lines[l].pos && (n.pos != 0 ==> n.vpc == lines[l].vpc)
      modifies lines
      ensures lines[..] == old(lines[..])[l := n] && q.Valid() && q.Members() == old(q.Members())
    {
      ghost var h := q.Value(-1);
      lines[l] := n;
      assert q.Value(-1) == h.(lines := h.lines[l := n]);
      PQueue.Rekeyed(h, q.Value(-1));
    }

    /** The line's counters after one of its pages became invalid; a full line moves to the victim queue. */
    method DemoteLine(l: nat, now: nat, ghost s: Ftl)
      requires Sized(y, s) && LinesOk(s.vpc, s.ipc, s.stamp) && QueueOk(s.victims) && FullOk(s.full)
      requires l < y.lines && 0 < s.vpc[l] <= y.perLine && s.ipc[l] < y.perLine
      requires s.vpc[l] == y.perLine ==> s.ipc[l] == 0 && l in s.full && l !in s.victims
      requires y.perLine == g.PgsPerLine()
      modifies this`fullLines, this`fullLineCnt, this`victimLineCnt, lines, q, q.d
      ensures LinesOk(s.vpc[l := s.vpc[l] - 1], s.ipc[l := s.ipc[l] + 1], s.stamp[l := now])
      ensures QueueOk(if s.vpc[l] == y.perLine then s.victims + {l} else s.victims)
      ensures FullOk(if s.vpc[l] == y.perLine then Without(s.full, l) else s.full)
    {
      hide Layout.Ok, PQueue.Heap.Valid, Geo.PgsPerLine;
      var wasFull := false;
      SetLine(l, lines[l].(stamp := now));
      assert lines[l].ipc < g.PgsPerLine();
      if lines[l].vpc == g.PgsPerLine() {
        assert lines[l].ipc == 0;
        wasFull := true;
      }
      SetLine(l, lines[l].(ipc := lines[l].ipc + 1));
      assert 0 < lines[l].vpc <= g.PgsPerLine();
      if lines[l].pos != 0 {
        q.ChangePriority(lines[l].vpc - 1, l);
      } else {
        SetLine(l, lines[l].(vpc := lines[l].vpc - 1));
      }
      if wasFull {
        FullToVictims(l);
      }
    }

    method FullToVictims(l: nat)
      requires q.lines == lines && q.Valid() && l < lines.Length && l in fullLines && l !in q.Members()
      requires fullLineCnt == |fullLines| && victimLineCnt == |q.Members()|
      modifies this`fullLines, this`fullLineCnt, this`victimLineCnt, lines, q, q.d
      ensures q.Valid() && q.Members() == old(q.Members()) + {l}
      ensures q.SameButPositions(old(lines[..]))
      ensures fullLines == Without(old(fullLines), l)
      ensures fullLineCnt == |fullLines| && victimLineCnt == |q.Members()|
    {
      hide PQueue.Heap.Valid, PQueue.Heap.Members;
      fullLines := Without(fullLines, l);
      fullLineCnt := fullLineCnt - 1;
      q.Insert(l);
      victimLineCnt := victimLineCnt + 1;
    }

    /** mark_page_invalid */
    method MarkPageInvalid(p: Ppa, now: nat, ghost s: Ftl, ghost x: nat)
      requires Holds(s) && Inv(y, s)
      requires g.Valid(p) && x == g.PgIdx(p) && x < y.pages && s.status[x] == PgValid
      requires s.vpc[y.lineOf[x]] > 0 && s.blkVpc[y.blkOf[x]] > 0
      modifies Repr()
      ensures Holds(Invalidate(y, s, x, now))
    {
      hide Inv, MapsAgree, CountersAgree, Lays, Layout.Ok, Geo.PgIdx, Geo.Ok, Geo.PgsPerLine,
        MapOk, RmapOk, StatusOk, BlocksOk, LinesOk, QueueOk, FreeOk, FullOk, PointersOk, FlowOk;
      InvalidateFacts(y, s, x);
      LaysPage(g, y, p);
      LaysOk(g, y);
      InvalidateInBlock(p, s, x);
      DemoteLine(p.blk, now, s);
    }

    // ---------- Programming a page ----------

    method SetMaptblEnt(lpn: nat, p: Ppa, ghost m: seq<Option<nat>>)
      requires MapOk(m) && lpn < |m| && g.Valid(p)
      modifies maptbl
      ensures MapOk(m[lpn := Some(g.PgIdx(p))])
    {
      hide Geo.PgIdx, Geo.Valid;
      maptbl[lpn] := Some(p);
    }

    method SetRmapEnt(lpn: Option<nat>, p: Ppa, ghost m: seq<Option<nat>>)
      requires RmapOk(m) && g.PgIdx(p) < |m|
      modifies rmap
      ensures RmapOk(m[g.PgIdx(p) := lpn])
    {
      hide Geo.PgIdx;
      rmap[g.PgIdx(p)] := lpn;
    }

    method ProgramInBlock(p: Ppa, ghost s: Ftl, ghost x: nat)
      requires Lays(g, y) && Sized(y, s) && StatusOk(s.status) && BlocksOk(s.blkVpc, s.blkIpc)
      requires g.Valid(p) && x == g.PgIdx(p) && x < y.pages && s.status[x] == PgFree
      requires s.blkVpc[y.blkOf[x]] < y.perBlk
      modifies status, blks
      ensures StatusOk(s.status[x := PgValid])
      ensures var b := y.blkOf[x]; BlocksOk(s.blkVpc[b := s.blkVpc[b] + 1], s.blkIpc)
    {
      hide Lays, Geo.PgIdx, Geo.BlkIdx, Geo.Valid, Layout.Ok, Geo.PgsPerBlk, Geo.PgsPerLine, Geo.TtPgs, Geo.TtBlks;
      LaysPage(g, y, p);
      LaysOk(g, y);
      var i := g.PgIdx(p);
      assert status[i] == PgFree;
      status[i] := PgValid;
      var b := g.BlkIdx(p);
      assert blks[b].vpc < g.PgsPerBlk();
      blks[b] := blks[b].(vpc := blks[b].vpc + 1);
    }

    method PromoteLine(l: nat, ghost s: Ftl)
      requires Sized(y, s) && LinesOk(s.vpc, s.ipc, s.stamp) && QueueOk(s.victims)
      requires l < y.lines && s.vpc[l] < y.perLine == g.PgsPerLine() && l !in s.victims
      modifies lines
      ensures LinesOk(s.vpc[l := s.vpc[l] + 1], s.ipc, s.stamp) && QueueOk(s.victims)
    {
      hide Layout.Ok, PQueue.Heap.Valid, Geo.PgsPerLine;
      assert lines[l].vpc < g.PgsPerLine();
      SetLine(l, lines[l].(vpc := lines[l].vpc + 1));
    }

    /** mark_page_valid, with the counters it must find. */
    method MarkPageValid(p: Ppa, ghost s: Ftl, ghost x: nat)
      requires Holds(s)
      requires g.Valid(p) && x == g.PgIdx(p) && x < y.pages && s.status[x] == PgFree
      requires s.blkVpc[y.blkOf[x]] < y.perBlk && s.vpc[y.lineOf[x]] < y.perLine && y.lineOf[x] !in s.victims
      modifies status, blks, lines
      ensures Holds(Program(y, s, x))
    {
      hide Lays, Layout.Ok, Geo.PgIdx, Geo.Ok, Geo.PgsPerLine, Geo.PgsPerBlk, Geo.Valid, Geo.BlkIdx,
        MapOk, RmapOk, StatusOk, BlocksOk, LinesOk, QueueOk, FreeOk, FullOk, PointersOk, FlowOk;
      LaysPage(g, y, p);
      LaysOk(g, y);
      ProgramInBlock(p, s, x);
      PromoteLine(p.blk, s);
    }

    /** get_new_page: the page under a write pointer. */
    method GetNewPage(io: IoType, ghost s: Ftl) returns (p: Ppa)
      requires Holds(s)
      ensures g.Valid(p) && g.PgIdx(p) == Target(y, s, io)
    {
      hide Lays, Layout.Bijective, TagsBounded, Geo.PgIdx, Geo.Valid, Geo.Ok, Geo.SlotOf, Geo.BlkIdx, Geo.PageOf,
        MapOk, RmapOk, StatusOk, BlocksOk, LinesOk, QueueOk, FreeOk, FullOk, FlowOk;
      p := if io == UserIo then wp.Page() else gcWp.Page();
      LaysPage(g, y, p);
    }

    method CountPage(io: IoType)
      modifies this`stats
      ensures stats == Tally(old(stats), io)
    {
      if io == UserIo {
        stats := stats.(totalHost := stats.totalHost + 1);
        if stats.measuring {
          stats := stats.(hostPages := stats.hostPages + 1);
        }
      } else {
        stats := stats.(totalGc := stats.totalGc + 1);
        if stats.measuring {
          stats := stats.(gcPages := stats.gcPages + 1);
        }
      }
    }

    /** The page under the write pointer takes the data of `lpn`: both maps, the counters and the statistics. */
    method PutPage(lpn: nat, p: Ppa, io: IoType, ghost s: Ftl, ghost v: Data)
      requires Holds(s) && lpn < y.pages
      requires g.Valid(p) && g.PgIdx(p) == Target(y, s, io) && s.status[Target(y, s, io)] == PgFree
      requires var x := Target(y, s, io);
               s.blkVpc[y.blkOf[x]] < y.perBlk && s.vpc[y.lineOf[x]] < y.perLine && y.lineOf[x] !in s.victims
      modifies maptbl, rmap, status, blks, lines, this`stats
      ensures Holds(Put(y, s, lpn, v, io))
    {
      hide Lays, Layout.Bijective, TagsBounded, Geo.PgIdx, Geo.Ok, Geo.Valid, Geo.SlotOf, Geo.BlkIdx,
        MapOk, RmapOk, StatusOk, BlocksOk, LinesOk, QueueOk, FreeOk, FullOk, PointersOk, FlowOk;
      ghost var x := Target(y, s, io);
      ghost var linked :=
        s.(maptbl := s.maptbl[lpn := Some(x)], rmap := s.rmap[x := Some(lpn)], data := s.data[x := v]);
      SetMaptblEnt(lpn, p, s.maptbl);
      SetRmapEnt(Some(lpn), p, s.rmap);
      MarkPageValid(p, linked, x);
      CountStep(io, s);
    }

    method CountStep(io: IoType, ghost s: Ftl)
      requires FlowOk(s.credits, s.refill, s.stats)
      modifies this`stats
      ensures FlowOk(s.credits, s.refill, Tally(s.stats, io))
    {
      CountPage(io);
    }

    // ---------- Moving a write pointer ----------

    method CheckAddr(a: nat, max: nat)
      requires a < max
    {
      assert a < max;
    }

    /** The address part of advance_write_pointer: the next page, or back to the first one with `used` set once the
        line has none left. */
    method NextAddress(w: WritePointer) returns (n: WritePointer, used: bool)
      requires g.Ok() && g.Valid(w.Page())
      ensures n.curline == w.curline && n.blk == w.blk && g.Valid(n.Page())
      ensures used ==> g.SlotOf(w.Page()) + 1 == g.PgsPerLine() && n == w.(ch := 0, lun := 0, pg := 0)
      ensures !used ==> g.SlotOf(w.Page()) + 1 == g.SlotOf(n.Page()) < g.PgsPerLine()
    {
      hide Join, Hi, Lo, Times, Geo.SlotOf;
      ghost var p := w.Page();
      AddressFacts(g, p);
      n, used := w, false;
      CheckAddr(n.pg, g.PgsPerBlk());
      n := n.(pg := n.pg + 1);
      if Lo(n.pg, g.pgsPerOneshot) != 0 {
        assert n.Page() == p.(pg := p.pg + 1);
        SlotRoundTrip(g, n.Page());
        return;
      }
      n := n.(pg := n.pg - g.pgsPerOneshot);
      CheckAddr(n.ch, g.nchs);
      n := n.(ch := n.ch + 1);
      if n.ch != g.nchs {
        assert n.Page() == p.(pg := p.pg + 1 - g.pgsPerOneshot, ch := p.ch + 1);
        SlotRoundTrip(g, n.Page());
        return;
      }
      n := n.(ch := 0);
      CheckAddr(n.lun, g.lunsPerCh);
      n := n.(lun := n.lun + 1);
      if n.lun != g.lunsPerCh {
        assert n.Page() == p.(pg := p.pg + 1 - g.pgsPerOneshot, ch := 0, lun := p.lun + 1);
        SlotRoundTrip(g, n.Page());
        return;
      }
      n := n.(lun := 0);
      n := n.(pg := n.pg + g.pgsPerOneshot);
      if n.pg != g.PgsPerBlk() {
        assert n.Page() == p.(pg := p.pg + 1, ch := 0, lun := 0);
        SlotRoundTrip(g, n.Page());
        return;
      }
      n := n.(pg := 0);
      used := true;
      LastSlot(g, p);
    }

    /** get_next_free_line */
    method GetNextFreeLine(ghost free: seq<nat>) returns (r: Option<nat>)
      requires FreeOk(free)
      modifies this`freeLines, this`freeLineCnt
      ensures r == if free == [] then None else Some(free[0])
      ensures FreeOk(if free == [] then [] else free[1..])
    {
      if |freeLines| == 0 {
        return None;
      }
      r := Some(freeLines[0]);
      freeLines := freeLines[1..];
      freeLineCnt := freeLineCnt - 1;
    }

    /** A line that is used up goes to the full list or, if it already holds an invalid page, to the victim queue. */
    method FileLine(l: nat, ghost s: Ftl)
      requires Sized(y, s) && LinesOk(s.vpc, s.ipc, s.stamp) && QueueOk(s.victims) && FullOk(s.full)
      requires l < y.lines && s.vpc[l] + s.ipc[l] == y.perLine == g.PgsPerLine() && l !in s.victims
      modifies this`fullLines, this`fullLineCnt, this`victimLineCnt, lines, q, q.d
      ensures LinesOk(s.vpc, s.ipc, s.stamp)
      ensures QueueOk(if s.vpc[l] == y.perLine then s.victims else s.victims + {l})
      ensures FullOk(if s.vpc[l] == y.perLine then s.full + [l] else s.full)
    {
      hide Layout.Ok, PQueue.Heap.Valid, Geo.PgsPerLine;
      if lines[l].vpc == g.PgsPerLine() {
        assert lines[l].ipc == 0;
        fullLines := fullLines + [l];
        fullLineCnt := fullLineCnt + 1;
      } else {
        assert 0 <= lines[l].vpc < g.PgsPerLine();
        assert lines[l].ipc > 0;
        q.Insert(l);
        victimLineCnt := victimLineCnt + 1;
      }
    }

    method SetPointer(io: IoType, w: WritePointer, ghost s: Ftl, ghost c: Cursor)
      requires g.Ok() && PointersOk(s.user, s.gc) && PointerOk(g, w, c)
      modifies this`wp, this`gcWp
      ensures var t := Aim(s, io, c); PointersOk(t.user, t.gc)
    {
      if io == UserIo {
        wp := w;
      } else {
        gcWp := w;
      }
    }

    method Pointer(io: IoType, ghost s: Ftl) returns (w: WritePointer)
      requires g.Ok() && PointersOk(s.user, s.gc)
      ensures PointerOk(g, w, At(s, io))
    {
      w := if io == UserIo then wp else gcWp;
    }

    /** advance_write_pointer, with the counters and the free line it must find when the line is used up. */
    method AdvanceWritePointer(io: IoType, ghost s: Ftl)
      requires Holds(s)
      requires var c := At(s, io);
               c.slot + 1 == y.perLine ==>
                 && s.free != [] && s.free[0] < y.lines
                 && s.vpc[c.line] + s.ipc[c.line] == y.perLine && c.line !in s.victims
      modifies Repr()
      ensures Holds(Advance(y, s, io))
    {
      hide Lays, Layout.Bijective, TagsBounded, Geo.PgIdx, Geo.Ok, Geo.Valid, Geo.SlotOf, Geo.BlkIdx, PointerOk,
        Geo.PgsPerLine, MapOk, RmapOk, StatusOk, BlocksOk, LinesOk, QueueOk, FreeOk, FullOk, PointersOk, FlowOk;
      LaysOk(g, y);
      ghost var c := At(s, io);
      var w := Pointer(io, s);
      PointerFacts(g, w, c);
      var n, used := NextAddress(w);
      if !used {
        PointerMade(g, n, c.(slot := c.slot + 1));
        SetPointer(io, n, s, c.(slot := c.slot + 1));
        return;
      }
      FileLine(n.curline, s);
      CheckAddr(n.blk, g.ttLines);
      OpenNext(io, n, s);
    }

    /** The next free line becomes the open line of a write pointer that is back at the first page. */
    method OpenNext(io: IoType, w: WritePointer, ghost s: Ftl)
      requires g.Ok() && FreeOk(s.free) && PointersOk(s.user, s.gc)
      requires s.free != [] && s.free[0] < g.ttLines && w.pg == w.lun == w.ch == 0
      modifies this`freeLines, this`freeLineCnt, this`wp, this`gcWp
      ensures FreeOk(s.free[1..])
      ensures var t := Aim(s, io, Cursor(s.free[0], 0)); PointersOk(t.user, t.gc)
    {
      hide Geo.Ok, Geo.Valid, Geo.SlotOf, PointerOk, FreeOk, PointersOk;
      var n := w;
      var next := GetNextFreeLine(s.free);
      n := n.(curline := next.value, blk := next.value);
      CheckAddr(n.blk, g.ttLines);
      assert n.pg == 0 && n.lun == 0 && n.ch == 0;
      FirstPointer(g, next.value);
      SetPointer(io, n, s, Cursor(next.value, 0));
    }

    // ---------- Choosing a victim ----------

    /** Line `l` is queued and may be collected. */
    ghost predicate Contends(l: nat, force: bool)
      requires l < lines.Length
      reads lines
    {
      lines[l].pos != 0 && Eligible(lines[l].vpc, g.PgsPerLine(), force)
    }

    /** The scan over all lines that the cost-age-times policy makes: positions tell which lines are queued. */
    method ScanVictims(param: CatParam, force: bool, now: nat) returns (r: Option<nat>)
      requires g.Ok() && param.Ok()
      requires forall l :: 0 <= l < lines.Length && lines[l].pos != 0 ==>
                 0 < lines[l].ipc <= MAX32 && lines[l].vpc <= MAX32
      ensures r.None? ==> forall l: nat :: l < lines.Length ==> !Contends(l, force)
      ensures r.Some? ==> r.value < lines.Length && Contends(r.value, force)
      ensures r.Some? ==> forall l: nat :: l < lines.Length && l != r.value && Contends(l, force) ==>
                            Better(param, lines[..], r.value, l, now)
    {
      hide Better, Geo.Ok, Geo.PgsPerLine;
      var perLine := g.PgsPerLine();
      var i := 0;
      r := None;
      while i < lines.Length
        invariant 0 <= i <= lines.Length
        invariant r.None? ==> forall l: nat :: l < i ==> !Contends(l, force)
        invariant r.Some? ==> r.value < i && Contends(r.value, force)
        invariant r.Some? ==> forall l: nat :: l < i && l != r.value && Contends(l, force) ==>
                                Better(param, lines[..], r.value, l, now)
      {
        if lines[i].pos != 0 && (force || lines[i].vpc <= perLine / 8) {
          if r.None? {
            r := Some(i);
          } else {
            var better := LineIsBetter(param, lines[..], i, r.value, now);
            BetterTotal(param, lines[..], i, r.value, now);
            if better {
              Overtakes(param, i, r.value, force, now);
              r := Some(i);
            }
          }
        }
        i := i + 1;
      }
    }

    /** A line that beats the best line so far beats every line that one beat. */
    lemma Overtakes(param: CatParam, i: nat, b: nat, force: bool, now: nat)
      requires param.Ok() && i < lines.Length && b < i
      requires forall l :: 0 <= l < lines.Length && lines[l].pos != 0 ==> 0 < lines[l].ipc
      requires Contends(i, force) && Contends(b, force) && Better(param, lines[..], i, b, now)
      requires forall l: nat :: l < i && l != b && Contends(l, force) ==> Better(param, lines[..], b, l, now)
      ensures forall l: nat :: l < i && Contends(l, force) ==> Better(param, lines[..], i, l, now)
    {
      hide Better, Eligible;
      forall l: nat | l < i && l != b && Contends(l, force)
        ensures Better(param, lines[..], i, l, now)
      {
        BetterTransitive(param, lines[..], i, b, l, now);
      }
    }

    /** Clearing the position of the line just taken out of the queue. */
    method ClearPos(l: nat)
      requires q.lines == lines && l < lines.Length && q.Value(l).Valid()
      modifies lines
      ensures lines[..] == old(lines[..])[l := old(lines[l]).(pos := 0)]
      ensures q.Valid() && q.Members() == old(q.Value(l).Members())
    {
      ghost var h := q.Value(l);
      PQueue.ClearedValid(h);
      lines[l] := lines[l].(pos := 0);
      assert q.Value(-1) == PQueue.Heap(h.d, h.size, h.lines[l := h.lines[l].(pos := 0)], -1);
    }

    /** The least line of the queue, unless it holds too many valid pages. */
    method PickLeast(force: bool, ghost s: Ftl) returns (r: Option<nat>)
      requires QueueOk(s.victims) && LinesOk(s.vpc, s.ipc, s.stamp)
      modifies q, q.d, lines
      ensures r.None? ==> QueueOk(s.victims) && LinesOk(s.vpc, s.ipc, s.stamp)
      ensures r.None? ==> forall l :: l in s.victims && l < |s.vpc| ==> !Eligible(s.vpc[l], g.PgsPerLine(), force)
      ensures r.Some? ==> r.value < lines.Length == |s.vpc| && Taken(r.value, s)
      ensures forall l :: l in s.victims ==> l < lines.Length
      ensures r.Some? ==> Chosen(Greedy, old(lines[..]), s.victims, g.PgsPerLine(), force, 0, r.value)
    {
      hide PQueue.Heap.Valid, Geo.PgsPerLine;
      var some, l := q.Peek();
      if !some {
        return None;
      }
      if !force && lines[l].vpc > g.PgsPerLine() / 8 {
        return None;
      }
      some, l := q.Pop();
      r := Some(l);
    }

    /** Line `l` has left the queue but still has its position. */
    ghost predicate Taken(l: nat, s: Ftl)
      reads q, q.d, lines, this`victimLineCnt
    {
      && q.lines == lines && q.Value(l).Valid() && q.Value(l).Members() == s.victims - {l} && l in s.victims
      && victimLineCnt == |s.victims|
      && LinesOk(s.vpc, s.ipc, s.stamp)
    }

    method PickByScore(param: CatParam, force: bool, now: nat, ghost s: Ftl) returns (r: Option<nat>)
      requires g.Ok() && param.Ok() && QueueOk(s.victims) && LinesOk(s.vpc, s.ipc, s.stamp)
      requires forall l :: l in s.victims && l < |s.vpc| ==> 0 < s.ipc[l] <= MAX32 && s.vpc[l] <= MAX32
      modifies q, q.d, lines
      ensures r.None? ==> QueueOk(s.victims) && LinesOk(s.vpc, s.ipc, s.stamp)
      ensures r.None? ==> forall l :: l in s.victims && l < |s.vpc| ==> !Eligible(s.vpc[l], g.PgsPerLine(), force)
      ensures r.Some? ==> r.value < lines.Length == |s.vpc| && Taken(r.value, s)
      ensures forall l :: l in s.victims ==> l < lines.Length
      ensures r.Some? ==> Chosen(Cat(param), old(lines[..]), s.victims, g.PgsPerLine(), force, now, r.value)
    {
      hide PQueue.Heap.Valid, Geo.PgsPerLine, Geo.Ok, Better;
      assert forall l: nat :: l < lines.Length ==> (l in s.victims <==> lines[l].pos != 0);
      r := ScanVictims(param, force, now);
      if r.None? {
        assert forall l :: l in s.victims ==> !Contends(l, force);
        return;
      }
      q.Remove(r.value);
    }

    /** select_victim_line */
    method SelectVictim(policy: Policy, force: bool, now: nat, ghost s: Ftl) returns (r: Option<nat>)
      requires Holds(s) && (policy.Cat? ==> policy.param.Ok())
      requires forall l :: l in s.victims && l < y.lines ==> 0 < s.ipc[l] && s.vpc[l] + s.ipc[l] == y.perLine
      modifies this`victimLineCnt, q, q.d, lines
      ensures r.None? ==>
                Holds(s) && forall l :: l in s.victims && l < y.lines ==> !Eligible(s.vpc[l], y.perLine, force)
      ensures r.Some? ==> r.value < y.lines && r.value in s.victims && Holds(s.(victims := s.victims - {r.value}))
      ensures r.Some? ==> Chosen(policy, old(lines[..]), s.victims, y.perLine, force, now, r.value)
    {
      hide Lays, Layout.Bijective, TagsBounded, Geo.PgIdx, Geo.Ok, Geo.PgsPerLine, Better, Chosen, Taken,
        MapOk, RmapOk, StatusOk, BlocksOk, LinesOk, QueueOk, FreeOk, FullOk, PointersOk, FlowOk;
      LaysOk(g, y);
      SmallCounts(s);
      match policy {
        case Greedy =>
          r := PickLeast(force, s);
          GreedyAnyTime(old(lines[..]), s.victims, force, now, r);
        case Cat(param) =>
          r := PickByScore(param, force, now, s);
      }
      if r.Some? {
        DropVictim(r.value, s);
      }
    }

    lemma SmallCounts(s: Ftl)
      requires Lays(g, y) && Sized(y, s)
      requires forall l :: l in s.victims && l < y.lines ==> 0 < s.ipc[l] && s.vpc[l] + s.ipc[l] == y.perLine
      ensures forall l :: l in s.victims && l < |s.vpc| ==> 0 < s.ipc[l] <= MAX32 && s.vpc[l] <= MAX32
    {
      hide Geo.LayoutOf, Geo.PgsPerLine, Layout.Ok;
      LaysOk(g, y);
    }

    lemma GreedyAnyTime(ls: seq<PQueue.Line>, members: set<nat>, force: bool, now: nat, r: Option<nat>)
      requires r.Some? ==> forall l :: l in members ==> l < |ls|
      requires r.Some? ==> Chosen(Greedy, ls, members, g.PgsPerLine(), force, 0, r.value)
      ensures r.Some? ==> Chosen(Greedy, ls, members, g.PgsPerLine(), force, now, r.value)
    {
    }

    method DropVictim(l: nat, ghost s: Ftl)
      requires l < lines.Length && Taken(l, s)
      modifies this`victimLineCnt, lines
      ensures QueueOk(s.victims - {l}) && LinesOk(s.vpc, s.ipc, s.stamp) && l in s.victims
    {
      hide PQueue.Heap.Valid, PQueue.Heap.Members;
      ClearPos(l);
      victimLineCnt := victimLineCnt - 1;
    }

    // ---------- Writing a page ----------

    /** A new page for `lpn`: take the page under the write pointer, link it in both maps, count it, move on. */
    method WriteAt(lpn: nat, io: IoType, ghost s: Ftl, ghost v: Data)
      requires Holds(s) && Ready(y, s, io) && lpn < y.pages
      modifies Repr()
      ensures Holds(Append(y, s, lpn, v, io))
    {
      hide Lays, Layout.Bijective, TagsBounded, Geo.PgIdx, Geo.Ok, Geo.Valid, MapOk, RmapOk, StatusOk, BlocksOk,
        LinesOk, QueueOk, FreeOk, FullOk, PointersOk, FlowOk;
      var p := GetNewPage(io, s);
      PutPage(lpn, p, io, s, v);
      AdvanceWritePointer(io, Put(y, s, lpn, v, io));
    }

    /** gc_write_page: the page's data goes to a new page at the GC write pointer; the old copy is left as it is. */
    method GcWritePage(old_ppa: Ppa, ghost r: Ftl, ghost v: Ftl, ghost s0: Ftl, ghost victim: nat,
                       ghost freed: set<nat>, ghost x: nat)
      returns (ghost t: Ftl)
      requires Holds(r) && Mirrors(y, r, v, s0, victim, freed)
      requires Inv(y, v) && victim in v.victims
      requires g.Valid(old_ppa) && x == g.PgIdx(old_ppa) && x < y.pages && y.lineOf[x] == victim
      requires v.status[x] == PgValid
      requires v.gc.slot + 1 == y.perLine ==> v.free != []
      modifies Repr()
      ensures Holds(t) && Mirrors(y, t, Rewrite(y, v, x), s0, victim, freed)
    {
      hide Lays, Layout.Bijective, TagsBounded, Geo.PgIdx, Geo.Ok, Geo.Valid, MapOk, StatusOk, BlocksOk, LinesOk,
        QueueOk, FreeOk, FullOk, PointersOk, FlowOk, Inv, Ready, Append, Stale, StaleCount, Geo.TtPgs;
      MirrorCopy(y, r, v, s0, victim, freed, x);
      GcReady(y, r, v, s0, victim, freed);
      LaysOk(g, y);
      var lpn := rmap[g.PgIdx(old_ppa)];
      assert lpn.Some? && lpn.value < g.TtPgs();
      t := Append(y, r, lpn.value, v.data[x], GcIo);
      WriteAt(lpn.value, GcIo, r, v.data[x]);
    }

    // ---------- Collecting a line ----------

    /** In the middle of a collection of `victim` begun in `s0`: the first `n` pages of the line have been visited and
        its blocks on the first `m` LUNs erased. */
    ghost predicate Collecting(r: Ftl, v: Ftl, s0: Ftl, victim: nat, n: nat, m: nat)
      reads this, maptbl, rmap, status, blks, lines, q, q.d
    {
      && Holds(r)
      && Mirrors(y, r, v, s0, victim, Freed(g, y, victim, m))
      && Progress(y, s0, v, victim, Done(g, y, victim, n))
      && s0.free != []
    }

    /** What the collector reads of a page of a block it has not erased yet: the status at the start. */
    lemma ReadsOldStatus(r: Ftl, v: Ftl, s0: Ftl, victim: nat, n: nat, m: nat, p: Ppa)
      requires Collecting(r, v, s0, victim, n, m)
      requires g.Valid(p) && p.blk == victim && g.BlkIdx(p) !in Freed(g, y, victim, m)
      ensures g.PgIdx(p) < y.pages && y.lineOf[g.PgIdx(p)] == victim
      ensures g.PgIdx(p) < status.Length && status[g.PgIdx(p)] == s0.status[g.PgIdx(p)]
    {
      hide Progress, Geo.PgIdx, Geo.BlkIdx, Geo.SlotOf, Geo.PageOf, Geo.LayoutOf, Geo.Valid, Geo.Ok, Freed,
        Layout.Bijective, TagsBounded, MapOk, RmapOk, BlocksOk, LinesOk, QueueOk, FreeOk, FullOk, PointersOk, FlowOk;
      LaysPage(g, y, p);
    }

    /** One page of the victim: copied if it is live. */
    method CleanPage(p: Ppa, ghost r: Ftl, ghost v: Ftl, ghost s0: Ftl, ghost victim: nat, ghost n: nat, ghost m: nat)
      returns (ghost r2: Ftl, ghost v2: Ftl)
      requires Collecting(r, v, s0, victim, n, m)
      requires g.Valid(p) && p.blk == victim && n == Rank(g, p) && g.BlkIdx(p) !in Freed(g, y, victim, m)
      modifies Repr()
      ensures Collecting(r2, v2, s0, victim, n + 1, m)
    {
      hide Geo.PgIdx, Geo.BlkIdx, Geo.SlotOf, Geo.PageOf, Geo.LayoutOf, Geo.Valid, Geo.Ok, Freed, Done, Layout.Ok, Rank,
        Holds, Mirrors, Progress, Lays, Inv, Rewrite;
      ghost var x := g.PgIdx(p);
      r2, v2 := r, v;
      ReadsOldStatus(r, v, s0, victim, n, m, p);
      PageFacts(p, r, v, s0, victim, n, m);
      if status[g.PgIdx(p)] == PgValid {
        CopyStep(y, s0, v, victim, Done(g, y, victim, n), x);
        r2 := GcWritePage(p, r, v, s0, victim, Freed(g, y, victim, m), x);
        v2 := Rewrite(y, v, x);
      } else {
        CopySkip(y, s0, v, victim, Done(g, y, victim, n), x);
      }
    }

    lemma PageFacts(p: Ppa, r: Ftl, v: Ftl, s0: Ftl, victim: nat, n: nat, m: nat)
      requires Collecting(r, v, s0, victim, n, m)
      requires g.Valid(p) && p.blk == victim && n == Rank(g, p)
      ensures g.Ok() && y.Sized()
      ensures var x := g.PgIdx(p);
              && x < y.pages && y.lineOf[x] == victim
              && Done(g, y, victim, n + 1) == Done(g, y, victim, n) + {x}
              && (v.status[x] == PgValid <==> s0.status[x] == PgValid)
              && Inv(y, v) && victim in v.victims
    {
      hide Geo.PgIdx, Geo.BlkIdx, Geo.SlotOf, Geo.PageOf, Geo.LayoutOf, Geo.Valid, Geo.Ok, Freed, Done,
        Layout.Bijective, Rank, TagsBounded, Mirrors, MapOk, RmapOk, StatusOk, BlocksOk, LinesOk, QueueOk, FreeOk,
        FullOk, PointersOk, FlowOk, MapsAgree, CountersAgree, Placed, LinesAgree, Conserved, Kept, SameContent, Spent;
      LaysPage(g, y, p);
      DoneNext(g, y, victim, p);
    }

    /** Visiting a page that is not live changes nothing. */
    lemma SkipPage(p: Ppa, r: Ftl, v: Ftl, s0: Ftl, victim: nat, n: nat, m: nat)
      requires Collecting(r, v, s0, victim, n, m)
      requires g.Valid(p) && p.blk == victim && n == Rank(g, p) && g.BlkIdx(p) !in Freed(g, y, victim, m)
      requires g.PgIdx(p) < status.Length && status[g.PgIdx(p)] != PgValid
      ensures Collecting(r, v, s0, victim, n + 1, m)
    {
      hide Geo.PgIdx, Geo.BlkIdx, Geo.SlotOf, Geo.PageOf, Geo.LayoutOf, Geo.Valid, Geo.Ok, Freed, Done, Layout.Ok, Rank,
        Holds, Mirrors, Progress, Lays, Inv;
      ReadsOldStatus(r, v, s0, victim, n, m, p);
      PageFacts(p, r, v, s0, victim, n, m);
      CopySkip(y, s0, v, victim, Done(g, y, victim, n), g.PgIdx(p));
    }

    /** Page `i` of a flash page. */
    function Nth(p: Ppa, i: nat): Ppa {
      p.(pg := p.pg + i)
    }

    /** clean_one_flashpg: counts the live pages of flash page `f`, then copies them in order. */
    method CleanOneFlashpg(p: Ppa, ghost r: Ftl, ghost v: Ftl, ghost s0: Ftl, ghost victim: nat, ghost f: nat,
                           ghost m: nat)
      returns (ghost r2: Ftl, ghost v2: Ftl)
      requires Collecting(r, v, s0, victim, VisitNo(g, f, p.ch, p.lun, 0), m)
      requires FlashPage(p, victim, f) && g.BlkIdx(p) !in Freed(g, y, victim, m)
      requires Sized(y, s0) && Closed(y, s0, victim)
      modifies Repr()
      ensures Collecting(r2, v2, s0, victim, VisitNo(g, f, p.ch, p.lun, g.pgsPerFlashpg), m)
    {
      hide Geo.PgIdx, Geo.BlkIdx, Geo.SlotOf, Geo.PageOf, Geo.LayoutOf, Geo.Valid, Geo.Ok, Freed, Done, Layout.Ok, Rank,
        VisitNo, Collecting, FlashPage, Closed;
      r2, v2 := r, v;
      ghost var n := VisitNo(g, f, p.ch, p.lun, 0);
      var cnt := 0;
      var i: nat := 0;
      while i < g.pgsPerFlashpg
        invariant i <= g.pgsPerFlashpg
        invariant cnt == 0 ==> Collecting(r, v, s0, victim, VisitNo(g, f, p.ch, p.lun, i), m)
        invariant Collecting(r, v, s0, victim, n, m)
      {
        FlashPageFacts(p, victim, f, i);
        PageClosed(Nth(p, i), r, v, s0, victim, n, m);
        assert status[g.PgIdx(Nth(p, i))] != PgFree;
        if status[g.PgIdx(Nth(p, i))] == PgValid {
          cnt := cnt + 1;
        } else if cnt == 0 {
          SkipPage(Nth(p, i), r, v, s0, victim, VisitNo(g, f, p.ch, p.lun, i), m);
        }
        i := i + 1;
      }
      if cnt <= 0 {
        return;
      }
      i := 0;
      while i < g.pgsPerFlashpg
        invariant i <= g.pgsPerFlashpg
        invariant Collecting(r2, v2, s0, victim, VisitNo(g, f, p.ch, p.lun, i), m)
      {
        FlashPageFacts(p, victim, f, i);
        r2, v2 := CleanPage(Nth(p, i), r2, v2, s0, victim, VisitNo(g, f, p.ch, p.lun, i), m);
        i := i + 1;
      }
    }

    /** `p` is the first page of flash page `f` of a block of the victim. */
    ghost predicate FlashPage(p: Ppa, victim: nat, f: nat) {
      && g.Ok() && p.ch < g.nchs && p.lun < g.lunsPerCh && p.blk == victim < g.ttLines && f < g.flashpgsPerBlk
      && p.pg == Join(f, 0, g.pgsPerFlashpg)
    }

    lemma FlashPageFacts(p: Ppa, victim: nat, f: nat, i: nat)
      requires FlashPage(p, victim, f) && i < g.pgsPerFlashpg
      ensures g.Ok() && g.Valid(Nth(p, i)) && Nth(p, i).blk == victim
      ensures Rank(g, Nth(p, i)) == VisitNo(g, f, p.ch, p.lun, i)
      ensures g.BlkIdx(Nth(p, i)) == g.BlkIdx(p)
      ensures VisitNo(g, f, p.ch, p.lun, i + 1) == VisitNo(g, f, p.ch, p.lun, i) + 1
    {
      hide Hi, Lo, Geo.PgsPerBlk, VisitNo;
      FlashPageBound(g, f, i);
      assert Nth(p, i).pg == Join(f, i, g.pgsPerFlashpg);
      VisitSteps(g, f, p.ch, p.lun, i);
    }

    /** The victim was closed, so none of its pages that the collector still reads is free. */
    lemma PageClosed(p: Ppa, r: Ftl, v: Ftl, s0: Ftl, victim: nat, n: nat, m: nat)
      requires Collecting(r, v, s0, victim, n, m) && Sized(y, s0) && Closed(y, s0, victim)
      requires g.Valid(p) && p.blk == victim && g.BlkIdx(p) !in Freed(g, y, victim, m)
      ensures g.PgIdx(p) < status.Length && status[g.PgIdx(p)] != PgFree
    {
      hide Geo.PgIdx, Geo.BlkIdx, Geo.Valid, Geo.Ok, Freed, Collecting, Layout.Ok;
      ReadsOldStatus(r, v, s0, victim, n, m, p);
    }

    /** mark_block_free */
    method MarkBlockFree(p: Ppa, ghost s: Ftl, ghost b: nat)
      requires Holds(s) && g.Valid(p) && b == g.BlkIdx(p) && b < y.blks
      modifies status, blks
      ensures Holds(EraseBlock(y, s, b))
    {
      hide Lays, Layout.Bijective, TagsBounded, Geo.PgIdx, Geo.Ok, Geo.Valid, Geo.BlkIdx, Geo.PgsPerBlk,
        MapOk, RmapOk, StatusOk, BlocksOk, LinesOk, QueueOk, FreeOk, FullOk, PointersOk, FlowOk;
      LaysOk(g, y);
      ErasePages(p, s, b);
      EraseCounters(p, s, b);
    }

    method ErasePages(p: Ppa, ghost s: Ftl, ghost b: nat)
      requires Lays(g, y) && Sized(y, s) && StatusOk(s.status)
      requires g.Ok() && g.Valid(p) && b == g.BlkIdx(p) && b < y.blks
      modifies status
      ensures StatusOk(EraseStatus(y.blkOf, s.status, b))
    {
      hide Lays, Geo.PgIdx, Geo.BlkIdx, Geo.Ok, Geo.PgsPerBlk, Geo.PageOf, Layout.Bijective, TagsBounded;
      var i: nat := 0;
      while i < g.PgsPerBlk()
        invariant status.Length == y.pages
        invariant forall x :: 0 <= x < y.pages ==>
                    status[x] == if y.blkOf[x] == b && g.PageOf(x).pg < i then PgFree else s.status[x]
      {
        BlockPages(g, y, p, i);
        status[g.PgIdx(p.(pg := i))] := PgFree;
        i := i + 1;
      }
      BlockPages(g, y, p, i);
    }

    method EraseCounters(p: Ppa, ghost s: Ftl, ghost b: nat)
      requires Sized(y, s) && BlocksOk(s.blkVpc, s.blkIpc) && b == g.BlkIdx(p) && b < y.blks
      modifies blks
      ensures BlocksOk(s.blkVpc[b := 0], s.blkIpc[b := 0])
    {
      hide Geo.BlkIdx, Layout.Ok;
      var e := blks[g.BlkIdx(p)].eraseCnt;
      blks[g.BlkIdx(p)] := Block(0, 0, e + 1);
    }

    /** mark_line_free */
    method MarkLineFree(l: nat, ghost s: Ftl)
      requires Holds(s) && l < y.lines && l !in s.victims
      modifies this`freeLines, this`freeLineCnt, lines
      ensures Holds(FreeLine(y, s, l).(stats := s.stats))
    {
      hide Lays, Layout.Bijective, TagsBounded, Geo.Ok, PQueue.Heap.Valid,
        MapOk, RmapOk, StatusOk, BlocksOk, FullOk, PointersOk, FlowOk;
      SetLine(l, lines[l].(ipc := 0, vpc := 0, stamp := 0));
      freeLines := freeLines + [l];
      freeLineCnt := freeLineCnt + 1;
    }

    method CountGc(ghost s: Ftl)
      requires FlowOk(s.credits, s.refill, s.stats)
      modifies this`stats
      ensures FlowOk(s.credits, s.refill, TallyGc(s.stats))
    {
      stats := stats.(totalGcs := stats.totalGcs + 1);
      if stats.measuring {
        stats := stats.(gcCount := stats.gcCount + 1);
      } else if stats.totalGcs >= WARMUP_GCS {
        stats := stats.(measuring := true);
      }
    }

    /** How many LUNs have had their block erased when the collector reaches a LUN on flash page `f`. */
    ghost function LunsFreed(f: nat, ch: nat, lun: nat): nat {
      if f + 1 == g.flashpgsPerBlk then Join(ch, lun, g.lunsPerCh) else 0
    }

    /** One LUN's turn on flash page `f`: copy its live pages, and on the last flash page erase its block. */
    method CleanLun(victim: nat, f: nat, ch: nat, lun: nat, ghost r: Ftl, ghost v: Ftl, ghost s0: Ftl)
      returns (ghost r2: Ftl, ghost v2: Ftl)
      requires Collecting(r, v, s0, victim, VisitNo(g, f, ch, lun, 0), LunsFreed(f, ch, lun))
      requires ch < g.nchs && lun < g.lunsPerCh && f < g.flashpgsPerBlk
      requires Sized(y, s0) && Closed(y, s0, victim)
      modifies Repr()
      ensures Collecting(r2, v2, s0, victim, VisitNo(g, f, ch, lun + 1, 0), LunsFreed(f, ch, lun + 1))
    {
      hide Geo.PgIdx, Geo.BlkIdx, Geo.SlotOf, Geo.PageOf, Geo.LayoutOf, Geo.Valid, Geo.Ok, Freed, Done, Layout.Ok,
        VisitNo, Collecting, Closed, Join, LunsFreed, FlashPage;
      LunFacts(victim, f, ch, lun, r, v, s0);
      var p := Ppa(ch, lun, victim, Times(f, g.pgsPerFlashpg));
      r2, v2 := CleanOneFlashpg(p, r, v, s0, victim, f, LunsFreed(f, ch, lun));
      VisitSteps(g, f, ch, lun, 0);
      if f == g.flashpgsPerBlk - 1 {
        r2 := EraseLun(p, r2, v2, s0, victim, VisitNo(g, f, ch, lun + 1, 0), LunsFreed(f, ch, lun));
      }
    }

    lemma LunFacts(victim: nat, f: nat, ch: nat, lun: nat, r: Ftl, v: Ftl, s0: Ftl)
      requires Collecting(r, v, s0, victim, VisitNo(g, f, ch, lun, 0), LunsFreed(f, ch, lun))
      requires ch < g.nchs && lun < g.lunsPerCh && f < g.flashpgsPerBlk
      ensures var p := Ppa(ch, lun, victim, Times(f, g.pgsPerFlashpg));
              && FlashPage(p, victim, f) && g.Ok() && y.Sized()
              && g.Valid(p) && g.BlkIdx(p) !in Freed(g, y, victim, LunsFreed(f, ch, lun))
      ensures f + 1 == g.flashpgsPerBlk ==>
                LunsFreed(f, ch, lun + 1) == LunsFreed(f, ch, lun) + 1
                && LunsFreed(f, ch, lun) == Join(ch, lun, g.lunsPerCh)
      ensures f + 1 != g.flashpgsPerBlk ==> LunsFreed(f, ch, lun + 1) == LunsFreed(f, ch, lun)
    {
      hide Geo.PgIdx, Geo.BlkIdx, Geo.SlotOf, Geo.PageOf, Geo.LayoutOf, Freed, Done, Layout.Ok, Hi, Lo, Geo.PgsPerBlk,
        VisitNo, Progress;
      LaysOk(g, y);
      var p := Ppa(ch, lun, victim, Times(f, g.pgsPerFlashpg));
      assert Times(f, g.pgsPerFlashpg) == Join(f, 0, g.pgsPerFlashpg);
      FlashPageBound(g, f, 0);
      if f + 1 == g.flashpgsPerBlk {
        FreedNext(g, y, victim, p);
      } else {
        NoneFreed(victim, p);
      }
    }

    lemma NoneFreed(victim: nat, p: Ppa)
      requires g.Ok() && y.Sized()
      ensures g.BlkIdx(p) !in Freed(g, y, victim, 0)
    {
      hide Geo.BlkIdx;
    }

    method EraseLun(p: Ppa, ghost r: Ftl, ghost v: Ftl, ghost s0: Ftl, ghost victim: nat, ghost n: nat, ghost m: nat)
      returns (ghost r2: Ftl)
      requires Collecting(r, v, s0, victim, n, m)
      requires g.Valid(p) && p.blk == victim && m == Join(p.ch, p.lun, g.lunsPerCh)
      modifies status, blks
      ensures Collecting(r2, v, s0, victim, n, m + 1)
    {
      hide Geo.PgIdx, Geo.BlkIdx, Geo.SlotOf, Geo.PageOf, Geo.LayoutOf, Geo.Valid, Geo.Ok, Freed, Done, Layout.Ok, Join,
        Progress, Holds, Mirrors, Lays, EraseBlock;
      ghost var b := g.BlkIdx(p);
      EraseFacts(p, r, v, s0, victim, n, m);
      MirrorErase(y, r, v, s0, victim, Freed(g, y, victim, m), b);
      r2 := EraseBlock(y, r, b);
      MarkBlockFree(p, r, b);
    }

    lemma EraseFacts(p: Ppa, r: Ftl, v: Ftl, s0: Ftl, victim: nat, n: nat, m: nat)
      requires Collecting(r, v, s0, victim, n, m)
      requires g.Valid(p) && p.blk == victim && m == Join(p.ch, p.lun, g.lunsPerCh)
      ensures g.Ok() && y.Sized() && Sized(y, r) && g.BlkIdx(p) < y.blks && y.lineOfBlk[g.BlkIdx(p)] == victim
      ensures Freed(g, y, victim, m + 1) == Freed(g, y, victim, m) + {g.BlkIdx(p)}
    {
      hide Geo.PgIdx, Geo.BlkIdx, Geo.SlotOf, Geo.PageOf, Geo.LayoutOf, Geo.Valid, Geo.Ok, Freed, Done,
        Layout.Bijective, TagsBounded, Join, Progress, Mirrors;
      LaysOk(g, y);
      FreedNext(g, y, victim, p);
    }

    /** The copy loop of do_gc: over the flash pages of a block, the channels and the LUNs. */
    method CopyBack(victim: nat, ghost r: Ftl, ghost s0: Ftl) returns (ghost r2: Ftl, ghost v2: Ftl)
      requires g.Ok() && y.Sized() && Collecting(r, s0, s0, victim, 0, 0)
      requires Sized(y, s0) && Closed(y, s0, victim)
      modifies Repr()
      ensures Collecting(r2, v2, s0, victim, VisitNo(g, g.flashpgsPerBlk, 0, 0, 0), Join(g.nchs, 0, g.lunsPerCh))
    {
      hide Geo.Ok, Layout.Ok, VisitNo, Collecting, Closed, Join, LunsFreed;
      r2, v2 := r, s0;
      ghost var m := 0;
      LoopEdges(0, 0);
      var f: nat := 0;
      while f < g.flashpgsPerBlk
        invariant f <= g.flashpgsPerBlk
        invariant m == if f == g.flashpgsPerBlk then Join(g.nchs, 0, g.lunsPerCh) else 0
        invariant Collecting(r2, v2, s0, victim, VisitNo(g, f, 0, 0, 0), m)
      {
        LoopEdges(f, 0);
        var ch: nat := 0;
        while ch < g.nchs
          invariant ch <= g.nchs
          invariant Collecting(r2, v2, s0, victim, VisitNo(g, f, ch, 0, 0), LunsFreed(f, ch, 0))
        {
          var lun: nat := 0;
          while lun < g.lunsPerCh
            invariant lun <= g.lunsPerCh
            invariant Collecting(r2, v2, s0, victim, VisitNo(g, f, ch, lun, 0), LunsFreed(f, ch, lun))
          {
            r2, v2 := CleanLun(victim, f, ch, lun, r2, v2, s0);
            lun := lun + 1;
          }
          LoopEdges(f, ch);
          ch := ch + 1;
        }
        LoopEdges(f, 0);
        m := LunsFreed(f, g.nchs, 0);
        f := f + 1;
      }
    }

    lemma LoopEdges(f: nat, ch: nat)
      requires g.Ok()
      ensures VisitNo(g, 0, 0, 0, 0) == 0
      ensures LunsFreed(f, 0, 0) == 0
      ensures VisitNo(g, f, ch, g.lunsPerCh, 0) == VisitNo(g, f, ch + 1, 0, 0)
      ensures LunsFreed(f, ch, g.lunsPerCh) == LunsFreed(f, ch + 1, 0)
      ensures VisitNo(g, f, g.nchs, 0, 0) == VisitNo(g, f + 1, 0, 0, 0)
      ensures LunsFreed(f, g.nchs, 0) == if f + 1 == g.flashpgsPerBlk then Join(g.nchs, 0, g.lunsPerCh) else 0
      ensures g.flashpgsPerBlk > 0
    {
      hide VisitNo, Join;
      VisitSteps(g, f, ch, 0, 0);
      JoinCarry(ch, g.lunsPerCh);
      JoinZero(g.lunsPerCh);
    }

    /** do_gc: choose a victim, copy its live pages, erase its blocks, free the line. */
    method DoGc(policy: Policy, force: bool, now: nat, ghost s: Ftl) returns (rc: int, ghost t: Ftl)
      requires Holds(s) && Inv(y, s) && s.free != [] && (policy.Cat? ==> policy.param.Ok())
      modifies Repr()
      ensures Holds(t)
      ensures rc == 0 || rc == -1
      ensures rc == -1 ==> t == s && forall l :: l in s.victims && l < y.lines ==> !Eligible(s.vpc[l], y.perLine, force)
      ensures rc == 0 ==> exists victim ::
                Collected(y, s, t, victim) && Chosen(policy, old(lines[..]), s.victims, y.perLine, force, now, victim)
    {
      hide Inv, Holds, Collected, Chosen, Layout.Ok, Geo.Ok, Collecting, VisitNo, Join, Closed, Reclaim;
      GcStartFacts(s);
      var r := SelectVictim(policy, force, now, s);
      if r.None? {
        return -1, s;
      }
      t := CollectLine(r.value, s);
      rc := 0;
    }

    lemma GcStartFacts(s: Ftl)
      requires Holds(s) && Inv(y, s)
      ensures Sized(y, s)
      ensures forall l :: l in s.victims && l < y.lines ==> 0 < s.ipc[l] && s.vpc[l] + s.ipc[l] == y.perLine
    {
    }

    /** The part of do_gc after a victim was taken from the queue. */
    method CollectLine(victim: nat, ghost s: Ftl) returns (ghost t: Ftl)
      requires Sized(y, s) && Holds(s.(victims := s.victims - {victim}))
      requires Inv(y, s) && s.free != [] && victim in s.victims && victim < y.lines
      modifies Repr()
      ensures Holds(t) && Collected(y, s, t, victim)
    {
      hide Inv, Holds, Collected, Layout.Ok, Geo.Ok, Collecting, VisitNo, Join, Closed, Reclaim;
      ghost var s0 := s.(refill := s.ipc[victim]);
      ghost var r0 := s0.(victims := s0.victims - {victim});
      SetRefill(victim, s, s.(victims := s.victims - {victim}));
      CollectStart(victim, s);
      ghost var r, v := CopyBack(victim, r0, s0);
      CollectEnd(victim, s, r, v);
      t := FreeLine(y, r, victim);
      MarkLineFree(victim, r);
      CountFreed(victim, r);
    }

    method SetRefill(victim: nat, ghost s: Ftl, ghost r: Ftl)
      requires Holds(r) && victim < y.lines && s.ipc == r.ipc && |s.ipc| == y.lines
      modifies this`creditsToRefill
      ensures Holds(r.(refill := s.ipc[victim]))
    {
      hide Lays, Layout.Ok, MapOk, RmapOk, StatusOk, BlocksOk, QueueOk, FreeOk, FullOk, PointersOk;
      creditsToRefill := lines[victim].ipc;
    }

    lemma CollectStart(victim: nat, s: Ftl)
      requires Inv(y, s) && s.free != [] && victim in s.victims && victim < y.lines
      requires var s0 := s.(refill := s.ipc[victim]); Holds(s0.(victims := s0.victims - {victim}))
      ensures var s0 := s.(refill := s.ipc[victim]);
              && g.Ok() && y.Sized() && Sized(y, s0) && Closed(y, s0, victim)
              && Collecting(s0.(victims := s0.victims - {victim}), s0, s0, victim, 0, 0)
    {
      hide MapsAgree, CountersAgree, Placed, Conserved, Layout.Bijective, TagsBounded, Freed, Done, Mirrors, Progress,
        MapOk, RmapOk, StatusOk, BlocksOk, LinesOk, QueueOk, FreeOk, FullOk, PointersOk, FlowOk;
      var s0 := s.(refill := s.ipc[victim]);
      LaysOk(g, y);
      RefillInv(y, s, s.ipc[victim]);
      ProgressStart(y, s0, victim);
      MirrorStart(y, s0, victim);
      NothingYet(victim);
      assert Closed(y, s, victim);
    }

    lemma NothingYet(victim: nat)
      requires g.Ok() && y.Sized()
      ensures Done(g, y, victim, 0) == {} && Freed(g, y, victim, 0) == {}
    {
      hide Rank, Hi;
    }

    lemma CollectEnd(victim: nat, s: Ftl, r: Ftl, v: Ftl)
      requires Inv(y, s) && victim in s.victims && victim < y.lines
      requires g.Ok() && y.Sized()
      requires Collecting(r, v, s.(refill := s.ipc[victim]), victim,
                          VisitNo(g, g.flashpgsPerBlk, 0, 0, 0), Join(g.nchs, 0, g.lunsPerCh))
      ensures Sized(y, r) && victim !in r.victims && Holds(r)
      ensures Collected(y, s, FreeLine(y, r, victim), victim)
    {
      hide Inv, Layout.Ok, Freed, Done, Collected, Progress, Reclaim, VisitNo, Join, Geo.Ok, Stale, StaleCount,
        FreeLine, MapOk, RmapOk, StatusOk, BlocksOk, LinesOk, QueueOk, FreeOk, FullOk, PointersOk, FlowOk;
      var n := VisitNo(g, g.flashpgsPerBlk, 0, 0, 0);
      var m := Join(g.nchs, 0, g.lunsPerCh);
      DoneAll(g, y, victim);
      FreedAll(g, y, victim);
      MirrorDone(y, r, v, s.(refill := s.ipc[victim]), victim, Freed(g, y, victim, m));
      CollectedDone(y, s, v, victim, Done(g, y, victim, n), s.ipc[victim]);
    }

    method CountFreed(victim: nat, ghost r: Ftl)
      requires Sized(y, r) && victim < y.lines && Holds(FreeLine(y, r, victim).(stats := r.stats))
      modifies this`stats
      ensures Holds(FreeLine(y, r, victim))
    {
      hide Lays, Layout.Ok, TallyGc, MapOk, RmapOk, StatusOk, BlocksOk, LinesOk, QueueOk, FreeOk, FullOk, PointersOk,
        FlowOk;
      CountGc(r);
    }

    // ---------- Flow control ----------

    /** foreground_gc: collect one line, by force, when at most two lines are free. */
    method ForegroundGc(policy: Policy, now: nat, ghost s: Ftl) returns (ghost t: Ftl)
      requires Holds(s) && Inv(y, s) && s.free != [] && (policy.Cat? ==> policy.param.Ok())
      modifies Repr()
      ensures Holds(t) && Collects(y, s, t)
    {
      hide Inv, Collected, CollectedBy, Chosen, Layout.Ok, Lays,
        MapOk, RmapOk, StatusOk, BlocksOk, LinesOk, QueueOk, FullOk, PointersOk, FlowOk;
      t := s;
      if freeLineCnt <= GC_THRES_LINES_HIGH {
        var rc;
        ForcedChoice(s);
        rc, t := DoGc(policy, true, now, s);
        CollectedByAny(s, t);
      }
    }

    /** By force every queued line qualifies. */
    lemma ForcedChoice(s: Ftl)
      requires Inv(y, s)
      ensures forall l :: l in s.victims ==> l < y.lines && l < |s.vpc| && Eligible(s.vpc[l], y.perLine, true)
    {
      hide MapsAgree, CountersAgree, LinesAgree, Conserved, Layout.Ok;
      forall l | l in s.victims
        ensures l < y.lines
      {
        VictimNotOpen(y, s, l);
      }
    }

    lemma CollectedByAny(s: Ftl, t: Ftl)
      ensures (exists victim :: Collected(y, s, t, victim)) ==>
                s.victims != {} && exists victim, order :: CollectedBy(y, s, t, victim, order)
    {
      hide Inv, CollectedBy, Layout.Ok, Room, SameContent, Erased;
      if victim: nat :| Collected(y, s, t, victim) {
        var order :| CollectedBy(y, s, t, victim, order);
      }
    }

    /** check_and_refill_write_credit */
    method CheckAndRefill(policy: Policy, now: nat, ghost s: Ftl) returns (ghost t: Ftl)
      requires Holds(s) && Inv(y, s) && s.free != []
      requires policy.Cat? ==> policy.param.Ok()
      modifies Repr()
      ensures Holds(t) && Refilled(y, s, t)
    {
      hide Inv, Holds, Collects, Layout.Ok;
      CreditsRead(s);
      t := s;
      if writeCredits <= 0 {
        ghost var c := ForegroundGc(policy, now, s);
        AddCredits(c);
        t := c.(credits := c.credits + c.refill);
      }
    }

    lemma CreditsRead(s: Ftl)
      requires Holds(s)
      ensures writeCredits == s.credits
    {
    }

    method AddCredits(ghost s: Ftl)
      requires Holds(s)
      modifies this`writeCredits
      ensures Holds(s.(credits := s.credits + s.refill))
    {
      hide Lays, Layout.Ok, MapOk, RmapOk, StatusOk, BlocksOk, LinesOk, QueueOk, FreeOk, FullOk, PointersOk;
      writeCredits := writeCredits + creditsToRefill;
    }

    /** consume_write_credit: the credits are unsigned, so there must be one left. */
    method ConsumeCredit(ghost s: Ftl)
      requires Holds(s) && s.credits > 0
      modifies this`writeCredits
      ensures Holds(s.(credits := s.credits - 1))
    {
      hide Lays, Layout.Ok, MapOk, RmapOk, StatusOk, BlocksOk, LinesOk, QueueOk, FreeOk, FullOk, PointersOk;
      assert writeCredits > 0;
      writeCredits := writeCredits - 1;
    }

    // ---------- Host reads and writes ----------

    /** The first half of a host write: the older copy of the page, if any. */
    method Supersede(lpn: nat, now: nat, ghost s: Ftl)
      requires Holds(s) && Inv(y, s) && lpn < y.pages
      requires s.maptbl[lpn].Some? ==>
                 var x := s.maptbl[lpn].value;
                 x < y.pages && s.status[x] == PgValid && s.vpc[y.lineOf[x]] > 0 && s.blkVpc[y.blkOf[x]] > 0
      modifies Repr()
      ensures Holds(Superseded(y, s, lpn, now))
    {
      hide Inv, Lays, Layout.Bijective, TagsBounded, Geo.PgIdx, Geo.Ok, Geo.Valid, RmapOk, StatusOk, BlocksOk, LinesOk,
        QueueOk, FreeOk, FullOk, PointersOk, FlowOk;
      var ppa := maptbl[lpn];
      assert CellOk(g, ppa, s.maptbl[lpn]);
      if ppa.Some? {
        ghost var x := g.PgIdx(ppa.value);
        MarkPageInvalid(ppa.value, now, s, x);
        SetRmapEnt(None, ppa.value, s.rmap);
      }
    }

    /** The older copy is superseded, the page is written at the host write pointer, and a credit is spent. */
    method StorePage(lpn: nat, now: nat, ghost v: Data, ghost s: Ftl) returns (ghost t: Ftl)
      requires Holds(s) && Inv(y, s) && Funded(y, s) && lpn < y.pages
      modifies Repr()
      ensures Able(y, s, lpn) && t == Paid(y, s, PageWrite(lpn, v), now)
      ensures Holds(t) && Inv(y, t) && t.free != []
      ensures t.stats.totalHost == s.stats.totalHost + 1 && t.stats.totalGc == s.stats.totalGc
      ensures t.stats.totalGcs == s.stats.totalGcs
    {
      hide Inv, Holds, Funded, Write, Superseded, Layout.Ok, Append, Ready, Able;
      WriteStart(s, lpn, v, now);
      WriteEnd(s, lpn, v, now);
      Supersede(lpn, now, s);
      WriteAt(lpn, UserIo, Superseded(y, s, lpn, now), v);
      t := Write(y, s, lpn, v, now);
      ConsumeCredit(t);
      t := t.(credits := s.credits - 1);
    }

    /** The body of the write loop for one logical page: the page is stored, and credits are refilled, by collecting a
        line if need be. */
    method WritePage(policy: Policy, lpn: nat, now: nat, ghost v: Data)
      requires Coupled() && Inv(y, st) && Funded(y, st) && lpn < y.pages
      requires policy.Cat? ==> policy.param.Ok()
      modifies Repr()
      ensures Coupled() && Inv(y, st)
      ensures Fits(y, Mapped(old(st)) + {lpn}) ==> Funded(y, st)
      ensures Able(y, old(st), lpn) && HostStep(y, old(st), st, PageWrite(lpn, v), now)
      ensures Wrote(y, old(st), st, lpn, v)
      ensures st.stats.totalHost == old(st.stats.totalHost) + 1
    {
      hide Inv, Holds, Funded, Fits, Wrote, Layout.Ok, Refilled, HostStep, Able, Paid;
      ghost var s := st;
      ghost var t := StorePage(lpn, now, v, s);
      ghost var u := CheckAndRefill(policy, now, t);
      WriteStep(s, u, lpn, v, now);
      StepSound(y, s, u, PageWrite(lpn, v), now);
      st := u;
      assert Holds(st);
    }

    lemma WriteStart(s: Ftl, lpn: nat, v: Data, now: nat)
      requires Inv(y, s) && Funded(y, s) && lpn < y.pages
      ensures s.user.slot + 1 == y.perLine ==> s.free != []
      ensures Sized(y, s)
      ensures s.maptbl[lpn].Some? ==>
                var x := s.maptbl[lpn].value;
                x < y.pages && s.status[x] == PgValid && s.vpc[y.lineOf[x]] > 0 && s.blkVpc[y.blkOf[x]] > 0
      ensures var t := Superseded(y, s, lpn, now);
              Sized(y, t) && Ready(y, t, UserIo) && Append(y, t, lpn, v, UserIo) == Write(y, s, lpn, v, now)
    {
      hide MapsAgree, CountersAgree, Placed, LinesAgree, Conserved, Layout.Ok, Reserve, Write, Superseded, Append,
        Ready;
      WriteFunds(y, s, lpn, v, now);
      WriteSame(y, s, lpn, v, now);
      if s.maptbl[lpn].Some? {
        SupersededOk(y, s, lpn);
      }
    }

    lemma WriteEnd(s: Ftl, lpn: nat, v: Data, now: nat)
      requires Inv(y, s) && Funded(y, s) && lpn < y.pages
      ensures Able(y, s, lpn) && Write(y, s, lpn, v, now).credits == s.credits
      ensures Write(y, s, lpn, v, now).stats.totalHost == s.stats.totalHost + 1
      ensures Write(y, s, lpn, v, now).stats.totalGc == s.stats.totalGc
      ensures Write(y, s, lpn, v, now).stats.totalGcs == s.stats.totalGcs
      ensures var u := Write(y, s, lpn, v, now).(credits := s.credits - 1);
              Inv(y, u) && u.free != [] && u == Paid(y, s, PageWrite(lpn, v), now)
    {
      hide MapsAgree, CountersAgree, Placed, LinesAgree, Conserved, Layout.Ok, Reserve, Wrote, Write, SameContent;
      WriteFunds(y, s, lpn, v, now);
      WriteInv(y, s, lpn, v, now);
      CreditsInv(y, Write(y, s, lpn, v, now), s.credits - 1);
      ReserveFree(y, Write(y, s, lpn, v, now).(credits := s.credits - 1));
    }

    lemma WriteStep(s: Ftl, u: Ftl, lpn: nat, v: Data, now: nat)
      requires Able(y, s, lpn) && Refilled(y, Paid(y, s, PageWrite(lpn, v), now), u)
      ensures HostStep(y, s, u, PageWrite(lpn, v), now)
    {
      hide Inv, Refilled, Paid;
    }

    /** The translation a host read makes: an unmapped page is skipped, a mapped one is always a valid address. */
    method ReadPage(lpn: nat) returns (p: Option<Ppa>)
      requires Coupled() && Inv(y, st) && lpn < y.pages
      ensures p.None? <==> Content(st, lpn) == None
      ensures p.Some? ==> g.Valid(p.value) && g.PgIdx(p.value) < |st.data|
                          && Content(st, lpn) == Some(st.data[g.PgIdx(p.value)])
    {
      hide Lays, Layout.Ok, Geo.PgIdx, Geo.Ok, Geo.Valid, RmapOk, StatusOk, BlocksOk, LinesOk, QueueOk, FreeOk, FullOk,
        PointersOk, FlowOk, CountersAgree, Placed, LinesAgree, Conserved;
      p := maptbl[lpn];
      assert CellOk(g, p, st.maptbl[lpn]);
    }
  }

  /** The pages of one block, told apart by their number within it. */
  lemma BlockPages(g: Geo, y: Layout, p: Ppa, i: nat)
    requires Lays(g, y) && y.Sized() && g.Valid(p)
    ensures g.Ok()
    ensures i < g.PgsPerBlk() ==>
              && g.PgIdx(p.(pg := i)) < y.pages
              && (forall x :: 0 <= x < y.pages ==>
                    (x == g.PgIdx(p.(pg := i)) <==> y.blkOf[x] == g.BlkIdx(p) && g.PageOf(x).pg == i))
    ensures forall x :: 0 <= x < y.pages ==> g.PageOf(x).pg < g.PgsPerBlk()
  {
    hide Geo.PgIdx, Geo.BlkIdx, Geo.PgsPerBlk, Geo.PageOf, Geo.SlotOf, Geo.LayoutOf, Geo.Ok;
    var r := p.(pg := i);
    LaysOk(g, y);
    assert g.BlkIdx(r) == g.BlkIdx(p) by { SameBlock(g, p, i); }
    if i < g.PgsPerBlk() {
      LaysPage(g, y, r);
    }
    forall x: nat | x < y.pages
      ensures g.PageOf(x).pg < g.PgsPerBlk()
      ensures y.blkOf[x] == g.BlkIdx(p) && g.PageOf(x).pg == i ==> x == g.PgIdx(r)
    {
      IndexRoundTrip(g, x);
      LaysPage(g, y, g.PageOf(x));
      if y.blkOf[x] == g.BlkIdx(p) && g.PageOf(x).pg == i {
        BlkDigits(g, p, g.PageOf(x));
      }
    }
  }

  lemma SameBlock(g: Geo, p: Ppa, i: nat)
    ensures g.BlkIdx(p.(pg := i)) == g.BlkIdx(p)
  {
  }

  lemma BlkDigits(g: Geo, p: Ppa, z: Ppa)
    requires g.Ok() && g.Valid(p) && g.Valid(z) && g.BlkIdx(p) == g.BlkIdx(z)
    ensures z == p.(pg := z.pg)
  {
    hide Geo.BlkIdx, Hi, Lo;
    BlkRoundTrip(g, p);
    BlkRoundTrip(g, z);
  }

  lemma GcReady(y: Layout, r: Ftl, v: Ftl, s0: Ftl, victim: nat, freed: set<nat>)
    requires Mirrors(y, r, v, s0, victim, freed)
    requires Inv(y, v) && victim in v.victims
    requires v.gc.slot + 1 == y.perLine ==> v.free != []
    ensures Ready(y, r, GcIo)
  {
    hide MapsAgree, CountersAgree, Placed, LinesAgree, Conserved, Layout.Ok, Ready, Stale, StaleCount;
    InvReady(y, v, GcIo);
    VictimNotOpen(y, v, victim);
    MirrorReady(y, r, v, s0, victim, freed);
  }

  lemma PointerFacts(g: Geo, w: WritePointer, c: Cursor)
    requires g.Ok() && PointerOk(g, w, c)
    ensures w.curline == w.blk == c.line < g.ttLines && g.Valid(w.Page()) && c.slot == g.SlotOf(w.Page())
  {
  }

  lemma PointerMade(g: Geo, w: WritePointer, c: Cursor)
    requires g.Ok() && g.Valid(w.Page()) && w.curline == w.blk == c.line && c.slot == g.SlotOf(w.Page())
    ensures PointerOk(g, w, c)
  {
  }

  lemma FirstPointer(g: Geo, l: nat)
    requires g.Ok() && l < g.ttLines
    ensures PointerOk(g, WritePointer(l, 0, 0, 0, l), Cursor(l, 0))
  {
  }

  lemma AddressFacts(g: Geo, p: Ppa)
    requires g.Ok() && g.Valid(p)
    ensures Lo(p.pg + 1, g.pgsPerOneshot) != 0 ==>
              p.pg + 1 < g.PgsPerBlk() && g.SlotOf(p.(pg := p.pg + 1)) == g.SlotOf(p) + 1
    ensures Lo(p.pg + 1, g.pgsPerOneshot) == 0 ==>
              var back := p.pg + 1 - g.pgsPerOneshot;
              && 0 <= back < g.PgsPerBlk()
              && (p.ch + 1 != g.nchs ==> g.SlotOf(p.(pg := back, ch := p.ch + 1)) == g.SlotOf(p) + 1)
              && (p.ch + 1 == g.nchs && p.lun + 1 != g.lunsPerCh ==>
                    g.SlotOf(p.(pg := back, ch := 0, lun := p.lun + 1)) == g.SlotOf(p) + 1)
              && (p.ch + 1 == g.nchs && p.lun + 1 == g.lunsPerCh && p.pg + 1 != g.PgsPerBlk() ==>
                    p.pg + 1 < g.PgsPerBlk() && g.SlotOf(p.(pg := p.pg + 1, ch := 0, lun := 0)) == g.SlotOf(p) + 1)
  {
    hide Join, Hi, Lo, Times, Geo.SlotOf;
    NextSlot(g, p);
  }

  lemma InvalidateFacts(y: Layout, s: Ftl, x: nat)
    requires Inv(y, s) && x < y.pages && s.status[x] == PgValid
    ensures CountersAgree(y, s)
    ensures var l := y.lineOf[x];
            && 0 < s.vpc[l] <= y.perLine && s.ipc[l] < y.perLine
            && (s.vpc[l] == y.perLine ==> s.ipc[l] == 0 && l in s.full && l !in s.victims)
  {
    var l := y.lineOf[x];
    CountInvalidate(y.lineOf, s.status, y.lines, s.vpc, s.ipc, x);
    CountBounds(y.lineOf, s.status, y.lines, s.vpc, s.ipc, y.perLine, x);
    if s.vpc[l] == y.perLine {
      FullLine(y, s, l);
    }
  }
}
