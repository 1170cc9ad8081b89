/** The order in which the collector visits a line: flash page by flash page, over channels, over LUNs, page by page. */
module GcOrder {
  import opened Layouts
  import opened Geometry

  /** The visit number of a page within its line. */
  function Rank(g: Geo, p: Ppa): nat
    requires g.Ok()
  {
    VisitNo(g, Hi(p.pg, g.pgsPerFlashpg), p.ch, p.lun, Lo(p.pg, g.pgsPerFlashpg))
  }

  function VisitNo(g: Geo, f: nat, ch: nat, lun: nat, i: nat): nat {
    Join(Join(Join(f, ch, g.nchs), lun, g.lunsPerCh), i, g.pgsPerFlashpg)
  }

  /** The pages of `victim` among the first `n` visited. */
  ghost function Done(g: Geo, y: Layout, victim: nat, n: nat): set<nat>
    requires g.Ok() && y.Sized()
  {
    set x: nat | x < y.pages && y.lineOf[x] == victim && Rank(g, g.PageOf(x)) < n
  }

  /** The blocks of `victim` on the first `m` LUNs, counted channel by channel. */
  ghost function Freed(g: Geo, y: Layout, victim: nat, m: nat): set<nat>
    requires g.Ok() && y.Sized()
  {
    set b: nat | b < y.blks && y.lineOfBlk[b] == victim && Hi(b, g.ttLines) < m
  }

  lemma VisitSteps(g: Geo, f: nat, ch: nat, lun: nat, i: nat)
    ensures VisitNo(g, f, ch, lun, i + 1) == VisitNo(g, f, ch, lun, i) + 1
    ensures VisitNo(g, f, ch, lun, g.pgsPerFlashpg) == VisitNo(g, f, ch, lun + 1, 0)
    ensures VisitNo(g, f, ch, g.lunsPerCh, 0) == VisitNo(g, f, ch + 1, 0, 0)
    ensures VisitNo(g, f, g.nchs, 0, 0) == VisitNo(g, f + 1, 0, 0, 0)
    ensures VisitNo(g, 0, 0, 0, 0) == 0
  {
    hide Join;
    JoinCarry(Join(Join(f, ch, g.nchs), lun, g.lunsPerCh), g.pgsPerFlashpg);
    JoinCarry(Join(f, ch, g.nchs), g.lunsPerCh);
    JoinCarry(f, g.nchs);
    JoinNext(Join(Join(f, ch, g.nchs), lun, g.lunsPerCh), i, g.pgsPerFlashpg);
    JoinNext(Join(f, ch, g.nchs), lun, g.lunsPerCh);
    JoinNext(f, ch, g.nchs);
    JoinZero(g.nchs);
    JoinZero(g.lunsPerCh);
    JoinZero(g.pgsPerFlashpg);
  }

  lemma JoinCarry(hi: nat, n: nat)
    ensures Join(hi, n, n) == Join(hi + 1, 0, n)
  {
  }

  lemma JoinZero(n: nat)
    ensures Join(0, 0, n) == 0
  {
  }

  /** Equal visit numbers mean equal places. */
  lemma RankDigits(g: Geo, p: Ppa, z: Ppa)
    requires g.Ok() && g.Valid(p) && g.Valid(z) && p.blk == z.blk && Rank(g, p) == Rank(g, z)
    ensures p == z
  {
    hide Join, Hi, Lo, Times;
    RankParts(g, p);
    RankParts(g, z);
    SplitDigits(p.pg, g.pgsPerFlashpg);
    SplitDigits(z.pg, g.pgsPerFlashpg);
  }

  lemma RankParts(g: Geo, p: Ppa)
    requires g.Ok() && g.Valid(p)
    ensures var r := Rank(g, p);
            var a := Hi(r, g.pgsPerFlashpg);
            var b := Hi(a, g.lunsPerCh);
            && Lo(r, g.pgsPerFlashpg) == Lo(p.pg, g.pgsPerFlashpg) && Lo(a, g.lunsPerCh) == p.lun
            && Lo(b, g.nchs) == p.ch && Hi(b, g.nchs) == Hi(p.pg, g.pgsPerFlashpg)
  {
    hide Join, Hi, Lo, Times;
    var f := Hi(p.pg, g.pgsPerFlashpg);
    JoinDigits(f, p.ch, g.nchs);
    JoinDigits(Join(f, p.ch, g.nchs), p.lun, g.lunsPerCh);
    JoinDigits(Join(Join(f, p.ch, g.nchs), p.lun, g.lunsPerCh), Lo(p.pg, g.pgsPerFlashpg), g.pgsPerFlashpg);
  }

  /** The page visited next joins the visited ones. */
  lemma DoneNext(g: Geo, y: Layout, victim: nat, p: Ppa)
    requires Lays(g, y) && g.Valid(p) && p.blk == victim && y.Sized()
    ensures var n, x := Rank(g, p), g.PgIdx(p);
            Done(g, y, victim, n + 1) == Done(g, y, victim, n) + {x} && x !in Done(g, y, victim, n)
  {
    hide Rank, Geo.PgIdx, Geo.PageOf, Geo.LayoutOf, Geo.Ok, Geo.Valid, Geo.BlkIdx, Geo.SlotOf;
    var n, x := Rank(g, p), g.PgIdx(p);
    LaysPage(g, y, p);
    LaysOk(g, y);
    forall z: nat | z < y.pages && y.lineOf[z] == victim && Rank(g, g.PageOf(z)) == n
      ensures z == x
    {
      IndexRoundTrip(g, z);
      LaysPage(g, y, g.PageOf(z));
      RankDigits(g, p, g.PageOf(z));
    }
    forall z | z in Done(g, y, victim, n + 1)
      ensures z in Done(g, y, victim, n) + {x}
    {
    }
  }

  /** After the last visit every page of the line has been visited. */
  lemma DoneAll(g: Geo, y: Layout, victim: nat)
    requires Lays(g, y) && y.Sized()
    ensures forall x :: 0 <= x < y.pages && y.lineOf[x] == victim ==>
              x in Done(g, y, victim, VisitNo(g, g.flashpgsPerBlk, 0, 0, 0))
  {
    hide Rank, VisitNo, Geo.PgIdx, Geo.PageOf, Geo.LayoutOf, Geo.Ok, Geo.Valid, Geo.BlkIdx, Geo.SlotOf;
    LaysOk(g, y);
    forall x: nat | x < y.pages && y.lineOf[x] == victim
      ensures Rank(g, g.PageOf(x)) < VisitNo(g, g.flashpgsPerBlk, 0, 0, 0)
    {
      IndexRoundTrip(g, x);
      RankBelow(g, g.PageOf(x));
    }
  }

  lemma RankBelow(g: Geo, p: Ppa)
    requires g.Ok() && g.Valid(p)
    ensures Rank(g, p) < VisitNo(g, g.flashpgsPerBlk, 0, 0, 0)
  {
    var f := Hi(p.pg, g.pgsPerFlashpg);
    var n := g.flashpgsPerBlk;
    FlashPages(g, p.pg);
    var b := Join(f, p.ch, g.nchs);
    JoinBound(f, p.ch, n, g.nchs);
    JoinBound(b, p.lun, n * g.nchs, g.lunsPerCh);
    JoinBound(Join(b, p.lun, g.lunsPerCh), Lo(p.pg, g.pgsPerFlashpg), n * g.nchs * g.lunsPerCh, g.pgsPerFlashpg);
  }

  lemma FreedNext(g: Geo, y: Layout, victim: nat, p: Ppa)
    requires Lays(g, y) && g.Valid(p) && p.blk == victim && y.Sized()
    ensures var m, b := Join(p.ch, p.lun, g.lunsPerCh), g.BlkIdx(p);
            && Freed(g, y, victim, m + 1) == Freed(g, y, victim, m) + {b} && b !in Freed(g, y, victim, m)
            && b < y.blks && y.lineOfBlk[b] == victim
  {
    LaysPage(g, y, p);
    LaysOk(g, y);
    FreedDigits(g, y, victim, p);
  }

  lemma FreedDigits(g: Geo, y: Layout, victim: nat, p: Ppa)
    requires Lays(g, y) && g.Valid(p) && p.blk == victim && y.Sized() && y.lines == g.ttLines
    requires g.BlkIdx(p) < y.blks == g.TtBlks() && y.lineOfBlk[g.BlkIdx(p)] == victim
    ensures var m, b := Join(p.ch, p.lun, g.lunsPerCh), g.BlkIdx(p);
            Freed(g, y, victim, m + 1) == Freed(g, y, victim, m) + {b} && b !in Freed(g, y, victim, m)
  {
    hide Join, Hi, Lo, Times, Geo.PageOf, Geo.PgIdx, Geo.SlotOf, Geo.PageAtSlot;
    var m, b := Join(p.ch, p.lun, g.lunsPerCh), g.BlkIdx(p);
    JoinDigits(m, p.blk, g.ttLines);
    forall c: nat | c < y.blks && y.lineOfBlk[c] == victim && Hi(c, g.ttLines) == m
      ensures c == b
    {
      SplitDigits(c, g.ttLines);
    }
  }

  lemma FreedAll(g: Geo, y: Layout, victim: nat)
    requires Lays(g, y) && y.Sized()
    ensures forall b :: 0 <= b < y.blks && y.lineOfBlk[b] == victim ==>
              b in Freed(g, y, victim, Join(g.nchs, 0, g.lunsPerCh))
  {
    hide Geo.LayoutOf, Geo.PageOf, Geo.PgIdx, Geo.SlotOf, Geo.PageAtSlot, Hi;
    LaysOk(g, y);
    forall b: nat | b < y.blks && y.lineOfBlk[b] == victim
      ensures Hi(b, g.ttLines) < Join(g.nchs, 0, g.lunsPerCh)
    {
      HiBound(b, g.TtLuns(), g.ttLines);
    }
  }
}
