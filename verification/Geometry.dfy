/** Flash geometry with one plane per LUN: page addresses, their linear index, and the order in which a write pointer
    visits the pages of a line. */
module Geometry {
  import opened Util
  import opened Arith
  import opened Layouts

  // ---------- Mixed-radix numbers ----------

  /** The number whose last digit in radix `n` is `lo`. */
  function Join(hi: nat, lo: nat, n: nat): nat { hi * n + lo }

  function Hi(x: nat, n: nat): nat
    requires 0 < n
  {
    x / n
  }

  function Lo(x: nat, n: nat): (r: nat)
    requires 0 < n
    ensures r < n
  {
    x % n
  }

  lemma JoinDigits(hi: nat, lo: nat, n: nat)
    requires lo < n
    ensures Hi(Join(hi, lo, n), n) == hi && Lo(Join(hi, lo, n), n) == lo
  {
    var x := hi * n + lo;
    assert x == (x / n) * n + x % n;
    if x / n > hi {
      MulLe(hi + 1, x / n, n);
    } else if x / n < hi {
      MulLe(x / n + 1, hi, n);
    }
  }

  lemma SplitDigits(x: nat, n: nat)
    requires 0 < n
    ensures Join(Hi(x, n), Lo(x, n), n) == x
  {
  }

  lemma JoinBound(hi: nat, lo: nat, m: nat, n: nat)
    requires hi < m && lo < n
    ensures Join(hi, lo, n) < m * n
  {
    MulLe(hi + 1, m, n);
    assert (hi + 1) * n == hi * n + n;
  }

  lemma HiBound(x: nat, m: nat, n: nat)
    requires 0 < n && x < m * n
    ensures Hi(x, n) < m
  {
    SplitDigits(x, n);
    if Hi(x, n) >= m {
      MulLe(m, Hi(x, n), n);
    }
  }

  function Times(a: nat, b: nat): (r: nat)
    ensures a > 0 && b > 0 ==> r > 0
  {
    a * b
  }

  // ---------- Geometry ----------

  /** A physical page address; the plane is always 0. */
  datatype Ppa = Ppa(ch: nat, lun: nat, blk: nat, pg: nat)

  datatype Geo = Geo(nchs: nat, lunsPerCh: nat, pgsPerOneshot: nat, oneshotsPerBlk: nat,
                     pgsPerFlashpg: nat, flashpgsPerBlk: nat, ttLines: nat)
  {
    predicate Ok() {
      && 0 < nchs && 0 < lunsPerCh && 0 < pgsPerOneshot && 0 < oneshotsPerBlk
      && 0 < pgsPerFlashpg && 0 < flashpgsPerBlk && 0 < ttLines
      && Times(flashpgsPerBlk, pgsPerFlashpg) == PgsPerBlk()
      && PgsPerLine() < 0x8000_0000  // page counters are C ints
    }

    function PgsPerBlk(): nat { Times(oneshotsPerBlk, pgsPerOneshot) }

    function TtLuns(): nat { Times(nchs, lunsPerCh) }

    function PgsPerLine(): nat { Times(TtLuns(), PgsPerBlk()) }

    function TtBlks(): nat { Times(TtLuns(), ttLines) }

    function TtPgs(): nat { Times(TtBlks(), PgsPerBlk()) }

    predicate Valid(p: Ppa) {
      p.ch < nchs && p.lun < lunsPerCh && p.blk < ttLines && p.pg < PgsPerBlk()
    }

    /** The linear index of a page, as the source computes it from the sizes of a plane, a LUN and a channel. */
    function PgIdx(p: Ppa): nat {
      var pgsPerLun := Times(PgsPerBlk(), ttLines);
      var pgsPerCh := Times(pgsPerLun, lunsPerCh);
      Times(p.ch, pgsPerCh) + Times(p.lun, pgsPerLun) + Times(p.blk, PgsPerBlk()) + p.pg
    }

    function BlkIdx(p: Ppa): nat {
      Join(Join(p.ch, p.lun, lunsPerCh), p.blk, ttLines)
    }

    /** How many pages of its line a write pointer programs before this one: one-shot page by one-shot page, over all
        channels of a LUN row, then over all LUN rows, then the next word line. */
    function SlotOf(p: Ppa): nat
      requires Ok()
    {
      Join(Join(Join(Hi(p.pg, pgsPerOneshot), p.lun, lunsPerCh), p.ch, nchs), Lo(p.pg, pgsPerOneshot), pgsPerOneshot)
    }

    function PageOf(x: nat): Ppa
      requires Ok()
    {
      var b := Hi(x, PgsPerBlk());
      var u := Hi(b, ttLines);
      Ppa(Hi(u, lunsPerCh), Lo(u, lunsPerCh), Lo(b, ttLines), Lo(x, PgsPerBlk()))
    }

    function PageAtSlot(l: nat, k: nat): Ppa
      requires Ok()
    {
      var a := Hi(k, pgsPerOneshot);
      var b := Hi(a, nchs);
      Ppa(Lo(a, nchs), Lo(b, lunsPerCh), l, Join(Hi(b, lunsPerCh), Lo(k, pgsPerOneshot), pgsPerOneshot))
    }

    /** The layout the mapping logic works with. */
    ghost function LayoutOf(): Layout
      requires Ok()
    {
      Layout(TtPgs(), PgsPerLine(), PgsPerBlk(), ttLines, TtBlks(),
             seq(TtPgs(), x requires 0 <= x => PageOf(x).blk),
             seq(TtPgs(), x requires 0 <= x => BlkIdx(PageOf(x))),
             seq(TtBlks(), b requires 0 <= b => Lo(b, ttLines)),
             seq(TtPgs(), x requires 0 <= x => SlotOf(PageOf(x))),
             seq(ttLines, l requires 0 <= l => seq(PgsPerLine(), k requires 0 <= k => PgIdx(PageAtSlot(l, k)))))
    }
  }

  lemma PgIdxJoin(g: Geo, p: Ppa)
    ensures g.PgIdx(p) == Join(g.BlkIdx(p), p.pg, g.PgsPerBlk())
  {
    Regroup(p.ch, p.lun, p.blk, g.lunsPerCh, g.ttLines, g.PgsPerBlk());
  }

  lemma Regroup(c: int, u: int, b: int, nu: int, nt: int, np: int)
    ensures c * (np * nt * nu) + u * (np * nt) + b * np == ((c * nu + u) * nt + b) * np
  {
    assert ((c * nu + u) * nt + b) * np == (c * nu + u) * nt * np + b * np;
    assert (c * nu + u) * nt * np == (c * nu + u) * (nt * np);
    assert (c * nu + u) * (nt * np) == c * nu * (nt * np) + u * (nt * np);
    assert c * nu * (nt * np) == c * (nu * (nt * np));
    assert nu * (nt * np) == np * nt * nu;
    assert u * (nt * np) == u * (np * nt);
  }

  lemma BlkRoundTrip(g: Geo, p: Ppa)
    requires g.Ok() && g.Valid(p)
    ensures g.BlkIdx(p) < g.TtBlks() && Lo(g.BlkIdx(p), g.ttLines) == p.blk
    ensures Hi(Hi(g.BlkIdx(p), g.ttLines), g.lunsPerCh) == p.ch && Lo(Hi(g.BlkIdx(p), g.ttLines), g.lunsPerCh) == p.lun
  {
    var u := Join(p.ch, p.lun, g.lunsPerCh);
    JoinBound(p.ch, p.lun, g.nchs, g.lunsPerCh);
    JoinBound(u, p.blk, g.TtLuns(), g.ttLines);
    hide Join, Hi, Lo, Times;
    JoinDigits(p.ch, p.lun, g.lunsPerCh);
    JoinDigits(u, p.blk, g.ttLines);
  }

  /** A page address is recovered from its index. */
  lemma PageRoundTrip(g: Geo, p: Ppa)
    requires g.Ok() && g.Valid(p)
    ensures g.PgIdx(p) < g.TtPgs() && g.PageOf(g.PgIdx(p)) == p
    ensures Hi(g.PgIdx(p), g.PgsPerBlk()) == g.BlkIdx(p) && g.BlkIdx(p) < g.TtBlks()
  {
    PgIdxJoin(g, p);
    BlkRoundTrip(g, p);
    JoinBound(g.BlkIdx(p), p.pg, g.TtBlks(), g.PgsPerBlk());
    hide Join, Hi, Lo, Times, Geo.BlkIdx, Geo.PgIdx;
    JoinDigits(g.BlkIdx(p), p.pg, g.PgsPerBlk());
  }

  /** Every index below the page count is the index of one valid address. */
  lemma IndexRoundTrip(g: Geo, x: nat)
    requires g.Ok() && x < g.TtPgs()
    ensures g.Valid(g.PageOf(x)) && g.PgIdx(g.PageOf(x)) == x
  {
    var b := Hi(x, g.PgsPerBlk());
    var u := Hi(b, g.ttLines);
    HiBound(x, g.TtBlks(), g.PgsPerBlk());
    HiBound(b, g.TtLuns(), g.ttLines);
    HiBound(u, g.nchs, g.lunsPerCh);
    PgIdxJoin(g, g.PageOf(x));
    hide Join, Hi, Lo, Times, Geo.PgIdx;
    SplitDigits(x, g.PgsPerBlk());
    SplitDigits(b, g.ttLines);
    SplitDigits(u, g.lunsPerCh);
  }

  lemma SlotCount(g: Geo)
    ensures g.oneshotsPerBlk * g.lunsPerCh * g.nchs * g.pgsPerOneshot == g.PgsPerLine()
  {
    var o, u, c, n := g.oneshotsPerBlk, g.lunsPerCh, g.nchs, g.pgsPerOneshot;
    assert o * u * c * n == o * (u * c) * n;
    assert o * (u * c) * n == (c * u) * (o * n) by { Swap(o, u * c, n); }
  }

  lemma Swap(a: int, b: int, c: int)
    ensures a * b * c == b * (a * c)
  {
  }

  /** The address of a page is recovered from its line and its slot. */
  lemma SlotRoundTrip(g: Geo, p: Ppa)
    requires g.Ok() && g.Valid(p)
    ensures g.SlotOf(p) < g.PgsPerLine() && g.PageAtSlot(p.blk, g.SlotOf(p)) == p
  {
    var n := g.pgsPerOneshot;
    var w, r := Hi(p.pg, n), Lo(p.pg, n);
    var b := Join(w, p.lun, g.lunsPerCh);
    var a := Join(b, p.ch, g.nchs);
    HiBound(p.pg, g.oneshotsPerBlk, n);
    JoinBound(w, p.lun, g.oneshotsPerBlk, g.lunsPerCh);
    JoinBound(b, p.ch, g.oneshotsPerBlk * g.lunsPerCh, g.nchs);
    JoinBound(a, r, g.oneshotsPerBlk * g.lunsPerCh * g.nchs, n);
    SlotCount(g);
    hide Join, Hi, Lo, Times;
    SplitDigits(p.pg, n);
    JoinDigits(w, p.lun, g.lunsPerCh);
    JoinDigits(b, p.ch, g.nchs);
    JoinDigits(a, r, n);
  }

  /** Every slot of a line is the slot of one valid address of that line. */
  lemma SlotInverse(g: Geo, l: nat, k: nat)
    requires g.Ok() && l < g.ttLines && k < g.PgsPerLine()
    ensures g.Valid(g.PageAtSlot(l, k)) && g.SlotOf(g.PageAtSlot(l, k)) == k
  {
    var n := g.pgsPerOneshot;
    var a := Hi(k, n);
    var b := Hi(a, g.nchs);
    var w := Hi(b, g.lunsPerCh);
    SlotCount(g);
    HiBound(k, g.oneshotsPerBlk * g.lunsPerCh * g.nchs, n);
    HiBound(a, g.oneshotsPerBlk * g.lunsPerCh, g.nchs);
    HiBound(b, g.oneshotsPerBlk, g.lunsPerCh);
    JoinBound(w, Lo(k, n), g.oneshotsPerBlk, n);
    hide Join, Hi, Lo, Times;
    JoinDigits(w, Lo(k, n), n);
    SplitDigits(k, n);
    SplitDigits(a, g.nchs);
    SplitDigits(b, g.lunsPerCh);
  }

  // ---------- The layout of a geometry ----------

  lemma LayoutRange(g: Geo)
    requires g.Ok()
    ensures g.LayoutOf().Sized() && g.LayoutOf().InRange()
  {
    var y := g.LayoutOf();
    hide Join, Hi, Lo, Times, Geo.BlkIdx, Geo.PgIdx, Geo.SlotOf, Geo.PageAtSlot, Geo.PageOf;
    forall x: nat | x < y.pages
      ensures y.lineOf[x] < y.lines && y.blkOf[x] < y.blks && y.slotOf[x] < y.perLine
      ensures y.lineOfBlk[y.blkOf[x]] == y.lineOf[x]
    {
      IndexRoundTrip(g, x);
      BlkRoundTrip(g, g.PageOf(x));
      SlotRoundTrip(g, g.PageOf(x));
    }
  }

  lemma LayoutSlot(g: Geo, l: nat, k: nat)
    requires g.Ok() && l < g.ttLines && k < g.PgsPerLine()
    requires g.LayoutOf().Sized()
    ensures var y := g.LayoutOf();
            |y.pageAt[l]| == y.perLine && y.pageAt[l][k] == g.PgIdx(g.PageAtSlot(l, k)) < y.pages
            && y.lineOf[y.pageAt[l][k]] == l && y.slotOf[y.pageAt[l][k]] == k
  {
    var p := g.PageAtSlot(l, k);
    assert p.blk == l;
    hide Join, Hi, Lo, Times, Geo.BlkIdx, Geo.PgIdx, Geo.SlotOf, Geo.PageAtSlot, Geo.PageOf, Geo.Valid;
    SlotInverse(g, l, k);
    PageRoundTrip(g, p);
  }

  /** `y` is the layout of the geometry. */
  ghost predicate Lays(g: Geo, y: Layout) {
    g.Ok() && y == g.LayoutOf()
  }

  /** What the layout tables say about a valid address. */
  lemma LayoutPage(g: Geo, p: Ppa)
    requires g.Ok() && g.Valid(p)
    ensures var y, x := g.LayoutOf(), g.PgIdx(p);
            && y.Sized() && x < y.pages
            && y.lineOf[x] == p.blk && y.blkOf[x] == g.BlkIdx(p) && y.slotOf[x] == g.SlotOf(p)
            && g.SlotOf(p) < y.perLine && |y.pageAt[p.blk]| == y.perLine && y.pageAt[p.blk][g.SlotOf(p)] == x
  {
    LayoutRange(g);
    PageRoundTrip(g, p);
    SlotRoundTrip(g, p);
    hide Join, Hi, Lo, Times, Geo.BlkIdx, Geo.PgIdx, Geo.SlotOf, Geo.PageAtSlot, Geo.PageOf;
  }

  lemma LayoutBijective(g: Geo)
    requires g.Ok()
    ensures g.LayoutOf().Sized() && g.LayoutOf().InRange() && g.LayoutOf().Bijective()
  {
    LayoutRange(g);
    var y := g.LayoutOf();
    forall l: nat, k: nat | l < y.lines && k < y.perLine
      ensures |y.pageAt[l]| == y.perLine
      ensures y.pageAt[l][k] < y.pages && y.lineOf[y.pageAt[l][k]] == l && y.slotOf[y.pageAt[l][k]] == k
    {
      LayoutSlot(g, l, k);
    }
    forall x: nat | x < y.pages
      ensures |y.pageAt[y.lineOf[x]]| == y.perLine && y.pageAt[y.lineOf[x]][y.slotOf[x]] == x
    {
      IndexRoundTrip(g, x);
      LayoutPage(g, g.PageOf(x));
    }
    hide Join, Hi, Lo, Times, Geo.BlkIdx, Geo.PgIdx, Geo.SlotOf, Geo.PageAtSlot, Geo.PageOf, Geo.LayoutOf;
  }

  // ---------- Group sizes ----------

  /** Pages that are told apart by a rank below `cap` are at most `cap` many. */
  lemma {:induction false} RankedSize(s: set<nat>, rank: seq<nat>, cap: nat)
    requires forall x :: x in s ==> x < |rank| && rank[x] < cap
    requires forall x, z :: x in s && z in s && rank[x] == rank[z] ==> x == z
    ensures |s| <= cap
  {
    var ranks := set x | x in s :: rank[x];
    ImageSize(s, rank, ranks);
    BelowSize(ranks, cap);
  }

  lemma {:induction false} ImageSize(s: set<nat>, rank: seq<nat>, ranks: set<nat>)
    requires forall x :: x in s ==> x < |rank|
    requires forall x, z :: x in s && z in s && rank[x] == rank[z] ==> x == z
    requires ranks == set x | x in s :: rank[x]
    ensures |ranks| == |s|
  {
    if s != {} {
      var x :| x in s;
      var rest := s - {x};
      var restRanks := set z | z in rest :: rank[z];
      ImageSize(rest, rank, restRanks);
      assert ranks == restRanks + {rank[x]};
      assert rank[x] !in restRanks;
    }
  }

  lemma LayoutGroups(g: Geo)
    requires g.Ok() && g.LayoutOf().Sized() && g.LayoutOf().InRange() && g.LayoutOf().Bijective()
    ensures var y := g.LayoutOf(); TagsBounded(y.lineOf, y.lines, y.perLine) && TagsBounded(y.blkOf, y.blks, y.perBlk)
  {
    var y := g.LayoutOf();
    forall t: nat | t < y.lines
      ensures |Tagged(y.lineOf, t)| <= y.perLine
    {
      RankedSize(Tagged(y.lineOf, t), y.slotOf, y.perLine);
    }
    forall t: nat | t < y.blks
      ensures |Tagged(y.blkOf, t)| <= y.perBlk
    {
      BlockGroup(g, t);
    }
    hide Geo.LayoutOf;
  }

  lemma BlockGroup(g: Geo, t: nat)
    requires g.Ok() && g.LayoutOf().Sized()
    ensures |Tagged(g.LayoutOf().blkOf, t)| <= g.PgsPerBlk()
  {
    var y := g.LayoutOf();
    var rank := seq(y.pages, x requires 0 <= x => Lo(x, g.PgsPerBlk()));
    var s := Tagged(y.blkOf, t);
    forall x, z | x in s && z in s && rank[x] == rank[z]
      ensures x == z
    {
      BlockOf(g, x);
      BlockOf(g, z);
      SplitDigits(x, g.PgsPerBlk());
      SplitDigits(z, g.PgsPerBlk());
    }
    RankedSize(s, rank, g.PgsPerBlk());
  }

  lemma BlockOf(g: Geo, x: nat)
    requires g.Ok() && x < g.TtPgs() && g.LayoutOf().Sized()
    ensures g.LayoutOf().blkOf[x] == Hi(x, g.PgsPerBlk())
  {
    IndexRoundTrip(g, x);
    PageRoundTrip(g, g.PageOf(x));
    hide Join, Hi, Lo, Times, Geo.BlkIdx, Geo.PgIdx, Geo.PageOf;
  }

  lemma LayoutOk(g: Geo)
    requires g.Ok()
    ensures g.LayoutOf().Ok()
  {
    hide Geo.LayoutOf, Layout.Sized, Layout.InRange, Layout.Bijective, TagsBounded;
    LayoutBijective(g);
    LayoutGroups(g);
    PerLine(g);
  }

  lemma PerLine(g: Geo)
    requires g.Ok()
    ensures g.LayoutOf().perLine > 0
  {
    hide Times;
  }

  // ---------- Moving a write pointer ----------

  lemma JoinNext(hi: nat, lo: nat, n: nat)
    ensures Join(hi, lo + 1, n) == Join(hi, lo, n) + 1
    ensures lo + 1 == n ==> Join(hi + 1, 0, n) == Join(hi, lo, n) + 1
  {
  }

  /** Which word line and which page of the one-shot group follow page `pg` of a block. */
  lemma NextInGroup(pg: nat, n: nat)
    requires 0 < n
    ensures Lo(pg, n) + 1 < n ==> Hi(pg + 1, n) == Hi(pg, n) && Lo(pg + 1, n) == Lo(pg, n) + 1
    ensures Lo(pg, n) + 1 == n ==>
              && Hi(pg + 1, n) == Hi(pg, n) + 1 && Lo(pg + 1, n) == 0
              && pg + 1 >= n && Hi(pg + 1 - n, n) == Hi(pg, n) && Lo(pg + 1 - n, n) == 0
  {
    var w, r := Hi(pg, n), Lo(pg, n);
    SplitDigits(pg, n);
    JoinNext(w, r, n);
    if r + 1 < n {
      JoinDigits(w, r + 1, n);
    } else {
      JoinDigits(w + 1, 0, n);
      JoinDigits(w, 0, n);
      assert pg + 1 - n == Join(w, 0, n);
    }
  }

  /** The page under the write pointer after each of the four ways it can move, and when it has reached the end. */
  lemma NextSlot(g: Geo, p: Ppa)
    requires g.Ok() && g.Valid(p)
    ensures Lo(p.pg + 1, g.pgsPerOneshot) != 0 ==>
              p.pg + 1 < g.PgsPerBlk() && g.SlotOf(p.(pg := p.pg + 1)) == g.SlotOf(p) + 1
    ensures Lo(p.pg + 1, g.pgsPerOneshot) == 0 ==>
              var back := p.pg + 1 - g.pgsPerOneshot;
              && 0 <= back
              && (p.ch + 1 != g.nchs ==> g.SlotOf(p.(pg := back, ch := p.ch + 1)) == g.SlotOf(p) + 1)
              && (p.ch + 1 == g.nchs && p.lun + 1 != g.lunsPerCh ==>
                    g.SlotOf(p.(pg := back, ch := 0, lun := p.lun + 1)) == g.SlotOf(p) + 1)
              && (p.ch + 1 == g.nchs && p.lun + 1 == g.lunsPerCh && p.pg + 1 != g.PgsPerBlk() ==>
                    p.pg + 1 < g.PgsPerBlk() && g.SlotOf(p.(pg := p.pg + 1, ch := 0, lun := 0)) == g.SlotOf(p) + 1)
  {
    var n := g.pgsPerOneshot;
    var w, r := Hi(p.pg, n), Lo(p.pg, n);
    var b := Join(w, p.lun, g.lunsPerCh);
    var a := Join(b, p.ch, g.nchs);
    StayInBlock(g, p.pg);
    hide Join, Hi, Lo, Times;
    NextInGroup(p.pg, n);
    JoinNext(a, r, n);
    JoinNext(b, p.ch, g.nchs);
    JoinNext(w, p.lun, g.lunsPerCh);
  }

  lemma StayInBlock(g: Geo, pg: nat)
    requires g.Ok() && pg < g.PgsPerBlk()
    ensures Lo(pg + 1, g.pgsPerOneshot) != 0 ==> pg + 1 < g.PgsPerBlk()
  {
    if pg + 1 == g.PgsPerBlk() {
      JoinDigits(g.oneshotsPerBlk, 0, g.pgsPerOneshot);
    }
  }

  /** Only the last page of the last one-shot group of the last LUN of the last channel has no successor. */
  lemma LastSlot(g: Geo, p: Ppa)
    requires g.Ok() && g.Valid(p)
    requires p.ch + 1 == g.nchs && p.lun + 1 == g.lunsPerCh && p.pg + 1 == g.PgsPerBlk()
    ensures g.SlotOf(p) + 1 == g.PgsPerLine()
  {
    var n := g.pgsPerOneshot;
    var w, r := Hi(p.pg, n), Lo(p.pg, n);
    var b := Join(w, p.lun, g.lunsPerCh);
    var a := Join(b, p.ch, g.nchs);
    JoinDigits(g.oneshotsPerBlk, 0, n);
    NextInGroup(p.pg, n);
    JoinNext(a, r, n);
    JoinNext(b, p.ch, g.nchs);
    JoinNext(w, p.lun, g.lunsPerCh);
    SlotCount(g);
    assert Join(a + 1, 0, n) == g.SlotOf(p) + 1;
    assert w + 1 == g.oneshotsPerBlk;
  }

  /** The pages of a block, flash page by flash page. */
  lemma FlashPages(g: Geo, pg: nat)
    requires g.Ok() && pg < g.PgsPerBlk()
    ensures Hi(pg, g.pgsPerFlashpg) < g.flashpgsPerBlk
    ensures Join(Hi(pg, g.pgsPerFlashpg), Lo(pg, g.pgsPerFlashpg), g.pgsPerFlashpg) == pg
  {
    HiBound(pg, g.flashpgsPerBlk, g.pgsPerFlashpg);
    SplitDigits(pg, g.pgsPerFlashpg);
  }

  lemma FlashPageBound(g: Geo, f: nat, i: nat)
    requires g.Ok() && f < g.flashpgsPerBlk && i < g.pgsPerFlashpg
    ensures Join(f, i, g.pgsPerFlashpg) < g.PgsPerBlk()
    ensures Hi(Join(f, i, g.pgsPerFlashpg), g.pgsPerFlashpg) == f
    ensures Lo(Join(f, i, g.pgsPerFlashpg), g.pgsPerFlashpg) == i
  {
    JoinBound(f, i, g.flashpgsPerBlk, g.pgsPerFlashpg);
    JoinDigits(f, i, g.pgsPerFlashpg);
  }

  /** The layout of a geometry, seen from a page address. */
  lemma LaysPage(g: Geo, y: Layout, p: Ppa)
    requires Lays(g, y) && g.Valid(p)
    ensures var x := g.PgIdx(p);
            && y.Sized() && x < y.pages
            && y.lineOf[x] == p.blk < y.lines && y.blkOf[x] == g.BlkIdx(p) < y.blks && y.slotOf[x] == g.SlotOf(p)
            && g.SlotOf(p) < y.perLine && |y.pageAt[p.blk]| == y.perLine && y.pageAt[p.blk][g.SlotOf(p)] == x
            && g.PageOf(x) == p && y.lineOfBlk[g.BlkIdx(p)] == p.blk
  {
    LayoutPage(g, p);
    PageRoundTrip(g, p);
    BlkRoundTrip(g, p);
    hide Join, Hi, Lo, Times, Geo.PageOf, Geo.BlkIdx, Geo.PgIdx, Geo.SlotOf, Geo.PageAtSlot;
  }

  lemma LaysOk(g: Geo, y: Layout)
    requires Lays(g, y)
    ensures g.Ok() && y.Ok() && y.lines == g.ttLines && y.perLine == g.PgsPerLine() && y.perBlk == g.PgsPerBlk()
    ensures y.pages == g.TtPgs() && y.blks == g.TtBlks()
  {
    LayoutOk(g);
  }
}
