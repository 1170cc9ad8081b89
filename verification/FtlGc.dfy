/** Garbage collection of one line.

    The collector remaps live pages without invalidating their old copies, and the victim's counters stay stale until
    its blocks and the line are freed.  The proof follows a clean state `v` beside the real one, in which every copy is
    an ordinary rewrite (old copy invalidated, new copy appended at the GC write pointer), so `v` keeps the whole
    invariant; `Mirrors` says how the real state differs from it, and the differences vanish once the line is freed. */
module FtlGc {
  import opened Util
  import opened Layouts
  import opened Counts
  import opened FtlState

  /** Pages that can still be programmed before the free list runs dry. */
  ghost function Room(y: Layout, s: Ftl): int {
    |s.free| * y.perLine + (y.perLine - s.user.slot) + (y.perLine - s.gc.slot)
  }

  lemma AppendRoom(y: Layout, s: Ftl, lpn: nat, v: Data, io: IoType)
    requires Sized(y, s) && lpn < y.pages
    requires At(s, io).slot + 1 == y.perLine ==> s.free != []
    ensures Room(y, Append(y, s, lpn, v, io)) == Room(y, s) - 1
  {
    hide Layout.Bijective, TagsBounded;
    var c := At(s, io);
    var t := Append(y, s, lpn, v, io);
    if c.slot + 1 == y.perLine {
      assert |t.free| == |s.free| - 1;
      assert |s.free| * y.perLine == |t.free| * y.perLine + y.perLine;
    } else {
      assert t.free == s.free;
    }
  }

  /** One copy, done cleanly: the live page `x` is rewritten at the GC write pointer. */
  ghost function Rewrite(y: Layout, s: Ftl, x: nat): Ftl
    requires Inv(y, s) && x < y.pages && s.status[x] == PgValid
    requires s.gc.slot + 1 == y.perLine ==> s.free != []
  {
    var lpn := s.rmap[x].value;
    TrimInv(y, s, lpn, x, s.stamp[y.lineOf[x]]);
    Append(y, Trim(y, s, lpn, x, s.stamp[y.lineOf[x]]), lpn, s.data[x], GcIo)
  }

  /** One page's turn: a live page is rewritten, any other is passed over.  A page that cannot be rewritten stays. */
  ghost function CopyPage(y: Layout, v: Ftl, x: nat): Ftl {
    if Inv(y, v) && x < y.pages && v.status[x] == PgValid && (v.gc.slot + 1 == y.perLine ==> v.free != [])
    then Rewrite(y, v, x) else v
  }

  /** The pages of `order`, one after the other. */
  ghost function CopyAll(y: Layout, s: Ftl, order: seq<nat>): Ftl {
    if order == [] then s else CopyPage(y, CopyAll(y, s, order[..|order| - 1]), order[|order| - 1])
  }

  /** `v` is what copying the pages in `done`, all of them pages of the victim, in some order makes of `s0`. */
  ghost predicate Copied(y: Layout, s0: Ftl, v: Ftl, victim: nat, done: set<nat>) {
    && |y.lineOf| == y.pages && (forall x :: x in done ==> x < y.pages && y.lineOf[x] == victim)
    && exists order :: Copies(y, s0, v, done, order)
  }

  ghost predicate Copies(y: Layout, s0: Ftl, v: Ftl, done: set<nat>, order: seq<nat>) {
    (forall x :: x in order <==> x in done) && v == CopyAll(y, s0, order)
  }

  lemma CopiedNothing(y: Layout, s0: Ftl, victim: nat)
    requires |y.lineOf| == y.pages
    ensures Copied(y, s0, s0, victim, {})
  {
    assert Copies(y, s0, s0, {}, []);
  }

  lemma CopiedMore(y: Layout, s0: Ftl, v: Ftl, victim: nat, done: set<nat>, x: nat)
    requires Copied(y, s0, v, victim, done) && x < y.pages && y.lineOf[x] == victim
    ensures Copied(y, s0, CopyPage(y, v, x), victim, done + {x})
  {
    hide CopyPage;
    var order :| Copies(y, s0, v, done, order);
    assert (order + [x])[..|order|] == order;
    assert Copies(y, s0, CopyPage(y, v, x), done + {x}, order + [x]);
  }

  /** The progress of a collection of `victim` that started in `s0`: the pages in `done` have been handled and the
      others of the line have not; logical contents are those of `s0`; no programmed page of another line changed. */
  ghost predicate Progress(y: Layout, s0: Ftl, v: Ftl, victim: nat, done: set<nat>) {
    && Sized(y, s0) && MapsAgree(s0)
    && Inv(y, v)
    && victim in v.victims
    && Handled(y.lineOf, s0.status, v.status, victim, done)
    && Kept(y.lineOf, s0.status, s0.data, v.status, v.data, victim)
    && SameContent(y, s0, v)
    && Spent(y, s0, v, victim)
    && Copied(y, s0, v, victim, done)
  }

  /** The live pages of the victim that have not been handled are still valid, and no others. */
  ghost predicate Handled(lineOf: seq<nat>, st0: seq<PgStatus>, st: seq<PgStatus>, victim: nat, done: set<nat>) {
    && |lineOf| == |st0| == |st|
    && (forall x :: 0 <= x < |st| && lineOf[x] == victim ==> (st[x] == PgValid <==> st0[x] == PgValid && x !in done))
  }

  /** Pages that were programmed keep their data and, outside the victim, their status. */
  ghost predicate Kept(lineOf: seq<nat>, st0: seq<PgStatus>, d0: seq<Data>, st: seq<PgStatus>, d: seq<Data>,
                       victim: nat) {
    && |lineOf| == |st0| == |d0| == |st| == |d|
    && (forall x :: 0 <= x < |st| && lineOf[x] != victim && st0[x] != PgFree ==> st[x] == st0[x])
    && (forall x :: 0 <= x < |st| && st0[x] != PgFree ==> d[x] == d0[x])
  }

  ghost predicate SameContent(y: Layout, s0: Ftl, v: Ftl)
    requires Sized(y, s0) && MapsAgree(s0) && Sized(y, v) && MapsAgree(v)
  {
    forall lpn :: 0 <= lpn < y.pages ==> Content(v, lpn) == Content(s0, lpn)
  }

  /** What the copies so far have used up: one page of room and one programmed page each, as many as the victim has
      lost valid pages. */
  ghost predicate Spent(y: Layout, s0: Ftl, v: Ftl, victim: nat)
    requires Sized(y, s0) && Sized(y, v) && victim < y.lines
  {
    && v.vpc[victim] + v.ipc[victim] == y.perLine == s0.vpc[victim] + s0.ipc[victim]
    && v.vpc[victim] <= s0.vpc[victim] < y.perLine
    && Room(y, v) == Room(y, s0) - (s0.vpc[victim] - v.vpc[victim])
    && v.stats.totalGc == s0.stats.totalGc + (s0.vpc[victim] - v.vpc[victim])
    && v.stats.totalHost == s0.stats.totalHost && v.stats.totalGcs == s0.stats.totalGcs
    && v.stats.measuring == s0.stats.measuring
    && v.credits == s0.credits && v.refill == s0.refill && v.user == s0.user
  }

  lemma RoomBounds(y: Layout, s: Ftl)
    requires Sized(y, s)
    ensures s.free == [] ==> Room(y, s) == (y.perLine - s.user.slot) + (y.perLine - s.gc.slot)
    ensures s.free != [] ==> Room(y, s) >= y.perLine + (y.perLine - s.user.slot) + (y.perLine - s.gc.slot)
  {
    hide Layout.Ok;
    if s.free != [] {
      assert |s.free| * y.perLine >= 1 * y.perLine;
    }
  }

  /** A collection that begins with a free line in hand never runs out of lines. */
  lemma CopyHasRoom(y: Layout, s0: Ftl, v: Ftl, victim: nat)
    requires Sized(y, s0) && Sized(y, v) && victim < y.lines
    requires Spent(y, s0, v, victim)
    requires s0.free != []
    requires v.gc.slot + 1 == y.perLine
    ensures v.free != []
  {
    hide Layout.Bijective, TagsBounded;
    RoomBounds(y, s0);
    RoomBounds(y, v);
  }

  lemma ValidPage(s: Ftl, x: nat)
    requires |s.rmap| == |s.status| == |s.maptbl| && MapsAgree(s)
    requires x < |s.status| && s.status[x] == PgValid
    ensures s.rmap[x].Some? && s.rmap[x].value < |s.maptbl| && s.maptbl[s.rmap[x].value] == Some(x)
  {
  }

  lemma RewriteInv(y: Layout, s: Ftl, x: nat)
    requires Inv(y, s) && x < y.pages && s.status[x] == PgValid
    requires s.gc.slot + 1 == y.perLine ==> s.free != []
    ensures Inv(y, Rewrite(y, s, x))
  {
    hide MapsAgree, CountersAgree, Placed, LinesAgree, Conserved, Layout.Bijective, TagsBounded;
    ValidPage(s, x);
    var lpn, now := s.rmap[x].value, s.stamp[y.lineOf[x]];
    TrimInv(y, s, lpn, x, now);
    AppendInv(y, Trim(y, s, lpn, x, now), lpn, s.data[x], GcIo);
  }

  lemma AppendEffect(y: Layout, s: Ftl, lpn: nat, v: Data, io: IoType)
    requires Sized(y, s) && lpn < y.pages
    requires At(s, io).slot + 1 == y.perLine ==> s.free != []
    ensures var t, z := Append(y, s, lpn, v, io), Target(y, s, io);
            && t.maptbl == s.maptbl[lpn := Some(z)] && t.rmap == s.rmap[z := Some(lpn)]
            && t.data == s.data[z := v] && t.status == s.status[z := PgValid]
            && t.vpc == s.vpc[y.lineOf[z] := s.vpc[y.lineOf[z]] + 1] && t.ipc == s.ipc
            && t.credits == s.credits && t.refill == s.refill && t.stats == Tally(s.stats, io)
            && At(t, Other(io)) == At(s, Other(io))
            && s.victims <= t.victims
  {
    hide Layout.Bijective, TagsBounded;
  }

  lemma TrimEffect(y: Layout, s: Ftl, lpn: nat, x: nat, now: nat)
    requires Sized(y, s) && x < y.pages && lpn < y.pages
    requires s.vpc[y.lineOf[x]] > 0 && s.blkVpc[y.blkOf[x]] > 0
    ensures var t, l := Trim(y, s, lpn, x, now), y.lineOf[x];
            && t.maptbl == s.maptbl[lpn := None] && t.rmap == s.rmap && t.data == s.data
            && t.status == s.status[x := PgInvalid]
            && t.vpc == s.vpc[l := s.vpc[l] - 1] && t.ipc == s.ipc[l := s.ipc[l] + 1]
            && t.free == s.free && t.user == s.user && t.gc == s.gc
            && t.credits == s.credits && t.refill == s.refill && t.stats == s.stats
            && s.victims <= t.victims
  {
    hide Layout.Bijective, TagsBounded;
  }

  /** A copy is an append to the state in which the page was forgotten. */
  lemma RewriteDef(y: Layout, s: Ftl, x: nat)
    requires Inv(y, s) && x < y.pages && s.status[x] == PgValid
    requires s.gc.slot + 1 == y.perLine ==> s.free != []
    ensures s.rmap[x].Some? && s.rmap[x].value < y.pages
    ensures s.vpc[y.lineOf[x]] > 0 && s.blkVpc[y.blkOf[x]] > 0
    ensures var lpn := s.rmap[x].value;
            var u := Trim(y, s, lpn, x, s.stamp[y.lineOf[x]]);
            && Sized(y, u) && u.gc == s.gc && u.free == s.free
            && Rewrite(y, s, x) == Append(y, u, lpn, s.data[x], GcIo)
  {
    hide MapsAgree, CountersAgree, Placed, LinesAgree, Conserved, Layout.Bijective, TagsBounded, Append;
    ValidPage(s, x);
    TrimInv(y, s, s.rmap[x].value, x, s.stamp[y.lineOf[x]]);
  }

  /** What one copy changes: the logical page moves to the page under the GC write pointer, with its data. */
  lemma RewriteEffect(y: Layout, s: Ftl, x: nat)
    requires Inv(y, s) && x < y.pages && s.status[x] == PgValid
    requires s.gc.slot + 1 == y.perLine ==> s.free != []
    ensures s.rmap[x].Some? && s.rmap[x].value < y.pages
    ensures var t, lpn, z := Rewrite(y, s, x), s.rmap[x].value, Target(y, s, GcIo);
            && t.maptbl == s.maptbl[lpn := Some(z)]
            && t.rmap == s.rmap[z := Some(lpn)]
            && t.data == s.data[z := s.data[x]]
            && t.status == s.status[x := PgInvalid][z := PgValid]
            && t.credits == s.credits && t.refill == s.refill && t.stats == Tally(s.stats, GcIo) && t.user == s.user
            && s.victims <= t.victims
  {
    hide MapsAgree, CountersAgree, Placed, LinesAgree, Conserved, Layout.Bijective, TagsBounded, Append, Rewrite, Trim,
      Tally;
    RewriteDef(y, s, x);
    var lpn, now := s.rmap[x].value, s.stamp[y.lineOf[x]];
    TrimEffect(y, s, lpn, x, now);
    var u := Trim(y, s, lpn, x, now);
    AppendEffect(y, u, lpn, s.data[x], GcIo);
    var z := TargetSame(y, s, u);
    UpdateTwice(s.maptbl, lpn, None, Some(z));
  }

  lemma TargetSame(y: Layout, s: Ftl, u: Ftl) returns (z: nat)
    requires Sized(y, s) && Sized(y, u) && s.gc == u.gc
    ensures z == Target(y, s, GcIo) == Target(y, u, GcIo)
  {
    hide Layout.Bijective, TagsBounded;
    z := Target(y, s, GcIo);
  }

  lemma UpdateTwice<T>(q: seq<T>, i: nat, a: T, b: T)
    requires i < |q|
    ensures q[i := a][i := b] == q[i := b]
  {
  }

  lemma RewriteCounts(y: Layout, s: Ftl, x: nat)
    requires Inv(y, s) && x < y.pages && s.status[x] == PgValid
    requires s.gc.slot + 1 == y.perLine ==> s.free != []
    requires y.lineOf[x] != s.gc.line
    ensures var t, l := Rewrite(y, s, x), y.lineOf[x];
            && |t.vpc| == |t.ipc| == y.lines
            && s.vpc[l] > 0 && t.vpc[l] == s.vpc[l] - 1 && t.ipc[l] == s.ipc[l] + 1
    ensures Room(y, Rewrite(y, s, x)) == Room(y, s) - 1
  {
    hide MapsAgree, CountersAgree, Placed, Conserved, TagsBounded, Append, Rewrite, Trim, Room, ListsAgree;
    RewriteDef(y, s, x);
    TargetFree(y, s, GcIo);
    var lpn, now := s.rmap[x].value, s.stamp[y.lineOf[x]];
    TrimEffect(y, s, lpn, x, now);
    var u := Trim(y, s, lpn, x, now);
    AppendEffect(y, u, lpn, s.data[x], GcIo);
    AppendRoom(y, u, lpn, s.data[x], GcIo);
    SameRoomAs(y, s, u);
  }

  lemma SameRoomAs(y: Layout, s: Ftl, u: Ftl)
    requires u.free == s.free && u.user == s.user && u.gc == s.gc
    ensures Room(y, u) == Room(y, s)
  {
  }

  /** Contents depend only on the forward map and the data it points to. */
  lemma ContentMoved(s: Ftl, t: Ftl, lpn: nat, z: nat)
    requires |s.data| == |s.rmap| == |s.status| == |s.maptbl| == |t.data| == |t.rmap| == |t.status| == |t.maptbl|
    requires MapsAgree(s) && MapsAgree(t)
    requires lpn < |s.maptbl| && s.maptbl[lpn].Some? && z < |s.data| && s.status[z] != PgValid
    requires t.maptbl == s.maptbl[lpn := Some(z)]
    requires t.data == s.data[z := s.data[s.maptbl[lpn].value]]
    ensures forall k :: 0 <= k < |s.maptbl| ==> Content(t, k) == Content(s, k)
  {
  }

  lemma RewriteContent(y: Layout, s: Ftl, x: nat)
    requires Inv(y, s) && x < y.pages && s.status[x] == PgValid
    requires s.gc.slot + 1 == y.perLine ==> s.free != []
    requires Inv(y, Rewrite(y, s, x))
    ensures SameContent(y, s, Rewrite(y, s, x))
  {
    hide MapsAgree, CountersAgree, Placed, LinesAgree, Conserved, Layout.Bijective, TagsBounded, Rewrite;
    ValidPage(s, x);
    TargetFree(y, s, GcIo);
    RewriteEffect(y, s, x);
    ContentMoved(s, Rewrite(y, s, x), s.rmap[x].value, Target(y, s, GcIo));
  }

  /** The live pages of the victim that a collection still has to copy do not belong to the open GC line. */
  lemma VictimNotOpen(y: Layout, s: Ftl, victim: nat)
    requires Sized(y, s) && Placed(y, s) && victim in s.victims
    ensures victim < y.lines && victim != s.user.line && victim != s.gc.line
    ensures victim !in s.free && victim !in s.full
  {
    var p := PlacesOf(s);
    assert p.Partition(y.lines);
    assert victim in p.victims;
    assert !p.Open(victim);
  }

  lemma ProgressStart(y: Layout, s0: Ftl, victim: nat)
    requires Inv(y, s0) && victim in s0.victims
    ensures Progress(y, s0, s0, victim, {})
  {
    VictimNotOpen(y, s0, victim);
    assert SameContent(y, s0, s0);
    assert Handled(y.lineOf, s0.status, s0.status, victim, {});
    assert Kept(y.lineOf, s0.status, s0.data, s0.status, s0.data, victim);
    assert Spent(y, s0, s0, victim) by {
      assert s0.ipc[victim] > 0 && s0.vpc[victim] + s0.ipc[victim] == y.perLine;
    }
    CopiedNothing(y, s0, victim);
    hide MapsAgree, CountersAgree, Placed, LinesAgree, Conserved, SameContent, Spent, Handled, Kept, Copied, Layout.Ok;
  }

  /** A page of the victim that is not live needs no copy. */
  lemma CopySkip(y: Layout, s0: Ftl, v: Ftl, victim: nat, done: set<nat>, x: nat)
    requires Progress(y, s0, v, victim, done)
    requires x < y.pages && y.lineOf[x] == victim && s0.status[x] != PgValid
    ensures Progress(y, s0, v, victim, done + {x})
  {
    hide Inv, MapsAgree, SameContent, Spent, Layout.Bijective, TagsBounded, Copied;
    CopiedMore(y, s0, v, victim, done, x);
    assert CopyPage(y, v, x) == v;
  }

  lemma CopySpent(y: Layout, s0: Ftl, v: Ftl, victim: nat, x: nat)
    requires Sized(y, s0) && Inv(y, v) && victim in v.victims && victim < y.lines
    requires Spent(y, s0, v, victim)
    requires x < y.pages && y.lineOf[x] == victim && v.status[x] == PgValid
    requires v.gc.slot + 1 == y.perLine ==> v.free != []
    requires Sized(y, Rewrite(y, v, x))
    ensures Spent(y, s0, Rewrite(y, v, x), victim)
  {
    hide MapsAgree, CountersAgree, Placed, LinesAgree, Conserved, Layout.Ok, Rewrite, Room;
    VictimNotOpen(y, v, victim);
    RewriteCounts(y, v, x);
    RewriteEffect(y, v, x);
  }

  lemma PagesMoved(lineOf: seq<nat>, st0: seq<PgStatus>, d0: seq<Data>, st: seq<PgStatus>, d: seq<Data>,
                   victim: nat, done: set<nat>, x: nat, z: nat, v: Data)
    requires Handled(lineOf, st0, st, victim, done) && Kept(lineOf, st0, d0, st, d, victim)
    requires x < |st| && lineOf[x] == victim
    requires z < |st| && lineOf[z] != victim && st[z] == PgFree
    ensures var st2 := st[x := PgInvalid][z := PgValid];
            Handled(lineOf, st0, st2, victim, done + {x}) && Kept(lineOf, st0, d0, st2, d[z := v], victim)
  {
  }

  lemma CopyPages(y: Layout, s0: Ftl, v: Ftl, victim: nat, done: set<nat>, x: nat)
    requires Progress(y, s0, v, victim, done)
    requires x < y.pages && y.lineOf[x] == victim && v.status[x] == PgValid
    requires v.gc.slot + 1 == y.perLine ==> v.free != []
    ensures var t := Rewrite(y, v, x);
            && Handled(y.lineOf, s0.status, t.status, victim, done + {x})
            && Kept(y.lineOf, s0.status, s0.data, t.status, t.data, victim)
  {
    VictimNotOpen(y, v, victim);
    RewriteEffect(y, v, x);
    TargetFree(y, v, GcIo);
    PagesMoved(y.lineOf, s0.status, s0.data, v.status, v.data, victim, done, x, Target(y, v, GcIo), v.data[x]);
  }

  /** Handling one live page of the victim by rewriting it. */
  lemma CopyStep(y: Layout, s0: Ftl, v: Ftl, victim: nat, done: set<nat>, x: nat)
    requires Progress(y, s0, v, victim, done)
    requires s0.free != []
    requires x < y.pages && y.lineOf[x] == victim && v.status[x] == PgValid
    ensures v.gc.slot + 1 == y.perLine ==> v.free != []
    ensures Progress(y, s0, Rewrite(y, v, x), victim, done + {x})
  {
    hide MapsAgree, CountersAgree, Placed, LinesAgree, Conserved, SameContent, Spent, Handled, Kept, Copied,
      Layout.Ok, Rewrite, Content;
    VictimNotOpen(y, v, victim);
    if v.gc.slot + 1 == y.perLine {
      CopyHasRoom(y, s0, v, victim);
    }
    CopiedMore(y, s0, v, victim, done, x);
    RewriteInv(y, v, x);
    RewriteContent(y, v, x);
    SameContentTrans(y, s0, v, Rewrite(y, v, x));
    RewriteEffect(y, v, x);
    CopySpent(y, s0, v, victim, x);
    CopyPages(y, s0, v, victim, done, x);
  }

  lemma SameContentTrans(y: Layout, a: Ftl, b: Ftl, c: Ftl)
    requires Sized(y, a) && MapsAgree(a) && Sized(y, b) && MapsAgree(b) && Sized(y, c) && MapsAgree(c)
    requires SameContent(y, a, b) && SameContent(y, b, c)
    ensures SameContent(y, a, c)
  {
    hide MapsAgree, Layout.Ok, Content;
  }

  // ---------- Freeing the line ----------

  const WARMUP_GCS: nat := 100

  ghost function TallyGc(t: Stats): Stats {
    var n := t.(totalGcs := t.totalGcs + 1);
    if t.measuring then n.(gcCount := t.gcCount + 1)
    else n.(measuring := n.totalGcs >= WARMUP_GCS)
  }

  ghost function EraseStatus(lineOf: seq<nat>, st: seq<PgStatus>, l: nat): (r: seq<PgStatus>)
    requires |lineOf| == |st|
    ensures |r| == |st|
    ensures forall x :: 0 <= x < |st| ==> r[x] == if lineOf[x] == l then PgFree else st[x]
  {
    seq(|st|, x requires 0 <= x < |st| => if lineOf[x] == l then PgFree else st[x])
  }

  ghost function EraseCounts(lineOfBlk: seq<nat>, n: seq<nat>, l: nat): (r: seq<nat>)
    requires |lineOfBlk| == |n|
    ensures |r| == |n|
    ensures forall b :: 0 <= b < |n| ==> r[b] == if lineOfBlk[b] == l then 0 else n[b]
  {
    seq(|n|, b requires 0 <= b < |n| => if lineOfBlk[b] == l then 0 else n[b])
  }

  /** Freeing a line all of whose pages are invalid. */
  ghost function Reclaim(y: Layout, s: Ftl, l: nat): Ftl
    requires Sized(y, s) && l < y.lines
  {
    s.(status := EraseStatus(y.lineOf, s.status, l),
       blkVpc := EraseCounts(y.lineOfBlk, s.blkVpc, l), blkIpc := EraseCounts(y.lineOfBlk, s.blkIpc, l),
       vpc := s.vpc[l := 0], ipc := s.ipc[l := 0], stamp := s.stamp[l := 0],
       free := s.free + [l], victims := s.victims - {l},
       stats := TallyGc(s.stats))
  }

  ghost predicate NoneValid(y: Layout, s: Ftl, l: nat)
    requires Sized(y, s)
  {
    forall x :: 0 <= x < y.pages && y.lineOf[x] == l ==> s.status[x] != PgValid
  }

  lemma ReclaimMaps(y: Layout, s: Ftl, l: nat)
    requires Sized(y, s) && MapsAgree(s) && l < y.lines && NoneValid(y, s, l)
    ensures MapsAgree(Reclaim(y, s, l)) && SameContentAt(y, s, Reclaim(y, s, l))
  {
    hide Layout.Bijective, TagsBounded;
  }

  ghost predicate SameContentAt(y: Layout, s0: Ftl, v: Ftl)
    requires |s0.data| == |s0.rmap| == |s0.status| == |s0.maptbl| == y.pages
    requires |v.data| == |v.rmap| == |v.status| == |v.maptbl| == y.pages
    requires MapsAgree(s0) && MapsAgree(v)
  {
    forall lpn :: 0 <= lpn < y.pages ==> Content(v, lpn) == Content(s0, lpn)
  }

  lemma ReclaimCounters(y: Layout, s: Ftl, l: nat)
    requires Sized(y, s) && CountersAgree(y, s) && l < y.lines
    ensures Sized(y, Reclaim(y, s, l)) && CountersAgree(y, Reclaim(y, s, l))
  {
    hide Layout.Bijective, TagsBounded, Counted;
    var t := Reclaim(y, s, l);
    var blocks := set b: nat | b < y.blks && y.lineOfBlk[b] == l;
    LineCountersErase(y, s, l);
    assert forall x :: 0 <= x < y.pages ==> (y.lineOf[x] == l <==> y.blkOf[x] in blocks);
    CountErase(y.blkOf, s.status, y.blks, s.blkVpc, s.blkIpc, blocks, t.status, t.blkVpc, t.blkIpc);
  }

  lemma LineCountersErase(y: Layout, s: Ftl, l: nat)
    requires Sized(y, s) && Counted(y.lineOf, s.status, y.lines, s.vpc, s.ipc) && l < y.lines
    ensures var t := Reclaim(y, s, l); Counted(y.lineOf, t.status, y.lines, t.vpc, t.ipc)
  {
    var t := Reclaim(y, s, l);
    CountErase(y.lineOf, s.status, y.lines, s.vpc, s.ipc, {l}, t.status, t.vpc, t.ipc);
  }

  lemma VictimToFree(n: nat, p: Places, l: nat)
    requires p.Partition(n) && l in p.victims
    ensures p.(free := p.free + [l], victims := p.victims - {l}).Partition(n)
  {
    assert l !in p.free;
    AppendNoDup(p.free, l);
  }

  lemma ReclaimStatus(y: Layout, s: Ftl, l: nat)
    requires Sized(y, s) && l < y.lines && Sized(y, Reclaim(y, s, l))
    ensures Erased(y, Reclaim(y, s, l), l)
    ensures forall k: nat :: k < y.lines && k != l ==>
              Closed(y, Reclaim(y, s, l), k) == Closed(y, s, k) && Erased(y, Reclaim(y, s, l), k) == Erased(y, s, k)
  {
    hide Layout.Bijective, TagsBounded;
  }

  lemma ReclaimLists(y: Layout, s: Ftl, l: nat)
    requires Sized(y, s) && ListsAgree(y, s) && l < y.lines && l !in s.free && l !in s.full
    requires Sized(y, Reclaim(y, s, l))
    ensures ListsAgree(y, Reclaim(y, s, l))
  {
    hide Layout.Ok, Closed, Erased, EraseStatus, EraseCounts;
    ReclaimStatus(y, s, l);
    var t := Reclaim(y, s, l);
    assert forall k :: k in t.free <==> k in s.free || k == l;
  }

  lemma ReclaimFilling(y: Layout, s: Ftl, l: nat, c: Cursor)
    requires Sized(y, s) && l < y.lines && Sized(y, Reclaim(y, s, l))
    requires c.line < y.lines && c.line != l && Filling(y, s, c)
    ensures Filling(y, Reclaim(y, s, l), c)
  {
    hide Layout.Bijective, TagsBounded;
  }

  lemma ReclaimLines(y: Layout, s: Ftl, l: nat)
    requires Sized(y, s) && Placed(y, s) && LinesAgree(y, s)
    requires l < y.lines && l in s.victims
    requires Sized(y, Reclaim(y, s, l))
    ensures LinesAgree(y, Reclaim(y, s, l))
  {
    hide Layout.Ok, Placed, Filling, ListsAgree, EraseStatus, EraseCounts;
    VictimNotOpen(y, s, l);
    ReclaimLists(y, s, l);
    ReclaimFilling(y, s, l, s.user);
    ReclaimFilling(y, s, l, s.gc);
  }

  /** A victim without valid pages has nothing but invalid ones. */
  lemma DrainedCounts(y: Layout, s: Ftl, l: nat)
    requires Sized(y, s) && CountersAgree(y, s) && LinesAgree(y, s)
    requires l < y.lines && l in s.victims && NoneValid(y, s, l)
    ensures s.vpc[l] == 0 && s.ipc[l] == y.perLine
  {
    assert PagesOf(y.lineOf, s.status, l, PgValid) == {};
  }

  lemma MulSucc(a: nat, b: nat)
    ensures a * (b + 1) == a * b + a
  {
  }

  lemma ReclaimConserved(y: Layout, s: Ftl, l: nat)
    requires Sized(y, s) && Conserved(y, s) && l < y.lines
    requires s.vpc[l] == 0 && s.ipc[l] == y.perLine
    ensures Conserved(y, Reclaim(y, s, l))
  {
    hide Layout.Ok, EraseStatus, EraseCounts;
    var t := Reclaim(y, s, l);
    SumUpdate(s.vpc, l, 0);
    SumUpdate(s.ipc, l, 0);
    assert Mapped(t) == Mapped(s);
    MulSucc(y.perLine, s.stats.totalGcs);
    assert t.stats.totalGcs == s.stats.totalGcs + 1;
    assert t.stats.totalHost == s.stats.totalHost && t.stats.totalGc == s.stats.totalGc;
  }

  /** Freeing a fully invalid victim keeps the invariant and gives back one line of room. */
  lemma ReclaimInv(y: Layout, s: Ftl, l: nat)
    requires Inv(y, s) && l in s.victims && l < y.lines && NoneValid(y, s, l)
    ensures Inv(y, Reclaim(y, s, l))
    ensures SameContent(y, s, Reclaim(y, s, l))
    ensures Room(y, Reclaim(y, s, l)) == Room(y, s) + y.perLine
  {
    hide MapsAgree, CountersAgree, Placed, LinesAgree, Conserved, NoneValid, Layout.Ok, Content;
    var t := Reclaim(y, s, l);
    ReclaimMaps(y, s, l);
    ReclaimCounters(y, s, l);
    ReclaimPlaced(y, s, l);
    ReclaimLines(y, s, l);
    DrainedCounts(y, s, l);
    ReclaimConserved(y, s, l);
    assert |t.free| * y.perLine == |s.free| * y.perLine + y.perLine;
  }

  lemma ReclaimPlaced(y: Layout, s: Ftl, l: nat)
    requires Sized(y, s) && Placed(y, s) && l < y.lines && l in s.victims
    ensures Placed(y, Reclaim(y, s, l))
  {
    hide Layout.Ok, Places.Partition;
    VictimToFree(y.lines, PlacesOf(s), l);
  }

  /** The whole collection: from the last clean state to the state with the line freed. */
  lemma CollectionDone(y: Layout, s0: Ftl, v: Ftl, victim: nat, done: set<nat>)
    requires Progress(y, s0, v, victim, done)
    requires forall x :: 0 <= x < y.pages && y.lineOf[x] == victim ==> x in done
    ensures victim < y.lines
    ensures Inv(y, Reclaim(y, v, victim))
    ensures SameContent(y, s0, Reclaim(y, v, victim))
    ensures Room(y, Reclaim(y, v, victim)) == Room(y, s0) + s0.ipc[victim]
  {
    assert NoneValid(y, v, victim);
    hide MapsAgree, CountersAgree, Placed, LinesAgree, Conserved, SameContent, Handled, Kept, NoneValid, Layout.Ok,
      Room, Content;
    VictimNotOpen(y, v, victim);
    ReclaimInv(y, v, victim);
    DrainedCounts(y, v, victim);
    SameContentTrans(y, s0, v, Reclaim(y, v, victim));
  }

  // ---------- Collections as such ----------

  ghost function Elements(q: seq<nat>): set<nat> {
    set x | x in q
  }

  /** Copying pages of the victim one after the other, in any order, is always possible and keeps the invariant. */
  lemma {:induction false} CopyAllProgress(y: Layout, s0: Ftl, victim: nat, order: seq<nat>)
    requires Inv(y, s0) && victim in s0.victims && s0.free != []
    requires forall x :: x in order ==> x < y.pages && y.lineOf[x] == victim
    ensures Progress(y, s0, CopyAll(y, s0, order), victim, Elements(order))
  {
    hide Inv, Progress, CopyPage, Layout.Ok;
    if order == [] {
      ProgressStart(y, s0, victim);
      assert Elements(order) == {};
    } else {
      var n := |order| - 1;
      var x := order[n];
      assert x in order;
      assert forall z :: z in order[..n] ==> z in order;
      CopyAllProgress(y, s0, victim, order[..n]);
      CopyPageProgress(y, s0, CopyAll(y, s0, order[..n]), victim, Elements(order[..n]), x);
      assert order == order[..n] + [x];
      assert Elements(order) == Elements(order[..n]) + {x};
    }
  }

  lemma CopyPageProgress(y: Layout, s0: Ftl, v: Ftl, victim: nat, done: set<nat>, x: nat)
    requires Progress(y, s0, v, victim, done) && s0.free != []
    requires x < y.pages && y.lineOf[x] == victim
    ensures Progress(y, s0, CopyPage(y, v, x), victim, done + {x})
  {
    hide MapsAgree, CountersAgree, Placed, LinesAgree, Conserved, SameContent, Spent, Kept, Copied, Layout.Ok, Rewrite;
    if v.status[x] == PgValid {
      CopyStep(y, s0, v, victim, done, x);
    } else if s0.status[x] == PgValid {
      assert x in done && done + {x} == done;
    } else {
      CopySkip(y, s0, v, victim, done, x);
    }
  }
}
