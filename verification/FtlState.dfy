/** The conventional FTL as an abstract state: mapping tables, page statuses, counters, line lists, write pointers
    and write credits, together with the transitions the write path and the collector are made of. */
module FtlState {
  import opened Util
  import opened Layouts
  import opened Counts

  /** What a page holds; two writes of the same data are told apart by the caller's choice of stamp. */
  type Data = int

  datatype IoType = UserIo | GcIo

  /** A write pointer: the open line and the number of its pages already programmed. */
  datatype Cursor = Cursor(line: nat, slot: nat)

  datatype Stats = Stats(
    hostPages: nat, gcPages: nat, gcCount: nat, measuring: bool,
    totalHost: nat, totalGc: nat, totalGcs: nat)

  datatype Ftl = Ftl(
    maptbl: seq<Option<nat>>, rmap: seq<Option<nat>>,
    status: seq<PgStatus>, data: seq<Data>,
    blkVpc: seq<nat>, blkIpc: seq<nat>,
    vpc: seq<nat>, ipc: seq<nat>, stamp: seq<nat>,
    free: seq<nat>, full: seq<nat>, victims: set<nat>,
    user: Cursor, gc: Cursor,
    credits: nat, refill: nat, stats: Stats)

  ghost predicate Sized(y: Layout, s: Ftl) {
    && y.Ok()
    && |s.maptbl| == |s.rmap| == |s.status| == |s.data| == y.pages
    && |s.blkVpc| == |s.blkIpc| == y.blks
    && |s.vpc| == |s.ipc| == |s.stamp| == y.lines
    && s.user.line < y.lines && s.user.slot < y.perLine
    && s.gc.line < y.lines && s.gc.slot < y.perLine
  }

  // ---------- Invariants ----------

  /** The forward and the reverse map are inverse on live data: a page is valid exactly when some logical page maps
      to it, and the reverse entry names that logical page. */
  ghost predicate MapsAgree(s: Ftl)
    requires |s.rmap| == |s.status| == |s.maptbl|
  {
    && (forall lpn :: 0 <= lpn < |s.maptbl| && s.maptbl[lpn].Some? ==>
          s.maptbl[lpn].value < |s.status| && s.status[s.maptbl[lpn].value] == PgValid
          && s.rmap[s.maptbl[lpn].value] == Some(lpn))
    && (forall x :: 0 <= x < |s.status| && s.status[x] == PgValid ==>
          s.rmap[x].Some? && s.rmap[x].value < |s.maptbl| && s.maptbl[s.rmap[x].value] == Some(x))
  }

  /** Line and block counters equal the page-status counts. */
  ghost predicate CountersAgree(y: Layout, s: Ftl)
    requires Sized(y, s)
  {
    && Counted(y.lineOf, s.status, y.lines, s.vpc, s.ipc)
    && Counted(y.blkOf, s.status, y.blks, s.blkVpc, s.blkIpc)
  }

  /** The five places a line can be in. */
  datatype Places = Places(free: seq<nat>, full: seq<nat>, victims: set<nat>, user: nat, gc: nat) {
    predicate Open(l: nat) {
      l == user || l == gc
    }

    /** Every one of `n` lines is in exactly one place. */
    ghost predicate Partition(n: nat) {
      && NoDup(free) && NoDup(full)
      && user < n && gc < n && user != gc
      && (forall l :: l in free ==> l < n && l !in full && l !in victims && !Open(l))
      && (forall l :: l in full ==> l < n && l !in victims && !Open(l))
      && (forall l :: l in victims ==> l < n && !Open(l))
      && (forall l: nat :: l < n ==> l in free || l in full || l in victims || Open(l))
      && |free| + |full| + |victims| + 2 == n
    }
  }

  function PlacesOf(s: Ftl): Places {
    Places(s.free, s.full, s.victims, s.user.line, s.gc.line)
  }

  /** Every line is in exactly one of: free list, full list, victim queue, user write pointer, GC write pointer. */
  ghost predicate Placed(y: Layout, s: Ftl) {
    PlacesOf(s).Partition(y.lines)
  }

  ghost predicate Closed(y: Layout, s: Ftl, l: nat)
    requires Sized(y, s)
  {
    forall x :: 0 <= x < y.pages && y.lineOf[x] == l ==> s.status[x] != PgFree
  }

  ghost predicate Erased(y: Layout, s: Ftl, l: nat)
    requires Sized(y, s)
  {
    forall x :: 0 <= x < y.pages && y.lineOf[x] == l ==> s.status[x] == PgFree
  }

  /** The pages of an open line are programmed in slot order. */
  ghost predicate Filling(y: Layout, s: Ftl, c: Cursor)
    requires Sized(y, s) && c.line < y.lines
  {
    && s.vpc[c.line] + s.ipc[c.line] == c.slot
    && (forall x :: 0 <= x < y.pages && y.lineOf[x] == c.line ==>
          (s.status[x] == PgFree <==> c.slot <= y.slotOf[x]))
  }

  /** What each list promises about the lines it holds. */
  ghost predicate ListsAgree(y: Layout, s: Ftl)
    requires Sized(y, s)
  {
    && (forall l :: l in s.free && l < y.lines ==> s.vpc[l] == 0 && s.ipc[l] == 0 && Erased(y, s, l))
    && (forall l :: l in s.full && l < y.lines ==> s.vpc[l] == y.perLine && s.ipc[l] == 0 && Closed(y, s, l))
    && (forall l :: l in s.victims && l < y.lines ==>
          s.ipc[l] > 0 && s.vpc[l] + s.ipc[l] == y.perLine && Closed(y, s, l))
  }

  ghost predicate LinesAgree(y: Layout, s: Ftl)
    requires Sized(y, s)
  {
    ListsAgree(y, s) && Filling(y, s, s.user) && Filling(y, s, s.gc)
  }

  ghost function Mapped(s: Ftl): set<nat> {
    set lpn: nat | lpn < |s.maptbl| && s.maptbl[lpn].Some?
  }

  /** Conservation: valid pages are exactly the mapped logical pages, and every programmed page is either still
      counted in some line or was erased by one of the collections. */
  ghost predicate Conserved(y: Layout, s: Ftl) {
    && Sum(s.vpc) == |Mapped(s)|
    && s.stats.totalHost + s.stats.totalGc == Sum(s.vpc) + Sum(s.ipc) + y.perLine * s.stats.totalGcs
  }

  ghost predicate Inv(y: Layout, s: Ftl) {
    && Sized(y, s)
    && MapsAgree(s)
    && CountersAgree(y, s)
    && Placed(y, s)
    && LinesAgree(y, s)
    && Conserved(y, s)
  }

  /** What a read of `lpn` returns. */
  ghost function Content(s: Ftl, lpn: nat): Option<Data>
    requires |s.data| == |s.rmap| == |s.status| == |s.maptbl|
    requires MapsAgree(s)
    requires lpn < |s.maptbl|
  {
    if s.maptbl[lpn].None? then None else Some(s.data[s.maptbl[lpn].value])
  }

  // ---------- Transitions ----------

  /** Marking a valid page invalid; a full line thereby becomes a victim candidate. */
  ghost function Invalidate(y: Layout, s: Ftl, x: nat, now: nat): Ftl
    requires Sized(y, s) && x < y.pages
    requires s.vpc[y.lineOf[x]] > 0 && s.blkVpc[y.blkOf[x]] > 0
  {
    var l, b := y.lineOf[x], y.blkOf[x];
    var wasFull := s.vpc[l] == y.perLine;
    s.(status := s.status[x := PgInvalid],
       blkVpc := s.blkVpc[b := s.blkVpc[b] - 1], blkIpc := s.blkIpc[b := s.blkIpc[b] + 1],
       vpc := s.vpc[l := s.vpc[l] - 1], ipc := s.ipc[l := s.ipc[l] + 1],
       stamp := s.stamp[l := now],
       full := if wasFull then Without(s.full, l) else s.full,
       victims := if wasFull then s.victims + {l} else s.victims)
  }

  /** Dropping the mapping of `lpn` and invalidating the page it mapped to. */
  ghost function Trim(y: Layout, s: Ftl, lpn: nat, x: nat, now: nat): Ftl
    requires Sized(y, s) && x < y.pages && lpn < y.pages
    requires s.vpc[y.lineOf[x]] > 0 && s.blkVpc[y.blkOf[x]] > 0
  {
    Invalidate(y, s, x, now).(maptbl := s.maptbl[lpn := None])
  }

  /** Marking a free page valid. */
  ghost function Program(y: Layout, s: Ftl, x: nat): Ftl
    requires Sized(y, s) && x < y.pages
  {
    var l, b := y.lineOf[x], y.blkOf[x];
    s.(status := s.status[x := PgValid],
       blkVpc := s.blkVpc[b := s.blkVpc[b] + 1],
       vpc := s.vpc[l := s.vpc[l] + 1])
  }

  ghost function At(s: Ftl, io: IoType): Cursor {
    if io == UserIo then s.user else s.gc
  }

  ghost function Aim(s: Ftl, io: IoType, c: Cursor): Ftl {
    if io == UserIo then s.(user := c) else s.(gc := c)
  }

  /** Moving a write pointer on by one page; a line that is used up is filed as full or victim and the next free
      line is opened. */
  ghost function Advance(y: Layout, s: Ftl, io: IoType): Ftl
    requires Sized(y, s)
    requires At(s, io).slot + 1 == y.perLine ==> s.free != []
  {
    var c := At(s, io);
    if c.slot + 1 < y.perLine then
      Aim(s, io, c.(slot := c.slot + 1))
    else
      var filed := if s.vpc[c.line] == y.perLine then s.(full := s.full + [c.line])
                   else s.(victims := s.victims + {c.line});
      Aim(filed.(free := s.free[1..]), io, Cursor(s.free[0], 0))
  }

  ghost function Tally(t: Stats, io: IoType): Stats {
    if io == UserIo then
      t.(totalHost := t.totalHost + 1, hostPages := t.hostPages + if t.measuring then 1 else 0)
    else
      t.(totalGc := t.totalGc + 1, gcPages := t.gcPages + if t.measuring then 1 else 0)
  }

  /** The page a write pointer stands on. */
  ghost function Target(y: Layout, s: Ftl, io: IoType): (x: nat)
    requires Sized(y, s)
    ensures x < y.pages
  {
    y.pageAt[At(s, io).line][At(s, io).slot]
  }

  /** Writing `v` for `lpn` on the page a write pointer stands on, before the pointer moves. */
  ghost function Put(y: Layout, s: Ftl, lpn: nat, v: Data, io: IoType): Ftl
    requires Sized(y, s) && lpn < y.pages
  {
    var x := Target(y, s, io);
    var linked := s.(maptbl := s.maptbl[lpn := Some(x)], rmap := s.rmap[x := Some(lpn)], data := s.data[x := v]);
    Program(y, linked, x).(stats := Tally(s.stats, io))
  }

  /** Writing `v` for `lpn` at a write pointer, without touching any older copy. */
  ghost function Append(y: Layout, s: Ftl, lpn: nat, v: Data, io: IoType): Ftl
    requires Sized(y, s) && lpn < y.pages
    requires At(s, io).slot + 1 == y.perLine ==> s.free != []
  {
    Advance(y, Put(y, s, lpn, v, io), io)
  }

  // ---------- Invalidating ----------

  lemma FullToVictim(n: nat, p: Places, l: nat)
    requires p.Partition(n)
    requires l in p.full
    ensures p.(full := Without(p.full, l), victims := p.victims + {l}).Partition(n)
  {
    WithoutNoDup(p.full, l);
  }

  /** A line with as many valid pages as it has pages is on the full list. */
  lemma FullLine(y: Layout, s: Ftl, l: nat)
    requires Sized(y, s) && Placed(y, s) && LinesAgree(y, s)
    requires l < y.lines && s.vpc[l] == y.perLine
    ensures l in s.full && l !in s.victims
  {
    var p := PlacesOf(s);
    assert p.Partition(y.lines);
    assert l in p.free || l in p.full || l in p.victims || p.Open(l);
  }

  lemma TrimMaps(y: Layout, s: Ftl, lpn: nat, x: nat, now: nat)
    requires Sized(y, s) && MapsAgree(s)
    requires lpn < y.pages && s.maptbl[lpn] == Some(x) && x < y.pages
    requires s.vpc[y.lineOf[x]] > 0 && s.blkVpc[y.blkOf[x]] > 0
    ensures MapsAgree(Trim(y, s, lpn, x, now))
  {
  }

  lemma TrimCounters(y: Layout, s: Ftl, lpn: nat, x: nat, now: nat)
    requires Sized(y, s) && CountersAgree(y, s)
    requires lpn < y.pages && x < y.pages && s.status[x] == PgValid
    ensures s.vpc[y.lineOf[x]] > 0 && s.blkVpc[y.blkOf[x]] > 0
    ensures CountersAgree(y, Trim(y, s, lpn, x, now))
  {
    CountInvalidate(y.lineOf, s.status, y.lines, s.vpc, s.ipc, x);
    CountInvalidate(y.blkOf, s.status, y.blks, s.blkVpc, s.blkIpc, x);
  }

  lemma TrimPlaced(y: Layout, s: Ftl, lpn: nat, x: nat, now: nat)
    requires Sized(y, s) && Placed(y, s) && LinesAgree(y, s)
    requires lpn < y.pages && x < y.pages
    requires s.vpc[y.lineOf[x]] > 0 && s.blkVpc[y.blkOf[x]] > 0
    ensures Placed(y, Trim(y, s, lpn, x, now))
  {
    var l := y.lineOf[x];
    var t := Trim(y, s, lpn, x, now);
    if s.vpc[l] == y.perLine {
      FullLine(y, s, l);
      FullToVictim(y.lines, PlacesOf(s), l);
      assert PlacesOf(t) == PlacesOf(s).(full := Without(s.full, l), victims := s.victims + {l});
    } else {
      assert PlacesOf(t) == PlacesOf(s);
    }
  }

  lemma TrimStatus(y: Layout, s: Ftl, lpn: nat, x: nat, now: nat)
    requires Sized(y, s) && lpn < y.pages && x < y.pages && s.status[x] == PgValid
    requires s.vpc[y.lineOf[x]] > 0 && s.blkVpc[y.blkOf[x]] > 0
    requires Sized(y, Trim(y, s, lpn, x, now))
    ensures forall k: nat :: k < y.lines ==> (Closed(y, s, k) ==> Closed(y, Trim(y, s, lpn, x, now), k))
    ensures forall k: nat :: k < y.lines && Erased(y, s, k) ==>
              k != y.lineOf[x] && Erased(y, Trim(y, s, lpn, x, now), k)
  {
    hide Layout.Bijective, TagsBounded;
  }

  lemma TrimFilling(y: Layout, s: Ftl, lpn: nat, x: nat, now: nat, c: Cursor)
    requires Sized(y, s) && lpn < y.pages && x < y.pages && s.status[x] == PgValid
    requires s.vpc[y.lineOf[x]] > 0 && s.blkVpc[y.blkOf[x]] > 0
    requires Sized(y, Trim(y, s, lpn, x, now))
    requires c.line < y.lines && Filling(y, s, c)
    ensures Filling(y, Trim(y, s, lpn, x, now), c)
  {
    hide Layout.Bijective, TagsBounded;
  }

  lemma TrimLists(y: Layout, s: Ftl, lpn: nat, x: nat, now: nat)
    requires Sized(y, s) && ListsAgree(y, s)
    requires lpn < y.pages && x < y.pages && s.status[x] == PgValid
    requires s.vpc[y.lineOf[x]] > 0 && s.blkVpc[y.blkOf[x]] > 0
    requires Sized(y, Trim(y, s, lpn, x, now))
    requires s.vpc[y.lineOf[x]] == y.perLine ==> y.lineOf[x] in s.full && NoDup(s.full)
    ensures ListsAgree(y, Trim(y, s, lpn, x, now))
  {
    hide Layout.Bijective, TagsBounded, Closed, Erased, NoDup;
    TrimStatus(y, s, lpn, x, now);
    WithoutKnown(s.full, y.lineOf[x]);
  }

  lemma WithoutKnown(q: seq<nat>, l: nat)
    ensures NoDup(q) ==> l !in Without(q, l)
  {
    if NoDup(q) {
      WithoutNoDup(q, l);
    }
  }

  lemma TrimLines(y: Layout, s: Ftl, lpn: nat, x: nat, now: nat)
    requires Sized(y, s) && Placed(y, s) && LinesAgree(y, s)
    requires lpn < y.pages && x < y.pages && s.status[x] == PgValid
    requires s.vpc[y.lineOf[x]] > 0 && s.blkVpc[y.blkOf[x]] > 0
    ensures Sized(y, Trim(y, s, lpn, x, now)) && LinesAgree(y, Trim(y, s, lpn, x, now))
  {
    hide Layout.Bijective, TagsBounded, ListsAgree, Filling;
    if s.vpc[y.lineOf[x]] == y.perLine {
      FullLine(y, s, y.lineOf[x]);
    }
    TrimLists(y, s, lpn, x, now);
    TrimFilling(y, s, lpn, x, now, s.user);
    TrimFilling(y, s, lpn, x, now, s.gc);
  }

  lemma TrimConserved(y: Layout, s: Ftl, lpn: nat, x: nat, now: nat)
    requires Sized(y, s) && Conserved(y, s)
    requires lpn < y.pages && s.maptbl[lpn] == Some(x) && x < y.pages
    requires s.vpc[y.lineOf[x]] > 0 && s.blkVpc[y.blkOf[x]] > 0
    ensures Conserved(y, Trim(y, s, lpn, x, now))
  {
    var l := y.lineOf[x];
    var t := Trim(y, s, lpn, x, now);
    SumUpdate(s.vpc, l, s.vpc[l] - 1);
    SumUpdate(s.ipc, l, s.ipc[l] + 1);
    assert Mapped(t) == Mapped(s) - {lpn};
    assert lpn in Mapped(s);
    assert t.stats == s.stats;
  }

  /** Forgetting a logical page keeps the whole invariant. */
  lemma TrimInv(y: Layout, s: Ftl, lpn: nat, x: nat, now: nat)
    requires Inv(y, s)
    requires lpn < y.pages && s.maptbl[lpn] == Some(x)
    ensures x < y.pages && s.vpc[y.lineOf[x]] > 0 && s.blkVpc[y.blkOf[x]] > 0
    ensures Inv(y, Trim(y, s, lpn, x, now))
  {
    TrimCounters(y, s, lpn, x, now);
    TrimMaps(y, s, lpn, x, now);
    TrimPlaced(y, s, lpn, x, now);
    TrimLines(y, s, lpn, x, now);
    TrimConserved(y, s, lpn, x, now);
  }

  // ---------- Appending ----------

  lemma TargetFree(y: Layout, s: Ftl, io: IoType)
    requires Sized(y, s) && LinesAgree(y, s)
    ensures s.status[Target(y, s, io)] == PgFree
    ensures y.lineOf[Target(y, s, io)] == At(s, io).line
    ensures y.slotOf[Target(y, s, io)] == At(s, io).slot
  {
  }

  lemma PutMaps(y: Layout, s: Ftl, lpn: nat, v: Data, io: IoType)
    requires Sized(y, s) && MapsAgree(s) && LinesAgree(y, s)
    requires lpn < y.pages && s.maptbl[lpn] == None
    ensures MapsAgree(Put(y, s, lpn, v, io))
  {
    TargetFree(y, s, io);
  }

  lemma PutCounters(y: Layout, s: Ftl, lpn: nat, v: Data, io: IoType)
    requires Sized(y, s) && CountersAgree(y, s) && LinesAgree(y, s)
    requires lpn < y.pages
    ensures CountersAgree(y, Put(y, s, lpn, v, io))
  {
    TargetFree(y, s, io);
    var x := Target(y, s, io);
    CountProgram(y.lineOf, s.status, y.lines, s.vpc, s.ipc, x);
    CountProgram(y.blkOf, s.status, y.blks, s.blkVpc, s.blkIpc, x);
  }

  lemma PutConserved(y: Layout, s: Ftl, lpn: nat, v: Data, io: IoType)
    requires Sized(y, s) && Conserved(y, s)
    requires lpn < y.pages && s.maptbl[lpn] == None
    ensures Conserved(y, Put(y, s, lpn, v, io))
  {
    var l := y.lineOf[Target(y, s, io)];
    var t := Put(y, s, lpn, v, io);
    SumUpdate(s.vpc, l, s.vpc[l] + 1);
    assert Mapped(t) == Mapped(s) + {lpn};
    assert lpn !in Mapped(s);
  }

  lemma PutStatus(y: Layout, s: Ftl, lpn: nat, v: Data, io: IoType)
    requires Sized(y, s) && LinesAgree(y, s) && lpn < y.pages && Sized(y, Put(y, s, lpn, v, io))
    ensures forall k: nat :: k < y.lines ==> (Closed(y, s, k) ==> Closed(y, Put(y, s, lpn, v, io), k))
    ensures forall k: nat :: k < y.lines && k != At(s, io).line ==>
              (Erased(y, s, k) ==> Erased(y, Put(y, s, lpn, v, io), k))
  {
    TargetFree(y, s, io);
    hide TagsBounded, LinesAgree;
  }

  lemma PutLists(y: Layout, s: Ftl, lpn: nat, v: Data, io: IoType)
    requires Sized(y, s) && LinesAgree(y, s) && lpn < y.pages && Sized(y, Put(y, s, lpn, v, io))
    requires At(s, io).line !in s.free && At(s, io).line !in s.full && At(s, io).line !in s.victims
    ensures ListsAgree(y, Put(y, s, lpn, v, io))
  {
    hide Layout.Bijective, TagsBounded, Closed, Erased, Filling;
    PutStatus(y, s, lpn, v, io);
    TargetFree(y, s, io);
  }

  lemma PutFilling(y: Layout, s: Ftl, lpn: nat, v: Data, io: IoType)
    requires Sized(y, s) && LinesAgree(y, s) && lpn < y.pages && Sized(y, Put(y, s, lpn, v, io))
    requires s.user.line != s.gc.line
    ensures var t, c := Put(y, s, lpn, v, io), At(s, io);
            Filling(y, t, c.(slot := c.slot + 1)) && Filling(y, t, At(s, Other(io)))
  {
    hide TagsBounded, ListsAgree;
    TargetFree(y, s, io);
    var t := Put(y, s, lpn, v, io);
    var l := At(s, io).line;
    forall z | 0 <= z < y.pages && y.lineOf[z] == l
      ensures t.status[z] == PgFree <==> At(s, io).slot + 1 <= y.slotOf[z]
    {
      assert y.pageAt[l][y.slotOf[z]] == z;
    }
  }

  /** After the program step, the line under the write pointer holds one page more. */
  lemma PutLines(y: Layout, s: Ftl, lpn: nat, v: Data, io: IoType)
    requires Sized(y, s) && Placed(y, s) && LinesAgree(y, s)
    requires lpn < y.pages
    ensures Sized(y, Put(y, s, lpn, v, io)) && ListsAgree(y, Put(y, s, lpn, v, io))
    ensures var t, c := Put(y, s, lpn, v, io), At(s, io);
            Filling(y, t, c.(slot := c.slot + 1)) && Filling(y, t, At(s, Other(io)))
  {
    hide Layout.Bijective, TagsBounded, ListsAgree, Filling;
    assert PlacesOf(s).Open(At(s, io).line);
    PutLists(y, s, lpn, v, io);
    PutFilling(y, s, lpn, v, io);
  }

  ghost function Other(io: IoType): IoType {
    if io == UserIo then GcIo else UserIo
  }

  lemma NextPlaces(n: nat, p: Places, l: nat, isFull: bool, q: Places)
    requires p.Partition(n) && p.free != [] && p.Open(l)
    requires q.free == p.free[1..]
    requires q.full == if isFull then p.full + [l] else p.full
    requires q.victims == if isFull then p.victims else p.victims + {l}
    requires if l == p.user then q.user == p.free[0] && q.gc == p.gc else q.gc == p.free[0] && q.user == p.user
    ensures q.Partition(n)
  {
    assert l !in p.full;
    AppendNoDup(p.full, l);
    assert p.free[0] in p.free;
    assert forall k :: k in p.free <==> k == p.free[0] || k in q.free;
    assert forall k :: k in q.full <==> k in p.full || (isFull && k == l);
  }

  lemma AdvancePlaced(y: Layout, s: Ftl, io: IoType)
    requires Sized(y, s) && Placed(y, s)
    requires At(s, io).slot + 1 == y.perLine ==> s.free != []
    ensures Placed(y, Advance(y, s, io))
  {
    var c, t := At(s, io), Advance(y, s, io);
    if c.slot + 1 < y.perLine {
      assert PlacesOf(t) == PlacesOf(s);
    } else {
      NextPlaces(y.lines, PlacesOf(s), c.line, s.vpc[c.line] == y.perLine, PlacesOf(t));
    }
  }

  /** Listing the same lines with the same counters and statuses, plus one line that has earned its place. */
  lemma RelistLines(y: Layout, s: Ftl, t: Ftl, l: nat)
    requires Sized(y, s) && Sized(y, t) && ListsAgree(y, s)
    requires t.status == s.status && t.vpc == s.vpc && t.ipc == s.ipc
    requires forall k :: k in t.free ==> k in s.free
    requires forall k :: k in t.full ==> k in s.full || k == l
    requires forall k :: k in t.victims ==> k in s.victims || k == l
    requires l < y.lines && s.vpc[l] + s.ipc[l] == y.perLine && Closed(y, s, l)
    requires if s.vpc[l] == y.perLine then l !in t.victims else l !in t.full
    ensures ListsAgree(y, t)
  {
    assert forall k: nat :: k < y.lines ==> Closed(y, t, k) == Closed(y, s, k) && Erased(y, t, k) == Erased(y, s, k);
  }

  lemma FillingSame(y: Layout, s: Ftl, t: Ftl, c: Cursor)
    requires Sized(y, s) && Sized(y, t) && c.line < y.lines
    requires t.status == s.status && t.vpc == s.vpc && t.ipc == s.ipc
    requires Filling(y, s, c)
    ensures Filling(y, t, c)
  {
  }

  lemma AdvanceWithin(y: Layout, s: Ftl, io: IoType)
    requires Sized(y, s) && ListsAgree(y, s)
    requires var c := At(s, io); Filling(y, s, c.(slot := c.slot + 1)) && Filling(y, s, At(s, Other(io)))
    requires At(s, io).slot + 1 < y.perLine
    ensures Sized(y, Advance(y, s, io)) && LinesAgree(y, Advance(y, s, io))
  {
    var c, t := At(s, io), Advance(y, s, io);
    FillingSame(y, s, t, c.(slot := c.slot + 1));
    FillingSame(y, s, t, At(s, Other(io)));
    assert forall k: nat :: k < y.lines ==> Closed(y, t, k) == Closed(y, s, k) && Erased(y, t, k) == Erased(y, s, k);
  }

  lemma AdvanceToNext(y: Layout, s: Ftl, io: IoType)
    requires Sized(y, s) && Placed(y, s) && ListsAgree(y, s)
    requires var c := At(s, io); Filling(y, s, c.(slot := c.slot + 1)) && Filling(y, s, At(s, Other(io)))
    requires At(s, io).slot + 1 == y.perLine && s.free != []
    ensures Sized(y, Advance(y, s, io)) && LinesAgree(y, Advance(y, s, io))
  {
    var c, t := At(s, io), Advance(y, s, io);
    var p := PlacesOf(s);
    assert p.Partition(y.lines) && p.Open(c.line);
    assert s.free[0] in p.free;
    assert Closed(y, s, c.line);
    assert Erased(y, s, s.free[0]);
    RelistLines(y, s, t, c.line);
    assert Filling(y, s, Cursor(s.free[0], 0));
    FillingSame(y, s, t, Cursor(s.free[0], 0));
    FillingSame(y, s, t, At(s, Other(io)));
  }

  /** The whole invariant but for the line under the write pointer of `io`, which already holds one page more. */
  ghost predicate InvPut(y: Layout, s: Ftl, io: IoType) {
    && Sized(y, s) && MapsAgree(s) && CountersAgree(y, s) && Placed(y, s) && Conserved(y, s) && ListsAgree(y, s)
    && Filling(y, s, At(s, io).(slot := At(s, io).slot + 1)) && Filling(y, s, At(s, Other(io)))
  }

  lemma PutInv(y: Layout, s: Ftl, lpn: nat, v: Data, io: IoType)
    requires Inv(y, s)
    requires lpn < y.pages && s.maptbl[lpn] == None
    ensures var t := Put(y, s, lpn, v, io); InvPut(y, t, io) && t.free == s.free && At(t, io) == At(s, io)
  {
    hide MapsAgree, CountersAgree, Places.Partition, Conserved, LinesAgree, ListsAgree, Filling, Layout.Bijective,
      TagsBounded;
    PutMaps(y, s, lpn, v, io);
    PutCounters(y, s, lpn, v, io);
    PutConserved(y, s, lpn, v, io);
    PutLines(y, s, lpn, v, io);
    assert PlacesOf(Put(y, s, lpn, v, io)) == PlacesOf(s);
  }

  lemma AdvanceInv(y: Layout, t: Ftl, io: IoType)
    requires InvPut(y, t, io)
    requires At(t, io).slot + 1 == y.perLine ==> t.free != []
    ensures Inv(y, Advance(y, t, io))
  {
    hide MapsAgree, CountersAgree, Placed, Conserved, ListsAgree, LinesAgree, Filling, Layout.Bijective, TagsBounded,
      Advance;
    AdvancePlaced(y, t, io);
    if At(t, io).slot + 1 < y.perLine {
      AdvanceWithin(y, t, io);
    } else {
      AdvanceToNext(y, t, io);
    }
    AdvanceKeeps(y, t, io);
  }

  /** Writing an unmapped logical page at either write pointer keeps the whole invariant. */
  lemma AppendInv(y: Layout, s: Ftl, lpn: nat, v: Data, io: IoType)
    requires Inv(y, s)
    requires lpn < y.pages && s.maptbl[lpn] == None
    requires At(s, io).slot + 1 == y.perLine ==> s.free != []
    ensures Inv(y, Append(y, s, lpn, v, io))
  {
    hide Inv, InvPut, Put, Advance, Layout.Ok;
    assert Sized(y, s) by { InvSized(y, s); }
    PutInv(y, s, lpn, v, io);
    AdvanceInv(y, Put(y, s, lpn, v, io), io);
  }

  lemma InvSized(y: Layout, s: Ftl)
    requires Inv(y, s)
    ensures Sized(y, s) && MapsAgree(s)
  {
  }

  /** Moving a write pointer touches neither the maps nor the counters. */
  lemma AdvanceKeeps(y: Layout, s: Ftl, io: IoType)
    requires Sized(y, s) && MapsAgree(s) && CountersAgree(y, s) && Conserved(y, s)
    requires At(s, io).slot + 1 == y.perLine ==> s.free != []
    requires Sized(y, Advance(y, s, io))
    ensures MapsAgree(Advance(y, s, io)) && CountersAgree(y, Advance(y, s, io)) && Conserved(y, Advance(y, s, io))
  {
    var t := Advance(y, s, io);
    assert t.maptbl == s.maptbl && t.rmap == s.rmap && t.status == s.status && t.stats == s.stats;
    assert t.vpc == s.vpc && t.ipc == s.ipc && t.blkVpc == s.blkVpc && t.blkIpc == s.blkIpc;
    assert Mapped(t) == Mapped(s);
  }

  // ---------- The initial state ----------

  ghost function Ids(from: nat, n: nat): (q: seq<nat>)
    ensures |q| == n && forall i :: 0 <= i < n ==> q[i] == from + i
  {
    seq(n, i requires 0 <= i => from + i)
  }

  /** All pages free, nothing mapped; line 0 is open for host writes, line 1 for the collector, the others are free. */
  ghost function InitialState(y: Layout): Ftl
    requires y.lines >= 2
  {
    Ftl(seq(y.pages, _ => None), seq(y.pages, _ => None), seq(y.pages, _ => PgFree), seq(y.pages, _ => 0),
        seq(y.blks, _ => 0), seq(y.blks, _ => 0),
        seq(y.lines, _ => 0), seq(y.lines, _ => 0), seq(y.lines, _ => 0),
        Ids(2, y.lines - 2), [], {}, Cursor(0, 0), Cursor(1, 0),
        y.perLine, y.perLine, Stats(0, 0, 0, false, 0, 0, 0))
  }

  lemma InitialCounters(y: Layout)
    requires y.Ok() && y.lines >= 2
    ensures CountersAgree(y, InitialState(y))
  {
    var s := InitialState(y);
    assert forall t: nat, k | k != PgFree :: PagesOf(y.lineOf, s.status, t, k) == {};
    assert forall t: nat, k | k != PgFree :: PagesOf(y.blkOf, s.status, t, k) == {};
  }

  lemma InitialInv(y: Layout)
    requires y.Ok() && y.lines >= 2
    ensures Inv(y, InitialState(y))
    ensures forall lpn :: 0 <= lpn < y.pages ==> Content(InitialState(y), lpn) == None
  {
    var s := InitialState(y);
    InitialCounters(y);
    SumZero(s.vpc);
    SumZero(s.ipc);
    hide Layout.Bijective, TagsBounded, CountersAgree, Sum;
    assert Mapped(s) == {};
    InitialPlaces(y.lines);
  }

  lemma InitialPlaces(n: nat)
    requires n >= 2
    ensures Places(Ids(2, n - 2), [], {}, 0, 1).Partition(n)
  {
    var q := Ids(2, n - 2);
    forall l: nat | 2 <= l < n
      ensures l in q
    {
      assert q[l - 2] == l;
    }
  }
}
