/** How the state during a collection differs from the clean state kept beside it, and why the difference is gone once
    the line is freed. */
module FtlMirror {
  import opened Util
  import opened Layouts
  import opened Counts
  import opened FtlState
  import opened FtlGc

  /** Outside the victim the two agree; on the victim the real state still shows the counters of `s0` and the page
      statuses of `s0`, except for the blocks already erased. */
  ghost predicate Mirrors(y: Layout, r: Ftl, v: Ftl, s0: Ftl, victim: nat, freed: set<nat>) {
    && Sized(y, r) && Sized(y, v) && Sized(y, s0) && victim < y.lines
    && r == v.(status := r.status, blkVpc := r.blkVpc, blkIpc := r.blkIpc,
               vpc := v.vpc[victim := s0.vpc[victim]], ipc := v.ipc[victim := s0.ipc[victim]],
               victims := v.victims - {victim})
    && Stale(y.lineOf, y.blkOf, r.status, v.status, s0.status, victim, freed, PgFree)
    && StaleCount(y.lineOfBlk, r.blkVpc, v.blkVpc, s0.blkVpc, victim, freed)
    && StaleCount(y.lineOfBlk, r.blkIpc, v.blkIpc, s0.blkIpc, victim, freed)
  }

  ghost predicate Stale(lineOf: seq<nat>, blkOf: seq<nat>, r: seq<PgStatus>, v: seq<PgStatus>, s0: seq<PgStatus>,
                        victim: nat, freed: set<nat>, erased: PgStatus) {
    && |lineOf| == |blkOf| == |r| == |v| == |s0|
    && forall x :: 0 <= x < |r| ==>
         r[x] == if lineOf[x] != victim then v[x] else if blkOf[x] in freed then erased else s0[x]
  }

  ghost predicate StaleCount(lineOfBlk: seq<nat>, r: seq<nat>, v: seq<nat>, s0: seq<nat>, victim: nat,
                             freed: set<nat>) {
    && |lineOfBlk| == |r| == |v| == |s0|
    && forall b :: 0 <= b < |r| ==>
         r[b] == if lineOfBlk[b] != victim then v[b] else if b in freed then 0 else s0[b]
  }

  /** A collection begins by taking the victim out of the queue. */
  lemma MirrorStart(y: Layout, s0: Ftl, victim: nat)
    requires Sized(y, s0) && victim < y.lines
    ensures Mirrors(y, s0.(victims := s0.victims - {victim}), s0, s0, victim, {})
  {
    hide Layout.Bijective, TagsBounded;
    assert s0.vpc[victim := s0.vpc[victim]] == s0.vpc;
    assert s0.ipc[victim := s0.ipc[victim]] == s0.ipc;
  }

  /** Erasing one block of the victim, as the real state does it. */
  ghost function EraseBlock(y: Layout, s: Ftl, b: nat): Ftl
    requires Sized(y, s) && b < y.blks
  {
    s.(status := EraseStatus(y.blkOf, s.status, b), blkVpc := s.blkVpc[b := 0], blkIpc := s.blkIpc[b := 0])
  }

  lemma MirrorErase(y: Layout, r: Ftl, v: Ftl, s0: Ftl, victim: nat, freed: set<nat>, b: nat)
    requires Mirrors(y, r, v, s0, victim, freed)
    requires b < y.blks && y.lineOfBlk[b] == victim
    ensures Mirrors(y, EraseBlock(y, r, b), v, s0, victim, freed + {b})
  {
    hide Layout.Bijective, TagsBounded;
  }

  /** Erasing the line's counters and queueing it as free, as the real state does it. */
  ghost function FreeLine(y: Layout, s: Ftl, l: nat): Ftl
    requires Sized(y, s) && l < y.lines
  {
    s.(vpc := s.vpc[l := 0], ipc := s.ipc[l := 0], stamp := s.stamp[l := 0], free := s.free + [l],
       stats := TallyGc(s.stats))
  }

  /** Once every block of the victim is erased, freeing the line reaches exactly the clean state. */
  lemma MirrorDone(y: Layout, r: Ftl, v: Ftl, s0: Ftl, victim: nat, freed: set<nat>)
    requires Mirrors(y, r, v, s0, victim, freed)
    requires forall b :: 0 <= b < y.blks && y.lineOfBlk[b] == victim ==> b in freed
    ensures FreeLine(y, r, victim) == Reclaim(y, v, victim)
  {
    hide Layout.Bijective, TagsBounded;
    assert r.status == EraseStatus(y.lineOf, v.status, victim);
    assert r.blkVpc == EraseCounts(y.lineOfBlk, v.blkVpc, victim);
    assert r.blkIpc == EraseCounts(y.lineOfBlk, v.blkIpc, victim);
    assert r.vpc[victim := 0] == v.vpc[victim := 0];
    assert r.ipc[victim := 0] == v.ipc[victim := 0];
  }

  lemma StaleUpdate(y: Layout, r: Ftl, v: Ftl, s0: Ftl, victim: nat, freed: set<nat>, x: nat, z: nat)
    requires Mirrors(y, r, v, s0, victim, freed)
    requires x < y.pages && z < y.pages && y.lineOf[x] == victim && y.lineOf[z] != victim
    ensures Stale(y.lineOf, y.blkOf, r.status[z := PgValid], v.status[x := PgInvalid][z := PgValid], s0.status,
                  victim, freed, PgFree)
  {
    hide Layout.Bijective, TagsBounded, StaleCount;
  }

  lemma StaleCountUpdate(lineOfBlk: seq<nat>, r: seq<nat>, v: seq<nat>, s0: seq<nat>, victim: nat, freed: set<nat>,
                         b: nat, n: nat, c: nat)
    requires StaleCount(lineOfBlk, r, v, s0, victim, freed)
    requires b < |r| && lineOfBlk[b] == victim && c < |r| && lineOfBlk[c] != victim
    ensures StaleCount(lineOfBlk, r[c := r[c] + 1], v[b := n][c := v[c] + 1], s0, victim, freed)
    ensures StaleCount(lineOfBlk, r, v[b := n], s0, victim, freed)
  {
  }

  /** The real collector's page copy, which leaves the old copy untouched, keeps mirroring the clean rewrite. */
  lemma MirrorPut(y: Layout, r: Ftl, v: Ftl, s0: Ftl, victim: nat, freed: set<nat>, x: nat, lpn: nat, now: nat)
    requires Mirrors(y, r, v, s0, victim, freed)
    requires x < y.pages && y.lineOf[x] == victim && lpn < y.pages
    requires v.vpc[victim] > 0 && v.blkVpc[y.blkOf[x]] > 0 && now == v.stamp[victim]
    requires v.vpc[victim] < y.perLine
    requires y.lineOf[Target(y, v, GcIo)] != victim
    ensures var u := Trim(y, v, lpn, x, now);
            Mirrors(y, Put(y, r, lpn, v.data[x], GcIo), Put(y, u, lpn, v.data[x], GcIo), s0, victim, freed)
  {
    hide Layout.Bijective, TagsBounded, Stale, StaleCount;
    var u := Trim(y, v, lpn, x, now);
    var z := Target(y, v, GcIo);
    assert Target(y, u, GcIo) == z == Target(y, r, GcIo);
    StaleUpdate(y, r, v, s0, victim, freed, x, z);
    var b, c := y.blkOf[x], y.blkOf[z];
    StaleCountUpdate(y.lineOfBlk, r.blkVpc, v.blkVpc, s0.blkVpc, victim, freed, b, v.blkVpc[b] - 1, c);
    StaleCountUpdate(y.lineOfBlk, r.blkIpc, v.blkIpc, s0.blkIpc, victim, freed, b, v.blkIpc[b] + 1, c);
    var p, q := Put(y, r, lpn, v.data[x], GcIo), Put(y, u, lpn, v.data[x], GcIo);
    assert q.stamp == v.stamp;
    assert q.maptbl == p.maptbl;
    assert p.vpc == q.vpc[victim := s0.vpc[victim]];
    assert p.ipc == q.ipc[victim := s0.ipc[victim]];
  }

  lemma MirrorAdvance(y: Layout, r: Ftl, v: Ftl, s0: Ftl, victim: nat, freed: set<nat>)
    requires Mirrors(y, r, v, s0, victim, freed)
    requires v.gc.line != victim
    requires v.gc.slot + 1 == y.perLine ==> v.free != []
    requires Sized(y, Advance(y, v, GcIo))
    ensures Mirrors(y, Advance(y, r, GcIo), Advance(y, v, GcIo), s0, victim, freed)
  {
    hide Layout.Bijective, TagsBounded, Stale, StaleCount;
  }

  /** One copy: the real append and the clean rewrite stay in step. */
  lemma MirrorCopy(y: Layout, r: Ftl, v: Ftl, s0: Ftl, victim: nat, freed: set<nat>, x: nat)
    requires Mirrors(y, r, v, s0, victim, freed)
    requires Inv(y, v) && victim in v.victims
    requires x < y.pages && y.lineOf[x] == victim && v.status[x] == PgValid
    requires v.gc.slot + 1 == y.perLine ==> v.free != []
    ensures r.rmap[x] == v.rmap[x] && v.rmap[x].Some? && v.rmap[x].value < y.pages
    ensures r.data[x] == v.data[x] && r.free == v.free && r.gc == v.gc
    ensures Mirrors(y, Append(y, r, v.rmap[x].value, v.data[x], GcIo), Rewrite(y, v, x), s0, victim, freed)
  {
    ValidPage(v, x);
    VictimNotOpen(y, v, victim);
    TargetFree(y, v, GcIo);
    var lpn, now := v.rmap[x].value, v.stamp[victim];
    TrimInv(y, v, lpn, x, now);
    RewriteInv(y, v, x);
    assert v.vpc[victim] < y.perLine;
    hide MapsAgree, CountersAgree, Placed, LinesAgree, Conserved, Layout.Bijective, TagsBounded, Stale, StaleCount, Inv;
    MirrorPut(y, r, v, s0, victim, freed, x, lpn, now);
    var u := Trim(y, v, lpn, x, now);
    var q := Put(y, u, lpn, v.data[x], GcIo);
    assert Rewrite(y, v, x) == Advance(y, q, GcIo);
    MirrorAdvance(y, Put(y, r, lpn, v.data[x], GcIo), q, s0, victim, freed);
  }

  /** What the write pointer of `io` must find before a page is written there. */
  ghost predicate Ready(y: Layout, s: Ftl, io: IoType)
    requires Sized(y, s)
  {
    var x, c := Target(y, s, io), At(s, io);
    && y.lineOf[x] == c.line
    && s.status[x] == PgFree
    && s.blkVpc[y.blkOf[x]] < y.perBlk
    && s.vpc[c.line] < y.perLine && s.vpc[c.line] + s.ipc[c.line] == c.slot
    && c.line !in s.victims
    && (c.slot + 1 == y.perLine ==> s.free != [] && s.free[0] < y.lines)
  }

  lemma InvReady(y: Layout, s: Ftl, io: IoType)
    requires Inv(y, s)
    requires At(s, io).slot + 1 == y.perLine ==> s.free != []
    ensures Ready(y, s, io)
  {
    TargetFree(y, s, io);
    TargetBounds(y, s, Target(y, s, io));
    OpenPlace(y, s, io);
  }

  lemma TargetBounds(y: Layout, s: Ftl, x: nat)
    requires Sized(y, s) && CountersAgree(y, s) && x < y.pages && s.status[x] == PgFree
    ensures s.blkVpc[y.blkOf[x]] < y.perBlk && s.vpc[y.lineOf[x]] < y.perLine
  {
    CountBounds(y.lineOf, s.status, y.lines, s.vpc, s.ipc, y.perLine, x);
    CountBounds(y.blkOf, s.status, y.blks, s.blkVpc, s.blkIpc, y.perBlk, x);
  }

  lemma OpenPlace(y: Layout, s: Ftl, io: IoType)
    requires Sized(y, s) && Placed(y, s) && LinesAgree(y, s)
    ensures At(s, io).line !in s.victims
    ensures s.vpc[At(s, io).line] + s.ipc[At(s, io).line] == At(s, io).slot
    ensures s.free != [] ==> s.free[0] < y.lines
  {
    var p := PlacesOf(s);
    assert p.Partition(y.lines) && p.Open(At(s, io).line);
    assert s.free != [] ==> s.free[0] in p.free;
  }

  /** During a collection the GC write pointer finds in the real state what it finds in the clean one. */
  lemma MirrorReady(y: Layout, r: Ftl, v: Ftl, s0: Ftl, victim: nat, freed: set<nat>)
    requires Mirrors(y, r, v, s0, victim, freed) && Ready(y, v, GcIo) && v.gc.line != victim
    ensures Ready(y, r, GcIo)
  {
    hide Layout.Bijective, TagsBounded;
  }

  /** A collection as a sequence of steps: the pages of the victim are copied in some order and its line is freed. */
  ghost predicate CollectedBy(y: Layout, s: Ftl, t: Ftl, victim: nat, order: seq<nat>) {
    && Sized(y, s) && victim < y.lines && victim in s.victims && ListsLine(y, victim, order)
    && var v := CopyAll(y, s.(refill := s.ipc[victim]), order);
       Sized(y, v) && t == Reclaim(y, v, victim)
  }

  ghost predicate ListsLine(y: Layout, l: nat, order: seq<nat>) {
    |y.lineOf| == y.pages && forall x: nat :: x in order <==> x < y.pages && y.lineOf[x] == l
  }

  /** What one completed collection of `victim` has done: every logical page reads as before, the line is empty and
      free, no other programmed page was touched, and room, credits and statistics moved by the victim's counters. */
  ghost predicate Collected(y: Layout, s0: Ftl, t: Ftl, victim: nat) {
    && Inv(y, s0) && Inv(y, t) && victim < y.lines && victim in s0.victims
    && SameContent(y, s0, t)
    && Erased(y, t, victim) && victim in t.free
    && (forall x :: 0 <= x < y.pages && y.lineOf[x] != victim && s0.status[x] != PgFree ==>
          t.status[x] == s0.status[x] && t.data[x] == s0.data[x])
    && Room(y, t) == Room(y, s0) + s0.ipc[victim]
    && t.refill == s0.ipc[victim] && 1 <= t.refill <= y.perLine && t.credits == s0.credits
    && t.stats.totalHost == s0.stats.totalHost && t.stats.totalGc == s0.stats.totalGc + s0.vpc[victim]
    && t.stats.totalGcs == s0.stats.totalGcs + 1
    && t.user == s0.user
    && exists order :: CollectedBy(y, s0, t, victim, order)
  }

  lemma RefillInv(y: Layout, s: Ftl, n: nat)
    requires Inv(y, s)
    ensures Inv(y, s.(refill := n)) && SameContent(y, s, s.(refill := n))
    ensures Room(y, s.(refill := n)) == Room(y, s)
  {
    hide Layout.Ok, Counted, Closed, Erased, Places.Partition, Sum;
    var t := s.(refill := n);
    assert Mapped(t) == Mapped(s);
    assert PlacesOf(t) == PlacesOf(s);
    assert forall l: nat :: l < y.lines ==>
        (Closed(y, t, l) <==> Closed(y, s, l)) && (Erased(y, t, l) <==> Erased(y, s, l)) by {
      SameStatus(y, s, t);
    }
  }

  lemma SameStatus(y: Layout, s: Ftl, t: Ftl)
    requires Sized(y, s) && Sized(y, t) && s.status == t.status
    ensures forall l: nat :: l < y.lines ==>
              (Closed(y, t, l) <==> Closed(y, s, l)) && (Erased(y, t, l) <==> Erased(y, s, l))
  {
  }

  lemma CollectedDone(y: Layout, s0: Ftl, v: Ftl, victim: nat, done: set<nat>, n: nat)
    requires Inv(y, s0) && victim in s0.victims && victim < y.lines && n == s0.ipc[victim]
    requires Progress(y, s0.(refill := n), v, victim, done)
    requires forall x :: 0 <= x < y.pages && y.lineOf[x] == victim ==> x in done
    ensures Collected(y, s0, Reclaim(y, v, victim), victim)
  {
    hide MapsAgree, CountersAgree, Placed, Conserved, SameContent, Layout.Bijective, TagsBounded, Room, Content,
      CollectedBy, Copied;
    var s1 := s0.(refill := n);
    RefillInv(y, s0, n);
    CollectionDone(y, s1, v, victim, done);
    var t := Reclaim(y, v, victim);
    SameContentTrans(y, s0, s1, t);
    DrainedCounts(y, v, victim);
    CopiedAll(y, s0, v, victim, done);
  }

  lemma CopiedAll(y: Layout, s0: Ftl, v: Ftl, victim: nat, done: set<nat>)
    requires Sized(y, s0) && Sized(y, v) && victim < y.lines && victim in s0.victims
    requires Copied(y, s0.(refill := s0.ipc[victim]), v, victim, done)
    requires forall x :: 0 <= x < y.pages && y.lineOf[x] == victim ==> x in done
    ensures exists order :: CollectedBy(y, s0, Reclaim(y, v, victim), victim, order)
  {
    hide Layout.Ok, CopyAll, Reclaim;
    var order :| Copies(y, s0.(refill := s0.ipc[victim]), v, done, order);
    assert CollectedBy(y, s0, Reclaim(y, v, victim), victim, order);
  }

  /** Whatever the order of the copies, the steps of a collection have the effects of one. */
  lemma CollectedSteps(y: Layout, s: Ftl, t: Ftl, victim: nat, order: seq<nat>)
    requires Inv(y, s) && s.free != [] && CollectedBy(y, s, t, victim, order)
    ensures Collected(y, s, t, victim)
  {
    hide Inv, Layout.Ok, Reclaim, Progress, Collected;
    var s1 := s.(refill := s.ipc[victim]);
    RefillInv(y, s, s.ipc[victim]);
    CopyAllProgress(y, s1, victim, order);
    CollectedDone(y, s, CopyAll(y, s1, order), victim, Elements(order), s.ipc[victim]);
  }

  /** Every queued line can be collected when a free line is in hand. */
  lemma CollectionExists(y: Layout, s: Ftl, victim: nat)
    requires Inv(y, s) && s.free != [] && victim in s.victims
    ensures exists t, order :: CollectedBy(y, s, t, victim, order)
  {
    hide MapsAgree, CountersAgree, LinesAgree, Conserved, Layout.Bijective, TagsBounded, Reclaim, Progress, CopyAll;
    VictimNotOpen(y, s, victim);
    var s1 := s.(refill := s.ipc[victim]);
    RefillInv(y, s, s.ipc[victim]);
    var order := LineInOrder(y, victim, y.pages);
    LineListed(y, victim);
    CopyAllProgress(y, s1, victim, order);
    var v := CopyAll(y, s1, order);
    ProgressSized(y, s1, v, victim, Elements(order));
    assert CollectedBy(y, s, Reclaim(y, v, victim), victim, order);
  }

  lemma ProgressSized(y: Layout, s: Ftl, v: Ftl, victim: nat, done: set<nat>)
    requires Progress(y, s, v, victim, done)
    ensures Sized(y, v)
  {
  }

  /** The pages of a line among the first `n`, by number. */
  ghost function LineInOrder(y: Layout, l: nat, n: nat): (r: seq<nat>)
    requires n <= y.pages == |y.lineOf|
    ensures forall x :: x in r <==> 0 <= x < n && y.lineOf[x] == l
  {
    if n == 0 then []
    else if y.lineOf[n - 1] == l then LineInOrder(y, l, n - 1) + [n - 1]
    else LineInOrder(y, l, n - 1)
  }

  lemma LineListed(y: Layout, l: nat)
    requires |y.lineOf| == y.pages
    ensures ListsLine(y, l, LineInOrder(y, l, y.pages))
  {
  }
}
