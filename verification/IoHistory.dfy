/** Whole histories of an I/O worker: whatever the order of enqueueing, walking and reclaiming, every request that was
    accepted is posted exactly once, and never before it is due. */
module IoHistory {
  import opened Util
  import opened IoQueue

  /** `clock(k)` is the k-th reading of the clock during a walk. */
  datatype Event =
    Enqueued(target: nat, internal: bool) | Walked(clock: nat -> nat, posted: seq<nat>) | Reclaimed(k: nat)

  /** Event `i` leads from `a` to `b`; the number of the event that enqueued it is the identity of a request.  The clock
      does not go back. */
  ghost predicate Step(a: Snap, i: nat, e: Event, b: Snap) {
    match e
    case Enqueued(target, internal) => Enqueues(a, i, target, internal, b)
    case Walked(clock, posted) =>
      (forall x, y :: x <= y ==> clock(x) <= clock(y)) && clock(0) >= a.latest && Passes(a, clock, posted, b)
    case Reclaimed(k) => Reclaims(a, k, b)
  }

  ghost predicate Fresh(s: Snap) {
    |s.w| == NR_MAX_PARALLEL_IO && s.io == [] && Split([], s.free, []) && s.latest == 0
  }

  /** The states of a worker since it was initialised, and the events between them. */
  ghost predicate History(ss: seq<Snap>, es: seq<Event>) {
    |ss| == |es| + 1 && Fresh(ss[0]) && forall i :: 0 <= i < |es| ==> Step(ss[i], i, es[i], ss[i + 1])
  }

  /** The requests posted by the first `m` events. */
  ghost function Posted(es: seq<Event>, m: nat): multiset<nat>
    requires m <= |es|
  {
    if m == 0 then multiset{}
    else Posted(es, m - 1) + if es[m - 1].Walked? then multiset(es[m - 1].posted) else multiset{}
  }

  /** Event `t` enqueued a request that found an entry. */
  ghost predicate Accepted(ss: seq<Snap>, es: seq<Event>, t: nat) {
    t < |es| && t < |ss| && es[t].Enqueued? && |ss[t].free| > 1
  }

  /** How often an accepted request is to be posted: internal operations never are. */
  ghost function Posts1(e: Event): nat {
    if e.Enqueued? && !e.internal then 1 else 0
  }

  // ---------- The requests in flight ----------

  /** The request at position `p` of the queue. */
  ghost function Req(s: Snap, p: nat): Work {
    if p < |s.io| && s.io[p] < |s.w| then s.w[s.io[p]] else Work(0, 0, false, false, false, -1, -1)
  }

  ghost predicate InFlightReq(s: Snap, t: nat) {
    exists p: nat :: p < |s.io| && Req(s, p).tag == t
  }

  ghost predicate Sound(s: Snap) {
    |s.w| == NR_MAX_PARALLEL_IO && Split(s.io, s.free, []) && Ordered(s.w, s.io, s.latest)
  }

  /** A request in flight is one that was accepted, and has been posted exactly if it is complete. */
  ghost predicate ReqOk(ss: seq<Snap>, es: seq<Event>, m: nat, x: Work, latest: nat)
    requires m <= |es|
  {
    && x.tag < m && Accepted(ss, es, x.tag) && es[x.tag].target == x.target && es[x.tag].internal == x.internal
    && (x.completed ==> x.copied && x.target <= latest)
    && Posted(es, m)[x.tag] == if x.completed then Posts1(es[x.tag]) else 0
  }

  /** A request that is no longer in flight was posted, once it was due; nothing else was. */
  ghost predicate GoneOk(ss: seq<Snap>, es: seq<Event>, m: nat, t: nat, latest: nat)
    requires m <= |es|
  {
    if t < m && Accepted(ss, es, t) then es[t].target <= latest && Posted(es, m)[t] == Posts1(es[t])
    else Posted(es, m)[t] == 0
  }

  ghost predicate Distinct(s: Snap) {
    forall p: nat, q: nat :: p < q < |s.io| ==> Req(s, p).tag != Req(s, q).tag
  }

  ghost predicate Booked(ss: seq<Snap>, es: seq<Event>, m: nat) {
    && m <= |es| && m < |ss| && Sound(ss[m]) && Distinct(ss[m])
    && (forall p: nat :: p < |ss[m].io| ==> ReqOk(ss, es, m, Req(ss[m], p), ss[m].latest))
    && (forall t: nat :: !InFlightReq(ss[m], t) ==> GoneOk(ss, es, m, t, ss[m].latest))
  }

  // ---------- Enqueueing ----------

  /** `b` is `a` with its first free entry put at place `p` of the queue. */
  ghost predicate Put(a: Snap, b: Snap, p: nat) {
    && a.free != [] && a.free[0] < |a.w| == |b.w| == NR_MAX_PARALLEL_IO && InRange(a.io)
    && b.free == a.free[1..] && b.latest == a.latest
    && p <= |a.io| && b.io == a.io[..p] + [a.free[0]] + a.io[p..] && Place(b.w, a.io, a.free[0], a.latest, p)
    && forall q: nat :: q < |a.io| ==> b.w[a.io[q]].Job() == Req(a, q).Job()
  }

  lemma EnqueuePut(a: Snap, tag: nat, target: nat, internal: bool, b: Snap) returns (p: nat)
    requires Sound(a) && |a.free| > 1 && Enqueues(a, tag, target, internal, b)
    ensures Put(a, b, p) && Split(b.io, b.free, [])
  {
    hide NoDup, Place, Ordered;
    var e := a.free[0];
    AllocatedSplit(a.io, a.free);
    NotFlying(a.io, a.free[1..], e);
    p :| p <= |a.io| && b.io == a.io[..p] + [e] + a.io[p..] && Place(b.w, a.io, e, a.latest, p);
    InsertedSplit(a.io, a.free[1..], e, p);
  }

  lemma NotFlying(io: seq<nat>, free: seq<nat>, e: nat)
    requires Split(io, free, [e])
    ensures InRange(io) && e < NR_MAX_PARALLEL_IO && forall q: nat :: q < |io| ==> io[q] != e
  {
    SplitParts(io, free, [e]);
    assert [e][0] == e;
  }

  lemma PutOrdered(a: Snap, b: Snap, p: nat)
    requires Put(a, b, p) && Ordered(a.w, a.io, a.latest)
    ensures Ordered(b.w, b.io, b.latest)
  {
    hide Place;
    forall i, j | 0 <= i < j < |a.io|
      ensures Key(b.w[a.io[i]].target, a.latest) <= Key(b.w[a.io[j]].target, a.latest)
    {
      assert b.w[a.io[i]].Job() == Req(a, i).Job() && b.w[a.io[j]].Job() == Req(a, j).Job();
    }
    InsertedOrder(b.w, a.io, a.free[0], a.latest, p);
  }

  /** The new request is at place `p`; the others keep their order. */
  lemma PutReqs(a: Snap, b: Snap, p: nat)
    requires Put(a, b, p)
    ensures p <= |a.io| && |b.io| == |a.io| + 1 && b.latest == a.latest && Req(b, p) == b.w[a.free[0]]
    ensures forall q: nat :: q < p ==> Req(b, q).Job() == Req(a, q).Job()
    ensures forall q: nat :: p < q <= |a.io| ==> Req(b, q).Job() == Req(a, q - 1).Job()
  {
    hide Place;
    assert forall q: nat :: q < p ==> b.io[q] == a.io[q];
    assert forall q: nat :: p < q <= |a.io| ==> b.io[q] == a.io[q - 1];
  }

  /** The books still balance for a request whose data and postings an event leaves alone. */
  lemma ReqOkOn(ss: seq<Snap>, es: seq<Event>, m: nat, x: Work, y: Work, latest: nat, later: nat)
    requires m < |es| && ReqOk(ss, es, m, x, latest) && y.Job() == x.Job() && latest <= later
    requires Posted(es, m + 1)[x.tag] == Posted(es, m)[x.tag]
    ensures ReqOk(ss, es, m + 1, y, later)
  {
    assert y == x.(next := y.next, prev := y.prev);
  }

  lemma SamePosted(es: seq<Event>, m: nat)
    requires m < |es| && !es[m].Walked?
    ensures Posted(es, m + 1) == Posted(es, m)
  {
  }

  /** A request cannot have been in flight, or posted, before it was enqueued. */
  lemma NotYet(ss: seq<Snap>, es: seq<Event>, m: nat)
    requires Booked(ss, es, m)
    ensures !InFlightReq(ss[m], m) && Posted(es, m)[m] == 0
  {
    hide Sound, Posted, Accepted;
    assert forall p: nat :: p < |ss[m].io| ==> ReqOk(ss, es, m, Req(ss[m], p), ss[m].latest);
  }

  lemma BookedRefused(ss: seq<Snap>, es: seq<Event>, m: nat)
    requires Booked(ss, es, m) && m < |es| && m + 1 < |ss| && es[m].Enqueued?
    requires |ss[m].free| <= 1 && ss[m + 1] == ss[m]
    ensures Booked(ss, es, m + 1)
  {
    hide Sound, Posted, Req;
    var s := ss[m];
    SamePosted(es, m);
    NotYet(ss, es, m);
    forall p: nat | p < |s.io|
      ensures ReqOk(ss, es, m + 1, Req(s, p), s.latest)
    {
      ReqOkOn(ss, es, m, Req(s, p), Req(s, p), s.latest, s.latest);
    }
    forall t: nat | !InFlightReq(s, t)
      ensures GoneOk(ss, es, m + 1, t, s.latest)
    {
      assert GoneOk(ss, es, m, t, s.latest);
    }
  }

  lemma BookedEnqueued(ss: seq<Snap>, es: seq<Event>, m: nat)
    requires Booked(ss, es, m) && m < |es| && m + 1 < |ss| && es[m].Enqueued? && |ss[m].free| > 1
    requires Enqueues(ss[m], m, es[m].target, es[m].internal, ss[m + 1])
    ensures Booked(ss, es, m + 1)
  {
    hide Posted, Req, Split, Ordered, ReqOk, GoneOk, Put;
    var a, b := ss[m], ss[m + 1];
    SamePosted(es, m);
    NotYet(ss, es, m);
    var p := EnqueuePut(a, m, es[m].target, es[m].internal, b);
    PutOrdered(a, b, p);
    PutReqs(a, b, p);
    NewReq(ss, es, m, Req(b, p), b.latest);
    forall q: nat | q < |b.io|
      ensures ReqOk(ss, es, m + 1, Req(b, q), b.latest)
      ensures q != p ==> Req(b, q).tag == Req(a, if q < p then q else q - 1).tag
    {
      if q != p {
        var x := Req(a, if q < p then q else q - 1);
        SameJob(Req(b, q), x);
        assert ReqOk(ss, es, m, x, a.latest);
        ReqOkOn(ss, es, m, x, Req(b, q), a.latest, b.latest);
      }
    }
    assert Req(b, p).tag == m;
    forall t: nat | !InFlightReq(b, t)
      ensures GoneOk(ss, es, m + 1, t, b.latest)
    {
      StillGone(a, b, p, t);
      GoneOn(ss, es, m, t, a.latest, b.latest);
    }
  }

  lemma SameJob(x: Work, y: Work)
    requires x.Job() == y.Job()
    ensures x.tag == y.tag && x.target == y.target && x.completed == y.completed && x.copied == y.copied
    ensures x.internal == y.internal
  {
    assert x == y.(next := x.next, prev := x.prev);
  }

  lemma NewReq(ss: seq<Snap>, es: seq<Event>, m: nat, x: Work, latest: nat)
    requires m < |es| && Accepted(ss, es, m) && Posted(es, m + 1)[m] == 0
    requires x.Job() == Work(m, es[m].target, es[m].internal, es[m].internal, false, -1, -1)
    ensures ReqOk(ss, es, m + 1, x, latest)
  {
    SameJob(x, Work(m, es[m].target, es[m].internal, es[m].internal, false, -1, -1));
  }

  /** A request that is not in the longer queue was not in the shorter one, and is not the new one. */
  lemma StillGone(a: Snap, b: Snap, p: nat, t: nat)
    requires p <= |a.io| && |b.io| == |a.io| + 1 && !InFlightReq(b, t)
    requires forall q: nat :: q < |b.io| && q != p ==> Req(b, q).tag == Req(a, if q < p then q else q - 1).tag
    ensures !InFlightReq(a, t) && t != Req(b, p).tag
  {
    forall q: nat | q < |a.io|
      ensures Req(a, q).tag != t
    {
      assert Req(b, if q < p then q else q + 1).tag == Req(a, q).tag;
    }
  }

  lemma GoneOn(ss: seq<Snap>, es: seq<Event>, m: nat, t: nat, latest: nat, later: nat)
    requires m < |es| && GoneOk(ss, es, m, t, latest) && t != m && latest <= later
    requires Posted(es, m + 1)[t] == Posted(es, m)[t]
    ensures GoneOk(ss, es, m + 1, t, later)
  {
  }

  // ---------- Walking ----------

  /** Of the requests in flight, a walk posts once those that are due and no others. */
  lemma {:induction false} DueOnce(s: Snap, clock: nat -> nat, k: nat, p: nat)
    requires |s.w| == NR_MAX_PARALLEL_IO && InRange(s.io) && Distinct(s) && k <= |s.io| && p < |s.io|
    ensures multiset(Due(s.w, s.io, clock, k))[Req(s, p).tag] ==
            if p < k && Posts(Req(s, p), clock(p)) then 1 else 0
  {
    hide Posts, Req, Due, Distinct;
    DueStart(s, clock);
    if k > 0 {
      DueOnce(s, clock, k - 1, p);
      DueNext(s, clock, k, Req(s, p).tag);
      if p != k - 1 {
        TagsDiffer(s, k - 1, p);
      }
    }
  }

  lemma TagsDiffer(s: Snap, p: nat, q: nat)
    requires Distinct(s) && p < |s.io| && q < |s.io| && p != q
    ensures Req(s, p).tag != Req(s, q).tag
  {
    hide Req;
    if p < q {
      assert Req(s, p).tag != Req(s, q).tag;
    } else {
      assert Req(s, q).tag != Req(s, p).tag;
    }
  }

  lemma {:induction false} DueNone(s: Snap, clock: nat -> nat, k: nat, t: nat)
    requires |s.w| == NR_MAX_PARALLEL_IO && InRange(s.io) && k <= |s.io| && !InFlightReq(s, t)
    ensures multiset(Due(s.w, s.io, clock, k))[t] == 0
  {
    hide Posts, Req, Due;
    DueStart(s, clock);
    if k > 0 {
      DueNone(s, clock, k - 1, t);
      DueNext(s, clock, k, t);
    }
  }

  lemma DueStart(s: Snap, clock: nat -> nat)
    requires |s.w| == NR_MAX_PARALLEL_IO && InRange(s.io)
    ensures multiset(Due(s.w, s.io, clock, 0)) == multiset{}
  {
  }

  lemma DueNext(s: Snap, clock: nat -> nat, k: nat, t: nat)
    requires |s.w| == NR_MAX_PARALLEL_IO && InRange(s.io) && 0 < k <= |s.io|
    ensures multiset(Due(s.w, s.io, clock, k))[t] == multiset(Due(s.w, s.io, clock, k - 1))[t] +
            if Req(s, k - 1).tag == t && Posts(Req(s, k - 1), clock(k - 1)) then 1 else 0
  {
    var x := s.w[s.io[k - 1]];
    assert multiset(Due(s.w, s.io, clock, k)) ==
           multiset(Due(s.w, s.io, clock, k - 1)) + if Posts(x, clock(k - 1)) then multiset{x.tag} else multiset{};
  }

  /** What a walk at time `now` makes of a request, and of the books. */
  lemma ReqOkServed(ss: seq<Snap>, es: seq<Event>, m: nat, x: Work, now: nat, latest: nat, later: nat)
    requires m < |es| && ReqOk(ss, es, m, x, latest) && latest <= now <= later
    requires Posted(es, m + 1)[x.tag] == Posted(es, m)[x.tag] + if Posts(x, now) then 1 else 0
    ensures ReqOk(ss, es, m + 1, Served(x, now), later)
  {
  }

  lemma WalkedSound(a: Snap, clock: nat -> nat, posted: seq<nat>, b: Snap)
    requires Sound(a) && Passes(a, clock, posted, b) && clock(0) >= a.latest
    requires forall x, y :: x <= y ==> clock(x) <= clock(y)
    ensures Sound(b) && a.latest <= b.latest && |a.w| == NR_MAX_PARALLEL_IO && InRange(a.io)
    ensures b.io == a.io && posted == Due(a.w, a.io, clock, |a.io|)
    ensures forall p: nat :: p < |a.io| ==> Req(b, p) == Served(Req(a, p), clock(p)) && clock(p) <= b.latest
    ensures forall p: nat :: p < |a.io| ==> Req(b, p).tag == Req(a, p).tag && a.latest <= clock(p)
  {
    hide Split, Due, Ordered;
    StaysOrdered(a.w, a.io, a.latest, b.latest);
    forall p: nat | p < |a.io|
      ensures Req(b, p) == Served(Req(a, p), clock(p)) && clock(p) <= b.latest && a.latest <= clock(p)
      ensures b.w[a.io[p]].target == a.w[a.io[p]].target
    {
      assert b.w[a.io[p]] == Served(a.w[a.io[p]], clock(p));
    }
    SameTargets(a.w, b.w, a.io, b.latest);
  }

  lemma SameTargets(w: seq<Work>, v: seq<Work>, io: seq<nat>, latest: nat)
    requires Ordered(w, io, latest) && |v| == |w|
    requires forall p: nat :: p < |io| ==> v[io[p]].target == w[io[p]].target
    ensures Ordered(v, io, latest)
  {
    hide Key;
    forall i, j | 0 <= i < j < |io|
      ensures Key(v[io[i]].target, latest) <= Key(v[io[j]].target, latest)
    {
      assert Key(w[io[i]].target, latest) <= Key(w[io[j]].target, latest);
    }
  }

  lemma BookedWalked(ss: seq<Snap>, es: seq<Event>, m: nat)
    requires Booked(ss, es, m) && m < |es| && m + 1 < |ss| && es[m].Walked? && Step(ss[m], m, es[m], ss[m + 1])
    ensures Booked(ss, es, m + 1)
  {
    hide Req, Sound, Passes, ReqOk, Served, Posts, Due;
    var a, b, clock := ss[m], ss[m + 1], es[m].clock;
    WalkedSound(a, clock, es[m].posted, b);
    NotYet(ss, es, m);
    forall p: nat | p < |a.io|
      ensures ReqOk(ss, es, m + 1, Req(b, p), b.latest)
    {
      DueOnce(a, clock, |a.io|, p);
      ReqOkServed(ss, es, m, Req(a, p), clock(p), a.latest, b.latest);
    }
    forall t: nat | !InFlightReq(b, t)
      ensures GoneOk(ss, es, m + 1, t, b.latest)
    {
      assert forall p: nat :: p < |a.io| ==> Req(b, p).tag == Req(a, p).tag;
      assert !InFlightReq(a, t);
      DueNone(a, clock, |a.io|, t);
      assert GoneOk(ss, es, m, t, a.latest);
    }
  }

  // ---------- Reclaiming ----------

  lemma ReclaimedSound(a: Snap, k: nat, b: Snap)
    requires Sound(a) && Reclaims(a, k, b)
    ensures Sound(b) && |b.io| == |a.io| - k
    ensures forall p: nat :: p < |b.io| ==> Req(b, p).Job() == Req(a, p + k).Job() && Req(b, p).tag == Req(a, p + k).tag
    ensures forall p: nat :: p < k ==> Req(a, p).Finished(a.latest)
  {
    hide Split;
    ReclaimedSplit(a.io, a.free, k);
    OrderedTail(a.w, a.io, a.latest, k);
    SameOrder(a.w, b.w, b.io, a.latest);
    forall p: nat | p < |b.io|
      ensures Req(b, p).Job() == Req(a, p + k).Job() && Req(b, p).tag == Req(a, p + k).tag
    {
      assert b.io[p] == a.io[p + k];
      SameJob(Req(b, p), Req(a, p + k));
    }
  }

  lemma BookedReclaimed(ss: seq<Snap>, es: seq<Event>, m: nat)
    requires Booked(ss, es, m) && m < |es| && m + 1 < |ss| && es[m].Reclaimed? && Reclaims(ss[m], es[m].k, ss[m + 1])
    ensures Booked(ss, es, m + 1)
  {
    hide Posted, Req, Split, Ordered, Work.Job, Accepted;
    var a, b, k := ss[m], ss[m + 1], es[m].k;
    SamePosted(es, m);
    NotYet(ss, es, m);
    ReclaimedSound(a, k, b);
    forall p: nat | p < |b.io|
      ensures ReqOk(ss, es, m + 1, Req(b, p), b.latest)
    {
      assert ReqOk(ss, es, m, Req(a, p + k), a.latest);
      ReqOkOn(ss, es, m, Req(a, p + k), Req(b, p), a.latest, b.latest);
    }
    forall t: nat | !InFlightReq(b, t)
      ensures GoneOk(ss, es, m + 1, t, b.latest)
    {
      if InFlightReq(a, t) {
        var p: nat :| p < |a.io| && Req(a, p).tag == t;
        StillThere(a, k, b, p);
        assert ReqOk(ss, es, m, Req(a, p), a.latest);
      } else {
        assert GoneOk(ss, es, m, t, a.latest);
        NotAccepted(ss, es, m, t);
      }
    }
  }

  lemma StillThere(a: Snap, k: nat, b: Snap, p: nat)
    requires |b.io| == |a.io| - k && p < |a.io|
    requires forall q: nat :: q < |b.io| ==> Req(b, q).tag == Req(a, q + k).tag
    ensures p >= k ==> InFlightReq(b, Req(a, p).tag)
  {
    if p >= k {
      var q: nat := p - k;
      assert Req(b, q).tag == Req(a, q + k).tag;
    }
  }

  lemma NotAccepted(ss: seq<Snap>, es: seq<Event>, m: nat, t: nat)
    requires m < |es| && !es[m].Enqueued?
    ensures t <= m && Accepted(ss, es, t) ==> t < m
  {
  }

  // ---------- Whole histories ----------

  /** The books balance after every event of every history. */
  lemma {:induction false} AlwaysBooked(ss: seq<Snap>, es: seq<Event>, m: nat)
    requires History(ss, es) && m <= |es|
    ensures Booked(ss, es, m)
  {
    hide Booked, Enqueues, Passes, Reclaims;
    if m == 0 {
      StartBooked(ss, es);
    } else {
      AlwaysBooked(ss, es, m - 1);
      assert Step(ss[m - 1], m - 1, es[m - 1], ss[m - 1 + 1]);
      match es[m - 1] {
        case Enqueued(target, internal) =>
          if |ss[m - 1].free| <= 1 {
            RefusedSame(ss[m - 1], m - 1, target, internal, ss[m]);
            BookedRefused(ss, es, m - 1);
          } else {
            BookedEnqueued(ss, es, m - 1);
          }
        case Walked(clock, posted) => BookedWalked(ss, es, m - 1);
        case Reclaimed(k) => BookedReclaimed(ss, es, m - 1);
      }
    }
  }

  lemma RefusedSame(a: Snap, tag: nat, target: nat, internal: bool, b: Snap)
    requires Enqueues(a, tag, target, internal, b) && |a.free| <= 1
    ensures b == a
  {
  }

  lemma StartBooked(ss: seq<Snap>, es: seq<Event>)
    requires History(ss, es)
    ensures Booked(ss, es, 0)
  {
  }

  /** At any time a request has been posted at most once, not before its target, and only if it was accepted and is no
      internal operation; and every such request that has left the queue has been posted. */
  lemma PostedOnce(ss: seq<Snap>, es: seq<Event>, m: nat, t: nat)
    requires History(ss, es) && m <= |es|
    ensures Posted(es, m)[t] <= 1
    ensures Posted(es, m)[t] == 1 ==>
              t < m && Accepted(ss, es, t) && !es[t].internal && es[t].target <= ss[m].latest
    ensures t < m && Accepted(ss, es, t) && !InFlightReq(ss[m], t) ==> Posted(es, m)[t] == Posts1(es[t])
  {
    hide History, Posted, Sound, Req;
    AlwaysBooked(ss, es, m);
    if InFlightReq(ss[m], t) {
      var p: nat :| p < |ss[m].io| && Req(ss[m], p).tag == t;
      assert ReqOk(ss, es, m, Req(ss[m], p), ss[m].latest);
    } else {
      assert GoneOk(ss, es, m, t, ss[m].latest);
    }
  }

  /** When the worker walks the queue at or after a request's target, the request and all those ahead of it finish. */
  lemma DueFinish(a: Snap, clock: nat -> nat, posted: seq<nat>, b: Snap, p: nat, q: nat)
    requires Sound(a) && Passes(a, clock, posted, b) && clock(0) >= a.latest
    requires forall x, y :: x <= y ==> clock(x) <= clock(y)
    requires q <= p < |a.io| && Req(a, p).target <= clock(0)
    requires Req(a, q).completed ==> Req(a, q).copied && Req(a, q).target <= a.latest
    ensures Req(b, q).Finished(b.latest)
  {
    hide Due, Split;
    WalkedSound(a, clock, posted, b);
    assert q < p ==> Key(a.w[a.io[q]].target, a.latest) <= Key(a.w[a.io[p]].target, a.latest);
  }

  /** A request that is due at the start of a walk has been posted when the walk ends. */
  lemma PostedWhenDue(ss: seq<Snap>, es: seq<Event>, j: nat, t: nat)
    requires History(ss, es) && t < j < |es| && Accepted(ss, es, t)
    requires es[j].Walked? && es[t].target <= es[j].clock(0)
    ensures Posted(es, j + 1)[t] == Posts1(es[t])
  {
    hide Posted, Req, Sound, Passes, Accepted;
    AlwaysBooked(ss, es, j);
    AlwaysBooked(ss, es, j + 1);
    var a, b := ss[j], ss[j + 1];
    assert Step(a, j, es[j], b);
    if InFlightReq(b, t) {
      var p: nat :| p < |b.io| && Req(b, p).tag == t;
      WalkedSound(a, es[j].clock, es[j].posted, b);
      assert ReqOk(ss, es, j, Req(a, p), a.latest);
      DueFinish(a, es[j].clock, es[j].posted, b, p, p);
      assert ReqOk(ss, es, j + 1, Req(b, p), b.latest);
    } else {
      assert GoneOk(ss, es, j + 1, t, b.latest);
    }
  }

  /** The next reclaim after such a walk frees its entry. */
  lemma ReclaimedNext(ss: seq<Snap>, es: seq<Event>, j: nat, t: nat)
    requires History(ss, es) && t < j && j + 1 < |es| && Accepted(ss, es, t)
    requires es[j].Walked? && es[t].target <= es[j].clock(0) && es[j + 1].Reclaimed?
    ensures !InFlightReq(ss[j + 2], t)
  {
    hide Posted, Req, Sound, Passes, Accepted, Reclaims;
    AlwaysBooked(ss, es, j);
    AlwaysBooked(ss, es, j + 1);
    var a, b, c, k := ss[j], ss[j + 1], ss[j + 2], es[j + 1].k;
    assert Step(a, j, es[j], b);
    assert Step(b, j + 1, es[j + 1], ss[j + 1 + 1]);
    WalkedSound(a, es[j].clock, es[j].posted, b);
    ReclaimedSound(b, k, c);
    if q: nat :| q < |c.io| && Req(c, q).tag == t {
      var p := q + k;
      assert ReqOk(ss, es, j, Req(a, p), a.latest);
      assert ReqOk(ss, es, j, Req(a, k), a.latest);
      DueFinish(a, es[j].clock, es[j].posted, b, p, k);
      NotCut(b, k, c);
    }
  }

  lemma NotCut(b: Snap, k: nat, c: Snap)
    requires Reclaims(b, k, c) && k < |b.io|
    ensures !Req(b, k).Finished(b.latest)
  {
  }

  /** A request that has left the queue does not come back. */
  lemma {:induction false} StaysOut(ss: seq<Snap>, es: seq<Event>, m: nat, n: nat, t: nat)
    requires History(ss, es) && t < m <= n <= |es| && !InFlightReq(ss[m], t)
    ensures !InFlightReq(ss[n], t)
  {
    hide Booked, Posted, Step, InFlightReq;
    if m < n {
      StaysOut(ss, es, m, n - 1, t);
      AlwaysBooked(ss, es, n - 1);
      assert Step(ss[n - 1], n - 1, es[n - 1], ss[n - 1 + 1]);
      StepOut(ss, es, n - 1, t);
    }
  }

  lemma StepOut(ss: seq<Snap>, es: seq<Event>, m: nat, t: nat)
    requires Booked(ss, es, m) && m < |es| && m + 1 < |ss| && Step(ss[m], m, es[m], ss[m + 1]) && t != m
    requires !InFlightReq(ss[m], t)
    ensures !InFlightReq(ss[m + 1], t)
  {
    hide Req, Posted, Split, Ordered, Put, ReqOk, GoneOk, Passes, Reclaims;
    var a, b := ss[m], ss[m + 1];
    match es[m] {
      case Enqueued(target, internal) =>
        if |a.free| > 1 {
          var p := EnqueuePut(a, m, target, internal, b);
          PutReqs(a, b, p);
          forall q: nat | q < |b.io|
            ensures Req(b, q).tag != t
          {
            if q == p {
              SameJob(Req(b, p), Work(m, target, internal, internal, false, -1, -1));
            } else {
              SameJob(Req(b, q), Req(a, if q < p then q else q - 1));
            }
          }
        }
      case Walked(clock, posted) =>
        WalkedSound(a, clock, posted, b);
      case Reclaimed(k) =>
        ReclaimedSound(a, k, b);
    }
  }
}
