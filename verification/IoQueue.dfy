/** The queue of an I/O worker: requests in flight and free entries are two lists threaded through one array. */
module IoQueue {
  import opened Util

  const NR_MAX_PARALLEL_IO: nat := 16384

  /** An entry; links are indices, or -1 at an end. `tag` stands for the identity of the command. */
  datatype Work = Work(tag: nat, target: nat, internal: bool, copied: bool, completed: bool, next: int, prev: int) {
    /** The entry but for its links. */
    ghost function Job(): Work {
      this.(next := -1, prev := -1)
    }

    ghost predicate Finished(latest: nat) {
      completed && copied && target <= latest
    }
  }

  /** The order of the queue: by target time, except that times already passed count as the present. */
  ghost function Key(target: nat, latest: nat): nat {
    if target > latest then target else latest
  }

  ghost predicate InRange(q: seq<nat>) {
    forall i :: 0 <= i < |q| ==> q[i] < NR_MAX_PARALLEL_IO
  }

  ghost function Successor(q: seq<nat>, i: nat): int {
    if i + 1 < |q| then q[i + 1] else -1
  }

  ghost function Predecessor(q: seq<nat>, i: nat): int {
    if 0 < i <= |q| then q[i - 1] else -1
  }

  ghost predicate Threaded(w: seq<Work>, q: seq<nat>) {
    && |w| == NR_MAX_PARALLEL_IO && InRange(q)
    && forall i {:trigger Successor(q, i)} :: 0 <= i < |q| ==> w[q[i]].next == Successor(q, i)
  }

  ghost predicate BackThreaded(w: seq<Work>, q: seq<nat>) {
    && |w| == NR_MAX_PARALLEL_IO && InRange(q)
    && forall i {:trigger Predecessor(q, i)} :: 0 <= i < |q| ==> w[q[i]].prev == Predecessor(q, i)
  }

  ghost predicate Ordered(w: seq<Work>, q: seq<nat>, latest: nat) {
    && |w| == NR_MAX_PARALLEL_IO && InRange(q)
    && forall i, j :: 0 <= i < j < |q| ==> Key(w[q[i]].target, latest) <= Key(w[q[j]].target, latest)
  }

  /** When the clock moves on the queue stays in order. */
  lemma StaysOrdered(w: seq<Work>, q: seq<nat>, latest: nat, later: nat)
    requires Ordered(w, q, latest) && latest <= later
    ensures Ordered(w, q, later)
  {
    forall i, j | 0 <= i < j < |q|
      ensures Key(w[q[i]].target, later) <= Key(w[q[j]].target, later)
    {
      assert Key(w[q[i]].target, latest) <= Key(w[q[j]].target, latest);
    }
  }

  /** The lists, and entries in neither, are all the entries. */
  ghost predicate Split(io: seq<nat>, free: seq<nat>, loose: seq<nat>) {
    InRange(io + free + loose) && NoDup(io + free + loose) && |io + free + loose| == NR_MAX_PARALLEL_IO
  }

  ghost predicate InFlight(w: seq<Work>, io: seq<nat>, first: int, last: int) {
    && Threaded(w, io) && BackThreaded(w, io)
    && (io == [] ==> first == -1)
    && (io != [] ==> first == io[0] && last == io[|io| - 1])
  }

  ghost predicate Available(w: seq<Work>, free: seq<nat>, first: int, last: int) {
    && free != [] && Threaded(w, free) && first == free[0] && last == free[|free| - 1]
  }

  /** Entry `e` goes behind every request that is due no later, and before all others. */
  ghost predicate Inserted(w: seq<Work>, io: seq<nat>, e: nat, latest: nat, io': seq<nat>)
    requires |w| == NR_MAX_PARALLEL_IO && InRange(io) && e < NR_MAX_PARALLEL_IO
  {
    exists p :: 0 <= p <= |io| && io' == io[..p] + [e] + io[p..] && Place(w, io, e, latest, p)
  }

  ghost predicate Place(w: seq<Work>, io: seq<nat>, e: nat, latest: nat, p: nat)
    requires |w| == NR_MAX_PARALLEL_IO && InRange(io) && e < NR_MAX_PARALLEL_IO && p <= |io|
  {
    && (forall i :: 0 <= i < p ==> w[io[i]].target <= latest || w[io[i]].target <= w[e].target)
    && (forall i :: p <= i < |io| ==> w[io[i]].target > latest && w[io[i]].target > w[e].target)
  }

  /** The entries with `e` linked in at place `p` of `io`. */
  ghost function Spliced(w: seq<Work>, io: seq<nat>, e: nat, p: nat): (v: seq<Work>)
    requires |w| == NR_MAX_PARALLEL_IO && InRange(io) && e < NR_MAX_PARALLEL_IO && p <= |io|
    ensures |v| == |w|
  {
    var w1 := w[e := w[e].(prev := Predecessor(io, p), next := if p < |io| then io[p] else -1)];
    var w2 := if p > 0 then w1[io[p - 1] := w1[io[p - 1]].(next := e)] else w1;
    if p < |io| then w2[io[p] := w2[io[p]].(prev := e)] else w2
  }

  /** Nothing but links changes, and only in the entry and its neighbours. */
  lemma SpliceKeeps(w: seq<Work>, io: seq<nat>, free: seq<nat>, e: nat, p: nat)
    requires |w| == NR_MAX_PARALLEL_IO && p <= |io| && Split(io, free, [e])
    requires InRange(io) && InRange(free) && e < NR_MAX_PARALLEL_IO
    ensures forall i :: 0 <= i < |w| ==> Spliced(w, io, e, p)[i].Job() == w[i].Job()
    ensures forall i :: 0 <= i < |free| ==> Spliced(w, io, e, p)[free[i]] == w[free[i]]
    ensures forall i :: 0 <= i < |io| ==>
              var x, y := w[io[i]], Spliced(w, io, e, p)[io[i]];
              y == x.(next := if i + 1 == p then e else x.next, prev := if i == p then e else x.prev)
    ensures Spliced(w, io, e, p)[e] == w[e].(prev := Predecessor(io, p), next := if p < |io| then io[p] else -1)
  {
    SplitParts(io, free, [e]);
    assert [e][0] == e;
  }

  lemma SpliceThreads(w: seq<Work>, io: seq<nat>, free: seq<nat>, e: nat, p: nat, first: int, last: int)
    requires p <= |io| && Split(io, free, [e]) && InRange(io) && InRange(free) && e < NR_MAX_PARALLEL_IO
    requires InFlight(w, io, first, last)
    ensures InFlight(Spliced(w, io, e, p), io[..p] + [e] + io[p..],
                     if p == 0 then e else first, if p == |io| then e else last)
  {
    hide Spliced;
    SpliceKeeps(w, io, free, e, p);
    var v := Spliced(w, io, e, p);
    var q := io[..p] + [e] + io[p..];
    forall i | 0 <= i < |q|
      ensures q[i] < NR_MAX_PARALLEL_IO
      ensures v[q[i]].next == Successor(q, i) && v[q[i]].prev == Predecessor(q, i)
    {
      if i < p {
        assert q[i] == io[i] && w[io[i]].next == Successor(io, i) && w[io[i]].prev == Predecessor(io, i);
      } else if i > p {
        assert q[i] == io[i - 1];
        assert w[io[i - 1]].next == Successor(io, i - 1) && w[io[i - 1]].prev == Predecessor(io, i - 1);
      }
    }
    assert Threaded(v, q) && BackThreaded(v, q);
  }

  lemma InsertedOrder(w: seq<Work>, io: seq<nat>, e: nat, latest: nat, p: nat)
    requires |w| == NR_MAX_PARALLEL_IO && InRange(io) && e < NR_MAX_PARALLEL_IO && p <= |io|
    requires Ordered(w, io, latest) && Place(w, io, e, latest, p)
    ensures Ordered(w, io[..p] + [e] + io[p..], latest)
  {
    var q := io[..p] + [e] + io[p..];
    forall i, j | 0 <= i < j < |q|
      ensures q[i] < NR_MAX_PARALLEL_IO && q[j] < NR_MAX_PARALLEL_IO
      ensures Key(w[q[i]].target, latest) <= Key(w[q[j]].target, latest)
    {
      assert i != p ==> q[i] == io[if i < p then i else i - 1];
      assert j != p ==> q[j] == io[if j < p then j else j - 1];
    }
  }

  /** A loose entry may be put anywhere. */
  lemma InsertedSplit(io: seq<nat>, free: seq<nat>, e: nat, p: nat)
    requires Split(io, free, [e]) && p <= |io|
    ensures Split(io[..p] + [e] + io[p..], free, [])
  {
    var a, b := io + free + [e], (io[..p] + [e] + io[p..]) + free + [];
    assert forall i :: 0 <= i < |b| ==>
        b[i] == a[if i < p then i else if i == p then |a| - 1 else i - 1];
  }

  lemma SplitParts(io: seq<nat>, free: seq<nat>, loose: seq<nat>)
    requires Split(io, free, loose)
    ensures InRange(io) && InRange(free) && InRange(loose) && NoDup(io) && NoDup(free) && NoDup(loose)
    ensures |io| + |free| + |loose| == NR_MAX_PARALLEL_IO
    ensures forall i, j :: 0 <= i < |io| && 0 <= j < |free| ==> io[i] != free[j]
    ensures forall i, j :: 0 <= i < |io| && 0 <= j < |loose| ==> io[i] != loose[j]
    ensures forall i, j :: 0 <= i < |free| && 0 <= j < |loose| ==> free[i] != loose[j]
  {
    var a := io + free + loose;
    assert forall i :: 0 <= i < |io| ==> a[i] == io[i];
    assert forall i :: 0 <= i < |free| ==> a[|io| + i] == free[i];
    assert forall i :: 0 <= i < |loose| ==> a[|io| + |free| + i] == loose[i];
  }

  lemma AllocatedSplit(io: seq<nat>, free: seq<nat>)
    requires Split(io, free, []) && free != []
    ensures Split(io, free[1..], [free[0]])
  {
    var a, b := io + free + [], io + free[1..] + [free[0]];
    assert forall i :: 0 <= i < |b| ==>
        b[i] == a[if i < |io| then i else if i == |a| - 1 then |io| else i + 1];
  }

  lemma TailThreaded(w: seq<Work>, q: seq<nat>)
    requires Threaded(w, q) && q != []
    ensures Threaded(w, q[1..])
  {
    forall i | 0 <= i < |q| - 1
      ensures w[q[1..][i]].next == Successor(q[1..], i)
    {
      assert q[1..][i] == q[i + 1] && w[q[i + 1]].next == Successor(q, i + 1);
    }
  }

  /** A prefix of the queue moves to the end of the free list. */
  lemma ReclaimedSplit(io: seq<nat>, free: seq<nat>, k: nat)
    requires Split(io, free, []) && k <= |io|
    ensures Split(io[k..], free + io[..k], [])
  {
    var a, b := io + free + [], io[k..] + (free + io[..k]) + [];
    assert forall i :: 0 <= i < |b| ==> b[i] == a[if i < |a| - k then i + k else i - (|a| - k)];
  }

  /** What a walk of the worker at time `now` makes of an entry. */
  ghost function Served(x: Work, now: nat): Work {
    if x.completed then x else x.(copied := true, completed := x.target <= now)
  }

  ghost predicate Posts(x: Work, now: nat) {
    !x.completed && !x.internal && x.target <= now
  }

  /** The tags of the requests that complete during a walk over the first `k` entries. */
  ghost function Due(w: seq<Work>, io: seq<nat>, clock: nat -> nat, k: nat): seq<nat>
    requires |w| == NR_MAX_PARALLEL_IO && InRange(io) && k <= |io|
  {
    if k == 0 then []
    else Due(w, io, clock, k - 1) + if Posts(w[io[k - 1]], clock(k - 1)) then [w[io[k - 1]].tag] else []
  }

  ghost function Front(io: seq<nat>, k: nat): int {
    if k < |io| then io[k] else -1
  }

  /** The entries after the walk has visited the first `k` of the queue. */
  ghost function Walked(w: seq<Work>, io: seq<nat>, clock: nat -> nat, k: nat): (v: seq<Work>)
    requires |w| == NR_MAX_PARALLEL_IO && InRange(io) && k <= |io|
    ensures |v| == |w|
  {
    if k == 0 then w
    else
      var v := Walked(w, io, clock, k - 1);
      v[io[k - 1] := Served(v[io[k - 1]], clock(k - 1))]
  }

  lemma WalkedNext(w: seq<Work>, io: seq<nat>, clock: nat -> nat, k: nat)
    requires |w| == NR_MAX_PARALLEL_IO && InRange(io) && k < |io|
    ensures Walked(w, io, clock, k + 1) ==
            Walked(w, io, clock, k)[io[k] := Served(Walked(w, io, clock, k)[io[k]], clock(k))]
    ensures Due(w, io, clock, k + 1) ==
            Due(w, io, clock, k) + if Posts(w[io[k]], clock(k)) then [w[io[k]].tag] else []
  {
  }

  lemma WalkedStart(w: seq<Work>, io: seq<nat>, clock: nat -> nat)
    requires |w| == NR_MAX_PARALLEL_IO && InRange(io)
    ensures Walked(w, io, clock, 0) == w && Due(w, io, clock, 0) == []
  {
  }

  lemma {:induction false} WalkedAt(w: seq<Work>, io: seq<nat>, clock: nat -> nat, k: nat, i: nat)
    requires |w| == NR_MAX_PARALLEL_IO && InRange(io) && NoDup(io) && k <= |io| && i < |io|
    ensures Walked(w, io, clock, k)[io[i]] == if i < k then Served(w[io[i]], clock(i)) else w[io[i]]
  {
    if k > 0 {
      WalkedAt(w, io, clock, k - 1, i);
    }
  }

  lemma {:induction false} WalkedOther(w: seq<Work>, io: seq<nat>, clock: nat -> nat, k: nat, e: nat)
    requires |w| == NR_MAX_PARALLEL_IO && InRange(io) && k <= |io| && e < |w| && e !in io
    ensures Walked(w, io, clock, k)[e] == w[e]
  {
    if k > 0 {
      WalkedOther(w, io, clock, k - 1, e);
    }
  }

  lemma WalkedAll(w: seq<Work>, io: seq<nat>, free: seq<nat>, clock: nat -> nat)
    requires |w| == NR_MAX_PARALLEL_IO && Split(io, free, []) && InRange(io) && InRange(free)
    ensures forall i :: 0 <= i < |io| ==> Walked(w, io, clock, |io|)[io[i]] == Served(w[io[i]], clock(i))
    ensures forall i :: 0 <= i < |w| && i !in io ==> Walked(w, io, clock, |io|)[i] == w[i]
    ensures forall i :: 0 <= i < |free| ==> Walked(w, io, clock, |io|)[free[i]] == w[free[i]]
  {
    hide Served, Walked;
    SplitParts(io, free, []);
    forall i | 0 <= i < |io|
      ensures Walked(w, io, clock, |io|)[io[i]] == Served(w[io[i]], clock(i))
    {
      WalkedAt(w, io, clock, |io|, i);
    }
    forall i | 0 <= i < |w| && i !in io
      ensures Walked(w, io, clock, |io|)[i] == w[i]
    {
      WalkedOther(w, io, clock, |io|, i);
    }
  }

  lemma NextInFlight(w: seq<Work>, io: seq<nat>, first: int, last: int, k: nat)
    requires InFlight(w, io, first, last)
    ensures first == Front(io, 0) && InRange(io)
    ensures k < |io| ==> w[io[k]].next == Front(io, k + 1)
  {
    assert k < |io| ==> w[io[k]].next == Successor(io, k);
  }

  lemma ServedKeeps()
    ensures forall x: Work, now: nat :: Served(x, now).next == x.next && Served(x, now).prev == x.prev
                                        && Served(x, now).target == x.target
  {
  }

  // ---------- What the operations do ----------

  /** The entries, the two lists, and the worker's last reading of the clock. */
  datatype Snap = Snap(w: seq<Work>, io: seq<nat>, free: seq<nat>, latest: nat)

  /** A request is refused when only one entry is free; else it takes the first free entry and its place in the queue,
      and all other requests keep their data. */
  ghost predicate Enqueues(a: Snap, tag: nat, target: nat, internal: bool, b: Snap) {
    if |a.free| <= 1 then b == a
    else
      var e := a.free[0];
      && e < |a.w| == |b.w| == NR_MAX_PARALLEL_IO && InRange(a.io)
      && b.free == a.free[1..] && b.latest == a.latest && Inserted(b.w, a.io, e, a.latest, b.io)
      && b.w[e].Job() == Work(tag, target, internal, internal, false, -1, -1)
      && forall i :: 0 <= i < NR_MAX_PARALLEL_IO && i != e ==> b.w[i].Job() == a.w[i].Job()
  }

  /** One walk along the queue: every request in flight is served once, in order, and no other; those that complete are
      posted. */
  ghost predicate Passes(a: Snap, clock: nat -> nat, posted: seq<nat>, b: Snap) {
    && |a.w| == |b.w| == NR_MAX_PARALLEL_IO && InRange(a.io)
    && b.io == a.io && b.free == a.free && b.latest == (if a.io == [] then a.latest else clock(|a.io| - 1))
    && posted == Due(a.w, a.io, clock, |a.io|)
    && (forall i :: 0 <= i < |a.io| ==> b.w[a.io[i]] == Served(a.w[a.io[i]], clock(i)))
    && forall i :: 0 <= i < NR_MAX_PARALLEL_IO && i !in a.io ==> b.w[i] == a.w[i]
  }

  /** The longest prefix of finished requests moves to the end of the free list. */
  ghost predicate Reclaims(a: Snap, k: nat, b: Snap) {
    && |a.w| == |b.w| == NR_MAX_PARALLEL_IO && InRange(a.io) && k <= |a.io|
    && b.io == a.io[k..] && b.free == a.free + a.io[..k] && b.latest == a.latest
    && (forall i :: 0 <= i < k ==> a.w[a.io[i]].Finished(a.latest))
    && (k < |a.io| ==> !a.w[a.io[k]].Finished(a.latest))
    && forall i :: 0 <= i < NR_MAX_PARALLEL_IO ==> b.w[i].Job() == a.w[i].Job()
  }

  class Worker {
    const workQueue: array<Work>
    var freeSeq: int
    var freeSeqEnd: int
    var ioSeq: int
    /** Meaningless while nothing is in flight. */
    var ioSeqEnd: int
    var latestNsecs: nat
    /** The two lists. */
    ghost var io: seq<nat>
    ghost var free: seq<nat>

    ghost predicate Valid()
      reads this, workQueue
    {
      && workQueue.Length == NR_MAX_PARALLEL_IO && Split(io, free, [])
      && InFlight(workQueue[..], io, ioSeq, ioSeqEnd)
      && Available(workQueue[..], free, freeSeq, freeSeqEnd)
      && Ordered(workQueue[..], io, latestNsecs)
    }

    ghost function Now(): Snap
      reads this`io, this`free, this`latestNsecs, workQueue
    {
      Snap(workQueue[..], io, free, latestNsecs)
    }

    /** NVMEV_IO_WORKER_INIT, for one worker */
    constructor ()
      ensures Valid() && fresh(workQueue) && io == [] && |free| == NR_MAX_PARALLEL_IO && latestNsecs == 0
    {
      workQueue := new Work[NR_MAX_PARALLEL_IO](i => Work(0, 0, false, false, false, (i as int) + 1, (i as int) - 1));
      freeSeq := 0;
      freeSeqEnd := NR_MAX_PARALLEL_IO - 1;
      ioSeq := -1;
      ioSeqEnd := -1;
      latestNsecs := 0;
      io := [];
      free := seq(NR_MAX_PARALLEL_IO, i => i);
      new;
      workQueue[NR_MAX_PARALLEL_IO - 1] := workQueue[NR_MAX_PARALLEL_IO - 1].(next := -1);
    }

    /** __allocate_work_queue_entry: the first free entry, unless it is the only one. */
    method Allocate() returns (entry: Option<nat>)
      requires Valid()
      modifies this`freeSeq, this`free
      ensures entry.None? <==> |old(free)| == 1
      ensures entry.None? ==> Valid() && free == old(free)
      ensures entry.Some? ==> Loose(entry.value) && free == old(free)[1..] && entry.value == old(free)[0]
    {
      hide Split, Ordered, NoDup, BackThreaded;
      SplitParts(io, free, []);
      var e := freeSeq;
      var next := workQueue[e].next;
      assert next == Successor(free, 0);
      if next == -1 || next >= NR_MAX_PARALLEL_IO {
        return None;
      }
      AllocatedSplit(io, free);
      TailThreaded(workQueue[..], free);
      freeSeq := next;
      free := free[1..];
      SplitParts(io, free, [e]);
      return Some(e);
    }

    /** Entry `e` is in neither list. */
    ghost predicate Loose(e: nat)
      reads this, workQueue
    {
      && workQueue.Length == NR_MAX_PARALLEL_IO && Split(io, free, [e])
      && InFlight(workQueue[..], io, ioSeq, ioSeqEnd)
      && Available(workQueue[..], free, freeSeq, freeSeqEnd)
      && Ordered(workQueue[..], io, latestNsecs)
    }

    /** The walk of __insert_req_sorted, from the end towards the front. */
    method FindPlace(e: nat, target: nat) returns (curr: int, ghost p: nat)
      requires Loose(e) && e < NR_MAX_PARALLEL_IO && workQueue[e].target == target
      ensures p <= |io| && curr == Predecessor(io, p) && Place(workQueue[..], io, e, latestNsecs, p)
    {
      ghost var w := workQueue[..];
      curr := if ioSeq == -1 then -1 else ioSeqEnd;
      p := |io|;
      while curr != -1
        invariant p <= |io| && curr == Predecessor(io, p)
        invariant forall i :: p <= i < |io| ==> Key(w[io[i]].target, latestNsecs) > Key(target, latestNsecs)
        decreases p
      {
        if workQueue[curr].target <= latestNsecs || workQueue[curr].target <= target {
          OrderedUpTo(w, p, target);
          return;
        }
        assert w[io[p - 1]].prev == Predecessor(io, p - 1);
        curr := workQueue[curr].prev;
        p := p - 1;
      }
    }

    lemma OrderedUpTo(w: seq<Work>, p: nat, target: nat)
      requires Ordered(w, io, latestNsecs) && 0 < p <= |io|
      requires w[io[p - 1]].target <= latestNsecs || w[io[p - 1]].target <= target
      ensures forall i :: 0 <= i < p ==> Key(w[io[i]].target, latestNsecs) <= Key(target, latestNsecs)
    {
      forall i | 0 <= i < p
        ensures Key(w[io[i]].target, latestNsecs) <= Key(target, latestNsecs)
      {
        assert i < p - 1 ==> Key(w[io[i]].target, latestNsecs) <= Key(w[io[p - 1]].target, latestNsecs);
      }
    }

    /** The relinking of __insert_req_sorted, behind entry `curr`. */
    method LinkBehind(e: nat, curr: int, ghost p: nat)
      requires workQueue.Length == NR_MAX_PARALLEL_IO && InRange(io) && NoDup(io) && e !in io
      requires InFlight(workQueue[..], io, ioSeq, ioSeqEnd)
      requires e < NR_MAX_PARALLEL_IO && workQueue[e].prev == workQueue[e].next == -1
      requires p <= |io| && curr == Predecessor(io, p)
      modifies workQueue, this`ioSeq, this`ioSeqEnd
      ensures workQueue[..] == Spliced(old(workQueue[..]), io, e, p)
      ensures ioSeq == (if p == 0 then e else old(ioSeq)) && ioSeqEnd == if p == |io| then e else old(ioSeqEnd)
    {
      ghost var w := workQueue[..];
      assert p > 0 ==> w[io[p - 1]].next == Successor(io, p - 1);
      assert p < |io| ==> w[io[p]].prev == Predecessor(io, p);
      if ioSeq == -1 {
        ioSeq := e;
        ioSeqEnd := e;
      } else if curr == -1 {
        workQueue[ioSeq] := workQueue[ioSeq].(prev := e);
        workQueue[e] := workQueue[e].(next := ioSeq);
        ioSeq := e;
      } else if workQueue[curr].next == -1 {
        workQueue[e] := workQueue[e].(prev := curr);
        ioSeqEnd := e;
        workQueue[curr] := workQueue[curr].(next := e);
      } else {
        workQueue[e] := workQueue[e].(prev := curr);
        workQueue[e] := workQueue[e].(next := workQueue[curr].next);
        workQueue[workQueue[e].next] := workQueue[workQueue[e].next].(prev := e);
        workQueue[curr] := workQueue[curr].(next := e);
      }
    }

    /** __insert_req_sorted */
    method InsertSorted(e: nat, target: nat)
      requires Loose(e) && e < NR_MAX_PARALLEL_IO && workQueue[e].prev == workQueue[e].next == -1
      requires workQueue[e].target == target
      modifies workQueue, this`ioSeq, this`ioSeqEnd, this`io
      ensures Valid() && Inserted(old(workQueue[..]), old(io), e, latestNsecs, io)
      ensures forall i :: 0 <= i < NR_MAX_PARALLEL_IO ==> workQueue[i].Job() == old(workQueue[i].Job())
    {
      hide Spliced, Place;
      ghost var w := workQueue[..];
      var curr; ghost var p;
      curr, p := FindPlace(e, target);
      SplitParts(io, free, [e]);
      assert [e][0] == e;
      LinkBehind(e, curr, p);
      SpliceKeeps(w, io, free, e, p);
      SpliceThreads(w, io, free, e, p, old(ioSeq), old(ioSeqEnd));
      InsertedOrder(w, io, e, latestNsecs, p);
      InsertedSplit(io, free, e, p);
      SameThreads(w, workQueue[..], free, freeSeq, freeSeqEnd);
      io := io[..p] + [e] + io[p..];
      SameOrder(w, workQueue[..], io, latestNsecs);
    }

    /** __enqueue_io_req and schedule_internal_operation: the request takes a free entry and its place in the queue; it
        is refused when only one entry is free. */
    method Enqueue(tag: nat, target: nat, internal: bool) returns (ok: bool)
      requires Valid()
      modifies this`freeSeq, this`free, this`ioSeq, this`ioSeqEnd, this`io, workQueue
      ensures Valid() && (ok <==> |old(free)| > 1)
      ensures Enqueues(old(Now()), tag, target, internal, Now())
    {
      hide Inserted, Split, Threaded, BackThreaded, Ordered;
      EnqueueFacts();
      var entry := Allocate();
      if entry.None? {
        return false;
      }
      var e := entry.value;
      ghost var w := workQueue[..];
      FillLoose(e, tag, target, internal);
      ghost var v := workQueue[..];
      InsertSorted(e, target);
      SameInserted(v, workQueue[..], old(io), e, latestNsecs, io);
      ok := true;
    }

    lemma EnqueueFacts()
      requires Valid()
      ensures InRange(io) && InRange(free) && free != []
    {
      SplitParts(io, free, []);
    }

    /** A loose entry can be filled in without disturbing the lists. */
    method FillLoose(e: nat, tag: nat, target: nat, internal: bool)
      requires Loose(e)
      modifies workQueue
      ensures e < NR_MAX_PARALLEL_IO && Loose(e)
      ensures workQueue[..] == old(workQueue[..])[e := Work(tag, target, internal, internal, false, -1, -1)]
    {
      hide Split;
      SplitParts(io, free, [e]);
      assert [e][0] == e;
      ghost var w := workQueue[..];
      workQueue[e] := Work(tag, target, internal, internal, false, -1, -1);
      SameThreads(w, workQueue[..], free, freeSeq, freeSeqEnd);
      SameQueue(w, workQueue[..], io, ioSeq, ioSeqEnd, latestNsecs);
    }

    /** The worker's work on one entry. */
    method Visit(e: nat, now: nat) returns (post: bool)
      requires e < workQueue.Length
      modifies workQueue
      ensures workQueue[..] == old(workQueue[..])[e := Served(old(workQueue[e]), now)]
      ensures post == Posts(old(workQueue[e]), now)
    {
      post := false;
      if workQueue[e].completed {
        return;
      }
      workQueue[e] := workQueue[e].(copied := true);
      if workQueue[e].target <= now {
        post := !workQueue[e].internal;
        workQueue[e] := workQueue[e].(completed := true);
      }
    }

    /** One walk of the worker thread along the queue; `clock(k)` is its k-th reading of the clock. Requests whose data
        have not been copied are copied, and requests that are due complete; the tags that are posted are returned. */
    method Pass(clock: nat -> nat) returns (posted: seq<nat>)
      requires Valid() && (forall a, b :: a <= b ==> clock(a) <= clock(b)) && clock(0) >= latestNsecs
      modifies workQueue, this`latestNsecs
      ensures Valid() && Passes(old(Now()), clock, posted, Now())
    {
      hide Split, Ordered, Served, Posts, NoDup, Walked, Due, Passes, InFlight, Available;
      SplitParts(io, free, []);
      ServedKeeps();
      ghost var w := workQueue[..];
      WalkedStart(w, io, clock);
      NextInFlight(w, io, ioSeq, ioSeqEnd, 0);
      var curr := ioSeq;
      var k: nat := 0;
      posted := [];
      while curr != -1
        invariant k <= |io| && curr == Front(io, k)
        invariant latestNsecs == if k == 0 then old(latestNsecs) else clock(k - 1)
        invariant posted == Due(w, io, clock, k)
        invariant workQueue[..] == Walked(w, io, clock, k)
        decreases |io| - k
      {
        var now := clock(k);
        latestNsecs := now;
        WalkedAt(w, io, clock, k, k);
        WalkedNext(w, io, clock, k);
        NextInFlight(w, io, ioSeq, ioSeqEnd, k);
        var tag := workQueue[curr].tag;
        var post := Visit(curr, now);
        posted := if post then posted + [tag] else posted;
        curr := workQueue[curr].next;
        k := k + 1;
      }
      WalkKeeps(w, clock, old(latestNsecs));
    }

    lemma WalkKeeps(w: seq<Work>, clock: nat -> nat, before: nat)
      requires |w| == NR_MAX_PARALLEL_IO && Split(io, free, []) && before <= latestNsecs
      requires InFlight(w, io, ioSeq, ioSeqEnd) && Available(w, free, freeSeq, freeSeqEnd) && Ordered(w, io, before)
      ensures var v := Walked(w, io, clock, |io|);
              InFlight(v, io, ioSeq, ioSeqEnd) && Available(v, free, freeSeq, freeSeqEnd) && Ordered(v, io, latestNsecs)
      ensures (latestNsecs == if io == [] then before else clock(|io| - 1)) ==>
                Passes(Snap(w, io, free, before), clock, Due(w, io, clock, |io|),
                       Snap(Walked(w, io, clock, |io|), io, free, latestNsecs))
    {
      hide Split, Ordered, Served, NoDup, Walked, Due;
      ServedKeeps();
      var v := Walked(w, io, clock, |io|);
      WalkedAll(w, io, free, clock);
      SameThreads(w, v, free, freeSeq, freeSeqEnd);
      StaysOrdered(w, io, before, latestNsecs);
      SameQueue(w, v, io, ioSeq, ioSeqEnd, latestNsecs);
    }

    /** The scan of __reclaim_completed_reqs: the last entry of the longest prefix of finished requests. */
    method FinishedPrefix() returns (last: int, k: nat)
      requires Valid()
      ensures k <= |io| && last == Predecessor(io, k)
      ensures forall i :: 0 <= i < k ==> workQueue[io[i]].Finished(latestNsecs)
      ensures k < |io| ==> !workQueue[io[k]].Finished(latestNsecs)
    {
      hide Split, Ordered, NoDup;
      var curr := ioSeq;
      last := -1;
      k := 0;
      while curr != -1
        invariant k <= |io| && curr == Front(io, k) && last == Predecessor(io, k)
        invariant forall i :: 0 <= i < k ==> workQueue[io[i]].Finished(latestNsecs)
        decreases |io| - k
      {
        assert workQueue[io[k]].next == Successor(io, k);
        var x := workQueue[curr];
        if x.completed && x.copied && x.target <= latestNsecs {
          last := curr;
          curr := x.next;
          k := k + 1;
        } else {
          break;
        }
      }
    }

    /** __reclaim_completed_reqs, for one worker */
    method Reclaim() returns (reclaimed: nat)
      requires Valid()
      modifies workQueue, this`ioSeq, this`freeSeqEnd, this`io, this`free
      ensures Valid() && Reclaims(old(Now()), reclaimed, Now())
    {
      hide Split, Ordered, NoDup, Moved, Reclaims, Work.Finished;
      SplitParts(io, free, []);
      var first := ioSeq;
      ghost var s := Now();
      var last;
      last, reclaimed := FinishedPrefix();
      MovedAs(s, reclaimed);
      if last != -1 {
        MovedThreads(workQueue[..], reclaimed);
        assert workQueue[io[reclaimed - 1]].next == Successor(io, reclaimed - 1);
        Relink(first, last, reclaimed);
        free := free + io[..reclaimed];
        io := io[reclaimed..];
      }
    }

    /** Cutting off the longest prefix of finished requests is reclaiming. */
    lemma MovedAs(s: Snap, k: nat)
      requires |s.w| == NR_MAX_PARALLEL_IO && InRange(s.io) && k <= |s.io|
      requires forall i :: 0 <= i < k ==> s.w[s.io[i]].Finished(s.latest)
      requires k < |s.io| ==> !s.w[s.io[k]].Finished(s.latest)
      ensures k == 0 ==> Reclaims(s, k, s)
      ensures forall v: seq<Work> {:trigger Reclaims(s, k, Snap(v, s.io[k..], s.free + s.io[..k], s.latest))} ::
                |v| == |s.w| && (forall i :: 0 <= i < |v| ==> v[i].Job() == s.w[i].Job()) ==>
                  Reclaims(s, k, Snap(v, s.io[k..], s.free + s.io[..k], s.latest))
    {
    }

    /** The entries after the first `k` requests have been cut off the queue and appended to the free list. */
    ghost function Moved(w: seq<Work>, k: nat): (v: seq<Work>)
      requires |w| == NR_MAX_PARALLEL_IO && InRange(io) && InRange(free) && 0 < k <= |io| && free != []
      reads this`io, this`free
      ensures |v| == |w|
    {
      var f := free[|free| - 1];
      var w1 := if k < |io| then w[io[k] := w[io[k]].(prev := -1)] else w;
      var w2 := w1[io[k - 1] := w1[io[k - 1]].(next := -1)];
      var w3 := w2[io[0] := w2[io[0]].(prev := f)];
      w3[f := w3[f].(next := io[0])]
    }

    /** The relinking of __reclaim_completed_reqs. */
    method Relink(first: nat, last: nat, ghost k: nat)
      requires workQueue.Length == NR_MAX_PARALLEL_IO && InRange(io) && InRange(free) && 0 < k <= |io| && free != []
      requires first == io[0] && last == io[k - 1] && freeSeqEnd == free[|free| - 1]
      requires workQueue[last].next == Front(io, k)
      modifies workQueue, this`ioSeq, this`freeSeqEnd
      ensures workQueue[..] == Moved(old(workQueue[..]), k) && ioSeq == Front(io, k) && freeSeqEnd == last
    {
      var next := workQueue[last].next;
      ioSeq := next;
      if next != -1 {
        workQueue[next] := workQueue[next].(prev := -1);
      }
      workQueue[last] := workQueue[last].(next := -1);
      workQueue[first] := workQueue[first].(prev := freeSeqEnd);
      workQueue[freeSeqEnd] := workQueue[freeSeqEnd].(next := first);
      freeSeqEnd := last;
    }

    lemma MovedLinks(w: seq<Work>, k: nat)
      requires |w| == NR_MAX_PARALLEL_IO && Split(io, free, []) && InRange(io) && InRange(free) && 0 < k <= |io|
      requires free != []
      ensures forall i :: 0 <= i < |w| ==> Moved(w, k)[i].Job() == w[i].Job()
      ensures forall i :: 0 <= i < |io| ==> Moved(w, k)[io[i]].next == if i == k - 1 then -1 else w[io[i]].next
      ensures forall i :: k <= i < |io| ==> Moved(w, k)[io[i]].prev == if i == k then -1 else w[io[i]].prev
      ensures forall i :: 0 <= i < |free| ==>
                Moved(w, k)[free[i]].next == if i == |free| - 1 then io[0] else w[free[i]].next
    {
      SplitParts(io, free, []);
    }

    lemma MovedThreads(w: seq<Work>, k: nat)
      requires |w| == NR_MAX_PARALLEL_IO && Split(io, free, []) && 0 < k <= |io|
      requires InFlight(w, io, ioSeq, ioSeqEnd) && Available(w, free, freeSeq, freeSeqEnd)
      requires Ordered(w, io, latestNsecs)
      ensures Split(io[k..], free + io[..k], [])
      ensures InFlight(Moved(w, k), io[k..], Front(io, k), ioSeqEnd)
      ensures Available(Moved(w, k), free + io[..k], freeSeq, io[k - 1])
      ensures Ordered(Moved(w, k), io[k..], latestNsecs)
      ensures forall i :: 0 <= i < |w| ==> Moved(w, k)[i].Job() == w[i].Job()
    {
      hide Split, NoDup, Moved;
      ReclaimedSplit(io, free, k);
      MovedLinks(w, k);
      CutThreads(w, Moved(w, k), io, k, ioSeq, ioSeqEnd);
      JoinThreads(w, Moved(w, k), io, free, k, freeSeq, freeSeqEnd);
      OrderedTail(w, io, latestNsecs, k);
      SameOrder(w, Moved(w, k), io[k..], latestNsecs);
    }
  }

  /** What is left of a queue whose front has been cut off. */
  lemma CutThreads(w: seq<Work>, v: seq<Work>, io: seq<nat>, k: nat, first: int, last: int)
    requires InFlight(w, io, first, last) && |v| == |w| && 0 < k <= |io|
    requires forall i :: k <= i < |io| ==> v[io[i]].next == w[io[i]].next
    requires forall i :: k <= i < |io| ==> v[io[i]].prev == if i == k then -1 else w[io[i]].prev
    ensures InFlight(v, io[k..], Front(io, k), last)
  {
    var q := io[k..];
    forall i | 0 <= i < |q|
      ensures v[q[i]].next == Successor(q, i) && v[q[i]].prev == Predecessor(q, i)
    {
      assert q[i] == io[i + k];
      assert w[io[i + k]].next == Successor(io, i + k) && w[io[i + k]].prev == Predecessor(io, i + k);
    }
  }

  /** The free list with the cut-off front of the queue behind it. */
  lemma JoinThreads(w: seq<Work>, v: seq<Work>, io: seq<nat>, free: seq<nat>, k: nat, first: int, last: int)
    requires Available(w, free, first, last) && Threaded(w, io) && |v| == |w| && 0 < k <= |io|
    requires forall i :: 0 <= i < k ==> v[io[i]].next == if i == k - 1 then -1 else w[io[i]].next
    requires forall i :: 0 <= i < |free| ==> v[free[i]].next == if i == |free| - 1 then io[0] else w[free[i]].next
    ensures Available(v, free + io[..k], first, io[k - 1])
  {
    var f := free + io[..k];
    forall i | 0 <= i < |f|
      ensures f[i] < NR_MAX_PARALLEL_IO && v[f[i]].next == Successor(f, i)
    {
      if i < |free| {
        assert f[i] == free[i] && w[free[i]].next == Successor(free, i);
      } else {
        assert f[i] == io[i - |free|] && w[io[i - |free|]].next == Successor(io, i - |free|);
      }
    }
  }

  lemma OrderedTail(w: seq<Work>, q: seq<nat>, latest: nat, k: nat)
    requires Ordered(w, q, latest) && k <= |q|
    ensures Ordered(w, q[k..], latest)
  {
    forall i, j | 0 <= i < j < |q| - k
      ensures Key(w[q[k..][i]].target, latest) <= Key(w[q[k..][j]].target, latest)
    {
      assert Key(w[q[k + i]].target, latest) <= Key(w[q[k + j]].target, latest);
    }
  }

  lemma SameThreads(w: seq<Work>, v: seq<Work>, q: seq<nat>, first: int, last: int)
    requires Available(w, q, first, last) && |v| == |w| && forall i :: 0 <= i < |q| ==> v[q[i]] == w[q[i]]
    ensures Available(v, q, first, last)
  {
    forall i | 0 <= i < |q|
      ensures v[q[i]].next == Successor(q, i)
    {
      assert w[q[i]].next == Successor(q, i);
    }
  }

  lemma SameOrder(w: seq<Work>, v: seq<Work>, q: seq<nat>, latest: nat)
    requires Ordered(w, q, latest) && |v| == |w|
    requires forall i :: 0 <= i < |w| ==> v[i].Job() == w[i].Job()
    ensures Ordered(v, q, latest)
  {
    forall i, j | 0 <= i < j < |q|
      ensures Key(v[q[i]].target, latest) <= Key(v[q[j]].target, latest)
    {
      assert v[q[i]].Job() == w[q[i]].Job() && v[q[j]].Job() == w[q[j]].Job();
      assert Key(w[q[i]].target, latest) <= Key(w[q[j]].target, latest);
    }
  }

  /** Jobs and links of the queue are the same, so it is in flight and in order as before. */
  lemma SameQueue(w: seq<Work>, v: seq<Work>, io: seq<nat>, first: int, last: int, latest: nat)
    requires InFlight(w, io, first, last) && Ordered(w, io, latest) && |v| == |w|
    requires forall i :: 0 <= i < |io| ==>
               v[io[i]].target == w[io[i]].target && v[io[i]].next == w[io[i]].next && v[io[i]].prev == w[io[i]].prev
    ensures InFlight(v, io, first, last) && Ordered(v, io, latest)
  {
    forall i | 0 <= i < |io|
      ensures v[io[i]].next == Successor(io, i) && v[io[i]].prev == Predecessor(io, i)
    {
      assert w[io[i]].next == Successor(io, i) && w[io[i]].prev == Predecessor(io, i);
    }
    forall i, j | 0 <= i < j < |io|
      ensures Key(v[io[i]].target, latest) <= Key(v[io[j]].target, latest)
    {
      assert Key(w[io[i]].target, latest) <= Key(w[io[j]].target, latest);
    }
  }

  lemma SameInserted(w: seq<Work>, v: seq<Work>, io: seq<nat>, e: nat, latest: nat, io': seq<nat>)
    requires |w| == |v| == NR_MAX_PARALLEL_IO && InRange(io) && e < NR_MAX_PARALLEL_IO
    requires Inserted(w, io, e, latest, io') && forall i :: 0 <= i < |w| ==> v[i].Job() == w[i].Job()
    ensures Inserted(v, io, e, latest, io')
  {
    var p :| 0 <= p <= |io| && io' == io[..p] + [e] + io[p..] && Place(w, io, e, latest, p);
    assert forall i :: 0 <= i < |io| ==> v[io[i]].Job() == w[io[i]].Job();
    assert Place(v, io, e, latest, p);
  }
}
