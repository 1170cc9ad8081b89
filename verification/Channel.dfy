/** The channel bandwidth model: a ring of per-slot credits whose head follows the clock lazily, against the unbounded
    timeline of module Timeline. */
module Channel {
  import opened Arith
  import opened Timeline

  const NR_CREDIT_ENTRIES: nat := 98304
  const UNIT_TIME_INTERVAL: nat := 4000
  const UNIT_XFER_SIZE: nat := 128
  const NS_PER_SEC: nat := 1_000_000_000
  const MB: nat := 0x10_0000
  const MAX32: nat := 0xFFFF_FFFF

  /** Slots are four microseconds long. */
  function Slot(t: nat): (r: nat)
    ensures r * 4000 <= t < r * 4000 + 4000
  {
    t / UNIT_TIME_INTERVAL
  }

  /** Storing an unsigned number in 32 bits. */
  function Low32(n: nat): (r: nat)
    ensures r <= MAX32
    ensures n <= MAX32 ==> r == n
  {
    n % 0x1_0000_0000
  }

  /** The ring index of the `k`-th slot from the head. */
  function Ring(head: nat, k: nat): (r: nat)
    requires head < NR_CREDIT_ENTRIES && k <= NR_CREDIT_ENTRIES
    ensures r < NR_CREDIT_ENTRIES
    ensures r == if head + k < NR_CREDIT_ENTRIES then head + k else head + k - NR_CREDIT_ENTRIES
  {
    (head + k) % NR_CREDIT_ENTRIES
  }

  function MaxCredits(bandwidth: nat): nat {
    bandwidth * MB * UNIT_TIME_INTERVAL / NS_PER_SEC / UNIT_XFER_SIZE
  }

  /** The least number of 128-byte units that hold `length` bytes. */
  function Units(length: nat): (u: nat)
    ensures length <= 128 * u && forall v: nat :: length <= 128 * v ==> u <= v
  {
    (length + UNIT_XFER_SIZE - 1) / UNIT_XFER_SIZE
  }

  /** Slots from one time to a later one. */
  function Gap(a: nat, b: nat): nat {
    if Slot(a) <= Slot(b) then Slot(b) - Slot(a) else 0
  }

  /** How many slots the head drops when the clock moves on by `d` slots: the number is truncated to 32 bits before it
      is clamped to the used part of the ring. */
  function Dropped(d: nat, validLen: nat): nat {
    if Low32(d) < validLen then Low32(d) else validLen
  }

  /** How far the ring is behind the clock after the clock has moved on by `d` slots. */
  function Lag(lag: nat, d: nat, validLen: nat): nat {
    if Low32(d) < validLen then lag + (d - Low32(d)) else 0
  }

  /** Slot `k` of a ring that shows the timeline from slot `s` on. */
  ghost function Entry(h: seq<Grant>, max: nat, s: nat, k: nat): nat {
    Left(h, max, s + k)
  }

  /** Rings that show the timeline from slot `a` and from slot `b` on look the same. */
  ghost predicate Alike(h: seq<Grant>, max: nat, a: nat, b: nat) {
    forall k :: 0 <= k < NR_CREDIT_ENTRIES ==> Entry(h, max, a, k) == Entry(h, max, b, k)
  }

  ghost predicate FullFrom(h: seq<Grant>, max: nat, s: nat) {
    forall n :: n >= s ==> Left(h, max, n) == max
  }

  /** A ring with `v` slots in use, the last of them not full, shows the present again after an idle time of `d` slots
      if and only if the truncation to 32 bits loses nothing or what it leaves covers the slots in use. */
  lemma KeepsUp(h: seq<Grant>, max: nat, t: nat, v: nat, d: nat)
    requires 0 < v <= NR_CREDIT_ENTRIES && FullFrom(h, max, t + v) && Left(h, max, t + v - 1) < max
    ensures Alike(h, max, t + Dropped(d, v), t + d) <==> d <= MAX32 || Low32(d) >= v
  {
    hide Left;
    if d > MAX32 && Low32(d) < v {
      var k := v - 1 - Low32(d);
      assert Entry(h, max, t + Dropped(d, v), k) == Left(h, max, t + v - 1) < max;
      assert Entry(h, max, t + d, k) == max;
    }
  }

  /** After exactly 2^32 idle slots the ring still shows the one credit granted before them as taken, so that a transfer
      of a whole slot's credits ends a slot late. */
  lemma StaleCredit(max: nat)
    requires 0 < max
    ensures var h, d := [Grant(0, 1)], 0x1_0000_0000;
            && Entry(h, max, Dropped(d, 1), 0) == max - 1 && Left(h, max, d) == max
            && Total(h, max, Dropped(d, 1), Dropped(d, 1) + 1) < max <= Total(h, max, d, d + 1)
  {
    var h := [Grant(0, 1)];
    assert h[..0] == [];
    assert Left(h, max, 0) == max - 1;
    assert Total(h, max, 0, 1) == Total(h, max, 0, 0) + Left(h, max, 0);
    FullLater(h, max, 0x1_0000_0000);
    assert Total(h, max, 0x1_0000_0000, 0x1_0000_0001) == Left(h, max, 0x1_0000_0000);
  }

  lemma FullLater(h: seq<Grant>, max: nat, s: nat)
    requires 0 < max && h == [Grant(0, 1)] && s > 0
    ensures Left(h, max, s) == max
  {
    TotalMono([], max, 0, 1, s);
    assert Total([], max, 0, 1) == Total([], max, 0, 0) + Left([], max, 0);
    assert h[..0] == [];
  }

  /** `max` is what a slot of a channel of `bandwidth` megabytes a second can take, and `lat` the nanoseconds of one
      unit, both rounded down. */
  ghost predicate Rated(bandwidth: nat, max: nat, lat: nat) {
    && max * 128_000_000_000 <= bandwidth * 0x10_0000 * 4000 < (max + 1) * 128_000_000_000
    && lat * (bandwidth * 0x10_0000) <= 128_000_000_000 < (lat + 1) * (bandwidth * 0x10_0000)
  }

  lemma BandwidthRated(bandwidth: nat)
    requires 0 < MaxCredits(bandwidth)
    ensures bandwidth > 0
    ensures Rated(bandwidth, MaxCredits(bandwidth), Low32(UNIT_XFER_SIZE * NS_PER_SEC / (bandwidth * MB)))
  {
    var x := bandwidth * MB * UNIT_TIME_INTERVAL;
    assert bandwidth > 0;
    var d := bandwidth * MB;
    var lat := 128_000_000_000 / d;
    assert lat * d <= 128_000_000_000 < (lat + 1) * d by { Divides(128_000_000_000, d); }
    assert lat <= MAX32 by {
      assert d >= MB;
      if lat > MAX32 {
        MulLe(MAX32, lat, d);
        MulLe(MB, d, MAX32);
      }
    }
    var max := x / NS_PER_SEC / UNIT_XFER_SIZE;
    assert max * 128_000_000_000 <= x < (max + 1) * 128_000_000_000;
  }

  lemma RatedTime(d: nat, lat: nat, u: nat)
    requires lat * d <= 128_000_000_000 < (lat + 1) * d
    ensures lat * u * d <= 128_000_000_000 * u <= (lat * u + u) * d
  {
    MulLe(lat * d, 128_000_000_000, u);
    MulLe(128_000_000_000, (lat + 1) * d, u);
    assert lat * d * u == lat * u * d;
    assert (lat + 1) * d * u == (lat * u + u) * d;
  }

  class ChannelModel {
    var head: nat
    var validLen: nat
    var curTime: nat
    const maxCredits: nat
    const commandCredits: nat
    const xferLat: nat
    const availCredits: array<nat>
    /** What has been granted so far. */
    ghost var grants: seq<Grant>
    /** How many slots the ring is behind the clock. */
    ghost var lag: nat

    /** chmodel_init */
    constructor (bandwidth: nat)
      requires 0 < MaxCredits(bandwidth) <= 255
      ensures Valid() && fresh(availCredits) && grants == [] && curTime == lag == 0
      ensures Rated(bandwidth, maxCredits, xferLat) && commandCredits == 0
    {
      BandwidthRated(bandwidth);
      head := 0;
      validLen := 0;
      curTime := 0;
      maxCredits := MaxCredits(bandwidth);
      commandCredits := 0;
      xferLat := Low32(UNIT_XFER_SIZE * NS_PER_SEC / (bandwidth * MB));
      availCredits := new nat[NR_CREDIT_ENTRIES];
      grants := [];
      lag := 0;
      new;
      Fill(0, NR_CREDIT_ENTRIES);
    }

    /** The credits of the `k`-th slot from now. */
    ghost function At(k: nat): nat
      requires k < NR_CREDIT_ENTRIES == availCredits.Length && head < NR_CREDIT_ENTRIES
      reads this`head, availCredits
    {
      availCredits[Ring(head, k)]
    }

    /** The slot of the timeline that the head of the ring stands for. */
    ghost function Base(): nat
      reads this`curTime, this`lag
    {
      if lag <= Slot(curTime) then Slot(curTime) - lag else 0
    }

    /** The ring shows the timeline from slot `s` on. */
    ghost predicate Shows(h: seq<Grant>, s: nat)
      requires NR_CREDIT_ENTRIES == availCredits.Length && head < NR_CREDIT_ENTRIES
      reads this`head, availCredits
    {
      forall k :: 0 <= k < NR_CREDIT_ENTRIES ==> At(k) == Entry(h, maxCredits, s, k)
    }

    ghost predicate Sized()
      reads this`head, this`validLen, this`curTime, this`lag
    {
      && availCredits.Length == NR_CREDIT_ENTRIES && head < NR_CREDIT_ENTRIES && validLen <= NR_CREDIT_ENTRIES
      && 0 < maxCredits <= 255 && commandCredits <= MAX32 && xferLat <= MAX32 && lag <= Slot(curTime)
    }

    /** The ring shows the timeline, as late as it is; slots past the used part are full. */
    ghost predicate Valid()
      reads this, availCredits
    {
      && Sized()
      && Shows(grants, Base()) && FullFrom(grants, maxCredits, Base() + validLen)
      && Served(grants, maxCredits, Base() + validLen)
    }

    /** The ring shows the present exactly if it has not fallen behind, or if nothing in it is taken. */
    lemma ShowsPresent()
      requires Valid()
      ensures Shows(grants, Slot(curTime)) <==> lag == 0 || FullFrom(grants, maxCredits, Base())
    {
      hide Left, Served, Slot, At;
      if lag > 0 && Shows(grants, Slot(curTime)) {
        NothingTaken(validLen);
      } else if FullFrom(grants, maxCredits, Base()) {
        forall k | 0 <= k < NR_CREDIT_ENTRIES
          ensures At(k) == Entry(grants, maxCredits, Slot(curTime), k)
        {
          assert At(k) == Entry(grants, maxCredits, Base(), k);
        }
      }
    }

    /** If the ring shows the present although it is behind, its slots are full from the last to the first. */
    lemma {:induction false} NothingTaken(n: nat)
      requires Sized() && lag > 0 && n <= NR_CREDIT_ENTRIES
      requires Shows(grants, Base()) && Shows(grants, Slot(curTime)) && FullFrom(grants, maxCredits, Base() + n)
      ensures FullFrom(grants, maxCredits, Base())
    {
      hide Left, Slot, At;
      if n > 0 {
        assert At(n - 1) == Entry(grants, maxCredits, Base(), n - 1);
        assert At(n - 1) == Entry(grants, maxCredits, Slot(curTime), n - 1);
        assert Left(grants, maxCredits, Base() + n - 1) == maxCredits;
        NothingTaken(n - 1);
      }
    }

    /** memset of `len` entries to the full number of credits */
    method Fill(lo: nat, len: nat)
      requires lo + len <= availCredits.Length
      modifies availCredits
      ensures forall i :: 0 <= i < availCredits.Length ==>
                availCredits[i] == if lo <= i < lo + len then maxCredits else old(availCredits[i])
    {
      var i := 0;
      while i < len
        invariant 0 <= i <= len
        invariant forall j :: 0 <= j < availCredits.Length ==>
                    availCredits[j] == if lo <= j < lo + i then maxCredits else old(availCredits[j])
      {
        availCredits[lo + i] := maxCredits;
        i := i + 1;
      }
    }

    /** The first `n` slots from the head are full again. */
    method Refill(n: nat)
      requires availCredits.Length == NR_CREDIT_ENTRIES && head < NR_CREDIT_ENTRIES && n <= NR_CREDIT_ENTRIES
      modifies availCredits
      ensures forall k :: 0 <= k < NR_CREDIT_ENTRIES ==> At(k) == if k < n then maxCredits else old(At(k))
    {
      if head + n >= NR_CREDIT_ENTRIES {
        Fill(head, NR_CREDIT_ENTRIES - head);
        Fill(0, n - (NR_CREDIT_ENTRIES - head));
      } else {
        Fill(head, n);
      }
    }

    /** The first part of chmodel_request: slots that have passed are refilled and the head moves on. */
    method Advance(now: nat)
      requires Valid() && curTime <= now
      modifies this`head, this`curTime, this`validLen, this`lag, availCredits
      ensures Valid() && curTime == now && Base() + validLen >= old(Base() + validLen)
      ensures lag == Lag(old(lag), Gap(old(curTime), now), old(validLen))
    {
      hide Left, Served, Slot, Ring, Low32;
      ghost var h0, b0, v0 := head, Base(), validLen;
      SlotMono(curTime, now);
      var d := Gap(curTime, now);
      var offs := Dropped(d, validLen);
      Refill(offs);
      forall k | 0 <= k < NR_CREDIT_ENTRIES
        ensures availCredits[Ring(h0, k)] == if k < offs then maxCredits else Left(grants, maxCredits, b0 + k)
      {
        assert At(k) == if k < offs then maxCredits else old(At(k));
        assert old(At(k)) == Entry(grants, maxCredits, b0, k);
      }
      lag := Lag(lag, d, validLen);
      head := Ring(head, offs);
      curTime := now;
      validLen := validLen - offs;
      ServedLater(grants, maxCredits, b0 + v0, Base() + validLen);
      forall k | 0 <= k < NR_CREDIT_ENTRIES
        ensures At(k) == Entry(grants, maxCredits, Base(), k)
      {
        if offs + k < NR_CREDIT_ENTRIES {
          assert Ring(head, k) == Ring(h0, offs + k);
          assert availCredits[Ring(h0, offs + k)] ==
                 if offs + k < offs then maxCredits else Left(grants, maxCredits, b0 + (offs + k));
        } else {
          assert Ring(head, k) == Ring(h0, offs + k - NR_CREDIT_ENTRIES);
        }
      }
    }

    /** Slot `e` is where a request for `need` credits from slot `from` on ends: the first slot by which there are
        enough, or else the last slot of the ring; `short` credits are missing then. */
    ghost predicate EndsAt(h: seq<Grant>, from: nat, need: nat, e: nat, short: nat)
      reads this`curTime, this`lag
    {
      && from <= e < Base() + NR_CREDIT_ENTRIES
      && (e == from || Total(h, maxCredits, from, e) < need)
      && (short == 0 ==> need <= Total(h, maxCredits, from, e + 1))
      && (short > 0 ==> e + 1 == Base() + NR_CREDIT_ENTRIES && need == Total(h, maxCredits, from, e + 1) + short)
    }

    method Take(ghost k: nat, pos: nat, credits: nat)
      requires availCredits.Length == NR_CREDIT_ENTRIES && head < NR_CREDIT_ENTRIES && k < NR_CREDIT_ENTRIES
      requires pos == Ring(head, k) && credits <= availCredits[pos]
      modifies availCredits
      ensures forall j :: 0 <= j < NR_CREDIT_ENTRIES ==> At(j) == old(At(j)) - if j == k then credits else 0
    {
      availCredits[pos] := availCredits[pos] - credits;
    }

    /** The consuming loop of chmodel_request, from the `offs`-th slot on. */
    method Consume(offs: nat, need: nat) returns (delay: nat, ghost short: nat)
      requires Valid() && offs < NR_CREDIT_ENTRIES
      modifies availCredits
      ensures short <= need && EndsAt(grants, Base() + offs, need, Base() + offs + delay, short)
      ensures Shows(grants + [Grant(Base() + offs, need - short)], Base())
    {
      hide Left, Total, Served, Slot, Ring;
      var k: nat := offs;
      var pos := Ring(head, offs);
      var remaining := need;
      ghost var t := Base();
      TotalStart(t + offs);
      delay := 0;
      while true
        invariant k == offs + delay < NR_CREDIT_ENTRIES && pos == Ring(head, k)
        invariant remaining == need - Total(grants, maxCredits, t + offs, t + k)
        invariant remaining > 0 || k == offs
        invariant forall j :: 0 <= j < NR_CREDIT_ENTRIES ==>
                    At(j) == if offs <= j < k then 0 else Entry(grants, maxCredits, t, j)
        decreases NR_CREDIT_ENTRIES - k
      {
        assert At(k) == Entry(grants, maxCredits, t, k);
        TotalMore(t + offs, t + k);
        var consumed := if remaining <= availCredits[pos] then remaining else availCredits[pos];
        Take(k, pos, consumed);
        remaining := remaining - consumed;
        if remaining == 0 || Ring(pos, 1) == head {
          short := remaining;
          ConsumedShape(offs, k, need - short);
          return;
        }
        delay := delay + 1;
        k := k + 1;
        pos := Ring(pos, 1);
      }
    }

    lemma TotalStart(lo: nat)
      ensures Total(grants, maxCredits, lo, lo) == 0
    {
    }

    lemma TotalMore(lo: nat, hi: nat)
      requires lo <= hi
      ensures Total(grants, maxCredits, lo, hi + 1) == Total(grants, maxCredits, lo, hi) + Left(grants, maxCredits, hi)
    {
    }

    /** When the ring is emptied from `offs` up to `k`, and the rest is taken at `k`, it shows the new grant. */
    lemma ConsumedShape(offs: nat, k: nat, served: nat)
      requires availCredits.Length == NR_CREDIT_ENTRIES && head < NR_CREDIT_ENTRIES && offs <= k < NR_CREDIT_ENTRIES
      requires var lo, e := Base() + offs, Base() + k;
               Total(grants, maxCredits, lo, e) <= served <= Total(grants, maxCredits, lo, e + 1)
      requires forall j :: 0 <= j < NR_CREDIT_ENTRIES ==>
                 At(j) == if offs <= j < k then 0
                          else if j == k then
                            Left(grants, maxCredits, Base() + k)
                            - (served - Total(grants, maxCredits, Base() + offs, Base() + k))
                          else Entry(grants, maxCredits, Base(), j)
      ensures Shows(grants + [Grant(Base() + offs, served)], Base())
    {
      hide Left, Total, Slot;
      var g := Grant(Base() + offs, served);
      forall j | 0 <= j < NR_CREDIT_ENTRIES
        ensures At(j) == Entry(grants + [g], maxCredits, Base(), j)
      {
        GrantShape(grants, maxCredits, g, Base() + k, Base() + j);
      }
    }

    /** chmodel_request: the time at which a transfer of `length` bytes, asked for at `requestTime`, is done.  Numbers
        of slots and of units are truncated to 32 bits. */
    method Request(now: nat, requestTime: nat, length: nat) returns (done: nat, ghost e: nat, ghost short: nat)
      requires Valid() && curTime <= now
      modifies this`head, this`curTime, this`validLen, this`grants, this`lag, availCredits
      ensures Valid() && curTime == now && lag == Lag(old(lag), Gap(old(curTime), now), old(validLen))
      ensures requestTime < now || Low32(Gap(now, requestTime)) >= NR_CREDIT_ENTRIES ==>
                done == requestTime && grants == old(grants)
      ensures requestTime >= now && Low32(Gap(now, requestTime)) < NR_CREDIT_ENTRIES ==>
                Granted(old(grants), requestTime, Low32(Gap(now, requestTime)), Low32(Units(length)), e, short, done)
    {
      hide Left, Total, Served, Slot, Units, Low32, Shows, FullFrom;
      Advance(now);
      e, short := 0, 0;
      if requestTime < now {
        return requestTime, e, short;
      }
      var offs := Low32(Gap(now, requestTime));
      if offs >= NR_CREDIT_ENTRIES {
        return requestTime, e, short;
      }
      var units := Low32(Units(length));
      var need := Low32(units * 1 + commandCredits);
      var defaultDelay := need / maxCredits;
      var delay;
      delay, short := Consume(offs, need);
      e := Base() + offs + delay;
      Record(offs, delay, need, short);
      delay := if delay > defaultDelay then delay - defaultDelay else 0;
      done := requestTime + (Low32(xferLat * units) + delay * UNIT_TIME_INTERVAL);
    }

    /** Slots that the transfer ends later than it would on an idle channel. */
    ghost function Late(delay: int, need: nat): nat {
      if maxCredits > 0 && delay > need / maxCredits then delay - need / maxCredits else 0
    }

    /** The units were granted first-fit from the slot `ahead` of the head on, up to slot `e`, but for `short` credits
        that the ring does not have; the transfer takes its own time plus the delay. */
    ghost predicate Granted(h: seq<Grant>, requestTime: nat, ahead: nat, units: nat, e: nat, short: nat, done: nat)
      reads this`curTime, this`grants, this`lag
    {
      var from, need := Base() + ahead, Low32(units + commandCredits);
      && short <= need && grants == h + [Grant(from, need - short)] && EndsAt(h, from, need, e, short)
      && done == requestTime + Low32(xferLat * units) + Late(e - from, need) * 4000
    }

    /** On a channel that is idle from the slot of the request on, a transfer of any length ends without delay. */
    lemma IdleDone(h: seq<Grant>, requestTime: nat, ahead: nat, units: nat, e: nat, short: nat, done: nat)
      requires Sized() && commandCredits == 0 && units <= MAX32 && FullFrom(h, maxCredits, Base() + ahead)
      requires Granted(h, requestTime, ahead, units, e, short, done)
      ensures done == requestTime + Low32(xferLat * units)
    {
      hide Left, Total, Slot, FullFrom, Base, Late;
      var from := Base() + ahead;
      assert Low32(units + commandCredits) == units;
      IdleTotal(h, from, e);
      NotLate(e - from, units);
    }

    /** A transfer that ends in the slot in which it would end on an idle channel is not late. */
    lemma NotLate(delay: nat, need: nat)
      requires maxCredits > 0 && (delay == 0 || maxCredits * delay < need)
      ensures Late(delay, need) == 0
    {
      Divides(need, maxCredits);
      if delay > need / maxCredits {
        MulLe(need / maxCredits + 1, delay, maxCredits);
      }
    }

    /** Any other is late by the slots in which an idle channel would not have needed to go on. */
    lemma LateBy(delay: nat, need: nat, q: nat)
      requires maxCredits > 0 && q * maxCredits <= need < q * maxCredits + maxCredits && q <= delay
      ensures Late(delay, need) == delay - q
    {
      QuotientIs(need, q, maxCredits);
    }

    lemma {:induction false} IdleTotal(h: seq<Grant>, from: nat, n: nat)
      requires FullFrom(h, maxCredits, from) && from <= n
      ensures Total(h, maxCredits, from, n) == maxCredits * (n - from)
      decreases n
    {
      hide Left;
      if from < n {
        IdleTotal(h, from, n - 1);
        assert Left(h, maxCredits, n - 1) == maxCredits;
        assert maxCredits * (n - 1 - from) + maxCredits == maxCredits * (n - from);
      }
    }

    /** From bandwidth and length alone: the transfer takes the time of the least number `u` of 128-byte units that hold
        it, at the rated bandwidth, but for a nanosecond per unit. */
    lemma IdleTransfer(bandwidth: nat, length: nat, u: nat, h: seq<Grant>, requestTime: nat, ahead: nat, e: nat,
                       short: nat, done: nat)
      requires Sized() && commandCredits == 0 && FullFrom(h, maxCredits, Base() + ahead)
      requires Rated(bandwidth, maxCredits, xferLat) && length <= 128 * u < length + 128
      requires u <= MAX32 && xferLat * u <= MAX32
      requires Granted(h, requestTime, ahead, Low32(Units(length)), e, short, done)
      ensures var ns := done - requestTime;
              ns * (bandwidth * 0x10_0000) <= 128_000_000_000 * u <= (ns + u) * (bandwidth * 0x10_0000)
    {
      hide Left, Total, Slot, FullFrom, Granted, Base, Units, Low32;
      assert Units(length) == u by { assert length <= 128 * Units(length) && Units(length) <= u; }
      IdleDone(h, requestTime, ahead, Low32(Units(length)), e, short, done);
      RatedTime(bandwidth * 0x10_0000, xferLat, u);
    }

    /** The used part of the ring grows to the slot in which the request ended. */
    method Record(offs: nat, delay: nat, need: nat, ghost short: nat)
      requires Sized() && short <= need
      requires FullFrom(grants, maxCredits, Base() + validLen) && Served(grants, maxCredits, Base() + validLen)
      requires EndsAt(grants, Base() + offs, need, Base() + offs + delay, short)
      requires Shows(grants + [Grant(Base() + offs, need - short)], Base())
      modifies this`validLen, this`grants
      ensures Valid() && grants == old(grants) + [Grant(Base() + offs, need - short)]
    {
      hide Left, Total, Served, Slot, Ring;
      var pos := Ring(head, offs + delay);
      var validLength := if pos >= head then pos - head + 1 else NR_CREDIT_ENTRIES - (head - pos - 1);
      assert validLength == offs + delay + 1;
      if validLength > validLen {
        validLen := validLength;
      }
      ghost var g := Grant(Base() + offs, need - short);
      GrantRecorded(g, Base() + offs + delay, old(Base() + validLen), Base() + validLen, short);
      grants := grants + [g];
    }

    lemma GrantRecorded(g: Grant, e: nat, m: nat, n: nat, short: nat)
      requires FullFrom(grants, maxCredits, m) && Served(grants, maxCredits, m) && m <= n && e + 1 <= n
      requires EndsAt(grants, g.from, g.need + short, e, short)
      ensures FullFrom(grants + [g], maxCredits, n) && Served(grants + [g], maxCredits, n)
    {
      hide Left, Total, Served, Slot, Ring;
      TotalStart(g.from);
      TotalMono(grants, maxCredits, g.from, e, e + 1);
      TotalMono(grants, maxCredits, g.from, e + 1, n);
      ServedAfter(grants, maxCredits, g, m, n);
      forall s | s >= n
        ensures Left(grants + [g], maxCredits, s) == maxCredits
      {
        GrantShape(grants, maxCredits, g, e, s);
      }
    }

    /** A request is served in full exactly when the slots of the ring from its own on hold enough credits. */
    lemma ServedInFull(h: seq<Grant>, from: nat, need: nat, e: nat, short: nat)
      requires EndsAt(h, from, need, e, short)
      ensures short == 0 <==> need <= Total(h, maxCredits, from, Base() + NR_CREDIT_ENTRIES)
    {
      TotalMono(h, maxCredits, from, e + 1, Base() + NR_CREDIT_ENTRIES);
    }

    lemma SlotMono(a: nat, b: nat)
      requires a <= b
      ensures Slot(a) <= Slot(b)
    {
    }
  }
}
