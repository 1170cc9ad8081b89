/** The zoned namespace: zone states, write pointers and the counters of open and active zones, after the Zoned
    Namespace Command Set Specification Revision 1.1a, sections 3.4.1 and 3.4.3. */
module Zns {
  import opened Arith

  const LBA_SIZE: nat := 512

  datatype State = Empty | OpenedImpl | OpenedExpl | Closed | ReadOnly | Full | Offline

  datatype Status =
    Success | Boundary | FullErr | ReadOnlyErr | OfflineErr | InvalidWrite | NoActiveZone | NoOpenZone
    | ZrwaUnavailable | InvalidTransition

  datatype Action = CloseZone | FinishZone | OpenZone(zrwa: bool) | ResetZone | OfflineZone

  /** `zrwav`: the zone has a random write area. */
  datatype Zone = Zone(state: State, zslba: nat, wp: nat, capacity: nat, zrwav: bool) {
    predicate Open() {
      state.OpenedImpl? || state.OpenedExpl?
    }

    predicate Active() {
      Open() || state.Closed?
    }

    function End(): nat {
      zslba + capacity
    }

    /** The write pointer is inside the zone, below the end while the zone is active, and at the start while it is
        empty. */
    ghost predicate Ok() {
      && capacity > 0 && zslba <= wp <= End()
      && (Active() ==> wp < End())
      && (state.Empty? ==> wp == zslba && !zrwav)
    }
  }

  // ---------- Counting zones ----------

  datatype Resource = ACTIVE_ZONE | OPEN_ZONE | ZRWA_ZONE

  predicate Holds(z: Zone, r: Resource) {
    match r
    case ACTIVE_ZONE => z.Active()
    case OPEN_ZONE => z.Open()
    case ZRWA_ZONE => z.Active() && z.zrwav
  }

  ghost function One(z: Zone, r: Resource): nat {
    if Holds(z, r) then 1 else 0
  }

  /** How many zones hold a resource. */
  ghost function Count(zs: seq<Zone>, r: Resource): (n: nat)
    ensures n <= |zs|
  {
    if zs == [] then 0 else Count(zs[..|zs| - 1], r) + One(zs[|zs| - 1], r)
  }

  lemma {:induction false} CountUpdate(zs: seq<Zone>, r: Resource, i: nat, z: Zone)
    requires i < |zs|
    ensures Count(zs[i := z], r) + One(zs[i], r) == Count(zs, r) + One(z, r)
  {
    var n := |zs| - 1;
    if i == n {
      assert zs[i := z][..n] == zs[..n];
    } else {
      assert zs[i := z][..n] == zs[..n][i := z];
      CountUpdate(zs[..n], r, i, z);
    }
  }

  lemma {:induction false} CountMember(zs: seq<Zone>, r: Resource, i: nat)
    requires i < |zs|
    ensures Holds(zs[i], r) ==> Count(zs, r) > 0
    ensures !Holds(zs[i], r) ==> Count(zs, r) < |zs|
  {
    if i < |zs| - 1 {
      CountMember(zs[..|zs| - 1], r, i);
    }
  }

  lemma {:induction false} CountNone(zs: seq<Zone>, r: Resource)
    requires forall i :: 0 <= i < |zs| ==> !Holds(zs[i], r)
    ensures Count(zs, r) == 0
  {
    if zs != [] {
      CountNone(zs[..|zs| - 1], r);
    }
  }

  /** A resource is left, judged by the states of the zones alone. */
  ghost predicate Spare(zs: seq<Zone>, limit: Resource -> nat, r: Resource) {
    Count(zs, r) < limit(r)
  }

  // ---------- Committed extents ----------

  datatype Extent = Extent(slba: nat, lbas: nat)

  /** The extents follow each other without gaps from `lo` to `hi`. */
  ghost predicate Tiles(log: seq<Extent>, lo: nat, hi: nat) {
    if log == [] then lo == hi
    else
      var x := log[|log| - 1];
      x.lbas > 0 && x.slba + x.lbas == hi && Tiles(log[..|log| - 1], lo, x.slba)
  }

  ghost predicate Covers(x: Extent, lba: nat) {
    x.slba <= lba < x.slba + x.lbas
  }

  lemma {:induction false} TilesBound(log: seq<Extent>, lo: nat, hi: nat, i: nat)
    requires Tiles(log, lo, hi) && i < |log|
    ensures lo <= log[i].slba && log[i].slba + log[i].lbas <= hi
  {
    if log != [] {
      TilesOrder(log[..|log| - 1], lo, log[|log| - 1].slba);
      if i < |log| - 1 {
        TilesBound(log[..|log| - 1], lo, log[|log| - 1].slba, i);
      }
    }
  }

  lemma {:induction false} TilesOrder(log: seq<Extent>, lo: nat, hi: nat)
    requires Tiles(log, lo, hi)
    ensures lo <= hi
  {
    if log != [] {
      TilesOrder(log[..|log| - 1], lo, log[|log| - 1].slba);
    }
  }

  /** Every block between the ends was committed by exactly one write. */
  lemma {:induction false} TiledOnce(log: seq<Extent>, lo: nat, hi: nat, lba: nat)
    requires Tiles(log, lo, hi) && lo <= lba < hi
    ensures exists i :: 0 <= i < |log| && Covers(log[i], lba)
    ensures forall i, j :: 0 <= i < |log| && 0 <= j < |log| && Covers(log[i], lba) && Covers(log[j], lba) ==> i == j
  {
    if log != [] {
      var x, rest := log[|log| - 1], log[..|log| - 1];
      if lba < x.slba {
        TiledOnce(rest, lo, x.slba, lba);
        var i :| 0 <= i < |rest| && Covers(rest[i], lba);
        assert Covers(log[i], lba);
        forall i, j | 0 <= i < |log| && 0 <= j < |log| && Covers(log[i], lba) && Covers(log[j], lba)
          ensures i == j
        {
          assert i < |rest| && j < |rest| && Covers(rest[i], lba) && Covers(rest[j], lba);
        }
      } else {
        assert Covers(log[|log| - 1], lba);
        forall i | 0 <= i < |rest|
          ensures !Covers(log[i], lba)
        {
          TilesBound(rest, lo, x.slba, i);
          assert log[i] == rest[i];
        }
      }
    }
  }

  lemma TilesAppend(log: seq<Extent>, lo: nat, hi: nat, n: nat)
    requires Tiles(log, lo, hi) && n > 0
    ensures Tiles(log + [Extent(hi, n)], lo, hi + n)
  {
    assert (log + [Extent(hi, n)])[..|log|] == log;
  }

  // ---------- What the commands do to a zone ----------

  /** Zone management: the zone afterwards and the status, with the resources that are left. */
  ghost function Managed(z: Zone, a: Action, zs: seq<Zone>, limit: Resource -> nat): (Zone, Status) {
    match a
    case CloseZone =>
      if z.Open() then (z.(state := Closed), Success)
      else (z, if z.state.Closed? then Success else InvalidTransition)
    case FinishZone =>
      if z.Active() || z.state.Empty? || z.state.Full? then (z.(state := Full), Success)
      else (z, InvalidTransition)
    case OpenZone(zrwa) =>
      if z.state.Empty? && !Spare(zs, limit, ACTIVE_ZONE) then (z, NoActiveZone)
      else if (z.state.Empty? || z.state.Closed?) && !Spare(zs, limit, OPEN_ZONE) then (z, NoOpenZone)
      else if z.state.Empty? && zrwa && !Spare(zs, limit, ZRWA_ZONE) then (z, ZrwaUnavailable)
      else if z.state.Empty? then (z.(state := OpenedExpl, zrwav := zrwa || z.zrwav), Success)
      else if z.Active() then (z.(state := OpenedExpl), Success)
      else (z, InvalidTransition)
    case ResetZone =>
      if z.state.ReadOnly? || z.state.Offline? then (z, InvalidTransition)
      else (z.(state := Empty, wp := z.zslba, zrwav := false), Success)
    case OfflineZone =>
      if z.state.ReadOnly? || z.state.Offline? then (z.(state := Offline), Success)
      else (z, InvalidTransition)
  }

  lemma ManagedOk(z: Zone, a: Action, zs: seq<Zone>, limit: Resource -> nat)
    requires z.Ok()
    ensures Managed(z, a, zs, limit).0.Ok()
    ensures Managed(z, a, zs, limit).0 != z ==> Managed(z, a, zs, limit).1 == Success
    ensures Managed(z, a, zs, limit).0.zslba == z.zslba && Managed(z, a, zs, limit).0.capacity == z.capacity
    ensures Managed(z, a, zs, limit).0.wp == z.wp || (a.ResetZone? && Managed(z, a, zs, limit).0.wp == z.zslba)
  {
  }

  ghost predicate Scarce(status: Status) {
    status.NoActiveZone? || status.NoOpenZone? || status.ZrwaUnavailable?
  }

  /** With the limits the device installs, one for every zone, no command is refused for want of resources: every zone
      that is empty or active can be opened and written. */
  lemma NeverScarce(zs: seq<Zone>, i: nat, limit: Resource -> nat, a: Action, slba: nat, aligned: bool, inside: bool)
    requires i < |zs| && forall r :: limit(r) == |zs|
    ensures !Scarce(Managed(zs[i], a, zs, limit).1) && !Scarce(Verdict(zs[i], slba, aligned, inside, zs, limit))
    ensures a.OpenZone? ==>
              (Managed(zs[i], a, zs, limit).1 == Success <==> zs[i].state.Empty? || zs[i].Active())
    ensures Verdict(zs[i], slba, aligned, inside, zs, limit) == Success <==>
            aligned && inside && slba == zs[i].wp && (zs[i].state.Empty? || zs[i].Active())
  {
    CountMember(zs, ACTIVE_ZONE, i);
    CountMember(zs, OPEN_ZONE, i);
    CountMember(zs, ZRWA_ZONE, i);
  }

  /** The zone state machine of the specification, with staying put. */
  ghost predicate Legal(a: State, b: State) {
    a == b ||
    match a
    case Empty => b.OpenedImpl? || b.OpenedExpl? || b.Full?
    case OpenedImpl => b.OpenedExpl? || b.Closed? || b.Full? || b.Empty?
    case OpenedExpl => b.Closed? || b.Full? || b.Empty?
    case Closed => b.OpenedImpl? || b.OpenedExpl? || b.Full? || b.Empty?
    case Full => b.Empty?
    case ReadOnly => b.Offline?
    case Offline => false
  }

  /** No command takes a zone along a transition that the state machine does not have. */
  lemma LegalMoves(z: Zone, a: Action, n: nat, zs: seq<Zone>, limit: Resource -> nat)
    ensures Legal(z.state, Managed(z, a, zs, limit).0.state)
    ensures Verdict(z, z.wp, true, true, zs, limit) == Success ==> Legal(z.state, Written(z, n).state)
  {
  }

  /** Why a write at `slba` is refused, or Success; `aligned`: it is made of whole write units. */
  ghost function Verdict(z: Zone, slba: nat, aligned: bool, inside: bool, zs: seq<Zone>,
                         limit: Resource -> nat): Status {
    if !aligned then InvalidWrite
    else if !inside then Boundary
    else if slba != z.wp then InvalidWrite
    else match z.state
      case Empty =>
        if !Spare(zs, limit, ACTIVE_ZONE) then NoActiveZone
        else if !Spare(zs, limit, OPEN_ZONE) then NoOpenZone else Success
      case Closed => if !Spare(zs, limit, OPEN_ZONE) then NoOpenZone else Success
      case OpenedImpl => Success
      case OpenedExpl => Success
      case Full => FullErr
      case ReadOnly => ReadOnlyErr
      case Offline => OfflineErr
  }

  /** The zone is open, or the resources to open it are left. */
  ghost predicate Writable(z: Zone, zs: seq<Zone>, limit: Resource -> nat) {
    || z.Open()
    || (z.state.Closed? && Spare(zs, limit, OPEN_ZONE))
    || (z.state.Empty? && Spare(zs, limit, OPEN_ZONE) && Spare(zs, limit, ACTIVE_ZONE))
  }

  /** The zone as a write finds it: opened implicitly if it was not open. */
  ghost function Opened(z: Zone): Zone {
    if z.Open() then z else z.(state := OpenedImpl)
  }

  /** The zone after `n` blocks have been written at its write pointer. */
  ghost function Written(z: Zone, n: nat): Zone {
    z.(wp := z.wp + n,
       state := if z.wp + n == z.End() then Full else if z.state.OpenedExpl? then OpenedExpl else OpenedImpl)
  }

  class ZnsFtl {
    const zones: array<Zone>
    const zoneLbas: nat
    const writeUnit: nat
    /** Totals and acquired numbers of the three resources. */
    const totalCnt: Resource -> nat
    var acquiredCnt: map<Resource, nat>
    /** What has been written into each zone since it was reset. */
    ghost var logs: seq<seq<Extent>>

    ghost predicate Valid()
      reads this, zones
    {
      Inv(zones[..], logs, acquiredCnt)
    }

    /** The counters say how many zones hold each resource and stay within their limits; every zone is sound, and what
        was written into it tiles the blocks below its write pointer. */
    ghost predicate Inv(zs: seq<Zone>, ls: seq<seq<Extent>>, acquired: map<Resource, nat>) {
      && zoneLbas > 0 && writeUnit > 0 && |ls| == |zs|
      && (forall r :: r in acquired && acquired[r] == Count(zs, r) && acquired[r] <= totalCnt(r))
      && (forall i :: 0 <= i < |zs| ==> ZoneOk(zs[i], i) && Tiles(ls[i], zs[i].zslba, zs[i].wp))
    }

    ghost predicate ZoneOk(z: Zone, i: nat) {
      z.Ok() && z.capacity == zoneLbas && z.zslba == i * zoneLbas
    }

    /** __init_descriptor and __init_resource */
    constructor (nrZones: nat, zoneLbas: nat, writeUnit: nat)
      requires zoneLbas > 0 && writeUnit > 0
      ensures Valid() && fresh(zones) && zones.Length == nrZones
      ensures this.zoneLbas == zoneLbas && this.writeUnit == writeUnit
      ensures forall r :: totalCnt(r) == nrZones && acquiredCnt[r] == 0
      ensures forall i :: 0 <= i < nrZones ==> zones[i] == Zone(Empty, i * zoneLbas, i * zoneLbas, zoneLbas, false)
    {
      zones := new Zone[nrZones](_ => Zone(Empty, 0, 0, zoneLbas, false));
      this.zoneLbas, this.writeUnit := zoneLbas, writeUnit;
      totalCnt := _ => nrZones;
      acquiredCnt := map[ACTIVE_ZONE := 0, OPEN_ZONE := 0, ZRWA_ZONE := 0];
      logs := seq(nrZones, _ => []);
      new;
      var zslba: nat := 0;
      var i := 0;
      while i < nrZones
        invariant 0 <= i <= nrZones && zslba == i * zoneLbas
        invariant forall k :: 0 <= k < i ==> zones[k] == Zone(Empty, k * zoneLbas, k * zoneLbas, zoneLbas, false)
        modifies zones
      {
        zones[i] := Zone(Empty, zslba, zslba, zoneLbas, false);
        zslba := zslba + zoneLbas;
        i := i + 1;
      }
      forall r: Resource
        ensures r in acquiredCnt && Count(zones[..], r) == 0 == acquiredCnt[r]
      {
        assert r == ACTIVE_ZONE || r == OPEN_ZONE || r == ZRWA_ZONE;
        CountNone(zones[..], r);
      }
    }

    // ---------- Resources ----------

    predicate IsFull(r: Resource)
      requires r in acquiredCnt
      reads this`acquiredCnt
    {
      acquiredCnt[r] == totalCnt(r)
    }

    method Acquire(r: Resource) returns (ok: bool)
      requires r in acquiredCnt
      modifies this`acquiredCnt
      ensures ok <==> old(acquiredCnt)[r] < totalCnt(r)
      ensures acquiredCnt == if ok then old(acquiredCnt)[r := old(acquiredCnt)[r] + 1] else old(acquiredCnt)
    {
      ok := acquiredCnt[r] < totalCnt(r);
      if ok {
        acquiredCnt := acquiredCnt[r := acquiredCnt[r] + 1];
      }
    }

    /** The source asserts that the counter is positive. */
    method Release(r: Resource)
      requires r in acquiredCnt && acquiredCnt[r] > 0
      modifies this`acquiredCnt
      ensures acquiredCnt == old(acquiredCnt)[r := old(acquiredCnt)[r] - 1]
    {
      acquiredCnt := acquiredCnt[r := acquiredCnt[r] - 1];
    }

    method ChangeState(zid: nat, state: State)
      requires zid < zones.Length
      modifies zones
      ensures zones[..] == old(zones[..])[zid := old(zones[zid]).(state := state)]
    {
      zones[zid] := zones[zid].(state := state);
    }

    // ---------- Zone management ----------

    /** The command did to zone `zid` of `zs` what Managed says, and nothing else. */
    ghost predicate Did(zs: seq<Zone>, zid: nat, a: Action, status: Status)
      requires zid < |zs|
      reads zones
    {
      var m := Managed(zs[zid], a, zs, totalCnt);
      zones[..] == zs[zid := m.0] && status == m.1
    }

    /** By how much the numbers of open zones, active zones and zones with a random write area have changed. */
    ghost predicate Counted(was: map<Resource, nat>, open: int, active: int, zrwa: int)
      reads this`acquiredCnt
    {
      && (forall r :: r in was && r in acquiredCnt)
      && acquiredCnt[OPEN_ZONE] == was[OPEN_ZONE] + open
      && acquiredCnt[ACTIVE_ZONE] == was[ACTIVE_ZONE] + active
      && acquiredCnt[ZRWA_ZONE] == was[ZRWA_ZONE] + zrwa
    }

    ghost predicate Has(was: map<Resource, nat>, r: Resource) {
      r in was && was[r] < totalCnt(r)
    }

    lemma ZoneFacts(zs: seq<Zone>, ls: seq<seq<Extent>>, acquired: map<Resource, nat>, zid: nat)
      requires Inv(zs, ls, acquired) && zid < |zs|
      ensures forall r :: r in acquired && acquired[r] <= totalCnt(r)
      ensures forall r :: Spare(zs, totalCnt, r) <==> acquired[r] < totalCnt(r)
      ensures forall r :: Holds(zs[zid], r) ==> acquired[r] > 0
      ensures |ls| == |zs| && ZoneOk(zs[zid], zid) && Tiles(ls[zid], zs[zid].zslba, zs[zid].wp)
      ensures zs[zid := zs[zid]] == zs && ls[zid := ls[zid]] == ls
      ensures zoneLbas > 0 && writeUnit > 0
    {
      forall r: Resource
        ensures Holds(zs[zid], r) ==> acquired[r] > 0
      {
        CountMember(zs, r, zid);
      }
    }

    /** One zone changes and the counters follow. */
    lemma ZoneMoves(zs: seq<Zone>, ls: seq<seq<Extent>>, acquired: map<Resource, nat>, zid: nat, z: Zone,
                    log: seq<Extent>, now: map<Resource, nat>)
      requires Inv(zs, ls, acquired) && zid < |zs| == |ls| && ZoneOk(z, zid) && Tiles(log, z.zslba, z.wp)
      requires forall r :: r in acquired && r in now && now[r] == acquired[r] - One(zs[zid], r) + One(z, r)
      requires forall r :: r in now && now[r] <= totalCnt(r)
      ensures Inv(zs[zid := z], ls[zid := log], now)
    {
      forall r: Resource
        ensures now[r] == Count(zs[zid := z], r)
      {
        CountUpdate(zs, r, zid, z);
      }
    }

    method Close(zid: nat) returns (status: Status)
      requires Valid() && zid < zones.Length
      modifies this`acquiredCnt, zones
      ensures Valid() && Did(old(zones[..]), zid, CloseZone, status)
      ensures var z := old(zones[zid]);
              && (status == Success <==> z.Open() || z.state.Closed?)
              && zones[..] == old(zones[..])[zid := if z.Open() then z.(state := Closed) else z]
              && Counted(old(acquiredCnt), if z.Open() then -1 else 0, 0, 0)
    {
      hide Inv, Tiles, Count, Spare;
      ghost var zs, acquired := zones[..], acquiredCnt;
      ZoneFacts(zs, logs, acquired, zid);
      ghost var z := Managed(zones[zid], CloseZone, zs, totalCnt).0;
      status := Success;
      match zones[zid].state {
        case OpenedImpl | OpenedExpl =>
          ChangeState(zid, Closed);
          Release(OPEN_ZONE);
        case Closed =>
        case _ =>
          status := InvalidTransition;
      }
      assert zones[..] == zs[zid := z];
      ZoneMoves(zs, logs, acquired, zid, z, logs[zid], acquiredCnt);
    }

    /** The releases that finishing and resetting have in common. */
    method ReleaseAll(zid: nat)
      requires zid < zones.Length
      requires forall r :: r in acquiredCnt && (Holds(zones[zid], r) ==> acquiredCnt[r] > 0)
      modifies this`acquiredCnt
      ensures forall r :: r in acquiredCnt && acquiredCnt[r] == old(acquiredCnt)[r] - One(zones[zid], r)
    {
      var state := zones[zid].state;
      if state.OpenedImpl? || state.OpenedExpl? {
        Release(OPEN_ZONE);
      }
      if state.OpenedImpl? || state.OpenedExpl? || state.Closed? {
        Release(ACTIVE_ZONE);
        if zones[zid].zrwav {
          Release(ZRWA_ZONE);
        }
      }
    }

    method Finish(zid: nat) returns (status: Status)
      requires Valid() && zid < zones.Length
      modifies this`acquiredCnt, zones
      ensures Valid() && Did(old(zones[..]), zid, FinishZone, status)
      ensures var z := old(zones[zid]);
              && (status == Success <==> !z.state.ReadOnly? && !z.state.Offline?)
              && zones[..] == old(zones[..])[zid := if status == Success then z.(state := Full) else z]
              && Counted(old(acquiredCnt), if z.Open() then -1 else 0, if z.Active() then -1 else 0,
                         if z.Active() && z.zrwav then -1 else 0)
    {
      hide Inv, Tiles, Count, Spare;
      ghost var zs, acquired := zones[..], acquiredCnt;
      ZoneFacts(zs, logs, acquired, zid);
      ghost var z := Managed(zones[zid], FinishZone, zs, totalCnt).0;
      var state := zones[zid].state;
      status := Success;
      match state {
        case OpenedImpl | OpenedExpl | Closed =>
          ReleaseAll(zid);
          ChangeState(zid, Full);
        case Empty =>
          ChangeState(zid, Full);
        case Full =>
        case _ =>
          status := InvalidTransition;
      }
      assert zones[..] == zs[zid := z];
      ZoneMoves(zs, logs, acquired, zid, z, logs[zid], acquiredCnt);
    }

    /** What opening an empty zone takes, apart from the OPEN resource itself. */
    method ClaimEmpty(zid: nat, zrwa: bool) returns (status: Status)
      requires zid < zones.Length && forall r :: r in acquiredCnt && acquiredCnt[r] <= totalCnt(r)
      modifies this`acquiredCnt, zones
      ensures status ==
              if old(acquiredCnt)[ACTIVE_ZONE] == totalCnt(ACTIVE_ZONE) then NoActiveZone
              else if old(acquiredCnt)[OPEN_ZONE] == totalCnt(OPEN_ZONE) then NoOpenZone
              else if zrwa && old(acquiredCnt)[ZRWA_ZONE] == totalCnt(ZRWA_ZONE) then ZrwaUnavailable
              else Success
      ensures status != Success ==> acquiredCnt == old(acquiredCnt) && zones[..] == old(zones[..])
      ensures status == Success ==>
                && (forall r :: r in acquiredCnt && acquiredCnt[r] <= totalCnt(r))
                && (forall r :: acquiredCnt[r] == old(acquiredCnt)[r] +
                      if r == ACTIVE_ZONE || (r == ZRWA_ZONE && zrwa) then 1 else 0)
                && zones[..] == old(zones[..])[zid := old(zones[zid]).(zrwav := zrwa || old(zones[zid].zrwav))]
    {
      if IsFull(ACTIVE_ZONE) {
        return NoActiveZone;
      }
      if IsFull(OPEN_ZONE) {
        return NoOpenZone;
      }
      if zrwa {
        if IsFull(ZRWA_ZONE) {
          return ZrwaUnavailable;
        }
        var granted := Acquire(ZRWA_ZONE);
        zones[zid] := zones[zid].(zrwav := true);
      }
      var granted := Acquire(ACTIVE_ZONE);
      status := Success;
    }

    /** What opening a zone takes, whatever its state. */
    method Claim(zid: nat, zrwa: bool) returns (status: Status)
      requires zid < zones.Length && forall r :: r in acquiredCnt && acquiredCnt[r] <= totalCnt(r)
      modifies this`acquiredCnt, zones
      ensures var z, was := old(zones[zid]), old(acquiredCnt);
              && (z.state.Empty? ==>
                    status == if !Has(was, ACTIVE_ZONE) then NoActiveZone
                              else if !Has(was, OPEN_ZONE) then NoOpenZone
                              else if zrwa && !Has(was, ZRWA_ZONE) then ZrwaUnavailable else Success)
              && (z.state.Closed? ==> status == if Has(was, OPEN_ZONE) then Success else NoOpenZone)
              && (!z.state.Empty? && !z.state.Closed? ==> status == Success)
              && (status != Success ==> zones[..] == old(zones[..]) && acquiredCnt == was)
              && (status == Success ==>
                    && (forall r :: r in acquiredCnt && acquiredCnt[r] <= totalCnt(r))
                    && Counted(was, if z.state.Empty? || z.state.Closed? then 1 else 0, if z.state.Empty? then 1 else 0,
                               if z.state.Empty? && zrwa then 1 else 0)
                    && zones[..] == old(zones[..])[zid := z.(zrwav := z.zrwav || (z.state.Empty? && zrwa))])
    {
      var state := zones[zid].state;
      ghost var z := zones[zid];
      status := Success;
      if state.Empty? {
        status := ClaimEmpty(zid, zrwa);
        if status != Success {
          return;
        }
      }
      if state.Empty? || state.Closed? {
        var granted := Acquire(OPEN_ZONE);
        if !granted {
          return NoOpenZone;
        }
      }
    }

    method Open(zid: nat, zrwa: bool) returns (status: Status)
      requires Valid() && zid < zones.Length
      modifies this`acquiredCnt, zones
      ensures Valid() && Did(old(zones[..]), zid, OpenZone(zrwa), status)
      ensures var z, was := old(zones[zid]), old(acquiredCnt);
              && (status == Success <==>
                    || z.Open()
                    || (z.state.Closed? && Has(was, OPEN_ZONE))
                    || (z.state.Empty? && Has(was, ACTIVE_ZONE) && Has(was, OPEN_ZONE)
                        && (zrwa ==> Has(was, ZRWA_ZONE))))
              && (status != Success ==> zones[..] == old(zones[..]) && Counted(was, 0, 0, 0))
              && (status == Success ==>
                    var zrwav := z.zrwav || (z.state.Empty? && zrwa);
                    && zones[..] == old(zones[..])[zid := z.(state := OpenedExpl, zrwav := zrwav)]
                    && Counted(was, if z.Open() then 0 else 1, if z.Active() then 0 else 1,
                               if z.state.Empty? && zrwa then 1 else 0))
    {
      hide Inv, Tiles, Count, Spare, Managed;
      ghost var zs, acquired := zones[..], acquiredCnt;
      ZoneFacts(zs, logs, acquired, zid);
      OpenCases(zs, zid, zrwa);
      var state := zones[zid].state;
      status := Claim(zid, zrwa);
      if status != Success {
        return;
      }
      if state.Empty? || state.Closed? || state.OpenedImpl? {
        ChangeState(zid, OpenedExpl);
      } else if !state.OpenedExpl? {
        status := InvalidTransition;
      }
      ghost var z := Managed(zs[zid], OpenZone(zrwa), zs, totalCnt).0;
      assert zones[..] == zs[zid := z];
      ZoneMoves(zs, logs, acquired, zid, z, logs[zid], acquiredCnt);
    }

    lemma OpenCases(zs: seq<Zone>, zid: nat, zrwa: bool)
      requires zid < |zs|
      ensures var z, m := zs[zid], Managed(zs[zid], OpenZone(zrwa), zs, totalCnt);
              && (m.1 != Success ==> m.0 == z)
              && (z.state.Empty? ==>
                    m.1 == if !Spare(zs, totalCnt, ACTIVE_ZONE) then NoActiveZone
                           else if !Spare(zs, totalCnt, OPEN_ZONE) then NoOpenZone
                           else if zrwa && !Spare(zs, totalCnt, ZRWA_ZONE) then ZrwaUnavailable else Success)
              && (z.state.Closed? ==> m.1 == if Spare(zs, totalCnt, OPEN_ZONE) then Success else NoOpenZone)
              && (z.Open() ==> m.1 == Success)
              && (!z.state.Empty? && !z.Active() ==> m.1 == InvalidTransition)
              && (m.1 == Success ==>
                    m.0 == z.(state := OpenedExpl, zrwav := z.zrwav || (z.state.Empty? && zrwa)))
    {
    }

    /** __reset_zone */
    method Rewind(zid: nat)
      requires zid < zones.Length
      modifies zones
      ensures zones[..] == old(zones[..])[zid := old(zones[zid]).(wp := old(zones[zid]).zslba, zrwav := false)]
    {
      zones[zid] := zones[zid].(wp := zones[zid].zslba, zrwav := false);
    }

    method Reset(zid: nat) returns (status: Status)
      requires Valid() && zid < zones.Length
      modifies this`acquiredCnt, this`logs, zones
      ensures Valid() && Did(old(zones[..]), zid, ResetZone, status)
      ensures logs == if status == Success then old(logs)[zid := []] else old(logs)
      ensures var z := old(zones[zid]);
              && (status == Success <==> !z.state.ReadOnly? && !z.state.Offline?)
              && zones[..] == old(zones[..])[zid := if status == Success
                                                    then z.(state := Empty, wp := z.zslba, zrwav := false) else z]
              && Counted(old(acquiredCnt), if z.Open() then -1 else 0, if z.Active() then -1 else 0,
                         if z.Active() && z.zrwav then -1 else 0)
    {
      hide Inv, Count, Spare;
      ghost var zs, acquired := zones[..], acquiredCnt;
      ZoneFacts(zs, logs, acquired, zid);
      ghost var z := Managed(zones[zid], ResetZone, zs, totalCnt).0;
      match zones[zid].state {
        case OpenedImpl | OpenedExpl | Closed | Full | Empty =>
          status := Success;
        case _ =>
          status := InvalidTransition;
          return;
      }
      ReleaseAll(zid);
      ChangeState(zid, Empty);
      Rewind(zid);
      assert zones[..] == zs[zid := z];
      ZoneMoves(zs, logs, acquired, zid, z, [], acquiredCnt);
      logs := logs[zid := []];
    }

    method TakeOffline(zid: nat) returns (status: Status)
      requires Valid() && zid < zones.Length
      modifies zones
      ensures Valid() && Did(old(zones[..]), zid, OfflineZone, status)
      ensures var z := old(zones[zid]);
              && (status == Success <==> z.state.ReadOnly? || z.state.Offline?)
              && zones[..] == old(zones[..])[zid := if status == Success then z.(state := Offline) else z]
              && Counted(old(acquiredCnt), 0, 0, 0)
    {
      hide Inv, Tiles, Count, Spare;
      ghost var zs, acquired := zones[..], acquiredCnt;
      ZoneFacts(zs, logs, acquired, zid);
      ghost var z := Managed(zones[zid], OfflineZone, zs, totalCnt).0;
      status := Success;
      match zones[zid].state {
        case ReadOnly =>
          ChangeState(zid, Offline);
        case Offline =>
        case _ =>
          status := InvalidTransition;
      }
      assert zones[..] == zs[zid := z];
      ZoneMoves(zs, logs, acquired, zid, z, logs[zid], acquiredCnt);
    }

    /** __zmgmt_send for one zone */
    method Manage(zid: nat, a: Action) returns (status: Status)
      requires Valid() && zid < zones.Length
      modifies this`acquiredCnt, this`logs, zones
      ensures Valid() && Did(old(zones[..]), zid, a, status)
      ensures logs == if a.ResetZone? && status == Success then old(logs)[zid := []] else old(logs)
    {
      hide Inv;
      match a {
        case CloseZone => status := Close(zid);
        case FinishZone => status := Finish(zid);
        case OpenZone(zrwa) => status := Open(zid, zrwa);
        case ResetZone => status := Reset(zid);
        case OfflineZone => status := TakeOffline(zid);
      }
    }

    /** zns_zmgmt_send with select_all: the action goes to every zone in turn, whatever its status. */
    method ManageAll(a: Action)
      requires Valid()
      modifies this`acquiredCnt, this`logs, zones
      ensures Valid() && zones[..] == ManagedUpTo(old(zones[..]), a, zones.Length)
    {
      hide Inv, Managed;
      var zid: nat := 0;
      while zid < zones.Length
        invariant zid <= zones.Length && Valid() && zones[..] == ManagedUpTo(old(zones[..]), a, zid)
      {
        var status := Manage(zid, a);
        zid := zid + 1;
      }
    }

    /** The zones after the first `n` have been managed one after the other. */
    ghost function ManagedUpTo(zs: seq<Zone>, a: Action, n: nat): (r: seq<Zone>)
      requires n <= |zs|
      ensures |r| == |zs|
    {
      if n == 0 then zs
      else
        var r := ManagedUpTo(zs, a, n - 1);
        r[n - 1 := Managed(r[n - 1], a, r, totalCnt).0]
    }

    /** Resetting all zones empties every zone that is not read-only or offline and leaves the others alone. */
    lemma {:induction false} ResetAll(zs: seq<Zone>, n: nat, i: nat)
      requires n <= |zs| && i < |zs|
      ensures var z := ManagedUpTo(zs, ResetZone, n)[i];
              if i >= n || zs[i].state.ReadOnly? || zs[i].state.Offline? then z == zs[i]
              else z == zs[i].(state := Empty, wp := zs[i].zslba, zrwav := false)
    {
      if n > 0 {
        ResetAll(zs, n - 1, i);
      }
    }

    // ---------- Writing ----------

    /** The state switch of __zns_write: an empty or closed zone is opened if the resources allow it. */
    method OpenForWrite(zid: nat) returns (status: Status)
      requires Valid() && zid < zones.Length && !zones[zid].zrwav
      modifies this`acquiredCnt, zones
      ensures Valid()
      ensures status == Verdict(old(zones[zid]), old(zones[zid]).wp, true, true, old(zones[..]), totalCnt)
      ensures status != Success ==> zones[..] == old(zones[..]) && acquiredCnt == old(acquiredCnt)
      ensures status == Success ==> zones[..] == old(zones[..])[zid := Opened(old(zones[zid]))]
    {
      hide Inv, Tiles, Count, Spare;
      ghost var zs, acquired := zones[..], acquiredCnt;
      ZoneFacts(zs, logs, acquired, zid);
      var state := zones[zid].state;
      match state {
        case Empty =>
          if IsFull(ACTIVE_ZONE) {
            return NoActiveZone;
          }
          if IsFull(OPEN_ZONE) {
            return NoOpenZone;
          }
          var granted := Acquire(ACTIVE_ZONE);
        case Closed =>
        case OpenedImpl | OpenedExpl =>
          return Success;
        case Full => return FullErr;
        case ReadOnly => return ReadOnlyErr;
        case Offline => return OfflineErr;
      }
      var granted := Acquire(OPEN_ZONE);
      if !granted {
        return NoOpenZone;
      }
      ChangeState(zid, OpenedImpl);
      ZoneMoves(zs, logs, acquired, zid, zones[zid], logs[zid], acquiredCnt);
      status := Success;
    }

    /** __increase_write_ptr: the zone becomes full when its capacity is reached. */
    method IncreaseWritePtr(zid: nat, n: nat)
      requires Valid() && zid < zones.Length && zones[zid].Open() && !zones[zid].zrwav
      requires n > 0 && zones[zid].wp + n <= zones[zid].End()
      modifies this`acquiredCnt, this`logs, zones
      ensures Valid() && zones[..] == old(zones[..])[zid := Written(old(zones[zid]), n)]
      ensures |logs| == |old(logs)| == zones.Length
      ensures logs == old(logs)[zid := old(logs)[zid] + [Extent(old(zones[zid]).wp, n)]]
    {
      hide Inv, Tiles, Count, Spare;
      ghost var zs, acquired, z := zones[..], acquiredCnt, zones[zid];
      ZoneFacts(zs, logs, acquired, zid);
      TilesAppend(logs[zid], z.zslba, z.wp, n);
      var wp := zones[zid].wp + n;
      zones[zid] := zones[zid].(wp := wp);
      if wp == zones[zid].zslba + zones[zid].capacity {
        Release(OPEN_ZONE);
        Release(ACTIVE_ZONE);
        ChangeState(zid, Full);
      }
      assert zones[..] == zs[zid := Written(z, n)];
      ZoneMoves(zs, logs, acquired, zid, Written(z, n), logs[zid] + [Extent(z.wp, n)], acquiredCnt);
      logs := logs[zid := logs[zid] + [Extent(z.wp, n)]];
    }

    function ZoneOf(lba: nat): nat
      requires zoneLbas > 0
    {
      lba / zoneLbas
    }

    /** A write from inside a zone whose last block is in the same zone ends inside the zone. */
    lemma StaysInside(zid: nat, slba: nat, n: nat)
      requires zoneLbas > 0 && n > 0 && zid * zoneLbas <= slba < zid * zoneLbas + zoneLbas
      requires ZoneOf(slba) == ZoneOf(slba + n - 1)
      ensures ZoneOf(slba) == zid && slba + n <= zid * zoneLbas + zoneLbas
    {
      QuotientIs(slba, zid, zoneLbas);
      var last := slba + n - 1;
      assert last == last / zoneLbas * zoneLbas + last % zoneLbas;
    }

    /** __zns_write: a write, or an append, which goes to the write pointer of the zone of its address.  `granted`: the
        write buffer has room; otherwise the command stays in its queue, an append with its address overwritten. */
    method Write(address: nat, n: nat, append: bool, granted: bool) returns (done: bool, status: Status, slba: nat)
      requires Valid() && n > 0 && zoneLbas > 0 && ZoneOf(address) < zones.Length && !zones[ZoneOf(address)].zrwav
      modifies this`acquiredCnt, this`logs, zones
      ensures Valid() && done == granted
      ensures slba == if append then old(zones[ZoneOf(address)].wp) else address
      ensures !done || status != Success ==>
                zones[..] == old(zones[..]) && acquiredCnt == old(acquiredCnt) && logs == old(logs)
      ensures done ==>
                && writeUnit > 0
                && var z, zs := old(zones[ZoneOf(address)]), old(zones[..]);
                   var aligned, inside := n * 512 % writeUnit == 0, ZoneOf(slba) == ZoneOf(slba + n - 1);
                   && status == Verdict(z, slba, aligned, inside, zs, totalCnt)
                   && (status == Success <==> aligned && inside && slba == z.wp && Writable(z, zs, totalCnt))
                   && (status == Boundary <==> aligned && !inside)
                   && (status == InvalidWrite <==> !aligned || (inside && slba != z.wp))
                   && (status == FullErr ==> z.state.Full?) && (status == ReadOnlyErr ==> z.state.ReadOnly?)
                   && (status == OfflineErr ==> z.state.Offline?) && (Scarce(status) ==> !Writable(z, zs, totalCnt))
      ensures done && status == Success ==>
                var zid := ZoneOf(address);
                && slba == old(zones[zid]).wp && slba + n <= old(zones[zid]).End()
                && zones[..] == old(zones[..])[zid := Written(old(zones[zid]), n)]
                && zid < |old(logs)| && logs == old(logs)[zid := old(logs)[zid] + [Extent(slba, n)]]
    {
      hide Inv, Tiles, Count, Spare, Written;
      var zid := ZoneOf(address);
      ZoneFacts(zones[..], logs, acquiredCnt, zid);
      slba := if append then zones[zid].wp else address;
      if !granted {
        return false, Success, slba;
      }
      done := true;
      if n * LBA_SIZE % writeUnit != 0 {
        return true, InvalidWrite, slba;
      }
      if ZoneOf(slba) != ZoneOf(slba + n - 1) {
        return true, Boundary, slba;
      }
      if slba != zones[zid].wp {
        return true, InvalidWrite, slba;
      }
      status := OpenForWrite(zid);
      if status == Success {
        StaysInside(zid, slba, n);
        SameWritten(old(zones[zid]), zones[zid], n);
        IncreaseWritePtr(zid, n);
        assert zones[..] == old(zones[..])[zid := Written(old(zones[zid]), n)];
      }
    }

    /** An append that was held back for want of buffer is offered again with the write pointer as its address: it goes
        to the zone it was meant for exactly if that zone was not written to its end, and else to the one after it. */
    lemma RetriedAppend(zid: nat, z: Zone)
      requires zoneLbas > 0 && ZoneOk(z, zid)
      ensures ZoneOf(z.wp) == zid <==> z.wp < z.End()
      ensures z.wp == z.End() ==> ZoneOf(z.wp) == zid + 1
    {
      if z.wp == z.End() {
        assert (zid + 1) * zoneLbas == zid * zoneLbas + zoneLbas;
        QuotientIs(z.wp, zid + 1, zoneLbas);
      } else {
        QuotientIs(z.wp, zid, zoneLbas);
      }
    }

    /** A written zone is full exactly if its end is reached; else it is open, explicitly only if it was so before. */
    lemma WrittenMeans(z: Zone, n: nat)
      requires z.Open() || z.state.Empty? || z.state.Closed?
      ensures var y := Written(z, n);
              && y.wp == z.wp + n && y.zslba == z.zslba && y.capacity == z.capacity && y.zrwav == z.zrwav
              && (y.state.Full? <==> z.wp + n == z.zslba + z.capacity)
              && (y.state.OpenedExpl? <==> z.state.OpenedExpl? && !y.state.Full?) && (y.state.Full? || y.Open())
    {
    }

    lemma SameWritten(z: Zone, y: Zone, n: nat)
      requires y == Opened(z)
      ensures Written(y, n) == Written(z, n)
    {
    }
  }
}
