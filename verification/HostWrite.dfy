/** One host page write as a state change, and what it keeps. */
module HostWrite {
  import opened Util
  import opened Layouts
  import opened Counts
  import opened FtlState
  import opened FtlGc
  import opened FtlMirror
  import opened FtlCredits

  /** The older copy of `lpn`, if there is one, is marked invalid and its reverse entry cleared. */
  ghost function Superseded(y: Layout, s: Ftl, lpn: nat, now: nat): Ftl
    requires Sized(y, s) && lpn < y.pages
    requires s.maptbl[lpn].Some? ==>
               var x := s.maptbl[lpn].value;
               x < y.pages && s.vpc[y.lineOf[x]] > 0 && s.blkVpc[y.blkOf[x]] > 0
  {
    if s.maptbl[lpn].None? then s
    else
      var x := s.maptbl[lpn].value;
      var t := Invalidate(y, s, x, now);
      t.(rmap := t.rmap[x := None])
  }

  lemma SupersededOk(y: Layout, s: Ftl, lpn: nat)
    requires Inv(y, s) && lpn < y.pages && s.maptbl[lpn].Some?
    ensures var x := s.maptbl[lpn].value;
            x < y.pages && s.status[x] == PgValid && s.vpc[y.lineOf[x]] > 0 && s.blkVpc[y.blkOf[x]] > 0
  {
    hide MapsAgree, CountersAgree, Placed, LinesAgree, Conserved, Layout.Bijective, TagsBounded;
    TrimInv(y, s, lpn, s.maptbl[lpn].value, 0);
    MappedPage(y, s, lpn);
  }

  lemma MappedPage(y: Layout, s: Ftl, lpn: nat)
    requires Sized(y, s) && MapsAgree(s) && lpn < y.pages && s.maptbl[lpn].Some?
    ensures s.maptbl[lpn].value < y.pages && s.status[s.maptbl[lpn].value] == PgValid
  {
  }

  /** Reverse entries of pages that are not live are of no consequence. */
  lemma ClearRmap(y: Layout, s: Ftl, x: nat)
    requires Inv(y, s) && x < y.pages && s.status[x] != PgValid
    ensures Inv(y, s.(rmap := s.rmap[x := None]))
    ensures SameContent(y, s, s.(rmap := s.rmap[x := None]))
  {
    hide Layout.Ok, Counted, Closed, Erased, Places.Partition, Sum;
    var t := s.(rmap := s.rmap[x := None]);
    assert Mapped(t) == Mapped(s);
    assert PlacesOf(t) == PlacesOf(s);
    SameStatus(y, s, t);
  }

  /** The state in which `lpn` is not mapped at all; it differs from the real one in that entry only. */
  ghost function Unmapped(y: Layout, s: Ftl, lpn: nat, now: nat): Ftl
    requires Inv(y, s) && lpn < y.pages
  {
    if s.maptbl[lpn].None? then s
    else
      SupersededOk(y, s, lpn);
      var t := Trim(y, s, lpn, s.maptbl[lpn].value, now);
      t.(rmap := t.rmap[s.maptbl[lpn].value := None])
  }

  lemma UnmappedInv(y: Layout, s: Ftl, lpn: nat, now: nat)
    requires Inv(y, s) && lpn < y.pages
    ensures var u := Unmapped(y, s, lpn, now);
            && Inv(y, u) && u.maptbl == s.maptbl[lpn := None] && u.data == s.data
            && u.free == s.free && u.user == s.user && u.gc == s.gc
            && u.credits == s.credits && u.refill == s.refill && u.stats == s.stats
  {
    hide MapsAgree, CountersAgree, Placed, LinesAgree, Conserved, Layout.Bijective, TagsBounded;
    if s.maptbl[lpn].Some? {
      var x := s.maptbl[lpn].value;
      SupersededOk(y, s, lpn);
      TrimInv(y, s, lpn, x, now);
      TrimEffect(y, s, lpn, x, now);
      ClearRmap(y, Trim(y, s, lpn, x, now), x);
    } else {
      assert s.maptbl[lpn := None] == s.maptbl;
    }
  }

  /** One page write by the host, up to the credit accounting. */
  ghost function Write(y: Layout, s: Ftl, lpn: nat, v: Data, now: nat): Ftl
    requires Inv(y, s) && lpn < y.pages
    requires s.user.slot + 1 == y.perLine ==> s.free != []
  {
    UnmappedInv(y, s, lpn, now);
    Append(y, Unmapped(y, s, lpn, now), lpn, v, UserIo)
  }

  /** Writing over the superseded copy is the same as writing an unmapped page. */
  lemma WriteSame(y: Layout, s: Ftl, lpn: nat, v: Data, now: nat)
    requires Inv(y, s) && lpn < y.pages
    requires s.user.slot + 1 == y.perLine ==> s.free != []
    ensures s.maptbl[lpn].Some? ==>
              var x := s.maptbl[lpn].value; x < y.pages && s.vpc[y.lineOf[x]] > 0 && s.blkVpc[y.blkOf[x]] > 0
    ensures var t := Superseded(y, s, lpn, now);
            && Sized(y, t) && Ready(y, t, UserIo)
            && Append(y, t, lpn, v, UserIo) == Write(y, s, lpn, v, now)
  {
    hide MapsAgree, CountersAgree, Placed, LinesAgree, Conserved, Layout.Bijective, TagsBounded, Ready;
    var u := Unmapped(y, s, lpn, now);
    UnmappedInv(y, s, lpn, now);
    InvReady(y, u, UserIo);
    if s.maptbl[lpn].Some? {
      SupersededOk(y, s, lpn);
      var t := Superseded(y, s, lpn, now);
      assert u == t.(maptbl := u.maptbl);
      AppendOver(y, t, u, lpn, v);
    }
  }

  lemma AppendOver(y: Layout, t: Ftl, u: Ftl, lpn: nat, v: Data)
    requires Sized(y, t) && Sized(y, u) && lpn < y.pages
    requires u == t.(maptbl := t.maptbl[lpn := None]) && Ready(y, u, UserIo)
    ensures Ready(y, t, UserIo)
    ensures Append(y, t, lpn, v, UserIo) == Append(y, u, lpn, v, UserIo)
  {
    hide Layout.Bijective, TagsBounded;
    var z := Target(y, t, UserIo);
    assert t.maptbl[lpn := None][lpn := Some(z)] == t.maptbl[lpn := Some(z)];
  }

  /** What one host write does to the contents: `lpn` now holds `v`, every other logical page is as before. */
  ghost predicate Wrote(y: Layout, s: Ftl, t: Ftl, lpn: nat, v: Data) {
    && Inv(y, s) && Inv(y, t) && lpn < y.pages
    && forall k :: 0 <= k < y.pages ==> Content(t, k) == if k == lpn then Some(v) else Content(s, k)
  }

  lemma WriteInv(y: Layout, s: Ftl, lpn: nat, v: Data, now: nat)
    requires Inv(y, s) && lpn < y.pages
    requires s.user.slot + 1 == y.perLine ==> s.free != []
    ensures var t := Write(y, s, lpn, v, now);
            && Inv(y, t) && Wrote(y, s, t, lpn, v)
            && Mapped(t) == Mapped(s) + {lpn}
            && t.stats == Tally(s.stats, UserIo)
  {
    hide MapsAgree, CountersAgree, Placed, LinesAgree, Conserved, Layout.Bijective, TagsBounded, Wrote, Unmapped,
      Append;
    var u := Unmapped(y, s, lpn, now);
    UnmappedInv(y, s, lpn, now);
    AppendInv(y, u, lpn, v, UserIo);
    AppendEffect(y, u, lpn, v, UserIo);
    var t := Write(y, s, lpn, v, now);
    var z := Target(y, u, UserIo);
    UpdateTwice(s.maptbl, lpn, None, Some(z));
    assert u.status[z] == PgFree by { TargetFree(y, u, UserIo); }
    WroteContent(y, s, u, t, lpn, z, v);
  }

  lemma WroteContent(y: Layout, s: Ftl, u: Ftl, t: Ftl, lpn: nat, z: nat, v: Data)
    requires Inv(y, s) && Inv(y, u) && Inv(y, t) && lpn < y.pages
    requires u.maptbl == s.maptbl[lpn := None] && u.data == s.data
    requires z < y.pages && u.status[z] == PgFree
    requires t.maptbl == s.maptbl[lpn := Some(z)] && t.data == u.data[z := v]
    ensures Wrote(y, s, t, lpn, v)
    ensures Mapped(t) == Mapped(s) + {lpn}
  {
    hide CountersAgree, Placed, LinesAgree, Conserved, Layout.Bijective, TagsBounded;
    forall k | 0 <= k < y.pages
      ensures Content(t, k) == if k == lpn then Some(v) else Content(s, k)
    {
      assert k != lpn && s.maptbl[k].Some? ==> u.maptbl[k].Some? && u.maptbl[k].value != z;
    }
  }

  /** The credit accounting after a host write. */
  lemma WriteFunds(y: Layout, s: Ftl, lpn: nat, v: Data, now: nat)
    requires Inv(y, s) && Funded(y, s) && lpn < y.pages
    ensures s.user.slot + 1 == y.perLine ==> s.free != []
    ensures var t := Write(y, s, lpn, v, now);
            && t.credits == s.credits && t.refill == s.refill
            && Reserve(y, t.(credits := s.credits - 1))
  {
    hide MapsAgree, CountersAgree, Placed, LinesAgree, Conserved, Layout.Bijective, TagsBounded, Unmapped, Append,
      Reserve;
    if s.user.slot + 1 == y.perLine {
      HostFindsLine(y, s);
    }
    var u := Unmapped(y, s, lpn, now);
    UnmappedInv(y, s, lpn, now);
    assert Funded(y, u) by { SameRoom(y, s, u); }
    SpendCredit(y, u, lpn, v);
  }

  lemma SameRoom(y: Layout, s: Ftl, u: Ftl)
    requires u.free == s.free && u.user == s.user && u.gc == s.gc && u.credits == s.credits
    ensures Reserve(y, s) == Reserve(y, u)
  {
  }

  /** Content, for any state and any page. */
  ghost function Reading(s: Ftl, lpn: nat): Option<Data> {
    if lpn < |s.maptbl| && s.maptbl[lpn].Some? && s.maptbl[lpn].value < |s.data| then Some(s.data[s.maptbl[lpn].value])
    else None
  }

  lemma WroteReading(y: Layout, s: Ftl, t: Ftl, lpn: nat, v: Data, k: nat)
    requires Wrote(y, s, t, lpn, v)
    ensures Reading(t, k) == if k == lpn then Some(v) else Reading(s, k)
  {
    hide CountersAgree, Placed, LinesAgree, Conserved, Layout.Ok;
    if k < y.pages {
      assert Content(t, k) == if k == lpn then Some(v) else Content(s, k);
    }
  }

  lemma WroteMapped(y: Layout, s: Ftl, t: Ftl, lpn: nat, v: Data)
    requires Wrote(y, s, t, lpn, v)
    ensures Mapped(t) == Mapped(s) + {lpn}
  {
    hide CountersAgree, Placed, LinesAgree, Conserved, Layout.Ok;
    forall k: nat | k < y.pages
      ensures k in Mapped(t) <==> k in Mapped(s) || k == lpn
    {
      assert Content(t, k) == if k == lpn then Some(v) else Content(s, k);
    }
  }

  // ---------- Whole runs ----------

  datatype PageWrite = PageWrite(lpn: nat, v: Data)

  /** What the last write to `k` among `ws` stored, or `before` if there was none. */
  ghost function LastWrite(ws: seq<PageWrite>, k: nat, before: Option<Data>): Option<Data> {
    if ws == [] then before
    else if ws[|ws| - 1].lpn == k then Some(ws[|ws| - 1].v)
    else LastWrite(ws[..|ws| - 1], k, before)
  }
}
