/** A namespace striped over several FTL instances: logical page `lpn` is page `lpn / n` of instance `lpn % n`. */
module ConvNamespace {
  import opened Util
  import opened Arith
  import opened Layouts
  import opened Geometry
  import opened FtlState
  import opened FtlCredits
  import opened HostWrite
  import HostRun
  import opened ConvFtl

  datatype Namespace = Namespace(parts: seq<ConvFtl>, secsPerPg: nat)

  /** One instance in good order, with no logical page in use outside `space`. */
  ghost predicate Good(f: ConvFtl, space: set<nat>)
    reads f.Repr()
  {
    f.Coupled() && Inv(f.y, f.st) && Funded(f.y, f.st) && Roomy(f.y, space) && Mapped(f.st) <= space
  }

  ghost function AllRepr(parts: seq<ConvFtl>): set<object> {
    set i, o | 0 <= i < |parts| && o in parts[i].Repr() :: o
  }

  ghost predicate Apart(parts: seq<ConvFtl>) {
    forall i, j :: 0 <= i < |parts| && 0 <= j < |parts| && i != j ==> parts[i].Repr() !! parts[j].Repr()
  }

  ghost predicate AllGood(parts: seq<ConvFtl>, space: set<nat>)
    reads AllRepr(parts)
  {
    forall i :: 0 <= i < |parts| ==> Good(parts[i], space)
  }

  /** All instances are in good order and apart; `space` holds the page numbers in use on any of them. */
  ghost predicate Valid(ns: Namespace, space: set<nat>)
    reads AllRepr(ns.parts)
  {
    ns.parts != [] && 0 < ns.secsPerPg && Apart(ns.parts) && AllGood(ns.parts, space)
  }

  /** The instance that owns a page, and the page's number there. */
  function PartOf(lpn: nat, n: nat): (i: nat)
    requires 0 < n
    ensures i < n
  {
    lpn % n
  }

  function LocalOf(lpn: nat, n: nat): nat
    requires 0 < n
  {
    lpn / n
  }

  /** Pages are dealt out to the instances in turn: the place of a page determines it. */
  lemma Striped(lpn: nat, n: nat)
    requires 0 < n
    ensures LocalOf(lpn, n) * n + PartOf(lpn, n) == lpn
    ensures PartOf(lpn + 1, n) == if PartOf(lpn, n) + 1 == n then 0 else PartOf(lpn, n) + 1
  {
    var i, q := PartOf(lpn, n), LocalOf(lpn, n);
    if i + 1 < n {
      QuotientIs(lpn + 1, q, n);
    } else {
      QuotientIs(lpn + 1, q + 1, n);
    }
  }

  /** What a read of a page of the namespace returns. */
  ghost function Stored(parts: seq<ConvFtl>, lpn: nat): Option<Data>
    requires parts != []
    reads parts
  {
    Reading(parts[PartOf(lpn, |parts|)].st, LocalOf(lpn, |parts|))
  }

  lemma GoodWrite(f: ConvFtl, space: set<nat>, k: nat)
    requires Good(f, space) && k in space
    ensures f.Coupled() && Inv(f.y, f.st) && Funded(f.y, f.st) && k < f.y.pages && Fits(f.y, Mapped(f.st) + {k})
  {
    hide Inv, Funded, ConvFtl.Coupled;
    FitsWithin(f.y, Mapped(f.st), k, space);
  }

  lemma GoodAfter(f: ConvFtl, s: Ftl, space: set<nat>, k: nat, v: Data)
    requires f.Coupled() && Inv(f.y, f.st) && Funded(f.y, f.st)
    requires Roomy(f.y, space) && k in space && Mapped(s) <= space
    requires Wrote(f.y, s, f.st, k, v)
    ensures Good(f, space)
    ensures forall j: nat :: Reading(f.st, j) == if j == k then Some(v) else Reading(s, j)
  {
    hide Inv, Funded, ConvFtl.Coupled, Wrote, Reading;
    WroteMapped(f.y, s, f.st, k, v);
    forall j: nat
      ensures Reading(f.st, j) == if j == k then Some(v) else Reading(s, j)
    {
      WroteReading(f.y, s, f.st, k, v, j);
    }
  }

  /** Writing one page of one instance. */
  method WritePart(f: ConvFtl, policy: Policy, k: nat, now: nat, ghost v: Data, ghost space: set<nat>)
    requires Good(f, space) && k in space && (policy.Cat? ==> policy.param.Ok())
    modifies f.Repr()
    ensures Good(f, space)
    ensures forall j: nat :: Reading(f.st, j) == if j == k then Some(v) else Reading(old(f.st), j)
  {
    hide Inv, Funded, ConvFtl.Coupled, Wrote, Reading, Fits, Layout.Ok, HostRun.HostStep, HostRun.Able;
    GoodWrite(f, space, k);
    ghost var s := f.st;
    f.WritePage(policy, k, now, v);
    GoodAfter(f, s, space, k, v);
  }

  lemma SamePlace(k: nat, lpn: nat, n: nat)
    requires 0 < n
    ensures PartOf(k, n) == PartOf(lpn, n) && LocalOf(k, n) == LocalOf(lpn, n) <==> k == lpn
  {
  }

  /** Writing one page of the namespace leaves every other page of every instance as it was. */
  method WriteOne(ns: Namespace, policy: Policy, lpn: nat, now: nat, ghost v: Data, ghost space: set<nat>)
    requires Valid(ns, space) && LocalOf(lpn, |ns.parts|) in space && (policy.Cat? ==> policy.param.Ok())
    modifies AllRepr(ns.parts)
    ensures Valid(ns, space)
    ensures forall k: nat :: Stored(ns.parts, k) == if k == lpn then Some(v) else old(Stored(ns.parts, k))
  {
    hide Good, Reading, PartOf, LocalOf;
    var i := PartOf(lpn, |ns.parts|);
    var f := ns.parts[i];
    assert forall o :: o in f.Repr() ==> o in AllRepr(ns.parts);
    WritePart(f, policy, LocalOf(lpn, |ns.parts|), now, v, space);
    forall j | 0 <= j < |ns.parts| && j != i
      ensures Good(ns.parts[j], space) && ns.parts[j].st == old(ns.parts[j].st)
    {
      assert ns.parts[j].Repr() !! f.Repr();
      assert ns.parts[j] in ns.parts[j].Repr();
    }
    forall k: nat
      ensures Stored(ns.parts, k) == if k == lpn then Some(v) else old(Stored(ns.parts, k))
    {
      SamePlace(k, lpn, |ns.parts|);
    }
  }

  // ---------- Commands ----------

  /** A write command: where, how much, whether the write buffer takes it, and the data of each page. */
  datatype Command = Command(slba: nat, nrLba: nat, bufferGranted: bool, v: nat -> Data)

  /** Block `b` lies in page `k`. */
  ghost predicate InPage(b: nat, k: nat, secsPerPg: nat) {
    k * secsPerPg <= b < k * secsPerPg + secsPerPg
  }

  /** The command has a block in page `k`. */
  ghost predicate Touches(c: Command, secsPerPg: nat, k: nat) {
    exists b: nat :: c.slba <= b < c.slba + c.nrLba && InPage(b, k, secsPerPg)
  }

  /** Commands with a page past the physical range of its instance, or without write buffer, are refused. */
  ghost predicate Accepts(ns: Namespace, c: Command)
    requires ns.parts != []
  {
    c.bufferGranted
    && forall k: nat :: Touches(c, ns.secsPerPg, k) ==> LocalOf(k, |ns.parts|) < ns.parts[0].g.TtPgs()
  }

  /** The pages an accepted command writes are pages that were reckoned with. */
  ghost predicate Reckoned(ns: Namespace, c: Command, space: set<nat>)
    requires ns.parts != []
  {
    Accepts(ns, c) ==> forall k: nat :: Touches(c, ns.secsPerPg, k) ==> LocalOf(k, |ns.parts|) in space
  }

  /** Dividing the first and the last block by the page size gives the first and the last page touched. */
  lemma TouchedPages(c: Command, secsPerPg: nat, k: nat)
    requires secsPerPg > 0 && c.nrLba > 0
    ensures Touches(c, secsPerPg, k) <==> c.slba / secsPerPg <= k <= (c.slba + c.nrLba - 1) / secsPerPg
  {
    hide InPage;
    var last := c.slba + c.nrLba - 1;
    if b: nat :| c.slba <= b < c.slba + c.nrLba && InPage(b, k, secsPerPg) {
      PageOf(b, k, secsPerPg);
      DivMono(c.slba, b, secsPerPg);
      DivMono(b, last, secsPerPg);
    }
    if c.slba / secsPerPg <= k <= last / secsPerPg {
      var b := BlockIn(c.slba, last, k, secsPerPg);
      assert InPage(b, k, secsPerPg);
    }
  }

  lemma PageOf(b: nat, k: nat, secsPerPg: nat)
    requires secsPerPg > 0 && InPage(b, k, secsPerPg)
    ensures b / secsPerPg == k
  {
    QuotientIs(b, k, secsPerPg);
  }

  lemma BlockIn(first: nat, last: nat, k: nat, secsPerPg: nat) returns (b: nat)
    requires secsPerPg > 0 && first <= last && first / secsPerPg <= k <= last / secsPerPg
    ensures first <= b <= last && InPage(b, k, secsPerPg)
  {
    b := if first <= k * secsPerPg then k * secsPerPg else first;
    Divides(first, secsPerPg);
    Divides(last, secsPerPg);
    MulLe(first / secsPerPg + 1, k + 1, secsPerPg);
    MulLe(k, last / secsPerPg, secsPerPg);
  }

  /** The device compares the last page only. */
  lemma LastInRange(ns: Namespace, c: Command)
    requires ns.parts != [] && ns.secsPerPg > 0 && c.nrLba > 0
    ensures Accepts(ns, c) <==>
            c.bufferGranted
            && LocalOf((c.slba + c.nrLba - 1) / ns.secsPerPg, |ns.parts|) < ns.parts[0].g.TtPgs()
  {
    hide Touches, Geo.TtPgs;
    var last := (c.slba + c.nrLba - 1) / ns.secsPerPg;
    DivMono(c.slba, c.slba + c.nrLba - 1, ns.secsPerPg);
    TouchedPages(c, ns.secsPerPg, last);
    forall k: nat | Touches(c, ns.secsPerPg, k)
      ensures LocalOf(k, |ns.parts|) <= LocalOf(last, |ns.parts|)
    {
      TouchedPages(c, ns.secsPerPg, k);
      DivMono(k, last, |ns.parts|);
    }
  }

  /** conv_write: every page in which the command has a block is written, in order, at the instance that owns it; no
      other page changes. */
  method Write(ns: Namespace, c: Command, policy: nat -> Policy, now: nat -> nat, ghost space: set<nat>)
      returns (ok: bool)
    requires Valid(ns, space) && 0 < c.nrLba && Reckoned(ns, c, space)
    requires forall k :: policy(k).Cat? ==> policy(k).param.Ok()
    modifies AllRepr(ns.parts)
    ensures Valid(ns, space) && ok == Accepts(ns, c)
    ensures forall k: nat :: Stored(ns.parts, k) ==
              if ok && Touches(c, ns.secsPerPg, k) then Some(c.v(k)) else old(Stored(ns.parts, k))
  {
    hide AllGood, Apart, Stored, Geo.TtPgs, Touches, Accepts;
    LastInRange(ns, c);
    if Accepts(ns, c) {
      ReckonedAll(ns, c, space);
    }
    var startLpn: nat := c.slba / ns.secsPerPg;
    var endLpn: nat := (c.slba + c.nrLba - 1) / ns.secsPerPg;
    DivMono(c.slba, c.slba + c.nrLba - 1, ns.secsPerPg);
    if LocalOf(endLpn, |ns.parts|) >= ns.parts[0].g.TtPgs() {
      return false;
    }
    if !c.bufferGranted {
      return false;
    }
    var lpn: nat := startLpn;
    while lpn <= endLpn
      invariant startLpn <= lpn <= endLpn + 1
      invariant Valid(ns, space)
      invariant forall k: nat :: Stored(ns.parts, k) ==
                  if startLpn <= k < lpn then Some(c.v(k)) else old(Stored(ns.parts, k))
    {
      WriteOne(ns, policy(lpn), lpn, now(lpn), c.v(lpn), space);
      lpn := lpn + 1;
    }
    ok := true;
    forall k: nat
      ensures Touches(c, ns.secsPerPg, k) <==> startLpn <= k <= endLpn
    {
      TouchedPages(c, ns.secsPerPg, k);
    }
  }

  lemma ReckonedAll(ns: Namespace, c: Command, space: set<nat>)
    requires ns.parts != [] && ns.secsPerPg > 0 && c.nrLba > 0 && Reckoned(ns, c, space) && Accepts(ns, c)
    ensures forall k: nat :: c.slba / ns.secsPerPg <= k <= (c.slba + c.nrLba - 1) / ns.secsPerPg ==>
              LocalOf(k, |ns.parts|) in space
  {
    hide Touches, LocalOf, Accepts;
    forall k: nat | c.slba / ns.secsPerPg <= k <= (c.slba + c.nrLba - 1) / ns.secsPerPg
      ensures LocalOf(k, |ns.parts|) in space
    {
      TouchedPages(c, ns.secsPerPg, k);
    }
  }

  /** What the last accepted command among `cs` with a block in page `k` stored there, or `before` if there was none. */
  ghost function LastStored(ns: Namespace, cs: seq<Command>, k: nat, before: Option<Data>): Option<Data>
    requires ns.parts != []
  {
    if cs == [] then before
    else
      var c := cs[|cs| - 1];
      if Accepts(ns, c) && Touches(c, ns.secsPerPg, k) then Some(c.v(k))
      else LastStored(ns, cs[..|cs| - 1], k, before)
  }

  /** The write commands of a submission queue, one after the other: whatever collections they entail on whichever
      instance, every page holds what the last accepted command stored there. */
  method Serve(ns: Namespace, cs: seq<Command>, policy: (nat, nat) -> Policy, now: (nat, nat) -> nat,
               ghost space: set<nat>)
    requires Valid(ns, space) && forall c :: c in cs ==> c.nrLba > 0 && Reckoned(ns, c, space)
    requires forall i, k :: policy(i, k).Cat? ==> policy(i, k).param.Ok()
    modifies AllRepr(ns.parts)
    ensures Valid(ns, space)
    ensures forall k: nat :: Stored(ns.parts, k) == LastStored(ns, cs, k, old(Stored(ns.parts, k)))
  {
    hide Valid, Stored, Accepts, Touches, Reckoned;
    ValidFacts(ns, space);
    var i: nat := 0;
    while i < |cs|
      invariant i <= |cs| && Valid(ns, space)
      invariant forall k: nat :: Stored(ns.parts, k) == LastStored(ns, cs[..i], k, old(Stored(ns.parts, k)))
    {
      assert cs[i] in cs;
      assert cs[..i + 1][..i] == cs[..i];
      var ok := Write(ns, cs[i], (k: nat) => policy(i, k), (k: nat) => now(i, k), space);
      i := i + 1;
    }
    assert cs[..|cs|] == cs;
  }

  lemma ValidFacts(ns: Namespace, space: set<nat>)
    requires Valid(ns, space)
    ensures ns.parts != [] && ns.secsPerPg > 0
  {
  }

  // ---------- Logical size ----------

  const PAGE_SIZE: nat := 4096
  const PBA_PERCENT: nat := 107

  /** The size that a namespace over `size` bytes of flash announces keeps the page numbers on all of its `n` instances,
      of `t` lines of `l` pages each, in a space that leaves four lines over, if there are 62 lines or more. */
  lemma LogicalSizeFits(t: nat, l: nat, n: nat, size: nat, lpn: nat)
    requires n > 0 && t >= 62 && l >= 18
    requires size <= n * (t * l) * PAGE_SIZE && lpn * PAGE_SIZE < size * 100 / PBA_PERCENT
    ensures (t - 4) * l > 0 && LocalOf(lpn, n) in Below((t - 4) * l - 1)
  {
    var m := t * l;
    assert n * (t * l) == n * m;
    LocalBelow(lpn, n, m);
    MulLe(62, t, l);
    assert (t - 4) * l == m - 4 * l by { Times(t, l); }
  }

  lemma Times(t: nat, l: nat)
    ensures (t - 4) * l == t * l - 4 * l
  {
  }

  lemma LocalBelow(lpn: nat, n: nat, m: nat)
    requires n > 0 && lpn * PBA_PERCENT < n * m * 100
    ensures LocalOf(lpn, n) * PBA_PERCENT < m * 100
  {
    var q := LocalOf(lpn, n);
    assert q * n <= lpn;
    assert q * PBA_PERCENT * n == q * n * PBA_PERCENT < m * 100 * n;
    if q * PBA_PERCENT >= m * 100 {
      MulLe(m * 100, q * PBA_PERCENT, n);
    }
  }

  // ---------- Initialisation ----------

  /** conv_init_namespace: `n` fresh instances of one geometry.  They are in good order for every logical space that
      leaves four lines over, and nothing is stored. */
  method Init(g: Geo, n: nat, secsPerPg: nat, ghost space: set<nat>) returns (ns: Namespace)
    requires g.Ok() && g.ttLines >= 2 && n > 0 && secsPerPg > 0
    requires (g.ttLines - 3) * g.PgsPerLine() >= 2
    requires |space| < (g.ttLines - 4) * g.PgsPerLine() && forall k :: k in space ==> k < g.TtPgs()
    ensures |ns.parts| == n && ns.secsPerPg == secsPerPg && fresh(AllRepr(ns.parts)) && Valid(ns, space)
    ensures forall k: nat :: Stored(ns.parts, k) == None
    ensures forall i :: 0 <= i < n ==> ns.parts[i].g == g
  {
    hide Good, Stored, Reading, Geo.TtPgs, Geo.PgsPerLine, Apart, Blank;
    var parts: seq<ConvFtl> := [];
    NoParts(space);
    while |parts| < n
      invariant |parts| <= n && fresh(AllRepr(parts)) && Apart(parts) && AllGood(parts, space)
      invariant forall i :: 0 <= i < |parts| ==> parts[i].g == g && Blank(parts[i])
    {
      ghost var before := AllRepr(parts);
      assert AllGood(parts, space);
      var f := InitPart(g, space);
      assert before !! f.Repr();
      OneMore(parts, f, space);
      parts := parts + [f];
    }
    ns := Namespace(parts, secsPerPg);
    forall k: nat
      ensures Stored(parts, k) == None
    {
      StoredBlank(parts, k);
    }
  }

  /** One fresh instance. */
  method InitPart(g: Geo, ghost space: set<nat>) returns (f: ConvFtl)
    requires g.Ok() && g.ttLines >= 2 && (g.ttLines - 3) * g.PgsPerLine() >= 2
    requires |space| < (g.ttLines - 4) * g.PgsPerLine() && forall k :: k in space ==> k < g.TtPgs()
    ensures fresh(f.Repr()) && Good(f, space) && Blank(f) && f.g == g
  {
    hide Good, Inv, Funded, Reading, Geo.TtPgs, Geo.PgsPerLine, ConvFtl.Coupled, Blank, Layout.Ok, Geo.Ok;
    f := new ConvFtl(g);
    FreshGood(f, space);
  }

  lemma NoParts(space: set<nat>)
    ensures AllRepr([]) == {} && Apart([]) && AllGood([], space)
  {
  }

  lemma OneMore(parts: seq<ConvFtl>, f: ConvFtl, space: set<nat>)
    requires Apart(parts) && AllGood(parts, space) && Good(f, space) && AllRepr(parts) !! f.Repr()
    ensures AllRepr(parts + [f]) == AllRepr(parts) + f.Repr()
    ensures Apart(parts + [f]) && AllGood(parts + [f], space)
  {
    hide Good, ConvFtl.Repr;
    var more := parts + [f];
    assert forall i :: 0 <= i < |parts| ==> more[i] == parts[i];
    assert more[|parts|] == f;
    forall o | o in AllRepr(parts) + f.Repr()
      ensures o in AllRepr(more)
    {
      if o in AllRepr(parts) {
        var i :| 0 <= i < |parts| && o in parts[i].Repr();
        assert o in more[i].Repr();
      } else {
        assert o in more[|parts|].Repr();
      }
    }
    forall i | 0 <= i < |parts|
      ensures parts[i].Repr() <= AllRepr(parts)
    {
    }
  }

  ghost predicate Blank(f: ConvFtl)
    reads f
  {
    forall k: nat :: Reading(f.st, k) == None
  }

  lemma StoredBlank(parts: seq<ConvFtl>, k: nat)
    requires parts != [] && forall i :: 0 <= i < |parts| ==> Blank(parts[i])
    ensures Stored(parts, k) == None
  {
  }

  lemma FreshGood(f: ConvFtl, space: set<nat>)
    requires f.Coupled() && f.g.ttLines >= 2 && f.st == InitialState(f.y) && Inv(f.y, f.st)
    requires Funded(f.y, f.st) <==> (f.g.ttLines - 3) * f.g.PgsPerLine() >= 2
    requires (f.g.ttLines - 3) * f.g.PgsPerLine() >= 2
    requires |space| < (f.g.ttLines - 4) * f.g.PgsPerLine() && forall k :: k in space ==> k < f.g.TtPgs()
    ensures Good(f, space) && Blank(f)
  {
    hide Inv, Funded, Geo.PgsPerLine, Geo.TtPgs, Layout.Ok;
    CoupledLays(f);
    LaysOk(f.g, f.y);
    assert Mapped(f.st) == {};
  }

  lemma CoupledLays(f: ConvFtl)
    requires f.Coupled()
    ensures Lays(f.g, f.y)
  {
  }
}
