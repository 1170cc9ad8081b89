/** Write credits.  The flow control exists so that the free list never runs dry; this module proves that it works. */
module FtlCredits {
  import opened Util
  import opened Layouts
  import opened FtlState
  import opened FtlGc

  const GC_THRES_LINES_HIGH: nat := 2

  /** Host writes left before the next refill are always covered by room, with two lines and two pages to spare. */
  ghost predicate Funded(y: Layout, s: Ftl) {
    && 1 <= s.credits
    && 1 <= s.refill <= y.perLine
    && Reserve(y, s)
  }

  ghost predicate Reserve(y: Layout, s: Ftl) {
    Room(y, s) - s.credits >= 2 * y.perLine + 2
  }

  /** The logical space in use leaves more than four lines of physical space over. */
  ghost predicate Fits(y: Layout, mapped: set<nat>) {
    |mapped| < (y.lines - 4) * y.perLine
  }

  /** The logical pages that will be used leave more than four lines over. */
  ghost predicate Roomy(y: Layout, space: set<nat>) {
    Fits(y, space) && forall k :: k in space ==> k < y.pages
  }

  /** A space that fits has room for any page of it. */
  lemma FitsWithin(y: Layout, mapped: set<nat>, k: nat, space: set<nat>)
    requires Roomy(y, space) && mapped <= space && k in space
    ensures Fits(y, mapped + {k}) && k < y.pages
  {
    SubsetSize(mapped + {k}, space);
  }

  lemma Positive(n: nat, l: nat)
    requires n * l > 0
    ensures n > 0 && l > 0
  {
  }

  /** A funded host write that fills its line finds a free line. */
  lemma HostFindsLine(y: Layout, s: Ftl)
    requires Sized(y, s) && Funded(y, s) && s.user.slot + 1 == y.perLine
    ensures s.free != []
  {
    hide Layout.Ok;
    Positive(|s.free|, y.perLine);
  }

  /** Even with all credits spent there is a free line for the collector. */
  lemma CollectorFindsLine(y: Layout, s: Ftl)
    requires Sized(y, s) && Reserve(y, s)
    ensures s.free != []
  {
    hide Layout.Ok;
    Positive(|s.free|, y.perLine);
  }

  lemma NoVictimPlaces(n: nat, p: Places)
    requires p.Partition(n) && p.victims == {} && |p.free| <= GC_THRES_LINES_HIGH
    ensures |p.full| >= n - 4 && NoDup(p.full) && forall l :: l in p.full ==> l < n
  {
  }

  lemma MulMono(a: int, b: int, c: nat)
    requires a >= b
    ensures a * c >= b * c
  {
  }

  /** With no victim in the queue, every closed line is full of mapped pages. */
  lemma NoVictimMapped(y: Layout, s: Ftl)
    requires Inv(y, s) && s.victims == {} && |s.free| <= GC_THRES_LINES_HIGH
    ensures |Mapped(s)| >= (y.lines - 4) * y.perLine
  {
    NoVictimPlaces(y.lines, PlacesOf(s));
    assert forall l :: l in s.full ==> l < y.lines && s.vpc[l] == y.perLine;
    hide Inv, MapsAgree, CountersAgree, Placed, LinesAgree, Layout.Ok;
    SumAtLeast(s.vpc, s.full, y.perLine);
    MulMono(|s.full|, y.lines - 4, y.perLine);
  }

  /** When so few lines are free that a collection is forced, some closed line holds an invalid page. */
  lemma VictimExists(y: Layout, s: Ftl)
    requires Inv(y, s) && Fits(y, Mapped(s))
    requires |s.free| <= GC_THRES_LINES_HIGH
    ensures s.victims != {}
  {
    hide Inv;
    if s.victims == {} {
      NoVictimMapped(y, s);
    }
  }

  /** A host write spends one credit and one page of room. */
  lemma SpendCredit(y: Layout, s: Ftl, lpn: nat, v: Data)
    requires Sized(y, s) && Funded(y, s) && lpn < y.pages
    requires s.user.slot + 1 == y.perLine ==> s.free != []
    ensures var t := Append(y, s, lpn, v, UserIo); t.credits == s.credits && t.refill == s.refill
    ensures Reserve(y, Append(y, s, lpn, v, UserIo).(credits := s.credits - 1))
  {
    AppendEffect(y, s, lpn, v, UserIo);
    AppendRoom(y, s, lpn, v, UserIo);
    hide Append, Layout.Ok;
  }

  lemma RefillPlenty(y: Layout, s: Ftl)
    requires Sized(y, s) && 1 <= s.refill <= y.perLine && s.credits == 0
    requires |s.free| > GC_THRES_LINES_HIGH
    ensures Funded(y, s.(credits := s.refill))
  {
    hide Layout.Ok;
    assert |s.free| * y.perLine >= 3 * y.perLine;
  }

  /** A collection gives back exactly as many credits as it gains room. */
  lemma RefillCollected(y: Layout, s: Ftl, t: Ftl, gain: nat)
    requires Sized(y, s) && Reserve(y, s) && s.credits == 0
    requires Sized(y, t) && Room(y, t) == Room(y, s) + gain && 1 <= gain <= y.perLine
    ensures Funded(y, t.(credits := gain, refill := gain))
  {
  }

  /** A fresh device is funded exactly when three lines fewer would still hold two pages. */
  lemma InitialFunded(y: Layout)
    requires y.lines >= 2 && y.perLine > 0
    ensures Funded(y, InitialState(y)) <==> (y.lines - 3) * y.perLine >= 2
  {
    var s := InitialState(y);
    assert |s.free| == y.lines - 2;
    assert (y.lines - 2) * y.perLine == (y.lines - 3) * y.perLine + y.perLine;
    if (y.lines - 3) * y.perLine >= 2 {
      assert Room(y, s) - s.credits >= 2 * y.perLine + 2;
    }
  }
}
