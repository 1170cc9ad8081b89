/** Valid/invalid page counters kept per group of pages (a block or a line) and the page statuses they count. */
module Counts {
  import opened Layouts

  datatype PgStatus = PgFree | PgInvalid | PgValid

  ghost function PagesOf(tags: seq<nat>, st: seq<PgStatus>, t: nat, k: PgStatus): set<nat>
    requires |tags| == |st|
  {
    set x: nat | x < |tags| && tags[x] == t && st[x] == k
  }

  ghost predicate Counted(tags: seq<nat>, st: seq<PgStatus>, n: nat, vpc: seq<nat>, ipc: seq<nat>) {
    && |tags| == |st|
    && |vpc| == |ipc| == n
    && (forall x :: 0 <= x < |tags| ==> tags[x] < n)
    && (forall t :: 0 <= t < n ==> vpc[t] == |PagesOf(tags, st, t, PgValid)|)
    && (forall t :: 0 <= t < n ==> ipc[t] == |PagesOf(tags, st, t, PgInvalid)|)
  }

  lemma CountInvalidate(tags: seq<nat>, st: seq<PgStatus>, n: nat, vpc: seq<nat>, ipc: seq<nat>, x: nat)
    requires Counted(tags, st, n, vpc, ipc)
    requires x < |st| && st[x] == PgValid
    ensures vpc[tags[x]] > 0
    ensures Counted(tags, st[x := PgInvalid], n, vpc[tags[x] := vpc[tags[x]] - 1], ipc[tags[x] := ipc[tags[x]] + 1])
  {
    assert x in PagesOf(tags, st, tags[x], PgValid);
    assert x !in PagesOf(tags, st, tags[x], PgInvalid);
    forall t | 0 <= t < n
      ensures PagesOf(tags, st[x := PgInvalid], t, PgValid) ==
              if t == tags[x] then PagesOf(tags, st, t, PgValid) - {x} else PagesOf(tags, st, t, PgValid)
      ensures PagesOf(tags, st[x := PgInvalid], t, PgInvalid) ==
              if t == tags[x] then PagesOf(tags, st, t, PgInvalid) + {x} else PagesOf(tags, st, t, PgInvalid)
    {
    }
  }

  lemma CountProgram(tags: seq<nat>, st: seq<PgStatus>, n: nat, vpc: seq<nat>, ipc: seq<nat>, x: nat)
    requires Counted(tags, st, n, vpc, ipc)
    requires x < |st| && st[x] == PgFree
    ensures Counted(tags, st[x := PgValid], n, vpc[tags[x] := vpc[tags[x]] + 1], ipc)
  {
    assert x !in PagesOf(tags, st, tags[x], PgValid);
    forall t | 0 <= t < n
      ensures PagesOf(tags, st[x := PgValid], t, PgValid) ==
              if t == tags[x] then PagesOf(tags, st, t, PgValid) + {x} else PagesOf(tags, st, t, PgValid)
      ensures PagesOf(tags, st[x := PgValid], t, PgInvalid) == PagesOf(tags, st, t, PgInvalid)
    {
    }
  }

  /** Erasing whole groups: their pages become free and their counters zero. */
  lemma CountErase(tags: seq<nat>, st: seq<PgStatus>, n: nat, vpc: seq<nat>, ipc: seq<nat>,
                   gone: set<nat>, st2: seq<PgStatus>, vpc2: seq<nat>, ipc2: seq<nat>)
    requires Counted(tags, st, n, vpc, ipc)
    requires |st2| == |st| && |vpc2| == |ipc2| == n
    requires forall x :: 0 <= x < |st| ==> st2[x] == if tags[x] in gone then PgFree else st[x]
    requires forall t :: 0 <= t < n ==> vpc2[t] == (if t in gone then 0 else vpc[t])
    requires forall t :: 0 <= t < n ==> ipc2[t] == (if t in gone then 0 else ipc[t])
    ensures Counted(tags, st2, n, vpc2, ipc2)
  {
    forall t, k | 0 <= t < n && k != PgFree
      ensures PagesOf(tags, st2, t, k) == if t in gone then {} else PagesOf(tags, st, t, k)
    {
      if t in gone {
        assert PagesOf(tags, st2, t, k) == {};
      } else {
        assert PagesOf(tags, st2, t, k) == PagesOf(tags, st, t, k);
      }
    }
  }

  /** The counters never exceed the group's size, and stay below it while a page can still change. */
  lemma CountBounds(tags: seq<nat>, st: seq<PgStatus>, n: nat, vpc: seq<nat>, ipc: seq<nat>, cap: nat, x: nat)
    requires Counted(tags, st, n, vpc, ipc)
    requires TagsBounded(tags, n, cap)
    requires x < |st|
    ensures vpc[tags[x]] + ipc[tags[x]] <= cap
    ensures st[x] == PgValid ==> ipc[tags[x]] < cap
    ensures st[x] == PgFree ==> vpc[tags[x]] < cap
  {
    var t := tags[x];
    var v, i := PagesOf(tags, st, t, PgValid), PagesOf(tags, st, t, PgInvalid);
    assert v !! i;
    Subset(v + i, Tagged(tags, t));
    if st[x] != PgInvalid {
      assert x !in i && x in Tagged(tags, t);
      Subset(i + {x}, Tagged(tags, t));
    }
    if st[x] != PgValid {
      assert x !in v && x in Tagged(tags, t);
      Subset(v + {x}, Tagged(tags, t));
    }
  }

  lemma {:induction false} Subset(a: set<nat>, b: set<nat>)
    requires a <= b
    ensures |a| <= |b|
  {
    if a != {} {
      var x :| x in a;
      Subset(a - {x}, b - {x});
    }
  }
}
