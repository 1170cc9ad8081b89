/** An unbounded timeline of bandwidth credits: every slot starts with the same number, and every grant takes its
    credits first-fit from its own slot on. */
module Timeline {

  /** `need` credits, taken from slot `from` on. */
  datatype Grant = Grant(from: nat, need: nat)

  /** What one grant takes out of slot `s`, if `before` credits are left in the slots from its own up to `s`. */
  ghost function Share(g: Grant, before: nat, here: nat): (r: nat)
    ensures r <= here
  {
    if g.need <= before then 0
    else if g.need - before <= here then g.need - before
    else here
  }

  /** Credits left in slot `s` after the grants `h`. */
  ghost function Left(h: seq<Grant>, max: nat, s: nat): (r: nat)
    ensures r <= max
    decreases |h|, 0, 0
  {
    if h == [] then max
    else
      var g, rest := h[|h| - 1], h[..|h| - 1];
      if s < g.from then Left(rest, max, s)
      else Left(rest, max, s) - Share(g, Total(rest, max, g.from, s), Left(rest, max, s))
  }

  /** Credits left in the slots from `lo` up to, but without, `hi`. */
  ghost function Total(h: seq<Grant>, max: nat, lo: nat, hi: nat): nat
    decreases |h|, 1, hi
  {
    if hi <= lo then 0 else Total(h, max, lo, hi - 1) + Left(h, max, hi - 1)
  }

  lemma {:induction false} TotalMono(h: seq<Grant>, max: nat, lo: nat, a: nat, b: nat)
    requires a <= b
    ensures Total(h, max, lo, a) <= Total(h, max, lo, b)
    decreases b
  {
    if a < b {
      TotalMono(h, max, lo, a, b - 1);
    }
  }

  lemma LeftAfter(h: seq<Grant>, max: nat, g: Grant, s: nat)
    ensures Left(h + [g], max, s) ==
            if s < g.from then Left(h, max, s)
            else Left(h, max, s) - Share(g, Total(h, max, g.from, s), Left(h, max, s))
  {
    assert (h + [g])[..|h|] == h;
  }

  /** A grant that ends in slot `e` empties the slots before `e`, takes the rest from `e`, and touches no other. */
  lemma GrantShape(h: seq<Grant>, max: nat, g: Grant, e: nat, s: nat)
    requires g.from <= e && Total(h, max, g.from, e) <= g.need <= Total(h, max, g.from, e + 1)
    ensures Left(h + [g], max, s) ==
            if s < g.from || s > e then Left(h, max, s)
            else if s < e then 0
            else Left(h, max, e) - (g.need - Total(h, max, g.from, e))
  {
    LeftAfter(h, max, g, s);
    if g.from <= s < e {
      TotalMono(h, max, g.from, s + 1, e);
    } else if e < s {
      TotalMono(h, max, g.from, e + 1, s);
    }
  }

  /** First fit: a grant that takes credits from slot `s` leaves none in the slots between its own and `s`. */
  lemma FirstFit(h: seq<Grant>, max: nat, g: Grant, r: nat, s: nat)
    requires g.from <= r < s && Left(h + [g], max, s) < Left(h, max, s)
    ensures Left(h + [g], max, r) == 0
  {
    LeftAfter(h, max, g, s);
    LeftAfter(h, max, g, r);
    TotalMono(h, max, g.from, r + 1, s);
  }

  // ---------- Conservation ----------

  /** Credits that the grants have taken out of the slots below `n`. */
  ghost function Used(h: seq<Grant>, max: nat, n: nat): nat {
    if n == 0 then 0 else Used(h, max, n - 1) + (max - Left(h, max, n - 1))
  }

  ghost function Needs(h: seq<Grant>): nat {
    if h == [] then 0 else Needs(h[..|h| - 1]) + h[|h| - 1].need
  }

  /** Every grant found its credits below slot `n`. */
  ghost predicate Served(h: seq<Grant>, max: nat, n: nat) {
    h == [] ||
    (var g, rest := h[|h| - 1], h[..|h| - 1];
     Served(rest, max, n) && g.need <= Total(rest, max, g.from, n))
  }

  lemma {:induction false} UsedAfter(h: seq<Grant>, max: nat, g: Grant, n: nat)
    ensures Used(h + [g], max, n) ==
            Used(h, max, n) + if g.need <= Total(h, max, g.from, n) then g.need else Total(h, max, g.from, n)
  {
    if n > 0 {
      UsedAfter(h, max, g, n - 1);
      LeftAfter(h, max, g, n - 1);
    }
  }

  lemma {:induction false} NothingUsed(max: nat, n: nat)
    ensures Used([], max, n) == 0
  {
    if n > 0 {
      NothingUsed(max, n - 1);
    }
  }

  /** No credit is lost and none is invented: what the slots have given is what the grants have asked for. */
  lemma {:induction false} Conservation(h: seq<Grant>, max: nat, n: nat)
    requires Served(h, max, n)
    ensures Used(h, max, n) == Needs(h)
  {
    if h == [] {
      NothingUsed(max, n);
    } else {
      var g, rest := h[|h| - 1], h[..|h| - 1];
      Conservation(rest, max, n);
      UsedAfter(rest, max, g, n);
      assert rest + [g] == h;
    }
  }

  lemma {:induction false} ServedLater(h: seq<Grant>, max: nat, m: nat, n: nat)
    requires Served(h, max, m) && m <= n
    ensures Served(h, max, n)
  {
    if h != [] {
      var g, rest := h[|h| - 1], h[..|h| - 1];
      ServedLater(rest, max, m, n);
      TotalMono(rest, max, g.from, m, n);
    }
  }

  lemma ServedAfter(h: seq<Grant>, max: nat, g: Grant, m: nat, n: nat)
    requires Served(h, max, m) && m <= n && g.need <= Total(h, max, g.from, n)
    ensures Served(h + [g], max, n)
  {
    ServedLater(h, max, m, n);
    assert (h + [g])[..|h|] == h;
  }
}
