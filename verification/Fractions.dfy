/** Exact comparison of fractions of 64-bit numbers, and the order of victim lines built on it. */
module Fractions {
  import opened Arith

  const MAX64: nat := 0xFFFF_FFFF_FFFF_FFFF

  function Sign(x: int): int {
    if x < 0 then -1 else if x > 0 then 1 else 0
  }

  /** How an/ad compares with bn/bd. */
  ghost function Cmp(an: nat, ad: nat, bn: nat, bd: nat): int {
    Sign(an * bd - bn * ad)
  }

  lemma CmpSign(an: nat, ad: nat, bn: nat, bd: nat)
    ensures Cmp(an, ad, bn, bd) < 0 <==> an * bd < bn * ad
    ensures Cmp(an, ad, bn, bd) > 0 <==> an * bd > bn * ad
  {
  }

  lemma MulLt(a: int, b: int, n: nat)
    requires a < b && n > 0
    ensures a * n < b * n
  {
  }

  lemma MulLeCancel(a: int, b: int, n: nat)
    requires a * n <= b * n && n > 0
    ensures a <= b
  {
    if a > b {
      MulLt(b, a, n);
    }
  }

  lemma Assoc(a: int, b: int, c: int)
    ensures a * b * c == a * c * b == b * c * a
  {
  }

  function Quot(x: nat, n: nat): nat
    requires n > 0
  {
    x / n
  }

  function Rem(x: nat, n: nat): (r: nat)
    requires n > 0
    ensures r < n
  {
    x % n
  }

  /** The division test for a product that fits in 64 bits. */
  predicate Fits(a: nat, b: nat) {
    a == 0 || b <= MAX64 / a
  }

  lemma FitsProduct(a: nat, b: nat)
    requires Fits(a, b)
    ensures a * b <= MAX64
  {
    if a > 0 {
      MulLe(b, MAX64 / a, a);
      assert MAX64 / a * a <= MAX64;
    } else {
      assert a * b == 0;
    }
  }

  /** Fractions with different integer parts are ordered by them. */
  lemma QuotientsDecide(an: nat, ad: nat, bn: nat, bd: nat)
    requires ad > 0 && bd > 0 && Quot(an, ad) < Quot(bn, bd)
    ensures Cmp(an, ad, bn, bd) == -1 && Cmp(bn, bd, an, ad) == 1
  {
    var q := bn / bd;
    assert an < (an / ad + 1) * ad;
    MulLe(an / ad + 1, q, ad);
    MulLt(an, q * ad, bd);
    MulLe(q * bd, bn, ad);
    Assoc(q, ad, bd);
  }

  /** With equal integer parts the remainders decide. */
  lemma RemaindersDecide(an: nat, ad: nat, bn: nat, bd: nat)
    requires ad > 0 && bd > 0 && Quot(an, ad) == Quot(bn, bd)
    ensures Cmp(an, ad, bn, bd) == Cmp(Rem(an, ad), ad, Rem(bn, bd), bd)
  {
    var q := an / ad;
    var ar, br := an % ad, bn % bd;
    assert an == q * ad + ar && bn == q * bd + br;
    assert an * bd == q * ad * bd + ar * bd;
    assert bn * ad == q * bd * ad + br * ad;
    Assoc(q, ad, bd);
  }

  /** Turning two positive fractions upside down reverses their order. */
  lemma FlipReverses(an: nat, ad: nat, bn: nat, bd: nat)
    ensures Cmp(ad, an, bd, bn) == -Cmp(an, ad, bn, bd)
  {
  }

  lemma RemainderZero(ar: nat, ad: nat, br: nat, bd: nat)
    requires ad > 0 && bd > 0 && (ar == 0 || br == 0)
    ensures Cmp(ar, ad, br, bd) == if ar == 0 then (if br == 0 then 0 else -1) else 1
  {
    if ar > 0 {
      MulLt(0, ar, bd);
    }
    if br > 0 {
      MulLt(0, br, ad);
    }
  }

  /** Compares an/ad with bn/bd: by cross products where those fit in 64 bits, otherwise by walking the two continued
      fractions. */
  method FractionCmp(an0: nat, ad0: nat, bn0: nat, bd0: nat) returns (r: int)
    requires an0 <= MAX64 && ad0 <= MAX64 && bn0 <= MAX64 && bd0 <= MAX64
    requires ad0 > 0 && bd0 > 0
    ensures r == Cmp(an0, ad0, bn0, bd0)
    ensures (r < 0 <==> an0 * bd0 < bn0 * ad0) && (r > 0 <==> an0 * bd0 > bn0 * ad0)
  {
    CmpSign(an0, ad0, bn0, bd0);
    var an: nat, ad: nat, bn: nat, bd: nat := an0, ad0, bn0, bd0;
    var reverse := false;
    if Fits(an, bd) && Fits(bn, ad) {
      FitsProduct(an, bd);
      FitsProduct(bn, ad);
      var left, right := an * bd, bn * ad;
      assert left <= MAX64 && right <= MAX64;
      return if left < right then -1 else if left > right then 1 else 0;
    }
    hide Cmp, Fits, Quot, Rem;
    while true
      invariant an <= MAX64 && bn <= MAX64 && 0 < ad <= MAX64 && 0 < bd <= MAX64
      invariant Cmp(an0, ad0, bn0, bd0) == if reverse then -Cmp(an, ad, bn, bd) else Cmp(an, ad, bn, bd)
      decreases ad + bd
    {
      var aq, ar := Quot(an, ad), Rem(an, ad);
      var bq, br := Quot(bn, bd), Rem(bn, bd);
      if aq != bq {
        if aq < bq {
          QuotientsDecide(an, ad, bn, bd);
        } else {
          QuotientsDecide(bn, bd, an, ad);
        }
        var cmp := if aq < bq then -1 else 1;
        return if reverse then -cmp else cmp;
      }
      RemaindersDecide(an, ad, bn, bd);
      if ar == 0 || br == 0 {
        RemainderZero(ar, ad, br, bd);
        var cmp := if ar == 0 then (if br == 0 then 0 else -1) else 1;
        return if reverse then -cmp else cmp;
      }
      FlipReverses(ar, ad, br, bd);
      an, ad, bn, bd := ad, ar, bd, br;
      reverse := !reverse;
    }
  }

  // ---------- The order is total ----------

  lemma CmpAntisymmetric(an: nat, ad: nat, bn: nat, bd: nat)
    ensures Cmp(an, ad, bn, bd) == -Cmp(bn, bd, an, ad)
  {
  }

  lemma CmpTransitive(an: nat, ad: nat, bn: nat, bd: nat, cn: nat, cd: nat)
    requires ad > 0 && bd > 0 && cd > 0
    requires Cmp(an, ad, bn, bd) <= 0 && Cmp(bn, bd, cn, cd) <= 0
    ensures Cmp(an, ad, cn, cd) <= 0
    ensures Cmp(an, ad, cn, cd) == 0 ==> Cmp(an, ad, bn, bd) == 0 && Cmp(bn, bd, cn, cd) == 0
  {
    MulLe(an * bd, bn * ad, cd);
    MulLe(bn * cd, cn * bd, ad);
    Assoc(an, bd, cd);
    Assoc(bn, ad, cd);
    Assoc(cn, bd, ad);
    assert an * cd * bd <= cn * ad * bd;
    MulLeCancel(an * cd, cn * ad, bd);
    if an * cd == cn * ad {
      assert an * bd * cd == bn * ad * cd;
      MulLeCancel(bn * ad, an * bd, cd);
      MulLeCancel(cn * bd, bn * cd, ad);
    }
  }
}
