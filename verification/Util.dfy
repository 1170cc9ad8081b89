/** Small helpers shared by the models: optional values, sums and duplicate-free lists. */
module Util {

  datatype Option<+T> = None | Some(value: T)

  ghost function Sum(s: seq<nat>): nat {
    if s == [] then 0 else s[0] + Sum(s[1..])
  }

  lemma {:induction false} SumUpdate(s: seq<nat>, i: nat, v: nat)
    requires i < |s|
    ensures Sum(s[i := v]) + s[i] == Sum(s) + v
  {
    if i == 0 {
      assert s[i := v][1..] == s[1..];
    } else {
      assert s[i := v][1..] == s[1..][i - 1 := v];
      SumUpdate(s[1..], i - 1, v);
    }
  }

  lemma {:induction false} SumZero(s: seq<nat>)
    requires forall i :: 0 <= i < |s| ==> s[i] == 0
    ensures Sum(s) == 0
  {
    if s != [] {
      SumZero(s[1..]);
    }
  }

  ghost predicate NoDup(q: seq<nat>) {
    forall i, j :: 0 <= i < j < |q| ==> q[i] != q[j]
  }

  /** If every index listed in `q` holds `c`, the sum is at least |q| * c. */
  lemma {:induction false} SumAtLeast(s: seq<nat>, q: seq<nat>, c: nat)
    requires NoDup(q)
    requires forall l :: l in q ==> l < |s| && s[l] == c
    ensures Sum(s) >= |q| * c
    decreases |q|
  {
    if q != [] {
      assert q[0] in q;
      var rest := q[1..];
      var t := s[q[0] := 0];
      forall l | l in rest
        ensures l < |t| && t[l] == c
      {
        assert l in q;
      }
      SumUpdate(s, q[0], 0);
      SumAtLeast(t, rest, c);
      assert |q| * c == |rest| * c + c;
    }
  }

  /** Unlinking an entry from a list that holds it once. */
  function Without(q: seq<nat>, l: nat): (r: seq<nat>)
    ensures l !in q ==> r == q
    ensures l in q ==> |r| == |q| - 1
    ensures forall k :: k in r ==> k in q
    ensures forall k :: k in q && k != l ==> k in r
  {
    if q == [] then []
    else if q[0] == l then q[1..]
    else [q[0]] + Without(q[1..], l)
  }

  lemma {:induction false} WithoutNoDup(q: seq<nat>, l: nat)
    requires NoDup(q)
    ensures NoDup(Without(q, l)) && l !in Without(q, l)
  {
    if q != [] && q[0] != l {
      var r := Without(q[1..], l);
      WithoutNoDup(q[1..], l);
      assert forall k :: k in r ==> k in q[1..];
      assert q[0] !in r;
      PrependNoDup(q[0], r);
    }
  }

  lemma PrependNoDup(k: nat, q: seq<nat>)
    requires NoDup(q) && k !in q
    ensures NoDup([k] + q)
  {
    var r := [k] + q;
    forall i, j | 0 <= i < j < |r|
      ensures r[i] != r[j]
    {
      assert r[j] == q[j - 1] && r[j] in q;
      assert i > 0 ==> r[i] == q[i - 1];
    }
  }

  lemma AppendNoDup(q: seq<nat>, k: nat)
    requires NoDup(q) && k !in q
    ensures NoDup(q + [k])
  {
    assert forall i :: 0 <= i < |q| ==> q[i] in q;
  }

  lemma {:induction false} BelowSize(s: set<nat>, n: nat)
    requires forall k :: k in s ==> k < n
    ensures |s| <= n
  {
    if n == 0 {
      assert s == {};
    } else {
      BelowSize(s - {n - 1}, n - 1);
      assert |s| <= |s - {n - 1}| + 1;
    }
  }

  lemma {:induction false} SubsetSize<T>(a: set<T>, b: set<T>)
    requires a <= b
    ensures |a| <= |b|
    decreases a
  {
    if a != {} {
      var x :| x in a;
      SubsetSize(a - {x}, b - {x});
    }
  }

  ghost function Below(n: nat): (r: set<nat>)
    ensures |r| == n && forall s: nat :: s in r <==> s < n
  {
    if n == 0 then {} else Below(n - 1) + {n - 1}
  }
}
