/** Sums over a sequence, and over the elements that a list of indexes picks. */
module Sums {
  import opened Arena

  ghost function Sum(w: seq<nat>): nat {
    if w == [] then 0 else Sum(w[..|w| - 1]) + w[|w| - 1]
  }

  ghost function PickSum(w: seq<nat>, ks: seq<nat>): nat
    requires forall a :: 0 <= a < |ks| ==> ks[a] < |w|
  {
    if ks == [] then 0 else PickSum(w, ks[..|ks| - 1]) + w[ks[|ks| - 1]]
  }

  ghost function Without(xs: seq<nat>, a: nat): (r: seq<nat>)
    requires a < |xs|
    ensures |r| == |xs| - 1
  {
    xs[..a] + xs[a + 1..]
  }

  lemma {:induction false} PickWithout(w: seq<nat>, ks: seq<nat>, a: nat)
    requires a < |ks| && forall b :: 0 <= b < |ks| ==> ks[b] < |w|
    ensures PickSum(w, ks) == PickSum(w, Without(ks, a)) + w[ks[a]]
  {
    var n := |ks| - 1;
    if a == n {
      assert Without(ks, a) == ks[..n];
    } else {
      PickWithout(w, ks[..n], a);
      assert Without(ks, a)[..n - 1] == Without(ks[..n], a) && Without(ks, a)[n - 1] == ks[n];
    }
  }

  lemma {:induction false} PickPrefix(w: seq<nat>, w': seq<nat>, ks: seq<nat>)
    requires w <= w' && forall a :: 0 <= a < |ks| ==> ks[a] < |w|
    ensures PickSum(w', ks) == PickSum(w, ks)
  {
    if ks != [] { PickPrefix(w, w', ks[..|ks| - 1]); }
  }

  /** What is left of every index below `n` when `n - 1` is taken out. */
  lemma WithoutLast(n: nat, ks: seq<nat>, a: nat)
    requires n > 0 && (forall b :: 0 <= b < |ks| ==> ks[b] < n) && Distinct(ks) && (forall k: nat :: k < n ==> k in ks)
    requires a < |ks| && ks[a] == n - 1
    ensures var rest := Without(ks, a);
            (forall b :: 0 <= b < |rest| ==> rest[b] < n - 1) && Distinct(rest) && (forall k: nat :: k < n - 1 ==> k in rest)
  {
    var rest := Without(ks, a);
    assert forall b :: 0 <= b < |rest| ==> rest[b] == ks[if b < a then b else b + 1];
    hide Without;
    forall b | 0 <= b < |rest| ensures rest[b] < n - 1 {
      assert if b < a then ks[b] != ks[a] else ks[a] != ks[b + 1];
    }
    forall k: nat | k < n - 1 ensures k in rest {
      assert k in ks;
      var c :| 0 <= c < |ks| && ks[c] == k;
      assert c != a && rest[if c < a then c else c - 1] == k;
    }
    forall x, y | 0 <= x < y < |rest| ensures rest[x] != rest[y] {
      assert ks[if x < a then x else x + 1] != ks[if y < a then y else y + 1];
    }
  }

  /** Picking every index once adds up everything. */
  lemma {:induction false} PickAll(w: seq<nat>, ks: seq<nat>)
    requires (forall a :: 0 <= a < |ks| ==> ks[a] < |w|) && Distinct(ks)
    requires forall k: nat :: k < |w| ==> k in ks
    ensures PickSum(w, ks) == Sum(w)
  {
    hide Distinct, Without;
    var n := |w|;
    if n == 0 {
      assert ks == [];
    } else {
      assert n - 1 in ks;
      var a :| 0 <= a < |ks| && ks[a] == n - 1;
      WithoutLast(n, ks, a);
      PickWithout(w, ks, a);
      PickAll(w[..n - 1], Without(ks, a));
      PickPrefix(w[..n - 1], w, Without(ks, a));
    }
  }

  lemma PickSnoc(w: seq<nat>, ks: seq<nat>, k: nat)
    requires (forall a :: 0 <= a < |ks| ==> ks[a] < |w|) && k < |w|
    ensures PickSum(w, ks + [k]) == PickSum(w, ks) + w[k]
  {
    assert (ks + [k])[..|ks|] == ks;
  }

  lemma SumSnoc(w: seq<nat>, x: nat)
    ensures Sum(w + [x]) == Sum(w) + x && Sum([]) == 0
  {
    assert (w + [x])[..|w|] == w;
  }

  lemma {:induction false} SumGrows(w: seq<nat>, k: nat)
    requires k <= |w|
    ensures Sum(w[..k]) <= Sum(w)
  {
    if k == |w| {
      assert w[..k] == w;
    } else {
      SumGrows(w[..|w| - 1], k);
      assert w[..|w| - 1][..k] == w[..k];
    }
  }

  lemma {:induction false} SumConstant(w: seq<nat>, c: nat)
    requires forall k :: 0 <= k < |w| ==> w[k] == c
    ensures Sum(w) == c * |w|
  {
    if w != [] { SumConstant(w[..|w| - 1], c); }
  }

  lemma {:induction false} PickAppend(w: seq<nat>, xs: seq<nat>, ys: seq<nat>)
    requires (forall a :: 0 <= a < |xs| ==> xs[a] < |w|) && (forall a :: 0 <= a < |ys| ==> ys[a] < |w|)
    ensures PickSum(w, xs + ys) == PickSum(w, xs) + PickSum(w, ys)
  {
    if ys == [] {
      assert xs + ys == xs;
    } else {
      var n := |ys| - 1;
      PickAppend(w, xs, ys[..n]);
      assert (xs + ys)[..|xs| + n] == xs + ys[..n] && (xs + ys)[|xs| + n] == ys[n];
    }
  }
}
