/** Polynomials over GF(2) as coefficient lists, highest degree first, and long division. */
module Gf2 {

  type Poly = seq<bool>

  function Zeros(n: nat): (z: Poly)
    ensures |z| == n
    ensures forall i :: 0 <= i < n ==> !z[i]
  {
    seq(n, _ => false)
  }

  function Xor(a: bool, b: bool): bool {
    a != b
  }

  /** Sum of two lists of the same length. */
  function Add(a: Poly, b: Poly): (s: Poly)
    requires |a| == |b|
    ensures |s| == |a|
    ensures forall i :: 0 <= i < |a| ==> s[i] == Xor(a[i], b[i])
  {
    seq(|a|, i requires 0 <= i < |a| == |b| => Xor(a[i], b[i]))
  }

  /** The multiple of g by a single coefficient, padded to length n. */
  function Scale(bit: bool, g: Poly, n: nat): (s: Poly)
    requires |g| <= n
    ensures |s| == n
  {
    if bit then g + Zeros(n - |g|) else Zeros(n)
  }

  /** Product. */
  function Mul(q: Poly, g: Poly): (p: Poly)
    requires |g| > 0
    ensures |p| == |q| + |g| - 1
  {
    if q == [] then Zeros(|g| - 1)
    else Add(Scale(q[0], g, |q| + |g| - 1), [false] + Mul(q[1..], g))
  }

  /** A monic divisor: its leading coefficient is 1. */
  predicate Divisor(g: Poly) {
    |g| > 0 && g[0]
  }

  /** One line of the long division: cancel the leading coefficient and drop it. */
  function Cancel(p: Poly, g: Poly): (r: Poly)
    requires Divisor(g) && |p| >= |g|
    ensures |r| == |p| - 1
  {
    Add(p, Scale(p[0], g, |p|))[1..]
  }

  /** The schoolbook remainder, of degree less than that of g. */
  function Rem(p: Poly, g: Poly): (r: Poly)
    requires Divisor(g) && |p| >= |g| - 1
    ensures |r| == |g| - 1
    decreases |p|
  {
    if |p| == |g| - 1 then p else Rem(Cancel(p, g), g)
  }

  function Quot(p: Poly, g: Poly): (q: Poly)
    requires Divisor(g) && |p| >= |g| - 1
    ensures |q| == |p| - (|g| - 1)
    decreases |p|
  {
    if |p| == |g| - 1 then [] else [p[0]] + Quot(Cancel(p, g), g)
  }

  /** q * g + r, with r padded on the left. */
  function Combine(q: Poly, g: Poly, r: Poly): (p: Poly)
    requires |g| > 0 && |r| == |g| - 1
    ensures |p| == |q| + |g| - 1
  {
    Add(Mul(q, g), Zeros(|q|) + r)
  }

  lemma CombineStep(q: Poly, g: Poly, r: Poly)
    requires Divisor(g) && |r| == |g| - 1 && q != []
    ensures Combine(q, g, r)[0] == q[0]
    ensures Cancel(Combine(q, g, r), g) == Combine(q[1..], g, r)
  {
    var p, n := Combine(q, g, r), |q| + |g| - 1;
    var tail := Combine(q[1..], g, r);
    var c := Cancel(p, g);
    forall i | 0 <= i < n ensures p[i] == Xor(Scale(q[0], g, n)[i], i > 0 && tail[i - 1]) {
      assert ([false] + Mul(q[1..], g))[i] == (i > 0 && Mul(q[1..], g)[i - 1]);
      assert (Zeros(|q|) + r)[i] == (i > 0 && (Zeros(|q| - 1) + r)[i - 1]);
    }
    forall j | 0 <= j < n - 1 ensures c[j] == tail[j] {
      assert c[j] == Xor(p[j + 1], Scale(p[0], g, n)[j + 1]);
    }
  }

  lemma {:induction false} DivisionIdentity(p: Poly, g: Poly)
    requires Divisor(g) && |p| >= |g| - 1
    ensures p == Combine(Quot(p, g), g, Rem(p, g))
    decreases |p|
  {
    if |p| == |g| - 1 {
      assert Quot(p, g) == [];
    } else {
      var c := Cancel(p, g);
      DivisionIdentity(c, g);
      var q, r := Quot(p, g), Rem(p, g);
      assert q[1..] == Quot(c, g);
      CombineStep(q, g, r);
      var p' := Combine(q, g, r);
      assert Cancel(p', g) == c;
      forall i | 0 < i < |p| ensures p'[i] == p[i] {
        assert Cancel(p', g)[i - 1] == c[i - 1];
      }
      assert p'[0] == p[0];
    }
  }

  /** Division theorem: quotient and remainder are the only pair that recombines to p. */
  lemma {:induction false} DivisionIsUnique(p: Poly, g: Poly, q: Poly, r: Poly)
    requires Divisor(g) && |p| >= |g| - 1 && |q| == |p| - (|g| - 1) && |r| == |g| - 1
    ensures p == Combine(q, g, r) <==> q == Quot(p, g) && r == Rem(p, g)
    decreases |p|
  {
    DivisionIdentity(p, g);
    if p == Combine(q, g, r) {
      if |p| == |g| - 1 {
        assert q == [];
        assert p == r;
      } else {
        CombineStep(q, g, r);
        DivisionIsUnique(Cancel(p, g), g, q[1..], r);
        assert q == [q[0]] + q[1..];
      }
    }
  }
}
