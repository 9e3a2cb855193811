/** A 32-bit CRC register over bit strings, for any generator: it computes polynomial remainders,
    it never forgets, and the complemented checksum leaves a constant behind. */
module CrcRegister {
  import opened Gf2

  function Ones(n: nat): (p: Poly)
    ensures |p| == n && forall i :: 0 <= i < n ==> p[i]
  {
    seq(n, _ => true)
  }

  /** The message times x^32, its leading 32 coefficients changed by the preset register. */
  function Dividend(preset: Poly, bits: seq<bool>): (p: Poly)
    requires |preset| == 32
    ensures |p| == |bits| + 32
  {
    Add(bits + Zeros(32), preset + Zeros(|bits|))
  }

  // ---------------------------------------------------------------------------------------------
  // The shift register, on lists
  // ---------------------------------------------------------------------------------------------

  /** A generator of degree 32 with a constant term. */
  predicate Generating(g: Poly) {
    |g| == 33 && Divisor(g) && g[32]
  }

  /** Shifting out the highest coefficient, corrected by the incoming bit, and subtracting the
      generator if that is 1. */
  function Feed(s: Poly, bit: bool, g: Poly): (t: Poly)
    requires |s| == 32 && Generating(g)
    ensures |t| == 32
  {
    Add(s[1..] + [false], Scale(Xor(s[0], bit), g[1..], 32))
  }

  function FeedAll(s: Poly, bits: seq<bool>, g: Poly): (t: Poly)
    requires |s| == 32 && Generating(g)
    ensures |t| == 32
    decreases |bits|
  {
    if bits == [] then s else FeedAll(Feed(s, bits[0], g), bits[1..], g)
  }

  lemma {:induction false} FeedConcat(s: Poly, a: seq<bool>, b: seq<bool>, g: Poly)
    requires |s| == 32 && Generating(g)
    ensures FeedAll(s, a + b, g) == FeedAll(FeedAll(s, a, g), b, g)
    decreases |a|
  {
    if a == [] {
      assert a + b == b;
    } else {
      assert (a + b)[1..] == a[1..] + b;
      FeedConcat(Feed(s, a[0], g), a[1..], b, g);
    }
  }

  /** One bit fed is one line of the long division. */
  lemma FeedIsCancel(s: Poly, bits: seq<bool>, g: Poly)
    requires |s| == 32 && Generating(g) && bits != []
    ensures Cancel(Dividend(s, bits), g) == Dividend(Feed(s, bits[0], g), bits[1..])
  {
    var n := |bits| + 32;
    var p := Dividend(s, bits);
    var c, d := Cancel(p, g), Dividend(Feed(s, bits[0], g), bits[1..]);
    assert p[0] == Xor(s[0], bits[0]);
    forall i | 0 <= i < n - 1 ensures c[i] == d[i] {
      assert c[i] == Xor(p[i + 1], Scale(p[0], g, n)[i + 1]);
      assert (bits + Zeros(32))[i + 1] == (bits[1..] + Zeros(32))[i];
      if i < 32 {
        assert Scale(p[0], g, n)[i + 1] == Scale(p[0], g[1..], 32)[i];
        assert (s + Zeros(|bits|))[i + 1] == (s[1..] + [false])[i];
      }
    }
  }

  /** Register after a message = remainder of the message by the generator. */
  lemma {:induction false} FeedIsRemainder(s: Poly, bits: seq<bool>, g: Poly)
    requires |s| == 32 && Generating(g)
    ensures FeedAll(s, bits, g) == Rem(Dividend(s, bits), g)
    decreases |bits|
  {
    if bits == [] {
      assert Dividend(s, bits) == s;
    } else {
      FeedIsCancel(s, bits, g);
      FeedIsRemainder(Feed(s, bits[0], g), bits[1..], g);
    }
  }

  // ---------------------------------------------------------------------------------------------
  // Up to 32 bits at once
  // ---------------------------------------------------------------------------------------------

  lemma Absorb(s: Poly, d: Poly, g: Poly)
    requires |s| == |d| == 32 && Generating(g)
    ensures Feed(Add(s, d), false, g) == Add(Feed(s, d[0], g), d[1..] + [false])
  {
    var a, b := Feed(Add(s, d), false, g), Add(Feed(s, d[0], g), d[1..] + [false]);
    var t := Scale(Xor(s[0], d[0]), g[1..], 32);
    forall i | 0 <= i < 32 ensures a[i] == b[i] {
      assert a[i] == Xor((Add(s, d)[1..] + [false])[i], t[i]);
      assert b[i] == Xor(Xor((s[1..] + [false])[i], t[i]), (d[1..] + [false])[i]);
    }
  }

  /** Adding a whole word and shifting n times feeds its first n bits one by one. */
  lemma {:induction false} AbsorbMany(s: Poly, d: Poly, n: nat, g: Poly)
    requires |s| == |d| == 32 && n <= 32 && Generating(g)
    ensures FeedAll(Add(s, d), Zeros(n), g) == Add(FeedAll(s, d[..n], g), d[n..] + Zeros(n))
    decreases n
  {
    if n == 0 {
      assert d[0..] + Zeros(0) == d;
    } else {
      var d' := d[1..] + [false];
      Absorb(s, d, g);
      assert Zeros(n)[1..] == Zeros(n - 1);
      AbsorbMany(Feed(s, d[0], g), d', n - 1, g);
      assert d'[..n - 1] == d[..n][1..];
      assert d'[n - 1..] + Zeros(n - 1) == d[n..] + Zeros(n);
    }
  }

  /** The register is a bijective function of its past: nothing is forgotten. */
  lemma FeedInjective(s: Poly, t: Poly, bit: bool, g: Poly)
    requires |s| == |t| == 32 && Generating(g) && Feed(s, bit, g) == Feed(t, bit, g)
    ensures s == t
  {
    var h := g[1..];
    var a, b := Feed(s, bit, g), Feed(t, bit, g);
    assert a[31] == Scale(Xor(s[0], bit), h, 32)[31] == Xor(s[0], bit);
    assert b[31] == Scale(Xor(t[0], bit), h, 32)[31] == Xor(t[0], bit);
    forall i | 1 <= i < 32 ensures s[i] == t[i] {
      assert a[i - 1] == Xor(s[i], Scale(Xor(s[0], bit), h, 32)[i - 1]);
      assert b[i - 1] == Xor(t[i], Scale(Xor(t[0], bit), h, 32)[i - 1]);
    }
  }

  lemma {:induction false} FeedAllInjective(s: Poly, t: Poly, bits: seq<bool>, g: Poly)
    requires |s| == |t| == 32 && Generating(g)
    ensures FeedAll(s, bits, g) == FeedAll(t, bits, g) <==> s == t
    decreases |bits|
  {
    if bits != [] && FeedAll(s, bits, g) == FeedAll(t, bits, g) {
      FeedAllInjective(Feed(s, bits[0], g), Feed(t, bits[0], g), bits[1..], g);
      FeedInjective(s, t, bits[0], g);
    }
  }

  /** A string of at most 32 bits, added as a word and shifted through, is that string fed. */
  lemma {:induction false} AbsorbString(s: Poly, p: seq<bool>, g: Poly)
    requires |s| == 32 && |p| <= 32 && Generating(g)
    ensures FeedAll(Add(s, p + Zeros(32 - |p|)), Zeros(|p|), g) == FeedAll(s, p, g)
  {
    var n := |p|;
    var d := p + Zeros(32 - n);
    AbsorbMany(s, d, n, g);
    assert d[..n] == p && d[n..] + Zeros(n) == Zeros(32);
    AddZeros(FeedAll(s, p, g));
  }

  /** From one register state, different strings of at most 32 bits lead to different states. */
  lemma {:induction false} ShortStringsDiffer(s: Poly, p: seq<bool>, q: seq<bool>, g: Poly)
    requires |s| == 32 && |p| == |q| <= 32 && Generating(g)
    ensures FeedAll(s, p, g) == FeedAll(s, q, g) <==> p == q
  {
    var n := |p|;
    var dp, dq := p + Zeros(32 - n), q + Zeros(32 - n);
    AbsorbString(s, p, g);
    AbsorbString(s, q, g);
    if FeedAll(s, p, g) == FeedAll(s, q, g) {
      FeedAllInjective(Add(s, dp), Add(s, dq), Zeros(n), g);
      forall i | 0 <= i < n ensures p[i] == q[i] {
        assert Add(s, dp)[i] == Xor(s[i], p[i]) && Add(s, dq)[i] == Xor(s[i], q[i]);
      }
    }
  }

  lemma AddZeros(s: Poly)
    ensures Add(s, Zeros(|s|)) == s
  {
  }

  // ---------------------------------------------------------------------------------------------
  // The checksum
  // ---------------------------------------------------------------------------------------------

  /** Remainder of the message with the register preset to ones, complemented. */
  function Checksum(bits: seq<bool>, g: Poly): (r: Poly)
    requires Generating(g)
    ensures |r| == 32
  {
    Add(Rem(Dividend(Ones(32), bits), g), Ones(32))
  }

  lemma ComplementInjective(s: Poly, t: Poly)
    requires |s| == |t| == 32
    ensures Add(s, Ones(32)) == Add(t, Ones(32)) <==> s == t
  {
    if Add(s, Ones(32)) == Add(t, Ones(32)) {
      forall i | 0 <= i < 32 ensures s[i] == t[i] {
        assert Add(s, Ones(32))[i] == Add(t, Ones(32))[i];
      }
    }
  }

  lemma {:induction false} SameChecksum(x: seq<bool>, y: seq<bool>, g: Poly)
    requires Generating(g)
    ensures Checksum(x, g) == Checksum(y, g) <==> FeedAll(Ones(32), x, g) == FeedAll(Ones(32), y, g)
  {
    FeedIsRemainder(Ones(32), x, g);
    FeedIsRemainder(Ones(32), y, g);
    ComplementInjective(FeedAll(Ones(32), x, g), FeedAll(Ones(32), y, g));
  }

  /** Bit strings with a common beginning and end differ in their checksums exactly if they differ
      in the at most 32 bits between: every burst of that length is detected, wherever it lies. */
  lemma BurstsAreDetected(pre: seq<bool>, p: seq<bool>, q: seq<bool>, post: seq<bool>, g: Poly)
    requires |p| == |q| <= 32 && Generating(g)
    ensures Checksum(pre + p + post, g) == Checksum(pre + q + post, g) <==> p == q
  {
    var s := FeedAll(Ones(32), pre, g);
    SameChecksum(pre + p + post, pre + q + post, g);
    FeedConcat(Ones(32), pre + p, post, g);
    FeedConcat(Ones(32), pre, p, g);
    FeedConcat(Ones(32), pre + q, post, g);
    FeedConcat(Ones(32), pre, q, g);
    ShortStringsDiffer(s, p, q, g);
    FeedAllInjective(FeedAll(s, p, g), FeedAll(s, q, g), post, g);
  }

  /** A register fed the complement of its own bits always ends in the same state. */
  lemma {:induction false} OwnComplement(s: Poly, g: Poly)
    requires |s| == 32 && Generating(g)
    ensures FeedAll(s, Add(s, Ones(32)), g) == FeedAll(Ones(32), Zeros(32), g)
  {
    var t := Add(s, Ones(32));
    AbsorbMany(s, t, 32, g);
    assert Add(s, t) == Ones(32);
    assert t[..32] == t && t[32..] + Zeros(32) == Zeros(32);
    AddZeros(FeedAll(s, t, g));
  }

  /** Message and 32 trailing bits have the residue of the generator as their checksum exactly if
      the trailer is the checksum of the message. */
  lemma {:induction false} TrailerIsChecked(bits: seq<bool>, trailer: seq<bool>, g: Poly)
    requires |trailer| == 32 && Generating(g)
    ensures Checksum(bits + trailer, g) == Add(FeedAll(Ones(32), Zeros(32), g), Ones(32))
            <==> trailer == Checksum(bits, g)
  {
    var s := FeedAll(Ones(32), bits, g);
    var c := Add(s, Ones(32));
    FeedIsRemainder(Ones(32), bits, g);
    FeedIsRemainder(Ones(32), bits + trailer, g);
    FeedConcat(Ones(32), bits, trailer, g);
    OwnComplement(s, g);
    ShortStringsDiffer(s, trailer, c, g);
    ComplementInjective(FeedAll(s, trailer, g), FeedAll(Ones(32), Zeros(32), g));
  }
}
