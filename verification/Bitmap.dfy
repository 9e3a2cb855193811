/** The bitmap of a memory pool: bit i of byte i / 8 says that block i is free. */
module Bitmap {

  /** 1 << bit */
  function Mask(bit: nat): bv8
    requires bit < 8
  {
    match bit
    case 0 => 0x01
    case 1 => 0x02
    case 2 => 0x04
    case 3 => 0x08
    case 4 => 0x10
    case 5 => 0x20
    case 6 => 0x40
    case 7 => 0x80
  }

  predicate Bit(b: bv8, bit: nat)
    requires bit < 8
  {
    b & Mask(bit) != 0
  }

  /** The byte with one bit set or cleared. */
  function Changed(b: bv8, bit: nat, v: bool): bv8
    requires bit < 8
  {
    if v then b | Mask(bit) else b & !Mask(bit)
  }

  lemma MasksDiffer(i: nat, j: nat)
    requires i < 8 && j < 8 && i != j
    ensures Mask(i) & Mask(j) == 0
  {
  }

  lemma ClearBit(b: bv8, i: nat, j: nat)
    requires i < 8 && j < 8
    ensures Bit(b & !Mask(i), j) <==> i != j && Bit(b, j)
  {
    if i != j {
      MasksDiffer(i, j);
      OtherMask(b, Mask(i), Mask(j));
    } else {
      SameMask(b, Mask(i));
    }
  }

  lemma SetBit(b: bv8, i: nat, j: nat)
    requires i < 8 && j < 8
    ensures Bit(b | Mask(i), j) <==> i == j || Bit(b, j)
  {
    if i != j {
      MasksDiffer(i, j);
      OtherMask(b, Mask(i), Mask(j));
    } else {
      SameMask(b, Mask(i));
    }
  }

  lemma BitChanged(b: bv8, i: nat, j: nat, v: bool)
    requires i < 8 && j < 8
    ensures Bit(Changed(b, i, v), j) == if i == j then v else Bit(b, j)
  {
    ClearBit(b, i, j);
    SetBit(b, i, j);
  }

  lemma OtherMask(b: bv8, m: bv8, n: bv8)
    requires m & n == 0
    ensures (b & !m) & n == b & n && (b | m) & n == b & n
  {
  }

  lemma SameMask(b: bv8, m: bv8)
    ensures (b & !m) & m == 0 && (b | m) & m == m
  {
  }

  lemma AllOnes(i: nat)
    requires i < 8
    ensures Bit(0xFF, i)
  {
  }

  // ---------------------------------------------------------------------------------------------

  /** The number of free blocks a bit vector stands for. */
  function CountSet(bits: seq<bool>): nat {
    if bits == [] then 0 else CountSet(bits[..|bits| - 1]) + if bits[|bits| - 1] then 1 else 0
  }

  lemma {:induction false} CountUpdate(bits: seq<bool>, i: nat, v: bool)
    requires i < |bits|
    ensures CountSet(bits[i := v]) + (if bits[i] then 1 else 0) == CountSet(bits) + if v then 1 else 0
  {
    var last := |bits| - 1;
    if i < last {
      CountUpdate(bits[..last], i, v);
      assert bits[i := v][..last] == bits[..last][i := v];
    } else {
      assert bits[i := v][..last] == bits[..last];
    }
  }

  /** The same among the first n bits. */
  lemma CountPrefixUpdate(bits: seq<bool>, n: nat, i: nat, v: bool)
    requires i < n <= |bits|
    ensures CountSet(bits[i := v][..n]) == CountSet(bits[..n]) + (if v then 1 else 0) - if bits[i] then 1 else 0
  {
    CountUpdate(bits[..n], i, v);
    assert bits[i := v][..n] == bits[..n][i := v];
  }

  lemma CountPrefixBounds(bits: seq<bool>, n: nat)
    requires n <= |bits|
    ensures CountSet(bits[..n]) <= n
    ensures CountSet(bits[..n]) == 0 <==> forall i :: 0 <= i < n ==> !bits[i]
    ensures CountSet(bits[..n]) == n <==> forall i :: 0 <= i < n ==> bits[i]
  {
    CountBounds(bits[..n]);
    assert forall i :: 0 <= i < n ==> bits[..n][i] == bits[i];
  }

  lemma {:induction false} CountBounds(bits: seq<bool>)
    ensures CountSet(bits) <= |bits|
    ensures CountSet(bits) == 0 <==> forall i :: 0 <= i < |bits| ==> !bits[i]
    ensures CountSet(bits) == |bits| <==> forall i :: 0 <= i < |bits| ==> bits[i]
  {
    if bits != [] {
      var last := |bits| - 1;
      CountBounds(bits[..last]);
      assert forall i :: 0 <= i < last ==> bits[..last][i] == bits[i];
    }
  }
}
