/**
 Unsigned bytes as the eight bits they hold, with the exclusive or of the
 source languages and the conversion to and from table indices.
 */
module Bytes {

  /** A byte, least significant bit first. */
  type Byte = s: seq<bool> | |s| == 8 witness [false, false, false, false, false, false, false, false]

  const ZERO: Byte := [false, false, false, false, false, false, false, false]
  const ONE: Byte := [true, false, false, false, false, false, false, false]

  function Xor(a: Byte, b: Byte): Byte {
    seq(8, i requires 0 <= i < 8 => a[i] != b[i])
  }

  lemma XorComm(a: Byte, b: Byte)
    ensures Xor(a, b) == Xor(b, a)
  {}

  lemma XorAssoc(a: Byte, b: Byte, c: Byte)
    ensures Xor(Xor(a, b), c) == Xor(a, Xor(b, c))
  {}

  lemma XorZero(a: Byte)
    ensures Xor(a, ZERO) == a && Xor(ZERO, a) == a && Xor(a, a) == ZERO
  {}

  lemma XorDiffers(a: Byte, b: Byte)
    requires Xor(a, b) == ZERO
    ensures a == b
  {
    forall i | 0 <= i < 8 ensures a[i] == b[i] {
      assert Xor(a, b)[i] == ZERO[i];
    }
  }

  function BitsVal(s: seq<bool>): nat {
    if s == [] then 0 else 2 * BitsVal(s[1..]) + if s[0] then 1 else 0
  }

  function BitsOf(n: nat, k: nat): (s: seq<bool>)
    ensures |s| == k
  {
    if k == 0 then [] else [n % 2 == 1] + BitsOf(n / 2, k - 1)
  }

  /** The number a byte stands for. */
  function Val(a: Byte): nat { BitsVal(a) }

  /** The low eight bits of a number. */
  function OfNat(n: nat): Byte { BitsOf(n, 8) }

  function Pow2(k: nat): nat { if k == 0 then 1 else 2 * Pow2(k - 1) }

  lemma {:induction false} BitsValBound(s: seq<bool>)
    ensures BitsVal(s) < Pow2(|s|)
  {
    if s != [] { BitsValBound(s[1..]); }
  }

  lemma {:induction false} BitsValOf(n: nat, k: nat)
    requires n < Pow2(k)
    ensures BitsVal(BitsOf(n, k)) == n
  {
    if k > 0 {
      BitsValOf(n / 2, k - 1);
      assert BitsOf(n, k)[1..] == BitsOf(n / 2, k - 1);
    }
  }

  lemma {:induction false} BitsValInjective(s: seq<bool>, t: seq<bool>)
    requires |s| == |t| && BitsVal(s) == BitsVal(t)
    ensures s == t
  {
    if s != [] {
      BitsValInjective(s[1..], t[1..]);
      assert s == [s[0]] + s[1..] && t == [t[0]] + t[1..];
    }
  }

  lemma {:induction false} BitsValZero(s: seq<bool>)
    requires forall i :: 0 <= i < |s| ==> !s[i]
    ensures BitsVal(s) == 0
  {
    if s != [] { BitsValZero(s[1..]); }
  }

  lemma ValBound(a: Byte)
    ensures Val(a) < 256
  {
    BitsValBound(a);
  }

  lemma ValInjective(a: Byte, b: Byte)
    requires Val(a) == Val(b)
    ensures a == b
  {
    BitsValInjective(a, b);
  }

  lemma ValOfNat(n: nat)
    requires n < 256
    ensures Val(OfNat(n)) == n
  {
    BitsValOf(n, 8);
  }

  lemma ValZero(a: Byte)
    ensures Val(a) == 0 <==> a == ZERO
  {
    BitsValZero(ZERO);
    if Val(a) == 0 { ValInjective(a, ZERO); }
  }
}
