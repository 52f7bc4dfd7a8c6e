/** Symbols as least-significant-bit-first bit strings, and bit strings as bytes. */
module LzwBits {
  import opened Bytes

  type bit = x: int | 0 <= x < 2

  function Pow2(n: nat): (p: nat)
    ensures p > 0
  {
    if n == 0 then 1 else 2 * Pow2(n - 1)
  }

  lemma {:induction false} Pow2Monotone(m: nat, n: nat)
    requires m <= n
    ensures Pow2(m) <= Pow2(n)
    decreases n - m
  {
    if m < n { Pow2Monotone(m, n - 1); }
  }

  lemma Pow2Values()
    ensures Pow2(8) == 256 && Pow2(9) == 512
  {
    assert Pow2(4) == 16;
    assert Pow2(8) == 16 * Pow2(4);
  }

  /** The low n bits of s, lowest first. */
  function SymBits(s: nat, n: nat): (bs: seq<bit>)
    ensures |bs| == n
    decreases n
  {
    if n == 0 then [] else [s % 2] + SymBits(s / 2, n - 1)
  }

  function BitsVal(bs: seq<bit>): (v: nat)
    decreases |bs|
  {
    if bs == [] then 0 else bs[0] + 2 * BitsVal(bs[1..])
  }

  lemma {:induction false} BitsValBound(bs: seq<bit>)
    ensures BitsVal(bs) < Pow2(|bs|)
    decreases |bs|
  {
    if bs != [] { BitsValBound(bs[1..]); }
  }

  /** Reading back n bits of a symbol gives the symbol, when it fits. */
  lemma {:induction false} BitsValOfSym(s: nat, n: nat)
    requires s < Pow2(n)
    ensures BitsVal(SymBits(s, n)) == s
    decreases n
  {
    if n > 0 {
      BitsValOfSym(s / 2, n - 1);
      assert SymBits(s, n)[1..] == SymBits(s / 2, n - 1);
    }
  }

  lemma {:induction false} SymOfBitsVal(bs: seq<bit>)
    ensures SymBits(BitsVal(bs), |bs|) == bs
    decreases |bs|
  {
    if bs != [] {
      SymOfBitsVal(bs[1..]);
      assert (bs[0] + 2 * BitsVal(bs[1..])) % 2 == bs[0];
      assert (bs[0] + 2 * BitsVal(bs[1..])) / 2 == BitsVal(bs[1..]);
      assert bs == [bs[0]] + bs[1..];
    }
  }

  lemma {:induction false} BitsValAppend(bs: seq<bit>, b: bit)
    ensures BitsVal(bs + [b]) == BitsVal(bs) + b * Pow2(|bs|)
    decreases |bs|
  {
    if bs == [] {
      assert (bs + [b])[1..] == [];
    } else {
      assert (bs + [b])[1..] == bs[1..] + [b];
      BitsValAppend(bs[1..], b);
      var v, p := BitsVal(bs[1..]), Pow2(|bs| - 1);
      assert 2 * (v + b * p) == 2 * v + b * (2 * p);
    }
  }

  function Zeros(n: nat): (bs: seq<bit>)
    ensures |bs| == n
  {
    seq(n, _ => 0)
  }

  lemma {:induction false} BitsValZeros(bs: seq<bit>, n: nat)
    ensures BitsVal(bs + Zeros(n)) == BitsVal(bs)
    decreases |bs| + n
  {
    if bs != [] {
      assert (bs + Zeros(n))[1..] == bs[1..] + Zeros(n);
      BitsValZeros(bs[1..], n);
    } else if n > 0 {
      assert (bs + Zeros(n))[1..] == bs + Zeros(n - 1);
      BitsValZeros(bs, n - 1);
    }
  }

  /** The bits of a byte string. */
  function ByteBits(s: seq<byte>): (bs: seq<bit>)
    ensures |bs| == 8 * |s|
    decreases |s|
  {
    if s == [] then [] else SymBits(s[0], 8) + ByteBits(s[1..])
  }

  lemma {:induction false} ByteBitsAppend(s: seq<byte>, b: byte)
    ensures ByteBits(s + [b]) == ByteBits(s) + SymBits(b, 8)
    decreases |s|
  {
    if s == [] {
      assert (s + [b])[1..] == [];
    } else {
      assert (s + [b])[1..] == s[1..] + [b];
      ByteBitsAppend(s[1..], b);
    }
  }

  /** The bits of a list of symbols of equal width. */
  function SymsBits(syms: seq<nat>, n: nat): (bs: seq<bit>)
    ensures |bs| == n * |syms|
    decreases |syms|
  {
    if syms == [] then [] else
      assert n * |syms| == n + n * |syms[1..]|;
      SymBits(syms[0], n) + SymsBits(syms[1..], n)
  }

  lemma {:induction false} SymsBitsAppend(syms: seq<nat>, s: nat, n: nat)
    ensures SymsBits(syms + [s], n) == SymsBits(syms, n) + SymBits(s, n)
    decreases |syms|
  {
    if syms == [] {
      assert (syms + [s])[1..] == [];
    } else {
      assert (syms + [s])[1..] == syms[1..] + [s];
      SymsBitsAppend(syms[1..], s, n);
    }
  }
}
