/** Fixed-width binary words, least significant bit first, and two's complement. */
module Bits {
  function Pow2(n: nat): (r: int)
    ensures r >= 1
  {
    if n == 0 then 1 else 2 * Pow2(n - 1)
  }

  lemma PowersOfTwo()
    ensures Pow2(0) == 1 && Pow2(1) == 2 && Pow2(7) == 128 && Pow2(8) == 256 && Pow2(15) == 32768
  {
  }

  /** The `len` low bits of `v`, least significant first. */
  function ToBits(v: nat, len: nat): (b: seq<bool>)
    ensures |b| == len
  {
    if len == 0 then [] else [v % 2 == 1] + ToBits(v / 2, len - 1)
  }

  function FromBits(b: seq<bool>): (v: nat)
    ensures v < Pow2(|b|)
  {
    if b == [] then 0 else (if b[0] then 1 else 0) + 2 * FromBits(b[1..])
  }

  lemma {:induction false} FromToBits(v: nat, len: nat)
    requires v < Pow2(len)
    ensures FromBits(ToBits(v, len)) == v
  {
    if len > 0 {
      FromToBits(v / 2, len - 1);
      assert ToBits(v, len)[1..] == ToBits(v / 2, len - 1);
    }
  }

  lemma {:induction false} ToFromBits(b: seq<bool>)
    ensures ToBits(FromBits(b), |b|) == b
  {
    if b != [] {
      ToFromBits(b[1..]);
      assert b == [b[0]] + b[1..];
    }
  }

  /** The all-zero word denotes zero. */
  lemma {:induction false} ZeroBits(b: seq<bool>)
    requires forall j :: 0 <= j < |b| ==> !b[j]
    ensures FromBits(b) == 0
  {
    if b != [] {
      ZeroBits(b[1..]);
    }
  }

  /** The two's complement word of a signed value of `len` bits, as an unsigned number. */
  function AsUnsigned(v: int, len: nat): (u: nat)
    requires len >= 1 && -Pow2(len - 1) <= v < Pow2(len - 1)
    ensures u < Pow2(len)
    ensures AsSigned(u, len) == v
  {
    if v < 0 then v + Pow2(len) else v
  }

  function AsSigned(u: nat, len: nat): (v: int)
    requires len >= 1 && u < Pow2(len)
    ensures -Pow2(len - 1) <= v < Pow2(len - 1)
  {
    if u >= Pow2(len - 1) then u - Pow2(len) else u
  }

  // ---------------------------------------------------------------- bit by bit

  lemma MultipleGrows(p: int, e: int)
    requires p > 0
    ensures e >= 1 ==> p * e >= p
    ensures e <= -1 ==> p * e <= -p
  {
    if e >= 1 {
      assert p * e == p + p * (e - 1);
    } else if e <= -1 {
      assert p * e == p * (e + 1) - p;
    }
  }

  lemma QuotientIs(a: int, p: int, q: int, rest: int)
    requires p > 0 && a == p * q + rest && 0 <= rest < p
    ensures a / p == q
  {
    var e := a / p - q;
    assert p * e == rest - a % p;
    MultipleGrows(p, e);
  }

  lemma HalfThenShift(v: int, j: nat)
    ensures v / 2 / Pow2(j) == v / Pow2(j + 1)
  {
    var p := Pow2(j);
    var q, rest := v / (2 * p), v % (2 * p);
    assert v == 2 * p * q + rest == 2 * (p * q) + rest;
    QuotientIs(v / 2, p, q, rest / 2);
  }

  /** Bit `j` of a word is bit `j` of the integer it stands for, the sign extended without
      end: `v` itself, or `v` a full turn of the word below. */
  lemma {:induction false} ToBitsAt(u: nat, v: int, len: nat, j: nat)
    requires u == v || u == v + Pow2(len)
    requires j < len
    ensures ToBits(u, len)[j] <==> v / Pow2(j) % 2 == 1
    decreases len
  {
    if j > 0 {
      ToBitsAt(u / 2, v / 2, len - 1, j - 1);
      HalfThenShift(v, j - 1);
    }
  }
}
