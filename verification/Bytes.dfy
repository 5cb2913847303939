/** Bytes and the little-endian integer codec that the framework gets from memcpy on its hosts. */
module Bytes {

  type Byte = b: int | 0 <= b < 256

  // 2^32: every length, cursor and capacity is a uint32_t.
  const U32: nat := 0x1_0000_0000

  function Pow256(n: nat): (p: nat)
    ensures p >= 1
  {
    if n == 0 then 1 else 256 * Pow256(n - 1)
  }

  /** The n low-order bytes of v, least significant first. */
  function ToLE(v: nat, n: nat): (s: seq<Byte>)
    ensures |s| == n
  {
    if n == 0 then [] else [v % 256] + ToLE(v / 256, n - 1)
  }

  function FromLE(s: seq<Byte>): nat {
    if s == [] then 0 else s[0] + 256 * FromLE(s[1..])
  }

  function Zeros(n: nat): (s: seq<Byte>)
    ensures |s| == n && forall i | 0 <= i < n :: s[i] == 0
  {
    seq(n, _ => 0)
  }

  lemma Pow256Values()
    ensures Pow256(0) == 1 && Pow256(1) == 256 && Pow256(2) == 0x1_0000
    ensures Pow256(3) == 0x100_0000 && Pow256(4) == U32 && Pow256(8) == U32 * U32
  {
    assert Pow256(3) == 256 * Pow256(2);
    assert Pow256(4) == 256 * Pow256(3);
    assert Pow256(5) == 256 * Pow256(4);
    assert Pow256(6) == 256 * Pow256(5);
    assert Pow256(7) == 256 * Pow256(6);
  }

  lemma {:induction false} FromLEBound(s: seq<Byte>)
    ensures FromLE(s) < Pow256(|s|)
  {
    if s != [] {
      FromLEBound(s[1..]);
    }
  }

  lemma {:induction false} AllZeros(s: seq<Byte>)
    ensures FromLE(s) == 0 <==> s == Zeros(|s|)
  {
    if s != [] {
      AllZeros(s[1..]);
      assert s == [s[0]] + s[1..] && Zeros(|s|) == [0] + Zeros(|s| - 1);
    }
  }

  lemma ZeroLE(s: seq<Byte>)
    requires |s| == 4
    ensures FromLE(s) == 0 <==> s == [0, 0, 0, 0]
  {
    AllZeros(s);
    assert Zeros(4) == [0, 0, 0, 0];
  }

  lemma {:induction false} FromToLE(v: nat, n: nat)
    requires v < Pow256(n)
    ensures FromLE(ToLE(v, n)) == v
  {
    if n > 0 {
      FromToLE(v / 256, n - 1);
      assert ToLE(v, n)[1..] == ToLE(v / 256, n - 1);
    }
  }

  lemma ToLENext(v: Byte, n: nat)
    ensures ToLE(v, n + 1) == [v] + ToLE(0, n) && ToLE(v, 0) == []
  {
  }

  lemma ByteLE(v: Byte)
    ensures ToLE(v, 1) == [v] && ToLE(v, 2) == [v, 0]
  {
    ToLENext(v, 1);
    ToLENext(v, 0);
    ToLENext(0, 0);
    hide ToLE;
  }

  lemma SmallLE(v: Byte)
    ensures ToLE(v, 4) == [v, 0, 0, 0] && FromLE([v, 0, 0, 0]) == v
  {
    assert ToLE(v, 4) == [v] + ToLE(0, 3);
    assert ToLE(0, 3) == [0] + ToLE(0, 2);
    Pow256Values();
    FromToLE(v, 4);
  }

  lemma {:induction false} ToFromLE(s: seq<Byte>)
    ensures ToLE(FromLE(s), |s|) == s
  {
    if s != [] {
      ToFromLE(s[1..]);
      assert FromLE(s) % 256 == s[0] && FromLE(s) / 256 == FromLE(s[1..]);
      assert s == [s[0]] + s[1..];
    }
  }

  /** One typed read: the value of the first n bytes, and what follows them. */
  function TakeLE(s: seq<Byte>, n: nat): (r: (nat, seq<Byte>))
    requires n <= |s|
    ensures r.0 < Pow256(n) && |r.1| == |s| - n
  {
    FromLEBound(s[..n]);
    (FromLE(s[..n]), s[n..])
  }

  lemma TakeWritten(v: nat, n: nat, rest: seq<Byte>)
    requires v < Pow256(n)
    ensures TakeLE(ToLE(v, n) + rest, n) == (v, rest)
  {
    FromToLE(v, n);
    assert (ToLE(v, n) + rest)[..n] == ToLE(v, n) && (ToLE(v, n) + rest)[n..] == rest;
  }

  lemma WriteTaken(s: seq<Byte>, n: nat)
    requires n <= |s|
    ensures var (v, rest) := TakeLE(s, n); ToLE(v, n) + rest == s
  {
    ToFromLE(s[..n]);
    assert s[..n] + s[n..] == s;
  }
}
