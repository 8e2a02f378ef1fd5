/** Fixed-width integers and byte strings as the Solana program sees them:
    `u8`, `u32`, `u64`, 32-byte keys and digests, big-endian encodings
    (Rust's `to_be_bytes`) and the in-place `copy_from_slice` into a buffer. */
module Bytes {

  type byte = x: int | 0 <= x < 256

  const TWO_32: nat := 0x1_0000_0000
  const TWO_64: nat := 0x1_0000_0000_0000_0000

  type u32 = x: int | 0 <= x < 0x1_0000_0000
  type u64 = x: int | 0 <= x < 0x1_0000_0000_0000_0000

  /** A `Pubkey` or a `[u8; 32]` (SHA-256 digest, transfer hash). */
  type Bytes32 = s: seq<byte> | |s| == 32 witness Zeros(32)

  datatype Option<T> = None | Some(value: T)

  function Zeros(n: nat): (r: seq<byte>)
    ensures |r| == n && forall i :: 0 <= i < n ==> r[i] == 0
  {
    seq(n, _ => 0)
  }

  function Pow256(n: nat): (r: nat)
    ensures r > 0
  {
    if n == 0 then 1 else 256 * Pow256(n - 1)
  }

  lemma Pow256Widths()
    ensures Pow256(4) == TWO_32 && Pow256(8) == TWO_64
  {
    assert Pow256(2) == 65536 by {
      assert Pow256(1) == 256;
    }
    assert Pow256(4) == TWO_32 by {
      assert Pow256(3) == 256 * 65536;
    }
    assert Pow256(6) == 256 * 256 * TWO_32 by {
      assert Pow256(5) == 256 * TWO_32;
    }
    assert Pow256(8) == TWO_64 by {
      assert Pow256(7) == 256 * Pow256(6);
    }
  }

  /** Rust's `n as u32` on a `usize`: keeps the low 32 bits. */
  function AsU32(n: nat): (r: u32)
    ensures n < TWO_32 ==> r == n
    ensures (n - r) % TWO_32 == 0
  {
    n % TWO_32
  }

  /** The `n` big-endian bytes of an `n`-byte unsigned integer `x`
      (`to_be_bytes`): the most significant byte first. */
  function ToBe(x: nat, n: nat): (r: seq<byte>)
    requires x < Pow256(n)
    ensures |r| == n
  {
    if n == 0 then [] else ToBe(x / 256, n - 1) + [x % 256]
  }

  /** The unsigned integer whose big-endian bytes are `s`. */
  function FromBe(s: seq<byte>): nat
  {
    if s == [] then 0 else FromBe(s[..|s| - 1]) * 256 + s[|s| - 1]
  }

  lemma {:induction false} FromBeBound(s: seq<byte>)
    ensures FromBe(s) < Pow256(|s|)
  {
    if s != [] {
      var p := s[..|s| - 1];
      FromBeBound(p);
      assert FromBe(p) + 1 <= Pow256(|p|);
      assert (FromBe(p) + 1) * 256 <= Pow256(|p|) * 256;
    }
  }

  /** `FromBe` undoes `ToBe`. */
  lemma {:induction false} FromBeToBe(x: nat, n: nat)
    requires x < Pow256(n)
    ensures FromBe(ToBe(x, n)) == x
  {
    if n > 0 {
      assert x / 256 < Pow256(n - 1);
      FromBeToBe(x / 256, n - 1);
      var s := ToBe(x, n);
      assert s[..|s| - 1] == ToBe(x / 256, n - 1);
    }
  }

  /** `ToBe` undoes `FromBe`: every byte string is the big-endian encoding of
      the number it denotes, so the encoding is a bijection. */
  lemma {:induction false} ToBeFromBe(s: seq<byte>)
    ensures FromBe(s) < Pow256(|s|) && ToBe(FromBe(s), |s|) == s
  {
    FromBeBound(s);
    if s != [] {
      var p := s[..|s| - 1];
      ToBeFromBe(p);
      var x := FromBe(s);
      assert x / 256 == FromBe(p);
      assert x % 256 == s[|s| - 1];
      assert s == p + [s[|s| - 1]];
    }
  }

  /** `s` with `src` written over it starting at position `at`. */
  function Splice(s: seq<byte>, at: nat, src: seq<byte>): (r: seq<byte>)
    requires at + |src| <= |s|
  {
    s[..at] + src + s[at + |src|..]
  }

  lemma SpliceAt(s: seq<byte>, at: nat, src: seq<byte>, i: nat)
    requires at + |src| <= |s| && i < |s|
    ensures |Splice(s, at, src)| == |s|
    ensures Splice(s, at, src)[i] == if at <= i < at + |src| then src[i - at] else s[i]
  {
  }

  /** `a[at..at + |src|].copy_from_slice(src)`: overwrites that range of the
      buffer in place and leaves the rest of it as it was. */
  method CopyFromSlice(a: array<byte>, at: nat, src: seq<byte>)
    requires at + |src| <= a.Length
    modifies a
    ensures a[..] == Splice(old(a[..]), at, src)
  {
    var k := 0;
    while k < |src|
      invariant 0 <= k <= |src|
      invariant forall i :: 0 <= i < a.Length && !(at <= i < at + k) ==> a[i] == old(a[i])
      invariant forall i :: at <= i < at + k ==> a[i] == src[i - at]
    {
      a[at + k] := src[k];
      k := k + 1;
    }
    forall i | 0 <= i < a.Length
      ensures a[..][i] == Splice(old(a[..]), at, src)[i]
    {
      SpliceAt(old(a[..]), at, src, i);
    }
  }
}
