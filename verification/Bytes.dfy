/** Little-endian integers in byte sequences, as memcpy of uint32_t and uint64_t produces them. */
module Bytes {
  import opened MetaTypes

  const U32 := 0x1_0000_0000
  const U64 := 0x1_0000_0000_0000_0000

  function Pow256(n: nat): (p: nat)
    ensures p > 0
  {
    if n == 0 then 1 else 256 * Pow256(n - 1)
  }

  function LE(n: nat, v: nat): (s: seq<Byte>)
    ensures |s| == n
  {
    if n == 0 then [] else [v % 256] + LE(n - 1, v / 256)
  }

  function FromLE(s: seq<Byte>): nat {
    if s == [] then 0 else s[0] + 256 * FromLE(s[1..])
  }

  /** Little-endian: what follows n bytes counts 256^n times. */
  lemma {:induction false} LittleEndian(a: seq<Byte>, b: seq<Byte>)
    ensures FromLE(a + b) == FromLE(a) + Pow256(|a|) * FromLE(b)
  {
    if a == [] {
      assert a + b == b;
    } else {
      assert (a + b)[1..] == a[1..] + b;
      var p, rest, x := Pow256(|a| - 1), FromLE(a[1..]), FromLE(b);
      assert Pow256(|a|) == 256 * p && FromLE(a) == a[0] + 256 * rest;
      assert FromLE(a + b) == a[0] + 256 * FromLE(a[1..] + b);
      LittleEndian(a[1..], b);
      hide FromLE, Pow256;
      Shift(a[0], rest, p, x);
    }
  }

  lemma Shift(c: nat, rest: nat, p: nat, x: nat)
    ensures c + 256 * (rest + p * x) == (c + 256 * rest) + 256 * p * x
  {
  }

  lemma {:induction false} DecodeEncode(n: nat, v: nat)
    requires v < Pow256(n)
    ensures FromLE(LE(n, v)) == v
  {
    if n > 0 {
      assert LE(n, v)[1..] == LE(n - 1, v / 256);
      DecodeEncode(n - 1, v / 256);
    }
  }

  lemma {:induction false} EncodeDecode(s: seq<Byte>)
    ensures FromLE(s) < Pow256(|s|)
    ensures LE(|s|, FromLE(s)) == s
  {
    if s != [] {
      EncodeDecode(s[1..]);
      assert FromLE(s) % 256 == s[0] && FromLE(s) / 256 == FromLE(s[1..]);
      assert [s[0]] + s[1..] == s;
    }
  }

  lemma Widths()
    ensures Pow256(4) == U32 && Pow256(8) == U64
  {
    assert Pow256(2) == 0x1_0000;
    assert Pow256(4) == 256 * (256 * Pow256(2));
    assert Pow256(6) == 256 * (256 * Pow256(4));
    assert Pow256(8) == 256 * (256 * Pow256(6));
  }

  /** The field of n bytes at offset at. */
  function Field(s: seq<Byte>, at: nat, n: nat): nat
    requires at + n <= |s|
  {
    FromLE(s[at..at + n])
  }

  /** A field written between a prefix and a suffix reads back. */
  lemma FieldAt(pre: seq<Byte>, n: nat, v: nat, post: seq<Byte>)
    requires v < Pow256(n)
    ensures Field(pre + LE(n, v) + post, |pre|, n) == v
  {
    assert (pre + LE(n, v) + post)[|pre|..|pre| + n] == LE(n, v);
    DecodeEncode(n, v);
  }

  /** Reading the field and writing it back gives the same bytes. */
  lemma FieldBack(s: seq<Byte>, at: nat, n: nat)
    requires at + n <= |s|
    ensures LE(n, Field(s, at, n)) == s[at..at + n]
    ensures Field(s, at, n) < Pow256(n)
  {
    EncodeDecode(s[at..at + n]);
  }

  /** memcpy of src into dst at an offset. */
  method Copy(dst: array<Byte>, at: nat, src: seq<Byte>)
    requires at + |src| <= dst.Length
    modifies dst
    ensures dst[..at] == old(dst[..at])
    ensures dst[at..at + |src|] == src
    ensures dst[at + |src|..] == old(dst[at + |src|..])
  {
    var i := 0;
    while i < |src|
      invariant 0 <= i <= |src|
      invariant dst[..at] == old(dst[..at])
      invariant dst[at..at + i] == src[..i]
      invariant dst[at + |src|..] == old(dst[at + |src|..])
    {
      dst[at + i] := src[i];
      assert dst[at..at + i + 1] == dst[at..at + i] + [src[i]];
      i := i + 1;
    }
  }
}
