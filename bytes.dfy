/** Bytes, the fixed-width integers of the file header, and the two memory
    primitives (memcpy and memmove) that the streaming reader uses. */
module Bytes {

  newtype byte = x: int | 0 <= x < 256

  /** 2^64: every `uint64_t` of the source is below it. */
  const U64_LIMIT: nat := 0x1_0000_0000_0000_0000

  /** Capacity of the dictionary slot of the header. The header that defines it
      (cbsl_internal.h) is not part of this model; the value is a placeholder and
      the proofs use only that it is positive and that MAX_DICTIONARY_SIZE + 1
      is below 2^64. */
  const MAX_DICTIONARY_SIZE: nat := 1024

  /** The library's file format version (cbsl.h, not part of this model); a
      placeholder below 2^64. */
  const CBSL_VERSION: nat := 1

  /** Offset of the compressed stream: version, dict_size_used, dictionary slot. */
  const HEADER_SIZE: nat := 16 + MAX_DICTIONARY_SIZE

  function Min(a: nat, b: nat): (r: nat)
    ensures r <= a && r <= b && (r == a || r == b)
  {
    if a <= b then a else b
  }

  /** The sum of a sequence of counts. */
  function Sum(xs: seq<nat>): nat
  {
    if xs == [] then 0 else xs[0] + Sum(xs[1..])
  }

  function Pow256(n: nat): (r: nat)
    ensures r > 0
  {
    if n == 0 then 1 else 256 * Pow256(n - 1)
  }

  /** The `n` low-order bytes of `x`, least significant first. */
  function LittleEndian(x: nat, n: nat): (r: seq<byte>)
    ensures |r| == n
  {
    if n == 0 then [] else [(x % 256) as byte] + LittleEndian(x / 256, n - 1)
  }

  /** The number whose little-endian representation is `b`. */
  function FromLittleEndian(b: seq<byte>): (r: nat)
    ensures r < Pow256(|b|)
  {
    if b == [] then 0
    else
      var rest := FromLittleEndian(b[1..]);
      assert rest + 1 <= Pow256(|b| - 1);
      assert 256 * (rest + 1) <= 256 * Pow256(|b| - 1);
      b[0] as nat + 256 * rest
  }

  /** Decoding undoes encoding for every value that fits in `n` bytes. */
  lemma {:induction false} DecodeEncode(x: nat, n: nat)
    requires x < Pow256(n)
    ensures FromLittleEndian(LittleEndian(x, n)) == x
  {
    if n > 0 {
      var e := LittleEndian(x, n);
      assert e[1..] == LittleEndian(x / 256, n - 1);
      DecodeEncode(x / 256, n - 1);
    }
  }

  /** Encoding undoes decoding: every byte string is the encoding of its value. */
  lemma {:induction false} EncodeDecode(b: seq<byte>)
    ensures LittleEndian(FromLittleEndian(b), |b|) == b
  {
    if b != [] {
      var v := FromLittleEndian(b);
      var rest := FromLittleEndian(b[1..]);
      assert v % 256 == b[0] as nat && v / 256 == rest;
      EncodeDecode(b[1..]);
    }
  }

  /** A `uint64_t` as the 8 bytes that fwrite puts in the file (little-endian
      is fixed for the source's native byte order). */
  function U64Bytes(x: nat): (r: seq<byte>)
    requires x < U64_LIMIT
    ensures |r| == 8 && U64Value(r) == x
  {
    DecodeEncode(x, 8);
    LittleEndian(x, 8)
  }

  /** The `uint64_t` that fread yields from 8 file bytes. */
  function U64Value(b: seq<byte>): (r: nat)
    requires |b| == 8
    ensures r < U64_LIMIT
  {
    FromLittleEndian(b)
  }

  /** The first `n` bytes after position `d`, and what follows them. */
  lemma SliceOfSuffix(t: seq<byte>, d: nat, n: nat)
    requires d + n <= |t|
    ensures t[d..][..n] == t[d..d + n] && t[d..][n..] == t[d + n..]
  {
  }

  /** What is kept past offset `i` is kept past every later offset `j`. */
  lemma SuffixKept(a: seq<byte>, b: seq<byte>, i: nat, j: nat)
    requires i <= j <= |a| && |a| == |b| && a[i..] == b[i..]
    ensures a[j..] == b[j..]
  {
    assert a[j..] == a[i..][j - i..];
    assert b[j..] == b[i..][j - i..];
  }

  /** memcpy(dst + to, src + from, n) between two distinct buffers. */
  method MemCopy(dst: array<byte>, to: nat, src: array<byte>, from: nat, n: nat)
    requires src != dst
    requires to + n <= dst.Length && from + n <= src.Length
    modifies dst
    ensures dst[..to + n] == old(dst[..to]) + src[from..from + n]
    ensures dst[to + n..] == old(dst[to + n..])
  {
    var i := 0;
    while i < n
      invariant 0 <= i <= n
      invariant forall j :: 0 <= j < dst.Length ==>
        dst[j] == (if to <= j < to + i then src[from + j - to] else old(dst[j]))
    {
      dst[to + i] := src[from + i];
      i := i + 1;
    }
    assert dst[..to + n] == old(dst[..to]) + src[from..from + n];
  }

  /** memmove(a, a + from, n): slides `n` bytes to the front of the same buffer. */
  method MoveToFront(a: array<byte>, from: nat, n: nat)
    requires from + n <= a.Length
    modifies a
    ensures a[..n] == old(a[from..from + n])
    ensures a[n..] == old(a[n..])
  {
    var i := 0;
    while i < n
      invariant 0 <= i <= n
      invariant forall j :: 0 <= j < a.Length ==>
        a[j] == (if j < i then old(a[from + j]) else old(a[j]))
    {
      a[i] := a[from + i];
      i := i + 1;
    }
  }
}
