/** The compression library as seen by the core: oracles with contracts only.
    Their bodies pick results nondeterministically within those contracts. */
module Zstd {
  import opened Bytes
  import opened Wrappers

  /** ZSTD_decompressStream, modelled by a copy engine: it consumes some of the
      input window [inPos, inSize) of `src` and appends exactly those bytes to
      the output window [outPos, outSize) of `dst`. How many is its own choice,
      but it makes progress whenever both windows have room. It may also report
      an error, in which case it changes nothing; `healthy` says that the
      compressed stream is well-formed, and then it never does. */
  method DecompressStream(healthy: bool, src: array<byte>, inPos: nat, inSize: nat,
                          dst: array<byte>, outPos: nat, outSize: nat)
    returns (isError: bool, newInPos: nat, newOutPos: nat)
    requires src != dst
    requires inPos <= inSize <= src.Length && outPos <= outSize <= dst.Length
    modifies dst
    ensures isError ==> newInPos == inPos && newOutPos == outPos && dst[..] == old(dst[..])
    ensures !isError ==> inPos <= newInPos <= inSize && outPos <= newOutPos <= outSize
    ensures !isError ==> newOutPos - outPos == newInPos - inPos
    ensures !isError && inPos < inSize && outPos < outSize ==> inPos < newInPos
    ensures !isError ==> dst[..newOutPos] == old(dst[..outPos]) + src[inPos..newInPos]
    ensures dst[newOutPos..] == old(dst[newOutPos..])
    ensures dst[outSize..] == old(dst[outSize..])
    ensures healthy ==> !isError
  {
    isError :| !healthy || !isError;
    if isError {
      newInPos, newOutPos := inPos, outPos;
      return;
    }
    var room := Min(inSize - inPos, outSize - outPos);
    var k: nat :| k <= room && (room > 0 ==> k > 0);
    MemCopy(dst, outPos, src, inPos, k);
    SuffixKept(dst[..], old(dst[..]), outPos + k, outSize);
    newInPos, newOutPos := inPos + k, outPos + k;
  }

  /** ZSTD_DCtx_loadDictionary_byReference / ZSTD_CCtx_loadDictionary_byReference:
      `current` is the dictionary the engine references before the call. The
      library may reject the new one, and then the reference stays as it was;
      otherwise the engine references the first `size` bytes of `dict`.
      `healthy` says that the engine is in working order, and then it never
      rejects a dictionary. */
  method LoadDictionaryByReference(healthy: bool, dict: array<byte>, size: nat, current: Option<nat>)
    returns (isError: bool, referenced: Option<nat>)
    requires size <= dict.Length
    ensures isError ==> referenced == current
    ensures !isError ==> referenced == Some(size)
    ensures healthy ==> !isError
  {
    isError :| !healthy || !isError;
    referenced := current;
    if !isError {
      referenced := Some(size);
    }
  }

  /** ZDICT_trainFromBuffer(dict, capacity, src, sizes, |sizes|): the samples
      are consecutive slices of `src` and must lie inside it; on success the
      trained dictionary fills the `size <= capacity` leading bytes of `dict`
      and nothing after them. It never writes past `capacity`. `healthy`
      says that the samples are fit for training, and then it never fails. */
  method TrainFromBuffer(healthy: bool, dict: array<byte>, capacity: nat, src: array<byte>, sizes: array<nat>)
    returns (isError: bool, size: nat)
    requires capacity <= dict.Length
    requires Sum(sizes[..]) <= src.Length
    modifies dict
    ensures !isError ==> size <= capacity
    ensures !isError ==> dict[size..] == old(dict[size..])
    ensures dict[capacity..] == old(dict[capacity..])
    ensures healthy ==> !isError
  {
    var trained: seq<byte> :| |trained| <= capacity;
    var i := 0;
    while i < |trained|
      invariant 0 <= i <= |trained|
      invariant dict[..i] == trained[..i]
      invariant dict[|trained|..] == old(dict[|trained|..])
    {
      dict[i] := trained[i];
      i := i + 1;
    }
    isError :| !healthy || !isError;
    size := |trained|;
  }
}
