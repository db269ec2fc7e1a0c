/** The session context `cbsl_ctx`: mode, file, dictionary, the engines'
    dictionary references, and the two staging buffers with their cursors. */
module Context {
  import opened Bytes
  import opened Stdio
  import opened Wrappers

  /** `cbsl_mode`; `OtherMode` stands for any other value of the enum's type. */
  datatype Mode = LoadMode | StoreMode | OtherMode

  /** `cbsl_errors`. */
  datatype Status = Success | Error

  class Ctx {
    const mode: Mode
    const fp: File
    const dictionary: array<byte>
    var dictSizeUsed: nat
    /** Size of the dictionary the compression engine references, once primed. */
    var cctxDict: Option<nat>
    /** Size of the dictionary the decompression engine references, once primed. */
    var dctxDict: Option<nat>
    const inBuffer: array<byte>
    var inPos: nat
    var inUsed: nat
    const outBuffer: array<byte>
    var outPos: nat
    var outUsed: nat
    /** Set once cbsl_close has released the context. */
    var released: bool
    /** Whether the engines are in working order for this context: the stream
        it reads is well-formed compressed data and its dictionaries are
        accepted, so that no engine call reports an error. */
    const engineOk: bool

    /** The zeroed context of cbsl_open with its file, its staging buffers of
        the given capacities and its dictionary slot; `slot` is whatever the
        dictionary allocation held (malloc does not clear it). */
    constructor (mode: Mode, fp: File, inCap: nat, outCap: nat, slot: seq<byte>, engineOk: bool)
      requires inCap > 0 && outCap > 0 && |slot| == MAX_DICTIONARY_SIZE
      ensures Valid()
      ensures this.mode == mode && this.fp == fp && this.engineOk == engineOk
      ensures fresh(inBuffer) && fresh(outBuffer) && fresh(dictionary)
      ensures inBuffer.Length == inCap && outBuffer.Length == outCap
      ensures dictionary[..] == slot
      ensures dictSizeUsed == 0 && cctxDict == None && dctxDict == None
      ensures inPos == 0 && inUsed == 0 && outPos == 0 && outUsed == 0
    {
      this.mode := mode;
      this.fp := fp;
      this.engineOk := engineOk;
      dictionary := new byte[MAX_DICTIONARY_SIZE](i requires 0 <= i < MAX_DICTIONARY_SIZE => slot[i]);
      dictSizeUsed := 0;
      cctxDict, dctxDict := None, None;
      inBuffer := new byte[inCap];
      outBuffer := new byte[outCap];
      inPos, inUsed, outPos, outUsed := 0, 0, 0, 0;
      released := false;
    }

    /** The context invariant. The output window only promises pos <= used: an
        immediate read leaves both cursors at the read size, which may exceed
        the output buffer's capacity. */
    ghost predicate Valid()
      reads this
    {
      && !released
      && inBuffer != outBuffer && dictionary != inBuffer && dictionary != outBuffer
      && dictionary.Length == MAX_DICTIONARY_SIZE
      && dictSizeUsed < U64_LIMIT
      && InputValid() && OutputValid()
    }

    /** The input staging buffer's cursors. */
    ghost predicate InputValid()
      reads this`inPos, this`inUsed
    {
      0 < inBuffer.Length && inPos <= inUsed <= inBuffer.Length
    }

    /** The output staging buffer's cursors. */
    ghost predicate OutputValid()
      reads this`outPos, this`outUsed
    {
      0 < outBuffer.Length && outPos <= outUsed && (outPos < outUsed ==> outUsed <= outBuffer.Length)
    }

    /** Compressed bytes read from the file and not yet fed to the engine. */
    ghost function InWindow(): seq<byte>
      reads this`inPos, this`inUsed, inBuffer
      requires InputValid()
    {
      inBuffer[inPos..inUsed]
    }

    /** Decompressed bytes not yet delivered to a caller. */
    ghost function OutWindow(): seq<byte>
      reads this`outPos, this`outUsed, outBuffer
      requires OutputValid()
    {
      if outPos < outUsed then outBuffer[outPos..outUsed] else []
    }

    /** Compressed bytes not yet fed to the engine: the input window, then
        the rest of the file. */
    ghost function Staged(): seq<byte>
      reads this`inPos, this`inUsed, inBuffer, fp
      requires InputValid()
    {
      InWindow() + fp.Rest()
    }

    /** Everything still to be delivered, in order: the decompressed leftovers,
        then the staged input (the copy engine decompresses a byte to itself). */
    ghost function Pending(): seq<byte>
      reads this`inPos, this`inUsed, inBuffer, fp
      reads this`outPos, this`outUsed, outBuffer
      requires InputValid() && OutputValid()
    {
      OutWindow() + Staged()
    }
  }
}
