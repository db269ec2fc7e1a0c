/** Dictionary training (src/dict.c): the argument checks, the sample-table
    arithmetic, and the update of the context after the trainer and the
    compression engine have been called. */
module Dictionary {
  import opened Bytes
  import opened Zstd
  import opened Context
  import opened Wrappers
  import opened Stdio
  import FileLifecycle

  /** How much of the source the trainer may look at: at most a hundred
      dictionaries' worth. */
  const TRAINING_LIMIT: nat := MAX_DICTIONARY_SIZE * 100

  /** `used_size` of cbsl_train_data: the source size, capped. */
  function UsedSize(totalSize: nat): (r: nat)
    ensures r <= totalSize && r <= TRAINING_LIMIT
    ensures r == totalSize || r == TRAINING_LIMIT
  {
    Min(totalSize, TRAINING_LIMIT)
  }

  /** `nsamples`: the number of whole samples that fit in the used size. */
  function SampleCount(sampleSize: nat, totalSize: nat): (n: nat)
    requires 0 < sampleSize
    ensures n * sampleSize <= UsedSize(totalSize) < (n + 1) * sampleSize
  {
    UsedSize(totalSize) / sampleSize
  }

  /** A table of `n` equal sample sizes adds up to `n` samples. */
  lemma {:induction false} SumOfEqualSizes(sizes: seq<nat>, sampleSize: nat)
    requires forall i :: 0 <= i < |sizes| ==> sizes[i] == sampleSize
    ensures Sum(sizes) == |sizes| * sampleSize
    decreases |sizes|
  {
    if sizes != [] {
      SumOfEqualSizes(sizes[1..], sampleSize);
    }
  }

  /** The samples the table describes never pass the end of the source. */
  lemma SamplesWithinSource(sizes: seq<nat>, sampleSize: nat, totalSize: nat)
    requires 0 < sampleSize && |sizes| == SampleCount(sampleSize, totalSize)
    requires forall i :: 0 <= i < |sizes| ==> sizes[i] == sampleSize
    ensures Sum(sizes) <= UsedSize(totalSize) <= totalSize
  {
    SumOfEqualSizes(sizes, sampleSize);
  }

  /** The loop of dict.c:49-52: a fresh table of `n` entries, each equal to
      `sampleSize`. */
  method SampleTable(n: nat, sampleSize: nat) returns (table: array<nat>)
    ensures fresh(table) && table.Length == n
    ensures forall i :: 0 <= i < n ==> table[i] == sampleSize
  {
    table := new nat[n];
    var i := 0;
    while i < n
      invariant 0 <= i <= n
      invariant forall j :: 0 <= j < i ==> table[j] == sampleSize
    {
      table[i] := sampleSize;
      i := i + 1;
    }
  }

  /** cbsl_train_data: a missing context or source, an empty sample or source
      size and a context not in store mode are rejected without touching
      anything (the dictionary of a live context is never missing here).
      Otherwise the trainer fills at most MAX_DICTIONARY_SIZE bytes of the
      dictionary from whole samples of the source; only when it succeeds is
      `dict_size_used` set to the trained size, which then stays even if the
      compression engine refuses the dictionary. On success the engine
      references exactly that many bytes. The caller's source holds at least
      `totalSize` bytes. `trainerOk` says that the samples are fit for
      training; with it and a healthy engine, valid arguments always succeed.
      With a healthy engine an error can only be a training failure, which
      leaves `dict_size_used` as it was; with fit samples it can only be a
      priming failure, which keeps the trained size. */
  method TrainData(ctx: Ctx?, src: array?<byte>, sampleSize: nat, totalSize: nat, trainerOk: bool)
    returns (st: Status)
    requires ctx != null ==> ctx.Valid()
    requires src != null ==> totalSize <= src.Length
    requires ctx != null && src != null ==> src != ctx.dictionary
    modifies if ctx == null then {} else {ctx, ctx.dictionary}
    ensures ctx != null ==> ctx.Valid()
    ensures ctx == null || src == null || sampleSize == 0 || totalSize == 0 ==> st == Error
    ensures ctx != null && ctx.mode != StoreMode ==> st == Error
    ensures ctx != null && (src == null || sampleSize == 0 || totalSize == 0 || ctx.mode != StoreMode) ==>
      unchanged(ctx) && unchanged(ctx.dictionary)
    ensures ctx != null ==>
      ctx.dictSizeUsed == old(ctx.dictSizeUsed) || ctx.dictSizeUsed <= MAX_DICTIONARY_SIZE
    ensures ctx != null && st == Error ==> ctx.cctxDict == old(ctx.cctxDict)
    ensures ctx != null && st == Success ==>
      ctx.dictSizeUsed <= MAX_DICTIONARY_SIZE && ctx.cctxDict == Some(ctx.dictSizeUsed)
    ensures ctx != null ==>
      && ctx.dctxDict == old(ctx.dctxDict)
      && ctx.inPos == old(ctx.inPos) && ctx.inUsed == old(ctx.inUsed)
      && ctx.outPos == old(ctx.outPos) && ctx.outUsed == old(ctx.outUsed)
    ensures (ctx != null && src != null && 0 < sampleSize && 0 < totalSize && ctx.mode == StoreMode &&
             trainerOk && ctx.engineOk) ==> st == Success
    ensures ctx != null && ctx.engineOk && st == Error ==> ctx.dictSizeUsed == old(ctx.dictSizeUsed)
    ensures (ctx != null && src != null && 0 < sampleSize && 0 < totalSize && ctx.mode == StoreMode &&
             trainerOk && st == Error) ==>
      ctx.dictSizeUsed <= MAX_DICTIONARY_SIZE && ctx.cctxDict == old(ctx.cctxDict)
  {
    if ctx == null || src == null || sampleSize == 0 || totalSize == 0 || ctx.mode != StoreMode {
      return Error;
    }
    var nsamples := SampleCount(sampleSize, totalSize);
    var sizes := SampleTable(nsamples, sampleSize);
    SamplesWithinSource(sizes[..], sampleSize, totalSize);
    var isError, trained := TrainFromBuffer(trainerOk, ctx.dictionary, MAX_DICTIONARY_SIZE, src, sizes);
    if isError {
      return Error;
    }
    ctx.dictSizeUsed := trained;
    var refused, referenced := LoadDictionaryByReference(ctx.engineOk, ctx.dictionary, ctx.dictSizeUsed, ctx.cctxDict);
    ctx.cctxDict := referenced;
    if refused {
      return Error;
    }
    return Success;
  }

  /** A store session that trains a dictionary and closes, as a caller does
      before writing its payload (cbsl_write is outside this model): open on
      a freshly created file, cbsl_train_data, cbsl_close. Whatever training
      does, the closed file holds a header that a load-mode open accepts,
      with a dictionary that fits the slot. With fit samples and healthy
      engines, training succeeds and the header carries the trained
      dictionary. */
  method TrainAndClose(fp: File, inCap: nat, outCap: nat, engineOk: bool,
                       src: array<byte>, sampleSize: nat, totalSize: nat, trainerOk: bool)
    returns (st: Status, dictSizeUsed: nat)
    requires 0 < inCap && 0 < outCap && fp.data == [] && fp.pos == 0 && fp.isOpen
    requires totalSize <= src.Length
    modifies fp
    ensures !fp.isOpen
    ensures dictSizeUsed <= MAX_DICTIONARY_SIZE
    ensures FileLifecycle.ParseHeader(fp.data).Parsed?
    ensures FileLifecycle.ParseHeader(fp.data).header.dictSizeUsed == dictSizeUsed
    ensures fp.data[HEADER_SIZE..] == []
    ensures st == Success ==> 0 < sampleSize && 0 < totalSize
    ensures engineOk && trainerOk && 0 < sampleSize && 0 < totalSize ==> st == Success
  {
    var ctx := FileLifecycle.OpenStore(fp, inCap, outCap, engineOk);
    ghost var slot := ctx.dictionary[..];
    st := TrainData(ctx, src, sampleSize, totalSize, trainerOk);
    dictSizeUsed := ctx.dictSizeUsed;
    ghost var dictionary := ctx.dictionary[..];
    var _ := FileLifecycle.Close(ctx);
    FileLifecycle.StoreThenLoad(slot, [], dictSizeUsed, dictionary);
    assert FileLifecycle.EncodeHeader(0, slot) + [] == FileLifecycle.EncodeHeader(0, slot);
  }
}
