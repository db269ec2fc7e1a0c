/** Opening and closing a session (src/file.c): the fixed header at the start
    of the file, its checks when loading, its placeholder when storing, and the
    rewrite of its dictionary part when a stored file is closed. */
module FileLifecycle {
  import opened Bytes
  import opened Stdio
  import opened Zstd
  import opened Context
  import opened Wrappers
  import StreamingRead

  /** The header fields after the version: `dict_size_used` and the full
      dictionary slot. */
  datatype Header = Header(dictSizeUsed: nat, dictionary: seq<byte>)

  /** Why a load-mode open rejects a file. */
  datatype HeaderError = ShortRead | VersionMismatch

  datatype Parsed = Parsed(header: Header) | Rejected(reason: HeaderError)

  /** The header a session writes: version, `dict_size_used`, dictionary slot. */
  function EncodeHeader(dictSizeUsed: nat, dictionary: seq<byte>): (r: seq<byte>)
    requires dictSizeUsed < U64_LIMIT && |dictionary| == MAX_DICTIONARY_SIZE
    ensures |r| == HEADER_SIZE
  {
    U64Bytes(CBSL_VERSION) + U64Bytes(dictSizeUsed) + dictionary
  }

  /** The checks of a load-mode open in the order the code makes them: a
      short version read, a wrong version, a short `dict_size_used` read, a
      short dictionary read. */
  function ParseHeader(file: seq<byte>): (r: Parsed)
    ensures r.Parsed? ==> |r.header.dictionary| == MAX_DICTIONARY_SIZE && r.header.dictSizeUsed < U64_LIMIT
  {
    if |file| < 8 then Rejected(ShortRead)
    else if U64Value(file[..8]) != CBSL_VERSION then Rejected(VersionMismatch)
    else if |file| < 16 then Rejected(ShortRead)
    else if |file| < HEADER_SIZE then Rejected(ShortRead)
    else Parsed(Header(U64Value(file[8..16]), file[16..HEADER_SIZE]))
  }

  /** A file is accepted exactly when it holds a whole header with the
      library's version. A file too short for the version is a short read;
      a wrong version is rejected as such, whatever follows it. */
  lemma ParseAccepts(file: seq<byte>)
    ensures ParseHeader(file).Parsed? <==>
      HEADER_SIZE <= |file| && U64Value(file[..8]) == CBSL_VERSION
    ensures |file| < 8 ==> ParseHeader(file) == Rejected(ShortRead)
    ensures 8 <= |file| && U64Value(file[..8]) != CBSL_VERSION ==> ParseHeader(file) == Rejected(VersionMismatch)
  {
  }

  /** The three parts of a written header followed by a stream. */
  lemma EncodedParts(dictSizeUsed: nat, dictionary: seq<byte>, stream: seq<byte>)
    requires dictSizeUsed < U64_LIMIT && |dictionary| == MAX_DICTIONARY_SIZE
    ensures var file := EncodeHeader(dictSizeUsed, dictionary) + stream;
      && |file| == HEADER_SIZE + |stream|
      && file[..8] == U64Bytes(CBSL_VERSION)
      && file[8..HEADER_SIZE] == U64Bytes(dictSizeUsed) + dictionary
      && file[HEADER_SIZE..] == stream
  {
    var file := EncodeHeader(dictSizeUsed, dictionary) + stream;
    assert file[8..HEADER_SIZE] == U64Bytes(dictSizeUsed) + dictionary;
  }

  /** Two files agree when their version parts, their dictionary parts and
      their streams agree. */
  lemma PartsEqual(a: seq<byte>, b: seq<byte>)
    requires HEADER_SIZE <= |a| == |b|
    requires a[..8] == b[..8] && a[8..HEADER_SIZE] == b[8..HEADER_SIZE] && a[HEADER_SIZE..] == b[HEADER_SIZE..]
    ensures a == b
  {
    assert a == a[..8] + a[8..HEADER_SIZE] + a[HEADER_SIZE..];
    assert b == b[..8] + b[8..HEADER_SIZE] + b[HEADER_SIZE..];
  }

  /** Reading a written header gives back its fields, whatever follows it. */
  lemma HeaderRoundTrip(dictSizeUsed: nat, dictionary: seq<byte>, stream: seq<byte>)
    requires dictSizeUsed < U64_LIMIT && |dictionary| == MAX_DICTIONARY_SIZE
    ensures ParseHeader(EncodeHeader(dictSizeUsed, dictionary) + stream) == Parsed(Header(dictSizeUsed, dictionary))
    ensures (EncodeHeader(dictSizeUsed, dictionary) + stream)[HEADER_SIZE..] == stream
  {
    var file := EncodeHeader(dictSizeUsed, dictionary) + stream;
    EncodedParts(dictSizeUsed, dictionary, stream);
    assert file[8..16] == file[8..HEADER_SIZE][..8];
    assert file[16..HEADER_SIZE] == file[8..HEADER_SIZE][8..];
  }

  /** What closing a stored file does to its bytes: `dict_size_used` and the
      dictionary overwrite [8, 16 + MAX_DICTIONARY_SIZE); the version before
      them and the stream after them are kept, and so is the length. */
  lemma RewriteKeepsVersionAndStream(data: seq<byte>, dictSizeUsed: nat, dictionary: seq<byte>)
    requires HEADER_SIZE <= |data|
    requires dictSizeUsed < U64_LIMIT && |dictionary| == MAX_DICTIONARY_SIZE
    ensures var r := Overwrite(Overwrite(data, 8, U64Bytes(dictSizeUsed)), 16, dictionary);
      && |r| == |data|
      && r[..8] == data[..8]
      && r[8..HEADER_SIZE] == U64Bytes(dictSizeUsed) + dictionary
      && r[HEADER_SIZE..] == data[HEADER_SIZE..]
  {
    OverwriteTwice(data, 8, U64Bytes(dictSizeUsed), dictionary);
    var r := Overwrite(data, 8, U64Bytes(dictSizeUsed) + dictionary);
    assert r[..8] == data[..8];
    assert r[HEADER_SIZE..] == data[HEADER_SIZE..];
  }

  /** A store session followed by a load session: the file a store-mode open
      starts (the placeholder header, then whatever stream was appended),
      rewritten by close, loads back the final `dict_size_used` and
      dictionary, and the load-mode stream starts where that stream began. */
  lemma StoreThenLoad(slot: seq<byte>, stream: seq<byte>, dictSizeUsed: nat, dictionary: seq<byte>)
    requires |slot| == MAX_DICTIONARY_SIZE
    requires dictSizeUsed < U64_LIMIT && |dictionary| == MAX_DICTIONARY_SIZE
    ensures var closed := Overwrite(Overwrite(EncodeHeader(0, slot) + stream, 8, U64Bytes(dictSizeUsed)), 16, dictionary);
      && ParseHeader(closed) == Parsed(Header(dictSizeUsed, dictionary))
      && closed[HEADER_SIZE..] == stream
  {
    var stored := EncodeHeader(0, slot) + stream;
    var closed := Overwrite(Overwrite(stored, 8, U64Bytes(dictSizeUsed)), 16, dictionary);
    var target := EncodeHeader(dictSizeUsed, dictionary) + stream;
    EncodedParts(0, slot, stream);
    RewriteKeepsVersionAndStream(stored, dictSizeUsed, dictionary);
    EncodedParts(dictSizeUsed, dictionary, stream);
    PartsEqual(closed, target);
    HeaderRoundTrip(dictSizeUsed, dictionary, stream);
  }

  /** The checks of a load-mode open as the code makes them (file.c:62-65)
      accept a header whose `dict_size_used` is larger than the dictionary
      slot it describes; file.c:68 would then prime the engine with that many
      bytes of a MAX_DICTIONARY_SIZE-byte allocation. */
  lemma OversizedDictionaryAccepted(slot: seq<byte>, stream: seq<byte>)
    requires |slot| == MAX_DICTIONARY_SIZE
    ensures var r := ParseHeader(EncodeHeader(MAX_DICTIONARY_SIZE + 1, slot) + stream);
      r.Parsed? && |r.header.dictionary| < r.header.dictSizeUsed
  {
    HeaderRoundTrip(MAX_DICTIONARY_SIZE + 1, slot, stream);
  }

  /** cbsl_close: nothing to do for a missing context. In store mode the
      header's `dict_size_used` and dictionary are rewritten in place (after
      cbsl_flush, which is outside this model) and the file position returns
      to the end. In every mode the context is released and the file closed,
      and the call succeeds. */
  method Close(ctx: Ctx?) returns (st: Status)
    requires ctx != null ==> ctx.Valid()
    modifies if ctx == null then {} else {ctx, ctx.fp}
    ensures st == Success
    ensures ctx != null ==> ctx.released && !ctx.fp.isOpen
    ensures ctx != null ==> ctx.dictSizeUsed == old(ctx.dictSizeUsed) < U64_LIMIT
    ensures ctx != null && ctx.mode == StoreMode ==>
      && ctx.fp.data == Overwrite(Overwrite(old(ctx.fp.data), 8, U64Bytes(ctx.dictSizeUsed)), 16, ctx.dictionary[..])
      && ctx.fp.pos == |ctx.fp.data|
    ensures ctx != null && ctx.mode != StoreMode ==> ctx.fp.data == old(ctx.fp.data)
  {
    if ctx == null {
      return Success;
    }
    if ctx.mode == StoreMode {
      ctx.fp.Seek(8);
      ctx.fp.Write(U64Bytes(ctx.dictSizeUsed));
      ctx.fp.Write(ctx.dictionary[..]);
      ctx.fp.SeekEnd();
    }
    ctx.released := true;
    ctx.fp.Close();
    return Success;
  }

  /** The load-mode header reads and checks of cbsl_open (file.c:59-71) on a
      fresh context whose file is at offset 0: each short read and a wrong
      version fail, and a non-empty dictionary is primed into the
      decompression engine, which a healthy engine accepts. On success the header's
      fields are in the context and the file is positioned at the stream.
      Unlike the code, a `dict_size_used` larger than the dictionary slot is
      rejected before priming (see OversizedDictionaryAccepted). */
  method LoadHeader(ctx: Ctx) returns (ok: bool)
    requires ctx.Valid() && ctx.fp.pos == 0 && ctx.dctxDict == None
    modifies ctx`dictSizeUsed, ctx`dctxDict, ctx.dictionary, ctx.fp`pos
    ensures ctx.Valid()
    ensures !ParseHeader(ctx.fp.data).Parsed? ==> !ok
    ensures ok ==> ParseHeader(ctx.fp.data) == Parsed(Header(ctx.dictSizeUsed, ctx.dictionary[..]))
    ensures ok ==> ctx.fp.Rest() == ctx.fp.data[HEADER_SIZE..]
    ensures ok ==> ctx.dctxDict == (if ctx.dictSizeUsed > 0 then Some(ctx.dictSizeUsed) else None)
    ensures ParseHeader(ctx.fp.data).Parsed? && ParseHeader(ctx.fp.data).header.dictSizeUsed == 0 ==> ok
    ensures ParseHeader(ctx.fp.data).Parsed? && ParseHeader(ctx.fp.data).header.dictSizeUsed > MAX_DICTIONARY_SIZE ==> !ok
    ensures ok ==> ctx.dictSizeUsed <= MAX_DICTIONARY_SIZE
    ensures (ctx.engineOk && ParseHeader(ctx.fp.data).Parsed? &&
             ParseHeader(ctx.fp.data).header.dictSizeUsed <= MAX_DICTIONARY_SIZE) ==> ok
  {
    ghost var file := ctx.fp.data;
    var version := ctx.fp.Read(8);
    if |version| != 8 {
      return false;
    }
    assert version == file[..8];
    if U64Value(version) != CBSL_VERSION {
      return false;
    }
    var used := ctx.fp.Read(8);
    if |used| != 8 {
      return false;
    }
    assert used == file[8..16];
    ctx.dictSizeUsed := U64Value(used);
    var got := ctx.fp.ReadInto(ctx.dictionary, 0, MAX_DICTIONARY_SIZE);
    if got != MAX_DICTIONARY_SIZE {
      return false;
    }
    assert ctx.dictionary[..] == file[16..HEADER_SIZE];
    if ctx.dictSizeUsed > MAX_DICTIONARY_SIZE {
      return false;
    }
    if ctx.dictSizeUsed > 0 {
      var isError, referenced := LoadDictionaryByReference(ctx.engineOk, ctx.dictionary, ctx.dictSizeUsed, ctx.dctxDict);
      ctx.dctxDict := referenced;
      if isError {
        return false;
      }
    }
    return true;
  }

  /** The store-mode header write of cbsl_open (file.c:72-78): the version,
      `dict_size_used` (zero in a fresh context) and the dictionary slot. */
  method StoreHeader(ctx: Ctx)
    requires ctx.Valid() && ctx.fp.data == [] && ctx.fp.pos == 0
    modifies ctx.fp`data, ctx.fp`pos
    ensures ctx.Valid()
    ensures ctx.fp.data == EncodeHeader(ctx.dictSizeUsed, ctx.dictionary[..])
    ensures ctx.fp.pos == HEADER_SIZE
  {
    ctx.fp.Write(U64Bytes(CBSL_VERSION));
    ctx.fp.Write(U64Bytes(ctx.dictSizeUsed));
    ctx.fp.Write(ctx.dictionary[..]);
    OverwriteTwice([], 0, U64Bytes(CBSL_VERSION), U64Bytes(ctx.dictSizeUsed));
    OverwriteTwice([], 0, U64Bytes(CBSL_VERSION) + U64Bytes(ctx.dictSizeUsed), ctx.dictionary[..]);
  }

  /** The part of cbsl_open after a successful fopen(path, "rb"): the context
      is set up, and a header that LoadHeader rejects releases it through
      cbsl_close, which closes the file. `engineOk` says whether the file's
      stream is well-formed for the decompression engine. */
  method OpenLoad(fp: File, inCap: nat, outCap: nat, engineOk: bool) returns (ctx: Ctx?)
    requires 0 < inCap && 0 < outCap && fp.pos == 0 && fp.isOpen
    modifies fp
    ensures fp.data == old(fp.data)
    ensures !ParseHeader(fp.data).Parsed? ==> ctx == null
    ensures ParseHeader(fp.data).Parsed? && ParseHeader(fp.data).header.dictSizeUsed == 0 ==> ctx != null
    ensures ParseHeader(fp.data).Parsed? && ParseHeader(fp.data).header.dictSizeUsed > MAX_DICTIONARY_SIZE ==> ctx == null
    ensures (engineOk && ParseHeader(fp.data).Parsed? &&
             ParseHeader(fp.data).header.dictSizeUsed <= MAX_DICTIONARY_SIZE) ==> ctx != null
    ensures ctx == null ==> !fp.isOpen
    ensures ctx != null ==>
      && fresh(ctx) && ctx.fp == fp && ctx.Valid() && ctx.mode == LoadMode && fp.isOpen
      && fresh(ctx.inBuffer) && fresh(ctx.outBuffer) && fresh(ctx.dictionary)
      && ctx.engineOk == engineOk && ctx.dictSizeUsed <= MAX_DICTIONARY_SIZE
      && ctx.inBuffer.Length == inCap && ctx.outBuffer.Length == outCap
      && ctx.OutWindow() == [] && ctx.InWindow() == [] && ctx.cctxDict == None
      && ParseHeader(fp.data) == Parsed(Header(ctx.dictSizeUsed, ctx.dictionary[..]))
      && ctx.Pending() == fp.data[HEADER_SIZE..]
      && ctx.dctxDict == (if ctx.dictSizeUsed > 0 then Some(ctx.dictSizeUsed) else None)
  {
    assert |Zeros(MAX_DICTIONARY_SIZE)| == MAX_DICTIONARY_SIZE;
    var slot: seq<byte> :| |slot| == MAX_DICTIONARY_SIZE;
    ctx := new Ctx(LoadMode, fp, inCap, outCap, slot, engineOk);
    var ok := LoadHeader(ctx);
    if !ok {
      var _ := Close(ctx);
      return null;
    }
  }

  /** The part of cbsl_open after a successful fopen(path, "wb"): the context
      is set up and the placeholder header written. */
  method OpenStore(fp: File, inCap: nat, outCap: nat, engineOk: bool) returns (ctx: Ctx)
    requires 0 < inCap && 0 < outCap && fp.data == [] && fp.pos == 0 && fp.isOpen
    modifies fp
    ensures fresh(ctx) && ctx.fp == fp && ctx.Valid() && ctx.mode == StoreMode && fp.isOpen
    ensures fresh(ctx.inBuffer) && fresh(ctx.outBuffer) && fresh(ctx.dictionary)
    ensures ctx.engineOk == engineOk
    ensures ctx.inBuffer.Length == inCap && ctx.outBuffer.Length == outCap
    ensures ctx.OutWindow() == [] && ctx.InWindow() == [] && ctx.cctxDict == None && ctx.dctxDict == None
    ensures ctx.dictSizeUsed == 0
    ensures fp.data == EncodeHeader(0, ctx.dictionary[..]) && fp.pos == HEADER_SIZE
  {
    assert |Zeros(MAX_DICTIONARY_SIZE)| == MAX_DICTIONARY_SIZE;
    var slot: seq<byte> :| |slot| == MAX_DICTIONARY_SIZE;
    ctx := new Ctx(StoreMode, fp, inCap, outCap, slot, engineOk);
    StoreHeader(ctx);
  }

  /** cbsl_open: a missing path and a mode other than load or store give no
      context; so does a file that cannot be opened. A load-mode open fails
      exactly as LoadHeader does; a successful one leaves the stream after
      the header as everything still to be read. A store-mode open writes a
      header with an empty dictionary record. The dictionary slot holds
      whatever its allocation held, and the staging capacities are those of
      create_streaming_buffers; `engineOk` says whether the stream is
      well-formed for the decompression engine. */
  method Open(mode: Mode, path: Option<string>, fs: map<string, seq<byte>>, inCap: nat, outCap: nat,
              engineOk: bool)
    returns (ctx: Ctx?)
    requires 0 < inCap && 0 < outCap
    ensures path == None || mode == OtherMode ==> ctx == null
    ensures ctx != null ==>
      && fresh(ctx) && fresh(ctx.fp) && ctx.Valid() && ctx.mode == mode && ctx.fp.isOpen
      && fresh(ctx.inBuffer) && fresh(ctx.outBuffer) && fresh(ctx.dictionary)
      && ctx.inBuffer.Length == inCap && ctx.outBuffer.Length == outCap
      && ctx.OutWindow() == [] && ctx.InWindow() == [] && ctx.cctxDict == None
      && ctx.engineOk == engineOk
    ensures mode == LoadMode && path.Some? && path.value !in fs ==> ctx == null
    ensures mode == LoadMode && path.Some? && path.value in fs && !ParseHeader(fs[path.value]).Parsed? ==> ctx == null
    ensures (mode == LoadMode && path.Some? && path.value in fs && ParseHeader(fs[path.value]).Parsed? &&
             ParseHeader(fs[path.value]).header.dictSizeUsed == 0) ==> ctx != null
    ensures (mode == LoadMode && path.Some? && path.value in fs && ParseHeader(fs[path.value]).Parsed? &&
             ParseHeader(fs[path.value]).header.dictSizeUsed > MAX_DICTIONARY_SIZE) ==> ctx == null
    ensures (mode == LoadMode && path.Some? && path.value in fs && ParseHeader(fs[path.value]).Parsed? &&
             ParseHeader(fs[path.value]).header.dictSizeUsed <= MAX_DICTIONARY_SIZE && engineOk) ==> ctx != null
    ensures mode == LoadMode && ctx != null ==>
      && path.Some? && path.value in fs
      && ParseHeader(fs[path.value]) == Parsed(Header(ctx.dictSizeUsed, ctx.dictionary[..]))
      && ctx.Pending() == fs[path.value][HEADER_SIZE..]
      && ctx.dctxDict == (if ctx.dictSizeUsed > 0 then Some(ctx.dictSizeUsed) else None)
      && ctx.dictSizeUsed <= MAX_DICTIONARY_SIZE
    ensures mode == StoreMode && ctx != null ==>
      && ctx.dictSizeUsed == 0 && ctx.dctxDict == None
      && ctx.fp.data == EncodeHeader(0, ctx.dictionary[..]) && ctx.fp.pos == HEADER_SIZE
  {
    if path == None || mode == OtherMode {
      return null;
    }
    if mode == LoadMode {
      var fp := OpenForReading(fs, path.value);
      if fp == null {
        return null;
      }
      ctx := OpenLoad(fp, inCap, outCap, engineOk);
    } else {
      var fp := OpenForWriting(path.value);
      if fp == null {
        return null;
      }
      ctx := OpenStore(fp, inCap, outCap, engineOk);
    }
  }

  /** A caller that opens a stored file in load mode and reads it back in
      chunks of the given sizes. A file with a valid header whose dictionary
      fits the slot, read with a healthy engine in requests that each fit the
      output buffer and together fit the stream, always gives back the
      stream after the header, however the requests are split. */
  method OpenAndRead(path: string, fs: map<string, seq<byte>>, inCap: nat, outCap: nat,
                     engineOk: bool, sizes: seq<nat>)
    returns (st: Status, chunks: seq<seq<byte>>)
    requires 0 < inCap && 0 < outCap
    ensures st == Success ==>
      && path in fs && ParseHeader(fs[path]).Parsed?
      && Sum(sizes) <= |fs[path]| - HEADER_SIZE
      && StreamingRead.Flatten(chunks) == fs[path][HEADER_SIZE..][..Sum(sizes)]
    ensures (path in fs && ParseHeader(fs[path]).Parsed? &&
             ParseHeader(fs[path]).header.dictSizeUsed <= MAX_DICTIONARY_SIZE &&
             engineOk && Sum(sizes) <= |fs[path]| - HEADER_SIZE &&
             forall k :: 0 <= k < |sizes| ==> sizes[k] <= outCap) ==> st == Success
  {
    var ctx := Open(LoadMode, Some(path), fs, inCap, outCap, engineOk);
    if ctx == null {
      return Error, [];
    }
    st, chunks := StreamingRead.ReadSequence(ctx, sizes);
  }
}
