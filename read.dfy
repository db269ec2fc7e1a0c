/** The streaming reader of src/read.c: it moves bytes from the file through
    the input staging buffer and the engine, and through the output staging
    buffer, into the caller's buffer, exactly `size` bytes per call. */
module StreamingRead {
  import opened Bytes
  import opened Stdio
  import opened Zstd
  import opened Context

  // Sequence bookkeeping used by the conservation proofs below.

  /** Delivering the first `n` bytes of `w` and keeping the rest loses nothing. */
  lemma TakeDrop(d: seq<byte>, w: seq<byte>, n: nat)
    requires n <= |w|
    ensures (d + w[..n]) + w[n..] == d + w
  {
    assert w[..n] + w[n..] == w;
  }

  /** Delivering the next slice of `w` after its first `i` bytes. */
  lemma AppendSlice(a: seq<byte>, w: seq<byte>, i: nat, j: nat)
    requires i <= j <= |w|
    ensures (a + w[..i]) + w[i..j] == a + w[..j]
  {
    assert w[..i] + w[i..j] == w[..j];
  }

  /** Appending the same tail to both sides of an equation. */
  lemma Associate(a: seq<byte>, left: seq<byte>, rest: seq<byte>, d: seq<byte>, w: seq<byte>)
    requires a + left == d + w
    ensures a + (left + rest) == d + (w + rest)
  {
    calc {
      a + (left + rest);
      (a + left) + rest;
    }
  }

  /** Associate, with the output window between the delivered prefix and the input window. */
  lemma Regroup(a: seq<byte>, out: seq<byte>, left: seq<byte>, rest: seq<byte>, d: seq<byte>, w: seq<byte>)
    requires (a + out) + left == d + w
    ensures a + (out + (left + rest)) == d + (w + rest)
  {
    calc {
      a + (out + (left + rest));
      ((a + out) + left) + rest;
    }
  }

  /** read_from_buffer: copies the leading min(|window|, size) bytes of the
      output window to data[off..] and consumes them from the window. */
  method ReadFromBuffer(ctx: Ctx, data: array<byte>, off: nat, size: nat) returns (n: nat)
    requires ctx.Valid() && data != ctx.outBuffer
    requires off + Min(|ctx.OutWindow()|, size) <= data.Length
    modifies ctx`outPos, data
    ensures ctx.Valid()
    ensures n == Min(|old(ctx.OutWindow())|, size)
    ensures data[..off + n] == old(data[..off]) + old(ctx.OutWindow())[..n]
    ensures data[off + n..] == old(data[off + n..])
    ensures ctx.OutWindow() == old(ctx.OutWindow())[n..]
    ensures old(ctx.outPos >= ctx.outUsed) ==> n == 0 && ctx.outPos == old(ctx.outPos)
  {
    n := 0;
    if ctx.outPos < ctx.outUsed {
      var readSize := Min(ctx.outUsed - ctx.outPos, size);
      assert ctx.OutWindow()[..readSize] == ctx.outBuffer[ctx.outPos..ctx.outPos + readSize];
      MemCopy(data, off, ctx.outBuffer, ctx.outPos, readSize);
      ctx.outPos := ctx.outPos + readSize;
      n := readSize;
    }
  }

  /** The compaction step shared by both strategies: the unconsumed input
      slides to the front of the input buffer. */
  method CompactInput(ctx: Ctx)
    requires ctx.Valid()
    modifies ctx`inPos, ctx`inUsed, ctx.inBuffer
    ensures ctx.Valid() && ctx.inPos == 0
    ensures ctx.InWindow() == old(ctx.InWindow())
  {
    if ctx.inPos < ctx.inUsed {
      MoveToFront(ctx.inBuffer, ctx.inPos, ctx.inUsed - ctx.inPos);
      ctx.inUsed := ctx.inUsed - ctx.inPos;
    } else {
      ctx.inUsed := 0;
    }
    ctx.inPos := 0;
  }

  /** The refill step shared by both strategies: the free tail of the input
      buffer is filled with the next file bytes, as many as there are. */
  method RefillInput(ctx: Ctx)
    requires ctx.Valid() && ctx.inPos == 0
    modifies ctx`inUsed, ctx.inBuffer, ctx.fp`pos
    ensures ctx.Valid() && ctx.inPos == 0
    ensures |ctx.InWindow()| == Min(ctx.inBuffer.Length, |old(ctx.InWindow())| + |old(ctx.fp.Rest())|)
    ensures ctx.InWindow() + ctx.fp.Rest() == old(ctx.InWindow()) + old(ctx.fp.Rest())
  {
    ghost var window, rest := ctx.InWindow(), ctx.fp.Rest();
    var used := ctx.inUsed;
    assert window == ctx.inBuffer[..used];
    var got := ctx.fp.ReadInto(ctx.inBuffer, used, ctx.inBuffer.Length - used);
    ctx.inUsed := used + got;
    assert used + got == Min(ctx.inBuffer.Length, |window| + |rest|);
    assert ctx.InWindow() == ctx.inBuffer[..used + got] == window + rest[..got];
    TakeDrop(window, rest, got);
  }

  /** Compaction followed by refill: nothing is lost, and the window is empty
      only when the file has nothing more to give. */
  method PrepareInput(ctx: Ctx)
    requires ctx.Valid()
    modifies ctx`inPos, ctx`inUsed, ctx.inBuffer, ctx.fp`pos
    ensures ctx.Valid() && ctx.inPos == 0
    ensures ctx.InWindow() + ctx.fp.Rest() == old(ctx.InWindow()) + old(ctx.fp.Rest())
    ensures ctx.InWindow() == [] ==> ctx.fp.Rest() == []
    ensures old(ctx.Staged()) != [] ==> 0 < ctx.inUsed
    ensures |ctx.InWindow()| == Min(ctx.inBuffer.Length, |old(ctx.Staged())|)
  {
    CompactInput(ctx);
    RefillInput(ctx);
  }

  /** The inner loop of streaming_read_immediate (read.c:50-55): the engine
      runs over the input window straight into data[opos..size) until either
      is exhausted; the first `ipos` bytes of the window are what it
      consumed, and they are what it appended. Nothing past data[size) is
      written, and an empty window calls no engine at all. */
  method DecompressToDestination(ctx: Ctx, data: array<byte>, opos: nat, size: nat)
    returns (isError: bool, ipos: nat, newOut: nat)
    requires ctx.Valid() && ctx.inPos == 0
    requires data != ctx.inBuffer && opos <= size <= data.Length
    modifies data
    ensures !isError ==> ipos <= ctx.inUsed && opos <= newOut <= size
    ensures !isError ==> data[..newOut] == old(data[..opos]) + ctx.inBuffer[..ipos]
    ensures !isError && 0 < ctx.inUsed && opos < size ==> opos < newOut
    ensures ctx.inUsed == 0 ==> !isError && newOut == opos
    ensures !isError ==> ipos == ctx.inUsed || newOut == size
    ensures ctx.engineOk ==> !isError
    ensures data[size..] == old(data[size..])
  {
    ghost var window := ctx.inBuffer[..];
    ghost var delivered := data[..opos];
    ipos, newOut := 0, opos;
    while ipos < ctx.inUsed && newOut < size
      invariant ipos <= ctx.inUsed && opos <= newOut <= size
      invariant newOut - opos == ipos
      invariant window == ctx.inBuffer[..]
      invariant data[..newOut] == delivered + window[..ipos]
      invariant data[size..] == old(data[size..])
      decreases ctx.inUsed - ipos
    {
      var newIn;
      isError, newIn, newOut := DecompressStream(ctx.engineOk, ctx.inBuffer, ipos, ctx.inUsed, data, newOut, size);
      if isError {
        return;
      }
      assert ctx.inBuffer[ipos..newIn] == window[ipos..newIn];
      AppendSlice(delivered, window, ipos, newIn);
      ipos := newIn;
    }
    assert ctx.inBuffer[..ipos] == window[..ipos];
    isError := false;
  }

  /** The inner loop of streaming_read_immediate followed by the write-back
      of the input cursors (read.c:50-57): what the engine consumed has been
      appended to data[..opos], and the rest is the new input window. */
  method DecompressInput(ctx: Ctx, data: array<byte>, opos: nat, size: nat)
    returns (isError: bool, newOut: nat)
    requires ctx.Valid() && ctx.inPos == 0
    requires data != ctx.inBuffer && opos <= size <= data.Length
    modifies ctx`inPos, data
    ensures ctx.Valid()
    ensures !isError ==> opos <= newOut <= size
    ensures !isError ==> data[..newOut] + ctx.InWindow() == old(data[..opos]) + old(ctx.InWindow())
    ensures !isError && 0 < ctx.inUsed && opos < size ==> opos < newOut
    ensures ctx.inUsed == 0 ==> !isError && newOut == opos
    ensures !isError ==> ctx.InWindow() == [] || newOut == size
    ensures ctx.engineOk ==> !isError
    ensures data[size..] == old(data[size..])
  {
    ghost var window := ctx.InWindow();
    ghost var delivered := data[..opos];
    var ipos;
    isError, ipos, newOut := DecompressToDestination(ctx, data, opos, size);
    if !isError {
      ctx.inPos := ipos;
      assert ctx.inBuffer[..ipos] == window[..ipos];
      TakeDrop(delivered, window, ipos);
    }
  }

  /** One pass of the outer loop of streaming_read_immediate as written
      (read.c:36-57): compaction, refill, the engine loop, and the write-back
      of the input cursors. A pass that does not fail delivers at least one
      byte when the refilled window is not empty. The window is empty exactly
      when nothing was staged, and then the pass calls no engine, delivers
      nothing and leaves nothing staged: the next pass starts from the same
      state, so the loop at read.c:33 never exits at the end of the stream. */
  method ImmediateRound(ctx: Ctx, data: array<byte>, opos: nat, size: nat)
    returns (isError: bool, newOut: nat)
    requires ctx.Valid()
    requires data != ctx.inBuffer && opos < size <= data.Length
    modifies ctx`inPos, ctx`inUsed, ctx.inBuffer, ctx.fp`pos, data
    ensures ctx.Valid()
    ensures !isError ==> opos <= newOut <= size
    ensures !isError && 0 < ctx.inUsed ==> opos < newOut
    ensures !isError ==> data[..newOut] + ctx.Staged() == old(data[..opos]) + old(ctx.Staged())
    ensures ctx.inUsed == 0 <==> old(ctx.Staged()) == []
    ensures ctx.inUsed == 0 ==> !isError && newOut == opos && ctx.Staged() == []
    ensures !isError ==> ctx.InWindow() == [] || newOut == size
    ensures ctx.engineOk ==> !isError
    ensures data[size..] == old(data[size..])
  {
    ghost var delivered := data[..opos];
    PrepareInput(ctx);
    ghost var window, rest := ctx.InWindow(), ctx.fp.Rest();
    isError, newOut := DecompressInput(ctx, data, opos, size);
    if ctx.inUsed == 0 {
      assert window == [] && rest == [];
      assert ctx.InWindow() == [];
    } else if !isError {
      Associate(data[..newOut], ctx.InWindow(), rest, delivered, window);
    }
  }

  /** streaming_read_immediate: the engine decompresses straight into `data`.
      It refuses to run while decompressed bytes are still buffered, since
      they would be overtaken; otherwise it delivers the next `size` bytes
      and leaves the output window empty with both cursors at `size`. Nothing
      past data[size) is written. A pass whose refill finds the stream ended
      fails, where the code as written would repeat it forever. */
  method StreamingReadImmediate(ctx: Ctx, data: array<byte>, size: nat) returns (st: Status)
    requires ctx.Valid()
    requires data != ctx.inBuffer && data != ctx.outBuffer && size <= data.Length
    modifies ctx`inPos, ctx`inUsed, ctx`outPos, ctx`outUsed, ctx.inBuffer, ctx.fp`pos, data
    ensures ctx.Valid()
    ensures old(ctx.outPos < ctx.outUsed) ==>
      st == Error && unchanged(ctx, ctx.inBuffer, ctx.fp, data)
    ensures st == Success ==>
      && size <= |old(ctx.Pending())|
      && data[..size] == old(ctx.Pending())[..size]
      && ctx.Pending() == old(ctx.Pending())[size..]
      && ctx.outPos == ctx.outUsed == size
    ensures ctx.engineOk && old(ctx.outPos >= ctx.outUsed) && size <= |old(ctx.Pending())| ==> st == Success
    ensures data[size..] == old(data[size..])
  {
    if ctx.outPos < ctx.outUsed {
      return Error;
    }
    ghost var total := ctx.Staged();
    assert total == old(ctx.Pending());
    var opos := 0;
    while opos < size
      invariant ctx.Valid() && ctx.outPos == old(ctx.outPos) && ctx.outUsed == old(ctx.outUsed)
      invariant total == old(ctx.Pending())
      invariant opos <= size
      invariant data[..opos] + ctx.Staged() == total
      invariant data[size..] == old(data[size..])
      decreases size - opos
    {
      var isError, newOut := ImmediateRound(ctx, data, opos, size);
      if isError || ctx.inUsed == 0 {
        return Error;
      }
      opos := newOut;
    }
    ctx.outPos := opos;
    ctx.outUsed := size;
    return Success;
  }

  /** One engine call of streaming_read_buffered (read.c:111-115): the
      engine decompresses into the output buffer afresh, which becomes the
      output window. */
  method RefillOutput(ctx: Ctx, ipos: nat) returns (isError: bool, newIn: nat)
    requires ctx.Valid() && ipos < ctx.inUsed
    modifies ctx`outPos, ctx`outUsed, ctx.outBuffer
    ensures ctx.Valid()
    ensures isError ==> ctx.outPos == old(ctx.outPos) && ctx.outUsed == old(ctx.outUsed)
    ensures !isError ==> ipos < newIn <= ctx.inUsed && ctx.OutWindow() == ctx.inBuffer[ipos..newIn]
    ensures ctx.engineOk ==> !isError
  {
    var produced;
    isError, newIn, produced := DecompressStream(ctx.engineOk, ctx.inBuffer, ipos, ctx.inUsed, ctx.outBuffer, 0, ctx.outBuffer.Length);
    if !isError {
      ctx.outPos := 0;
      ctx.outUsed := produced;
    }
  }

  /** The drain of read.c:116, with the destination bound corrected to what
      the request still misses: the drained bytes extend data[..read] and the
      rest stays in the output window. */
  method DrainOutput(ctx: Ctx, data: array<byte>, read: nat, size: nat) returns (newRead: nat)
    requires ctx.Valid() && data != ctx.outBuffer && read < size <= data.Length
    modifies ctx`outPos, data
    ensures ctx.Valid()
    ensures newRead == DrainStep(read, size, |old(ctx.OutWindow())|)
    ensures data[..newRead] + ctx.OutWindow() == old(data[..read]) + old(ctx.OutWindow())
    ensures data[size..] == old(data[size..])
  {
    ghost var out := ctx.OutWindow();
    ghost var delivered := data[..read];
    var n := ReadFromBuffer(ctx, data, read, size - read);
    TakeDrop(delivered, out, n);
    newRead := read + n;
    SuffixKept(data[..], old(data[..]), newRead, size);
  }

  /** One engine round of streaming_read_buffered (read.c:111-116), with the
      destination bound corrected: the engine fills the output buffer afresh
      and at most `size - read` of it is drained into data[read..]; the
      surplus stays in the output window. */
  method DrainRound(ctx: Ctx, data: array<byte>, ipos: nat, read: nat, size: nat)
    returns (isError: bool, newIn: nat, newRead: nat)
    requires ctx.Valid() && ctx.OutWindow() == [] && ipos < ctx.inUsed
    requires data != ctx.inBuffer && data != ctx.outBuffer && read < size <= data.Length
    modifies ctx`outPos, ctx`outUsed, ctx.outBuffer, data
    ensures ctx.Valid()
    ensures !isError ==> ipos < newIn <= ctx.inUsed && read < newRead <= size
    ensures !isError && newRead < size ==> ctx.OutWindow() == []
    ensures !isError ==> data[..newRead] + ctx.OutWindow() == old(data[..read]) + ctx.inBuffer[ipos..newIn]
    ensures !isError ==> newRead == DrainStep(read, size, newIn - ipos)
    ensures ctx.engineOk ==> !isError
    ensures data[size..] == old(data[size..])
  {
    newRead := read;
    isError, newIn := RefillOutput(ctx, ipos);
    if !isError {
      newRead := DrainOutput(ctx, data, read, size);
    }
  }

  /** One iteration of the inner loop of streaming_read_buffered: a
      DrainRound from input position `ipos`, with what it consumed counted
      against the snapshot `window` of the input buffer. */
  method NextDrainRound(ctx: Ctx, data: array<byte>, ghost window: seq<byte>, ghost delivered: seq<byte>,
                        ipos: nat, read: nat, size: nat)
    returns (isError: bool, newIn: nat, newRead: nat)
    requires ctx.Valid() && ctx.OutWindow() == [] && ipos < ctx.inUsed
    requires data != ctx.inBuffer && data != ctx.outBuffer && read < size <= data.Length
    requires window == ctx.inBuffer[..] && data[..read] == delivered + window[..ipos]
    modifies ctx`outPos, ctx`outUsed, ctx.outBuffer, data
    ensures ctx.Valid()
    ensures !isError ==> ipos < newIn <= ctx.inUsed && read < newRead <= size
    ensures !isError && newRead < size ==> ctx.OutWindow() == []
    ensures !isError ==> data[..newRead] + ctx.OutWindow() == delivered + window[..newIn]
    ensures !isError ==> newRead == DrainStep(read, size, newIn - ipos)
    ensures ctx.engineOk ==> !isError
    ensures data[size..] == old(data[size..])
  {
    isError, newIn, newRead := DrainRound(ctx, data, ipos, read, size);
    if !isError {
      assert ctx.inBuffer[ipos..newIn] == window[ipos..newIn];
      AppendSlice(delivered, window, ipos, newIn);
    }
  }

  /** The inner loop of streaming_read_buffered (read.c:109-117): engine
      rounds while input remains and the request is not yet met. Everything
      the engine consumed, the first `ipos` bytes of the input window, has
      gone to data[read..newRead] or stays in the output window. `trace`
      lists how many bytes each engine call produced: they add up to what it
      consumed, and the counter is the one InnerRead gives for them. The
      caller writes the input cursors back. */
  method DecompressAndDrain(ctx: Ctx, data: array<byte>, read: nat, size: nat)
    returns (isError: bool, ipos: nat, newRead: nat, ghost trace: seq<nat>)
    requires ctx.Valid() && ctx.inPos == 0 && ctx.OutWindow() == []
    requires data != ctx.inBuffer && data != ctx.outBuffer && read <= size <= data.Length
    modifies ctx`outPos, ctx`outUsed, ctx.outBuffer, data
    ensures ctx.Valid()
    ensures !isError ==> ipos <= ctx.inUsed && read <= newRead <= size
    ensures !isError ==> newRead < size ==> ctx.OutWindow() == []
    ensures !isError ==> data[..newRead] + ctx.OutWindow() == old(data[..read]) + ctx.inBuffer[..ipos]
    ensures !isError && 0 < ctx.inUsed && read < size ==> read < newRead
    ensures ctx.inUsed == 0 ==> !isError && newRead == read
    ensures !isError ==> ipos == ctx.inUsed || newRead == size
    ensures !isError ==> Sum(trace) == ipos && newRead == InnerRead(read, size, trace)
    ensures ctx.engineOk ==> !isError
    ensures data[size..] == old(data[size..])
  {
    ghost var window := ctx.inBuffer[..];
    ghost var delivered := data[..read];
    ipos, newRead, trace := 0, read, [];
    while ipos < ctx.inUsed && newRead < size
      invariant ctx.Valid() && ipos <= ctx.inUsed && read <= newRead <= size
      invariant Sum(trace) == ipos && newRead == InnerRead(read, size, trace)
      invariant 0 < ipos ==> read < newRead
      invariant newRead < size ==> ctx.OutWindow() == []
      invariant window == ctx.inBuffer[..]
      invariant data[..newRead] + ctx.OutWindow() == delivered + window[..ipos]
      invariant data[size..] == old(data[size..])
      decreases ctx.inUsed - ipos
    {
      var newIn, next;
      isError, newIn, next := NextDrainRound(ctx, data, window, delivered, ipos, newRead, size);
      if isError {
        return;
      }
      InnerReadSnoc(read, size, trace, newIn - ipos);
      SumSnoc(trace, newIn - ipos);
      ipos, newRead, trace := newIn, next, trace + [newIn - ipos];
    }
    assert ctx.inBuffer[..ipos] == window[..ipos];
    isError := false;
  }

  /** The inner loop of streaming_read_buffered followed by the write-back
      of the input cursors (read.c:108-119): the consumed input has been
      delivered to data[read..newRead] or stays in the output window, and the
      rest is the new input window. */
  method DrainInput(ctx: Ctx, data: array<byte>, read: nat, size: nat)
    returns (isError: bool, newRead: nat)
    requires ctx.Valid() && ctx.inPos == 0 && ctx.OutWindow() == []
    requires data != ctx.inBuffer && data != ctx.outBuffer && read <= size <= data.Length
    modifies ctx`inPos, ctx`outPos, ctx`outUsed, ctx.outBuffer, data
    ensures ctx.Valid()
    ensures !isError ==> read <= newRead <= size
    ensures !isError ==> newRead < size ==> ctx.OutWindow() == []
    ensures !isError ==> (data[..newRead] + ctx.OutWindow()) + ctx.InWindow() == old(data[..read]) + old(ctx.InWindow())
    ensures !isError && 0 < ctx.inUsed && read < size ==> read < newRead
    ensures ctx.inUsed == 0 ==> !isError && newRead == read
    ensures !isError ==> ctx.InWindow() == [] || newRead == size
    ensures ctx.engineOk ==> !isError
    ensures data[size..] == old(data[size..])
  {
    ghost var window := ctx.InWindow();
    ghost var delivered := data[..read];
    var ipos;
    ghost var trace;
    isError, ipos, newRead, trace := DecompressAndDrain(ctx, data, read, size);
    if !isError {
      ctx.inPos := ipos;
      assert ctx.inBuffer[..ipos] == window[..ipos];
      TakeDrop(delivered, window, ipos);
    }
  }

  /** One pass of the outer loop of streaming_read_buffered (read.c:93-119):
      compaction, refill, engine rounds drained into data[read..], and the
      write-back of the input cursors. A pass that does not fail delivers at
      least one byte when the refilled window is not empty. The window is
      empty exactly when nothing was staged, and then the pass calls no
      engine, delivers nothing and leaves nothing pending: as written, the
      loop at read.c:91 repeats it forever at the end of the stream. */
  method BufferedRound(ctx: Ctx, data: array<byte>, read: nat, size: nat)
    returns (isError: bool, newRead: nat)
    requires ctx.Valid() && ctx.OutWindow() == []
    requires data != ctx.inBuffer && data != ctx.outBuffer && read < size <= data.Length
    modifies ctx`inPos, ctx`inUsed, ctx`outPos, ctx`outUsed, ctx.inBuffer, ctx.outBuffer, ctx.fp`pos, data
    ensures ctx.Valid()
    ensures !isError ==> read <= newRead <= size
    ensures !isError && 0 < ctx.inUsed ==> read < newRead
    ensures !isError && newRead < size ==> ctx.OutWindow() == []
    ensures !isError ==> data[..newRead] + ctx.Pending() == old(data[..read]) + old(ctx.Staged())
    ensures ctx.inUsed == 0 <==> old(ctx.Staged()) == []
    ensures ctx.inUsed == 0 ==> !isError && newRead == read && ctx.Pending() == []
    ensures !isError ==> ctx.InWindow() == [] || newRead == size
    ensures ctx.engineOk ==> !isError
    ensures data[size..] == old(data[size..])
  {
    ghost var delivered := data[..read];
    PrepareInput(ctx);
    ghost var window, rest := ctx.InWindow(), ctx.fp.Rest();
    isError, newRead := DrainInput(ctx, data, read, size);
    if ctx.inUsed == 0 {
      assert window == [] && rest == [];
      assert ctx.InWindow() == [];
    } else if !isError {
      Regroup(data[..newRead], ctx.OutWindow(), ctx.InWindow(), rest, delivered, window);
    }
  }

  /** streaming_read_buffered, with the destination bound of read.c:116
      corrected (see InnerReadAsWritten): first the buffered leftovers, then
      engine output decompressed a whole output buffer at a time, whose
      surplus stays buffered for the next call. A request the leftovers
      cover needs no engine and succeeds, leaving the input side and the
      rest of the leftovers as they were. Nothing past data[size) is
      written. A pass whose refill finds the stream ended fails, where the
      code as written would repeat it forever. */
  method StreamingReadBuffered(ctx: Ctx, data: array<byte>, size: nat) returns (st: Status)
    requires ctx.Valid()
    requires data != ctx.inBuffer && data != ctx.outBuffer && size <= data.Length
    modifies ctx`inPos, ctx`inUsed, ctx`outPos, ctx`outUsed, ctx.inBuffer, ctx.outBuffer, ctx.fp`pos, data
    ensures ctx.Valid()
    ensures st == Success ==>
      && size <= |old(ctx.Pending())|
      && data[..size] == old(ctx.Pending())[..size]
      && ctx.Pending() == old(ctx.Pending())[size..]
    ensures size <= |old(ctx.OutWindow())| ==> st == Success
    ensures size <= |old(ctx.OutWindow())| ==>
      && ctx.OutWindow() == old(ctx.OutWindow())[size..]
      && ctx.inPos == old(ctx.inPos) && ctx.inUsed == old(ctx.inUsed)
      && ctx.inBuffer[..] == old(ctx.inBuffer[..]) && ctx.fp.pos == old(ctx.fp.pos)
    ensures ctx.engineOk && size <= |old(ctx.Pending())| ==> st == Success
    ensures data[size..] == old(data[size..])
  {
    ghost var total := ctx.Pending();
    ghost var leftover := ctx.OutWindow();
    ghost var covered := size <= |leftover|;
    var read := ReadFromBuffer(ctx, data, 0, size);
    assert data[..read] == leftover[..read];
    assert leftover == leftover[..read] + leftover[read..];
    SuffixKept(data[..], old(data[..]), read, size);
    while read < size
      invariant ctx.Valid() && read <= size
      invariant covered ==>
        && read == size && ctx.OutWindow() == leftover[size..]
        && ctx.inPos == old(ctx.inPos) && ctx.inUsed == old(ctx.inUsed)
        && ctx.inBuffer[..] == old(ctx.inBuffer[..]) && ctx.fp.pos == old(ctx.fp.pos)
      invariant data[..read] + ctx.Pending() == total
      invariant read < size ==> ctx.OutWindow() == []
      invariant data[size..] == old(data[size..])
      decreases size - read
    {
      assert ctx.Pending() == ctx.Staged();
      var isError, newRead := BufferedRound(ctx, data, read, size);
      if isError || ctx.inUsed == 0 {
        return Error;
      }
      read := newRead;
    }
    return Success;
  }

  /** cbsl_read: rejects a missing context, a context not in load mode and a
      missing destination without touching anything; otherwise a request
      larger than the output buffer goes to the immediate strategy and any
      other to the buffered strategy. Every successful call delivers the next
      `size` bytes of the stream, whatever the request sizes before it, and
      writes nothing past them. A request the buffered leftovers cover always
      succeeds and touches neither the input buffer nor the file; one the
      rest of the stream cannot cover fails (as written, both strategies
      would wait forever for input; see the README). Reading
      changes neither the dictionary state nor the file. The caller's buffer
      holds at least `size` bytes and is not a staging buffer. */
  method Read(ctx: Ctx?, data: array?<byte>, size: nat) returns (st: Status)
    requires ctx != null ==> ctx.Valid()
    requires ctx != null && data != null ==>
      data != ctx.inBuffer && data != ctx.outBuffer && size <= data.Length
    modifies if ctx == null then {} else {ctx, ctx.inBuffer, ctx.outBuffer, ctx.fp}, data
    ensures ctx != null ==> ctx.Valid()
    ensures ctx == null || ctx.mode != LoadMode || data == null ==> st == Error
    ensures ctx != null && (ctx.mode != LoadMode || data == null) ==>
      unchanged(ctx) && unchanged(ctx.inBuffer, ctx.outBuffer, ctx.fp)
    ensures data != null && (ctx == null || ctx.mode != LoadMode) ==> unchanged(data)
    ensures ctx != null && data != null && st == Success ==>
      && size <= |old(ctx.Pending())|
      && data[..size] == old(ctx.Pending())[..size]
      && ctx.Pending() == old(ctx.Pending())[size..]
    ensures ctx != null && data != null && size > ctx.outBuffer.Length && old(ctx.outPos < ctx.outUsed) ==>
      st == Error && unchanged(ctx) && unchanged(ctx.inBuffer, ctx.outBuffer, ctx.fp, data)
    ensures ctx != null && data != null && size > ctx.outBuffer.Length && st == Success ==>
      ctx.outPos == ctx.outUsed == size
    ensures (ctx != null && data != null && ctx.mode == LoadMode &&
             size <= ctx.outBuffer.Length && size <= |old(ctx.OutWindow())|) ==>
      && st == Success && ctx.OutWindow() == old(ctx.OutWindow())[size..]
      && ctx.inPos == old(ctx.inPos) && ctx.inUsed == old(ctx.inUsed)
      && ctx.inBuffer[..] == old(ctx.inBuffer[..]) && ctx.fp.pos == old(ctx.fp.pos)
    ensures ctx != null && data != null && ctx.mode == LoadMode && |old(ctx.Pending())| < size ==>
      st == Error
    ensures (ctx != null && data != null && ctx.mode == LoadMode && ctx.engineOk &&
             size <= |old(ctx.Pending())| &&
             (size > ctx.outBuffer.Length ==> old(ctx.outPos >= ctx.outUsed))) ==> st == Success
    ensures ctx != null ==>
      && ctx.dictSizeUsed == old(ctx.dictSizeUsed)
      && ctx.cctxDict == old(ctx.cctxDict) && ctx.dctxDict == old(ctx.dctxDict)
      && ctx.fp.data == old(ctx.fp.data) && ctx.fp.isOpen == old(ctx.fp.isOpen)
    ensures ctx != null && data != null ==> data[size..] == old(data[size..])
  {
    if ctx == null || ctx.mode != LoadMode || data == null {
      return Error;
    }
    if size > ctx.outBuffer.Length {
      st := StreamingReadImmediate(ctx, data, size);
    } else {
      st := StreamingReadBuffered(ctx, data, size);
    }
  }

  // The delivery counter of the buffered inner loop (read.c:109-117), over
  // the trace of how many bytes each engine call produced.

  /** The counter after one drain as written at read.c:116: read_from_buffer
      is bounded by the whole request `size`, not by what is still missing.
      The first drain of a call stays within the request, and so does any
      drain of no more than the missing count, which then delivers all it
      found; but once some bytes are delivered, a drain that finds more than
      the missing count passes the request. */
  function DrainStepAsWritten(read: nat, size: nat, produced: nat): (r: nat)
    ensures read == 0 ==> r <= size
    ensures read <= size && produced <= size - read ==> r == read + produced
    ensures 0 < read < size && size - read < produced ==> size < r
  {
    read + Min(produced, size)
  }

  /** The counter after one drain with the bound the loop evidently intends,
      and the one DrainRound implements: at most `size - read` bytes. */
  function DrainStep(read: nat, size: nat, produced: nat): (r: nat)
    requires read <= size
    ensures read <= r <= size
    ensures r == read + produced || r == size
    ensures r < size ==> r == read + produced
    ensures r <= read + produced
  {
    read + Min(produced, size - read)
  }

  /** The counter after the inner loop as written, one engine call per entry
      of `produced`, stopping once the counter reaches the request. */
  function InnerReadAsWritten(read: nat, size: nat, produced: seq<nat>): (r: nat)
    ensures read <= r
    decreases |produced|
  {
    if read >= size || produced == [] then read
    else InnerReadAsWritten(DrainStepAsWritten(read, size, produced[0]), size, produced[1..])
  }

  /** The same loop with the corrected drain bound. */
  function InnerRead(read: nat, size: nat, produced: seq<nat>): (r: nat)
    requires read <= size
    ensures read <= r <= size
    decreases |produced|
  {
    if read == size || produced == [] then read
    else InnerRead(DrainStep(read, size, produced[0]), size, produced[1..])
  }

  /** The corrected loop delivers everything the engine produced, capped at
      the request: it never passes the end of the destination, and it meets
      the request exactly when the engine produced enough. */
  lemma {:induction false} InnerReadDelivers(read: nat, size: nat, produced: seq<nat>)
    requires read <= size
    ensures InnerRead(read, size, produced) == Min(size, read + Sum(produced))
    decreases |produced|
  {
    if read == size || produced == [] {
    } else {
      InnerReadDelivers(DrainStep(read, size, produced[0]), size, produced[1..]);
    }
  }

  /** One more engine call extends the corrected loop by one DrainStep,
      while the request is not yet met. */
  lemma {:induction false} InnerReadSnoc(read: nat, size: nat, produced: seq<nat>, p: nat)
    requires read <= size && InnerRead(read, size, produced) < size
    ensures InnerRead(read, size, produced + [p]) == DrainStep(InnerRead(read, size, produced), size, p)
    decreases |produced|
  {
    if produced == [] {
      assert (produced + [p])[1..] == [];
    } else {
      assert read < size;
      assert (produced + [p])[1..] == produced[1..] + [p];
      InnerReadSnoc(DrainStep(read, size, produced[0]), size, produced[1..], p);
    }
  }

  /** The total produced grows by each new engine call's output. */
  lemma {:induction false} SumSnoc(xs: seq<nat>, x: nat)
    ensures Sum(xs + [x]) == Sum(xs) + x
    decreases |xs|
  {
    if xs != [] {
      assert (xs + [x])[1..] == xs[1..] + [x];
      SumSnoc(xs[1..], x);
    }
  }

  /** As written, a second drain overruns: with 2 of 4 bytes delivered, one
      engine call producing 4 bytes takes the counter to 6, so read.c:116
      writes two bytes past the end of the caller's buffer and the assertion
      read == size at read.c:121 fails. */
  lemma AsWrittenOverruns()
    ensures InnerReadAsWritten(2, 4, [4]) == 6
    ensures InnerRead(2, 4, [4]) == 4
  {
    var none: seq<nat> := [4][1..];
    assert none == [];
    assert InnerReadAsWritten(2, 4, [4]) == InnerReadAsWritten(6, 4, none);
    assert InnerRead(2, 4, [4]) == InnerRead(4, 4, none);
  }

  /** The overrun in general: once some bytes are delivered, an engine call
      that produces more than the missing count takes the as-written counter
      past the request. */
  lemma AsWrittenPastRequest(read: nat, size: nat, p: nat, rest: seq<nat>)
    requires 0 < read < size && size - read < p
    ensures size < InnerReadAsWritten(read, size, [p] + rest)
  {
    assert ([p] + rest)[1..] == rest;
  }

  /** Whether, in the loop as written, every drain that starts after some
      bytes were delivered finds at most the missing count in the output
      window. The first drain of a call may find any amount. */
  predicate NoOverdraw(read: nat, size: nat, produced: seq<nat>)
    decreases |produced|
  {
    read >= size || produced == [] ||
    ((0 < read ==> produced[0] <= size - read) &&
     NoOverdraw(DrainStepAsWritten(read, size, produced[0]), size, produced[1..]))
  }

  /** The code as written and the corrected loop end with the same counter
      exactly when no drain after the first of a call finds more than the
      request still misses. */
  lemma {:induction false} AsWrittenAgrees(read: nat, size: nat, produced: seq<nat>)
    requires read <= size
    ensures InnerReadAsWritten(read, size, produced) == InnerRead(read, size, produced)
      <==> NoOverdraw(read, size, produced)
    decreases |produced|
  {
    if read == size || produced == [] {
    } else {
      var p, rest := produced[0], produced[1..];
      var next := DrainStepAsWritten(read, size, p);
      if 0 < read && size - read < p {
        assert size < next;
        assert InnerReadAsWritten(next, size, rest) == next;
        assert InnerRead(read, size, produced) <= size;
      } else {
        assert next == DrainStep(read, size, p);
        AsWrittenAgrees(next, size, rest);
      }
    }
  }

  // Chunking independence: what a run of successful cbsl_read calls delivers.

  /** The chunks that successive successful reads of the given sizes deliver
      from the stream `p`, by Read's contract: each takes the next `size`
      bytes, and the rest of the stream is what the next call sees. */
  function Chunks(p: seq<byte>, sizes: seq<nat>): (r: seq<seq<byte>>)
    requires Sum(sizes) <= |p|
    ensures |r| == |sizes|
    ensures forall i :: 0 <= i < |r| ==> |r[i]| == sizes[i]
    decreases |sizes|
  {
    if sizes == [] then []
    else [p[..sizes[0]]] + Chunks(p[sizes[0]..], sizes[1..])
  }

  function Flatten(chunks: seq<seq<byte>>): seq<byte>
  {
    if chunks == [] then [] else chunks[0] + Flatten(chunks[1..])
  }

  /** However a caller splits its requests, the concatenated chunks are the
      stream's next bytes: the request sizes do not change the data. */
  lemma {:induction false} ChunksAreStream(p: seq<byte>, sizes: seq<nat>)
    requires Sum(sizes) <= |p|
    ensures Flatten(Chunks(p, sizes)) == p[..Sum(sizes)]
    decreases |sizes|
  {
    if sizes != [] {
      var c := Chunks(p, sizes);
      ChunksAreStream(p[sizes[0]..], sizes[1..]);
      assert c[1..] == Chunks(p[sizes[0]..], sizes[1..]);
      calc {
        Flatten(c);
        p[..sizes[0]] + p[sizes[0]..][..Sum(sizes[1..])];
        { assert p[sizes[0]..][..Sum(sizes[1..])] == p[sizes[0]..Sum(sizes)]; }
        p[..sizes[0]] + p[sizes[0]..Sum(sizes)];
        { assert p[..Sum(sizes)] == p[..sizes[0]] + p[sizes[0]..Sum(sizes)]; }
        p[..Sum(sizes)];
      }
    }
  }

  /** A run of requests that the stream covers and the output buffer holds
      one by one: so are its first request and the run after it. */
  lemma FirstAndRestWithin(sizes: seq<nat>, pending: nat, cap: nat)
    requires sizes != []
    ensures (Sum(sizes) <= pending && forall k :: 0 <= k < |sizes| ==> sizes[k] <= cap) ==>
      && sizes[0] <= cap && sizes[0] <= pending && Sum(sizes[1..]) <= pending - sizes[0]
      && forall k :: 0 <= k < |sizes[1..]| ==> sizes[1..][k] <= cap
  {
    assert forall k :: 0 <= k < |sizes[1..]| ==> sizes[1..][k] == sizes[k + 1];
  }

  /** A caller's cbsl_read into a fresh buffer of exactly `n` bytes. */
  method ReadChunk(ctx: Ctx, n: nat) returns (st: Status, chunk: seq<byte>)
    requires ctx.Valid() && ctx.mode == LoadMode
    modifies ctx, ctx.inBuffer, ctx.outBuffer, ctx.fp
    ensures ctx.Valid()
    ensures st == Success ==>
      && n <= |old(ctx.Pending())|
      && chunk == old(ctx.Pending())[..n]
      && ctx.Pending() == old(ctx.Pending())[n..]
    ensures ctx.engineOk && n <= ctx.outBuffer.Length && n <= |old(ctx.Pending())| ==> st == Success
  {
    var buf := new byte[n];
    st := Read(ctx, buf, n);
    chunk := buf[..];
  }

  /** A caller's run of cbsl_read calls on one context, one call per entry of
      `sizes`, each into a fresh buffer of exactly that size. When every call
      succeeds, the buffers hold the chunks Chunks describes, so however the
      requests are split they concatenate to the next `Sum(sizes)` bytes of
      the stream, and the rest stays pending. */
  method ReadSequence(ctx: Ctx, sizes: seq<nat>) returns (st: Status, chunks: seq<seq<byte>>)
    requires ctx.Valid() && ctx.mode == LoadMode
    modifies ctx, ctx.inBuffer, ctx.outBuffer, ctx.fp
    ensures ctx.Valid()
    ensures st == Success ==>
      && Sum(sizes) <= |old(ctx.Pending())|
      && chunks == Chunks(old(ctx.Pending()), sizes)
      && Flatten(chunks) == old(ctx.Pending())[..Sum(sizes)]
      && ctx.Pending() == old(ctx.Pending())[Sum(sizes)..]
    ensures (ctx.engineOk && Sum(sizes) <= |old(ctx.Pending())| &&
             forall k :: 0 <= k < |sizes| ==> sizes[k] <= ctx.outBuffer.Length) ==> st == Success
    decreases |sizes|
  {
    if sizes == [] {
      st, chunks := Success, [];
      return;
    }
    ghost var total := ctx.Pending();
    FirstAndRestWithin(sizes, |total|, ctx.outBuffer.Length);
    var chunk, more;
    st, chunk := ReadChunk(ctx, sizes[0]);
    if st == Error {
      chunks := [];
      return;
    }
    ghost var mid := ctx.Pending();
    st, more := ReadSequence(ctx, sizes[1..]);
    chunks := [chunk] + more;
    if st == Success {
      assert ctx.Pending() == mid[Sum(sizes[1..])..];
      SliceOfSuffix(total, sizes[0], Sum(sizes[1..]));
      ChunksAreStream(total, sizes);
    }
  }
}
