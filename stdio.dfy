/** A stdio stream over a byte string: the `FILE*` the context owns. */
module Stdio {
  import opened Bytes

  /** Zeros that fill the gap when a write starts past the end of the file. */
  function Zeros(n: nat): (r: seq<byte>)
    ensures |r| == n && forall i :: 0 <= i < n ==> r[i] == 0
  {
    seq(n, _ => 0 as byte)
  }

  /** The bytes of a file after writing `bytes` at offset `at`; a write past
      the end first extends the file with zeros, as POSIX specifies. */
  function Overwrite(data: seq<byte>, at: nat, bytes: seq<byte>): (r: seq<byte>)
    ensures |r| == if at + |bytes| > |data| then at + |bytes| else |data|
    ensures r[at..at + |bytes|] == bytes
    ensures forall i :: 0 <= i < |data| && !(at <= i < at + |bytes|) ==> r[i] == data[i]
    ensures forall i :: |data| <= i < at ==> r[i] == 0
  {
    var padded := if at <= |data| then data else data + Zeros(at - |data|);
    padded[..at] + bytes + (if at + |bytes| < |padded| then padded[at + |bytes|..] else [])
  }

  /** Two writes in a row are one write of both. */
  lemma OverwriteTwice(data: seq<byte>, at: nat, a: seq<byte>, b: seq<byte>)
    ensures Overwrite(Overwrite(data, at, a), at + |a|, b) == Overwrite(data, at, a + b)
  {
    var lhs := Overwrite(Overwrite(data, at, a), at + |a|, b);
    var rhs := Overwrite(data, at, a + b);
    assert |lhs| == |rhs|;
    forall i | 0 <= i < |lhs| ensures lhs[i] == rhs[i] {
      if at <= i < at + |a| {
        assert rhs[at..at + |a| + |b|][i - at] == (a + b)[i - at];
      } else if at + |a| <= i < at + |a| + |b| {
        assert lhs[at + |a|..at + |a| + |b|][i - at - |a|] == b[i - at - |a|];
        assert rhs[at..at + |a| + |b|][i - at] == (a + b)[i - at];
      }
    }
  }

  /** fopen(path, "rb") over a file system that maps paths to contents: it
      fails exactly when nothing is stored at the path. */
  method OpenForReading(fs: map<string, seq<byte>>, path: string) returns (f: File?)
    ensures f == null <==> path !in fs
    ensures f != null ==> fresh(f) && f.data == fs[path] && f.pos == 0 && f.isOpen
  {
    if path !in fs {
      return null;
    }
    f := new File(fs[path]);
  }

  /** fopen(path, "wb"): creates or truncates the file; whether the system
      lets it do so is outside the model, so it may fail. */
  method OpenForWriting(path: string) returns (f: File?)
    ensures f != null ==> fresh(f) && f.data == [] && f.pos == 0 && f.isOpen
  {
    var refused: bool :| true;
    if refused {
      return null;
    }
    f := new File([]);
  }

  class File {
    var data: seq<byte>
    var pos: nat
    var isOpen: bool

    /** fopen over the bytes currently stored at the path. */
    constructor (contents: seq<byte>)
      ensures data == contents && pos == 0 && isOpen
    {
      data, pos, isOpen := contents, 0, true;
    }

    /** The bytes a read would return from the current position on. */
    function Rest(): seq<byte>
      reads this
    {
      if pos <= |data| then data[pos..] else []
    }

    /** fread(dst + off, 1, n, fp): a short count only at end of file. */
    method ReadInto(dst: array<byte>, off: nat, n: nat) returns (got: nat)
      requires off + n <= dst.Length
      modifies this`pos, dst
      ensures got == Min(n, |old(Rest())|)
      ensures dst[..off + got] == old(dst[..off]) + old(Rest())[..got]
      ensures dst[off + got..] == old(dst[off + got..])
      ensures Rest() == old(Rest())[got..]
    {
      ghost var rest := Rest();
      got := Min(n, |Rest()|);
      var i := 0;
      while i < got
        invariant 0 <= i <= got
        invariant pos <= |data| || got == 0
        invariant i > 0 ==> pos == old(pos) + i
        invariant Rest() == rest[i..]
        invariant forall j :: 0 <= j < dst.Length ==>
          dst[j] == (if off <= j < off + i then rest[j - off] else old(dst[j]))
      {
        dst[off + i] := data[pos];
        pos := pos + 1;
        i := i + 1;
      }
      assert dst[..off + got] == old(dst[..off]) + rest[..got];
    }

    /** fread into a fresh value (a header field): the next `n` bytes, fewer at end of file. */
    method Read(n: nat) returns (bytes: seq<byte>)
      modifies this`pos
      ensures bytes == old(Rest())[..Min(n, |old(Rest())|)]
      ensures Rest() == old(Rest())[|bytes|..]
    {
      var k := Min(n, |Rest()|);
      bytes := Rest()[..k];
      if k > 0 {
        pos := pos + k;
      }
    }

    /** fwrite at the current position; short writes (a full disk) are not modelled. */
    method Write(bytes: seq<byte>)
      modifies this`data, this`pos
      ensures data == Overwrite(old(data), old(pos), bytes)
      ensures pos == old(pos) + |bytes|
    {
      data := Overwrite(data, pos, bytes);
      pos := pos + |bytes|;
    }

    /** fseek(fp, offset, SEEK_SET); POSIX allows a position past the end. */
    method Seek(offset: nat)
      modifies this`pos
      ensures pos == offset
    {
      pos := offset;
    }

    /** fseek(fp, 0, SEEK_END). */
    method SeekEnd()
      modifies this`pos
      ensures pos == |data|
    {
      pos := |data|;
    }

    /** fclose. */
    method Close()
      modifies this`isOpen
      ensures !isOpen
    {
      isOpen := false;
    }
  }
}
