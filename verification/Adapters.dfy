/** The adapters that read a slice, a stream or a storage through a buffer: each hands out chunks as the parser expects. */
module Adapters {
  import opened Bytes
  import opened Sources
  import opened Storages

  /** What a source may hand out at an offset of its document: bytes from there on, none only at the end. */
  predicate IsChunk(data: bytes, offset: nat, chunk: bytes) {
    (chunk == [] <==> offset >= |data|) && (chunk != [] ==> offset + |chunk| <= |data| && chunk == data[offset..offset + |chunk|])
  }

  /** This is what the source of the parser hands out, whatever is buffered. */
  method AnyChunk(src: Source) returns (chunk: bytes)
    requires src.Valid()
    modifies src`pos, src`end, src`pending, src`out
    ensures src.Valid() && src.Offset() == old(src.Offset()) && IsChunk(src.data, src.Offset(), chunk)
  {
    chunk := src.Fill();
  }

  // ---------- a slice ----------

  class SliceSource {
    const data: bytes
    var pos: nat

    constructor (input: bytes)
      ensures data == input && Offset() == 0
    {
      data, pos := input, 0;
    }

    function Offset(): nat
      reads this
    {
      pos
    }

    method Fill() returns (chunk: bytes)
      requires Offset() <= |data|
      ensures IsChunk(data, Offset(), chunk) && |chunk| == |data| - Offset()
    {
      chunk := data[pos..];
    }

    method Consume(n: nat)
      requires Offset() <= |data|
      modifies this
      ensures Offset() == Min(old(Offset()) + n, |data|)
    {
      pos := Min(pos + n, |data|);
    }
  }

  // ---------- a stream ----------

  /** A stream that gives as many bytes at a time as it likes, none only at its end. */
  class Reader {
    const data: bytes
    var pos: nat

    constructor (input: bytes)
      ensures data == input && pos == 0
    {
      data, pos := input, 0;
    }

    method Read(buf: array<byte>) returns (n: nat)
      requires pos <= |data| && buf.Length > 0
      modifies this, buf
      ensures n <= buf.Length && pos == old(pos) + n <= |data| && buf[..n] == data[old(pos)..pos]
      ensures n == 0 <==> pos == |data| && old(pos) == |data|
    {
      n := 0;
      if pos < |data| {
        var k: nat :| 0 < k <= buf.Length && pos + k <= |data|;
        forall i | 0 <= i < k {
          buf[i] := data[pos + i];
        }
        n, pos := k, pos + k;
      }
    }
  }

  class ReadSource {
    const reader: Reader
    const buf: array<byte>
    var start: nat
    var end: nat
    var offset: nat

    /** The bytes that are buffered are the last ones that were read. */
    ghost predicate Valid()
      reads this, reader, buf
    {
      buf.Length > 0 && start <= end <= buf.Length && reader.pos <= |reader.data| && offset + (end - start) == reader.pos &&
      buf[start..end] == reader.data[offset..reader.pos]
    }

    constructor (r: Reader, b: array<byte>)
      requires b.Length > 0 && r.pos == 0
      ensures Valid() && reader == r && buf == b && offset == 0
    {
      reader, buf, start, end, offset := r, b, 0, 0, 0;
    }

    method Fill() returns (chunk: bytes)
      requires Valid()
      modifies this`start, this`end, reader, buf
      ensures Valid() && IsChunk(reader.data, offset, chunk) && |chunk| == end - start
      ensures old(start) < old(end) ==> chunk == old(buf[start..end]) && reader.pos == old(reader.pos)
    {
      if start == end {
        var n := reader.Read(buf);
        start, end := 0, Min(n, buf.Length);
      }
      chunk := buf[start..end];
    }

    method Consume(n: nat)
      requires Valid()
      modifies this`start, this`offset
      ensures Valid() && offset == old(offset) + Min(n, old(end - start))
    {
      var k := Min(n, end - start);
      start, offset := start + k, offset + k;
    }
  }

  // ---------- a storage ----------

  class StorageSource {
    const st: MemStorage
    const buf: array<byte>
    const len: nat
    var start: nat
    var end: nat
    var pos: nat          // the offset in the storage of what follows the buffered bytes

    /** The storage is as it was, and what is buffered is what comes before `pos`. */
    ghost predicate Valid()
      reads this, st, st.buf, buf
    {
      st.Valid() && st.len == len && buf != st.buf && buf.Length > 0 && start <= end <= buf.Length && end - start <= pos &&
      (start < end ==> pos <= len && buf[start..end] == st.Contents()[pos - (end - start)..pos])
    }

    function Offset(): nat
      requires end - start <= pos
      reads this
    {
      pos - (end - start)
    }

    constructor At(storage: MemStorage, b: array<byte>, offset: nat)
      requires storage.Valid() && b != storage.buf && b.Length > 0
      ensures Valid() && st == storage && buf == b && Offset() == offset
    {
      st, buf, len, start, end, pos := storage, b, storage.len, 0, 0, offset;
    }

    method Fill() returns (chunk: bytes)
      requires Valid()
      modifies this`start, this`end, this`pos, buf
      ensures Valid() && Offset() == old(Offset()) && IsChunk(st.Contents(), Offset(), chunk) && |chunk| == end - start
      ensures old(start) < old(end) ==> chunk == old(buf[start..end])
    {
      if start == end && pos < len {
        var n := Min(buf.Length, len - pos);
        var r := st.ReadAt(pos, buf, n);
        assert st.Contents()[pos..pos + n] == st.buf[pos..pos + n];
        start, end, pos := 0, n, pos + n;
      }
      chunk := buf[start..end];
    }

    method Consume(n: nat)
      requires Valid()
      modifies this`start
      ensures Valid() && Offset() == old(Offset()) + Min(n, old(end - start))
    {
      ghost var s := start;
      start := Min(start + n, end);
      assert buf[start..end] == buf[s..end][start - s..];
    }
  }
}
