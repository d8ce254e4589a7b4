/** Random-access storage in memory, moving bytes inside it, and the buffered writer into a range of it. */
module Storages {
  import opened Bytes
  import opened Results

  // ---------- overwriting ----------

  /** `s` with the bytes from `at` on overwritten. */
  function Overwrite(s: bytes, at: nat, data: bytes): (r: bytes)
    requires at + |data| <= |s|
    ensures |r| == |s|
  {
    s[..at] + data + s[at + |data|..]
  }

  lemma OverwriteNothing(s: bytes, at: nat)
    requires at <= |s|
    ensures Overwrite(s, at, []) == s
  {
  }

  lemma OverwriteAppend(s: bytes, at: nat, a: bytes, b: bytes)
    requires at + |a| + |b| <= |s|
    ensures Overwrite(Overwrite(s, at, a), at + |a|, b) == Overwrite(s, at, a + b)
  {
  }

  lemma OverwritePrepend(s: bytes, at: nat, a: bytes, b: bytes)
    requires at + |a| + |b| <= |s|
    ensures Overwrite(Overwrite(s, at + |a|, b), at, a) == Overwrite(s, at, a + b)
  {
  }

  /** What lies outside the overwritten bytes is unchanged. */
  lemma OverwriteOutside(s: bytes, at: nat, data: bytes, i: nat, j: nat)
    requires at + |data| <= |s| && i <= j <= |s| && (j <= at || at + |data| <= i)
    ensures Overwrite(s, at, data)[i..j] == s[i..j]
  {
  }

  lemma OverwriteInside(s: bytes, at: nat, data: bytes)
    requires at + |data| <= |s|
    ensures Overwrite(s, at, data)[at..at + |data|] == data
  {
  }

  /** The first `len` bytes of `buf` are the document; the rest is room to grow. */
  class MemStorage {
    const buf: array<byte>
    var len: nat

    ghost predicate Valid()
      reads this
    {
      len <= buf.Length
    }

    function Contents(): bytes
      requires Valid()
      reads this, buf
    {
      buf[..len]
    }

    constructor (b: array<byte>, n: nat)
      requires n <= b.Length
      ensures Valid() && buf == b && len == n
    {
      buf, len := b, n;
    }

    predicate InRange(offset: nat, n: nat)
      reads this
    {
      offset + n <= len
    }

    /** Reads `n` bytes into the start of `b`. */
    method ReadAt(offset: nat, b: array<byte>, n: nat) returns (r: Res<()>)
      requires Valid() && b != buf && n <= b.Length
      modifies b
      ensures r.Ok? <==> InRange(offset, n)
      ensures r.Ok? ==> b[..n] == buf[offset..offset + n]
    {
      if !InRange(offset, n) {
        return Err(Capacity);
      }
      forall i | 0 <= i < n {
        b[i] := buf[offset + i];
      }
      r := Ok(());
    }

    method WriteAt(offset: nat, data: bytes) returns (r: Res<()>)
      requires Valid()
      modifies buf
      ensures r.Ok? <==> InRange(offset, |data|)
      ensures r.Ok? ==> buf[..] == Overwrite(old(buf[..]), offset, data)
      ensures r.Err? ==> buf[..] == old(buf[..])
    {
      if !InRange(offset, |data|) {
        return Err(Capacity);
      }
      forall i | 0 <= i < |data| {
        buf[offset + i] := data[i];
      }
      r := Ok(());
    }

    /** Grows or shrinks the document, within the buffer. */
    method SetLen(n: nat) returns (r: Res<()>)
      requires Valid()
      modifies this`len
      ensures Valid()
      ensures r == if n <= buf.Length then Ok(()) else Err(Capacity)
      ensures len == if r.Ok? then n else old(len)
    {
      if n > buf.Length {
        return Err(Capacity);
      }
      len := n;
      r := Ok(());
    }

    /** Moves bytes inside the buffer at once; the ranges may overlap. */
    method CopyWithin(from: nat, to: nat, n: nat) returns (r: Res<()>)
      requires Valid()
      modifies buf
      ensures r.Ok? <==> InRange(from, n) && InRange(to, n)
      ensures r.Ok? ==> buf[..] == Overwrite(old(buf[..]), to, old(buf[..])[from..from + n])
      ensures r.Err? ==> buf[..] == old(buf[..])
    {
      if !InRange(from, n) || !InRange(to, n) {
        return Err(Capacity);
      }
      forall i | 0 <= i < n {
        buf[to + i] := buf[from + i];
      }
      r := Ok(());
    }

    /** Moves bytes through `scratch` in chunks, without overwriting what is still to be moved. */
    method MoveChunked(from: nat, to: nat, n: nat, scratch: array<byte>) returns (r: Res<()>)
      requires Valid() && scratch != buf
      modifies buf, scratch
      ensures InRange(from, n) && InRange(to, n) ==>
                r.Ok? && buf[..] == Overwrite(old(buf[..]), to, old(buf[..])[from..from + n])
    {
      var b := scratch;
      if scratch.Length == 0 {
        b := new byte[16];
      }
      if to < from {
        r := MoveDown(from, to, n, b);
      } else if to > from {
        r := MoveUp(from, to, n, b);
      } else {
        r := Ok(());
      }
    }

    /** One chunk: read, then written. */
    method MoveChunk(from: nat, to: nat, k: nat, b: array<byte>) returns (r: Res<()>)
      requires Valid() && b != buf && k <= b.Length
      modifies buf, b
      ensures InRange(from, k) && InRange(to, k) ==>
                r.Ok? && buf[..] == Overwrite(old(buf[..]), to, old(buf[..])[from..from + k])
    {
      hide Overwrite;
      ghost var s := buf[..];
      var _ :- ReadAt(from, b, k);
      assert b[..k] == s[from..from + k];
      r := WriteAt(to, b[..k]);
    }

    method MoveDown(from: nat, to: nat, n: nat, b: array<byte>) returns (r: Res<()>)
      requires Valid() && b != buf && b.Length > 0 && to < from
      modifies buf, b
      ensures InRange(from, n) && InRange(to, n) ==>
                r.Ok? && buf[..] == Overwrite(old(buf[..]), to, old(buf[..])[from..from + n])
    {
      hide Overwrite;
      ghost var s, ok := buf[..], InRange(from, n) && InRange(to, n);
      var done: nat := 0;
      if ok {
        OverwriteNothing(s, to);
        assert s[from..from] == [];
      }
      while done < n
        invariant done <= n
        invariant ok ==> buf[..] == Overwrite(s, to, s[from..from + done])
      {
        var k := Min(b.Length, n - done);
        if ok {
          DownStep(s, from, to, done, k, buf[..][from + done..from + done + k]);
        }
        var _ :- MoveChunk(from + done, to + done, k, b);
        done := done + k;
      }
      r := Ok(());
    }

    method MoveUp(from: nat, to: nat, n: nat, b: array<byte>) returns (r: Res<()>)
      requires Valid() && b != buf && b.Length > 0 && to > from
      modifies buf, b
      ensures InRange(from, n) && InRange(to, n) ==>
                r.Ok? && buf[..] == Overwrite(old(buf[..]), to, old(buf[..])[from..from + n])
    {
      hide Overwrite;
      ghost var s, ok := buf[..], InRange(from, n) && InRange(to, n);
      var left: nat := n;
      if ok {
        OverwriteNothing(s, to + n);
        assert s[from + n..from + n] == [];
      }
      while left > 0
        invariant left <= n
        invariant ok ==> buf[..] == Overwrite(s, to + left, s[from + left..from + n])
      {
        var k := Min(b.Length, left);
        left := left - k;
        if ok {
          UpStep(s, from, to, left, k, n, buf[..][from + left..from + left + k]);
        }
        var _ :- MoveChunk(from + left, to + left, k, b);
      }
      r := Ok(());
    }
  }

  lemma DownStep(s: bytes, from: nat, to: nat, done: nat, k: nat, chunk: bytes)
    requires to < from && from + done + k <= |s|
    requires chunk == Overwrite(s, to, s[from..from + done])[from + done..from + done + k]
    ensures to + done + |chunk| <= |s|
    ensures Overwrite(Overwrite(s, to, s[from..from + done]), to + done, chunk) == Overwrite(s, to, s[from..from + done + k])
  {
    OverwriteOutside(s, to, s[from..from + done], from + done, from + done + k);
    OverwriteAppend(s, to, s[from..from + done], chunk);
    SliceAppend(s, from, from + done, from + done + k);
  }

  lemma UpStep(s: bytes, from: nat, to: nat, left: nat, k: nat, n: nat, chunk: bytes)
    requires from < to && left + k <= n && to + n <= |s|
    requires chunk == Overwrite(s, to + left + k, s[from + left + k..from + n])[from + left..from + left + k]
    ensures Overwrite(Overwrite(s, to + left + k, s[from + left + k..from + n]), to + left, chunk)
         == Overwrite(s, to + left, s[from + left..from + n])
  {
    OverwriteOutside(s, to + left + k, s[from + left + k..from + n], from + left, from + left + k);
    OverwritePrepend(s, to + left, chunk, s[from + left + k..from + n]);
    SliceAppend(s, from + left, from + left + k, from + n);
  }

  // ---------- the buffered writer ----------

  datatype Outcome = Written | Overflow

  function Spaces(n: nat): (s: bytes)
    ensures |s| == n && forall i :: 0 <= i < n ==> s[i] == SPACE
  {
    seq(n, i => SPACE)
  }

  /** A buffered writer into `start..end` of a storage. */
  class StorageWriter {
    const st: MemStorage
    const buf: array<byte>
    const end: nat
    var pos: nat
    var n: nat

    ghost const start: nat
    ghost const before: bytes     // the buffer of the storage, at first
    ghost var written: bytes      // everything that was written, also what is still in `buf`

    ghost predicate Valid()
      reads this, st, st.buf, buf
    {
      buf != st.buf && st.Valid() && end <= st.len && |before| == st.buf.Length &&
      n <= buf.Length && (buf.Length > 0 ==> n < buf.Length) && n <= |written| &&
      start + |written| <= end && pos == start + |written| - n &&
      buf[..n] == written[|written| - n..] &&
      st.buf[..] == Overwrite(before, start, written[..|written| - n])
    }

    constructor (storage: MemStorage, from: nat, to: nat, scratch: array<byte>)
      requires storage.Valid() && from <= to <= storage.len && scratch != storage.buf
      ensures Valid() && st == storage && buf == scratch && start == from && end == to
      ensures before == storage.buf[..] && written == []
    {
      st, buf, end, pos, n := storage, scratch, to, from, 0;
      start, before, written := from, storage.buf[..], [];
      OverwriteNothing(storage.buf[..], from);
    }

    /** Writes out the buffer; the range is inside the document, so this cannot fail. */
    method FlushBuf()
      requires Valid() || (buf != st.buf && FullBuf())
      modifies this`pos, this`n, st.buf
      ensures Valid() && n == 0
    {
      hide Overwrite;
      ghost var at := |written| - n;
      if n > 0 {
        assert written == written[..at] + written[at..];
        OverwriteAppend(before, start, written[..at], buf[..n]);
        var w := st.WriteAt(pos, buf[..n]);
        pos := pos + n;
        n := 0;
      }
      assert written[..|written|] == written && buf[..0] == written[|written|..];
    }

    /** As Valid, with a buffer that may be full. */
    ghost predicate FullBuf()
      reads this, st, st.buf, buf
    {
      st.Valid() && end <= st.len && |before| == st.buf.Length &&
      n <= buf.Length && n <= |written| &&
      start + |written| <= end && pos == start + |written| - n &&
      buf[..n] == written[|written| - n..] &&
      st.buf[..] == Overwrite(before, start, written[..|written| - n])
    }

    /** Puts at most what the buffer has room for. */
    method PutSome(data: bytes) returns (k: nat)
      requires Valid() && data != [] && buf.Length > 0 && start + |written| + |data| <= end
      modifies this, st.buf, buf
      ensures Valid() && 0 < k <= |data| && written == old(written) + data[..k]
    {
      hide Overwrite;
      k := Min(buf.Length - n, |data|);
      ghost var at, old_ := |written| - n, buf[..n];
      forall i | 0 <= i < k {
        buf[n + i] := data[i];
      }
      assert buf[..n + k] == old_ + data[..k];
      PutParts(written, data[..k], at);
      written := written + data[..k];
      n := n + k;
      if n == buf.Length {
        FlushBuf();
      }
    }

    /** Writes all of `data`, if it fits in the range. */
    method WriteAll(data: bytes) returns (r: Outcome)
      requires Valid()
      modifies this, st.buf, buf
      ensures Valid()
      ensures r == if |old(written)| + |data| <= end - start then Written else Overflow
      ensures written == if r.Written? then old(written) + data else old(written)
    {
      hide Overwrite;
      if pos + n + |data| > end {
        r := Overflow;
      } else if buf.Length == 0 {
        OverwriteAppend(before, start, written, data);
        assert written[..|written|] == written && (written + data)[..|written| + |data|] == written + data;
        var w := st.WriteAt(pos, data);
        pos := pos + |data|;
        written := written + data;
        assert buf[..0] == written[|written|..];
        r := Written;
      } else {
        PutAll(data);
        r := Written;
      }
    }

    method PutAll(data: bytes)
      requires Valid() && buf.Length > 0 && start + |written| + |data| <= end
      modifies this, st.buf, buf
      ensures Valid() && written == old(written) + data
    {
      ghost var first := written;
      var i := 0;
      assert data[..0] == [] && first + [] == first;
      while i < |data|
        invariant Valid() && i <= |data| && written == first + data[..i]
      {
        var k := PutSome(data[i..]);
        MorePut(first, data, i, k);
        i := i + k;
      }
      assert data[..i] == data;
    }

    /** Flushes, and pads the rest of the range with spaces. */
    method Finish()
      requires Valid()
      modifies this, st.buf
      ensures st.buf[..] == Overwrite(before, start, old(written) + Spaces(end - start - |old(written)|))
    {
      hide Overwrite;
      FlushBuf();
      ghost var text := written;
      assert written[..|written|] == written;
      assert text + Spaces(0) == text;
      while pos < end
        invariant st.Valid() && end <= st.len && |before| == st.buf.Length && start + |text| <= pos <= end
        invariant st.buf[..] == Overwrite(before, start, text + Spaces(pos - start - |text|))
      {
        var k := Min(end - pos, 16);
        ghost var pad := pos - start - |text|;
        assert text + Spaces(pad) + Spaces(k) == text + Spaces(pad + k);
        OverwriteAppend(before, start, text + Spaces(pad), Spaces(k));
        var w := st.WriteAt(pos, Spaces(k));
        pos := pos + k;
      }
    }
  }

  lemma PutParts(written: bytes, more: bytes, at: nat)
    requires at <= |written|
    ensures (written + more)[..at] == written[..at] && (written + more)[at..] == written[at..] + more
  {
  }

  lemma MorePut(first: bytes, data: bytes, i: nat, k: nat)
    requires i + k <= |data|
    ensures first + data[..i] + data[i..][..k] == first + data[..i + k]
  {
    assert data[..i] + data[i..][..k] == data[..i + k];
    Cat3(first, data[..i], data[i..][..k]);
  }
}
