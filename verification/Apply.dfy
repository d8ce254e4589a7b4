/** Applying a patch in place. */
module Applying {
  import opened Bytes
  import opened Results
  import opened SynEdit
  import opened Leaving
  import opened Storages
  import opened Writing

  /** What `encoded_len` counts: the bytes written, without writing them anywhere. */
  method EncodedLen(pieces: seq<bytes>) returns (n: nat)
    ensures n == |Concat(pieces)|
  {
    hide Concat;
    n := 0;
    NoPieces(pieces);
    for i := 0 to |pieces|
      invariant n == |Concat(pieces[..i])|
    {
      n := n + |pieces[i]|;
      assert pieces[..i + 1] == pieces[..i] + [pieces[i]];
      ConcatOne(pieces[..i], pieces[i]);
    }
    assert pieces[..|pieces|] == pieces;
  }

  /** Passes the pieces to the writer, until one does not fit. */
  method WritePieces(w: StorageWriter, pieces: seq<bytes>) returns (r: Outcome)
    requires w.Valid() && w.written == []
    modifies w, w.st.buf, w.buf
    ensures w.Valid()
    ensures r == if |Concat(pieces)| <= w.end - w.start then Written else Overflow
    ensures r.Written? ==> w.written == Concat(pieces)
  {
    hide Overwrite, Concat, StorageWriter.Valid;
    NoPieces(pieces);
    WrittenFits(w);
    for i := 0 to |pieces|
      invariant w.Valid() && w.written == Concat(pieces[..i]) && |w.written| <= w.end - w.start
    {
      assert pieces[..i + 1] == pieces[..i] + [pieces[i]];
      ConcatOne(pieces[..i], pieces[i]);
      var o := w.WriteAll(pieces[i]);
      WrittenFits(w);
      if o.Overflow? {
        PrefixLength(pieces, i + 1);
        return Overflow;
      }
    }
    assert pieces[..|pieces|] == pieces;
    r := Written;
  }

  lemma WrittenFits(w: StorageWriter)
    requires w.Valid()
    ensures |w.written| <= w.end - w.start
  {
    hide Overwrite;
  }

  lemma NoPieces(pieces: seq<bytes>)
    ensures Concat(pieces[..0]) == []
  {
  }

  lemma PrefixLength(pieces: seq<bytes>, i: nat)
    requires i <= |pieces|
    ensures |Concat(pieces[..i])| <= |Concat(pieces)|
  {
    hide Concat;
    ConcatAppend(pieces[..i], pieces[i..]);
    assert pieces[..i] + pieces[i..] == pieces;
  }

  /** Moves the tail of the document, at once or in chunks. */
  method MoveTail(st: MemStorage, from: nat, to: nat, n: nat, scratch: array<byte>, native: bool)
    requires st.Valid() && scratch != st.buf && from + n <= st.len && to + n <= st.len
    modifies st.buf, scratch
    ensures st.buf[..] == Overwrite(old(st.buf[..]), to, old(st.buf[..])[from..from + n])
  {
    if native {
      var r := st.CopyWithin(from, to, n);
    } else {
      var r := st.MoveChunked(from, to, n, scratch);
    }
  }

  /** Makes room for `newLen` bytes in place of `start..end`, or closes the gap. */
  method Resize(st: MemStorage, start: nat, end: nat, newLen: nat, scratch: array<byte>, native: bool) returns (r: Res<()>)
    requires st.Valid() && scratch != st.buf && start <= end <= st.len
    modifies st, st.buf, scratch
    ensures st.Valid()
    ensures var total, n := old(st.len), old(st.len) - (end - start) + newLen;
            if n > st.buf.Length then r == Err(Capacity) && st.len == total && st.buf[..] == old(st.buf[..])
            else r.Ok? && st.len == n && st.buf[..] == Overwrite(old(st.buf[..]), start + newLen, old(st.buf[..])[end..total])
  {
    hide Overwrite;
    var total, oldLen := st.len, end - start;
    ghost var b := st.buf[..];
    if newLen > oldLen {
      var grown := st.SetLen(total + (newLen - oldLen));
      if grown.Err? {
        return grown;
      }
      MoveTail(st, end, start + newLen, total - end, scratch, native);
    } else if newLen < oldLen {
      MoveTail(st, end, start + newLen, total - end, scratch, native);
      var shrunk := st.SetLen(total - (oldLen - newLen));
    } else {
      OverwriteSame(b, end, total);
    }
    r := Ok(());
  }

  lemma OverwriteSame(s: bytes, i: nat, j: nat)
    requires i <= j <= |s|
    ensures Overwrite(s, i, s[i..j]) == s
  {
  }

  /** The document, once the tail is moved and the content is written. */
  lemma SplicedBuffer(b: bytes, total: nat, start: nat, end: nat, content: bytes)
    requires start <= end <= total <= |b| && total - (end - start) + |content| <= |b|
    ensures var moved := Overwrite(b, start + |content|, b[end..total]);
            Overwrite(moved, start, content)[..total - (end - start) + |content|] == Splice(b[..total], start, end, content)
  {
  }

  /** Around the range that is written, the document is as before the tail was moved. */
  lemma AroundRange(b: bytes, total: nat, start: nat, end: nat, newLen: nat, after: bytes)
    requires start <= end <= total <= |b| && total - (end - start) + newLen <= |b| == |after|
    requires var moved := Overwrite(b, start + newLen, b[end..total]);
             after[..start] == moved[..start] && after[start + newLen..] == moved[start + newLen..]
    ensures var n := total - (end - start) + newLen;
            after[..n][..start] == b[..total][..start] && after[..n][start + newLen..] == b[..total][end..]
  {
    hide Overwrite;
    var n := total - (end - start) + newLen;
    var moved := Overwrite(b, start + newLen, b[end..total]);
    OverwriteOutside(b, start + newLen, b[end..total], 0, start);
    OverwriteInside(b, start + newLen, b[end..total]);
    assert after[..n][..start] == moved[0..start] && b[..total][..start] == b[0..start];
    assert after[..n][start + newLen..] == after[start + newLen..][..n - (start + newLen)];
    assert moved[start + newLen..][..n - (start + newLen)] == moved[start + newLen..n];
    assert b[..total][end..] == b[end..total];
  }

  /** Writes the pieces into a range of the document, padded with spaces; outside of it nothing changes. */
  method WriteInto(st: MemStorage, start: nat, end: nat, pieces: seq<bytes>, scratch: array<byte>) returns (r: Outcome)
    requires st.Valid() && start <= end <= st.len && scratch != st.buf
    modifies st.buf, scratch
    ensures r == if |Concat(pieces)| <= end - start then Written else Overflow
    ensures r.Written? ==>
              st.buf[..] == Overwrite(old(st.buf[..]), start, Concat(pieces) + Spaces(end - start - |Concat(pieces)|))
    ensures st.buf[..][..start] == old(st.buf[..])[..start] && st.buf[..][end..] == old(st.buf[..])[end..]
  {
    hide Overwrite, Concat;
    ghost var b := st.buf[..];
    var w := new StorageWriter(st, start, end, scratch);
    r := WritePieces(w, pieces);
    ghost var text := if r.Written? then Concat(pieces) + Spaces(end - start - |Concat(pieces)|) else w.written[..|w.written| - w.n];
    if r.Written? {
      w.Finish();
    }
    OutsideKept(b, start, end, text);
  }

  lemma OutsideKept(b: bytes, start: nat, end: nat, text: bytes)
    requires start + |text| <= end <= |b|
    ensures Overwrite(b, start, text)[..start] == b[..start] && Overwrite(b, start, text)[end..] == b[end..]
  {
  }

  /** Applies a patch to the document in `st`. `measured` is what its content writes when it is measured, `pieces` what
      it writes then. `native` tells whether the storage moves bytes by itself. */
  method Apply(st: MemStorage, start: nat, end: nat, measured: seq<bytes>, pieces: seq<bytes>, scratch: array<byte>, native: bool)
    returns (r: Res<Span>)
    requires st.Valid() && scratch != st.buf
    modifies st, st.buf, scratch
    ensures st.Valid()
    ensures start > end || end > old(st.len) ==> r == Err(InvalidState) && st.Contents() == old(st.Contents())
    ensures start <= end <= old(st.len) ==>
              var newLen, text := |Concat(measured)|, Concat(pieces);
              var n := old(st.len) - (end - start) + newLen;
              if n > st.buf.Length then r == Err(Capacity) && st.Contents() == old(st.Contents())
              else if |text| <= newLen then
                r == Ok(Span(start, start + newLen)) &&
                st.Contents() == Splice(old(st.Contents()), start, end, text + Spaces(newLen - |text|))
              else
                r == Err(InvalidState) && st.len == n &&
                st.Contents()[..start] == old(st.Contents())[..start] &&
                st.Contents()[start + newLen..] == old(st.Contents())[end..]
  {
    hide Overwrite, Splice, Concat;
    var newLen := EncodedLen(measured);
    ghost var b, total := st.buf[..], st.len;
    if start > end || end > st.len {
      return Err(InvalidState);
    }
    var room := Resize(st, start, end, newLen, scratch, native);
    if room.Err? {
      return Err(room.kind);
    }
    var o := WriteInto(st, start, start + newLen, pieces, scratch);
    if o.Written? {
      SplicedBuffer(b, total, start, end, Concat(pieces) + Spaces(newLen - |Concat(pieces)|));
      r := Ok(Span(start, start + newLen));
    } else {
      AroundRange(b, total, start, end, newLen, st.buf[..]);
      r := Err(InvalidState);
    }
  }
}
