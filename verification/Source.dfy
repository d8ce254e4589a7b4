/** What the parser reads from: a stream buffered in chunks of any size, or a `Tee` over one, which also copies
    what is consumed to an output. */
module Sources {
  import opened Bytes

  class Source {
    const data: bytes     // the whole stream
    const whole: bool     // whether all of it is in memory: a slice source
    const tee: bool       // whether this is a Tee

    // The buffered stream: data[..pos] is consumed, data[pos..end] is buffered.
    var pos: nat
    var end: nat

    // The Tee: `pending` buffered bytes are consumed but not forwarded, nor taken from the stream, yet.
    var pending: nat
    var enabled: bool
    var out: bytes

    // The output when copying was last switched, and the offset where that happened.
    ghost var base: bytes
    ghost var mark: nat

    ghost predicate Valid()
      reads this
    {
      pos + pending <= end <= |data| && (whole ==> end == |data|) && (!tee ==> pending == 0) && mark <= pos &&
      out == base + (if tee && enabled then data[mark..pos] else [])
    }

    function Offset(): nat
      reads this`pos, this`pending
    {
      pos + pending
    }

    ghost function Rest(): (r: bytes)
      requires Valid()
      reads this
      ensures |r| == |data| - Offset()
    {
      data[Offset()..]
    }

    /** The output, once all consumed bytes are forwarded. */
    ghost function Copied(): bytes
      requires Valid()
      reads this
    {
      base + (if tee && enabled then data[mark..Offset()] else [])
    }

    constructor Plain(input: bytes)
      ensures Valid() && data == input && !tee && Offset() == 0
    {
      data, tee, whole := input, false, false;
      pos, end, pending, enabled, out, base, mark := 0, 0, 0, false, [], [], 0;
    }

    /** A document in memory. */
    constructor Slice(input: bytes)
      ensures Valid() && data == input && whole && !tee && Offset() == 0
    {
      data, tee, whole := input, false, true;
      pos, end, pending, enabled, out, base, mark := 0, |input|, 0, false, [], [], 0;
    }

    /** A Tee over a stream, copying from the start. */
    constructor Tee(input: bytes)
      ensures Valid() && data == input && tee && enabled && Offset() == 0 && Copied() == []
    {
      data, tee, whole := input, true, false;
      pos, end, pending, enabled, out, base, mark := 0, 0, 0, true, [], [], 0;
    }

    /** Buffered bytes of the stream; reads some more, as many as it likes, only when there are none. */
    method FillStream() returns (buf: bytes)
      requires Valid()
      modifies this`end
      ensures Valid() && buf == data[pos..end] && (buf == [] <==> pos == |data|)
      ensures old(end) != pos ==> end == old(end)
    {
      if pos == end && end < |data| {
        var n: nat :| end < n <= |data|;
        end := n;
      }
      buf := data[pos..end];
    }

    /** Buffered, unconsumed bytes; none only at the end of the input. */
    method Fill() returns (buf: bytes)
      requires Valid()
      modifies this`pos, this`end, this`pending, this`out
      ensures Valid() && Offset() == old(Offset())
      ensures Offset() + |buf| == end && buf == data[Offset()..end]
      ensures buf == [] <==> Rest() == []
    {
      if !tee {
        buf := FillStream();
        return;
      }
      if pending > 0 {
        buf := FillStream();
        if pending >= |buf| {
          Sync();
        }
      }
      buf := FillStream();
      buf := buf[Min(pending, |buf|)..];
    }

    method Consume(n: nat)
      requires Valid() && Offset() + n <= end
      modifies this`pos, this`pending
      ensures Valid() && Offset() == old(Offset()) + n
      ensures Rest() == old(Rest())[n..]
    {
      if tee {
        pending := pending + n;
      } else {
        pos := Min(pos + n, |data|);
      }
    }

    // ---------- the Tee's own methods ----------

    /** Forwards consumed bytes now. */
    method Sync()
      requires Valid() && tee
      modifies this`pos, this`end, this`pending, this`out
      ensures Valid() && pending == 0 && end == old(end)
      ensures Offset() == old(Offset())
    {
      if pending == 0 {
        return;
      }
      var buf := FillStream();
      var n := Min(pending, |buf|);
      if enabled {
        assert out + buf[..n] == base + data[mark..pos + n];
        out := out + buf[..n];
      }
      pos := pos + n;
      pending := 0;
    }

    method SetEnabled(on: bool)
      requires Valid() && tee
      modifies this
      ensures Valid() && enabled == on && Offset() == old(Offset())
      ensures Copied() == old(Copied())
      ensures base == Copied() && mark == Offset()
    {
      Sync();
      enabled := on;
      base, mark := out, pos;
    }

    /** Writes to the output at the current position. */
    method WriteOut(data': bytes)
      requires Valid() && tee
      modifies this
      ensures Valid() && enabled == old(enabled) && Offset() == old(Offset())
      ensures Copied() == old(Copied()) + data'
    {
      Sync();
      out := out + data';
      base, mark := out, pos;
    }

    /** Copies all that is left, switched on or not. */
    method CopyRest()
      requires Valid() && tee
      modifies this
      ensures out == old(Copied()) + old(Rest())
    {
      Sync();
      ghost var first, start := out, pos;
      var more := true;
      while more
        invariant Valid() && pending == 0 && start <= pos && out == first + data[start..pos]
        invariant !more ==> pos == |data|
        decreases more, |data| - pos
      {
        SliceAppend(data, start, pos, |data|);
        ghost var before := pos;
        more := CopyChunk();
        SliceAppend(data, start, before, pos);
        Cat3(first, data[start..before], data[before..pos]);
      }
    }

    /** Copies what is buffered; none, at the end of the input. */
    method CopyChunk() returns (more: bool)
      requires Valid() && tee && pending == 0
      modifies this
      ensures Valid() && pending == 0 && old(pos) <= pos && out == old(out) + data[old(pos)..pos]
      ensures if more then pos > old(pos) else pos == |data|
    {
      var buf := FillStream();
      more := buf != [];
      out := out + buf;
      pos := pos + |buf|;
      base, mark := out, pos;
    }
  }
}
