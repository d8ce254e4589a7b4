/** Destinations of decoded bytes: nothing, a bounded buffer, or a comparison with a name. */
module Sinks {
  import opened Bytes
  import opened Numbers
  import opened Compare
  import opened Writing

  /** Collects bytes; what does not fit is recorded as overflow and dropped. */
  class BufSink {
    const buf: array<byte>
    var len: nat
    var overflow: bool

    /** `fed` has been put so far. */
    ghost predicate Holds(fed: bytes)
      reads this, buf
    {
      len == Min(|fed|, buf.Length) && buf[..len] == fed[..len] && (overflow <==> |fed| > buf.Length)
    }

    constructor (b: array<byte>)
      ensures buf == b && Holds([])
    {
      buf, len, overflow := b, 0, false;
    }

    function Room(): nat
      requires len <= buf.Length
      reads this
    {
      buf.Length - len
    }

    method Put(s: bytes, ghost fed: bytes)
      requires Holds(fed)
      modifies this, buf
      ensures Holds(fed + s)
    {
      var n := Min(|s|, Room());
      forall i | 0 <= i < n {
        buf[len + i] := s[i];
      }
      assert buf[..len + n] == fed[..len] + s[..n];
      len := len + n;
      if n < |s| {
        overflow := true;
      }
    }
  }

  /** Compares bytes with a pattern, which may be a JSON Pointer token. */
  class KeyMatcher {
    const pat: bytes
    const escaped: bool
    var pos: nat
    var ord: Ordering

    /** What the pattern from `from` on stands for. */
    function PatFrom(from: nat): bytes
      requires from <= |pat|
    {
      if escaped then Unescape(pat[from..]) else pat[from..]
    }

    function Name(): bytes {
      PatFrom(0)
    }

    ghost predicate Matched(fed: bytes)
      reads this
    {
      pos <= |pat| &&
      if ord == Equal then Name() == fed + PatFrom(pos)
      else Settled(fed, Name()) && Cmp(fed, Name()) == ord
    }

    constructor (pattern: bytes, isEscaped: bool)
      ensures pat == pattern && escaped == isEscaped && Matched([])
    {
      pat, escaped, pos, ord := pattern, isEscaped, 0, Equal;
    }

    method NextPat() returns (r: Option<byte>)
      requires pos <= |pat|
      modifies this`pos
      ensures pos <= |pat|
      ensures r.None? ==> PatFrom(old(pos)) == [] && pos == old(pos)
      ensures r.Some? ==> PatFrom(old(pos)) == [r.value] + PatFrom(pos)
    {
      if pos == |pat| {
        return None;
      }
      var b := pat[pos];
      ghost var rest := pat[pos..];
      pos := pos + 1;
      assert rest[1..] == pat[pos..];
      if !escaped || b != TILDE {
        return Some(b);
      }
      if pos < |pat| && pat[pos] == DIGIT_0 {
        pos := pos + 1;
        assert rest[2..] == pat[pos..];
        return Some(TILDE);
      }
      if pos < |pat| && pat[pos] == DIGIT_1 {
        pos := pos + 1;
        assert rest[2..] == pat[pos..];
        return Some(SLASH);
      }
      return Some(TILDE);
    }

    method PutByte(b: byte, ghost fed: bytes)
      requires Matched(fed) && ord == Equal
      modifies this
      ensures Matched(fed + [b])
    {
      SettledBy(fed, b, PatFrom(pos));
      var p := NextPat();
      match p {
        case None =>
          ord := Greater;
        case Some(c) =>
          if c != b {
            ord := CmpByte(b, c);
          } else {
            Cat3(fed, [b], PatFrom(pos));
          }
      }
    }

    method Put(s: bytes, ghost fed: bytes)
      requires Matched(fed)
      modifies this
      ensures Matched(fed + s)
    {
      if ord != Equal {
        SettledStays(fed, s, Name());
        return;
      }
      if !escaped {
        var stop := pos + |s|;
        if stop <= |pat| && pat[pos..stop] == s {
          assert pat[pos..] == s + pat[stop..];
          Cat3(fed, s, pat[stop..]);
          pos := stop;
          return;
        }
      }
      PutEach(s, fed);
    }

    /** One byte at a time. */
    method PutEach(s: bytes, ghost fed: bytes)
      requires Matched(fed) && ord == Equal
      modifies this
      ensures Matched(fed + s)
    {
      assert fed + s[..0] == fed;
      for i := 0 to |s|
        invariant Matched(fed + s[..i]) && ord == Equal
      {
        PutByte(s[i], fed + s[..i]);
        TakeOneMore(fed, s, i);
        if ord != Equal {
          SettledStays(fed + s[..i + 1], s[i + 1..], Name());
          TakeAndDrop(fed, s, i + 1);
          return;
        }
      }
      assert s[..|s|] == s;
    }

    /** The order of the whole key, once all of it has been put. */
    method Order(ghost fed: bytes) returns (r: Ordering)
      requires Matched(fed)
      ensures r == Cmp(fed, Name())
      ensures r == Less <==> Precedes(fed, Name())
      ensures r == Greater <==> Precedes(Name(), fed)
    {
      CmpIsBytewise(fed, Name());
      CmpPrefix(fed, PatFrom(pos));
      if ord == Equal && pos < |pat| {
        r := Less;
      } else {
        r := ord;
      }
    }
  }

  /** Appends names to a path, as reference tokens; when there is no room, only that is recorded. */
  class PathSink {
    const buf: array<byte>
    const start: nat
    var len: nat
    var overflow: bool
    ghost const before: bytes     // the path that is appended to

    ghost predicate HoldsText(text: bytes)
      reads this, buf
    {
      start <= len <= buf.Length && buf[..start] == before &&
      (overflow <==> start + |text| > buf.Length) &&
      (!overflow ==> len == start + |text| && buf[start..len] == text)
    }

    /** `fed` has been put so far. */
    ghost predicate Holds(fed: bytes)
      reads this, buf
    {
      HoldsText(EscapeToken(fed))
    }

    constructor (b: array<byte>, at: nat)
      requires at <= b.Length
      ensures buf == b && start == at && Holds([]) && before == b[..at] && !overflow
    {
      buf, start, len, overflow, before := b, at, at, false, b[..at];
    }

    method Push(s: bytes, ghost text: bytes)
      requires HoldsText(text)
      modifies this, buf
      ensures HoldsText(text + s)
    {
      if len + |s| <= buf.Length {
        forall i | 0 <= i < |s| {
          buf[len + i] := s[i];
        }
        if !overflow {
          assert buf[start..len + |s|] == text + s;
        }
        assert buf[..start] == before;
        len := len + |s|;
      } else {
        overflow := true;
      }
    }

    method Put(s: bytes, ghost fed: bytes)
      requires Holds(fed)
      modifies this, buf
      ensures Holds(fed + s)
    {
      hide EscapeToken;
      var start := 0;
      EscapeTokenAppend(fed, s);
      PutNothing(fed, s);
      for i := 0 to |s|
        invariant start <= i && HoldsText(EscapeToken(fed) + EscapeToken(s[..start]))
        invariant forall k :: start <= k < i ==> s[k] != TILDE && s[k] != SLASH
      {
        if s[i] == TILDE || s[i] == SLASH {
          PutPlain(fed, s, start, i);
          Push(s[start..i], EscapeToken(fed) + EscapeToken(s[..start]));
          PutOne(fed, s, i);
          Push(EscapeTokenByte(s[i]), EscapeToken(fed) + EscapeToken(s[..i]));
          start := i + 1;
        }
      }
      PutPlain(fed, s, start, |s|);
      Push(s[start..], EscapeToken(fed) + EscapeToken(s[..start]));
      assert s[start..] == s[start..|s|] && s[..|s|] == s;
    }
  }

  lemma PutNothing(fed: bytes, s: bytes)
    ensures EscapeToken(fed) + EscapeToken(s[..0]) == EscapeToken(fed)
  {
  }

  lemma PutPlain(fed: bytes, s: bytes, i: nat, j: nat)
    requires i <= j <= |s| && forall k :: i <= k < j ==> s[k] != TILDE && s[k] != SLASH
    ensures EscapeToken(fed) + EscapeToken(s[..i]) + s[i..j] == EscapeToken(fed) + EscapeToken(s[..j])
  {
    hide EscapeToken;
    EscapeTokenPlain(s[i..j]);
    EscapeTokenAppend(s[..i], s[i..j]);
    assert s[..i] + s[i..j] == s[..j];
    Cat3(EscapeToken(fed), EscapeToken(s[..i]), s[i..j]);
  }

  lemma PutOne(fed: bytes, s: bytes, i: nat)
    requires i < |s|
    ensures EscapeToken(fed) + EscapeToken(s[..i]) + EscapeTokenByte(s[i]) == EscapeToken(fed) + EscapeToken(s[..i + 1])
  {
    EscapeTokenAppend(s[..i], [s[i]]);
    assert EscapeToken([s[i]]) == EscapeTokenByte(s[i]) + [] == EscapeTokenByte(s[i]);
    assert s[..i] + [s[i]] == s[..i + 1];
    Cat3(EscapeToken(fed), EscapeToken(s[..i]), EscapeTokenByte(s[i]));
  }

  /** A sink of one of these kinds, one that passes text on to a writer, or one that discards everything. */
  class Sink {
    const buffer: BufSink?
    const matcher: KeyMatcher?
    const path: PathSink?
    const writer: JsonWriter?
    ghost var fed: bytes          // all that was put
    ghost const written: bytes    // what the writer had written before

    ghost const Repr: set<object>

    ghost predicate Valid()
      reads this, Repr
    {
      this in Repr &&
      (buffer != null ==> buffer in Repr && buffer.buf in Repr && buffer.Holds(fed)) &&
      (matcher != null ==> matcher in Repr && matcher.Matched(fed)) &&
      (path != null ==> path in Repr && path.buf in Repr && path.Holds(fed)) &&
      (writer != null ==> writer in Repr && writer.Text() == written + fed) &&
      (buffer != null ==> matcher == null && path == null && writer == null) &&
      (matcher != null ==> path == null && writer == null) && (path != null ==> writer == null)
    }

    constructor Null()
      ensures Valid() && fed == [] && fresh(Repr) && buffer == null
    {
      buffer, matcher, path, writer, fed := null, null, null, null, [];
      Repr := {this};
    }

    constructor Buffering(b: BufSink)
      requires b.Holds([])
      ensures Valid() && fed == [] && buffer == b && Repr == {this, b, b.buf}
    {
      buffer, matcher, path, writer, fed := b, null, null, null, [];
      Repr := {this, b, b.buf};
    }

    constructor Matching(m: KeyMatcher)
      requires m.Matched([])
      ensures Valid() && fed == [] && buffer == null && matcher == m && Repr == {this, m}
    {
      buffer, matcher, path, writer, fed := null, m, null, null, [];
      Repr := {this, m};
    }

    constructor Appending(p: PathSink)
      requires p.Holds([])
      ensures Valid() && fed == [] && buffer == null && path == p && Repr == {this, p, p.buf}
    {
      buffer, matcher, path, writer, fed := null, null, p, null, [];
      Repr := {this, p, p.buf};
    }

    constructor Passing(w: JsonWriter)
      ensures Valid() && fed == [] && buffer == null && writer == w && written == w.Text() && Repr == {this, w}
    {
      buffer, matcher, path, writer, fed, written := null, null, null, w, [], w.Text();
      Repr := {this, w};
      new;
      assert written + [] == written;
    }

    /** How many more bytes are accepted. */
    function Room(): (n: nat)
      requires Valid()
      reads this, Repr
    {
      if buffer != null then buffer.Room() else USIZE_MAX
    }

    /** Nothing was dropped. */
    ghost predicate Fits()
      reads this, buffer
    {
      buffer != null ==> |fed| <= buffer.buf.Length
    }

    method Put(s: bytes)
      requires Valid()
      modifies Repr
      ensures Valid() && fed == old(fed) + s
      ensures old(Fits()) && |s| <= old(Room()) ==> Fits()
      ensures writer != null ==> writer.pos == old(writer.pos) && writer.depth == old(writer.depth)
    {
      hide EscapeToken, Concat;
      if buffer != null {
        buffer.Put(s, fed);
      } else if matcher != null {
        matcher.Put(s, fed);
      } else if path != null {
        path.Put(s, fed);
      } else if writer != null {
        Cat3(written, fed, s);
        writer.RawFragment(s);
      }
      fed := fed + s;
    }
  }
}
