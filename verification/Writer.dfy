/** The streaming writer, and what it writes for a sequence of events. */
module Writing {
  import opened Bytes
  import opened Escaping

  /** The pieces one after the other. */
  function Concat(pieces: seq<bytes>): bytes {
    if pieces == [] then [] else Concat(pieces[..|pieces| - 1]) + pieces[|pieces| - 1]
  }

  lemma ConcatOne(pieces: seq<bytes>, piece: bytes)
    ensures Concat(pieces + [piece]) == Concat(pieces) + piece
  {
    assert (pieces + [piece])[..|pieces|] == pieces;
  }

  lemma {:induction false} ConcatAppend(a: seq<bytes>, b: seq<bytes>)
    ensures Concat(a + b) == Concat(a) + Concat(b)
    decreases |b|
  {
    if b == [] {
      assert a + b == a;
    } else {
      var init, last := b[..|b| - 1], b[|b| - 1];
      assert a + b == (a + init) + [last];
      ConcatOne(a + init, last);
      ConcatAppend(a, init);
      Cat3(Concat(a), Concat(init), last);
    }
  }

  // ---------- what is written, as functions ----------

  datatype Pos = Start | AfterKey | AfterValue

  /** A line break and the indentation of `depth` levels, when pretty-printing. */
  function Newline(indent: nat, depth: nat): (w: bytes)
    ensures AllWs(w)
  {
    if indent == 0 then [] else [NEWLINE] + Blanks(depth * indent)
  }

  function Blanks(n: nat): (w: bytes)
    ensures |w| == n && AllWs(w)
  {
    seq(n, i => SPACE)
  }

  /** What must precede a name or a value. */
  function Separator(pos: Pos, indent: nat, depth: nat): bytes {
    match pos
    case AfterKey => []
    case AfterValue => if depth == 0 then [NEWLINE] else [COMMA] + Newline(indent, depth)
    case Start => if depth > 0 then Newline(indent, depth) else []
  }

  function KeyEnd(indent: nat): bytes {
    [QUOTE, COLON] + (if indent > 0 then [SPACE] else [])
  }

  // ---------- the writer ----------

  /** Commas and colons are inserted automatically. The pieces are what is passed to the output, one by one. */
  class JsonWriter {
    var pieces: seq<bytes>
    var pos: Pos
    var depth: nat
    const indent: nat

    constructor (spaces: nat)
      ensures Text() == [] && pieces == [] && pos == Start && depth == 0 && indent == spaces
    {
      pieces, pos, depth, indent := [], Start, 0, spaces;
    }

    function Text(): bytes
      reads this`pieces
    {
      Concat(pieces)
    }

    method Emit(data: bytes)
      modifies this`pieces
      ensures Text() == old(Text()) + data && pieces == old(pieces) + [data]
    {
      ConcatOne(pieces, data);
      pieces := pieces + [data];
    }

    method WriteNewline()
      modifies this`pieces
      ensures Text() == old(Text()) + Newline(indent, depth)
    {
      ghost var first := Text();
      if indent == 0 {
        assert first + [] == first;
        return;
      }
      Emit([NEWLINE]);
      var n := depth * indent;
      ghost var total := n;
      assert [NEWLINE] + Blanks(0) == [NEWLINE];
      while n > 0
        invariant 0 <= n <= total && Text() == first + ([NEWLINE] + Blanks(total - n))
      {
        var k := Min(n, 32);
        assert [NEWLINE] + Blanks(total - n) + Blanks(k) == [NEWLINE] + Blanks(total - n + k);
        Cat3(first, [NEWLINE] + Blanks(total - n), Blanks(k));
        Emit(Blanks(k));
        n := n - k;
      }
    }

    method WriteSeparator()
      modifies this`pieces
      ensures Text() == old(Text()) + Separator(pos, indent, depth)
    {
      ghost var first := Text();
      assert first + [] == first;
      match pos {
        case AfterKey =>
        case AfterValue =>
          if depth == 0 {
            Emit([NEWLINE]);
          } else {
            Emit([COMMA]);
            WriteNewline();
            Cat3(first, [COMMA], Newline(indent, depth));
          }
        case Start =>
          if depth > 0 {
            WriteNewline();
          }
      }
    }

    /** `{` or `[` */
    method Open(b: byte)
      modifies this`pieces, this`pos, this`depth
      ensures Text() == old(Text()) + Separator(old(pos), indent, old(depth)) + [b]
      ensures pos == Start && depth == old(depth) + 1
    {
      WriteSeparator();
      Emit([b]);
      depth := depth + 1;
      pos := Start;
    }

    /** `}` or `]` */
    method Close(b: byte)
      modifies this`pieces, this`pos, this`depth
      ensures depth == (if old(depth) > 0 then old(depth) - 1 else 0) && pos == AfterValue
      ensures Text() == old(Text()) + (if old(pos) == Start then [] else Newline(indent, depth)) + [b]
    {
      ghost var first := Text();
      assert first + [] == first;
      depth := if depth > 0 then depth - 1 else 0;
      if pos != Start {
        WriteNewline();
      }
      Emit([b]);
      pos := AfterValue;
    }

    /** The opening quote of a string written in fragments. */
    method BeginString()
      modifies this`pieces
      ensures Text() == old(Text()) + Separator(pos, indent, depth) + [QUOTE]
    {
      WriteSeparator();
      Emit([QUOTE]);
    }

    /** Part of a string, escaped as needed. */
    method StringFragment(s: bytes)
      modifies this`pieces
      ensures Text() == old(Text()) + Escape(s)
    {
      hide Escape, EscapeByte, Concat, NeedsEscape;
      ghost var first := Text();
      var start := 0;
      NoText(first, s);
      for i := 0 to |s|
        invariant start <= i && Text() == first + Escape(s[..start])
        invariant forall k :: start <= k < i ==> EscapeByte(s[k]) == [s[k]]
      {
        PlainByte(s[i]);
        if NeedsEscape(s[i]) {
          start := EscapeAt(s, start, i, first);
        }
      }
      if start < |s| {
        RunText(first, s, start, |s|);
        Emit(s[start..]);
        assert s[start..|s|] == s[start..];
      }
      assert s[..|s|] == s;
    }

    /** Writes the run before the byte at `i`, and its escape. */
    method EscapeAt(s: bytes, start: nat, i: nat, ghost first: bytes) returns (next: nat)
      requires start <= i < |s| && NeedsEscape(s[i]) && Text() == first + Escape(s[..start])
      requires forall k :: start <= k < i ==> EscapeByte(s[k]) == [s[k]]
      modifies this`pieces
      ensures next == i + 1 && Text() == first + Escape(s[..i + 1])
    {
      RunText(first, s, start, i);
      if start < i {
        Emit(s[start..i]);
      } else {
        assert s[start..i] == [] && Text() + [] == Text();
      }
      ByteText(first, s, i);
      if ShortEscape(s[i]).Some? {
        Emit([BACKSLASH, ShortEscape(s[i]).value]);
      } else {
        Emit([BACKSLASH, LOWER_U, DIGIT_0, DIGIT_0, LowerHex(s[i] / 16), LowerHex(s[i] % 16)]);
      }
      next := i + 1;
    }

    /** Ends a string that is a value. */
    method EndString()
      modifies this`pieces, this`pos
      ensures Text() == old(Text()) + [QUOTE] && pos == AfterValue
    {
      Emit([QUOTE]);
      pos := AfterValue;
    }

    /** Ends a string that is a member name. */
    method EndKey()
      modifies this`pieces, this`pos
      ensures Text() == old(Text()) + KeyEnd(indent) && pos == AfterKey
    {
      Emit(if indent > 0 then [QUOTE, COLON, SPACE] else [QUOTE, COLON]);
      assert KeyEnd(indent) == if indent > 0 then [QUOTE, COLON, SPACE] else [QUOTE, COLON];
      pos := AfterKey;
    }

    method Key(name: bytes)
      modifies this`pieces, this`pos
      ensures Text() == old(Text()) + Separator(old(pos), indent, depth) + [QUOTE] + Escape(name) + KeyEnd(indent)
      ensures pos == AfterKey
    {
      BeginString();
      StringFragment(name);
      EndKey();
    }

    /** An encoded value is written as is, in any number of fragments. */
    method BeginRaw()
      modifies this`pieces
      ensures Text() == old(Text()) + Separator(pos, indent, depth)
    {
      WriteSeparator();
    }

    method RawFragment(s: bytes)
      modifies this`pieces
      ensures Text() == old(Text()) + s
    {
      Emit(s);
    }

    method EndRaw()
      modifies this`pos
      ensures pos == AfterValue
    {
      pos := AfterValue;
    }

    method Raw(json: bytes)
      modifies this`pieces, this`pos
      ensures Text() == old(Text()) + Separator(old(pos), indent, depth) + json && pos == AfterValue
    {
      BeginRaw();
      RawFragment(json);
      EndRaw();
    }
  }

  predicate NeedsEscape(b: byte) {
    ShortEscape(b).Some? || b < 0x20
  }

  lemma PlainByte(b: byte)
    ensures !NeedsEscape(b) ==> EscapeByte(b) == [b]
  {
  }

  lemma NoText(first: bytes, s: bytes)
    ensures first + Escape(s[..0]) == first
  {
  }

  /** A run of bytes that need no escape. */
  lemma {:induction false} PlainEscape(s: bytes)
    requires forall k :: 0 <= k < |s| ==> EscapeByte(s[k]) == [s[k]]
    ensures Escape(s) == s
  {
    if s != [] {
      assert EscapeByte(s[0]) == [s[0]];
      PlainEscape(s[1..]);
      assert s == [s[0]] + s[1..];
    }
  }

  lemma RunText(first: bytes, s: bytes, i: nat, j: nat)
    requires i <= j <= |s| && forall k :: i <= k < j ==> EscapeByte(s[k]) == [s[k]]
    ensures first + Escape(s[..i]) + s[i..j] == first + Escape(s[..j])
  {
    hide Escape, EscapeByte;
    var run := s[i..j];
    forall k | 0 <= k < |run|
      ensures EscapeByte(run[k]) == [run[k]]
    {
      assert run[k] == s[i + k];
    }
    PlainEscape(run);
    EscapeAppend(s[..i], run);
    assert s[..i] + run == s[..j];
    Cat3(first, Escape(s[..i]), run);
  }

  lemma ByteText(first: bytes, s: bytes, i: nat)
    requires i < |s|
    ensures first + Escape(s[..i]) + EscapeByte(s[i]) == first + Escape(s[..i + 1])
  {
    EscapeOne(s[i]);
    EscapeAppend(s[..i], [s[i]]);
    assert s[..i] + [s[i]] == s[..i + 1];
    Cat3(first, Escape(s[..i]), EscapeByte(s[i]));
  }

  /** A string may be split into fragments anywhere. */
  lemma {:induction false} FragmentsEscape(fragments: seq<bytes>)
    ensures Escape(Concat(fragments)) == Concat(EscapeEach(fragments))
  {
    if fragments != [] {
      var init, last := fragments[..|fragments| - 1], fragments[|fragments| - 1];
      FragmentsEscape(init);
      EscapeAppend(Concat(init), last);
      assert EscapeEach(fragments)[..|fragments| - 1] == EscapeEach(init);
    }
  }

  function EscapeEach(fragments: seq<bytes>): (r: seq<bytes>)
    ensures |r| == |fragments| && forall k :: 0 <= k < |r| ==> r[k] == Escape(fragments[k])
  {
    seq(|fragments|, i requires 0 <= i < |fragments| => Escape(fragments[i]))
  }
}
