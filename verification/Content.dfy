/** Writing the content of a patch: the value, with its name and commas. */
module ContentWriting {
  import opened Bytes
  import opened StringGrammar
  import opened Numbers
  import opened Compare
  import opened Paths
  import opened Escaping
  import opened Patches
  import opened Writing
  import opened Grammar
  import opened SynEdit

  /** The first `~`, or the length. */
  method FindTilde(s: bytes) returns (i: nat)
    ensures i <= |s| && (forall k :: 0 <= k < i ==> s[k] != TILDE) && (i < |s| ==> s[i] == TILDE)
  {
    i := 0;
    while i < |s| && s[i] != TILDE
      invariant i <= |s| && forall k :: 0 <= k < i ==> s[k] != TILDE
    {
      i := i + 1;
    }
  }

  lemma {:induction false} UnescapePlain(s: bytes, i: nat)
    requires i <= |s| && forall k :: 0 <= k < i ==> s[k] != TILDE
    ensures Unescape(s) == s[..i] + Unescape(s[i..])
    decreases i
  {
    if i == 0 {
      assert s[0..] == s && s[..0] == [];
    } else {
      UnescapePlain(s[1..], i - 1);
      assert s[1..][i - 1..] == s[i..] && s[..i] == [s[0]] + s[1..][..i - 1];
      Cat3([s[0]], s[1..][..i - 1], Unescape(s[i..]));
    }
  }

  /** What the escape at the start of `s` stands for, and its length. */
  function OneEscape(s: bytes): (r: (byte, nat))
    requires s != [] && s[0] == TILDE
    ensures 0 < r.1 <= |s|
  {
    if |s| > 1 && s[1] == DIGIT_0 then (TILDE, 2)
    else if |s| > 1 && s[1] == DIGIT_1 then (SLASH, 2)
    else (TILDE, 1)
  }

  lemma UnescapeOne(s: bytes)
    requires s != [] && s[0] == TILDE
    ensures Unescape(s) == [OneEscape(s).0] + Unescape(s[OneEscape(s).1..])
  {
  }

  /** Writes a pointer token as string content, a fragment at a time. */
  method WriteToken(w: JsonWriter, token: bytes)
    modifies w`pieces
    ensures w.Text() == old(w.Text()) + Escape(Unescape(token))
  {
    hide Escape, Unescape, Concat;
    ghost var first, done := w.Text(), [];
    var rest, more := token, true;
    EscapeNothing(first);
    while more
      invariant w.Text() == first + Escape(done)
      invariant Unescape(token) == if more then done + Unescape(rest) else done
      decreases more, |rest|
    {
      var i := FindTilde(rest);
      UnescapePlain(rest, i);
      w.StringFragment(rest[..i]);
      FragmentText(first, done, rest[..i]);
      Cat3(done, rest[..i], Unescape(rest[i..]));
      done := done + rest[..i];
      if i == |rest| {
        EndOfToken(rest, done);
        more := false;
      } else {
        var tail := rest[i..];
        var (b, n) := OneEscape(tail);
        UnescapeOne(tail);
        w.StringFragment([b]);
        FragmentText(first, done, [b]);
        Cat3(done, [b], Unescape(tail[n..]));
        done := done + [b];
        rest := tail[n..];
      }
    }
  }

  lemma EndOfToken(rest: bytes, done: bytes)
    ensures done + Unescape(rest[|rest|..]) == done
  {
  }

  lemma EscapeNothing(first: bytes)
    ensures first == first + Escape([])
  {
  }

  lemma FragmentText(first: bytes, a: bytes, b: bytes)
    ensures first + Escape(a) + Escape(b) == first + Escape(a + b)
  {
    EscapeAppend(a, b);
    Cat3(first, Escape(a), Escape(b));
  }

  /** Writes the name that a segment designates, and the colon. */
  method WriteKey(w: JsonWriter, seg: Seg)
    requires w.indent == 0
    modifies w`pieces, w`pos
    ensures w.Text() == old(w.Text()) + Separator(old(w.pos), 0, w.depth) + KeyContent(seg) && w.pos == AfterKey
  {
    hide Escape, Unescape, Concat;
    ghost var first := w.Text() + Separator(w.pos, 0, w.depth);
    match seg {
      case Key(name) => w.Key(name);
      case Index(i) =>
        BuffersSuffice(i);
        var digits := new byte[20];
        var at := FormatUint(i, digits);
        w.Key(digits[at..]);
      case Pointer(token) =>
        w.BeginString();
        WriteToken(w, token);
        w.EndKey();
    }
    KeyParts(first, SegName(seg));
  }

  lemma KeyParts(first: bytes, name: bytes)
    ensures first + [QUOTE] + Escape(name) + KeyEnd(0) == first + ([QUOTE] + Escape(name) + [QUOTE, COLON])
  {
    hide Escape;
    Cat4(first, [QUOTE], Escape(name), [QUOTE, COLON]);
    Cat3([QUOTE], Escape(name), [QUOTE, COLON]);
    assert KeyEnd(0) == [QUOTE, COLON] + [];
  }

  /** Writes a value, in the fragments it comes in. */
  method WriteValue(w: JsonWriter, value: seq<bytes>)
    modifies w`pieces, w`pos
    ensures w.Text() == old(w.Text()) + Separator(old(w.pos), w.indent, w.depth) + Concat(value) && w.pos == AfterValue
  {
    hide Concat, Separator;
    w.BeginRaw();
    ghost var first := w.Text();
    NoPieces(first, value);
    for i := 0 to |value|
      invariant w.Text() == first + Concat(value[..i])
    {
      w.RawFragment(value[i]);
      assert value[..i + 1] == value[..i] + [value[i]];
      ConcatOne(value[..i], value[i]);
      Cat3(first, Concat(value[..i]), value[i]);
    }
    assert value[..|value|] == value;
    w.EndRaw();
  }

  lemma NoPieces(first: bytes, pieces: seq<bytes>)
    ensures first + Concat(pieces[..0]) == first
  {
  }

  method Comma(w: JsonWriter, on: bool)
    modifies w`pieces
    ensures w.Text() == old(w.Text()) + (if on then [COMMA] else [])
  {
    if on {
      w.RawFragment([COMMA]);
    } else {
      assert w.Text() + [] == w.Text();
    }
  }

  /** Writes what a patch puts in the document for a value. */
  method WriteContent(w: JsonWriter, kind: Kind, value: seq<bytes>)
    requires w.indent == 0 && w.pos == Pos.Start && w.depth == 0
    modifies w`pieces, w`pos
    ensures w.Text() == old(w.Text()) + Content(kind, Concat(value))
  {
    hide Concat, KeyContent;
    ghost var first := w.Text();
    Nothing(first);
    match kind {
      case ValueKind => WriteValue(w, value);
      case RemoveKind =>
      case MemberKind(lead, trail, key) =>
        Comma(w, lead);
        ghost var second := w.Text();
        Nothing(second);
        WriteKey(w, key);
        Nothing(w.Text());
        WriteValue(w, value);
        Comma(w, trail);
        FourPieces(first, if lead then [COMMA] else [], KeyContent(key), Concat(value), if trail then [COMMA] else []);
      case ElementKind(lead, trail) =>
        Comma(w, lead);
        Nothing(w.Text());
        WriteValue(w, value);
        Comma(w, trail);
        ThreePieces(first, if lead then [COMMA] else [], Concat(value), if trail then [COMMA] else []);
    }
  }

  lemma FourPieces(a: bytes, b: bytes, c: bytes, d: bytes, e: bytes)
    ensures a + b + c + d + e == a + (b + c + d + e)
  {
    Cat4(a + b, c, d, e);
    Cat3(a, b, c + (d + e));
    Cat4(b, c, d, e);
  }

  lemma ThreePieces(a: bytes, b: bytes, c: bytes, d: bytes)
    ensures a + b + c + d == a + (b + c + d)
  {
    Cat4(a, b, c, d);
    Cat3(b, c, d);
  }

  /** The parser reads a written name back as the name that the segment designates. */
  lemma WrittenKeyMatches(seg: Seg, t: bytes)
    requires WfSeg(seg)
    ensures var n := ScanChars((KeyContent(seg) + t)[1..]);
            n.Some? && Cmp(CharsText(n.value.item), SegName(seg)) == Equal && n.value.rest == [COLON] + t
  {
    hide SegName, Cmp, ScanChars, Escape;
    SegNameIsUtf8(seg);
    WrittenStringIsReadBack(SegName(seg), [COLON] + t);
    CmpEqual(SegName(seg), SegName(seg));
    var body := Escape(SegName(seg));
    assert (KeyContent(seg) + t)[1..] == body + [QUOTE] + ([COLON] + t) by {
      assert [QUOTE, COLON] == [QUOTE] + [COLON];
      Cat3(body, [QUOTE], [COLON] + t);
    }
  }
}
