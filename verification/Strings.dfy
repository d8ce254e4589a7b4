/** Reading strings into buffers, whole or in chunks. */
module StringReading {
  import opened Bytes
  import opened Utf8Coding
  import opened StringGrammar
  import opened Automaton
  import opened Results
  import opened Sources
  import opened Sinks
  import opened Scanning
  import opened Parsing
  import opened Seeking

  // ---------- UTF-8 ----------

  lemma {:induction false} ScalarsAppend(a: seq<int>, b: seq<int>)
    requires Scalars(a) && Scalars(b)
    ensures Scalars(a + b)
  {
  }

  lemma Utf8Append(a: bytes, b: bytes)
    requires IsUtf8(a) && IsUtf8(b)
    ensures IsUtf8(a + b)
  {
    var x: seq<int> :| Scalars(x) && Utf8All(x) == a;
    var y: seq<int> :| Scalars(y) && Utf8All(y) == b;
    ScalarsAppend(x, y);
    Utf8AllAppend(x, y);
    assert Utf8All(x + y) == a + b;
  }

  lemma NothingIsUtf8()
    ensures IsUtf8([])
  {
    assert Scalars([]) && Utf8All([]) == [];
  }

  lemma CharIsUtf8(c: StrChar)
    requires WfChar(c)
    ensures IsUtf8(Utf8(CharCp(c)))
  {
    CharsTextIsUtf8([c]);
    OneChar(c);
  }

  // ---------- what a string reader has ahead ----------

  /** What remains of a string: the stash, then the text of what follows, and the input after it. */
  ghost predicate Ahead(stash: bytes, s: bytes, text: bytes, rest: bytes) {
    IsUtf8(stash) &&
    match ScanChars(s)
    case None => false
    case Some(n) => text == stash + CharsText(n.item) && rest == n.rest
  }

  /** A chunk is whole characters: the end of what was there is the new stash. */
  lemma ChunkIsUtf8(stash0: bytes, cs: seq<StrChar>, stash: bytes, fed: bytes)
    requires IsUtf8(stash0) && WfChars(cs) && fed + stash == stash0 + CharsText(cs)
    requires stash != [] ==> LastStashed(stash0, cs, stash)
    ensures IsUtf8(fed) && IsUtf8(stash)
  {
    hide IsUtf8, CharsText, Utf8;
    NothingIsUtf8();
    if stash == [] {
      assert fed + [] == fed;
      CharsTextIsUtf8(cs);
      Utf8Append(stash0, CharsText(cs));
    } else if cs == [] {
      NoChars();
      SameSuffix(fed, [], stash);
    } else {
      var init, last := cs[..|cs| - 1], cs[|cs| - 1];
      assert cs == init + [last];
      CharsAppend(init, [last]);
      OneChar(last);
      CharIsUtf8(last);
      Cat3(stash0, CharsText(init), Utf8(CharCp(last)));
      SameSuffix(fed, stash0 + CharsText(init), stash);
      CharsTextIsUtf8(init);
      Utf8Append(stash0, CharsText(init));
    }
  }

  lemma SameSuffix(a: bytes, b: bytes, x: bytes)
    requires a + x == b + x || (b == [] && a + x == x + [])
    ensures a == b
  {
    assert |a + x| == |b + x|;
    assert forall i :: 0 <= i < |a| ==> a[i] == (a + x)[i] && b[i] == (b + x)[i];
  }

  /** What is ahead splits into the chunk that was read and what is still ahead. */
  lemma AheadSplits(stash0: bytes, before: bytes, text: bytes, rest: bytes, cs: seq<StrChar>, stash: bytes, after: bytes, fed: bytes)
    requires Ahead(stash0, before, text, rest) && WfChars(cs) && before == CharsBytes(cs) + after
    requires fed + stash == stash0 + CharsText(cs) && IsUtf8(stash)
    ensures |fed| <= |text| && text[..|fed|] == fed && Ahead(stash, after, text[|fed|..], rest)
  {
    hide IsUtf8, CharsText, CharsBytes, ScanChars;
    ScanCharsSplit(cs, after);
    var n := ScanChars(after).value;
    CharsAppend(cs, n.item);
    Cat3(stash0, CharsText(cs), CharsText(n.item));
    Cat3(fed, stash, CharsText(n.item));
    assert (fed + (stash + CharsText(n.item)))[|fed|..] == stash + CharsText(n.item);
  }

  /** Where there is more to read, there is more text. */
  lemma MoreText(stash: bytes, s: bytes, text: bytes, rest: bytes)
    requires Ahead(stash, s, text, rest)
    ensures |text| >= |stash|
    ensures s != [] && s[0] != QUOTE ==> |text| > |stash|
  {
    var n := ScanChars(s).value;
    if s != [] && s[0] != QUOTE {
      ScanCharSound(s);
      assert n.item != [];
      assert |CharsText(n.item)| >= |Utf8(CharCp(n.item[0]))|;
    }
  }

  /** The end of the string. */
  lemma AheadAll(stash0: bytes, before: bytes, text: bytes, rest: bytes, cs: seq<StrChar>, after: bytes)
    requires Ahead(stash0, before, text, rest) && ScanChars(before) == Some(Scanned(cs, after))
    ensures text == stash0 + CharsText(cs) && rest == after && WfChars(cs) && IsUtf8(text)
  {
    hide IsUtf8;
    ScanCharsSound(before);
    CharsTextIsUtf8(cs);
    Utf8Append(stash0, CharsText(cs));
  }

  // ---------- into a buffer ----------

  datatype Piece = Piece(bytes: bytes, finished: bool)

  /** What was read of the text ahead into a buffer of this size. */
  ghost predicate ReadPiece(r: Res<Piece>, stash: bytes, after: bytes, text: bytes, rest: bytes, buf: bytes) {
    r.Ok? && var chunk := r.value.bytes;
    |chunk| <= |buf| && buf[..|chunk|] == chunk && IsUtf8(chunk) && |chunk| <= |text| && text[..|chunk|] == chunk &&
    if r.value.finished then chunk == text && after == rest && stash == []
    else
      Ahead(stash, after, text[|chunk|..], rest) && |chunk| < |text| && |buf| < |text| &&
      (chunk == [] ==> |buf| < 4)
  }

  /** A piece that is not the last one: what is wrong with the string is still ahead, and something was used up. */
  ghost predicate StillAhead(stash0: bytes, before: bytes, stash: bytes, after: bytes, chunk: bytes) {
    (ScanChars(before).None? ==> ScanChars(after).None?) &&
    (chunk != [] ==> |after| < |before| || (|after| == |before| && |stash| < |stash0|))
  }

  lemma ReadOn(stash0: bytes, before: bytes, cs: seq<StrChar>, stash: bytes, after: bytes, fed: bytes)
    requires WfChars(cs) && before == CharsBytes(cs) + after && fed + stash == [] + stash0 + CharsText(cs)
    ensures StillAhead(stash0, before, stash, after, fed)
  {
    hide ScanChars;
    ScanCharsSplit(cs, after);
    if cs != [] {
      NonemptyBytes(cs);
    }
  }

  /** Decodes what fits into `buf`. The text is UTF-8, so nothing is left to check about it. */
  method DecodeInto(src: Source, stash0: bytes, buf: array<byte>, ghost text: bytes, ghost rest: bytes) returns (r: Res<Piece>, stash: bytes)
    requires src.Valid() && |stash0| <= 4
    modifies src`pos, src`end, src`pending, src`out, buf
    ensures src.Valid() && |stash| <= 4
    ensures r.Ok? && r.value.finished ==> stash == [] && ScanChars(old(src.Rest())).Some?
    ensures r.Ok? && !r.value.finished ==> StillAhead(stash0, old(src.Rest()), stash, src.Rest(), r.value.bytes)
    ensures Ahead(stash0, old(src.Rest()), text, rest) ==> ReadPiece(r, stash, src.Rest(), text, rest, buf[..])
  {
    hide Ahead, IsUtf8, ScanChars, CharsBytes, CharsText, WfChars, LastStashed, Utf8;
    ghost var before := src.Rest();
    ghost var ok := Ahead(stash0, before, text, rest);
    var b := new BufSink(buf);
    var sink := new Sink.Buffering(b);
    var d;
    ghost var cs;
    d, stash, cs := Decode(src, sink, stash0);
    r := if d.Err? then Err(d.kind) else Ok(Piece(buf[..b.len], d.value));
    Nothing(stash0 + CharsText(cs));
    if d == Ok(false) {
      ReadOn(stash0, before, cs, stash, src.Rest(), sink.fed);
    }
    if ok {
      AheadScans(stash0, before, text, rest);
      Cat3([], stash0, CharsText(cs));
      Empty(stash0);
      DecodedPiece(stash0, before, text, rest, cs, stash, src.Rest(), sink.fed, buf.Length, d.value);
      assert b.len == |sink.fed| && sink.fed[..b.len] == sink.fed;
      assert buf[..][..b.len] == buf[..b.len];
    }
  }

  lemma AheadScans(stash: bytes, s: bytes, text: bytes, rest: bytes)
    requires Ahead(stash, s, text, rest)
    ensures ScanChars(s).Some? && IsUtf8(stash)
  {
  }

  lemma DecodedPiece(stash0: bytes, before: bytes, text: bytes, rest: bytes, cs: seq<StrChar>, stash: bytes, after: bytes, fed: bytes, size: nat, finished: bool)
    requires Ahead(stash0, before, text, rest) && WfChars(cs) && |fed| <= size && |stash| <= 4
    requires finished ==> stash == [] && ScanChars(before) == Some(Scanned(cs, after)) && fed == stash0 + CharsText(cs)
    requires !finished ==>
               before == CharsBytes(cs) + after && fed + stash == stash0 + CharsText(cs) &&
               if stash == [] then |fed| == size && after != [] && after[0] != QUOTE
               else size - |fed| < |stash| && LastStashed(stash0, cs, stash)
    ensures |fed| <= |text| && text[..|fed|] == fed && IsUtf8(fed)
    ensures finished ==> fed == text && after == rest
    ensures !finished ==>
              Ahead(stash, after, text[|fed|..], rest) && |fed| < |text| && size < |text| && (fed == [] ==> size < 4)
  {
    hide Ahead, IsUtf8, ScanChars, CharsBytes, CharsText, WfChars, LastStashed, Utf8;
    AheadScans(stash0, before, text, rest);
    if finished {
      AheadAll(stash0, before, text, rest, cs, after);
      assert text[..|text|] == text;
    } else {
      ChunkIsUtf8(stash0, cs, stash, fed);
      AheadSplits(stash0, before, text, rest, cs, stash, after, fed);
      MoreText(stash, after, text[|fed|..], rest);
    }
  }

  // ---------- whole strings ----------

  /** Reads the string whose opening quote was consumed, if it fits. */
  method ReadOpenStr(p: Parser, buf: array<byte>, ghost text: bytes, ghost rest: bytes) returns (r: Res<bytes>)
    requires p.Valid() && p.state.InStr? && (p.stack.bits as object) != buf
    modifies p`state, p`stash, p.src`pos, p.src`end, p.src`pending, p.src`out, buf
    ensures p.Valid() && p.Levels() == old(p.Levels())
    ensures r.Ok? ==> ScanChars(old(p.Rest())).Some?
    ensures old(Ahead(p.stash, p.Rest(), text, rest)) ==>
              if |text| <= buf.Length then
                r == Ok(text) && buf[..|text|] == text && IsUtf8(text) && p.Rest() == rest && p.stash == [] &&
                p.state == StringDone(old(p.state).key, p.Levels())
              else
                r == Err(BufferTooSmall) && p.state == old(p.state) &&
                ScanChars(p.Rest()).Some? && ScanChars(p.Rest()).value.rest == rest
  {
    hide Ahead, IsUtf8, ScanChars, StringDone;
    ghost var ok := Ahead(p.stash, p.Rest(), text, rest);
    var d;
    d, p.stash := DecodeInto(p.src, p.stash, buf, text, rest);
    if d.Err? {
      p.stash := [];
      r := Err(d.kind);
    } else if !d.value.finished {
      if ok {
        AheadEnds(p.stash, p.Rest(), text[|d.value.bytes|..], rest);
      }
      r := Err(BufferTooSmall);
    } else {
      p.StrDone(p.state.key);
      r := Ok(d.value.bytes);
    }
  }

  lemma AheadEnds(stash: bytes, s: bytes, text: bytes, rest: bytes)
    requires Ahead(stash, s, text, rest)
    ensures ScanChars(s).Some? && ScanChars(s).value.rest == rest
  {
  }

  /** A string that was just opened. */
  lemma AheadOfAll(s: bytes)
    requires ScanChars(s).Some?
    ensures Ahead([], s, CharsText(ScanChars(s).value.item), ScanChars(s).value.rest)
  {
    hide IsUtf8, ScanChars, CharsText;
    NothingIsUtf8();
    Empty(CharsText(ScanChars(s).value.item));
  }

  /** Reads a string value: it fits exactly when it is no longer than the buffer. */
  method ReadStr(p: Parser, buf: array<byte>) returns (r: Res<bytes>)
    requires p.Valid() && (p.stack.bits as object) != buf
    modifies p`state, p`stash, p.src`pos, p.src`end, p.src`pending, p.src`out, buf
    ensures p.Valid() && p.Levels() == old(p.Levels())
    ensures match StringAt(old(PeekFrom(p.state, p.Rest(), p.Levels())))
            case None => r.Err?
            case Some(n) =>
              var text := CharsText(n.item);
              if |text| <= buf.Length then
                r == Ok(text) && IsUtf8(text) && buf[..|text|] == text && p.Rest() == n.rest && p.state == ValueDone(p.Levels())
              else
                r == Err(BufferTooSmall) && p.state == InStr(false) &&
                ScanChars(p.Rest()).Some? && ScanChars(p.Rest()).value.rest == n.rest
  {
    hide Ahead, IsUtf8, ScanChars, CharsText, PeekFrom, ValueDone, AtToken, Fits;
    ghost var levels := p.Levels();
    var e := p.Expect(StringToken);
    if e.Err? {
      r := Err(e.kind);
    } else {
      StringFits(Peeked(StringToken, p.state, p.Rest()), levels);
      p.src.Consume(1);
      p.state := InStr(false);
      if ScanChars(p.Rest()).Some? {
        AheadOfAll(p.Rest());
      }
      ghost var n := if ScanChars(p.Rest()).Some? then ScanChars(p.Rest()).value else Scanned([], []);
      r := ReadOpenStr(p, buf, CharsText(n.item), n.rest);
    }
  }

  lemma StringFits(q: Peeked, levels: seq<bool>)
    requires AtToken(q, levels) && q.token.StringToken?
    ensures q.rest != [] && Fits(InStr(false), levels)
  {
    TokenFactsOf(q, levels);
  }

  /** The characters of the string that was peeked. */
  ghost function StringAt(q: Option<Peeked>): Option<Scanned<seq<StrChar>>> {
    if q.None? || !q.value.token.StringToken? || q.value.rest == [] then None else ScanChars(q.value.rest[1..])
  }

  // ---------- borrowed strings ----------

  /** Whether a slice is UTF-8, by the table. */
  predicate CheckUtf8(s: bytes)
    decreases |s|
  {
    s == [] || (if s[0] < 0x80 then CheckUtf8(s[1..]) else TableAccepts(s) && CheckUtf8(s[LeadOf(s[0]).value.len..]))
  }

  predicate IsSpecial(b: byte) {
    b == QUOTE || b == BACKSLASH || b < 0x20
  }

  /** Nothing is escaped. */
  predicate AllPlain(cs: seq<StrChar>) {
    forall i :: 0 <= i < |cs| ==> cs[i].Plain?
  }

  /** A run of UTF-8 without special bytes, up to a quote, is a string that stands for itself. */
  lemma {:induction false} RunIsString(run: bytes, t: bytes)
    requires CheckUtf8(run) && forall k :: 0 <= k < |run| ==> !IsSpecial(run[k])
    ensures ScanChars(run + [QUOTE] + t).Some?
    ensures var n := ScanChars(run + [QUOTE] + t).value; CharsText(n.item) == run && n.rest == t && AllPlain(n.item)
    decreases |run|
  {
    hide ScanChars, TableScalar;
    if run == [] {
      EmptyString(t);
    } else {
      assert IsSpecial(run[0]) || !IsSpecial(run[0]);
      var cp := if run[0] < 0x80 then run[0] else TableScalar(run);
      if run[0] >= 0x80 {
        TableSound(run);
      }
      var k := |Utf8(cp)|;
      var rest := run[k..];
      assert run == Utf8(cp) + rest;
      forall j | 0 <= j < |rest|
        ensures !IsSpecial(rest[j])
      {
        assert rest[j] == run[k + j];
      }
      RunIsString(rest, t);
      RunStep(cp, rest + [QUOTE] + t);
      Cat3(Utf8(cp), rest + [QUOTE], t);
      Cat3(Utf8(cp), rest, [QUOTE]);
    }
  }

  lemma EmptyString(t: bytes)
    ensures ScanChars([] + [QUOTE] + t) == Some(Scanned([], t)) && CharsText([]) == []
  {
    assert ([] + [QUOTE] + t)[1..] == t;
  }

  lemma RunStep(cp: int, s: bytes)
    requires WfChar(Plain(cp)) && ScanChars(s).Some?
    ensures ScanChars(Utf8(cp) + s).Some?
    ensures var n, m := ScanChars(Utf8(cp) + s).value, ScanChars(s).value;
            n.rest == m.rest && CharsText(n.item) == Utf8(cp) + CharsText(m.item) && (AllPlain(m.item) ==> AllPlain(n.item))
  {
    hide ScanChars;
    ScanCharsStep(Plain(cp), s);
    var m := ScanChars(s).value;
    assert ([Plain(cp)] + m.item)[1..] == m.item;
  }

  lemma PlainStart(cp: int, s: bytes)
    requires WfChar(Plain(cp)) && CheckUtf8(s)
    ensures CheckUtf8(Utf8(cp) + s) && forall k :: 0 <= k < |Utf8(cp)| ==> !IsSpecial(Utf8(cp)[k])
  {
    var t := Utf8(cp) + s;
    assert t[|Utf8(cp)|..] == s;
    if cp >= 0x80 {
      TableComplete(cp, s);
      assert t[0] == Utf8(cp)[0];
    }
  }

  /** Every string in which nothing is escaped is such a run. */
  lemma {:induction false} PlainIsRun(cs: seq<StrChar>)
    requires WfChars(cs) && AllPlain(cs)
    ensures CheckUtf8(CharsBytes(cs)) && forall k :: 0 <= k < |CharsBytes(cs)| ==> !IsSpecial(CharsBytes(cs)[k])
  {
    hide Utf8, CheckUtf8, IsSpecial;
    if cs == [] {
      NothingIsChecked();
    } else {
      PlainIsRun(cs[1..]);
      PlainStart(cs[0].cp, CharsBytes(cs[1..]));
      var head, tail := Utf8(cs[0].cp), CharsBytes(cs[1..]);
      forall k | 0 <= k < |head + tail|
        ensures !IsSpecial((head + tail)[k])
      {
        if k >= |head| {
          assert (head + tail)[k] == tail[k - |head|];
        }
      }
    }
  }

  lemma NothingIsChecked()
    ensures CheckUtf8([])
  {
  }

  /** The first special byte of a string in which nothing is escaped is the closing quote. */
  lemma RunFound(body: bytes, i: nat)
    requires i <= |body| && (forall k :: 0 <= k < i ==> !IsSpecial(body[k])) && (i < |body| ==> IsSpecial(body[i]))
    requires ScanChars(body).Some? && AllPlain(ScanChars(body).value.item)
    ensures i < |body| && body[i] == QUOTE && CheckUtf8(body[..i])
  {
    hide ScanChars, CheckUtf8, CharsBytes, WfChars;
    ScanCharsSound(body);
    var run := CharsBytes(ScanChars(body).value.item);
    PlainIsRun(ScanChars(body).value.item);
    assert body[..|run|] == run && body[|run|] == QUOTE;
    assert forall k :: 0 <= k < |run| ==> body[k] == run[k];
  }

  /** A body starts with such a run and a quote exactly when it is a string in which nothing is escaped. */
  lemma RunExact(body: bytes, i: nat)
    requires i <= |body| && (forall k :: 0 <= k < i ==> !IsSpecial(body[k])) && (i < |body| ==> IsSpecial(body[i]))
    ensures i < |body| && body[i] == QUOTE && CheckUtf8(body[..i]) <==> ScanChars(body).Some? && AllPlain(ScanChars(body).value.item)
    ensures i < |body| && body[i] == QUOTE && CheckUtf8(body[..i]) ==>
              ScanChars(body).Some? && CharsText(ScanChars(body).value.item) == body[..i] && ScanChars(body).value.rest == body[i + 1..]
  {
    hide ScanChars, CharsText, CheckUtf8, AllPlain;
    if ScanChars(body).Some? && AllPlain(ScanChars(body).value.item) {
      RunFound(body, i);
    }
    if i < |body| && body[i] == QUOTE && CheckUtf8(body[..i]) {
      assert body == body[..i] + [QUOTE] + body[i + 1..];
      RunIsString(body[..i], body[i + 1..]);
    }
  }

  /** The first special byte. */
  method FirstSpecial(s: bytes) returns (i: nat)
    ensures i <= |s| && (forall k :: 0 <= k < i ==> !IsSpecial(s[k])) && (i < |s| ==> IsSpecial(s[i]))
  {
    i := 0;
    while i < |s| && !IsSpecial(s[i])
      invariant i <= |s| && forall k :: 0 <= k < i ==> !IsSpecial(s[k])
    {
      i := i + 1;
    }
  }

  /** Reads a string value from a document in memory: borrowed from it when nothing in it is escaped, and decoded into
      `scratch` otherwise. */
  method ReadStrRef(p: Parser, scratch: array<byte>) returns (r: Res<bytes>)
    requires p.Valid() && (p.stack.bits as object) != scratch && !p.src.tee && p.src.whole
    modifies p`state, p`stash, p.src`pos, p.src`end, p.src`pending, p.src`out, scratch
    ensures p.Valid() && p.Levels() == old(p.Levels())
    ensures match StringAt(old(PeekFrom(p.state, p.Rest(), p.Levels())))
            case None => r.Err?
            case Some(n) =>
              if AllPlain(n.item) || |CharsText(n.item)| <= scratch.Length then
                r == Ok(CharsText(n.item)) && p.Rest() == n.rest && p.state == ValueDone(p.Levels()) &&
                (AllPlain(n.item) ==> scratch[..] == old(scratch[..]))
              else r == Err(BufferTooSmall)
  {
    hide ScanChars, CharsText, PeekFrom, ValueDone, CheckUtf8, IsUtf8, AllPlain, Fits, AtToken;
    ghost var levels := p.Levels();
    var _ :- p.Expect(StringToken);
    ghost var q := Peeked(StringToken, p.state, p.Rest());
    TokenFactsOf(q, levels);
    PeekAgain(q, levels);
    PeekOfPeeked(q, levels);
    var borrowed := BorrowStr(p);
    if borrowed.Some? {
      r := Ok(borrowed.value);
    } else {
      r := ReadStr(p, scratch);
    }
  }

  /** The text of the peeked string, if it can be borrowed; the string is consumed then. */
  method BorrowStr(p: Parser) returns (r: Option<bytes>)
    requires p.Valid() && p.stash == [] && !p.src.tee && p.src.whole && p.Rest() != []
    modifies p`state, p.src`pos, p.src`pending
    ensures p.Valid() && p.Levels() == old(p.Levels()) && p.stash == []
    ensures r.Some? <==> ScanChars(old(p.Rest())[1..]).Some? && AllPlain(ScanChars(old(p.Rest())[1..]).value.item)
    ensures r.None? ==> p.Rest() == old(p.Rest()) && p.state == old(p.state)
    ensures r.Some? ==>
              ScanChars(old(p.Rest())[1..]).Some? && p.state == ValueDone(p.Levels()) &&
              r.value == CharsText(ScanChars(old(p.Rest())[1..]).value.item) && p.Rest() == ScanChars(old(p.Rest())[1..]).value.rest
  {
    hide ScanChars, CharsText, ValueDone, CheckUtf8, AllPlain;
    var body := p.src.data[p.src.Offset() + 1..];
    assert body == p.Rest()[1..];
    var i := FirstSpecial(body);
    RunExact(body, i);
    if i < |body| && body[i] == QUOTE && CheckUtf8(body[..i]) {
      assert p.Rest()[i + 2..] == body[i + 1..];
      TakeBorrowed(p, i + 2);
      r := Some(body[..i]);
    } else {
      r := None;
    }
  }

  lemma PeekOfPeeked(q: Peeked, levels: seq<bool>)
    requires AtToken(q, levels)
    ensures PeekFrom(q.state, q.rest, levels) == Some(q)
  {
    PeekAgain(q, levels);
    if !q.token.Eof? {
      TokenFacts(q, levels);
    }
  }

  /** Consumes a string that is at hand. */
  method TakeBorrowed(p: Parser, n: nat)
    requires p.Valid() && p.stash == [] && p.src.Offset() + n <= p.src.end
    modifies p`state, p.src`pos, p.src`pending
    ensures p.Valid() && p.Levels() == old(p.Levels()) && p.state == ValueDone(p.Levels()) && p.Rest() == old(p.Rest())[n..]
  {
    p.src.Consume(n);
    p.Done();
  }

  // ---------- in chunks ----------

  /** Reads a string in chunks, with buffers that may be smaller than it. */
  class StrReader {
    const p: Parser
    var done: bool

    constructor (parser: Parser)
      ensures p == parser && !done
    {
      p, done := parser, false;
    }

    /** `text` is still to be read; `rest` and the state `after` follow. */
    ghost predicate Reading(text: bytes, rest: bytes, after: State)
      requires p.Valid()
      reads this, p, p.src, p.stack, p.stack.bits
    {
      if done then text == [] && p.Rest() == rest && p.state == after
      else p.state.InStr? && after == StringDone(p.state.key, p.Levels()) && Ahead(p.stash, p.Rest(), text, rest)
    }

    /** Reads the next chunk; none at the end of the string. Chunks are nonempty and never split a character; with room for
        four bytes there is always a next one. */
    method NextChunk(buf: array<byte>, ghost text: bytes, ghost rest: bytes, ghost after: State) returns (r: Res<Option<bytes>>)
      requires p.Valid() && (p.stack.bits as object) != buf
      modifies this, p`state, p`stash, p.src`pos, p.src`end, p.src`pending, p.src`out, buf
      ensures p.Valid() && p.Levels() == old(p.Levels())
      ensures r.Ok? && r.value.Some? && !done ==>
                p.state == old(p.state) && p.state.InStr? && StillAhead(old(p.stash), old(p.Rest()), p.stash, p.Rest(), r.value.value) && r.value.value != []
      ensures r.Ok? && done && !old(done) ==> ScanChars(old(p.Rest())).Some?
      ensures r.Ok? && r.value.None? ==> done
      ensures old(Reading(text, rest, after)) ==>
                match r
                case Err(kind) => kind == BufferTooSmall && buf.Length < 4 && Reading(text, rest, after)
                case Ok(None) => text == [] && done && Reading([], rest, after)
                case Ok(Some(chunk)) =>
                  chunk != [] && |chunk| <= buf.Length && IsUtf8(chunk) &&
                  |chunk| <= |text| && text[..|chunk|] == chunk && Reading(text[|chunk|..], rest, after)
    {
      hide Ahead, ScanChars, StringDone;
      if done {
        return Ok(None);
      }
      if !p.state.InStr? {
        return Err(InvalidState);
      }
      r := NextPiece(buf, text, rest, after);
    }

    method NextPiece(buf: array<byte>, ghost text: bytes, ghost rest: bytes, ghost after: State) returns (r: Res<Option<bytes>>)
      requires p.Valid() && (p.stack.bits as object) != buf && !done && p.state.InStr?
      modifies this, p`state, p`stash, p.src`pos, p.src`end, p.src`pending, p.src`out, buf
      ensures p.Valid() && p.Levels() == old(p.Levels())
      ensures r.Ok? && r.value.Some? && !done ==>
                p.state == old(p.state) && p.state.InStr? && StillAhead(old(p.stash), old(p.Rest()), p.stash, p.Rest(), r.value.value) && r.value.value != []
      ensures r.Ok? && done && !old(done) ==> ScanChars(old(p.Rest())).Some?
      ensures r.Ok? && r.value.None? ==> done
      ensures old(Reading(text, rest, after)) ==>
                match r
                case Err(kind) => kind == BufferTooSmall && buf.Length < 4 && Reading(text, rest, after)
                case Ok(None) => text == [] && done && Reading([], rest, after)
                case Ok(Some(chunk)) =>
                  chunk != [] && |chunk| <= buf.Length && IsUtf8(chunk) &&
                  |chunk| <= |text| && text[..|chunk|] == chunk && Reading(text[|chunk|..], rest, after)
    {
      hide Ahead, IsUtf8, ScanChars, StringDone;
      var d;
      d, p.stash := DecodeInto(p.src, p.stash, buf, text, rest);
      if d.Err? {
        p.stash := [];
        return Err(d.kind);
      }
      var chunk := d.value.bytes;
      if d.value.finished {
        done := true;
        p.StrDone(p.state.key);
      }
      assert text[0..] == text && text[|text|..] == [];
      if chunk == [] {
        r := if done then Ok(None) else Err(BufferTooSmall);
      } else {
        r := Ok(Some(chunk));
      }
    }
  }

  /** Starts reading the next string value or name in chunks. */
  method OpenString(p: Parser) returns (r: Res<StrReader>)
    requires p.Valid()
    modifies p`state, p`stash, p.src`pos, p.src`end, p.src`pending, p.src`out
    ensures p.Valid() && p.Levels() == old(p.Levels())
    ensures match old(PeekFrom(p.state, p.Rest(), p.Levels()))
            case None => r.Err?
            case Some(q) =>
              if q.token.StringToken? || q.token.KeyToken? then
                r.Ok? && fresh(r.value) && r.value.p == p && !r.value.done && q.rest != [] &&
                p.Rest() == q.rest[1..] && p.state == InStr(q.token.KeyToken?) && p.stash == []
              else r.Err?
  {
    hide PeekFrom, AtToken;
    var t :- p.Peek();
    TokenFactsOf(Peeked(t, p.state, p.Rest()), p.Levels());
    if !t.StringToken? && !t.KeyToken? {
      return Err(TypeMismatch);
    }
    p.state := InStr(t.KeyToken?);
    p.src.Consume(1);
    var reader := new StrReader(p);
    r := Ok(reader);
  }
}
