/** Copying a value from a parser to a writer, in constant memory. */
module ValueCopying {
  import opened Bytes
  import opened Utf8Coding
  import opened StringGrammar
  import opened Numbers
  import opened Grammar
  import opened Reader
  import opened Automaton
  import opened Escaping
  import opened Results
  import opened Sources
  import opened Sinks
  import opened Scanning
  import opened Parsing
  import opened Seeking
  import opened Stepping
  import opened Leaving
  import opened StringReading
  import opened Writing
  import opened Formatting

  function OutputOf(w: JsonWriter): Output
    reads w
  {
    Output(w.pos, w.depth, w.Text())
  }

  // ---------- strings ----------

  /** Transfers a string in chunks. */
  method CopyChunks(p: Parser, w: JsonWriter, rd: StrReader) returns (r: Res<()>)
    requires p.Valid() && rd.p == p && !rd.done && p.state.InStr? && p.stash == []
    modifies rd, p`state, p`stash, p.src`pos, p.src`end, p.src`pending, p.src`out, w`pieces
    ensures p.Valid() && p.Levels() == old(p.Levels())
    ensures match ScanChars(old(p.Rest()))
            case None => r.Err?
            case Some(n) =>
              r.Ok? && p.Rest() == n.rest && p.state == StringDone(old(p.state).key, p.Levels()) &&
              w.Text() == old(w.Text()) + Escape(CharsText(n.item))
  {
    hide ScanChars, CharsText, Escape, Concat, StringDone, Ahead, StillAhead, IsUtf8;
    var buf := new byte[32];
    ghost var first, s, levels := w.Text(), p.Rest(), p.Levels();
    ghost var ok, after := ScanChars(s).Some?, StringDone(p.state.key, levels);
    ghost var text, rest := if ok then CharsText(ScanChars(s).value.item) else [], if ok then ScanChars(s).value.rest else [];
    ghost var read, left := [], text;
    NothingRead(first, text);
    if ok {
      AheadOfAll(s);
    }
    var more := true;
    while more
      invariant p.Valid() && p.Levels() == levels && rd.p == p && fresh(buf)
      invariant ok ==> text == read + left && w.Text() == first + Escape(read) && rd.Reading(left, rest, after)
      invariant !ok ==> more && !rd.done && p.state.InStr? && ScanChars(p.Rest()).None?
      invariant !more ==> left == [] && rd.done
      decreases more, !rd.done, |p.Rest()|, |p.stash|
    {
      ghost var before, stash0 := p.Rest(), p.stash;
      var chunk :- rd.NextChunk(buf, left, rest, after);
      if chunk.None? {
        more := false;
      } else {
        w.StringFragment(chunk.value);
        if !rd.done {
          StillMore(stash0, before, p.stash, p.Rest(), chunk.value);
        }
        if ok {
          ReadMore(first, read, left, chunk.value);
          read, left := read + chunk.value, left[|chunk.value|..];
        }
      }
    }
    AllRead(read);
    r := Ok(());
  }

  lemma NothingRead(first: bytes, text: bytes)
    ensures first + Escape([]) == first && [] + text == text
  {
  }

  lemma AllRead(read: bytes)
    ensures read + [] == read
  {
  }

  lemma StillMore(stash0: bytes, before: bytes, stash: bytes, after: bytes, chunk: bytes)
    requires StillAhead(stash0, before, stash, after, chunk) && chunk != []
    ensures ScanChars(before).None? ==> ScanChars(after).None?
    ensures |after| < |before| || (|after| == |before| && |stash| < |stash0|)
  {
  }

  lemma ReadMore(first: bytes, read: bytes, left: bytes, chunk: bytes)
    requires |chunk| <= |left| && left[..|chunk|] == chunk
    ensures first + Escape(read) + Escape(chunk) == first + Escape(read + chunk)
    ensures read + left == read + chunk + left[|chunk|..]
  {
    hide Escape;
    EscapeAppend(read, chunk);
    Cat3(first, Escape(read), Escape(chunk));
    TakeAndDrop(read, left, |chunk|);
  }

  /** Copies a string value, or a name. */
  method CopyString(p: Parser, w: JsonWriter, t: Token) returns (r: Res<()>)
    requires p.Valid() && p.stash == [] && AtToken(Peeked(t, p.state, p.Rest()), p.Levels()) && (t.StringToken? || t.KeyToken?)
    modifies p`state, p`stash, p.src`pos, p.src`end, p.src`pending, p.src`out, w`pieces, w`pos
    ensures p.Valid() && p.Levels() == old(p.Levels())
    ensures old(p.Rest()) != [] &&
            match ScanChars(old(p.Rest())[1..])
            case None => r.Err?
            case Some(n) =>
              r.Ok? && p.Rest() == n.rest && p.state == StringDone(t.KeyToken?, p.Levels()) &&
              OutputOf(w) == Play1(old(OutputOf(w)), if t.KeyToken? then Event.Key(CharsText(n.item)) else Scalar(String(CharsText(n.item))), w.indent)
  {
    hide ScanChars, CharsText, Escape, Concat, StringDone, PeekFrom, Separator, KeyEnd, AtToken, Fits;
    ghost var q := Peeked(t, p.state, p.Rest());
    PeekOfPeeked(q, p.Levels());
    ghost var s, first := p.Rest(), w.Text() + Separator(w.pos, w.indent, w.depth);
    w.BeginString();
    var reader := OpenString(p);
    var c := CopyChunks(p, w, reader.value);
    if c.Err? {
      return c;
    }
    ghost var text := CharsText(ScanChars(s[1..]).value.item);
    if t.KeyToken? {
      w.EndKey();
    } else {
      w.EndString();
      Cat4(first, [QUOTE], Escape(text), [QUOTE]);
      Cat3([QUOTE], Escape(text), [QUOTE]);
    }
    r := Ok(());
  }

  // ---------- numbers and literals ----------

  /** Passes the text of a number to the writer as it is scanned. */
  method PassNumber(src: Source, w: JsonWriter) returns (r: Res<()>)
    requires src.Valid()
    modifies src`pos, src`end, src`pending, src`out, w
    ensures src.Valid() && w.pos == old(w.pos) && w.depth == old(w.depth)
    ensures match ScanNumber(old(src.Rest()))
            case None => r.Err?
            case Some(n) => r.Ok? && src.Rest() == n.rest && w.Text() == old(w.Text()) + n.item
  {
    hide *;
    RunOfNumber(src.Rest());
    var sink := new Sink.Passing(w);
    r := ScanNumberText(src, sink);
    PassedOn(sink, w);
    assert [] + sink.fed == sink.fed;
  }

  /** What a sink passes on is in the text of the writer. */
  lemma PassedOn(sink: Sink, w: JsonWriter)
    requires sink.Valid() && sink.writer == w
    ensures w.Text() == sink.written + sink.fed
  {
  }

  lemma RunOfNumber(s: bytes)
    ensures ScanNumber(s).Some? ==> ScanNumber(s) == Some(Scanned(s[..Longest(Num.Start, s)], s[Longest(Num.Start, s)..]))
  {
  }

  method CopyNumber(p: Parser, w: JsonWriter) returns (r: Res<()>)
    requires p.Valid() && p.stash == []
    modifies p`state, p.src`pos, p.src`end, p.src`pending, p.src`out, w
    ensures p.Valid() && p.stash == [] && p.Levels() == old(p.Levels())
    ensures match ScanNumber(old(p.Rest()))
            case None => r.Err?
            case Some(n) =>
              r.Ok? && p.Rest() == n.rest && p.state == ValueDone(p.Levels()) &&
              OutputOf(w) == Play1(old(OutputOf(w)), Scalar(Number(n.item)), w.indent)
  {
    hide ScanNumber, Concat, Separator, ValueDone;
    w.BeginRaw();
    r := PassNumber(p.src, w);
    if r.Ok? {
      p.Done();
      w.EndRaw();
    }
  }

  method CopyLiteral(p: Parser, w: JsonWriter) returns (r: Res<()>)
    requires p.Valid() && p.stash == [] && p.Rest() != []
    requires ValueToken(p.Rest()[0]) == Some(BoolToken) || ValueToken(p.Rest()[0]) == Some(NullToken)
    modifies p`state, p.src`pos, p.src`end, p.src`pending, p.src`out, w
    ensures p.Valid() && p.stash == [] && p.Levels() == old(p.Levels())
    ensures match Literal(old(p.Rest()))
            case None => r.Err?
            case Some(v) =>
              r.Ok? && p.Rest() == v.rest && p.state == ValueDone(p.Levels()) &&
              OutputOf(w) == Play1(old(OutputOf(w)), Scalar(ToTree(v.item)), w.indent)
  {
    hide Concat, Separator, ValueDone;
    ghost var s := p.Rest();
    LiteralKinds(s);
    var v :- p.LiteralValue();
    w.Raw(match v case None => NULL case Some(b) => if b then TRUE else FALSE);
    r := Ok(());
  }

  lemma LiteralKinds(s: bytes)
    ensures Literal(s).Some? ==> Literal(s).value.item.SNull? || Literal(s).value.item.SBool?
  {
  }

  // ---------- tokens ----------

  /** Copies the peeked token: one event of the run, and one of the output. */
  method CopyOpen(p: Parser, w: JsonWriter, t: Token, ghost base: nat) returns (r: Res<()>, ghost ev: Event)
    requires p.Valid() && p.stash == [] && AtToken(Peeked(t, p.state, p.Rest()), p.Levels())
    requires (t.BeginObject? || t.BeginArray?) && base <= |p.Levels()|
    modifies p`state, p`stash, p.src`pos, p.src`end, p.src`pending, p.src`out, p.stack`depth, p.stack.bits, w
    ensures p.Valid()
    ensures r.Err? ==> old(p.RunAt(t, base)).None?
    ensures r.Ok? ==>
              p.Levels() == old(p.Levels()) + [t.BeginObject?] && |p.Rest()| < |old(p.Rest())| && p.stash == [] && !p.state.InStr? &&
              old(p.RunAt(t, base)) == Then([ev], p.RunAfter(base)) && OutputOf(w) == Play1(old(OutputOf(w)), ev, w.indent)
  {
    hide Concat, Separator, FromToken, FromState, Then, PeekFrom, AtToken, FromValue;
    ghost var q := Peeked(t, p.state, p.Rest());
    PeekOfPeeked(q, p.Levels());
    TokenFactsOf(q, p.Levels());
    AtOpen(t, p.Rest(), p.Levels(), base, p.stack.Max());
    ev := Open(t.BeginObject?);
    if t.BeginObject? {
      r := p.BeginObject();
    } else {
      r := p.BeginArray();
    }
    if r.Ok? {
      w.Open(Opening(t.BeginObject?));
    }
  }

  method CopyClose(p: Parser, w: JsonWriter, t: Token, ghost base: nat) returns (r: Res<()>, ghost ev: Event)
    requires p.Valid() && p.stash == [] && AtToken(Peeked(t, p.state, p.Rest()), p.Levels())
    requires (t.EndObject? || t.EndArray?) && base < |p.Levels()|
    modifies p`state, p`stash, p.src`pos, p.src`end, p.src`pending, p.src`out, p.stack`depth, p.stack.bits, w
    ensures p.Valid()
    ensures r.Ok? && p.Levels() == Pop(old(p.Levels())) && |p.Rest()| < |old(p.Rest())| && p.stash == [] && p.state == ValueDone(p.Levels())
    ensures old(p.RunAt(t, base)) == Then([ev], p.RunAfter(base)) && OutputOf(w) == Play1(old(OutputOf(w)), ev, w.indent)
  {
    hide Concat, Newline, FromToken, FromState, Then, PeekFrom, AtToken, ValueDone;
    ghost var q := Peeked(t, p.state, p.Rest());
    PeekOfPeeked(q, p.Levels());
    EndFacts(q, p.Levels(), base, p.stack.Max());
    ev := Close(t.EndObject?);
    r := EndContainer(p, t.EndObject?);
    w.Close(Closing(t.EndObject?));
  }

  /** What a closing bracket closes. */
  lemma EndFacts(q: Peeked, levels: seq<bool>, base: nat, max: nat)
    requires AtToken(q, levels) && (q.token.EndObject? || q.token.EndArray?) && base < |levels| <= max
    ensures q.rest != [] && Top(levels) == Some(q.token.EndObject?)
    ensures RestOf(RunFrom(q.state, q.rest, levels, |levels| - 1, max)) == Some(q.rest[1..])
    ensures FromToken(q.token, q.rest, levels, base, max)
         == Then([Close(q.token.EndObject?)], After(ValueDone(Pop(levels)), q.rest[1..], Pop(levels), base, max))
  {
    hide FromState, ValueDone, PeekToken;
    TokenFacts(q, levels);
    PeekOfPeeked(q, levels);
    AtClose(q.token, q.rest, levels, base, max);
    AtClose(q.token, q.rest, levels, |levels| - 1, max);
  }

  method CopyKey(p: Parser, w: JsonWriter, ghost base: nat) returns (r: Res<()>, ghost ev: Event)
    requires p.Valid() && p.stash == [] && AtToken(Peeked(KeyToken, p.state, p.Rest()), p.Levels()) && base < |p.Levels()|
    modifies p`state, p`stash, p.src`pos, p.src`end, p.src`pending, p.src`out, w`pieces, w`pos
    ensures p.Valid() && p.Levels() == old(p.Levels())
    ensures r.Err? ==> old(p.RunAt(KeyToken, base)).None?
    ensures r.Ok? ==>
              |p.Rest()| < |old(p.Rest())| && p.stash == [] && p.state == ObjColon &&
              old(p.RunAt(KeyToken, base)) == Then([ev], p.RunAfter(base)) && OutputOf(w) == Play1(old(OutputOf(w)), ev, w.indent)
  {
    hide Concat, Separator, FromState, Then, PeekFrom, AtToken, ScanChars, CharsText, FromToken, Play1;
    ghost var s := p.Rest();
    TokenFactsOf(Peeked(KeyToken, p.state, s), p.Levels());
    NoKeyRun(s, p.Levels(), base, p.stack.Max());
    ev := Event.Key([]);
    if ScanChars(s[1..]).Some? {
      ev := Event.Key(CharsText(ScanChars(s[1..]).value.item));
      AtKey(s, p.Levels(), base, p.stack.Max(), ScanChars(s[1..]).value);
      ScanShortens(s[1..]);
    }
    r := CopyString(p, w, KeyToken);
  }

  /** Copies a string, number or literal. */
  method CopyScalar(p: Parser, w: JsonWriter, t: Token) returns (r: Res<()>)
    requires p.Valid() && p.stash == [] && AtToken(Peeked(t, p.state, p.Rest()), p.Levels())
    requires IsValue(t) && !t.BeginObject? && !t.BeginArray?
    modifies p`state, p`stash, p.src`pos, p.src`end, p.src`pending, p.src`out, w
    ensures p.Valid() && p.Levels() == old(p.Levels())
    ensures match ParseValue(old(p.Rest()), old(p.Room()))
            case None => r.Err?
            case Some(v) =>
              !v.item.SContainer? && r.Ok? && p.Rest() == v.rest && p.state == ValueDone(p.Levels()) &&
              OutputOf(w) == Play1(old(OutputOf(w)), Scalar(ToTree(v.item)), w.indent)
  {
    hide ParseValue, AtToken, Play1, ValueDone, ScanChars, ScanNumber, Literal, CharsText;
    ghost var s, room := p.Rest(), p.Room();
    ScalarToken(Peeked(t, p.state, s), p.Levels(), room);
    if t.StringToken? {
      r := CopyString(p, w, t);
    } else if t.NumberToken? {
      r := CopyNumber(p, w);
    } else {
      r := CopyLiteral(p, w);
    }
  }

  /** What the tokens of scalars stand for. */
  lemma ScalarToken(q: Peeked, levels: seq<bool>, room: nat)
    requires AtToken(q, levels) && IsValue(q.token) && !q.token.BeginObject? && !q.token.BeginArray?
    ensures q.rest != [] && ValueToken(q.rest[0]) == Some(q.token)
    ensures q.token.StringToken? ==>
              match ScanChars(q.rest[1..])
              case None => ParseValue(q.rest, room).None?
              case Some(n) => ParseValue(q.rest, room) == Some(Scanned(SString(n.item), n.rest))
    ensures q.token.NumberToken? ==>
              match ScanNumber(q.rest)
              case None => ParseValue(q.rest, room).None?
              case Some(n) => ParseValue(q.rest, room) == Some(Scanned(SNumber(n.item), n.rest))
    ensures q.token.BoolToken? || q.token.NullToken? ==>
              ParseValue(q.rest, room) == Literal(q.rest) && (Literal(q.rest).Some? ==> !Literal(q.rest).value.item.SContainer?)
    ensures StringDone(false, levels) == ValueDone(levels)
  {
    hide ParseValue, ScanChars, ScanNumber, ValueDone;
    TokenFacts(q, levels);
    ScalarForms(q.rest, room);
    if q.token.BoolToken? || q.token.NullToken? {
      LiteralByStart(q.rest);
    }
  }

  method CopyScalarToken(p: Parser, w: JsonWriter, t: Token, ghost base: nat) returns (r: Res<()>, ghost ev: Event)
    requires p.Valid() && p.stash == [] && AtToken(Peeked(t, p.state, p.Rest()), p.Levels())
    requires IsValue(t) && !t.BeginObject? && !t.BeginArray? && base <= |p.Levels()|
    modifies p`state, p`stash, p.src`pos, p.src`end, p.src`pending, p.src`out, w
    ensures p.Valid() && p.Levels() == old(p.Levels())
    ensures r.Err? ==> old(p.RunAt(t, base)).None?
    ensures r.Ok? ==>
              |p.Rest()| < |old(p.Rest())| && p.state == ValueDone(p.Levels()) &&
              old(p.RunAt(t, base)) == Then([ev], p.RunAfter(base)) && OutputOf(w) == Play1(old(OutputOf(w)), ev, w.indent)
  {
    hide ParseValue, AtToken, Play1, ValueDone, Then, FromState, FromToken;
    ghost var s, room := p.Rest(), p.Room();
    NoScalarRun(t, s, p.Levels(), base, p.stack.Max());
    ValueShortens(s, room);
    ev := ScalarEvent(s, room);
    r := CopyScalar(p, w, t);
    if r.Ok? {
      AtScalar(t, s, p.Levels(), base, p.stack.Max(), ParseValue(s, room).value);
    }
  }

  lemma NoScalarRun(t: Token, s: bytes, levels: seq<bool>, base: nat, max: nat)
    requires base <= |levels| <= max && IsValue(t)
    ensures ParseValue(s, max - |levels|).None? ==> FromToken(t, s, levels, base, max).None?
  {
  }

  /** Copies the peeked token. */
  method CopyToken(p: Parser, w: JsonWriter, t: Token, ghost base: nat) returns (r: Res<()>, ghost ev: Event)
    requires p.Valid() && p.stash == [] && AtToken(Peeked(t, p.state, p.Rest()), p.Levels()) && !t.Eof?
    requires base <= |p.Levels()| && (base < |p.Levels()| || IsValue(t))
    modifies p`state, p`stash, p.src`pos, p.src`end, p.src`pending, p.src`out, p.stack`depth, p.stack.bits, w
    ensures p.Valid()
    ensures r.Err? ==> old(p.RunAt(t, base)).None?
    ensures r.Ok? ==>
              base <= |p.Levels()| && p.Levels()[..base] == old(p.Levels())[..base] && |p.Rest()| < |old(p.Rest())| && !p.state.InStr? &&
              old(p.RunAt(t, base)) == Then([ev], p.RunAfter(base)) && OutputOf(w) == Play1(old(OutputOf(w)), ev, w.indent)
    ensures r.Ok? && |p.Levels()| == base ==> p.state == ValueDone(p.Levels())
  {
    hide AtToken, Play1, Then, FromState, FromToken, ParseValue;
    if t.BeginObject? || t.BeginArray? {
      r, ev := CopyOpen(p, w, t, base);
    } else if t.EndObject? || t.EndArray? {
      r, ev := CopyClose(p, w, t, base);
    } else if t.KeyToken? {
      r, ev := CopyKey(p, w, base);
    } else {
      r, ev := CopyScalarToken(p, w, t, base);
    }
  }

  // ---------- values ----------

  /** What writing the rest of a run comes to, and the input after it. */
  function PlayRun(w: Output, r: Option<Run>, indent: nat): Option<(Output, bytes)> {
    match r case None => None case Some(run) => Some((Play(w, run.events, indent), run.rest))
  }

  lemma PlayThen(w: Output, ev: Event, r: Option<Run>, indent: nat)
    ensures PlayRun(w, Then([ev], r), indent) == PlayRun(Play1(w, ev, indent), r, indent)
  {
    hide Play1;
    if r.Some? {
      PlayAppend(w, [ev], r.value.events, indent);
      PlayOne(w, ev, indent);
    }
  }

  /** One turn of the loop: whether the value is complete. */
  method CopyTurn(p: Parser, w: JsonWriter, depth: nat) returns (r: Res<bool>)
    requires p.Valid() && depth <= |p.Levels()| && (depth < |p.Levels()| || PeekedValue(p))
    modifies p`state, p`stash, p.src`pos, p.src`end, p.src`pending, p.src`out, p.stack`depth, p.stack.bits, w
    ensures p.Valid()
    ensures var goal := old(PlayRun(OutputOf(w), RunFrom(p.state, p.Rest(), p.Levels(), depth, p.stack.Max()), w.indent));
            match r
            case Err(_) => goal == None
            case Ok(true) =>
              p.Levels() == old(p.Levels())[..depth] && p.state == ValueDone(p.Levels()) && p.stash == [] && goal == Some((OutputOf(w), p.Rest()))
            case Ok(false) =>
              depth < |p.Levels()| && p.Levels()[..depth] == old(p.Levels())[..depth] && |p.Rest()| < |old(p.Rest())| &&
              goal == PlayRun(OutputOf(w), RunFrom(p.state, p.Rest(), p.Levels(), depth, p.stack.Max()), w.indent)
  {
    hide FromToken, FromState, PeekFrom, AtToken, Then, Play, Play1, ValueDone;
    ghost var levels, out, s0 := p.Levels(), OutputOf(w), p.Rest();
    PeekFromShortens(p.state, s0, levels);
    PeekedAgain(p);
    var t := p.Peek();
    if t.Err? {
      r := Err(t.kind);
    } else {
      NoEnd(Peeked(t.value, p.state, p.Rest()), levels);
      if t.value.Eof? {
        r := Err(UnexpectedEof);
      } else {
        r := CopyPeeked(p, w, t.value, depth);
      }
    }
  }

  /** A value that was peeked is peeked again. */
  lemma PeekedAgain(p: Parser)
    requires p.Valid()
    ensures PeekedValue(p) ==>
              var q := PeekFrom(p.state, p.Rest(), p.Levels()); q.Some? && IsValue(q.value.token)
  {
    if PeekedValue(p) {
      ValueTokenIsValue(p.Rest()[0]);
      PeekOfPeeked(Peeked(ValueToken(p.Rest()[0]).value, p.state, p.Rest()), p.Levels());
    }
  }

  lemma NoEnd(q: Peeked, levels: seq<bool>)
    requires AtToken(q, levels)
    ensures q.token.Eof? ==> levels == []
  {
  }

  method CopyPeeked(p: Parser, w: JsonWriter, t: Token, depth: nat) returns (r: Res<bool>)
    requires p.Valid() && p.stash == [] && AtToken(Peeked(t, p.state, p.Rest()), p.Levels()) && !t.Eof?
    requires depth <= |p.Levels()| && (depth < |p.Levels()| || IsValue(t))
    modifies p`state, p`stash, p.src`pos, p.src`end, p.src`pending, p.src`out, p.stack`depth, p.stack.bits, w
    ensures p.Valid()
    ensures var goal := old(PlayRun(OutputOf(w), p.RunAt(t, depth), w.indent));
            match r
            case Err(_) => goal == None
            case Ok(true) =>
              p.Levels() == old(p.Levels())[..depth] && p.state == ValueDone(p.Levels()) && p.stash == [] && goal == Some((OutputOf(w), p.Rest()))
            case Ok(false) =>
              depth < |p.Levels()| && p.Levels()[..depth] == old(p.Levels())[..depth] && |p.Rest()| < |old(p.Rest())| &&
              goal == PlayRun(OutputOf(w), RunFrom(p.state, p.Rest(), p.Levels(), depth, p.stack.Max()), w.indent)
  {
    hide FromToken, PeekToken, AtToken, Then, Play, Play1, ValueDone;
    ghost var out := OutputOf(w);
    var c;
    ghost var ev;
    c, ev := CopyToken(p, w, t, depth);
    if c.Err? {
      r := Err(c.kind);
    } else {
      PlayThen(out, ev, p.RunAfter(depth), w.indent);
      PlayNothing(OutputOf(w), w.indent);
      r := Ok(p.stack.depth == depth);
      if r.value {
        assert p.Levels()[..depth] == p.Levels();
      }
    }
  }

  /** Reads the next value and writes it: exactly when there is one, and then what is written is the formatted value. */
  method CopyValue(p: Parser, w: JsonWriter) returns (r: Res<()>)
    requires p.Valid()
    modifies p`state, p`stash, p.src`pos, p.src`end, p.src`pending, p.src`out, p.stack`depth, p.stack.bits, w
    ensures p.Valid()
    ensures match old(ValueAt(p.state, p.Rest(), p.Levels(), p.Room()))
            case None => r.Err?
            case Some(v) =>
              r.Ok? && p.Rest() == v.rest && p.Levels() == old(p.Levels()) && p.state == ValueDone(p.Levels()) &&
              w.pos == AfterValue && w.depth == old(w.depth) &&
              w.Text() == old(w.Text()) + Separator(old(w.pos), w.indent, w.depth) + SynBytes(Formatted(v.item, w.indent, w.depth))
  {
    hide FromToken, PeekFrom, AtToken, Play, Separator, SynBytes, Formatted, ValueDone, ParseValue, Concat, Fits, KeyEnd, StringDone;
    ghost var levels, out := p.Levels(), OutputOf(w);
    ghost var state, s, max := p.state, p.Rest(), p.stack.Max();
    var depth := p.stack.depth;
    var first :- p.Peek();
    if !IsValue(first) {
      return Err(UnexpectedToken);
    }
    ValueIsRun(state, s, levels, max, out, w.indent);
    PeekedNow(p, first);
    ghost var goal := PlayRun(out, RunFrom(p.state, p.Rest(), levels, depth, max), w.indent);
    assert levels[..depth] == levels;
    var done := false;
    while !done
      invariant p.Valid() && depth <= |p.Levels()| && p.Levels()[..depth] == levels
      invariant !done ==>
                  (depth < |p.Levels()| || PeekedValue(p)) &&
                  goal == PlayRun(OutputOf(w), RunFrom(p.state, p.Rest(), p.Levels(), depth, max), w.indent)
      invariant done ==> p.Levels() == levels && p.state == ValueDone(levels) && goal == Some((OutputOf(w), p.Rest()))
      decreases !done, |p.Rest()|
    {
      done :- CopyTurn(p, w, depth);
    }
    r := Ok(());
  }

  lemma PeekedNow(p: Parser, t: Token)
    requires p.Valid() && p.stash == [] && IsValue(t) && AtToken(Peeked(t, p.state, p.Rest()), p.Levels())
    ensures PeekedValue(p)
    ensures PeekFrom(p.state, p.Rest(), p.Levels()) == Some(Peeked(t, p.state, p.Rest()))
  {
    PeekedFacts(Peeked(t, p.state, p.Rest()), p.Levels());
    PeekOfPeeked(Peeked(t, p.state, p.Rest()), p.Levels());
  }

  /** The run of a value that comes next, and what it writes. */
  lemma ValueIsRun(state: State, s: bytes, levels: seq<bool>, max: nat, out: Output, indent: nat)
    requires |levels| <= max && PeekFrom(state, s, levels).Some? && IsValue(PeekFrom(state, s, levels).value.token)
    ensures var q := PeekFrom(state, s, levels).value;
            PlayRun(out, FromToken(q.token, q.rest, levels, |levels|, max), indent)
            == match ValueAt(state, s, levels, max - |levels|)
               case None => None
               case Some(v) =>
                 Some((Output(AfterValue, out.depth,
                              out.text + Separator(out.pos, indent, out.depth) + SynBytes(Formatted(v.item, indent, out.depth))), v.rest))
  {
    hide PeekFrom, ParseValue, EventsOf, Play, Separator, SynBytes, Formatted, Wf, Depth;
    var q := PeekFrom(state, s, levels).value;
    if ParseValue(q.rest, max - |levels|).Some? {
      var v := ParseValue(q.rest, max - |levels|).value;
      ParseValueSound(q.rest, max - |levels|);
      PlayValue(out, v.item, indent);
      assert EventsOf(v.item) + [] == EventsOf(v.item);
    }
  }

  /** What is copied is a JSON text with the same tree; copying it again, formatted the same way, changes nothing. */
  lemma CopyKeepsTree(c: Syn, indent: nat)
    requires Wf(c)
    ensures var f := Formatted(c, indent, 0);
            ParseText(SynBytes(f), Depth(c)) == Some(Text([], f, [])) && ToTree(f) == ToTree(c) &&
            SynBytes(Formatted(f, indent, 0)) == SynBytes(f)
  {
    hide Formatted, SynBytes, ParseText;
    var f := Formatted(c, indent, 0);
    FormattedSame(c, indent, 0);
    FormattedTwice(c, indent, 0);
    ParseTextComplete(Text([], f, []), Depth(c));
    Nothing(SynBytes(f));
    assert TextBytes(Text([], f, [])) == [] + SynBytes(f) + [] == SynBytes(f);
  }
}
