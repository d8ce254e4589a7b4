/** Whole documents: validation, and the parser at the start of one. */
module Documents {
  import opened Bytes
  import opened Grammar
  import opened Reader
  import opened Automaton
  import opened Results
  import opened Sources
  import opened Parsing
  import opened PathSeeking

  /** Bytes of the nesting stack, unless chosen otherwise, and the levels they allow. */
  const STACK_BYTES: nat := 8
  const MAX_DEPTH: nat := 64

  /** Checks that nothing but whitespace follows the top-level value. */
  method Finish(p: Parser) returns (r: Res<()>)
    requires p.Valid()
    modifies p`state, p`stash, p.src`pos, p.src`end, p.src`pending, p.src`out
    ensures p.Valid()
    ensures r.Ok? <==> var q := old(PeekFrom(p.state, p.Rest(), p.Levels())); q.Some? && q.value.token.Eof?
    ensures r.Ok? && !old(p.state).InStr? ==> old(p.state) == TopDone
    ensures old(p.state) == TopDone ==> (r.Ok? <==> AllWs(old(p.Rest())))
  {
    hide PeekFrom;
    EndOfInput(p.state, p.Rest(), p.Levels());
    var t :- p.Peek();
    r := if t.Eof? then Ok(()) else if p.stack.depth == 0 then Err(TrailingData) else Err(UnexpectedToken);
  }

  /** The input ends after the top-level value, with nothing but whitespace. */
  lemma EndOfInput(state: State, s: bytes, levels: seq<bool>)
    ensures !state.InStr? ==>
              var q := PeekFrom(state, s, levels);
              (q.Some? && q.value.token.Eof? <==> state == TopDone && AllWs(s))
  {
    hide AllWs, Trim, PeekPlain;
    NothingLeft(s);
    if !state.InStr? {
      TokenIsNotEnd(state, Trim(s));
      if Trim(s) != [] {
        TokenIsNotEnd(AfterSeparator(state), Trim(Trim(s)[1..]));
      }
    }
  }

  lemma TokenIsNotEnd(state: State, t: bytes)
    ensures PeekPlain(state, t).Some? ==> !PeekPlain(state, t).value.token.Eof?
  {
  }

  lemma NothingLeft(s: bytes)
    ensures Trim(s) == [] <==> AllWs(s)
  {
    if AllWs(s) {
      WsPrefix(s, []);
      assert s + [] == s;
    }
  }

  /** At the start of the input comes the top-level value. */
  lemma TopValueAt(s: bytes, room: nat)
    ensures ValueAt(TopValue, s, [], room) == ParseValue(Trim(s), room)
  {
    var t := Trim(s);
    PeekOne(TopValue, s);
    if ParseValue(t, room).Some? {
      ValueStarts(t, room);
    }
    if t != [] && ValueToken(t[0]).Some? {
      ValueTokenIsValue(t[0]);
    }
  }

  /** After it comes the end of the input, or an error. */
  lemma EndAt(s: bytes)
    ensures var q := PeekFrom(TopDone, s, []); q.Some? && q.value.token.Eof? <==> Trim(s) == []
  {
    PeekOne(TopDone, s);
  }

  /** A JSON text, section 2 of RFC 8259, nested at most `depth` levels deep. */
  ghost predicate IsJsonText(s: bytes, depth: nat) {
    exists t: Text :: WfText(t) && Depth(t.value) <= depth && TextBytes(t) == s
  }

  /** Succeeds exactly on a JSON text nested at most 64 levels deep. */
  method Validate(src: Source) returns (r: Res<()>)
    requires src.Valid()
    modifies src`pos, src`end, src`pending, src`out
    ensures src.Valid()
    ensures r.Ok? <==> IsJsonText(old(src.Rest()), 64)
  {
    hide IsJsonText;
    var p := new Parser(src, STACK_BYTES);
    r := ReadDocument(p);
  }

  method ReadDocument(p: Parser) returns (r: Res<()>)
    requires p.Valid() && p.state == TopValue && p.Levels() == []
    modifies p`state, p`stash, p.src`pos, p.src`end, p.src`pending, p.src`out, p.stack`depth, p.stack.bits
    ensures p.Valid()
    ensures r.Ok? <==> IsJsonText(old(p.Rest()), old(p.Room()))
  {
    hide ParseValue, PeekFrom, IsJsonText;
    TopValueAt(p.Rest(), p.Room());
    ValidIsParsed(p.Rest(), p.Room());
    var k := p.SkipValue();
    if k.Err? {
      r := k;
    } else {
      EndAt(p.Rest());
      r := Finish(p);
    }
  }

  lemma ValidIsParsed(s: bytes, depth: nat)
    ensures IsJsonText(s, depth) <==>
            match ParseValue(Trim(s), depth)
            case None => false
            case Some(v) => Trim(v.rest) == []
  {
    if IsJsonText(s, depth) {
      var t: Text :| WfText(t) && Depth(t.value) <= depth && TextBytes(t) == s;
      ParseTextExact(s, depth, t);
    }
    if ParseText(s, depth).Some? {
      ParseTextExact(s, depth, ParseText(s, depth).value);
    }
  }

  /** A new parser over a document faces its value. */
  lemma FacingDocument(p: Parser, t: Text)
    requires p.Valid() && p.state == TopValue && p.Levels() == [] && p.Rest() == TextBytes(t)
    requires WfText(t) && Depth(t.value) <= p.Room()
    ensures Facing(p, t.value, t.post) && |p.Rest()| == |t.pre| + |SynBytes(t.value)| + |t.post|
  {
    hide ParseValue, PeekFrom;
    ParseTextComplete(t, p.Room());
    ParseTextParts(p.Rest(), p.Room(), t);
    TopValueAt(p.Rest(), p.Room());
  }

  lemma ParseTextParts(s: bytes, room: nat, t: Text)
    requires ParseText(s, room) == Some(t)
    ensures ParseValue(Trim(s), room) == Some(Scanned(t.value, t.post))
  {
    var rest := ParseValue(Trim(s), room).value.rest;
    assert rest == Ws(rest) + [] == Ws(rest);
  }
}
