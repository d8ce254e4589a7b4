/** Navigating with the parser: member names, members, elements, paths. On input that the grammar accepts these methods
    do what their contracts say; on any other input they stop with an error or somewhere in it. */
module Seeking {
  import opened Bytes
  import opened StringGrammar
  import opened Numbers
  import opened Grammar
  import opened Reader
  import opened Automaton
  import opened Compare
  import opened Paths
  import opened Results
  import opened Sources
  import opened Sinks
  import opened Scanning
  import opened TreeEdit
  import opened Parsing

  // ---------- names ----------

  /** The input after the opening quote of the next name; an unread member value before it is skipped. */
  ghost function KeyStart(state: State, s: bytes, levels: seq<bool>, room: nat): Option<bytes> {
    match PeekFrom(state, s, levels)
    case None => None
    case Some(p) =>
      if p.token.KeyToken? then KeyBody(p)
      else if IsValue(p.token) && p.state.ObjValue? then
        match ParseValue(p.rest, room)
        case None => None
        case Some(v) =>
          match PeekToken(ObjComma, v.rest)
          case None => None
          case Some(q) => if q.token.KeyToken? then KeyBody(q) else None
      else None
  }

  ghost function KeyBody(p: Peeked): Option<bytes> {
    if p.rest == [] then None else Some(p.rest[1..])
  }

  /** Consumes the opening quote of the next name. */
  method OpenKey(p: Parser) returns (r: Res<()>)
    requires p.Valid()
    modifies p`state, p`stash, p.src`pos, p.src`end, p.src`pending, p.src`out, p.stack`depth, p.stack.bits
    ensures p.Valid()
    ensures match old(KeyStart(p.state, p.Rest(), p.Levels(), p.Room()))
            case None => r.Err?
            case Some(t) => r.Ok? && p.Rest() == t && p.state == InStr(true) && p.stash == [] && p.Levels() == old(p.Levels())
  {
    hide KeyStart, KeyBody, PeekFrom, AtToken, SkipFrom, ParseValue, PeekToken, FromToken, After, Fits, ValueDone, StringDone;
    ghost var goal, levels, room := KeyStart(p.state, p.Rest(), p.Levels(), p.Room()), p.Levels(), p.Room();
    var open := false;
    while !open
      invariant p.Valid() && p.Levels() == levels && p.Room() == room
      invariant !open ==> KeyStart(p.state, p.Rest(), levels, room) == goal
      invariant open ==> goal == Some(p.Rest()) && p.state == InStr(true) && p.stash == []
      decreases !open, |p.Rest()|
    {
      ghost var s := p.Rest();
      PeekFromShortens(p.state, s, levels);
      KeyStartFrom(p.state, s, levels, room);
      var t :- p.Peek();
      if t.KeyToken? {
        ConsumeQuote(p);
        open := true;
      } else if IsValue(t) && p.state.ObjValue? {
        var _ :- SkipMemberValue(p, t);
      } else {
        return Err(TypeMismatch);
      }
    }
    r := Ok(());
  }

  /** Consumes the opening quote of the peeked name. */
  method ConsumeQuote(p: Parser)
    requires p.Valid() && p.stash == [] && p.src.Offset() < p.src.end
    requires AtToken(Peeked(KeyToken, p.state, p.Rest()), p.Levels())
    modifies p`state, p.src`pos, p.src`pending
    ensures p.Valid() && p.Levels() == old(p.Levels()) && p.state == InStr(true)
    ensures Some(p.Rest()) == KeyBody(Peeked(KeyToken, old(p.state), old(p.Rest())))
  {
    TokenFactsOf(Peeked(KeyToken, p.state, p.Rest()), p.Levels());
    p.src.Consume(1);
    p.state := InStr(true);
  }

  /** Skips an unread member value. */
  method SkipMemberValue(p: Parser, t: Token) returns (r: Res<()>)
    requires p.Valid() && IsValue(t) && p.state.ObjValue? && AtToken(Peeked(t, p.state, p.Rest()), p.Levels())
    modifies p`state, p`stash, p.src`pos, p.src`end, p.src`pending, p.src`out, p.stack`depth, p.stack.bits
    ensures p.Valid()
    ensures match ParseValue(old(p.Rest()), old(p.Room()))
            case None => r.Err?
            case Some(v) => r.Ok? && p.Rest() == v.rest && p.state == ObjComma && p.stash == [] && p.Levels() == old(p.Levels())
    ensures r.Ok? ==> |p.Rest()| < |old(p.Rest())|
  {
    hide ParseValue;
    SkipHere(Peeked(t, p.state, p.Rest()), p.Levels(), p.Room());
    TokenFactsOf(Peeked(t, p.state, p.Rest()), p.Levels());
    ValueDoneInObject(p.Levels());
    ghost var s, room := p.Rest(), p.Room();
    ValueShortens(s, room);
    r := p.SkipValue();
  }

  lemma ValueShortens(s: bytes, room: nat)
    ensures ParseValue(s, room).Some? ==> |ParseValue(s, room).value.rest| < |s|
  {
  }

  /** The next name, from the peeked token on. */
  lemma KeyStartFrom(state: State, s: bytes, levels: seq<bool>, room: nat)
    requires Fits(state, levels)
    ensures match PeekFrom(state, s, levels)
            case None => KeyStart(state, s, levels, room) == None
            case Some(q) =>
              if q.token.KeyToken? then KeyStart(state, s, levels, room) == KeyBody(q)
              else if IsValue(q.token) && q.state.ObjValue? then
                (match ParseValue(q.rest, room)
                 case None => KeyStart(state, s, levels, room) == None
                 case Some(v) => KeyStart(state, s, levels, room) == KeyStart(ObjComma, v.rest, levels, room))
              else KeyStart(state, s, levels, room) == None
  {
    hide ParseValue;
    var p := PeekFrom(state, s, levels);
    if p.Some? && IsValue(p.value.token) && p.value.state.ObjValue? && ParseValue(p.value.rest, room).Some? {
      NoValueAfterComma(ParseValue(p.value.rest, room).value.rest);
    }
  }

  lemma NoValueAfterComma(s: bytes)
    ensures PeekToken(ObjComma, s).Some? ==> !IsValue(PeekToken(ObjComma, s).value.token)
  {
    PeekOne(ObjComma, s);
    if Trim(s) != [] && Trim(s)[0] == COMMA {
      PeekOne(ObjKey, Trim(s)[1..]);
    }
  }

  lemma PeekFromShortens(state: State, s: bytes, levels: seq<bool>)
    ensures PeekFrom(state, s, levels).Some? ==> |PeekFrom(state, s, levels).value.rest| <= |s|
  {
    if !state.InStr? {
      PeekShortens(state, s);
    } else if ScanChars(s).Some? {
      PeekShortens(StringDone(state.key, levels), ScanChars(s).value.rest);
    }
  }

  lemma TokenFactsOf(q: Peeked, levels: seq<bool>)
    requires AtToken(q, levels)
    ensures q.token.KeyToken? ==> q.rest != [] && q.rest[0] == QUOTE && Top(levels) == Some(true)
    ensures IsValue(q.token) ==> q.rest != [] && ValueToken(q.rest[0]) == Some(q.token) && !q.state.InStr?
    ensures q.state.ObjValue? ==> Top(levels) == Some(true)
  {
    if !q.token.Eof? {
      TokenFacts(q, levels);
    }
  }

  lemma ValueDoneInObject(levels: seq<bool>)
    ensures Top(levels) == Some(true) ==> ValueDone(levels) == ObjComma
    ensures Top(levels) == Some(false) ==> ValueDone(levels) == ArrComma
  {
  }

  /** Skipping at a peeked value. */
  lemma SkipHere(q: Peeked, levels: seq<bool>, room: nat)
    requires AtToken(q, levels) && IsValue(q.token)
    ensures SkipFrom(q.state, q.rest, levels, room)
         == match ParseValue(q.rest, room) case None => None case Some(v) => Some(Scanned(ValueDone(levels), v.rest))
    ensures ValueAt(q.state, q.rest, levels, room) == ParseValue(q.rest, room)
  {
    TokenFactsOf(q, levels);
    PeekAgain(q, levels);
  }

  /** The pattern for a segment, and whether it is an escaped pointer token. */
  method Pattern(seg: Seg) returns (pat: bytes, escaped: bool)
    ensures (if escaped then Unescape(pat) else pat) == SegName(seg)
  {
    match seg {
      case Key(name) => pat, escaped := name, false;
      case Pointer(token) => pat, escaped := token, true;
      case Index(i) =>
        BuffersSuffice(i);
        var digits := new byte[20];
        var at := FormatUint(i, digits);
        pat, escaped := digits[at..], false;
    }
  }

  /** Decodes a string after its opening quote, and compares it. */
  method CmpDecoded(src: Source, pat: bytes, escaped: bool) returns (r: Res<Ordering>)
    requires src.Valid()
    modifies src`pos, src`end, src`pending, src`out
    ensures src.Valid()
    ensures match ScanChars(old(src.Rest()))
            case None => r.Err?
            case Some(n) => r == Ok(Cmp(CharsText(n.item), if escaped then Unescape(pat) else pat)) && src.Rest() == n.rest
  {
    hide ScanChars, Cmp, CharsText, Unescape;
    var m := new KeyMatcher(pat, escaped);
    var sink := new Sink.Matching(m);
    assert m.Name() == (if escaped then Unescape(pat) else pat) by {
      assert pat[0..] == pat;
    }
    var d, stash;
    ghost var cs;
    d, stash, cs := Decode(src, sink, []);
    if d.Err? {
      r := Err(d.kind);
    } else {
      Nothing(CharsText(cs));
      var o := m.Order(sink.fed);
      r := Ok(o);
    }
  }

  /** Compares the name whose opening quote was consumed. */
  method CmpOpenKey(p: Parser, pat: bytes, escaped: bool) returns (r: Res<Ordering>)
    requires p.Valid() && p.state == InStr(true) && p.stash == []
    modifies p`state, p.src`pos, p.src`end, p.src`pending, p.src`out
    ensures p.Valid()
    ensures match ScanChars(old(p.Rest()))
            case None => r.Err?
            case Some(n) =>
              r == Ok(Cmp(CharsText(n.item), if escaped then Unescape(pat) else pat)) &&
              p.Rest() == n.rest && p.state == ObjColon && p.stash == []
  {
    hide ScanChars, Cmp, CharsText, Unescape;
    r := CmpDecoded(p.src, pat, escaped);
    if r.Ok? {
      p.state := ObjColon;
    }
  }

  lemma Nothing(a: bytes)
    ensures [] + [] + a == a
  {
  }

  /** Reads the next name, without any buffer: its order relative to the name that `seg` designates. */
  method CmpSegKey(p: Parser, seg: Seg) returns (r: Res<Ordering>)
    requires p.Valid()
    modifies p`state, p`stash, p.src`pos, p.src`end, p.src`pending, p.src`out, p.stack`depth, p.stack.bits
    ensures p.Valid()
    ensures match NameAt(old(KeyStart(p.state, p.Rest(), p.Levels(), p.Room())))
            case None => r.Err?
            case Some(n) =>
              r == Ok(Cmp(CharsText(n.item), SegName(seg))) &&
              (r.value == Less <==> Precedes(CharsText(n.item), SegName(seg))) &&
              (r.value == Greater <==> Precedes(SegName(seg), CharsText(n.item))) &&
              p.Rest() == n.rest && p.state == ObjColon && p.stash == [] && p.Levels() == old(p.Levels())
  {
    hide KeyStart, ScanChars, Cmp, CharsText, Unescape, SegName, Precedes;
    var pat, escaped := Pattern(seg);
    var _ :- OpenKey(p);
    ghost var n := ScanChars(p.Rest());
    if n.Some? {
      CmpIsBytewise(CharsText(n.value.item), SegName(seg));
    }
    r := CmpOpenKey(p, pat, escaped);
  }

  function NameAt(t: Option<bytes>): Option<Scanned<seq<StrChar>>> {
    match t case None => None case Some(s) => ScanChars(s)
  }
}
