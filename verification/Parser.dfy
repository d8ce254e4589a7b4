/** The pull parser. Its contracts speak of the remaining bytes only, never of how they are buffered. */
module Parsing {
  import opened Bytes
  import opened StringGrammar
  import opened Numbers
  import opened Grammar
  import opened Reader
  import opened Automaton
  import opened Nesting
  import opened Paths
  import opened Results
  import opened Sources
  import opened Sinks
  import opened Scanning

  class Parser {
    const src: Source
    const stack: BitStack
    var state: State
    var stash: bytes     // a decoded character that did not fit the last buffer

    ghost predicate Valid()
      reads this, src, stack, stack.bits
    {
      src.Valid() && stack.Valid() && Fits(state, stack.Levels()) &&
      |stash| <= 4 && (stash != [] ==> state.InStr?)
    }

    ghost function Rest(): bytes
      requires src.Valid()
      reads src
    {
      src.Rest()
    }

    ghost function Levels(): seq<bool>
      requires stack.Valid()
      reads stack, stack.bits
    {
      stack.Levels()
    }

    /** Number of levels that can still be entered. */
    ghost function Room(): nat
      requires stack.Valid()
      reads stack
    {
      stack.Max() - stack.depth
    }

    constructor (source: Source, n: nat)
      requires source.Valid()
      ensures Valid() && src == source && fresh(stack) && fresh(stack.bits)
      ensures state == TopValue && Levels() == [] && stash == [] && stack.bits.Length == n
    {
      src := source;
      stack := new BitStack(n);
      state, stash := TopValue, [];
    }

    /** Skips whitespace; the next byte is not consumed. */
    method SkipWs() returns (b: Option<byte>)
      requires src.Valid()
      modifies src`pos, src`end, src`pending, src`out
      ensures src.Valid() && Rest() == Trim(old(Rest()))
      ensures b == if Rest() == [] then None else Some(Rest()[0])
      ensures b.Some? ==> src.Offset() < src.end
    {
      var more := true;
      b := None;
      while more
        invariant src.Valid() && Trim(Rest()) == Trim(old(Rest()))
        invariant !more ==> Rest() == Trim(Rest()) && b == (if Rest() == [] then None else Some(Rest()[0]))
        invariant !more && b.Some? ==> src.Offset() < src.end
        decreases more, |Rest()|
      {
        b, more := SkipChunk();
      }
    }

    /** Skips the whitespace at hand. */
    method SkipChunk() returns (b: Option<byte>, more: bool)
      requires src.Valid()
      modifies src`pos, src`end, src`pending, src`out
      ensures src.Valid() && Trim(Rest()) == Trim(old(Rest()))
      ensures if more then |Rest()| < |old(Rest())|
              else Rest() == Trim(Rest()) && (b == if Rest() == [] then None else Some(Rest()[0]))
      ensures !more && b.Some? ==> src.Offset() < src.end
    {
      ghost var s := Rest();
      var buf := src.Fill();
      var i := WsRun(buf);
      hide Trim;
      assert s == buf[..i] + s[i..];
      TrimSkips(buf[..i], s[i..]);
      TrimHere(s[i..]);
      src.Consume(i);
      b := if i < |buf| then Some(buf[i]) else None;
      more := buf != [] && b.None?;
      if b.Some? {
        assert Rest()[0] == buf[i];
      }
    }

    /** Updates the state after a complete value. */
    method Done()
      requires stack.Valid()
      modifies this`state
      ensures state == ValueDone(Levels()) && Fits(state, Levels())
    {
      var top := stack.Top();
      state := match top
        case None => TopDone
        case Some(obj) => if obj then ObjComma else ArrComma;
    }

    method StrDone(key: bool)
      requires stack.Valid() && Fits(InStr(key), Levels())
      modifies this`state
      ensures state == StringDone(key, Levels()) && Fits(state, Levels())
    {
      if key {
        state := ObjColon;
      } else {
        Done();
      }
    }

    /** Skips the rest of a string. */
    method FinishStr() returns (r: Res<()>)
      requires Valid()
      modifies this`state, this`stash, src`pos, src`end, src`pending, src`out
      ensures Valid()
      ensures !old(state).InStr? ==> r.Ok? && state == old(state) && Rest() == old(Rest())
      ensures old(state).InStr? ==>
                match ScanChars(old(Rest()))
                case None => r.Err?
                case Some(n) => r.Ok? && Rest() == n.rest && stash == [] && state == StringDone(old(state).key, Levels())
    {
      if !state.InStr? {
        return Ok(());
      }
      var key := state.key;
      var sink := new Sink.Null();
      var d;
      ghost var cs;
      d, stash, cs := Decode(src, sink, stash);
      if d.Err? {
        return Err(d.kind);
      }
      StrDone(key);
      r := Ok(());
    }

    /** The kind of the next token, which is not consumed. */
    method Peek() returns (r: Res<Token>)
      requires Valid()
      modifies this`state, this`stash, src`pos, src`end, src`pending, src`out
      ensures Valid()
      ensures match PeekFrom(old(state), old(Rest()), Levels())
              case None => r.Err?
              case Some(p) => r == Ok(p.token) && state == p.state && Rest() == p.rest && stash == []
      ensures r.Ok? ==> AtToken(Peeked(r.value, state, Rest()), Levels())
      ensures r.Ok? && !r.value.Eof? ==> src.Offset() < src.end
    {
      if state.InStr? {
        var f := FinishStr();
        if f.Err? {
          return Err(f.kind);
        }
      }
      r := PeekNext();
    }

    method PeekNext() returns (r: Res<Token>)
      requires Valid() && !state.InStr?
      modifies this`state, src`pos, src`end, src`pending, src`out
      ensures Valid()
      ensures match PeekToken(old(state), old(Rest()))
              case None => r.Err?
              case Some(p) => r == Ok(p.token) && state == p.state && Rest() == p.rest && stash == []
      ensures r.Ok? ==> AtToken(Peeked(r.value, state, Rest()), Levels())
      ensures r.Ok? && !r.value.Eof? ==> src.Offset() < src.end
    {
      ghost var p := PeekToken(state, Rest());
      if p.Some? {
        PeekFacts(state, Rest(), Levels());
      }
      var tok: Option<Token> := None;
      while tok.None?
        invariant Valid() && !state.InStr? && PeekToken(state, Rest()) == p
        invariant tok.Some? ==> p == Some(Peeked(tok.value, state, Rest()))
        invariant tok.Some? && !tok.value.Eof? ==> src.Offset() < src.end
        decreases tok.None?, |Rest()|
      {
        tok :- PeekStep();
      }
      r := Ok(tok.value);
    }

    /** One turn of the peeking loop: skips whitespace, then takes a separator or reports the token. */
    method PeekStep() returns (r: Res<Option<Token>>)
      requires Valid() && !state.InStr?
      modifies this`state, src`pos, src`end, src`pending, src`out
      ensures Valid() && !state.InStr?
      ensures r.Err? ==> PeekToken(old(state), old(Rest())).None?
      ensures r.Ok? ==> PeekToken(state, Rest()) == PeekToken(old(state), old(Rest()))
      ensures r.Ok? && r.value.None? ==> |Rest()| < |old(Rest())|
      ensures r.Ok? && r.value.Some? ==>
                PeekToken(state, Rest()) == Some(Peeked(r.value.value, state, Rest())) &&
                (!r.value.value.Eof? ==> src.Offset() < src.end)
    {
      PeekOne(state, Rest());
      var b := SkipWs();
      if b.None? {
        r := if state.TopDone? then Ok(Some(Eof)) else Err(UnexpectedEof);
      } else if state.TopDone? {
        r := Err(TrailingData);
      } else if IsSeparator(state, b.value) {
        SeparatorFits(state, b.value, Levels());
        src.Consume(1);
        state := AfterSeparator(state);
        r := Ok(None);
      } else {
        var tok := TokenAt(state, b.value);
        r := if tok.Some? then Ok(tok) else Err(ErrorKind.UnexpectedByte);
        if tok.Some? {
          TokenIsNotEof(state, b.value);
        }
      }
    }

    method Expect(want: Token) returns (r: Res<()>)
      requires Valid()
      modifies this`state, this`stash, src`pos, src`end, src`pending, src`out
      ensures Valid()
      ensures match PeekFrom(old(state), old(Rest()), Levels())
              case None => r.Err?
              case Some(p) => state == p.state && Rest() == p.rest && stash == [] && (r.Ok? <==> p.token == want)
      ensures r.Ok? ==> AtToken(Peeked(want, state, Rest()), Levels())
      ensures r.Ok? && !want.Eof? ==> src.Offset() < src.end
    {
      var t :- Peek();
      if t == want {
        return Ok(());
      }
      return Err(TypeMismatch);
    }

    /** Consumes an opening bracket. */
    method Enter(obj: bool) returns (r: Res<()>)
      requires Valid() && src.Offset() < src.end && stash == []
      modifies this`state, src`pos, src`pending, stack`depth, stack.bits
      ensures Valid() && stash == []
      ensures r.Ok? <==> old(Room()) > 0
      ensures r.Ok? ==> Levels() == old(Levels()) + [obj] && Rest() == old(Rest())[1..] && state == First(obj)
      ensures r.Err? ==> Levels() == old(Levels()) && Rest() == old(Rest()) && state == old(state)
    {
      var ok := stack.Push(obj);
      if !ok {
        return Err(DepthLimitExceeded);
      }
      src.Consume(1);
      state := if obj then ObjFirst else ArrFirst;
      r := Ok(());
    }

    method BeginObject() returns (r: Res<()>)
      requires Valid()
      modifies this`state, this`stash, src`pos, src`end, src`pending, src`out, stack`depth, stack.bits
      ensures Valid()
      ensures var p := PeekFrom(old(state), old(Rest()), old(Levels()));
              if p.Some? && p.value.token.BeginObject? && old(Room()) > 0
              then r.Ok? && Levels() == old(Levels()) + [true] && Rest() == p.value.rest[1..] && state == ObjFirst && stash == []
              else r.Err?
    {
      var _ :- Expect(Token.BeginObject);
      r := Enter(true);
    }

    method BeginArray() returns (r: Res<()>)
      requires Valid()
      modifies this`state, this`stash, src`pos, src`end, src`pending, src`out, stack`depth, stack.bits
      ensures Valid()
      ensures var p := PeekFrom(old(state), old(Rest()), old(Levels()));
              if p.Some? && p.value.token.BeginArray? && old(Room()) > 0
              then r.Ok? && Levels() == old(Levels()) + [false] && Rest() == p.value.rest[1..] && state == ArrFirst && stash == []
              else r.Err?
    {
      var _ :- Expect(Token.BeginArray);
      r := Enter(false);
    }

    /** Consumes a closing bracket. */
    method Leave()
      requires Valid() && src.Offset() < src.end && Levels() != [] && stash == []
      modifies this`state, src`pos, src`pending, stack`depth
      ensures Valid() && stash == []
      ensures Levels() == Pop(old(Levels())) && Rest() == old(Rest())[1..] && state == ValueDone(Levels())
    {
      src.Consume(1);
      stack.Pop();
      Done();
    }

    /** Consumes `true`, `false` or `null`. */
    method LiteralValue() returns (r: Res<Option<bool>>)
      requires Valid() && stash == []
      requires Rest() != [] && (ValueToken(Rest()[0]) == Some(BoolToken) || ValueToken(Rest()[0]) == Some(NullToken))
      modifies this`state, src`pos, src`end, src`pending, src`out
      ensures Valid() && stash == []
      ensures match Literal(old(Rest()))
              case None => r.Err?
              case Some(v) =>
                Rest() == v.rest && state == ValueDone(Levels()) &&
                r == Ok(if v.item.SNull? then None else Some(v.item == SBool(true)))
    {
      var b := PeekByte(src);
      var lit, v := NULL, None;
      if b == Some(LOWER_T) {
        lit, v := TRUE, Some(true);
      } else if b == Some(LOWER_F) {
        lit, v := FALSE, Some(false);
      }
      ghost var s := Rest();
      LiteralByStart(s);
      var ok := Match(lit);
      if ok.Err? {
        return Err(ok.kind);
      }
      Done();
      r := Ok(v);
    }

    /** Consumes `lit`. */
    method Match(lit: bytes) returns (r: Res<()>)
      requires src.Valid()
      modifies src`pos, src`end, src`pending, src`out
      ensures src.Valid()
      ensures r.Ok? <==> lit <= old(Rest())
      ensures r.Ok? ==> Rest() == old(Rest())[|lit|..]
    {
      ghost var s := Rest();
      for k := 0 to |lit|
        invariant src.Valid() && k <= |s| && lit[..k] == s[..k] && Rest() == s[k..]
      {
        var b := PeekByte(src);
        if b.None? {
          return Err(UnexpectedEof);
        }
        if b.value != lit[k] {
          return Err(ErrorKind.UnexpectedByte);
        }
        src.Consume(1);
      }
      r := Ok(());
    }

    // ---------- whole values ----------

    /** What remains of the run that closes all containers above `base`, from the peeked token `t` on. */
    ghost function RunAt(t: Token, base: nat): Option<Run>
      requires Valid() && base <= |Levels()|
      reads this, src, stack, stack.bits
    {
      FromToken(t, Rest(), Levels(), base, stack.Max())
    }

    /** The same, after a token was consumed. */
    ghost function RunAfter(base: nat): Option<Run>
      requires Valid() && base <= |Levels()|
      reads this, src, stack, stack.bits
    {
      After(state, Rest(), Levels(), base, stack.Max())
    }

    /** Skips string content after its opening quote. */
    method SkipString() returns (r: Res<()>, ghost n: Scanned<seq<StrChar>>)
      requires Valid() && src.Offset() < src.end && stash == [] && Rest() != []
      modifies src`pos, src`end, src`pending, src`out
      ensures Valid() && stash == []
      ensures match ScanChars(old(Rest())[1..])
              case None => r.Err?
              case Some(m) => r.Ok? && n == m && Rest() == m.rest
    {
      n := Scanned([], []);
      src.Consume(1);
      if ScanChars(Rest()).Some? {
        n := ScanChars(Rest()).value;
      }
      var sink := new Sink.Null();
      var d, rest;
      ghost var cs;
      d, rest, cs := Decode(src, sink, []);
      r := if d.Err? then Err(d.kind) else Ok(());
    }

    method SkipStringValue() returns (r: Res<()>)
      requires Valid() && stash == [] && Rest() != [] && Rest()[0] == QUOTE && src.Offset() < src.end
      modifies this`state, src`pos, src`end, src`pending, src`out
      ensures Valid() && stash == []
      ensures match ParseValue(old(Rest()), Room())
              case None => r.Err?
              case Some(v) => r.Ok? && Rest() == v.rest && state == ValueDone(Levels())
    {
      ScalarForms(Rest(), Room());
      ghost var n;
      r, n := SkipString();
      if r.Ok? {
        Done();
      }
    }

    method SkipNumberValue() returns (r: Res<()>)
      requires Valid() && stash == [] && Rest() != [] && (Rest()[0] == MINUS || IsDigit(Rest()[0]))
      modifies this`state, src`pos, src`end, src`pending, src`out
      ensures Valid() && stash == []
      ensures match ParseValue(old(Rest()), Room())
              case None => r.Err?
              case Some(v) => r.Ok? && Rest() == v.rest && state == ValueDone(Levels())
    {
      ScalarForms(Rest(), Room());
      var sink := new Sink.Null();
      r := ScanNumberText(src, sink);
      if r.Ok? {
        Done();
      }
    }

    /** Consumes a string, number or literal. */
    method SkipScalar(t: Token) returns (r: Res<()>)
      requires Valid() && stash == [] && Rest() != [] && ValueToken(Rest()[0]) == Some(t) && src.Offset() < src.end
      requires !t.BeginObject? && !t.BeginArray?
      modifies this`state, src`pos, src`end, src`pending, src`out
      ensures Valid() && stash == []
      ensures match ParseValue(old(Rest()), Room())
              case None => r.Err?
              case Some(v) => r.Ok? && Rest() == v.rest && state == ValueDone(Levels())
    {
      if t.StringToken? {
        r := SkipStringValue();
      } else if t.NumberToken? {
        r := SkipNumberValue();
      } else {
        LiteralByStart(Rest());
        var v := LiteralValue();
        r := if v.Ok? then Ok(()) else Err(v.kind);
      }
    }

    method SkipKeyToken(ghost base: nat) returns (r: Res<()>, ghost ev: Event)
      requires Valid() && stash == [] && Rest() != [] && Top(Levels()) == Some(true) && src.Offset() < src.end
      requires base < |Levels()|
      modifies this`state, src`pos, src`end, src`pending, src`out
      ensures Valid() && stash == []
      ensures r.Err? ==> old(RunAt(KeyToken, base)).None?
      ensures r.Ok? ==> state == ObjColon && |Rest()| < |old(Rest())|
      ensures r.Ok? ==> old(RunAt(KeyToken, base)) == Then([ev], RunAfter(base))
    {
      hide ScanChars, CharsText, FromToken, After, Fits, Then;
      ghost var s, n := Rest(), Scanned([], []);
      NoKeyRun(s, Levels(), base, stack.Max());
      ScanShortens(s[1..]);
      NameFitsObject(Levels());
      r, n := SkipString();
      if r.Ok? {
        AtKey(s, Levels(), base, stack.Max(), n);
        state := ObjColon;
      }
      ev := Event.Key(CharsText(n.item));
    }

    method SkipOpen(t: Token, ghost base: nat) returns (r: Res<()>, ghost ev: Event)
      requires Valid() && stash == [] && Rest() != [] && ValueToken(Rest()[0]) == Some(t) && src.Offset() < src.end
      requires (t.BeginObject? || t.BeginArray?) && base <= |Levels()|
      modifies this`state, src`pos, src`end, src`pending, src`out, stack`depth, stack.bits
      ensures Valid() && stash == []
      ensures r.Err? ==> old(RunAt(t, base)).None?
      ensures r.Ok? ==> Levels() == old(Levels()) + [t.BeginObject?] && |Rest()| < |old(Rest())| && !state.InStr?
      ensures r.Ok? ==> old(RunAt(t, base)) == Then([ev], RunAfter(base))
    {
      AtOpen(t, Rest(), Levels(), base, stack.Max());
      ev := Open(t.BeginObject?);
      r := Enter(t.BeginObject?);
    }

    method SkipClose(t: Token, ghost base: nat) returns (ghost ev: Event)
      requires Valid() && stash == [] && Rest() != [] && src.Offset() < src.end
      requires (t.EndObject? || t.EndArray?) && base < |Levels()|
      modifies this`state, src`pos, src`pending, stack`depth
      ensures Valid() && stash == [] && Levels() == Pop(old(Levels())) && |Rest()| < |old(Rest())| && state == ValueDone(Levels())
      ensures old(RunAt(t, base)) == Then([ev], RunAfter(base))
    {
      AtClose(t, Rest(), Levels(), base, stack.Max());
      ev := Close(t.EndObject?);
      Leave();
    }

    method SkipScalarToken(t: Token, ghost base: nat) returns (r: Res<()>, ghost ev: Event)
      requires Valid() && stash == [] && Rest() != [] && ValueToken(Rest()[0]) == Some(t) && src.Offset() < src.end
      requires !t.BeginObject? && !t.BeginArray? && base <= |Levels()|
      modifies this`state, src`pos, src`end, src`pending, src`out
      ensures Valid() && stash == []
      ensures r.Err? ==> old(RunAt(t, base)).None?
      ensures r.Ok? ==> |Rest()| < |old(Rest())| && state == ValueDone(Levels())
      ensures r.Ok? ==> old(RunAt(t, base)) == Then([ev], RunAfter(base))
    {
      ghost var s, room := Rest(), Room();
      ValueTokenIsValue(s[0]);
      ev := ScalarEvent(s, room);
      r := SkipScalar(t);
      if r.Ok? {
        NotContainer(s, room);
        AtScalar(t, s, Levels(), base, stack.Max(), ParseValue(s, room).value);
      }
    }

    /** Consumes the peeked token: one event of the run. */
    method SkipToken(t: Token, ghost base: nat) returns (r: Res<()>, ghost ev: Event)
      requires Valid() && stash == [] && AtToken(Peeked(t, state, Rest()), Levels()) && !t.Eof? && src.Offset() < src.end
      requires base <= |Levels()| && (base < |Levels()| || IsValue(t))
      modifies this`state, src`pos, src`end, src`pending, src`out, stack`depth, stack.bits
      ensures Valid() && stash == []
      ensures r.Err? ==> old(RunAt(t, base)).None?
      ensures r.Ok? ==>
                base <= |Levels()| && |Rest()| < |old(Rest())| && !state.InStr? &&
                Levels()[..base] == old(Levels())[..base] &&
                old(RunAt(t, base)) == Then([ev], RunAfter(base))
      ensures r.Ok? && |Levels()| == base ==> state == ValueDone(Levels())
    {
      hide FromToken, After, AtToken, Then;
      TokenFacts(Peeked(t, state, Rest()), Levels());
      if t.BeginObject? || t.BeginArray? {
        r, ev := SkipOpen(t, base);
      } else if t.EndObject? || t.EndArray? {
        ev := SkipClose(t, base);
        r := Ok(());
      } else if t.KeyToken? {
        r, ev := SkipKeyToken(base);
      } else {
        r, ev := SkipScalarToken(t, base);
      }
    }

    /** Skips the next value, validating it; the rest of a string, if one is being read. */
    method SkipValue() returns (r: Res<()>)
      requires Valid()
      modifies this`state, this`stash, src`pos, src`end, src`pending, src`out, stack`depth, stack.bits
      ensures Valid()
      ensures match SkipFrom(old(state), old(Rest()), old(Levels()), old(Room()))
              case None => r.Err?
              case Some(k) => r.Ok? && Rest() == k.rest && state == k.item && stash == [] && Levels() == old(Levels())
    {
      if state.InStr? {
        r := FinishStr();
      } else {
        r := SkipNext();
      }
    }

    method SkipNext() returns (r: Res<()>)
      requires Valid() && !state.InStr?
      modifies this`state, this`stash, src`pos, src`end, src`pending, src`out, stack`depth, stack.bits
      ensures Valid()
      ensures match SkipFrom(old(state), old(Rest()), old(Levels()), old(Room()))
              case None => r.Err?
              case Some(k) => r.Ok? && Rest() == k.rest && state == k.item && stash == [] && Levels() == old(Levels())
    {
      ghost var goal := SkipFrom(state, Rest(), Levels(), Room());
      ghost var p := PeekFrom(state, Rest(), Levels());
      if p.Some? && IsValue(p.value.token) {
        SkipIsRun(state, Rest(), Levels(), stack.Max());
      }
      var t := Peek();
      if t.Err? {
        r := Err(t.kind);
      } else if !IsValue(t.value) {
        r := Err(UnexpectedToken);
      } else {
        assert goal == InState(ValueDone(Levels()), RestOf(RunAt(t.value, |Levels()|)));
        r := SkipRun(t.value);
      }
    }

    /** Consumes tokens until all containers entered on the way are closed. */
    method SkipRun(t0: Token) returns (r: Res<()>)
      requires Valid() && stash == [] && AtToken(Peeked(t0, state, Rest()), Levels()) && IsValue(t0) && src.Offset() < src.end
      modifies this`state, this`stash, src`pos, src`end, src`pending, src`out, stack`depth, stack.bits
      ensures Valid()
      ensures match RestOf(old(RunAt(t0, |Levels()|)))
              case None => r.Err?
              case Some(rest) =>
                r.Ok? && Rest() == rest && stash == [] && state == ValueDone(Levels()) && Levels() == old(Levels())
    {
      ghost var levels := Levels();
      ghost var goal := RestOf(RunAt(t0, |levels|));
      var depth := stack.depth;
      var t := Some(t0);
      while t.Some?
        invariant Valid() && stash == [] && |levels| <= |Levels()| && Levels()[..|levels|] == levels
        invariant t.Some? ==> AtToken(Peeked(t.value, state, Rest()), Levels()) && src.Offset() < src.end && !t.value.Eof?
        invariant t.Some? ==> (|levels| < |Levels()| || IsValue(t.value)) && RestOf(RunAt(t.value, |levels|)) == goal
        invariant t.None? ==> |levels| == |Levels()| && state == ValueDone(Levels()) && goal == Some(Rest())
        decreases t.Some?, |Rest()|
      {
        t :- SkipTurn(t.value, depth);
      }
      assert Levels()[..|levels|] == Levels();
      r := Ok(());
    }

    /** Consumes a token and peeks at the next, unless that was the last one. */
    method SkipTurn(t: Token, depth: nat) returns (r: Res<Option<Token>>)
      requires Valid() && stash == [] && AtToken(Peeked(t, state, Rest()), Levels()) && !t.Eof? && src.Offset() < src.end
      requires depth <= |Levels()| && (depth < |Levels()| || IsValue(t))
      modifies this`state, this`stash, src`pos, src`end, src`pending, src`out, stack`depth, stack.bits
      ensures Valid()
      ensures r.Err? ==> old(RunAt(t, depth)).None?
      ensures r.Ok? ==> stash == [] && depth <= |Levels()| && Levels()[..depth] == old(Levels())[..depth]
      ensures r.Ok? && r.value.None? ==>
                |Levels()| == depth && state == ValueDone(Levels()) && RestOf(old(RunAt(t, depth))) == Some(Rest())
      ensures r.Ok? && r.value.Some? ==>
                depth < |Levels()| && |Rest()| < |old(Rest())| && src.Offset() < src.end && !r.value.value.Eof? &&
                AtToken(Peeked(r.value.value, state, Rest()), Levels()) &&
                RestOf(old(RunAt(t, depth))) == RestOf(RunAt(r.value.value, depth))
    {
      var k;
      ghost var ev;
      k, ev := SkipToken(t, depth);
      if k.Err? {
        return Err(k.kind);
      }
      if stack.depth == depth {
        return Ok(None);
      }
      ghost var s := Rest();
      PeekShortens(state, s);
      var next :- Peek();
      if next.Eof? {
        return Err(UnexpectedEof);
      }
      return Ok(Some(next));
    }
  }

  /** The value that comes next, and the input after it. */
  ghost function ValueAt(state: State, s: bytes, levels: seq<bool>, room: nat): Option<Scanned<Syn>> {
    match PeekFrom(state, s, levels)
    case None => None
    case Some(p) => if IsValue(p.token) then ParseValue(p.rest, room) else None
  }

  /** Where skipping ends, and in which state. */
  ghost function SkipFrom(state: State, s: bytes, levels: seq<bool>, room: nat): Option<Scanned<State>> {
    if state.InStr? then
      (match ScanChars(s)
       case None => None
       case Some(n) => Some(Scanned(StringDone(state.key, levels), n.rest)))
    else
      match ValueAt(state, s, levels, room)
      case None => None
      case Some(v) => Some(Scanned(ValueDone(levels), v.rest))
  }

  lemma TrimHere(s: bytes)
    ensures s == [] || !IsWs(s[0]) ==> Trim(s) == s
  {
  }

  lemma NoKeyRun(s: bytes, levels: seq<bool>, base: nat, max: nat)
    requires base <= |levels| <= max && s != []
    ensures ScanChars(s[1..]).None? ==> FromToken(KeyToken, s, levels, base, max).None?
  {
  }

  lemma ScanShortens(s: bytes)
    ensures ScanChars(s).Some? ==> |ScanChars(s).value.rest| < |s|
  {
  }

  lemma NameFitsObject(levels: seq<bool>)
    requires Top(levels) == Some(true)
    ensures Fits(ObjColon, levels) && Fits(InStr(true), levels)
  {
  }

  /** Scalars by their first byte. */
  lemma ScalarForms(s: bytes, room: nat)
    requires s != []
    ensures s[0] == QUOTE ==>
              match ScanChars(s[1..])
              case None => ParseValue(s, room).None?
              case Some(n) => ParseValue(s, room) == Some(Scanned(SString(n.item), n.rest))
    ensures s[0] == MINUS || IsDigit(s[0]) ==>
              match ScanNumber(s)
              case None => ParseValue(s, room).None?
              case Some(n) => ParseValue(s, room) == Some(Scanned(SNumber(n.item), n.rest))
  {
  }

  ghost function ScalarEvent(s: bytes, room: nat): Event {
    match ParseValue(s, room)
    case None => Close(false)
    case Some(v) => Scalar(ToTree(v.item))
  }

  lemma NotContainer(s: bytes, room: nat)
    requires ParseValue(s, room).Some? && s[0] != LBRACE && s[0] != LBRACKET
    ensures !ParseValue(s, room).value.item.SContainer?
  {
  }

  lemma PeekShortens(state: State, s: bytes)
    ensures PeekToken(state, s).Some? ==> |PeekToken(state, s).value.rest| <= |s|
  {
    if PeekToken(state, s).Some? {
      PeekSkips(state, s);
    }
  }

  function InState(state: State, rest: Option<bytes>): Option<Scanned<State>> {
    match rest case None => None case Some(t) => Some(Scanned(state, t))
  }

  /** Skipping a value is the run from its first token on. */
  lemma SkipIsRun(state: State, s: bytes, levels: seq<bool>, max: nat)
    requires !state.InStr? && |levels| <= max && PeekFrom(state, s, levels).Some?
    requires IsValue(PeekFrom(state, s, levels).value.token)
    ensures var p := PeekFrom(state, s, levels).value;
            SkipFrom(state, s, levels, max - |levels|)
            == InState(ValueDone(levels), RestOf(FromToken(p.token, p.rest, levels, |levels|, max)))
  {
    var p := PeekFrom(state, s, levels).value;
    ValueRun(p.token, p.rest, levels, max);
  }

  lemma ValueRun(t: Token, s: bytes, levels: seq<bool>, max: nat)
    requires IsValue(t) && |levels| <= max
    ensures RestOf(FromToken(t, s, levels, |levels|, max))
         == match ParseValue(s, max - |levels|) case None => None case Some(v) => Some(v.rest)
  {
  }

  /** The first byte decides which literal it can be. */
  lemma LiteralByStart(s: bytes)
    requires s != []
    requires ValueToken(s[0]) == Some(BoolToken) || ValueToken(s[0]) == Some(NullToken)
    ensures var lit := if s[0] == LOWER_T then TRUE else if s[0] == LOWER_F then FALSE else NULL;
            (Literal(s).Some? <==> lit <= s) &&
            (lit <= s ==> Literal(s) == Some(Scanned(if s[0] == LOWER_T then SBool(true) else if s[0] == LOWER_F then SBool(false) else SNull, s[|lit|..])))
    ensures forall room: nat :: ParseValue(s, room) == Literal(s)
  {
  }
}
