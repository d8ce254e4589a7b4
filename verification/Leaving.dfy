/** Leaving containers, measuring values, and reading whole documents. */
module Leaving {
  import opened Bytes
  import opened StringGrammar
  import opened Grammar
  import opened Reader
  import opened Automaton
  import opened Results
  import opened Sources
  import opened Parsing
  import opened Seeking
  import opened Stepping
  import opened PathSeeking
  import opened Trails
  import opened Patches
  import opened Paths

  // ---------- spans ----------

  /** Bytes `start..end` of the document. */
  datatype Span = Span(start: nat, end: nat)

  /** Skips the next value and tells where it is. */
  method ValueSpan(p: Parser) returns (r: Res<Span>)
    requires p.Valid()
    modifies p`state, p`stash, p.src`pos, p.src`end, p.src`pending, p.src`out, p.stack`depth, p.stack.bits
    ensures p.Valid()
    ensures match old(ValueAt(p.state, p.Rest(), p.Levels(), p.Room()))
            case None => r.Err?
            case Some(v) =>
              |SynBytes(v.item)| + |v.rest| <= |p.src.data| && p.Rest() == v.rest && p.stash == [] &&
              r == Ok(Span(|p.src.data| - |SynBytes(v.item)| - |v.rest|, |p.src.data| - |v.rest|)) &&
              p.Levels() == old(p.Levels()) && p.state == ValueDone(p.Levels())
  {
    hide ParseValue, PeekFrom, AtToken, SynBytes, ValueDone;
    ghost var s, room, levels, state := p.Rest(), p.Room(), p.Levels(), p.state;
    if ValueAt(state, s, levels, room).Some? {
      ParseValueSound(PeekFrom(state, s, levels).value.rest, room);
    }
    var t :- p.Peek();
    if !IsValue(t) {
      return Err(UnexpectedToken);
    }
    SkipHere(Peeked(t, p.state, p.Rest()), levels, room);
    var start := p.src.Offset();
    var _ :- p.SkipValue();
    r := Ok(Span(start, p.src.Offset()));
  }

  // ---------- leaving containers ----------

  /** The run that closes all containers above `base`. */
  ghost function RunFrom(state: State, s: bytes, levels: seq<bool>, base: nat, max: nat): Option<Run>
    requires base <= |levels| <= max
  {
    match PeekFrom(state, s, levels)
    case None => None
    case Some(p) => FromToken(p.token, p.rest, levels, base, max)
  }

  /** The input after all containers above `base` are closed; the present one, if there are none. */
  ghost function AfterAll(state: State, s: bytes, levels: seq<bool>, base: nat, max: nat): Option<bytes>
    requires base <= |levels| <= max
  {
    if |levels| == base then Some(s) else RestOf(RunFrom(state, s, levels, base, max))
  }

  method SkipKey(p: Parser) returns (r: Res<()>)
    requires p.Valid()
    modifies p`state, p`stash, p.src`pos, p.src`end, p.src`pending, p.src`out, p.stack`depth, p.stack.bits
    ensures p.Valid()
    ensures match NameAt(old(KeyStart(p.state, p.Rest(), p.Levels(), p.Room())))
            case None => r.Err?
            case Some(n) =>
              r.Ok? && p.Rest() == n.rest && p.state == ObjColon && p.stash == [] && p.Levels() == old(p.Levels())
  {
    hide KeyStart, ScanChars;
    var _ :- OpenKey(p);
    r := p.FinishStr();
  }

  /** Skips the peeked name: the run that closes the innermost container goes on after it. */
  method LeaveKey(p: Parser) returns (r: Res<()>)
    requires p.Valid() && p.Levels() != [] && AtToken(Peeked(KeyToken, p.state, p.Rest()), p.Levels())
    modifies p`state, p`stash, p.src`pos, p.src`end, p.src`pending, p.src`out, p.stack`depth, p.stack.bits
    ensures p.Valid()
    ensures var base := |old(p.Levels())| - 1; var goal := RestOf(old(FromToken(KeyToken, p.Rest(), p.Levels(), base, p.stack.Max())));
            match r
            case Err(_) => goal == None
            case Ok(_) =>
              p.Levels() == old(p.Levels()) && |p.Rest()| < |old(p.Rest())| &&
              goal == RestOf(RunFrom(p.state, p.Rest(), p.Levels(), base, p.stack.Max()))
  {
    hide AtToken, FromToken, KeyStart, ScanChars, PeekFrom, Fits;
    KeyHere(Peeked(KeyToken, p.state, p.Rest()), p.Levels(), p.Room());
    KeyRun(p.Rest(), p.Levels(), |p.Levels()| - 1, p.stack.Max());
    r := SkipKey(p);
  }

  /** Skips the peeked value, likewise. */
  method LeaveValue(p: Parser, t: Token) returns (r: Res<()>)
    requires p.Valid() && p.Levels() != [] && IsValue(t) && AtToken(Peeked(t, p.state, p.Rest()), p.Levels())
    modifies p`state, p`stash, p.src`pos, p.src`end, p.src`pending, p.src`out, p.stack`depth, p.stack.bits
    ensures p.Valid()
    ensures var base := |old(p.Levels())| - 1; var goal := RestOf(old(FromToken(t, p.Rest(), p.Levels(), base, p.stack.Max())));
            match r
            case Err(_) => goal == None
            case Ok(_) =>
              p.Levels() == old(p.Levels()) && |p.Rest()| < |old(p.Rest())| &&
              goal == RestOf(RunFrom(p.state, p.Rest(), p.Levels(), base, p.stack.Max()))
  {
    hide AtToken, FromToken, ParseValue, ValueDone, SkipFrom, PeekFrom, Fits;
    SkipHere(Peeked(t, p.state, p.Rest()), p.Levels(), p.Room());
    ValueShortens(p.Rest(), p.Room());
    ValueRunHere(t, p.Rest(), p.Levels(), |p.Levels()| - 1, p.stack.Max());
    r := p.SkipValue();
  }

  /** One turn of leaving: a token is peeked, and anything but the closing bracket is skipped. */
  method LeaveTurn(p: Parser, t: Token, obj: bool) returns (r: Res<bool>)
    requires p.Valid() && p.stash == [] && AtToken(Peeked(t, p.state, p.Rest()), p.Levels())
    requires Top(p.Levels()) == Some(obj) && (!t.Eof? ==> p.src.Offset() < p.src.end)
    modifies p`state, p`stash, p.src`pos, p.src`end, p.src`pending, p.src`out, p.stack`depth, p.stack.bits
    ensures p.Valid()
    ensures var base := |old(p.Levels())| - 1; var goal := RestOf(old(FromToken(t, p.Rest(), p.Levels(), base, p.stack.Max())));
            match r
            case Err(_) => goal == None
            case Ok(true) => goal == Some(p.Rest()) && p.Levels() == Pop(old(p.Levels())) && p.state == ValueDone(p.Levels()) && p.stash == []
            case Ok(false) =>
              p.Levels() == old(p.Levels()) && |p.Rest()| < |old(p.Rest())| &&
              goal == RestOf(RunFrom(p.state, p.Rest(), p.Levels(), base, p.stack.Max()))
  {
    hide AtToken, ValueDone, FromToken, RunFrom, Unfinished, PeekFrom, Fits, IsValue;
    TurnTokens(Peeked(t, p.state, p.Rest()), p.Levels(), obj);
    if t == (if obj then EndObject else EndArray) {
      CloseRun(t, p.Rest(), p.Levels(), p.stack.Max());
      p.Leave();
      r := Ok(true);
    } else {
      var k;
      if t.KeyToken? {
        k := LeaveKey(p);
      } else {
        k := LeaveValue(p, t);
      }
      r := if k.Ok? then Ok(false) else Err(k.kind);
    }
  }

  lemma CloseRun(t: Token, s: bytes, levels: seq<bool>, max: nat)
    requires 0 < |levels| <= max && s != [] && (t.EndObject? || t.EndArray?)
    ensures RestOf(FromToken(t, s, levels, |levels| - 1, max)) == Some(s[1..])
  {
    hide FromToken, ValueDone;
    AtClose(t, s, levels, |levels| - 1, max);
  }

  /** The tokens there can be inside an object, and inside an array. */
  lemma TurnTokens(q: Peeked, levels: seq<bool>, obj: bool)
    requires AtToken(q, levels) && Top(levels) == Some(obj)
    ensures q.rest != [] && !q.token.Eof?
    ensures q.token == (if obj then EndObject else EndArray) || (obj && q.token.KeyToken?) || IsValue(q.token)
    ensures obj && IsValue(q.token) ==> q.state.ObjValue?
    ensures q.token == (if obj then EndObject else EndArray) ==> q.token.EndObject? == obj
  {
    TokenFacts(q, levels);
    if IsValue(q.token) {
      TokenFactsOf(q, levels);
    }
  }

  lemma KeyRun(s: bytes, levels: seq<bool>, base: nat, max: nat)
    requires base < |levels| <= max && s != []
    ensures match ScanChars(s[1..])
            case None => FromToken(KeyToken, s, levels, base, max) == None
            case Some(n) =>
              RestOf(FromToken(KeyToken, s, levels, base, max)) == RestOf(RunFrom(ObjColon, n.rest, levels, base, max)) && |n.rest| < |s|
  {
    hide PeekToken;
    if ScanChars(s[1..]).Some? {
      AtKey(s, levels, base, max, ScanChars(s[1..]).value);
    }
  }

  lemma ValueRunHere(t: Token, s: bytes, levels: seq<bool>, base: nat, max: nat)
    requires base < |levels| <= max && IsValue(t)
    ensures match ParseValue(s, max - |levels|)
            case None => FromToken(t, s, levels, base, max) == None
            case Some(v) =>
              RestOf(FromToken(t, s, levels, base, max)) == RestOf(RunFrom(ValueDone(levels), v.rest, levels, base, max))
  {
    hide PeekToken, ParseValue;
    if ParseValue(s, max - |levels|).Some? {
      AfterValue(ParseValue(s, max - |levels|).value.rest, levels, base, max);
    }
  }

  /** Peeks, then takes one turn of leaving. */
  method EndTurn(p: Parser, obj: bool) returns (r: Res<bool>)
    requires p.Valid()
    modifies p`state, p`stash, p.src`pos, p.src`end, p.src`pending, p.src`out, p.stack`depth, p.stack.bits
    ensures p.Valid()
    ensures r.Ok? ==> Top(old(p.Levels())) == Some(obj)
    ensures Top(old(p.Levels())) == Some(obj) ==>
              var base := |old(p.Levels())| - 1;
              var goal := RestOf(old(RunFrom(p.state, p.Rest(), p.Levels(), base, p.stack.Max())));
              match r
              case Err(_) => goal == None
              case Ok(true) => goal == Some(p.Rest()) && p.Levels() == Pop(old(p.Levels())) && p.state == ValueDone(p.Levels()) && p.stash == []
              case Ok(false) =>
                p.Levels() == old(p.Levels()) && |p.Rest()| < |old(p.Rest())| &&
                goal == RestOf(RunFrom(p.state, p.Rest(), p.Levels(), base, p.stack.Max()))
  {
    hide FromToken, AtToken, PeekFrom, ValueDone, Unfinished, Pop, Fits;
    ghost var levels := p.Levels();
    PeekFromShortens(p.state, p.Rest(), levels);
    var k := p.Peek();
    if k.Err? {
      r := Err(k.kind);
    } else {
      var t := k.value;
      ghost var q := Peeked(t, p.state, p.Rest());
      TokensElsewhere(q, levels);
      var top := p.stack.Top();
      if t == (if obj then EndObject else EndArray) || (obj && t.KeyToken?) ||
         (IsValue(t) && (if obj then p.state.ObjValue? else top == Some(false)))
      {
        r := LeaveTurn(p, t, obj);
      } else {
        if Top(levels) == Some(obj) {
          TurnTokens(q, levels, obj);
        }
        r := Err(TypeMismatch);
      }
    }
  }

  /** Skips what remains of the current object, or array, and consumes its closing bracket. */
  method EndContainer(p: Parser, obj: bool) returns (r: Res<()>)
    requires p.Valid()
    modifies p`state, p`stash, p.src`pos, p.src`end, p.src`pending, p.src`out, p.stack`depth, p.stack.bits
    ensures p.Valid()
    ensures Top(old(p.Levels())) != Some(obj) ==> r.Err?
    ensures Top(old(p.Levels())) == Some(obj) ==>
              match RestOf(old(RunFrom(p.state, p.Rest(), p.Levels(), |p.Levels()| - 1, p.stack.Max())))
              case None => r.Err?
              case Some(rest) =>
                r.Ok? && p.Rest() == rest && p.Levels() == Pop(old(p.Levels())) && p.state == ValueDone(p.Levels()) && p.stash == []
  {
    hide RunFrom, ValueDone, Fits;
    ghost var levels, max := p.Levels(), p.stack.Max();
    ghost var inside := Top(levels) == Some(obj);
    ghost var goal := if inside then RestOf(RunFrom(p.state, p.Rest(), levels, |levels| - 1, max)) else None;
    var done := false;
    while !done
      invariant p.Valid()
      invariant !done ==> p.Levels() == levels
      invariant !done && inside ==> RestOf(RunFrom(p.state, p.Rest(), levels, |levels| - 1, max)) == goal
      invariant done ==> inside && goal == Some(p.Rest()) && p.Levels() == Pop(levels) && p.state == ValueDone(p.Levels()) && p.stash == []
      decreases !done, |p.Rest()|
    {
      done :- EndTurn(p, obj);
    }
    r := Ok(());
  }

  lemma TokensElsewhere(q: Peeked, levels: seq<bool>)
    requires AtToken(q, levels)
    ensures q.token.EndObject? || q.token.KeyToken? || q.state.ObjValue? ==> Top(levels) == Some(true)
    ensures q.token.EndArray? ==> Top(levels) == Some(false)
  {
    if !q.token.Eof? {
      TokenFacts(q, levels);
    }
  }

  // ---------- several levels ----------

  /** Closing several containers is closing the innermost one, then the others. */
  lemma OneThenOthers(state: State, s: bytes, levels: seq<bool>, base: nat, max: nat)
    requires base < |levels| <= max
    ensures RestOf(RunFrom(state, s, levels, base, max))
         == match RunFrom(state, s, levels, |levels| - 1, max)
            case None => None
            case Some(run) => AfterAll(ValueDone(Pop(levels)), run.rest, Pop(levels), base, max)
  {
    hide PeekFrom, ParseValue;
    if PeekFrom(state, s, levels).Some? {
      var q := PeekFrom(state, s, levels).value;
      OneThenOthersToken(q.token, q.rest, levels, base, max);
      match RunFrom(state, s, levels, |levels| - 1, max) {
        case None =>
        case Some(run) => AllDone(run.rest, Pop(levels), base, max);
      }
    }
  }

  lemma AllDone(s: bytes, levels: seq<bool>, base: nat, max: nat)
    requires base <= |levels| <= max
    ensures AfterAll(ValueDone(levels), s, levels, base, max) == RestOf(Unfinished(s, levels, base, max))
  {
    hide PeekToken, ParseValue;
    AfterDone(s, levels, base, max);
  }

  lemma OneThenOthersValue(s: bytes, levels: seq<bool>, base: nat, max: nat)
    requires base < |levels| <= max
    ensures RestOf(FromValue(s, levels, base, max))
         == match FromValue(s, levels, |levels| - 1, max)
            case None => None
            case Some(run) => RestOf(Unfinished(run.rest, Pop(levels), base, max))
  {
    hide ParseValue, ParseTail;
    if ParseValue(s, max - |levels|).Some? {
      UnfinishedOne(ParseValue(s, max - |levels|).value.rest, levels, base, max);
    }
  }

  lemma UnfinishedOne(s: bytes, levels: seq<bool>, base: nat, max: nat)
    requires base < |levels| <= max
    ensures RestOf(Unfinished(s, levels, base, max))
         == match Unfinished(s, levels, |levels| - 1, max)
            case None => None
            case Some(run) => RestOf(Unfinished(run.rest, Pop(levels), base, max))
  {
    hide ParseTail;
  }

  lemma OneThenOthersToken(t: Token, s: bytes, levels: seq<bool>, base: nat, max: nat)
    requires base < |levels| <= max
    ensures RestOf(FromToken(t, s, levels, base, max))
         == match FromToken(t, s, levels, |levels| - 1, max)
            case None => None
            case Some(run) => RestOf(Unfinished(run.rest, Pop(levels), base, max))
  {
    hide ParseValue, ParseTail, FromValue, ScanChars, ParseColon;
    if IsValue(t) {
      OneThenOthersValue(s, levels, base, max);
    } else if t.KeyToken? && s != [] && ScanChars(s[1..]).Some? {
      var n := ScanChars(s[1..]).value;
      if ParseColon([], n.rest).Some? {
        OneThenOthersValue(ParseColon([], n.rest).value.rest, levels, base, max);
      }
    }
  }

  /** Leaves containers until the nesting depth is `depth`. */
  method Unwind(p: Parser, depth: nat) returns (r: Res<()>)
    requires p.Valid()
    modifies p`state, p`stash, p.src`pos, p.src`end, p.src`pending, p.src`out, p.stack`depth, p.stack.bits
    ensures p.Valid()
    ensures |old(p.Levels())| <= depth ==> r.Ok? && p.Rest() == old(p.Rest()) && p.state == old(p.state) && p.Levels() == old(p.Levels())
    ensures depth < |old(p.Levels())| ==>
              match old(AfterAll(p.state, p.Rest(), p.Levels(), depth, p.stack.Max()))
              case None => r.Err?
              case Some(rest) =>
                r.Ok? && p.Rest() == rest && p.Levels() == old(p.Levels())[..depth] && p.state == ValueDone(p.Levels())
  {
    hide FromToken, PeekFrom, ValueDone, RunFrom;
    ghost var levels, max := p.Levels(), p.stack.Max();
    ghost var goal := if depth <= |levels| then AfterAll(p.state, p.Rest(), levels, depth, max) else None;
    while p.stack.depth > depth
      invariant p.Valid() && (|levels| <= depth ==> p.Rest() == old(p.Rest()) && p.state == old(p.state) && p.Levels() == levels)
      invariant depth <= |levels| ==>
                  depth <= |p.Levels()| <= |levels| && p.Levels() == levels[..|p.Levels()|] &&
                  AfterAll(p.state, p.Rest(), p.Levels(), depth, max) == goal
      invariant |p.Levels()| < |levels| ==> p.state == ValueDone(p.Levels())
      decreases p.stack.depth
    {
      ghost var inner := p.Levels();
      OneThenOthers(p.state, p.Rest(), inner, depth, max);
      TakeLess(levels, |inner|);
      var top := p.stack.Top();
      var _ :- EndContainer(p, top == Some(true));
    }
    r := Ok(());
  }

  lemma TakeLess(s: seq<bool>, n: nat)
    requires 0 < n <= |s|
    ensures s[..n][..n - 1] == s[..n - 1]
  {
  }

  // ---------- after a search along a path ----------

  /** Unwinding to each depth from `base` on ends right after the value, on the way along `path`, that is that deep;
      unwinding further is doing so from the end of `c` on. */
  ghost predicate Unwinds(p: Parser, c: Syn, rest: bytes, path: seq<Seg>, base: nat)
    requires p.Valid()
    reads p, p.src, p.stack, p.stack.bits
  {
    base <= |p.Levels()| &&
    (forall j :: 0 <= j && base + j < |p.Levels()| ==>
       j <= |path| && EndsThere(AfterAll(p.state, p.Rest(), p.Levels(), base + j, p.stack.Max()), p.src.data, c, rest, path[..j])) &&
    (forall d :: 0 <= d < base ==>
       AfterAll(p.state, p.Rest(), p.Levels(), d, p.stack.Max()) == Left(rest, p.Levels()[..base], d, p.stack.Max()))
  }

  /** At the value that was sought, and from wherever else a search stopped at a value. */
  lemma UnwindFromTarget(p: Parser, v: Syn, after: bytes, c: Syn, rest: bytes, path: seq<Seg>, base: nat)
    requires p.Valid() && Facing(p, v, after) && Trail(p.src.data, c, rest, path, after, p.Levels(), base, p.stack.Max())
    ensures Unwinds(p, c, rest, path, base)
  {
    hide Facing, EndsThere, AfterAll, Left;
    forall j | 0 <= j && base + j < |p.Levels()|
      ensures j <= |path| && EndsThere(AfterAll(p.state, p.Rest(), p.Levels(), base + j, p.stack.Max()), p.src.data, c, rest, path[..j])
    {
      FacingRun(p, v, after, base + j);
    }
    forall d | 0 <= d < base
      ensures AfterAll(p.state, p.Rest(), p.Levels(), d, p.stack.Max()) == Left(rest, p.Levels()[..base], d, p.stack.Max())
    {
      FacingRun(p, v, after, d);
    }
  }

  lemma FacingRun(p: Parser, v: Syn, after: bytes, base: nat)
    requires p.Valid() && Facing(p, v, after) && base < |p.Levels()|
    ensures AfterAll(p.state, p.Rest(), p.Levels(), base, p.stack.Max()) == Left(after, p.Levels(), base, p.stack.Max())
  {
    hide ParseValue, Unfinished, PeekFrom;
  }

  /** Once that value was consumed. */
  lemma UnwindAfterTarget(p: Parser, after: bytes, c: Syn, rest: bytes, path: seq<Seg>, base: nat)
    requires p.Valid() && p.state == ValueDone(p.Levels()) && p.Rest() == after
    requires Trail(p.src.data, c, rest, path, after, p.Levels(), base, p.stack.Max())
    ensures Unwinds(p, c, rest, path, base)
  {
    hide EndsThere, AfterAll, Left, ValueDone;
    forall j | 0 <= j && base + j < |p.Levels()|
      ensures j <= |path| && EndsThere(AfterAll(p.state, p.Rest(), p.Levels(), base + j, p.stack.Max()), p.src.data, c, rest, path[..j])
    {
      DoneRun(p, base + j);
    }
    forall d | 0 <= d < base
      ensures AfterAll(p.state, p.Rest(), p.Levels(), d, p.stack.Max()) == Left(rest, p.Levels()[..base], d, p.stack.Max())
    {
      DoneRun(p, d);
    }
  }

  lemma DoneRun(p: Parser, base: nat)
    requires p.Valid() && p.state == ValueDone(p.Levels()) && base < |p.Levels()|
    ensures AfterAll(p.state, p.Rest(), p.Levels(), base, p.stack.Max()) == Left(p.Rest(), p.Levels(), base, p.stack.Max())
  {
    hide Unfinished, PeekFrom, ValueDone;
    AllDone(p.Rest(), p.Levels(), base, p.stack.Max());
  }

  /** At the closing bracket of a container that was searched in vain. */
  lemma BracketRun(p: Parser, after: bytes, base: nat)
    requires p.Valid() && AtBracket(p, after) && base < |p.Levels()|
    ensures AfterAll(p.state, p.Rest(), p.Levels(), base, p.stack.Max()) == Left(after, Pop(p.Levels()), base, p.stack.Max())
  {
    hide Unfinished, AtToken, PeekFrom, ValueDone, FromToken;
    var q := Peeked(if Top(p.Levels()).value then EndObject else EndArray, p.state, p.Rest());
    BracketAgain(q, p.Levels());
    AtClose(q.token, p.Rest(), p.Levels(), base, p.stack.Max());
    AfterDone(after, Pop(p.Levels()), base, p.stack.Max());
    assert p.Rest()[1..] == after;
  }

  lemma BracketAgain(q: Peeked, levels: seq<bool>)
    requires AtToken(q, levels) && !q.token.Eof?
    ensures PeekFrom(q.state, q.rest, levels) == Some(q)
  {
    hide PeekToken;
    TokenFacts(q, levels);
    PeekAgain(q, levels);
  }

  /** When there is no value at the path. */
  lemma UnwindFromMiss(p: Parser, c: Syn, rest: bytes, path: seq<Seg>, after: bytes, outer: seq<bool>)
    requires p.Valid() && (StuckBefore(p, c, rest, path, after, outer) || StuckInside(p, c, rest, path, after, outer))
    ensures outer <= p.Levels() && Unwinds(p, c, rest, path, |outer|)
    ensures p.Levels() == outer ==> Facing(p, c, rest)   // nothing was entered
  {
    hide Facing, AtBracket, Trail, EndsThere, AfterAll, Left, SeekSyn, Unwinds;
    if StuckBefore(p, c, rest, path, after, outer) {
      UnwindFromTarget(p, OnTheWay(p.Levels(), c, path, outer).value, after, c, rest, path, |outer|);
      if p.Levels() == outer {
        NothingUnfinished(after, p.Levels(), p.stack.Max());
        SeekHere(c);
        assert path[..0] == [];
      }
    } else {
      UnwindFromBracket(p, after, c, rest, path, |outer|);
      assert Pop(p.Levels()) <= p.Levels();
    }
  }

  lemma UnwindFromBracket(p: Parser, after: bytes, c: Syn, rest: bytes, path: seq<Seg>, base: nat)
    requires p.Valid() && AtBracket(p, after) && Trail(p.src.data, c, rest, path, after, Pop(p.Levels()), base, p.stack.Max())
    ensures Unwinds(p, c, rest, path, base) && p.Levels() != []
  {
    hide AtBracket, EndsThere, AfterAll, Left;
    BracketLevels(p, after);
    forall j | 0 <= j && base + j < |p.Levels()|
      ensures j <= |path| && EndsThere(AfterAll(p.state, p.Rest(), p.Levels(), base + j, p.stack.Max()), p.src.data, c, rest, path[..j])
    {
      BracketRun(p, after, base + j);
    }
    assert Pop(p.Levels())[..base] == p.Levels()[..base];
    forall d | 0 <= d < base
      ensures AfterAll(p.state, p.Rest(), p.Levels(), d, p.stack.Max()) == Left(rest, p.Levels()[..base], d, p.stack.Max())
    {
      BracketRun(p, after, d);
    }
  }

  lemma BracketLevels(p: Parser, after: bytes)
    requires p.Valid() && AtBracket(p, after)
    ensures p.Levels() != []
  {
  }
}
