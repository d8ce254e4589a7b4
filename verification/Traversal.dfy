/** The loop of the walk: a turn for each token, until the value that the walk started on is complete. */
module Traversal {
  import opened Bytes
  import opened Numbers
  import opened Compare
  import opened Grammar
  import opened Reader
  import opened Automaton
  import opened Results
  import opened Sources
  import opened Parsing
  import opened Lists
  import opened Seeking
  import opened Stepping
  import opened PathSeeking
  import opened Leaving
  import opened Visits
  import opened WalkPaths
  import opened Walking

  /** The value is about to be visited, and the buffer holds `text`. */
  ghost predicate AtVisit(p: Parser, fs: Frames, v: Syn, after: bytes, text: bytes, base: seq<bool>)
    requires p.Valid()
    reads p, p.src, p.stack, p.stack.bits
  {
    Arrived(p, fs, v, after) && InReach(fs, v, p.Levels(), base, p.stack.Max()) && TextAt(fs, text, p.state.ArrFirst?)
  }

  /** The same, or nothing when there is no room for its pointer. */
  ghost function EntryGoal(fs: Frames, v: Syn, after: bytes, size: nat, limit: nat, decide: Visit -> Flow): Walked {
    if |VisitOf(fs, v, after, size).path| <= limit then ValueGoal(fs, v, after, size, limit, decide) else Walked([], TooLong)
  }

  lemma VisitFacts(p: Parser, fs: Frames, v: Syn, after: bytes, text: bytes, base: seq<bool>)
    requires p.Valid() && AtVisit(p, fs, v, after, text, base)
    ensures HasEntry(fs) && TextAt(fs, text, p.state.ArrFirst?)
    ensures Named(p, fs, v, after, PathOf(fs), base)
    ensures fs.Inside? ==> fs.k <= USIZE_MAX && Top(p.Levels()) == Some(fs.c.obj)
    ensures fs.Inside? <==> |p.Levels()| > |base|
    ensures p.Rest() != [] && VisitOf(fs, v, after, |p.src.data|) == Visit(PathOf(fs), ValueToken(p.Rest()[0]).value, p.src.Offset())
  {
    hide SynBytes, PathOf, Shaped, Facing, Before, TextAt;
    ShapedTop(fs, p.Levels(), base, p.stack.Max());
    ArrivedSkips(p, fs, v, after);
    if fs.Inside? {
      EntriesFit(fs.c, fs.k);
    }
  }

  /** Visits the value that was peeked. */
  method VisitValue(p: Parser, buf: array<byte>, len: nat, depth: nat, decide: Visit -> Flow, t: Token, ghost base: seq<bool>,
                    ghost fs: Frames, ghost v: Syn, ghost after: bytes)
    returns (r: Res<Turn>, ghost fs': Frames)
    requires p.Valid() && len <= buf.Length && depth == |base| && (p.stack.bits as object) != buf
    requires p.Rest() != [] && ValueToken(p.Rest()[0]) == Some(t)
    modifies p`state, p`stash, p.src`pos, p.src`end, p.src`pending, p.src`out, p.stack`depth, p.stack.bits, buf
    ensures p.Valid() && (r.Ok? ==> r.value.len <= buf.Length)
    ensures r.Ok? && r.value.done.None? ==> |p.Rest()| < |old(p.Rest())|
    ensures old(AtVisit(p, fs, v, after, buf[..len], base)) ==>
              TurnDone(r, p, buf[..], fs', base, Bottom(fs), EntryGoal(fs, v, after, |p.src.data|, buf.Length, decide), decide)
  {
    hide AtVisit, Named, PathOf, VisitOf, ValueGoal, TurnDone, TextAt, ValueToken, Bottom;
    fs' := fs;
    var top := p.stack.Top();
    ghost var ok := AtVisit(p, fs, v, after, buf[..len], base);
    if ok {
      VisitFacts(p, fs, v, after, buf[..len], base);
    }
    var n := PathForValue(buf, len, p.stack.depth > depth && top == Some(false), p.state.ArrFirst?, fs);
    if n.Err? {
      r := Err(n.kind);
      if ok {
        NoRoom(r, p, buf[..], fs, base, Bottom(fs), EntryGoal(fs, v, after, |p.src.data|, buf.Length, decide), decide);
      }
    } else {
      r, fs' := AfterVisit(p, buf, n.value, depth, decide, Visit(buf[..n.value], t, p.src.Offset()), base, fs, v, after);
    }
  }

  lemma NoRoom(r: Res<Turn>, p: Parser, buf: bytes, fs: Frames, base: seq<bool>, rest: bytes, goal: Walked, decide: Visit -> Flow)
    requires p.Valid() && r == Err(PathTooLong) && goal == Walked([], TooLong)
    ensures TurnDone(r, p, buf, fs, base, rest, goal, decide)
  {
  }

  // ---------- the end of a container ----------

  /** All entries were visited, and the closing bracket is next. */
  ghost predicate Closing(p: Parser, fs: Frames, base: seq<bool>)
    requires p.Valid()
    reads p, p.src, p.stack, p.stack.bits
  {
    fs.Inside? && fs.c.SContainer? && fs.k == |fs.c.entries| && Shaped(fs, p.Levels(), base, p.stack.Max()) &&
    AtClosing(fs.c.obj, p.Rest(), fs.rest)
  }

  /** The buffer holds the pointer of the container, or that of its last element. */
  ghost predicate EndText(fs: Frames, text: bytes, comma: bool) {
    fs.Inside? && fs.c.SContainer? &&
    if fs.c.obj then text == fs.path
    else (comma <==> fs.k > 0) && text == if fs.k == 0 then fs.path else fs.path + IndexSegment(fs.k - 1)
  }

  ghost predicate AtEnd(p: Parser, t: Token, fs: Frames, text: bytes, base: seq<bool>)
    requires p.Valid()
    reads p, p.src, p.stack, p.stack.bits
  {
    Closing(p, fs, base) && EndText(fs, text, p.state.ArrComma?) && t == EndToken(fs.c.obj)
  }

  /** The visit of the end of the container. */
  function EndVisit(fs: Frames, size: nat): Visit {
    if fs.Inside? && fs.c.SContainer? then Visit(fs.path, EndToken(fs.c.obj), size - |fs.rest| - 1) else Visit([], Eof, 0)
  }

  lemma EndPathOf(fs: Frames, text: bytes, comma: bool)
    requires EndText(fs, text, comma)
    ensures !fs.c.obj && comma ==> LastSlash(text) == |fs.path| && text[..|fs.path|] == fs.path
    ensures fs.c.obj || !comma ==> text == fs.path
  {
    hide IndexSegment, LastSlash;
    if !fs.c.obj && comma {
      EndIndex(fs.path, fs.k - 1);
    }
  }

  lemma EndIndex(path: bytes, i: nat)
    ensures LastSlash(path + IndexSegment(i)) == |path| && (path + IndexSegment(i))[..|path|] == path
  {
    hide Decimal;
    var d := Decimal(i);
    NoSlash(d);
    Cat3(path, [SLASH], d);
    LastSlashOf(path, d);
  }

  /** The pointer of the container that ends: without the index of its last element. */
  method EndPath(buf: array<byte>, len: nat, inArray: bool, comma: bool, ghost fs: Frames) returns (n: nat)
    requires len <= buf.Length
    ensures n <= buf.Length
    ensures EndText(fs, buf[..len], comma) && inArray == !fs.c.obj ==> buf[..n] == fs.path
  {
    hide EndText, LastSlash;
    if EndText(fs, buf[..len], comma) {
      EndPathOf(fs, buf[..len], comma);
    }
    n := len;
    if inArray && comma {
      n := PopSegment(buf, len);
      assert buf[..n] == buf[..len][..n];
    }
  }

  /** What the visit of the end leaves to be done. */
  ghost predicate EndLeaves(fs: Frames, size: nat, limit: nat, decide: Visit -> Flow) {
    fs.Inside? &&
    var visit, goal := EndVisit(fs, size), WalkRest(fs, size, limit, decide);
    (decide(visit) == Stop ==> goal == Walked([visit], CutShort)) &&
    (decide(visit) != Stop ==> goal == Follow(Once(visit, decide), WalkRest(Advance(fs.outer), size, limit, decide)))
  }

  lemma EndGoal(fs: Frames, size: nat, limit: nat, decide: Visit -> Flow)
    requires fs.Inside? && fs.c.SContainer? && fs.k == |fs.c.entries| && HasEntry(fs.outer)
    ensures EndLeaves(fs, size, limit, decide)
  {
    hide SynBytes, WalkRest;
    WalkEnd(fs, size, limit, decide);
  }

  /** The container was left. */
  ghost predicate Left(p: Parser, fs: Frames, base: seq<bool>)
    requires p.Valid()
    reads p, p.src, p.stack, p.stack.bits
  {
    fs.Inside? && Passed(p, fs.outer, fs.c, fs.rest, fs.path, base)
  }

  lemma ClosingFacts(p: Parser, fs: Frames, base: seq<bool>, limit: nat, decide: Visit -> Flow)
    requires p.Valid() && Closing(p, fs, base)
    ensures p.Levels() != [] && Outward(fs, Pop(p.Levels()), base, p.stack.Max()) && p.Rest()[1..] == fs.rest
    ensures EndVisit(fs, |p.src.data|).offset == p.src.Offset() && EndLeaves(fs, |p.src.data|, limit, decide)
  {
    hide SynBytes, PathOf, Before, EndLeaves, Shaped, WalkRest, HasEntry, Outward;
    EndOuter(fs, p.Levels(), base, p.stack.Max());
    EndGoal(fs, |p.src.data|, limit, decide);
  }

  /** The frame around the container, on the levels around it. */
  ghost predicate Outward(fs: Frames, levels: seq<bool>, base: seq<bool>, max: nat) {
    fs.Inside? && HasEntry(fs.outer) && Bottom(fs.outer) == Bottom(fs) && fs.path == PathOf(fs.outer) &&
    Shaped(fs.outer, levels, base, max) && |levels| <= max && Before(fs.outer, fs.c, fs.rest, max - |levels|)
  }

  lemma EndOuter(fs: Frames, levels: seq<bool>, base: seq<bool>, max: nat)
    requires fs.Inside? && Shaped(fs, levels, base, max)
    ensures levels != [] && Outward(fs, Pop(levels), base, max) && HasEntry(fs.outer)
  {
    hide SynBytes, PathOf, Before;
    HasEntryBefore(fs.outer, fs.c, fs.rest, max - |Pop(levels)|);
  }

  lemma HasEntryBefore(fs: Frames, v: Syn, after: bytes, room: nat)
    requires Before(fs, v, after, room)
    ensures HasEntry(fs)
  {
  }

  lemma EndPassed(p: Parser, fs: Frames, base: seq<bool>)
    requires p.Valid() && Outward(fs, p.Levels(), base, p.stack.Max())
    requires p.Rest() == fs.rest && p.state == ValueDone(p.Levels())
    ensures Left(p, fs, base) && Bottom(fs.outer) == Bottom(fs)
  {
    hide Shaped, Before, PathOf, ValueDone;
  }

  /** Leaves the container. */
  method LeaveContainer(p: Parser, ghost base: seq<bool>, ghost fs: Frames)
    requires p.Valid() && p.src.Offset() < p.src.end && p.Levels() != [] && p.stash == []
    modifies p`state, p.src`pos, p.src`pending, p.stack`depth
    ensures p.Valid() && |p.Rest()| < |old(p.Rest())|
    ensures old(Closing(p, fs, base)) ==> Left(p, fs, base) && Bottom(fs.outer) == Bottom(fs)
  {
    hide Closing, ValueDone, Left, Outward, EndLeaves, Bottom, EndVisit;
    ghost var ok := Closing(p, fs, base);
    if ok {
      ClosingFacts(p, fs, base, 0, GoOn);
    }
    p.Leave();
    if ok {
      EndPassed(p, fs, base);
    }
  }

  /** After the visit of the end: on with what comes after the container, unless the callback stops the walk. */
  method AfterEnd(p: Parser, buf: array<byte>, len: nat, depth: nat, decide: Visit -> Flow, visit: Visit, ghost base: seq<bool>, ghost fs: Frames,
                  ghost goal: Walked)
    returns (r: Res<Turn>, ghost fs': Frames)
    requires p.Valid() && len <= buf.Length && depth == |base|
    ensures r.Ok? && r.value.len <= buf.Length
    ensures Left(p, fs, base) && Bottom(fs.outer) == Bottom(fs) && buf[..len] == fs.path &&
            visit == EndVisit(fs, |p.src.data|) && EndLeaves(fs, |p.src.data|, buf.Length, decide) && goal == WalkRest(fs, |p.src.data|, buf.Length, decide) ==>
              TurnDone(r, p, buf[..], fs', base, Bottom(fs), goal, decide)
  {
    hide WalkRest, Follow, Once, TurnDone, Bottom, Passed, EndVisit;
    fs' := fs;
    if decide(visit) == Stop {
      r := Ok(Turn(Some(false), len, [visit]));
      if goal == Walked(r.value.visits, CutShort) {
        Stopped(r, p, buf[..], fs', base, Bottom(fs), goal, decide, visit);
      }
    } else {
      ghost var inside := fs.Inside?;
      r, fs' := Onward(p, buf, len, depth, visit, decide, base, if inside then fs.outer else fs, if inside then fs.c else SNull,
                       if inside then fs.rest else [], goal);
    }
  }

  /** Leaves the container, and visits its end. */
  method VisitEnd(p: Parser, buf: array<byte>, len: nat, depth: nat, decide: Visit -> Flow, t: Token, ghost base: seq<bool>, ghost fs: Frames)
    returns (r: Res<Turn>, ghost fs': Frames)
    requires p.Valid() && len <= buf.Length && depth == |base| && (t.EndObject? || t.EndArray?)
    requires p.src.Offset() < p.src.end && p.Levels() != [] && p.stash == []
    modifies p`state, p.src`pos, p.src`pending, p.stack`depth
    ensures p.Valid() && r.Ok? && r.value.len <= buf.Length && |p.Rest()| < |old(p.Rest())|
    ensures old(AtEnd(p, t, fs, buf[..len], base)) ==>
              TurnDone(r, p, buf[..], fs', base, Bottom(fs), WalkRest(fs, |p.src.data|, buf.Length, decide), decide)
  {
    hide Closing, EndText, Left, EndLeaves, WalkRest, TurnDone, Bottom;
    if AtEnd(p, t, fs, buf[..len], base) {
      ClosingFacts(p, fs, base, buf.Length, decide);
      EndTextInside(fs, buf[..len], p.state.ArrComma?);
    }
    var n := EndPath(buf, len, t.EndArray?, p.state.ArrComma?, fs);
    var visit := Visit(buf[..n], t, p.src.Offset());
    LeaveContainer(p, base, fs);
    r, fs' := AfterEnd(p, buf, n, depth, decide, visit, base, fs, WalkRest(fs, |p.src.data|, buf.Length, decide));
  }

  lemma EndTextInside(fs: Frames, text: bytes, comma: bool)
    requires EndText(fs, text, comma)
    ensures fs.Inside? && fs.c.SContainer?
  {
  }

  // ---------- a member name ----------

  /** The name of the next member was peeked. */
  ghost predicate AtName(p: Parser, fs: Frames, text: bytes, base: seq<bool>)
    requires p.Valid()
    reads p, p.src, p.stack, p.stack.bits
  {
    fs.Inside? && fs.c.SContainer? && fs.c.obj && fs.k < |fs.c.entries| && Shaped(fs, p.Levels(), base, p.stack.Max()) &&
    text == fs.path && AtEntry(true, fs.c.entries[fs.k..], p.Rest(), fs.rest, p.Room())
  }

  /** Appends the peeked name to the pointer. */
  method VisitName(p: Parser, buf: array<byte>, len: nat, ghost decide: Visit -> Flow, ghost base: seq<bool>, ghost fs: Frames)
    returns (r: Res<Turn>)
    requires p.Valid() && p.stash == [] && AtToken(Peeked(KeyToken, p.state, p.Rest()), p.Levels()) && p.src.Offset() < p.src.end
    requires len <= buf.Length && (p.stack.bits as object) != buf
    modifies p`state, p.src`pos, p.src`end, p.src`pending, p.src`out, buf
    ensures p.Valid() && (r.Ok? ==> r.value.len <= buf.Length && |p.Rest()| < |old(p.Rest())|)
    ensures old(AtName(p, fs, buf[..len], base)) ==>
              TurnDone(r, p, buf[..], fs, base, Bottom(fs), WalkRest(fs, |p.src.data|, buf.Length, decide), decide)
  {
    hide Shaped, PathOf, SynBytes, WalkRest, Follow, InEntry, InList, AtEntry, AtToken, EscapeToken, Bottom;
    ghost var ok := AtName(p, fs, buf[..len], base);
    ghost var es, rest := if ok then fs.c.entries[fs.k..] else [], if ok then fs.rest else [];
    if ok {
      NamePath(fs);
    }
    var n := AppendKey(p, buf, len, es, rest);
    r := if n.Ok? then Ok(Turn(None, n.value, [])) else Err(n.kind);
    if ok {
      if n.Ok? {
        assert buf[..][..n.value] == buf[..n.value];
        NothingVisited(WalkRest(fs, |p.src.data|, buf.Length, decide));
      } else {
        WalkTooLong(fs, |p.src.data|, buf.Length, decide);
      }
    }
  }

  lemma NothingVisited(w: Walked)
    ensures Follow(Walked([], ToTheEnd), w) == w
  {
  }

  lemma NamePath(fs: Frames)
    requires fs.Inside? && HasEntry(fs) && fs.c.obj
    ensures PathOf(fs) == fs.path + [SLASH] + EscapeToken(NameText(fs.c.entries[fs.k]))
  {
    hide EscapeToken, NameText;
  }

  // ---------- one turn ----------

  /** Between entries; or, at the start of the walk, before the value `c`. */
  ghost predicate Due(p: Parser, fs: Frames, c: Syn, text: bytes, base: seq<bool>)
    requires p.Valid()
    reads p, p.src, p.stack, p.stack.bits
  {
    if fs.Inside? then Ready(p, fs, text, base) else AtVisit(p, fs, c, fs.rest, text, base)
  }

  /** What remains of the walk then. */
  ghost function DueGoal(fs: Frames, c: Syn, size: nat, limit: nat, decide: Visit -> Flow): Walked {
    if fs.Inside? then WalkRest(fs, size, limit, decide) else ValueGoal(fs, c, fs.rest, size, limit, decide)
  }

  /** What was peeked: a name, the value `v`, or the closing bracket. */
  ghost predicate TurnPeeked(p: Parser, t: Token, fs: Frames, c: Syn, v: Syn, after: bytes, text: bytes, base: seq<bool>)
    requires p.Valid()
    reads p, p.src, p.stack, p.stack.bits
  {
    if t.KeyToken? then AtName(p, fs, text, base)
    else if t.EndObject? || t.EndArray? then AtEnd(p, t, fs, text, base)
    else IsValue(t) && AtVisit(p, fs, v, after, text, base) && (fs.Outside? ==> v == c)
  }

  /** What the buffer holds inside a container. */
  ghost predicate TextHeld(fs: Frames, text: bytes, colon: bool, first: bool) {
    fs.Inside? && fs.c.SContainer? && fs.k <= |fs.c.entries| &&
    if fs.c.obj then if colon then fs.k < |fs.c.entries| && text == PathOf(fs) else text == fs.path
    else (first <==> fs.k == 0) && text == if fs.k == 0 then fs.path else fs.path + IndexSegment(fs.k - 1)
  }

  lemma ReadyParts(p: Parser, fs: Frames, text: bytes, base: seq<bool>)
    requires p.Valid() && fs.Inside? && Ready(p, fs, text, base)
    ensures fs.c.SContainer? && fs.k <= |fs.c.entries| && Shaped(fs, p.Levels(), base, p.stack.Max())
    ensures TextHeld(fs, text, p.state.ObjColon?, p.state.ArrFirst?)
    ensures if fs.c.obj && p.state.ObjColon? then InEntry(p, true, fs.c.entries[fs.k..], fs.rest)
            else InList(p, fs.c.obj, fs.c.entries[fs.k..], fs.rest)
  {
    hide Shaped, InEntry, InList, PathOf, IndexSegment;
  }

  lemma EntryAtVisit(p: Parser, fs: Frames, text: bytes, base: seq<bool>) returns (after: bytes)
    requires p.Valid() && fs.Inside? && HasEntry(fs) && TextHeld(fs, text, fs.c.obj, p.state.ArrFirst?)
    requires Shaped(fs, p.Levels(), base, p.stack.Max())
    requires !p.state.ObjColon? && InEntry(p, fs.c.obj, fs.c.entries[fs.k..], fs.rest)
    ensures AtVisit(p, fs, fs.c.entries[fs.k].value, after, text, base)
  {
    hide ParseValue, SynBytes, AtToken, ValueAt, Shaped, PathOf, IndexSegment, AfterEntry;
    var s, room := p.Rest(), p.Room();
    ValueTokenIsValue(s[0]);
    SkipHere(Peeked(ValueToken(s[0]).value, p.state, s), p.Levels(), room);
    ParseValueSound(s, room);
    after := ParseValue(s, room).value.rest;
    ShapedTop(fs, p.Levels(), base, p.stack.Max());
    EntriesFit(fs.c, fs.k);
  }

  /** A closing bracket in an array comes right after the opening one, or after an element. */
  lemma CloseState(q: Peeked, levels: seq<bool>)
    requires AtToken(q, levels) && q.token.EndArray?
    ensures q.state.ArrComma? <==> !q.state.ArrFirst?
  {
  }

  lemma PeekedInside(p: Parser, t: Token, fs: Frames, c: Syn, text: bytes, base: seq<bool>, colon: bool)
    returns (v: Syn, after: bytes)
    requires p.Valid() && AtToken(Peeked(t, p.state, p.Rest()), p.Levels()) && TextHeld(fs, text, colon, p.state.ArrFirst?)
    requires Shaped(fs, p.Levels(), base, p.stack.Max())
    requires if fs.c.obj && colon then IsValue(t) && p.state == ObjValue && InEntry(p, true, fs.c.entries[fs.k..], fs.rest)
             else EntryPeeked(p, t, fs.c.obj, fs.c.entries[fs.k..], fs.rest)
    ensures TurnPeeked(p, t, fs, c, v, after, text, base)
  {
    hide AtToken, Shaped, InEntry, PathOf, IndexSegment, AtEntry, AtVisit;
    PeekedFacts(Peeked(t, p.state, p.Rest()), p.Levels());
    v, after := SNull, [];
    if IsValue(t) {
      v := fs.c.entries[fs.k].value;
      after := EntryAtVisit(p, fs, text, base);
    } else if t.EndArray? {
      CloseState(Peeked(t, p.state, p.Rest()), p.Levels());
    }
  }

  lemma StartParts(p: Parser, fs: Frames, v: Syn, after: bytes, text: bytes, base: seq<bool>)
    requires p.Valid() && AtVisit(p, fs, v, after, text, base) && fs.Outside?
    ensures PeekedValue(p) && ValueAt(p.state, p.Rest(), p.Levels(), p.Room()) == Some(Scanned(v, after)) && p.Rest() == SynBytes(v) + after
    ensures Before(fs, v, after, p.Room()) && InReach(fs, v, p.Levels(), base, p.stack.Max()) && TextAt(fs, text, false)
  {
    hide SynBytes, ValueAt, InReach, PeekedValue;
  }

  lemma StartPeeked(p: Parser, t: Token, fs: Frames, v: Syn, after: bytes, text: bytes, base: seq<bool>)
    requires p.Valid() && fs.Outside? && IsValue(t) && p.stash == [] && AtToken(Peeked(t, p.state, p.Rest()), p.Levels())
    requires ValueAt(p.state, p.Rest(), p.Levels(), p.Room()) == Some(Scanned(v, after)) && p.Rest() == SynBytes(v) + after
    requires Before(fs, v, after, p.Room()) && InReach(fs, v, p.Levels(), base, p.stack.Max()) && TextAt(fs, text, false)
    ensures TurnPeeked(p, t, fs, v, v, after, text, base)
  {
    hide SynBytes, ValueAt, InReach, AtToken;
    TokenFactsOf(Peeked(t, p.state, p.Rest()), p.Levels());
  }

  /** Peeks at what comes next in the walk. */
  method PeekTurn(p: Parser, ghost fs: Frames, ghost c: Syn, ghost text: bytes, ghost base: seq<bool>)
    returns (r: Res<Token>, ghost v: Syn, ghost after: bytes)
    requires p.Valid()
    modifies p`state, p`stash, p.src`pos, p.src`end, p.src`pending, p.src`out
    ensures p.Valid()
    ensures r.Ok? ==> AtToken(Peeked(r.value, p.state, p.Rest()), p.Levels()) && p.stash == [] && |p.Rest()| <= |old(p.Rest())|
    ensures r.Ok? && !r.value.Eof? ==> p.src.Offset() < p.src.end
    ensures old(Due(p, fs, c, text, base)) ==> r.Ok? && TurnPeeked(p, r.value, fs, c, v, after, text, base)
  {
    hide AtToken, Shaped, InList, InEntry, EntryPeeked, PeekedValue, TurnPeeked, TextHeld, Ready, AtVisit, ValueAt, SynBytes, Before, InReach, TextAt;
    ghost var due, colon := Due(p, fs, c, text, base), p.state.ObjColon?;
    if due {
      if fs.Inside? {
        ReadyParts(p, fs, text, base);
      } else {
        StartParts(p, fs, c, fs.rest, text, base);
      }
    }
    ghost var inside := fs.Inside? && fs.c.SContainer? && fs.k <= |fs.c.entries|;
    r := PeekEntry(p, inside && fs.c.obj, if inside then fs.c.entries[fs.k..] else [], if inside then fs.rest else []);
    v, after := c, fs.rest;
    if due {
      if fs.Inside? {
        v, after := PeekedInside(p, r.value, fs, c, text, base, colon);
      } else {
        StartPeeked(p, r.value, fs, c, fs.rest, text, base);
      }
    }
  }

  /** One turn of the loop. */
  method WalkTurn(p: Parser, buf: array<byte>, len: nat, depth: nat, decide: Visit -> Flow, ghost base: seq<bool>, ghost fs: Frames, ghost c: Syn)
    returns (r: Res<Turn>, ghost fs': Frames)
    requires p.Valid() && len <= buf.Length && depth == |base| && (p.stack.bits as object) != buf
    modifies p`state, p`stash, p.src`pos, p.src`end, p.src`pending, p.src`out, p.stack`depth, p.stack.bits, buf
    ensures p.Valid() && (r.Ok? ==> r.value.len <= buf.Length)
    ensures r.Ok? && r.value.done.None? ==> |p.Rest()| < |old(p.Rest())|
    ensures old(Due(p, fs, c, buf[..len], base)) ==>
              TurnDone(r, p, buf[..], fs', base, Bottom(fs), DueGoal(fs, c, |p.src.data|, buf.Length, decide), decide)
  {
    hide AtToken, Due, DueGoal, AtVisit, AtName, AtEnd, TurnDone, Bottom, WalkRest, ValueGoal;
    fs' := fs;
    ghost var due := Due(p, fs, c, buf[..len], base);
    var t, v, after := PeekTurn(p, fs, c, buf[..len], base);
    if t.Err? {
      r := Err(t.kind);
      return;
    }
    PeekedFacts(Peeked(t.value, p.state, p.Rest()), p.Levels());
    TokensElsewhere(Peeked(t.value, p.state, p.Rest()), p.Levels());
    if due {
      TurnGoal(p, t.value, fs, c, v, after, buf[..len], base, buf.Length, decide);
    }
    if t.value.KeyToken? {
      r := VisitName(p, buf, len, decide, base, fs);
    } else if t.value.EndObject? || t.value.EndArray? {
      r, fs' := VisitEnd(p, buf, len, depth, decide, t.value, base, fs);
    } else if t.value.Eof? {
      r := Err(UnexpectedToken);
    } else {
      r, fs' := VisitValue(p, buf, len, depth, decide, t.value, base, fs, v, after);
    }
  }

  lemma TurnGoal(p: Parser, t: Token, fs: Frames, c: Syn, v: Syn, after: bytes, text: bytes, base: seq<bool>, limit: nat, decide: Visit -> Flow)
    requires p.Valid() && TurnPeeked(p, t, fs, c, v, after, text, base)
    ensures !t.Eof?
    ensures t.KeyToken? || t.EndObject? || t.EndArray? ==> DueGoal(fs, c, |p.src.data|, limit, decide) == WalkRest(fs, |p.src.data|, limit, decide)
    ensures IsValue(t) ==> DueGoal(fs, c, |p.src.data|, limit, decide) == EntryGoal(fs, v, after, |p.src.data|, limit, decide)
  {
    hide SynBytes, WalkRest, WalkValue, Facing, PeekedValue, InReach, PathOf, Shaped, AtEntry, Follow;
    if IsValue(t) && fs.Inside? {
      if |PathOf(fs)| <= limit {
        WalkStep(fs, v, after, p.Room(), |p.src.data|, limit, decide);
      } else {
        WalkTooLong(fs, |p.src.data|, limit, decide);
      }
    } else if IsValue(t) {
      OutsidePath(fs);
    }
  }

  // ---------- the walk ----------

  /** Walks the next value: a callback for every value in it, in document order, and at the end of every container. True,
      unless the callback stopped the walk. `visits` are the callbacks made. */
  method Walk(p: Parser, buf: array<byte>, decide: Visit -> Flow, ghost c: Syn, ghost rest: bytes)
    returns (r: Res<bool>, visits: seq<Visit>)
    requires p.Valid() && (p.stack.bits as object) != buf
    modifies p`state, p`stash, p.src`pos, p.src`end, p.src`pending, p.src`out, p.stack`depth, p.stack.bits, buf
    ensures p.Valid()
    ensures old(Facing(p, c, rest)) && |p.src.data| <= USIZE_MAX ==>
              var walked := WalkValue(c, [], |p.src.data| - |SynBytes(c)| - |rest|, buf.Length, decide);
              visits == walked.visits &&
              match walked.ending
              case TooLong => r == Err(PathTooLong)
              case CutShort => r == Ok(false)
              case ToTheEnd => r == Ok(true) && p.Rest() == rest && p.Levels() == old(p.Levels()) && p.state == ValueDone(p.Levels())
  {
    hide Facing, SynBytes, WalkValue, ValueDone, AtToken, Due, DueGoal, Bottom, TurnDone, PeekedValue;
    ghost var base := p.Levels();
    ghost var ok := Facing(p, c, rest) && |p.src.data| <= USIZE_MAX;
    ghost var fs := Outside(rest);
    var depth, len: nat := p.stack.depth, 0;
    visits := [];
    var first := PeekValue(p, c, rest);
    if first.Err? {
      return Err(first.kind), visits;
    }
    if !IsValue(first.value) {
      return Err(UnexpectedToken), visits;
    }
    if ok {
      StartDue(p, c, rest, base, buf.Length, decide);
      assert buf[..len] == [];
    }
    ghost var goal := DueGoal(fs, c, |p.src.data|, buf.Length, decide);
    while true
      invariant p.Valid() && len <= buf.Length
      invariant ok ==> Due(p, fs, c, buf[..len], base) && Bottom(fs) == rest
      invariant ok ==> goal == Follow(Walked(visits, ToTheEnd), DueGoal(fs, c, |p.src.data|, buf.Length, decide))
      decreases |p.Rest()|
    {
      ghost var left := DueGoal(fs, c, |p.src.data|, buf.Length, decide);
      var turn;
      turn, fs := WalkTurn(p, buf, len, depth, decide, base, fs, c);
      if ok {
        AfterTurn(turn, p, buf[..], fs, c, base, rest, left, decide, visits);
      }
      if turn.Err? {
        return Err(turn.kind), visits;
      }
      visits := visits + turn.value.visits;
      if turn.value.done.Some? {
        return Ok(turn.value.done.value), visits;
      }
      len := turn.value.len;
      assert buf[..][..len] == buf[..len];
    }
  }

  /** The callbacks of a turn, after those made before it. */
  lemma AfterTurn(r: Res<Turn>, p: Parser, buf: bytes, fs: Frames, c: Syn, base: seq<bool>, rest: bytes, left: Walked, decide: Visit -> Flow,
                  before: seq<Visit>)
    requires p.Valid() && TurnDone(r, p, buf, fs, base, rest, left, decide)
    ensures var goal := Follow(Walked(before, ToTheEnd), left);
            match r
            case Err(kind) => kind == PathTooLong && goal == Walked(before, TooLong)
            case Ok(turn) =>
              var visits := before + turn.visits;
              turn.len <= |buf| &&
              match turn.done
              case None =>
                Due(p, fs, c, buf[..turn.len], base) && Bottom(fs) == rest &&
                goal == Follow(Walked(visits, ToTheEnd), DueGoal(fs, c, |p.src.data|, |buf|, decide))
              case Some(true) => goal == Walked(visits, ToTheEnd) && p.Rest() == rest && p.Levels() == base && p.state == ValueDone(base)
              case Some(false) => goal == Walked(visits, CutShort)
  {
    hide WalkRest, Shaped, InList, InEntry, PathOf, ValueDone, IndexSegment;
    if r.Ok? && r.value.done.None? {
      FollowFollow(Walked(before, ToTheEnd), Walked(r.value.visits, ToTheEnd), WalkRest(fs, |p.src.data|, |buf|, decide));
    }
  }

  lemma StartDue(p: Parser, c: Syn, rest: bytes, base: seq<bool>, limit: nat, decide: Visit -> Flow)
    requires p.Valid() && PeekedValue(p) && Facing(p, c, rest) && p.Rest() == SynBytes(c) + rest && p.Levels() == base
    requires |p.src.data| <= USIZE_MAX
    ensures Due(p, Outside(rest), c, [], base) && Bottom(Outside(rest)) == rest
    ensures Follow(Walked([], ToTheEnd), DueGoal(Outside(rest), c, |p.src.data|, limit, decide)) == DueGoal(Outside(rest), c, |p.src.data|, limit, decide)
    ensures DueGoal(Outside(rest), c, |p.src.data|, limit, decide) == WalkValue(c, [], |p.src.data| - |SynBytes(c)| - |rest|, limit, decide)
  {
    hide Facing, PeekedValue, SynBytes, WalkValue;
    NothingVisited(DueGoal(Outside(rest), c, |p.src.data|, limit, decide));
  }
}
