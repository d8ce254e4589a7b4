/** Seeking along a path: where it stops, and what the rest of the input is made of from there. */
module PathSeeking {
  import opened Bytes
  import opened StringGrammar
  import opened Grammar
  import opened Reader
  import opened Automaton
  import opened Paths
  import opened Results
  import opened Sources
  import opened TreeEdit
  import opened SynEdit
  import opened Patches
  import opened Parsing
  import opened Lists
  import opened Seeking
  import opened Stepping
  import opened Navigation
  import opened Trails

  /** The value that comes next is `c`, and `rest` follows it. */
  ghost predicate Facing(p: Parser, c: Syn, rest: bytes)
    requires p.Valid()
    reads p, p.src, p.stack, p.stack.bits
  {
    ValueAt(p.state, p.Rest(), p.Levels(), p.Room()) == Some(Scanned(c, rest))
  }

  lemma PeekFromFacts(state: State, s: bytes, levels: seq<bool>)
    requires Fits(state, levels) && PeekFrom(state, s, levels).Some?
    ensures AtToken(PeekFrom(state, s, levels).value, levels)
  {
    if state.InStr? {
      PeekFacts(StringDone(state.key, levels), ScanChars(s).value.rest, levels);
    } else {
      PeekFacts(state, s, levels);
    }
  }

  /** The token of a value tells whether it is a container; inside, its entries remain. */
  lemma TokenOfValue(t: Token, s: bytes, room: nat)
    requires s != [] && ValueToken(s[0]) == Some(t) && ParseValue(s, room).Some?
    ensures var v := ParseValue(s, room).value;
            (t.BeginObject? <==> v.item.SContainer? && v.item.obj) && (t.BeginArray? <==> v.item.SContainer? && !v.item.obj) &&
            (v.item.SContainer? ==>
               room > 0 && Remaining(First(v.item.obj), s[1..], v.item.obj, room - 1) == Some(Scanned(v.item.entries, v.rest)))
  {
    if s[0] == QUOTE || s[0] == MINUS || IsDigit(s[0]) {
    } else if s[0] == LBRACE || s[0] == LBRACKET {
      assert ParseContainer(s[0] == LBRACE, s[1..], room - 1).Some?;
    }
  }

  /** At a peeked value, whether it is a container. */
  lemma PeekedKind(state: State, s: bytes, levels: seq<bool>, room: nat, c: Syn, rest: bytes)
    requires Fits(state, levels) && ValueAt(state, s, levels, room) == Some(Scanned(c, rest))
    ensures PeekFrom(state, s, levels).Some?
    ensures var q := PeekFrom(state, s, levels).value;
            IsValue(q.token) && AtToken(q, levels) && q.rest == SynBytes(c) + rest && ParseValue(q.rest, room) == Some(Scanned(c, rest)) &&
            (q.token.BeginObject? <==> c.SContainer? && c.obj) && (q.token.BeginArray? <==> c.SContainer? && !c.obj) &&
            (c.SContainer? ==>
               room > 0 && Remaining(First(c.obj), q.rest[1..], c.obj, room - 1) == Some(Scanned(c.entries, rest)))
  {
    hide ParseValue, Remaining, SynBytes, AtToken;
    var q := PeekFrom(state, s, levels).value;
    PeekFromFacts(state, s, levels);
    TokenFactsOf(q, levels);
    TokenOfValue(q.token, q.rest, room);
    ParseValueSound(q.rest, room);
  }

  /** Peeks at the value; peeking changes nothing about it. */
  method PeekValue(p: Parser, ghost c: Syn, ghost rest: bytes) returns (r: Res<Token>)
    requires p.Valid()
    modifies p`state, p`stash, p.src`pos, p.src`end, p.src`pending, p.src`out
    ensures p.Valid()
    ensures r.Ok? ==> AtToken(Peeked(r.value, p.state, p.Rest()), p.Levels()) && p.stash == []
    ensures r.Ok? && !r.value.Eof? ==> p.src.Offset() < p.src.end
    ensures old(Facing(p, c, rest)) ==>
              r.Ok? && IsValue(r.value) && PeekedValue(p) && Facing(p, c, rest) && p.Rest() == SynBytes(c) + rest &&
              (r.value.BeginObject? <==> c.SContainer? && c.obj) && (r.value.BeginArray? <==> c.SContainer? && !c.obj)
  {
    hide ParseValue, PeekFrom, AtToken, SynBytes, Remaining;
    ghost var s, room, levels, state := p.Rest(), p.Room(), p.Levels(), p.state;
    if Facing(p, c, rest) {
      PeekedKind(state, s, levels, room, c, rest);
    }
    r := p.Peek();
    if r.Ok? {
      PeekedFacts(Peeked(r.value, p.state, p.Rest()), levels);
      if IsValue(r.value) {
        SkipHere(Peeked(r.value, p.state, p.Rest()), levels, room);
      }
    }
  }

  lemma PeekedNonempty(state: State, s: bytes, levels: seq<bool>)
    requires Fits(state, levels)
    ensures var q := PeekFrom(state, s, levels);
            q.Some? && (q.value.token.BeginObject? || q.value.token.BeginArray?) ==> q.value.rest != []
  {
    hide PeekFrom;
    if PeekFrom(state, s, levels).Some? {
      PeekFromFacts(state, s, levels);
      PeekedFacts(PeekFrom(state, s, levels).value, levels);
    }
  }

  /** Enters a container. */
  method EnterContainer(p: Parser, obj: bool, ghost c: Syn, ghost rest: bytes) returns (r: Res<()>)
    requires p.Valid()
    modifies p`state, p`stash, p.src`pos, p.src`end, p.src`pending, p.src`out, p.stack`depth, p.stack.bits
    ensures p.Valid()
    ensures r.Ok? ==> p.Levels() == old(p.Levels()) + [obj] && p.stash == [] && p.state == First(obj) && |p.Rest()| < |old(p.Rest())|
    ensures old(Facing(p, c, rest)) && c.SContainer? && c.obj == obj ==>
              r.Ok? && InList(p, obj, c.entries, rest)
  {
    hide ParseValue, PeekFrom, AtToken, SynBytes, Remaining;
    ghost var s, room, levels, state := p.Rest(), p.Room(), p.Levels(), p.state;
    if Facing(p, c, rest) {
      PeekedKind(state, s, levels, room, c, rest);
    }
    PeekFromShortens(state, s, levels);
    PeekedNonempty(state, s, levels);
    if obj {
      r := p.BeginObject();
    } else {
      r := p.BeginArray();
    }
  }

  // ---------- one step down ----------

  lemma AtChild(p: Parser, c: Syn, k: nat, rest: bytes) returns (after: bytes)
    requires p.Valid() && c.SContainer? && k < |c.entries|
    requires !p.state.ObjColon? && InEntry(p, c.obj, c.entries[k..], rest)
    ensures Facing(p, c.entries[k].value, after) && Inside(c, k, rest, after, p.Room())
  {
    hide ParseValue, ParseTail, SynBytes, AtToken, ValueAt, TailBytes;
    var s, room := p.Rest(), p.Room();
    var q := Peeked(ValueToken(s[0]).value, p.state, s);
    ValueTokenIsValue(s[0]);
    SkipHere(q, p.Levels(), room);
    after := ParseValue(s, room).value.rest;
    ChildLength(c, k, s, rest, room);
    ParseValueSound(s, room);
  }

  /** How far the value of entry `k` is from the start of its container. */
  lemma ChildLength(c: Syn, k: nat, s: bytes, rest: bytes, room: nat)
    requires c.SContainer? && k < |c.entries| && AtEntryValue(c.obj, c.entries[k..], s, rest, room)
    ensures |SynBytes(c)| + |rest| == |BeforeValue(c, k)| + |s|
  {
    hide SynBytes, AtEntryValue, BeforeValue;
    ValueLength(c.obj, c.entries[k..], s, rest, room);
    ContainerAt(c, k);
    assert c.entries[k..][1..] == c.entries[k + 1..];
  }

  /** At the closing bracket of the container that `rest` follows. */
  ghost predicate AtBracket(p: Parser, rest: bytes)
    requires p.Valid()
    reads p, p.src, p.stack, p.stack.bits
  {
    Top(p.Levels()).Some? &&
    var obj := Top(p.Levels()).value;
    AtClosing(obj, p.Rest(), rest) && AtToken(Peeked(if obj then EndObject else EndArray, p.state, p.Rest()), p.Levels())
  }

  /** The value `c` has no such child: it was not entered, or all of it was searched. */
  ghost predicate Missed(p: Parser, c: Syn, rest: bytes, levels: seq<bool>)
    requires p.Valid()
    reads p, p.src, p.stack, p.stack.bits
  {
    (p.Levels() == levels && Facing(p, c, rest)) || (c.SContainer? && p.Levels() == levels + [c.obj] && AtBracket(p, rest))
  }

  /** Goes to the member or element that `seg` designates in the next value. */
  method SeekTurn(p: Parser, seg: Seg, ghost c: Syn, ghost rest: bytes) returns (r: Res<bool>, ghost after: bytes)
    requires p.Valid()
    modifies p`state, p`stash, p.src`pos, p.src`end, p.src`pending, p.src`out, p.stack`depth, p.stack.bits
    ensures p.Valid()
    ensures old(Facing(p, c, rest)) ==>
              r == Ok(ChildOf(ToTree(c), seg).Some?) &&
              (r.value ==>
                 var k := ChildOf(ToTree(c), seg).value;
                 p.Levels() == old(p.Levels()) + [c.obj] && Facing(p, c.entries[k].value, after) &&
                 Inside(c, k, rest, after, p.Room())) &&
              (!r.value ==> Missed(p, c, rest, old(p.Levels())))
  {
    hide Facing, InEntry, InList, SegName, SegIndex, AtToken, Inside, SynBytes;
    after := [];
    ghost var facing := Facing(p, c, rest);
    var t := PeekValue(p, c, rest);
    if t.Err? {
      r := Err(t.kind);
    } else if t.value.BeginObject? {
      r, after := SeekMember(p, seg, c, rest);
    } else if t.value.BeginArray? {
      r, after := SeekElement(p, seg, c, rest);
    } else if IsValue(t.value) {
      r := Ok(false);
    } else {
      r := Err(UnexpectedToken);
    }
  }

  method SeekMember(p: Parser, seg: Seg, ghost c: Syn, ghost rest: bytes) returns (r: Res<bool>, ghost after: bytes)
    requires p.Valid()
    modifies p`state, p`stash, p.src`pos, p.src`end, p.src`pending, p.src`out, p.stack`depth, p.stack.bits
    ensures p.Valid()
    ensures old(Facing(p, c, rest)) && c.SContainer? && c.obj ==>
              r == Ok(ChildOf(ToTree(c), seg).Some?) &&
              (r.value ==>
                 var k := ChildOf(ToTree(c), seg).value;
                 p.Levels() == old(p.Levels()) + [c.obj] && Facing(p, c.entries[k].value, after) &&
                 Inside(c, k, rest, after, p.Room())) &&
              (!r.value ==> Missed(p, c, rest, old(p.Levels())))
  {
    hide Facing, InEntry, InList, SegName, AtToken, Inside, SynBytes, AtClosing;
    after := [];
    ghost var ok := Facing(p, c, rest) && c.SContainer? && c.obj;
    ghost var es := if c.SContainer? then c.entries else [];
    var e := EnterContainer(p, true, c, rest);
    if e.Err? {
      r := Err(e.kind);
    } else {
      r := FindMember(p, seg, es, rest);
      if ok && r == Ok(true) {
        after := AtChild(p, c, MemberIndex(ToMembers(es), SegName(seg)), rest);
      }
    }
  }

  method SeekElement(p: Parser, seg: Seg, ghost c: Syn, ghost rest: bytes) returns (r: Res<bool>, ghost after: bytes)
    requires p.Valid()
    modifies p`state, p`stash, p.src`pos, p.src`end, p.src`pending, p.src`out, p.stack`depth, p.stack.bits
    ensures p.Valid()
    ensures old(Facing(p, c, rest)) && c.SContainer? && !c.obj ==>
              r == Ok(ChildOf(ToTree(c), seg).Some?) &&
              (r.value ==>
                 var k := ChildOf(ToTree(c), seg).value;
                 p.Levels() == old(p.Levels()) + [c.obj] && Facing(p, c.entries[k].value, after) &&
                 Inside(c, k, rest, after, p.Room())) &&
              (!r.value ==> Missed(p, c, rest, old(p.Levels())))
  {
    hide Facing, InEntry, InList, SegIndex, AtToken, Inside, SynBytes, AtClosing;
    after := [];
    ghost var ok := Facing(p, c, rest) && c.SContainer? && !c.obj;
    ghost var es := if c.SContainer? then c.entries else [];
    var i := SegIndex(seg);
    if i.None? {
      r := Ok(false);
    } else {
      var e := EnterContainer(p, false, c, rest);
      if e.Err? {
        r := Err(e.kind);
      } else {
        r := NthElement(p, i.value, es, rest);
        if ok && r == Ok(true) {
          after := AtChild(p, c, i.value, rest);
        }
      }
    }
  }

  // ---------- along a path ----------

  /** The parser faces the value `v`, `off` bytes into `c`; closing what was entered on the way ends after `c`. */
  ghost predicate Reached(p: Parser, v: Syn, after: bytes, off: nat, c: Syn, rest: bytes, levels: seq<bool>)
    requires p.Valid()
    reads p, p.src, p.stack, p.stack.bits
  {
    Facing(p, v, after) && |SynBytes(c)| + |rest| == off + |SynBytes(v)| + |after| &&
    |levels| <= |p.Levels()| && p.Levels()[..|levels|] == levels &&
    RestOf(Unfinished(after, p.Levels(), |levels|, p.stack.Max())) == Some(rest)
  }

  /** The value that is as far along `path` as these levels are inside the outer ones. */
  ghost function OnTheWay(inner: seq<bool>, c: Syn, path: seq<Seg>, outer: seq<bool>): Option<Syn> {
    if outer <= inner && |inner| - |outer| <= |path| then
      match SeekSyn(c, path[..|inner| - |outer|]) case None => None case Some(l) => Some(l.value)
    else None
  }

  /** The search stopped before a value on the way, which was not entered; `after` follows it. */
  ghost predicate StuckBefore(p: Parser, c: Syn, rest: bytes, path: seq<Seg>, after: bytes, outer: seq<bool>)
    requires p.Valid()
    reads p, p.src, p.stack, p.stack.bits
  {
    var v := OnTheWay(p.Levels(), c, path, outer);
    v.Some? && Facing(p, v.value, after) && Left(after, p.Levels(), |outer|, p.stack.Max()) == Some(rest) &&
    Trail(p.src.data, c, rest, path, after, p.Levels(), |outer|, p.stack.Max())
  }

  /** The search stopped at the closing bracket of a value on the way. */
  ghost predicate StuckInside(p: Parser, c: Syn, rest: bytes, path: seq<Seg>, after: bytes, outer: seq<bool>)
    requires p.Valid()
    reads p, p.src, p.stack, p.stack.bits
  {
    OnTheWay(Pop(p.Levels()), c, path, outer).Some? && AtBracket(p, after) &&
    Trail(p.src.data, c, rest, path, after, Pop(p.Levels()), |outer|, p.stack.Max())
  }

  /** Goes to the value at `path` in the next value and peeks at it: true exactly when the lookup succeeds, and then the
      parser is at its first byte. */
  method SeekSegs(p: Parser, path: seq<Seg>, ghost c: Syn, ghost rest: bytes) returns (r: Res<bool>, ghost after: bytes)
    requires p.Valid()
    modifies p`state, p`stash, p.src`pos, p.src`end, p.src`pending, p.src`out, p.stack`depth, p.stack.bits
    ensures p.Valid()
    ensures old(Facing(p, c, rest)) ==>
              r == Ok(SeekSyn(c, path).Some?) &&
              (r.value ==>
                 var l := SeekSyn(c, path).value;
                 PeekedValue(p) && Reached(p, l.value, after, l.off, c, rest, old(p.Levels())) &&
                 p.Rest() == SynBytes(l.value) + after && |p.Levels()| == |old(p.Levels())| + |path| &&
                 Trail(p.src.data, c, rest, path, after, p.Levels(), |old(p.Levels())|, p.stack.Max())) &&
              (!r.value ==> StuckBefore(p, c, rest, path, after, old(p.Levels())) || StuckInside(p, c, rest, path, after, old(p.Levels())))
  {
    hide Facing, AtToken, Inside, SynBytes, ChildOf, ToTree, BeforeValue, SeekSyn, Along, Missed, StuckBefore, StuckInside, Trail, Reached;
    after := rest;
    ghost var ok, outer, v, off: nat, data, max := Facing(p, c, rest), p.Levels(), c, 0, p.src.data, p.stack.Max();
    if ok {
      FacingSuffix(p, c, rest);
      AlongStart(data, outer, max, c, rest, path);
    }
    for i := 0 to |path|
      invariant p.Valid()
      invariant ok ==> Facing(p, v, after) && Along(data, p.Levels(), max, v, after, off, c, rest, path, i, outer)
    {
      ghost var inner := p.Levels();
      if ok {
        AlongFacts(data, inner, max, v, after, off, c, rest, path, i, outer);
      }
      ghost var next;
      var found;
      found, next := SeekTurn(p, path[i], v, after);
      if found.Err? {
        return Err(found.kind), after;
      }
      if !found.value {
        if ok {
          StuckHere(p, inner, v, after, off, c, rest, path, i, outer);
        }
        return Ok(false), after;
      }
      if ok {
        ghost var k := ChildOf(ToTree(v), path[i]).value;
        ChildInText(v, path[i]);
        FacingSuffix(p, v.entries[k].value, next);
        AlongStep(data, inner, max, v, after, off, c, rest, path, i, outer, k, next);
        v, off, after := v.entries[k].value, off + |BeforeValue(v, k)|, next;
      }
    }
    var t := PeekValue(p, v, after);
    if ok {
      AlongFacts(data, p.Levels(), max, v, after, off, c, rest, path, |path|, outer);
      AlongEnd(p, v, after, off, c, rest, path, outer);
    }
    if t.Err? {
      r := Err(t.kind);
    } else {
      r := if IsValue(t.value) then Ok(true) else Err(UnexpectedToken);
    }
  }

  lemma FacingSuffix(p: Parser, c: Syn, rest: bytes)
    requires p.Valid() && Facing(p, c, rest)
    ensures IsSuffix(rest, p.src.data)
  {
    hide ValueAt, SynBytes;
    ValueSuffix(p.state, p.Rest(), p.Levels(), p.Room(), c, rest);
    SuffixTrans(rest, p.Rest(), p.src.data);
  }

  /** Whether the lookup goes on from the value that was reached. */
  lemma AlongFacts(data: bytes, inner: seq<bool>, max: nat, v: Syn, after: bytes, off: nat, c: Syn, rest: bytes, path: seq<Seg>, i: nat,
                   outer: seq<bool>)
    requires Along(data, inner, max, v, after, off, c, rest, path, i, outer)
    ensures i == |path| ==> SeekSyn(c, path) == Some(Located(off, v))
    ensures i < |path| && ChildOf(ToTree(v), path[i]).None? ==> SeekSyn(c, path) == None
  {
    hide SynBytes, ChildOf, ToTree, BeforeValue, SeekSyn, Trail, Left;
    if i == |path| {
      assert path[..i] == path;
    } else {
      SeekStep(v, path[i..]);
    }
  }

  lemma AlongEnd(p: Parser, v: Syn, after: bytes, off: nat, c: Syn, rest: bytes, path: seq<Seg>, outer: seq<bool>)
    requires p.Valid() && Facing(p, v, after) && Along(p.src.data, p.Levels(), p.stack.Max(), v, after, off, c, rest, path, |path|, outer)
    ensures Reached(p, v, after, off, c, rest, outer) && |p.Levels()| == |outer| + |path|
    ensures Trail(p.src.data, c, rest, path, after, p.Levels(), |outer|, p.stack.Max())
  {
    hide Facing, SynBytes, SeekSyn, Trail, Unfinished;
  }

  lemma StuckHere(p: Parser, inner: seq<bool>, v: Syn, after: bytes, off: nat, c: Syn, rest: bytes, path: seq<Seg>, i: nat, outer: seq<bool>)
    requires p.Valid() && Missed(p, v, after, inner)
    requires Along(p.src.data, inner, p.stack.Max(), v, after, off, c, rest, path, i, outer)
    ensures StuckBefore(p, c, rest, path, after, outer) || StuckInside(p, c, rest, path, after, outer)
  {
    hide Facing, AtBracket, SynBytes, SeekSyn, Trail, Left;
    if p.Levels() != inner {
      assert Pop(p.Levels()) == inner;
    }
    assert outer <= inner;
  }
}
