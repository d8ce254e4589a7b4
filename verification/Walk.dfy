/** The walk: one callback for every value and for the end of every container, with its pointer kept in one buffer. */
module Walking {
  import opened Bytes
  import opened StringGrammar
  import opened Numbers
  import opened Compare
  import opened Grammar
  import opened Reader
  import opened Automaton
  import opened Results
  import opened Sources
  import opened SynEdit
  import opened Parsing
  import opened Lists
  import opened Seeking
  import opened Stepping
  import opened PathSeeking
  import opened Pointers
  import opened Visits
  import opened WalkPaths

  // ---------- where the walk is ----------

  /** The containers that the walk is in, innermost first: entry `k` is next, or is being visited. `rest` follows. */
  datatype Frames =
    | Outside(rest: bytes)
    | Inside(c: Syn, k: nat, rest: bytes, path: bytes, outer: Frames)

  function Advance(fs: Frames): Frames {
    if fs.Inside? then fs.(k := fs.k + 1) else fs
  }

  /** The frame has an entry to visit. */
  predicate HasEntry(fs: Frames) {
    fs.Inside? ==> fs.c.SContainer? && fs.k < |fs.c.entries|
  }

  /** The pointer of that entry, or of the value that the walk started on. */
  function PathOf(fs: Frames): bytes
    requires HasEntry(fs)
  {
    if fs.Inside? then EntryPath(fs.c, fs.k, fs.path) else []
  }

  /** `after` follows the value of the entry. */
  ghost predicate Before(fs: Frames, v: Syn, after: bytes, room: nat) {
    HasEntry(fs) &&
    match fs
    case Outside(rest) => after == rest
    case Inside(c, k, rest, _, _) => v == c.entries[k].value && AfterEntry(c.obj, c.entries[k..], after, rest, room)
  }

  /** The frames are containers one inside the other, on the levels above `base`. */
  ghost predicate Shaped(fs: Frames, levels: seq<bool>, base: seq<bool>, max: nat)
    decreases fs
  {
    match fs
    case Outside(_) => levels == base
    case Inside(c, k, rest, path, outer) =>
      |base| < |levels| <= max && c.SContainer? && k <= |c.entries| && Top(levels) == Some(c.obj) && |SynBytes(c)| <= USIZE_MAX &&
      Shaped(outer, Pop(levels), base, max) && Before(outer, c, rest, max - |Pop(levels)|) && path == PathOf(outer)
  }

  /** What is still to be visited, in a document of this size. */
  function WalkRest(fs: Frames, size: nat, limit: nat, decide: Visit -> Flow): Walked
    decreases fs
  {
    match fs
    case Outside(_) => Walked([], ToTheEnd)
    case Inside(c, k, rest, path, outer) =>
      if c.SContainer? && k <= |c.entries| then
        Follow(WalkEntries(c, k, path, size - |SynBytes(c)| - |rest|, limit, decide), WalkOuter(outer, size, limit, decide))
      else Walked([], ToTheEnd)
  }

  /** What is to be visited after the entry. */
  function WalkOuter(fs: Frames, size: nat, limit: nat, decide: Visit -> Flow): Walked
    decreases fs, 0
  {
    match fs
    case Outside(_) => Walked([], ToTheEnd)
    case Inside(c, k, rest, path, outer) =>
      if c.SContainer? && k < |c.entries| then
        Follow(WalkEntries(c, k + 1, path, size - |SynBytes(c)| - |rest|, limit, decide), WalkOuter(outer, size, limit, decide))
      else Walked([], ToTheEnd)
  }

  lemma OuterIsAdvanced(fs: Frames, size: nat, limit: nat, decide: Visit -> Flow)
    requires HasEntry(fs)
    ensures WalkOuter(fs, size, limit, decide) == WalkRest(Advance(fs), size, limit, decide)
  {
  }

  lemma ShapedAdvance(fs: Frames, levels: seq<bool>, base: seq<bool>, max: nat)
    requires Shaped(fs, levels, base, max) && HasEntry(fs)
    ensures Shaped(Advance(fs), levels, base, max)
  {
    hide Before, PathOf;
  }

  lemma RestOfFrame(c: Syn, k: nat, rest: bytes, path: bytes, outer: Frames, size: nat, limit: nat, decide: Visit -> Flow)
    requires c.SContainer? && k <= |c.entries|
    ensures WalkRest(Inside(c, k, rest, path, outer), size, limit, decide)
         == Follow(WalkEntries(c, k, path, size - |SynBytes(c)| - |rest|, limit, decide), WalkOuter(outer, size, limit, decide))
  {
    hide SynBytes, WalkEntries, WalkOuter, Follow;
  }

  lemma FirstOfEntries(c: Syn, k: nat, path: bytes, off: int, limit: nat, decide: Visit -> Flow)
    requires c.SContainer? && k < |c.entries| && |EntryPath(c, k, path)| <= limit
    ensures WalkEntries(c, k, path, off, limit, decide)
         == Follow(WalkValue(c.entries[k].value, EntryPath(c, k, path), off + |BeforeValue(c, k)|, limit, decide),
                   WalkEntries(c, k + 1, path, off, limit, decide))
  {
    hide SynBytes, WalkValue, BeforeValue, EntryPath, Follow;
  }

  /** The walk of an entry, then of what comes after it. */
  lemma WalkStep(fs: Frames, v: Syn, after: bytes, room: nat, size: nat, limit: nat, decide: Visit -> Flow)
    requires Before(fs, v, after, room) && fs.Inside? && |PathOf(fs)| <= limit
    ensures WalkRest(fs, size, limit, decide)
         == Follow(WalkValue(v, PathOf(fs), size - |SynBytes(v)| - |after|, limit, decide), WalkRest(Advance(fs), size, limit, decide))
  {
    hide SynBytes, WalkValue, WalkEntries, WalkRest, WalkOuter, AfterEntry, BeforeValue, EntryPath, Follow;
    var c, k, off := fs.c, fs.k, size - |SynBytes(fs.c)| - |fs.rest|;
    AfterEntryOffset(c, k, after, fs.rest, room);
    RestOfFrame(c, k, fs.rest, fs.path, fs.outer, size, limit, decide);
    RestOfFrame(c, k + 1, fs.rest, fs.path, fs.outer, size, limit, decide);
    FirstOfEntries(c, k, fs.path, off, limit, decide);
    FollowFollow(WalkValue(v, PathOf(fs), off + |BeforeValue(c, k)|, limit, decide),
                 WalkEntries(c, k + 1, fs.path, off, limit, decide), WalkOuter(fs.outer, size, limit, decide));
  }

  /** ... or the end of the walk, when there is no room for its pointer. */
  lemma WalkTooLong(fs: Frames, size: nat, limit: nat, decide: Visit -> Flow)
    requires fs.Inside? && HasEntry(fs) && |PathOf(fs)| > limit
    ensures WalkRest(fs, size, limit, decide) == Walked([], TooLong)
  {
    hide SynBytes, WalkValue, EntryPath;
  }

  lemma AfterEntryOffset(c: Syn, k: nat, s: bytes, rest: bytes, room: nat)
    requires c.SContainer? && k < |c.entries| && AfterEntry(c.obj, c.entries[k..], s, rest, room)
    ensures |SynBytes(c)| + |rest| == |BeforeValue(c, k)| + |SynBytes(c.entries[k].value)| + |s|
  {
    hide SynBytes, BeforeValue, ParseTail, TailBytes;
    AfterLength(c.obj, c.entries[k..], s, rest, room);
    ContainerAt(c, k);
    assert c.entries[k..][1..] == c.entries[k + 1..];
  }

  /** Entering the value: what is visited inside it, then what comes after it. */
  lemma WalkInto(fs: Frames, v: Syn, after: bytes, path: bytes, size: nat, limit: nat, decide: Visit -> Flow)
    requires HasEntry(fs) && v.SContainer?
    ensures WalkRest(Inside(v, 0, after, path, fs), size, limit, decide)
         == Follow(WalkEntries(v, 0, path, size - |SynBytes(v)| - |after|, limit, decide), WalkRest(Advance(fs), size, limit, decide))
  {
    hide WalkEntries, SynBytes;
    OuterIsAdvanced(fs, size, limit, decide);
  }

  /** At the end of a container. */
  lemma WalkEnd(fs: Frames, size: nat, limit: nat, decide: Visit -> Flow)
    requires fs.Inside? && fs.c.SContainer? && fs.k == |fs.c.entries| && HasEntry(fs.outer)
    ensures WalkRest(fs, size, limit, decide)
         == Follow(Once(Visit(fs.path, EndToken(fs.c.obj), size - |fs.rest| - 1), decide), WalkRest(Advance(fs.outer), size, limit, decide))
  {
    hide SynBytes;
    OuterIsAdvanced(fs.outer, size, limit, decide);
  }

  // ---------- steps of the walk ----------

  /** At a token inside a container: before an entry or the closing bracket, or after a name. `text` is the pointer that
      the buffer holds; in an array it is that of the last element. */
  ghost predicate Between(p: Parser, fs: Frames, text: bytes)
    requires p.Valid()
    reads p, p.src, p.stack, p.stack.bits
  {
    fs.Inside? && fs.c.SContainer? && fs.k <= |fs.c.entries| &&
    if fs.c.obj then
      if p.state.ObjColon? then fs.k < |fs.c.entries| && InEntry(p, true, fs.c.entries[fs.k..], fs.rest) && text == PathOf(fs)
      else InList(p, true, fs.c.entries[fs.k..], fs.rest) && text == fs.path
    else
      InList(p, false, fs.c.entries[fs.k..], fs.rest) && (p.state.ArrFirst? <==> fs.k == 0) &&
      text == if fs.k == 0 then fs.path else fs.path + IndexSegment(fs.k - 1)
  }

  /** A value is about to be visited. */
  ghost predicate Arrived(p: Parser, fs: Frames, v: Syn, after: bytes)
    requires p.Valid()
    reads p, p.src, p.stack, p.stack.bits
  {
    PeekedValue(p) && Facing(p, v, after) && p.Rest() == SynBytes(v) + after && Before(fs, v, after, p.Room())
  }

  /** The value of the entry was consumed. */
  ghost predicate Completed(p: Parser, fs: Frames, after: bytes)
    requires p.Valid()
    reads p, p.src, p.stack, p.stack.bits
  {
    p.Rest() == after && p.state == ValueDone(p.Levels())
  }

  lemma NextEntry(p: Parser, fs: Frames, v: Syn, after: bytes, base: seq<bool>)
    requires p.Valid() && Shaped(fs, p.Levels(), base, p.stack.Max()) && Before(fs, v, after, p.Room()) && Completed(p, fs, after)
    ensures fs.Inside? ==>
              Top(p.Levels()) == Some(fs.c.obj) && InList(p, fs.c.obj, fs.c.entries[fs.k + 1..], fs.rest) &&
              !p.state.ObjColon? && !p.state.ArrFirst?
    ensures fs.Inside? <==> |p.Levels()| > |base|
    ensures fs.Outside? ==> p.Levels() == base
  {
    hide SynBytes, PathOf, Lists.Remaining, AfterEntry;
    if fs.Inside? {
      RemainingAfter(fs.c.obj, fs.c.entries[fs.k..], after, fs.rest, p.Room());
      assert fs.c.entries[fs.k..][1..] == fs.c.entries[fs.k + 1..];
    }
  }

  lemma PathParts(fs: Frames)
    requires HasEntry(fs) && fs.Inside?
    ensures LastSlash(PathOf(fs)) == |fs.path| && PathOf(fs)[..|fs.path|] == fs.path
    ensures !fs.c.obj ==> PathOf(fs) == fs.path + IndexSegment(fs.k)
  {
    hide ReferenceToken;
    TokenHasNoSlash(fs.c, fs.k);
    LastSlashOf(fs.path, ReferenceToken(fs.c, fs.k));
    IndexPath(fs.c, fs.k, fs.path);
  }

  lemma IndexPath(c: Syn, k: nat, path: bytes)
    requires c.SContainer? && k < |c.entries|
    ensures !c.obj ==> EntryPath(c, k, path) == path + IndexSegment(k)
  {
    hide Decimal;
    Cat3(path, [SLASH], Decimal(k));
  }

  /** Before the next entry, the buffer holds the pointer of the object, or of the last element. */
  lemma NextBetween(p: Parser, fs: Frames, v: Syn, after: bytes, base: seq<bool>)
    requires p.Valid() && Shaped(fs, p.Levels(), base, p.stack.Max()) && Before(fs, v, after, p.Room()) && Completed(p, fs, after)
    ensures fs.Inside? <==> |p.Levels()| > |base|
    ensures fs.Outside? ==> |p.Levels()| == |base|
    ensures fs.Inside? ==>
              Top(p.Levels()) == Some(fs.c.obj) && LastSlash(PathOf(fs)) == |fs.path| && PathOf(fs)[..|fs.path|] == fs.path &&
              Between(p, Advance(fs), if fs.c.obj then fs.path else PathOf(fs))
  {
    hide InList, InEntry, PathOf, IndexSegment, LastSlash, Shaped, Completed, SynBytes, ValueDone, Fits;
    NextEntry(p, fs, v, after, base);
    if fs.Inside? {
      PathParts(fs);
    }
  }

  /** A value is complete: the walk ends, or goes on with the next entry. */
  method Complete(p: Parser, buf: array<byte>, len: nat, depth: nat, ghost base: seq<bool>, ghost fs: Frames, ghost v: Syn, ghost after: bytes)
    returns (done: bool, len': nat)
    requires p.Valid() && len <= buf.Length && depth == |base|
    ensures len' <= buf.Length
    ensures HasEntry(fs) && Shaped(fs, p.Levels(), base, p.stack.Max()) && Before(fs, v, after, p.Room()) && Completed(p, fs, after) &&
            buf[..len] == PathOf(fs) ==>
              done == fs.Outside? && (!done ==> Between(p, Advance(fs), buf[..len']))
  {
    hide Between, PathOf, IndexSegment, Shaped, Before, LastSlash;
    if HasEntry(fs) && Shaped(fs, p.Levels(), base, p.stack.Max()) && Before(fs, v, after, p.Room()) && Completed(p, fs, after) {
      NextBetween(p, fs, v, after, base);
    }
    done, len' := p.stack.depth == depth, len;
    if !done {
      var top := p.stack.Top();
      if top == Some(true) {
        len' := PopSegment(buf, len);
        assert buf[..len'] == buf[..len][..len'];
      }
    }
  }

  /** Appends the peeked name to the pointer. Also when it turns out too long, the parser is after the name then. */
  method AppendKey(p: Parser, buf: array<byte>, len: nat, ghost es: seq<Entry>, ghost rest: bytes) returns (r: Res<nat>)
    requires p.Valid() && p.stash == [] && AtToken(Peeked(KeyToken, p.state, p.Rest()), p.Levels()) && p.src.Offset() < p.src.end
    requires len <= buf.Length && (p.stack.bits as object) != buf
    modifies p`state, p.src`pos, p.src`end, p.src`pending, p.src`out, buf
    ensures p.Valid() && p.Levels() == old(p.Levels()) && (r.Ok? ==> r.value <= buf.Length && |p.Rest()| < |old(p.Rest())|)
    ensures old(AtEntry(true, es, p.Rest(), rest, p.Room())) ==>
              es != [] &&
              var path := old(buf[..len]) + [SLASH] + EscapeToken(NameText(es[0]));
              (if |path| <= buf.Length then r == Ok(|path|) && buf[..|path|] == path else r == Err(PathTooLong)) &&
              (if len < buf.Length then InEntry(p, true, es, rest) && p.state == ObjColon else p.state == InStr(true))
  {
    hide ScanChars, CharsText, EscapeToken, AtEntry, AtEntryColon, AtEntryValue, AtToken, Fits;
    TokenFactsOf(Peeked(KeyToken, p.state, p.Rest()), p.Levels());
    NameFitsObject(p.Levels());
    if AtEntry(true, es, p.Rest(), rest, p.Room()) {
      NameThenColon(es, p.Rest(), rest, p.Room());
    }
    ghost var s := p.Rest();
    p.src.Consume(1);
    ScanBound(p.Rest());
    var consumed;
    r, consumed := AppendName(p.src, buf, len);
    p.state := if consumed then ObjColon else InStr(true);
  }

  lemma ScanBound(s: bytes)
    ensures ScanChars(s).Some? ==> |ScanChars(s).value.rest| < |s|
  {
  }

  /** Skips a value that was visited. */
  method SkipVisited(p: Parser, ghost fs: Frames, ghost v: Syn, ghost after: bytes) returns (r: Res<()>)
    requires p.Valid()
    modifies p`state, p`stash, p.src`pos, p.src`end, p.src`pending, p.src`out, p.stack`depth, p.stack.bits
    ensures p.Valid() && (r.Ok? ==> p.Levels() == old(p.Levels()) && |p.Rest()| < |old(p.Rest())|)
    ensures old(Arrived(p, fs, v, after)) ==> r.Ok? && Completed(p, fs, after)
  {
    hide SynBytes, AtToken, ParseValue, ValueDone, SkipFrom, PeekFrom, Before;
    SkipShortens(p.state, p.Rest(), p.Levels(), p.Room());
    if Arrived(p, fs, v, after) {
      ArrivedSkips(p, fs, v, after);
    }
    r := p.SkipValue();
  }

  lemma ArrivedSkips(p: Parser, fs: Frames, v: Syn, after: bytes)
    requires p.Valid() && Arrived(p, fs, v, after)
    ensures SkipFrom(p.state, p.Rest(), p.Levels(), p.Room()) == Some(Scanned(ValueDone(p.Levels()), after))
    ensures ValueToken(p.Rest()[0]) == Some(TokenOf(v))
  {
    hide SynBytes, ParseValue, ValueDone, Before;
    ValueTokenIsValue(p.Rest()[0]);
    SkipHere(Peeked(ValueToken(p.Rest()[0]).value, p.state, p.Rest()), p.Levels(), p.Room());
    KindByToken(p.Rest(), p.Room());
  }

  /** The token of a value tells its kind. */
  lemma KindByToken(s: bytes, room: nat)
    requires ParseValue(s, room).Some?
    ensures s != [] && ValueToken(s[0]) == Some(TokenOf(ParseValue(s, room).value.item))
  {
    ValueStarts(s, room);
    TokenOfValue(ValueToken(s[0]).value, s, room);
    ScalarForms(s, room);
    if ValueToken(s[0]) == Some(BoolToken) || ValueToken(s[0]) == Some(NullToken) {
      LiteralByStart(s);
    }
  }

  datatype Turn = Turn(done: Option<bool>, len: nat, visits: seq<Visit>)

  /** The walk goes on from here. */
  ghost predicate Ready(p: Parser, fs: Frames, text: bytes, base: seq<bool>)
    requires p.Valid()
    reads p, p.src, p.stack, p.stack.bits
  {
    Shaped(fs, p.Levels(), base, p.stack.Max()) && Between(p, fs, text)
  }

  /** The input after the value that the walk started on. */
  function Bottom(fs: Frames): bytes {
    match fs case Outside(rest) => rest case Inside(_, _, _, _, outer) => Bottom(outer)
  }

  /** What one turn does for a walk of which `goal` remains: the callbacks made, and what remains then. */
  ghost predicate TurnDone(r: Res<Turn>, p: Parser, buf: bytes, fs: Frames, base: seq<bool>, rest: bytes, goal: Walked, decide: Visit -> Flow)
    requires p.Valid()
    reads p, p.src, p.stack, p.stack.bits
  {
    match r
    case Err(kind) => kind == PathTooLong && goal == Walked([], TooLong)
    case Ok(turn) =>
      turn.len <= |buf| &&
      match turn.done
      case None =>
        Ready(p, fs, buf[..turn.len], base) && Bottom(fs) == rest &&
        goal == Follow(Walked(turn.visits, ToTheEnd), WalkRest(fs, |p.src.data|, |buf|, decide))
      case Some(true) => goal == Walked(turn.visits, ToTheEnd) && p.Rest() == rest && p.Levels() == base && p.state == ValueDone(base)
      case Some(false) => goal == Walked(turn.visits, CutShort)
  }

  /** The callback said to go on, and the entry is complete. */
  lemma GoalAfter(fs: Frames, visit: Visit, size: nat, limit: nat, decide: Visit -> Flow)
    requires HasEntry(fs) && decide(visit) != Stop
    ensures Follow(Once(visit, decide), WalkRest(Advance(fs), size, limit, decide))
         == Follow(Walked([visit], ToTheEnd), WalkRest(Advance(fs), size, limit, decide))
    ensures fs.Outside? ==> Follow(Once(visit, decide), WalkRest(Advance(fs), size, limit, decide)) == Walked([visit], ToTheEnd)
  {
  }

  /** The value of the entry was consumed, and the buffer holds its pointer. */
  ghost predicate Passed(p: Parser, fs: Frames, v: Syn, after: bytes, text: bytes, base: seq<bool>)
    requires p.Valid()
    reads p, p.src, p.stack, p.stack.bits
  {
    HasEntry(fs) && Shaped(fs, p.Levels(), base, p.stack.Max()) && Before(fs, v, after, p.Room()) &&
    Completed(p, fs, after) && text == PathOf(fs)
  }

  /** After a visit that does not enter the value: on with the next entry, or the end of the walk. */
  method Onward(p: Parser, buf: array<byte>, len: nat, depth: nat, visit: Visit, ghost decide: Visit -> Flow, ghost base: seq<bool>,
                ghost fs: Frames, ghost v: Syn, ghost after: bytes, ghost goal: Walked)
    returns (r: Res<Turn>, ghost fs': Frames)
    requires p.Valid() && len <= buf.Length && depth == |base|
    ensures r.Ok? && r.value.len <= buf.Length && r.value.done != Some(false)
    ensures Passed(p, fs, v, after, buf[..len], base) && decide(visit) != Stop &&
            goal == Follow(Once(visit, decide), WalkRest(Advance(fs), |p.src.data|, buf.Length, decide)) ==>
              TurnDone(r, p, buf[..], fs', base, Bottom(fs), goal, decide)
  {
    hide Between, PathOf, Shaped, Before, WalkRest, Follow, Once;
    fs' := Advance(fs);
    var done, len' := Complete(p, buf, len, depth, base, fs, v, after);
    r := Ok(Turn(if done then Some(true) else None, len', [visit]));
    if Passed(p, fs, v, after, buf[..len], base) && decide(visit) != Stop {
      ShapedAdvance(fs, p.Levels(), base, p.stack.Max());
      GoalAfter(fs, visit, |p.src.data|, buf.Length, decide);
      OutsideEnds(fs, v, after, p.Room(), p.Levels(), base, p.stack.Max());
      assert buf[..][..len'] == buf[..len'];
    }
  }

  lemma OutsideEnds(fs: Frames, v: Syn, after: bytes, room: nat, levels: seq<bool>, base: seq<bool>, max: nat)
    requires Before(fs, v, after, room) && Shaped(fs, levels, base, max)
    ensures fs.Outside? ==> after == Bottom(fs) && levels == base
    ensures Bottom(Advance(fs)) == Bottom(fs)
  {
  }

  // ---------- visits ----------

  /** What the buffer holds when a value is reached. */
  ghost predicate TextAt(fs: Frames, text: bytes, first: bool) {
    HasEntry(fs) &&
    match fs
    case Outside(_) => text == []
    case Inside(c, k, _, path, _) =>
      if c.obj then text == PathOf(fs)
      else (first <==> k == 0) && text == (if k == 0 then path else path + IndexSegment(k - 1))
  }

  /** Completes the pointer of the value that was reached: in an array, with the next index. */
  method PathForValue(buf: array<byte>, len: nat, inArray: bool, first: bool, ghost fs: Frames) returns (r: Res<nat>)
    requires len <= buf.Length
    modifies buf
    ensures r.Ok? ==> r.value <= buf.Length
    ensures TextAt(fs, old(buf[..len]), first) && (inArray <==> fs.Inside? && !fs.c.obj) && (fs.Inside? ==> fs.k <= USIZE_MAX) ==>
              if |PathOf(fs)| <= buf.Length then r == Ok(|PathOf(fs)|) && buf[..|PathOf(fs)|] == PathOf(fs)
              else r == Err(PathTooLong)
  {
    hide PathOf, IndexSegment, LastSlash;
    if TextAt(fs, buf[..len], first) {
      if fs.Inside? {
        PathParts(fs);
      } else {
        OutsidePath(fs);
      }
    }
    r := Ok(len);
    if inArray {
      var n := NextIndex(buf, len, first, if fs.Inside? then fs.path else [], if fs.Inside? then fs.k else 0);
      r := if n.Some? then Ok(n.value) else Err(PathTooLong);
    }
  }

  lemma OutsidePath(fs: Frames)
    requires fs.Outside?
    ensures PathOf(fs) == []
  {
  }

  lemma ShapedTop(fs: Frames, levels: seq<bool>, base: seq<bool>, max: nat)
    requires Shaped(fs, levels, base, max)
    ensures fs.Inside? <==> |levels| > |base|
    ensures fs.Inside? ==> Top(levels) == Some(fs.c.obj) && fs.c.SContainer? && |SynBytes(fs.c)| <= USIZE_MAX
  {
    hide SynBytes, Before, PathOf;
  }

  /** The value of the entry is inside these frames. */
  ghost predicate InReach(fs: Frames, v: Syn, levels: seq<bool>, base: seq<bool>, max: nat) {
    HasEntry(fs) && Shaped(fs, levels, base, max) && |SynBytes(v)| <= USIZE_MAX
  }

  /** The value was reached, and the buffer holds its pointer. */
  ghost predicate Named(p: Parser, fs: Frames, v: Syn, after: bytes, text: bytes, base: seq<bool>)
    requires p.Valid()
    reads p, p.src, p.stack, p.stack.bits
  {
    Arrived(p, fs, v, after) && InReach(fs, v, p.Levels(), base, p.stack.Max()) && text == PathOf(fs)
  }

  /** The visit of that value, in a document of this size. */
  function VisitOf(fs: Frames, v: Syn, after: bytes, size: nat): Visit {
    Visit(if HasEntry(fs) then PathOf(fs) else [], TokenOf(v), size - |SynBytes(v)| - |after|)
  }

  /** What remains of the walk when that value is next. */
  ghost function ValueGoal(fs: Frames, v: Syn, after: bytes, size: nat, limit: nat, decide: Visit -> Flow): Walked {
    var visit := VisitOf(fs, v, after, size);
    Follow(WalkValue(v, visit.path, visit.offset, limit, decide), WalkRest(Advance(fs), size, limit, decide))
  }

  /** What a visit of a value leaves to be done, by what the callback says. */
  ghost predicate VisitLeaves(fs: Frames, v: Syn, after: bytes, size: nat, limit: nat, decide: Visit -> Flow) {
    HasEntry(fs) &&
    var visit, goal := VisitOf(fs, v, after, size), ValueGoal(fs, v, after, size, limit, decide);
    match decide(visit)
    case Stop => goal == Walked([visit], CutShort)
    case Skip => goal == Follow(Once(visit, decide), WalkRest(Advance(fs), size, limit, decide))
    case Continue =>
      if v.SContainer? then goal == Follow(Walked([visit], ToTheEnd), WalkRest(Inside(v, 0, after, PathOf(fs), fs), size, limit, decide))
      else goal == Follow(Once(visit, decide), WalkRest(Advance(fs), size, limit, decide))
  }

  lemma VisitGoal(fs: Frames, v: Syn, after: bytes, size: nat, limit: nat, decide: Visit -> Flow)
    requires HasEntry(fs)
    ensures VisitLeaves(fs, v, after, size, limit, decide)
  {
    hide SynBytes, WalkEntries, WalkRest, PathOf, TokenOf;
    var visit := VisitOf(fs, v, after, size);
    if decide(visit) == Continue && v.SContainer? {
      var inside := WalkEntries(v, 0, visit.path, visit.offset, limit, decide);
      FollowFollow(Once(visit, decide), inside, WalkRest(Advance(fs), size, limit, decide));
      WalkInto(fs, v, after, PathOf(fs), size, limit, decide);
    }
  }

  lemma NamedFacts(p: Parser, fs: Frames, v: Syn, after: bytes, text: bytes, base: seq<bool>)
    requires p.Valid() && Named(p, fs, v, after, text, base)
    ensures Arrived(p, fs, v, after) && Before(fs, v, after, p.Room()) && Facing(p, v, after)
    ensures HasEntry(fs) && Shaped(fs, p.Levels(), base, p.stack.Max()) && |SynBytes(v)| <= USIZE_MAX && text == PathOf(fs)
    ensures v.SContainer? <==> TokenOf(v).BeginObject? || TokenOf(v).BeginArray?
    ensures v.SContainer? ==> (TokenOf(v).BeginObject? <==> v.obj)
  {
    hide SynBytes, PathOf, Shaped, Before, Facing, PeekedValue;
  }

  /** After the callback: enters the container, or skips the value. */
  method AfterVisit(p: Parser, buf: array<byte>, len: nat, depth: nat, decide: Visit -> Flow, visit: Visit, ghost base: seq<bool>,
                    ghost fs: Frames, ghost v: Syn, ghost after: bytes)
    returns (r: Res<Turn>, ghost fs': Frames)
    requires p.Valid() && len <= buf.Length && depth == |base| && (p.stack.bits as object) != buf
    modifies p`state, p`stash, p.src`pos, p.src`end, p.src`pending, p.src`out, p.stack`depth, p.stack.bits
    ensures p.Valid() && (r.Ok? ==> r.value.len <= buf.Length)
    ensures r.Ok? && r.value.done.None? ==> |p.Rest()| < |old(p.Rest())|
    ensures old(Named(p, fs, v, after, buf[..len], base)) && visit == VisitOf(fs, v, after, |p.src.data|) ==>
              TurnDone(r, p, buf[..], fs', base, Bottom(fs), ValueGoal(fs, v, after, |p.src.data|, buf.Length, decide), decide)
  {
    hide Shaped, PathOf, SynBytes, WalkRest, Follow, Once, TokenOf, Facing, Before, Completed, TurnDone, Arrived, Named, ValueGoal;
    ghost var ok := Named(p, fs, v, after, buf[..len], base) && visit == VisitOf(fs, v, after, |p.src.data|);
    ghost var goal := ValueGoal(fs, v, after, |p.src.data|, buf.Length, decide);
    if ok {
      NamedFacts(p, fs, v, after, buf[..len], base);
      VisitGoal(fs, v, after, |p.src.data|, buf.Length, decide);
    }
    fs' := fs;
    var flow := decide(visit);
    if flow == Stop {
      r := Ok(Turn(Some(false), len, [visit]));
      if ok {
        Stopped(r, p, buf[..], fs', base, Bottom(fs), goal, decide, visit);
      }
    } else if flow == Continue && (visit.token.BeginObject? || visit.token.BeginArray?) {
      r := EnterVisited(p, buf, len, visit, decide, base, fs, v, after, goal);
      fs' := if ok then Inside(v, 0, after, PathOf(fs), fs) else fs;
    } else {
      var skipped := SkipVisited(p, fs, v, after);
      if skipped.Err? {
        r := Err(skipped.kind);
      } else {
        r, fs' := Onward(p, buf, len, depth, visit, decide, base, fs, v, after, goal);
      }
    }
  }

  lemma Stopped(r: Res<Turn>, p: Parser, buf: bytes, fs: Frames, base: seq<bool>, rest: bytes, goal: Walked, decide: Visit -> Flow, visit: Visit)
    requires p.Valid() && r.Ok? && r.value.len <= |buf| && r.value.done == Some(false) && goal == Walked(r.value.visits, CutShort)
    ensures TurnDone(r, p, buf, fs, base, rest, goal, decide)
  {
  }

  /** Enters the container that was visited. */
  method EnterVisited(p: Parser, buf: array<byte>, len: nat, visit: Visit, ghost decide: Visit -> Flow, ghost base: seq<bool>,
                      ghost fs: Frames, ghost v: Syn, ghost after: bytes, ghost goal: Walked)
    returns (r: Res<Turn>)
    requires p.Valid() && len <= buf.Length && (visit.token.BeginObject? || visit.token.BeginArray?) && (p.stack.bits as object) != buf
    modifies p`state, p`stash, p.src`pos, p.src`end, p.src`pending, p.src`out, p.stack`depth, p.stack.bits
    ensures p.Valid() && (r.Ok? ==> r.value.len <= buf.Length)
    ensures r.Ok? ==> |p.Rest()| < |old(p.Rest())|
    ensures old(Named(p, fs, v, after, buf[..len], base)) && visit.token == TokenOf(v) && HasEntry(fs) &&
            goal == Follow(Walked([visit], ToTheEnd), WalkRest(Inside(v, 0, after, PathOf(fs), fs), |p.src.data|, buf.Length, decide)) ==>
              TurnDone(r, p, buf[..], Inside(v, 0, after, PathOf(fs), fs), base, Bottom(fs), goal, decide)
  {
    hide Shaped, PathOf, SynBytes, WalkRest, Follow, TokenOf, Before, InList, Between, Facing, Arrived, Named;
    ghost var levels, room := p.Levels(), p.Room();
    ghost var ok := Named(p, fs, v, after, buf[..len], base) && visit.token == TokenOf(v);
    if ok {
      NamedFacts(p, fs, v, after, buf[..len], base);
    }
    var e := EnterContainer(p, visit.token.BeginObject?, v, after);
    r := if e.Ok? then Ok(Turn(None, len, [visit])) else Err(e.kind);
    if ok {
      ShapedInside(fs, v, after, levels, base, p.stack.Max(), room);
      FirstBetween(p, Inside(v, 0, after, PathOf(fs), fs), PathOf(fs));
      assert buf[..][..len] == buf[..len];
    }
  }

  lemma ShapedInside(fs: Frames, v: Syn, after: bytes, levels: seq<bool>, base: seq<bool>, max: nat, room: nat)
    requires Shaped(fs, levels, base, max) && Before(fs, v, after, room) && v.SContainer? && |SynBytes(v)| <= USIZE_MAX
    requires |levels| < max && room == max - |levels| && HasEntry(fs)
    ensures Shaped(Inside(v, 0, after, PathOf(fs), fs), levels + [v.obj], base, max)
  {
    hide SynBytes, Before, PathOf;
    assert Pop(levels + [v.obj]) == levels;
    ShapedTop(fs, levels, base, max);
  }

  lemma FirstBetween(p: Parser, fs: Frames, text: bytes)
    requires p.Valid() && fs.Inside? && fs.c.SContainer? && fs.k == 0 && InList(p, fs.c.obj, fs.c.entries, fs.rest) && text == fs.path
    requires p.state == First(fs.c.obj)
    ensures Between(p, fs, text)
  {
    hide InList, InEntry;
    assert fs.c.entries[0..] == fs.c.entries;
  }
}
