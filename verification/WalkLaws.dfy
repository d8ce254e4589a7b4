/** What a walk visits, whatever the callback says: everything that is not inside a skipped container, up to a Stop. */
module WalkLaws {
  import opened Bytes
  import opened StringGrammar
  import opened Numbers
  import opened Grammar
  import opened Automaton
  import opened SynEdit
  import opened Pointers
  import opened Visits

  /** `v` is `c` or a value inside it, and starts at offset `at` when `c` starts at `off`. */
  ghost predicate Holds(c: Syn, off: int, v: Syn, at: int)
    decreases c
  {
    (v == c && at == off) ||
    (c.SContainer? && exists k :: 0 <= k < |c.entries| && Holds(c.entries[k].value, off + |BeforeValue(c, k)|, v, at))
  }

  /** The token of a value tells its kind, in a visit as well as when it is peeked. */
  lemma TokenTellsKind(c: Syn)
    requires Wf(c)
    ensures var kind := match ToTree(c)
                        case Null => NullToken
                        case Bool(_) => BoolToken
                        case Number(_) => NumberToken
                        case String(_) => StringToken
                        case Array(_) => BeginArray
                        case Object(_) => BeginObject;
            TokenOf(c) == kind && SynBytes(c) != [] && ValueToken(SynBytes(c)[0]) == Some(kind)
  {
    hide CharsBytes, CharsText, ToMembers, ToElems, ListBytes;
    if c.SNumber? {
      NumberStart(c.text);
    }
  }

  // ---------- where values are ----------

  /** The values of the entries lie between the brackets, one after the other. */
  lemma SpanInside(c: Syn, k: nat)
    requires c.SContainer? && k < |c.entries|
    ensures 1 <= EntryStart(c, k) <= |BeforeValue(c, k)|
    ensures |BeforeValue(c, k)| + |SynBytes(c.entries[k].value)| == EntryStart(c, k + 1) < |SynBytes(c)|
  {
    hide BeforeValue, SynBytes;
    EntryStarts(c, k);
    if k == 0 {
      StartAfterBracket(c);
    } else {
      SpanInside(c, k - 1);
    }
    ContainerAt(c, k);
  }

  lemma StartAfterBracket(c: Syn)
    requires c.SContainer? && c.entries != []
    ensures |BeforeValue(c, 0)| >= 1
  {
    hide SynBytes;
  }

  lemma EntriesApart(c: Syn, j: nat, k: nat)
    requires c.SContainer? && j <= k < |c.entries|
    ensures EntryStart(c, j) <= |BeforeValue(c, k)|
    decreases k - j
  {
    hide BeforeValue, SynBytes;
    SpanInside(c, j);
    if j < k {
      EntriesApart(c, j + 1, k);
    }
  }

  lemma HeldInside(c: Syn, off: int, v: Syn, at: int)
    requires Holds(c, off, v, at)
    ensures off <= at && at + |SynBytes(v)| <= off + |SynBytes(c)|
    decreases c
  {
    hide BeforeValue, SynBytes;
    if !(v == c && at == off) {
      var k :| 0 <= k < |c.entries| && Holds(c.entries[k].value, off + |BeforeValue(c, k)|, v, at);
      SpanInside(c, k);
      HeldInside(c.entries[k].value, off + |BeforeValue(c, k)|, v, at);
    }
  }

  // ---------- Skip ----------

  /** No visit lies at `lo` or later, but before `hi`. */
  ghost predicate Outside(vs: seq<Visit>, lo: int, hi: int) {
    forall i :: 0 <= i < |vs| ==> !(lo <= vs[i].offset < hi)
  }

  /** If the value with this token at `at` is visited, but not entered, no other visit lies before `end`. */
  ghost predicate Silent(vs: seq<Visit>, decide: Visit -> Flow, token: Token, at: int, end: int) {
    forall i :: 0 <= i < |vs| && vs[i].offset == at && vs[i].token == token && decide(vs[i]) != Continue ==> Outside(vs, at + 1, end)
  }

  lemma SilentFirst(a: Walked, b: Walked, decide: Visit -> Flow, token: Token, at: int, end: int)
    requires Silent(a.visits, decide, token, at, end) && Outside(b.visits, at, end) && at < end
    ensures Silent(Follow(a, b).visits, decide, token, at, end)
  {
  }

  lemma SilentSecond(a: Walked, b: Walked, decide: Visit -> Flow, token: Token, at: int, end: int)
    requires Outside(a.visits, at, end) && Silent(b.visits, decide, token, at, end) && at < end
    ensures Silent(Follow(a, b).visits, decide, token, at, end)
  {
  }

  lemma RisingOutside(vs: seq<Visit>, lo: int, hi: int, at: int, end: int)
    requires Rising(vs, lo, hi) && (hi <= at || end <= lo)
    ensures Outside(vs, at, end)
  {
  }

  lemma SilentWhenOutside(vs: seq<Visit>, decide: Visit -> Flow, token: Token, at: int, end: int)
    requires Outside(vs, at, end) && at < end
    ensures Silent(vs, decide, token, at, end)
  {
  }

  /** A container that the callback does not want to enter is skipped without further callbacks: neither a value in it nor its
      end is visited. */
  lemma {:induction false} SkipIsSilent(c: Syn, path: bytes, off: int, limit: nat, decide: Visit -> Flow, v: Syn, at: int)
    requires Wf(c) && Holds(c, off, v, at)
    ensures Silent(WalkValue(c, path, off, limit, decide).visits, decide, TokenOf(v), at, at + |SynBytes(v)|)
    decreases c, 1, 0
  {
    hide WalkEntries, SynBytes, Wf, BeforeValue, Rising, Silent, Outside;
    HeldInside(c, off, v, at);
    var first := Once(Visit(path, TokenOf(c), off), decide);
    if v == c && at == off {
      SilentHere(c, path, off, limit, decide);
    } else {
      var k :| 0 <= k < |c.entries| && Holds(c.entries[k].value, off + |BeforeValue(c, k)|, v, at);
      SpanInside(c, k);
      HeldInside(c.entries[k].value, off + |BeforeValue(c, k)|, v, at);
      HeldIsWf(c, off, v, at);
      NotEmpty(v);
      RisingOnce(Visit(path, TokenOf(c), off), off, off + 1, decide);
      RisingOutside(first.visits, off, off + 1, at, at + |SynBytes(v)|);
      SilentEntries(c, 0, path, off, limit, decide, k, v, at);
      SilentSecond(first, WalkEntries(c, 0, path, off, limit, decide), decide, TokenOf(v), at, at + |SynBytes(v)|);
      SilentWhenOutside(first.visits, decide, TokenOf(v), at, at + |SynBytes(v)|);
    }
  }

  lemma HeldIsWf(c: Syn, off: int, v: Syn, at: int)
    requires Wf(c) && Holds(c, off, v, at)
    ensures Wf(v)
    decreases c
  {
    hide BeforeValue, SynBytes, Wf;
    if !(v == c && at == off) {
      var k :| 0 <= k < |c.entries| && Holds(c.entries[k].value, off + |BeforeValue(c, k)|, v, at);
      WfValue(c, k);
      HeldIsWf(c.entries[k].value, off + |BeforeValue(c, k)|, v, at);
    }
  }

  lemma SilentHere(c: Syn, path: bytes, off: int, limit: nat, decide: Visit -> Flow)
    requires Wf(c)
    ensures Silent(WalkValue(c, path, off, limit, decide).visits, decide, TokenOf(c), off, off + |SynBytes(c)|)
  {
    hide SynBytes, WalkEntries, Wf;
    WalkInOrder(c, path, off, limit, decide);
    var vs := WalkValue(c, path, off, limit, decide).visits;
    FirstVisit(c, path, off, limit, decide);
    assert forall i :: 0 < i < |vs| ==> vs[0].offset < vs[i].offset;
  }

  lemma FirstVisit(c: Syn, path: bytes, off: int, limit: nat, decide: Visit -> Flow)
    ensures WalkValue(c, path, off, limit, decide).visits != []
    ensures WalkValue(c, path, off, limit, decide).visits[0] == Visit(path, TokenOf(c), off)
    ensures decide(Visit(path, TokenOf(c), off)) != Continue ==> |WalkValue(c, path, off, limit, decide).visits| == 1
  {
    hide SynBytes, WalkEntries;
  }

  lemma {:induction false} SilentEntries(c: Syn, j: nat, path: bytes, off: int, limit: nat, decide: Visit -> Flow, k: nat, v: Syn, at: int)
    requires Wf(c) && c.SContainer? && j <= k < |c.entries| && Holds(c.entries[k].value, off + |BeforeValue(c, k)|, v, at)
    ensures Silent(WalkEntries(c, j, path, off, limit, decide).visits, decide, TokenOf(v), at, at + |SynBytes(v)|)
    decreases c, 0, |c.entries| - j
  {
    hide SynBytes, WalkValue, BeforeValue, EntryPath, Rising, Wf, Silent, Outside, Holds;
    var start := off + |BeforeValue(c, j)|;
    var first := WalkValue(c.entries[j].value, EntryPath(c, j, path), start, limit, decide);
    var rest := WalkEntries(c, j + 1, path, off, limit, decide);
    HeldInside(c.entries[k].value, off + |BeforeValue(c, k)|, v, at);
    WfValue(c, j);
    WfValue(c, k);
    HeldIsWf(c.entries[k].value, off + |BeforeValue(c, k)|, v, at);
    NotEmpty(v);
    SpanInside(c, j);
    SpanInside(c, k);
    RisingNone(at, at);
    RisingOutside([], at, at, at, at + |SynBytes(v)|);
    SilentWhenOutside([], decide, TokenOf(v), at, at + |SynBytes(v)|);
    if j == k {
      SkipIsSilent(c.entries[k].value, EntryPath(c, k, path), start, limit, decide, v, at);
      EntriesInOrder(c, j + 1, path, off, limit, decide);
      RisingOutside(rest.visits, off + EntryStart(c, j + 1), off + |SynBytes(c)|, at, at + |SynBytes(v)|);
      SilentFirst(first, rest, decide, TokenOf(v), at, at + |SynBytes(v)|);
    } else {
      SilentEntries(c, j + 1, path, off, limit, decide, k, v, at);
      EntriesApart(c, j + 1, k);
      WalkInOrder(c.entries[j].value, EntryPath(c, j, path), start, limit, decide);
      RisingOutside(first.visits, start, start + |SynBytes(c.entries[j].value)|, at, at + |SynBytes(v)|);
      SilentSecond(first, rest, decide, TokenOf(v), at, at + |SynBytes(v)|);
    }
  }

  // ---------- everything else is visited ----------

  /** The value is visited, and so is its end, if it is a container that is entered. */
  ghost predicate Reported(vs: seq<Visit>, decide: Visit -> Flow, v: Syn, at: int) {
    exists i :: 0 <= i < |vs| && vs[i].offset == at && vs[i].token == TokenOf(v) &&
      (v.SContainer? && decide(vs[i]) == Continue ==> EndReported(vs, vs[i].path, v, at))
  }

  ghost predicate EndReported(vs: seq<Visit>, path: bytes, v: Syn, at: int)
    requires v.SContainer?
  {
    Visit(path, EndToken(v.obj), at + |SynBytes(v)| - 1) in vs
  }

  /** What starts at `at` is inside a container that was skipped. */
  ghost predicate SkippedAround(c: Syn, off: int, vs: seq<Visit>, decide: Visit -> Flow, at: int) {
    exists i, w :: 0 <= i < |vs| && Holds(c, off, w, vs[i].offset) && SkippedAt(vs[i], decide, w) &&
      vs[i].offset < at < vs[i].offset + |SynBytes(w)|
  }

  ghost predicate SkippedAt(visit: Visit, decide: Visit -> Flow, w: Syn) {
    visit.token == TokenOf(w) && w.SContainer? && decide(visit) == Skip
  }

  lemma ReportedAmong(xs: seq<Visit>, vs: seq<Visit>, ys: seq<Visit>, decide: Visit -> Flow, v: Syn, at: int)
    requires Reported(vs, decide, v, at)
    ensures Reported(xs + vs + ys, decide, v, at)
  {
    hide SynBytes;
    var i :| 0 <= i < |vs| && vs[i].offset == at && vs[i].token == TokenOf(v) &&
      (v.SContainer? && decide(vs[i]) == Continue ==> EndReported(vs, vs[i].path, v, at));
    assert (xs + vs + ys)[|xs| + i] == vs[i];
  }

  lemma SkippedAmong(c: Syn, off: int, xs: seq<Visit>, vs: seq<Visit>, ys: seq<Visit>, decide: Visit -> Flow, at: int)
    requires SkippedAround(c, off, vs, decide, at)
    ensures SkippedAround(c, off, xs + vs + ys, decide, at)
  {
    hide SynBytes, Holds, SkippedAt;
    var i, w :| 0 <= i < |vs| && Holds(c, off, w, vs[i].offset) && SkippedAt(vs[i], decide, w) &&
      vs[i].offset < at < vs[i].offset + |SynBytes(w)|;
    assert (xs + vs + ys)[|xs| + i] == vs[i];
  }

  /** What was skipped inside an entry was skipped inside the container. */
  lemma SkippedUp(c: Syn, off: int, k: nat, vs: seq<Visit>, decide: Visit -> Flow, at: int)
    requires c.SContainer? && k < |c.entries| && SkippedAround(c.entries[k].value, off + |BeforeValue(c, k)|, vs, decide, at)
    ensures SkippedAround(c, off, vs, decide, at)
  {
    hide SynBytes, SkippedAt, BeforeValue;
    var i, w :| 0 <= i < |vs| && Holds(c.entries[k].value, off + |BeforeValue(c, k)|, w, vs[i].offset) && SkippedAt(vs[i], decide, w) &&
      vs[i].offset < at < vs[i].offset + |SynBytes(w)|;
    assert Holds(c, off, w, vs[i].offset);
  }

  /** Every value is visited, unless it is inside a container that was skipped, in a walk that gets to the end. */
  lemma {:induction false} WalkVisits(c: Syn, path: bytes, off: int, limit: nat, decide: Visit -> Flow, v: Syn, at: int)
    requires Wf(c) && Holds(c, off, v, at) && WalkValue(c, path, off, limit, decide).ending == ToTheEnd
    ensures var vs := WalkValue(c, path, off, limit, decide).visits;
            Reported(vs, decide, v, at) || SkippedAround(c, off, vs, decide, at)
    decreases c, 1, 0
  {
    hide WalkEntries, SynBytes, Wf, BeforeValue, Reported, SkippedAround;
    var first := Visit(path, TokenOf(c), off);
    var es := if c.SContainer? then WalkEntries(c, 0, path, off, limit, decide) else Walked([], ToTheEnd);
    if v == c && at == off {
      HereReported(c, path, off, limit, decide);
    } else {
      var k :| 0 <= k < |c.entries| && Holds(c.entries[k].value, off + |BeforeValue(c, k)|, v, at);
      if decide(first) == Continue {
        EntriesVisited(c, 0, path, off, limit, decide, k, v, at);
        assert [first] + es.visits + [] == [first] + es.visits;
        if Reported(es.visits, decide, v, at) {
          ReportedAmong([first], es.visits, [], decide, v, at);
        } else {
          SkippedAmong(c, off, [first], es.visits, [], decide, at);
        }
      } else {
        SpanInside(c, k);
        HeldInside(c.entries[k].value, off + |BeforeValue(c, k)|, v, at);
        HeldIsWf(c, off, v, at);
        NotEmpty(v);
        SkippedHere(c, off, first, decide, at);
      }
    }
  }

  lemma SkippedHere(c: Syn, off: int, first: Visit, decide: Visit -> Flow, at: int)
    requires first.offset == off && SkippedAt(first, decide, c) && off < at < off + |SynBytes(c)|
    ensures SkippedAround(c, off, [first], decide, at)
  {
    hide SynBytes, SkippedAt;
    assert Holds(c, off, c, [first][0].offset);
  }

  lemma HereReported(c: Syn, path: bytes, off: int, limit: nat, decide: Visit -> Flow)
    requires WalkValue(c, path, off, limit, decide).ending == ToTheEnd
    ensures Reported(WalkValue(c, path, off, limit, decide).visits, decide, c, off)
  {
    hide SynBytes, WalkEntries;
    FirstVisit(c, path, off, limit, decide);
    var vs := WalkValue(c, path, off, limit, decide).visits;
    assert vs[0].offset == off && vs[0].token == TokenOf(c);
    if c.SContainer? && decide(vs[0]) == Continue {
      EndIsLast(c, 0, path, off, limit, decide);
      assert vs[|vs| - 1] == Visit(path, EndToken(c.obj), off + |SynBytes(c)| - 1);
    }
  }

  /** The last visit of a container that was entered is that of its end. */
  lemma {:induction false} EndIsLast(c: Syn, k: nat, path: bytes, off: int, limit: nat, decide: Visit -> Flow)
    requires c.SContainer? && k <= |c.entries| && WalkEntries(c, k, path, off, limit, decide).ending == ToTheEnd
    ensures var vs := WalkEntries(c, k, path, off, limit, decide).visits;
            vs != [] && vs[|vs| - 1] == Visit(path, EndToken(c.obj), off + |SynBytes(c)| - 1)
    decreases |c.entries| - k
  {
    hide SynBytes, WalkValue, BeforeValue, EntryPath;
    if k < |c.entries| {
      EndIsLast(c, k + 1, path, off, limit, decide);
    }
  }

  lemma {:induction false} EntriesVisited(c: Syn, j: nat, path: bytes, off: int, limit: nat, decide: Visit -> Flow, k: nat, v: Syn, at: int)
    requires Wf(c) && c.SContainer? && j <= k < |c.entries| && Holds(c.entries[k].value, off + |BeforeValue(c, k)|, v, at)
    requires WalkEntries(c, j, path, off, limit, decide).ending == ToTheEnd
    ensures var vs := WalkEntries(c, j, path, off, limit, decide).visits;
            Reported(vs, decide, v, at) || SkippedAround(c, off, vs, decide, at)
    decreases c, 0, |c.entries| - j
  {
    hide SynBytes, WalkValue, BeforeValue, EntryPath, Wf, Reported, SkippedAround, Holds;
    var start := off + |BeforeValue(c, j)|;
    var first := WalkValue(c.entries[j].value, EntryPath(c, j, path), start, limit, decide);
    var rest := WalkEntries(c, j + 1, path, off, limit, decide);
    assert [] + first.visits + rest.visits == first.visits + rest.visits;
    assert first.visits + rest.visits + [] == first.visits + rest.visits;
    if j == k {
      WfValue(c, k);
      WalkVisits(c.entries[k].value, EntryPath(c, k, path), start, limit, decide, v, at);
      if Reported(first.visits, decide, v, at) {
        ReportedAmong([], first.visits, rest.visits, decide, v, at);
      } else {
        SkippedUp(c, off, k, first.visits, decide, at);
        SkippedAmong(c, off, [], first.visits, rest.visits, decide, at);
      }
    } else {
      EntriesVisited(c, j + 1, path, off, limit, decide, k, v, at);
      if Reported(rest.visits, decide, v, at) {
        ReportedAmong(first.visits, rest.visits, [], decide, v, at);
      } else {
        SkippedAmong(c, off, first.visits, rest.visits, [], decide, at);
      }
    }
  }

  /** A callback that always goes on is called for every value and for the end of every container, if there is room for the
      longest pointer. */
  lemma EverythingVisited(c: Syn, off: int, limit: nat, v: Syn, at: int)
    requires Wf(c) && Holds(c, off, v, at) && LongestPath(c, 0) <= limit
    ensures Reported(WalkValue(c, [], off, limit, GoOn).visits, GoOn, v, at)
  {
    hide WalkValue, Wf, Holds, Reported, SynBytes;
    RoomForLongest(c, [], off, limit);
    WalkVisits(c, [], off, limit, GoOn, v, at);
  }

  // ---------- Stop ----------

  /** The walk is cut short exactly by a Stop, which is the answer to the last callback. */
  ghost predicate StopsThere(w: Walked, decide: Visit -> Flow) {
    (forall i :: 0 <= i < |w.visits| && decide(w.visits[i]) == Stop ==> i == |w.visits| - 1 && w.ending == CutShort) &&
    (w.ending == CutShort ==> w.visits != [] && decide(w.visits[|w.visits| - 1]) == Stop)
  }

  lemma StopFollows(a: Walked, b: Walked, decide: Visit -> Flow)
    requires StopsThere(a, decide) && StopsThere(b, decide)
    ensures StopsThere(Follow(a, b), decide)
  {
  }

  lemma StopOnce(v: Visit, decide: Visit -> Flow)
    ensures StopsThere(Once(v, decide), decide)
    ensures StopsThere(Walked([], TooLong), decide)
  {
  }

  lemma {:induction false} StopEndsWalk(c: Syn, path: bytes, off: int, limit: nat, decide: Visit -> Flow)
    ensures StopsThere(WalkValue(c, path, off, limit, decide), decide)
    decreases c, 1, 0
  {
    hide StopsThere, SynBytes, WalkEntries;
    StopOnce(Visit(path, TokenOf(c), off), decide);
    if c.SContainer? {
      StopEndsEntries(c, 0, path, off, limit, decide);
      StopFollows(Once(Visit(path, TokenOf(c), off), decide), WalkEntries(c, 0, path, off, limit, decide), decide);
    }
  }

  lemma {:induction false} StopEndsEntries(c: Syn, k: nat, path: bytes, off: int, limit: nat, decide: Visit -> Flow)
    requires c.SContainer? && k <= |c.entries|
    ensures StopsThere(WalkEntries(c, k, path, off, limit, decide), decide)
    decreases c, 0, |c.entries| - k
  {
    hide StopsThere, SynBytes, WalkValue, BeforeValue, EntryPath;
    StopOnce(Visit(path, EndToken(c.obj), off + |SynBytes(c)| - 1), decide);
    if k < |c.entries| {
      var start := off + |BeforeValue(c, k)|;
      StopEndsWalk(c.entries[k].value, EntryPath(c, k, path), start, limit, decide);
      StopEndsEntries(c, k + 1, path, off, limit, decide);
      StopFollows(WalkValue(c.entries[k].value, EntryPath(c, k, path), start, limit, decide),
                  WalkEntries(c, k + 1, path, off, limit, decide), decide);
    }
  }

  // ---------- the room for pointers ----------

  /** No pointer is longer than there is room for. */
  ghost predicate PointersFit(w: Walked, limit: nat) {
    forall i :: 0 <= i < |w.visits| ==> |w.visits[i].path| <= limit
  }

  lemma FitFollows(a: Walked, b: Walked, limit: nat)
    requires PointersFit(a, limit) && PointersFit(b, limit)
    ensures PointersFit(Follow(a, b), limit)
  {
  }

  lemma FitOnce(v: Visit, decide: Visit -> Flow, limit: nat)
    requires |v.path| <= limit
    ensures PointersFit(Once(v, decide), limit) && PointersFit(Walked([], TooLong), limit)
  {
  }

  /** Every pointer that is reported fits, and a walk fails for lack of room only when some pointer does not fit. */
  lemma {:induction false} WalkHasRoom(c: Syn, path: bytes, off: int, limit: nat, decide: Visit -> Flow)
    requires |path| <= limit
    ensures PointersFit(WalkValue(c, path, off, limit, decide), limit)
    ensures WalkValue(c, path, off, limit, decide).ending == TooLong ==> LongestPath(c, |path|) > limit
    decreases c, 1, 0
  {
    hide PointersFit, SynBytes, WalkEntries, LongestEntry;
    FitOnce(Visit(path, TokenOf(c), off), decide, limit);
    if c.SContainer? {
      EntriesHaveRoom(c, 0, path, off, limit, decide);
      FitFollows(Once(Visit(path, TokenOf(c), off), decide), WalkEntries(c, 0, path, off, limit, decide), limit);
    }
  }

  lemma {:induction false} EntriesHaveRoom(c: Syn, k: nat, path: bytes, off: int, limit: nat, decide: Visit -> Flow)
    requires |path| <= limit && c.SContainer? && k <= |c.entries|
    ensures PointersFit(WalkEntries(c, k, path, off, limit, decide), limit)
    ensures WalkEntries(c, k, path, off, limit, decide).ending == TooLong ==> LongestEntry(c, k, |path|) > limit
    decreases c, 0, |c.entries| - k
  {
    hide PointersFit, SynBytes, WalkValue, BeforeValue, ReferenceToken, LongestPath;
    FitOnce(Visit(path, EndToken(c.obj), off + |SynBytes(c)| - 1), decide, limit);
    if k < |c.entries| && |EntryPath(c, k, path)| <= limit {
      var start := off + |BeforeValue(c, k)|;
      WalkHasRoom(c.entries[k].value, EntryPath(c, k, path), start, limit, decide);
      EntriesHaveRoom(c, k + 1, path, off, limit, decide);
      FitFollows(WalkValue(c.entries[k].value, EntryPath(c, k, path), start, limit, decide),
                 WalkEntries(c, k + 1, path, off, limit, decide), limit);
    }
  }
}
