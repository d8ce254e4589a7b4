/** Planning removals: the span to delete, with the comma on the right side. */
module RemovalPlanning {
  import opened Bytes
  import opened Grammar
  import opened Reader
  import opened Automaton
  import opened Compare
  import opened Paths
  import opened Results
  import opened Sources
  import opened TreeEdit
  import opened SynEdit
  import opened Patches
  import opened Parsing
  import opened Lists
  import opened Seeking
  import opened Stepping
  import opened Navigation
  import opened PathSeeking
  import opened Leaving
  import opened Locating
  import opened Planning

  /** Skips the value of an entry and tells where it ends. */
  method SpanEntry(p: Parser, obj: bool, ghost es: seq<Entry>, ghost rest: bytes) returns (r: Res<Span>)
    requires p.Valid()
    modifies p`state, p`stash, p.src`pos, p.src`end, p.src`pending, p.src`out, p.stack`depth, p.stack.bits
    ensures p.Valid()
    ensures old(InEntry(p, obj, es, rest)) ==>
              r.Ok? && es != [] && InList(p, obj, es[1..], rest) && AfterEntry(obj, es, p.Rest(), rest, p.Room()) &&
              r.value.end == p.src.Offset()
  {
    hide AtToken, PeekToken, TokenAt, Lists.Remaining, AtEntry, AtEntryValue, AtEntryColon, AfterEntry, ParseValue, ValueDone, PeekFrom, SynBytes;
    ghost var s, room, levels, state := p.Rest(), p.Room(), p.Levels(), p.state;
    if InEntry(p, obj, es, rest) {
      SkipInEntry(state, s, levels, obj, es, rest, room);
      NotInString(state, s, levels, obj, es, rest, room);
    }
    r := ValueSpan(p);
    if r.Ok? && AfterEntry(obj, es, p.Rest(), rest, room) {
      RemainingAfter(obj, es, p.Rest(), rest, room);
    }
  }

  lemma NotInString(state: State, s: bytes, levels: seq<bool>, obj: bool, es: seq<Entry>, rest: bytes, room: nat)
    requires !state.ObjColon? ==> s != [] && ValueToken(s[0]).Some? && AtToken(Peeked(ValueToken(s[0]).value, state, s), levels)
    ensures !state.InStr?
  {
    if !state.ObjColon? {
      ValueTokenIsValue(s[0]);
      TokenFactsOf(Peeked(ValueToken(s[0]).value, state, s), levels);
    }
  }

  /** What a removal from `u` comes to, with `u` at offset `base`. */
  predicate Removes(q: Option<Patch>, u: Syn, seg: Seg, base: int) {
    match ChildOf(ToTree(u), seg)
    case None => q == None
    case Some(k) =>
      q.Some? && q.value.start == base + RemovalSpan(u, k).0 && q.value.end == base + RemovalSpan(u, k).1 && q.value.kind == RemoveKind
  }

  /** Where the value before entry `k` ended. */
  ghost predicate PreviousEnd(prev: Option<nat>, u: Syn, k: nat, base: int)
    requires u.SContainer? && k <= |u.entries|
  {
    if k == 0 then prev == None else prev.Some? && prev.value == base + |ThroughValue(u, k - 1)|
  }

  /** At the entry to remove: measures it and looks at what follows. */
  method RemoveHere(p: Parser, obj: bool, start: nat, prev: Option<nat>, ghost k: nat, ghost u: Syn, ghost rest: bytes) returns (r: Res<Patch>)
    requires p.Valid()
    modifies p`state, p`stash, p.src`pos, p.src`end, p.src`pending, p.src`out, p.stack`depth, p.stack.bits
    ensures p.Valid()
    ensures u.SContainer? && u.obj == obj && k < |u.entries| && PreviousEnd(prev, u, k, StartOf(p, u, rest)) &&
            start == StartOf(p, u, rest) + |BeforeName(u, k)| && old(InEntry(p, obj, u.entries[k..], rest)) ==>
              r.Ok? && r.value.kind == RemoveKind &&
              r.value.start == StartOf(p, u, rest) + RemovalSpan(u, k).0 && r.value.end == StartOf(p, u, rest) + RemovalSpan(u, k).1
  {
    hide InEntry, InList, SynBytes, BeforeName, ThroughValue, AtToken, AfterEntry, AtEntry, AtClosing, NameBytes, TailBytes;
    ghost var ok := u.SContainer? && u.obj == obj && k < |u.entries| && InEntry(p, obj, u.entries[k..], rest);
    ghost var left := if ok then u.entries[k..] else [];
    var span :- SpanEntry(p, obj, left, rest);
    ghost var next := if ok then u.entries[k + 1..] else [];
    if ok {
      assert left[1..] == next;
      AfterOffset(u, k, p.Rest(), rest, p.Room());
    }
    var t :- PeekEntry(p, obj, next, rest);
    if ok && next != [] {
      EntryLength(obj, next, p.Rest(), rest, p.Room());
      NameOffset(u, k + 1);
    }
    ValueIsNoClosing(t);
    if if obj then t.KeyToken? else !t.EndArray? {
      r := Ok(Patch(start, p.src.Offset(), RemoveKind));
    } else {
      r := Ok(Patch(if prev.Some? then prev.value else start, span.end, RemoveKind));
    }
  }

  lemma ValueIsNoClosing(t: Token)
    ensures IsValue(t) ==> !t.EndArray? && !t.KeyToken? && !t.EndObject?
  {
  }

  // ---------- objects ----------

  /** The first `k` members have other names. */
  ghost predicate Ahead(u: Syn, k: nat, seg: Seg) {
    u.SContainer? && u.obj && k <= |u.entries| &&
    MemberIndex(ToMembers(u.entries), SegName(seg)) == k + MemberIndex(ToMembers(u.entries[k..]), SegName(seg))
  }

  ghost predicate AtRemoval(p: Parser, k: nat, u: Syn, seg: Seg, rest: bytes, prev: Option<nat>)
    requires p.Valid()
    reads p, p.src, p.stack, p.stack.bits
  {
    Ahead(u, k, seg) && InList(p, true, u.entries[k..], rest) && PreviousEnd(prev, u, k, StartOf(p, u, rest))
  }

  lemma {:induction false} RemovalStep(u: Syn, k: nat, seg: Seg)
    requires Ahead(u, k, seg) && k < |u.entries|
    ensures if Cmp(NameText(u.entries[k]), SegName(seg)) == Equal then ChildOf(ToTree(u), seg) == Some(k) else Ahead(u, k + 1, seg)
    ensures u.entries[k..] != [] && u.entries[k..][0] == u.entries[k] && u.entries[k..][1..] == u.entries[k + 1..]
  {
    hide Cmp, SegName;
    CmpEqual(NameText(u.entries[k]), SegName(seg));
    FindStep(u.entries[k..], SegName(seg));
    assert u.entries[k..][1..] == u.entries[k + 1..];
  }

  lemma {:induction false} NothingToRemove(u: Syn, k: nat, seg: Seg, base: int)
    requires Ahead(u, k, seg) && k == |u.entries|
    ensures Removes(None, u, seg, base)
  {
    hide SegName;
    assert u.entries[k..] == [];
  }

  lemma AheadBounds(u: Syn, k: nat, seg: Seg)
    requires Ahead(u, k, seg)
    ensures u.SContainer? && u.obj && k <= |u.entries| && |u.entries[k..]| == |u.entries| - k
  {
  }

  lemma {:induction false} AheadNone(u: Syn, seg: Seg)
    requires u.SContainer? && u.obj
    ensures Ahead(u, 0, seg) && u.entries[0..] == u.entries
  {
    assert u.entries[0..] == u.entries;
  }

  method RemoveMemberTurn(p: Parser, seg: Seg, prev: Option<nat>, ghost k: nat, ghost u: Syn, ghost rest: bytes)
    returns (r: Res<Option<Option<Patch>>>)
    requires p.Valid()
    modifies p`state, p`stash, p.src`pos, p.src`end, p.src`pending, p.src`out, p.stack`depth, p.stack.bits
    ensures p.Valid()
    ensures r.Ok? && r.value.None? ==> |p.Rest()| < |old(p.Rest())|
    ensures old(AtRemoval(p, k, u, seg, rest, prev)) ==>
              r.Ok? && if r.value.None? then AtRemoval(p, k + 1, u, seg, rest, Some(p.src.Offset()))
                       else Removes(r.value.value, u, seg, StartOf(p, u, rest))
  {
    hide InEntry, InList, SegName, SynBytes, AtClosing, BeforeName, ThroughValue, Cmp, FromNameLength, RemovalSpan, AfterEntry, ChildOf, ToTree, Ahead, NameText;
    ghost var at := AtRemoval(p, k, u, seg, rest, prev);
    ghost var left := [];
    if at {
      AheadBounds(u, k, seg);
      left := u.entries[k..];
    }
    var m :- ReadMember(p, seg, left, rest);
    if m.None? {
      if at {
        NothingToRemove(u, k, seg, StartOf(p, u, rest));
      }
      r := Ok(Some(None));
    } else {
      if at {
        NameOffset(u, k);
        RemovalStep(u, k, seg);
      }
      if m.value.1 == Equal {
        var q :- RemoveHere(p, true, m.value.0, prev, k, u, rest);
        r := Ok(Some(Some(q)));
      } else {
        var _ :- SkipEntry(p, true, left, rest);
        if at {
          AfterOffset(u, k, p.Rest(), rest, p.Room());
        }
        r := Ok(None);
      }
    }
  }

  method RemoveMember(p: Parser, seg: Seg, ghost u: Syn, ghost rest: bytes) returns (r: Res<Option<Patch>>)
    requires p.Valid()
    modifies p`state, p`stash, p.src`pos, p.src`end, p.src`pending, p.src`out, p.stack`depth, p.stack.bits
    ensures p.Valid()
    ensures old(Facing(p, u, rest)) && u.SContainer? && u.obj ==> r.Ok? && Removes(r.value, u, seg, StartOf(p, u, rest))
  {
    hide Facing, InList, SegName, SynBytes, Removes, Ahead;
    ghost var ok, k := Facing(p, u, rest) && u.SContainer? && u.obj, 0;
    var _ :- EnterContainer(p, true, u, rest);
    if ok {
      AheadNone(u, seg);
    }
    var prev, found := None, None;
    while found.None?
      invariant p.Valid()
      invariant ok ==> if found.None? then AtRemoval(p, k, u, seg, rest, prev) else Removes(found.value, u, seg, StartOf(p, u, rest))
      decreases found.None?, |p.Rest()|
    {
      found :- RemoveMemberTurn(p, seg, prev, k, u, rest);
      prev, k := Some(p.src.Offset()), k + 1;
    }
    r := Ok(found.value);
  }

  // ---------- arrays ----------

  lemma ElementRemoval(u: Syn, seg: Seg, base: int)
    requires u.SContainer? && !u.obj
    ensures match SegIndex(seg)
            case None => Removes(None, u, seg, base)
            case Some(i) => ChildOf(ToTree(u), seg) == (if i < |u.entries| then Some(i) else None) &&
                            (i >= |u.entries| ==> Removes(None, u, seg, base))
  {
    hide SegIndex;
  }

  lemma EntryOfPeeked(p: Parser, t: Token, k: nat, u: Syn, rest: bytes)
    requires p.Valid() && ElementPeeked(p, t, k, u, rest) && !t.EndArray?
    ensures k < |u.entries| && InEntry(p, false, u.entries[k..], rest) && p.src.Offset() == StartOf(p, u, rest) + |BeforeName(u, k)|
  {
  }

  method RemoveElementTurn(p: Parser, target: nat, i: nat, prev: Option<nat>, ghost seg: Seg, ghost u: Syn, ghost rest: bytes)
    returns (r: Res<Option<Option<Patch>>>)
    requires p.Valid() && SegIndex(seg) == Some(target) && i <= target
    modifies p`state, p`stash, p.src`pos, p.src`end, p.src`pending, p.src`out, p.stack`depth, p.stack.bits
    ensures p.Valid()
    ensures r.Ok? && r.value.None? ==> |p.Rest()| < |old(p.Rest())| && i < target
    ensures old(AtElement(p, i, u, rest)) && PreviousEnd(prev, u, i, StartOf(p, u, rest)) ==>
              r.Ok? && if r.value.None? then AtElement(p, i + 1, u, rest) && PreviousEnd(Some(p.src.Offset()), u, i + 1, StartOf(p, u, rest))
                       else Removes(r.value.value, u, seg, StartOf(p, u, rest))
  {
    hide InEntry, InList, SynBytes, BeforeName, ThroughValue, ElementPeeked, RemovalSpan, ToTree, ChildOf, SegIndex;
    ghost var at := AtElement(p, i, u, rest);
    var t :- PeekElement(p, i, u, rest);
    if at {
      ElementBounds(p, t, i, u, rest);
      ElementRemoval(u, seg, StartOf(p, u, rest));
      if !t.EndArray? {
        EntryOfPeeked(p, t, i, u, rest);
      }
    }
    if t.EndArray? {
      r := Ok(Some(None));
    } else if i == target {
      var start := p.src.Offset();
      var q :- RemoveHere(p, false, start, prev, i, u, rest);
      r := Ok(Some(Some(q)));
    } else {
      var _ :- SkipElement(p, t, i, u, rest);
      r := Ok(None);
    }
  }

  method RemoveElement(p: Parser, seg: Seg, ghost u: Syn, ghost rest: bytes) returns (r: Res<Option<Patch>>)
    requires p.Valid()
    modifies p`state, p`stash, p.src`pos, p.src`end, p.src`pending, p.src`out, p.stack`depth, p.stack.bits
    ensures p.Valid()
    ensures old(Facing(p, u, rest)) && u.SContainer? && !u.obj ==> r.Ok? && Removes(r.value, u, seg, StartOf(p, u, rest))
  {
    hide Facing, InList, SegIndex, SynBytes, Removes, ThroughValue, ToTree, ChildOf, AtToken, Remaining, Fits;
    ghost var ok := Facing(p, u, rest) && u.SContainer? && !u.obj;
    var target := SegIndex(seg);
    if ok {
      ElementRemoval(u, seg, StartOf(p, u, rest));
    }
    if target.None? {
      return Ok(None);
    }
    var _ :- EnterContainer(p, false, u, rest);
    if ok {
      assert u.entries[0..] == u.entries;
    }
    var i, prev, found := 0, None, None;
    while found.None?
      invariant p.Valid() && (found.None? ==> i <= target.value)
      invariant ok ==>
                  if found.None? then AtElement(p, i, u, rest) && PreviousEnd(prev, u, i, StartOf(p, u, rest))
                  else Removes(found.value, u, seg, StartOf(p, u, rest))
      decreases found.None?, |p.Rest()|
    {
      found :- RemoveElementTurn(p, target.value, i, prev, seg, u, rest);
      prev, i := Some(p.src.Offset()), i + 1;
    }
    r := Ok(found.value);
  }

  // ---------- the whole search ----------

  method RemoveIn(p: Parser, seg: Seg, ghost u: Syn, ghost rest: bytes) returns (r: Res<Option<Patch>>)
    requires p.Valid()
    modifies p`state, p`stash, p.src`pos, p.src`end, p.src`pending, p.src`out, p.stack`depth, p.stack.bits
    ensures p.Valid()
    ensures old(Facing(p, u, rest)) ==> r.Ok? && Removes(r.value, u, seg, StartOf(p, u, rest))
  {
    hide Facing, SynBytes, ToTree, Removes;
    NoEntries(u, seg, StartOf(p, u, rest));
    var t :- PeekValue(p, u, rest);
    if t.BeginObject? {
      r := RemoveMember(p, seg, u, rest);
    } else if t.BeginArray? {
      r := RemoveElement(p, seg, u, rest);
    } else {
      r := Ok(None);
    }
  }

  lemma NoEntries(u: Syn, seg: Seg, base: int)
    ensures !u.SContainer? ==> Removes(None, u, seg, base)
  {
  }

  lemma RemovalOfParent(c: Syn, path: seq<Seg>)
    requires path != []
    ensures RemovalOf(ToTree(c), path)
         == match SeekSyn(c, path[..|path| - 1])
            case None => None
            case Some(l) =>
              match ChildOf(ToTree(l.value), path[|path| - 1])
              case None => None
              case Some(k) => Some((ToTree(l.value), k))
  {
    hide ChildOf, SeekSyn, Lookup, ToTree;
    SeekIsLookup(c, path[..|path| - 1]);
  }

  lemma RemovalInParent(c: Syn, path: seq<Seg>, q: Option<Patch>, base: int)
    requires path != [] && base >= 0
    requires match SeekSyn(c, path[..|path| - 1])
             case None => q == None
             case Some(l) => Removes(q, l.value, path[|path| - 1], base + l.off)
    ensures q == Moved(RemovalPatch(c, path), base)
  {
    hide RemovalSpan, ChildOf, SeekSyn, Lookup, ToTree, RemovalOf, RemovalPatch;
    RemovalOfParent(c, path);
    RemovalDefined(c, path);
    var parent := SeekSyn(c, path[..|path| - 1]);
    if RemovalOf(ToTree(c), path).Some? {
      var k := RemovalOf(ToTree(c), path).value.1;
      RemovalInText(c, path);
      RemovalParts(c, path, parent.value, k, RemovalSpan(parent.value.value, k));
    }
  }

  /** Computes the patch of a removal. */
  method PlanRemove(p: Parser, path: seq<Seg>, ghost c: Syn, ghost rest: bytes) returns (r: Res<Option<Patch>>)
    requires p.Valid()
    modifies p`state, p`stash, p.src`pos, p.src`end, p.src`pending, p.src`out, p.stack`depth, p.stack.bits
    ensures p.Valid()
    ensures old(Facing(p, c, rest)) ==>
              StartOf(p, c, rest) >= 0 && r == Ok(Moved(RemovalPatch(c, path), StartOf(p, c, rest)))
  {
    hide Facing, SynBytes, SeekSyn, Removes, RemovalPatch;
    ghost var facing, after := Facing(p, c, rest), [];
    if facing {
      StartsInside(p, c, rest);
    }
    if path == [] {
      NoRoot(c);
      return Ok(None);
    }
    var parent, last := path[..|path| - 1], path[|path| - 1];
    var found;
    found, after := Reach(p, parent, c, rest);
    if found.Err? {
      r := Err(found.kind);
    } else if !found.value {
      r := Ok(None);
    } else {
      ghost var u := if SeekSyn(c, parent).Some? then SeekSyn(c, parent).value.value else c;
      r := RemoveIn(p, last, u, after);
    }
    if facing {
      RemovalInParent(c, path, r.value, StartOf(p, c, rest));
    }
  }

  lemma NoRoot(c: Syn)
    ensures RemovalPatch(c, []) == None
  {
  }
}
