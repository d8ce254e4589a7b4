/** Finding where an edit goes, and proof that this is the place the patch of the edit names. */
module Locating {
  import opened Bytes
  import opened Grammar
  import opened Reader
  import opened Automaton
  import opened Compare
  import opened Paths
  import opened Results
  import opened Sources
  import opened TreeEdit
  import opened SynEdit
  import opened Patches
  import opened Parsing
  import opened Lists
  import opened Seeking
  import opened Stepping
  import opened Navigation
  import opened PathSeeking

  /** Where an edit goes, and whether the value there is replaced. */
  datatype Target = Target(start: nat, replace: bool, kind: Kind)

  // ---------- offsets ----------

  /** The offset of a value of the document, from what follows it. */
  ghost function StartOf(p: Parser, c: Syn, rest: bytes): int {
    |p.src.data| - |SynBytes(c)| - |rest|
  }

  /** Length of the entries `es`, from the name of the first of them, and of the closing bracket. */
  function FromNameLength(obj: bool, es: seq<Entry>): nat
    requires es != []
  {
    |NameBytes(es[0].name)| + |SynBytes(es[0].value)| + |es[0].post| + |TailBytes(obj, es[1..])|
  }

  lemma NameOffset(c: Syn, k: nat)
    requires c.SContainer? && k < |c.entries|
    ensures |SynBytes(c)| == |BeforeName(c, k)| + FromNameLength(c.obj, c.entries[k..])
  {
    hide SynBytes, BeforeName;
    ContainerAtName(c, k);
    assert c.entries[k..][1..] == c.entries[k + 1..];
  }

  lemma AfterOffset(c: Syn, k: nat, s: bytes, rest: bytes, room: nat)
    requires c.SContainer? && k < |c.entries| && AfterEntry(c.obj, c.entries[k..], s, rest, room)
    ensures |SynBytes(c)| + |rest| == |ThroughValue(c, k)| + |s|
  {
    hide SynBytes, BeforeValue, ParseTail, TailBytes;
    AfterLength(c.obj, c.entries[k..], s, rest, room);
    ContainerAt(c, k);
    assert c.entries[k..][1..] == c.entries[k + 1..];
  }

  // ---------- members ----------

  /** Reads the next name: its offset, and its order. None, at the closing bracket. */
  method ReadMember(p: Parser, seg: Seg, ghost es: seq<Entry>, ghost rest: bytes) returns (r: Res<Option<(nat, Ordering)>>)
    requires p.Valid()
    modifies p`state, p`stash, p.src`pos, p.src`end, p.src`pending, p.src`out, p.stack`depth, p.stack.bits
    ensures p.Valid()
    ensures r.Ok? && r.value.Some? ==>
              p.state == ObjColon && p.stash == [] && |p.Rest()| < |old(p.Rest())| && p.Levels() == old(p.Levels())
    ensures old(InList(p, true, es, rest)) ==>
              r.Ok? &&
              if es == [] then r.value.None? && AtClosing(true, p.Rest(), rest)
              else
                r.value.Some? && InEntry(p, true, es, rest) &&
                r.value.value.0 + FromNameLength(true, es) + |rest| == |p.src.data| &&
                r.value.value.1 == Cmp(NameText(es[0]), SegName(seg))
  {
    hide Cmp, SegName, AtEntry, InList, InEntry, AtToken, AtClosing, NameText, SynBytes, NameBytes, TailBytes;
    ghost var listed := InList(p, true, es, rest);
    var t := PeekEntry(p, true, es, rest);
    if t.Err? {
      r := Err(t.kind);
    } else if !t.value.KeyToken? {
      r := Ok(None);
    } else {
      var start := p.src.Offset();
      if listed && es != [] {
        EntryLength(true, es, p.Rest(), rest, p.Room());
      }
      var o := CmpName(p, seg, es, rest);
      r := if o.Ok? then Ok(Some((start, o.value))) else Err(o.kind);
    }
  }

  lemma {:induction false} GreaterStep(es: seq<Entry>, name: bytes)
    requires es != []
    ensures GreaterIndex(ToMembers(es), name)
         == if Cmp(NameText(es[0]), name) == Greater then 0 else 1 + GreaterIndex(ToMembers(es[1..]), name)
  {
    assert ToMembers(es)[1..] == ToMembers(es[1..]);
  }

  /** What is known of the members after the first `k` were compared; `before` is the offset of the first greater one. */
  ghost predicate Compared(u: Syn, k: nat, name: bytes, base: int, before: Option<nat>, placement: Placement) {
    u.SContainer? && k <= |u.entries| &&
    MemberIndex(ToMembers(u.entries), name) == k + MemberIndex(ToMembers(u.entries[k..]), name) &&
    match before
    case None => placement == Sorted ==> GreaterIndex(ToMembers(u.entries), name) == k + GreaterIndex(ToMembers(u.entries[k..]), name)
    case Some(start) =>
      placement == Sorted && GreaterIndex(ToMembers(u.entries), name) < |u.entries| &&
      start == base + |BeforeName(u, GreaterIndex(ToMembers(u.entries), name))|
  }

  lemma {:induction false} ComparedNone(u: Syn, name: bytes, base: int, placement: Placement)
    requires u.SContainer?
    ensures Compared(u, 0, name, base, None, placement) && u.entries[0..] == u.entries
  {
    assert u.entries[0..] == u.entries;
  }

  function FirstGreater(before: Option<nat>, start: nat, o: Ordering, placement: Placement): Option<nat> {
    if o == Greater && placement == Sorted && before.None? then Some(start) else before
  }

  lemma {:induction false} ComparedOne(u: Syn, k: nat, name: bytes, base: int, before: Option<nat>, placement: Placement, start: nat, o: Ordering)
    requires Compared(u, k, name, base, before, placement) && k < |u.entries|
    requires o == Cmp(NameText(u.entries[k]), name) && start == base + |BeforeName(u, k)|
    ensures o == Equal ==> MemberIndex(ToMembers(u.entries), name) == k
    ensures o != Equal ==> Compared(u, k + 1, name, base, FirstGreater(before, start, o, placement), placement)
    ensures u.entries[k..] != [] && u.entries[k..][0] == u.entries[k] && u.entries[k..][1..] == u.entries[k + 1..]
  {
    hide Cmp, BeforeName, MemberIndex, GreaterIndex, ToMembers, NameText;
    var left := u.entries[k..];
    assert left[1..] == u.entries[k + 1..];
    CmpEqual(NameText(u.entries[k]), name);
    FindStep(left, name);
    GreaterStep(left, name);
  }

  /** The spot of a member that does not exist yet. */
  function NewSpot(ms: seq<Member>, name: bytes, before: Option<nat>): Spot {
    if before.Some? then Before(GreaterIndex(ms, name)) else AtEnd
  }

  lemma {:induction false} ComparedAll(u: Syn, seg: Seg, op: Op, base: int, before: Option<nat>, placement: Placement)
    requires u.SContainer? && u.obj && Compared(u, |u.entries|, SegName(seg), base, before, placement)
    ensures SpotIn(ToTree(u), op, seg, placement) == Some(NewSpot(ToMembers(u.entries), SegName(seg), before))
  {
    hide SegName, BeforeName;
  }

  lemma MemberFound(u: Syn, seg: Seg, op: Op, placement: Placement)
    requires u.SContainer? && u.obj && MemberIndex(ToMembers(u.entries), SegName(seg)) < |u.entries|
    ensures SpotIn(ToTree(u), op, seg, placement) == Some(Over(MemberIndex(ToMembers(u.entries), SegName(seg))))
  {
    hide SegName;
  }

  /** `t` is the spot, and the parser is at it, or at the value to replace. */
  ghost predicate AtSpot(p: Parser, t: Target, u: Syn, spot: Spot, seg: Seg, rest: bytes, placement: Placement)
    requires p.Valid() && (spot.Whole? || u.SContainer?) && (spot.Over? || spot.Before? ==> spot.k < |u.entries|)
    reads p, p.src, p.stack, p.stack.bits
  {
    var (i, j) := SpotSpan(u, spot);
    t.start == StartOf(p, u, rest) + i && t.kind == SpotKind(u, spot, seg) && t.replace == (spot.Whole? || spot.Over?) && i <= j &&
    if t.replace then
      ValueAt(p.state, p.Rest(), p.Levels(), p.Room()).Some? &&
      var v := ValueAt(p.state, p.Rest(), p.Levels(), p.Room()).value;
      |SynBytes(v.item)| == j - i && StartOf(p, v.item, v.rest) == t.start == p.src.Offset() && !p.state.InStr?
    else i == j && (placement == End || !spot.Before? ==> p.src.Offset() == t.start)
  }

  /** Before the first greater name, when there is one. */
  lemma AtGreater(p: Parser, u: Syn, seg: Seg, start: nat, rest: bytes, placement: Placement)
    requires p.Valid() && u.SContainer? && u.obj
    requires Compared(u, |u.entries|, SegName(seg), StartOf(p, u, rest), Some(start), placement)
    ensures var g := GreaterIndex(ToMembers(u.entries), SegName(seg));
            g < |u.entries| && AtSpot(p, Target(start, false, MemberKind(false, true, seg)), u, Before(g), seg, rest, placement)
  {
    hide SegName, BeforeName, SynBytes, ToTree, GreaterIndex, MemberIndex;
  }

  /** At the end, when there is none. */
  lemma AtTheEnd(p: Parser, u: Syn, seg: Seg, rest: bytes, placement: Placement)
    requires p.Valid() && u.SContainer? && u.obj && AtClosing(true, p.Rest(), rest)
    ensures AtSpot(p, Target(p.src.Offset(), false, MemberKind(u.entries != [], false, seg)), u, AtEnd, seg, rest, placement)
  {
    hide SegName, SynBytes, ToTree;
    ClosingLength(true, p.Rest(), rest);
    ClosingLast(u);
  }

  /** At the closing bracket: a new entry goes there, or before the first greater one. */
  lemma AtNewMember(p: Parser, u: Syn, seg: Seg, op: Op, before: Option<nat>, rest: bytes, placement: Placement)
    requires p.Valid() && u.SContainer? && u.obj && AtClosing(true, p.Rest(), rest)
    requires Compared(u, |u.entries|, SegName(seg), StartOf(p, u, rest), before, placement)
    ensures var t := match before
                     case Some(s) => Target(s, false, MemberKind(false, true, seg))
                     case None => Target(p.src.Offset(), false, MemberKind(u.entries != [], false, seg));
            var spot := NewSpot(ToMembers(u.entries), SegName(seg), before);
            SpotIn(ToTree(u), op, seg, placement) == Some(spot) && AtSpot(p, t, u, spot, seg, rest, placement)
  {
    hide SegName, AtToken, ToTree, SpotIn, AtSpot, Compared, AtClosing, GreaterIndex;
    ComparedAll(u, seg, op, StartOf(p, u, rest), before, placement);
    match before {
      case Some(start) => AtGreater(p, u, seg, start, rest, placement);
      case None => AtTheEnd(p, u, seg, rest, placement);
    }
  }

  /** At the value of entry `k`. */
  lemma AtOldEntry(p: Parser, u: Syn, k: nat, seg: Seg, rest: bytes, placement: Placement)
    requires p.Valid() && u.SContainer? && k < |u.entries| && !p.state.ObjColon? && InEntry(p, u.obj, u.entries[k..], rest)
    ensures AtSpot(p, Target(p.src.Offset(), true, ValueKind), u, Over(k), seg, rest, placement)
  {
    hide BeforeValue, SynBytes, AtToken, ParseTail, InEntry, PeekFrom, ParseValue;
    var after := AtChild(p, u, k, rest);
    PeekedRest(p, u, k, rest, after);
  }

  lemma PeekedRest(p: Parser, u: Syn, k: nat, rest: bytes, after: bytes)
    requires p.Valid() && u.SContainer? && k < |u.entries| && !p.state.ObjColon? && InEntry(p, u.obj, u.entries[k..], rest)
    requires Facing(p, u.entries[k].value, after)
    ensures p.Rest() == SynBytes(u.entries[k].value) + after && !p.state.InStr?
  {
    hide SynBytes, AtToken, ParseTail, ParseValue;
    var q := Peeked(ValueToken(p.Rest()[0]).value, p.state, p.Rest());
    ValueTokenIsValue(p.Rest()[0]);
    SkipHere(q, p.Levels(), p.Room());
    TokenFactsOf(q, p.Levels());
    ParseValueSound(p.Rest(), p.Room());
  }

  /** `t` is the spot of a Set or Insert in `u`. */
  ghost predicate InPlace(p: Parser, t: Target, op: Op, u: Syn, seg: Seg, rest: bytes, placement: Placement)
    requires p.Valid()
    reads p, p.src, p.stack, p.stack.bits
  {
    SpotIn(ToTree(u), op, seg, placement).Some? &&
    AtSpot(p, t, u, SpotIn(ToTree(u), op, seg, placement).value, seg, rest, placement)
  }

  /** Before member `k`, with the names of those before it compared. */
  ghost predicate AtMember(p: Parser, k: nat, u: Syn, name: bytes, rest: bytes, any: bool, before: Option<nat>, placement: Placement)
    requires p.Valid()
    reads p, p.src, p.stack, p.stack.bits
  {
    Compared(u, k, name, StartOf(p, u, rest), before, placement) && u.obj && any == (k > 0) &&
    InList(p, true, u.entries[k..], rest)
  }

  /** The end of the object. */
  method NewMember(p: Parser, seg: Seg, any: bool, before: Option<nat>, ghost placement: Placement, ghost op: Op, ghost u: Syn, ghost rest: bytes)
    returns (t: Target)
    requires p.Valid()
    ensures u.SContainer? && u.obj && AtClosing(true, p.Rest(), rest) && any == (u.entries != []) &&
            Compared(u, |u.entries|, SegName(seg), StartOf(p, u, rest), before, placement) ==>
              InPlace(p, t, op, u, seg, rest, placement)
  {
    hide SegName, SynBytes, AtClosing, SpotIn, ToTree, AtSpot, Compared;
    t := match before
      case Some(s) => Target(s, false, MemberKind(false, true, seg))
      case None => Target(p.src.Offset(), false, MemberKind(any, false, seg));
    if u.SContainer? && u.obj && AtClosing(true, p.Rest(), rest) && any == (u.entries != []) &&
       Compared(u, |u.entries|, SegName(seg), StartOf(p, u, rest), before, placement)
    {
      AtNewMember(p, u, seg, op, before, rest, placement);
    }
  }

  /** The member exists: its value is replaced. */
  method OldMember(p: Parser, seg: Seg, ghost k: nat, ghost placement: Placement, ghost op: Op, ghost u: Syn, ghost rest: bytes)
    returns (r: Res<Target>)
    requires p.Valid() && p.state == ObjColon
    modifies p`state, p`stash, p.src`pos, p.src`end, p.src`pending, p.src`out
    ensures p.Valid()
    ensures u.SContainer? && u.obj && k < |u.entries| && k == MemberIndex(ToMembers(u.entries), SegName(seg)) &&
            old(InEntry(p, true, u.entries[k..], rest)) ==>
              r.Ok? && InPlace(p, r.value, op, u, seg, rest, placement)
  {
    hide SegName, SynBytes, InEntry, SpotIn, ToTree, AtSpot, AtToken;
    ghost var ok := u.SContainer? && u.obj && k < |u.entries| && k == MemberIndex(ToMembers(u.entries), SegName(seg));
    ghost var left := if ok then u.entries[k..] else [];
    ghost var in_ := InEntry(p, true, left, rest);
    var t := PeekEntry(p, true, left, rest);
    r := if t.Ok? then Ok(Target(p.src.Offset(), true, ValueKind)) else Err(t.kind);
    if ok && in_ {
      MemberFound(u, seg, op, placement);
      AtOldEntry(p, u, k, seg, rest, placement);
    }
  }

  /** One member of the object. */
  method MemberTurn(p: Parser, seg: Seg, any: bool, before: Option<nat>, placement: Placement, ghost k: nat, ghost op: Op, ghost u: Syn, ghost rest: bytes)
    returns (r: Res<Option<Target>>, before': Option<nat>)
    requires p.Valid()
    modifies p`state, p`stash, p.src`pos, p.src`end, p.src`pending, p.src`out, p.stack`depth, p.stack.bits
    ensures p.Valid()
    ensures r.Ok? && r.value.None? ==> |p.Rest()| < |old(p.Rest())|
    ensures old(AtMember(p, k, u, SegName(seg), rest, any, before, placement)) ==>
              r.Ok? &&
              if r.value.None? then AtMember(p, k + 1, u, SegName(seg), rest, true, before', placement)
              else InPlace(p, r.value.value, op, u, seg, rest, placement)
  {
    hide Facing, InEntry, InList, SegName, SynBytes, AtClosing, InPlace, Compared, BeforeName, Cmp, FromNameLength, MemberIndex, ToMembers;
    before' := before;
    ghost var at, base := AtMember(p, k, u, SegName(seg), rest, any, before, placement), StartOf(p, u, rest);
    ghost var left := [];
    if at {
      ComparedBounds(u, k, SegName(seg), base, before, placement);
      left := u.entries[k..];
    }
    var m :- ReadMember(p, seg, left, rest);
    if m.None? {
      var t := NewMember(p, seg, any, before, placement, op, u, rest);
      r := Ok(Some(t));
    } else {
      if at {
        NameOffset(u, k);
        ComparedOne(u, k, SegName(seg), base, before, placement, m.value.0, m.value.1);
      }
      if m.value.1 == Equal {
        var t :- OldMember(p, seg, k, placement, op, u, rest);
        r := Ok(Some(t));
      } else {
        before' := FirstGreater(before, m.value.0, m.value.1, placement);
        var _ :- SkipEntry(p, true, left, rest);
        r := Ok(None);
      }
    }
  }

  lemma ComparedBounds(u: Syn, k: nat, name: bytes, base: int, before: Option<nat>, placement: Placement)
    requires Compared(u, k, name, base, before, placement)
    ensures u.SContainer? && k <= |u.entries| && |u.entries[k..]| == |u.entries| - k
  {
  }

  /** The spot of a member with the name `seg`, in the object that comes next. The whole object is read, unless the
      member exists. */
  method LocateMember(p: Parser, seg: Seg, placement: Placement, ghost op: Op, ghost u: Syn, ghost rest: bytes) returns (r: Res<Target>)
    requires p.Valid()
    modifies p`state, p`stash, p.src`pos, p.src`end, p.src`pending, p.src`out, p.stack`depth, p.stack.bits
    ensures p.Valid()
    ensures old(Facing(p, u, rest)) && u.SContainer? && u.obj ==> r.Ok? && InPlace(p, r.value, op, u, seg, rest, placement)
  {
    hide Facing, InList, SegName, SynBytes, InPlace, Compared;
    ghost var ok, k := Facing(p, u, rest) && u.SContainer? && u.obj, 0;
    var _ :- EnterContainer(p, true, u, rest);
    var any, before, found := false, None, None;
    if ok {
      ComparedNone(u, SegName(seg), StartOf(p, u, rest), placement);
    }
    while found.None?
      invariant p.Valid()
      invariant ok ==>
                  if found.None? then AtMember(p, k, u, SegName(seg), rest, any, before, placement)
                  else InPlace(p, found.value, op, u, seg, rest, placement)
      decreases found.None?, |p.Rest()|
    {
      found, before :- MemberTurn(p, seg, any, before, placement, k, op, u, rest);
      any, k := true, k + 1;
    }
    r := Ok(found.value);
  }

  // ---------- elements ----------

  /** Before element `k`. */
  ghost predicate AtElement(p: Parser, k: nat, u: Syn, rest: bytes)
    requires p.Valid()
    reads p, p.src, p.stack, p.stack.bits
  {
    u.SContainer? && !u.obj && k <= |u.entries| && InList(p, false, u.entries[k..], rest)
  }

  /** Before element `k`, or the closing bracket, which was peeked. */
  ghost predicate ElementPeeked(p: Parser, t: Token, k: nat, u: Syn, rest: bytes)
    requires p.Valid()
    reads p, p.src, p.stack, p.stack.bits
  {
    u.SContainer? && !u.obj && k <= |u.entries| && (t.EndArray? <==> k == |u.entries|) &&
    if t.EndArray? then AtClosing(false, p.Rest(), rest)
    else
      InEntry(p, false, u.entries[k..], rest) && !p.state.ObjColon? &&
      p.src.Offset() == StartOf(p, u, rest) + |BeforeName(u, k)|
  }

  method PeekElement(p: Parser, ghost k: nat, ghost u: Syn, ghost rest: bytes) returns (r: Res<Token>)
    requires p.Valid()
    modifies p`state, p`stash, p.src`pos, p.src`end, p.src`pending, p.src`out
    ensures p.Valid() && (r.Ok? ==> |p.Rest()| <= |old(p.Rest())|)
    ensures old(AtElement(p, k, u, rest)) ==> r.Ok? && ElementPeeked(p, r.value, k, u, rest)
  {
    hide InList, InEntry, AtToken, AtClosing, SynBytes, BeforeName, AtEntry, TailBytes, NameBytes;
    ghost var at := AtElement(p, k, u, rest);
    ghost var left := if at then u.entries[k..] else [];
    r := PeekEntry(p, false, left, rest);
    if at && r.Ok? {
      PeekedFacts(Peeked(r.value, p.state, p.Rest()), p.Levels());
      if left != [] {
        EntryLength(false, left, p.Rest(), rest, p.Room());
        NameOffset(u, k);
      }
    }
  }

  method SkipElement(p: Parser, ghost t: Token, ghost k: nat, ghost u: Syn, ghost rest: bytes) returns (r: Res<()>)
    requires p.Valid() && !t.EndArray?
    modifies p`state, p`stash, p.src`pos, p.src`end, p.src`pending, p.src`out, p.stack`depth, p.stack.bits
    ensures p.Valid() && (r.Ok? ==> |p.Rest()| < |old(p.Rest())|)
    ensures old(ElementPeeked(p, t, k, u, rest)) ==>
              r.Ok? && AtElement(p, k + 1, u, rest) && p.src.Offset() == StartOf(p, u, rest) + |ThroughValue(u, k)|
  {
    hide InList, InEntry, AtClosing, SynBytes, BeforeName, AfterEntry, ThroughValue;
    ghost var at := ElementPeeked(p, t, k, u, rest);
    ghost var left := if at then u.entries[k..] else [];
    r := SkipEntry(p, false, left, rest);
    if at && r.Ok? {
      assert left[1..] == u.entries[k + 1..];
      AfterOffset(u, k, p.Rest(), rest, p.Room());
    }
  }

  /** The three spots of an edit in an array. */
  lemma ElementSpot(p: Parser, t: Token, k: nat, u: Syn, seg: Seg, op: Op, rest: bytes, placement: Placement)
    requires p.Valid() && ElementPeeked(p, t, k, u, rest)
    ensures t.EndArray? ==> AtSpot(p, Target(p.src.Offset(), false, ElementKind(k > 0, false)), u, AtEnd, seg, rest, placement)
    ensures !t.EndArray? ==>
              AtSpot(p, Target(p.src.Offset(), false, ElementKind(false, true)), u, Before(k), seg, rest, placement) &&
              AtSpot(p, Target(p.src.Offset(), true, ValueKind), u, Over(k), seg, rest, placement)
  {
    hide InEntry, SynBytes, BeforeName, BeforeValue, ValueAt;
    if t.EndArray? {
      ClosingLength(false, p.Rest(), rest);
      ClosingLast(u);
    } else {
      AtOldEntry(p, u, k, seg, rest, placement);
    }
  }

  /** What SpotIn says of an array, by the position where the search for the index stops. */
  lemma SpotInArray(u: Syn, op: Op, seg: Seg, placement: Placement, k: nat)
    requires u.SContainer? && !u.obj && k <= |u.entries|
    requires IsEndMarker(seg) || SegIndex(seg).Some?
    ensures k == |u.entries| && (IsEndMarker(seg) || k <= SegIndex(seg).value) ==>
              SpotIn(ToTree(u), op, seg, placement) == if IsEndMarker(seg) || SegIndex(seg).value == k then Some(AtEnd) else None
    ensures k < |u.entries| && !IsEndMarker(seg) && SegIndex(seg).value == k ==>
              SpotIn(ToTree(u), op, seg, placement) == Some(if op == Insert then Before(k) else Over(k))
  {
    hide SegIndex;
  }

  /** `t` is the spot of a Set or Insert in `u`, if there is one. */
  ghost predicate Answer(p: Parser, t: Option<Target>, op: Op, u: Syn, seg: Seg, rest: bytes, placement: Placement)
    requires p.Valid()
    reads p, p.src, p.stack, p.stack.bits
  {
    match t
    case None => SpotIn(ToTree(u), op, seg, placement) == None
    case Some(x) => InPlace(p, x, op, u, seg, rest, placement)
  }

  /** One element: the answer, when the search ends here. */
  method ElementTurn(p: Parser, target: Option<nat>, i: nat, op: Op, ghost seg: Seg, ghost placement: Placement, ghost u: Syn, ghost rest: bytes)
    returns (r: Res<Option<Option<Target>>>)
    requires p.Valid() && (target.Some? ==> i <= target.value)
    requires target == if IsEndMarker(seg) then None else SegIndex(seg)
    requires IsEndMarker(seg) || SegIndex(seg).Some?
    modifies p`state, p`stash, p.src`pos, p.src`end, p.src`pending, p.src`out, p.stack`depth, p.stack.bits
    ensures p.Valid()
    ensures r.Ok? && r.value.None? ==> |p.Rest()| < |old(p.Rest())| && (target.Some? ==> i < target.value)
    ensures old(AtElement(p, i, u, rest)) ==>
              r.Ok? && if r.value.None? then AtElement(p, i + 1, u, rest) else Answer(p, r.value.value, op, u, seg, rest, placement)
  {
    hide InList, SegIndex, SynBytes, ElementPeeked, SpotIn, ToTree, AtSpot, IsEndMarker;
    ghost var at := AtElement(p, i, u, rest);
    var t :- PeekElement(p, i, u, rest);
    if at {
      ElementBounds(p, t, i, u, rest);
      ElementSpot(p, t, i, u, seg, op, rest, placement);
      SpotInArray(u, op, seg, placement, i);
    }
    if t.EndArray? {
      r := Ok(Some(if target.None? || target == Some(i) then Some(Target(p.src.Offset(), false, ElementKind(i > 0, false))) else None));
    } else if target == Some(i) {
      r := Ok(Some(Some(if op == Insert then Target(p.src.Offset(), false, ElementKind(false, true))
                        else Target(p.src.Offset(), true, ValueKind))));
    } else {
      var _ :- SkipElement(p, t, i, u, rest);
      r := Ok(None);
    }
  }

  /** The spot of an element in the array that comes next, if the index is not past its end. */
  method LocateElement(p: Parser, seg: Seg, op: Op, ghost placement: Placement, ghost u: Syn, ghost rest: bytes)
    returns (r: Res<Option<Target>>)
    requires p.Valid()
    modifies p`state, p`stash, p.src`pos, p.src`end, p.src`pending, p.src`out, p.stack`depth, p.stack.bits
    ensures p.Valid()
    ensures old(Facing(p, u, rest)) && u.SContainer? && !u.obj ==> r.Ok? && Answer(p, r.value, op, u, seg, rest, placement)
  {
    hide Facing, InList, SegIndex, SynBytes, SpotIn, ToTree, InPlace, IsEndMarker;
    ghost var ok := Facing(p, u, rest) && u.SContainer? && !u.obj;
    var target := if IsEndMarker(seg) then None else SegIndex(seg);
    if !IsEndMarker(seg) && target.None? {
      NoIndex(u, op, seg, placement);
      return Ok(None);
    }
    var _ :- EnterContainer(p, false, u, rest);
    if ok {
      assert u.entries[0..] == u.entries;
    }
    var i, found := 0, None;
    while found.None?
      invariant p.Valid() && (found.None? && target.Some? ==> i <= target.value)
      invariant ok ==> if found.None? then AtElement(p, i, u, rest) else Answer(p, found.value, op, u, seg, rest, placement)
      decreases found.None?, |p.Rest()|
    {
      found :- ElementTurn(p, target, i, op, seg, placement, u, rest);
      i := i + 1;
    }
    r := Ok(found.value);
  }

  lemma ElementBounds(p: Parser, t: Token, k: nat, u: Syn, rest: bytes)
    requires p.Valid() && ElementPeeked(p, t, k, u, rest)
    ensures u.SContainer? && k <= |u.entries| && (t.EndArray? <==> k == |u.entries|)
  {
  }

  lemma NoIndex(u: Syn, op: Op, seg: Seg, placement: Placement)
    requires !IsEndMarker(seg) && SegIndex(seg).None?
    ensures u.SContainer? && !u.obj ==> SpotIn(ToTree(u), op, seg, placement) == None
  {
    hide SegIndex;
  }

  // ---------- the whole search ----------

  /** Finds the spot of a Set or Insert in the next value. */
  method LocateIn(p: Parser, seg: Seg, op: Op, placement: Placement, ghost u: Syn, ghost rest: bytes) returns (r: Res<Option<Target>>)
    requires p.Valid()
    modifies p`state, p`stash, p.src`pos, p.src`end, p.src`pending, p.src`out, p.stack`depth, p.stack.bits
    ensures p.Valid()
    ensures old(Facing(p, u, rest)) ==> r.Ok? && Answer(p, r.value, op, u, seg, rest, placement)
  {
    hide Facing, SynBytes, SpotIn, ToTree, InPlace;
    NotAContainer(u, seg, op, placement);
    var t :- PeekValue(p, u, rest);
    if t.BeginObject? {
      var m :- LocateMember(p, seg, placement, op, u, rest);
      r := Ok(Some(m));
    } else if t.BeginArray? {
      r := LocateElement(p, seg, op, placement, u, rest);
    } else {
      r := Ok(None);
    }
  }

  lemma NotAContainer(u: Syn, seg: Seg, op: Op, placement: Placement)
    ensures !u.SContainer? ==> SpotIn(ToTree(u), op, seg, placement) == None
  {
  }

  /** The end of the array that comes next; none, if it is no array. */
  method LocatePush(p: Parser, ghost seg: Seg, ghost placement: Placement, ghost u: Syn, ghost rest: bytes) returns (r: Res<Option<Target>>)
    requires p.Valid()
    modifies p`state, p`stash, p.src`pos, p.src`end, p.src`pending, p.src`out, p.stack`depth, p.stack.bits
    ensures p.Valid()
    ensures old(Facing(p, u, rest)) ==>
              r.Ok? && (r.value.Some? <==> u.SContainer? && !u.obj) &&
              (r.value.Some? ==> AtSpot(p, r.value.value, u, AtEnd, seg, rest, placement))
  {
    hide Facing, InList, SynBytes, ElementPeeked, AtSpot;
    ghost var facing := Facing(p, u, rest);
    var t :- PeekValue(p, u, rest);
    if !t.BeginArray? {
      return Ok(None);
    }
    var _ :- EnterContainer(p, false, u, rest);
    if facing {
      assert u.entries[0..] == u.entries;
    }
    ghost var k := 0;
    var any := false;
    t :- PeekElement(p, k, u, rest);
    while !t.EndArray?
      invariant p.Valid() && any == (k > 0)
      invariant facing ==> ElementPeeked(p, t, k, u, rest)
      decreases !t.EndArray?, |p.Rest()|
    {
      var _ :- SkipElement(p, t, k, u, rest);
      any, k := true, k + 1;
      t :- PeekElement(p, k, u, rest);
    }
    if facing {
      ElementSpot(p, t, k, u, seg, Push, rest, placement);
    }
    r := Ok(Some(Target(p.src.Offset(), false, ElementKind(any, false))));
  }

  /** The target is where the patch says, and the parser is there too, unless the place of a new member was known only
      later. */
  ghost predicate AtPatch(p: Parser, t: Option<Target>, q: Option<Patch>, c: Syn, rest: bytes, placement: Placement)
    requires p.Valid()
    reads p, p.src, p.stack, p.stack.bits
  {
    (t.Some? <==> q.Some?) &&
    (t.Some? ==>
       t.value.start == StartOf(p, c, rest) + q.value.start && t.value.kind == q.value.kind && q.value.start <= q.value.end &&
       (t.value.replace <==> q.value.kind.ValueKind?) &&
       if t.value.replace then
         ValueAt(p.state, p.Rest(), p.Levels(), p.Room()).Some? &&
         var v := ValueAt(p.state, p.Rest(), p.Levels(), p.Room()).value;
         |SynBytes(v.item)| == q.value.end - q.value.start && StartOf(p, v.item, v.rest) == t.value.start == p.src.Offset() &&
         !p.state.InStr?
       else q.value.start == q.value.end && (placement == End ==> p.src.Offset() == t.value.start))
  }

  lemma SpotGivesPatch(p: Parser, t: Target, c: Syn, rest: bytes, op: Op, path: seq<Seg>, placement: Placement, site: Site, l: Located, after: bytes)
    requires p.Valid() && SiteOf(ToTree(c), op, path, placement) == Some(site) && SeekSyn(c, site.path) == Some(l)
    requires StartOf(p, l.value, after) == StartOf(p, c, rest) + l.off
    requires (site.spot.Whole? || l.value.SContainer?) && (site.spot.Over? || site.spot.Before? ==> site.spot.k < |l.value.entries|)
    requires AtSpot(p, t, l.value, site.spot, LastSeg(path), after, placement)
    ensures AtPatch(p, Some(t), PatchOf(c, op, path, placement), c, rest, placement)
  {
    hide SynBytes, SiteOf, SeekSyn, ToTree, ValueAt, BeforeName, BeforeValue, ThroughValue;
    PatchParts(c, op, path, placement, site, l);
  }

  lemma PatchParts(c: Syn, op: Op, path: seq<Seg>, placement: Placement, site: Site, l: Located)
    requires SiteOf(ToTree(c), op, path, placement) == Some(site) && SeekSyn(c, site.path) == Some(l)
    requires (site.spot.Whole? || l.value.SContainer?) && (site.spot.Over? || site.spot.Before? ==> site.spot.k < |l.value.entries|)
    ensures var (i, j) := SpotSpan(l.value, site.spot);
            PatchOf(c, op, path, placement) == Some(Patch(l.off + i, l.off + j, SpotKind(l.value, site.spot, LastSeg(path))))
  {
    hide SpotSpan, SpotKind, SeekSyn, SiteOf, ToTree, SynBytes, Lookup;
  }

  /** The sites of the three kinds of edit. */
  lemma SitesOf(c: Syn, op: Op, path: seq<Seg>, placement: Placement)
    ensures op == Push ==>
              SiteOf(ToTree(c), op, path, placement)
              == match SeekSyn(c, path)
                 case None => None
                 case Some(l) => if l.value.SContainer? && !l.value.obj then Some(Site(path, AtEnd, [])) else None
    ensures op != Push && (op == Replace || path == []) ==>
              SiteOf(ToTree(c), op, path, placement) == if SeekSyn(c, path).Some? then Some(Site(path, Whole, [])) else None
    ensures op != Push && op != Replace && path != [] ==>
              SiteOf(ToTree(c), op, path, placement)
              == match SeekSyn(c, path[..|path| - 1])
                 case None => None
                 case Some(l) =>
                   match SpotIn(ToTree(l.value), op, path[|path| - 1], placement)
                   case None => None
                   case Some(spot) => Some(Site(path[..|path| - 1], spot, SegName(path[|path| - 1])))
  {
    hide SpotIn, SegName, Lookup, SeekSyn;
    SeekIsLookup(c, path);
    if path != [] {
      SeekIsLookup(c, path[..|path| - 1]);
    }
  }

  lemma NoSiteNoPatch(c: Syn, op: Op, path: seq<Seg>, placement: Placement)
    requires SiteOf(ToTree(c), op, path, placement).None?
    ensures PatchOf(c, op, path, placement).None?
  {
  }
}
