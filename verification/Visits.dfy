/** What a walk over a value visits, in which order, and with which pointers. */
module Visits {
  import opened Bytes
  import opened Numbers
  import opened Grammar
  import opened Automaton
  import opened Paths
  import opened TreeEdit
  import opened SynEdit
  import opened Patches
  import opened Pointers

  /** What to do after a callback. */
  datatype Flow = Continue | Skip | Stop

  /** A callback: a value, or the end of a container, its pointer and its offset. */
  datatype Visit = Visit(path: bytes, token: Token, offset: int)

  /** How a walk ends: after the value, because the last callback said so, or at a pointer that is too long. */
  datatype Ending = ToTheEnd | CutShort | TooLong

  /** The callbacks made, and how the walk ends. */
  datatype Walked = Walked(visits: seq<Visit>, ending: Ending)

  function Follow(a: Walked, b: Walked): Walked {
    if a.ending != ToTheEnd then a else Walked(a.visits + b.visits, b.ending)
  }

  lemma FollowFollow(a: Walked, b: Walked, c: Walked)
    ensures Follow(Follow(a, b), c) == Follow(a, Follow(b, c))
  {
    assert a.visits + b.visits + c.visits == a.visits + (b.visits + c.visits);
  }

  function TokenOf(c: Syn): Token {
    match c
    case SNull => NullToken
    case SBool(_) => BoolToken
    case SNumber(_) => NumberToken
    case SString(_) => StringToken
    case SContainer(obj, _, _) => if obj then BeginObject else BeginArray
  }

  function EndToken(obj: bool): Token { if obj then EndObject else EndArray }

  function Once(v: Visit, decide: Visit -> Flow): Walked {
    Walked([v], if decide(v) == Stop then CutShort else ToTheEnd)
  }

  /** A walk over the value `c` at offset `off`: the value, then what is in it, unless it is skipped, then its end. There
      is room for pointers of at most `limit` bytes. */
  function WalkValue(c: Syn, path: bytes, off: int, limit: nat, decide: Visit -> Flow): Walked
    decreases c, 1, 0
  {
    var v := Visit(path, TokenOf(c), off);
    if c.SContainer? && decide(v) == Continue then Follow(Once(v, decide), WalkEntries(c, 0, path, off, limit, decide))
    else Once(v, decide)
  }

  /** The entries from `k` on, and the end of the container. */
  function WalkEntries(c: Syn, k: nat, path: bytes, off: int, limit: nat, decide: Visit -> Flow): Walked
    requires c.SContainer? && k <= |c.entries|
    decreases c, 0, |c.entries| - k
  {
    if k < |c.entries| then
      if |EntryPath(c, k, path)| > limit then Walked([], TooLong)
      else Follow(WalkValue(c.entries[k].value, EntryPath(c, k, path), off + |BeforeValue(c, k)|, limit, decide),
             WalkEntries(c, k + 1, path, off, limit, decide))
    else Once(Visit(path, EndToken(c.obj), off + |SynBytes(c)| - 1), decide)
  }

  /** Length of the longest pointer in `c`, whose own pointer has length `n`. */
  function LongestPath(c: Syn, n: nat): (m: nat)
    ensures m >= n
    decreases c, 1, 0
  {
    if c.SContainer? then LongestEntry(c, 0, n) else n
  }

  function LongestEntry(c: Syn, k: nat, n: nat): (m: nat)
    requires c.SContainer? && k <= |c.entries|
    ensures m >= n
    decreases c, 0, |c.entries| - k
  {
    if k < |c.entries| then
      Max(LongestPath(c.entries[k].value, n + 1 + |ReferenceToken(c, k)|), LongestEntry(c, k + 1, n))
    else n
  }

  /** A callback that never skips or stops anything. */
  function GoOn(v: Visit): Flow { Continue }

  /** A walk with such a callback gets to the end exactly when there is room for the longest pointer. */
  lemma {:induction false} RoomForLongest(c: Syn, path: bytes, off: int, limit: nat)
    requires |path| <= limit
    ensures WalkValue(c, path, off, limit, GoOn).ending == if LongestPath(c, |path|) <= limit then ToTheEnd else TooLong
    decreases c, 1, 0
  {
    hide SynBytes, BeforeValue;
    if c.SContainer? {
      RoomForEntries(c, 0, path, off, limit);
    }
  }

  lemma {:induction false} RoomForEntries(c: Syn, k: nat, path: bytes, off: int, limit: nat)
    requires |path| <= limit && c.SContainer? && k <= |c.entries|
    ensures WalkEntries(c, k, path, off, limit, GoOn).ending == if LongestEntry(c, k, |path|) <= limit then ToTheEnd else TooLong
    decreases c, 0, |c.entries| - k
  {
    hide SynBytes, BeforeValue, ReferenceToken, WalkValue, LongestPath;
    if k < |c.entries| && |EntryPath(c, k, path)| <= limit {
      RoomForLongest(c.entries[k].value, EntryPath(c, k, path), off + |BeforeValue(c, k)|, limit);
      RoomForEntries(c, k + 1, path, off, limit);
    }
  }

  // ---------- seeking back ----------

  /** The pointer of the visit finds the value where it was visited; at the end of a container, the container whose closing
      bracket is there. */
  ghost predicate Found(root: Syn, base: int, v: Visit) {
    SeekSyn(root, Segments(v.path)).Some? &&
    var l := SeekSyn(root, Segments(v.path)).value;
    if IsValue(v.token) then v.offset == base + l.off && TokenOf(l.value) == v.token
    else l.value.SContainer? && v.token == EndToken(l.value.obj) && v.offset == base + l.off + |SynBytes(l.value)| - 1
  }

  ghost predicate AllFound(root: Syn, base: int, vs: seq<Visit>) {
    forall i :: 0 <= i < |vs| ==> Found(root, base, vs[i])
  }

  lemma NoneFound(root: Syn, base: int)
    ensures AllFound(root, base, [])
  {
  }

  lemma FoundFollow(root: Syn, base: int, a: Walked, b: Walked)
    requires AllFound(root, base, a.visits) && AllFound(root, base, b.visits)
    ensures AllFound(root, base, Follow(a, b).visits)
  {
    hide Found;
  }

  /** Where a value is that can be found. */
  ghost predicate At(root: Syn, base: int, c: Syn, path: bytes, off: int) {
    SeekSyn(root, Segments(path)).Some? && SeekSyn(root, Segments(path)).value.value == c &&
    off == base + SeekSyn(root, Segments(path)).value.off && (path == [] || path[0] == SLASH)
  }

  lemma EntryIsFound(root: Syn, base: int, c: Syn, path: bytes, off: int, k: nat)
    requires At(root, base, c, path, off) && Distinct(c) && c.SContainer? && k < |c.entries| && k <= USIZE_MAX
    ensures At(root, base, c.entries[k].value, EntryPath(c, k, path), off + |BeforeValue(c, k)|)
  {
    hide SeekSyn, Segments, Distinct, ReferenceToken, BeforeValue, ToTree, ChildOf, SynBytes;
    TokenHasNoSlash(c, k);
    TokenFinds(c, k);
    SegmentsAppend(path, ReferenceToken(c, k));
    SeekAppend(root, Segments(path), Pointer(ReferenceToken(c, k)), SeekSyn(root, Segments(path)).value, k);
  }

  /** When names are unique, the pointer of every value that is visited leads back to it. */
  lemma {:induction false} VisitsAreFound(root: Syn, base: int, c: Syn, path: bytes, off: int, limit: nat, decide: Visit -> Flow)
    requires At(root, base, c, path, off) && Distinct(c) && |SynBytes(c)| <= USIZE_MAX
    ensures AllFound(root, base, WalkValue(c, path, off, limit, decide).visits)
    decreases c, 1, 0
  {
    hide SeekSyn, Segments, Distinct, SynBytes, WalkEntries;
    if c.SContainer? {
      EntriesAreFound(root, base, c, 0, path, off, limit, decide);
      FoundFollow(root, base, Once(Visit(path, TokenOf(c), off), decide), WalkEntries(c, 0, path, off, limit, decide));
    }
  }

  lemma {:induction false} EntriesAreFound(root: Syn, base: int, c: Syn, k: nat, path: bytes, off: int, limit: nat, decide: Visit -> Flow)
    requires At(root, base, c, path, off) && Distinct(c) && |SynBytes(c)| <= USIZE_MAX && c.SContainer? && k <= |c.entries|
    ensures AllFound(root, base, WalkEntries(c, k, path, off, limit, decide).visits)
    decreases c, 0, |c.entries| - k
  {
    hide SeekSyn, Segments, SynBytes, WalkValue, EntryPath, At, Found, AllFound, BeforeValue;
    if k < |c.entries| {
      EntriesFit(c, k);
      EntryIsFound(root, base, c, path, off, k);
      VisitsAreFound(root, base, c.entries[k].value, EntryPath(c, k, path), off + |BeforeValue(c, k)|, limit, decide);
      EntriesAreFound(root, base, c, k + 1, path, off, limit, decide);
      NoneFound(root, base);
      FoundFollow(root, base, WalkValue(c.entries[k].value, EntryPath(c, k, path), off + |BeforeValue(c, k)|, limit, decide),
                  WalkEntries(c, k + 1, path, off, limit, decide));
    } else {
      EndIsFound(root, base, c, path, off);
    }
  }

  /** A walk over `c`, which starts at offset `off`: when names are unique, seeking the pointer of a visited value from
      where the walk started leads back to the offset of the visit. */
  lemma WalkLeadsBack(c: Syn, off: nat, limit: nat, decide: Visit -> Flow)
    requires Distinct(c) && |SynBytes(c)| <= USIZE_MAX
    ensures AllFound(c, off, WalkValue(c, [], off, limit, decide).visits)
  {
    hide Distinct, SynBytes, WalkValue, AllFound, ToTree;
    VisitsAreFound(c, off, c, [], off, limit, decide);
  }

  lemma EndIsFound(root: Syn, base: int, c: Syn, path: bytes, off: int)
    requires At(root, base, c, path, off) && c.SContainer?
    ensures AllFound(root, base, [Visit(path, EndToken(c.obj), off + |SynBytes(c)| - 1)])
  {
    hide SeekSyn, Segments, SynBytes;
  }

  /** Entries take room: an index is no larger than the text, nor is a value longer. */
  lemma EntriesFit(c: Syn, k: nat)
    requires c.SContainer? && k < |c.entries|
    ensures k < |SynBytes(c)| && |SynBytes(c.entries[k].value)| <= |SynBytes(c)|
  {
    hide SynBytes, EntryBytes;
    ContainerAt(c, k);
    LeadLength(c.entries[..k]);
  }

  lemma {:induction false} LeadLength(es: seq<Entry>)
    ensures |LeadBytes(es)| >= |es|
  {
    hide EntryBytes;
    if es != [] {
      LeadLength(es[1..]);
    }
  }

  // ---------- document order ----------

  /** The visits are at increasing offsets, between `lo` and `hi`. */
  ghost predicate Rising(vs: seq<Visit>, lo: int, hi: int) {
    (forall i :: 0 <= i < |vs| ==> lo <= vs[i].offset < hi) &&
    (forall i, j :: 0 <= i < j < |vs| ==> vs[i].offset < vs[j].offset)
  }

  lemma RisingNone(lo: int, hi: int)
    ensures Rising([], lo, hi)
  {
  }

  lemma RisingFollow(a: Walked, b: Walked, lo: int, mid: int, hi: int)
    requires Rising(a.visits, lo, mid) && Rising(b.visits, mid, hi) && lo <= mid <= hi
    ensures Rising(Follow(a, b).visits, lo, hi)
  {
  }

  /** A walk visits values and ends in the order of the document, each of them once, and nothing outside the value. */
  lemma {:induction false} WalkInOrder(c: Syn, path: bytes, off: int, limit: nat, decide: Visit -> Flow)
    requires Wf(c)
    ensures SynBytes(c) != [] && Rising(WalkValue(c, path, off, limit, decide).visits, off, off + |SynBytes(c)|)
    decreases c, 1, 0
  {
    hide WalkEntries, Rising, SynBytes, IsNumber;
    NotEmpty(c);
    RisingOnce(Visit(path, TokenOf(c), off), off, off + 1, decide);
    RisingOnce(Visit(path, TokenOf(c), off), off, off + |SynBytes(c)|, decide);
    if c.SContainer? {
      EntriesInOrder(c, 0, path, off, limit, decide);
      RisingFollow(Once(Visit(path, TokenOf(c), off), decide), WalkEntries(c, 0, path, off, limit, decide), off, off + 1, off + |SynBytes(c)|);
    }
  }

  lemma NotEmpty(c: Syn)
    requires Wf(c)
    ensures SynBytes(c) != []
  {
  }

  lemma RisingOnce(v: Visit, lo: int, hi: int, decide: Visit -> Flow)
    requires lo <= v.offset < hi
    ensures Rising(Once(v, decide).visits, lo, hi)
  {
  }

  /** Where entry `k` may start: after the opening bracket, or after the value before it. */
  function EntryStart(c: Syn, k: nat): nat
    requires c.SContainer? && k <= |c.entries|
  {
    if k == 0 then 1 else |BeforeValue(c, k - 1)| + |SynBytes(c.entries[k - 1].value)|
  }

  lemma EntryStarts(c: Syn, k: nat)
    requires c.SContainer? && k < |c.entries|
    ensures EntryStart(c, k) <= |BeforeValue(c, k)|
  {
    hide SynBytes, EntryBytes, LeadBytes, NameBytes;
    if k > 0 {
      var es := c.entries[..k];
      assert es[..k - 1] == c.entries[..k - 1] && es[k - 1] == c.entries[k - 1];
      LeadLast(es);
      EntryLength(es[k - 1]);
    }
  }

  lemma EntryLength(e: Entry)
    ensures |EntryBytes(e)| == |e.pre| + |NameBytes(e.name)| + |SynBytes(e.value)| + |e.post|
  {
    hide SynBytes, NameBytes;
  }

  lemma {:induction false} LeadLast(es: seq<Entry>)
    requires es != []
    ensures |LeadBytes(es)| == |LeadBytes(es[..|es| - 1])| + |EntryBytes(es[|es| - 1])| + 1
  {
    hide EntryBytes;
    if |es| > 1 {
      LeadLast(es[1..]);
      assert es[1..][..|es| - 2] == es[..|es| - 1][1..];
    }
  }

  lemma EntriesEnd(c: Syn)
    requires c.SContainer?
    ensures EntryStart(c, |c.entries|) < |SynBytes(c)|
  {
    hide BeforeValue;
    if c.entries != [] {
      ContainerAt(c, |c.entries| - 1);
    }
  }

  lemma {:induction false} EntriesInOrder(c: Syn, k: nat, path: bytes, off: int, limit: nat, decide: Visit -> Flow)
    requires Wf(c) && c.SContainer? && k <= |c.entries|
    ensures EntryStart(c, k) < |SynBytes(c)|
    ensures Rising(WalkEntries(c, k, path, off, limit, decide).visits, off + EntryStart(c, k), off + |SynBytes(c)|)
    decreases c, 0, |c.entries| - k
  {
    hide SynBytes, WalkValue, BeforeValue, EntryPath, Rising, Wf;
    if k < |c.entries| {
      var v := c.entries[k].value;
      var start := off + |BeforeValue(c, k)|;
      var first := WalkValue(v, EntryPath(c, k, path), start, limit, decide);
      EntryStarts(c, k);
      WfValue(c, k);
      WalkInOrder(v, EntryPath(c, k, path), start, limit, decide);
      EntriesInOrder(c, k + 1, path, off, limit, decide);
      RisingNone(off + EntryStart(c, k), off + |SynBytes(c)|);
      RisingWider(first.visits, start, start + |SynBytes(v)|, off + EntryStart(c, k));
      RisingFollow(first, WalkEntries(c, k + 1, path, off, limit, decide), off + EntryStart(c, k), off + EntryStart(c, k + 1), off + |SynBytes(c)|);
    } else {
      EntriesEnd(c);
      RisingOnce(Visit(path, EndToken(c.obj), off + |SynBytes(c)| - 1), off + EntryStart(c, k), off + |SynBytes(c)|, decide);
    }
  }

  lemma RisingWider(vs: seq<Visit>, lo: int, hi: int, lower: int)
    requires Rising(vs, lo, hi) && lower <= lo
    ensures Rising(vs, lower, hi)
  {
  }

  lemma WfValue(c: Syn, k: nat)
    requires Wf(c) && c.SContainer? && k < |c.entries|
    ensures Wf(c.entries[k].value)
  {
    WfAt(c.obj, c.entries, k);
  }
}
