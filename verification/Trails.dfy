/** The containers that were entered on the way along a path, and what is left of the input when they are closed again. */
module Trails {
  import opened Bytes
  import opened StringGrammar
  import opened Grammar
  import opened Reader
  import opened Automaton
  import opened Paths
  import opened TreeEdit
  import opened SynEdit
  import opened Patches
  import opened Parsing
  import opened Pointers

  /** `after` follows value `k` of `c`, and `rest` follows `c`. */
  ghost predicate Inside(c: Syn, k: nat, rest: bytes, after: bytes, room: nat) {
    c.SContainer? && k < |c.entries| &&
    ParseTail(c.obj, after, room).Some? && ParseTail(c.obj, after, room).value.rest == rest &&
    |SynBytes(c)| + |rest| == |BeforeValue(c, k)| + |SynBytes(c.entries[k].value)| + |after|
  }

  lemma UnfinishedInside(c: Syn, k: nat, rest: bytes, after: bytes, levels: seq<bool>, base: nat, max: nat)
    requires base <= |levels| < max && Inside(c, k, rest, after, max - |levels| - 1)
    ensures RestOf(Unfinished(after, levels + [c.obj], base, max)) == RestOf(Unfinished(rest, levels, base, max))
  {
    var inside := levels + [c.obj];
    assert inside[..|inside| - 1] == levels;
  }

  lemma TakeOfAppend(s: seq<bool>, b: bool, n: nat)
    requires n <= |s|
    ensures (s + [b])[..n] == s[..n]
  {
  }

  // ---------- inputs ----------

  /** The rest of a document. */
  function LastBytes(data: bytes, n: nat): bytes
    requires n <= |data|
  {
    data[|data| - n..]
  }

  lemma SuffixIsLast(s: bytes, data: bytes)
    requires IsSuffix(s, data)
    ensures s == LastBytes(data, |s|)
  {
  }

  lemma PeekFromSkips(state: State, s: bytes, levels: seq<bool>)
    requires PeekFrom(state, s, levels).Some?
    ensures IsSuffix(PeekFrom(state, s, levels).value.rest, s)
  {
    hide PeekToken;
    if state.InStr? {
      var n := ScanChars(s).value;
      ScanCharsSound(s);
      PeekSkips(StringDone(state.key, levels), n.rest);
      SuffixTrans(PeekFrom(state, s, levels).value.rest, n.rest, s);
    } else {
      PeekSkips(state, s);
    }
  }

  /** What follows the next value is what remains of the input. */
  lemma ValueSuffix(state: State, s: bytes, levels: seq<bool>, room: nat, c: Syn, rest: bytes)
    requires ValueAt(state, s, levels, room) == Some(Scanned(c, rest))
    ensures IsSuffix(rest, s) && |SynBytes(c)| + |rest| <= |s|
  {
    hide PeekFrom, ParseValue, SynBytes;
    var q := PeekFrom(state, s, levels).value.rest;
    PeekFromSkips(state, s, levels);
    ParseValueSound(q, room);
    SuffixTrans(rest, q, s);
  }

  // ---------- along a path ----------

  function Shift(l: Option<Located>, off: nat): Option<Located> {
    match l case None => None case Some(m) => Some(Located(off + m.off, m.value))
  }

  lemma SeekStep(c: Syn, path: seq<Seg>)
    requires path != []
    ensures SeekSyn(c, path)
         == match ChildOf(ToTree(c), path[0])
            case None => None
            case Some(k) => Shift(SeekSyn(c.entries[k].value, path[1..]), |BeforeValue(c, k)|)
  {
    hide BeforeValue, ChildOf, ToTree;
  }

  lemma ShiftTwice(l: Option<Located>, a: nat, b: nat)
    ensures Shift(Shift(l, a), b) == Shift(l, b + a)
  {
  }

  lemma SeekHere(c: Syn)
    ensures SeekSyn(c, []) == Some(Located(0, c))
  {
  }

  /** How much of the document follows the value at `path` in `c`, when `rest` follows `c`. */
  function LengthAfter(c: Syn, rest: bytes, path: seq<Seg>): (n: nat) {
    match SeekSyn(c, path)
    case None => 0
    case Some(l) => |SynBytes(c)| - (l.off + |SynBytes(l.value)|) + |rest|
  }

  /** What closing the levels above `base` leaves of the input, from the end of a value on. */
  ghost function Left(after: bytes, levels: seq<bool>, base: nat, max: nat): Option<bytes> {
    if base <= |levels| <= max then RestOf(Unfinished(after, levels, base, max)) else None
  }

  /** `end` is the document from the end of the value at `path` on. */
  ghost predicate EndsThere(end: Option<bytes>, data: bytes, c: Syn, rest: bytes, path: seq<Seg>) {
    SeekSyn(c, path).Some? && LengthAfter(c, rest, path) <= |data| && end == Some(LastBytes(data, LengthAfter(c, rest, path)))
  }

  /** The levels above `base` are those of the containers on the way along `path`: closing all but `j` of them ends right
      after the value at `path[..j]`, and closing more of the levels is closing them from the end of `c` on. */
  ghost predicate Trail(data: bytes, c: Syn, rest: bytes, path: seq<Seg>, after: bytes, levels: seq<bool>, base: nat, max: nat) {
    base <= |levels| <= max && |levels| - base <= |path| &&
    (forall j :: 0 <= j <= |levels| - base ==> EndsThere(Left(after, levels, base + j, max), data, c, rest, path[..j])) &&
    (forall d :: 0 <= d < base ==> Left(after, levels, d, max) == Left(rest, levels[..base], d, max))
  }

  lemma NothingUnfinished(after: bytes, levels: seq<bool>, max: nat)
    requires |levels| <= max
    ensures Left(after, levels, |levels|, max) == Some(after)
  {
  }

  /** After `i` segments: at the value `v`, `off` bytes into `c`. */
  ghost predicate Along(data: bytes, levels: seq<bool>, max: nat, v: Syn, after: bytes, off: nat, c: Syn, rest: bytes, path: seq<Seg>,
                        i: nat, outer: seq<bool>)
  {
    i <= |path| && |levels| == |outer| + i <= max && levels[..|outer|] == outer &&
    SeekSyn(c, path[..i]) == Some(Located(off, v)) && SeekSyn(c, path) == Shift(SeekSyn(v, path[i..]), off) &&
    |SynBytes(c)| + |rest| == off + |SynBytes(v)| + |after| && Left(after, levels, |outer|, max) == Some(rest) &&
    Trail(data, c, rest, path, after, levels, |outer|, max)
  }

  lemma AlongStart(data: bytes, levels: seq<bool>, max: nat, c: Syn, rest: bytes, path: seq<Seg>)
    requires IsSuffix(rest, data) && |levels| <= max
    ensures Along(data, levels, max, c, rest, 0, c, rest, path, 0, levels)
  {
    hide SynBytes, Unfinished, SeekSyn;
    assert path[..0] == [] && path[0..] == path && levels[..|levels|] == levels;
    SeekHere(c);
    NothingUnfinished(rest, levels, max);
  }

  /** One segment further. */
  lemma AlongStep(data: bytes, levels: seq<bool>, max: nat, v: Syn, after: bytes, off: nat, c: Syn, rest: bytes, path: seq<Seg>, i: nat,
                  outer: seq<bool>, k: nat, next: bytes)
    requires Along(data, levels, max, v, after, off, c, rest, path, i, outer)
    requires i < |path| && |levels| < max && ChildOf(ToTree(v), path[i]) == Some(k)
    requires Inside(v, k, after, next, max - |levels| - 1) && IsSuffix(next, data)
    ensures Along(data, levels + [v.obj], max, v.entries[k].value, next, off + |BeforeValue(v, k)|, c, rest, path, i + 1, outer)
  {
    hide SynBytes, Unfinished, BeforeValue, ParseTail, ChildOf, ToTree, SeekSyn, Trail, Left;
    var inner := levels + [v.obj];
    assert path[i..][0] == path[i] && path[i..][1..] == path[i + 1..] && path[..i] + [path[i]] == path[..i + 1];
    SeekStep(v, path[i..]);
    ShiftTwice(SeekSyn(v.entries[k].value, path[i + 1..]), |BeforeValue(v, k)|, off);
    SeekAppend(c, path[..i], path[i], Located(off, v), k);
    TakeOfAppend(levels, v.obj, |outer|);
    LeftInside(v, k, after, next, levels, |outer|, max);
    TrailStep(data, levels, max, v, after, off, c, rest, path, i, |outer|, k, next);
  }

  lemma LeftInside(v: Syn, k: nat, after: bytes, next: bytes, levels: seq<bool>, base: nat, max: nat)
    requires base <= |levels| < max && Inside(v, k, after, next, max - |levels| - 1)
    ensures Left(next, levels + [v.obj], base, max) == Left(after, levels, base, max)
  {
    hide Unfinished, Inside;
    InsideContainer(v, k, after, next, max - |levels| - 1);
    UnfinishedInside(v, k, after, next, levels, base, max);
  }

  lemma InsideContainer(v: Syn, k: nat, after: bytes, next: bytes, room: nat)
    requires Inside(v, k, after, next, room)
    ensures v.SContainer? && k < |v.entries|
  {
  }

  lemma TrailStep(data: bytes, levels: seq<bool>, max: nat, v: Syn, after: bytes, off: nat, c: Syn, rest: bytes, path: seq<Seg>, i: nat,
                  base: nat, k: nat, next: bytes)
    requires Trail(data, c, rest, path, after, levels, base, max) && i < |path| && |levels| == base + i < max
    requires Inside(v, k, after, next, max - |levels| - 1) && IsSuffix(next, data)
    requires |SynBytes(c)| + |rest| == off + |SynBytes(v)| + |after|
    requires SeekSyn(c, path[..i + 1]) == Some(Located(off + |BeforeValue(v, k)|, v.entries[k].value))
    ensures Trail(data, c, rest, path, next, levels + [v.obj], base, max)
  {
    hide SynBytes, Unfinished, BeforeValue, ParseTail, SeekSyn, Left, EndsThere;
    var inner := levels + [v.obj];
    TakeOfAppend(levels, v.obj, base);
    forall d | 0 <= d < base
      ensures Left(next, inner, d, max) == Left(rest, inner[..base], d, max)
    {
      LeftInside(v, k, after, next, levels, d, max);
    }
    forall j | 0 <= j <= |inner| - base
      ensures EndsThere(Left(next, inner, base + j, max), data, c, rest, path[..j])
    {
      if j <= i {
        LeftInside(v, k, after, next, levels, base + j, max);
      } else {
        EndsHere(data, inner, max, v, after, off, c, rest, path[..i + 1], k, next);
      }
    }
  }

  lemma EndsHere(data: bytes, inner: seq<bool>, max: nat, v: Syn, after: bytes, off: nat, c: Syn, rest: bytes, path: seq<Seg>, k: nat,
                 next: bytes)
    requires |inner| <= max && Inside(v, k, after, next, max - |inner|) && IsSuffix(next, data)
    requires |SynBytes(c)| + |rest| == off + |SynBytes(v)| + |after|
    requires SeekSyn(c, path) == Some(Located(off + |BeforeValue(v, k)|, v.entries[k].value))
    ensures EndsThere(Left(next, inner, |inner|, max), data, c, rest, path)
  {
    hide SynBytes, Unfinished, BeforeValue, ParseTail, SeekSyn;
    NothingUnfinished(next, inner, max);
    SuffixIsLast(next, data);
  }
}
