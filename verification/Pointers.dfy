/** JSON Pointers (RFC 6901) as paths. */
module Pointers {
  import opened Bytes
  import opened Numbers
  import opened Grammar
  import opened Compare
  import opened Paths
  import opened TreeEdit
  import opened SynEdit
  import opened Patches

  /** The position of the first slash, or the length. */
  function FirstSlash(s: bytes): (i: nat)
    ensures i <= |s| && (i < |s| ==> s[i] == SLASH) && forall k :: 0 <= k < i ==> s[k] != SLASH
  {
    if s == [] || s[0] == SLASH then 0 else 1 + FirstSlash(s[1..])
  }

  /** The reference tokens between the slashes. */
  function Split(s: bytes): (r: seq<Seg>)
    ensures r != []
    decreases |s|
  {
    var i := FirstSlash(s);
    if i == |s| then [Pointer(s)] else [Pointer(s[..i])] + Split(s[i + 1..])
  }

  /** The path that a pointer stands for. The empty pointer is the root; a missing leading slash is tolerated. */
  function Segments(pointer: bytes): seq<Seg> {
    if pointer == [] then [] else if pointer[0] == SLASH then Split(pointer[1..]) else Split(pointer)
  }

  /** The iterator over the tokens of a pointer. */
  class PointerIter {
    var rest: Option<bytes>

    /** The segments still to come. */
    function ToCome(): seq<Seg>
      reads this
    {
      match rest case None => [] case Some(r) => Split(r)
    }

    constructor (pointer: bytes)
      ensures ToCome() == Segments(pointer)
    {
      rest := if pointer == [] then None else Some(if pointer[0] == SLASH then pointer[1..] else pointer);
    }

    method Next() returns (seg: Option<Seg>)
      modifies this
      ensures seg == if old(ToCome()) == [] then None else Some(old(ToCome())[0])
      ensures ToCome() == if old(ToCome()) == [] then [] else old(ToCome())[1..]
    {
      if rest.None? {
        return None;
      }
      var r := rest.value;
      var i := FirstSlash(r);
      if i < |r| {
        rest := Some(r[i + 1..]);
        seg := Some(Pointer(r[..i]));
      } else {
        rest := None;
        seg := Some(Pointer(r));
      }
    }
  }

  lemma FirstSlashOf(a: bytes, t: bytes)
    ensures FirstSlash(a + [SLASH] + t) == if FirstSlash(a) < |a| then FirstSlash(a) else |a|
  {
    var s := a + [SLASH] + t;
    var i, j := FirstSlash(s), FirstSlash(a);
    assert forall k :: 0 <= k < |a| ==> s[k] == a[k];
    assert s[|a|] == SLASH;
  }

  lemma {:induction false} SplitAppend(a: bytes, t: bytes)
    requires SLASH !in t
    ensures Split(a + [SLASH] + t) == Split(a) + [Pointer(t)]
    decreases |a|
  {
    hide FirstSlash;
    FirstSlashOf(a, t);
    SlicesOf(a, t, FirstSlash(a));
    if FirstSlash(a) < |a| {
      SplitAppend(a[FirstSlash(a) + 1..], t);
    } else {
      assert FirstSlash(t) == |t|;
    }
  }

  lemma SlicesOf(a: bytes, t: bytes, i: nat)
    requires i <= |a|
    ensures var s := a + [SLASH] + t;
            s[..i] == a[..i] && (i == |a| ==> s[i + 1..] == t && a[..i] == a) && (i < |a| ==> s[i + 1..] == a[i + 1..] + [SLASH] + t)
  {
  }

  /** One token more is one segment more. */
  lemma SegmentsAppend(path: bytes, t: bytes)
    requires SLASH !in t && (path == [] || path[0] == SLASH)
    ensures Segments(path + [SLASH] + t) == Segments(path) + [Pointer(t)]
  {
    var s := path + [SLASH] + t;
    if path == [] {
      assert s[1..] == t && FirstSlash(t) == |t|;
    } else {
      assert s[1..] == path[1..] + [SLASH] + t;
      SplitAppend(path[1..], t);
    }
  }

  /** The pointer with these reference tokens (section 3 of RFC 6901). */
  function Joined(tokens: seq<bytes>): (p: bytes)
    ensures tokens != [] ==> p != [] && p[0] == SLASH
    ensures tokens == [] ==> p == []
  {
    if tokens == [] then [] else Joined(tokens[..|tokens| - 1]) + [SLASH] + tokens[|tokens| - 1]
  }

  /** A pointer is split into its tokens, also when the leading slash is missing. */
  lemma {:induction false} PointerIsSplit(tokens: seq<bytes>)
    requires forall k :: 0 <= k < |tokens| ==> SLASH !in tokens[k]
    ensures Segments(Joined(tokens)) == seq(|tokens|, k requires 0 <= k < |tokens| => Pointer(tokens[k]))
    ensures tokens != [] && tokens[0] != [] ==> Segments(Joined(tokens)[1..]) == Segments(Joined(tokens))
    decreases |tokens|
  {
    hide Split;
    if tokens != [] {
      var init := tokens[..|tokens| - 1];
      PointerIsSplit(init);
      SegmentsAppend(Joined(init), tokens[|tokens| - 1]);
      if tokens[0] != [] {
        AfterSlash(tokens);
      }
    }
  }

  lemma {:induction false} AfterSlash(tokens: seq<bytes>)
    requires tokens != [] && tokens[0] != []
    ensures |Joined(tokens)| > 1 && Joined(tokens)[1] == tokens[0][0]
    decreases |tokens|
  {
    if |tokens| > 1 {
      AfterSlash(tokens[..|tokens| - 1]);
    }
  }

  // ---------- the pointer of an entry ----------

  /** The token of entry `k` of a container. */
  function ReferenceToken(c: Syn, k: nat): bytes
    requires c.SContainer? && k < |c.entries|
  {
    if c.obj then EscapeToken(NameText(c.entries[k])) else Decimal(k)
  }

  function EntryPath(c: Syn, k: nat, path: bytes): bytes
    requires c.SContainer? && k < |c.entries|
  {
    path + [SLASH] + ReferenceToken(c, k)
  }

  lemma TokenHasNoSlash(c: Syn, k: nat)
    requires c.SContainer? && k < |c.entries|
    ensures SLASH !in ReferenceToken(c, k)
  {
    if c.obj {
      TokenRoundTrip(NameText(c.entries[k]));
    }
  }

  /** No name comes twice, in any object. */
  predicate Distinct(c: Syn)
    decreases c
  {
    c.SContainer? ==>
      (c.obj ==> forall i, j :: 0 <= i < j < |c.entries| ==> NameText(c.entries[i]) != NameText(c.entries[j])) &&
      forall k :: 0 <= k < |c.entries| ==> Distinct(c.entries[k].value)
  }

  /** The token of an entry designates it. */
  lemma {:induction false} TokenFinds(c: Syn, k: nat)
    requires Distinct(c) && c.SContainer? && k < |c.entries| && k <= USIZE_MAX
    ensures ChildOf(ToTree(c), Pointer(ReferenceToken(c, k))) == Some(k)
  {
    if c.obj {
      TokenRoundTrip(NameText(c.entries[k]));
      var ms, name := ToMembers(c.entries), NameText(c.entries[k]);
      forall j | 0 <= j < k
        ensures ms[j].name != name
      {
      }
      FirstNamed(ms, name, k);
    } else {
      ParseIndexExact(Decimal(k), k);
    }
  }

  /** Seeking one segment further. */
  lemma {:induction false} SeekAppend(c: Syn, path: seq<Seg>, seg: Seg, l: Located, k: nat)
    requires SeekSyn(c, path) == Some(l) && ChildOf(ToTree(l.value), seg) == Some(k)
    ensures l.value.SContainer? && k < |l.value.entries|
    ensures SeekSyn(c, path + [seg]) == Some(Located(l.off + |BeforeValue(l.value, k)|, l.value.entries[k].value))
    decreases |path|
  {
    hide BeforeValue, SegName, SegIndex, SynBytes, ToTree, ChildOf;
    ChildInText(l.value, seg);
    if path == [] {
      assert (path + [seg])[1..] == [];
    } else {
      assert (path + [seg])[1..] == path[1..] + [seg];
      ChildInText(c, path[0]);
      var j := ChildOf(ToTree(c), path[0]).value;
      SeekAppend(c.entries[j].value, path[1..], seg, SeekSyn(c.entries[j].value, path[1..]).value, k);
    }
  }
}
