/** Finding members, elements and values, and leaving containers. */
module Navigation {
  import opened Bytes
  import opened Grammar
  import opened Reader
  import opened Automaton
  import opened Compare
  import opened Paths
  import opened Results
  import opened Sources
  import opened TreeEdit
  import opened Parsing
  import opened Lists
  import opened Stepping

  // ---------- members ----------

  /** Among the members: before the first of `es`, or after its name, which is not the one. */
  ghost predicate Searching(p: Parser, es: seq<Entry>, name: bytes, rest: bytes)
    requires p.Valid()
    reads p, p.src, p.stack, p.stack.bits
  {
    if p.state.ObjColon? then es != [] && NameText(es[0]) != name && InEntry(p, true, es, rest)
    else InList(p, true, es, rest)
  }

  /** The search ended: at the value of the first of `es`, or at the closing bracket. */
  ghost predicate Searched(p: Parser, found: bool, es: seq<Entry>, name: bytes, rest: bytes)
    requires p.Valid()
    reads p, p.src, p.stack, p.stack.bits
  {
    if found then es != [] && NameText(es[0]) == name && p.state == ObjValue && InEntry(p, true, es, rest)
    else es == [] && AtClosing(true, p.Rest(), rest)
  }

  /** At a name: compares it and, when it is the one, goes to its value. */
  method FindHere(p: Parser, seg: Seg, ghost es: seq<Entry>, ghost rest: bytes) returns (r: Res<Option<bool>>)
    requires p.Valid() && AtToken(Peeked(KeyToken, p.state, p.Rest()), p.Levels())
    modifies p`state, p`stash, p.src`pos, p.src`end, p.src`pending, p.src`out, p.stack`depth, p.stack.bits
    ensures p.Valid()
    ensures r.Ok? ==> p.Levels() == old(p.Levels()) && p.stash == [] && |p.Rest()| < |old(p.Rest())|
    ensures r.Ok? ==> r.value != Some(false)
    ensures old(AtEntry(true, es, p.Rest(), rest, p.Room())) ==>
              r.Ok? && if r.value.None? then Searching(p, es, SegName(seg), rest) else Searched(p, true, es, SegName(seg), rest)
  {
    hide Cmp, SegName, AtEntry, InList, InEntry, AtToken, AtClosing, NameText;
    var o := CmpName(p, seg, es, rest);
    if o.Err? {
      r := Err(o.kind);
    } else {
      if es != [] {
        CmpEqual(NameText(es[0]), SegName(seg));
      }
      if o.value == Equal {
        var v := PeekEntry(p, true, es, rest);
        r := if v.Ok? then Ok(Some(true)) else Err(v.kind);
      } else {
        r := Ok(None);
      }
    }
  }

  /** One turn of the search. */
  method FindTurn(p: Parser, seg: Seg, ghost es: seq<Entry>, ghost rest: bytes)
    returns (r: Res<Option<bool>>, ghost es': seq<Entry>)
    requires p.Valid()
    modifies p`state, p`stash, p.src`pos, p.src`end, p.src`pending, p.src`out, p.stack`depth, p.stack.bits
    ensures p.Valid()
    ensures r.Ok? ==> p.Levels() == old(p.Levels()) && p.stash == [] && (r.value.None? ==> |p.Rest()| < |old(p.Rest())|)
    ensures r == Ok(Some(false)) ==> AtToken(Peeked(EndObject, p.state, p.Rest()), p.Levels())
    ensures old(Searching(p, es, SegName(seg), rest)) ==>
              r.Ok? && (es' == es || (es != [] && NameText(es[0]) != SegName(seg) && es' == es[1..])) &&
              if r.value.None? then Searching(p, es', SegName(seg), rest)
              else Searched(p, r.value.value, es', SegName(seg), rest)
  {
    hide Cmp, SegName, AtEntry, InList, InEntry, AtToken, AtClosing, NameText;
    es' := es;
    var t := PeekEntry(p, true, es, rest);
    if t.Err? {
      r := Err(t.kind);
    } else if t.value.KeyToken? {
      r := FindHere(p, seg, es, rest);
    } else if t.value.EndObject? {
      r := Ok(Some(false));
    } else if IsValue(t.value) && p.state.ObjValue? {
      var skipped := SkipEntry(p, true, es, rest);
      r := if skipped.Ok? then Ok(None) else Err(skipped.kind);
      es' := if es != [] then es[1..] else [];
      if r.Ok? {
        NotAfterName(p, es', rest);
      }
    } else {
      r := Err(TypeMismatch);
    }
  }

  lemma NotAfterName(p: Parser, es: seq<Entry>, rest: bytes)
    requires p.Valid()
    ensures InList(p, true, es, rest) ==> !p.state.ObjColon?
  {
  }

  lemma {:induction false} FindStep(es: seq<Entry>, name: bytes)
    requires es != []
    ensures MemberIndex(ToMembers(es), name)
         == if NameText(es[0]) == name then 0 else 1 + MemberIndex(ToMembers(es[1..]), name)
  {
    assert ToMembers(es)[1..] == ToMembers(es[1..]);
  }

  /** Goes to the value of the first of the remaining members that the segment designates: false, at the closing
      bracket, if there is none. */
  method FindMember(p: Parser, seg: Seg, ghost es: seq<Entry>, ghost rest: bytes) returns (r: Res<bool>)
    requires p.Valid()
    modifies p`state, p`stash, p.src`pos, p.src`end, p.src`pending, p.src`out, p.stack`depth, p.stack.bits
    ensures p.Valid()
    ensures r.Ok? ==> p.Levels() == old(p.Levels()) && p.stash == []
    ensures r == Ok(false) ==> AtToken(Peeked(EndObject, p.state, p.Rest()), p.Levels())
    ensures old(InList(p, true, es, rest)) ==>
              var k := MemberIndex(ToMembers(es), SegName(seg));
              r == Ok(k < |es|) && Searched(p, r.value, es[k..], SegName(seg), rest)
  {
    hide SegName, InEntry, Remaining, NameText, AtClosing, AtToken;
    ghost var k: nat, name, levels, left := 0, SegName(seg), p.Levels(), es;
    ghost var ok, goal := InList(p, true, es, rest), MemberIndex(ToMembers(es), name);
    var found := None;
    assert es[0..] == es;
    NotAfterName(p, es, rest);
    while found.None?
      invariant p.Valid() && p.Levels() == levels
      invariant found.Some? ==> p.stash == []
      invariant found == Some(false) ==> AtToken(Peeked(EndObject, p.state, p.Rest()), p.Levels())
      invariant ok ==> k <= |es| && left == es[k..] && goal == k + MemberIndex(ToMembers(left), name)
      invariant ok ==> if found.None? then Searching(p, left, name, rest) else Searched(p, found.value, left, name, rest)
      decreases found.None?, |p.Rest()|
    {
      ghost var before := left;
      found, left :- FindTurn(p, seg, left, rest);
      if ok && left != before {
        FindStep(before, name);
        k := k + 1;
      }
    }
    if ok && left != [] {
      FindStep(left, name);
    }
    r := Ok(found.value);
  }

  // ---------- elements ----------

  /** At element `idx`, counting from the current one: false, at the closing bracket, if there is none. */
  method NthElement(p: Parser, idx: nat, ghost es: seq<Entry>, ghost rest: bytes) returns (r: Res<bool>)
    requires p.Valid()
    modifies p`state, p`stash, p.src`pos, p.src`end, p.src`pending, p.src`out, p.stack`depth, p.stack.bits
    ensures p.Valid()
    ensures r.Ok? ==> p.Levels() == old(p.Levels()) && p.stash == []
    ensures r == Ok(false) ==> AtToken(Peeked(EndArray, p.state, p.Rest()), p.Levels())
    ensures old(InList(p, false, es, rest)) ==>
              r == Ok(idx < |es|) &&
              if r.value then PeekedValue(p) && InEntry(p, false, es[idx..], rest) else AtClosing(false, p.Rest(), rest)
  {
    hide InEntry, Remaining, InList, AtClosing, AtEntry, AtToken;
    ghost var levels, left := p.Levels(), es;
    ghost var ok := InList(p, false, es, rest);
    var i, found := 0, None;
    assert es[0..] == es;
    while found.None?
      invariant p.Valid() && p.Levels() == levels && i <= idx
      invariant found.Some? ==> p.stash == []
      invariant found == Some(false) ==> AtToken(Peeked(EndArray, p.state, p.Rest()), p.Levels())
      invariant ok ==> i <= |es| && left == es[i..]
      invariant ok && found.None? ==> InList(p, false, left, rest)
      invariant ok && found == Some(false) ==> i == |es| && AtClosing(false, p.Rest(), rest)
      invariant ok && found == Some(true) ==> i == idx < |es| && PeekedValue(p) && InEntry(p, false, left, rest)
      decreases found.None?, |p.Rest()|
    {
      var t :- PeekEntry(p, false, left, rest);
      if t.EndArray? {
        found := Some(false);
      } else if !IsValue(t) {
        return Err(TypeMismatch);
      } else if i == idx {
        PeekedFacts(Peeked(t, p.state, p.Rest()), levels);
        found := Some(true);
      } else {
        var _ :- SkipEntry(p, false, left, rest);
        i := i + 1;
        left := if left != [] then left[1..] else [];
      }
    }
    assert ok && found.value ==> left == es[idx..];
    r := Ok(found.value);
  }
}
