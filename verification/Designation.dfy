/** What a segment of a path designates in a tree, and what edits and removals do there, written out. */
module Designation {
  import opened Bytes
  import opened Numbers
  import opened Grammar
  import opened Compare
  import opened Paths
  import opened TreeEdit
  import opened EditLaws

  // ---------- segments ----------

  /** The segment designates the index `i`: as a number, or by its decimal digits. */
  ghost predicate NamesIndex(seg: Seg, i: nat) {
    i < 0x1_0000_0000_0000_0000 &&
    ((seg.Index? && seg.i == i) || seg == Key(Decimal(i)) || seg == Pointer(Decimal(i)))
  }

  /** The segment designates the name: as it is, by its decimal digits, or escaped as section 4 of RFC 6901 says. */
  ghost predicate NamesMember(seg: Seg, name: bytes) {
    seg == Key(name) ||
    (seg.Index? && name == Decimal(seg.i)) ||
    (seg.Pointer? && name == Substitute(Substitute(seg.token, DIGIT_1, SLASH), DIGIT_0, TILDE))
  }

  /** The segment is the hyphen. */
  ghost predicate IsHyphen(seg: Seg) {
    seg == Key(['-' as int]) || seg == Pointer(['-' as int])
  }

  /** The segment designates an element of an array of length `n`. */
  ghost predicate NamesElement(seg: Seg, n: nat) {
    exists i :: 0 <= i < n && NamesIndex(seg, i)
  }

  lemma SegIndexExact(seg: Seg, i: nat)
    ensures SegIndex(seg) == Some(i) <==> NamesIndex(seg, i)
  {
    hide Decimal, ParseIndex;
    match seg {
      case Key(name) => ParseIndexExact(name, i);
      case Index(_) =>
      case Pointer(token) => ParseIndexExact(token, i);
    }
  }

  lemma SegNameExact(seg: Seg, name: bytes)
    ensures SegName(seg) == name <==> NamesMember(seg, name)
  {
    hide Decimal, Unescape, Substitute;
    if seg.Pointer? {
      UnescapeIsTwoPasses(seg.token);
    }
  }

  /** A segment designates no index, or one; the hyphen none. */
  lemma OneIndex(seg: Seg, i: nat, j: nat)
    requires NamesIndex(seg, i)
    ensures !IsHyphen(seg)
    ensures NamesIndex(seg, j) ==> i == j
  {
    hide Decimal;
    SegIndexExact(seg, i);
    SegIndexExact(seg, j);
    DecimalValue(i);
  }

  // ---------- lookups ----------

  /** In an array, a segment finds the element whose index it designates, and nothing else. */
  lemma ElementFound(es: seq<JSON>, seg: Seg, i: nat)
    ensures NamesIndex(seg, i) ==> Lookup(Array(es), [seg]) == if i < |es| then Some(es[i]) else None
    ensures Lookup(Array(es), [seg]).Some? <==> NamesElement(seg, |es|)
  {
    hide SegIndex, NamesIndex, NamesElement, Lookup;
    SegIndexExact(seg, i);
    LookupOne(Array(es), seg);
    ElementNamed(seg, |es|);
  }

  lemma ElementNamed(seg: Seg, n: nat)
    ensures NamesElement(seg, n) <==> SegIndex(seg).Some? && SegIndex(seg).value < n
  {
    hide SegIndex, NamesIndex;
    if SegIndex(seg).Some? {
      SegIndexExact(seg, SegIndex(seg).value);
    }
    if NamesElement(seg, n) {
      var i :| 0 <= i < n && NamesIndex(seg, i);
      SegIndexExact(seg, i);
    }
  }

  /** Member `k` is the first one with this name; there is none, if `k` is their number. */
  ghost predicate FirstNamedAt(ms: seq<Member>, name: bytes, k: nat) {
    k <= |ms| && (k < |ms| ==> ms[k].name == name) && forall j :: 0 <= j < k ==> ms[j].name != name
  }

  lemma {:induction false} FirstNamedIndex(ms: seq<Member>, name: bytes, k: nat)
    requires FirstNamedAt(ms, name, k)
    ensures MemberIndex(ms, name) == k
  {
  }

  /** In an object, a segment finds the first member whose name it designates. */
  lemma MemberFound(ms: seq<Member>, seg: Seg, name: bytes, k: nat)
    requires NamesMember(seg, name) && FirstNamedAt(ms, name, k)
    ensures Lookup(Object(ms), [seg]) == if k < |ms| then Some(ms[k].value) else None
  {
    hide SegName, NamesMember, Lookup;
    SegNameExact(seg, name);
    FirstNamedIndex(ms, name, k);
    LookupOne(Object(ms), seg);
  }

  /** Every name is designated, as it is and as a reference token. */
  lemma NameIsDesignated(name: bytes)
    ensures NamesMember(Key(name), name) && NamesMember(Pointer(EscapeToken(name)), name)
  {
    hide Substitute, EscapeToken;
    TokenRoundTrip(name);
    UnescapeIsTwoPasses(EscapeToken(name));
  }

  /** Other values have no children. */
  lemma NothingFound(t: JSON, seg: Seg)
    requires !t.Array? && !t.Object?
    ensures Lookup(t, [seg]) == None
  {
  }

  // ---------- when an edit applies ----------

  /** Where a Set or Insert may go in an array of length `n`: an element, the place after the last one, or the hyphen. */
  ghost predicate HasPlace(seg: Seg, n: nat) {
    IsHyphen(seg) || NamesElement(seg, n + 1)
  }

  ghost predicate Applies(t: JSON, op: Op, path: seq<Seg>) {
    match op
    case Replace => Lookup(t, path).Some?
    case Push => Lookup(t, path).Some? && Lookup(t, path).value.Array?
    case _ =>
      path == [] ||
      (Lookup(t, path[..|path| - 1]).Some? &&
       match Lookup(t, path[..|path| - 1]).value
       case Object(_) => true
       case Array(es) => HasPlace(path[|path| - 1], |es|)
       case _ => false)
  }

  lemma EditApplies(t: JSON, op: Op, path: seq<Seg>, placement: Placement, v: JSON)
    ensures EditTree(t, op, path, placement, v).Some? <==> Applies(t, op, path)
  {
    hide SpotIn, HasPlace, Put, ApplySpot;
    if op != Push && op != Replace && path != [] && Lookup(t, path[..|path| - 1]).Some? {
      HasSpot(Lookup(t, path[..|path| - 1]).value, op, path[|path| - 1], placement);
    }
  }

  lemma HasSpot(u: JSON, op: Op, seg: Seg, placement: Placement)
    ensures SpotIn(u, op, seg, placement).Some? <==> u.Object? || (u.Array? && HasPlace(seg, |u.elems|))
  {
    hide SegName, SegIndex, NamesElement, MemberIndex, GreaterIndex;
    if u.Array? {
      ElementNamed(seg, |u.elems| + 1);
    }
  }

  // ---------- what it leaves ----------

  /** The value at `path` before and after a change. */
  ghost predicate Becomes(t: JSON, edited: Option<JSON>, path: seq<Seg>, u: JSON, w: JSON) {
    Lookup(t, path) == Some(u) && edited.Some? && Lookup(edited.value, path) == Some(w)
  }

  /** A Set or Insert changes the parent, by what the spot says. */
  lemma ParentBecomes(t: JSON, op: Op, path: seq<Seg>, placement: Placement, v: JSON, spot: Spot)
    requires (op == Set || op == Insert) && path != [] && Lookup(t, path[..|path| - 1]).Some?
    requires SpotIn(Lookup(t, path[..|path| - 1]).value, op, path[|path| - 1], placement) == Some(spot)
    ensures var u := Lookup(t, path[..|path| - 1]).value;
            Becomes(t, EditTree(t, op, path, placement, v), path[..|path| - 1], u, ApplySpot(u, spot, SegName(path[|path| - 1]), v))
  {
    hide SpotIn, ApplySpot, SegName, Put, Lookup;
    var u := Lookup(t, path[..|path| - 1]).value;
    PutIsFound(t, path[..|path| - 1], ApplySpot(u, spot, SegName(path[|path| - 1]), v));
  }

  /** In an array: `-` and the length append, a Set replaces the element, an Insert shifts it and the following ones. */
  lemma ArrayEdit(t: JSON, op: Op, path: seq<Seg>, placement: Placement, v: JSON, es: seq<JSON>, i: nat)
    requires (op == Set || op == Insert) && path != [] && Lookup(t, path[..|path| - 1]) == Some(Array(es))
    ensures var parent, last, edited := path[..|path| - 1], path[|path| - 1], EditTree(t, op, path, placement, v);
            (IsHyphen(last) || NamesIndex(last, |es|) ==> Becomes(t, edited, parent, Array(es), Array(es + [v]))) &&
            (i < |es| && NamesIndex(last, i) ==>
               Becomes(t, edited, parent, Array(es), Array(if op == Set then es[i := v] else es[..i] + [v] + es[i..])))
  {
    hide NamesIndex, SegIndex, SegName, EditTree, Becomes, Lookup;
    var last := path[|path| - 1];
    if IsHyphen(last) || NamesIndex(last, |es|) {
      SegIndexExact(last, |es|);
      ParentBecomes(t, op, path, placement, v, AtEnd);
    }
    if i < |es| && NamesIndex(last, i) {
      OneIndex(last, i, i);
      SegIndexExact(last, i);
      ParentBecomes(t, op, path, placement, v, if op == Set then Over(i) else Before(i));
    }
  }

  /** After an Insert at `i`, index by index: the value is there, the elements before it stay, the others are one further. */
  lemma InsertShifts(t: JSON, parent: seq<Seg>, last: Seg, placement: Placement, v: JSON, es: seq<JSON>, i: nat, j: usize)
    requires Lookup(t, parent) == Some(Array(es)) && i <= |es| && NamesIndex(last, i)
    ensures EditTree(t, Insert, parent + [last], placement, v).Some?
    ensures Lookup(EditTree(t, Insert, parent + [last], placement, v).value, parent + [Index(j)])
         == if j < i then Lookup(t, parent + [Index(j)]) else if j == i then Some(v) else Lookup(t, parent + [Index(j - 1)])
  {
    hide Lookup, EditTree;
    var path := parent + [last];
    assert path[..|path| - 1] == parent && path[|path| - 1] == last;
    ArrayEdit(t, Insert, path, placement, v, es, i);
    var after := EditTree(t, Insert, path, placement, v).value;
    var fs := es[..i] + [v] + es[i..];
    assert i == |es| ==> fs == es + [v];
    LookupAppend(t, parent, [Index(j)]);
    LookupAppend(after, parent, [Index(j)]);
    ElementFound(fs, Index(j), j);
    ElementFound(es, Index(j), j);
    if j > i {
      LookupAppend(t, parent, [Index(j - 1)]);
      ElementFound(es, Index(j - 1), j - 1);
    }
  }

  /** Member `g` is the first one whose name comes after `name`; there is none, if `g` is their number. */
  ghost predicate FirstAfterAt(ms: seq<Member>, name: bytes, g: nat) {
    g <= |ms| && (g < |ms| ==> Precedes(name, ms[g].name)) && forall j :: 0 <= j < g ==> !Precedes(name, ms[j].name)
  }

  lemma FirstAfterIndex(ms: seq<Member>, name: bytes, g: nat)
    requires FirstAfterAt(ms, name, g)
    ensures GreaterIndex(ms, name) == g
  {
    hide Cmp, Precedes;
    var k := GreaterIndex(ms, name);
    if k < g {
      CmpIsBytewise(ms[k].name, name);
    } else if g < k {
      CmpIsBytewise(ms[g].name, name);
    }
  }

  /** There are such members, or places, in every object. */
  lemma PlacesExist(ms: seq<Member>, name: bytes)
    ensures FirstNamedAt(ms, name, MemberIndex(ms, name)) && FirstAfterAt(ms, name, GreaterIndex(ms, name))
  {
    hide Cmp, Precedes;
    forall j | 0 <= j < |ms|
      ensures Cmp(ms[j].name, name) == Greater <==> Precedes(name, ms[j].name)
    {
      CmpIsBytewise(ms[j].name, name);
    }
  }

  /** In an object: a member with the name is replaced, the first one; otherwise the new member goes before the first one
      whose name comes after its own, or to the end when there is none, or when that is asked for. */
  lemma ObjectEdit(t: JSON, op: Op, path: seq<Seg>, placement: Placement, v: JSON, ms: seq<Member>, name: bytes, k: nat, g: nat)
    requires (op == Set || op == Insert) && path != [] && Lookup(t, path[..|path| - 1]) == Some(Object(ms))
    requires NamesMember(path[|path| - 1], name) && FirstNamedAt(ms, name, k) && FirstAfterAt(ms, name, g)
    ensures var parent, edited := path[..|path| - 1], EditTree(t, op, path, placement, v);
            Becomes(t, edited, parent, Object(ms),
                    Object(if k < |ms| then ms[k := Member(name, v)]
                           else if placement == Sorted then ms[..g] + [Member(name, v)] + ms[g..]
                           else ms + [Member(name, v)]))
  {
    hide SegName, NamesMember, EditTree, Becomes, Lookup, FirstAfterAt, MemberIndex, GreaterIndex;
    var last := path[|path| - 1];
    SegNameExact(last, name);
    FirstNamedIndex(ms, name, k);
    FirstAfterIndex(ms, name, g);
    assert g <= |ms| by {
      assert GreaterIndex(ms, name) <= |ms|;
    }
    ParentBecomes(t, op, path, placement, v,
                  if k < |ms| then Over(k) else if placement == Sorted && g < |ms| then Before(g) else AtEnd);
    assert g == |ms| ==> ms[..g] + [Member(name, v)] + ms[g..] == ms + [Member(name, v)];
  }

  /** At the root, the value takes the place of the document. */
  lemma RootEdit(t: JSON, op: Op, placement: Placement, v: JSON)
    requires op != Push
    ensures EditTree(t, op, [], placement, v) == Some(v)
  {
  }

  // ---------- removals ----------

  /** In an array, the element with that index goes; nothing else can be removed from it. */
  lemma ArrayRemoval(t: JSON, path: seq<Seg>, es: seq<JSON>, i: nat)
    requires path != [] && Lookup(t, path[..|path| - 1]) == Some(Array(es))
    ensures i < |es| && NamesIndex(path[|path| - 1], i) ==>
              Becomes(t, RemoveTree(t, path), path[..|path| - 1], Array(es), Array(es[..i] + es[i + 1..]))
    ensures RemoveTree(t, path).Some? <==> NamesElement(path[|path| - 1], |es|)
  {
    hide NamesIndex, NamesElement, SegIndex, Lookup, Put;
    var parent, last := path[..|path| - 1], path[|path| - 1];
    SegIndexExact(last, i);
    ElementNamed(last, |es|);
    if i < |es| && NamesIndex(last, i) {
      PutIsFound(t, parent, Array(es[..i] + es[i + 1..]));
    }
  }

  /** In an object, the first member with that name goes, if there is one. */
  lemma ObjectRemoval(t: JSON, path: seq<Seg>, ms: seq<Member>, name: bytes, k: nat)
    requires path != [] && Lookup(t, path[..|path| - 1]) == Some(Object(ms))
    requires NamesMember(path[|path| - 1], name) && FirstNamedAt(ms, name, k)
    ensures if k < |ms| then Becomes(t, RemoveTree(t, path), path[..|path| - 1], Object(ms), Object(ms[..k] + ms[k + 1..]))
            else RemoveTree(t, path) == None
  {
    hide NamesMember, SegName, Lookup, Put;
    var parent, last := path[..|path| - 1], path[|path| - 1];
    SegNameExact(last, name);
    FirstNamedIndex(ms, name, k);
    if k < |ms| {
      PutIsFound(t, parent, Object(ms[..k] + ms[k + 1..]));
    }
  }
}
