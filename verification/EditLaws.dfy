/** What edits and removals mean for lookups: the new value is found where it was put, and everything else where it was. */
module EditLaws {
  import opened Bytes
  import opened Grammar
  import opened Compare
  import opened Paths
  import opened TreeEdit
  import opened Repeats

  // ---------- replacing a value ----------

  lemma {:induction false} LookupAppend(t: JSON, a: seq<Seg>, b: seq<Seg>)
    ensures Lookup(t, a + b) == match Lookup(t, a) case None => None case Some(u) => Lookup(u, b)
    decreases |a|
  {
    if a == [] {
      assert a + b == b;
    } else {
      assert (a + b)[0] == a[0] && (a + b)[1..] == a[1..] + b;
      if ChildOf(t, a[0]).Some? {
        LookupAppend(Child(t, ChildOf(t, a[0]).value), a[1..], b);
      }
    }
  }

  lemma LookupOne(u: JSON, seg: Seg)
    ensures Lookup(u, [seg]) == match ChildOf(u, seg) case None => None case Some(k) => Some(Child(u, k))
  {
    hide ChildOf;
    if ChildOf(u, seg).Some? {
      assert Lookup(Child(u, ChildOf(u, seg).value), []) == Some(Child(u, ChildOf(u, seg).value));
      assert [seg][1..] == [];
    }
  }

  lemma {:induction false} PutIsFound(t: JSON, path: seq<Seg>, v: JSON)
    requires Lookup(t, path).Some?
    ensures Lookup(Put(t, path, v), path) == Some(v)
    decreases |path|
  {
    if path != [] {
      var k := ChildOf(t, path[0]).value;
      PutIsFound(Child(t, k), path[1..], v);
      ChildOfWithChild(t, k, Put(Child(t, k), path[1..], v), path[0]);
    }
  }

  /** The two paths lead to different children of some value on the way. */
  predicate Apart(t: JSON, p: seq<Seg>, q: seq<Seg>)
    decreases |p|
  {
    p != [] && q != [] && ChildOf(t, p[0]).Some? &&
    (ChildOf(t, q[0]) != ChildOf(t, p[0]) || Apart(Child(t, ChildOf(t, p[0]).value), p[1..], q[1..]))
  }

  lemma {:induction false} PutElsewhere(t: JSON, p: seq<Seg>, v: JSON, q: seq<Seg>)
    requires Apart(t, p, q)
    ensures Lookup(Put(t, p, v), q) == Lookup(t, q)
    decreases |p|
  {
    var k := ChildOf(t, p[0]).value;
    var w := Put(Child(t, k), p[1..], v);
    ChildOfWithChild(t, k, w, q[0]);
    if ChildOf(t, q[0]) == Some(k) {
      PutElsewhere(Child(t, k), p[1..], v, q[1..]);
    }
  }

  // ---------- edits ----------

  /** The value that was put at a spot is found there. */
  lemma SpotIsFound(u: JSON, op: Op, seg: Seg, placement: Placement, v: JSON)
    requires SpotIn(u, op, seg, placement).Some? && (u.Array? ==> !IsEndMarker(seg))
    ensures Lookup(ApplySpot(u, SpotIn(u, op, seg, placement).value, SegName(seg), v), [seg]) == Some(v)
  {
    hide SegName, SegIndex, IsEndMarker, ApplySpot, SpotIn, Lookup;
    LookupOne(ApplySpot(u, SpotIn(u, op, seg, placement).value, SegName(seg), v), seg);
    if u.Object? {
      MemberIsFound(u, op, seg, placement, v);
    } else {
      ElementIsFound(u, op, seg, placement, v);
    }
  }

  lemma MemberIsFound(u: JSON, op: Op, seg: Seg, placement: Placement, v: JSON)
    requires u.Object?
    ensures var spot := SpotIn(u, op, seg, placement).value;
            var w := ApplySpot(u, spot, SegName(seg), v);
            ChildOf(w, seg) == Some(NewIndex(u, spot)) && Child(w, NewIndex(u, spot)) == v
  {
    hide SegName, SegIndex, Cmp, GreaterIndex, MemberIndex;
    var spot := SpotIn(u, op, seg, placement).value;
    var w := ApplySpot(u, spot, SegName(seg), v);
    FirstNamed(w.members, SegName(seg), NewIndex(u, spot));
  }

  lemma ElementIsFound(u: JSON, op: Op, seg: Seg, placement: Placement, v: JSON)
    requires u.Array? && SpotIn(u, op, seg, placement).Some? && !IsEndMarker(seg)
    ensures var w := ApplySpot(u, SpotIn(u, op, seg, placement).value, SegName(seg), v);
            ChildOf(w, seg) == SegIndex(seg) && SegIndex(seg).Some? && Child(w, SegIndex(seg).value) == v
  {
    hide SegName, SegIndex, IsEndMarker;
  }

  /** After a Replace, Set or Insert that applies, the value is found at its path; `-` only says where it was appended. */
  lemma EditIsFound(t: JSON, op: Op, path: seq<Seg>, placement: Placement, v: JSON)
    requires EditTree(t, op, path, placement, v).Some? && op != Push
    requires op != Replace && path != [] && Lookup(t, path[..|path| - 1]).Some? && Lookup(t, path[..|path| - 1]).value.Array? ==>
               !IsEndMarker(path[|path| - 1])
    ensures Lookup(EditTree(t, op, path, placement, v).value, path) == Some(v)
  {
    hide SegName, SegIndex, IsEndMarker, SpotIn, ApplySpot, Put, Lookup;
    if op == Replace || path == [] {
      WholeSpot(Lookup(t, path).value, v);
      PutIsFound(t, path, v);
    } else {
      var parent, last := path[..|path| - 1], path[|path| - 1];
      var u := Lookup(t, parent).value;
      var w := ApplySpot(u, SpotIn(u, op, last, placement).value, SegName(last), v);
      SpotIsFound(u, op, last, placement, v);
      PutIsFound(t, parent, w);
      LookupAppend(Put(t, parent, w), parent, [last]);
      assert path == parent + [last];
    }
  }

  lemma WholeSpot(u: JSON, v: JSON)
    ensures ApplySpot(u, Whole, [], v) == v
  {
  }

  /** A Push appends the value. */
  lemma PushAppends(t: JSON, path: seq<Seg>, placement: Placement, v: JSON)
    ensures EditTree(t, Push, path, placement, v).Some? <==> Lookup(t, path).Some? && Lookup(t, path).value.Array?
    ensures EditTree(t, Push, path, placement, v).Some? ==>
              Lookup(EditTree(t, Push, path, placement, v).value, path) == Some(Array(Lookup(t, path).value.elems + [v]))
  {
    if Lookup(t, path).Some? && Lookup(t, path).value.Array? {
      PutIsFound(t, path, Array(Lookup(t, path).value.elems + [v]));
    }
  }

  /** The path of the value that an operation works on: the parent, for a Set or Insert inside a container. */
  function WorksOn(op: Op, path: seq<Seg>): seq<Seg> {
    if path == [] || op == Replace || op == Push then path else path[..|path| - 1]
  }

  /** What an edit leaves alone: whatever is not inside the value that it works on. */
  lemma EditElsewhere(t: JSON, op: Op, path: seq<Seg>, placement: Placement, v: JSON, q: seq<Seg>)
    requires EditTree(t, op, path, placement, v).Some? && Apart(t, WorksOn(op, path), q)
    ensures Lookup(EditTree(t, op, path, placement, v).value, q) == Lookup(t, q)
  {
    hide ApplySpot, SiteOf;
    SiteIsThere(t, op, path, placement);
    var s := SiteOf(t, op, path, placement).value;
    PutElsewhere(t, s.path, ApplySpot(Lookup(t, s.path).value, s.spot, s.name, v), q);
  }

  lemma SiteIsThere(t: JSON, op: Op, path: seq<Seg>, placement: Placement)
    ensures SiteOf(t, op, path, placement).Some? ==> SiteOf(t, op, path, placement).value.path == WorksOn(op, path)
  {
    hide SpotIn;
  }

  /** The value of the first member with a name. */
  function Named(ms: seq<Member>, name: bytes): Option<JSON> {
    if MemberIndex(ms, name) < |ms| then Some(ms[MemberIndex(ms, name)].value) else None
  }

  lemma {:induction false} NamedAppend(a: seq<Member>, b: seq<Member>, name: bytes)
    ensures Named(a + b, name) == if Named(a, name).Some? then Named(a, name) else Named(b, name)
  {
    if a == [] {
      assert a + b == b;
    } else {
      assert (a + b)[0] == a[0] && (a + b)[1..] == a[1..] + b;
      NamedAppend(a[1..], b, name);
    }
  }

  /** Around a position. */
  lemma NamedAround(ms: seq<Member>, i: nat, mid: seq<Member>, j: nat, name: bytes)
    requires i <= j <= |ms|
    requires Named(mid, name) == None && Named(ms[i..j], name) == None
    ensures Named(ms[..i] + mid + ms[j..], name) == Named(ms, name)
  {
    NamedAppend(ms[..i] + mid, ms[j..], name);
    NamedAppend(ms[..i], mid, name);
    NamedAppend(ms[..i], ms[i..j], name);
    NamedAppend(ms[..i] + ms[i..j], ms[j..], name);
    assert ms == ms[..i] + ms[i..j] + ms[j..];
  }

  lemma NamedOne(m: Member, name: bytes)
    requires m.name != name
    ensures Named([m], name) == None && Named([], name) == None
  {
  }

  /** A Set or Insert in an object leaves all members with other names as they were. */
  lemma OtherMembersStay(u: JSON, op: Op, seg: Seg, placement: Placement, v: JSON, name: bytes)
    requires u.Object? && name != SegName(seg)
    ensures var spot := SpotIn(u, op, seg, placement).value;
            Named(ApplySpot(u, spot, SegName(seg), v).members, name) == Named(u.members, name)
  {
    hide SegName, Cmp, Named, GreaterIndex, MemberIndex;
    var ms, m := u.members, Member(SegName(seg), v);
    NamedOne(m, name);
    match SpotIn(u, op, seg, placement).value {
      case Over(k) => OtherThanReplaced(ms, k, m, name);
      case Before(k) =>
        assert ms[k..k] == [];
        NamedAround(ms, k, [m], k, name);
      case AtEnd =>
        NamedAppend(ms, [m], name);
    }
  }

  lemma OtherThanReplaced(ms: seq<Member>, k: nat, m: Member, name: bytes)
    requires k < |ms| && ms[k].name == m.name != name
    ensures Named(ms[k := m], name) == Named(ms, name)
  {
    hide Named;
    NamedOne(ms[k], name);
    NamedOne(m, name);
    assert ms[k..k + 1] == [ms[k]];
    NamedAround(ms, k, [m], k + 1, name);
    assert ms[k := m] == ms[..k] + [m] + ms[k + 1..];
  }

  // ---------- removals ----------

  /** After the removal of a member, the name designates the next member with that name, or nothing; other names what
      they designated before. */
  lemma RemovalOfMember(ms: seq<Member>, k: nat, name: bytes)
    requires k < |ms| && MemberIndex(ms, ms[k].name) == k
    ensures Named(ms[..k] + ms[k + 1..], name) == if name == ms[k].name then Named(ms[k + 1..], name) else Named(ms, name)
  {
    hide Named;
    NamedAppend(ms[..k], ms[k + 1..], name);
    if name == ms[k].name {
      NoneNamed(ms[..k], name);
    } else {
      NamedOne(ms[k], name);
      assert ms[k..k + 1] == [ms[k]] && ms[..k] + [] == ms[..k];
      NamedAround(ms, k, [], k + 1, name);
    }
  }

  lemma NoneNamed(ms: seq<Member>, name: bytes)
    requires forall j :: 0 <= j < |ms| ==> ms[j].name != name
    ensures Named(ms, name) == None
  {
  }

  /** A removal applies exactly when there is something at the path; then the parent lacks that entry, and whatever is not
      inside the parent stays. */
  lemma RemovalMeans(t: JSON, path: seq<Seg>, q: seq<Seg>)
    ensures RemoveTree(t, path).Some? <==> path != [] && Lookup(t, path).Some?
    ensures RemoveTree(t, path).Some? ==>
              var parent := path[..|path| - 1];
              var u, k := Lookup(t, parent).value, ChildOf(Lookup(t, parent).value, path[|path| - 1]).value;
              Lookup(RemoveTree(t, path).value, parent) == Some(WithoutChild(u, k)) &&
              (Apart(t, parent, q) ==> Lookup(RemoveTree(t, path).value, q) == Lookup(t, q))
  {
    hide WithoutChild, Put, Lookup, ChildOf;
    if path != [] {
      var parent, last := path[..|path| - 1], path[|path| - 1];
      LookupAppend(t, parent, [last]);
      assert path == parent + [last];
      if Lookup(t, parent).Some? {
        var u := Lookup(t, parent).value;
        LookupOne(u, last);
        if ChildOf(u, last).Some? {
          var w := WithoutChild(u, ChildOf(u, last).value);
          PutIsFound(t, parent, w);
          if Apart(t, parent, q) {
            PutElsewhere(t, parent, w, q);
          }
        }
      }
    }
  }
}
