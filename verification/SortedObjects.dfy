/** One object whose names are sorted keeps them sorted, whatever the rest of the document and the written values are. */
module SortedObjects {
  import opened Bytes
  import opened Grammar
  import opened Compare
  import opened Paths
  import opened TreeEdit
  import opened Repeats
  import opened EditLaws
  import opened SortedRuns

  /** There is an object at `q`, and its names are strictly sorted. */
  predicate SortedAt(t: JSON, q: seq<Seg>) {
    Lookup(t, q).Some? && Lookup(t, q).value.Object? && SortedNames(Lookup(t, q).value.members)
  }

  // ---------- where an object is, seen from a change ----------

  /** What is left of `q` from the value at `p` on; none, when `q` does not lead through that value. */
  function Beyond(t: JSON, p: seq<Seg>, q: seq<Seg>): Option<seq<Seg>>
    decreases |p|
  {
    if p == [] then Some(q)
    else if q == [] || ChildOf(t, p[0]).None? || ChildOf(t, q[0]) != ChildOf(t, p[0]) then None
    else Beyond(Child(t, ChildOf(t, p[0]).value), p[1..], q[1..])
  }

  lemma {:induction false} LookupBeyond(t: JSON, p: seq<Seg>, q: seq<Seg>)
    requires Lookup(t, p).Some? && Beyond(t, p, q).Some?
    ensures Lookup(t, q) == Lookup(Lookup(t, p).value, Beyond(t, p, q).value)
    decreases |p|
  {
    hide ChildOf;
    if p != [] {
      LookupBeyond(Child(t, ChildOf(t, p[0]).value), p[1..], q[1..]);
    }
  }

  /** The other child of a value, when one is replaced. */
  lemma LookupOther(t: JSON, k: nat, v: JSON, q: seq<Seg>)
    requires (t.Object? && k < |t.members|) || (t.Array? && k < |t.elems|)
    requires q != [] && ChildOf(t, q[0]) != Some(k)
    ensures Lookup(WithChild(t, k, v), q) == Lookup(t, q)
  {
    hide ChildOf;
    ChildOfWithChild(t, k, v, q[0]);
    if ChildOf(t, q[0]).Some? {
      assert Child(WithChild(t, k, v), ChildOf(t, q[0]).value) == Child(t, ChildOf(t, q[0]).value);
    }
  }

  lemma SameNamesSorted(ms: seq<Member>, k: nat, v: JSON)
    requires k < |ms| && SortedNames(ms)
    ensures SortedNames(ms[k := Member(ms[k].name, v)])
  {
    hide Cmp;
  }

  /** Replacing the value at `p` keeps the object sorted, if the object is elsewhere, or around it, or sorted in the new
      value. */
  lemma {:induction false} PutKeeps(t: JSON, p: seq<Seg>, w: JSON, q: seq<Seg>)
    requires Lookup(t, p).Some? && SortedAt(t, q)
    requires Beyond(t, p, q).Some? ==> SortedAt(w, Beyond(t, p, q).value)
    ensures SortedAt(Put(t, p, w), q)
    decreases |p|
  {
    hide SortedNames, ChildOf;
    if p != [] {
      var k := ChildOf(t, p[0]).value;
      var v := Put(Child(t, k), p[1..], w);
      if q == [] {
        SameNamesSorted(t.members, k, v);
      } else if ChildOf(t, q[0]) == Some(k) {
        PutKeeps(Child(t, k), p[1..], w, q[1..]);
        ChildOfWithChild(t, k, v, q[0]);
      } else {
        LookupOther(t, k, v, q);
      }
    }
  }

  // ---------- the value that a change works on ----------

  /** An edit at this spot of `u` leaves in place what `q` leads to: it only gets or replaces a member of the object at
      `[]`, and it does not replace or shift the entry that `q` goes through. */
  predicate Stays(u: JSON, spot: Spot, q: seq<Seg>) {
    match spot
    case Whole => false
    case Over(k) => q == [] || ChildOf(u, q[0]) != Some(k)
    case Before(k) => q == [] || u.Object? || (ChildOf(u, q[0]).Some? && ChildOf(u, q[0]).value < k)
    case AtEnd => true
  }

  /** The same for a removal. */
  predicate StaysWithout(u: JSON, k: nat, q: seq<Seg>) {
    q == [] || (ChildOf(u, q[0]) != Some(k) && (u.Object? || (ChildOf(u, q[0]).Some? && ChildOf(u, q[0]).value < k)))
  }

  lemma LookupFirst(u: JSON, w: JSON, q: seq<Seg>)
    requires q != [] && Lookup(u, [q[0]]) == Lookup(w, [q[0]])
    ensures Lookup(u, q) == Lookup(w, q)
  {
    assert q == [q[0]] + q[1..];
    LookupAppend(u, [q[0]], q[1..]);
    LookupAppend(w, [q[0]], q[1..]);
  }

  lemma LookupNamed(u: JSON, seg: Seg)
    requires u.Object?
    ensures Lookup(u, [seg]) == Named(u.members, SegName(seg))
  {
    hide MemberIndex, SegName, Lookup;
    LookupOne(u, seg);
  }

  lemma ObjectSpotKeeps(u: JSON, op: Op, seg: Seg, v: JSON, q: seq<Seg>)
    requires u.Object? && SortedAt(u, q) && Stays(u, SpotIn(u, op, seg, Sorted).value, q)
    ensures SortedAt(ApplySpot(u, SpotIn(u, op, seg, Sorted).value, SegName(seg), v), q)
  {
    hide SortedNames, SegName, GreaterIndex, Named, Lookup;
    var spot := SpotIn(u, op, seg, Sorted).value;
    if q == [] {
      LookupHere(u);
      LookupHere(ApplySpot(u, spot, SegName(seg), v));
      MembersStaySorted(u.members, op, seg, v);
    } else {
      LookupFound(u, q);
      OtherMembersStay(u, op, seg, Sorted, v, SegName(q[0]));
      LookupNamed(u, q[0]);
      LookupNamed(ApplySpot(u, spot, SegName(seg), v), q[0]);
      LookupFirst(u, ApplySpot(u, spot, SegName(seg), v), q);
    }
  }

  lemma LookupHere(u: JSON)
    ensures Lookup(u, []) == Some(u)
  {
  }

  lemma LookupFound(u: JSON, q: seq<Seg>)
    requires Lookup(u, q).Some? && q != []
    ensures ChildOf(u, q[0]).Some?
  {
  }

  /** A member that is set in a sorted object: replaced, or placed where it sorts. */
  lemma MembersStaySorted(ms: seq<Member>, op: Op, seg: Seg, v: JSON)
    requires SortedNames(ms)
    ensures SortedNames(ApplySpot(Object(ms), SpotIn(Object(ms), op, seg, Sorted).value, SegName(seg), v).members)
  {
    hide SortedNames, SegName;
    var m := Member(SegName(seg), v);
    match SpotIn(Object(ms), op, seg, Sorted).value {
      case Over(k) => SameNamesSorted(ms, k, v);
      case Before(_) => PlacedIsSorted(ms, m);
      case AtEnd =>
        PlacedIsSorted(ms, m);
        assert Placed(ms, m) == ms + [m];
    }
  }

  lemma ArraySpotKeeps(u: JSON, spot: Spot, name: bytes, v: JSON, q: seq<Seg>)
    requires u.Array? && SortedAt(u, q) && Stays(u, spot, q)
    requires spot.Over? || spot.Before? ==> spot.k < |u.elems|
    ensures SortedAt(ApplySpot(u, spot, name, v), q)
  {
    hide SortedNames, SegIndex, Lookup;
    LookupHere(u);
    LookupFound(u, q);
    LookupOne(u, q[0]);
    LookupOne(ApplySpot(u, spot, name, v), q[0]);
    LookupFirst(u, ApplySpot(u, spot, name, v), q);
  }

  lemma WithoutKeeps(u: JSON, seg: Seg, q: seq<Seg>)
    requires ChildOf(u, seg).Some? && SortedAt(u, q) && StaysWithout(u, ChildOf(u, seg).value, q)
    ensures SortedAt(WithoutChild(u, ChildOf(u, seg).value), q)
  {
    hide SortedNames, SegName, SegIndex, Named, Lookup;
    var k := ChildOf(u, seg).value;
    var w := WithoutChild(u, k);
    LookupHere(u);
    LookupHere(w);
    if q == [] {
      FewerSorted(u.members, k);
    } else {
      LookupFound(u, q);
      if u.Object? {
        RemovalOfMember(u.members, k, SegName(q[0]));
        LookupNamed(u, q[0]);
        LookupNamed(w, q[0]);
      } else {
        LookupOne(u, q[0]);
        LookupOne(w, q[0]);
      }
      LookupFirst(u, w, q);
    }
  }

  lemma FewerSorted(ms: seq<Member>, k: nat)
    requires k < |ms| && SortedNames(ms)
    ensures SortedNames(ms[..k] + ms[k + 1..])
  {
    hide Cmp;
    var r := ms[..k] + ms[k + 1..];
    assert forall i :: 0 <= i < |r| ==> r[i] == ms[if i < k then i else i + 1];
  }

  // ---------- changes and runs ----------

  /** The change does not remove, replace or move the object at `q`, nor what that object is in. */
  predicate Spares(t: JSON, c: Change, q: seq<Seg>) {
    match c
    case Change(op, path, _) =>
      (match SiteOf(t, op, path, Sorted)
       case None => true
       case Some(s) => Beyond(t, s.path, q).Some? ==> Stays(Lookup(t, s.path).value, s.spot, Beyond(t, s.path, q).value))
    case Removal(path) =>
      (match RemovalOf(t, path)
       case None => true
       case Some(r) =>
         var at := Beyond(t, path[..|path| - 1], q);
         at.Some? ==> StaysWithout(r.0, r.1, at.value))
  }

  lemma SiteKeeps(t: JSON, op: Op, path: seq<Seg>, v: JSON, q: seq<Seg>)
    requires SortedAt(t, q) && SiteOf(t, op, path, Sorted).Some?
    requires var s := SiteOf(t, op, path, Sorted).value;
             Beyond(t, s.path, q).Some? && Stays(Lookup(t, s.path).value, s.spot, Beyond(t, s.path, q).value)
    ensures var s := SiteOf(t, op, path, Sorted).value;
            SortedAt(ApplySpot(Lookup(t, s.path).value, s.spot, s.name, v), Beyond(t, s.path, q).value)
  {
    hide Lookup, SortedNames, SpotIn, ApplySpot, SegName, Beyond;
    var s := SiteOf(t, op, path, Sorted).value;
    var u := Lookup(t, s.path).value;
    LookupBeyond(t, s.path, q);
    if u.Array? {
      ArraySpotKeeps(u, s.spot, s.name, v, Beyond(t, s.path, q).value);
    } else {
      ObjectSpotKeeps(u, op, path[|path| - 1], v, Beyond(t, s.path, q).value);
    }
  }

  /** A change that spares a sorted object leaves it sorted, in any document and with any value. */
  lemma ChangeKeepsSorted(t: JSON, c: Change, q: seq<Seg>)
    requires SortedAt(t, q) && Spares(t, c, q)
    ensures SortedAt(SortedRuns.Apply(t, c), q)
  {
    hide SortedAt, Stays, StaysWithout, ApplySpot, WithoutChild, Beyond, Lookup, Put, ChildOf;
    match c {
      case Change(op, path, v) =>
        if SiteOf(t, op, path, Sorted).Some? {
          var s := SiteOf(t, op, path, Sorted).value;
          if Beyond(t, s.path, q).Some? {
            SiteKeeps(t, op, path, v, q);
          }
          PutKeeps(t, s.path, ApplySpot(Lookup(t, s.path).value, s.spot, s.name, v), q);
        }
      case Removal(path) =>
        if RemovalOf(t, path).Some? {
          var parent := path[..|path| - 1];
          var r := RemovalOf(t, path).value;
          if Beyond(t, parent, q).Some? {
            SortedBeyond(t, parent, q);
            WithoutKeeps(r.0, path[|path| - 1], Beyond(t, parent, q).value);
          }
          PutKeeps(t, parent, WithoutChild(r.0, r.1), q);
        }
    }
  }

  lemma SortedBeyond(t: JSON, p: seq<Seg>, q: seq<Seg>)
    requires Lookup(t, p).Some? && Beyond(t, p, q).Some? && SortedAt(t, q)
    ensures SortedAt(Lookup(t, p).value, Beyond(t, p, q).value)
  {
    hide Lookup, Beyond, SortedNames;
    LookupBeyond(t, p, q);
  }

  predicate SparesAll(t: JSON, cs: seq<Change>, q: seq<Seg>)
    decreases |cs|
  {
    cs == [] || (Spares(t, cs[0], q) && SparesAll(SortedRuns.Apply(t, cs[0]), cs[1..], q))
  }

  /** Over any run of changes that spare it, a sorted object stays sorted, and its names distinct. */
  lemma {:induction false} RunKeepsObjectSorted(t: JSON, cs: seq<Change>, q: seq<Seg>)
    requires SortedAt(t, q) && SparesAll(t, cs, q)
    ensures SortedAt(ApplyAll(t, cs), q) && DistinctNames(Lookup(ApplyAll(t, cs), q).value.members)
    decreases |cs|
  {
    hide Spares, SortedRuns.Apply, SortedNames, DistinctNames, Lookup;
    if cs == [] {
      SortedIsDistinct(Lookup(t, q).value.members);
    } else {
      ChangeKeepsSorted(t, cs[0], q);
      RunKeepsObjectSorted(SortedRuns.Apply(t, cs[0]), cs[1..], q);
    }
  }

  // ---------- which changes spare an object ----------

  lemma {:induction false} BeyondAround(t: JSON, p: seq<Seg>, q: seq<Seg>)
    requires q <= p && Lookup(t, p).Some?
    ensures Beyond(t, p, q) == if p == q then Some([]) else None
    decreases |p|
  {
    hide ChildOf;
    if p != [] && q != [] {
      assert p[1..] == q[1..] <==> p == q;
      BeyondAround(Child(t, ChildOf(t, p[0]).value), p[1..], q[1..]);
    }
  }

  /** Whatever is done to the members of an object, or inside their values, spares it. */
  lemma MembersSpare(t: JSON, c: Change, q: seq<Seg>)
    requires q < c.path
    ensures Spares(t, c, q)
  {
    hide Beyond, Lookup, SpotIn, ChildOf;
    var parent := c.path[..|c.path| - 1];
    if Lookup(t, c.path).Some? {
      BeyondAround(t, c.path, q);
    }
    if Lookup(t, parent).Some? {
      BeyondAround(t, parent, q);
    }
  }

  lemma {:induction false} ApartBeyond(t: JSON, p: seq<Seg>, q: seq<Seg>)
    requires Apart(t, p, q)
    ensures Beyond(t, p, q) == None
    decreases |p|
  {
    hide ChildOf;
    if ChildOf(t, q[0]) == ChildOf(t, p[0]) {
      ApartBeyond(Child(t, ChildOf(t, p[0]).value), p[1..], q[1..]);
    }
  }

  /** So does a change of another part of the document. */
  lemma ElsewhereSpares(t: JSON, c: Change, q: seq<Seg>)
    requires c.Change? ==> SiteOf(t, c.op, c.path, Sorted).None? || Apart(t, SiteOf(t, c.op, c.path, Sorted).value.path, q)
    requires c.Removal? ==> RemovalOf(t, c.path).None? || Apart(t, c.path[..|c.path| - 1], q)
    ensures Spares(t, c, q)
  {
    hide Beyond, SiteOf, Apart;
    match c {
      case Change(op, path, _) =>
        if SiteOf(t, op, path, Sorted).Some? {
          ApartBeyond(t, SiteOf(t, op, path, Sorted).value.path, q);
        }
      case Removal(path) =>
        if RemovalOf(t, path).Some? {
          ApartBeyond(t, path[..|path| - 1], q);
        }
    }
  }

  /** Over any run of Set, Insert, Remove and whatever else is done to its members or inside their values, an object that
      starts with strictly sorted names keeps them strictly sorted and distinct: in any document, with any values. */
  lemma {:induction false} MemberRunKeepsSorted(t: JSON, cs: seq<Change>, q: seq<Seg>)
    requires SortedAt(t, q) && forall i :: 0 <= i < |cs| ==> q < cs[i].path
    ensures SortedAt(ApplyAll(t, cs), q) && DistinctNames(Lookup(ApplyAll(t, cs), q).value.members)
  {
    hide SortedAt, DistinctNames, ApplyAll;
    MembersSpareAll(t, cs, q);
    RunKeepsObjectSorted(t, cs, q);
  }

  lemma {:induction false} MembersSpareAll(t: JSON, cs: seq<Change>, q: seq<Seg>)
    requires forall i :: 0 <= i < |cs| ==> q < cs[i].path
    ensures SparesAll(t, cs, q)
    decreases |cs|
  {
    hide Spares, SortedRuns.Apply;
    if cs != [] {
      MembersSpare(t, cs[0], q);
      MembersSpareAll(SortedRuns.Apply(t, cs[0]), cs[1..], q);
    }
  }
}
