/** Objects whose names are sorted stay sorted, over any run of edits. */
module SortedRuns {
  import opened Bytes
  import opened Grammar
  import opened Compare
  import opened Paths
  import opened TreeEdit

  /** Strictly sorted: every name before all the later ones. */
  predicate SortedNames(ms: seq<Member>) {
    forall i, j :: 0 <= i < j < |ms| ==> Cmp(ms[i].name, ms[j].name) == Less
  }

  /** All objects in the tree are sorted. */
  predicate SortedTree(t: JSON)
    decreases t
  {
    match t
    case Object(ms) => SortedNames(ms) && forall k :: 0 <= k < |ms| ==> SortedTree(ms[k].value)
    case Array(es) => forall k :: 0 <= k < |es| ==> SortedTree(es[k])
    case _ => true
  }

  predicate DistinctNames(ms: seq<Member>) {
    forall i, j :: 0 <= i < j < |ms| ==> ms[i].name != ms[j].name
  }

  lemma SortedIsDistinct(ms: seq<Member>)
    requires SortedNames(ms)
    ensures DistinctNames(ms)
  {
    forall i, j | 0 <= i < j < |ms|
      ensures ms[i].name != ms[j].name
    {
      CmpEqual(ms[i].name, ms[j].name);
    }
  }

  /** A new member just before the first greater name, when no member has its name. */
  function Placed(ms: seq<Member>, m: Member): seq<Member> {
    var g := GreaterIndex(ms, m.name);
    ms[..g] + [m] + ms[g..]
  }

  /** The names before the first greater one are less, and it is where sorting says. */
  lemma PlacedNames(ms: seq<Member>, m: Member, j: nat)
    requires SortedNames(ms) && MemberIndex(ms, m.name) == |ms| && j < |ms|
    ensures j < GreaterIndex(ms, m.name) ==> Cmp(ms[j].name, m.name) == Less
    ensures j >= GreaterIndex(ms, m.name) ==> Cmp(m.name, ms[j].name) == Less
  {
    hide Cmp;
    var g := GreaterIndex(ms, m.name);
    CmpEqual(ms[j].name, m.name);
    if j >= g {
      CmpFlip(m.name, ms[g].name);
      if j > g {
        CmpTrans(m.name, ms[g].name, ms[j].name);
      }
    }
  }

  lemma {:induction false} PlacedIsSorted(ms: seq<Member>, m: Member)
    requires SortedNames(ms) && MemberIndex(ms, m.name) == |ms|
    ensures SortedNames(Placed(ms, m))
  {
    hide Cmp, MemberIndex, GreaterIndex;
    var g := GreaterIndex(ms, m.name);
    var r := Placed(ms, m);
    forall i, j | 0 <= i < j < |r|
      ensures Cmp(r[i].name, r[j].name) == Less
    {
      if i == g {
        PlacedNames(ms, m, j - 1);
      } else if j == g {
        PlacedNames(ms, m, i);
      }
    }
  }

  lemma {:induction false} WithChildSorted(t: JSON, k: nat, v: JSON)
    requires (t.Object? && k < |t.members|) || (t.Array? && k < |t.elems|)
    requires SortedTree(t) && SortedTree(v)
    ensures SortedTree(WithChild(t, k, v))
  {
    hide Cmp;
  }

  lemma {:induction false} PutSorted(t: JSON, path: seq<Seg>, v: JSON)
    requires SortedTree(t) && SortedTree(v)
    ensures SortedTree(Put(t, path, v))
    decreases |path|
  {
    hide Cmp, SegName, SegIndex;
    if path != [] && ChildOf(t, path[0]).Some? {
      var k := ChildOf(t, path[0]).value;
      PutSorted(Child(t, k), path[1..], v);
      WithChildSorted(t, k, Put(Child(t, k), path[1..], v));
    }
  }

  lemma {:induction false} LookupSorted(t: JSON, path: seq<Seg>)
    requires SortedTree(t) && Lookup(t, path).Some?
    ensures SortedTree(Lookup(t, path).value)
    decreases |path|
  {
    hide Cmp, SegName, SegIndex;
    if path != [] {
      LookupSorted(Child(t, ChildOf(t, path[0]).value), path[1..]);
    }
  }

  lemma {:induction false} NewMemberSorted(ms: seq<Member>, name: bytes, v: JSON)
    requires SortedTree(Object(ms)) && SortedTree(v) && MemberIndex(ms, name) == |ms|
    ensures SortedTree(Object(Placed(ms, Member(name, v))))
  {
    hide Cmp, MemberIndex, GreaterIndex;
    PlacedIsSorted(ms, Member(name, v));
  }

  lemma {:induction false} SpotSorted(t: JSON, op: Op, seg: Seg, v: JSON)
    requires SortedTree(t) && SortedTree(v) && SpotIn(t, op, seg, Sorted).Some?
    ensures SortedTree(ApplySpot(t, SpotIn(t, op, seg, Sorted).value, SegName(seg), v))
  {
    hide Cmp, SegName, SegIndex, SortedNames;
    var spot := SpotIn(t, op, seg, Sorted).value;
    if spot.Over? {
      WithChildSorted(t, spot.k, v);
    } else if t.Object? {
      NewMemberSorted(t.members, SegName(seg), v);
      var ms := t.members;
      if spot.AtEnd? {
        assert Placed(ms, Member(SegName(seg), v)) == ms + [Member(SegName(seg), v)];
      }
    }
  }

  /** An edit keeps all objects sorted, if those in the new value are. */
  lemma EditKeepsSorted(t: JSON, op: Op, path: seq<Seg>, v: JSON)
    requires SortedTree(t) && SortedTree(v) && EditTree(t, op, path, Sorted, v).Some?
    ensures SortedTree(EditTree(t, op, path, Sorted, v).value)
  {
    hide SortedTree, SpotIn, ApplySpot, Put, Lookup, SegName;
    var site := SiteOf(t, op, path, Sorted).value;
    LookupSorted(t, site.path);
    var u := Lookup(t, site.path).value;
    SiteSorted(u, site, op, path, v);
    PutSorted(t, site.path, ApplySpot(u, site.spot, site.name, v));
  }

  lemma {:induction false} SiteSorted(u: JSON, site: Site, op: Op, path: seq<Seg>, v: JSON)
    requires SortedTree(u) && SortedTree(v)
    requires site.spot.Whole? || (site.spot.AtEnd? && u.Array?) ||
             (path != [] && SpotIn(u, op, path[|path| - 1], Sorted) == Some(site.spot) && site.name == SegName(path[|path| - 1]))
    ensures SortedTree(ApplySpot(u, site.spot, site.name, v))
  {
    hide SpotIn, Cmp, SegName;
    if !site.spot.Whole? && !(site.spot.AtEnd? && u.Array?) {
      SpotSorted(u, op, path[|path| - 1], v);
    }
  }

  lemma {:induction false} WithoutSorted(t: JSON, k: nat)
    requires (t.Object? && k < |t.members|) || (t.Array? && k < |t.elems|)
    requires SortedTree(t)
    ensures SortedTree(WithoutChild(t, k))
  {
    hide Cmp;
    if t.Object? {
      var r := t.members[..k] + t.members[k + 1..];
      assert forall i :: 0 <= i < |r| ==> r[i] == t.members[if i < k then i else i + 1];
    }
  }

  lemma RemoveKeepsSorted(t: JSON, path: seq<Seg>)
    requires SortedTree(t) && RemoveTree(t, path).Some?
    ensures SortedTree(RemoveTree(t, path).value)
  {
    hide SortedTree, ChildOf, Put, Lookup, WithoutChild;
    var parent := path[..|path| - 1];
    var r := RemovalOf(t, path).value;
    LookupSorted(t, parent);
    WithoutSorted(r.0, r.1);
    PutSorted(t, parent, WithoutChild(r.0, r.1));
  }

  // ---------- runs ----------

  datatype Change = Change(op: Op, path: seq<Seg>, value: JSON) | Removal(path: seq<Seg>)

  /** A change that does not apply leaves the tree alone. */
  function Apply(t: JSON, c: Change): JSON {
    var r := match c
      case Change(op, path, value) => EditTree(t, op, path, Sorted, value)
      case Removal(path) => RemoveTree(t, path);
    if r.Some? then r.value else t
  }

  function ApplyAll(t: JSON, cs: seq<Change>): JSON
    decreases |cs|
  {
    if cs == [] then t else ApplyAll(Apply(t, cs[0]), cs[1..])
  }

  /** Over any run of changes with sorted values, sorted objects stay sorted. */
  lemma {:induction false} RunKeepsSorted(t: JSON, cs: seq<Change>)
    requires SortedTree(t) && forall i :: 0 <= i < |cs| ==> cs[i].Change? ==> SortedTree(cs[i].value)
    ensures SortedTree(ApplyAll(t, cs))
    decreases |cs|
  {
    hide SortedTree, EditTree, RemoveTree;
    if cs != [] {
      if cs[0].Change? {
        if EditTree(t, cs[0].op, cs[0].path, Sorted, cs[0].value).Some? {
          EditKeepsSorted(t, cs[0].op, cs[0].path, cs[0].value);
        }
      } else if RemoveTree(t, cs[0].path).Some? {
        RemoveKeepsSorted(t, cs[0].path);
      }
      RunKeepsSorted(Apply(t, cs[0]), cs[1..]);
    }
  }
}
