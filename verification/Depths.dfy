/** How deep an edited document is nested: a parser that could read the document can read the edited one. */
module Depths {
  import opened Bytes
  import opened Grammar
  import opened Paths
  import opened TreeEdit
  import opened Patches

  /** Containers are nested at most `d` deep. */
  predicate Within(t: JSON, d: nat)
    decreases t
  {
    match t
    case Object(ms) => d > 0 && forall k :: 0 <= k < |ms| ==> Within(ms[k].value, d - 1)
    case Array(es) => d > 0 && forall k :: 0 <= k < |es| ==> Within(es[k], d - 1)
    case _ => true
  }

  lemma {:induction false} WithinMore(t: JSON, d: nat, e: nat)
    requires Within(t, d) && d <= e
    ensures Within(t, e)
    decreases t
  {
    match t {
      case Object(ms) =>
        forall k | 0 <= k < |ms| ensures Within(ms[k].value, e - 1) { WithinMore(ms[k].value, d - 1, e - 1); }
      case Array(es) =>
        forall k | 0 <= k < |es| ensures Within(es[k], e - 1) { WithinMore(es[k], d - 1, e - 1); }
      case _ =>
    }
  }

  // ---------- the depth of the text is that of the tree ----------

  lemma {:induction false} EntriesDeep(es: seq<Entry>, d: nat)
    ensures EntriesDepth(es) <= d <==> forall k :: 0 <= k < |es| ==> Depth(es[k].value) <= d
    decreases |es|
  {
    if es != [] {
      EntriesDeep(es[1..], d);
      assert forall k :: 0 < k < |es| ==> es[k] == es[1..][k - 1];
    }
  }

  lemma {:induction false} DepthIsWithin(c: Syn, d: nat)
    ensures Depth(c) <= d <==> Within(ToTree(c), d)
    decreases c
  {
    if c.SContainer? && d > 0 {
      EntriesDeep(c.entries, d - 1);
      forall k | 0 <= k < |c.entries|
        ensures Depth(c.entries[k].value) <= d - 1 <==> Within(ToTree(c.entries[k].value), d - 1)
      {
        DepthIsWithin(c.entries[k].value, d - 1);
      }
      WithinEntries(c, d);
    }
  }

  lemma WithinEntries(c: Syn, d: nat)
    requires c.SContainer? && d > 0
    ensures Within(ToTree(c), d) <==> forall k :: 0 <= k < |c.entries| ==> Within(ToTree(c.entries[k].value), d - 1)
  {
    if c.obj {
      assert forall k :: 0 <= k < |c.entries| ==> ToMembers(c.entries)[k].value == ToTree(c.entries[k].value);
    } else {
      assert forall k :: 0 <= k < |c.entries| ==> ToElems(c.entries)[k] == ToTree(c.entries[k].value);
    }
  }

  // ---------- edits ----------

  lemma {:induction false} LookupWithin(t: JSON, path: seq<Seg>, d: nat)
    requires Within(t, d) && Lookup(t, path).Some?
    ensures |path| <= d && Within(Lookup(t, path).value, d - |path|)
    decreases |path|
  {
    hide SegName, SegIndex;
    if path != [] {
      LookupWithin(Child(t, ChildOf(t, path[0]).value), path[1..], d - 1);
    }
  }

  lemma WithChildWithin(t: JSON, k: nat, v: JSON, d: nat)
    requires (t.Object? && k < |t.members|) || (t.Array? && k < |t.elems|)
    requires Within(t, d) && Within(v, d - 1)
    ensures Within(WithChild(t, k, v), d)
  {
  }

  lemma {:induction false} PutWithin(t: JSON, path: seq<Seg>, w: JSON, d: nat)
    requires Within(t, d) && Lookup(t, path).Some? && |path| <= d && Within(w, d - |path|)
    ensures Within(Put(t, path, w), d)
    decreases |path|
  {
    hide SegName, SegIndex, WithChild;
    if path != [] {
      var k := ChildOf(t, path[0]).value;
      PutWithin(Child(t, k), path[1..], w, d - 1);
      WithChildWithin(t, k, Put(Child(t, k), path[1..], w), d);
    }
  }

  lemma SpotWithin(u: JSON, spot: Spot, name: bytes, v: JSON, d: nat)
    requires spot.Whole? || u.Object? || u.Array?
    requires spot.Over? || spot.Before? ==> (u.Object? && spot.k < |u.members|) || (u.Array? && spot.k < |u.elems|)
    requires Within(u, d) && (if spot.Whole? then Within(v, d) else Within(v, d - 1))
    ensures Within(ApplySpot(u, spot, name, v), d)
  {
  }

  /** An edit with a value nested `e` deep: one level for each segment, and one more for a Push. */
  lemma EditWithin(t: JSON, op: Op, path: seq<Seg>, placement: Placement, v: JSON, d: nat, e: nat)
    requires Within(t, d) && Within(v, e) && |path| + 1 + e <= d && EditTree(t, op, path, placement, v).Some?
    ensures Within(EditTree(t, op, path, placement, v).value, d)
  {
    hide Within, ApplySpot, Put, Lookup, SpotIn, SegName;
    var s := SiteOf(t, op, path, placement).value;
    var u := Lookup(t, s.path).value;
    LookupWithin(t, s.path, d);
    WithinMore(v, e, d - |s.path| - 1);
    WithinMore(v, e, d - |s.path|);
    SpotWithin(u, s.spot, s.name, v, d - |s.path|);
    PutWithin(t, s.path, ApplySpot(u, s.spot, s.name, v), d);
  }

  lemma WithoutWithin(u: JSON, k: nat, d: nat)
    requires (u.Object? && k < |u.members|) || (u.Array? && k < |u.elems|)
    requires Within(u, d)
    ensures Within(WithoutChild(u, k), d)
  {
  }

  lemma RemoveWithin(t: JSON, path: seq<Seg>, d: nat)
    requires Within(t, d) && RemoveTree(t, path).Some?
    ensures Within(RemoveTree(t, path).value, d)
  {
    hide Within, WithoutChild, Put, Lookup, ChildOf;
    var parent, r := path[..|path| - 1], RemovalOf(t, path).value;
    LookupWithin(t, parent, d);
    WithoutWithin(r.0, r.1, d - |parent|);
    PutWithin(t, parent, WithoutChild(r.0, r.1), d);
  }

  /** The depth of an edited document. */
  lemma EditedDepth(c: Syn, op: Op, path: seq<Seg>, placement: Placement, n: Syn)
    requires WfPath(path) && SiteOf(ToTree(c), op, path, placement).Some?
    ensures Depth(EditedSyn(c, op, path, placement, n)) <= Max(Depth(c), |path| + Depth(n) + 1)
  {
    hide Within, Depth, ToTree, EditTree, EditedSyn, SiteOf;
    var d := Max(Depth(c), |path| + Depth(n) + 1);
    DepthIsWithin(c, d);
    DepthIsWithin(n, Depth(n));
    EditedTree(c, op, path, placement, n);
    EditWithin(ToTree(c), op, path, placement, ToTree(n), d, Depth(n));
    DepthIsWithin(EditedSyn(c, op, path, placement, n), d);
  }

  /** A removal does not nest anything deeper. */
  lemma RemovedDepth(c: Syn, path: seq<Seg>)
    requires RemovalOf(ToTree(c), path).Some?
    ensures Depth(RemovedSyn(c, path)) <= Depth(c)
  {
    hide Within, Depth, ToTree, RemoveTree, RemovedSyn, RemovalOf;
    DepthIsWithin(c, Depth(c));
    RemovedTree(c, path);
    RemoveWithin(ToTree(c), path, Depth(c));
    DepthIsWithin(RemovedSyn(c, path), Depth(c));
  }
}
