/** Setting a value twice: the second Set replaces exactly the bytes of the value that the first one wrote. */
module Repeats {
  import opened Bytes
  import opened Grammar
  import opened Compare
  import opened Paths
  import opened TreeEdit
  import opened SynEdit
  import opened Patches
  import opened Locating

  // ---------- trees ----------

  /** The entry that holds the new value after an edit. */
  function NewIndex(t: JSON, spot: Spot): nat
    requires !spot.Whole? && (t.Object? || t.Array?)
  {
    match spot
    case Over(k) => k
    case Before(k) => k
    case AtEnd => if t.Object? then |t.members| else |t.elems|
  }

  lemma {:induction false} ChildOfWithChild(t: JSON, k: nat, v: JSON, seg: Seg)
    requires (t.Object? && k < |t.members|) || (t.Array? && k < |t.elems|)
    ensures ChildOf(WithChild(t, k, v), seg) == ChildOf(t, seg)
  {
    hide SegName, SegIndex;
    if t.Object? {
      SameNames(t.members, t.members[k := Member(t.members[k].name, v)], SegName(seg));
    }
  }

  lemma {:induction false} SameNames(a: seq<Member>, b: seq<Member>, name: bytes)
    requires |a| == |b| && forall j :: 0 <= j < |a| ==> a[j].name == b[j].name
    ensures MemberIndex(a, name) == MemberIndex(b, name)
  {
    if a != [] {
      assert a[0].name == b[0].name;
      SameNames(a[1..], b[1..], name);
    }
  }

  /** Once set, a member or element is found, and is replaced. */
  lemma {:induction false} SpotAgain(t: JSON, seg: Seg, placement: Placement, again: Placement, v: JSON)
    requires SpotIn(t, Set, seg, placement).Some? && (t.Object? || !IsEndMarker(seg))
    ensures var spot := SpotIn(t, Set, seg, placement).value;
            SpotIn(ApplySpot(t, spot, SegName(seg), v), Set, seg, again) == Some(Over(NewIndex(t, spot)))
  {
    hide SegName, SegIndex, Cmp, GreaterIndex, IsEndMarker;
    var spot := SpotIn(t, Set, seg, placement).value;
    var after := ApplySpot(t, spot, SegName(seg), v);
    if t.Object? {
      FirstNamed(after.members, SegName(seg), NewIndex(t, spot));
    }
  }

  // ---------- bytes ----------

  /** Where the value is, in what a patch writes. */
  function ValueOffset(kind: Kind): nat {
    match kind
    case ValueKind => 0
    case RemoveKind => 0
    case MemberKind(lead, _, key) => (if lead then 1 else 0) + |KeyContent(key)|
    case ElementKind(lead, _) => if lead then 1 else 0
  }

  lemma BeforeOver(c: Syn, k: nat, n: Syn)
    requires c.SContainer? && k < |c.entries|
    ensures BeforeValue(OverSyn(c, k, n), k) == BeforeValue(c, k)
  {
    hide LeadBytes, NameBytes;
    assert OverSyn(c, k, n).entries[..k] == c.entries[..k];
  }

  lemma BeforeNew(c: Syn, k: nat, name: Option<Name>, n: Syn)
    requires c.SContainer? && k < |c.entries|
    ensures k < |BeforeSyn(c, k, name, n).entries| && BeforeSyn(c, k, name, n).entries[k].value == n
    ensures |BeforeValue(BeforeSyn(c, k, name, n), k)| == |BeforeName(c, k)| + |NameBytes(name)|
  {
    hide LeadBytes, NameBytes;
    BeforeEntries(c, k, name, n);
    assert BeforeSyn(c, k, name, n).entries[k] == Entry(c.entries[k].pre, name, n, []);
  }

  lemma LeadOfAll(es: seq<Entry>, init: seq<Entry>, last: Entry)
    requires es == init + [last]
    ensures |LeadBytes(es)| == |LeadBytes(init)| + |EntryBytes(last)| + 1
  {
    hide EntryBytes, LeadBytes;
    LeadAppend(init, last);
  }

  lemma BeforeLast(c: Syn, name: Option<Name>, n: Syn)
    requires c.SContainer?
    ensures |EndSyn(c, name, n).entries| == |c.entries| + 1 && EndSyn(c, name, n).entries[|c.entries|].value == n
    ensures |BeforeValue(EndSyn(c, name, n), |c.entries|)| == |SynBytes(c)| - 1 + (if c.entries == [] then 0 else 1) + |NameBytes(name)|
  {
    hide NameBytes, SynBytes, LeadBytes, EntryBytes;
    ClosingLast(c);
    assert EndSyn(c, name, n).entries[..|c.entries|] == c.entries;
    if c.entries != [] {
      var last := |c.entries| - 1;
      LastApart(c.entries);
      LeadOfAll(c.entries, c.entries[..last], c.entries[last]);
    } else {
      NoLead();
    }
  }

  lemma LastApart(es: seq<Entry>)
    requires es != []
    ensures es == es[..|es| - 1] + [es[|es| - 1]]
  {
  }

  lemma NoLead()
    ensures LeadBytes([]) == []
  {
  }

  /** Where the new value is, inside the value that the edit applied to. */
  lemma NewValueSpan(u: Syn, spot: Spot, seg: Seg, name: Option<Name>, n: Syn)
    requires u.SContainer? && !spot.Whole? && (spot.Over? || spot.Before? ==> spot.k < |u.entries|)
    requires NameBytes(name) == if u.obj then KeyContent(seg) else []
    ensures var d, k := SpotSyn(u, spot, name, n), NewIndex(ToTree(u), spot);
            d.SContainer? && k < |d.entries| &&
            SpotSpan(d, Over(k)).0 == SpotSpan(u, spot).0 + ValueOffset(SpotKind(u, spot, seg)) &&
            SpotSpan(d, Over(k)).1 == SpotSpan(d, Over(k)).0 + |SynBytes(n)|
  {
    hide SynBytes, BeforeName, BeforeValue, NameBytes, KeyContent, BeforeSyn, EndSyn;
    match spot {
      case Over(k) => BeforeOver(u, k, n);
      case Before(k) => BeforeNew(u, k, name, n); ContainerKept(u, k, name, n);
      case AtEnd => BeforeLast(u, name, n); ContainerKept(u, 0, name, n);
    }
  }

  lemma ContainerKept(c: Syn, k: nat, name: Option<Name>, n: Syn)
    requires c.SContainer?
    ensures EndSyn(c, name, n).SContainer? && (k < |c.entries| ==> BeforeSyn(c, k, name, n).SContainer?)
  {
  }

  /** Seeking the place where something was replaced finds what is there now. */
  lemma {:induction false} SeekReplaced(c: Syn, path: seq<Seg>, n: Syn)
    requires SeekSyn(c, path).Some?
    ensures SeekSyn(ReplaceAt(c, path, n), path) == Some(Located(SeekSyn(c, path).value.off, n))
    decreases |path|
  {
    hide SynBytes, BeforeValue, SegName, SegIndex, ToTree;
    if path != [] {
      ChildInText(c, path[0]);
      var k := ChildOf(ToTree(c), path[0]).value;
      var v := c.entries[k].value;
      var r := ReplaceAt(v, path[1..], n);
      SeekReplaced(v, path[1..], n);
      OverTree(c, k, r);
      ChildOfWithChild(ToTree(c), k, ToTree(r), path[0]);
      BeforeOver(c, k, r);
    }
  }

  /** A Set of a member, or of an element by its index, that applies: a second Set of the same path targets exactly the
      bytes of the value that was written. */
  lemma SecondSet(c: Syn, path: seq<Seg>, placement: Placement, again: Placement, n: Syn)
    requires WfPath(path) && path != [] && SiteOf(ToTree(c), Set, path, placement).Some?
    requires Lookup(ToTree(c), path[..|path| - 1]).value.Object? || !IsEndMarker(path[|path| - 1])
    ensures PatchOf(c, Set, path, placement).Some?
    ensures var q := PatchOf(c, Set, path, placement).value; var at := q.start + ValueOffset(q.kind);
            PatchOf(EditedSyn(c, Set, path, placement, n), Set, path, again) == Some(Patch(at, at + |SynBytes(n)|, ValueKind))
  {
    hide SpotSyn, ReplaceAt, NewIndex, ValueOffset, IsEndMarker, ToTree, SpotIn, Lookup, SeekSyn, PatchOf, EditedSyn, SiteOf, SynBytes;
    var parent := path[..|path| - 1];
    SitesOf(c, Set, path, placement);
    SeekIsLookup(c, parent);
    SecondSetAt(c, path, placement, again, n, SiteOf(ToTree(c), Set, path, placement).value, SeekSyn(c, parent).value);
  }

  lemma SecondSetAt(c: Syn, path: seq<Seg>, placement: Placement, again: Placement, n: Syn, site: Site, l: Located)
    requires WfPath(path) && path != [] && SiteOf(ToTree(c), Set, path, placement) == Some(site)
    requires site.path == path[..|path| - 1] && SeekSyn(c, site.path) == Some(l)
    requires SpotIn(ToTree(l.value), Set, path[|path| - 1], placement) == Some(site.spot)
    requires ToTree(l.value).Object? || !IsEndMarker(path[|path| - 1])
    ensures PatchOf(c, Set, path, placement).Some?
    ensures var q := PatchOf(c, Set, path, placement).value; var at := q.start + ValueOffset(q.kind);
            PatchOf(EditedSyn(c, Set, path, placement, n), Set, path, again) == Some(Patch(at, at + |SynBytes(n)|, ValueKind))
  {
    hide SynBytes, SpotSpan, SpotKind, SpotSyn, ReplaceAt, NewIndex, ValueOffset, SegName, IsEndMarker, ToTree, SpotIn, Lookup, SeekSyn, SiteOf, PatchOf, EditedSyn, NameIn, WfName, NewName, NameBytes, KeyContent;
    var last := path[|path| - 1];
    SpotInText(l.value, last, placement);
    PatchParts(c, Set, path, placement, site, l);
    var name := NameIn(l.value, last);
    SecondSpot(l.value, site.spot, last, placement, again, name, n);
    NewValueSpan(l.value, site.spot, last, name, n);
    EditedParts(c, path, placement, n, site, l, name);
    SecondPatch(c, path, again, l, SpotSyn(l.value, site.spot, name, n), NewIndex(ToTree(l.value), site.spot));
  }

  lemma SpotInText(u: Syn, seg: Seg, placement: Placement)
    requires SpotIn(ToTree(u), Set, seg, placement).Some?
    ensures u.SContainer? && (ToTree(u).Object? <==> u.obj)
    ensures var spot := SpotIn(ToTree(u), Set, seg, placement).value;
            !spot.Whole? && (spot.Over? || spot.Before? ==> spot.k < |u.entries|)
  {
    hide SegName, SegIndex;
  }

  lemma EditedParts(c: Syn, path: seq<Seg>, placement: Placement, n: Syn, site: Site, l: Located, name: Option<Name>)
    requires WfPath(path) && path != [] && SiteOf(ToTree(c), Set, path, placement) == Some(site) && SeekSyn(c, site.path) == Some(l)
    requires l.value.SContainer? && (site.spot.Over? || site.spot.Before? ==> site.spot.k < |l.value.entries|)
    requires name == NameIn(l.value, path[|path| - 1])
    ensures EditedSyn(c, Set, path, placement, n) == ReplaceAt(c, site.path, SpotSyn(l.value, site.spot, name, n))
  {
    hide SpotSyn, NameIn, ReplaceAt, SeekSyn, SiteOf, ToTree, SynBytes, Lookup;
  }

  /** The patch of a second Set, where the first one put `d`. */
  lemma SecondPatch(c: Syn, path: seq<Seg>, again: Placement, l: Located, d: Syn, k: nat)
    requires path != [] && SeekSyn(c, path[..|path| - 1]) == Some(l) && d.SContainer? && k < |d.entries|
    requires SpotIn(ToTree(d), Set, path[|path| - 1], again) == Some(Over(k))
    ensures PatchOf(ReplaceAt(c, path[..|path| - 1], d), Set, path, again)
         == Some(Patch(l.off + SpotSpan(d, Over(k)).0, l.off + SpotSpan(d, Over(k)).1, ValueKind))
  {
    hide SynBytes, SpotSpan, ReplaceAt, SegName, ToTree, SpotIn, Lookup, SeekSyn;
    var parent, c' := path[..|path| - 1], ReplaceAt(c, path[..|path| - 1], d);
    SeekReplaced(c, parent, d);
    SitesOf(c', Set, path, again);
    PatchParts(c', Set, path, again, Site(parent, Over(k), SegName(path[|path| - 1])), Located(l.off, d));
    OverKind(d, k, LastSeg(path));
  }

  lemma OverKind(d: Syn, k: nat, seg: Seg)
    requires d.SContainer?
    ensures SpotKind(d, Over(k), seg) == ValueKind
  {
  }

  lemma SecondSpot(u: Syn, spot: Spot, seg: Seg, placement: Placement, again: Placement, name: Option<Name>, n: Syn)
    requires u.SContainer? && SpotIn(ToTree(u), Set, seg, placement) == Some(spot) && (u.obj || !IsEndMarker(seg))
    requires spot.Over? || spot.Before? ==> spot.k < |u.entries|
    requires WfName(u.obj, name) && (u.obj ==> NewName(name) == SegName(seg))
    ensures !spot.Whole? && SpotIn(ToTree(SpotSyn(u, spot, name, n)), Set, seg, again) == Some(Over(NewIndex(ToTree(u), spot)))
  {
    hide SpotIn, SegName, NewIndex, SpotSyn, IsEndMarker;
    SpotTree(u, spot, name, n);
    SpotAgain(ToTree(u), seg, placement, again, ToTree(n));
    NameUnused(ToTree(u), spot, NewName(name), SegName(seg), ToTree(n));
  }

  lemma NameUnused(t: JSON, spot: Spot, a: bytes, b: bytes, v: JSON)
    requires spot.Whole? || t.Object? || t.Array?
    requires spot.Over? || spot.Before? ==> (t.Object? && spot.k < |t.members|) || (t.Array? && spot.k < |t.elems|)
    requires t.Object? ==> a == b
    ensures ApplySpot(t, spot, a, v) == ApplySpot(t, spot, b, v)
  {
  }
}
