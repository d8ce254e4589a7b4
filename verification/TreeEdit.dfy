/** Paths, edits and removals on trees: what the byte-level editor is meant to do. */
module TreeEdit {
  import opened Bytes
  import opened Grammar
  import opened Compare
  import opened Paths

  datatype Op = Replace | Set | Insert | Push

  datatype Placement = Sorted | End

  /** The first member with this name, or the number of members. */
  function MemberIndex(ms: seq<Member>, name: bytes): (k: nat)
    ensures k <= |ms|
    ensures forall j :: 0 <= j < k ==> ms[j].name != name
    ensures k < |ms| ==> ms[k].name == name
  {
    if ms == [] || ms[0].name == name then 0 else 1 + MemberIndex(ms[1..], name)
  }

  /** The members at and after the first one with a name do not matter for finding it. */
  lemma {:induction false} FirstNamed(ms: seq<Member>, name: bytes, k: nat)
    requires k < |ms| && ms[k].name == name && forall j :: 0 <= j < k ==> ms[j].name != name
    ensures MemberIndex(ms, name) == k
  {
  }

  /** The first member whose name sorts after `name`, or the number of members. */
  function GreaterIndex(ms: seq<Member>, name: bytes): (k: nat)
    ensures k <= |ms|
    ensures forall j :: 0 <= j < k ==> Cmp(ms[j].name, name) != Greater
    ensures k < |ms| ==> Cmp(ms[k].name, name) == Greater
  {
    if ms == [] || Cmp(ms[0].name, name) == Greater then 0 else 1 + GreaterIndex(ms[1..], name)
  }

  /** The member or element that a segment designates. */
  function ChildOf(t: JSON, seg: Seg): (k: Option<nat>)
    ensures k.Some? ==> (t.Object? && k.value < |t.members|) || (t.Array? && k.value < |t.elems|)
  {
    match t
    case Object(ms) =>
      var k := MemberIndex(ms, SegName(seg));
      if k < |ms| then Some(k) else None
    case Array(es) =>
      (match SegIndex(seg)
       case None => None
       case Some(i) => if i < |es| then Some(i) else None)
    case _ => None
  }

  function Child(t: JSON, k: nat): (c: JSON)
    requires (t.Object? && k < |t.members|) || (t.Array? && k < |t.elems|)
    ensures c < t
  {
    if t.Object? then t.members[k].value else t.elems[k]
  }

  function WithChild(t: JSON, k: nat, v: JSON): JSON
    requires (t.Object? && k < |t.members|) || (t.Array? && k < |t.elems|)
  {
    if t.Object? then Object(t.members[k := Member(t.members[k].name, v)]) else Array(t.elems[k := v])
  }

  /** The value at a path, taking the first of several members with the same name. */
  function Lookup(t: JSON, path: seq<Seg>): Option<JSON>
    decreases |path|
  {
    if path == [] then Some(t)
    else match ChildOf(t, path[0])
      case None => None
      case Some(k) => Lookup(Child(t, k), path[1..])
  }

  /** The tree with the value at `path` replaced. */
  function Put(t: JSON, path: seq<Seg>, v: JSON): JSON
    decreases |path|
  {
    if path == [] then v
    else match ChildOf(t, path[0])
      case None => t
      case Some(k) => WithChild(t, k, Put(Child(t, k), path[1..], v))
  }

  /** Where an edit goes, inside the value it applies to. */
  datatype Spot =
    | Whole             // in place of it
    | Over(k: nat)      // in place of the value of its entry k
    | Before(k: nat)    // as a new entry before entry k
    | AtEnd             // as a new last entry

  /** The spot of a Set or Insert with last segment `seg` in the value `t`. */
  function SpotIn(t: JSON, op: Op, seg: Seg, placement: Placement): (r: Option<Spot>)
    ensures r.Some? ==> !r.value.Whole? && (t.Object? || t.Array?)
    ensures r.Some? && (r.value.Over? || r.value.Before?) ==>
              (t.Object? && r.value.k < |t.members|) || (t.Array? && r.value.k < |t.elems|)
  {
    match t
    case Object(ms) =>
      var name := SegName(seg);
      var k, g := MemberIndex(ms, name), GreaterIndex(ms, name);
      if k < |ms| then Some(Over(k))
      else if placement == Sorted && g < |ms| then Some(Before(g))
      else Some(AtEnd)
    case Array(es) =>
      if IsEndMarker(seg) then Some(AtEnd)
      else (match SegIndex(seg)
            case None => None
            case Some(i) =>
              if i == |es| then Some(AtEnd)
              else if i > |es| then None
              else if op == Insert then Some(Before(i))
              else Some(Over(i)))
    case _ => None
  }

  function ApplySpot(t: JSON, spot: Spot, name: bytes, v: JSON): JSON
    requires spot.Whole? || t.Object? || t.Array?
    requires spot.Over? || spot.Before? ==> (t.Object? && spot.k < |t.members|) || (t.Array? && spot.k < |t.elems|)
  {
    match spot
    case Whole => v
    case Over(k) => WithChild(t, k, v)
    case Before(k) =>
      if t.Object? then Object(t.members[..k] + [Member(name, v)] + t.members[k..])
      else Array(t.elems[..k] + [v] + t.elems[k..])
    case AtEnd =>
      if t.Object? then Object(t.members + [Member(name, v)]) else Array(t.elems + [v])
  }

  /** The value an operation works on, the spot in it, and the segment naming a new member. */
  datatype Site = Site(path: seq<Seg>, spot: Spot, name: bytes)

  function SiteOf(t: JSON, op: Op, path: seq<Seg>, placement: Placement): (r: Option<Site>)
    ensures r.Some? ==>
              Lookup(t, r.value.path).Some? &&
              var u := Lookup(t, r.value.path).value;
              (r.value.spot.Whole? || u.Object? || u.Array?) &&
              (r.value.spot.Over? || r.value.spot.Before? ==>
                 (u.Object? && r.value.spot.k < |u.members|) || (u.Array? && r.value.spot.k < |u.elems|))
  {
    if op == Push then
      if Lookup(t, path).Some? && Lookup(t, path).value.Array? then Some(Site(path, AtEnd, [])) else None
    else if op == Replace || path == [] then
      if Lookup(t, path).Some? then Some(Site(path, Whole, [])) else None
    else
      var parent, last := path[..|path| - 1], path[|path| - 1];
      match Lookup(t, parent)
      case None => None
      case Some(u) =>
        match SpotIn(u, op, last, placement)
        case None => None
        case Some(spot) => Some(Site(parent, spot, SegName(last)))
  }

  /** The edited tree; none when the operation does not apply. */
  function EditTree(t: JSON, op: Op, path: seq<Seg>, placement: Placement, v: JSON): Option<JSON> {
    match SiteOf(t, op, path, placement)
    case None => None
    case Some(s) => Some(Put(t, s.path, ApplySpot(Lookup(t, s.path).value, s.spot, s.name, v)))
  }

  /** The value that `path` goes into, and the entry to remove from it. */
  function RemovalOf(t: JSON, path: seq<Seg>): (r: Option<(JSON, nat)>)
    ensures r.Some? ==> (r.value.0.Object? && r.value.1 < |r.value.0.members|) || (r.value.0.Array? && r.value.1 < |r.value.0.elems|)
  {
    if path == [] then None
    else match Lookup(t, path[..|path| - 1])
      case None => None
      case Some(u) =>
        match ChildOf(u, path[|path| - 1])
        case None => None
        case Some(k) => Some((u, k))
  }

  function WithoutChild(t: JSON, k: nat): JSON
    requires (t.Object? && k < |t.members|) || (t.Array? && k < |t.elems|)
  {
    if t.Object? then Object(t.members[..k] + t.members[k + 1..]) else Array(t.elems[..k] + t.elems[k + 1..])
  }

  /** The tree without the member or element at `path`. */
  function RemoveTree(t: JSON, path: seq<Seg>): Option<JSON> {
    match RemovalOf(t, path)
    case None => None
    case Some(r) => Some(Put(t, path[..|path| - 1], WithoutChild(r.0, r.1)))
  }
}
