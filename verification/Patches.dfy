/** The patch an edit or removal comes to, and the proof that splicing it in is editing the tree. */
module Patches {
  import opened Bytes
  import opened Utf8Coding
  import opened StringGrammar
  import opened Grammar
  import opened Paths
  import opened TreeEdit
  import opened SynEdit
  import opened Escaping

  // ---------- finding values ----------

  /** A value inside another, and its offset there. */
  datatype Located = Located(off: nat, value: Syn)

  function SeekSyn(c: Syn, path: seq<Seg>): (r: Option<Located>)
    ensures r.Some? ==> r.value.off + |SynBytes(r.value.value)| <= |SynBytes(c)|
    decreases |path|
  {
    if path == [] then Some(Located(0, c))
    else match ChildOf(ToTree(c), path[0])
      case None => None
      case Some(k) =>
        match SeekSyn(c.entries[k].value, path[1..])
        case None => None
        case Some(l) =>
          ContainerAt(c, k);
          Some(Located(|BeforeValue(c, k)| + l.off, l.value))
  }

  /** The bytes around the value at `path`. */
  function Prefix(c: Syn, path: seq<Seg>): bytes
    decreases |path|
  {
    if path == [] || ChildOf(ToTree(c), path[0]).None? then []
    else
      var k := ChildOf(ToTree(c), path[0]).value;
      BeforeValue(c, k) + Prefix(c.entries[k].value, path[1..])
  }

  function Suffix(c: Syn, path: seq<Seg>): bytes
    decreases |path|
  {
    if path == [] || ChildOf(ToTree(c), path[0]).None? then []
    else
      var k := ChildOf(ToTree(c), path[0]).value;
      Suffix(c.entries[k].value, path[1..]) + AfterValueBytes(c, k)
  }

  lemma Around(a: bytes, b: bytes, m: bytes, c: bytes, d: bytes)
    ensures a + (b + m + c) + d == (a + b) + m + (c + d)
  {
    Cat4(a, b, m, c + d);
    Cat3(b, m, c);
    Cat4(a, b, m + c, d);
    Cat3(m, c, d);
    Cat3(a, b + (m + c), d);
    Cat3(b, m + c, d);
    Cat3(a + b, m, c + d);
  }

  /** Replacing a value changes its bytes only. */
  lemma {:induction false} InContext(c: Syn, path: seq<Seg>, n: Syn)
    requires SeekSyn(c, path).Some?
    ensures |Prefix(c, path)| == SeekSyn(c, path).value.off
    ensures SynBytes(c) == Prefix(c, path) + SynBytes(SeekSyn(c, path).value.value) + Suffix(c, path)
    ensures SynBytes(ReplaceAt(c, path, n)) == Prefix(c, path) + SynBytes(n) + Suffix(c, path)
    decreases |path|
  {
    if path == [] {
      Nothing(SynBytes(c));
      Nothing(SynBytes(n));
    } else {
      var k := ChildOf(ToTree(c), path[0]).value;
      var v, p := c.entries[k].value, path[1..];
      InContext(v, p, n);
      ContainerAt(c, k);
      OverBytes(c, k, ReplaceAt(v, p, n));
      Around(BeforeValue(c, k), Prefix(v, p), SynBytes(SeekSyn(v, p).value.value), Suffix(v, p), AfterValueBytes(c, k));
      Around(BeforeValue(c, k), Prefix(v, p), SynBytes(n), Suffix(v, p), AfterValueBytes(c, k));
    }
  }

  /** A child of the tree is an entry of the text. */
  lemma ChildInText(c: Syn, seg: Seg)
    ensures ChildOf(ToTree(c), seg).Some? ==> c.SContainer? && ChildOf(ToTree(c), seg).value < |c.entries|
  {
    hide SegName, SegIndex;
  }

  /** Seeking in the text is looking up in the tree. */
  lemma {:induction false} SeekIsLookup(c: Syn, path: seq<Seg>)
    ensures match SeekSyn(c, path)
            case None => Lookup(ToTree(c), path) == None
            case Some(l) => Lookup(ToTree(c), path) == Some(ToTree(l.value))
    decreases |path|
  {
    if path != [] && ChildOf(ToTree(c), path[0]).Some? {
      SeekIsLookup(c.entries[ChildOf(ToTree(c), path[0]).value].value, path[1..]);
    }
  }

  lemma {:induction false} SeekWf(c: Syn, path: seq<Seg>)
    requires Wf(c) && SeekSyn(c, path).Some?
    ensures Wf(SeekSyn(c, path).value.value)
    decreases |path|
  {
    if path != [] {
      var k := ChildOf(ToTree(c), path[0]).value;
      WfAt(c.obj, c.entries, k);
      SeekWf(c.entries[k].value, path[1..]);
    }
  }

  /** The value with the one at `path` replaced. */
  function ReplaceAt(c: Syn, path: seq<Seg>, n: Syn): Syn
    decreases |path|
  {
    if path == [] then n
    else match ChildOf(ToTree(c), path[0])
      case None => c
      case Some(k) => OverSyn(c, k, ReplaceAt(c.entries[k].value, path[1..], n))
  }

  lemma {:induction false} ReplaceWf(c: Syn, path: seq<Seg>, n: Syn)
    requires Wf(c) && Wf(n)
    ensures Wf(ReplaceAt(c, path, n))
    decreases |path|
  {
    if path != [] && ChildOf(ToTree(c), path[0]).Some? {
      var k := ChildOf(ToTree(c), path[0]).value;
      WfAt(c.obj, c.entries, k);
      ReplaceWf(c.entries[k].value, path[1..], n);
      OverWf(c, k, ReplaceAt(c.entries[k].value, path[1..], n));
    }
  }

  lemma {:induction false} ReplaceTree(c: Syn, path: seq<Seg>, n: Syn)
    ensures ToTree(ReplaceAt(c, path, n)) == Put(ToTree(c), path, ToTree(n))
    decreases |path|
  {
    if path != [] && ChildOf(ToTree(c), path[0]).Some? {
      var k := ChildOf(ToTree(c), path[0]).value;
      ReplaceTree(c.entries[k].value, path[1..], n);
      OverTree(c, k, ReplaceAt(c.entries[k].value, path[1..], n));
    }
  }

  /** A splice inside a part is a splice of the whole. */
  lemma NestedSplice(a: bytes, m: bytes, c: bytes, i: nat, j: nat, x: bytes)
    requires i <= j <= |m|
    ensures a + Splice(m, i, j, x) + c == Splice(a + m + c, |a| + i, |a| + j, x)
  {
    var doc := a + m + c;
    assert doc[..|a| + i] == a + m[..i];
    assert doc[|a| + j..] == m[j..] + c;
    Cat3(a, m[..i], x);
    Cat3(a + m[..i] + x, m[j..], c);
    Cat3(a, m[..i] + x, m[j..]);
  }

  lemma SpliceInContext(doc: bytes, doc': bytes, a: bytes, m: bytes, m': bytes, b: bytes, i: nat, j: nat, x: bytes)
    requires doc == a + m + b && doc' == a + m' + b
    requires i <= j <= |m| && m' == Splice(m, i, j, x)
    ensures |a| + j <= |doc| && doc' == Splice(doc, |a| + i, |a| + j, x)
  {
    NestedSplice(a, m, b, i, j, x);
  }

  // ---------- patches ----------

  datatype Kind =
    | ValueKind
    | RemoveKind
    | MemberKind(lead: bool, trail: bool, key: Seg)
    | ElementKind(lead: bool, trail: bool)

  /** Bytes `start..end` of the document are replaced by what `kind` says. */
  datatype Patch = Patch(start: nat, end: nat, kind: Kind)

  function KeyContent(seg: Seg): bytes {
    [QUOTE] + Escape(SegName(seg)) + [QUOTE, COLON]
  }

  /** What a patch writes for an encoded value. */
  function Content(kind: Kind, v: bytes): bytes {
    match kind
    case ValueKind => v
    case RemoveKind => []
    case MemberKind(lead, trail, key) =>
      (if lead then [COMMA] else []) + KeyContent(key) + v + (if trail then [COMMA] else [])
    case ElementKind(lead, trail) => (if lead then [COMMA] else []) + v + (if trail then [COMMA] else [])
  }

  /** The span of a spot, inside the value it is in. */
  function SpotSpan(c: Syn, spot: Spot): (nat, nat)
    requires spot.Whole? || c.SContainer?
    requires spot.Over? || spot.Before? ==> spot.k < |c.entries|
  {
    match spot
    case Whole => (0, |SynBytes(c)|)
    case Over(k) => (|BeforeValue(c, k)|, |ThroughValue(c, k)|)
    case Before(k) => (|BeforeName(c, k)|, |BeforeName(c, k)|)
    case AtEnd => ClosingLast(c); (|SynBytes(c)| - 1, |SynBytes(c)| - 1)
  }

  function SpotKind(c: Syn, spot: Spot, seg: Seg): Kind
    requires spot.Whole? || c.SContainer?
  {
    match spot
    case Whole => ValueKind
    case Over(_) => ValueKind
    case Before(_) => if c.obj then MemberKind(false, true, seg) else ElementKind(false, true)
    case AtEnd => if c.obj then MemberKind(c.entries != [], false, seg) else ElementKind(c.entries != [], false)
  }

  /** The segment that names a new member. */
  function LastSeg(path: seq<Seg>): Seg {
    if path == [] then Index(0) else path[|path| - 1]
  }

  /** The patch of an edit of the value `c`, by where the edit goes in its tree. */
  function PatchOf(c: Syn, op: Op, path: seq<Seg>, placement: Placement): (p: Option<Patch>) {
    match SiteOf(ToTree(c), op, path, placement)
    case None => None
    case Some(site) =>
      SeekIsLookup(c, site.path);
      var l := SeekSyn(c, site.path).value;
      var (i, j) := SpotSpan(l.value, site.spot);
      Some(Patch(l.off + i, l.off + j, SpotKind(l.value, site.spot, LastSeg(path))))
  }

  /** The patch of a removal. */
  function RemovalPatch(c: Syn, path: seq<Seg>): (p: Option<Patch>) {
    match RemovalOf(ToTree(c), path)
    case None => None
    case Some(r) =>
      SeekIsLookup(c, path[..|path| - 1]);
      var l := SeekSyn(c, path[..|path| - 1]).value;
      var (i, j) := RemovalSpan(l.value, r.1);
      Some(Patch(l.off + i, l.off + j, RemoveKind))
  }

  /** The concrete syntax of a spot after the edit. */
  function SpotSyn(c: Syn, spot: Spot, name: Option<Name>, n: Syn): Syn
    requires spot.Whole? || c.SContainer?
    requires spot.Over? || spot.Before? ==> spot.k < |c.entries|
  {
    match spot
    case Whole => n
    case Over(k) => OverSyn(c, k, n)
    case Before(k) => BeforeSyn(c, k, name, n)
    case AtEnd => EndSyn(c, name, n)
  }

  /** The name written for a new member. */
  ghost function WrittenName(seg: Seg): (n: Name)
    requires IsUtf8(SegName(seg))
    ensures WfName(true, Some(n)) && CharsText(n.chars) == SegName(seg) && NameBytes(Some(n)) == KeyContent(seg)
  {
    var n := Name(CharsFor(SegName(seg)), [], []);
    assert NameBytes(Some(n)) == [QUOTE] + CharsBytes(n.chars) + [QUOTE] + [] + [COLON] + [];
    n
  }

  lemma ContentIsEntry(c: Syn, spot: Spot, seg: Seg, name: Option<Name>, n: Syn)
    requires c.SContainer? && (spot.Before? || spot.AtEnd?)
    requires NameBytes(name) == if c.obj then KeyContent(seg) else []
    ensures Content(SpotKind(c, spot, seg), SynBytes(n))
         == EntryContent(spot.AtEnd? && c.entries != [], name, n, spot.Before?)
  {
    Nothing(if spot.AtEnd? && c.entries != [] then [COMMA] else []);
  }

  lemma SpotSplice(c: Syn, spot: Spot, seg: Seg, name: Option<Name>, n: Syn)
    requires spot.Whole? || c.SContainer?
    requires spot.Over? || spot.Before? ==> spot.k < |c.entries|
    requires spot.Before? || spot.AtEnd? ==> NameBytes(name) == if c.obj then KeyContent(seg) else []
    ensures var (i, j) := SpotSpan(c, spot);
            i <= j <= |SynBytes(c)| &&
            SynBytes(SpotSyn(c, spot, name, n)) == Splice(SynBytes(c), i, j, Content(SpotKind(c, spot, seg), SynBytes(n)))
  {
    hide Splice, SynBytes, BeforeName, BeforeValue, OverSyn, BeforeSyn, EndSyn, EntryContent, Content;
    match spot {
      case Whole => WholeSplice(SynBytes(c), SynBytes(n)); ValueContent(SynBytes(n));
      case Over(k) => OverSplice(c, k, n); ValueContent(SynBytes(n));
      case Before(k) => ContentIsEntry(c, spot, seg, name, n); BeforeSplice(c, k, name, n);
      case AtEnd => ContentIsEntry(c, spot, seg, name, n); EndSplice(c, name, n);
    }
  }

  lemma WholeSplice(doc: bytes, x: bytes)
    ensures Splice(doc, 0, |doc|, x) == x
  {
  }

  lemma ValueContent(v: bytes)
    ensures Content(ValueKind, v) == v
  {
  }

  lemma SpotWf(c: Syn, spot: Spot, name: Option<Name>, n: Syn)
    requires spot.Whole? || c.SContainer?
    requires spot.Over? || spot.Before? ==> spot.k < |c.entries|
    requires Wf(c) && Wf(n) && (spot.Before? || spot.AtEnd? ==> WfName(c.obj, name))
    ensures Wf(SpotSyn(c, spot, name, n))
  {
    match spot {
      case Whole =>
      case Over(k) => OverWf(c, k, n);
      case Before(k) => BeforeWf(c, k, name, n);
      case AtEnd => EndWf(c, name, n);
    }
  }

  lemma SpotTree(c: Syn, spot: Spot, name: Option<Name>, n: Syn)
    requires spot.Whole? || c.SContainer?
    requires spot.Over? || spot.Before? ==> spot.k < |c.entries|
    requires spot.Before? || spot.AtEnd? ==> name.Some? == c.obj
    ensures ToTree(SpotSyn(c, spot, name, n)) == ApplySpot(ToTree(c), spot, NewName(name), ToTree(n))
  {
    match spot {
      case Whole =>
      case Over(k) => OverTree(c, k, n);
      case Before(k) => BeforeTree(c, k, name, n);
      case AtEnd => EndTree(c, name, n);
    }
  }

  // ---------- whole documents ----------

  /** The name of a new entry in `c`: none, in an array. */
  ghost function NameIn(c: Syn, seg: Seg): (name: Option<Name>)
    requires WfSeg(seg)
    ensures c.SContainer? ==> WfName(c.obj, name) && NameBytes(name) == if c.obj then KeyContent(seg) else []
    ensures c.SContainer? && c.obj ==> NewName(name) == SegName(seg)
  {
    SegNameIsUtf8(seg);
    if c.SContainer? && c.obj then Some(WrittenName(seg)) else None
  }

  /** The value after an edit of the value `c`. */
  ghost function EditedSyn(c: Syn, op: Op, path: seq<Seg>, placement: Placement, n: Syn): Syn
    requires WfPath(path) && SiteOf(ToTree(c), op, path, placement).Some?
  {
    var site := SiteOf(ToTree(c), op, path, placement).value;
    SeekIsLookup(c, site.path);
    var l := SeekSyn(c, site.path).value;
    ReplaceAt(c, site.path, SpotSyn(l.value, site.spot, NameIn(l.value, LastSeg(path)), n))
  }

  /** The name matters for members only, and is that of the last segment. */
  lemma SiteName(t: JSON, op: Op, path: seq<Seg>, placement: Placement, name: bytes, v: JSON)
    requires SiteOf(t, op, path, placement).Some?
    requires var s := SiteOf(t, op, path, placement).value;
             Lookup(t, s.path).value.Object? ==> name == SegName(LastSeg(path))
    ensures var s := SiteOf(t, op, path, placement).value; var u := Lookup(t, s.path).value;
            ApplySpot(u, s.spot, name, v) == ApplySpot(u, s.spot, s.name, v)
  {
  }

  lemma LastIsWf(path: seq<Seg>)
    requires WfPath(path)
    ensures WfSeg(LastSeg(path))
  {
  }

  lemma NameFits(u: Syn, seg: Seg)
    requires WfSeg(seg)
    ensures u.SContainer? ==> NameIn(u, seg).Some? == u.obj
    ensures ToTree(u).Object? ==> NewName(NameIn(u, seg)) == SegName(seg)
  {
    hide SegName;
  }

  lemma EditTreeOf(t: JSON, op: Op, path: seq<Seg>, placement: Placement, v: JSON)
    requires SiteOf(t, op, path, placement).Some?
    ensures var s := SiteOf(t, op, path, placement).value;
            EditTree(t, op, path, placement, v) == Some(Put(t, s.path, ApplySpot(Lookup(t, s.path).value, s.spot, s.name, v)))
  {
    hide SiteOf, Put, ApplySpot;
  }

  lemma EditedSynTree(c: Syn, op: Op, path: seq<Seg>, placement: Placement, n: Syn)
    requires WfPath(path) && SiteOf(ToTree(c), op, path, placement).Some?
    requires var s := SiteOf(ToTree(c), op, path, placement).value;
             SeekSyn(c, s.path).Some? && Lookup(ToTree(c), s.path) == Some(ToTree(SeekSyn(c, s.path).value.value)) && WfSeg(LastSeg(path))
    ensures var s := SiteOf(ToTree(c), op, path, placement).value;
            var name := NewName(NameIn(SeekSyn(c, s.path).value.value, LastSeg(path)));
            ToTree(EditedSyn(c, op, path, placement, n)) ==
            Put(ToTree(c), s.path, ApplySpot(Lookup(ToTree(c), s.path).value, s.spot, name, ToTree(n)))
  {
    hide *;
    SiteInText(c, op, path, placement);
    EditedSynIs(c, op, path, placement, n);
    var site := SiteOf(ToTree(c), op, path, placement).value;
    var u := SeekSyn(c, site.path).value.value;
    var name := NameIn(u, LastSeg(path));
    NameFits(u, LastSeg(path));
    ReplaceTree(c, site.path, SpotSyn(u, site.spot, name, n));
    SpotTree(u, site.spot, name, n);
  }

  lemma EditedTree(c: Syn, op: Op, path: seq<Seg>, placement: Placement, n: Syn)
    requires WfPath(path) && SiteOf(ToTree(c), op, path, placement).Some?
    ensures EditTree(ToTree(c), op, path, placement, ToTree(n)) == Some(ToTree(EditedSyn(c, op, path, placement, n)))
  {
    hide *;
    LastIsWf(path);
    SiteInText(c, op, path, placement);
    var site := SiteOf(ToTree(c), op, path, placement).value;
    var u := SeekSyn(c, site.path).value.value;
    var name, v := NewName(NameIn(u, LastSeg(path))), ToTree(n);
    NameFits(u, LastSeg(path));
    SeekIsLookup(c, site.path);
    EditedSynTree(c, op, path, placement, n);
    SiteName(ToTree(c), op, path, placement, name, v);
    EditTreeOf(ToTree(c), op, path, placement, v);
  }

  lemma EditedSynIs(c: Syn, op: Op, path: seq<Seg>, placement: Placement, n: Syn)
    requires WfPath(path) && WfSeg(LastSeg(path)) && SiteOf(ToTree(c), op, path, placement).Some?
    requires SeekSyn(c, SiteOf(ToTree(c), op, path, placement).value.path).Some?
    ensures var s := SiteOf(ToTree(c), op, path, placement).value;
            var u := SeekSyn(c, s.path).value.value;
            (s.spot.Whole? || u.SContainer?) && (s.spot.Over? || s.spot.Before? ==> s.spot.k < |u.entries|) &&
            EditedSyn(c, op, path, placement, n) == ReplaceAt(c, s.path, SpotSyn(u, s.spot, NameIn(u, LastSeg(path)), n))
  {
    hide SiteOf, SeekSyn, SpotSyn, NameIn, ReplaceAt, ToTree, LastSeg, WfSeg, SynBytes, Lookup, NameBytes, KeyContent;
    SiteInText(c, op, path, placement);
  }

  lemma EditedWf(c: Syn, op: Op, path: seq<Seg>, placement: Placement, n: Syn)
    requires WfPath(path) && SiteOf(ToTree(c), op, path, placement).Some? && Wf(c) && Wf(n)
    ensures Wf(EditedSyn(c, op, path, placement, n))
  {
    hide *;
    LastIsWf(path);
    SiteInText(c, op, path, placement);
    EditedSynIs(c, op, path, placement, n);
    var site := SiteOf(ToTree(c), op, path, placement).value;
    SeekIsLookup(c, site.path);
    var u := SeekSyn(c, site.path).value.value;
    var name := NameIn(u, LastSeg(path));
    SeekWf(c, site.path);
    SpotWf(u, site.spot, name, n);
    ReplaceWf(c, site.path, SpotSyn(u, site.spot, name, n));
  }

  /** Splicing inside the value at `path`: the spans add up. */
  lemma SpliceAtPath(c: Syn, path: seq<Seg>, l: Located, span: (nat, nat), x: bytes, n: Syn)
    requires SeekSyn(c, path) == Some(l)
    requires span.0 <= span.1 <= |SynBytes(l.value)| && SynBytes(n) == Splice(SynBytes(l.value), span.0, span.1, x)
    ensures l.off + span.1 <= |SynBytes(c)|
    ensures SynBytes(ReplaceAt(c, path, n)) == Splice(SynBytes(c), l.off + span.0, l.off + span.1, x)
  {
    hide Splice, ReplaceAt, SeekSyn, SynBytes, ToTree, Prefix, Suffix;
    InContext(c, path, n);
    SpliceInContext(SynBytes(c), SynBytes(ReplaceAt(c, path, n)), Prefix(c, path), SynBytes(l.value), SynBytes(n), Suffix(c, path),
                    span.0, span.1, x);
  }

  lemma EditParts(c: Syn, op: Op, path: seq<Seg>, placement: Placement, n: Syn, site: Site, l: Located, span: (nat, nat))
    requires WfPath(path) && SiteOf(ToTree(c), op, path, placement) == Some(site)
    requires SeekSyn(c, site.path) == Some(l) && (site.spot.Whole? || l.value.SContainer?)
    requires site.spot.Over? || site.spot.Before? ==> site.spot.k < |l.value.entries|
    requires span == SpotSpan(l.value, site.spot)
    ensures PatchOf(c, op, path, placement)
         == Some(Patch(l.off + span.0, l.off + span.1, SpotKind(l.value, site.spot, LastSeg(path))))
    ensures EditedSyn(c, op, path, placement, n)
         == ReplaceAt(c, site.path, SpotSyn(l.value, site.spot, NameIn(l.value, LastSeg(path)), n))
  {
    hide SpotSpan, SpotKind, SpotSyn, NameIn, ReplaceAt, SeekSyn, SiteOf, ToTree, SynBytes, Lookup;
  }

  /** A site is found in the text too. */
  lemma SiteInText(c: Syn, op: Op, path: seq<Seg>, placement: Placement)
    requires SiteOf(ToTree(c), op, path, placement).Some?
    ensures var site := SiteOf(ToTree(c), op, path, placement).value;
            SeekSyn(c, site.path).Some? &&
            var u := SeekSyn(c, site.path).value.value;
            (site.spot.Whole? || u.SContainer?) &&
            (site.spot.Over? || site.spot.Before? ==> site.spot.k < |u.entries|)
  {
    SeekIsLookup(c, SiteOf(ToTree(c), op, path, placement).value.path);
  }

  lemma EditedBytes(c: Syn, op: Op, path: seq<Seg>, placement: Placement, n: Syn)
    requires WfPath(path) && SiteOf(ToTree(c), op, path, placement).Some?
    ensures PatchOf(c, op, path, placement).Some?
    ensures var p := PatchOf(c, op, path, placement).value;
            p.start <= p.end <= |SynBytes(c)| &&
            SynBytes(EditedSyn(c, op, path, placement, n)) == Splice(SynBytes(c), p.start, p.end, Content(p.kind, SynBytes(n)))
  {
    hide Splice, SiteOf, SpotSpan, SpotKind, SpotSyn, NameIn, ReplaceAt, SeekSyn, SynBytes, PatchOf, EditedSyn, Content, ToTree;
    SiteInText(c, op, path, placement);
    var site := SiteOf(ToTree(c), op, path, placement).value;
    var l, seg := SeekSyn(c, site.path).value, LastSeg(path);
    var name, span, kind := NameIn(l.value, seg), SpotSpan(l.value, site.spot), SpotKind(l.value, site.spot, seg);
    EditParts(c, op, path, placement, n, site, l, span);
    SpotSplice(l.value, site.spot, seg, name, n);
    SpliceAtPath(c, site.path, l, span, Content(kind, SynBytes(n)), SpotSyn(l.value, site.spot, name, n));
  }

  /** Splicing the content of an edit's patch into a document gives a document, whose tree is the edited tree; there is
      no patch exactly when the edit is undefined. */
  lemma EditIsTreeEdit(t: Text, op: Op, path: seq<Seg>, placement: Placement, v: Syn)
    requires WfText(t) && WfPath(path) && Wf(v)
    ensures PatchOf(t.value, op, path, placement).None? <==> EditTree(ToTree(t.value), op, path, placement, ToTree(v)).None?
    ensures PatchOf(t.value, op, path, placement).Some? ==>
              var p := PatchOf(t.value, op, path, placement).value; var at := |t.pre|;
              p.start <= p.end <= |SynBytes(t.value)| &&
              exists t': Text ::
                WfText(t') && TextBytes(t') == Splice(TextBytes(t), at + p.start, at + p.end, Content(p.kind, SynBytes(v))) &&
                EditTree(ToTree(t.value), op, path, placement, ToTree(v)) == Some(ToTree(t'.value))
  {
    hide Splice, SynBytes, EditedSyn, Content, ToTree, SiteOf, PatchOf, EditTree, Wf, WfPath;
    PatchDefined(t.value, op, path, placement, ToTree(v));
    if PatchOf(t.value, op, path, placement).Some? {
      EditedBytes(t.value, op, path, placement, v);
      var p := PatchOf(t.value, op, path, placement).value;
      var t' := t.(value := EditedSyn(t.value, op, path, placement, v));
      EditedTree(t.value, op, path, placement, v);
      EditedWf(t.value, op, path, placement, v);
      SpliceInContext(TextBytes(t), TextBytes(t'), t.pre, SynBytes(t.value), SynBytes(t'.value), t.post,
                      p.start, p.end, Content(p.kind, SynBytes(v)));
      assert WfText(t');
    }
  }

  lemma PatchDefined(c: Syn, op: Op, path: seq<Seg>, placement: Placement, v: JSON)
    ensures PatchOf(c, op, path, placement).Some? <==> SiteOf(ToTree(c), op, path, placement).Some?
    ensures PatchOf(c, op, path, placement).Some? <==> EditTree(ToTree(c), op, path, placement, v).Some?
  {
  }

  /** The value after a removal from the value `c`. */
  function RemovedSyn(c: Syn, path: seq<Seg>): Syn
    requires RemovalOf(ToTree(c), path).Some?
  {
    var parent := path[..|path| - 1];
    SeekIsLookup(c, parent);
    ReplaceAt(c, parent, RemoveSyn(SeekSyn(c, parent).value.value, RemovalOf(ToTree(c), path).value.1))
  }

  lemma RemovalParts(c: Syn, path: seq<Seg>, l: Located, k: nat, span: (nat, nat))
    requires RemovalOf(ToTree(c), path).Some? && k == RemovalOf(ToTree(c), path).value.1
    requires SeekSyn(c, path[..|path| - 1]) == Some(l) && l.value.SContainer? && k < |l.value.entries|
    requires span == RemovalSpan(l.value, k)
    ensures RemovalPatch(c, path) == Some(Patch(l.off + span.0, l.off + span.1, RemoveKind))
    ensures RemovedSyn(c, path) == ReplaceAt(c, path[..|path| - 1], RemoveSyn(l.value, k))
  {
    hide RemovalSpan, RemoveSyn, ReplaceAt, SeekSyn, ToTree, RemovalOf, SynBytes, Lookup;
  }

  lemma RemovalInText(c: Syn, path: seq<Seg>)
    requires RemovalOf(ToTree(c), path).Some?
    ensures path != [] && SeekSyn(c, path[..|path| - 1]).Some?
    ensures var u := SeekSyn(c, path[..|path| - 1]).value.value;
            u.SContainer? && RemovalOf(ToTree(c), path).value.1 < |u.entries|
  {
    SeekIsLookup(c, path[..|path| - 1]);
  }

  lemma RemovedBytes(c: Syn, path: seq<Seg>)
    requires RemovalOf(ToTree(c), path).Some?
    ensures RemovalPatch(c, path).Some?
    ensures var p := RemovalPatch(c, path).value;
            p.start <= p.end <= |SynBytes(c)| && SynBytes(RemovedSyn(c, path)) == Splice(SynBytes(c), p.start, p.end, [])
  {
    hide Splice, RemovalOf, RemovalSpan, RemoveSyn, ReplaceAt, SeekSyn, SynBytes, RemovalPatch, RemovedSyn, ToTree;
    RemovalInText(c, path);
    var parent, k := path[..|path| - 1], RemovalOf(ToTree(c), path).value.1;
    var l := SeekSyn(c, parent).value;
    var span, d := RemovalSpan(l.value, k), RemoveSyn(l.value, k);
    RemovalParts(c, path, l, k, span);
    RemoveSplice(l.value, k);
    SpliceAtPath(c, parent, l, span, [], d);
  }

  lemma RemovedTree(c: Syn, path: seq<Seg>)
    requires RemovalOf(ToTree(c), path).Some?
    ensures RemoveTree(ToTree(c), path) == Some(ToTree(RemovedSyn(c, path)))
    ensures Wf(c) ==> Wf(RemovedSyn(c, path))
  {
    var parent, k := path[..|path| - 1], RemovalOf(ToTree(c), path).value.1;
    SeekIsLookup(c, parent);
    var u := SeekSyn(c, parent).value.value;
    RemoveTreeOf(u, k);
    ReplaceTree(c, parent, RemoveSyn(u, k));
    if Wf(c) {
      SeekWf(c, parent);
      RemoveWf(u, k);
      ReplaceWf(c, parent, RemoveSyn(u, k));
    }
  }

  /** Deleting the span of a removal's patch gives a document whose tree lacks exactly that member or element. */
  lemma RemovalIsTreeRemoval(t: Text, path: seq<Seg>)
    requires WfText(t)
    ensures RemovalPatch(t.value, path).None? <==> RemoveTree(ToTree(t.value), path).None?
    ensures RemovalPatch(t.value, path).Some? ==>
              var p := RemovalPatch(t.value, path).value; var at := |t.pre|;
              p.start <= p.end <= |SynBytes(t.value)| && p.kind == RemoveKind &&
              exists t': Text ::
                WfText(t') && TextBytes(t') == Splice(TextBytes(t), at + p.start, at + p.end, []) &&
                RemoveTree(ToTree(t.value), path) == Some(ToTree(t'.value))
  {
    hide Splice, SynBytes, RemovedSyn, ToTree, RemovalOf, RemovalPatch, RemoveTree, Wf;
    RemovalDefined(t.value, path);
    if RemovalPatch(t.value, path).Some? {
      RemovedBytes(t.value, path);
      var p := RemovalPatch(t.value, path).value;
      var t' := t.(value := RemovedSyn(t.value, path));
      RemovedTree(t.value, path);
      SpliceInContext(TextBytes(t), TextBytes(t'), t.pre, SynBytes(t.value), SynBytes(t'.value), t.post, p.start, p.end, []);
      assert WfText(t');
    }
  }

  lemma RemovalDefined(c: Syn, path: seq<Seg>)
    ensures RemovalPatch(c, path).Some? <==> RemovalOf(ToTree(c), path).Some?
    ensures RemovalPatch(c, path).Some? <==> RemoveTree(ToTree(c), path).Some?
    ensures RemovalPatch(c, path).Some? ==> RemovalPatch(c, path).value.kind == RemoveKind
  {
  }
}
