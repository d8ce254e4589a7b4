/** Editing a document in storage: plan, then apply. */
module Editing {
  import opened Bytes
  import opened Grammar
  import opened Automaton
  import opened Paths
  import opened Results
  import opened Nesting
  import opened Sources
  import opened TreeEdit
  import opened SynEdit
  import opened Patches
  import opened Parsing
  import opened PathSeeking
  import opened Leaving
  import opened Locating
  import opened Planning
  import opened RemovalPlanning
  import opened Documents
  import opened Storages
  import opened Writing
  import opened ContentWriting
  import opened Applying

  // ---------- the edited text ----------

  lemma SpotBounds(c: Syn, spot: Spot)
    requires spot.Whole? || c.SContainer?
    requires spot.Over? || spot.Before? ==> spot.k < |c.entries|
    ensures var (i, j) := SpotSpan(c, spot); i <= j <= |SynBytes(c)|
  {
    hide SynBytes, BeforeName, BeforeValue, AfterValueBytes, FromName;
    match spot {
      case Whole =>
      case Over(k) => ContainerAt(c, k);
      case Before(k) => ContainerAtName(c, k);
      case AtEnd => ClosingLast(c);
    }
  }

  lemma PatchBounds(c: Syn, op: Op, path: seq<Seg>, placement: Placement)
    ensures PatchOf(c, op, path, placement).Some? ==>
              PatchOf(c, op, path, placement).value.start <= PatchOf(c, op, path, placement).value.end <= |SynBytes(c)|
  {
    hide SynBytes, SiteOf, SpotSpan, SeekSyn, ToTree, Lookup;
    if SiteOf(ToTree(c), op, path, placement).Some? {
      SiteInText(c, op, path, placement);
      var site := SiteOf(ToTree(c), op, path, placement).value;
      SpotBounds(SeekSyn(c, site.path).value.value, site.spot);
    }
  }

  /** The document with an edit's content spliced in; none, when the edit does not apply. */
  function EditedText(t: Text, op: Op, path: seq<Seg>, placement: Placement, value: bytes): Option<bytes> {
    match PatchOf(t.value, op, path, placement)
    case None => None
    case Some(p) =>
      PatchBounds(t.value, op, path, placement);
      Some(Splice(TextBytes(t), |t.pre| + p.start, |t.pre| + p.end, Content(p.kind, value)))
  }

  lemma RemovalBounds(c: Syn, path: seq<Seg>)
    ensures RemovalPatch(c, path).Some? ==> RemovalPatch(c, path).value.start <= RemovalPatch(c, path).value.end <= |SynBytes(c)|
  {
    hide SynBytes, RemovalPatch, ToTree, RemovalOf;
    RemovalDefined(c, path);
    if RemovalPatch(c, path).Some? {
      RemovedBytes(c, path);
    }
  }

  function RemovedText(t: Text, path: seq<Seg>): Option<bytes> {
    match RemovalPatch(t.value, path)
    case None => None
    case Some(p) =>
      RemovalBounds(t.value, path);
      Some(Splice(TextBytes(t), |t.pre| + p.start, |t.pre| + p.end, []))
  }

  /** `s` is a document with this tree. */
  ghost predicate Spells(s: bytes, tree: JSON) {
    exists t: Text :: WfText(t) && TextBytes(t) == s && ToTree(t.value) == tree
  }

  /** The edited text spells the edited tree. */
  lemma EditedTextSpells(t: Text, op: Op, path: seq<Seg>, placement: Placement, v: Syn)
    requires WfText(t) && WfPath(path) && Wf(v)
    ensures match EditTree(ToTree(t.value), op, path, placement, ToTree(v))
            case None => EditedText(t, op, path, placement, SynBytes(v)) == None
            case Some(tree) =>
              EditedText(t, op, path, placement, SynBytes(v)).Some? &&
              Spells(EditedText(t, op, path, placement, SynBytes(v)).value, tree)
  {
    hide SynBytes, EditTree, ToTree, PatchOf, Splice, Content, WfText, TextBytes;
    EditIsTreeEdit(t, op, path, placement, v);
  }

  lemma RemovedTextSpells(t: Text, path: seq<Seg>)
    requires WfText(t)
    ensures match RemoveTree(ToTree(t.value), path)
            case None => RemovedText(t, path) == None
            case Some(tree) => RemovedText(t, path).Some? && Spells(RemovedText(t, path).value, tree)
  {
    hide SynBytes, RemoveTree, ToTree, RemovalPatch, Splice, WfText, TextBytes;
    RemovalIsTreeRemoval(t, path);
  }

  // ---------- the editor ----------

  /** What an editor does with a document, given the edited one. */
  ghost predicate Done(r: Res<bool>, before: bytes, after: bytes, edited: Option<bytes>, capacity: nat) {
    match edited
    case None => r == Ok(false) && after == before
    case Some(text) =>
      if |text| <= capacity then r == Ok(true) && after == text else r == Err(Capacity) && after == before
  }

  class Editor {
    const st: MemStorage
    const scratch: array<byte>
    const native: bool
    const stackBytes: nat
    var placement: Placement

    ghost predicate Valid()
      reads this, st
    {
      st.Valid() && scratch != st.buf && scratch.Length > 0
    }

    constructor (storage: MemStorage, buffer: array<byte>, moves: bool, n: nat)
      requires storage.Valid() && buffer != storage.buf && buffer.Length > 0
      ensures Valid() && st == storage && scratch == buffer && native == moves && stackBytes == n && placement == Sorted
    {
      st, scratch, native, stackBytes, placement := storage, buffer, moves, n, Sorted;
    }

    /** The document is `t`, and the parser can go into all of it. */
    ghost predicate Holds(t: Text)
      requires Valid()
      reads this, st, st.buf
    {
      WfText(t) && TextBytes(t) == st.Contents() && Depth(t.value) <= Min(stackBytes * 8, U16_MAX)
    }

    /** A parser at the start of the document. */
    method Parse(ghost t: Text) returns (p: Parser)
      requires Valid()
      ensures p.Valid() && fresh(p) && fresh(p.src) && fresh(p.stack) && fresh(p.stack.bits)
      ensures old(Holds(t)) ==> Facing(p, t.value, t.post) && StartOf(p, t.value, t.post) == |t.pre|
    {
      hide TextBytes, SynBytes, Facing, WfText;
      var src := new Source.Plain(st.Contents());
      p := new Parser(src, stackBytes);
      assert p.Rest() == src.data[0..] == src.data;
      if Holds(t) {
        FacingDocument(p, t);
      }
    }

    /** Applies a patch: its content is written once to be measured, and once more to the storage. */
    method ApplyPatch(patch: Patch, value: seq<bytes>) returns (r: Res<Span>)
      requires Valid()
      modifies st, st.buf, scratch
      ensures Valid()
      ensures patch.start <= patch.end <= |old(st.Contents())| ==>
                var text := Splice(old(st.Contents()), patch.start, patch.end, Content(patch.kind, Concat(value)));
                if |text| <= st.buf.Length
                then r == Ok(Span(patch.start, patch.start + |Content(patch.kind, Concat(value))|)) && st.Contents() == text
                else r == Err(Capacity) && st.Contents() == old(st.Contents())
    {
      hide Content, Concat, Splice;
      var measure := new JsonWriter(0);
      WriteContent(measure, patch.kind, value);
      var w := new JsonWriter(0);
      WriteContent(w, patch.kind, value);
      ghost var content := Content(patch.kind, Concat(value));
      assert [] + content == content;
      assert content + Spaces(0) == content;
      if patch.start <= patch.end <= |st.Contents()| {
        SpliceLength(st.Contents(), patch.start, patch.end, content);
      }
      r := Apply(st, patch.start, patch.end, measure.pieces, w.pieces, scratch, native);
    }

    /** The patch of an edit. */
    method Plan(op: Op, path: seq<Seg>, ghost t: Text) returns (r: Res<Option<Patch>>)
      requires Valid()
      ensures old(Holds(t)) ==> r == Ok(Moved(PatchOf(t.value, op, path, placement), |t.pre|))
    {
      hide SynBytes, Facing, PatchOf, Holds;
      ghost var holds := Holds(t);
      var p := Parse(t);
      r := PlanWith(p, op, path, placement, t.value, t.post);
    }

    method PlanRemoval(path: seq<Seg>, ghost t: Text) returns (r: Res<Option<Patch>>)
      requires Valid()
      ensures old(Holds(t)) ==> r == Ok(Moved(RemovalPatch(t.value, path), |t.pre|))
    {
      hide SynBytes, Facing, RemovalPatch, Holds;
      ghost var holds := Holds(t);
      var p := Parse(t);
      r := PlanRemove(p, path, t.value, t.post);
    }

    /** Applies an edit: whether it applied. `value` is the encoded value, in the fragments it is written in. */
    method Edit(op: Op, path: seq<Seg>, value: seq<bytes>, ghost t: Text) returns (r: Res<bool>)
      requires Valid()
      modifies st, st.buf, scratch
      ensures Valid() && placement == old(placement)
      ensures old(Holds(t)) ==>
                Done(r, old(st.Contents()), st.Contents(), EditedText(t, op, path, placement, Concat(value)), st.buf.Length)
    {
      hide TextBytes, PatchOf, Content, Concat, Splice, WfText, EditedText;
      EditedTextIs(t, op, path, placement, Concat(value));
      var patch := Plan(op, path, t);
      if patch.Err? {
        r := Err(patch.kind);
      } else if patch.value.None? {
        r := Ok(false);
      } else {
        var s := ApplyPatch(patch.value.value, value);
        r := if s.Ok? then Ok(true) else Err(s.kind);
      }
    }

    /** Removes the member or element at `path`: whether it was there. */
    method Remove(path: seq<Seg>, ghost t: Text) returns (r: Res<bool>)
      requires Valid()
      modifies st, st.buf, scratch
      ensures Valid() && placement == old(placement)
      ensures old(Holds(t)) ==> Done(r, old(st.Contents()), st.Contents(), RemovedText(t, path), st.buf.Length)
    {
      hide TextBytes, RemovalPatch, Content, Concat, Splice, WfText, RemovedText;
      RemovedTextIs(t, path, Concat([NULL]));
      var patch := PlanRemoval(path, t);
      if patch.Err? {
        r := Err(patch.kind);
      } else if patch.value.None? {
        r := Ok(false);
      } else {
        var s := ApplyPatch(patch.value.value, [NULL]);
        r := if s.Ok? then Ok(true) else Err(s.kind);
      }
    }
  }

  /** The edited text, by the patch of the document. */
  lemma EditedTextIs(t: Text, op: Op, path: seq<Seg>, placement: Placement, value: bytes)
    ensures match Moved(PatchOf(t.value, op, path, placement), |t.pre|)
            case None => EditedText(t, op, path, placement, value) == None
            case Some(q) =>
              q.start <= q.end <= |TextBytes(t)| &&
              EditedText(t, op, path, placement, value) == Some(Splice(TextBytes(t), q.start, q.end, Content(q.kind, value)))
  {
    hide PatchOf, SynBytes, Splice, Content;
    PatchBounds(t.value, op, path, placement);
  }

  lemma RemovedTextIs(t: Text, path: seq<Seg>, value: bytes)
    ensures match Moved(RemovalPatch(t.value, path), |t.pre|)
            case None => RemovedText(t, path) == None
            case Some(q) =>
              q.start <= q.end <= |TextBytes(t)| &&
              RemovedText(t, path) == Some(Splice(TextBytes(t), q.start, q.end, Content(q.kind, value)))
  {
    hide RemovalPatch, RemovalOf, RemoveTree, ToTree, SynBytes, Splice;
    RemovalBounds(t.value, path);
    RemovalDefined(t.value, path);
  }

  lemma SpliceLength(doc: bytes, start: nat, end: nat, content: bytes)
    requires start <= end <= |doc|
    ensures |Splice(doc, start, end, content)| == |doc| - (end - start) + |content|
  {
  }
}
