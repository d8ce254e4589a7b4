/** Editing a document several times: what the bytes spell is what the changes make of the tree. */
module EditRuns {
  import opened Bytes
  import opened Grammar
  import opened Paths
  import opened Results
  import opened Nesting
  import opened TreeEdit
  import opened Patches
  import opened Writing
  import opened Depths
  import opened Editing
  import SortedRuns

  /** An edit with an encoded value, or a removal. */
  datatype DocChange = Edit(op: Op, path: seq<Seg>, value: Syn) | Remove(path: seq<Seg>)

  function TreeChange(c: DocChange): SortedRuns.Change {
    match c
    case Edit(op, path, value) => SortedRuns.Change.Change(op, path, ToTree(value))
    case Remove(path) => SortedRuns.Removal(path)
  }

  function TreeChanges(cs: seq<DocChange>): (r: seq<SortedRuns.Change>)
    ensures |r| == |cs| && forall i :: 0 <= i < |r| ==> r[i] == TreeChange(cs[i])
  {
    seq(|cs|, i requires 0 <= i < |cs| => TreeChange(cs[i]))
  }

  /** How deep the parser of the editor can go. */
  function MaxDepth(ed: Editor): nat {
    Min(ed.stackBytes * 8, U16_MAX)
  }

  /** The change is well formed, and does not nest anything deeper than `d`. */
  ghost predicate InDepth(c: DocChange, d: nat) {
    c.Edit? ==> WfPath(c.path) && Wf(c.value) && |c.path| + 1 + Depth(c.value) <= d
  }

  /** The editor holds a document with this tree, and can parse all of it. */
  ghost predicate Holding(ed: Editor, tree: JSON)
    reads ed, ed.st, ed.st.buf
  {
    ed.Valid() && ed.placement == Sorted && Spells(ed.st.Contents(), tree) && Within(tree, MaxDepth(ed))
  }

  lemma HoldingText(ed: Editor, tree: JSON) returns (t: Text)
    requires Holding(ed, tree)
    ensures ed.Holds(t) && ToTree(t.value) == tree
  {
    hide TextBytes, WfText, Within;
    t :| WfText(t) && TextBytes(t) == ed.st.Contents() && ToTree(t.value) == tree;
    DepthIsWithin(t.value, MaxDepth(ed));
  }

  /** The edited tree is within reach again. */
  lemma ChangedWithin(tree: JSON, c: DocChange, d: nat)
    requires Within(tree, d) && InDepth(c, d)
    ensures Within(SortedRuns.Apply(tree, TreeChange(c)), d)
  {
    hide Within, Depth, Wf, EditTree, RemoveTree, ToTree, WfPath;
    match c {
      case Edit(op, path, value) =>
        DepthIsWithin(value, Depth(value));
        if EditTree(tree, op, path, Sorted, ToTree(value)).Some? {
          EditWithin(tree, op, path, Sorted, ToTree(value), d, Depth(value));
        }
      case Remove(path) =>
        if RemoveTree(tree, path).Some? {
          RemoveWithin(tree, path, d);
        }
    }
  }

  lemma OnePiece(s: bytes)
    ensures Concat([s]) == s
  {
    assert [s][..0] == [] && Concat([]) == [] && [] + s == s;
  }

  /** What the editor does to the bytes is what the change does to the tree. */
  lemma ChangedSpells(t: Text, c: DocChange, before: bytes, after: bytes, r: Res<bool>, capacity: nat)
    requires WfText(t) && TextBytes(t) == before && r.Ok? && (c.Edit? ==> WfPath(c.path) && Wf(c.value))
    requires Done(r, before, after,
                  match c case Edit(op, path, value) => EditedText(t, op, path, Sorted, SynBytes(value)) case Remove(path) => RemovedText(t, path),
                  capacity)
    ensures Spells(after, SortedRuns.Apply(ToTree(t.value), TreeChange(c)))
  {
    hide EditedText, RemovedText, EditTree, RemoveTree, ToTree, Wf, WfPath, SynBytes;
    match c {
      case Edit(op, path, value) => EditedTextSpells(t, op, path, Sorted, value);
      case Remove(path) => RemovedTextSpells(t, path);
    }
  }

  /** One change: an error only for lack of room, and then nothing has changed. */
  method ChangeDocument(ed: Editor, c: DocChange, ghost tree: JSON) returns (r: Res<bool>)
    requires ed.Valid()
    modifies ed.st, ed.st.buf, ed.scratch
    ensures ed.Valid()
    ensures old(Holding(ed, tree)) && InDepth(c, MaxDepth(ed)) ==>
              if r.Ok? then Holding(ed, SortedRuns.Apply(tree, TreeChange(c)))
              else r == Err(Capacity) && Holding(ed, tree) && ed.st.Contents() == old(ed.st.Contents())
  {
    hide Spells, Within, EditedText, RemovedText, SortedRuns.Apply, TreeChange, Wf, WfPath, Depth, SynBytes, Concat, WfText, TextBytes;
    ghost var ok, before := Holding(ed, tree) && InDepth(c, MaxDepth(ed)), ed.st.Contents();
    ghost var t := Text([], SNull, []);
    if ok {
      t := HoldingText(ed, tree);
    }
    match c {
      case Edit(op, path, value) =>
        OnePiece(SynBytes(value));
        r := ed.Edit(op, path, [SynBytes(value)], t);
      case Remove(path) => r := ed.Remove(path, t);
    }
    if ok && r.Ok? {
      ChangedSpells(t, c, before, ed.st.Contents(), r, ed.st.buf.Length);
      ChangedWithin(tree, c, MaxDepth(ed));
    }
  }

  /** A run of changes, up to the first one for which there is no room. */
  method ChangeAll(ed: Editor, cs: seq<DocChange>, ghost tree: JSON) returns (r: Res<()>)
    requires ed.Valid()
    modifies ed.st, ed.st.buf, ed.scratch
    ensures ed.Valid()
    ensures old(Holding(ed, tree)) && (forall i :: 0 <= i < |cs| ==> InDepth(cs[i], MaxDepth(ed))) ==>
              if r.Ok? then Holding(ed, SortedRuns.ApplyAll(tree, TreeChanges(cs))) else r == Err(Capacity)
  {
    hide Holding, InDepth, SortedRuns.Apply, TreeChange;
    ghost var ok := Holding(ed, tree) && forall i :: 0 <= i < |cs| ==> InDepth(cs[i], MaxDepth(ed));
    ghost var now, changes := tree, TreeChanges(cs);
    assert changes[0..] == changes;
    for i := 0 to |cs|
      invariant ed.Valid()
      invariant ok ==> Holding(ed, now) && SortedRuns.ApplyAll(now, changes[i..]) == SortedRuns.ApplyAll(tree, changes)
    {
      assert changes[i..][0] == TreeChange(cs[i]) && changes[i..][1..] == changes[i + 1..];
      var s := ChangeDocument(ed, cs[i], now);
      if s.Err? {
        return Err(s.kind);
      }
      now := SortedRuns.Apply(now, TreeChange(cs[i]));
    }
    r := Ok(());
  }
}
