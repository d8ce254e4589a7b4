/** Editing while copying: in two passes, and in one. */
module Copying {
  import opened Bytes
  import opened Grammar
  import opened Automaton
  import opened Paths
  import opened Results
  import opened Sources
  import opened TreeEdit
  import opened SynEdit
  import opened Patches
  import opened Parsing
  import opened PathSeeking
  import opened Locating
  import opened Planning
  import opened Documents
  import opened Writing
  import opened ContentWriting
  import opened Editing

  // ---------- two passes ----------

  /** Copies bytes from `src` to the output, or drops them, up to an offset or the end of the input. */
  method Pump(src: Source, out0: bytes, copy: bool, until: Option<nat>) returns (r: Res<()>, out: bytes)
    requires src.Valid() && (until.Some? ==> src.Offset() <= until.value)
    modifies src`pos, src`end, src`pending, src`out
    ensures src.Valid()
    ensures var stop := if until.Some? then Min(until.value, |src.data|) else |src.data|;
            old(src.Offset()) <= stop == src.Offset() &&
            out == out0 + (if copy then src.data[old(src.Offset())..stop] else []) &&
            if until.Some? && until.value > |src.data| then r == Err(UnexpectedEof) else r.Ok?
  {
    ghost var start := src.Offset();
    out := out0;
    NothingCopied(out0, src.data, start);
    var more := true;
    r := Ok(());
    while more
      invariant src.Valid() && start <= src.Offset() && (until.Some? ==> src.Offset() <= until.value)
      invariant out == out0 + (if copy then src.data[start..src.Offset()] else [])
      invariant more ==> r.Ok?
      invariant !more ==>
                  if r.Ok? then src.Offset() == (if until.Some? then until.value else |src.data|)
                  else r == Err(UnexpectedEof) && src.Offset() == |src.data| && until.Some? && until.value > |src.data|
      decreases more, |src.data| - src.Offset()
    {
      if until.Some? && until.value == src.Offset() {
        more := false;
      } else {
        var buf := src.Fill();
        if buf == [] {
          r := if until.Some? then Err(UnexpectedEof) else Ok(());
          more := false;
        } else {
          var n := if until.Some? then Min(|buf|, until.value - src.Offset()) else |buf|;
          CopiedMore(out0, src.data, start, src.Offset(), n, buf);
          if copy {
            out := out + buf[..n];
          }
          src.Consume(n);
        }
      }
    }
  }

  lemma NothingCopied(out: bytes, data: bytes, i: nat)
    requires i <= |data|
    ensures out + data[i..i] == out && out + [] == out
  {
  }

  lemma CopiedMore(out: bytes, data: bytes, i: nat, j: nat, n: nat, buf: bytes)
    requires i <= j <= j + |buf| <= |data| && n <= |buf| && buf == data[j..j + |buf|]
    ensures out + data[i..j] + buf[..n] == out + data[i..j + n]
  {
    assert buf[..n] == data[j..j + n];
    SliceAppend(data, i, j, j + n);
    Cat3(out, data[i..j], buf[..n]);
  }

  /** Copies the document, applying a patch on the way. */
  method ApplyCopy(src: Source, patch: Patch, value: seq<bytes>) returns (r: Res<()>, out: bytes)
    requires src.Valid()
    modifies src`pos, src`end, src`pending, src`out
    ensures src.Valid()
    ensures old(src.Offset()) > patch.start || patch.start > patch.end ==> r == Err(InvalidState) && out == []
    ensures old(src.Offset()) <= patch.start <= patch.end <= |src.data| ==>
              r.Ok? &&
              out == src.data[old(src.Offset())..patch.start] + Content(patch.kind, Concat(value)) + src.data[patch.end..]
    ensures old(src.Offset()) <= patch.start <= patch.end && patch.end > |src.data| ==> r == Err(UnexpectedEof)
  {
    hide Content, Concat;
    out := [];
    if src.Offset() > patch.start || patch.start > patch.end {
      return Err(InvalidState), out;
    }
    ghost var first := src.Offset();
    r, out := Pump(src, out, true, Some(patch.start));
    if r.Err? {
      return;
    }
    var w := new JsonWriter(0);
    WriteContent(w, patch.kind, value);
    ghost var content := Content(patch.kind, Concat(value));
    ghost var head := src.data[first..patch.start];
    assert [] + content == content && [] + head == head;
    out := out + w.Text();
    r, out := Pump(src, out, false, Some(patch.end));
    if r.Err? {
      return;
    }
    assert head + content + [] == head + content;
    r, out := Pump(src, out, true, None);
    SliceToEnd(src.data, patch.end);
  }

  /** From the start, the copy is the splice. */
  lemma CopyIsSplice(data: bytes, start: nat, end: nat, content: bytes)
    requires start <= end <= |data|
    ensures data[0..start] + content + data[end..] == Splice(data, start, end, content)
  {
  }

  // ---------- one pass ----------

  /** What copying does with a document, given the edited one: an exact copy, if there is none. */
  ghost predicate Copied(r: Res<bool>, input: bytes, out: bytes, edited: Option<bytes>) {
    r == Ok(edited.Some?) && out == if edited.Some? then edited.value else input
  }

  /** Skips a value, or nothing, without copying it. */
  method DropValue(p: Parser, replace: bool) returns (r: Res<()>)
    requires p.Valid() && p.src.tee
    modifies p, p.src, p.stack, p.stack.bits
    ensures r.Ok? ==> p.src.Valid() && p.src.enabled && p.src.Copied() == old(p.src.Copied())
    ensures !replace ==> r.Ok? && p.src.Offset() == old(p.src.Offset())
    ensures replace && !old(p.state).InStr? && old(ValueAt(p.state, p.Rest(), p.Levels(), p.Room())).Some? ==>
              r.Ok? && p.Rest() == old(ValueAt(p.state, p.Rest(), p.Levels(), p.Room())).value.rest
  {
    hide ValueAt, SkipFrom;
    if !p.state.InStr? && ValueAt(p.state, p.Rest(), p.Levels(), p.Room()).Some? {
      SkippedValue(p.state, p.Rest(), p.Levels(), p.Room());
    }
    p.src.SetEnabled(false);
    if replace {
      var _ :- p.SkipValue();
    }
    p.src.SetEnabled(true);
    r := Ok(());
  }

  /** Writes the content, then copies the rest. */
  method WriteRest(src: Source, kind: Kind, value: seq<bytes>)
    requires src.Valid() && src.tee
    modifies src
    ensures src.out == old(src.Copied()) + Content(kind, Concat(value)) + old(src.Rest())
  {
    hide Content, Concat;
    var w := new JsonWriter(0);
    WriteContent(w, kind, value);
    assert [] + Content(kind, Concat(value)) == Content(kind, Concat(value));
    src.WriteOut(w.Text());
    src.CopyRest();
  }

  /** Skips what is replaced without copying it, writes the content, and copies the rest. */
  method CopyTarget(p: Parser, target: Target, value: seq<bytes>, ghost c: Syn, ghost rest: bytes, ghost q: Patch) returns (r: Res<()>)
    requires p.Valid() && p.src.tee && p.src.enabled
    modifies p, p.src, p.stack, p.stack.bits
    ensures old(p.src.Copied()) == p.src.data[..old(p.src.Offset())] && old(AtPatch(p, Some(target), Some(q), c, rest, End)) ==>
              r.Ok? && StartOf(p, c, rest) + q.end <= |p.src.data| && q.start <= q.end && StartOf(p, c, rest) + q.start >= 0 &&
              p.src.out == Splice(p.src.data, StartOf(p, c, rest) + q.start, StartOf(p, c, rest) + q.end, Content(q.kind, Concat(value)))
  {
    hide Content, Concat, Splice, SynBytes, ValueAt;
    ghost var data, start := p.src.data, p.src.Offset();
    ghost var ok := p.src.Copied() == data[..start] && AtPatch(p, Some(target), Some(q), c, rest, End);
    var _ :- DropValue(p, target.replace);
    ghost var end := p.src.Offset();
    WriteRest(p.src, target.kind, value);
    if ok {
      CopyIsSplice(data, start, end, Content(q.kind, Concat(value)));
      assert data[0..start] == data[..start];
    }
    r := Ok(());
  }

  lemma SkippedValue(state: State, s: bytes, levels: seq<bool>, room: nat)
    requires !state.InStr? && ValueAt(state, s, levels, room).Some?
    ensures SkipFrom(state, s, levels, room) == Some(Scanned(ValueDone(levels), ValueAt(state, s, levels, room).value.rest))
  {
  }

  /** Copies a document in a single pass, with an edit on the way; new members go at the end of their object. Whether it
      applied. */
  method CopyEdit(input: bytes, op: Op, path: seq<Seg>, value: seq<bytes>, ghost t: Text) returns (r: Res<bool>, out: bytes)
    ensures WfText(t) && TextBytes(t) == input && Depth(t.value) <= MAX_DEPTH ==>
              Copied(r, input, out, EditedText(t, op, path, End, Concat(value)))
  {
    hide TextBytes, SynBytes, PatchOf, Content, Concat, Splice, WfText, EditedText, Facing, AtPatch;
    var src := new Source.Tee(input);
    var p := new Parser(src, STACK_BYTES);
    ghost var ok := WfText(t) && TextBytes(t) == input && Depth(t.value) <= MAX_DEPTH;
    StartOfCopy(p, input, t);
    var target := Locate(p, op, path, End, t.value, t.post);
    EditedTextIs(t, op, path, End, Concat(value));
    r, out := CopyLocated(p, target, value, t.value, t.post, PatchOf(t.value, op, path, End), |t.pre|);
  }

  lemma StartOfCopy(p: Parser, input: bytes, t: Text)
    requires p.Valid() && p.state == TopValue && p.Levels() == [] && p.stack.bits.Length == STACK_BYTES
    requires p.src.data == input && p.src.Offset() == 0
    ensures WfText(t) && TextBytes(t) == input && Depth(t.value) <= MAX_DEPTH ==>
              Facing(p, t.value, t.post) && StartOf(p, t.value, t.post) == |t.pre|
  {
    hide TextBytes, SynBytes, Facing, WfText;
    assert input[0..] == input;
    if WfText(t) && TextBytes(t) == input && Depth(t.value) <= MAX_DEPTH {
      FacingDocument(p, t);
    }
  }

  /** The second half of the pass. */
  method CopyLocated(p: Parser, target: Res<Option<Target>>, value: seq<bytes>, ghost c: Syn, ghost rest: bytes, ghost q: Option<Patch>, ghost at: nat)
    returns (r: Res<bool>, out: bytes)
    requires p.Valid() && p.src.tee && p.src.enabled && p.src.Copied() == p.src.data[..p.src.Offset()]
    modifies p, p.src, p.stack, p.stack.bits
    ensures target.Ok? && old(AtPatch(p, target.value, q, c, rest, End)) && StartOf(p, c, rest) == at ==>
              r == Ok(q.Some?) &&
              match Moved(q, at)
              case None => out == p.src.data
              case Some(x) =>
                x.start <= x.end <= |p.src.data| && out == Splice(p.src.data, x.start, x.end, Content(x.kind, Concat(value)))
  {
    hide SynBytes, Content, Concat, Splice, ValueAt;
    if target.Err? {
      return Err(target.kind), p.src.out;
    }
    if target.value.None? {
      ghost var data, off := p.src.data, p.src.Offset();
      p.src.CopyRest();
      assert data[..off] + data[off..] == data;
      return Ok(false), p.src.out;
    }
    var done := CopyTarget(p, target.value.value, value, c, rest, if q.Some? then q.value else Patch(0, 0, ValueKind));
    r := if done.Ok? then Ok(true) else Err(done.kind);
    out := p.src.out;
  }

  /** The same in two passes: planning over the document, then copying it; any placement will do. */
  method CopyEditInTwo(input: bytes, op: Op, path: seq<Seg>, placement: Placement, value: seq<bytes>, ghost t: Text)
    returns (r: Res<bool>, out: bytes)
    ensures WfText(t) && TextBytes(t) == input && Depth(t.value) <= MAX_DEPTH ==>
              Copied(r, input, out, EditedText(t, op, path, placement, Concat(value)))
  {
    hide TextBytes, SynBytes, PatchOf, Content, Concat, Splice, WfText, EditedText, Facing;
    var first := new Source.Plain(input);
    var p := new Parser(first, STACK_BYTES);
    ghost var ok := WfText(t) && TextBytes(t) == input && Depth(t.value) <= MAX_DEPTH;
    StartOfCopy(p, input, t);
    EditedTextIs(t, op, path, placement, Concat(value));
    var patch := PlanWith(p, op, path, placement, t.value, t.post);
    if patch.Err? {
      r, out := Err(patch.kind), [];
    } else if patch.value.None? {
      r, out := Ok(false), input;
    } else {
      var q := patch.value.value;
      var second := new Source.Plain(input);
      var done;
      done, out := ApplyCopy(second, q, value);
      if ok {
        CopyIsSplice(input, q.start, q.end, Content(q.kind, Concat(value)));
      }
      r := if done.Ok? then Ok(true) else Err(done.kind);
    }
  }
}
