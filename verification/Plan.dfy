/** Planning edits and removals by reading the document once. */
module Planning {
  import opened Bytes
  import opened Grammar
  import opened Reader
  import opened Automaton
  import opened Paths
  import opened Results
  import opened Sources
  import opened TreeEdit
  import opened Patches
  import opened Parsing
  import opened Seeking
  import opened Stepping
  import opened PathSeeking
  import opened Leaving
  import opened Locating

  // ---------- locating ----------

  /** Goes to the value at `path`, if there is one. */
  method Reach(p: Parser, path: seq<Seg>, ghost c: Syn, ghost rest: bytes) returns (r: Res<bool>, ghost after: bytes)
    requires p.Valid()
    modifies p`state, p`stash, p.src`pos, p.src`end, p.src`pending, p.src`out, p.stack`depth, p.stack.bits
    ensures p.Valid()
    ensures old(Facing(p, c, rest)) ==>
              r == Ok(SeekSyn(c, path).Some?) &&
              (r.value ==>
                 var l := SeekSyn(c, path).value;
                 Facing(p, l.value, after) && !p.state.InStr? && p.Rest() == SynBytes(l.value) + after && StartOf(p, l.value, after) == StartOf(p, c, rest) + l.off)
  {
    hide Facing, SynBytes, SeekSyn, AtToken, Unfinished;
    r, after := SeekSegs(p, path, c, rest);
    if PeekedValue(p) {
      PeekedState(p);
    }
  }

  lemma PeekedState(p: Parser)
    requires p.Valid() && PeekedValue(p)
    ensures !p.state.InStr?
  {
    ValueTokenIsValue(p.Rest()[0]);
    TokenFactsOf(Peeked(ValueToken(p.Rest()[0]).value, p.state, p.Rest()), p.Levels());
  }

  method LocateWhole(p: Parser, op: Op, path: seq<Seg>, placement: Placement, ghost c: Syn, ghost rest: bytes) returns (r: Res<Option<Target>>)
    requires p.Valid() && op != Push && (op == Replace || path == [])
    modifies p`state, p`stash, p.src`pos, p.src`end, p.src`pending, p.src`out, p.stack`depth, p.stack.bits
    ensures p.Valid()
    ensures old(Facing(p, c, rest)) ==> r.Ok? && AtPatch(p, r.value, PatchOf(c, op, path, placement), c, rest, placement)
  {
    hide Facing, SynBytes, SeekSyn, ToTree, SiteOf, PatchOf, AtPatch;
    ghost var facing, after := Facing(p, c, rest), [];
    SitesOf(c, op, path, placement);
    var found;
    found, after := Reach(p, path, c, rest);
    if found.Err? {
      r := Err(found.kind);
    } else if !found.value {
      r := Ok(None);
      if facing {
        NoSiteNoPatch(c, op, path, placement);
        NoPatch(p, c, rest, placement);
      }
    } else {
      var t := Target(p.src.Offset(), true, ValueKind);
      r := Ok(Some(t));
      if facing {
        var l := SeekSyn(c, path).value;
        WholeSpot(p, t, l.value, LastSeg(path), after, placement);
        SpotGivesPatch(p, t, c, rest, op, path, placement, Site(path, Whole, []), l, after);
      }
    }
  }

  lemma NoPatch(p: Parser, c: Syn, rest: bytes, placement: Placement)
    requires p.Valid()
    ensures AtPatch(p, None, None, c, rest, placement)
  {
  }

  lemma WholeSpot(p: Parser, t: Target, u: Syn, seg: Seg, after: bytes, placement: Placement)
    requires p.Valid() && Facing(p, u, after) && p.Rest() == SynBytes(u) + after && !p.state.InStr?
    requires t == Target(p.src.Offset(), true, ValueKind)
    ensures AtSpot(p, t, u, Whole, seg, after, placement)
  {
    hide SynBytes, ValueAt;
  }

  method LocateEnd(p: Parser, path: seq<Seg>, placement: Placement, ghost c: Syn, ghost rest: bytes) returns (r: Res<Option<Target>>)
    requires p.Valid()
    modifies p`state, p`stash, p.src`pos, p.src`end, p.src`pending, p.src`out, p.stack`depth, p.stack.bits
    ensures p.Valid()
    ensures old(Facing(p, c, rest)) ==> r.Ok? && AtPatch(p, r.value, PatchOf(c, Push, path, placement), c, rest, placement)
  {
    hide Facing, SynBytes, SeekSyn, ToTree, SiteOf, PatchOf, AtPatch, AtSpot;
    ghost var facing, after := Facing(p, c, rest), [];
    SitesOf(c, Push, path, placement);
    var found;
    found, after := Reach(p, path, c, rest);
    if found.Err? {
      r := Err(found.kind);
    } else if !found.value {
      r := Ok(None);
    } else {
      ghost var u := if SeekSyn(c, path).Some? then SeekSyn(c, path).value.value else c;
      r := LocatePush(p, LastSeg(path), placement, u, after);
    }
    if facing {
      if r.value.None? {
        NoSiteNoPatch(c, Push, path, placement);
        NoPatch(p, c, rest, placement);
      } else {
        SpotGivesPatch(p, r.value.value, c, rest, Push, path, placement, Site(path, AtEnd, []), SeekSyn(c, path).value, after);
      }
    }
  }

  method LocateChild(p: Parser, op: Op, path: seq<Seg>, placement: Placement, ghost c: Syn, ghost rest: bytes) returns (r: Res<Option<Target>>)
    requires p.Valid() && op != Push && op != Replace && path != []
    modifies p`state, p`stash, p.src`pos, p.src`end, p.src`pending, p.src`out, p.stack`depth, p.stack.bits
    ensures p.Valid()
    ensures old(Facing(p, c, rest)) ==> r.Ok? && AtPatch(p, r.value, PatchOf(c, op, path, placement), c, rest, placement)
  {
    hide Facing, SynBytes, SeekSyn, ToTree, SiteOf, PatchOf, AtPatch, SpotIn, SegName, AtSpot;
    ghost var facing, after := Facing(p, c, rest), [];
    SitesOf(c, op, path, placement);
    var parent, last := path[..|path| - 1], path[|path| - 1];
    var found;
    found, after := Reach(p, parent, c, rest);
    if found.Err? {
      r := Err(found.kind);
    } else if !found.value {
      r := Ok(None);
    } else {
      ghost var u := if SeekSyn(c, parent).Some? then SeekSyn(c, parent).value.value else c;
      r := LocateIn(p, last, op, placement, u, after);
    }
    if facing {
      if r.value.None? {
        NoSiteNoPatch(c, op, path, placement);
        NoPatch(p, c, rest, placement);
      } else {
        var l := SeekSyn(c, parent).value;
        SpotFits(l.value, op, last, placement);
        SpotGivesPatch(p, r.value.value, c, rest, op, path, placement,
                       Site(parent, SpotIn(ToTree(l.value), op, last, placement).value, SegName(last)), l, after);
      }
    }
  }

  lemma SpotFits(u: Syn, op: Op, seg: Seg, placement: Placement)
    requires SpotIn(ToTree(u), op, seg, placement).Some?
    ensures var spot := SpotIn(ToTree(u), op, seg, placement).value;
            u.SContainer? && (spot.Over? || spot.Before? ==> spot.k < |u.entries|)
  {
    hide SegName, SegIndex;
  }

  /** Finds where `op` applies. */
  method Locate(p: Parser, op: Op, path: seq<Seg>, placement: Placement, ghost c: Syn, ghost rest: bytes) returns (r: Res<Option<Target>>)
    requires p.Valid()
    modifies p`state, p`stash, p.src`pos, p.src`end, p.src`pending, p.src`out, p.stack`depth, p.stack.bits
    ensures p.Valid()
    ensures old(Facing(p, c, rest)) ==> r.Ok? && AtPatch(p, r.value, PatchOf(c, op, path, placement), c, rest, placement)
  {
    hide Facing, PatchOf, AtPatch;
    if op == Push {
      r := LocateEnd(p, path, placement, c, rest);
    } else if op == Replace || path == [] {
      r := LocateWhole(p, op, path, placement, c, rest);
    } else {
      r := LocateChild(p, op, path, placement, c, rest);
    }
  }

  /** A patch of a value, as a patch of the document the value is in. */
  function Moved(q: Option<Patch>, off: int): (r: Option<Patch>)
    requires off >= 0
  {
    match q
    case None => None
    case Some(x) => Some(Patch(x.start + off, x.end + off, x.kind))
  }

  /** Computes the patch of an edit. */
  method PlanWith(p: Parser, op: Op, path: seq<Seg>, placement: Placement, ghost c: Syn, ghost rest: bytes) returns (r: Res<Option<Patch>>)
    requires p.Valid()
    modifies p`state, p`stash, p.src`pos, p.src`end, p.src`pending, p.src`out, p.stack`depth, p.stack.bits
    ensures p.Valid()
    ensures old(Facing(p, c, rest)) ==>
              StartOf(p, c, rest) >= 0 && r == Ok(Moved(PatchOf(c, op, path, placement), StartOf(p, c, rest)))
  {
    hide PatchOf, SynBytes, ValueAt, ValueDone;
    ghost var facing := Facing(p, c, rest);
    if facing {
      StartsInside(p, c, rest);
    }
    var t :- Locate(p, op, path, placement, c, rest);
    if t.None? {
      r := Ok(None);
    } else if t.value.replace {
      var span :- ValueSpan(p);
      r := Ok(Some(Patch(t.value.start, span.end, t.value.kind)));
    } else {
      r := Ok(Some(Patch(t.value.start, t.value.start, t.value.kind)));
    }
  }

  lemma StartsInside(p: Parser, c: Syn, rest: bytes)
    requires p.Valid() && Facing(p, c, rest)
    ensures StartOf(p, c, rest) >= 0
  {
    hide SynBytes, ParseValue;
    ParseValueSound(PeekFrom(p.state, p.Rest(), p.Levels()).value.rest, p.Room());
    PeekFromShortens(p.state, p.Rest(), p.Levels());
  }
}
