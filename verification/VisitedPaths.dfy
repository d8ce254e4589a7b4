/** The pointers of a walk are text: their bytes, kept in a byte buffer, are always UTF-8. */
module VisitedPaths {
  import opened Bytes
  import opened Utf8Coding
  import opened StringGrammar
  import opened Numbers
  import opened Compare
  import opened Grammar
  import opened Paths
  import opened SynEdit
  import opened StringReading
  import opened Pointers
  import opened Visits

  lemma OneCharToken(cp: int)
    requires Scalar(cp)
    ensures IsUtf8(EscapeToken(Utf8(cp)))
  {
    var one := [cp];
    assert Scalars(one) && Utf8All(one) == Utf8(cp) + Utf8All([]) == Utf8(cp);
    if cp == TILDE || cp == SLASH {
      assert [cp][1..] == [];
      assert EscapeToken([cp]) == EscapeTokenByte(cp) + EscapeToken([]) == EscapeTokenByte(cp);
      AsciiIsUtf8(EscapeTokenByte(cp));
    } else {
      EscapeTokenPlain(Utf8(cp));
    }
  }

  /** Escaping a name as a reference token keeps it UTF-8. */
  lemma {:induction false} TokenIsUtf8(cps: seq<int>)
    requires Scalars(cps)
    ensures IsUtf8(EscapeToken(Utf8All(cps)))
    decreases |cps|
  {
    hide IsUtf8, Utf8, EscapeToken;
    if cps == [] {
      NothingIsUtf8();
      EscapeTokenPlain([]);
    } else {
      OneCharToken(cps[0]);
      TokenIsUtf8(cps[1..]);
      EscapeTokenAppend(Utf8(cps[0]), Utf8All(cps[1..]));
      Utf8Append(EscapeToken(Utf8(cps[0])), EscapeToken(Utf8All(cps[1..])));
    }
  }

  lemma EntryPathIsUtf8(c: Syn, k: nat, path: bytes)
    requires Wf(c) && c.SContainer? && k < |c.entries| && IsUtf8(path)
    ensures IsUtf8(EntryPath(c, k, path))
  {
    hide IsUtf8, Decimal, EscapeToken, CharsText, ReferenceToken;
    ReferenceTokenIsUtf8(c, k);
    AsciiIsUtf8([SLASH]);
    Utf8Append(path, [SLASH]);
    Utf8Append(path + [SLASH], ReferenceToken(c, k));
  }

  lemma ReferenceTokenIsUtf8(c: Syn, k: nat)
    requires Wf(c) && c.SContainer? && k < |c.entries|
    ensures IsUtf8(ReferenceToken(c, k))
  {
    hide Decimal, EscapeToken, CharsText, Utf8All;
    if c.obj {
      WfAt(c.obj, c.entries, k);
      CharsTextIsUtf8(c.entries[k].name.value.chars);
      var cps: seq<int> :| Scalars(cps) && Utf8All(cps) == NameText(c.entries[k]);
      TokenIsUtf8(cps);
    } else {
      AsciiIsUtf8(Decimal(k));
    }
  }

  ghost predicate AllText(vs: seq<Visit>) {
    forall i :: 0 <= i < |vs| ==> IsUtf8(vs[i].path)
  }

  lemma NoText()
    ensures AllText([])
  {
  }

  lemma TextFollow(a: Walked, b: Walked)
    requires AllText(a.visits) && AllText(b.visits)
    ensures AllText(Follow(a, b).visits)
  {
    hide IsUtf8;
  }

  lemma TextOnce(v: Visit, decide: Visit -> Flow)
    requires IsUtf8(v.path)
    ensures AllText(Once(v, decide).visits)
  {
    hide IsUtf8;
  }

  /** Every pointer that a walk over a well-formed value reports is UTF-8. */
  lemma {:induction false} WalkPathsAreUtf8(c: Syn, path: bytes, off: int, limit: nat, decide: Visit -> Flow)
    requires Wf(c) && IsUtf8(path)
    ensures AllText(WalkValue(c, path, off, limit, decide).visits)
    decreases c, 1, 0
  {
    hide IsUtf8, AllText, Wf, WalkEntries;
    TextOnce(Visit(path, TokenOf(c), off), decide);
    if c.SContainer? {
      EntryPathsAreUtf8(c, 0, path, off, limit, decide);
      TextFollow(Once(Visit(path, TokenOf(c), off), decide), WalkEntries(c, 0, path, off, limit, decide));
    }
  }

  lemma {:induction false} EntryPathsAreUtf8(c: Syn, k: nat, path: bytes, off: int, limit: nat, decide: Visit -> Flow)
    requires Wf(c) && IsUtf8(path) && c.SContainer? && k <= |c.entries|
    ensures AllText(WalkEntries(c, k, path, off, limit, decide).visits)
    decreases c, 0, |c.entries| - k
  {
    hide IsUtf8, AllText, Wf, WalkValue, EntryPath, BeforeValue, SynBytes;
    if k < |c.entries| {
      var v := c.entries[k].value;
      WfValue(c, k);
      EntryPathIsUtf8(c, k, path);
      WalkPathsAreUtf8(v, EntryPath(c, k, path), off + |BeforeValue(c, k)|, limit, decide);
      EntryPathsAreUtf8(c, k + 1, path, off, limit, decide);
      NoText();
      TextFollow(WalkValue(v, EntryPath(c, k, path), off + |BeforeValue(c, k)|, limit, decide), WalkEntries(c, k + 1, path, off, limit, decide));
    } else {
      TextOnce(Visit(path, EndToken(c.obj), off + |SynBytes(c)| - 1), decide);
    }
  }
}
