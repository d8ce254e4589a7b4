/** Edits on concrete syntax, and the byte spans they amount to. */
module SynEdit {
  import opened Bytes
  import opened StringGrammar
  import opened Grammar
  import opened TreeEdit

  /** `doc` with the bytes from `start` to `end` replaced. */
  function Splice(doc: bytes, start: nat, end: nat, content: bytes): bytes
    requires start <= end <= |doc|
  {
    doc[..start] + content + doc[end..]
  }

  lemma ReplaceSplice(doc: bytes, doc': bytes, a: bytes, b: bytes, c: bytes, x: bytes)
    requires doc == a + b + c && doc' == a + x + c
    ensures |a| + |b| <= |doc| && doc' == Splice(doc, |a|, |a| + |b|, x)
  {
    assert doc[..|a|] == a && doc[|a| + |b|..] == c;
  }

  lemma InsertSplice(doc: bytes, doc': bytes, a: bytes, c: bytes, x: bytes)
    requires doc == a + c && doc' == a + x + c
    ensures |a| <= |doc| && doc' == Splice(doc, |a|, |a|, x)
  {
    assert doc[..|a|] == a && doc[|a|..] == c;
  }

  // ---------- entries by position ----------

  /** Entries, each with the comma after it. */
  function LeadBytes(es: seq<Entry>): bytes {
    if es == [] then [] else EntryBytes(es[0]) + [COMMA] + LeadBytes(es[1..])
  }

  lemma {:induction false} ListAppend(obj: bool, a: seq<Entry>, b: seq<Entry>)
    requires b != []
    ensures ListBytes(obj, a + b) == LeadBytes(a) + ListBytes(obj, b)
  {
    if a == [] {
      assert a + b == b;
    } else {
      assert (a + b)[1..] == a[1..] + b;
      ListAppend(obj, a[1..], b);
      Cat4(EntryBytes(a[0]), [COMMA], LeadBytes(a[1..]), ListBytes(obj, b));
    }
  }

  lemma {:induction false} LeadAppend(a: seq<Entry>, e: Entry)
    ensures LeadBytes(a + [e]) == LeadBytes(a) + EntryBytes(e) + [COMMA]
  {
    if a == [] {
      assert a + [e] == [e] && [e][1..] == [];
    } else {
      assert (a + [e])[1..] == a[1..] + [e];
      LeadAppend(a[1..], e);
      Cat4(EntryBytes(a[0]) + [COMMA], LeadBytes(a[1..]), EntryBytes(e), [COMMA]);
      Cat3(LeadBytes(a[1..]), EntryBytes(e), [COMMA]);
      Cat4(EntryBytes(a[0]) + [COMMA], LeadBytes(a[1..]), EntryBytes(e), [COMMA]);
    }
  }

  /** The container's bytes before the name, or value, of entry `k`. */
  function BeforeName(c: Syn, k: nat): bytes
    requires c.SContainer? && k < |c.entries|
  {
    [Opening(c.obj)] + LeadBytes(c.entries[..k]) + c.entries[k].pre
  }

  function BeforeValue(c: Syn, k: nat): bytes
    requires c.SContainer? && k < |c.entries|
  {
    BeforeName(c, k) + NameBytes(c.entries[k].name)
  }

  /** ... and those after its value. */
  function AfterValueBytes(c: Syn, k: nat): bytes
    requires c.SContainer? && k < |c.entries|
  {
    c.entries[k].post + TailBytes(c.obj, c.entries[k + 1..])
  }

  lemma ContainerAt(c: Syn, k: nat)
    requires c.SContainer? && k < |c.entries|
    ensures SynBytes(c) == BeforeValue(c, k) + SynBytes(c.entries[k].value) + AfterValueBytes(c, k)
  {
    var es := c.entries;
    var e := es[k];
    var tail := TailBytes(c.obj, es[k + 1..]);
    assert es == es[..k] + es[k..];
    ListAppend(c.obj, es[..k], es[k..]);
    assert es[k..][1..] == es[k + 1..];
    assert ListBytes(c.obj, es[k..]) == EntryBytes(e) + tail;
    EntryParts(e, tail);
    Cat3([Opening(c.obj)], LeadBytes(es[..k]), e.pre + (NameBytes(e.name) + (SynBytes(e.value) + (e.post + tail))));
    Cat4(BeforeName(c, k), NameBytes(e.name), SynBytes(e.value), e.post + tail);
    Cat3([Opening(c.obj)] + LeadBytes(es[..k]), e.pre, NameBytes(e.name) + (SynBytes(e.value) + (e.post + tail)));
  }

  lemma EntryParts(e: Entry, tail: bytes)
    ensures EntryBytes(e) + tail == e.pre + (NameBytes(e.name) + (SynBytes(e.value) + (e.post + tail)))
  {
    Cat4(e.pre + NameBytes(e.name) + SynBytes(e.value), e.post, tail, []);
    Cat3(e.pre + NameBytes(e.name) + SynBytes(e.value), e.post, tail);
    Cat4(e.pre, NameBytes(e.name), SynBytes(e.value), e.post + tail);
  }

  // ---------- replacing a value ----------

  function OverSyn(c: Syn, k: nat, n: Syn): Syn
    requires c.SContainer? && k < |c.entries|
  {
    SContainer(c.obj, c.inner, c.entries[k := c.entries[k].(value := n)])
  }

  lemma OverBytes(c: Syn, k: nat, n: Syn)
    requires c.SContainer? && k < |c.entries|
    ensures SynBytes(OverSyn(c, k, n)) == BeforeValue(c, k) + SynBytes(n) + AfterValueBytes(c, k)
  {
    var d := OverSyn(c, k, n);
    ContainerAt(d, k);
    assert d.entries[..k] == c.entries[..k] && d.entries[k + 1..] == c.entries[k + 1..];
  }

  lemma OverSplice(c: Syn, k: nat, n: Syn)
    requires c.SContainer? && k < |c.entries|
    ensures var i := |BeforeValue(c, k)|; var j := i + |SynBytes(c.entries[k].value)|;
            j <= |SynBytes(c)| && SynBytes(OverSyn(c, k, n)) == Splice(SynBytes(c), i, j, SynBytes(n))
  {
    ContainerAt(c, k);
    OverBytes(c, k, n);
    ReplaceSplice(SynBytes(c), SynBytes(OverSyn(c, k, n)),
                  BeforeValue(c, k), SynBytes(c.entries[k].value), AfterValueBytes(c, k), SynBytes(n));
  }

  lemma OverWf(c: Syn, k: nat, n: Syn)
    requires Wf(c) && c.SContainer? && k < |c.entries| && Wf(n)
    ensures Wf(OverSyn(c, k, n))
  {
    var es := OverSyn(c, k, n).entries;
    forall j | 0 <= j < |es|
      ensures WfEntry(c.obj, es[j])
    {
      WfAt(c.obj, c.entries, j);
    }
    WfAll(c.obj, es);
  }

  lemma {:induction false} OverTree(c: Syn, k: nat, n: Syn)
    requires c.SContainer? && k < |c.entries|
    ensures ToTree(OverSyn(c, k, n)) == WithChild(ToTree(c), k, ToTree(n))
  {
    var d := OverSyn(c, k, n);
    if c.obj {
      assert ToMembers(d.entries) == ToMembers(c.entries)[k := Member(NameText(c.entries[k]), ToTree(n))];
    } else {
      assert ToElems(d.entries) == ToElems(c.entries)[k := ToTree(n)];
    }
  }

  // ---------- adding an entry ----------

  /** The bytes written for a new entry. */
  function EntryContent(lead: bool, name: Option<Name>, n: Syn, trail: bool): bytes {
    (if lead then [COMMA] else []) + NameBytes(name) + SynBytes(n) + (if trail then [COMMA] else [])
  }

  /** A new entry before entry `k` takes over its leading whitespace. */
  function BeforeSyn(c: Syn, k: nat, name: Option<Name>, n: Syn): Syn
    requires c.SContainer? && k < |c.entries|
  {
    var e := c.entries[k];
    SContainer(c.obj, [], c.entries[..k] + [Entry(e.pre, name, n, [])] + [e.(pre := [])] + c.entries[k + 1..])
  }

  /** From the name of entry `k` on. */
  function FromName(c: Syn, k: nat): bytes
    requires c.SContainer? && k < |c.entries|
  {
    NameBytes(c.entries[k].name) + (SynBytes(c.entries[k].value) + AfterValueBytes(c, k))
  }

  lemma ContainerAtName(c: Syn, k: nat)
    requires c.SContainer? && k < |c.entries|
    ensures SynBytes(c) == BeforeName(c, k) + FromName(c, k)
  {
    ContainerAt(c, k);
    Cat3(BeforeValue(c, k), SynBytes(c.entries[k].value), AfterValueBytes(c, k));
    Cat3(BeforeName(c, k), NameBytes(c.entries[k].name), SynBytes(c.entries[k].value) + AfterValueBytes(c, k));
  }

  lemma BeforeEntries(c: Syn, k: nat, name: Option<Name>, n: Syn)
    requires c.SContainer? && k < |c.entries|
    ensures var d := BeforeSyn(c, k, name, n);
            k < |d.entries| && BeforeName(d, k) == BeforeName(c, k) &&
            FromName(d, k) == NameBytes(name) + (SynBytes(n) + ([COMMA] + FromName(c, k)))
  {
    var es, d := c.entries, BeforeSyn(c, k, name, n);
    var e := es[k].(pre := []);
    assert d.entries[..k] == es[..k] && d.entries[k] == Entry(es[k].pre, name, n, []);
    assert d.entries[k + 1..] == [e] + es[k + 1..];
    assert d.entries[k + 1..][1..] == es[k + 1..];
    var tail := TailBytes(c.obj, es[k + 1..]);
    EntryParts(e, tail);
    Nothing(NameBytes(e.name) + (SynBytes(e.value) + (e.post + tail)));
    assert ListBytes(c.obj, d.entries[k + 1..]) == FromName(c, k);
    Nothing([COMMA] + FromName(c, k));
    assert AfterValueBytes(d, k) == [COMMA] + FromName(c, k);
  }

  lemma Nothing(a: bytes)
    ensures [] + a == a && a + [] == a
  {
  }

  lemma BeforeSplice(c: Syn, k: nat, name: Option<Name>, n: Syn)
    requires c.SContainer? && k < |c.entries|
    ensures var i := |BeforeName(c, k)|;
            i <= |SynBytes(c)| && SynBytes(BeforeSyn(c, k, name, n)) == Splice(SynBytes(c), i, i, EntryContent(false, name, n, true))
  {
    var d := BeforeSyn(c, k, name, n);
    ContainerAtName(c, k);
    BeforeEntries(c, k, name, n);
    ContainerAtName(d, k);
    NewEntryCat(BeforeName(c, k), NameBytes(name), SynBytes(n), FromName(c, k));
    InsertSplice(SynBytes(c), SynBytes(d), BeforeName(c, k), FromName(c, k), EntryContent(false, name, n, true));
  }

  lemma NewEntryCat(a: bytes, name: bytes, v: bytes, t: bytes)
    ensures a + (name + (v + ([COMMA] + t))) == a + ([] + name + v + [COMMA]) + t
  {
    assert [] + name == name;
    Cat4(name, v, [COMMA], t);
    Cat3(a, name + v + [COMMA], t);
  }

  lemma BeforeWf(c: Syn, k: nat, name: Option<Name>, n: Syn)
    requires Wf(c) && c.SContainer? && k < |c.entries| && Wf(n) && WfName(c.obj, name)
    ensures Wf(BeforeSyn(c, k, name, n))
  {
    var es := BeforeSyn(c, k, name, n).entries;
    forall j | 0 <= j < |es|
      ensures WfEntry(c.obj, es[j])
    {
      WfAt(c.obj, c.entries, if j <= k then j else j - 1);
    }
    WfAll(c.obj, es);
  }

  lemma {:induction false} InsertedMembers(es: seq<Entry>, k: nat, e: Entry, y: Entry)
    requires k < |es| && NameText(y) == NameText(es[k]) && y.value == es[k].value
    ensures ToMembers(es[..k] + [e] + [y] + es[k + 1..])
         == ToMembers(es)[..k] + [Member(NameText(e), ToTree(e.value))] + ToMembers(es)[k..]
  {
  }

  lemma {:induction false} InsertedElems(es: seq<Entry>, k: nat, e: Entry, y: Entry)
    requires k < |es| && y.value == es[k].value
    ensures ToElems(es[..k] + [e] + [y] + es[k + 1..]) == ToElems(es)[..k] + [ToTree(e.value)] + ToElems(es)[k..]
  {
  }

  /** The decoded name of a new entry. */
  function NewName(name: Option<Name>): bytes {
    if name.Some? then CharsText(name.value.chars) else []
  }

  lemma {:induction false} BeforeTree(c: Syn, k: nat, name: Option<Name>, n: Syn)
    requires c.SContainer? && k < |c.entries| && name.Some? == c.obj
    ensures ToTree(BeforeSyn(c, k, name, n)) == ApplySpot(ToTree(c), Before(k), NewName(name), ToTree(n))
  {
    var e := c.entries[k];
    InsertedMembers(c.entries, k, Entry(e.pre, name, n, []), e.(pre := []));
    InsertedElems(c.entries, k, Entry(e.pre, name, n, []), e.(pre := []));
  }

  /** A new last entry; in an empty container it comes after the whitespace there. */
  function EndSyn(c: Syn, name: Option<Name>, n: Syn): Syn
    requires c.SContainer?
  {
    if c.entries == [] then SContainer(c.obj, [], [Entry(c.inner, name, n, [])])
    else SContainer(c.obj, [], c.entries + [Entry([], name, n, [])])
  }

  /** The container without its closing bracket. */
  function WithoutClosing(c: Syn): bytes
    requires c.SContainer?
  {
    if c.entries == [] then [Opening(c.obj)] + c.inner
    else
      var last := |c.entries| - 1;
      [Opening(c.obj)] + (LeadBytes(c.entries[..last]) + EntryBytes(c.entries[last]))
  }

  lemma ClosingLast(c: Syn)
    requires c.SContainer?
    ensures SynBytes(c) == WithoutClosing(c) + [Closing(c.obj)]
  {
    if c.entries == [] {
      Cat3([Opening(c.obj)], c.inner, [Closing(c.obj)]);
    } else {
      var last := |c.entries| - 1;
      var a, e := c.entries[..last], c.entries[last];
      assert c.entries == a + [e] && [e][1..] == [];
      ListAppend(c.obj, a, [e]);
      Cat3(LeadBytes(a), EntryBytes(e), [Closing(c.obj)]);
      Cat3([Opening(c.obj)], LeadBytes(a) + EntryBytes(e), [Closing(c.obj)]);
    }
  }

  lemma EndBytes(c: Syn, name: Option<Name>, n: Syn)
    requires c.SContainer?
    ensures WithoutClosing(EndSyn(c, name, n)) == WithoutClosing(c) + EntryContent(c.entries != [], name, n, false)
  {
    if c.entries == [] {
      EndOfEmpty(c, name, n);
    } else {
      EndOfNonempty(c, name, n);
    }
  }

  lemma EndOfEmpty(c: Syn, name: Option<Name>, n: Syn)
    requires c.SContainer? && c.entries == []
    ensures WithoutClosing(EndSyn(c, name, n)) == WithoutClosing(c) + EntryContent(false, name, n, false)
  {
    var e := EndSyn(c, name, n).entries[0];
    EntryParts(e, []);
    Nothing(EntryBytes(e));
    Nothing(SynBytes(n));
    Nothing([]);
    Nothing(NameBytes(name));
    Nothing(NameBytes(name) + SynBytes(n));
    Cat3([Opening(c.obj)], c.inner, NameBytes(name) + SynBytes(n));
    assert WithoutClosing(EndSyn(c, name, n)) == [Opening(c.obj)] + ([] + EntryBytes(e));
  }

  lemma EndOfNonempty(c: Syn, name: Option<Name>, n: Syn)
    requires c.SContainer? && c.entries != []
    ensures WithoutClosing(EndSyn(c, name, n)) == WithoutClosing(c) + EntryContent(true, name, n, false)
  {
    var d, last := EndSyn(c, name, n), |c.entries| - 1;
    assert c.entries == c.entries[..last] + [c.entries[last]];
    LeadAppend(c.entries[..last], c.entries[last]);
    assert d.entries[..last + 1] == c.entries && d.entries[last + 1] == Entry([], name, n, []);
    var lead := LeadBytes(c.entries[..last]) + EntryBytes(c.entries[last]);
    var x := NameBytes(name) + SynBytes(n);
    Nothing(NameBytes(name));
    Nothing(x);
    assert EntryBytes(d.entries[last + 1]) == x;
    Nothing([COMMA] + NameBytes(name) + SynBytes(n));
    Cat3([COMMA], NameBytes(name), SynBytes(n));
    OpenLeadCat(Opening(c.obj), lead, x);
  }

  lemma OpenLeadCat(open: byte, lead: bytes, x: bytes)
    ensures [open] + (lead + [COMMA] + x) == [open] + lead + ([COMMA] + x)
  {
    Cat3(lead, [COMMA], x);
    Cat3([open], lead, [COMMA] + x);
  }

  lemma EndSplice(c: Syn, name: Option<Name>, n: Syn)
    requires c.SContainer?
    ensures var i := |SynBytes(c)| - 1;
            i >= 0 && SynBytes(EndSyn(c, name, n)) == Splice(SynBytes(c), i, i, EntryContent(c.entries != [], name, n, false))
  {
    ClosingLast(c);
    ClosingLast(EndSyn(c, name, n));
    EndBytes(c, name, n);
    InsertSplice(SynBytes(c), SynBytes(EndSyn(c, name, n)),
                 WithoutClosing(c), [Closing(c.obj)], EntryContent(c.entries != [], name, n, false));
  }

  lemma EndWf(c: Syn, name: Option<Name>, n: Syn)
    requires Wf(c) && c.SContainer? && Wf(n) && WfName(c.obj, name)
    ensures Wf(EndSyn(c, name, n))
  {
    var es := EndSyn(c, name, n).entries;
    forall j | 0 <= j < |es|
      ensures WfEntry(c.obj, es[j])
    {
      if j < |c.entries| {
        WfAt(c.obj, c.entries, j);
      }
    }
    WfAll(c.obj, es);
  }

  lemma {:induction false} EndTree(c: Syn, name: Option<Name>, n: Syn)
    requires c.SContainer? && name.Some? == c.obj
    ensures ToTree(EndSyn(c, name, n)) == ApplySpot(ToTree(c), AtEnd, NewName(name), ToTree(n))
  {
    var d := EndSyn(c, name, n);
    if c.obj {
      assert ToMembers(d.entries) == ToMembers(c.entries) + [Member(CharsText(name.value.chars), ToTree(n))];
    } else {
      assert ToElems(d.entries) == ToElems(c.entries) + [ToTree(n)];
    }
  }

  // ---------- removing an entry ----------

  /** The entry after a removed one keeps the whitespace before it; the entry before a removed last one, that after it. */
  function RemoveSyn(c: Syn, k: nat): Syn
    requires c.SContainer? && k < |c.entries|
  {
    var es := c.entries;
    if |es| == 1 then SContainer(c.obj, es[0].pre + es[0].post, [])
    else if k + 1 < |es| then SContainer(c.obj, [], es[..k] + [es[k + 1].(pre := es[k].pre)] + es[k + 2..])
    else SContainer(c.obj, [], es[..k - 1] + [es[k - 1].(post := es[k].post)])
  }

  /** The bytes up to the end of the value of entry `k`. */
  function ThroughValue(c: Syn, k: nat): bytes
    requires c.SContainer? && k < |c.entries|
  {
    BeforeValue(c, k) + SynBytes(c.entries[k].value)
  }

  /** The removed bytes: from the entry to the next one or, for the last entry, from the end of the previous value. */
  function RemovalSpan(c: Syn, k: nat): (nat, nat)
    requires c.SContainer? && k < |c.entries|
  {
    if k + 1 < |c.entries| then (|BeforeName(c, k)|, |BeforeName(c, k + 1)|)
    else (if k == 0 then |BeforeName(c, 0)| else |ThroughValue(c, k - 1)|, |ThroughValue(c, k)|)
  }

  /** Positions in a container come in order. */
  lemma PositionsGrow(c: Syn, k: nat)
    requires c.SContainer? && k + 1 < |c.entries|
    ensures BeforeName(c, k + 1) == ThroughValue(c, k) + (c.entries[k].post + [COMMA] + c.entries[k + 1].pre)
  {
    var es := c.entries;
    var e := es[k];
    assert es[..k + 1] == es[..k] + [e];
    LeadAppend(es[..k], e);
    LeadPositions([Opening(c.obj)], LeadBytes(es[..k]), e, es[k + 1].pre);
  }

  lemma LeadPositions(open: bytes, lead: bytes, e: Entry, pre: bytes)
    ensures open + (lead + EntryBytes(e) + [COMMA]) + pre
         == open + lead + e.pre + NameBytes(e.name) + SynBytes(e.value) + (e.post + [COMMA] + pre)
  {
    var v := open + lead + e.pre + NameBytes(e.name) + SynBytes(e.value);
    Cat3(open, lead + EntryBytes(e), [COMMA]);
    Cat3(open, lead, EntryBytes(e));
    EntryParts(e, []);
    Nothing(EntryBytes(e));
    Nothing(e.post);
    Cat4(open + lead, e.pre, NameBytes(e.name), SynBytes(e.value) + e.post);
    Cat3(open + lead + e.pre + NameBytes(e.name), SynBytes(e.value), e.post);
    Cat3(e.pre + NameBytes(e.name), SynBytes(e.value), e.post);
    Cat4(v, e.post, [COMMA], pre);
    Cat3(e.post, [COMMA], pre);
    assert open + lead + EntryBytes(e) == v + e.post;
  }

  lemma RemoveNextSplice(c: Syn, k: nat)
    requires c.SContainer? && k + 1 < |c.entries|
    ensures var i := |BeforeName(c, k)|; var j := |BeforeName(c, k + 1)|;
            i <= j <= |SynBytes(c)| && SynBytes(RemoveSyn(c, k)) == Splice(SynBytes(c), i, j, [])
  {
    var d := RemoveSyn(c, k);
    var gap := NameBytes(c.entries[k].name) + (SynBytes(c.entries[k].value) + (c.entries[k].post + [COMMA] + c.entries[k + 1].pre));
    ContainerAtName(c, k + 1);
    PositionsGrow(c, k);
    Cat4(BeforeName(c, k), NameBytes(c.entries[k].name), SynBytes(c.entries[k].value), c.entries[k].post + [COMMA] + c.entries[k + 1].pre);
    assert BeforeName(c, k + 1) == BeforeName(c, k) + gap;
    ContainerAtName(d, k);
    assert d.entries[..k] == c.entries[..k] && d.entries[k] == c.entries[k + 1].(pre := c.entries[k].pre);
    assert d.entries[k + 1..] == c.entries[k + 2..];
    Nothing(BeforeName(c, k));
    ReplaceSplice(SynBytes(c), SynBytes(d), BeforeName(c, k), gap, FromName(c, k + 1), []);
  }

  /** The bytes from the end of one value to the end of the next. */
  function NextThrough(c: Syn, k: nat): bytes
    requires c.SContainer? && 0 < k < |c.entries|
  {
    var e := c.entries[k];
    (c.entries[k - 1].post + [COMMA] + e.pre) + (NameBytes(e.name) + SynBytes(e.value))
  }

  lemma ThroughGrows(c: Syn, k: nat)
    requires c.SContainer? && 0 < k < |c.entries|
    ensures ThroughValue(c, k) == ThroughValue(c, k - 1) + NextThrough(c, k)
  {
    var e := c.entries[k];
    PositionsGrow(c, k - 1);
    Cat3(BeforeName(c, k), NameBytes(e.name), SynBytes(e.value));
    Cat3(ThroughValue(c, k - 1), c.entries[k - 1].post + [COMMA] + e.pre, NameBytes(e.name) + SynBytes(e.value));
  }

  lemma LastRemoved(c: Syn, k: nat)
    requires c.SContainer? && 0 < k && k + 1 == |c.entries|
    ensures SynBytes(RemoveSyn(c, k)) == ThroughValue(c, k - 1) + AfterValueBytes(c, k)
  {
    var d := RemoveSyn(c, k);
    ContainerAt(d, k - 1);
    assert d.entries[..k - 1] == c.entries[..k - 1] && d.entries[k - 1] == c.entries[k - 1].(post := c.entries[k].post);
    assert d.entries[k..] == [] && c.entries[k + 1..] == [];
  }

  lemma RemoveLastSplice(c: Syn, k: nat)
    requires c.SContainer? && 0 < k && k + 1 == |c.entries|
    ensures var i := |ThroughValue(c, k - 1)|; var j := |ThroughValue(c, k)|;
            i <= j <= |SynBytes(c)| && SynBytes(RemoveSyn(c, k)) == Splice(SynBytes(c), i, j, [])
  {
    ContainerAt(c, k);
    ThroughGrows(c, k);
    LastRemoved(c, k);
    Nothing(ThroughValue(c, k - 1));
    ReplaceSplice(SynBytes(c), SynBytes(RemoveSyn(c, k)), ThroughValue(c, k - 1), NextThrough(c, k), AfterValueBytes(c, k), []);
  }

  lemma RemoveOnlySplice(c: Syn)
    requires c.SContainer? && |c.entries| == 1
    ensures var i := |BeforeName(c, 0)|; var j := |ThroughValue(c, 0)|;
            i <= j <= |SynBytes(c)| && SynBytes(RemoveSyn(c, 0)) == Splice(SynBytes(c), i, j, [])
  {
    var d := RemoveSyn(c, 0);
    var e := c.entries[0];
    ContainerAt(c, 0);
    Cat3(BeforeName(c, 0), NameBytes(e.name), SynBytes(e.value));
    assert c.entries[..0] == [] && c.entries[1..] == [];
    assert AfterValueBytes(c, 0) == e.post + [Closing(c.obj)];
    Nothing([Opening(c.obj)]);
    Cat3([Opening(c.obj)], e.pre, e.post + [Closing(c.obj)]);
    Cat3(e.pre, e.post, [Closing(c.obj)]);
    assert SynBytes(d) == BeforeName(c, 0) + AfterValueBytes(c, 0);
    Nothing(BeforeName(c, 0));
    ReplaceSplice(SynBytes(c), SynBytes(d), BeforeName(c, 0), NameBytes(e.name) + SynBytes(e.value), AfterValueBytes(c, 0), []);
  }

  /** Deleting the removal span is removing the entry. */
  lemma RemoveSplice(c: Syn, k: nat)
    requires c.SContainer? && k < |c.entries|
    ensures var (i, j) := RemovalSpan(c, k);
            i <= j <= |SynBytes(c)| && SynBytes(RemoveSyn(c, k)) == Splice(SynBytes(c), i, j, [])
  {
    if k + 1 < |c.entries| {
      RemoveNextSplice(c, k);
    } else if k > 0 {
      RemoveLastSplice(c, k);
    } else {
      RemoveOnlySplice(c);
    }
  }

  lemma RemoveWf(c: Syn, k: nat)
    requires Wf(c) && c.SContainer? && k < |c.entries|
    ensures Wf(RemoveSyn(c, k))
  {
    var es := RemoveSyn(c, k).entries;
    WfAt(c.obj, c.entries, k);
    forall j | 0 <= j < |es|
      ensures WfEntry(c.obj, es[j])
    {
      WfAt(c.obj, c.entries, if j < k then j else j + 1);
    }
    WfAll(c.obj, es);
  }

  /** Entry `j` of what remains, up to whitespace. */
  lemma {:induction false} RemainingBeforeNext(es: seq<Entry>, k: nat, y: Entry, j: nat)
    requires k + 1 < |es| && j + 1 < |es|
    ensures var r := es[..k] + [y] + es[k + 2..];
            |r| + 1 == |es| && r[j] == if j < k then es[j] else if j == k then y else es[j + 1]
  {
  }

  lemma {:induction false} EntryLeft(c: Syn, k: nat, j: nat)
    requires c.SContainer? && k < |c.entries| && j + 1 < |c.entries|
    ensures var es, from := RemoveSyn(c, k).entries, c.entries[if j < k then j else j + 1];
            |es| + 1 == |c.entries| && es[j].name == from.name && es[j].value == from.value
  {
    var es := c.entries;
    if k + 1 < |es| {
      RemainingBeforeNext(es, k, es[k + 1].(pre := es[k].pre), j);
    } else {
      var r := es[..k - 1] + [es[k - 1].(post := es[k].post)];
      assert r[j] == if j < k - 1 then es[j] else es[k - 1].(post := es[k].post);
    }
  }

  lemma {:induction false} RemoveTreeOf(c: Syn, k: nat)
    requires c.SContainer? && k < |c.entries|
    ensures ToTree(RemoveSyn(c, k)) == WithoutChild(ToTree(c), k)
  {
    hide ToMembers, ToElems, RemoveSyn;
    RemovedLength(c, k);
    var es := RemoveSyn(c, k).entries;
    forall j | 0 <= j < |es|
      ensures es[j].name == c.entries[if j < k then j else j + 1].name
      ensures es[j].value == c.entries[if j < k then j else j + 1].value
    {
      EntryLeft(c, k, j);
    }
    if c.obj {
      MembersLeft(c.entries, es, k);
    } else {
      ElemsLeft(c.entries, es, k);
    }
  }

  lemma RemovedLength(c: Syn, k: nat)
    requires c.SContainer? && k < |c.entries|
    ensures RemoveSyn(c, k).SContainer? && RemoveSyn(c, k).obj == c.obj && |RemoveSyn(c, k).entries| + 1 == |c.entries|
  {
  }

  lemma {:induction false} MembersLeft(es: seq<Entry>, left: seq<Entry>, k: nat)
    requires k < |es| == |left| + 1
    requires forall j :: 0 <= j < |left| ==>
               left[j].name == es[if j < k then j else j + 1].name && left[j].value == es[if j < k then j else j + 1].value
    ensures ToMembers(left) == ToMembers(es)[..k] + ToMembers(es)[k + 1..]
  {
    hide ToTree;
    var a, b := ToMembers(left), ToMembers(es)[..k] + ToMembers(es)[k + 1..];
    forall j | 0 <= j < |a|
      ensures a[j] == b[j]
    {
      assert left[j].name == es[if j < k then j else j + 1].name;
    }
  }

  lemma {:induction false} ElemsLeft(es: seq<Entry>, left: seq<Entry>, k: nat)
    requires k < |es| == |left| + 1
    requires forall j :: 0 <= j < |left| ==> left[j].value == es[if j < k then j else j + 1].value
    ensures ToElems(left) == ToElems(es)[..k] + ToElems(es)[k + 1..]
  {
    hide ToTree;
    var a, b := ToElems(left), ToElems(es)[..k] + ToElems(es)[k + 1..];
    forall j | 0 <= j < |a|
      ensures a[j] == b[j]
    {
      assert left[j].value == es[if j < k then j else j + 1].value;
    }
  }
}
