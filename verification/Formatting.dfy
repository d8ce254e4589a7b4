/** What the writer makes of the events of a value: the same value, formatted. */
module Formatting {
  import opened Bytes
  import opened Utf8Coding
  import opened StringGrammar
  import opened Grammar
  import opened Reader
  import opened Automaton
  import opened Escaping
  import opened Writing

  /** A writer and its output. */
  datatype Output = Output(pos: Pos, depth: nat, text: bytes)

  function ScalarText(v: JSON): bytes {
    match v
    case Null => NULL
    case Bool(b) => if b then TRUE else FALSE
    case Number(text) => text
    case String(text) => [QUOTE] + Escape(text) + [QUOTE]
    case _ => []
  }

  function Play1(w: Output, e: Event, indent: nat): Output {
    var s := Separator(w.pos, indent, w.depth);
    match e
    case Open(obj) => Output(Pos.Start, w.depth + 1, w.text + s + [Opening(obj)])
    case Close(obj) =>
      var d := if w.depth > 0 then w.depth - 1 else 0;
      Output(AfterValue, d, w.text + (if w.pos == Pos.Start then [] else Newline(indent, d)) + [Closing(obj)])
    case Key(name) => Output(AfterKey, w.depth, w.text + s + [QUOTE] + Escape(name) + KeyEnd(indent))
    case Scalar(v) => Output(AfterValue, w.depth, w.text + s + ScalarText(v))
  }

  /** Writing one event after the other. */
  function Play(w: Output, events: seq<Event>, indent: nat): Output
    decreases |events|
  {
    if events == [] then w else Play(Play1(w, events[0], indent), events[1..], indent)
  }

  lemma {:induction false} PlayAppend(w: Output, a: seq<Event>, b: seq<Event>, indent: nat)
    ensures Play(w, a + b, indent) == Play(Play(w, a, indent), b, indent)
    decreases |a|
  {
    hide Play1;
    if a == [] {
      assert a + b == b;
    } else {
      assert (a + b)[1..] == a[1..] + b;
      PlayAppend(Play1(w, a[0], indent), a[1..], b, indent);
    }
  }

  lemma PlayOne(w: Output, e: Event, indent: nat)
    ensures Play(w, [e], indent) == Play1(w, e, indent)
  {
    hide Play1;
  }

  // ---------- the formatted value ----------

  function CleanChars(chars: seq<StrChar>): seq<StrChar> {
    CharsOf(CharsCps(chars))
  }

  function FormattedName(name: Option<Name>, indent: nat): Option<Name> {
    match name
    case None => None
    case Some(n) => Some(Name(CleanChars(n.chars), [], if indent > 0 then [SPACE] else []))
  }

  /** The value as the writer puts it, `depth` levels deep. */
  function Formatted(c: Syn, indent: nat, depth: nat): Syn
    decreases c
  {
    match c
    case SString(chars) => SString(CleanChars(chars))
    case SContainer(obj, _, entries) => SContainer(obj, [], FormattedEntries(entries, indent, depth + 1))
    case _ => c
  }

  function FormattedEntries(es: seq<Entry>, indent: nat, depth: nat): (r: seq<Entry>)
    requires depth > 0
    ensures |r| == |es|
    decreases es
  {
    if es == [] then []
    else
      [Entry(Newline(indent, depth), FormattedName(es[0].name, indent), Formatted(es[0].value, indent, depth),
             if |es| == 1 then Newline(indent, depth - 1) else [])]
      + FormattedEntries(es[1..], indent, depth)
  }

  lemma {:induction false} FormattedFirst(es: seq<Entry>, indent: nat, depth: nat)
    requires es != [] && depth > 0
    ensures FormattedEntries(es, indent, depth) != []
    ensures FormattedEntries(es, indent, depth)[1..] == FormattedEntries(es[1..], indent, depth)
    ensures FormattedEntries(es, indent, depth)[0]
         == Entry(Newline(indent, depth), FormattedName(es[0].name, indent), Formatted(es[0].value, indent, depth),
                  if |es| == 1 then Newline(indent, depth - 1) else [])
  {
    hide Newline, FormattedName, Formatted;
  }

  // ---------- strings ----------

  /** A string is written as the canonical characters for its code points. */
  lemma CleanExact(chars: seq<StrChar>)
    requires WfChars(chars)
    ensures WfChars(CleanChars(chars)) && CharsText(CleanChars(chars)) == CharsText(chars)
    ensures CharsBytes(CleanChars(chars)) == Escape(CharsText(chars))
  {
    hide Escape, CharsText, CharsBytes, CharsOf, Utf8All;
    CharsTextIsUtf8(chars);
    CharsOfExact(CharsCps(chars));
  }

  lemma {:induction false} CpsOfChars(cps: seq<int>)
    requires Scalars(cps)
    ensures CharsCps(CharsOf(cps)) == cps
  {
    if cps != [] {
      CharOfExact(cps[0]);
      CpsOfChars(cps[1..]);
      assert CharsOf(cps)[1..] == CharsOf(cps[1..]);
    }
  }

  lemma CleanTwice(chars: seq<StrChar>)
    requires WfChars(chars)
    ensures CleanChars(CleanChars(chars)) == CleanChars(chars)
  {
    CpsOfChars(CharsCps(chars));
  }

  lemma NameText(n: Name, indent: nat)
    requires WfChars(n.chars)
    ensures NameBytes(FormattedName(Some(n), indent)) == [QUOTE] + Escape(CharsText(n.chars)) + KeyEnd(indent)
  {
    hide Escape, CharsText, CharsBytes, CleanChars, CharsOf;
    CleanExact(n.chars);
    var body, after := Escape(CharsText(n.chars)), if indent > 0 then [SPACE] else [];
    assert [QUOTE] + body + [QUOTE] + [] == [QUOTE] + body + [QUOTE];
    Cat4([QUOTE] + body, [QUOTE], [COLON], after);
    Cat3([QUOTE], [COLON], after);
    assert [QUOTE, COLON] == [QUOTE] + [COLON];
  }

  // ---------- values ----------

  /** Writing the events of a value writes the formatted value. */
  lemma {:induction false} PlayValue(w: Output, c: Syn, indent: nat)
    requires Wf(c)
    ensures Play(w, EventsOf(c), indent)
         == Output(AfterValue, w.depth, w.text + Separator(w.pos, indent, w.depth) + SynBytes(Formatted(c, indent, w.depth)))
    decreases c, 1
  {
    hide Separator, Newline, Play, CleanChars, Escape, KeyEnd;
    var first := w.text + Separator(w.pos, indent, w.depth);
    if c.SContainer? {
      PlayContainer(w, c, indent);
    } else {
      PlayOne(w, Scalar(ToTree(c)), indent);
      if c.SString? {
        CleanExact(c.chars);
      }
    }
  }

  lemma {:induction false} PlayContainer(w: Output, c: Syn, indent: nat)
    requires Wf(c) && c.SContainer?
    ensures Play(w, EventsOf(c), indent)
         == Output(AfterValue, w.depth, w.text + Separator(w.pos, indent, w.depth) + SynBytes(Formatted(c, indent, w.depth)))
    decreases c, 0
  {
    hide Separator, Newline, Play, FormattedEntries, EntriesEvents, Wf;
    var first := w.text + Separator(w.pos, indent, w.depth);
    var inside := Output(Pos.Start, w.depth + 1, first + [Opening(c.obj)]);
    var es := FormattedEntries(c.entries, indent, w.depth + 1);
    ContainerParts(c);
    PlayAppend(w, [Open(c.obj)], EntriesEvents(c.entries) + [Close(c.obj)], indent);
    PlayOne(w, Open(c.obj), indent);
    if c.entries == [] {
      NoEvents();
      PlayOne(inside, Close(c.obj), indent);
      assert inside.text + [] == inside.text;
      Cat3(first, [Opening(c.obj)], [Closing(c.obj)]);
      assert SynBytes(Formatted(c, indent, w.depth)) == [Opening(c.obj)] + ([] + [Closing(c.obj)]);
      assert [] + [Closing(c.obj)] == [Closing(c.obj)];
    } else {
      WfContainer(c);
      PlayEntries(inside, c.obj, c.entries, indent);
      Cat3(first, [Opening(c.obj)], ListBytes(c.obj, es));
      assert inside.text + [] == inside.text;
    }
  }

  lemma WfContainer(c: Syn)
    requires Wf(c) && c.SContainer?
    ensures WfEntries(c.obj, c.entries)
  {
  }

  lemma {:induction false} NoEvents()
    ensures EntriesEvents([]) == [] && forall e: Event :: [] + [e] == [e]
  {
  }

  lemma {:induction false} ContainerParts(c: Syn)
    requires c.SContainer?
    ensures EventsOf(c) == [Open(c.obj)] + (EntriesEvents(c.entries) + [Close(c.obj)])
  {
  }

  /** The events of the first entry, of the others, and the closing bracket. */
  lemma {:induction false} EntryEvents(es: seq<Entry>, close: Event)
    requires es != []
    ensures EntriesEvents(es) + [close]
         == NameEvents(es[0].name) + (EventsOf(es[0].value) + (EntriesEvents(es[1..]) + [close]))
  {
    hide EventsOf;
  }

  lemma {:induction false} PlayEntries(w: Output, obj: bool, es: seq<Entry>, indent: nat)
    requires es != [] && WfEntries(obj, es) && w.depth > 0 && w.pos != AfterKey
    ensures FormattedEntries(es, indent, w.depth) != []
    ensures Play(w, EntriesEvents(es) + [Close(obj)], indent)
         == Output(AfterValue, w.depth - 1,
                   w.text + (if w.pos == AfterValue then [COMMA] else []) + ListBytes(obj, FormattedEntries(es, indent, w.depth)))
    decreases es
  {
    hide Newline, Play, FormattedEntries, EntriesEvents, Formatted, EventsOf, SynBytes, NameBytes, FormattedName;
    FormattedFirst(es, indent, w.depth);
    EntryEvents(es, Close(obj));
    var e, tail := es[0], EntriesEvents(es[1..]) + [Close(obj)];
    var fs := FormattedEntries(es, indent, w.depth);
    var before := w.text + (if w.pos == AfterValue then [COMMA] else []);
    var written := PlayEntry(w, obj, e, indent);
    PlayAppend(w, NameEvents(e.name), EventsOf(e.value) + tail, indent);
    PlayAppend(Play(w, NameEvents(e.name), indent), EventsOf(e.value), tail, indent);
    var lead := fs[0].pre + NameBytes(fs[0].name) + SynBytes(fs[0].value);
    assert written.text == before + lead;
    if |es| == 1 {
      NoEvents();
      PlayOne(written, Close(obj), indent);
      OneEntry(before, lead, fs[0].post, Closing(obj));
    } else {
      PlayEntries(written, obj, es[1..], indent);
      MoreEntries(before, lead, ListBytes(obj, fs[1..]));
    }
  }

  lemma OneEntry(before: bytes, lead: bytes, post: bytes, close: byte)
    ensures before + lead + post + [close] == before + (lead + post + [close])
  {
    Cat4(before, lead, post, [close]);
    Cat3(lead, post, [close]);
  }

  lemma MoreEntries(before: bytes, lead: bytes, list: bytes)
    ensures before + lead + [COMMA] + list == before + (lead + [] + ([COMMA] + list))
  {
    assert lead + [] == lead;
    Cat4(before, lead, [COMMA], list);
  }

  /** One entry: the separator, the name, and the value. */
  lemma {:induction false} PlayEntry(w: Output, obj: bool, e: Entry, indent: nat) returns (after: Output)
    requires WfEntry(obj, e) && w.depth > 0 && w.pos != AfterKey
    ensures after == Play(Play(w, NameEvents(e.name), indent), EventsOf(e.value), indent)
    ensures after.pos == AfterValue && after.depth == w.depth
    ensures after.text == w.text + (if w.pos == AfterValue then [COMMA] else [])
                          + (Newline(indent, w.depth) + NameBytes(FormattedName(e.name, indent)) + SynBytes(Formatted(e.value, indent, w.depth)))
    decreases e
  {
    hide Newline, Play, Formatted, EventsOf, SynBytes, NameBytes, FormattedName, KeyEnd, Escape, CharsText;
    var comma := if w.pos == AfterValue then [COMMA] else [];
    var nl := Newline(indent, w.depth);
    var value := SynBytes(Formatted(e.value, indent, w.depth));
    SeparatorParts(w, indent);
    match e.name {
      case None =>
        PlayNothing(w, indent);
        PlayValue(w, e.value, indent);
        NameNothing(indent);
        EntryPieces(w.text, comma, nl, [], value);
        assert nl + [] == nl;
      case Some(n) =>
        PlayOne(w, Event.Key(CharsText(n.chars)), indent);
        NameText(n, indent);
        var named := Play1(w, Event.Key(CharsText(n.chars)), indent);
        PlayValue(named, e.value, indent);
        KeyPieces(w.text, comma, nl, [QUOTE], Escape(CharsText(n.chars)), KeyEnd(indent), value);
    }
    after := Play(Play(w, NameEvents(e.name), indent), EventsOf(e.value), indent);
  }

  lemma PlayNothing(w: Output, indent: nat)
    ensures Play(w, [], indent) == w
  {
  }

  lemma NameNothing(indent: nat)
    ensures NameBytes(FormattedName(None, indent)) == []
  {
  }

  lemma SeparatorParts(w: Output, indent: nat)
    requires w.depth > 0 && w.pos != AfterKey
    ensures w.text + Separator(w.pos, indent, w.depth)
         == w.text + (if w.pos == AfterValue then [COMMA] else []) + Newline(indent, w.depth)
  {
    hide Newline;
    if w.pos == AfterValue {
      Cat3(w.text, [COMMA], Newline(indent, w.depth));
    } else {
      assert w.text + [] == w.text;
    }
  }

  lemma EntryPieces(a: bytes, comma: bytes, nl: bytes, name: bytes, value: bytes)
    ensures a + comma + nl + name + value == a + comma + (nl + name + value)
  {
    Cat4(a + comma, nl, name, value);
    Cat3(nl, name, value);
  }

  lemma KeyPieces(a: bytes, comma: bytes, nl: bytes, q: bytes, name: bytes, end: bytes, value: bytes)
    ensures a + comma + nl + q + name + end + [] + value == a + comma + (nl + (q + name + end) + value)
  {
    assert a + comma + nl + q + name + end + [] == a + comma + nl + q + name + end;
    Cat4(a + comma + nl, q, name, end);
    Cat3(q, name, end);
    EntryPieces(a, comma, nl, q + name + end, value);
  }

  // ---------- the same value ----------

  /** Formatting keeps a value well formed, its tree, numbers as they were written, and its depth. */
  lemma {:induction false} FormattedSame(c: Syn, indent: nat, depth: nat)
    requires Wf(c)
    ensures var f := Formatted(c, indent, depth);
            Wf(f) && ToTree(f) == ToTree(c) && Depth(f) == Depth(c)
    decreases c, 1
  {
    hide CleanChars, CharsText, ToMembers, ToElems;
    if c.SString? {
      CleanExact(c.chars);
    } else if c.SContainer? {
      EntriesSame(c.obj, c.entries, indent, depth + 1);
    }
  }

  lemma {:induction false} EntriesSame(obj: bool, es: seq<Entry>, indent: nat, depth: nat)
    requires WfEntries(obj, es) && depth > 0
    ensures var fs := FormattedEntries(es, indent, depth);
            WfEntries(obj, fs) && ToMembers(fs) == ToMembers(es) && ToElems(fs) == ToElems(es) && EntriesDepth(fs) == EntriesDepth(es)
    decreases es, 0
  {
    hide Newline, FormattedName, Formatted, CharsText, ToTree, Depth, Wf, FormattedEntries;
    var fs := FormattedEntries(es, indent, depth);
    if es != [] {
      FormattedFirst(es, indent, depth);
      FormattedSame(es[0].value, indent, depth);
      SameName(obj, es[0], indent);
      EntriesSame(obj, es[1..], indent, depth);
      SameTrees(es, fs);
    }
  }

  lemma {:induction false} FirstTree(es: seq<Entry>)
    requires es != []
    ensures ToMembers(es) == [Member(Grammar.NameText(es[0]), ToTree(es[0].value))] + ToMembers(es[1..])
    ensures ToElems(es) == [ToTree(es[0].value)] + ToElems(es[1..])
  {
    hide ToTree, ToMembers, ToElems, Grammar.NameText;
    FirstMember(es);
    FirstElem(es);
  }

  lemma {:induction false} FirstMember(es: seq<Entry>)
    requires es != []
    ensures ToMembers(es) == [Member(Grammar.NameText(es[0]), ToTree(es[0].value))] + ToMembers(es[1..])
  {
    hide ToTree, Grammar.NameText;
  }

  lemma {:induction false} FirstElem(es: seq<Entry>)
    requires es != []
    ensures ToElems(es) == [ToTree(es[0].value)] + ToElems(es[1..])
  {
    hide ToTree;
  }

  lemma {:induction false} SameTrees(es: seq<Entry>, fs: seq<Entry>)
    requires |es| == |fs| && es != []
    requires Grammar.NameText(fs[0]) == Grammar.NameText(es[0]) && ToTree(fs[0].value) == ToTree(es[0].value)
    requires ToMembers(fs[1..]) == ToMembers(es[1..]) && ToElems(fs[1..]) == ToElems(es[1..])
    ensures ToMembers(fs) == ToMembers(es) && ToElems(fs) == ToElems(es)
  {
    hide ToTree, Grammar.NameText, ToMembers, ToElems;
    FirstTree(es);
    FirstTree(fs);
  }

  lemma SameName(obj: bool, e: Entry, indent: nat)
    requires WfName(obj, e.name)
    ensures WfName(obj, FormattedName(e.name, indent))
    ensures forall pre: bytes, v: Syn, post: bytes ::
              Grammar.NameText(Entry(pre, FormattedName(e.name, indent), v, post)) == Grammar.NameText(e)
  {
    hide CharsText, CleanChars;
    if e.name.Some? {
      CleanExact(e.name.value.chars);
    }
  }

  /** Formatting what is formatted changes nothing. */
  lemma {:induction false} FormattedTwice(c: Syn, indent: nat, depth: nat)
    requires Wf(c)
    ensures Formatted(Formatted(c, indent, depth), indent, depth) == Formatted(c, indent, depth)
    decreases c, 1
  {
    hide CleanChars;
    if c.SString? {
      CleanTwice(c.chars);
    } else if c.SContainer? {
      EntriesTwice(c.obj, c.entries, indent, depth + 1);
    }
  }

  lemma {:induction false} EntriesTwice(obj: bool, es: seq<Entry>, indent: nat, depth: nat)
    requires WfEntries(obj, es) && depth > 0
    ensures FormattedEntries(FormattedEntries(es, indent, depth), indent, depth) == FormattedEntries(es, indent, depth)
    decreases es, 0
  {
    hide Newline, CleanChars, Formatted, FormattedEntries;
    if es != [] {
      var fs := FormattedEntries(es, indent, depth);
      FormattedFirst(es, indent, depth);
      FormattedFirst(fs, indent, depth);
      FormattedTwice(es[0].value, indent, depth);
      EntriesTwice(obj, es[1..], indent, depth);
      if obj {
        CleanTwice(es[0].name.value.chars);
      }
      var gs := FormattedEntries(fs, indent, depth);
      assert gs == [gs[0]] + gs[1..] && fs == [fs[0]] + fs[1..];
    }
  }
}
