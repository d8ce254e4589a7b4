/** Reading the grammar by recursive descent, and the proof that this is what the grammar says. */
module Reader {
  import opened Bytes
  import opened StringGrammar
  import opened Numbers
  import opened Grammar

  /** What follows an entry. */
  datatype Tail = Tail(post: bytes, entries: seq<Entry>)

  function Literal(s: bytes): Option<Scanned<Syn>> {
    if NULL <= s then Some(Scanned(SNull, s[4..]))
    else if TRUE <= s then Some(Scanned(SBool(true), s[4..]))
    else if FALSE <= s then Some(Scanned(SBool(false), s[5..]))
    else None
  }

  /** The value at the start of `s`, with at most `room` levels of nesting. */
  function ParseValue(s: bytes, room: nat): (r: Option<Scanned<Syn>>)
    ensures r.Some? ==> |r.value.rest| < |s|
    decreases |s|, 0
  {
    if s == [] then None
    else if s[0] == QUOTE then
      (match ScanChars(s[1..])
       case None => None
       case Some(r) => Some(Scanned(SString(r.item), r.rest)))
    else if s[0] == LBRACE || s[0] == LBRACKET then
      if room == 0 then None
      else
        match ParseContainer(s[0] == LBRACE, s[1..], room - 1)
        case None => None
        case Some(r) => Some(r)
    else if s[0] == MINUS || IsDigit(s[0]) then
      match ScanNumber(s)
      case None => None
      case Some(r) =>
        ScanNumberSound(s);
        Some(Scanned(SNumber(r.item), r.rest))
    else Literal(s)
  }

  /** A container, after its opening bracket. */
  function ParseContainer(obj: bool, s: bytes, room: nat): (r: Option<Scanned<Syn>>)
    ensures r.Some? ==> |r.value.rest| < |s|
    decreases |s|, 2
  {
    if Trim(s) != [] && Trim(s)[0] == Closing(obj) then Some(Scanned(SContainer(obj, Ws(s), []), Trim(s)[1..]))
    else
      match ParseEntries(obj, s, room)
      case None => None
      case Some(r) => Some(Scanned(SContainer(obj, [], r.item), r.rest))
  }

  /** The name and colon of a member; nothing in an array. */
  function ParseName(obj: bool, s: bytes): (r: Option<Scanned<Option<Name>>>)
    ensures r.Some? ==> |r.value.rest| <= |s|
  {
    if !obj then Some(Scanned(None, s))
    else if s == [] || s[0] != QUOTE then None
    else
      match ScanChars(s[1..])
      case None => None
      case Some(n) => ParseColon(n.item, n.rest)
  }

  function ParseColon(chars: seq<StrChar>, s: bytes): (r: Option<Scanned<Option<Name>>>)
    ensures r.Some? ==> |r.value.rest| < |s|
  {
    var t := Trim(s);
    if t == [] || t[0] != COLON then None
    else Some(Scanned(Some(Name(chars, Ws(s), Ws(t[1..]))), Trim(t[1..])))
  }

  /** One or more entries and the closing bracket. */
  function ParseEntries(obj: bool, s: bytes, room: nat): (r: Option<Scanned<seq<Entry>>>)
    ensures r.Some? ==> |r.value.rest| < |s| && r.value.item != []
    decreases |s|, 1
  {
    match ParseName(obj, Trim(s))
    case None => None
    case Some(n) =>
      match ParseValue(n.rest, room)
      case None => None
      case Some(v) =>
        match ParseTail(obj, v.rest, room)
        case None => None
        case Some(t) => Some(Scanned([Entry(Ws(s), n.item, v.item, t.item.post)] + t.item.entries, t.rest))
  }

  /** What follows a value inside a container. */
  function ParseTail(obj: bool, s: bytes, room: nat): (r: Option<Scanned<Tail>>)
    ensures r.Some? ==> |r.value.rest| < |s|
    decreases |s|, 2
  {
    var t := Trim(s);
    if t == [] then None
    else if t[0] == Closing(obj) then Some(Scanned(Tail(Ws(s), []), t[1..]))
    else if t[0] != COMMA then None
    else
      match ParseEntries(obj, t[1..], room)
      case None => None
      case Some(r) => Some(Scanned(Tail(Ws(s), r.item), r.rest))
  }

  /** A document: a value, and nothing but whitespace around it. */
  function ParseText(s: bytes, room: nat): Option<Text> {
    match ParseValue(Trim(s), room)
    case None => None
    case Some(r) => if Trim(r.rest) == [] then Some(Text(Ws(s), r.item, Ws(r.rest))) else None
  }

  // ---------- soundness: what is read is well formed and spelled by what was consumed ----------

  lemma LiteralSound(s: bytes)
    requires Literal(s).Some?
    ensures var r := Literal(s).value; Wf(r.item) && Depth(r.item) == 0 && s == SynBytes(r.item) + r.rest
  {
  }

  lemma ParseColonSound(chars: seq<StrChar>, s: bytes)
    requires WfChars(chars) && ParseColon(chars, s).Some?
    ensures var r := ParseColon(chars, s).value;
            WfName(true, r.item) && r.item.value.chars == chars &&
            s == r.item.value.gap + ([COLON] + (r.item.value.after + r.rest))
  {
    hide Ws, Trim, WfChars;
    var t := Trim(s);
    assert t == [COLON] + t[1..];
    assert t[1..] == Ws(t[1..]) + Trim(t[1..]);
  }

  lemma NameCat(name: Name, t: bytes)
    ensures NameBytes(Some(name)) + t
         == [QUOTE] + (CharsBytes(name.chars) + [QUOTE] + (name.gap + ([COLON] + (name.after + t))))
  {
    var open := [QUOTE] + CharsBytes(name.chars) + [QUOTE];
    Cat4(open + name.gap, [COLON], name.after, t);
    Cat3(open, name.gap, [COLON] + (name.after + t));
    Cat3([QUOTE], CharsBytes(name.chars), [QUOTE]);
    Cat3([QUOTE], CharsBytes(name.chars) + [QUOTE], name.gap + ([COLON] + (name.after + t)));
  }

  lemma ParseNameSound(obj: bool, s: bytes)
    requires ParseName(obj, s).Some?
    ensures var r := ParseName(obj, s).value; WfName(obj, r.item) && s == NameBytes(r.item) + r.rest
  {
    if obj {
      var n := ScanChars(s[1..]).value;
      ScanCharsSound(s[1..]);
      ParseColonSound(n.item, n.rest);
      var r := ParseName(obj, s).value;
      NameCat(r.item.value, r.rest);
      assert s == [QUOTE] + s[1..];
    }
  }

  lemma StringSound(s: bytes)
    requires s != [] && s[0] == QUOTE && ScanChars(s[1..]).Some?
    ensures var r := ScanChars(s[1..]).value; WfChars(r.item) && s == SynBytes(SString(r.item)) + r.rest
  {
    ScanCharsSound(s[1..]);
    var r := ScanChars(s[1..]).value;
    assert s == [QUOTE] + s[1..];
    Cat3([QUOTE], CharsBytes(r.item) + [QUOTE], r.rest);
    Cat3([QUOTE], CharsBytes(r.item), [QUOTE]);
  }

  lemma {:induction false} ParseValueSound(s: bytes, room: nat)
    requires ParseValue(s, room).Some?
    ensures var r := ParseValue(s, room).value;
            Wf(r.item) && Depth(r.item) <= room && s == SynBytes(r.item) + r.rest
    decreases |s|, 0
  {
    if s[0] == QUOTE {
      StringSound(s);
    } else if s[0] == LBRACE || s[0] == LBRACKET {
      assert s == [s[0]] + s[1..];
      ParseContainerSound(s[0] == LBRACE, s[1..], room - 1);
    } else if s[0] == MINUS || IsDigit(s[0]) {
      ScanNumberSound(s);
    } else {
      LiteralSound(s);
    }
  }

  lemma {:induction false} ParseContainerSound(obj: bool, s: bytes, room: nat)
    requires ParseContainer(obj, s, room).Some?
    ensures var r := ParseContainer(obj, s, room).value;
            Wf(r.item) && Depth(r.item) <= room + 1 && [Opening(obj)] + s == SynBytes(r.item) + r.rest
    decreases |s|, 2
  {
    var r := ParseContainer(obj, s, room).value;
    if Trim(s) != [] && Trim(s)[0] == Closing(obj) {
      assert Trim(s) == [Closing(obj)] + r.rest;
      Cat3(Ws(s), [Closing(obj)], r.rest);
      Cat3([Opening(obj)], Ws(s) + [Closing(obj)], r.rest);
    } else {
      ParseEntriesSound(obj, s, room);
      Cat3([Opening(obj)], ListBytes(obj, r.item.entries), r.rest);
    }
  }

  /** The parts of an entry, one after the other. */
  lemma EntryCat(obj: bool, es: seq<Entry>, t: bytes)
    requires es != []
    ensures ListBytes(obj, es) + t
         == es[0].pre + (NameBytes(es[0].name) + (SynBytes(es[0].value) + (es[0].post + TailBytes(obj, es[1..]) + t)))
  {
    var e := es[0];
    var tail := TailBytes(obj, es[1..]);
    Cat4(e.pre + NameBytes(e.name) + SynBytes(e.value), e.post, tail, t);
    Cat4(e.pre, NameBytes(e.name), SynBytes(e.value), e.post + (tail + t));
    Cat3(e.post, tail, t);
  }

  lemma {:induction false} ParseEntriesSound(obj: bool, s: bytes, room: nat)
    requires ParseEntries(obj, s, room).Some?
    ensures var r := ParseEntries(obj, s, room).value;
            WfEntries(obj, r.item) && EntriesDepth(r.item) <= room && s == ListBytes(obj, r.item) + r.rest
    decreases |s|, 1
  {
    var n := ParseName(obj, Trim(s)).value;
    var v := ParseValue(n.rest, room).value;
    var t := ParseTail(obj, v.rest, room).value;
    var r := ParseEntries(obj, s, room).value;
    ParseNameSound(obj, Trim(s));
    ParseValueSound(n.rest, room);
    ParseTailSound(obj, v.rest, room);
    assert r.item[0] == Entry(Ws(s), n.item, v.item, t.item.post) && r.item[1..] == t.item.entries;
    EntryCat(obj, r.item, r.rest);
  }

  lemma TailCat(obj: bool, post: bytes, es: seq<Entry>, t: bytes)
    ensures post + TailBytes(obj, es) + t
         == post + (if es == [] then [Closing(obj)] + t else [COMMA] + (ListBytes(obj, es) + t))
  {
    Cat3(post, TailBytes(obj, es), t);
    if es != [] {
      Cat3([COMMA], ListBytes(obj, es), t);
    }
  }

  lemma {:induction false} ParseTailSound(obj: bool, s: bytes, room: nat)
    requires ParseTail(obj, s, room).Some?
    ensures var r := ParseTail(obj, s, room).value;
            AllWs(r.item.post) && WfEntries(obj, r.item.entries) && EntriesDepth(r.item.entries) <= room &&
            s == r.item.post + TailBytes(obj, r.item.entries) + r.rest
    decreases |s|, 2
  {
    var t := Trim(s);
    var r := ParseTail(obj, s, room).value;
    assert t == [t[0]] + t[1..];
    if t[0] != Closing(obj) {
      ParseEntriesSound(obj, t[1..], room);
    }
    TailCat(obj, r.item.post, r.item.entries, r.rest);
  }

  // ---------- completeness: whatever the grammar spells is read back ----------

  lemma LiteralComplete(c: Syn, t: bytes)
    requires c.SNull? || c.SBool?
    ensures ParseValue(SynBytes(c) + t, 0) == Some(Scanned(c, t))
    ensures forall room: nat :: ParseValue(SynBytes(c) + t, room) == Some(Scanned(c, t))
  {
    var s := SynBytes(c) + t;
    assert s[..|SynBytes(c)|] == SynBytes(c) && s[|SynBytes(c)|..] == t;
    assert s[0] == SynBytes(c)[0];
  }

  lemma ParseColonComplete(name: Name, t: bytes)
    requires WfName(true, Some(name)) && (t != [] ==> !IsWs(t[0]))
    ensures ParseColon(name.chars, name.gap + ([COLON] + (name.after + t))) == Some(Scanned(Some(name), t))
  {
    var u := [COLON] + (name.after + t);
    WsPrefix(name.gap, u);
    assert u[1..] == name.after + t;
    WsPrefix(name.after, t);
  }

  lemma ParseNameComplete(obj: bool, name: Option<Name>, t: bytes)
    requires WfName(obj, name) && (t != [] ==> !IsWs(t[0]))
    ensures ParseName(obj, NameBytes(name) + t) == Some(Scanned(name, t))
  {
    if obj {
      var n := name.value;
      var q := n.gap + ([COLON] + (n.after + t));
      NameCat(n, t);
      ScanCharsComplete(n.chars, q);
      assert (NameBytes(name) + t)[1..] == CharsBytes(n.chars) + [QUOTE] + q;
      ParseColonComplete(n, t);
    } else {
      assert NameBytes(name) + t == t;
    }
  }

  lemma {:induction false} ParseValueComplete(c: Syn, t: bytes, room: nat)
    requires Wf(c) && Depth(c) <= room && (c.SNumber? ==> Delimits(t))
    ensures ParseValue(SynBytes(c) + t, room) == Some(Scanned(c, t))
    decreases c, 0
  {
    var s := SynBytes(c) + t;
    match c {
      case SNull => LiteralComplete(c, t);
      case SBool(b) => LiteralComplete(c, t);
      case SNumber(text) =>
        NumberStart(text);
        ScanNumberComplete(text, t);
      case SString(chars) =>
        assert s[1..] == CharsBytes(chars) + [QUOTE] + t;
        ScanCharsComplete(chars, t);
      case SContainer(obj, inner, entries) =>
        ParseContainerComplete(c, t, room - 1);
    }
  }

  lemma {:induction false} ParseContainerComplete(c: Syn, t: bytes, room: nat)
    requires c.SContainer? && Wf(c) && EntriesDepth(c.entries) <= room
    ensures (SynBytes(c) + t)[0] == Opening(c.obj)
    ensures ParseContainer(c.obj, (SynBytes(c) + t)[1..], room) == Some(Scanned(c, t))
    decreases c.entries, 3
  {
    var s := (SynBytes(c) + t)[1..];
    if c.entries == [] {
      assert s == c.inner + ([Closing(c.obj)] + t);
      WsPrefix(c.inner, [Closing(c.obj)] + t);
      assert ([Closing(c.obj)] + t)[1..] == t;
    } else {
      assert s == ListBytes(c.obj, c.entries) + t;
      ParseEntriesComplete(c.obj, c.entries, t, room);
      NotClosing(c.obj, c.entries, t);
    }
  }

  /** A nonempty list does not start with its closing bracket. */
  lemma NotClosing(obj: bool, es: seq<Entry>, t: bytes)
    requires es != [] && WfEntries(obj, es)
    ensures Trim(ListBytes(obj, es) + t) != [] && Trim(ListBytes(obj, es) + t)[0] != Closing(obj)
  {
    var e := es[0];
    SynStart(e.value);
    var u := NameBytes(e.name) + (SynBytes(e.value) + (e.post + TailBytes(obj, es[1..]) + t));
    EntryCat(obj, es, t);
    assert u[0] == if e.name.None? then SynBytes(e.value)[0] else QUOTE;
    WsPrefix(e.pre, u);
  }

  lemma WfFirst(obj: bool, es: seq<Entry>, room: nat)
    requires es != [] && WfEntries(obj, es) && EntriesDepth(es) <= room
    ensures Depth(es[0].value) <= room && EntriesDepth(es[1..]) <= room
  {
  }

  lemma {:induction false} ParseEntriesComplete(obj: bool, es: seq<Entry>, t: bytes, room: nat)
    requires es != [] && WfEntries(obj, es) && EntriesDepth(es) <= room
    ensures ParseEntries(obj, ListBytes(obj, es) + t, room) == Some(Scanned(es, t))
    decreases es, 1
  {
    hide SynBytes, Ws, ScanChars, ParseValue, ParseTail, ParseName, ParseColon, EntriesDepth;
    WfFirst(obj, es, room);
    var e := es[0];
    var w := e.post + TailBytes(obj, es[1..]) + t;
    var v := SynBytes(e.value) + w;
    var u := NameBytes(e.name) + v;
    EntryCat(obj, es, t);
    SynStart(e.value);
    assert v[0] == SynBytes(e.value)[0];
    assert u[0] == if e.name.None? then v[0] else QUOTE;
    WsPrefix(e.pre, u);
    ParseNameComplete(obj, e.name, v);
    TailDelimits(obj, es[1..], e.post, t);
    ParseValueComplete(e.value, w, room);
    ParseTailComplete(obj, es[1..], e.post, t, room);
    assert es == [e] + es[1..];
  }

  lemma TailDelimits(obj: bool, es: seq<Entry>, post: bytes, t: bytes)
    requires AllWs(post)
    ensures Delimits(post + TailBytes(obj, es) + t)
  {
    var w := post + TailBytes(obj, es) + t;
    assert w[0] == if post == [] then TailBytes(obj, es)[0] else post[0];
  }

  lemma {:induction false} ParseTailComplete(obj: bool, es: seq<Entry>, post: bytes, t: bytes, room: nat)
    requires AllWs(post) && WfEntries(obj, es) && EntriesDepth(es) <= room
    ensures ParseTail(obj, post + TailBytes(obj, es) + t, room) == Some(Scanned(Tail(post, es), t))
    decreases es, 2
  {
    var u := if es == [] then [Closing(obj)] + t else [COMMA] + (ListBytes(obj, es) + t);
    TailCat(obj, post, es, t);
    WsPrefix(post, u);
    if es == [] {
      assert u[1..] == t;
    } else {
      assert u[1..] == ListBytes(obj, es) + t;
      ParseEntriesComplete(obj, es, t, room);
    }
  }

  // ---------- the grammar ----------

  lemma ParseTextSound(s: bytes, room: nat)
    requires ParseText(s, room).Some?
    ensures var t := ParseText(s, room).value; WfText(t) && Depth(t.value) <= room && TextBytes(t) == s
  {
    ParseValueSound(Trim(s), room);
    var r := ParseValue(Trim(s), room).value;
    assert r.rest == Ws(r.rest) + [];
    Cat3(Ws(s), SynBytes(r.item), Ws(r.rest));
  }

  lemma ParseTextComplete(t: Text, room: nat)
    requires WfText(t) && Depth(t.value) <= room
    ensures ParseText(TextBytes(t), room) == Some(t)
  {
    var u := SynBytes(t.value) + t.post;
    SynStart(t.value);
    Cat3(t.pre, SynBytes(t.value), t.post);
    assert u[0] == SynBytes(t.value)[0];
    WsPrefix(t.pre, u);
    ParseValueComplete(t.value, t.post, room);
    assert t.post + [] == t.post;
    WsPrefix(t.post, []);
  }

  /** A text is read exactly when it is a JSON text nested at most `room` deep, and then as that text. */
  lemma ParseTextExact(s: bytes, room: nat, t: Text)
    ensures ParseText(s, room) == Some(t) <==> (WfText(t) && Depth(t.value) <= room && TextBytes(t) == s)
  {
    if ParseText(s, room) == Some(t) {
      ParseTextSound(s, room);
    }
    if WfText(t) && Depth(t.value) <= room && TextBytes(t) == s {
      ParseTextComplete(t, room);
    }
  }

  /** No two texts, hence no two trees, are spelled by the same bytes. */
  lemma Unambiguous(a: Text, b: Text)
    requires WfText(a) && WfText(b) && TextBytes(a) == TextBytes(b)
    ensures a == b
  {
    var room := Max(Depth(a.value), Depth(b.value));
    ParseTextExact(TextBytes(a), room, a);
    ParseTextExact(TextBytes(a), room, b);
  }
}
