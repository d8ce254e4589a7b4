/** The parser as an automaton with a one-bit stack, and its agreement with the grammar. */
module Automaton {
  import opened Bytes
  import opened StringGrammar
  import opened Numbers
  import opened Grammar
  import opened Reader

  /** What is expected next. */
  datatype State =
    | TopValue | TopDone
    | ArrFirst | ArrValue | ArrComma
    | ObjFirst | ObjKey | ObjColon | ObjValue | ObjComma
    | InStr(key: bool)

  datatype Token =
    | NullToken | BoolToken | NumberToken | StringToken
    | BeginObject | BeginArray | KeyToken | EndObject | EndArray | Eof

  predicate IsValue(t: Token) {
    t.NullToken? || t.BoolToken? || t.NumberToken? || t.StringToken? || t.BeginObject? || t.BeginArray?
  }

  function ValueToken(b: byte): Option<Token> {
    if b == LBRACE then Some(BeginObject)
    else if b == LBRACKET then Some(BeginArray)
    else if b == QUOTE then Some(StringToken)
    else if b == MINUS || IsDigit(b) then Some(NumberToken)
    else if b == LOWER_T || b == LOWER_F then Some(BoolToken)
    else if b == LOWER_N then Some(NullToken)
    else None
  }

  function Top(levels: seq<bool>): Option<bool> {
    if levels == [] then None else Some(levels[|levels| - 1])
  }

  function Pop(levels: seq<bool>): seq<bool> {
    if levels == [] then [] else levels[..|levels| - 1]
  }

  /** The state after a complete value. */
  function ValueDone(levels: seq<bool>): State {
    match Top(levels)
    case None => TopDone
    case Some(obj) => if obj then ObjComma else ArrComma
  }

  function First(obj: bool): State { if obj then ObjFirst else ArrFirst }

  /** States that fit the stack. */
  predicate Fits(state: State, levels: seq<bool>) {
    match state
    case TopValue => levels == []
    case TopDone => levels == []
    case InStr(key) => key ==> Top(levels) == Some(true)
    case ArrFirst => Top(levels) == Some(false)
    case ArrValue => Top(levels) == Some(false)
    case ArrComma => Top(levels) == Some(false)
    case _ => Top(levels) == Some(true)
  }

  datatype Peeked = Peeked(token: Token, state: State, rest: bytes)

  /** Whether `b` is the separator that may come next. */
  predicate IsSeparator(state: State, b: byte) {
    if state.ObjColon? then b == COLON else (state.ArrComma? || state.ObjComma?) && b == COMMA
  }

  function AfterSeparator(state: State): State {
    if state.ArrComma? then ArrValue else if state.ObjComma? then ObjKey else ObjValue
  }

  /** The next token, with the whitespace and separators before it consumed. */
  function PeekToken(state: State, s: bytes): (r: Option<Peeked>) {
    var t := Trim(s);
    if t == [] then if state.TopDone? then Some(Peeked(Eof, state, [])) else None
    else if IsSeparator(state, t[0]) then PeekPlain(AfterSeparator(state), Trim(t[1..]))
    else PeekPlain(state, t)
  }

  /** The token that `t`, without separators before it, starts with. */
  function PeekPlain(state: State, t: bytes): (r: Option<Peeked>)
    ensures r.Some? ==> r.value.state == state && r.value.rest == t && t != []
  {
    if t == [] || TokenAt(state, t[0]).None? then None
    else Some(Peeked(TokenAt(state, t[0]).value, state, t))
  }

  function TokenAt(state: State, b: byte): Option<Token> {
    match state
    case TopValue => ValueToken(b)
    case ArrValue => ValueToken(b)
    case ObjValue => ValueToken(b)
    case ArrFirst => if b == RBRACKET then Some(EndArray) else ValueToken(b)
    case ArrComma => if b == RBRACKET then Some(EndArray) else None
    case ObjFirst => if b == QUOTE then Some(KeyToken) else if b == RBRACE then Some(EndObject) else None
    case ObjKey => if b == QUOTE then Some(KeyToken) else None
    case ObjComma => if b == RBRACE then Some(EndObject) else None
    case _ => None
  }

  /** A token at hand: `rest` starts with it. */
  predicate AtToken(p: Peeked, levels: seq<bool>) {
    Fits(p.state, levels) &&
    (p.token.Eof? ==> p.rest == [] && p.state.TopDone?) &&
    (!p.token.Eof? ==> p.rest != [] && !IsWs(p.rest[0]) && TokenAt(p.state, p.rest[0]) == Some(p.token))
  }

  lemma TokenFacts(p: Peeked, levels: seq<bool>)
    requires AtToken(p, levels) && !p.token.Eof?
    ensures IsValue(p.token) ==> ValueToken(p.rest[0]) == Some(p.token)
    ensures p.token.KeyToken? ==> p.rest[0] == QUOTE && Top(levels) == Some(true)
    ensures p.token.EndObject? ==> p.rest[0] == RBRACE && Top(levels) == Some(true)
    ensures p.token.EndArray? ==> p.rest[0] == RBRACKET && Top(levels) == Some(false)
    ensures !p.state.InStr?
  {
  }

  /** Peeking only skips. */
  lemma PeekSkips(state: State, s: bytes)
    requires PeekToken(state, s).Some?
    ensures IsSuffix(PeekToken(state, s).value.rest, s)
  {
    var t := Trim(s);
    TrimIsSuffix(s);
    if t != [] {
      TrimIsSuffix(t[1..]);
      SuffixTrans(Trim(t[1..]), t[1..], t);
      SuffixTrans(Trim(t[1..]), t, s);
    }
  }

  lemma PlainFacts(state: State, t: bytes, levels: seq<bool>)
    requires Fits(state, levels) && PeekPlain(state, t).Some? && !IsWs(t[0])
    ensures AtToken(PeekPlain(state, t).value, levels)
  {
  }

  lemma PeekFacts(state: State, s: bytes, levels: seq<bool>)
    requires Fits(state, levels) && PeekToken(state, s).Some?
    ensures AtToken(PeekToken(state, s).value, levels)
  {
    var t := Trim(s);
    if t != [] {
      if IsSeparator(state, t[0]) {
        PlainFacts(AfterSeparator(state), Trim(t[1..]), levels);
      } else {
        PlainFacts(state, t, levels);
      }
    }
  }

  /** Peeking again gives the same token. */
  lemma PeekAgain(p: Peeked, levels: seq<bool>)
    requires AtToken(p, levels)
    ensures PeekToken(p.state, p.rest) == Some(p)
  {
    if p.rest != [] {
      assert Trim(p.rest) == p.rest;
    }
  }

  // ---------- events ----------

  /** What the parser reports, one at a time. */
  datatype Event =
    | Open(obj: bool)
    | Close(obj: bool)
    | Key(name: bytes)
    | Scalar(value: JSON)

  function EventsOf(c: Syn): seq<Event>
    decreases c
  {
    if c.SContainer? then [Open(c.obj)] + EntriesEvents(c.entries) + [Close(c.obj)] else [Scalar(ToTree(c))]
  }

  function EntriesEvents(es: seq<Entry>): seq<Event>
    decreases es
  {
    if es == [] then []
    else NameEvents(es[0].name) + EventsOf(es[0].value) + EntriesEvents(es[1..])
  }

  function NameEvents(name: Option<Name>): seq<Event> {
    match name
    case None => []
    case Some(n) => [Key(CharsText(n.chars))]
  }

  // ---------- what remains of a run ----------

  /** The events still to come, and the input after them. */
  datatype Run = Run(events: seq<Event>, rest: bytes)

  function Then(events: seq<Event>, r: Option<Run>): Option<Run> {
    match r
    case None => None
    case Some(run) => Some(Run(events + run.events, run.rest))
  }

  /** After a value: the rest of the containers above `base`. */
  function Unfinished(s: bytes, levels: seq<bool>, base: nat, max: nat): (r: Option<Run>)
    requires base <= |levels| <= max
    decreases |levels|
  {
    if |levels| == base then Some(Run([], s))
    else
      var obj := levels[|levels| - 1];
      match ParseTail(obj, s, max - |levels|)
      case None => None
      case Some(t) =>
        Then(EntriesEvents(t.item.entries) + [Close(obj)], Unfinished(t.rest, levels[..|levels| - 1], base, max))
  }

  function FromValue(s: bytes, levels: seq<bool>, base: nat, max: nat): Option<Run>
    requires base <= |levels| <= max
  {
    match ParseValue(s, max - |levels|)
    case None => None
    case Some(v) => Then(EventsOf(v.item), Unfinished(v.rest, levels, base, max))
  }

  /** After a member name. */
  function FromColon(s: bytes, levels: seq<bool>, base: nat, max: nat): Option<Run>
    requires base <= |levels| <= max
  {
    match ParseColon([], s)
    case None => None
    case Some(n) => FromValue(n.rest, levels, base, max)
  }

  /** From a peeked token on. */
  function FromToken(token: Token, s: bytes, levels: seq<bool>, base: nat, max: nat): Option<Run>
    requires base <= |levels| <= max
  {
    if IsValue(token) then FromValue(s, levels, base, max)
    else if token.KeyToken? then
      if s == [] then None
      else match ScanChars(s[1..])
        case None => None
        case Some(n) => Then([Key(CharsText(n.item))], FromColon(n.rest, levels, base, max))
    else if (token.EndObject? || token.EndArray?) && s != [] && base < |levels| then
      Then([Close(token.EndObject?)], Unfinished(s[1..], levels[..|levels| - 1], base, max))
    else None
  }

  function FromState(state: State, s: bytes, levels: seq<bool>, base: nat, max: nat): Option<Run>
    requires base <= |levels| <= max
  {
    match PeekToken(state, s)
    case None => None
    case Some(p) => FromToken(p.token, p.rest, levels, base, max)
  }

  lemma ThenThen(a: seq<Event>, b: seq<Event>, r: Option<Run>)
    ensures Then(a, Then(b, r)) == Then(a + b, r)
  {
    if r.Some? {
      assert a + (b + r.value.events) == a + b + r.value.events;
    }
  }

  lemma ThenNothing(r: Option<Run>)
    ensures Then([], r) == r
  {
    if r.Some? {
      assert [] + r.value.events == r.value.events;
    }
  }

  /** The colon does not depend on the name before it. */
  lemma ColonAnyName(chars: seq<StrChar>, s: bytes)
    ensures ParseColon(chars, s).Some? <==> ParseColon([], s).Some?
    ensures ParseColon(chars, s).Some? ==> ParseColon(chars, s).value.rest == ParseColon([], s).value.rest
  {
  }

  /** A value starts with a value token. */
  lemma ValueStarts(s: bytes, room: nat)
    requires ParseValue(s, room).Some?
    ensures s != [] && ValueToken(s[0]).Some? && !IsWs(s[0])
    ensures s[0] != COMMA && s[0] != COLON && s[0] != RBRACE && s[0] != RBRACKET
  {
    ParseValueSound(s, room);
    SynStart(ParseValue(s, room).value.item);
  }

  /** What an entry of a list starts with. */
  function FromEntry(obj: bool, s: bytes, levels: seq<bool>, base: nat, max: nat): Option<Run>
    requires base <= |levels| <= max
  {
    match ParseName(obj, s)
    case None => None
    case Some(n) => Then(NameEvents(n.item), FromValue(n.rest, levels, base, max))
  }

  /** A list of entries, up to the closing bracket, then the rest of the run. */
  function FromEntries(obj: bool, s: bytes, levels: seq<bool>, base: nat, max: nat): Option<Run>
    requires base < |levels| <= max
  {
    match ParseEntries(obj, s, max - |levels|)
    case None => None
    case Some(r) => Then(EntriesEvents(r.item) + [Close(obj)], Unfinished(r.rest, Pop(levels), base, max))
  }

  lemma {:induction false} ListEvents(obj: bool, e: Entry, es: seq<Entry>)
    ensures EntriesEvents([e] + es) + [Close(obj)]
         == NameEvents(e.name) + (EventsOf(e.value) + (EntriesEvents(es) + [Close(obj)]))
  {
    assert ([e] + es)[1..] == es;
  }

  /** A list of entries, one entry at a time: its first entry, then whatever follows that entry. */
  lemma EntriesStep(obj: bool, s: bytes, levels: seq<bool>, base: nat, max: nat)
    requires base < |levels| <= max && levels[|levels| - 1] == obj
    ensures FromEntries(obj, s, levels, base, max) == FromEntry(obj, Trim(s), levels, base, max)
  {
    var room := max - |levels|;
    if ParseEntries(obj, s, room).Some? {
      var n := ParseName(obj, Trim(s)).value;
      var v := ParseValue(n.rest, room).value;
      var t := ParseTail(obj, v.rest, room).value;
      var rest := Unfinished(t.rest, Pop(levels), base, max);
      var tail := EntriesEvents(t.item.entries) + [Close(obj)];
      ListEvents(obj, Entry(Ws(s), n.item, v.item, t.item.post), t.item.entries);
      ThenThen(NameEvents(n.item), EventsOf(v.item) + tail, rest);
      ThenThen(EventsOf(v.item), tail, rest);
      assert FromValue(n.rest, levels, base, max) == Then(EventsOf(v.item), Then(tail, rest));
    } else {
      NoEntries(obj, s, levels, base, max);
    }
  }

  lemma NoEntries(obj: bool, s: bytes, levels: seq<bool>, base: nat, max: nat)
    requires base < |levels| <= max && levels[|levels| - 1] == obj
    requires ParseEntries(obj, s, max - |levels|).None?
    ensures FromEntry(obj, Trim(s), levels, base, max).None?
  {
  }

  lemma PeekTrimmed(state: State, s: bytes)
    requires Trim(s) == s && !state.TopDone? && (s != [] ==> !IsSeparator(state, s[0]))
    ensures PeekToken(state, s) == PeekPlain(state, s)
  {
  }

  lemma PeekKey(state: State, s: bytes)
    requires Trim(s) == s && (state == ObjKey || (state == ObjFirst && (s != [] ==> s[0] != RBRACE)))
    ensures PeekToken(state, s)
         == if s == [] || s[0] != QUOTE then None else Some(Peeked(KeyToken, state, s))
  {
    PeekTrimmed(state, s);
  }

  lemma KeyEntry(s: bytes, levels: seq<bool>, base: nat, max: nat)
    requires base <= |levels| <= max && s != [] && s[0] == QUOTE
    ensures FromEntry(true, s, levels, base, max) == FromToken(KeyToken, s, levels, base, max)
  {
    if ScanChars(s[1..]).Some? {
      var n := ScanChars(s[1..]).value;
      ColonAnyName(n.item, n.rest);
    }
  }

  /** The first token of a member is its name... */
  lemma FirstMember(state: State, s: bytes, levels: seq<bool>, base: nat, max: nat)
    requires base < |levels| <= max && Trim(s) == s
    requires state == ObjKey || (state == ObjFirst && (s != [] ==> s[0] != RBRACE))
    ensures FromEntry(true, s, levels, base, max) == FromState(state, s, levels, base, max)
  {
    PeekKey(state, s);
    if s != [] && s[0] == QUOTE {
      KeyEntry(s, levels, base, max);
    } else {
      assert ParseName(true, s).None?;
    }
  }

  lemma PeekAtValue(state: State, s: bytes)
    requires Trim(s) == s && (state == ArrValue || (state == ArrFirst && (s != [] ==> s[0] != RBRACKET)))
    ensures PeekToken(state, s)
         == if s == [] || ValueToken(s[0]).None? then None else Some(Peeked(ValueToken(s[0]).value, state, s))
  {
    PeekTrimmed(state, s);
  }

  lemma ValueTokenIsValue(b: byte)
    requires ValueToken(b).Some?
    ensures IsValue(ValueToken(b).value)
  {
  }

  /** ... and that of an element, its value. */
  lemma FirstElement(state: State, s: bytes, levels: seq<bool>, base: nat, max: nat)
    requires base < |levels| <= max && Trim(s) == s
    requires state == ArrValue || (state == ArrFirst && (s != [] ==> s[0] != RBRACKET))
    ensures FromEntry(false, s, levels, base, max) == FromState(state, s, levels, base, max)
  {
    assert ParseName(false, s) == Some(Scanned(None, s));
    ThenNothing(FromValue(s, levels, base, max));
    PeekAtValue(state, s);
    if s != [] && ValueToken(s[0]).Some? {
      ValueTokenIsValue(s[0]);
    } else if ParseValue(s, max - |levels|).Some? {
      ValueStarts(s, max - |levels|);
    }
  }

  lemma AfterComma(s: bytes, levels: seq<bool>, base: nat, max: nat)
    requires base < |levels| <= max && Trim(s) == s
    ensures var obj := levels[|levels| - 1];
            FromEntry(obj, s, levels, base, max) == FromState(if obj then ObjKey else ArrValue, s, levels, base, max)
  {
    if levels[|levels| - 1] {
      FirstMember(ObjKey, s, levels, base, max);
    } else {
      FirstElement(ArrValue, s, levels, base, max);
    }
  }

  lemma AfterLast(s: bytes, levels: seq<bool>, base: nat, max: nat)
    requires base < |levels| <= max && Trim(s) != [] && Trim(s)[0] == Closing(levels[|levels| - 1])
    ensures Unfinished(s, levels, base, max) == FromState(ValueDone(levels), s, levels, base, max)
  {
    var obj := levels[|levels| - 1];
    var t := Trim(s);
    assert ParseTail(obj, s, max - |levels|) == Some(Scanned(Tail(Ws(s), []), t[1..]));
    assert EntriesEvents([]) + [Close(obj)] == [Close(obj)];
    assert PeekToken(ValueDone(levels), s) == Some(Peeked(if obj then EndObject else EndArray, ValueDone(levels), t));
  }

  lemma CommaTail(s: bytes, levels: seq<bool>, base: nat, max: nat)
    requires base < |levels| <= max && Trim(s) != [] && Trim(s)[0] == COMMA
    ensures Unfinished(s, levels, base, max) == FromEntries(levels[|levels| - 1], Trim(s)[1..], levels, base, max)
  {
  }

  lemma AfterNotLast(s: bytes, levels: seq<bool>, base: nat, max: nat)
    requires base < |levels| <= max && Trim(s) != [] && Trim(s)[0] == COMMA
    ensures Unfinished(s, levels, base, max) == FromState(ValueDone(levels), s, levels, base, max)
  {
    var obj := levels[|levels| - 1];
    var t := Trim(s);
    EntriesStep(obj, t[1..], levels, base, max);
    TrimTrim(t[1..]);
    AfterComma(Trim(t[1..]), levels, base, max);
    SeparatorConsumed(ValueDone(levels), s);
    CommaTail(s, levels, base, max);
  }

  /** After a value inside a container, the automaton does what the grammar says. */
  lemma AfterValue(s: bytes, levels: seq<bool>, base: nat, max: nat)
    requires base < |levels| <= max
    ensures Unfinished(s, levels, base, max) == FromState(ValueDone(levels), s, levels, base, max)
  {
    var t := Trim(s);
    if t != [] && t[0] == Closing(levels[|levels| - 1]) {
      AfterLast(s, levels, base, max);
    } else if t != [] && t[0] == COMMA {
      AfterNotLast(s, levels, base, max);
    } else {
      assert PeekToken(ValueDone(levels), s).None?;
    }
  }

  /** A separator is consumed on the way to the next token. */
  lemma SeparatorConsumed(state: State, s: bytes)
    requires Trim(s) != [] && IsSeparator(state, Trim(s)[0])
    ensures PeekToken(state, s) == PeekToken(AfterSeparator(state), Trim(Trim(s)[1..]))
  {
    var u := Trim(Trim(s)[1..]);
    TrimTrim(Trim(s)[1..]);
    PeekTrimmed(AfterSeparator(state), u);
  }

  /** One step towards the next token: skip whitespace, then take a separator or see the token. */
  lemma PeekOne(state: State, s: bytes)
    ensures var t := Trim(s); var p := PeekToken(state, s);
            PeekToken(state, t) == p &&
            if t == [] then p == if state.TopDone? then Some(Peeked(Eof, state, t)) else None
            else if state.TopDone? then p == None
            else if IsSeparator(state, t[0]) then p == PeekToken(AfterSeparator(state), t[1..])
            else p == match TokenAt(state, t[0]) case None => None case Some(tok) => Some(Peeked(tok, state, t))
  {
    var t := Trim(s);
    TrimTrim(s);
    if t != [] && IsSeparator(state, t[0]) {
      SeparatorConsumed(state, s);
      TrimTrim(t[1..]);
      assert PeekToken(AfterSeparator(state), Trim(t[1..])) == PeekToken(AfterSeparator(state), t[1..]);
    }
  }

  lemma SeparatorFits(state: State, b: byte, levels: seq<bool>)
    requires Fits(state, levels) && IsSeparator(state, b)
    ensures Fits(AfterSeparator(state), levels) && !AfterSeparator(state).InStr?
  {
  }

  lemma TokenIsNotEof(state: State, b: byte)
    requires TokenAt(state, b).Some?
    ensures !TokenAt(state, b).value.Eof? && !state.InStr?
  {
  }

  lemma EmptyContainer(obj: bool, s: bytes, levels: seq<bool>, base: nat, max: nat)
    requires base <= |levels| < max && Trim(s) != [] && Trim(s)[0] == Closing(obj)
    ensures FromState(First(obj), s, levels + [obj], base, max)
         == Then([Close(obj)], Unfinished(Trim(s)[1..], levels, base, max))
  {
    var inside := levels + [obj];
    assert inside[..|inside| - 1] == levels;
    var p := PeekToken(First(obj), s).value;
    assert p.rest == Trim(s) && p.token == if obj then EndObject else EndArray;
  }

  lemma NonemptyContainer(obj: bool, s: bytes, levels: seq<bool>, base: nat, max: nat)
    requires base <= |levels| < max && (Trim(s) != [] ==> Trim(s)[0] != Closing(obj))
    ensures FromState(First(obj), s, levels + [obj], base, max) == FromEntries(obj, s, levels + [obj], base, max)
  {
    var inside := levels + [obj];
    EntriesStep(obj, s, inside, base, max);
    TrimTrim(s);
    if obj {
      FirstMember(ObjFirst, Trim(s), inside, base, max);
    } else {
      FirstElement(ArrFirst, Trim(s), inside, base, max);
    }
    PeekOne(First(obj), s);
  }

  lemma ParseNonempty(obj: bool, s: bytes, room: nat)
    requires s != [] && s[0] == Opening(obj) && (Trim(s[1..]) != [] ==> Trim(s[1..])[0] != Closing(obj))
    ensures match ParseEntries(obj, s[1..], room)
            case None => ParseValue(s, room + 1).None?
            case Some(r) => ParseValue(s, room + 1) == Some(Scanned(SContainer(obj, [], r.item), r.rest))
  {
    assert ParseValue(s, room + 1) == ParseContainer(obj, s[1..], room);
  }

  lemma {:induction false} ContainerEvents(obj: bool, es: seq<Entry>)
    ensures EventsOf(SContainer(obj, [], es)) == [Open(obj)] + (EntriesEvents(es) + [Close(obj)])
  {
  }

  /** The run of a nonempty container. */
  lemma ContainerRun(obj: bool, s: bytes, levels: seq<bool>, base: nat, max: nat)
    requires base <= |levels| < max && s != [] && s[0] == Opening(obj)
    requires Trim(s[1..]) != [] ==> Trim(s[1..])[0] != Closing(obj)
    ensures FromValue(s, levels, base, max) == Then([Open(obj)], FromEntries(obj, s[1..], levels + [obj], base, max))
  {
    hide ParseTail, ParseName, ParseEntries, FromEntry, ScanNumber, ScanChars, Literal, Trim;
    var inside := levels + [obj];
    assert Pop(inside) == levels && |inside| == |levels| + 1;
    ParseNonempty(obj, s, max - |inside|);
    if ParseEntries(obj, s[1..], max - |inside|).Some? {
      var r := ParseEntries(obj, s[1..], max - |inside|).value;
      ContainerEvents(obj, r.item);
      ThenThen([Open(obj)], EntriesEvents(r.item) + [Close(obj)], Unfinished(r.rest, levels, base, max));
    }
  }

  /** The run of an empty one. */
  lemma EmptyRun(obj: bool, s: bytes, levels: seq<bool>, base: nat, max: nat)
    requires base <= |levels| < max && s != [] && s[0] == Opening(obj)
    requires Trim(s[1..]) != [] && Trim(s[1..])[0] == Closing(obj)
    ensures FromValue(s, levels, base, max)
         == Then([Open(obj)], Then([Close(obj)], Unfinished(Trim(s[1..])[1..], levels, base, max)))
  {
    var t := Trim(s[1..]);
    var c := SContainer(obj, Ws(s[1..]), []);
    assert ParseContainer(obj, s[1..], max - |levels| - 1) == Some(Scanned(c, t[1..]));
    assert ParseValue(s, max - |levels|) == Some(Scanned(c, t[1..]));
    assert EventsOf(c) == [Open(obj)] + [Close(obj)];
    ThenThen([Open(obj)], [Close(obj)], Unfinished(t[1..], levels, base, max));
  }

  /** Entering a container. */
  lemma AtOpen(token: Token, s: bytes, levels: seq<bool>, base: nat, max: nat)
    requires base <= |levels| <= max && s != []
    requires token.BeginObject? || token.BeginArray?
    requires ValueToken(s[0]) == Some(token)
    ensures FromToken(token, s, levels, base, max)
         == if |levels| == max then None
            else Then([Open(token.BeginObject?)],
                      FromState(First(token.BeginObject?), s[1..], levels + [token.BeginObject?], base, max))
  {
    var obj := token.BeginObject?;
    if |levels| < max {
      if Trim(s[1..]) != [] && Trim(s[1..])[0] == Closing(obj) {
        EmptyContainer(obj, s[1..], levels, base, max);
        EmptyRun(obj, s, levels, base, max);
      } else {
        NonemptyContainer(obj, s[1..], levels, base, max);
        ContainerRun(obj, s, levels, base, max);
      }
    }
  }

  lemma PeekAtMemberValue(s: bytes)
    requires Trim(s) == s
    ensures PeekToken(ObjValue, s)
         == if s == [] || ValueToken(s[0]).None? then None else Some(Peeked(ValueToken(s[0]).value, ObjValue, s))
  {
    PeekTrimmed(ObjValue, s);
  }

  /** After a member name. */
  lemma AtColon(s: bytes, levels: seq<bool>, base: nat, max: nat)
    requires base <= |levels| <= max
    ensures FromColon(s, levels, base, max) == FromState(ObjColon, s, levels, base, max)
  {
    var t := Trim(s);
    if t != [] && t[0] == COLON {
      var u := Trim(t[1..]);
      SeparatorConsumed(ObjColon, s);
      TrimTrim(t[1..]);
      PeekAtMemberValue(u);
      if u != [] && ValueToken(u[0]).Some? {
        ValueTokenIsValue(u[0]);
      } else if ParseValue(u, max - |levels|).Some? {
        ValueStarts(u, max - |levels|);
      }
    } else {
      assert PeekToken(ObjColon, s).None?;
    }
  }

  // ---------- one token at a time ----------

  /** The state after a string. */
  function StringDone(key: bool, levels: seq<bool>): State {
    if key then ObjColon else ValueDone(levels)
  }

  /** Peeking in any state: the rest of a partly read string is skipped first. */
  function PeekFrom(state: State, s: bytes, levels: seq<bool>): Option<Peeked> {
    if !state.InStr? then PeekToken(state, s)
    else match ScanChars(s)
      case None => None
      case Some(n) => PeekToken(StringDone(state.key, levels), n.rest)
  }

  /** What remains after a token was consumed: nothing, once the containers above `base` are closed. */
  function After(state: State, s: bytes, levels: seq<bool>, base: nat, max: nat): Option<Run>
    requires base <= |levels| <= max
  {
    if |levels| == base then Some(Run([], s)) else FromState(state, s, levels, base, max)
  }

  lemma AfterDone(s: bytes, levels: seq<bool>, base: nat, max: nat)
    requires base <= |levels| <= max
    ensures After(ValueDone(levels), s, levels, base, max) == Unfinished(s, levels, base, max)
  {
    if base < |levels| {
      AfterValue(s, levels, base, max);
    }
  }

  function RestOf(r: Option<Run>): Option<bytes> {
    match r case None => None case Some(run) => Some(run.rest)
  }

  /** A string, number or literal: one event, then whatever follows the value. */
  lemma AtScalar(token: Token, s: bytes, levels: seq<bool>, base: nat, max: nat, v: Scanned<Syn>)
    requires base <= |levels| <= max && IsValue(token)
    requires ParseValue(s, max - |levels|) == Some(v) && !v.item.SContainer?
    ensures FromToken(token, s, levels, base, max)
         == Then([Scalar(ToTree(v.item))], After(ValueDone(levels), v.rest, levels, base, max))
  {
    AfterDone(v.rest, levels, base, max);
  }

  lemma AtClose(token: Token, s: bytes, levels: seq<bool>, base: nat, max: nat)
    requires base < |levels| <= max && s != [] && (token.EndObject? || token.EndArray?)
    ensures FromToken(token, s, levels, base, max)
         == Then([Close(token.EndObject?)], After(ValueDone(Pop(levels)), s[1..], Pop(levels), base, max))
  {
    AfterDone(s[1..], Pop(levels), base, max);
  }

  lemma AtKey(s: bytes, levels: seq<bool>, base: nat, max: nat, n: Scanned<seq<StrChar>>)
    requires base < |levels| <= max && s != [] && ScanChars(s[1..]) == Some(n)
    ensures FromToken(KeyToken, s, levels, base, max)
         == Then([Key(CharsText(n.item))], After(ObjColon, n.rest, levels, base, max))
  {
    AtColon(n.rest, levels, base, max);
  }
}
