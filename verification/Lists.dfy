/** Where the parser is among the entries of a container. */
module Lists {
  import opened Bytes
  import opened StringGrammar
  import opened Grammar
  import opened Reader
  import opened Automaton

  /** The entries still to come, and the input after the container. */
  function Remaining(state: State, s: bytes, obj: bool, room: nat): Option<Scanned<seq<Entry>>> {
    if state == First(obj) then
      (match ParseContainer(obj, s, room)
       case None => None
       case Some(c) => Some(Scanned(c.item.entries, c.rest)))
    else if state == (if obj then ObjComma else ArrComma) then
      (match ParseTail(obj, s, room)
       case None => None
       case Some(t) => Some(Scanned(t.item.entries, t.rest)))
    else None
  }

  /** `s` starts with the name of the first of `es`, or its value in an array; `rest` follows the container. */
  predicate AtEntry(obj: bool, es: seq<Entry>, s: bytes, rest: bytes, room: nat) {
    es != [] && ParseName(obj, s).Some? &&
    ParseName(obj, s).value.item == es[0].name && AtEntryValue(obj, es, ParseName(obj, s).value.rest, rest, room)
  }

  /** `s` starts with the value of the first of `es`. */
  predicate AtEntryValue(obj: bool, es: seq<Entry>, s: bytes, rest: bytes, room: nat) {
    es != [] && ParseValue(s, room).Some? &&
    ParseValue(s, room).value.item == es[0].value && AfterEntry(obj, es, ParseValue(s, room).value.rest, rest, room)
  }

  /** `s` starts right after that value. */
  predicate AfterEntry(obj: bool, es: seq<Entry>, s: bytes, rest: bytes, room: nat) {
    es != [] && ParseTail(obj, s, room) == Some(Scanned(Tail(es[0].post, es[1..]), rest))
  }

  /** `s` starts with the colon after the name. */
  predicate AtEntryColon(es: seq<Entry>, s: bytes, rest: bytes, room: nat) {
    ParseColon([], s).Some? && AtEntryValue(true, es, ParseColon([], s).value.rest, rest, room)
  }

  /** `s` is the closing bracket. */
  predicate AtClosing(obj: bool, s: bytes, rest: bytes) {
    s == [Closing(obj)] + rest
  }

  lemma EntriesAt(obj: bool, s: bytes, room: nat)
    requires ParseEntries(obj, s, room).Some?
    ensures var r := ParseEntries(obj, s, room).value; AtEntry(obj, r.item, Trim(s), r.rest, room)
  {
    var r := ParseEntries(obj, s, room).value;
    var n := ParseName(obj, Trim(s)).value;
    var v := ParseValue(n.rest, room).value;
    var t := ParseTail(obj, v.rest, room).value;
    assert r.item[1..] == t.item.entries;
  }

  /** An entry starts with its token. */
  lemma EntryToken(obj: bool, es: seq<Entry>, s: bytes, rest: bytes, room: nat)
    requires AtEntry(obj, es, s, rest, room)
    ensures s != [] && !IsWs(s[0]) && s[0] != Closing(obj) && s[0] != COMMA
    ensures if obj then s[0] == QUOTE else ValueToken(s[0]).Some?
  {
    if !obj {
      ValueStarts(s, room);
    }
  }

  /** The token that comes next. */
  lemma PeekRemaining(state: State, s: bytes, obj: bool, room: nat)
    requires Remaining(state, s, obj, room).Some?
    ensures var r := Remaining(state, s, obj, room).value;
            PeekToken(state, s).Some? &&
            var p := PeekToken(state, s).value;
            !state.InStr? &&
            if r.item == [] then p.token == (if obj then EndObject else EndArray) && AtClosing(obj, p.rest, r.rest)
            else AtEntry(obj, r.item, p.rest, r.rest, room) && (if obj then p.token.KeyToken? else IsValue(p.token))
  {
    hide ParseValue, AtEntryValue, ParseEntries, PeekToken, TokenAt;
    if Remaining(state, s, obj, room).value.item == [] {
      PeekLast(state, s, obj, room);
    } else if state == First(obj) {
      PeekFirst(s, obj, room);
    } else {
      PeekNext(s, obj, room);
    }
  }

  /** ... at the end of the container. */
  lemma PeekLast(state: State, s: bytes, obj: bool, room: nat)
    requires Remaining(state, s, obj, room).Some? && Remaining(state, s, obj, room).value.item == []
    ensures PeekToken(state, s).Some?
    ensures var p := PeekToken(state, s).value;
            p.token == (if obj then EndObject else EndArray) && AtClosing(obj, p.rest, Remaining(state, s, obj, room).value.rest)
  {
    hide ParseValue, ParseName;
    PeekOne(state, s);
    assert Trim(s) == [Closing(obj)] + Remaining(state, s, obj, room).value.rest;
  }

  /** ... after the opening bracket. */
  lemma PeekFirst(s: bytes, obj: bool, room: nat)
    requires Remaining(First(obj), s, obj, room).Some? && Remaining(First(obj), s, obj, room).value.item != []
    ensures PeekToken(First(obj), s).Some?
    ensures var p, r := PeekToken(First(obj), s).value, Remaining(First(obj), s, obj, room).value;
            AtEntry(obj, r.item, p.rest, r.rest, room) && (if obj then p.token.KeyToken? else IsValue(p.token))
  {
    hide ParseValue, ParseName, AtEntry, TokenAt, PeekToken, ParseEntries;
    var r := Remaining(First(obj), s, obj, room).value;
    PeekOne(First(obj), s);
    EntriesAt(obj, s, room);
    EntryToken(obj, r.item, Trim(s), r.rest, room);
    TokenOfEntry(First(obj), Trim(s)[0], obj);
  }

  /** ... after an entry. */
  lemma PeekNext(s: bytes, obj: bool, room: nat)
    requires var state := if obj then ObjComma else ArrComma; Remaining(state, s, obj, room).Some? && Remaining(state, s, obj, room).value.item != []
    ensures var state := if obj then ObjComma else ArrComma;
            PeekToken(state, s).Some? &&
            var p, r := PeekToken(state, s).value, Remaining(state, s, obj, room).value;
            AtEntry(obj, r.item, p.rest, r.rest, room) && (if obj then p.token.KeyToken? else IsValue(p.token))
  {
    hide ParseValue, ParseName, AtEntry, TokenAt, PeekToken, ParseEntries;
    var state := if obj then ObjComma else ArrComma;
    var r := Remaining(state, s, obj, room).value;
    var t := Trim(s);
    var u := Trim(t[1..]);
    PeekOne(state, s);
    EntriesAt(obj, t[1..], room);
    EntryToken(obj, r.item, u, r.rest, room);
    PeekOne(AfterSeparator(state), t[1..]);
    TokenOfEntry(AfterSeparator(state), u[0], obj);
  }

  lemma TokenOfEntry(state: State, b: byte, obj: bool)
    requires state == First(obj) || state == (if obj then ObjKey else ArrValue)
    requires b != Closing(obj) && b != COMMA && (if obj then b == QUOTE else ValueToken(b).Some?)
    ensures TokenAt(state, b).Some? && !IsSeparator(state, b)
    ensures if obj then TokenAt(state, b).value.KeyToken? else IsValue(TokenAt(state, b).value)
  {
    if !obj {
      ValueTokenIsValue(b);
    }
  }

  /** After the value, the rest of the entries remain. */
  lemma RemainingAfter(obj: bool, es: seq<Entry>, s: bytes, rest: bytes, room: nat)
    requires AfterEntry(obj, es, s, rest, room)
    ensures Remaining(if obj then ObjComma else ArrComma, s, obj, room) == Some(Scanned(es[1..], rest))
  {
  }

  /** After the name comes the colon. */
  lemma NameThenColon(es: seq<Entry>, s: bytes, rest: bytes, room: nat)
    requires AtEntry(true, es, s, rest, room)
    ensures es != [] && s != [] && s[0] == QUOTE && ScanChars(s[1..]).Some?
    ensures var n := ScanChars(s[1..]).value;
            es[0].name.Some? && es[0].name.value.chars == n.item && AtEntryColon(es, n.rest, rest, room)
  {
    var n := ScanChars(s[1..]).value;
    ColonAnyName(n.item, n.rest);
  }

  /** After the colon comes the value. */
  lemma PeekColonValue(es: seq<Entry>, s: bytes, rest: bytes, room: nat)
    requires AtEntryColon(es, s, rest, room)
    ensures PeekToken(ObjColon, s).Some? &&
            var p := PeekToken(ObjColon, s).value;
            p.state == ObjValue && IsValue(p.token) && AtEntryValue(true, es, p.rest, rest, room)
  {
    var v := ParseColon([], s).value.rest;
    PeekOne(ObjColon, s);
    var t := Trim(s);
    PeekOne(ObjValue, t[1..]);
    ValueStarts(v, room);
    ValueTokenIsValue(v[0]);
  }

  // ---------- lengths ----------

  lemma ClosingLength(obj: bool, s: bytes, rest: bytes)
    requires AtClosing(obj, s, rest)
    ensures |s| == 1 + |rest|
  {
  }

  lemma AfterLength(obj: bool, es: seq<Entry>, s: bytes, rest: bytes, room: nat)
    requires AfterEntry(obj, es, s, rest, room)
    ensures |s| == |es[0].post| + |TailBytes(obj, es[1..])| + |rest|
  {
    ParseTailSound(obj, s, room);
  }

  lemma ValueLength(obj: bool, es: seq<Entry>, s: bytes, rest: bytes, room: nat)
    requires AtEntryValue(obj, es, s, rest, room)
    ensures |s| == |SynBytes(es[0].value)| + |es[0].post| + |TailBytes(obj, es[1..])| + |rest|
  {
    ParseValueSound(s, room);
    AfterLength(obj, es, ParseValue(s, room).value.rest, rest, room);
  }

  lemma EntryLength(obj: bool, es: seq<Entry>, s: bytes, rest: bytes, room: nat)
    requires AtEntry(obj, es, s, rest, room)
    ensures |s| == |NameBytes(es[0].name)| + |SynBytes(es[0].value)| + |es[0].post| + |TailBytes(obj, es[1..])| + |rest|
  {
    ParseNameSound(obj, s);
    ValueLength(obj, es, ParseName(obj, s).value.rest, rest, room);
  }
}
