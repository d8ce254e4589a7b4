/** Stepping through the entries of a container. The ghost arguments are the entries still to come and the input after
    the container; what the steps promise, they promise when the input has these entries. */
module Stepping {
  import opened Bytes
  import opened StringGrammar
  import opened Grammar
  import opened Reader
  import opened Automaton
  import opened Compare
  import opened Paths
  import opened Results
  import opened Sources
  import opened TreeEdit
  import opened Parsing
  import opened Lists
  import opened Seeking

  /** Before the name, or element, of the first of `es`, or before the closing bracket. */
  ghost predicate InList(p: Parser, obj: bool, es: seq<Entry>, rest: bytes)
    requires p.Valid()
    reads p, p.src, p.stack, p.stack.bits
  {
    Top(p.Levels()) == Some(obj) && Remaining(p.state, p.Rest(), obj, p.Room()) == Some(Scanned(es, rest))
  }

  /** Before the value of the first of `es`: after the name, or at the value. */
  ghost predicate InEntry(p: Parser, obj: bool, es: seq<Entry>, rest: bytes)
    requires p.Valid()
    reads p, p.src, p.stack, p.stack.bits
  {
    Top(p.Levels()) == Some(obj) &&
    if p.state.ObjColon? then obj && AtEntryColon(es, p.Rest(), rest, p.Room())
    else PeekedValue(p) && AtEntryValue(obj, es, p.Rest(), rest, p.Room())
  }

  /** A value was peeked. */
  ghost predicate PeekedValue(p: Parser)
    requires p.Valid()
    reads p, p.src, p.stack, p.stack.bits
  {
    p.Rest() != [] && ValueToken(p.Rest()[0]).Some? && p.stash == [] &&
    AtToken(Peeked(ValueToken(p.Rest()[0]).value, p.state, p.Rest()), p.Levels())
  }

  /** What was peeked, among the entries. */
  ghost predicate EntryPeeked(p: Parser, t: Token, obj: bool, es: seq<Entry>, rest: bytes)
    requires p.Valid()
    reads p, p.src, p.stack, p.stack.bits
  {
    if es == [] then t == (if obj then EndObject else EndArray) && AtClosing(obj, p.Rest(), rest)
    else AtEntry(obj, es, p.Rest(), rest, p.Room()) && (if obj then t.KeyToken? else IsValue(t) && InEntry(p, obj, es, rest))
  }

  /** Peeks: at the next entry, at the closing bracket, or at the value after a name. */
  method PeekEntry(p: Parser, ghost obj: bool, ghost es: seq<Entry>, ghost rest: bytes) returns (r: Res<Token>)
    requires p.Valid()
    modifies p`state, p`stash, p.src`pos, p.src`end, p.src`pending, p.src`out
    ensures p.Valid()
    ensures old(InList(p, obj, es, rest)) ==> r.Ok? && EntryPeeked(p, r.value, obj, es, rest)
    ensures old(p.state.ObjColon? && InEntry(p, obj, es, rest)) ==>
              r.Ok? && IsValue(r.value) && p.state == ObjValue && InEntry(p, obj, es, rest)
    ensures old(PeekedValue(p)) ==> r.Ok? && IsValue(r.value) && p.Rest() == old(p.Rest()) && p.state == old(p.state)
    ensures r.Ok? ==> AtToken(Peeked(r.value, p.state, p.Rest()), p.Levels()) && p.stash == [] && |p.Rest()| <= |old(p.Rest())|
    ensures r.Ok? && !r.value.Eof? ==> p.src.Offset() < p.src.end
    ensures r.Ok? ==> (p.state.ArrFirst? <==> old(p.state).ArrFirst?)
  {
    hide AtToken, PeekToken, TokenAt, Remaining, AtEntry, AtEntryValue, AtEntryColon, AtClosing, ParseValue, ParseName, Trim, ScanChars;
    ghost var s, room, levels, state := p.Rest(), p.Room(), p.Levels(), p.state;
    PeekFromShortens(state, s, levels);
    PeekKeepsFirst(state, s, levels);
    if Remaining(state, s, obj, room).Some? {
      PeekRemaining(state, s, obj, room);
    }
    if state.ObjColon? && AtEntryColon(es, s, rest, room) {
      PeekColonValue(es, s, rest, room);
    }
    if PeekedValue(p) {
      PeekedAgain(state, s, levels);
    }
    r := p.Peek();
    if r.Ok? {
      PeekedFacts(Peeked(r.value, p.state, p.Rest()), levels);
    }
    ElementIsValue(es, p.Rest(), rest, room);
  }

  lemma PeekedAgain(state: State, s: bytes, levels: seq<bool>)
    requires s != [] && ValueToken(s[0]).Some? && AtToken(Peeked(ValueToken(s[0]).value, state, s), levels)
    ensures PeekFrom(state, s, levels) == Some(Peeked(ValueToken(s[0]).value, state, s)) && IsValue(ValueToken(s[0]).value)
  {
    hide PeekToken, AtToken;
    ValueTokenIsValue(s[0]);
    TokenFactsOf(Peeked(ValueToken(s[0]).value, state, s), levels);
    PeekAgain(Peeked(ValueToken(s[0]).value, state, s), levels);
  }

  lemma PeekKeepsFirst(state: State, s: bytes, levels: seq<bool>)
    ensures PeekFrom(state, s, levels).Some? ==> (PeekFrom(state, s, levels).value.state.ArrFirst? <==> state.ArrFirst?)
  {
    hide TokenAt, ScanChars, Trim;
  }

  lemma PeekedFacts(q: Peeked, levels: seq<bool>)
    requires AtToken(q, levels)
    ensures !q.state.ObjColon?
    ensures IsValue(q.token) ==> q.rest != [] && ValueToken(q.rest[0]) == Some(q.token)
  {
    if !q.token.Eof? {
      TokenFacts(q, levels);
    }
  }

  lemma ElementIsValue(es: seq<Entry>, s: bytes, rest: bytes, room: nat)
    ensures AtEntry(false, es, s, rest, room) ==> AtEntryValue(false, es, s, rest, room)
  {
  }

  /** Reads the peeked name and compares it. */
  method CmpName(p: Parser, seg: Seg, ghost es: seq<Entry>, ghost rest: bytes) returns (r: Res<Ordering>)
    requires p.Valid() && AtToken(Peeked(KeyToken, p.state, p.Rest()), p.Levels())
    modifies p`state, p`stash, p.src`pos, p.src`end, p.src`pending, p.src`out, p.stack`depth, p.stack.bits
    ensures p.Valid()
    ensures r.Ok? ==> p.state == ObjColon && p.stash == [] && |p.Rest()| < |old(p.Rest())| && p.Levels() == old(p.Levels())
    ensures old(AtEntry(true, es, p.Rest(), rest, p.Room())) ==>
              es != [] && r == Ok(Cmp(NameText(es[0]), SegName(seg))) && InEntry(p, true, es, rest)
  {
    hide Cmp, SegName, ScanChars, CharsText, AtEntry, AtEntryValue, AtEntryColon, KeyStart;
    ghost var s, room, levels, state := p.Rest(), p.Room(), p.Levels(), p.state;
    KeyHere(Peeked(KeyToken, state, s), levels, room);
    if AtEntry(true, es, s, rest, room) {
      NameThenColon(es, s, rest, room);
    }
    r := CmpSegKey(p, seg);
  }

  lemma KeyHere(q: Peeked, levels: seq<bool>, room: nat)
    requires AtToken(q, levels) && q.token.KeyToken?
    ensures q.rest != [] && KeyStart(q.state, q.rest, levels, room) == Some(q.rest[1..])
  {
    TokenFactsOf(q, levels);
    PeekAgain(q, levels);
  }

  /** Skips the value of an entry. */
  method SkipEntry(p: Parser, obj: bool, ghost es: seq<Entry>, ghost rest: bytes) returns (r: Res<()>)
    requires p.Valid()
    modifies p`state, p`stash, p.src`pos, p.src`end, p.src`pending, p.src`out, p.stack`depth, p.stack.bits
    ensures p.Valid()
    ensures r.Ok? ==> p.stash == [] && p.Levels() == old(p.Levels()) && |p.Rest()| < |old(p.Rest())|
    ensures old(InEntry(p, obj, es, rest)) ==>
              r.Ok? && es != [] && InList(p, obj, es[1..], rest) && AfterEntry(obj, es, p.Rest(), rest, p.Room())
  {
    hide AtToken, PeekToken, TokenAt, Remaining, AtEntry, AtEntryValue, AtEntryColon, AfterEntry, ParseValue, ValueDone, SkipFrom;
    ghost var s, room, levels, state := p.Rest(), p.Room(), p.Levels(), p.state;
    SkipShortens(state, s, levels, room);
    if InEntry(p, obj, es, rest) {
      SkipInEntry(state, s, levels, obj, es, rest, room);
    }
    r := p.SkipValue();
    if r.Ok? && AfterEntry(obj, es, p.Rest(), rest, room) {
      RemainingAfter(obj, es, p.Rest(), rest, room);
    }
  }

  lemma SkipShortens(state: State, s: bytes, levels: seq<bool>, room: nat)
    ensures SkipFrom(state, s, levels, room).Some? ==> |SkipFrom(state, s, levels, room).value.rest| < |s|
  {
    PeekFromShortens(state, s, levels);
  }

  /** Where skipping the value of an entry ends. */
  lemma SkipInEntry(state: State, s: bytes, levels: seq<bool>, obj: bool, es: seq<Entry>, rest: bytes, room: nat)
    requires if state.ObjColon? then obj && AtEntryColon(es, s, rest, room) else AtEntryValue(obj, es, s, rest, room)
    requires Fits(state, levels) && Top(levels) == Some(obj)
    requires !state.ObjColon? ==> s != [] && ValueToken(s[0]).Some? && AtToken(Peeked(ValueToken(s[0]).value, state, s), levels)
    ensures es != [] && SkipFrom(state, s, levels, room).Some?
    ensures var k := SkipFrom(state, s, levels, room).value;
            AfterEntry(obj, es, k.rest, rest, room) && k.item == if obj then ObjComma else ArrComma
  {
    hide ParseValue, AfterEntry;
    if state.ObjColon? {
      PeekColonValue(es, s, rest, room);
    } else {
      ValueTokenIsValue(s[0]);
      SkipHere(Peeked(ValueToken(s[0]).value, state, s), levels, room);
    }
  }
}
