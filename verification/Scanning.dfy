/** Decoding strings and scanning numbers from a source, one chunk at a time. */
module Scanning {
  import opened Bytes
  import opened Utf8Coding
  import opened StringGrammar
  import opened Numbers
  import opened Results
  import opened Sources
  import opened Sinks

  /** The next byte, not consumed. */
  method PeekByte(src: Source) returns (b: Option<byte>)
    requires src.Valid()
    modifies src`pos, src`end, src`pending, src`out
    ensures src.Valid() && src.Offset() == old(src.Offset())
    ensures b == if src.Rest() == [] then None else Some(src.Rest()[0])
    ensures b.Some? ==> src.Offset() < src.end
  {
    var buf := src.Fill();
    if buf == [] {
      return None;
    }
    assert buf[0] == src.Rest()[0];
    return Some(buf[0]);
  }

  method WsRun(buf: bytes) returns (i: nat)
    ensures i <= |buf| && AllWs(buf[..i]) && (i < |buf| ==> !IsWs(buf[i]))
  {
    i := 0;
    while i < |buf| && IsWs(buf[i])
      invariant i <= |buf| && AllWs(buf[..i])
    {
      i := i + 1;
    }
  }

  method Hex4Digits(src: Source) returns (r: Res<int>)
    requires src.Valid()
    modifies src`pos, src`end, src`pending, src`out
    ensures src.Valid()
    ensures r.Ok? <==> |old(src.Rest())| >= 4 && IsHex4(old(src.Rest())[..4])
    ensures r.Ok? ==> r.value == Hex4(old(src.Rest())[..4]) && src.Rest() == old(src.Rest())[4..]
  {
    ghost var s := src.Rest();
    var v := 0;
    for k := 0 to 4
      invariant src.Valid() && |s| >= k && src.Rest() == s[k..]
      invariant forall i :: 0 <= i < k ==> HexDigit(s[i]).Some?
      invariant v == HexPrefix(s, k)
    {
      var b := PeekByte(src);
      if b.None? {
        return Err(UnexpectedEof);
      }
      assert b.value == s[k];
      var d := HexDigit(b.value);
      if d.None? {
        if |s| >= 4 {
          assert s[..4][k] == s[k];
        }
        return Err(InvalidEscape);
      }
      src.Consume(1);
      v := v * 16 + d.value;
    }
    HexFour(s);
    r := Ok(v);
  }

  function HexPrefix(s: bytes, k: nat): int
    requires k <= |s| && forall i :: 0 <= i < k ==> HexDigit(s[i]).Some?
  {
    if k == 0 then 0 else HexPrefix(s, k - 1) * 16 + HexDigit(s[k - 1]).value
  }

  lemma HexFour(s: bytes)
    requires |s| >= 4 && forall i :: 0 <= i < 4 ==> HexDigit(s[i]).Some?
    ensures IsHex4(s[..4]) && HexPrefix(s, 4) == Hex4(s[..4])
  {
    assert HexPrefix(s, 1) == HexDigit(s[0]).value;
    assert HexPrefix(s, 3) == HexPrefix(s, 2) * 16 + HexDigit(s[2]).value;
  }

  /** The second half of a surrogate pair. */
  method LowSurrogate(src: Source) returns (r: Res<int>)
    requires src.Valid()
    modifies src`pos, src`end, src`pending, src`out
    ensures src.Valid()
    ensures var s := old(src.Rest());
            r.Ok? <==> |s| >= 6 && s[0] == BACKSLASH && s[1] == LOWER_U && IsHex4(s[2..6]) && 0xDC00 <= Hex4(s[2..6]) <= 0xDFFF
    ensures r.Ok? ==> r.value == Hex4(old(src.Rest())[2..6]) && src.Rest() == old(src.Rest())[6..]
  {
    ghost var s := src.Rest();
    var b := PeekByte(src);
    if b != Some(BACKSLASH) {
      return Err(InvalidUnicode);
    }
    src.Consume(1);
    b := PeekByte(src);
    if b != Some(LOWER_U) {
      return Err(InvalidUnicode);
    }
    src.Consume(1);
    assert src.Rest() == s[2..];
    assert |s| >= 6 ==> s[2..][..4] == s[2..6];
    var lo :- Hex4Digits(src);
    assert s[2..][4..] == s[6..];
    if !(0xDC00 <= lo <= 0xDFFF) {
      return Err(InvalidUnicode);
    }
    r := Ok(lo);
  }

  /** `u` and what follows it. */
  method UnicodeEscape(src: Source) returns (r: Res<int>)
    requires src.Valid() && src.Rest() != [] && src.Rest()[0] == LOWER_U && src.Offset() < src.end
    modifies src`pos, src`end, src`pending, src`out
    ensures src.Valid()
    ensures match ScanEscape(old(src.Rest()))
            case None => r.Err?
            case Some(c) => r == Ok(CharCp(c.item)) && src.Rest() == c.rest
  {
    hide IsHex4, Hex4;
    ghost var s := src.Rest();
    src.Consume(1);
    assert |s| >= 5 ==> s[1..][..4] == s[1..5];
    var hi :- Hex4Digits(src);
    assert s[1..][4..] == s[5..];
    if 0xD800 <= hi <= 0xDBFF {
      assert |s| >= 11 ==> s[5..][2..6] == s[7..11];
      var lo :- LowSurrogate(src);
      assert s[5..][6..] == s[11..];
      return Ok(0x10000 + (hi - 0xD800) * 0x400 + (lo - 0xDC00));
    }
    if 0xDC00 <= hi <= 0xDFFF {
      return Err(InvalidUnicode);
    }
    r := Ok(hi);
  }

  /** Decodes an escape sequence, after the backslash. */
  method DecodeEscape(src: Source) returns (r: Res<int>)
    requires src.Valid()
    modifies src`pos, src`end, src`pending, src`out
    ensures src.Valid()
    ensures match ScanEscape(old(src.Rest()))
            case None => r.Err?
            case Some(c) => r == Ok(CharCp(c.item)) && src.Rest() == c.rest
  {
    var e := PeekByte(src);
    if e.None? {
      return Err(UnexpectedEof);
    }
    if e.value == LOWER_U {
      r := UnicodeEscape(src);
      return;
    }
    var c := Unescaped(e.value);
    if c.None? {
      return Err(InvalidEscape);
    }
    src.Consume(1);
    r := Ok(c.value);
  }

  lemma TableCases(s: bytes)
    requires s != []
    ensures LeadOf(s[0]).None? ==> !TableAccepts(s)
    ensures LeadOf(s[0]).Some? ==>
              var l := LeadOf(s[0]).value;
              (TableAccepts(s) <==> l.len <= |s| && forall k :: 1 <= k < l.len ==> InRange(l, k, s[k]))
  {
  }

  /** Validates and copies one multi-byte character. */
  method DecodeUtf8(src: Source) returns (r: Res<bytes>)
    requires src.Valid() && src.Rest() != []
    modifies src`pos, src`end, src`pending, src`out
    ensures src.Valid()
    ensures r.Ok? <==> TableAccepts(old(src.Rest()))
    ensures r.Ok? ==> var n := LeadOf(old(src.Rest())[0]).value.len;
                      r.value == old(src.Rest())[..n] && src.Rest() == old(src.Rest())[n..]
  {
    hide LeadOf, InRange, TableAccepts;
    ghost var s := src.Rest();
    TableCases(s);
    var b0 := PeekByte(src);
    var lead := LeadOf(b0.value);
    if lead.None? {
      return Err(InvalidUnicode);
    }
    src.Consume(1);
    var rest := TakeContinuations(src, lead.value, s);
    r := if rest.Ok? then Ok([b0.value] + rest.value) else Err(rest.kind);
    assert r.Ok? ==> s[..lead.value.len] == [s[0]] + s[1..lead.value.len];
  }

  /** Copies the bytes after the first one; the character, if they are in range. */
  method TakeContinuations(src: Source, lead: Lead, ghost s: bytes) returns (r: Res<bytes>)
    requires src.Valid() && s != [] && src.Rest() == s[1..] && LeadOf(s[0]) == Some(lead)
    modifies src`pos, src`end, src`pending, src`out
    ensures src.Valid()
    ensures r.Ok? <==> lead.len <= |s| && forall k :: 1 <= k < lead.len ==> InRange(lead, k, s[k])
    ensures r.Ok? ==> r.value == s[1..lead.len] && src.Rest() == s[lead.len..]
  {
    hide LeadOf, InRange;
    var out := [];
    for k := 1 to lead.len
      invariant src.Valid() && |s| >= k && src.Rest() == s[k..] && out == s[1..k]
      invariant forall i :: 1 <= i < k ==> InRange(lead, i, s[i])
    {
      var b :- Continuation(src, lead, k);
      out := out + [b];
    }
    r := Ok(out);
  }

  /** Byte `k` of a multi-byte character. */
  method Continuation(src: Source, lead: Lead, k: nat) returns (r: Res<byte>)
    requires src.Valid()
    modifies src`pos, src`end, src`pending, src`out
    ensures src.Valid()
    ensures r.Ok? <==> old(src.Rest()) != [] && InRange(lead, k, old(src.Rest())[0])
    ensures r.Ok? ==> r.value == old(src.Rest())[0] && src.Rest() == old(src.Rest())[1..]
  {
    var b := PeekByte(src);
    if b.None? {
      r := Err(UnexpectedEof);
    } else if !InRange(lead, k, b.value) {
      r := Err(InvalidUnicode);
    } else {
      src.Consume(1);
      r := Ok(b.value);
    }
  }

  // ---------- strings ----------

  predicate IsPlain(b: byte) {
    b != QUOTE && b != BACKSLASH && 0x20 <= b < 0x80
  }

  function PlainChars(s: bytes): seq<StrChar> {
    if s == [] then [] else [Plain(s[0])] + PlainChars(s[1..])
  }

  lemma {:induction false} PlainRun(s: bytes)
    requires forall i :: 0 <= i < |s| ==> IsPlain(s[i])
    ensures WfChars(PlainChars(s)) && CharsBytes(PlainChars(s)) == s && CharsText(PlainChars(s)) == s
    ensures s != [] ==> PlainChars(s) != []
  {
    if s != [] {
      PlainRun(s[1..]);
      assert PlainChars(s)[1..] == PlainChars(s[1..]);
      assert s == [s[0]] + s[1..];
      assert IsPlain(s[0]);
    }
  }

  datatype Outcome = More | Closed | Full | Failed(kind: ErrorKind)

  /** What one turn of the decoding loop did: `cs` was consumed, and is in the sink or in the stash. */
  ghost predicate Turn(o: Outcome, cs: seq<StrChar>, stash: bytes, before: bytes, after: bytes, room: nat)
  {
    WfChars(cs) && |stash| <= 4 &&
    match o
    case More => cs != [] && stash == [] && before == CharsBytes(cs) + after
    case Closed => cs == [] && stash == [] && before == [QUOTE] + after
    case Full =>
      before == CharsBytes(cs) + after &&
      if stash == [] then room == 0 && cs == [] && after != [] && after[0] != QUOTE
      else room < |stash| && |cs| == 1 && stash == Utf8(CharCp(cs[0]))
    case Failed(_) => cs == [] && stash == [] && ScanChars(before).None?
  }

  /** One character that is not plain. */
  method DecodeOne(src: Source, b: byte) returns (r: Res<bytes>, ghost c: StrChar)
    requires src.Valid() && src.Rest() != [] && src.Rest()[0] == b && src.Offset() < src.end
    requires b != QUOTE && !IsPlain(b)
    modifies src`pos, src`end, src`pending, src`out
    ensures src.Valid()
    ensures ScanChar(old(src.Rest())).None? ==> r.Err?
    ensures ScanChar(old(src.Rest())).Some? ==>
              ScanChar(old(src.Rest())).value == Scanned(c, src.Rest()) && r == Ok(Utf8(CharCp(c)))
  {
    ghost var s := src.Rest();
    c := if ScanChar(s).Some? then ScanChar(s).value.item else Esc(QUOTE);
    if b == BACKSLASH {
      src.Consume(1);
      var cp :- DecodeEscape(src);
      return Ok(Utf8(cp)), c;
    }
    if b < 0x20 {
      return Err(ControlCharacter), c;
    }
    if TableAccepts(s) {
      TableSound(s);
    }
    r := DecodeUtf8(src);
  }

  method PlainPrefix(buf: bytes, lim: nat) returns (i: nat)
    requires lim <= |buf|
    ensures i <= lim && forall k :: 0 <= k < i ==> IsPlain(buf[..i][k])
    ensures i < lim ==> !IsPlain(buf[i])
  {
    i := 0;
    while i < lim && IsPlain(buf[i])
      invariant i <= lim && forall k :: 0 <= k < i ==> IsPlain(buf[k])
    {
      i := i + 1;
    }
  }

  /** Consumes the plain bytes at hand, at most `room`; if there are none, tells the next byte. */
  method TakePlain(src: Source, room: nat) returns (run: bytes, next: Option<byte>)
    requires src.Valid()
    modifies src`pos, src`end, src`pending, src`out
    ensures src.Valid() && old(src.Rest()) == run + src.Rest()
    ensures |run| <= room && forall k :: 0 <= k < |run| ==> IsPlain(run[k])
    ensures run == [] ==> next == if src.Rest() == [] then None else Some(src.Rest()[0])
    ensures run == [] && next.Some? ==> src.Offset() < src.end && (room > 0 ==> !IsPlain(next.value))
  {
    hide IsPlain;
    ghost var s := src.Rest();
    var buf := src.Fill();
    run, next := [], None;
    if buf != [] {
      var i := PlainPrefix(buf, Min(|buf|, room));
      run, next := buf[..i], Some(buf[0]);
      assert run == s[..i];
      src.Consume(i);
    }
  }

  method DecodeTurn(src: Source, sink: Sink) returns (o: Outcome, stash: bytes, ghost cs: seq<StrChar>)
    requires src.Valid() && sink.Valid() && src !in sink.Repr
    modifies src`pos, src`end, src`pending, src`out, sink.Repr
    ensures src.Valid() && sink.Valid()
    ensures Turn(o, cs, stash, old(src.Rest()), src.Rest(), sink.Room())
    ensures sink.fed + stash == old(sink.fed) + CharsText(cs)
    ensures sink.buffer == null ==> !o.Full?
    ensures old(sink.Fits()) ==> sink.Fits()
  {
    stash, cs := [], [];
    Empty(sink.fed);
    Empty(src.Rest());
    var room := sink.Room();
    var run, next := TakePlain(src, room);
    if run != [] {
      cs := PlainChars(run);
      sink.Put(run);
      PlainTurn(run, src.Rest(), sink.Room());
      Empty(sink.fed);
      return More, stash, cs;
    }
    if next.None? {
      return Failed(UnexpectedEof), stash, cs;
    }
    o, stash, cs := DecodeSpecial(src, sink, next.value, room);
  }

  /** At a byte that is not plain, or with no room for it. */
  method DecodeSpecial(src: Source, sink: Sink, b: byte, room: nat) returns (o: Outcome, stash: bytes, ghost cs: seq<StrChar>)
    requires src.Valid() && sink.Valid() && src !in sink.Repr && room == sink.Room()
    requires src.Rest() != [] && src.Rest()[0] == b && src.Offset() < src.end && (room > 0 ==> !IsPlain(b))
    modifies src`pos, src`end, src`pending, src`out, sink.Repr
    ensures src.Valid() && sink.Valid()
    ensures Turn(o, cs, stash, old(src.Rest()), src.Rest(), sink.Room())
    ensures sink.fed + stash == old(sink.fed) + CharsText(cs)
    ensures sink.buffer == null ==> !o.Full?
    ensures old(sink.Fits()) ==> sink.Fits()
  {
    stash, cs := [], [];
    Empty(sink.fed);
    Empty(src.Rest());
    if b == QUOTE {
      ghost var s := src.Rest();
      src.Consume(1);
      assert s == [QUOTE] + src.Rest();
      return Closed, stash, cs;
    }
    if room == 0 {
      return Full, stash, cs;
    }
    o, stash, cs := DecodeOther(src, sink, b);
  }

  lemma PlainTurn(run: bytes, after: bytes, room: nat)
    requires run != [] && forall k :: 0 <= k < |run| ==> IsPlain(run[k])
    ensures Turn(More, PlainChars(run), [], run + after, after, room) && CharsText(PlainChars(run)) == run
  {
    PlainRun(run);
  }

  lemma Empty(a: bytes)
    ensures a + [] == a && [] + a == a && a + CharsText([]) == a && CharsBytes([]) + a == a
  {
  }

  method DecodeOther(src: Source, sink: Sink, b: byte) returns (o: Outcome, stash: bytes, ghost cs: seq<StrChar>)
    requires src.Valid() && sink.Valid() && src !in sink.Repr
    requires src.Rest() != [] && src.Rest()[0] == b && src.Offset() < src.end && b != QUOTE && !IsPlain(b)
    modifies src`pos, src`end, src`pending, src`out, sink.Repr
    ensures src.Valid() && sink.Valid()
    ensures Turn(o, cs, stash, old(src.Rest()), src.Rest(), sink.Room())
    ensures sink.fed + stash == old(sink.fed) + CharsText(cs)
    ensures sink.buffer == null ==> !o.Full?
    ensures old(sink.Fits()) ==> sink.Fits()
  {
    hide CharsBytes, CharsText, ScanChars, Utf8, CharBytes;
    ghost var s := src.Rest();
    ghost var fed := sink.fed;
    NoChars();
    NoChar(s);
    stash, cs := [], [];
    assert fed + [] == fed;
    ghost var c;
    var tmp;
    tmp, c := DecodeOne(src, b);
    if tmp.Err? {
      return Failed(tmp.kind), stash, cs;
    }
    ScanCharSound(s);
    OneChar(c);
    cs := [c];
    if |tmp.value| <= sink.Room() {
      sink.Put(tmp.value);
      assert sink.fed + stash == fed + CharsText(cs);
      return More, stash, cs;
    }
    stash := tmp.value;
    return Full, stash, cs;
  }

  lemma NoChar(s: bytes)
    ensures s != [] && s[0] != QUOTE && ScanChar(s).None? ==> ScanChars(s).None?
  {
  }

  lemma OneChar(c: StrChar)
    ensures CharsBytes([c]) == CharBytes(c) && CharsText([c]) == Utf8(CharCp(c))
  {
    assert CharsBytes([c][1..]) == [] && CharsText([c][1..]) == [];
  }

  /** The stash is the last character that was consumed; what it was before, if there is none. */
  predicate LastStashed(stash0: bytes, cs: seq<StrChar>, stash: bytes) {
    stash == if cs == [] then stash0 else Utf8(CharCp(cs[|cs| - 1]))
  }

  /** Decodes string content, after the opening quote, into `sink`: true when the closing quote was consumed, false
      when the sink is full. It stops only between characters; one that does not fit goes to the stash, and comes
      first on the next call. `cs` are the characters consumed. */
  method Decode(src: Source, sink: Sink, stash0: bytes) returns (r: Res<bool>, stash: bytes, ghost cs: seq<StrChar>)
    requires src.Valid() && sink.Valid() && src !in sink.Repr && |stash0| <= 4
    modifies src`pos, src`end, src`pending, src`out, sink.Repr
    ensures src.Valid() && sink.Valid() && |stash| <= 4 && WfChars(cs)
    ensures r.Ok? && r.value ==>
              stash == [] && ScanChars(old(src.Rest())) == Some(Scanned(cs, src.Rest())) &&
              sink.fed == old(sink.fed) + stash0 + CharsText(cs)
    ensures r.Ok? && !r.value ==>
              sink.buffer != null && old(src.Rest()) == CharsBytes(cs) + src.Rest() &&
              sink.fed + stash == old(sink.fed) + stash0 + CharsText(cs) &&
              if stash == [] then sink.Room() == 0 && src.Rest() != [] && src.Rest()[0] != QUOTE
              else sink.Room() < |stash| && LastStashed(stash0, cs, stash)
    ensures r.Err? ==> stash == [] && ScanChars(old(src.Rest())).None?
    ensures old(sink.Fits()) ==> sink.Fits()
  {
    hide CharsBytes, CharsText, ScanChars, WfChars;
    stash, cs := stash0, [];
    NoChars();
    Empty(sink.fed + stash0);
    Empty(src.Rest());
    if |stash0| > 0 && sink.Room() < |stash0| {
      r := Ok(false);
    } else {
      if |stash0| > 0 {
        sink.Put(stash0);
      } else {
        Empty(sink.fed);
      }
      r, stash, cs := DecodeRest(src, sink);
    }
  }

  /** The same, with nothing in the stash. */
  method DecodeRest(src: Source, sink: Sink) returns (r: Res<bool>, stash: bytes, ghost cs: seq<StrChar>)
    requires src.Valid() && sink.Valid() && src !in sink.Repr
    modifies src`pos, src`end, src`pending, src`out, sink.Repr
    ensures src.Valid() && sink.Valid() && |stash| <= 4 && WfChars(cs)
    ensures r.Ok? && r.value ==>
              stash == [] && ScanChars(old(src.Rest())) == Some(Scanned(cs, src.Rest())) &&
              sink.fed == old(sink.fed) + CharsText(cs)
    ensures r.Ok? && !r.value ==>
              sink.buffer != null && old(src.Rest()) == CharsBytes(cs) + src.Rest() &&
              sink.fed + stash == old(sink.fed) + CharsText(cs) &&
              if stash == [] then sink.Room() == 0 && src.Rest() != [] && src.Rest()[0] != QUOTE
              else sink.Room() < |stash| && cs != [] && LastStashed([], cs, stash)
    ensures r.Err? ==> stash == [] && ScanChars(old(src.Rest())).None?
    ensures old(sink.Fits()) ==> sink.Fits()
  {
    hide CharsBytes, CharsText, ScanChars, WfChars, Utf8;
    ghost var s, target, fits := src.Rest(), sink.fed, sink.Fits();
    stash, cs := [], [];
    NoChars();
    Empty(target);
    Empty(s);
    var o := More;
    while o.More?
      invariant src.Valid() && sink.Valid() && WfChars(cs) && (fits ==> sink.Fits())
      invariant o.More? ==> stash == [] && s == CharsBytes(cs) + src.Rest() && sink.fed == target + CharsText(cs)
      invariant o.Closed? ==> stash == [] && ScanChars(s) == Some(Scanned(cs, src.Rest())) && sink.fed == target + CharsText(cs)
      invariant o.Failed? ==> stash == [] && ScanChars(s).None?
      invariant o.Full? ==> s == CharsBytes(cs) + src.Rest() && sink.fed + stash == target + CharsText(cs)
      invariant o.Full? ==> sink.buffer != null && FullAt(cs, stash, src.Rest(), sink.Room())
      decreases o.More?, |src.Rest()|
    {
      ghost var more, before, fed := [], src.Rest(), sink.fed;
      o, stash, more := DecodeTurn(src, sink);
      Extend(s, target, fed, cs, o, more, stash, before, src.Rest(), sink.Room());
      Empty(sink.fed);
      cs := cs + more;
    }
    r := match o case Closed => Ok(true) case Full => Ok(false) case Failed(kind) => Err(kind);
  }

  /** Where decoding stops for lack of room. */
  predicate FullAt(cs: seq<StrChar>, stash: bytes, after: bytes, room: nat) {
    |stash| <= 4 &&
    if stash == [] then room == 0 && after != [] && after[0] != QUOTE
    else room < |stash| && cs != [] && stash == Utf8(CharCp(cs[|cs| - 1]))
  }

  lemma NoChars()
    ensures WfChars([]) && CharsBytes([]) == [] && CharsText([]) == []
  {
  }

  /** One turn more. */
  lemma Extend(s: bytes, target: bytes, fed: bytes, cs: seq<StrChar>, o: Outcome, more: seq<StrChar>, stash: bytes,
               before: bytes, after: bytes, room: nat)
    requires WfChars(cs) && s == CharsBytes(cs) + before && fed == target + CharsText(cs)
    requires Turn(o, more, stash, before, after, room)
    ensures fed + CharsText(more) == target + CharsText(cs + more)
    ensures o.Failed? ==> ScanChars(s).None?
    ensures o.Closed? ==> ScanChars(s) == Some(Scanned(cs + more, after))
    ensures o.More? || o.Full? ==> s == CharsBytes(cs + more) + after
    ensures o.More? ==> |after| < |before|
    ensures o.Full? ==> FullAt(cs + more, stash, after, room)
    ensures o.Closed? || o.Failed? || o.More? ==> stash == []
    ensures WfChars(cs + more)
  {
    CharsAppend(cs, more);
    Cat3(target, CharsText(cs), CharsText(more));
    match o {
      case Failed(_) =>
        ScanCharsSplit(cs, before);
      case Closed =>
        ScanCharsSplit(cs, before);
        assert before[0] == QUOTE && before[1..] == after;
        assert ScanChars(before) == Some(Scanned([], after));
      case _ =>
        Cat3(CharsBytes(cs), CharsBytes(more), after);
        if o.More? {
          NonemptyBytes(more);
        }
    }
  }

  lemma NonemptyBytes(cs: seq<StrChar>)
    requires WfChars(cs) && cs != []
    ensures CharsBytes(cs) != []
  {
  }

  // ---------- numbers ----------

  /** Consumes the part of the run that is at hand. */
  method TakeNumber(src: Source, st0: Num) returns (run: bytes, st: Num, more: bool)
    requires src.Valid()
    modifies src`pos, src`end, src`pending, src`out
    ensures src.Valid() && old(src.Rest()) == run + src.Rest()
    ensures Run(st0, run) == Some(st)
    ensures more ==> run != []
    ensures !more ==> Longest(st, src.Rest()) == 0
  {
    ghost var s := src.Rest();
    var buf := src.Fill();
    assert buf == s[..|buf|];
    var i;
    i, st := RunChunk(st0, buf);
    more := i == |buf| && i > 0;
    run := buf[..i];
    src.Consume(i);
    assert s == s[..i] + s[i..];
  }

  /** Consumes the longest run of the automaton, passing it to `sink`. */
  method ScanNumberText(src: Source, sink: Sink) returns (r: Res<()>)
    requires src.Valid() && sink.Valid() && src !in sink.Repr
    modifies src`pos, src`end, src`pending, src`out, sink.Repr
    ensures src.Valid() && sink.Valid()
    ensures var s := old(src.Rest()); var n := Longest(Start, s);
            src.Rest() == s[n..] && sink.fed == old(sink.fed) + s[..n]
    ensures match ScanNumber(old(src.Rest())) case None => r.Err? case Some(n) => r.Ok? && src.Rest() == n.rest
    ensures sink.writer != null ==> sink.writer.pos == old(sink.writer.pos) && sink.writer.depth == old(sink.writer.depth)
  {
    hide Numbers.Run, Longest, Step;
    ghost var s, fed, done := src.Rest(), sink.fed, [];
    NothingRun();
    Empty(fed);
    Empty(s);
    var st := Start;
    var more := true;
    while more
      invariant src.Valid() && sink.Valid() && s == done + src.Rest() && sink.fed == fed + done
      invariant sink.writer != null ==> sink.writer.pos == old(sink.writer.pos) && sink.writer.depth == old(sink.writer.depth)
      invariant Run(Start, done) == Some(st) && (!more ==> Longest(st, src.Rest()) == 0)
      decreases more, |src.Rest()|
    {
      var run;
      ghost var from := st;
      run, st, more := TakeNumber(src, st);
      sink.Put(run);
      RunAppend(Start, done, run);
      Cat3(done, run, src.Rest());
      Cat3(fed, done, run);
      done := done + run;
    }
    LongestSplit(Start, done, src.Rest());
    assert s[..|done|] == done && s[|done|..] == src.Rest();
    if IsFinal(st) {
      r := Ok(());
    } else {
      r := Err(InvalidNumber);
    }
  }

  lemma NothingRun()
    ensures Numbers.Run(Start, []) == Some(Start)
  {
  }

  /** The automaton over one chunk. */
  method RunChunk(st0: Num, buf: bytes) returns (i: nat, st: Num)
    ensures i <= |buf| && Run(st0, buf[..i]) == Some(st)
    ensures i < |buf| ==> Step(st, buf[i]).None?
  {
    st, i := st0, 0;
    while i < |buf| && Step(st, buf[i]).Some?
      invariant i <= |buf| && Run(st0, buf[..i]) == Some(st)
    {
      RunAppend(st0, buf[..i], [buf[i]]);
      RunOne(st, buf[i]);
      assert buf[..i + 1] == buf[..i] + [buf[i]];
      st := Step(st, buf[i]).value;
      i := i + 1;
    }
  }

  lemma {:induction false} LongestSplit(st: Num, a: bytes, t: bytes)
    requires Run(st, a).Some?
    ensures Longest(st, a + t) == |a| + Longest(Run(st, a).value, t)
    decreases |a|
  {
    if a == [] {
      assert a + t == t;
    } else {
      assert (a + t)[1..] == a[1..] + t;
      LongestSplit(Step(st, a[0]).value, a[1..], t);
    }
  }
}
