/** JSON strings, section 7 of RFC 8259: the characters between the quotes and what they stand for. */
module StringGrammar {
  import opened Bytes
  import opened Utf8Coding

  /** One character as written. */
  datatype StrChar =
    | Plain(cp: int)                // itself, in UTF-8
    | Esc(c: byte)                  // backslash and one letter
    | Uni(h: bytes)                 // backslash, u and four hexadecimal digits
    | Pair(hi: bytes, lo: bytes)    // two of those, a surrogate pair

  function HexDigit(b: byte): (d: Option<int>)
    ensures d.Some? ==> 0 <= d.value < 16
  {
    if 0x30 <= b <= 0x39 then Some(b - 0x30)
    else if 0x61 <= b <= 0x66 then Some(b - 0x61 + 10)
    else if 0x41 <= b <= 0x46 then Some(b - 0x41 + 10)
    else None
  }

  predicate IsHex4(h: bytes) {
    |h| == 4 && forall i :: 0 <= i < 4 ==> HexDigit(h[i]).Some?
  }

  /** The number that four hexadecimal digits spell. */
  function Hex4(h: bytes): (v: int)
    ensures IsHex4(h) ==> 0 <= v < 0x10000
  {
    if !IsHex4(h) then 0
    else HexDigit(h[0]).value * 4096 + HexDigit(h[1]).value * 256 + HexDigit(h[2]).value * 16 + HexDigit(h[3]).value
  }

  /** What an escape letter stands for. */
  function Unescaped(c: byte): (cp: Option<int>)
    ensures cp.Some? ==> Scalar(cp.value) && c != LOWER_U
  {
    if c == QUOTE || c == BACKSLASH || c == SLASH then Some(c)
    else if c == 0x62 then Some(0x08)
    else if c == LOWER_F then Some(0x0C)
    else if c == LOWER_N then Some(0x0A)
    else if c == 0x72 then Some(0x0D)
    else if c == LOWER_T then Some(0x09)
    else None
  }

  predicate WfChar(c: StrChar) {
    match c
    case Plain(cp) => Scalar(cp) && cp >= 0x20 && cp != QUOTE && cp != BACKSLASH
    case Esc(e) => Unescaped(e).Some?
    case Uni(h) => IsHex4(h) && Scalar(Hex4(h))
    case Pair(hi, lo) => IsHex4(hi) && IsHex4(lo) && 0xD800 <= Hex4(hi) <= 0xDBFF && 0xDC00 <= Hex4(lo) <= 0xDFFF
  }

  function CharCp(c: StrChar): (cp: int)
    ensures WfChar(c) ==> Scalar(cp)
  {
    match c
    case Plain(cp) => cp
    case Esc(e) => if Unescaped(e).Some? then Unescaped(e).value else 0
    case Uni(h) => Hex4(h)
    case Pair(hi, lo) => 0x10000 + (Hex4(hi) - 0xD800) * 0x400 + (Hex4(lo) - 0xDC00)
  }

  function CharBytes(c: StrChar): (r: bytes)
    ensures WfChar(c) ==> r != [] && r[0] != QUOTE && r[0] >= 0x20
  {
    match c
    case Plain(cp) => Utf8(cp)
    case Esc(e) => [BACKSLASH, e]
    case Uni(h) => [BACKSLASH, LOWER_U] + h
    case Pair(hi, lo) => [BACKSLASH, LOWER_U] + hi + [BACKSLASH, LOWER_U] + lo
  }

  predicate WfChars(cs: seq<StrChar>) {
    forall i :: 0 <= i < |cs| ==> WfChar(cs[i])
  }

  /** The bytes of the characters as written, without the quotes. */
  function CharsBytes(cs: seq<StrChar>): bytes {
    if cs == [] then [] else CharBytes(cs[0]) + CharsBytes(cs[1..])
  }

  /** The decoded string, in UTF-8. */
  function CharsText(cs: seq<StrChar>): bytes {
    if cs == [] then [] else Utf8(CharCp(cs[0])) + CharsText(cs[1..])
  }

  function CharsCps(cs: seq<StrChar>): (cps: seq<int>)
    ensures |cps| == |cs| && (WfChars(cs) ==> Scalars(cps))
  {
    if cs == [] then [] else [CharCp(cs[0])] + CharsCps(cs[1..])
  }

  lemma {:induction false} CharsTextIsUtf8(cs: seq<StrChar>)
    requires WfChars(cs)
    ensures CharsText(cs) == Utf8All(CharsCps(cs)) && IsUtf8(CharsText(cs))
  {
    if cs != [] {
      CharsTextIsUtf8(cs[1..]);
      assert CharsCps(cs)[1..] == CharsCps(cs[1..]);
    }
  }

  lemma {:induction false} CharsAppend(a: seq<StrChar>, b: seq<StrChar>)
    ensures CharsBytes(a + b) == CharsBytes(a) + CharsBytes(b)
    ensures CharsText(a + b) == CharsText(a) + CharsText(b)
  {
    if a == [] {
      assert a + b == b;
    } else {
      assert (a + b)[1..] == a[1..] + b;
      CharsAppend(a[1..], b);
      Cat3(CharBytes(a[0]), CharsBytes(a[1..]), CharsBytes(b));
      Cat3(Utf8(CharCp(a[0])), CharsText(a[1..]), CharsText(b));
    }
  }

  /** The character after a backslash. */
  function ScanEscape(s: bytes): (r: Option<Scanned<StrChar>>) {
    if s == [] then None
    else if Unescaped(s[0]).Some? then Some(Scanned(Esc(s[0]), s[1..]))
    else if s[0] != LOWER_U || |s| < 5 || !IsHex4(s[1..5]) then None
    else if Scalar(Hex4(s[1..5])) then Some(Scanned(Uni(s[1..5]), s[5..]))
    else if Hex4(s[1..5]) >= 0xDC00 || |s| < 11 || s[5] != BACKSLASH || s[6] != LOWER_U || !IsHex4(s[7..11]) then None
    else if 0xDC00 <= Hex4(s[7..11]) <= 0xDFFF then Some(Scanned(Pair(s[1..5], s[7..11]), s[11..]))
    else None
  }

  /** The next character of a string body. */
  function ScanChar(s: bytes): (r: Option<Scanned<StrChar>>)
    requires s != [] && s[0] != QUOTE
  {
    if s[0] == BACKSLASH then ScanEscape(s[1..])
    else if s[0] < 0x20 then None
    else if s[0] < 0x80 then Some(Scanned(Plain(s[0]), s[1..]))
    else if TableAccepts(s) then Some(Scanned(Plain(TableScalar(s)), s[LeadOf(s[0]).value.len..]))
    else None
  }

  lemma UniSound(s: bytes)
    requires |s| >= 5 && s[0] == LOWER_U
    ensures [BACKSLASH] + s == CharBytes(Uni(s[1..5])) + s[5..]
  {
  }

  lemma PairSound(s: bytes)
    requires |s| >= 11 && s[0] == LOWER_U && s[5] == BACKSLASH && s[6] == LOWER_U
    ensures [BACKSLASH] + s == CharBytes(Pair(s[1..5], s[7..11])) + s[11..]
  {
    var t := s[6..];
    assert t[1..5] == s[7..11] && t[5..] == s[11..];
    UniSound(t);
    UniSound(s);
    assert s[5..] == [BACKSLASH] + t;
    Cat3([BACKSLASH, LOWER_U] + s[1..5], [BACKSLASH, LOWER_U] + s[7..11], s[11..]);
    Cat3([BACKSLASH, LOWER_U] + s[1..5], [BACKSLASH, LOWER_U], s[7..11]);
  }

  lemma ScanEscapeSound(s: bytes)
    requires ScanEscape(s).Some?
    ensures var r := ScanEscape(s).value;
            WfChar(r.item) && !r.item.Plain? && [BACKSLASH] + s == CharBytes(r.item) + r.rest
  {
    var c := ScanEscape(s).value.item;
    match c {
      case Esc(e) => assert s == [e] + s[1..];
      case Uni(h) => UniSound(s);
      case Pair(hi, lo) => PairSound(s);
    }
  }

  /** Scanning takes exactly the bytes of one well-formed character. */
  lemma ScanCharSound(s: bytes)
    requires s != [] && s[0] != QUOTE
    requires ScanChar(s).Some?
    ensures var r := ScanChar(s).value;
            WfChar(r.item) && s == CharBytes(r.item) + r.rest && |r.rest| < |s|
  {
    if s[0] == BACKSLASH {
      ScanEscapeSound(s[1..]);
      assert s == [BACKSLASH] + s[1..];
    } else if s[0] >= 0x80 {
      TableSound(s);
    }
  }

  lemma ScanEscapeComplete(c: StrChar, t: bytes)
    requires WfChar(c) && !c.Plain?
    ensures ScanEscape(CharBytes(c)[1..] + t) == Some(Scanned(c, t))
  {
    var s := CharBytes(c)[1..] + t;
    match c {
      case Esc(e) =>
        assert s[1..] == t;
      case Uni(h) =>
        assert s[1..5] == h && s[5..] == t;
      case Pair(hi, lo) =>
        assert s[1..5] == hi && s[7..11] == lo && s[11..] == t;
    }
  }

  /** No other character starts the same way. */
  lemma ScanCharComplete(c: StrChar, t: bytes)
    requires WfChar(c)
    ensures ScanChar(CharBytes(c) + t) == Some(Scanned(c, t))
  {
    var s := CharBytes(c) + t;
    if c.Plain? {
      if c.cp >= 0x80 {
        TableComplete(c.cp, t);
      }
    } else {
      assert s[1..] == CharBytes(c)[1..] + t;
      ScanEscapeComplete(c, t);
    }
  }

  function Prepend(c: StrChar, r: Option<Scanned<seq<StrChar>>>): Option<Scanned<seq<StrChar>>> {
    if r.None? then None else Some(Scanned([c] + r.value.item, r.value.rest))
  }

  /** All characters up to the closing quote, which is consumed. */
  function ScanChars(s: bytes): (r: Option<Scanned<seq<StrChar>>>)
    ensures r.Some? ==> |r.value.rest| < |s|
    decreases |s|
  {
    if s == [] then None
    else if s[0] == QUOTE then Some(Scanned([], s[1..]))
    else if ScanChar(s).None? then None
    else
      ScanCharSound(s);
      Prepend(ScanChar(s).value.item, ScanChars(ScanChar(s).value.rest))
  }

  lemma {:induction false} ScanCharsSound(s: bytes)
    requires ScanChars(s).Some?
    ensures var r := ScanChars(s).value;
            WfChars(r.item) && s == CharsBytes(r.item) + [QUOTE] + r.rest
    decreases |s|
  {
    if s[0] == QUOTE {
      assert s == CharsBytes([]) + [QUOTE] + s[1..];
    } else {
      ScanCharSound(s);
      var c := ScanChar(s).value;
      ScanCharsSound(c.rest);
      var r := ScanChars(s).value;
      assert r.item[1..] == ScanChars(c.rest).value.item;
    }
  }

  lemma ScanCharsStep(c: StrChar, t: bytes)
    requires WfChar(c)
    ensures ScanChars(CharBytes(c) + t) == Prepend(c, ScanChars(t))
  {
    ScanCharComplete(c, t);
  }

  function PrependAll(cs: seq<StrChar>, r: Option<Scanned<seq<StrChar>>>): Option<Scanned<seq<StrChar>>> {
    if r.None? then None else Some(Scanned(cs + r.value.item, r.value.rest))
  }

  lemma PrependTwice(c: StrChar, cs: seq<StrChar>, r: Option<Scanned<seq<StrChar>>>)
    ensures Prepend(c, PrependAll(cs, r)) == PrependAll([c] + cs, r)
  {
    if r.Some? {
      assert [c] + (cs + r.value.item) == [c] + cs + r.value.item;
    }
  }

  /** Characters that were consumed one by one come first in the scan of the whole. */
  lemma {:induction false} ScanCharsSplit(cs: seq<StrChar>, t: bytes)
    requires WfChars(cs)
    ensures ScanChars(CharsBytes(cs) + t) == PrependAll(cs, ScanChars(t))
  {
    var r := ScanChars(t);
    if cs == [] {
      assert CharsBytes(cs) + t == t;
      if r.Some? {
        assert cs + r.value.item == r.value.item;
      }
    } else {
      var u := CharsBytes(cs[1..]) + t;
      assert CharsBytes(cs) + t == CharBytes(cs[0]) + u;
      ScanCharsStep(cs[0], u);
      ScanCharsSplit(cs[1..], t);
      PrependTwice(cs[0], cs[1..], r);
      assert [cs[0]] + cs[1..] == cs;
    }
  }

  lemma ScanCharsComplete(cs: seq<StrChar>, t: bytes)
    requires WfChars(cs)
    ensures ScanChars(CharsBytes(cs) + [QUOTE] + t) == Some(Scanned(cs, t))
  {
    var q := [QUOTE] + t;
    assert CharsBytes(cs) + [QUOTE] + t == CharsBytes(cs) + q;
    ScanCharsSplit(cs, q);
    assert q[0] == QUOTE && q[1..] == t;
    assert ScanChars(q) == Some(Scanned([], t));
    assert cs + [] == cs;
  }
}
