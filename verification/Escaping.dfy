/** How the writer escapes strings, and why the parser reads them back. */
module Escaping {
  import opened Bytes
  import opened Utf8Coding
  import opened StringGrammar

  function LowerHex(d: int): (b: byte)
    requires 0 <= d < 16
    ensures HexDigit(b) == Some(d)
  {
    if d < 10 then 0x30 + d else 0x61 + d - 10
  }

  /** The letter of a two-character escape. */
  function ShortEscape(b: byte): Option<byte> {
    if b == QUOTE || b == BACKSLASH then Some(b)
    else if b == 0x0A then Some(LOWER_N)
    else if b == 0x0D then Some(0x72)
    else if b == 0x09 then Some(LOWER_T)
    else if b == 0x08 then Some(0x62)
    else if b == 0x0C then Some(LOWER_F)
    else None
  }

  function EscapeByte(b: byte): bytes {
    if ShortEscape(b).Some? then [BACKSLASH, ShortEscape(b).value]
    else if b < 0x20 then [BACKSLASH, LOWER_U, DIGIT_0, DIGIT_0, LowerHex(b / 16), LowerHex(b % 16)]
    else [b]
  }

  /** A string as written, without the quotes. */
  function Escape(s: bytes): bytes {
    if s == [] then [] else EscapeByte(s[0]) + Escape(s[1..])
  }

  lemma {:induction false} EscapeAppend(a: bytes, b: bytes)
    ensures Escape(a + b) == Escape(a) + Escape(b)
  {
    if a == [] {
      assert a + b == b;
    } else {
      assert (a + b)[1..] == a[1..] + b;
      EscapeAppend(a[1..], b);
      Cat3(EscapeByte(a[0]), Escape(a[1..]), Escape(b));
    }
  }

  /** The character written for a code point. */
  function CharOf(cp: int): StrChar {
    if 0 <= cp < 0x80 && ShortEscape(cp).Some? then Esc(ShortEscape(cp).value)
    else if 0 <= cp < 0x20 then Uni([DIGIT_0, DIGIT_0, LowerHex(cp / 16), LowerHex(cp % 16)])
    else Plain(cp)
  }

  lemma {:induction false} EscapeHigh(s: bytes)
    requires forall i :: 0 <= i < |s| ==> s[i] >= 0x80
    ensures Escape(s) == s
  {
    if s != [] {
      EscapeHigh(s[1..]);
      assert s == [s[0]] + s[1..];
    }
  }

  lemma EscapeOne(b: byte)
    ensures Escape([b]) == EscapeByte(b)
  {
    assert [b][1..] == [] && EscapeByte(b) + [] == EscapeByte(b);
  }

  /** Each code point is written as one character that stands for it. */
  lemma CharOfExact(cp: int)
    requires Scalar(cp)
    ensures WfChar(CharOf(cp)) && CharCp(CharOf(cp)) == cp && CharBytes(CharOf(cp)) == Escape(Utf8(cp))
  {
    if cp < 0x80 {
      EscapeOne(cp);
      if cp < 0x20 && ShortEscape(cp).None? {
        var h := [DIGIT_0, DIGIT_0, LowerHex(cp / 16), LowerHex(cp % 16)];
        assert IsHex4(h) && Hex4(h) == cp;
      }
    } else {
      EscapeHigh(Utf8(cp));
    }
  }

  function CharsOf(cps: seq<int>): (cs: seq<StrChar>) {
    if cps == [] then [] else [CharOf(cps[0])] + CharsOf(cps[1..])
  }

  lemma {:induction false} CharsOfExact(cps: seq<int>)
    requires Scalars(cps)
    ensures WfChars(CharsOf(cps))
    ensures CharsText(CharsOf(cps)) == Utf8All(cps) && CharsBytes(CharsOf(cps)) == Escape(Utf8All(cps))
  {
    if cps != [] {
      CharsOfExact(cps[1..]);
      CharOfExact(cps[0]);
      EscapeAppend(Utf8(cps[0]), Utf8All(cps[1..]));
      assert CharsOf(cps)[1..] == CharsOf(cps[1..]);
    }
  }

  /** The characters written for a UTF-8 string. */
  ghost function CharsFor(s: bytes): (cs: seq<StrChar>)
    requires IsUtf8(s)
    ensures WfChars(cs) && CharsText(cs) == s && CharsBytes(cs) == Escape(s)
  {
    var cps: seq<int> :| Scalars(cps) && Utf8All(cps) == s;
    CharsOfExact(cps);
    CharsOf(cps)
  }

  /** Whatever UTF-8 string is written, the parser decodes the same string, up to the closing quote. */
  lemma WrittenStringIsReadBack(s: bytes, t: bytes)
    requires IsUtf8(s)
    ensures ScanChars(Escape(s) + [QUOTE] + t).Some?
    ensures var r := ScanChars(Escape(s) + [QUOTE] + t).value; CharsText(r.item) == s && r.rest == t
  {
    ScanCharsComplete(CharsFor(s), t);
  }
}
