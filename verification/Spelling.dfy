/** The characters of JSON written out: punctuation, literals, hexadecimal digits, and what escapes stand for. */
module Spelling {
  import opened Bytes
  import opened Utf8Coding
  import opened StringGrammar
  import opened Numbers
  import opened Grammar
  import opened Escaping

  /** The bytes of a text in ASCII. */
  function Ascii(s: string): (r: bytes)
    requires forall i :: 0 <= i < |s| ==> s[i] < 128 as char
    ensures |r| == |s| && forall i :: 0 <= i < |s| ==> r[i] == s[i] as int
  {
    seq(|s|, i requires 0 <= i < |s| => s[i] as int)
  }

  // ---------- the grammar ----------

  /** Sections 2, 3, 6 and 7 of RFC 8259. */
  lemma Terminals(b: byte)
    ensures [Opening(false), Closing(false), Opening(true), Closing(true), COLON, COMMA, QUOTE, BACKSLASH] == Ascii("[]{}:,\"\\")
    ensures SynBytes(SNull) == Ascii("null") && SynBytes(SBool(true)) == Ascii("true") && SynBytes(SBool(false)) == Ascii("false")
    ensures [MINUS, PLUS, DOT, LOWER_E, UPPER_E] == Ascii("-+.eE")
    ensures IsWs(b) <==> b in Ascii(" \t\n\r")
    ensures IsDigit(b) <==> b in Ascii("0123456789")
  {
    assert Ascii(" \t\n\r") == [0x20, 0x09, 0x0A, 0x0D];
    assert Ascii("0123456789") == [0x30, 0x31, 0x32, 0x33, 0x34, 0x35, 0x36, 0x37, 0x38, 0x39];
  }

  /** Section 3 of RFC 6901: `~0` is a tilde and `~1` a slash. */
  lemma PointerCharacters()
    ensures [TILDE, SLASH, DIGIT_0, DIGIT_1] == Ascii("~/01")
  {
  }

  // ---------- numbers ----------

  predicate Digits(s: bytes) {
    s != [] && forall i :: 0 <= i < |s| ==> s[i] in Ascii("0123456789")
  }

  /** Section 6 of RFC 8259: the four parts of a number. */
  predicate NumberParts(s: bytes, sign: bytes, int_: bytes, frac: bytes, exp: bytes) {
    s == sign + int_ + frac + exp &&
    sign in [Ascii(""), Ascii("-")] &&
    (int_ == Ascii("0") || (Digits(int_) && int_[0] != '0' as int)) &&
    (frac == [] || (frac[0] == '.' as int && Digits(frac[1..]))) &&
    (exp == [] || (exp[0] in Ascii("eE") && (Digits(exp[1..]) || (|exp| > 1 && exp[1] in Ascii("+-") && Digits(exp[2..])))))
  }

  /** A number has these parts, one after the other. */
  lemma NumberExact(s: bytes)
    ensures IsNumber(s) <==>
              exists sign, int_, frac, exp :: NumberParts(s, sign, int_, frac, exp)
  {
    hide NumberParts, SplitsAt;
    if IsNumber(s) {
      var i: nat, f: nat, e: nat :| SplitsAt(s, i, f, e);
      Parted(s, i, f, e);
    }
    if sign, int_, frac, exp :| NumberParts(s, sign, int_, frac, exp) {
      Joined(s, sign, int_, frac, exp);
    }
  }

  lemma Parted(s: bytes, i: nat, f: nat, e: nat)
    requires SplitsAt(s, i, f, e)
    ensures i <= f <= e <= |s| && NumberParts(s, s[..i], s[i..f], s[f..e], s[e..])
  {
    hide IsSign, IsInt, IsFrac, IsExp, NumberParts;
    FourParts(s, i, f, e);
    PartsExact(s, s[..i], s[i..f], s[f..e], s[e..]);
  }

  lemma Joined(s: bytes, sign: bytes, int_: bytes, frac: bytes, exp: bytes)
    requires NumberParts(s, sign, int_, frac, exp)
    ensures IsNumber(s)
  {
    hide IsSign, IsInt, IsFrac, IsExp, NumberParts;
    PartsExact(s, sign, int_, frac, exp);
    var i, f := |sign|, |sign| + |int_|;
    var e := f + |frac|;
    assert s[..i] == sign && s[i..f] == int_ && s[f..e] == frac && s[e..] == exp;
    assert SplitsAt(s, i, f, e);
  }

  lemma PartsExact(s: bytes, sign: bytes, int_: bytes, frac: bytes, exp: bytes)
    ensures NumberParts(s, sign, int_, frac, exp) <==> s == sign + int_ + frac + exp && IsSign(sign) && IsInt(int_) && IsFrac(frac) && IsExp(exp)
  {
    hide Digits, AllDigits;
    assert Ascii("") == [] && Ascii("-") == [MINUS] && Ascii("0") == [DIGIT_0];
    assert Ascii("eE") == [LOWER_E, UPPER_E] && Ascii("+-") == [PLUS, MINUS];
    DigitsExact(int_);
    if frac != [] {
      DigitsExact(frac[1..]);
    }
    if exp != [] {
      DigitsExact(exp[1..]);
      if |exp| > 1 {
        DigitsExact(exp[2..]);
      }
    }
  }

  lemma DigitsExact(s: bytes)
    ensures Digits(s) <==> s != [] && AllDigits(s)
  {
    assert Ascii("0123456789") == [0x30, 0x31, 0x32, 0x33, 0x34, 0x35, 0x36, 0x37, 0x38, 0x39];
  }

  // ---------- hexadecimal digits ----------

  /** `b` is the digit with value `d`, in either case. */
  predicate SpellsDigit(b: byte, d: int) {
    0 <= d < 16 && (b == Ascii("0123456789abcdef")[d] || b == Ascii("0123456789ABCDEF")[d])
  }

  lemma HexDigitExact(b: byte, d: int)
    ensures HexDigit(b) == Some(d) <==> SpellsDigit(b, d)
  {
    LowerCode(d);
    UpperCode(d);
  }

  /** The codes of the sixteen digits. */
  lemma LowerCode(d: int)
    ensures 0 <= d < 16 ==> Ascii("0123456789abcdef")[d] == if d < 10 then 0x30 + d else 0x61 + d - 10
  {
    assert Ascii("0123456789abcdef")
        == [0x30, 0x31, 0x32, 0x33, 0x34, 0x35, 0x36, 0x37, 0x38, 0x39, 0x61, 0x62, 0x63, 0x64, 0x65, 0x66];
  }

  lemma UpperCode(d: int)
    ensures 0 <= d < 16 ==> Ascii("0123456789ABCDEF")[d] == if d < 10 then 0x30 + d else 0x41 + d - 10
  {
    assert Ascii("0123456789ABCDEF")
        == [0x30, 0x31, 0x32, 0x33, 0x34, 0x35, 0x36, 0x37, 0x38, 0x39, 0x41, 0x42, 0x43, 0x44, 0x45, 0x46];
  }

  /** The four bytes spell the number `v` in base 16. */
  ghost predicate SpellsHex4(h: bytes, v: int) {
    |h| == 4 && exists a, b, c, d ::
      SpellsDigit(h[0], a) && SpellsDigit(h[1], b) && SpellsDigit(h[2], c) && SpellsDigit(h[3], d) &&
      v == ((a * 16 + b) * 16 + c) * 16 + d
  }

  lemma Hex4Exact(h: bytes, v: int)
    ensures IsHex4(h) && Hex4(h) == v <==> SpellsHex4(h, v)
  {
    hide SpellsDigit, HexDigit;
    if SpellsHex4(h, v) {
      var a, b, c, d :| SpellsDigit(h[0], a) && SpellsDigit(h[1], b) && SpellsDigit(h[2], c) && SpellsDigit(h[3], d) &&
                        v == ((a * 16 + b) * 16 + c) * 16 + d;
      HexDigitExact(h[0], a);
      HexDigitExact(h[1], b);
      HexDigitExact(h[2], c);
      HexDigitExact(h[3], d);
    } else if IsHex4(h) {
      HexDigitExact(h[0], HexDigit(h[0]).value);
      HexDigitExact(h[1], HexDigit(h[1]).value);
      HexDigitExact(h[2], HexDigit(h[2]).value);
      HexDigitExact(h[3], HexDigit(h[3]).value);
    }
  }

  // ---------- what escapes stand for ----------

  /** `c` is a well-formed character and stands for `cp`. */
  predicate StandsFor(c: StrChar, cp: int) {
    WfChar(c) && CharCp(c) == cp
  }

  /** A backslash, `u` and four digits: the number they spell, no surrogate. */
  lemma UniExact(h: bytes, cp: int)
    ensures StandsFor(Uni(h), cp) <==> SpellsHex4(h, cp) && !(0xD800 <= cp <= 0xDFFF)
  {
    hide SpellsHex4;
    Hex4Exact(h, cp);
  }

  /** Two of them: the UTF-16 surrogate pair of a code point beyond U+FFFF. */
  lemma PairExact(hi: bytes, lo: bytes, cp: int)
    ensures StandsFor(Pair(hi, lo), cp) <==>
              0x10000 <= cp <= 0x10FFFF &&
              SpellsHex4(hi, 0xD800 + (cp - 0x10000) / 0x400) && SpellsHex4(lo, 0xDC00 + (cp - 0x10000) % 0x400)
  {
    hide SpellsHex4, Hex4, IsHex4;
    Hex4Exact(hi, 0xD800 + (cp - 0x10000) / 0x400);
    Hex4Exact(lo, 0xDC00 + (cp - 0x10000) % 0x400);
  }

  /** A backslash and one letter. */
  lemma EscExact(e: byte, cp: int)
    ensures StandsFor(Esc(e), cp) <==>
              exists k :: 0 <= k < 8 && e == Ascii("\"\\/bfnrt")[k] && cp == [0x22, 0x5C, 0x2F, 0x08, 0x0C, 0x0A, 0x0D, 0x09][k]
  {
    var letters := Ascii("\"\\/bfnrt");
    assert letters == [0x22, 0x5C, 0x2F, 0x62, 0x66, 0x6E, 0x72, 0x74];
    var cps := [0x22, 0x5C, 0x2F, 0x08, 0x0C, 0x0A, 0x0D, 0x09];
    if StandsFor(Esc(e), cp) {
      var k :=
        if e == 0x22 then 0 else if e == 0x5C then 1 else if e == 0x2F then 2 else if e == 0x62 then 3
        else if e == 0x66 then 4 else if e == 0x6E then 5 else if e == 0x72 then 6 else 7;
      assert e == letters[k] && cp == cps[k];
    }
  }

  /** Any other character stands for itself, in UTF-8; control characters, quotes and backslashes must be escaped. */
  lemma PlainExact(c: int, cp: int)
    ensures StandsFor(Plain(c), cp) <==>
              c == cp && (0x20 <= cp < 0xD800 || 0xE000 <= cp <= 0x10FFFF) && cp != '\"' as int && cp != '\\' as int
  {
  }

  /** A string with one such escape decodes to that code point. */
  lemma EscapeIsDecoded(c: StrChar, cp: int, t: bytes)
    requires StandsFor(c, cp)
    ensures ScanChars(CharBytes(c) + Ascii("\"") + t) == Some(Scanned([c], t)) && CharsText([c]) == Utf8(cp)
  {
    hide Utf8, CharCp;
    assert Ascii("\"") == [QUOTE];
    assert CharBytes(c) + [] == CharBytes(c) && [c][1..] == [];
    assert CharsBytes([c]) == CharBytes(c);
    ScanCharsComplete([c], t);
    assert Utf8(cp) + [] == Utf8(cp);
  }

  /** How these are written down. */
  lemma EscapeSpelling(c: StrChar)
    ensures c.Esc? ==> CharBytes(c) == Ascii("\\") + [c.c]
    ensures c.Uni? ==> CharBytes(c) == Ascii("\\u") + c.h
    ensures c.Pair? ==> CharBytes(c) == Ascii("\\u") + c.hi + Ascii("\\u") + c.lo
  {
    assert Ascii("\\") == [BACKSLASH] && Ascii("\\u") == [BACKSLASH, LOWER_U];
  }

  // ---------- what the writer escapes ----------

  /** Quotes, backslashes and control characters are escaped, with a letter where there is one, otherwise with two lower-case
      digits; everything else is written as it is. */
  lemma EscapeByteExact(b: byte)
    ensures forall k :: 0 <= k < 7 && b == [0x22, 0x5C, 0x08, 0x0C, 0x0A, 0x0D, 0x09][k] ==>
              EscapeByte(b) == Ascii("\\") + [Ascii("\"\\bfnrt")[k]]
    ensures b < 0x20 && b !in [0x08, 0x0C, 0x0A, 0x0D, 0x09] ==>
              EscapeByte(b) == Ascii("\\u00") + [Ascii("0123456789abcdef")[b / 16], Ascii("0123456789abcdef")[b % 16]]
    ensures b >= 0x20 && b != 0x22 && b != 0x5C ==> EscapeByte(b) == [b]
  {
    LowerCode(b / 16);
    LowerCode(b % 16);
    assert Ascii("\"\\bfnrt") == [0x22, 0x5C, 0x62, 0x66, 0x6E, 0x72, 0x74];
    assert Ascii("\\") == [BACKSLASH] && Ascii("\\u00") == [BACKSLASH, LOWER_U, DIGIT_0, DIGIT_0];
  }
}
