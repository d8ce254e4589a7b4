/** Bytes, the characters the JSON grammar is made of, and leading whitespace. */
module Bytes {
  type byte = b: int | 0 <= b < 256
  type bytes = seq<byte>

  datatype Option<+T> = None | Some(value: T)

  /** What was read at the start of the input, and the input after it. */
  datatype Scanned<+T> = Scanned(item: T, rest: bytes)

  function Min(a: nat, b: nat): nat { if a < b then a else b }

  function Max(a: nat, b: nat): nat { if a < b then b else a }

  const TAB: byte := 0x09
  const NEWLINE: byte := 0x0A
  const CARRIAGE_RETURN: byte := 0x0D
  const SPACE: byte := 0x20
  const QUOTE: byte := 0x22
  const PLUS: byte := 0x2B
  const COMMA: byte := 0x2C
  const MINUS: byte := 0x2D
  const DOT: byte := 0x2E
  const SLASH: byte := 0x2F
  const DIGIT_0: byte := 0x30
  const DIGIT_1: byte := 0x31
  const COLON: byte := 0x3A
  const UPPER_E: byte := 0x45
  const LBRACKET: byte := 0x5B
  const BACKSLASH: byte := 0x5C
  const RBRACKET: byte := 0x5D
  const LOWER_E: byte := 0x65
  const LOWER_F: byte := 0x66
  const LOWER_N: byte := 0x6E
  const LOWER_T: byte := 0x74
  const LOWER_U: byte := 0x75
  const LBRACE: byte := 0x7B
  const RBRACE: byte := 0x7D
  const TILDE: byte := 0x7E

  predicate IsWs(b: byte) {
    b == SPACE || b == NEWLINE || b == CARRIAGE_RETURN || b == TAB
  }

  predicate IsDigit(b: byte) {
    0x30 <= b <= 0x39
  }

  predicate AllWs(s: bytes) {
    forall i :: 0 <= i < |s| ==> IsWs(s[i])
  }

  /** The longest whitespace prefix. */
  function Ws(s: bytes): (w: bytes)
    ensures w <= s && AllWs(w)
  {
    if s != [] && IsWs(s[0]) then [s[0]] + Ws(s[1..]) else []
  }

  /** What follows the longest whitespace prefix. */
  function Trim(s: bytes): (t: bytes)
    ensures s == Ws(s) + t
    ensures t != [] ==> !IsWs(t[0])
  {
    if s != [] && IsWs(s[0]) then Trim(s[1..]) else s
  }

  lemma {:induction false} WsPrefix(w: bytes, t: bytes)
    requires AllWs(w) && (t != [] ==> !IsWs(t[0]))
    ensures Ws(w + t) == w && Trim(w + t) == t
  {
    if w == [] {
      assert w + t == t;
    } else {
      assert (w + t)[1..] == w[1..] + t;
      WsPrefix(w[1..], t);
    }
  }

  lemma {:induction false} TrimSkips(w: bytes, t: bytes)
    requires AllWs(w)
    ensures Trim(w + t) == Trim(t) && Ws(w + t) == w + Ws(t)
  {
    if w == [] {
      assert w + t == t;
    } else {
      assert (w + t)[1..] == w[1..] + t;
      TrimSkips(w[1..], t);
    }
  }

  lemma TrimTrim(s: bytes)
    ensures Trim(Trim(s)) == Trim(s)
    ensures Ws(Trim(s)) == []
  {
  }

  /** What remains of an input is a suffix of it. */
  predicate IsSuffix(t: bytes, s: bytes) {
    |t| <= |s| && t == s[|s| - |t|..]
  }

  lemma SuffixTrans(a: bytes, b: bytes, c: bytes)
    requires IsSuffix(a, b) && IsSuffix(b, c)
    ensures IsSuffix(a, c)
  {
  }

  lemma TrimIsSuffix(s: bytes)
    ensures IsSuffix(Trim(s), s)
  {
  }

  // ---------- concatenation ----------

  lemma Cat3(a: bytes, b: bytes, c: bytes)
    ensures a + b + c == a + (b + c)
  {
  }

  lemma Cat4(a: bytes, b: bytes, c: bytes, d: bytes)
    ensures a + b + c + d == a + (b + (c + d))
  {
    Cat3(a, b, c);
    Cat3(a, b + c, d);
    Cat3(b, c, d);
  }

  /** The parts of a sequence, when a byte is added at the end. */
  lemma PartsOfAppend(s: bytes, b: byte, i: nat, f: nat, e: nat)
    requires i <= f <= e <= |s|
    ensures (s + [b])[..i] == s[..i]
    ensures (s + [b])[i..f] == s[i..f]
    ensures (s + [b])[f..e] == s[f..e]
    ensures (s + [b])[i..] == s[i..] + [b]
    ensures (s + [b])[f..] == s[f..] + [b]
    ensures (s + [b])[e..] == s[e..] + [b]
  {
  }

  lemma SliceToEnd(s: bytes, i: nat)
    requires i <= |s|
    ensures s[i..|s|] == s[i..]
  {
  }

  lemma TakeOneMore(a: bytes, s: bytes, i: nat)
    requires i < |s|
    ensures a + s[..i] + [s[i]] == a + s[..i + 1]
  {
    assert s[..i] + [s[i]] == s[..i + 1];
    Cat3(a, s[..i], [s[i]]);
  }

  lemma TakeAndDrop(a: bytes, s: bytes, i: nat)
    requires i <= |s|
    ensures a + s[..i] + s[i..] == a + s
  {
    assert s[..i] + s[i..] == s;
    Cat3(a, s[..i], s[i..]);
  }

  lemma SliceAppend(s: bytes, i: nat, j: nat, k: nat)
    requires i <= j <= k <= |s|
    ensures s[i..j] + s[j..k] == s[i..k]
  {
  }
}
