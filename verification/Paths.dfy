/** Paths to values. */
module Paths {
  import opened Bytes
  import opened Utf8Coding
  import opened Numbers
  import opened Compare

  datatype Seg =
    | Key(name: bytes)         // a member name
    | Index(i: usize)          // an array index
    | Pointer(token: bytes)    // a JSON Pointer reference token, still escaped

  /** What the types of the segments guarantee: strings are UTF-8. */
  ghost predicate WfSeg(seg: Seg) {
    match seg
    case Key(name) => IsUtf8(name)
    case Index(_) => true
    case Pointer(token) => IsUtf8(token)
  }

  ghost predicate WfPath(path: seq<Seg>) {
    forall k :: 0 <= k < |path| ==> WfSeg(path[k])
  }

  /** The member name a segment designates. */
  function SegName(seg: Seg): bytes {
    match seg
    case Key(name) => name
    case Index(i) => Decimal(i)
    case Pointer(token) => Unescape(token)
  }

  /** The array index a segment designates, if any. */
  function SegIndex(seg: Seg): Option<nat> {
    match seg
    case Key(name) => ParseIndex(name)
    case Index(i) => Some(i)
    case Pointer(token) => ParseIndex(token)
  }

  /** The `-` segment, past the end of an array. */
  predicate IsEndMarker(seg: Seg) {
    seg == Key([MINUS]) || seg == Pointer([MINUS])
  }

  // ---------- names are UTF-8 ----------

  lemma {:induction false} AsciiIsUtf8(s: bytes)
    requires forall i :: 0 <= i < |s| ==> s[i] < 0x80
    ensures Scalars(s) && Utf8All(s) == s && IsUtf8(s)
  {
    if s != [] {
      AsciiIsUtf8(s[1..]);
      assert s == [s[0]] + s[1..];
    }
    assert Utf8All(s) == s;
  }

  /** Unescaping, on code points. */
  function UnescapeCps(p: seq<int>): seq<int> {
    if p == [] then []
    else if p[0] == TILDE && |p| > 1 && p[1] == DIGIT_0 then [TILDE] + UnescapeCps(p[2..])
    else if p[0] == TILDE && |p| > 1 && p[1] == DIGIT_1 then [SLASH] + UnescapeCps(p[2..])
    else [p[0]] + UnescapeCps(p[1..])
  }

  lemma {:induction false} UnescapeHigh(a: bytes, t: bytes)
    requires forall i :: 0 <= i < |a| ==> a[i] >= 0x80
    ensures Unescape(a + t) == a + Unescape(t)
  {
    if a == [] {
      assert a + t == t;
    } else {
      assert (a + t)[1..] == a[1..] + t;
      UnescapeHigh(a[1..], t);
      assert a == [a[0]] + a[1..];
      Cat3([a[0]], a[1..], Unescape(t));
    }
  }

  /** The first byte of an encoded string tells an ASCII character. */
  lemma FirstByte(p: seq<int>, c: byte)
    requires Scalars(p) && c < 0x80
    ensures Utf8All(p) != [] && Utf8All(p)[0] == c <==> p != [] && p[0] == c
    ensures Utf8All(p) == [] <==> p == []
  {
  }

  lemma {:induction false} UnescapeEncoded(p: seq<int>)
    requires Scalars(p)
    ensures Scalars(UnescapeCps(p)) && Unescape(Utf8All(p)) == Utf8All(UnescapeCps(p))
    decreases |p|
  {
    if p != [] {
      var q := Utf8All(p[1..]);
      FirstByte(p[1..], DIGIT_0);
      FirstByte(p[1..], DIGIT_1);
      UnescapeEncoded(p[1..]);
      if p[0] >= 0x80 {
        UnescapeHigh(Utf8(p[0]), q);
      } else {
        assert Utf8All(p) == [p[0]] + q;
        assert ([p[0]] + q)[1..] == q;
        if p[0] == TILDE && |p| > 1 && (p[1] == DIGIT_0 || p[1] == DIGIT_1) {
          assert p[1..][1..] == p[2..];
          UnescapeEncoded(p[2..]);
          assert q == [p[1]] + Utf8All(p[2..]);
          assert ([p[0]] + q)[2..] == Utf8All(p[2..]);
          UnescapedTail(if p[1] == DIGIT_0 then TILDE else SLASH, UnescapeCps(p[2..]));
        } else {
          UnescapedTail(p[0], UnescapeCps(p[1..]));
        }
      }
    }
  }

  lemma UnescapedTail(c: int, p: seq<int>)
    requires Scalars(p) && 0 <= c < 0x80
    ensures Utf8All([c] + p) == [c] + Utf8All(p) && Scalars([c] + p)
  {
    assert ([c] + p)[1..] == p;
  }

  /** The name a segment designates is UTF-8. */
  lemma SegNameIsUtf8(seg: Seg)
    requires WfSeg(seg)
    ensures IsUtf8(SegName(seg))
  {
    match seg {
      case Key(_) =>
      case Index(i) => AsciiIsUtf8(Decimal(i));
      case Pointer(token) =>
        var cps: seq<int> :| Scalars(cps) && Utf8All(cps) == token;
        UnescapeEncoded(cps);
    }
  }
}
