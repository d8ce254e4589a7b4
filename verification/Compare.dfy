/** Comparing names bytewise, and JSON Pointer tokens (RFC 6901). */
module Compare {
  import opened Bytes

  datatype Ordering = Less | Equal | Greater

  function CmpByte(a: byte, b: byte): Ordering {
    if a < b then Less else if a == b then Equal else Greater
  }

  /** Lexicographic order; a proper prefix comes first. */
  function Cmp(a: bytes, b: bytes): Ordering {
    if a == [] then if b == [] then Equal else Less
    else if b == [] then Greater
    else if a[0] != b[0] then CmpByte(a[0], b[0])
    else Cmp(a[1..], b[1..])
  }

  /** The order of `a` and `b` is settled, whatever comes after `a`. */
  predicate Settled(a: bytes, b: bytes) {
    a != [] && (b == [] || a[0] != b[0] || Settled(a[1..], b[1..]))
  }

  lemma {:induction false} CmpEqual(a: bytes, b: bytes)
    ensures Cmp(a, b) == Equal <==> a == b
  {
    if a != [] && b != [] && a[0] == b[0] {
      CmpEqual(a[1..], b[1..]);
      assert a == [a[0]] + a[1..] && b == [b[0]] + b[1..];
    }
  }

  lemma {:induction false} CmpFlip(a: bytes, b: bytes)
    ensures Cmp(a, b) == Less <==> Cmp(b, a) == Greater
  {
    if a != [] && b != [] {
      CmpFlip(a[1..], b[1..]);
    }
  }

  lemma {:induction false} CmpTrans(a: bytes, b: bytes, c: bytes)
    requires Cmp(a, b) == Less && Cmp(b, c) == Less
    ensures Cmp(a, c) == Less
  {
    if a != [] && b != [] && c != [] && a[0] == b[0] == c[0] {
      CmpTrans(a[1..], b[1..], c[1..]);
    }
  }

  /** `a` is a proper prefix of `b`, or smaller at the first byte where they differ. */
  ghost predicate Precedes(a: bytes, b: bytes) {
    (|a| < |b| && a == b[..|a|]) ||
    exists i :: 0 <= i < |a| && i < |b| && a[..i] == b[..i] && a[i] < b[i]
  }

  /** A common first byte does not matter. */
  lemma PrecedesAfter(a: bytes, b: bytes)
    requires a != [] && b != [] && a[0] == b[0] && Precedes(a[1..], b[1..])
    ensures Precedes(a, b)
  {
    var x, y := a[1..], b[1..];
    if |a| < |b| && x == y[..|x|] {
      assert a == [a[0]] + x && b[..|a|] == [b[0]] + y[..|x|];
    } else {
      var i :| 0 <= i < |x| && i < |y| && x[..i] == y[..i] && x[i] < y[i];
      assert a[..i + 1] == [a[0]] + x[..i] && b[..i + 1] == [b[0]] + y[..i] && a[i + 1] < b[i + 1];
    }
  }

  lemma PrecedesNext(a: bytes, b: bytes)
    requires a != [] && b != [] && a[0] == b[0] && Precedes(a, b)
    ensures Precedes(a[1..], b[1..])
  {
    var x, y := a[1..], b[1..];
    if |a| < |b| && a == b[..|a|] {
      assert y[..|x|] == b[..|a|][1..];
    } else {
      var i :| 0 <= i < |a| && i < |b| && a[..i] == b[..i] && a[i] < b[i];
      assert x[..i - 1] == a[..i][1..] && y[..i - 1] == b[..i][1..] && x[i - 1] < y[i - 1];
    }
  }

  lemma PrecedesStep(a: bytes, b: bytes)
    requires a != [] && b != [] && a[0] == b[0]
    ensures Precedes(a, b) <==> Precedes(a[1..], b[1..])
  {
    hide Precedes;
    if Precedes(a, b) {
      PrecedesNext(a, b);
    } else if Precedes(a[1..], b[1..]) {
      PrecedesAfter(a, b);
    }
  }

  /** The order is the lexicographic one, comparing bytes as numbers. */
  lemma {:induction false} CmpIsBytewise(a: bytes, b: bytes)
    ensures Cmp(a, b) == Less <==> Precedes(a, b)
    ensures Cmp(a, b) == Greater <==> Precedes(b, a)
  {
    if a != [] && b != [] {
      if a[0] == b[0] {
        PrecedesStep(a, b);
        PrecedesStep(b, a);
        CmpIsBytewise(a[1..], b[1..]);
      } else {
        Differ(a, b);
        Differ(b, a);
      }
    }
  }

  lemma Differ(a: bytes, b: bytes)
    requires a != [] && b != [] && a[0] != b[0]
    ensures Precedes(a, b) <==> a[0] < b[0]
  {
    if a[0] < b[0] {
      assert a[..0] == b[..0];
    } else if i :| 0 <= i < |a| && i < |b| && a[..i] == b[..i] && a[i] < b[i] {
      assert i > 0 && a[0] == a[..i][0] == b[..i][0] == b[0];
    }
  }

  lemma {:induction false} SettledStays(a: bytes, x: bytes, b: bytes)
    requires Settled(a, b)
    ensures Settled(a + x, b) && Cmp(a + x, b) == Cmp(a, b)
  {
    assert (a + x)[1..] == a[1..] + x;
    if b != [] && a[0] == b[0] {
      SettledStays(a[1..], x, b[1..]);
    }
  }

  /** After a common prefix the next byte decides. */
  lemma {:induction false} SettledBy(a: bytes, x: byte, b: bytes)
    ensures Settled(a + [x], a + b) <==> (b == [] || x != b[0])
    ensures b == [] ==> Cmp(a + [x], a + b) == Greater
    ensures b != [] && x != b[0] ==> Cmp(a + [x], a + b) == CmpByte(x, b[0])
  {
    if a == [] {
      assert a + b == b && a + [x] == [x];
      assert [x][1..] == [];
    } else {
      assert (a + [x])[1..] == a[1..] + [x];
      assert (a + b)[1..] == a[1..] + b;
      SettledBy(a[1..], x, b);
    }
  }

  lemma {:induction false} CmpPrefix(a: bytes, b: bytes)
    ensures Cmp(a, a + b) == if b == [] then Equal else Less
  {
    if a == [] {
      assert a + b == b;
    } else {
      assert (a + b)[1..] == a[1..] + b;
      CmpPrefix(a[1..], b);
    }
  }

  // ---------- JSON Pointer tokens ----------

  /** A reference token unescaped in one pass; a `~` that escapes nothing stands for itself. */
  function Unescape(p: bytes): bytes {
    if p == [] then []
    else if p[0] == TILDE && |p| > 1 && p[1] == DIGIT_0 then [TILDE] + Unescape(p[2..])
    else if p[0] == TILDE && |p| > 1 && p[1] == DIGIT_1 then [SLASH] + Unescape(p[2..])
    else [p[0]] + Unescape(p[1..])
  }

  /** All occurrences of `~` and `digit`, from the left, replaced. */
  function Substitute(p: bytes, digit: byte, repl: byte): bytes {
    if p == [] then []
    else if |p| > 1 && p[0] == TILDE && p[1] == digit then [repl] + Substitute(p[2..], digit, repl)
    else [p[0]] + Substitute(p[1..], digit, repl)
  }

  /** `~1` replaced first, then `~0`, as section 4 of RFC 6901 asks for. */
  function TwoPasses(p: bytes): bytes {
    Substitute(Substitute(p, DIGIT_1, SLASH), DIGIT_0, TILDE)
  }

  lemma {:induction false} TwoPassesEscape(p: bytes)
    requires |p| > 1 && p[0] == TILDE && (p[1] == DIGIT_0 || p[1] == DIGIT_1)
    ensures TwoPasses(p) == [if p[1] == DIGIT_0 then TILDE else SLASH] + TwoPasses(p[2..])
  {
    var q := Substitute(p[2..], DIGIT_1, SLASH);
    if p[1] == DIGIT_1 {
      assert Substitute(p, DIGIT_1, SLASH) == [SLASH] + q;
      assert ([SLASH] + q)[1..] == q;
    } else {
      assert p[1..][1..] == p[2..];
      assert Substitute(p, DIGIT_1, SLASH) == [TILDE] + ([DIGIT_0] + q);
      assert ([TILDE] + ([DIGIT_0] + q))[2..] == q;
    }
  }

  lemma {:induction false} TwoPassesPlain(p: bytes)
    requires p != [] && !(p[0] == TILDE && |p| > 1 && (p[1] == DIGIT_0 || p[1] == DIGIT_1))
    ensures TwoPasses(p) == [p[0]] + TwoPasses(p[1..])
  {
    var q := Substitute(p[1..], DIGIT_1, SLASH);
    assert Substitute(p, DIGIT_1, SLASH) == [p[0]] + q;
    assert ([p[0]] + q)[1..] == q;
    assert q != [] ==> q[0] == SLASH || q[0] == p[1];
  }

  /** One pass gives the same as the two, for every token. */
  lemma {:induction false} UnescapeIsTwoPasses(p: bytes)
    ensures Unescape(p) == Substitute(Substitute(p, DIGIT_1, SLASH), DIGIT_0, TILDE)
    decreases |p|
  {
    hide Substitute;
    if p == [] {
      NothingToSubstitute();
    } else if p[0] == TILDE && |p| > 1 && (p[1] == DIGIT_0 || p[1] == DIGIT_1) {
      UnescapeIsTwoPasses(p[2..]);
      TwoPassesEscape(p);
    } else {
      UnescapeIsTwoPasses(p[1..]);
      TwoPassesPlain(p);
    }
  }

  lemma NothingToSubstitute()
    ensures TwoPasses([]) == []
  {
  }

  function EscapeTokenByte(b: byte): (r: bytes)
    ensures r != []
  {
    if b == TILDE then [TILDE, DIGIT_0] else if b == SLASH then [TILDE, DIGIT_1] else [b]
  }

  /** A member name as a reference token. */
  function EscapeToken(s: bytes): bytes {
    if s == [] then [] else EscapeTokenByte(s[0]) + EscapeToken(s[1..])
  }

  lemma {:induction false} EscapeTokenAppend(a: bytes, b: bytes)
    ensures EscapeToken(a + b) == EscapeToken(a) + EscapeToken(b)
  {
    if a == [] {
      assert a + b == b;
    } else {
      assert (a + b)[1..] == a[1..] + b;
      EscapeTokenAppend(a[1..], b);
      Cat3(EscapeTokenByte(a[0]), EscapeToken(a[1..]), EscapeToken(b));
    }
  }

  lemma {:induction false} EscapeTokenPlain(s: bytes)
    requires forall k :: 0 <= k < |s| ==> s[k] != TILDE && s[k] != SLASH
    ensures EscapeToken(s) == s
  {
    if s != [] {
      EscapeTokenPlain(s[1..]);
      assert s == [s[0]] + s[1..];
    }
  }

  /** Escaping and unescaping a name gives the name; the token holds no slash. */
  lemma {:induction false} TokenRoundTrip(s: bytes)
    ensures Unescape(EscapeToken(s)) == s && SLASH !in EscapeToken(s)
  {
    if s != [] {
      TokenRoundTrip(s[1..]);
      var e, t := EscapeTokenByte(s[0]), EscapeToken(s[1..]);
      if |e| == 2 {
        assert (e + t)[2..] == t;
      } else {
        assert (e + t)[1..] == t;
      }
      assert s == [s[0]] + s[1..];
    }
  }
}
