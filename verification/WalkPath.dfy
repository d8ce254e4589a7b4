/** The pointer that a walk keeps in one buffer: it grows and shrinks at its end only. */
module WalkPaths {
  import opened Bytes
  import opened Numbers
  import opened Compare
  import opened StringGrammar
  import opened Results
  import opened Sources
  import opened Sinks
  import opened Scanning

  /** The position of the last slash, or 0. */
  function LastSlash(s: bytes): (i: nat)
    ensures i <= |s|
  {
    if s == [] then 0 else if s[|s| - 1] == SLASH then |s| - 1 else LastSlash(s[..|s| - 1])
  }

  lemma {:induction false} LastSlashOf(path: bytes, t: bytes)
    requires SLASH !in t
    ensures LastSlash(path + [SLASH] + t) == |path|
    decreases |t|
  {
    var s := path + [SLASH] + t;
    if t != [] {
      assert s[|s| - 1] == t[|t| - 1];
      assert s[..|s| - 1] == path + [SLASH] + t[..|t| - 1];
      LastSlashOf(path, t[..|t| - 1]);
    }
  }

  /** The path without its last segment. */
  method PopSegment(buf: array<byte>, len: nat) returns (n: nat)
    requires len <= buf.Length
    ensures n == LastSlash(buf[..len])
  {
    n := len;
    while n > 0 && buf[n - 1] != SLASH
      invariant n <= len && LastSlash(buf[..len]) == LastSlash(buf[..n])
    {
      assert buf[..n][..n - 1] == buf[..n - 1];
      n := n - 1;
    }
    if n > 0 {
      assert buf[..n][n - 1] == SLASH;
      n := n - 1;
    }
  }

  const WORD: nat := USIZE_MAX + 1

  lemma WrapStep(x: nat, d: int)
    ensures ((x % WORD) * 10 + d) % WORD == (x * 10 + d) % WORD
  {
    var q, r := x / WORD, x % WORD;
    assert x == q * WORD + r;
    assert x * 10 + d == r * 10 + d + WORD * (q * 10);
    WrapMultiple(r * 10 + d, q * 10);
  }

  lemma WrapMultiple(y: int, k: nat)
    ensures (y + WORD * k) % WORD == y % WORD
  {
    var a, b := (y + WORD * k) / WORD, (y + WORD * k) % WORD;
    assert y == WORD * (a - k) + b;
  }

  /** The number that the digits spell, wrapping like a machine word. */
  method WrappingValue(digits: bytes) returns (v: nat)
    ensures v < WORD && (AllDigits(digits) ==> v == DigitsValue(digits) % WORD)
  {
    hide WORD;
    WordSize();
    v := 0;
    for i := 0 to |digits|
      invariant v < WORD && (AllDigits(digits) ==> v == DigitsValue(digits[..i]) % WORD)
    {
      if AllDigits(digits) {
        var next := digits[..i + 1];
        assert next[..|next| - 1] == digits[..i];
        WrapStep(DigitsValue(digits[..i]), digits[i] as int - 0x30);
      }
      v := (v * 10 + (digits[i] as int - 0x30)) % WORD;
    }
    assert digits[..|digits|] == digits;
  }

  lemma WordSize()
    ensures WORD > 0 && forall x: nat :: x < WORD ==> x % WORD == x
  {
  }

  /** The segment of index `i`. */
  function IndexSegment(i: nat): bytes {
    [SLASH] + Decimal(i)
  }

  /** Writes the segment of an index at `start`; none, if it does not fit. */
  method PutIndex(buf: array<byte>, start: nat, i: usize) returns (r: Option<nat>)
    requires start <= buf.Length
    modifies buf
    ensures r == if start + |IndexSegment(i)| <= buf.Length then Some(start + |IndexSegment(i)|) else None
    ensures r.Some? ==> buf[..r.value] == old(buf[..start]) + IndexSegment(i)
  {
    hide Decimal;
    BuffersSuffice(i);
    var tmp := new byte[20];
    var at := FormatUint(i, tmp);
    var digits := tmp[at..];
    var end := start + 1 + |digits|;
    if end > buf.Length {
      return None;
    }
    ghost var before := buf[..start];
    buf[start] := SLASH;
    forall k | 0 <= k < |digits| {
      buf[start + 1 + k] := digits[k];
    }
    assert buf[..start] == before && buf[start..end] == [SLASH] + digits;
    assert buf[..end] == buf[..start] + buf[start..end];
    r := Some(end);
  }

  /** Replaces the last segment, an index, by the next one; or appends the first index. */
  method NextIndex(buf: array<byte>, len: nat, first: bool, ghost path: bytes, ghost i: nat) returns (r: Option<nat>)
    requires len <= buf.Length
    modifies buf
    ensures r.Some? ==> r.value <= buf.Length
    ensures i <= USIZE_MAX && first == (i == 0) && old(buf[..len]) == (if first then path else path + IndexSegment(i - 1)) ==>
              r == (if |path| + |IndexSegment(i)| <= buf.Length then Some(|path| + |IndexSegment(i)|) else None) &&
              (r.Some? ==> buf[..r.value] == path + IndexSegment(i))
  {
    hide Decimal, AllDigits, DigitsValue, LastSlash, IndexSegment;
    ghost var ok := i <= USIZE_MAX && first == (i == 0) && buf[..len] == if first then path else path + IndexSegment(i - 1);
    var start, idx: usize := len, 0;
    if !first {
      var slash := PopSegment(buf, len);
      var v := WrappingValue(if slash < len then buf[slash + 1..len] else []);
      if ok {
        LastIndex(buf[..len], path, i - 1);
        assert buf[slash + 1..len] == buf[..len][slash + 1..];
        assert buf[..slash] == buf[..len][..slash];
      }
      start, idx := slash, (v + 1) % WORD;
    }
    r := PutIndex(buf, start, idx);
  }

  lemma LastIndex(s: bytes, path: bytes, i: nat)
    requires s == path + IndexSegment(i) && i < USIZE_MAX
    ensures |path| < |s| && LastSlash(s) == |path| && s[|path| + 1..] == Decimal(i) && s[..|path|] == path
    ensures AllDigits(Decimal(i)) && DigitsValue(Decimal(i)) % WORD == i && (i + 1) % WORD == i + 1
  {
    hide Decimal, LastSlash, WORD, DigitsValue, AllDigits;
    var d := Decimal(i);
    NoSlash(d);
    Cat3(path, [SLASH], d);
    LastSlashOf(path, d);
    IndexValue(i);
  }

  lemma NoSlash(d: bytes)
    requires AllDigits(d)
    ensures SLASH !in d
  {
  }

  lemma IndexValue(i: nat)
    requires i < USIZE_MAX
    ensures DigitsValue(Decimal(i)) % WORD == i && (i + 1) % WORD == i + 1
  {
    hide Decimal, DigitsValue;
    DecimalValue(i);
  }

  /** Appends a member name, which is decoded from the input, to the path; the name is consumed, unless there is no room
      even for the slash before it. */
  method AppendName(src: Source, buf: array<byte>, len: nat) returns (r: Res<nat>, consumed: bool)
    requires src.Valid() && len <= buf.Length
    modifies src`pos, src`end, src`pending, src`out, buf
    ensures src.Valid() && (r.Ok? ==> r.value <= buf.Length)
    ensures match ScanChars(old(src.Rest()))
            case None => r.Err? && !consumed
            case Some(n) =>
              var path := old(buf[..len]) + [SLASH] + EscapeToken(CharsText(n.item));
              consumed == (len < buf.Length) && (consumed ==> src.Rest() == n.rest) &&
              if |path| <= buf.Length then r == Ok(|path|) && buf[..|path|] == path
              else r == Err(PathTooLong)
  {
    hide EscapeToken, ScanChars, CharsText;
    if len == buf.Length {
      return Err(PathTooLong), false;
    }
    ghost var path := buf[..len];
    buf[len] := SLASH;
    var ps := new PathSink(buf, len + 1);
    assert ps.before == path + [SLASH];
    var sink := new Sink.Appending(ps);
    var d, stash;
    ghost var cs;
    d, stash, cs := Decode(src, sink, []);
    consumed := d.Ok?;
    if d.Err? {
      r := Err(d.kind);
    } else {
      Nothing(CharsText(cs));
      r := if ps.overflow then Err(PathTooLong) else Ok(ps.len);
      if r.Ok? {
        assert buf[..ps.len] == buf[..len + 1] + buf[len + 1..ps.len];
      }
    }
  }

  lemma Nothing(a: bytes)
    ensures [] + [] + a == a
  {
  }
}
