/** Numbers: the grammar of section 6 of RFC 8259, the automaton that recognizes it, and decimal integers. */
module Numbers {
  import opened Bytes

  // ---------- grammar ----------

  predicate AllDigits(s: bytes) {
    forall i :: 0 <= i < |s| ==> IsDigit(s[i])
  }

  predicate IsSign(s: bytes) {
    s == [] || s == [MINUS]
  }

  predicate IsInt(s: bytes) {
    s == [DIGIT_0] || (s != [] && s[0] != DIGIT_0 && AllDigits(s))
  }

  predicate IsFrac(s: bytes) {
    s == [] || (|s| >= 2 && s[0] == DOT && AllDigits(s[1..]))
  }

  predicate IsExp(s: bytes) {
    s == [] ||
    ((s[0] == LOWER_E || s[0] == UPPER_E) &&
     ((|s| >= 2 && AllDigits(s[1..])) || (|s| >= 3 && (s[1] == PLUS || s[1] == MINUS) && AllDigits(s[2..]))))
  }

  predicate SplitsAt(s: bytes, i: nat, f: nat, e: nat) {
    i <= f <= e <= |s| && IsSign(s[..i]) && IsInt(s[i..f]) && IsFrac(s[f..e]) && IsExp(s[e..])
  }

  /** number = [ minus ] int [ frac ] [ exp ] */
  ghost predicate IsNumber(s: bytes) {
    exists i: nat, f: nat, e: nat :: SplitsAt(s, i, f, e)
  }

  // ---------- automaton ----------

  datatype Num = Start | Minus | Zero | Int | Dot | Frac | Exp | ExpSign | ExpDigits

  function Step(st: Num, b: byte): Option<Num> {
    match st
    case Start => if b == MINUS then Some(Minus) else if b == DIGIT_0 then Some(Zero) else if IsDigit(b) then Some(Int) else None
    case Minus => if b == DIGIT_0 then Some(Zero) else if IsDigit(b) then Some(Int) else None
    case Zero => if b == DOT then Some(Dot) else if b == LOWER_E || b == UPPER_E then Some(Exp) else None
    case Int =>
      if IsDigit(b) then Some(Int) else if b == DOT then Some(Dot)
      else if b == LOWER_E || b == UPPER_E then Some(Exp) else None
    case Dot => if IsDigit(b) then Some(Frac) else None
    case Frac => if IsDigit(b) then Some(Frac) else if b == LOWER_E || b == UPPER_E then Some(Exp) else None
    case Exp => if b == PLUS || b == MINUS then Some(ExpSign) else if IsDigit(b) then Some(ExpDigits) else None
    case ExpSign => if IsDigit(b) then Some(ExpDigits) else None
    case ExpDigits => if IsDigit(b) then Some(ExpDigits) else None
  }

  predicate IsFinal(st: Num) {
    st.Zero? || st.Int? || st.Frac? || st.ExpDigits?
  }

  /** The state after all of `s`, if the automaton does not get stuck. */
  function Run(st: Num, s: bytes): Option<Num>
    decreases |s|
  {
    if s == [] then Some(st)
    else match Step(st, s[0])
      case None => None
      case Some(next) => Run(next, s[1..])
  }

  /** How far the automaton gets. */
  function Longest(st: Num, s: bytes): (n: nat)
    ensures n <= |s|
    decreases |s|
  {
    if s == [] then 0
    else match Step(st, s[0])
      case None => 0
      case Some(next) => 1 + Longest(next, s[1..])
  }

  /** The longest run is a run, and one byte more is not. */
  lemma {:induction false} LongestRun(st: Num, s: bytes)
    ensures Run(st, s[..Longest(st, s)]).Some?
    ensures Longest(st, s) < |s| ==> Step(Run(st, s[..Longest(st, s)]).value, s[Longest(st, s)]).None?
    decreases |s|
  {
    if s != [] && Step(st, s[0]).Some? {
      LongestRun(Step(st, s[0]).value, s[1..]);
      assert s[..Longest(st, s)][1..] == s[1..][..Longest(st, s) - 1];
    }
  }

  lemma {:induction false} RunAppend(st: Num, a: bytes, b: bytes)
    ensures Run(st, a + b) == match Run(st, a) case None => None case Some(mid) => Run(mid, b)
    decreases |a|
  {
    if a == [] {
      assert a + b == b;
    } else {
      assert (a + b)[1..] == a[1..] + b;
      if Step(st, a[0]).Some? {
        RunAppend(Step(st, a[0]).value, a[1..], b);
      }
    }
  }

  lemma RunOne(st: Num, b: byte)
    ensures Run(st, [b]) == Step(st, b)
  {
  }

  lemma {:induction false} RunDigits(st: Num, s: bytes)
    requires AllDigits(s) && s != []
    requires st.Int? || st.Dot? || st.Frac? || st.Exp? || st.ExpSign? || st.ExpDigits?
    ensures Run(st, s) == Some(if st.Int? then Int else if st.Dot? || st.Frac? then Frac else ExpDigits)
    decreases |s|
  {
    if |s| > 1 {
      RunDigits(Step(st, s[0]).value, s[1..]);
    }
  }

  lemma RunInt(st: Num, s: bytes)
    requires (st.Start? || st.Minus?) && IsInt(s)
    ensures Run(st, s) == Some(Zero) || Run(st, s) == Some(Int)
  {
    if |s| > 1 {
      RunDigits(Int, s[1..]);
    }
  }

  lemma RunFrac(st: Num, s: bytes)
    requires (st.Zero? || st.Int?) && IsFrac(s)
    ensures Run(st, s) == Some(if s == [] then st else Frac)
  {
    if s != [] {
      RunDigits(Dot, s[1..]);
    }
  }

  lemma RunExp(st: Num, s: bytes)
    requires (st.Zero? || st.Int? || st.Frac?) && IsExp(s)
    ensures Run(st, s) == Some(if s == [] then st else ExpDigits)
  {
    if s != [] {
      if AllDigits(s[1..]) {
        RunDigits(Exp, s[1..]);
      } else {
        RunDigits(ExpSign, s[2..]);
        assert s[1..][1..] == s[2..];
      }
    }
  }

  lemma RunParts(a: bytes, b: bytes, c: bytes, d: bytes)
    requires IsSign(a) && IsInt(b) && IsFrac(c) && IsExp(d)
    ensures Run(Start, a + b + c + d).Some? && IsFinal(Run(Start, a + b + c + d).value)
  {
    var st := if a == [] then Start else Num.Minus;
    assert Run(Start, a) == Some(st);
    RunInt(st, b);
    RunAppend(Start, a, b);
    var n := Run(st, b).value;
    RunFrac(n, c);
    RunAppend(Start, a + b, c);
    RunExp(Run(n, c).value, d);
    RunAppend(Start, a + b + c, d);
  }

  lemma FourParts(s: bytes, i: nat, f: nat, e: nat)
    requires i <= f <= e <= |s|
    ensures s == s[..i] + s[i..f] + s[f..e] + s[e..]
  {
  }

  lemma NumberRuns(s: bytes, i: nat, f: nat, e: nat)
    requires SplitsAt(s, i, f, e)
    ensures Run(Start, s).Some? && IsFinal(Run(Start, s).value)
  {
    FourParts(s, i, f, e);
    RunParts(s[..i], s[i..f], s[f..e], s[e..]);
  }

  /** What has been read when the automaton is in state `st`: up to `i` the sign, up to `f` the integer,
      up to `e` the fraction. */
  predicate Read(st: Num, s: bytes, i: nat, f: nat, e: nat) {
    i <= f <= e <= |s| && IsSign(s[..i]) &&
    match st
    case Start => s == []
    case Minus => s == [MINUS] && i == 1
    case Zero => f == |s| && s[i..] == [DIGIT_0]
    case Int => f == |s| && s[i..] != [] && s[i] != DIGIT_0 && AllDigits(s[i..])
    case Dot => IsInt(s[i..f]) && e == |s| && s[f..] == [DOT]
    case Frac => IsInt(s[i..f]) && e == |s| && s[f..] != [] && IsFrac(s[f..])
    case Exp => IsInt(s[i..f]) && IsFrac(s[f..e]) && (s[e..] == [LOWER_E] || s[e..] == [UPPER_E])
    case ExpSign =>
      IsInt(s[i..f]) && IsFrac(s[f..e]) && |s| == e + 2 && (s[e] == LOWER_E || s[e] == UPPER_E) &&
      (s[e + 1] == PLUS || s[e + 1] == MINUS)
    case ExpDigits => IsInt(s[i..f]) && IsFrac(s[f..e]) && s[e..] != [] && IsExp(s[e..])
  }

  lemma ReadInt(st: Num, s: bytes, i: nat, f: nat, e: nat, b: byte)
    requires Read(st, s, i, f, e) && Step(st, b).Some? && (Step(st, b).value.Zero? || Step(st, b).value.Int?)
    ensures i <= |s| && Read(Step(st, b).value, s + [b], i, |s| + 1, |s| + 1)
  {
    PartsOfAppend(s, b, i, f, e);
    if st.Start? || st.Minus? {
      assert s[i..] == [];
    } else {
      assert (s + [b])[i] == s[i];
    }
  }

  lemma ReadFrac(st: Num, s: bytes, i: nat, f: nat, e: nat, b: byte)
    requires Read(st, s, i, f, e) && Step(st, b).Some? && (Step(st, b).value.Dot? || Step(st, b).value.Frac?)
    ensures Read(Step(st, b).value, s + [b], i, f, |s| + 1)
  {
    PartsOfAppend(s, b, i, f, e);
    if st.Zero? || st.Int? {
      SliceToEnd(s, i);
      assert s[f..] == [];
    } else {
      assert (s[f..] + [b])[1..] == s[f..][1..] + [b];
    }
  }

  lemma ReadExp(st: Num, s: bytes, i: nat, f: nat, e: nat, b: byte)
    requires Read(st, s, i, f, e) && Step(st, b) == Some(Exp)
    ensures Read(Exp, s + [b], i, f, |s|)
  {
    PartsOfAppend(s, b, i, f, |s|);
    SliceToEnd(s, f);
    SliceToEnd(s, i);
    assert s[|s|..] + [b] == [b];
    if st.Zero? || st.Int? {
      assert s[f..] == [];
    }
  }

  lemma ExpGrows(x: bytes, b: byte)
    requires IsDigit(b) && x != [] && (x[0] == LOWER_E || x[0] == UPPER_E)
    requires |x| == 1 || (|x| == 2 && (x[1] == PLUS || x[1] == MINUS)) || IsExp(x)
    ensures IsExp(x + [b])
  {
    var y := x + [b];
    assert y[1..] == x[1..] + [b];
    if |x| >= 2 {
      assert y[2..] == x[2..] + [b];
    }
  }

  lemma ReadExpDigits(st: Num, s: bytes, i: nat, f: nat, e: nat, b: byte)
    requires Read(st, s, i, f, e) && Step(st, b).Some? && (st.Exp? || st.ExpSign? || st.ExpDigits?)
    ensures Read(Step(st, b).value, s + [b], i, f, e)
  {
    PartsOfAppend(s, b, i, f, e);
    if IsDigit(b) {
      ExpGrows(s[e..], b);
    }
    assert (s + [b])[e] == s[e];
  }

  lemma ReadStep(st: Num, s: bytes, i: nat, f: nat, e: nat, b: byte) returns (i': nat, f': nat, e': nat)
    requires Read(st, s, i, f, e) && Step(st, b).Some?
    ensures Read(Step(st, b).value, s + [b], i', f', e')
  {
    var next := Step(st, b).value;
    if next.Minus? {
      i', f', e' := 1, 1, 1;
    } else if next.Zero? || next.Int? {
      ReadInt(st, s, i, f, e, b);
      i', f', e' := i, |s| + 1, |s| + 1;
    } else if next.Dot? || next.Frac? {
      ReadFrac(st, s, i, f, e, b);
      i', f', e' := i, f, |s| + 1;
    } else if next.Exp? {
      ReadExp(st, s, i, f, e, b);
      i', f', e' := i, f, |s|;
    } else {
      ReadExpDigits(st, s, i, f, e, b);
      i', f', e' := i, f, e;
    }
  }

  lemma {:induction false} RunReads(s: bytes) returns (i: nat, f: nat, e: nat)
    requires Run(Start, s).Some?
    ensures Read(Run(Start, s).value, s, i, f, e)
  {
    if s == [] {
      i, f, e := 0, 0, 0;
    } else {
      var a, b := s[..|s| - 1], s[|s| - 1];
      assert s == a + [b];
      RunAppend(Start, a, [b]);
      RunOne(Run(Start, a).value, b);
      i, f, e := RunReads(a);
      i, f, e := ReadStep(Run(Start, a).value, a, i, f, e, b);
    }
  }

  /** The automaton accepts exactly the numbers of RFC 8259. */
  lemma AutomatonIsGrammar(s: bytes)
    ensures IsNumber(s) <==> (Run(Start, s).Some? && IsFinal(Run(Start, s).value))
  {
    if IsNumber(s) {
      var i: nat, f: nat, e: nat :| SplitsAt(s, i, f, e);
      NumberRuns(s, i, f, e);
    }
    if Run(Start, s).Some? && IsFinal(Run(Start, s).value) {
      var i, f, e := RunReads(s);
      SliceToEnd(s, f);
      SliceToEnd(s, i);
      assert SplitsAt(s, i, f, e);
    }
  }

  // ---------- scanning ----------

  /** The number at the start of `s`: the longest run, if it ends in a final state. */
  function ScanNumber(s: bytes): (r: Option<Scanned<bytes>>)
  {
    var n := Longest(Start, s);
    LongestRun(Start, s);
    if IsFinal(Run(Start, s[..n]).value) then Some(Scanned(s[..n], s[n..])) else None
  }

  lemma ScanNumberSound(s: bytes)
    requires ScanNumber(s).Some?
    ensures var r := ScanNumber(s).value;
            IsNumber(r.item) && r.item != [] && s == r.item + r.rest
  {
    LongestRun(Start, s);
    AutomatonIsGrammar(s[..Longest(Start, s)]);
  }

  /** Whether a number can end before `t`. */
  predicate Delimits(t: bytes) {
    t == [] || !(IsDigit(t[0]) || t[0] == DOT || t[0] == LOWER_E || t[0] == UPPER_E || t[0] == PLUS || t[0] == MINUS)
  }

  lemma {:induction false} LongestStops(st: Num, s: bytes, t: bytes)
    requires Run(st, s).Some? && Delimits(t)
    ensures Longest(st, s + t) == |s|
    decreases |s|
  {
    if s == [] {
      assert s + t == t;
    } else {
      assert (s + t)[1..] == s[1..] + t;
      LongestStops(Step(st, s[0]).value, s[1..], t);
    }
  }

  lemma ScanNumberComplete(s: bytes, t: bytes)
    requires IsNumber(s) && Delimits(t)
    ensures ScanNumber(s + t) == Some(Scanned(s, t))
  {
    AutomatonIsGrammar(s);
    LongestStops(Start, s, t);
    assert (s + t)[..|s|] == s && (s + t)[|s|..] == t;
  }

  lemma NumberStart(s: bytes)
    requires IsNumber(s)
    ensures s != [] && (s[0] == MINUS || IsDigit(s[0]))
  {
    AutomatonIsGrammar(s);
  }

  // ---------- decimal integers ----------

  const USIZE_MAX: nat := 0xFFFF_FFFF_FFFF_FFFF

  /** What fits a machine word. */
  type usize = n: int | 0 <= n <= USIZE_MAX

  /** The canonical decimal digits of `n`. */
  function Decimal(n: nat): (s: bytes)
    ensures s != [] && AllDigits(s)
  {
    (if n < 10 then [] else Decimal(n / 10)) + [0x30 + n % 10]
  }

  function DigitsValue(s: bytes): nat
    requires AllDigits(s)
  {
    if s == [] then 0 else DigitsValue(s[..|s| - 1]) * 10 + (s[|s| - 1] - 0x30)
  }

  /** The fold of `parse_index`, with checked arithmetic. */
  function FoldDigits(acc: nat, s: bytes): Option<nat>
    decreases |s|
  {
    if s == [] then Some(acc)
    else if IsDigit(s[0]) && acc * 10 <= USIZE_MAX && acc * 10 + (s[0] - 0x30) <= USIZE_MAX
    then FoldDigits(acc * 10 + (s[0] - 0x30), s[1..])
    else None
  }

  function ParseIndex(s: bytes): Option<nat> {
    if s == [] || (|s| > 1 && s[0] == DIGIT_0) then None else FoldDigits(0, s)
  }

  lemma {:induction false} DecimalValue(n: nat)
    ensures DigitsValue(Decimal(n)) == n
    ensures Decimal(n)[0] == DIGIT_0 <==> n == 0
  {
    if n >= 10 {
      DecimalValue(n / 10);
      assert Decimal(n)[..|Decimal(n)| - 1] == Decimal(n / 10);
    }
  }

  lemma {:induction false} CanonicalIsDecimal(s: bytes)
    requires AllDigits(s) && s != [] && (|s| > 1 ==> s[0] != DIGIT_0)
    ensures s == Decimal(DigitsValue(s))
    ensures |s| > 1 ==> DigitsValue(s) >= 10
  {
    var a, d := s[..|s| - 1], s[|s| - 1] - 0x30;
    if |s| > 1 {
      CanonicalIsDecimal(a);
      var v := DigitsValue(a);
      if |a| == 1 {
        assert a[..0] == [];
        assert v == a[0] - 0x30;
      }
      assert (v * 10 + d) / 10 == v && (v * 10 + d) % 10 == d;
      assert s == a + [0x30 + d];
    } else {
      assert a == [];
    }
  }

  lemma {:induction false} FoldIsValue(done: bytes, s: bytes)
    requires AllDigits(done) && DigitsValue(done) <= USIZE_MAX
    ensures FoldDigits(DigitsValue(done), s)
         == if AllDigits(s) && DigitsValue(done + s) <= USIZE_MAX then Some(DigitsValue(done + s)) else None
    decreases |s|
  {
    if s == [] {
      assert done + s == done;
    } else if IsDigit(s[0]) {
      var next := done + [s[0]];
      assert next[..|next| - 1] == done;
      assert next + s[1..] == done + s;
      if DigitsValue(next) <= USIZE_MAX {
        FoldIsValue(next, s[1..]);
        assert AllDigits(s) <==> AllDigits(s[1..]);
      } else if AllDigits(s) {
        ValueGrows(next, s[1..]);
      }
    }
  }

  lemma {:induction false} ValueGrows(a: bytes, b: bytes)
    requires AllDigits(a) && AllDigits(b)
    ensures DigitsValue(a + b) >= DigitsValue(a)
  {
    if b == [] {
      assert a + b == a;
    } else {
      assert (a + b)[..|a + b| - 1] == a + b[..|b| - 1];
      ValueGrows(a, b[..|b| - 1]);
    }
  }

  /** Parsing gives `i` exactly on the canonical digits of `i`, and overflow is rejected. */
  lemma ParseIndexExact(s: bytes, i: nat)
    ensures ParseIndex(s) == Some(i) <==> (s == Decimal(i) && i <= USIZE_MAX)
  {
    FoldIsValue([], s);
    assert [] + s == s;
    DecimalValue(i);
    if ParseIndex(s) == Some(i) {
      CanonicalIsDecimal(s);
    }
    if s == Decimal(i) && i <= USIZE_MAX {
      if i < 10 {
        assert |s| == 1;
      }
    }
  }

  function Pow10(k: nat): (p: nat)
    ensures p >= 1
  {
    if k == 0 then 1 else 10 * Pow10(k - 1)
  }

  lemma {:induction false} DecimalFits(n: nat, k: nat)
    requires k >= 1
    ensures |Decimal(n)| <= k <==> n < Pow10(k)
  {
    if k == 1 {
      assert Pow10(1) == 10 * Pow10(0);
    } else if n >= 10 {
      DecimalFits(n / 10, k - 1);
    }
  }

  /** The fixed buffers of the callers are large enough: 10 digits for 32 bits, 20 for 64, 40 for 128. */
  lemma BuffersSuffice(n: nat)
    ensures n < 0x1_0000_0000 ==> |Decimal(n)| <= 10
    ensures n <= USIZE_MAX ==> |Decimal(n)| <= 20
    ensures n < 0x1_0000_0000_0000_0000_0000_0000_0000_0000 ==> |Decimal(n)| <= 40
  {
    assert Pow10(5) == 100000;
    assert Pow10(10) == 100000 * Pow10(5);
    assert Pow10(15) == 100000 * Pow10(10);
    assert Pow10(20) == 100000 * Pow10(15);
    assert Pow10(25) == 100000 * Pow10(20);
    assert Pow10(30) == 100000 * Pow10(25);
    assert Pow10(35) == 100000 * Pow10(30);
    assert Pow10(40) == 100000 * Pow10(35);
    DecimalFits(n, 10);
    DecimalFits(n, 20);
    DecimalFits(n, 40);
  }

  lemma LastDigit(n: nat, after: bytes)
    ensures n < 10 ==> Decimal(n) == [0x30 + n % 10]
    ensures n >= 10 ==> Decimal(n) + after == Decimal(n / 10) + ([0x30 + n % 10] + after) && |Decimal(n)| == |Decimal(n / 10)| + 1
    ensures |Decimal(n)| > 0
  {
    if n >= 10 {
      Cat3(Decimal(n / 10), [0x30 + n % 10], after);
    }
  }

  /** Formats `v` at the end of `buf`; the digits are `buf[i..]`. */
  method FormatUint(v: nat, buf: array<byte>) returns (i: nat)
    requires |Decimal(v)| <= buf.Length
    modifies buf
    ensures i <= buf.Length && buf[i..] == Decimal(v)
    ensures buf[..i] == old(buf[..i])
  {
    hide Decimal;
    var rest, more := v, true;
    i := buf.Length;
    LastDigit(v, []);
    assert buf[i..] == [] && Decimal(v) + [] == Decimal(v);
    while more
      invariant i <= buf.Length && buf[..i] == old(buf[..i])
      invariant if more then 0 < |Decimal(rest)| <= i && Decimal(rest) + buf[i..] == Decimal(v) else buf[i..] == Decimal(v)
      decreases more, rest
    {
      ghost var after := buf[i..];
      LastDigit(rest, after);
      LastDigit(rest / 10, []);
      i := i - 1;
      buf[i] := 0x30 + rest % 10;
      assert buf[i..] == [0x30 + rest % 10] + after;
      rest, more := rest / 10, rest >= 10;
    }
  }
}
