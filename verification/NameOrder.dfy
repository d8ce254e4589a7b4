/** The order of names: bytewise, that is, by code point. */
module NameOrder {
  import opened Bytes
  import opened Utf8Coding
  import opened Compare

  /** `a` is a proper prefix of `b`, or smaller at the first code point where they differ. */
  ghost predicate CpPrecedes(a: seq<int>, b: seq<int>) {
    (|a| < |b| && a == b[..|a|]) ||
    exists i :: 0 <= i < |a| && i < |b| && a[..i] == b[..i] && a[i] < b[i]
  }

  /** Where the encodings of two code points first differ, when they have the same length. */
  function FirstDifference(x: int, y: int): nat {
    if y < 0x80 then 0
    else if y < 0x800 then if x / 0x40 < y / 0x40 then 0 else 1
    else if y < 0x10000 then if x / 0x1000 < y / 0x1000 then 0 else if x / 0x40 < y / 0x40 then 1 else 2
    else if x / 0x40000 < y / 0x40000 then 0 else if x / 0x1000 < y / 0x1000 then 1 else if x / 0x40 < y / 0x40 then 2 else 3
  }

  lemma SameStart(x: int, y: int, k: nat)
    requires Scalar(x) && Scalar(y) && x < y && |Utf8(x)| == |Utf8(y)| && k == FirstDifference(x, y)
    ensures k < |Utf8(x)| && Utf8(x)[..k] == Utf8(y)[..k]
  {
  }

  lemma LongerEncoding(x: int, y: int)
    requires Scalar(x) && Scalar(y) && x < y && |Utf8(x)| != |Utf8(y)|
    ensures Utf8(x)[0] < Utf8(y)[0]
  {
  }

  lemma LastDigit(x: int, y: int)
    requires 0 <= x < y && x / 0x40 == y / 0x40
    ensures x % 0x40 < y % 0x40
  {
  }

  lemma Quotients(x: int)
    requires x >= 0
    ensures x / 0x40 / 0x40 == x / 0x1000 && x / 0x1000 / 0x40 == x / 0x40000
  {
  }

  lemma SmallerDigit(x: int, y: int, k: nat)
    requires Scalar(x) && Scalar(y) && x < y && |Utf8(x)| == |Utf8(y)| && k == FirstDifference(x, y) && k < |Utf8(x)|
    ensures Utf8(x)[k] < Utf8(y)[k]
  {
    Quotients(x);
    Quotients(y);
    if k > 0 {
      if |Utf8(x)| == k + 1 {
        LastDigit(x, y);
      } else if |Utf8(x)| == k + 2 {
        LastDigit(x / 0x40, y / 0x40);
      } else {
        LastDigit(x / 0x1000, y / 0x1000);
      }
    }
  }

  /** Of two code points, the encoding of the smaller one is smaller at the first byte where they differ. */
  lemma EncodedOrder(x: int, y: int) returns (k: nat)
    requires Scalar(x) && Scalar(y) && x < y
    ensures k < |Utf8(x)| && k < |Utf8(y)| && Utf8(x)[..k] == Utf8(y)[..k] && Utf8(x)[k] < Utf8(y)[k]
  {
    hide Utf8, FirstDifference;
    if |Utf8(x)| == |Utf8(y)| {
      k := FirstDifference(x, y);
      SameStart(x, y, k);
      SmallerDigit(x, y, k);
    } else {
      k := 0;
      LongerEncoding(x, y);
    }
  }

  lemma CommonPrefix(p: bytes, x: bytes, y: bytes)
    requires Precedes(x, y)
    ensures Precedes(p + x, p + y)
    decreases p
  {
    if p == [] {
      assert p + x == x && p + y == y;
    } else {
      CommonPrefix(p[1..], x, y);
      assert (p + x)[1..] == p[1..] + x && (p + y)[1..] == p[1..] + y;
      PrecedesAfter(p + x, p + y);
    }
  }

  lemma SmallerAt(x: bytes, s: bytes, y: bytes, t: bytes, k: nat)
    requires k < |x| && k < |y| && x[..k] == y[..k] && x[k] < y[k]
    ensures Precedes(x + s, y + t)
  {
    assert (x + s)[..k] == x[..k] && (y + t)[..k] == y[..k];
    assert (x + s)[k] < (y + t)[k];
  }

  lemma SmallerNames(a: seq<int>, b: seq<int>)
    requires Scalars(a) && Scalars(b) && CpPrecedes(a, b)
    ensures Precedes(Utf8All(a), Utf8All(b))
  {
    hide Utf8, Precedes;
    if |a| < |b| && a == b[..|a|] {
      assert b == a + b[|a|..];
      Utf8AllAppend(a, b[|a|..]);
      LongerName(Utf8All(a), b[|a|..]);
    } else {
      var i :| 0 <= i < |a| && i < |b| && a[..i] == b[..i] && a[i] < b[i];
      assert a == a[..i] + a[i..] && b == a[..i] + b[i..];
      Utf8AllAppend(a[..i], a[i..]);
      Utf8AllAppend(a[..i], b[i..]);
      var k := EncodedOrder(a[i], b[i]);
      SmallerAt(Utf8(a[i]), Utf8All(a[i..][1..]), Utf8(b[i]), Utf8All(b[i..][1..]), k);
      CommonPrefix(Utf8All(a[..i]), Utf8All(a[i..]), Utf8All(b[i..]));
    }
  }

  lemma LongerName(p: bytes, rest: seq<int>)
    requires rest != [] && Scalars(rest)
    ensures Precedes(p, p + Utf8All(rest))
  {
    assert (p + Utf8All(rest))[..|p|] == p;
  }

  lemma {:induction false} OneIsFirst(a: seq<int>, b: seq<int>)
    ensures a == b || CpPrecedes(a, b) || CpPrecedes(b, a)
  {
    if a != [] && b != [] {
      if a[0] == b[0] {
        OneIsFirst(a[1..], b[1..]);
        if a[1..] == b[1..] {
          assert a == [a[0]] + a[1..] && b == [b[0]] + b[1..];
        } else if CpPrecedes(a[1..], b[1..]) {
          CpAfter(a, b);
        } else {
          CpAfter(b, a);
        }
      } else {
        assert a[..0] == b[..0];
      }
    }
  }

  lemma CpAfter(a: seq<int>, b: seq<int>)
    requires a != [] && b != [] && a[0] == b[0] && CpPrecedes(a[1..], b[1..])
    ensures CpPrecedes(a, b)
  {
    var x, y := a[1..], b[1..];
    if |a| < |b| && x == y[..|x|] {
      assert a == [a[0]] + x && b[..|a|] == [b[0]] + y[..|x|];
    } else {
      var i :| 0 <= i < |x| && i < |y| && x[..i] == y[..i] && x[i] < y[i];
      assert a[..i + 1] == [a[0]] + x[..i] && b[..i + 1] == [b[0]] + y[..i] && a[i + 1] < b[i + 1];
    }
  }

  /** Comparing names bytewise is comparing them by code point. */
  lemma BytewiseIsByCodePoint(a: seq<int>, b: seq<int>)
    requires Scalars(a) && Scalars(b)
    ensures Cmp(Utf8All(a), Utf8All(b)) == Less <==> CpPrecedes(a, b)
    ensures Cmp(Utf8All(a), Utf8All(b)) == Equal <==> a == b
    ensures Cmp(Utf8All(a), Utf8All(b)) == Greater <==> CpPrecedes(b, a)
  {
    hide Cmp, CpPrecedes, Precedes, Utf8All;
    CmpIsBytewise(Utf8All(a), Utf8All(b));
    CmpEqual(Utf8All(a), Utf8All(b));
    OneIsFirst(a, b);
    if a != b {
      if CpPrecedes(a, b) {
        SmallerNames(a, b);
      } else {
        SmallerNames(b, a);
      }
      if CpPrecedes(b, a) {
        SmallerNames(b, a);
      }
    } else {
      NotItself(a);
    }
  }

  lemma NotItself(a: seq<int>)
    ensures !CpPrecedes(a, a)
  {
  }
}
