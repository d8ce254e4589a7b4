/** UTF-8 (RFC 3629): the encoding of a scalar value, and the byte table that recognizes it. */
module Utf8Coding {
  import opened Bytes

  predicate Scalar(cp: int) {
    0 <= cp < 0xD800 || 0xE000 <= cp < 0x110000
  }

  /** The encoding of a scalar value, section 3 of RFC 3629 (nothing, for other numbers). */
  function Utf8(cp: int): (r: bytes)
    ensures Scalar(cp) ==> 1 <= |r| <= 4
    ensures 0 <= cp < 0x80 ==> r == [cp]
    ensures cp >= 0x80 ==> forall i :: 0 <= i < |r| ==> r[i] >= 0x80
  {
    if !Scalar(cp) then []
    else if cp < 0x80 then [cp]
    else if cp < 0x800 then [0xC0 + cp / 0x40, 0x80 + cp % 0x40]
    else if cp < 0x10000 then [0xE0 + cp / 0x1000, 0x80 + cp / 0x40 % 0x40, 0x80 + cp % 0x40]
    else [0xF0 + cp / 0x40000, 0x80 + cp / 0x1000 % 0x40, 0x80 + cp / 0x40 % 0x40, 0x80 + cp % 0x40]
  }

  function Utf8All(cps: seq<int>): bytes {
    if cps == [] then [] else Utf8(cps[0]) + Utf8All(cps[1..])
  }

  /** What Rust's `str` guarantees about its bytes. */
  ghost predicate IsUtf8(s: bytes) {
    exists cps: seq<int> :: Scalars(cps) && Utf8All(cps) == s
  }

  /** Length and range of the second byte, by lead byte. */
  datatype Lead = Lead(len: nat, lo: byte, hi: byte)

  function LeadOf(b: byte): (r: Option<Lead>)
    ensures r.Some? ==> 2 <= r.value.len <= 4
  {
    if 0xC2 <= b <= 0xDF then Some(Lead(2, 0x80, 0xBF))
    else if b == 0xE0 then Some(Lead(3, 0xA0, 0xBF))
    else if 0xE1 <= b <= 0xEC || 0xEE <= b <= 0xEF then Some(Lead(3, 0x80, 0xBF))
    else if b == 0xED then Some(Lead(3, 0x80, 0x9F))
    else if b == 0xF0 then Some(Lead(4, 0x90, 0xBF))
    else if 0xF1 <= b <= 0xF3 then Some(Lead(4, 0x80, 0xBF))
    else if b == 0xF4 then Some(Lead(4, 0x80, 0x8F))
    else None
  }

  predicate InRange(l: Lead, k: nat, b: byte) {
    if k == 1 then l.lo <= b <= l.hi else 0x80 <= b <= 0xBF
  }

  /** Whether `s` starts with a multi-byte character, by the table. */
  predicate TableAccepts(s: bytes) {
    s != [] && LeadOf(s[0]).Some? &&
    var l := LeadOf(s[0]).value;
    l.len <= |s| && forall k :: 1 <= k < l.len ==> InRange(l, k, s[k])
  }

  function Continue(acc: int, b: byte): int {
    acc * 0x40 + (b - 0x80)
  }

  /** The scalar value of the multi-byte character at the start of `s`. */
  function TableScalar(s: bytes): (cp: int)
    requires TableAccepts(s)
  {
    var n := LeadOf(s[0]).value.len;
    if n == 2 then Continue(s[0] - 0xC0, s[1])
    else if n == 3 then Continue(Continue(s[0] - 0xE0, s[1]), s[2])
    else Continue(Continue(Continue(s[0] - 0xF0, s[1]), s[2]), s[3])
  }

  lemma DivMod(x: int, y: int, b: int)
    requires x == y * 0x40 + b && 0 <= b < 0x40
    ensures x / 0x40 == y && x % 0x40 == b
  {
  }

  lemma DivDiv(x: int)
    requires x >= 0
    ensures x / 0x1000 == x / 0x40 / 0x40 && x / 0x40000 == x / 0x40 / 0x40 / 0x40
  {
  }

  /** The table accepts nothing but encodings of scalar values... */
  lemma TableSound(s: bytes)
    requires TableAccepts(s)
    ensures Scalar(TableScalar(s)) && TableScalar(s) >= 0x80
    ensures Utf8(TableScalar(s)) == s[..LeadOf(s[0]).value.len]
  {
    hide Utf8, TableScalar;
    var l := LeadOf(s[0]).value;
    if l.len == 2 {
      TableSound2(s);
    } else if l.len == 3 {
      TableSound3(s);
    } else {
      TableSound4(s);
    }
  }

  lemma TableSound2(s: bytes)
    requires TableAccepts(s) && LeadOf(s[0]).value.len == 2
    ensures Scalar(TableScalar(s)) && TableScalar(s) >= 0x80 && Utf8(TableScalar(s)) == s[..2]
  {
    assert InRange(LeadOf(s[0]).value, 1, s[1]);
    DivMod(TableScalar(s), s[0] - 0xC0, s[1] - 0x80);
  }

  lemma TableSound3(s: bytes)
    requires TableAccepts(s) && LeadOf(s[0]).value.len == 3
    ensures Scalar(TableScalar(s)) && TableScalar(s) >= 0x80 && Utf8(TableScalar(s)) == s[..3]
  {
    var cp := TableScalar(s);
    assert InRange(LeadOf(s[0]).value, 1, s[1]) && InRange(LeadOf(s[0]).value, 2, s[2]);
    var c1 := Continue(s[0] - 0xE0, s[1]);
    DivMod(c1, s[0] - 0xE0, s[1] - 0x80);
    DivMod(cp, c1, s[2] - 0x80);
    DivDiv(cp);
  }

  lemma TableSound4(s: bytes)
    requires TableAccepts(s) && LeadOf(s[0]).value.len == 4
    ensures Scalar(TableScalar(s)) && TableScalar(s) >= 0x80 && Utf8(TableScalar(s)) == s[..4]
  {
    var cp := TableScalar(s);
    var l := LeadOf(s[0]).value;
    assert InRange(l, 1, s[1]) && InRange(l, 2, s[2]) && InRange(l, 3, s[3]);
    var c1 := Continue(s[0] - 0xF0, s[1]);
    var c2 := Continue(c1, s[2]);
    DivMod(c1, s[0] - 0xF0, s[1] - 0x80);
    DivMod(c2, c1, s[2] - 0x80);
    DivMod(cp, c2, s[3] - 0x80);
    DivDiv(cp);
  }

  /** ... and all of them. */
  lemma TableComplete(cp: int, t: bytes)
    requires Scalar(cp) && cp >= 0x80
    ensures TableAccepts(Utf8(cp) + t)
    ensures TableScalar(Utf8(cp) + t) == cp && LeadOf(Utf8(cp)[0]).value.len == |Utf8(cp)|
  {
    var u := Utf8(cp);
    var s := u + t;
    assert s[..|u|] == u;
    DivDiv(cp);
    if cp < 0x800 {
      assert s[0] == u[0] && s[1] == u[1];
    } else if cp < 0x10000 {
      assert s[0] == u[0] && s[1] == u[1] && s[2] == u[2];
    } else {
      assert s[0] == u[0] && s[1] == u[1] && s[2] == u[2] && s[3] == u[3];
    }
  }

  predicate Scalars(cps: seq<int>) {
    forall i :: 0 <= i < |cps| ==> Scalar(cps[i])
  }

  lemma {:induction false} Utf8AllAppend(a: seq<int>, b: seq<int>)
    ensures Utf8All(a + b) == Utf8All(a) + Utf8All(b)
  {
    if a == [] {
      assert a + b == b;
    } else {
      assert (a + b)[1..] == a[1..] + b;
      Utf8AllAppend(a[1..], b);
    }
  }
}
