/** The nesting stack: one bit per level, set inside objects. It refines a sequence of booleans. */
module Nesting {
  import opened Bytes

  const U16_MAX: nat := 0xFFFF

  /** `1 << k` */
  function Mask(k: nat): bv8
    requires k < 8
  {
    if k == 0 then 0x01 else if k == 1 then 0x02 else if k == 2 then 0x04 else if k == 3 then 0x08
    else if k == 4 then 0x10 else if k == 5 then 0x20 else if k == 6 then 0x40 else 0x80
  }

  function Bit(b: bv8, k: nat): bool
    requires k < 8
  {
    b & Mask(k) != 0
  }

  lemma MaskedBits(b: bv8, m: bv8, n: bv8)
    requires m & n == 0
    ensures (b | m) & n == b & n && (b & !m) & n == b & n
  {
  }

  lemma OwnBit(b: bv8, k: nat)
    requires k < 8
    ensures Bit(b | Mask(k), k) && !Bit(b & !Mask(k), k)
  {
  }

  lemma MasksDisjoint(k: nat, j: nat)
    requires k < 8 && j < 8 && k != j
    ensures Mask(k) & Mask(j) == 0
  {
  }

  lemma SetKeepsOthers(b: bv8, k: nat, j: nat)
    requires k < 8 && j < 8 && k != j
    ensures Bit(b | Mask(k), j) == Bit(b, j)
  {
    MasksDisjoint(k, j);
    MaskedBits(b, Mask(k), Mask(j));
  }

  lemma ClearKeepsOthers(b: bv8, k: nat, j: nat)
    requires k < 8 && j < 8 && k != j
    ensures Bit(b & !Mask(k), j) == Bit(b, j)
  {
    MasksDisjoint(k, j);
    MaskedBits(b, Mask(k), Mask(j));
  }

  /** The first `depth` bits. */
  function LevelsOf(bits: seq<bv8>, depth: nat): (s: seq<bool>)
    requires depth <= |bits| * 8
  {
    seq(depth, i requires 0 <= i < depth => Bit(bits[i / 8], i % 8))
  }

  /** `b` with bit `k` set or cleared. */
  function Put(b: bv8, k: nat, on: bool): (r: bv8)
    requires k < 8
  {
    if on then b | Mask(k) else b & !Mask(k)
  }

  lemma PutBit(b: bv8, k: nat, on: bool, j: nat)
    requires k < 8 && j < 8
    ensures Bit(Put(b, k, on), j) == if j == k then on else Bit(b, j)
  {
    if j == k {
      OwnBit(b, k);
    } else {
      SetKeepsOthers(b, k, j);
      ClearKeepsOthers(b, k, j);
    }
  }

  lemma LevelAt(bits: seq<bv8>, d: nat, obj: bool, i: nat)
    requires i <= d < |bits| * 8
    ensures Bit(bits[d / 8 := Put(bits[d / 8], d % 8, obj)][i / 8], i % 8) == if i == d then obj else Bit(bits[i / 8], i % 8)
  {
    if i / 8 == d / 8 {
      PutBit(bits[d / 8], d % 8, obj, i % 8);
    }
  }

  /** Setting or clearing the next bit appends a level and disturbs no other. */
  lemma SetLevel(bits: seq<bv8>, d: nat, obj: bool)
    requires d < |bits| * 8
    ensures LevelsOf(bits[d / 8 := Put(bits[d / 8], d % 8, obj)], d + 1) == LevelsOf(bits, d) + [obj]
  {
    var after := bits[d / 8 := Put(bits[d / 8], d % 8, obj)];
    forall i | 0 <= i <= d
      ensures LevelsOf(after, d + 1)[i] == if i == d then obj else LevelsOf(bits, d)[i]
    {
      LevelAt(bits, d, obj, i);
    }
  }

  class BitStack {
    const bits: array<bv8>
    var depth: nat

    ghost predicate Valid()
      reads this
    {
      depth <= Max()
    }

    /** MAX: the number of levels. */
    function Max(): (m: nat)
      ensures m <= bits.Length * 8
    {
      Min(bits.Length * 8, U16_MAX)
    }

    /** The levels, outermost first: true is an object. */
    ghost function Levels(): (s: seq<bool>)
      requires Valid()
      reads this, bits
      ensures |s| == depth
    {
      LevelsOf(bits[..], depth)
    }

    constructor (n: nat)
      ensures Valid() && fresh(bits) && bits.Length == n && Levels() == []
      ensures Max() == if n < 8192 then 8 * n else 65535
    {
      bits := new bv8[n](i => 0);
      depth := 0;
    }

    method Push(obj: bool) returns (ok: bool)
      requires Valid()
      modifies this`depth, bits
      ensures Valid()
      ensures ok == (old(depth) < Max())
      ensures Levels() == if ok then old(Levels()) + [obj] else old(Levels())
    {
      var d := depth;
      if d >= Max() {
        return false;
      }
      SetLevel(bits[..], d, obj);
      ghost var after := bits[..][d / 8 := Put(bits[d / 8], d % 8, obj)];
      bits[d / 8] := Put(bits[d / 8], d % 8, obj);
      assert bits[..] == after;
      depth := depth + 1;
      ok := true;
    }

    method Pop()
      requires Valid()
      modifies this`depth
      ensures Valid()
      ensures Levels() == if old(depth) > 0 then old(Levels())[..old(depth) - 1] else []
    {
      depth := if depth > 0 then depth - 1 else 0;
    }

    /** The innermost level; none at top level. */
    method Top() returns (r: Option<bool>)
      requires Valid()
      ensures r == if Levels() == [] then None else Some(Levels()[|Levels()| - 1])
    {
      if depth == 0 {
        return None;
      }
      var d := depth - 1;
      return Some(bits[d / 8] & Mask(d % 8) != 0);
    }
  }
}
