/** Fixed-width two's-complement integers of the .NET runtime (int, long),
    and the wrap-around that unchecked arithmetic and Interlocked.Add perform. */
module Ints {

  const TWO_32: int := 0x1_0000_0000
  const TWO_64: int := 0x1_0000_0000_0000_0000

  const MIN_INT32: int := -0x8000_0000
  const MAX_INT32: int := 0x7FFF_FFFF
  const MIN_INT64: int := -0x8000_0000_0000_0000
  const MAX_INT64: int := 0x7FFF_FFFF_FFFF_FFFF

  /** C# `int` (System.Int32). */
  type Int32 = x: int | -0x8000_0000 <= x <= 0x7FFF_FFFF

  /** C# `long` (System.Int64). */
  type Int64 = x: int | -0x8000_0000_0000_0000 <= x <= 0x7FFF_FFFF_FFFF_FFFF

  /** The 32-bit result of unchecked arithmetic whose exact value is `x`. */
  function Wrap32(x: int): (r: Int32)
    ensures (x - r) % TWO_32 == 0
    ensures MIN_INT32 <= x <= MAX_INT32 ==> r == x
  {
    var m := (x - MIN_INT32) % TWO_32;
    assert x - MIN_INT32 == TWO_32 * ((x - MIN_INT32) / TWO_32) + m;
    m + MIN_INT32
  }

  /** The 64-bit result of unchecked arithmetic (or Interlocked.Add) whose exact value is `x`. */
  function Wrap64(x: int): (r: Int64)
    ensures (x - r) % TWO_64 == 0
    ensures MIN_INT64 <= x <= MAX_INT64 ==> r == x
  {
    var m := (x - MIN_INT64) % TWO_64;
    assert x - MIN_INT64 == TWO_64 * ((x - MIN_INT64) / TWO_64) + m;
    m + MIN_INT64
  }

  /** Two 32-bit values congruent modulo 2^32 are equal. */
  lemma Int32Congruent(a: Int32, b: Int32)
    requires (a - b) % TWO_32 == 0
    ensures a == b
  {
    var q := (a - b) / TWO_32;
    assert a - b == TWO_32 * q;
  }

  /** Wrap32 picks the only Int32 congruent to its argument. */
  lemma Wrap32Unique(x: int, r: Int32)
    requires (x - r) % TWO_32 == 0
    ensures Wrap32(x) == r
  {
    var w := Wrap32(x);
    var q1 := (x - r) / TWO_32;
    var q2 := (x - w) / TWO_32;
    assert x - r == TWO_32 * q1;
    assert x - w == TWO_32 * q2;
    assert w - r == TWO_32 * (q1 - q2);
    assert (w - r) % TWO_32 == 0;
    Int32Congruent(w, r);
  }

  /** Two 64-bit values congruent modulo 2^64 are equal. */
  lemma Int64Congruent(a: Int64, b: Int64)
    requires (a - b) % TWO_64 == 0
    ensures a == b
  {
    var q := (a - b) / TWO_64;
    assert a - b == TWO_64 * q;
  }

  /** Wrap64 picks the only Int64 congruent to its argument: wrapping is
      independent of the representative, so wrapping after every step equals
      wrapping once at the end. */
  lemma Wrap64Unique(x: int, r: Int64)
    requires (x - r) % TWO_64 == 0
    ensures Wrap64(x) == r
  {
    var w := Wrap64(x);
    var q1 := (x - r) / TWO_64;
    var q2 := (x - w) / TWO_64;
    assert x - r == TWO_64 * q1;
    assert x - w == TWO_64 * q2;
    assert w - r == TWO_64 * (q1 - q2);
    assert (w - r) % TWO_64 == 0;
    Int64Congruent(w, r);
  }

  /** Adding after a wrap wraps to the same value as adding exactly. */
  lemma Wrap64Add(x: int, a: int)
    ensures Wrap64(Wrap64(x) + a) == Wrap64(x + a)
  {
    var w := Wrap64(x);
    var r := Wrap64(x + a);
    var q1 := (x - w) / TWO_64;
    var q2 := (x + a - r) / TWO_64;
    assert x - w == TWO_64 * q1;
    assert x + a - r == TWO_64 * q2;
    assert (w + a) - r == TWO_64 * (q2 - q1);
    MultipleMod64((w + a) - r, q2 - q1);
    Wrap64Unique(w + a, r);
  }

  lemma MultipleMod64(k: int, q: int)
    requires k == TWO_64 * q
    ensures k % TWO_64 == 0
  {
  }
}
