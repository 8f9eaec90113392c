/** Fixed-width machine integers. Every `u64` field of the crate is updated with
    `+`, `-`, `+=`, `-=`, `wrapping_add` or `wrapping_sub`; in a release build all
    of these wrap modulo 2^64 (a debug build panics on the plain operators instead).
    `isize` is a 64-bit two's complement integer on the crate's only target (x86_64). */
module Wrapping {

  const TWO_64: int := 0x1_0000_0000_0000_0000
  const TWO_63: int := 0x8000_0000_0000_0000

  type u64 = x: int | 0 <= x < TWO_64
  type i64 = x: int | -TWO_63 <= x < TWO_63

  const U64_MAX: u64 := TWO_64 - 1

  /** The u64 whose value is congruent to `x` modulo 2^64. */
  function Wrap(x: int): (r: u64)
    ensures 0 <= x < TWO_64 ==> r == x
    ensures (x - r) % TWO_64 == 0
  {
    x % TWO_64
  }

  /** `a.wrapping_add(b)`, and `a + b` in a release build. */
  function WrapAdd(a: u64, b: u64): (r: u64)
    ensures a + b < TWO_64 ==> r == a + b
    ensures a + b >= TWO_64 ==> r == a + b - TWO_64
  {
    Wrap(a + b)
  }

  /** `a.wrapping_sub(b)`, and `a - b` in a release build. */
  function WrapSub(a: u64, b: u64): (r: u64)
    ensures b <= a ==> r == a - b
    ensures a < b ==> r == a - b + TWO_64
  {
    Wrap(a - b)
  }

  /** Reinterpreting the bits of a u64 as an i64 (`u as isize`). */
  function AsSigned(u: u64): (r: i64)
    ensures Wrap(r) == u
  {
    if u < TWO_63 then u else u - TWO_64
  }

  /** The i64 congruent to `x` modulo 2^64: wrapping isize arithmetic. */
  function WrapSigned(x: int): (r: i64)
    ensures -TWO_63 <= x < TWO_63 ==> r == x
    ensures Wrap(r) == Wrap(x)
  {
    AsSigned(Wrap(x))
  }

  /** Reducing an intermediate result modulo 2^64 does not change the final residue. */
  lemma WrapInner(x: int, y: int)
    ensures Wrap(Wrap(x) + y) == Wrap(x + y)
  {
    var q := x / TWO_64;
    assert x == q * TWO_64 + Wrap(x);
    ModShift(Wrap(x) + y, q);
  }

  lemma ModShift(z: int, q: int)
    ensures (z + q * TWO_64) % TWO_64 == z % TWO_64
  {
    var r := z % TWO_64;
    var d := z / TWO_64;
    assert z == d * TWO_64 + r;
    assert z + q * TWO_64 == (d + q) * TWO_64 + r;
  }

  /** Two integers with the same residue have the same wrapped value, also after adding `y`. */
  lemma WrapCongruent(x: int, x': int, y: int)
    requires Wrap(x) == Wrap(x')
    ensures Wrap(x + y) == Wrap(x' + y)
  {
    WrapInner(x, y);
    WrapInner(x', y);
  }

  /** Subtracting congruent amounts from the same integer gives the same wrapped value. */
  lemma SubtractCongruent(t: int, a: int, b: int)
    requires Wrap(a) == Wrap(b)
    ensures Wrap(t - a) == Wrap(t - b)
  {
    var qa, qb := a / TWO_64, b / TWO_64;
    assert a == qa * TWO_64 + Wrap(a) && b == qb * TWO_64 + Wrap(b);
    ModShift(t - a, qa);
    ModShift(t - b, qb);
    assert t - a + qa * TWO_64 == t - Wrap(a);
    assert t - b + qb * TWO_64 == t - Wrap(b);
  }

  /** Adding to a wrapped accumulator is wrapping the unbounded sum. */
  lemma WrapAddStep(x: int, acc: u64, d: u64)
    requires acc == Wrap(x)
    ensures WrapAdd(acc, d) == Wrap(x + d)
  {
    WrapInner(x, d);
  }

  /** Subtracting a start reading and adding a stop reading leaves the accumulator
      advanced by the wrapped difference of the two readings. */
  lemma SubThenAdd(acc: u64, start: u64, stop: u64)
    ensures WrapAdd(WrapSub(acc, start), stop) == WrapAdd(acc, WrapSub(stop, start))
  {
    WrapInner(acc - start, stop);
    WrapInner(stop - start, acc);
  }

  /** One step of a wrapping isize accumulator (`acc -= e as isize`) keeps it
      congruent to the unbounded difference. */
  lemma SignedSubStep(acc: i64, x: int, e: u64, y: int)
    requires acc == WrapSigned(x) && y == x - e
    ensures WrapSigned(acc - AsSigned(e)) == WrapSigned(y)
  {
    WrapCongruent(acc, x, -(AsSigned(e) as int));
    if e >= TWO_63 {
      ModShift(x - e, 1);
    }
  }
}
