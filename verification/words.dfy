/**
 Fixed-width machine words, as the C code uses them: 32-bit unsigned indices that
 wrap, and the slot arithmetic `index % capacity` built on them.
 */
module Words {

  const U32: nat := 0x1_0000_0000

  type u32 = x: int | 0 <= x < 0x1_0000_0000

  type u16 = x: int | 0 <= x < 0x1_0000

  type byte = bv8

  /** `uint32_t` addition. */
  function Add32(a: int, b: int): u32 {
    (a + b) % U32
  }

  /** `uint32_t` subtraction. */
  function Sub32(a: int, b: int): u32 {
    (a - b) % U32
  }

  /** The 32-bit index that stands for the unbounded count `n`. */
  function Index(n: nat): u32 {
    n % U32
  }

  /** A count cast to `uint16_t`. */
  function Trunc16(n: nat): u16 {
    n % 0x1_0000
  }

  /** The slot of a ring of `capacity` cells that an index selects. */
  function Slot(n: nat, capacity: nat): (slot: nat)
    requires capacity > 0
    ensures slot < capacity
  {
    n % capacity
  }

  function Pow2(e: nat): (p: nat)
    ensures p > 0
  {
    if e == 0 then 1 else 2 * Pow2(e - 1)
  }

  function Min(a: int, b: int): int {
    if a < b then a else b
  }

  /** A nonzero multiple of `d` is at least `d` away from zero. */
  lemma MultipleGap(e: int, d: nat)
    ensures e >= 1 ==> e * d >= d
    ensures e <= -1 ==> e * d + d <= 0
  {
    if e >= 1 {
      assert e * d == d + (e - 1) * d;
    } else if e <= -1 {
      assert e * d + d == (e + 1) * d;
    }
  }

  lemma QuotientUnique(x: nat, d: nat, q: nat)
    requires d > 0 && q * d <= x < q * d + d
    ensures x / d == q
  {
    MultipleGap(q - x / d, d);
    assert (q - x / d) * d == q * d - x / d * d;
  }

  lemma QuotientBounds(x: nat, d: nat)
    requires d > 0
    ensures x / d * d <= x < x / d * d + d
  {
  }

  lemma ModUnique(x: int, d: nat, q: int, r: int)
    requires 0 <= r < d && x == q * d + r
    ensures x % d == r
  {
    var e := q - x / d;
    assert r == x % d - e * d;
    MultipleGap(e, d);
  }

  lemma ModShift(x: int, d: nat, k: int)
    requires d > 0
    ensures (x + k * d) % d == x % d
  {
    ModUnique(x + k * d, d, x / d + k, x % d);
  }

  lemma AddIndex(n: nat, k: nat)
    ensures Add32(Index(n), k) == Index(n + k)
  {
    ModShift(n % U32 + k, U32, n / U32);
  }

  /** Two counts less than 2^32 apart are told apart by their wrapped indices. */
  lemma SubIndex(hi: nat, lo: nat)
    requires lo <= hi < lo + U32
    ensures Sub32(Index(hi), Index(lo)) == hi - lo
  {
    ModShift(hi % U32 - lo % U32, U32, hi / U32 - lo / U32);
    assert hi - lo == hi % U32 - lo % U32 + (hi / U32 - lo / U32) * U32;
  }

  /** When the capacity divides 2^32 the wrapped index and the count name the same slot. */
  lemma SlotOfIndex(n: nat, cap: nat)
    requires 0 < cap && U32 % cap == 0
    ensures Slot(Index(n), cap) == Slot(n, cap)
  {
    var m := U32 / cap;
    assert U32 == m * cap;
    var q := n / U32;
    assert n == n % U32 + (q * m) * cap by {
      assert (q * m) * cap == q * (m * cap);
    }
    ModShift(n % U32, cap, q * m);
  }

  /** Inside a window of `cap` consecutive counts no two counts share a slot. */
  lemma SlotsDiffer(a: nat, b: nat, cap: nat)
    requires 0 < cap && a < b < a + cap
    ensures Slot(a, cap) != Slot(b, cap)
  {
    if a % cap == b % cap {
      assert b - a == (b / cap - a / cap) * cap;
      MultipleGap(b / cap - a / cap, cap);
    }
  }
}
