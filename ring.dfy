/**
 * The signed 64-bit key space of the circular buffer. Both cursors of the
 * buffer live in [MIN_INT, MAX_INT] and step from MAX_INT to MIN_INT (and
 * back), so the keys form a ring of MODULUS positions.
 */
module Ring {

  /** `sys.maxint` of the 64-bit interpreter the queue runs on. */
  const MAX_INT: int := 0x7FFF_FFFF_FFFF_FFFF
  const MIN_INT: int := -0x8000_0000_0000_0000
  /** Number of keys on the ring, MAX_INT - MIN_INT + 1. */
  const MODULUS: int := 0x1_0000_0000_0000_0000

  predicate InRange(k: int) {
    MIN_INT <= k <= MAX_INT
  }

  /** Number of forward steps from `base` to `k` on the ring. */
  function Offset(base: int, k: int): (r: nat)
    ensures r < MODULUS
  {
    (k - base) % MODULUS
  }

  /** The key `i` forward steps after `base` on the ring. */
  function Shift(base: int, i: int): (r: int)
    ensures InRange(r)
    ensures InRange(base) && 0 <= i < MODULUS ==> Offset(base, r) == i
  {
    (base + i - MIN_INT) % MODULUS + MIN_INT
  }

  /** Stepping forward by the offset from `base` to `k` lands on `k`. */
  lemma ShiftOffset(base: int, k: int)
    requires InRange(k)
    ensures Shift(base, Offset(base, k)) == k
  {
  }

  /** Two keys of the ring are equal exactly when their offsets from any base are. */
  lemma OffsetInjective(base: int, j: int, k: int)
    requires InRange(j) && InRange(k)
    ensures Offset(base, j) == Offset(base, k) <==> j == k
  {
    ShiftOffset(base, j);
    ShiftOffset(base, k);
  }

  /**
   * One step forward, as the cursors advance after a tail insert or a head
   * removal: MAX_INT + 1 wraps to MIN_INT.
   */
  function Next(k: int): (r: int)
    requires InRange(k)
    ensures r == Shift(k, 1)
  {
    if k + 1 > MAX_INT then MIN_INT else k + 1
  }

  /**
   * One step back, as `start` moves before a head insert: MIN_INT - 1 wraps
   * to MAX_INT.
   */
  function Prev(k: int): (r: int)
    requires InRange(k)
    ensures r == Shift(k, MODULUS - 1)
    ensures Next(r) == k
  {
    if k - 1 < MIN_INT then MAX_INT else k - 1
  }

  /**
   * Number of items between the cursors: `stop - start` when the range does
   * not wrap, the wrapped distance otherwise. It is the forward distance on
   * the ring from `start` to `stop`, so it is always below MODULUS and
   * `start == stop` reads as empty.
   */
  function Size(start: int, stop: int): (r: nat)
    requires InRange(start) && InRange(stop)
    ensures r == Offset(start, stop)
    ensures r == 0 <==> start == stop
  {
    if stop >= start then stop - start
    else (MAX_INT - start + 1) + (stop - MIN_INT)
  }

  /** Shifts that agree modulo MODULUS land on the same key. */
  lemma ShiftCongruent(x: int, i: int, y: int, j: int)
    requires (x + i - y - j) % MODULUS == 0
    ensures Shift(x, i) == Shift(y, j)
  {
    var q := (x + i - y - j) / MODULUS;
    assert x + i - MIN_INT == (y + j - MIN_INT) + q * MODULUS;
  }

  /** Stepping forward `j` keys after stepping forward `i` keys steps `i + j` keys. */
  lemma ShiftShift(base: int, i: int, j: int)
    ensures Shift(Shift(base, i), j) == Shift(base, i + j)
  {
    var q := (base + i - MIN_INT) / MODULUS;
    assert Shift(base, i) == base + i - q * MODULUS;
    ShiftCongruent(Shift(base, i), j, base, i + j);
  }

  /** Seen from one step further on, every other key is one step closer. */
  lemma OffsetNext(base: int, k: int)
    requires InRange(base) && InRange(k) && k != base
    ensures Offset(Next(base), k) == Offset(base, k) - 1
  {
    OffsetInjective(base, k, base);
    var q := (base + 1 - MIN_INT) / MODULUS;
    assert Next(base) == base + 1 - q * MODULUS;
  }
}
