/**
 * The word arithmetic that sizes and places the memory reserved below the heap
 * for dynamic method address resolution.
 *
 * The required byte count, the heap's preferred address-space alignment and
 * the heap base are supplied by the runtime; here they are parameters. Words
 * are unsigned 64-bit values; subtraction wraps modulo 2^64 as it does on
 * the machine.
 */
module PreHeap {

  const WORD_MODULUS: int := 0x1_0000_0000_0000_0000

  /** An unsigned 64-bit machine word. */
  type Word = x: int | 0 <= x < WORD_MODULUS

  /** `x` rounded up to a multiple of `unit` does not exceed the word range. */
  predicate RoundUpFits(x: Word, unit: Word) {
    unit > 0 && x + unit - 1 < WORD_MODULUS
  }

  /** Rounds `x` up to the next multiple of `unit`, as `(x + unit - 1) / unit * unit`. */
  function RoundUp(x: Word, unit: Word): (r: Word)
    requires RoundUpFits(x, unit)
  {
    RoundUpQuotient(x, unit);
    (x + unit - 1) / unit * unit
  }

  /** Machine subtraction of words: wraps around below zero. */
  function Subtract(a: Word, b: Word): (r: Word)
    ensures (r + b) % WORD_MODULUS == a
  {
    (a - b) % WORD_MODULUS
  }

  /**
   * The bytes to reserve before the heap: the required count, rounded up so
   * that the heap after the reservation stays aligned.
   */
  function PreHeapMemoryBytes(required: Word, alignment: Word): (r: Word)
    requires RoundUpFits(required, alignment)
    ensures required <= r < required + alignment
    ensures r % alignment == 0
  {
    RoundUpBounds(required, alignment);
    RoundUp(required, alignment)
  }

  /**
   * Where the pre-heap mapping starts: the heap base minus the required
   * (unrounded) byte count, in wrapping word arithmetic.
   */
  function PreHeapMappingStartAddress(heapBase: Word, required: Word): (start: Word)
    ensures (start + required) % WORD_MODULUS == heapBase
    ensures start <= heapBase <==> required <= heapBase
  {
    Subtract(heapBase, required)
  }

  // ---------------------------------------------------------------------------
  // Division facts behind RoundUp.

  /** A positive multiple of `d` is at least `d`. */
  lemma MulAtLeast(k: int, d: int)
    requires k >= 1 && d > 0
    ensures k * d >= d
  {
    assert k * d == (k - 1) * d + d;
  }

  /** Multiples of `d` that differ by less than `d` are equal. */
  lemma MulClose(a: int, b: int, d: int)
    requires d > 0 && a * d - b * d < d && b * d - a * d < d
    ensures a == b
  {
    if a > b {
      MulAtLeast(a - b, d);
    } else if b > a {
      MulAtLeast(b - a, d);
    }
  }

  /** Division by a positive divisor is determined by quotient and remainder. */
  lemma DivModUnique(n: int, d: int, q: int, m: int)
    requires d > 0 && 0 <= m < d && n == q * d + m
    ensures n / d == q && n % d == m
  {
    var q', m' := n / d, n % d;
    assert n == q' * d + m' && 0 <= m' < d;
    MulClose(q, q', d);
  }

  /** The quotient times the unit is at most the dividend, so the result is a word. */
  lemma RoundUpQuotient(x: Word, unit: Word)
    requires RoundUpFits(x, unit)
    ensures 0 <= (x + unit - 1) / unit * unit <= x + unit - 1
  {
    var n := x + unit - 1;
    assert n == n / unit * unit + n % unit;
  }

  /** Rounding up lands on a multiple of the unit less than one unit above `x`. */
  lemma RoundUpBounds(x: Word, unit: Word)
    requires RoundUpFits(x, unit)
    ensures x <= RoundUp(x, unit) < x + unit
    ensures RoundUp(x, unit) % unit == 0
  {
    var n := x + unit - 1;
    var q := n / unit;
    assert n == q * unit + n % unit;
    DivModUnique(q * unit, unit, q, 0);
  }

  /** A value already aligned is left as it is. */
  lemma RoundUpAligned(x: Word, unit: Word)
    requires RoundUpFits(x, unit) && x % unit == 0
    ensures RoundUp(x, unit) == x
  {
    var k := x / unit;
    assert x == k * unit;
    DivModUnique(x + unit - 1, unit, k, unit - 1);
  }

  /** No multiple of the unit at or above `x` lies below the rounded value. */
  lemma RoundUpLeast(x: Word, unit: Word, m: int)
    requires RoundUpFits(x, unit) && x <= m && m % unit == 0
    ensures RoundUp(x, unit) <= m
  {
    RoundUpBounds(x, unit);
    var r := RoundUp(x, unit);
    var j, k := r / unit, m / unit;
    assert r == j * unit && m == k * unit;
    if k < j {
      MulAtLeast(j - k, unit);
    }
  }

  // ---------------------------------------------------------------------------
  // Properties of the pre-heap reservation.

  /** Rounding the pre-heap size again changes nothing. */
  lemma PreHeapMemoryBytesIdempotent(required: Word, alignment: Word)
    requires RoundUpFits(required, alignment)
    requires RoundUpFits(PreHeapMemoryBytes(required, alignment), alignment)
    ensures PreHeapMemoryBytes(PreHeapMemoryBytes(required, alignment), alignment)
         == PreHeapMemoryBytes(required, alignment)
  {
    RoundUpAligned(PreHeapMemoryBytes(required, alignment), alignment);
  }

  /** An aligned requirement is reserved exactly. */
  lemma PreHeapMemoryBytesAligned(required: Word, alignment: Word)
    requires RoundUpFits(required, alignment) && required % alignment == 0
    ensures PreHeapMemoryBytes(required, alignment) == required
  {
    RoundUpAligned(required, alignment);
  }

  /** The reservation is the smallest aligned size that holds the required bytes. */
  lemma PreHeapMemoryBytesLeast(required: Word, alignment: Word, size: int)
    requires RoundUpFits(required, alignment) && required <= size && size % alignment == 0
    ensures PreHeapMemoryBytes(required, alignment) <= size
  {
    RoundUpLeast(required, alignment, size);
  }

  /** The size of `count` alignment blocks. */
  function BlockBytes(count: nat, alignment: Word): int {
    count * alignment
  }

  /**
   * The pre-heap area is a whole number of alignment blocks, and one block
   * fewer would not hold the required bytes.
   */
  lemma PreHeapIsWholeBlocks(required: Word, alignment: Word)
    requires RoundUpFits(required, alignment)
    ensures exists count: nat ::
      && PreHeapMemoryBytes(required, alignment) == BlockBytes(count, alignment)
      && (count == 0 || BlockBytes(count - 1, alignment) < required)
  {
    var bytes := PreHeapMemoryBytes(required, alignment);
    var count := bytes / alignment;
    assert bytes == BlockBytes(count, alignment);
    if count > 0 {
      assert BlockBytes(count - 1, alignment) == bytes - alignment;
    }
  }

  /**
   * Taking the rounded pre-heap size away from the heap base keeps its
   * alignment: the reservation starts on an alignment boundary exactly when
   * the heap base lies on one.
   */
  lemma ReservationKeepsHeapAlignment(heapBase: Word, required: Word, alignment: Word)
    requires RoundUpFits(required, alignment)
    requires PreHeapMemoryBytes(required, alignment) <= heapBase
    ensures var bytes := PreHeapMemoryBytes(required, alignment);
      (heapBase - bytes) % alignment == 0 <==> heapBase % alignment == 0
  {
    var bytes := PreHeapMemoryBytes(required, alignment);
    var low := heapBase - bytes;
    assert bytes == bytes / alignment * alignment;
    assert low == low / alignment * alignment + low % alignment;
    assert heapBase == (low / alignment + bytes / alignment) * alignment + low % alignment;
    DivModUnique(heapBase, alignment, low / alignment + bytes / alignment, low % alignment);
  }

  /**
   * When the heap base leaves room for the required bytes, the mapping starts
   * inside the rounded reservation below the heap base, less than one alignment
   * unit above the reservation's lower end, and ends exactly at the heap base.
   */
  lemma StartAddressInsideReservation(heapBase: Word, required: Word, alignment: Word)
    requires RoundUpFits(required, alignment) && required <= heapBase
    ensures var start := PreHeapMappingStartAddress(heapBase, required);
      var bytes := PreHeapMemoryBytes(required, alignment);
      && start + required == heapBase
      && heapBase - bytes <= start <= heapBase
      && start - (heapBase - bytes) < alignment
  {
  }
}
