/**
 * Capacity growth policies shared by the string variants.
 *
 * - `calc_capacity` (sso3, sso2, sso and the heap-only preparation string): keep the current
 *   capacity when it suffices, otherwise the smallest 16*2^k - 1 that holds the request.
 * - `next_capacity` (v1 and, textually identical, v2 in string_demo.cpp): a bounded doubling
 *   starting from the current capacity + 1, which throws `std::bad_alloc` for requests above
 *   SIZE_MAX - 1.
 */
module Growth {

  /** `start` doubled `k` times. */
  function Doubled(start: nat, k: nat): nat
  {
    if k == 0 then start else 2 * Doubled(start, k - 1)
  }

  /** The first of start, 2*start, 4*start, ... that reaches `target`. */
  function FirstDoubling(start: nat, target: nat): (r: nat)
    requires start >= 1
    ensures r >= target && r >= start
    ensures start < target ==> r < 2 * target
    decreases if start >= target then 0 else target - start
  {
    if start >= target then start else FirstDoubling(2 * start, target)
  }

  lemma {:induction false} DoubledShift(start: nat, k: nat)
    ensures Doubled(2 * start, k) == Doubled(start, k + 1)
  {
    if k > 0 {
      DoubledShift(start, k - 1);
    }
  }

  lemma {:induction false} DoubledMonotone(start: nat, i: nat, j: nat)
    requires start >= 1 && i <= j
    ensures Doubled(start, i) <= Doubled(start, j)
  {
    if i < j {
      DoubledMonotone(start, i, j - 1);
    }
  }

  /** FirstDoubling really is one of the doublings of `start`, and no earlier one suffices. */
  lemma {:induction false} FirstDoublingIsLeast(start: nat, target: nat) returns (k: nat)
    requires start >= 1
    ensures FirstDoubling(start, target) == Doubled(start, k)
    ensures k == 0 || Doubled(start, k - 1) < target
    ensures forall j: nat :: Doubled(start, j) >= target ==> FirstDoubling(start, target) <= Doubled(start, j)
    decreases if start >= target then 0 else target - start
  {
    if start >= target {
      k := 0;
      forall j: nat | Doubled(start, j) >= target
        ensures FirstDoubling(start, target) <= Doubled(start, j)
      {
        DoubledMonotone(start, 0, j);
      }
    } else {
      var k' := FirstDoublingIsLeast(2 * start, target);
      DoubledShift(start, k');
      k := k' + 1;
      if k' > 0 {
        DoubledShift(start, k' - 1);
      }
      forall j: nat | Doubled(start, j) >= target
        ensures FirstDoubling(start, target) <= Doubled(start, j)
      {
        if j == 0 {
          assert false;
        } else {
          DoubledShift(start, j - 1);
        }
      }
    }
  }

  /** A capacity the power-of-two policy can hand out: 15, 31, 63, 127, ... */
  ghost predicate IsPolicyCapacity(c: nat)
  {
    exists k: nat :: c + 1 == Doubled(16, k)
  }

  /** The smallest policy capacity that holds `required` characters plus the terminator. */
  function PolicyCapacity(required: nat): (r: nat)
    ensures r >= required && r >= 15
    ensures required >= 16 ==> r < 2 * required + 1
  {
    FirstDoubling(16, required + 1) - 1
  }

  lemma PolicyCapacityIsLeast(required: nat)
    ensures IsPolicyCapacity(PolicyCapacity(required))
    ensures forall j: nat :: Doubled(16, j) - 1 >= required ==> PolicyCapacity(required) <= Doubled(16, j) - 1
  {
    var k := FirstDoublingIsLeast(16, required + 1);
  }

  /** calc_capacity: doubles `res` from 16 until it exceeds the request, then returns res - 1. */
  method CalcCapacity(capacity: nat, requiredSize: nat) returns (r: nat)
    ensures requiredSize <= capacity ==> r == capacity
    ensures requiredSize > capacity ==> r == PolicyCapacity(requiredSize)
  {
    if requiredSize <= capacity {
      return capacity;
    }
    var res := 16;
    while res < requiredSize + 1
      invariant res >= 16
      invariant FirstDoubling(res, requiredSize + 1) == FirstDoubling(16, requiredSize + 1)
      decreases requiredSize + 1 - res
    {
      res := res * 2;
    }
    r := res - 1;
  }

  // ---------------------------------------------------------------------------------------------
  // next_capacity of v1 (and v2): bounded doubling

  const SIZE_MAX: nat := 0xFFFF_FFFF_FFFF_FFFF
  const MAX_CAPACITY: nat := SIZE_MAX - 1
  const MIN_CAPACITY: nat := 16 - 1

  /** The outcome of next_capacity: a capacity, or the `std::bad_alloc` it throws. */
  datatype Capacity = Capacity(value: nat) | BadAlloc

  /** Where next_capacity starts doubling: capacity + 1, raised to 16 when it is below 15. */
  function DoublingStart(capacity: nat): (s: nat)
    ensures s >= capacity + 1 && s >= MIN_CAPACITY
    ensures s == capacity + 1 || (capacity + 1 < MIN_CAPACITY && s == MIN_CAPACITY + 1)
  {
    if capacity + 1 < MIN_CAPACITY then MIN_CAPACITY + 1 else capacity + 1
  }

  /** What next_capacity(newSize) yields for a string whose capacity is `capacity`. */
  function NextCapacityOf(capacity: nat, newSize: nat): (r: Capacity)
    ensures r.BadAlloc? <==> newSize > capacity && newSize > MAX_CAPACITY
    ensures r.Capacity? ==> r.value >= newSize && r.value >= capacity
    ensures newSize <= capacity ==> r == Capacity(capacity)
  {
    if newSize <= capacity then Capacity(capacity)
    else if newSize > MAX_CAPACITY then BadAlloc
    else if newSize > MAX_CAPACITY / 2 then Capacity(MAX_CAPACITY)
    else Capacity(FirstDoubling(DoublingStart(capacity), newSize + 1) - 1)
  }

  method NextCapacity(capacity: nat, newSize: nat) returns (r: Capacity)
    ensures r == NextCapacityOf(capacity, newSize)
  {
    if newSize <= capacity {
      return Capacity(capacity);
    }
    if newSize > MAX_CAPACITY {
      return BadAlloc;
    }
    if newSize > MAX_CAPACITY / 2 {
      return Capacity(MAX_CAPACITY);
    }
    var newCapacityPlusOne := capacity + 1;
    if newCapacityPlusOne < MIN_CAPACITY {
      newCapacityPlusOne := MIN_CAPACITY + 1;
    }
    while newCapacityPlusOne < newSize + 1
      invariant newCapacityPlusOne >= 1
      invariant FirstDoubling(newCapacityPlusOne, newSize + 1) == FirstDoubling(DoublingStart(capacity), newSize + 1)
      decreases newSize + 1 - newCapacityPlusOne
    {
      newCapacityPlusOne := newCapacityPlusOne * 2;
    }
    r := Capacity(newCapacityPlusOne - 1);
  }

  /**
   * next_capacity throws exactly for requests above SIZE_MAX - 1 that the current capacity does
   * not cover; otherwise its result holds the request, never shrinks, never exceeds
   * SIZE_MAX - 1 (for a capacity within that bound), and below the clamp it is the first doubling
   * of the start value that holds the request and its terminator.
   */
  lemma NextCapacitySound(capacity: nat, newSize: nat)
    requires capacity <= MAX_CAPACITY
    ensures NextCapacityOf(capacity, newSize).BadAlloc? <==> newSize > capacity && newSize > MAX_CAPACITY
    ensures NextCapacityOf(capacity, newSize).Capacity? ==>
      var c := NextCapacityOf(capacity, newSize).value;
      c >= newSize && c >= capacity && c <= MAX_CAPACITY
    ensures capacity < newSize <= MAX_CAPACITY / 2 ==>
      var c := NextCapacityOf(capacity, newSize).value;
      (exists k: nat :: c + 1 == Doubled(DoublingStart(capacity), k)) &&
      forall j: nat :: Doubled(DoublingStart(capacity), j) >= newSize + 1 ==> c + 1 <= Doubled(DoublingStart(capacity), j)
  {
    if capacity < newSize <= MAX_CAPACITY / 2 {
      var k := FirstDoublingIsLeast(DoublingStart(capacity), newSize + 1);
    }
  }
}
