/**
 * Random-access iterator of the bucketed deque (deque.h, CommonIterator).
 *
 * An iterator is a cursor (bucket ordinal, slot index).  The pointers the
 * source also keeps (ptr_node, ptr_element) are derived from these two
 * numbers and the deque's outer array, so the model keeps only the numbers.
 * The iterator is a value type: `it += x` is modelled as `it := AddAssign(it, x)`.
 */
module DequeIterator {

  const BUCKET_SIZE: int := 32

  datatype Iterator = Iterator(numberNode: int, index: int)

  /** The dense position of a cursor: every bucket counts as BUCKET_SIZE slots. */
  function Dense(it: Iterator): int {
    it.numberNode * BUCKET_SIZE + it.index
  }

  /** A cursor whose slot index lies inside a bucket. */
  predicate InBucket(it: Iterator) {
    0 <= it.index < BUCKET_SIZE
  }

  /** `operator+=` for a non-negative offset: carry into later buckets using a ceiling. */
  function AddAssign(it: Iterator, x: nat): (r: Iterator)
    requires InBucket(it)
    ensures InBucket(r)
    ensures Dense(r) == Dense(it) + x
  {
    if x + it.index < BUCKET_SIZE then
      Iterator(it.numberNode, it.index + x)
    else
      var x' := x - (BUCKET_SIZE - it.index - 1);
      var cur := if x' % BUCKET_SIZE == 0 then x' / BUCKET_SIZE else x' / BUCKET_SIZE + 1;
      var index := if x' % BUCKET_SIZE == 0 then BUCKET_SIZE - 1 else x' % BUCKET_SIZE - 1;
      Iterator(it.numberNode + cur, index)
  }

  /** `operator-=` for a non-negative offset: borrow from earlier buckets using `(x-1)/32 + 1`. */
  function SubAssign(it: Iterator, x: nat): (r: Iterator)
    requires InBucket(it)
    ensures InBucket(r)
    ensures Dense(r) == Dense(it) - x
  {
    if it.index - x >= 0 then
      Iterator(it.numberNode, it.index - x)
    else
      var x' := x - it.index;
      var borrow := (x' - 1) / BUCKET_SIZE + 1;
      var tmp := x' - ((x' - 1) / BUCKET_SIZE) * BUCKET_SIZE;
      Iterator(it.numberNode - borrow, BUCKET_SIZE - tmp)
  }

  /** `operator+(int)`: dispatches on the sign of the offset. */
  function Plus(it: Iterator, diff: int): (r: Iterator)
    requires InBucket(it)
    ensures InBucket(r)
    ensures Dense(r) == Dense(it) + diff
  {
    if diff >= 0 then AddAssign(it, diff) else SubAssign(it, -diff)
  }

  /** `operator-(int)`: the same as adding the negated offset. */
  function Minus(it: Iterator, diff: int): (r: Iterator)
    requires InBucket(it)
    ensures InBucket(r)
    ensures Dense(r) == Dense(it) - diff
  {
    Plus(it, -diff)
  }

  /** `it_a - it_b`: both positions are taken one past the slot, which cancels. */
  function Distance(a: Iterator, b: Iterator): int {
    (a.numberNode * BUCKET_SIZE + a.index + 1) - (b.numberNode * BUCKET_SIZE + b.index + 1)
  }

  /** `operator==`: the same bucket and the same slot. */
  predicate Equal(a: Iterator, b: Iterator) {
    a.numberNode == b.numberNode && a.index == b.index
  }

  /** `operator<`: lexicographic on (bucket ordinal, slot index). */
  predicate Less(a: Iterator, b: Iterator) {
    if a.numberNode == b.numberNode then a.index < b.index else a.numberNode < b.numberNode
  }

  predicate Greater(a: Iterator, b: Iterator) { Less(b, a) }

  predicate LessEq(a: Iterator, b: Iterator) { !Greater(a, b) }

  predicate GreaterEq(a: Iterator, b: Iterator) { !Less(a, b) }

  /** Subtraction of iterators is the difference of their dense positions. */
  lemma DistanceIsDenseDifference(a: Iterator, b: Iterator)
    ensures Distance(a, b) == Dense(a) - Dense(b)
  {
  }

  /** For cursors inside a bucket, `<` is the order of dense positions. */
  lemma LessIsDenseOrder(a: Iterator, b: Iterator)
    requires InBucket(a) && InBucket(b)
    ensures Less(a, b) <==> Dense(a) < Dense(b)
  {
  }

  /** For cursors inside a bucket, `==` is equality of dense positions. */
  lemma EqualIsDenseEquality(a: Iterator, b: Iterator)
    requires InBucket(a) && InBucket(b)
    ensures Equal(a, b) <==> Dense(a) == Dense(b)
  {
  }

  /** `<=`, `>` and `>=` are the orders derived from `<`. */
  lemma DerivedOrders(a: Iterator, b: Iterator)
    requires InBucket(a) && InBucket(b)
    ensures LessEq(a, b) <==> Dense(a) <= Dense(b)
    ensures Greater(a, b) <==> Dense(a) > Dense(b)
    ensures GreaterEq(a, b) <==> Dense(a) >= Dense(b)
  {
    LessIsDenseOrder(a, b);
    LessIsDenseOrder(b, a);
  }

  /** `(start + j) - (start + i) == j - i` for any offsets. */
  lemma OffsetDistance(start: Iterator, i: int, j: int)
    requires InBucket(start)
    ensures Distance(Plus(start, j), Plus(start, i)) == j - i
  {
  }
}
