# Verified model of four hand-written C++ containers and number types

This project models, in Dafny, the four data types of a small C++ course
repository, and proves what each of them promises:

- **`Deque<T>`** (deque.h): a two-level bucketed double-ended queue. An
  outer array of bucket descriptors `Node{ptr, begin, end}` points at
  32-slot buckets; `front_pos`, `back_pos` and `_size` bound the live
  buckets. Modelled as the class `BucketedDeque.Deque` over an
  `array<Node<T>>` whose buckets are `seq<Option<T>>` slots, with a ghost
  `Contents: seq<T>` tied to the array by the layout invariant
  `DequeLayout.Layout`. The iterator `(number_node, index)` and its
  arithmetic live in `DequeIterator`.
- **`BigInteger` and `Rational`** (biginteger.cpp, with `base = 10^9`,
  `len = 9` and the default sign from biginteger.h). A BigInteger is a
  value (`BigIntegers.BigInteger`: little-endian base-10^9 limbs and a
  sign). Its meaning is `Val(b) = ±Σ digits[i]·BASE^i`. The mutating
  operators are methods that take the old value and return the new one,
  with the carry, borrow, multiply, long-division and text loops written
  as loops. `Rationals.Rational` is a numerator/denominator pair, kept in
  lowest terms by `normalize`. `Divisors` holds the gcd theory it needs.
- **`List<T, Alloc>`** (list.h): a circular doubly linked list around a
  sentinel `_fake_node`. Modelled as the class `LinkedList.List` with real
  `Node` objects whose `next`/`prev` fields the methods rewire. Ghost state
  records the node sequence, the contents, the successor, predecessor and
  value maps, and the footprint `Repr`.
- **`StackStorage<N>` and `StackAllocator<T, N>`** (stack_allocator.h): an
  arena that hands out blocks front to back through `std::align`
  (section 20.2.5 [ptr.align] of ISO/IEC 14882:2017), and an allocator
  that holds a pointer to one. Modelled as the classes
  `StackAllocation.StackStorage` (cursor offset, bytes left, ghost list of
  blocks handed out) and `StackAllocation.StackAllocator`.

Every module is in its own file:
- wrappers.dfy
- deque_iterator.dfy, deque_layout.dfy, deque.dfy
- bigint_limbs.dfy, biginteger.dfy, bigint_arith.dfy, bigint_mul.dfy, bigint_div.dfy, bigint_text.dfy
- divisors.dfy, rational.dfy
- list.dfy
- stack_allocator.dfy

## Model

| member | source | states |
|---|---|---|
| DequeIterator.AddAssign | deque.h:65-80 | `+= x` for x ≥ 0 keeps the slot index inside a bucket and moves the dense position `number_node*32 + index` up by exactly x, through the ceiling-based carry |
| DequeIterator.SubAssign | deque.h:82-95 | `-= x` keeps the index inside a bucket and moves the dense position down by exactly x, through the `(x-1)/32 + 1` borrow |
| DequeIterator.Plus | deque.h:160-168 | `+ diff` dispatches on the sign and moves the dense position by diff, for either sign |
| DequeIterator.Minus | deque.h:170-172 | `- diff` moves the dense position by -diff |
| DequeIterator.DistanceIsDenseDifference | deque.h:125-131 | `it_a - it_b` is the difference of the two dense positions |
| DequeIterator.OffsetDistance | deque.h:125-131 | `(start + j) - (start + i) == j - i` for all offsets i and j |
| DequeIterator.LessIsDenseOrder | deque.h:141-146 | the lexicographic `<` on (bucket, index) holds exactly when the dense positions are ordered |
| DequeIterator.EqualIsDenseEquality | deque.h:133-135 | `==` on (bucket, index) holds exactly when the dense positions are equal |
| DequeIterator.DerivedOrders | deque.h:148-158 | `<=`, `>` and `>=`, derived from `<`, are the matching orders on dense positions |
| DequeLayout.Locate | deque.h:97-99 | the cursor at logical position k < size lies in a live slot of a live bucket, and that slot holds contents[k] |
| DequeLayout.EqualAtPos | deque.h:133-135 | two cursors at logical positions k1 and k2 are `==` exactly when k1 == k2 |
| DequeLayout.PushBackInBucket | deque.h:361-364 | constructing v after `end` of a non-full back bucket and bumping `end` lays out contents + [v] |
| DequeLayout.PushBackNewBucket | deque.h:376-382 | starting the next bucket with v at slot 0 (begin = end = 0) after a full back bucket lays out contents + [v] |
| DequeLayout.SingleElement | deque.h:366-368 | the first element pushed into an empty deque is a one-slot layout in the recentred bucket |
| DequeLayout.PushFrontInBucket | deque.h:428-431 | constructing v before `begin` of the front bucket and lowering `begin` lays out [v] + contents |
| DequeLayout.PushFrontNewBucket | deque.h:443-451 | starting the previous bucket with v at slot 31 (begin = end = 31) lays out [v] + contents |
| DequeLayout.PopBackInBucket | deque.h:397-398 | destroying the last slot and lowering `end` lays out contents without its last element |
| DequeLayout.PopBackLeaveBucket | deque.h:400-402 | when the back bucket's only element goes, `back_pos` moves down and the remaining layout holds contents without its last element |
| DequeLayout.PopBackLastAtZero | deque.h:403-406 | popping the only element from slot 0 marks the bucket NOTHING and leaves an empty layout |
| DequeLayout.PopFrontInBucket | deque.h:413-414 | destroying the first slot and raising `begin` lays out contents[1..] |
| DequeLayout.PopFrontLeaveBucket | deque.h:416-418 | when the front bucket's last slot goes, `front_pos` moves up, the next bucket starts at 0, and the layout holds contents[1..] |
| DequeLayout.PopFrontLastAtEnd | deque.h:419-422 | popping the only element from slot 31 marks the bucket NOTHING and leaves an empty layout |
| DequeLayout.StoreAt | deque.h:505 | constructing x over the live slot at logical position k replaces exactly contents[k] |
| DequeLayout.Grown | deque.h:24-39 | the grown outer array has 3 * (back - front + 1) descriptors |
| DequeLayout.GrownMoves | deque.h:28-29 | growth moves each old descriptor from front to back (as far as it exists) by real_size - front |
| DequeLayout.GrownLayout | deque.h:24-39 | growth keeps the layout and the contents, with the live buckets recentred to start at real_size |
| DequeLayout.InsertStep | deque.h:504-506 | one step of the insert loop (`*it = *(it-1)`, `--it`) advances the loop state from position p to p - 1 |
| DequeLayout.EraseStep | deque.h:519-521 | one step of the erase loop (`*it = *(it+1)`, `++it`) advances the loop state from position p to p + 1 |
| DequeLayout.EraseDone | deque.h:519-522 | when the erase loop reaches the last slot, dropping that slot leaves s without position k |
| DequeLayout.CopyStep | deque.h:306-310 | copy-constructing slot j extends the copied prefix of a bucket by one slot |
| DequeLayout.CopiedLayout | deque.h:289-311 | a copy with the same ordinals and live ranges lays out the same contents |
| DequeLayout.BucketShare | deque.h:334-345 | bucket i of a filled deque gets at most 32 elements, none exactly when the earlier buckets take all count, and a partial share only as the remainder |
| DequeLayout.FilledNode | deque.h:337-344 | definition of one filled bucket: fresh 32-slot storage, v in slots 0..n-1, begin 0 and end n - 1 (NOTHING when n == 0); DequeLayout.FilledLayout proves what the filled buckets lay out |
| DequeLayout.FillStep | deque.h:341-344 | constructing v in slot n and setting `end = n` extends a filled prefix |
| DequeLayout.FillOuterSize | deque.h:327 | for count ≥ 1 the outer size is the least number of 32-slot buckets holding count elements |
| DequeLayout.FilledNodes | deque.h:334-346 | definition of the filled outer array: FillOuterSize(count) buckets, bucket i filled with its share of v; DequeLayout.FilledLayout proves it lays out count copies of v |
| DequeLayout.FilledLayout | deque.h:326-346 | the filled outer array lays out count copies of v from slot 0 of bucket 0 |
| BucketedDeque.Deque.constructor | deque.h:279-287 | an empty, valid deque with 10 outer slots, front_pos = back_pos = 5 and that bucket's range [0, 0] |
| BucketedDeque.Deque.Copy | deque.h:289-311 | a valid deque in a fresh outer array, with the same contents, outer size and ordinals |
| BucketedDeque.Deque.Fill | deque.h:326-346 | a valid deque holding count copies of value, in buckets 0 .. FillOuterSize(count) - 1 |
| BucketedDeque.Deque.Assign | deque.h:201-204 | after copy-and-swap the deque holds other's old contents, and other is unchanged |
| BucketedDeque.Deque.IncreaseExternalArray | deque.h:24-39 | fresh outer array of 3 * real_size descriptors equal to `Grown` of the old one, front_pos = real_size, back_pos = 2 * real_size - 1, size and contents unchanged |
| BucketedDeque.Deque.Swap | deque.h:41-47 | the two deques exchange all five fields and their contents |
| BucketedDeque.Deque.Begin | deque.h:195-199 | `begin()` is in the front bucket and, on a non-empty deque, at logical position 0 |
| BucketedDeque.Deque.End | deque.h:216-231 | `end()` keeps contents, grows the outer array only when the back bucket is full in the last slot, equals `begin()` on an empty deque, sits at logical position size otherwise, and `end() - begin() == size()` |
| BucketedDeque.Deque.EndIterator | deque.h:221-230 | when no growth is due, `end()` is `begin()` on an empty deque and at logical position size otherwise, with `end() - begin() == size()` |
| BucketedDeque.Deque.Deref | deque.h:97-99 | `*it` at a live cursor is the element at its logical position |
| BucketedDeque.Deque.Index | deque.h:468-472 | `operator[](i)` for i < size is contents[i] |
| BucketedDeque.Deque.At | deque.h:480-485 | `at(i)` fails with out_of_range exactly when i ≥ size, and otherwise returns contents[i], the same as `operator[](i)` |
| BucketedDeque.Deque.Size | deque.h:464-466 | `size()` is the number of elements |
| BucketedDeque.Deque.AppendInBucket | deque.h:361-364 | appends value inside the back bucket, whose `end` goes up by one, with no other descriptor changed |
| BucketedDeque.Deque.GrowForBack | deque.h:372-374 | growth after `++back_pos` runs off the outer array keeps the contents and leaves back_pos inside the new array |
| BucketedDeque.Deque.FillNewBackBucket | deque.h:375-382 | storage for the new back bucket and value at its slot 0 make contents + [value], with no other descriptor changed |
| BucketedDeque.Deque.StartBackBucket | deque.h:365-391 | the second branch of `push_back` appends value, recentres an empty deque at external_size / 2, and otherwise moves back_pos up by one when no growth is due |
| BucketedDeque.Deque.PushBack | deque.h:360-393 | `push_back(v)` turns contents s into s + [v], and states which ordinals and bucket ranges change in each branch |
| BucketedDeque.Deque.PrependInBucket | deque.h:428-431 | prepends value inside the front bucket |
| BucketedDeque.Deque.GrowForFront | deque.h:437-439 | growth when front_pos is 0 keeps the contents and leaves front_pos > 0 |
| BucketedDeque.Deque.FillNewFrontBucket | deque.h:443-451 | storage for the new front bucket and value at its slot 31 make [value] + contents, with no other descriptor changed |
| BucketedDeque.Deque.StartFrontBucket | deque.h:432-460 | the second branch of `push_front` prepends value |
| BucketedDeque.Deque.PushFront | deque.h:427-462 | `push_front(v)` turns contents s into [v] + s |
| BucketedDeque.Deque.DropLastInBucket | deque.h:397-398 | drops the last element when the back bucket keeps one |
| BucketedDeque.Deque.LeaveBackBucket | deque.h:400-402 | drops the last element when it was alone in the back bucket and others remain |
| BucketedDeque.Deque.RemoveOnlyAtBack | deque.h:403-406 | drops the only element, leaving an empty valid deque |
| BucketedDeque.Deque.PopBack | deque.h:395-409 | `pop_back` on a non-empty deque drops the last element and keeps the outer array and front_pos |
| BucketedDeque.Deque.DropFirstInBucket | deque.h:413-414 | drops the first element when the front bucket keeps one |
| BucketedDeque.Deque.LeaveFrontBucket | deque.h:416-418 | drops the first element when it was the last slot of the front bucket and others remain |
| BucketedDeque.Deque.RemoveOnlyAtFront | deque.h:419-422 | drops the only element, marking the bucket at back_pos NOTHING |
| BucketedDeque.Deque.PopFront | deque.h:411-425 | `pop_front` on a non-empty deque drops the first element and keeps the outer array and back_pos |
| BucketedDeque.Deque.ConstructAt | deque.h:507 | constructing x over the slot at logical position k replaces contents[k] and keeps every bucket's range |
| BucketedDeque.Deque.CopyFromPrevious | deque.h:505 | one pass of the insert loop copies element p - 1 over element p and returns the cursor at p - 1 |
| BucketedDeque.Deque.ShiftTowardsBack | deque.h:503-507 | after the appended copy of value, the shift loop and the final store give s[..k] + [value] + s[k..] |
| BucketedDeque.Deque.Insert | deque.h:494-508 | `insert(where, v)` at logical position k gives s[..k] + [v] + s[k..], through `push_front` at k = 0 (always allowed) and `push_back` at k = size |
| BucketedDeque.Deque.CopyFromNext | deque.h:520 | one pass of the erase loop copies element p + 1 over element p and returns the cursor at p + 1 |
| BucketedDeque.Deque.ShiftStep | deque.h:519-521 | one pass of the erase loop: the loop state moves from p to p + 1 and the cursor to the next dense position |
| BucketedDeque.Deque.ShiftTowardsFront | deque.h:519-522 | the erase loop followed by `pop_back` gives s[..k] + s[k+1..] |
| BucketedDeque.Deque.Erase | deque.h:510-523 | `erase(where)` at logical position k gives s[..k] + s[k+1..], through `pop_front` at k = 0 and `pop_back` at k = size - 1 |
| BucketedDeque.CopyBuckets | deque.h:295-311 | the copy constructor's outer array: all default descriptors for an empty deque, otherwise `CopiedNodes` of the source |
| BucketedDeque.CopyBucket | deque.h:302-310 | slot i gets fresh storage with the source bucket's range and a copy of each live element; other slots are unchanged |
| BucketedDeque.FillBucket | deque.h:337-344 | slot i gets fresh storage with v in slots 0..n-1; other slots are unchanged |
| BucketedDeque.SamplePushes | main.cpp:21-26 | push_back 1, push_back 2, push_front 1001, push_back 3, push_front 1003 on a default deque give [1003, 1001, 1, 2, 3] |
| BucketedDeque.Elements | main.cpp:27-29 | iterating from `begin()` to `end()` yields exactly the contents in order |
| BucketedDeque.SampleDeque | main.cpp:20-31 | the sample prints 1003 1001 1 2 3 |
| BucketedDeque.GrowTargetAsWritten | deque.h:28-29 | the written target slot `real_size + (i - front_pos)` taken modulo 2^64: it wraps to 2^64 + real_size + i - front_pos when front_pos > real_size + i |
| BucketedDeque.GrowthWrapScenario | deque.h:24-39 | a reachable valid deque (32 elements, front_pos = back_pos = 9, outer size 10) where the next `push_back` grows and the written target for slot 0 is 2^64 - 7 |
| BucketedDeque.FillOuterSizeAsWritten | deque.h:327 | `(count - 1) / 32 + 1` in size_t: equal to FillOuterSize for count ≥ 1, and 2^59 for count = 0 |
| BucketedDeque.FillZeroAsWrittenBreaksLayout | deque.h:326-331 | `Deque(0, v)` as written asks for 2^59 outer slots, and back_pos = 2^59 - 1 gives no valid empty layout |
| Limbs.MagBounds | biginteger.h:25 | limbs in [0, 10^9) are worth less than BASE^length |
| Limbs.MagInjective | biginteger.cpp:201-205 | two normalized limb vectors of the same value are equal, so the representation `clearZeros` leaves is unique |
| Limbs.LengthOrder | biginteger.cpp:79-81 | of two normalized vectors, the shorter one has the smaller value |
| Limbs.LexOrder | biginteger.cpp:82-86 | of two vectors of one length, the one with the smaller most significant differing limb has the smaller value |
| Limbs.MagZero | biginteger.cpp:201-205 | a normalized vector is worth 0 exactly when it is [0] |
| BigIntegers.CanonicalSign | biginteger.h:28 | a canonical BigInteger is Negative exactly when its value is negative, and is zero exactly when it is `BigInteger(0)` |
| BigIntegers.Signum | biginteger.cpp:51-56 | `signum(x)` is Negative exactly when x < 0 |
| BigIntegers.Invert | biginteger.cpp:297-299 | `invert` keeps the limbs, flips the sign and negates the value |
| BigIntegers.FromInt64 | biginteger.cpp:3-12 | `BigInteger(n)` is canonical with value n (limbs of \|n\|, [0] for 0) and is Negative exactly when n < 0 |
| BigIntegers.ComparePositive | biginteger.cpp:77-88 | on normalized vectors, `comparePositive(a, b)` is \|a\| < \|b\| and `comparePositive(a, b, false)` is \|a\| ≤ \|b\| |
| BigIntegers.Less | biginteger.cpp:68-75 | on canonical values, `a < b` exactly when Val(a) < Val(b) |
| BigIntegers.Greater | biginteger.cpp:90-92 | on canonical values, `a > b` exactly when Val(a) > Val(b) |
| BigIntegers.LessEq | biginteger.cpp:94-96 | on canonical values, `a <= b` exactly when Val(a) ≤ Val(b) |
| BigIntegers.GreaterEq | biginteger.cpp:98-100 | on canonical values, `a >= b` exactly when Val(a) ≥ Val(b) |
| BigIntegers.Equal | biginteger.cpp:102-115 | `==` holds exactly when sign and limbs agree |
| BigIntegers.EqualIsValueEquality | biginteger.cpp:102-115 | on canonical values, `==` is equality of the integers they stand for |
| BigIntegers.Negate | biginteger.cpp:164-171 | unary minus negates the value and keeps a canonical value canonical (zero stays Positive) |
| BigIntegers.ClearZeros | biginteger.cpp:201-205 | `clearZeros` drops only zero limbs from the top, keeps at least one limb, keeps the value, and leaves a normalized vector |
| BigIntegers.ClearZerosOf | biginteger.cpp:197-199 | `clearZeros()` keeps sign and value and normalizes the limbs |
| BigIntegers.MultiplyBase | biginteger.cpp:207-212 | `multiplyBase` shifts every limb one place up, so the value becomes digits[0] + BASE * old value |
| BigIntegerArith.CarryColumns | biginteger.cpp:148-160 | the carry loop leaves in-range limbs worth the sum of the two operands, at least as long as either, and longer only when the sum needs it |
| BigIntegerArith.SumNormalized | biginteger.cpp:146-162 | the sum of two normalized magnitudes, laid out as `CarryColumns` leaves it, has no leading zero limb |
| BigIntegerArith.IncreaseForPositive | biginteger.cpp:146-162 | adds the magnitude of other to this one's, keeps the sign, and keeps the limbs normalized |
| BigIntegerArith.IncreaseForPositiveAsWritten | biginteger.cpp:149-153 | for an other that is not this BigInteger's own limb vector, the written loop reads past the end of other (None) exactly when the low limbs of this plus other reach BASE^\|other\|; otherwise the magnitudes add |
| BigIntegerArith.IncreaseCarryPastEnd | biginteger.cpp:149-153 | 999999999 + 1 reads `other_digits[1]`, one past the end |
| BigIntegerArith.BorrowColumns | biginteger.cpp:120-133 | the borrow loop leaves \|my\| in-range limbs worth \|my\| - \|other\| when \|other\| ≤ \|my\| |
| BigIntegerArith.AllZero | biginteger.cpp:135-141 | the `all_zero` scan is true exactly when every limb is 0 |
| BigIntegerArith.DecreaseForPositive | biginteger.cpp:117-144 | leaves normalized limbs worth \|my\| - \|other\|, Positive on a zero result and the old sign otherwise |
| BigIntegerArith.Decrease | biginteger.cpp:29-35 | `decrease` gives a canonical result worth Val(this) - sign(this) * \|other\|, flipping the sign when other is larger |
| BigIntegerArith.AddAssign | biginteger.cpp:37-42 | `+=` gives Val(a) + Val(b), canonical for canonical operands |
| BigIntegerArith.SubAssign | biginteger.cpp:44-49 | `-=` gives Val(a) - Val(b), canonical for canonical operands |
| BigIntegerArith.SameSignSum | biginteger.cpp:38-39 | adding magnitudes under a common sign gives the sum of the values |
| BigIntegerArith.Increment | biginteger.cpp:177-180 | `++` adds one |
| BigIntegerMul.SignForMultiply | biginteger.cpp:224-230 | on canonical factors the product sign is Negative exactly when the product of the values is negative (structurally: the signs differ and neither factor is `BigInteger(0)`) |
| BigIntegerMul.SignRule | biginteger.cpp:224-230 | for canonical factors, "signs differ and neither is zero" holds exactly when the product of the values is negative |
| BigIntegerMul.AddRow | biginteger.cpp:273-280 | the inner loop adds x * BASE^i * \|b\| to the partial product and keeps the limbs in range |
| BigIntegerMul.RowFits | biginteger.cpp:273-280 | row i adds a[i]·BASE^i·\|b\| to the partial product, which stays below BASE^(\|a\| + \|b\|), so the result vector of \|a\| + \|b\| limbs never overflows |
| BigIntegerMul.Multiply | biginteger.cpp:267-285 | `*=` gives normalized limbs worth \|a\| * \|b\|, sign `getSignForMultiply`, value Val(a) * Val(b), canonical for canonical operands |
| BigIntegerMul.ProductValue | biginteger.cpp:281-284 | normalized limbs worth \|a\|·\|b\| under `getSignForMultiply` are worth Val(a)·Val(b), and canonical for canonical factors |
| BigIntegerDiv.FitsBelow | biginteger.cpp:331-332 | the probe `b * mid <= cur_value` holds exactly when \|b\| * mid ≤ \|cur\| |
| BigIntegerDiv.QuotientDigit | biginteger.cpp:326-338 | the binary search finds the largest x in [0, BASE] with \|b\| * x ≤ \|cur\| |
| BigIntegerDiv.BringDown | biginteger.cpp:323-325 | `multiplyBase`, storing the next limb at position 0, then `clearZeros` gives a canonical cur worth d + BASE * old cur |
| BigIntegerDiv.SubtractMultiple | biginteger.cpp:340 | `cur_value -= b * x` leaves a canonical non-negative cur worth \|cur\| - \|b\| * x |
| BigIntegerDiv.DivisionStep | biginteger.cpp:322-341 | one pass of the long-division loop yields a quotient limb x < BASE and a remainder below \|b\| |
| BigIntegerDiv.LongDivision | biginteger.cpp:320-341 | the long-division loop gives in-range quotient limbs and a remainder r with \|a\| = \|b\| * q + r and r < \|b\| |
| BigIntegerDiv.Division | biginteger.cpp:308-350 | for b ≠ 0, \|a\| = \|q\|·\|b\| + \|r\| and \|r\| < \|b\|; q is canonical with the multiply sign (Positive when zero); r takes the dividend's sign; Val(q) and Val(r) are truncating quotient and remainder |
| BigIntegerDiv.DivisionValue | biginteger.cpp:308-350 | results with \|a\| = \|q\|·\|b\| + \|r\|, \|r\| < \|b\|, the multiply sign on q and the dividend's sign on r are worth the truncated quotient and remainder of Val(a) by Val(b) |
| BigIntegerDiv.QuotientSign | biginteger.cpp:343-347 | a nonzero quotient is Negative exactly when the operands' signs differ |
| BigIntegerDiv.DivAssign | biginteger.cpp:287-290 | `/=` gives the canonical quotient truncated toward zero |
| BigIntegerDiv.ModAssign | biginteger.cpp:292-295 | `%=` gives a canonical remainder worth \|a\| mod \|b\| in magnitude, the dividend's sign when nonzero, and the value of the truncated remainder |
| BigIntegerDiv.NegativeZeroRemainder | biginteger.cpp:348 | `division` as written gives -6 % 3 the remainder [0] with sign Negative, a value that is not canonical |
| BigIntegerText.ReadLimbs | biginteger.cpp:239-246 | the string constructor's loop cuts the digits after the sign into 9-digit limbs from the right |
| BigIntegerText.PushChunk | biginteger.cpp:241-245 | reversing `tmp_str` and applying `stoi` pushes the value of the digits collected |
| BigIntegerText.Parse | biginteger.cpp:232-247 | `BigInteger(str, size)` on a decimal is the chunked reading, worth the digits' value, negated after '-' |
| BigIntegerText.FromTextValue | biginteger.cpp:232-247 | the value read from a decimal is its digits' value, negated after '-' |
| BigIntegerText.ParseCanonical | biginteger.cpp:232-247 | a decimal with no leading zero and not "-0" reads as a canonical BigInteger |
| BigIntegerText.AppendPadded | biginteger.cpp:256-258 | one step of `toString` appends the limb left-padded with '0' to 9 digits |
| BigIntegerText.ToString | biginteger.cpp:249-261 | `toString` prints '-' when Negative, the top limb unpadded and the others padded; it is a decimal that reads back as the same BigInteger |
| BigIntegerText.TextShape | biginteger.cpp:249-261 | what `toString` prints starts with '-' exactly for Negative values and is followed by the limbs' digits |
| BigIntegerText.TextRoundTrip | biginteger.cpp:232-261 | `BigInteger(toString(b)) == b` for every b with in-range limbs |
| BigIntegerText.ParseRoundTrip | biginteger.cpp:232-261 | `toString(BigInteger(s)) == s` for every canonical decimal s (no leading zeros, not "-0") |
| Divisors.GcdDivides | biginteger.cpp:382-387 | Euclid's gcd divides both arguments |
| Divisors.GcdGreatest | biginteger.cpp:382-387 | every common divisor divides Euclid's gcd |
| Divisors.GcdPositive | biginteger.cpp:375-388 | the gcd is 0 only when both arguments are, so `normalize` never divides by zero for a nonzero denominator |
| Divisors.ReducedCoprime | biginteger.cpp:417-419 | dividing both parts by their gcd leaves coprime parts |
| Divisors.ReducedUnique | biginteger.cpp:412-420 | a fraction in lowest terms with a positive denominator is the only one of its value |
| Rationals.Gcd | biginteger.cpp:375-388 | `gcd` gives a canonical Positive value equal to Euclid's gcd of \|a\| and \|b\| |
| Rationals.AboveZero | biginteger.cpp:382 | the loop test `b > 0` on a non-negative b holds exactly when b is nonzero |
| Rationals.Normalize | biginteger.cpp:412-420 | `normalize` leaves canonical parts, a non-negative denominator, coprime parts, the same ratio, and for a nonzero denominator a valid rational of the same value |
| Rationals.DividedThrough | biginteger.cpp:412-420 | flipping both signs when the denominator is negative and dividing through by the gcd gives a non-negative denominator, coprime parts and the same ratio, and for a nonzero denominator the same fraction |
| Rationals.FromBigInteger | biginteger.cpp:359 | `Rational(n)` is n over 1, worth n, valid when n is canonical |
| Rationals.FromInt | biginteger.cpp:402 | `Rational(int)` is a valid rational worth n over 1 |
| Rationals.NegateAsWritten | biginteger.cpp:361-365 | unary minus as written flips the numerator's sign and negates the value; the result is valid only for a nonzero numerator |
| Rationals.NegativeZeroRational | biginteger.cpp:361-365 | `-Rational(0)` as written is not valid, compares below `Rational(0)`, is not equal to it, and prints "-0" |
| Rationals.Negate | biginteger.cpp:361-365 | unary minus with BigInteger's own `operator-` gives a valid rational of the negated value |
| Rationals.AddAssign | biginteger.cpp:367-373 | `+=` gives a valid rational worth the sum |
| Rationals.SubAssign | biginteger.cpp:404-410 | `-=` gives a valid rational worth the difference |
| Rationals.MulAssign | biginteger.cpp:422-427 | `*=` gives a valid rational worth the product |
| Rationals.DivAssign | biginteger.cpp:429-434 | `/=` by a nonzero rational gives a valid rational worth the quotient, with the divisor's parts read as they were on entry (the corrected half of the self-division finding) |
| Rationals.DivSelfAsWritten | biginteger.cpp:429-434 | `x /= x` as written, with the divisor's numerator read after the first line replaced it, gives a valid rational worth 1/q for x = p/q, p ≠ 0 |
| Rationals.SelfDivisionKeepsHalf | biginteger.cpp:429-434 | `Rational x = Rational(1); x /= Rational(2); x /= x;` leaves x worth 1/2 as written, not 1 |
| Rationals.ValueSign | biginteger.cpp:485-487 | a valid rational's numerator is Negative exactly when its value is negative |
| Rationals.Less | biginteger.cpp:456-461 | on valid rationals `<` is the order of values; differing signs put the Negative one first |
| Rationals.Greater | biginteger.cpp:463-465 | on valid rationals `>` is the order of values |
| Rationals.LessEq | biginteger.cpp:467-469 | on valid rationals `<=` is the order of values |
| Rationals.GreaterEq | biginteger.cpp:471-473 | on valid rationals `>=` is the order of values |
| Rationals.Equal | biginteger.cpp:475-480 | `==` is equality of numerator and denominator, which on valid rationals is equality of values |
| Rationals.EqualIsValue | biginteger.cpp:475-480 | valid rationals are equal exactly when their values are |
| Rationals.NotEqual | biginteger.cpp:482-484 | `!=` is the negation of `==` and, on valid rationals, inequality of values |
| Rationals.ToString | biginteger.cpp:390-400 | `toString` is "0" for a zero numerator, the numerator alone over denominator 1, else "n/d" |
| Rationals.RenderingZero | biginteger.cpp:391-393 | a valid rational prints "0" exactly when it is zero |
| Rationals.RenderingParses | biginteger.cpp:394-399 | for a nonzero valid rational, the text before '/' reads back as the numerator, there is a '/' exactly when the denominator is not 1, and the text after it reads back as the denominator |
| LinkedList.RingDistinct | list.h:9-16 | following `next` from the sentinel through a ring never repeats a node |
| LinkedList.InsertRing | list.h:170-171 | linking a new node between positions k - 1 and k keeps the successor and predecessor maps a ring over the nodes with the new one inserted at k |
| LinkedList.EraseRing | list.h:179-180 | unlinking the node at k keeps a ring over the other nodes in order, and its successor is the node now at k |
| LinkedList.InsertShape | list.h:160-174 | the relinking of `insert` keeps ring and values consistent, with the new node and value at position k |
| LinkedList.EraseShape | list.h:176-185 | the relinking of `erase` keeps ring and values consistent, with position k removed |
| LinkedList.Node.Sentinel | list.h:13-14 | `BaseNode()` is linked to itself |
| LinkedList.Node.constructor | list.h:21-22 | `Node(nxt, prv, val)` stores the two links and the value |
| LinkedList.List.constructor | list.h:211-212 | `List()` is a valid empty list |
| LinkedList.List.Sized | list.h:214-228 | `List(count)` holds count default values |
| LinkedList.List.Filled | list.h:230-244 | `List(count, v)` holds count copies of v |
| LinkedList.List.Copy | list.h:246-262 | the copy constructor holds other's sequence in fresh nodes |
| LinkedList.List.CopyFrom | list.h:251-255 | the copy loop appends other's values in order to an empty list |
| LinkedList.List.CopyStep | list.h:252-254 | one pass of the copy loop appends the next value of other and moves the iterator one node on |
| LinkedList.List.EndReached | list.h:252 | iteration from `begin()` meets `end()` only after the last element |
| LinkedList.List.Begin | list.h:111-113 | `begin()` is the node at position 0, the sentinel for an empty list |
| LinkedList.List.End | list.h:123-125 | `end()` is the sentinel |
| LinkedList.List.CEnd | list.h:127-129 | `cend()`, the predecessor of the first node, is the sentinel |
| LinkedList.List.Next | list.h:61-64 | `++` moves from position k to k + 1, and from `end()` round to `begin()` |
| LinkedList.List.Prev | list.h:72-75 | `--` moves from position k to k - 1, and from `begin()` round to `end()` |
| LinkedList.List.Get | list.h:57-59 | `*it` at position k is contents[k] |
| LinkedList.List.Size | list.h:203-205 | `size()` is the number of elements |
| LinkedList.List.Empty | list.h:207-209 | `empty()` holds exactly when there are no elements |
| LinkedList.List.Link | list.h:161-172 | a new node linked between prev and next, which point at it; nodes and contents have it inserted at k; size grows by one |
| LinkedList.List.Insert | list.h:160-174 | `insert(it, v)` before position k inserts a new node and v at k, keeps the list valid and returns the new node |
| LinkedList.List.Unlink | list.h:177-183 | prev and next point at each other; nodes and contents lose position k; size shrinks by one |
| LinkedList.List.Erase | list.h:176-185 | `erase(it)` at position k removes position k, keeps the others in order, and returns the node now at k |
| LinkedList.List.PushBack | list.h:187-189 | `push_back(v)` turns s into s + [v] |
| LinkedList.List.PushFront | list.h:191-193 | `push_front(v)` turns s into [v] + s |
| LinkedList.List.PopBack | list.h:195-197 | `pop_back` on a non-empty list drops the last element |
| LinkedList.List.PopFront | list.h:199-201 | `pop_front` on a non-empty list drops the first element |
| LinkedList.List.Clear | list.h:301-305 | the destructor's loop empties the list and keeps it valid |
| LinkedList.List.SwapLinks | list.h:36-39 | the four pointer swaps move each ring to the other sentinel |
| LinkedList.SwapPrev | list.h:36 | `std::swap(a->prev, b->prev)` exchanges the two prev links and changes nothing else |
| LinkedList.SwapNext | list.h:37 | `std::swap(a->next, b->next)` exchanges the two next links and changes nothing else |
| LinkedList.List.ExchangeRings | list.h:35-41 | after the swaps both lists are valid, each holding the other's old elements |
| LinkedList.List.Swap | list.h:35-41 | on two non-empty lists, `swap` exchanges contents and footprints and keeps both valid |
| LinkedList.List.Relink | list.h:271-277 | the hand relinking moves src's ring to this sentinel and links src's sentinel to itself |
| LinkedList.RehomeShape | list.h:271-277 | moving a non-empty ring with its values from one sentinel to another keeps the list shape, with the new sentinel between the last and first nodes |
| LinkedList.List.TakeOver | list.h:270-278 | when this list is empty and src is not, this list takes src's elements and src is left empty and valid |
| LinkedList.List.Adopt | list.h:270-290 | the three branches of `operator=` after the copy give this list the copy's contents |
| LinkedList.List.AssignAsWritten | list.h:264-295 | `operator=` as written gives other's contents, except from an empty list to an empty list, which breaks this list |
| LinkedList.EmptyToEmptyAssignment | list.h:270-278 | assigning an empty list to an empty list with `operator=` as written leaves the target invalid |
| LinkedList.List.Assign | list.h:264-295 | `operator=` (self-assignment a no-op) leaves a valid list holding other's contents |
| StackAllocation.Padding | stack_allocator.h:16 | the padding `std::align` skips is below alignment and reaches a multiple of it |
| StackAllocation.PaddingLeast | stack_allocator.h:16 | no smaller step reaches a multiple of the alignment |
| StackAllocation.Align | stack_allocator.h:16 | a successful `std::align` gives an aligned address at or after ptr, whose block fits, with ptr + space preserved |
| StackAllocation.AlignIsFirstFit | stack_allocator.h:16 | `std::align` fails exactly when no aligned block fits, and otherwise gives the lowest fitting address |
| StackAllocation.StackStorage.constructor | stack_allocator.h:9-10 | a new storage has its cursor at offset 0 and all N bytes left |
| StackAllocation.StackStorage.Cursor | stack_allocator.h:28 | the cursor is at or after the start of the buffer |
| StackAllocation.StackStorage.Carve | stack_allocator.h:16-22 | on failure nothing changes and the result is null; on success the result is the aligned address, the cursor moves past the block, `_size` becomes what is left after it, and the block is recorded |
| StackAllocation.StackStorage.Reserve | stack_allocator.h:14-23 | `reserve<T>(count)` on sizeof(T) * count bytes: null with nothing changed exactly when no aligned block fits; otherwise the first fitting aligned address, cursor and `_size` updated, the block recorded; the storage stays valid (offset + size = N, blocks disjoint and increasing) |
| StackAllocation.StackStorage.ReserveAsWritten | stack_allocator.h:15 | `reserve` as written does the same for the byte count `sizeof(T) * count` modulo 2^64 |
| StackAllocation.OverflowingRequest | stack_allocator.h:15 | 2^61 eight-byte elements from a 64-byte storage: granted as written, refused at full width |
| StackAllocation.StackAllocator.Default | stack_allocator.h:36-37 | `StackAllocator()` has no pool |
| StackAllocation.StackAllocator.constructor | stack_allocator.h:38-39 | `StackAllocator(pool)` draws from that pool |
| StackAllocation.StackAllocator.Rebind | stack_allocator.h:40-43 | the rebinding constructor copies the other allocator's pool pointer |
| StackAllocation.StackAllocator.AssignFrom | stack_allocator.h:44 | the defaulted `operator=` copies the pool pointer |
| StackAllocation.StackAllocator.GetPool | stack_allocator.h:63-65 | `getPool()` is the pool pointer |
| StackAllocation.StackAllocator.Allocate | stack_allocator.h:54-56 | `allocate(count)` with a pool is `reserve<T>(count)` on that pool, with its full contract |
| StackAllocation.StackAllocator.Deallocate | stack_allocator.h:58-61 | `deallocate` changes neither the allocator's pool pointer nor the pool |

## Left out

- Raw memory in deque.h is not modelled: placement `new`, `reinterpret_cast<char*>`, `delete[]` and explicit `~T()`. A bucket is a sequence of 32 optional slots; constructing sets a slot and destroying clears it.
- The Deque destructor (deque.h:525-536) is not modelled. Buckets drained by pops keep stale ranges, and a NOTHING range would be indexed at slot 64, so destruction cannot be stated exactly.
- Exception rollback is not modelled: the deque constructors and pushes (deque.h:312-321, 347-357, 383-390, 452-459), `List` insert and the `List` constructors (list.h:164-169, 222-227, 238-243, 256-261). Element construction and allocation never fail in the model.
- Iterator identity differs from the source. Deque iterators are the pair (number_node, index); `ptr_node` and `ptr_element` are derived from it. List iterators are the node they point at.
- The const/non-const template duplication is left out: `cbegin`, `cend`, const `operator[]` and const `at`, and the broken const-conversion operator (deque.h:174-176). So are the reverse iterators in deque.h and list.h.
- The `std::allocator_traits` machinery of list.h is left out: `NodeAlloc`, `select_on_container_copy_construction`, `propagate_on_container_copy_assignment` and `get_allocator`. Nodes come from Dafny's heap.
- BucketedDeque.Deque.Insert: at 0 < k < size, requires that neither `end()` call nor the `push_back` reallocates the outer array; at k = size > 0, requires that the `end()` comparison does not reallocate it. The source keeps `where` across the `end()` calls (deque.h:499 and deque.h:505), and the iterator would then be stale. The case k = 0 is always allowed, since it only calls `push_front`.
- BucketedDeque.Deque.Erase: at k > 0, requires that `end()` does not grow the outer array, for the same reason.
- BucketedDeque.Deque.Fill: models `Deque(count, value)` with the corrected outer size (one bucket for count = 0). The written size is the finding below.
- BucketedDeque.Deque.IncreaseExternalArray: copies every bucket i ≤ back_pos whose target `real_size + i - front_pos` is in range, drained buckets below front_pos included, and drops the others. The written wrap-around is the finding below.
- BucketedDeque.Deque.PopBack and BucketedDeque.Deque.PopFront: require a non-empty deque. Popping an empty deque is undefined behaviour in the source.
- `Deque(count)` (deque.h:324) and `List(count)` take the default value `T()` as a parameter.
- The `int64_t` width of limbs and carries is not modelled. Every intermediate value the loops form stays far below 2^63, so integers are unbounded. Likewise the `static_cast<int>` of the index and offset in the deque iterator's `-=` (deque.h:83) is not modelled: it truncates for offsets of 2^31 or more, which no deque of fewer than 2^31 elements reaches.
- BigIntegers.FromInt64: excludes INT64_MIN, whose `std::abs` overflows (biginteger.cpp:4).
- A default-constructed BigInteger or Rational is not modelled: its `digits_` vector is empty, and `toString` would call `back()` on it (biginteger.cpp:254). The arithmetic requires normalized limbs.
- BigIntegerDiv.Division: requires a divisor other than [0], of either sign. The source's `assert(b_copy != 0)` (biginteger.cpp:312) compares with the Positive `BigInteger(0)`, so the Negative zero that biginteger.cpp:348 can produce passes it. The binary search then stores 10^9 in every quotient limb. This path is not modelled.
- BigIntegerText.Parse: requires a decimal (an optional '-' and at least one digit). On other input the source behaves in several ways, none of which is modelled: `std::stoi` reads a chunk's leading digits and ignores the rest ("1a" gives 1, "+5" gives 5); "-" alone makes no `stoi` call and leaves the limbs empty; a chunk with no leading digit throws (biginteger.cpp:232-246). Decimals with leading zeros, and "-0", parse as the source parses them, to non-canonical values ("0000000001" gives the limbs [1, 0], "-0" a Negative [0]). These are outside the domain of the arithmetic members, which all require canonical operands; in the source, `comparePositive` ranks [1, 0] above [2].
- Stream operators and user-defined literals (biginteger.cpp:14-27, 352-357) are I/O and thin wrappers, and are left out.
- `Rational::asDecimal` and `operator double` (biginteger.cpp:489-513) are left out. Floating point is out of scope, and `asDecimal` only prints.
- `Rational::pow` (biginteger.cpp:515-521) serves only `asDecimal` and is left out.
- Rationals.DivAssign: requires a nonzero divisor. For x ≠ 0 the source turns `x /= 0` into ±1/0: the denominator becomes 0, `gcd(p, 0)` is |p|, and `normalize` divides through (biginteger.cpp:412-434). `0 /= 0` fails the assert at biginteger.cpp:312. A zero denominator is not a valid rational in this model. The method takes both operands as values, so `x /= x`, where the source reads the divisor's numerator after changing it, is modelled separately as Rationals.DivSelfAsWritten (see "## Findings"). The other compound assignments are unaffected by self-aliasing: `+=`, `-=` and `*=` read every part of the divisor before writing, and BigInteger's `*=` builds its result in a separate vector.
- BigIntegerArith.IncreaseForPositiveAsWritten: models an other that is a separate vector. For BigInteger `x += x` the loop's `other_digits` is `digits_` itself, `push_back` grows both, and no read goes past the end. The "exactly when" of its contract holds only for distinct operands; the corrected BigIntegerArith.IncreaseForPositive gives the right sum in both cases.
- Rationals.Less and the other Rational comparisons: stated for valid rationals. On other inputs only the sign dispatch is stated.
- main.cpp is I/O. Only the deque scenario at main.cpp:20-31 is modelled, as BucketedDeque.SampleDeque.
- string.h holds only declarations; its implementation is not part of this model.
- StackAllocation.Align: requires only a positive alignment. `std::align` also expects a power of two, which `alignof` always gives.
- Addresses, `sizeof(T)` and `alignof(T)` are naturals and parameters. The buffer's address `base` is a parameter; the compiler chooses it.
- StackAllocation.StackAllocator.Deallocate: states only that nothing changes. The source ignores both arguments.
- The `rebind` member template and the unused fields `_alignment` and `_size_of` (stack_allocator.h:67-75) carry no behaviour.
- Allocator equality (stack_allocator.h:47-52) is the predicates `StackAllocator.Equals` (pool pointers equal) and `NotEquals` (its negation). They are definitions and have no contract of their own.

## Findings

| source | as written | input that shows it | evidently intended | confidence | as-written member | corrected member |
|---|---|---|---|---|---|---|
| deque.h:28-29 | growth copies bucket i to `real_size + (i - front_pos)` in size_t, which wraps when front_pos > real_size + i | default deque, 160 × push_back, 128 × pop_front, then push_back: front_pos = back_pos = 9, outer size 10, and slot 0 goes to 2^64 - 7 | copy each bucket i whose target `real_size + i - front_pos` is in range, so that front_pos lands at real_size | not executed | BucketedDeque.GrowthWrapScenario | BucketedDeque.Deque.IncreaseExternalArray |
| deque.h:327 | `(count - 1) / BUCKET_SIZE + 1` for count = 0 underflows to 2^59 outer slots, so `new Node[2^59]` at deque.h:328 asks for 2^59 descriptors and throws an allocation exception instead of building an empty deque | `Deque<int>(0, 7)` | an empty deque | not executed | BucketedDeque.FillZeroAsWrittenBreaksLayout | BucketedDeque.Deque.Fill |
| biginteger.cpp:149-153 | the carry loop reads `other_digits[i]` one past its end while a carry is pending | `BigInteger(999999999) += BigInteger(1)` | treat missing limbs of other as 0 | not executed | BigIntegerArith.IncreaseCarryPastEnd | BigIntegerArith.IncreaseForPositive |
| biginteger.cpp:348 | the remainder takes the dividend's sign even when it is zero, giving a Negative zero | `BigInteger(-6) % BigInteger(3)` | a zero remainder is Positive, like every other zero | not executed | BigIntegerDiv.NegativeZeroRemainder | BigIntegerDiv.ModAssign |
| biginteger.cpp:361-365 | unary minus on a Rational inverts the numerator's sign even for zero | `-Rational(0)`: compares below `Rational(0)`, is not equal to it, prints "-0" | negate with BigInteger's `operator-`, which leaves zero Positive | not executed | Rationals.NegativeZeroRational | Rationals.Negate |
| biginteger.cpp:431-432 | `x /= x` reads `other.numerator_` after `numerator_ *= other.denominator_` has changed it, so x = p/q becomes p·q / (q·p·q), which `normalize` reduces to 1/q | `Rational x = Rational(1); x /= Rational(2); x /= x;` leaves 1/2 | 1, as for any other nonzero divisor of the same value: read the divisor's parts before writing | not executed | Rationals.SelfDivisionKeepsHalf | Rationals.DivAssign |
| list.h:270-278 | when both lists are empty, the hand relinking points this sentinel at the copy's sentinel, which is destroyed on return | `List<int> a, b; a = b;` | leave an empty target as it is | not executed | LinkedList.EmptyToEmptyAssignment | LinkedList.List.Assign |
| stack_allocator.h:15 | `sizeof(T) * count` is a size_t product that wraps, so a huge request can succeed with a small block | `reserve<uint64_t>(2^61)` on a 64-byte storage returns the cursor | refuse requests whose byte count does not fit | not executed | StackAllocation.OverflowingRequest | StackAllocation.StackStorage.Reserve |
