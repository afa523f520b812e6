/**
 * The bucketed double-ended queue of deque.h.
 *
 * State: an outer array of bucket descriptors (`externalArray`, of length
 * `externalSize`), the ordinals `frontPos` and `backPos` of the first and
 * last live buckets, and the element count `size`.  The ghost field
 * `Contents` is the sequence the deque represents; `Valid()` ties it to the
 * buckets through `DequeLayout.Layout`.
 */
module BucketedDeque {
  import opened Wrappers
  import opened DequeIterator
  import opened DequeLayout

  const DEFAULT_SIZE_EXT: nat := 10

  /** The error `at` signals for an index at or past `size()`. */
  datatype OutOfRange = OutOfRange

  class Deque<T> {
    var externalSize: nat
    var externalArray: array<Node<T>>
    var frontPos: nat
    var backPos: nat
    var size: nat
    ghost var Contents: seq<T>

    ghost predicate Valid()
      reads this, externalArray
    {
      && externalArray.Length == externalSize
      && size == |Contents|
      && BucketsSized(externalArray[..])
      && Layout(externalArray[..], frontPos, backPos, Contents)
    }

    /** `explicit Deque()`: ten outer slots, both ordinals at the middle one. */
    constructor ()
      ensures Valid() && Contents == []
      ensures fresh(externalArray)
      ensures externalSize == DEFAULT_SIZE_EXT && frontPos == 5 && backPos == 5
      ensures externalArray[frontPos].begin == 0 && externalArray[frontPos].end == 0
    {
      externalSize := DEFAULT_SIZE_EXT;
      externalArray := new Node<T>[DEFAULT_SIZE_EXT](_ => EmptyNode());
      frontPos := DEFAULT_SIZE_EXT / 2;
      backPos := DEFAULT_SIZE_EXT / 2;
      size := 0;
      Contents := [];
      new;
      externalArray[frontPos] := externalArray[frontPos].(begin := 0, end := 0);
    }

    /**
     * The copy constructor: the same outer size and ordinals; each live
     * bucket gets fresh storage with the same live range and a copy of every
     * live element.  Copying an empty deque leaves every descriptor default.
     */
    constructor Copy(other: Deque<T>)
      requires other.Valid()
      ensures Valid() && Contents == other.Contents
      ensures fresh(externalArray)
      ensures externalSize == other.externalSize && frontPos == other.frontPos && backPos == other.backPos
    {
      var a := CopyBuckets(other.externalArray, other.frontPos, other.backPos, other.size, other.Contents);
      externalSize := other.externalSize;
      externalArray := a;
      frontPos := other.frontPos;
      backPos := other.backPos;
      size := other.size;
      Contents := other.Contents;
      if |other.Contents| > 0 {
        CopiedLayout(other.externalArray[..], other.frontPos, other.backPos, other.Contents);
      }
    }

    /**
     * `Deque(count, value)`: just enough buckets for `count` elements, all
     * live, filled from slot 0 of bucket 0; the last one holds the remainder.
     */
    constructor Fill(count: nat, value: T)
      ensures Valid() && Contents == seq(count, _ => value)
      ensures fresh(externalArray)
      ensures externalSize == FillOuterSize(count) && frontPos == 0 && backPos == externalSize - 1
    {
      var outer := FillOuterSize(count);
      var a := new Node<T>[outer](_ => EmptyNode());
      var remaining := count;
      for i := 0 to outer
        invariant remaining == if count <= BUCKET_SIZE * i then 0 else count - BUCKET_SIZE * i
        invariant forall t | 0 <= t < outer ::
          a[t] == if t < i then FilledNode(BucketShare(count, t), value) else EmptyNode()
      {
        var realSizeBucket := if remaining > BUCKET_SIZE then BUCKET_SIZE else remaining;
        assert realSizeBucket == BucketShare(count, i);
        FillBucket(a, i, realSizeBucket, value);
        remaining := remaining - realSizeBucket;
      }
      assert a[..] == FilledNodes(count, value);
      FilledLayout(count, value);
      externalSize := outer;
      externalArray := a;
      frontPos := 0;
      backPos := outer - 1;
      size := count;
      Contents := seq(count, _ => value);
    }

    /** `operator=`: the argument is taken by value (a copy) and swapped in. */
    method Assign(other: Deque<T>)
      requires Valid() && other.Valid()
      modifies this
      ensures Valid() && Contents == old(other.Contents)
      ensures other != this ==> other.Contents == old(other.Contents)
    {
      var copy := new Deque.Copy(other);
      Swap(copy);
    }

    /** Growth of `push_back` happens when the back bucket is full and is the last outer slot. */
    predicate PushBackGrows()
      reads this, externalArray
      requires Valid()
    {
      size > 0 && externalArray[backPos].end == BUCKET_SIZE - 1 && backPos + 1 == externalSize
    }

    /** `end()` grows the outer array when the back bucket is full and is the last outer slot. */
    predicate EndGrows()
      reads this, externalArray
      requires Valid()
    {
      backPos + 1 == externalSize && externalArray[backPos].end == BUCKET_SIZE - 1
    }

    /**
     * A positional `insert` reallocates the outer array (through its `end()`
     * or `push_back` calls) when the back bucket is the last outer slot and
     * has at most one free slot.
     */
    predicate InsertReallocates()
      reads this, externalArray
      requires Valid()
    {
      backPos + 1 == externalSize && externalArray[backPos].end >= BUCKET_SIZE - 2
    }

    /**
     * `increase_external_array`: a new outer array of 3 * realSize
     * descriptors (realSize = backPos - frontPos + 1) receives the old
     * descriptors shifted by realSize - frontPos; the ordinals are recentred
     * into the middle third.  `backPos` may already be one past the old array.
     */
    method IncreaseExternalArray()
      requires externalArray.Length == externalSize && frontPos <= backPos <= externalSize
      modifies this
      ensures fresh(externalArray) && externalArray.Length == externalSize
      ensures externalArray[..] == Grown(old(externalArray[..]), old(frontPos), old(backPos))
      ensures externalSize == 3 * (old(backPos) - old(frontPos) + 1)
      ensures frontPos == old(backPos) - old(frontPos) + 1 && backPos == 2 * frontPos - 1
      ensures size == old(size) && Contents == old(Contents)
    {
      var realSize := backPos - frontPos + 1;
      var newArray := new Node<T>[realSize * 3](_ => EmptyNode());
      var lastCopied := if backPos < externalSize - 1 then backPos else externalSize - 1;
      ghost var nodes := externalArray[..];
      assert newArray[..] == GrownUpTo(nodes, frontPos, backPos, 0);
      for i := 0 to externalSize
        modifies newArray
        invariant newArray[..] == GrownUpTo(nodes, frontPos, backPos, i)
      {
        GrownStep(nodes, frontPos, backPos, i);
        if i <= lastCopied && frontPos <= realSize + i {
          newArray[realSize + i - frontPos] := externalArray[i];
        }
        // Otherwise the descriptor is dropped and its bucket storage released.
      }
      externalArray := newArray;
      externalSize := realSize * 3;
      frontPos := realSize;
      backPos := realSize * 2 - 1;
    }

    /** `swap`: exchanges the whole state of two deques. */
    method Swap(other: Deque<T>)
      modifies this, other
      ensures externalSize == old(other.externalSize) && other.externalSize == old(externalSize)
      ensures externalArray == old(other.externalArray) && other.externalArray == old(externalArray)
      ensures frontPos == old(other.frontPos) && other.frontPos == old(frontPos)
      ensures backPos == old(other.backPos) && other.backPos == old(backPos)
      ensures size == old(other.size) && other.size == old(size)
      ensures Contents == old(other.Contents) && other.Contents == old(Contents)
    {
      externalSize, other.externalSize := other.externalSize, externalSize;
      externalArray, other.externalArray := other.externalArray, externalArray;
      frontPos, other.frontPos := other.frontPos, frontPos;
      backPos, other.backPos := other.backPos, backPos;
      size, other.size := other.size, size;
      Contents, other.Contents := other.Contents, Contents;
    }

    /** `begin()`: the front bucket's ordinal and its first live slot. */
    function Begin(): (it: Iterator)
      reads this, externalArray
      requires Valid()
      ensures it.numberNode == frontPos
      ensures size > 0 ==> AtPos(externalArray[..], frontPos, it, 0)
    {
      Iterator(frontPos, externalArray[frontPos].begin)
    }

    /**
     * `end()`: one past the last element; slot 0 of the next bucket when the
     * back bucket is full (growing the outer array first if that bucket does
     * not exist), `begin()` on an empty deque.
     */
    method End() returns (it: Iterator)
      requires Valid()
      modifies this
      ensures Valid() && Contents == old(Contents)
      ensures !old(EndGrows()) ==>
        && externalArray == old(externalArray) && externalSize == old(externalSize)
        && frontPos == old(frontPos) && backPos == old(backPos)
      ensures size == 0 ==> it == Begin()
      ensures size > 0 ==> AtPos(externalArray[..], frontPos, it, size)
      ensures Distance(it, Begin()) == size
      ensures externalArray == old(externalArray) || fresh(externalArray)
    {
      if backPos + 1 == externalSize && externalArray[backPos].end == BUCKET_SIZE - 1 {
        ghost var nodes, front, back := externalArray[..], frontPos, backPos;
        IncreaseExternalArray();
        GrownLayout(nodes, front, back, back, Contents, frontPos, backPos);
      }
      it := EndIterator();
    }

    /** The iterator `end()` returns once no reallocation is due. */
    function EndIterator(): (it: Iterator)
      reads this, externalArray
      requires Valid() && !EndGrows()
      ensures size == 0 ==> it == Begin()
      ensures size > 0 ==> AtPos(externalArray[..], frontPos, it, size)
      ensures Distance(it, Begin()) == size
    {
      if externalArray[backPos].end == BUCKET_SIZE - 1 then Iterator(backPos + 1, 0)
      else if size == 0 then Begin()
      else Iterator(backPos, externalArray[backPos].end + 1)
    }

    /** `*it`: the element at a cursor that addresses a live slot. */
    function Deref(it: Iterator): (r: T)
      reads this, externalArray
      requires Valid() && InBucket(it)
      requires 0 <= Dense(it) - First(externalArray[..], frontPos) < size
      ensures r == Contents[Dense(it) - First(externalArray[..], frontPos)]
    {
      Locate(externalArray[..], frontPos, backPos, Contents, Dense(it) - First(externalArray[..], frontPos), it);
      externalArray[it.numberNode].ptr.value[it.index].value
    }

    /** `operator[]`: `*(begin() + i)`; out of range is undefined behaviour in the source. */
    function Index(i: nat): (r: T)
      reads this, externalArray
      requires Valid() && i < size
      ensures r == Contents[i]
    {
      Deref(AddAssign(Begin(), i))
    }

    /** `at`: `operator[]` after a bounds check that signals out_of_range. */
    function At(i: nat): (r: Result<T, OutOfRange>)
      reads this, externalArray
      requires Valid()
      ensures r.Failure? <==> i >= size
      ensures r.Success? ==> r.value == Contents[i] && r.value == Index(i)
    {
      if i >= size then Failure(OutOfRange) else Success(Index(i))
    }

    /** `size()`. */
    function Size(): (n: nat)
      reads this, externalArray
      requires Valid()
      ensures n == |Contents|
    {
      size
    }

    /**
     * The second half of `push_back` once `backPos` names the bucket to start:
     * allocate its storage if there is none, construct `value` in slot 0 and
     * set the live range to `0..0`.
     */
    method FillNewBackBucket(value: T)
      requires externalArray.Length == externalSize && size == |Contents| && BucketsSized(externalArray[..])
      requires backPos < externalSize
      requires size == 0 ==> frontPos == backPos
      requires size > 0 ==> 0 < backPos && Layout(externalArray[..], frontPos, backPos - 1, Contents)
      requires size > 0 ==> externalArray[backPos - 1].end == BUCKET_SIZE - 1
      modifies this`size, this`Contents, externalArray
      ensures Valid() && Contents == old(Contents) + [value]
      ensures externalArray[backPos].end == 0
      ensures forall t | 0 <= t < externalSize && t != backPos :: externalArray[t] == old(externalArray[t])
      ensures externalArray[backPos].begin == 0
    {
      ghost var nodes := externalArray[..];
      var nd := externalArray[backPos];
      var bk := if nd.ptr.None? then RawBucket() else nd.ptr.value;
      assert |bk| == BUCKET_SIZE;
      var newNode := Node(Some(bk[0 := Some(value)]), 0, 0);
      SizedAfterSet(nodes, backPos, newNode);
      if size == 0 {
        SingleElement(nodes, backPos, 0, value, bk);
      } else {
        PushBackNewBucket(nodes, frontPos, backPos - 1, Contents, value, bk);
      }
      externalArray[backPos] := newNode;
      assert externalArray[..] == nodes[backPos := newNode];
      size := size + 1;
      Contents := Contents + [value];
    }

    /** The first branch of `push_back`: the back bucket has a free slot after its last element. */
    method AppendInBucket(value: T)
      requires Valid() && size > 0 && externalArray[backPos].end + 1 < BUCKET_SIZE
      modifies this`size, this`Contents, externalArray
      ensures Valid() && Contents == old(Contents) + [value]
      ensures externalArray[backPos].end == old(externalArray[backPos].end) + 1
      ensures externalArray[backPos].begin == old(externalArray[backPos].begin)
      ensures forall t | 0 <= t < externalSize && t != backPos :: externalArray[t] == old(externalArray[t])
    {
      ghost var nodes := externalArray[..];
      PushBackInBucket(nodes, frontPos, backPos, Contents, value);
      var nd := externalArray[backPos];
      var newNode := Store(nd, nd.end + 1, Some(value)).(end := nd.end + 1);
      SizedAfterSet(nodes, backPos, newNode);
      externalArray[backPos] := newNode;
      assert externalArray[..] == nodes[backPos := newNode];
      size := size + 1;
      Contents := Contents + [value];
    }

    /**
     * Growth inside `push_back`: `backPos` has just been moved one past the
     * last outer slot; afterwards the live buckets sit in the middle third and
     * `backPos` names the empty slot after them.
     */
    method GrowForBack()
      requires externalArray.Length == externalSize && size == |Contents| && size > 0 && BucketsSized(externalArray[..])
      requires 0 < backPos == externalSize && Layout(externalArray[..], frontPos, backPos - 1, Contents)
      requires externalArray[backPos - 1].end == BUCKET_SIZE - 1
      modifies this
      ensures fresh(externalArray)
      ensures externalArray.Length == externalSize && size == |Contents| && BucketsSized(externalArray[..])
      ensures 0 < backPos < externalSize && Layout(externalArray[..], frontPos, backPos - 1, Contents)
      ensures externalArray[backPos - 1].end == BUCKET_SIZE - 1
      ensures size == old(size) && Contents == old(Contents)
    {
      ghost var nodes, front, back' := externalArray[..], frontPos, backPos;
      GrownMoves(nodes, front, back', back' - 1 - front);
      IncreaseExternalArray();
      assert externalArray[..] == Grown(nodes, front, back');
      GrownLayout(nodes, front, back' - 1, back', Contents, frontPos, backPos - 1);
    }

    /**
     * The second branch of `push_back`: move `backPos` to the next bucket
     * (to the middle slot on an empty deque), growing the outer array when
     * that bucket does not exist, then start it.
     */
    method StartBackBucket(value: T)
      requires Valid() && (size == 0 || externalArray[backPos].end == BUCKET_SIZE - 1)
      modifies this, externalArray
      ensures Valid() && Contents == old(Contents) + [value]
      ensures old(size) > 0 && !old(PushBackGrows()) ==>
        && externalArray == old(externalArray) && externalSize == old(externalSize)
        && frontPos == old(frontPos) && backPos == old(backPos) + 1 && externalArray[backPos].end == 0
        && externalArray[frontPos] == old(externalArray[frontPos])
      ensures externalArray == old(externalArray) || fresh(externalArray)
      ensures old(size) == 0 ==> externalSize == old(externalSize) && frontPos == backPos == externalSize / 2 && externalArray[frontPos].begin == 0
    {
      ghost var nodes, front, back := externalArray[..], frontPos, backPos;
      if size == 0 {
        backPos := externalSize / 2;
        frontPos := externalSize / 2;
      } else {
        backPos := backPos + 1;
      }
      if backPos >= externalSize {
        GrowForBack();
      } else if size > 0 {
        assert externalArray[..] == nodes;
      }
      FillNewBackBucket(value);
    }

    /** `push_back`. */
    method PushBack(value: T)
      requires Valid()
      modifies this, externalArray
      ensures Valid() && Contents == old(Contents) + [value]
      ensures old(size) > 0 && !old(PushBackGrows()) ==>
        && externalArray == old(externalArray) && externalSize == old(externalSize)
        && frontPos == old(frontPos) && externalArray[frontPos].begin == old(externalArray[frontPos].begin)
      ensures old(size) > 0 && old(externalArray[backPos].end) < BUCKET_SIZE - 1 ==>
        backPos == old(backPos) && externalArray[backPos].end == old(externalArray[backPos].end) + 1
      ensures old(size) > 0 && old(externalArray[backPos].end) == BUCKET_SIZE - 1 && !old(PushBackGrows()) ==>
        backPos == old(backPos) + 1 && externalArray[backPos].end == 0
      ensures externalArray == old(externalArray) || fresh(externalArray)
      ensures old(size) == 0 ==> externalSize == old(externalSize) && frontPos == backPos == externalSize / 2 && externalArray[frontPos].begin == 0
    {
      if size > 0 && externalArray[backPos].end + 1 < BUCKET_SIZE {
        AppendInBucket(value);
      } else {
        StartBackBucket(value);
      }
    }

    /**
     * The second half of `push_front` once `frontPos` names the bucket to
     * start: allocate its storage if there is none, construct `value` in the
     * last slot and set the live range to `31..31`.
     */
    method FillNewFrontBucket(value: T)
      requires externalArray.Length == externalSize && size == |Contents| && BucketsSized(externalArray[..])
      requires frontPos < externalSize
      requires size == 0 ==> frontPos == backPos
      requires size > 0 ==> frontPos < backPos && Layout(externalArray[..], frontPos + 1, backPos, Contents)
      requires size > 0 ==> externalArray[frontPos + 1].begin == 0
      modifies this`size, this`Contents, externalArray
      ensures Valid() && Contents == [value] + old(Contents)
      ensures externalArray[frontPos].begin == BUCKET_SIZE - 1
      ensures forall t | 0 <= t < externalSize && t != frontPos :: externalArray[t] == old(externalArray[t])
    {
      ghost var nodes := externalArray[..];
      var nd := externalArray[frontPos];
      var bk := if nd.ptr.None? then RawBucket() else nd.ptr.value;
      assert |bk| == BUCKET_SIZE;
      var newNode := Node(Some(bk[BUCKET_SIZE - 1 := Some(value)]), BUCKET_SIZE - 1, BUCKET_SIZE - 1);
      SizedAfterSet(nodes, frontPos, newNode);
      if size == 0 {
        SingleElement(nodes, frontPos, BUCKET_SIZE - 1, value, bk);
      } else {
        PushFrontNewBucket(nodes, frontPos + 1, backPos, Contents, value, bk);
      }
      externalArray[frontPos] := newNode;
      assert externalArray[..] == nodes[frontPos := newNode];
      size := size + 1;
      Contents := [value] + Contents;
    }

    /** The first branch of `push_front`: the front bucket has a free slot before its first element. */
    method PrependInBucket(value: T)
      requires Valid() && size > 0 && externalArray[frontPos].begin >= 1
      modifies this`size, this`Contents, externalArray
      ensures Valid() && Contents == [value] + old(Contents)
    {
      ghost var nodes := externalArray[..];
      PushFrontInBucket(nodes, frontPos, backPos, Contents, value);
      var nd := externalArray[frontPos];
      var newNode := Store(nd, nd.begin - 1, Some(value)).(begin := nd.begin - 1);
      SizedAfterSet(nodes, frontPos, newNode);
      externalArray[frontPos] := newNode;
      assert externalArray[..] == nodes[frontPos := newNode];
      size := size + 1;
      Contents := [value] + Contents;
    }

    /**
     * Growth inside `push_front`: `frontPos` is 0; afterwards the live
     * buckets sit in the middle third, with a free outer slot before them.
     */
    method GrowForFront()
      requires externalArray.Length == externalSize && size == |Contents| && BucketsSized(externalArray[..])
      requires frontPos == 0 && backPos < externalSize
      requires size == 0 ==> frontPos == backPos
      requires size > 0 ==> Layout(externalArray[..], frontPos, backPos, Contents) && externalArray[frontPos].begin == 0
      modifies this
      ensures fresh(externalArray)
      ensures externalArray.Length == externalSize && size == |Contents| && BucketsSized(externalArray[..])
      ensures 0 < frontPos <= backPos < externalSize
      ensures size == 0 ==> frontPos == backPos
      ensures size > 0 ==> Layout(externalArray[..], frontPos, backPos, Contents) && externalArray[frontPos].begin == 0
      ensures size == old(size) && Contents == old(Contents)
    {
      ghost var nodes, front, back := externalArray[..], frontPos, backPos;
      GrownSized(nodes, front, back);
      GrownMoves(nodes, front, back, 0);
      IncreaseExternalArray();
      if size > 0 {
        GrownLayout(nodes, front, back, back, Contents, frontPos, backPos);
      }
    }

    /**
     * The second branch of `push_front`: move `frontPos` to the previous
     * bucket (to the middle slot on an empty deque), growing the outer array
     * when there is none, then start it.
     */
    method StartFrontBucket(value: T)
      requires Valid() && (size == 0 || externalArray[frontPos].begin == 0)
      modifies this, externalArray
      ensures Valid() && Contents == [value] + old(Contents)
      ensures externalArray == old(externalArray) || fresh(externalArray)
    {
      ghost var nodes := externalArray[..];
      if size == 0 {
        backPos := externalSize / 2;
        frontPos := externalSize / 2;
      }
      if frontPos <= 0 {
        GrowForFront();
      } else if size > 0 {
        assert externalArray[..] == nodes;
      }
      ghost var front := frontPos;
      assert size > 0 ==> Layout(externalArray[..], front, backPos, Contents);
      if size != 0 {
        frontPos := frontPos - 1;
        assert frontPos + 1 == front;
      }
      FillNewFrontBucket(value);
    }

    /** `push_front`. */
    method PushFront(value: T)
      requires Valid()
      modifies this, externalArray
      ensures Valid() && Contents == [value] + old(Contents)
      ensures externalArray == old(externalArray) || fresh(externalArray)
    {
      if size > 0 && externalArray[frontPos].begin >= 1 {
        PrependInBucket(value);
      } else {
        StartFrontBucket(value);
      }
    }

    /** `pop_back` when the back bucket keeps at least one element. */
    method DropLastInBucket()
      requires Valid() && size > 0 && externalArray[backPos].end > 0
      modifies this`size, this`Contents, externalArray
      ensures Valid() && Contents == old(Contents)[..|old(Contents)| - 1]
      ensures externalArray[frontPos].begin == old(externalArray[frontPos].begin)
    {
      ghost var nodes := externalArray[..];
      PopBackInBucket(nodes, frontPos, backPos, Contents);
      var nd := externalArray[backPos];
      var newNode := Store(nd, nd.end, None).(end := nd.end - 1);
      SizedAfterSet(nodes, backPos, newNode);
      externalArray[backPos] := newNode;
      assert externalArray[..] == nodes[backPos := newNode];
      size := size - 1;
      Contents := Contents[..|Contents| - 1];
    }

    /** `pop_back` of the only element of the back bucket when other buckets remain. */
    method LeaveBackBucket()
      requires Valid() && size > 1 && externalArray[backPos].end == 0
      modifies this`size, this`Contents, this`backPos, externalArray
      ensures Valid() && Contents == old(Contents)[..|old(Contents)| - 1]
      ensures externalArray[frontPos].begin == old(externalArray[frontPos].begin)
    {
      ghost var nodes := externalArray[..];
      PopBackLeaveBucket(nodes, frontPos, backPos, Contents);
      var cleared := Store(externalArray[backPos], 0, None);
      var prev := externalArray[backPos - 1].(end := BUCKET_SIZE - 1);
      SizedAfterSet(nodes, backPos, cleared);
      SizedAfterSet(nodes[backPos := cleared], backPos - 1, prev);
      externalArray[backPos] := cleared;
      externalArray[backPos - 1] := prev;
      assert externalArray[..] == nodes[backPos := cleared][backPos - 1 := prev];
      backPos := backPos - 1;
      size := size - 1;
      Contents := Contents[..|Contents| - 1];
    }

    /** `pop_back` of the last element: the bucket's range is reset to NOTHING. */
    method RemoveOnlyAtBack()
      requires Valid() && size == 1 && externalArray[backPos].end == 0
      modifies this`size, this`Contents, externalArray
      ensures Valid() && Contents == []
    {
      ghost var nodes := externalArray[..];
      PopBackLastAtZero(nodes, frontPos, backPos, Contents);
      var newNode := Store(externalArray[backPos], 0, None).(begin := NOTHING, end := NOTHING);
      SizedAfterSet(nodes, backPos, newNode);
      externalArray[backPos] := newNode;
      assert externalArray[..] == nodes[backPos := newNode];
      size := size - 1;
      Contents := [];
    }

    /** `pop_back` (undefined behaviour on an empty deque in the source). */
    method PopBack()
      requires Valid() && size > 0
      modifies this, externalArray
      ensures Valid() && Contents == old(Contents)[..|old(Contents)| - 1]
      ensures externalArray == old(externalArray) && externalSize == old(externalSize) && frontPos == old(frontPos)
      ensures size > 0 ==> externalArray[frontPos].begin == old(externalArray[frontPos].begin)
    {
      assert LiveBucket(externalArray[backPos]);
      if externalArray[backPos].end > 0 {
        DropLastInBucket();
      } else if size > 1 {
        LeaveBackBucket();
      } else {
        RemoveOnlyAtBack();
      }
    }

    /** `pop_front` when the front bucket keeps at least one element. */
    method DropFirstInBucket()
      requires Valid() && size > 0 && externalArray[frontPos].begin < BUCKET_SIZE - 1
      modifies this`size, this`Contents, externalArray
      ensures Valid() && Contents == old(Contents)[1..]
      ensures forall t | 0 <= t < externalSize :: externalArray[t].end == old(externalArray[t].end)
    {
      ghost var nodes := externalArray[..];
      PopFrontInBucket(nodes, frontPos, backPos, Contents);
      var nd := externalArray[frontPos];
      var newNode := Store(nd, nd.begin, None).(begin := nd.begin + 1);
      SizedAfterSet(nodes, frontPos, newNode);
      externalArray[frontPos] := newNode;
      assert externalArray[..] == nodes[frontPos := newNode];
      size := size - 1;
      Contents := Contents[1..];
    }

    /** `pop_front` of the only element of the front bucket when other buckets remain. */
    method LeaveFrontBucket()
      requires Valid() && size > 1 && externalArray[frontPos].begin == BUCKET_SIZE - 1
      modifies this`size, this`Contents, this`frontPos, externalArray
      ensures Valid() && Contents == old(Contents)[1..]
      ensures forall t | 0 <= t < externalSize :: externalArray[t].end == old(externalArray[t].end)
    {
      ghost var nodes := externalArray[..];
      PopFrontLeaveBucket(nodes, frontPos, backPos, Contents);
      var cleared := Store(externalArray[frontPos], BUCKET_SIZE - 1, None);
      var next := externalArray[frontPos + 1].(begin := 0);
      SizedAfterSet(nodes, frontPos, cleared);
      SizedAfterSet(nodes[frontPos := cleared], frontPos + 1, next);
      externalArray[frontPos] := cleared;
      externalArray[frontPos + 1] := next;
      assert externalArray[..] == nodes[frontPos := cleared][frontPos + 1 := next];
      frontPos := frontPos + 1;
      size := size - 1;
      Contents := Contents[1..];
    }

    /**
     * `pop_front` of the last element: the range of the bucket at `backPos`
     * (which is the front bucket) is reset to NOTHING.
     */
    method RemoveOnlyAtFront()
      requires Valid() && size == 1 && externalArray[frontPos].begin == BUCKET_SIZE - 1
      modifies this`size, this`Contents, externalArray
      ensures Valid() && Contents == []
    {
      ghost var nodes := externalArray[..];
      PopFrontLastAtEnd(nodes, frontPos, backPos, Contents);
      var newNode := Store(externalArray[backPos], BUCKET_SIZE - 1, None).(begin := NOTHING, end := NOTHING);
      SizedAfterSet(nodes, backPos, newNode);
      externalArray[backPos] := newNode;
      assert externalArray[..] == nodes[backPos := newNode];
      size := size - 1;
      Contents := [];
    }

    /** `pop_front` (undefined behaviour on an empty deque in the source). */
    method PopFront()
      requires Valid() && size > 0
      modifies this, externalArray
      ensures Valid() && Contents == old(Contents)[1..]
      ensures externalArray == old(externalArray) && externalSize == old(externalSize)
      ensures backPos == old(backPos)
      ensures old(size) > 1 ==> externalArray[backPos].end == old(externalArray[backPos].end)
    {
      assert LiveBucket(externalArray[frontPos]);
      if externalArray[frontPos].begin < BUCKET_SIZE - 1 {
        DropFirstInBucket();
      } else if size > 1 {
        LeaveFrontBucket();
      } else {
        RemoveOnlyAtFront();
      }
    }

    /**
     * Placement-constructs `x` over the live slot addressed by `it` (logical
     * position k), as the shifting loops of `insert` and `erase` do.  Only
     * that slot changes; every descriptor keeps its live range.
     */
    method ConstructAt(it: Iterator, x: T, ghost k: nat)
      requires Valid() && k < size && AtPos(externalArray[..], frontPos, it, k)
      modifies this`Contents, externalArray
      ensures Valid() && Contents == old(Contents)[k := x]
      ensures forall t | 0 <= t < externalSize ::
        externalArray[t].begin == old(externalArray[t].begin) && externalArray[t].end == old(externalArray[t].end)
      ensures First(externalArray[..], frontPos) == old(First(externalArray[..], frontPos))
    {
      ghost var nodes := externalArray[..];
      StoreAt(nodes, frontPos, backPos, Contents, k, it, x);
      var newNode := Store(externalArray[it.numberNode], it.index, Some(x));
      SizedAfterSet(nodes, it.numberNode, newNode);
      externalArray[it.numberNode] := newNode;
      assert externalArray[..] == nodes[it.numberNode := newNode];
      Contents := Contents[k := x];
    }

    /**
     * `insert(where, value)` with `where` at logical position k: at `begin()`
     * it is `push_front`, at `end()` it is `push_back`; otherwise it appends
     * `value`, shifts the elements from k onwards one slot towards the back
     * (walking from `end() - 1` down to `where`) and constructs `value` at
     * `where`.  The source compares `where` with `end()` and then walks from
     * a second `end()` down to it; when either call reallocates the outer
     * array, `where` is stale, so those cases are excluded.
     */
    method Insert(where: Iterator, value: T, ghost k: nat)
      requires Valid() && k <= size
      requires size == 0 ==> where == Begin()
      requires size > 0 ==> AtPos(externalArray[..], frontPos, where, k)
      requires 0 < k < size ==> !InsertReallocates()
      requires 0 < k == size ==> !EndGrows()
      modifies this, externalArray
      ensures Valid() && Contents == old(Contents)[..k] + [value] + old(Contents)[k..]
    {
      ghost var s := Contents;
      if size > 0 {
        EqualAtPos(externalArray[..], frontPos, where, k, Begin(), 0);
      }
      if Equal(where, Begin()) {
        PushFront(value);
        return;
      }
      var last := End();
      EqualAtPos(externalArray[..], frontPos, where, k, last, size);
      if Equal(where, last) {
        PushBack(value);
        return;
      }
      PushBack(value);
      ShiftTowardsBack(where, value, k, s);
    }

    /** One step of the `insert` loop: `*it = *(it - 1)`, then `--it`. */
    method CopyFromPrevious(it: Iterator, ghost p: nat) returns (it': Iterator)
      requires Valid() && 0 < p < size && AtPos(externalArray[..], frontPos, it, p)
      modifies this`Contents, externalArray
      ensures Valid() && Contents == old(Contents)[p := old(Contents)[p - 1]]
      ensures First(externalArray[..], frontPos) == old(First(externalArray[..], frontPos))
      ensures AtPos(externalArray[..], frontPos, it', p - 1)
      ensures forall t | 0 <= t < externalSize ::
        externalArray[t].begin == old(externalArray[t].begin) && externalArray[t].end == old(externalArray[t].end)
    {
      var prev := Minus(it, 1);
      var x := Deref(prev);
      ConstructAt(it, x, p);
      it' := SubAssign(it, 1);
    }

    /**
     * The tail of `insert` once `value` has been appended: walking an
     * iterator from `end() - 1` down to `where` (position k), each slot
     * receives the element before it; then `value` is constructed at `where`.
     */
    method ShiftTowardsBack(where: Iterator, value: T, ghost k: nat, ghost s: seq<T>)
      requires Valid() && Contents == s + [value]
      requires 0 < k < size && AtPos(externalArray[..], frontPos, where, k) && !EndGrows()
      modifies this, externalArray
      ensures Valid() && Contents == s[..k] + [value] + s[k..]
    {
      ghost var base := First(externalArray[..], frontPos);
      var last := EndIterator();
      var it := Minus(last, 1);
      ghost var p, y := |s|, value;
      assert s + [value] == InsertMid(s, p, y);
      while !Equal(it, where)
        invariant k <= p <= |s|
        invariant Valid() && Contents == InsertMid(s, p, y) && externalArray == old(externalArray)
        invariant First(externalArray[..], frontPos) == base
        invariant InBucket(it) && Dense(it) == base + p
        invariant InBucket(where) && Dense(where) == base + k
        decreases p
      {
        EqualAtPos(externalArray[..], frontPos, it, p, where, k);
        InsertStep(s, p, y);
        it := CopyFromPrevious(it, p);
        p, y := p - 1, s[p - 1];
      }
      EqualAtPos(externalArray[..], frontPos, it, p, where, k);
      ConstructAt(where, value, k);
      assert Contents == InsertMid(s, k, value);
    }

    /** One step of the `erase` loop: `*it = *(it + 1)`, then `++it`. */
    method CopyFromNext(it: Iterator, ghost p: nat) returns (it': Iterator)
      requires Valid() && p + 1 < size && AtPos(externalArray[..], frontPos, it, p)
      modifies this`Contents, externalArray
      ensures Valid() && Contents == old(Contents)[p := old(Contents)[p + 1]]
      ensures First(externalArray[..], frontPos) == old(First(externalArray[..], frontPos))
      ensures AtPos(externalArray[..], frontPos, it', p + 1)
      ensures forall t | 0 <= t < externalSize ::
        externalArray[t].begin == old(externalArray[t].begin) && externalArray[t].end == old(externalArray[t].end)
    {
      var next := Plus(it, 1);
      var x := Deref(next);
      ConstructAt(it, x, p);
      it' := AddAssign(it, 1);
    }

    /**
     * `erase(where)` with `where` at logical position k < size: at `begin()`
     * it is `pop_front`, at `end() - 1` it is `pop_back`; otherwise it shifts
     * the elements after k one slot towards the front (walking from `where`
     * up to `end() - 1`, recomputing `end()` each time) and pops the back.
     * The source keeps `where` across `end()`, which may reallocate the outer
     * array, so that case is excluded.
     */
    method Erase(where: Iterator, ghost k: nat)
      requires Valid() && k < size && AtPos(externalArray[..], frontPos, where, k)
      requires k > 0 ==> !EndGrows()
      modifies this, externalArray
      ensures Valid() && Contents == old(Contents)[..k] + old(Contents)[k + 1..]
    {
      ghost var s := Contents;
      ghost var n := size;
      EqualAtPos(externalArray[..], frontPos, where, k, Begin(), 0);
      if Equal(where, Begin()) {
        PopFront();
        return;
      }
      var last := End();
      last := Minus(last, 1);
      EqualAtPos(externalArray[..], frontPos, where, k, last, n - 1);
      if Equal(where, last) {
        PopBack();
        return;
      }
      ShiftTowardsFront(where, k, s);
    }

    /**
     * The tail of `erase` at position k: walking an iterator from `where` up
     * to `end() - 1` (recomputed each step), each slot receives the element
     * after it; then `pop_back` drops the now duplicated last element.
     */
    method ShiftTowardsFront(where: Iterator, ghost k: nat, ghost s: seq<T>)
      requires Valid() && Contents == s && 0 < k < size - 1 && !EndGrows()
      requires AtPos(externalArray[..], frontPos, where, k)
      modifies this, externalArray
      ensures Valid() && Contents == s[..k] + s[k + 1..]
    {
      var it := where;
      var last := End();
      last := Minus(last, 1);
      ghost var p := k;
      ghost var base := First(externalArray[..], frontPos);
      assert s == EraseMid(s, k, k);
      while !Equal(it, last)
        invariant k <= p < |s|
        invariant Valid() && Contents == EraseMid(s, k, p) && externalArray == old(externalArray)
        invariant backPos == old(backPos) && externalSize == old(externalSize) && !EndGrows()
        invariant First(externalArray[..], frontPos) == base
        invariant InBucket(it) && Dense(it) == base + p
        invariant InBucket(last) && Dense(last) == base + |s| - 1
        decreases |s| - p
      {
        it, last := ShiftStep(it, last, k, p, s, base);
        p := p + 1;
      }
      EqualAtPos(externalArray[..], frontPos, it, p, last, |s| - 1);
      PopBack();
      EraseDone(s, k);
    }

    /**
     * One pass of the shift loop of `erase`, at position p short of
     * `end() - 1`: the slot at p receives the element after it, the
     * iterator moves on and `end() - 1` is recomputed.
     */
    method ShiftStep(it: Iterator, last: Iterator, ghost k: nat, ghost p: nat, ghost s: seq<T>, ghost base: int)
      returns (it': Iterator, last': Iterator)
      requires k <= p < |s| && Valid() && Contents == EraseMid(s, k, p) && !EndGrows()
      requires First(externalArray[..], frontPos) == base
      requires InBucket(it) && Dense(it) == base + p
      requires InBucket(last) && Dense(last) == base + |s| - 1 && !Equal(it, last)
      modifies this`Contents, externalArray
      ensures p + 1 < |s| && Valid() && Contents == EraseMid(s, k, p + 1) && !EndGrows()
      ensures First(externalArray[..], frontPos) == base
      ensures InBucket(it') && Dense(it') == base + p + 1
      ensures InBucket(last') && Dense(last') == base + |s| - 1
    {
      EqualAtPos(externalArray[..], frontPos, it, p, last, |s| - 1);
      EraseStep(s, k, p);
      it' := CopyFromNext(it, p);
      last' := EndIterator();
      last' := Minus(last', 1);
    }
  }

  /**
   * The outer array the copy constructor builds from `src`: default
   * descriptors, then (unless the source is empty) a copy of each live bucket.
   */
  method CopyBuckets<T>(src: array<Node<T>>, front: nat, back: nat, size: nat, ghost contents: seq<T>) returns (a: array<Node<T>>)
    requires Layout(src[..], front, back, contents) && size == |contents|
    ensures fresh(a)
    ensures |contents| == 0 ==> a[..] == seq(src.Length, _ => EmptyNode())
    ensures |contents| > 0 ==> a[..] == CopiedNodes(src[..], front, back)
  {
    a := new Node<T>[src.Length](_ => EmptyNode());
    if size == 0 {
      return;
    }
    for i := front to back + 1
      invariant forall t | 0 <= t < a.Length ::
        a[t] == if front <= t < i then CopyNode(src[t]) else EmptyNode()
    {
      CopyBucket(a, i, src[i]);
    }
    assert a[..] == CopiedNodes(src[..], front, back);
  }

  /** Fresh storage for slot i of `a` with nd's live range, then a copy of each live element. */
  method CopyBucket<T>(a: array<Node<T>>, i: nat, nd: Node<T>)
    requires i < a.Length && LiveBucket(nd)
    modifies a
    ensures a[i] == CopyNode(nd)
    ensures forall t | 0 <= t < a.Length && t != i :: a[t] == old(a[t])
  {
    a[i] := Node(Some(RawBucket()), nd.begin, nd.end);
    assert a[i].ptr.value == PartialCopy(nd, nd.begin).ptr.value;
    for j := nd.begin to nd.end + 1
      invariant a[i] == PartialCopy(nd, j)
      invariant forall t | 0 <= t < a.Length && t != i :: a[t] == old(a[t])
    {
      CopyStep(nd, j);
      a[i] := Store(a[i], j, nd.ptr.value[j]);
    }
  }

  /** Fresh storage for the default descriptor at slot i, with v constructed in slots 0..n-1. */
  method FillBucket<T>(a: array<Node<T>>, i: nat, n: nat, v: T)
    requires i < a.Length && a[i] == EmptyNode() && n <= BUCKET_SIZE
    modifies a
    ensures a[i] == FilledNode(n, v)
    ensures forall t | 0 <= t < a.Length && t != i :: a[t] == old(a[t])
  {
    a[i] := Node(Some(RawBucket()), 0, a[i].end);
    assert a[i].ptr.value == FilledNode(0, v).ptr.value;
    for j := 0 to n
      invariant a[i] == FilledNode(j, v)
      invariant forall t | 0 <= t < a.Length && t != i :: a[t] == old(a[t])
    {
      FillStep(j, v);
      a[i] := Store(a[i], j, Some(v)).(end := j);
    }
  }

  /** `SampleDeque` of main.cpp: three `push_back`s and two `push_front`s, then every element in order. */
  method SampleDeque() returns (printed: seq<int>)
    ensures printed == [1003, 1001, 1, 2, 3]
  {
    var d := SamplePushes();
    printed := Elements(d);
  }

  /** The pushes of `SampleDeque` on a default deque. */
  method SamplePushes() returns (d: Deque<int>)
    ensures d.Valid() && d.Contents == [1003] + [1001, 1, 2, 3]
  {
    d := new Deque<int>();
    d.PushBack(1);
    d.PushBack(2);
    assert d.Contents == [1, 2];
    d.PushFront(1001);
    assert d.Contents == [1001, 1, 2];
    d.PushBack(3);
    assert d.Contents == [1001, 1, 2, 3];
    d.PushFront(1003);
  }

  /** The range-for over a deque: every element, from `begin()` to `end()`. */
  method Elements<T>(d: Deque<T>) returns (r: seq<T>)
    requires d.Valid()
    ensures r == d.Contents
  {
    r := [];
    for i := 0 to d.size
      invariant r == d.Contents[..i]
    {
      r := r + [d.Index(i)];
    }
  }

  /** The `size_t` range: arithmetic on `size_t` is modulo this. */
  const SIZE_T_MODULUS: int := 0x1_0000_0000_0000_0000

  /**
   * The target slot `real_size + (i - front_pos)` that `increase_external_array`
   * computes for every old slot i up to `back_pos`, in `size_t` arithmetic.
   * It is the intended index only when `i - front_pos` does not wrap.
   */
  function GrowTargetAsWritten(realSize: nat, i: nat, front: nat): (r: nat)
    requires realSize < SIZE_T_MODULUS && i < SIZE_T_MODULUS && front < SIZE_T_MODULUS
    ensures r < SIZE_T_MODULUS
    ensures front <= i ==> r == (realSize + i - front) % SIZE_T_MODULUS
    ensures i < front <= realSize + i ==> r == realSize + i - front
    ensures realSize + i < front ==> r == SIZE_T_MODULUS + realSize + i - front
  {
    (realSize + (i - front) % SIZE_T_MODULUS) % SIZE_T_MODULUS
  }

  /**
   * A reachable state in which the next `push_back` reallocates the outer
   * array while `frontPos` is past the number of buckets kept: a default
   * deque after 160 `push_back`s and 128 `pop_front`s.  The reallocation then
   * keeps 2 buckets in a new outer array of 6, and its first copy (old slot
   * 0) targets slot 2^64 - 7.
   */
  method GrowthWrapScenario() returns (d: Deque<int>)
    ensures d.Valid() && d.PushBackGrows() && |d.Contents| == 32
    ensures d.frontPos == 9 && d.backPos == 9 && d.externalSize == 10
    ensures GrowTargetAsWritten(d.backPos + 1 - d.frontPos + 1, 0, d.frontPos) == SIZE_T_MODULUS - 7
  {
    d := new Deque<int>();
    for i := 0 to 160
      invariant fresh(d) && fresh(d.externalArray)
      invariant d.Valid() && |d.Contents| == i && d.externalSize == 10
      invariant d.frontPos == 5 && d.externalArray[5].begin == 0
    {
      d.PushBack(i);
    }
    for i := 0 to 128
      invariant fresh(d) && fresh(d.externalArray)
      invariant d.Valid() && |d.Contents| == 160 - i && d.externalSize == 10
      invariant d.backPos == 9 && d.externalArray[9].end == BUCKET_SIZE - 1
    {
      d.PopFront();
    }
    assert LiveBucket(d.externalArray[d.frontPos]);
  }

  /**
   * `Deque(count, value)` as written sizes the outer array as
   * `(count - 1) / BUCKET_SIZE + 1` in `size_t` arithmetic.
   */
  function FillOuterSizeAsWritten(count: nat): (r: nat)
    requires count < SIZE_T_MODULUS
    ensures count > 0 ==> r == FillOuterSize(count)
    ensures count == 0 ==> r == SIZE_T_MODULUS / BUCKET_SIZE
  {
    ((count - 1) % SIZE_T_MODULUS) / BUCKET_SIZE + 1
  }

  /**
   * For `count == 0` the written size wraps to 2^59 outer slots, with
   * `back_pos` 2^59 - 1 and no element: no outer array of that size lays out
   * an empty deque, which needs `front_pos == back_pos`.
   */
  lemma FillZeroAsWrittenBreaksLayout<T>(nodes: seq<Node<T>>)
    ensures FillOuterSizeAsWritten(0) == 0x800_0000_0000_0000
    ensures !Layout(nodes, 0, FillOuterSizeAsWritten(0) - 1, [])
  {
  }
}
