/**
 * The two-level layout of the deque (deque.h): an outer array of bucket
 * descriptors `Node{ptr, begin, end}`, each pointing at a BUCKET_SIZE-slot
 * bucket whose live slots are `begin..end` (inclusive).
 *
 * Bucket storage is modelled as a value: a sequence of BUCKET_SIZE slots,
 * `Some(x)` for a constructed element and `None` for raw storage.
 * `Layout` is the representation invariant that ties the descriptors between
 * `front` and `back` to the abstract contents of the deque.
 */
module DequeLayout {
  import opened Wrappers
  import opened DequeIterator

  /** The marker of a bucket with no live range (BUCKET_SIZE * 2). */
  const NOTHING: nat := 64

  type Bucket<T> = seq<Option<T>>

  datatype Node<T> = Node(ptr: Option<Bucket<T>>, begin: nat, end: nat)

  /** A default-constructed descriptor: no storage, empty range. */
  function EmptyNode<T>(): Node<T> {
    Node(None, NOTHING, NOTHING)
  }

  /** Freshly allocated raw storage for one bucket. */
  function RawBucket<T>(): (b: Bucket<T>)
    ensures |b| == BUCKET_SIZE
  {
    seq(BUCKET_SIZE, _ => None)
  }

  /** Constructs (or destroys, with None) the element in slot j of a bucket. */
  function Store<T>(nd: Node<T>, j: nat, x: Option<T>): Node<T>
    requires nd.ptr.Some? && j < |nd.ptr.value|
  {
    nd.(ptr := Some(nd.ptr.value[j := x]))
  }

  ghost predicate LiveBucket<T>(nd: Node<T>) {
    nd.ptr.Some? && |nd.ptr.value| == BUCKET_SIZE && nd.begin <= nd.end < BUCKET_SIZE
  }

  /** Every allocated bucket has BUCKET_SIZE slots. */
  ghost predicate BucketsSized<T>(nodes: seq<Node<T>>) {
    forall i | 0 <= i < |nodes| :: nodes[i].ptr.Some? ==> |nodes[i].ptr.value| == BUCKET_SIZE
  }

  /** Dense position of the first element. */
  function First<T>(nodes: seq<Node<T>>, front: nat): int
    requires front < |nodes|
  {
    front * BUCKET_SIZE + nodes[front].begin
  }

  /**
   * The layout invariant: the buckets strictly between `front` and `back` are
   * full, the front bucket ends at the last slot and the back bucket starts at
   * slot 0 when they differ, the element count is the number of live slots,
   * and the live slot at dense position `First + k` holds `contents[k]`.
   * An empty deque has `front == back` and a back bucket that is not full.
   */
  ghost predicate Layout<T>(nodes: seq<Node<T>>, front: nat, back: nat, contents: seq<T>) {
    && front <= back < |nodes|
    && if |contents| == 0 then
         front == back && nodes[back].end != BUCKET_SIZE - 1
       else
         && (forall i | front <= i <= back :: LiveBucket(nodes[i]))
         && (forall i | front < i <= back :: nodes[i].begin == 0)
         && (forall i | front <= i < back :: nodes[i].end == BUCKET_SIZE - 1)
         && |contents| == back * BUCKET_SIZE + nodes[back].end + 1 - First(nodes, front)
         && (forall i, j | front <= i <= back && nodes[i].begin <= j <= nodes[i].end ::
               SlotHolds(nodes, front, contents, i, j))
  }

  /** Slot j of bucket i holds the element whose dense position is i * BUCKET_SIZE + j. */
  ghost predicate SlotHolds<T>(nodes: seq<Node<T>>, front: nat, contents: seq<T>, i: int, j: int) {
    && 0 <= i < |nodes| && front < |nodes|
    && nodes[i].ptr.Some? && 0 <= j < |nodes[i].ptr.value|
    && 0 <= i * BUCKET_SIZE + j - First(nodes, front) < |contents|
    && nodes[i].ptr.value[j] == Some(contents[i * BUCKET_SIZE + j - First(nodes, front)])
  }

  /** A cursor at logical position k: inside a bucket, at dense position First + k. */
  ghost predicate AtPos<T>(nodes: seq<Node<T>>, front: nat, it: Iterator, k: int)
    requires front < |nodes|
  {
    InBucket(it) && Dense(it) == First(nodes, front) + k
  }

  /** The cursor at logical position k < size addresses a live slot holding contents[k]. */
  lemma Locate<T>(nodes: seq<Node<T>>, front: nat, back: nat, contents: seq<T>, k: int, it: Iterator)
    requires Layout(nodes, front, back, contents) && 0 <= k < |contents|
    requires AtPos(nodes, front, it, k)
    ensures front <= it.numberNode <= back
    ensures nodes[it.numberNode].begin <= it.index <= nodes[it.numberNode].end
    ensures nodes[it.numberNode].ptr.value[it.index] == Some(contents[k])
  {
    var i, j := it.numberNode, it.index;
    assert LiveBucket(nodes[front]) && LiveBucket(nodes[back]);
    assert front <= i <= back;
    assert nodes[i].begin <= j by {
      if i != front { assert nodes[i].begin == 0; }
    }
    assert j <= nodes[i].end by {
      if i != back { assert nodes[i].end == BUCKET_SIZE - 1; }
    }
    assert SlotHolds(nodes, front, contents, i, j);
  }

  /** Two cursors at logical positions k1 and k2 are `==` exactly when k1 == k2. */
  lemma EqualAtPos<T>(nodes: seq<Node<T>>, front: nat, a: Iterator, k1: int, b: Iterator, k2: int)
    requires front < |nodes| && AtPos(nodes, front, a, k1) && AtPos(nodes, front, b, k2)
    ensures Equal(a, b) <==> k1 == k2
  {
    EqualIsDenseEquality(a, b);
  }

  /** `push_back` into the back bucket when it has a free slot after `end`. */
  lemma PushBackInBucket<T>(nodes: seq<Node<T>>, front: nat, back: nat, contents: seq<T>, v: T)
    requires Layout(nodes, front, back, contents) && |contents| > 0
    requires nodes[back].end + 1 < BUCKET_SIZE
    ensures Layout(nodes[back := Store(nodes[back], nodes[back].end + 1, Some(v)).(end := nodes[back].end + 1)],
                   front, back, contents + [v])
  {
    var e := nodes[back].end;
    var nodes' := nodes[back := Store(nodes[back], e + 1, Some(v)).(end := e + 1)];
    var c' := contents + [v];
    assert First(nodes', front) == First(nodes, front);
    forall i, j | front <= i <= back && nodes'[i].begin <= j <= nodes'[i].end
      ensures SlotHolds(nodes', front, c', i, j)
    {
      if i != back || j != e + 1 {
        assert SlotHolds(nodes, front, contents, i, j);
        assert nodes'[i].ptr.value[j] == nodes[i].ptr.value[j];
      }
    }
  }

  /** `push_back` into a fresh back bucket when the old back bucket is full. */
  lemma PushBackNewBucket<T>(nodes: seq<Node<T>>, front: nat, back: nat, contents: seq<T>, v: T, bk: Bucket<T>)
    requires Layout(nodes, front, back, contents) && |contents| > 0
    requires nodes[back].end == BUCKET_SIZE - 1 && back + 1 < |nodes| && |bk| == BUCKET_SIZE
    ensures Layout(nodes[back + 1 := Node(Some(bk[0 := Some(v)]), 0, 0)], front, back + 1, contents + [v])
  {
    var nodes' := nodes[back + 1 := Node(Some(bk[0 := Some(v)]), 0, 0)];
    var c' := contents + [v];
    assert First(nodes', front) == First(nodes, front);
    forall i, j | front <= i <= back + 1 && nodes'[i].begin <= j <= nodes'[i].end
      ensures SlotHolds(nodes', front, c', i, j)
    {
      if i != back + 1 {
        assert nodes'[i] == nodes[i];
        assert SlotHolds(nodes, front, contents, i, j);
      }
    }
  }

  /** The first element pushed into an empty deque occupies one slot of one bucket. */
  lemma SingleElement<T>(nodes: seq<Node<T>>, m: nat, s: nat, v: T, bk: Bucket<T>)
    requires m < |nodes| && s < BUCKET_SIZE && |bk| == BUCKET_SIZE
    ensures Layout(nodes[m := Node(Some(bk[s := Some(v)]), s, s)], m, m, [v])
  {
  }

  /** `push_front` into the front bucket when it has a free slot before `begin`. */
  lemma PushFrontInBucket<T>(nodes: seq<Node<T>>, front: nat, back: nat, contents: seq<T>, v: T)
    requires Layout(nodes, front, back, contents) && |contents| > 0
    requires nodes[front].begin >= 1
    ensures Layout(nodes[front := Store(nodes[front], nodes[front].begin - 1, Some(v)).(begin := nodes[front].begin - 1)],
                   front, back, [v] + contents)
  {
    var b := nodes[front].begin;
    var nodes' := nodes[front := Store(nodes[front], b - 1, Some(v)).(begin := b - 1)];
    var c' := [v] + contents;
    assert First(nodes', front) == First(nodes, front) - 1;
    forall i, j | front <= i <= back && nodes'[i].begin <= j <= nodes'[i].end
      ensures SlotHolds(nodes', front, c', i, j)
    {
      var k := i * BUCKET_SIZE + j - First(nodes', front);
      if i == front && j == b - 1 {
        assert k == 0;
      } else {
        assert nodes[i].begin <= j <= nodes[i].end;
        assert SlotHolds(nodes, front, contents, i, j);
        assert nodes'[i].ptr.value[j] == nodes[i].ptr.value[j];
        assert k - 1 == i * BUCKET_SIZE + j - First(nodes, front);
      }
    }
  }

  /** `push_front` into a fresh front bucket when the old front bucket starts at slot 0. */
  lemma PushFrontNewBucket<T>(nodes: seq<Node<T>>, front: nat, back: nat, contents: seq<T>, v: T, bk: Bucket<T>)
    requires Layout(nodes, front, back, contents) && |contents| > 0
    requires nodes[front].begin == 0 && front >= 1 && |bk| == BUCKET_SIZE
    ensures Layout(nodes[front - 1 := Node(Some(bk[BUCKET_SIZE - 1 := Some(v)]), BUCKET_SIZE - 1, BUCKET_SIZE - 1)],
                   front - 1, back, [v] + contents)
  {
    var nodes' := nodes[front - 1 := Node(Some(bk[BUCKET_SIZE - 1 := Some(v)]), BUCKET_SIZE - 1, BUCKET_SIZE - 1)];
    var c' := [v] + contents;
    var f' := front - 1;
    assert First(nodes', f') == First(nodes, front) - 1;
    forall i, j | f' <= i <= back && nodes'[i].begin <= j <= nodes'[i].end
      ensures SlotHolds(nodes', f', c', i, j)
    {
      if i != f' {
        assert nodes'[i] == nodes[i];
        assert SlotHolds(nodes, front, contents, i, j);
      }
    }
  }

  /** `pop_back` inside the back bucket (`end > 0`): the slot is destroyed and `end` moves down. */
  lemma PopBackInBucket<T>(nodes: seq<Node<T>>, front: nat, back: nat, contents: seq<T>)
    requires Layout(nodes, front, back, contents) && |contents| > 0
    requires nodes[back].end > 0
    ensures Layout(nodes[back := Store(nodes[back], nodes[back].end, None).(end := nodes[back].end - 1)],
                   front, back, contents[..|contents| - 1])
  {
    var e := nodes[back].end;
    var nodes' := nodes[back := Store(nodes[back], e, None).(end := e - 1)];
    var c' := contents[..|contents| - 1];
    assert LiveBucket(nodes[front]) && LiveBucket(nodes[back]);
    if |c'| > 0 {
      assert First(nodes', front) == First(nodes, front);
      forall i, j | front <= i <= back && nodes'[i].begin <= j <= nodes'[i].end
        ensures SlotHolds(nodes', front, c', i, j)
      {
        assert SlotHolds(nodes, front, contents, i, j);
        assert nodes'[i].ptr.value[j] == nodes[i].ptr.value[j];
      }
    } else {
      assert front == back;
    }
  }

  /** `pop_back` of the only element of the back bucket when more remain: `back` moves down. */
  lemma PopBackLeaveBucket<T>(nodes: seq<Node<T>>, front: nat, back: nat, contents: seq<T>)
    requires Layout(nodes, front, back, contents) && |contents| > 1
    requires nodes[back].end == 0
    ensures front < back
    ensures Layout(nodes[back := Store(nodes[back], 0, None)][back - 1 := nodes[back - 1].(end := BUCKET_SIZE - 1)],
                   front, back - 1, contents[..|contents| - 1])
  {
    assert LiveBucket(nodes[front]) && LiveBucket(nodes[back]);
    assert front < back;
    var nodes' := nodes[back := Store(nodes[back], 0, None)][back - 1 := nodes[back - 1].(end := BUCKET_SIZE - 1)];
    var c' := contents[..|contents| - 1];
    assert nodes'[back - 1] == nodes[back - 1];
    assert First(nodes', front) == First(nodes, front);
    forall i, j | front <= i <= back - 1 && nodes'[i].begin <= j <= nodes'[i].end
      ensures SlotHolds(nodes', front, c', i, j)
    {
      assert nodes'[i] == nodes[i];
      assert SlotHolds(nodes, front, contents, i, j);
    }
  }

  /** `pop_back` of the last element when it sits in slot 0: the bucket is marked NOTHING. */
  lemma PopBackLastAtZero<T>(nodes: seq<Node<T>>, front: nat, back: nat, contents: seq<T>)
    requires Layout(nodes, front, back, contents) && |contents| == 1
    requires nodes[back].end == 0
    ensures Layout(nodes[back := Store(nodes[back], 0, None).(begin := NOTHING, end := NOTHING)],
                   front, back, [])
  {
    assert LiveBucket(nodes[front]) && LiveBucket(nodes[back]);
  }

  /** `pop_front` inside the front bucket (`begin < BUCKET_SIZE - 1`): `begin` moves up. */
  lemma PopFrontInBucket<T>(nodes: seq<Node<T>>, front: nat, back: nat, contents: seq<T>)
    requires Layout(nodes, front, back, contents) && |contents| > 0
    requires nodes[front].begin < BUCKET_SIZE - 1
    ensures Layout(nodes[front := Store(nodes[front], nodes[front].begin, None).(begin := nodes[front].begin + 1)],
                   front, back, contents[1..])
  {
    var b := nodes[front].begin;
    var nodes' := nodes[front := Store(nodes[front], b, None).(begin := b + 1)];
    var c' := contents[1..];
    assert LiveBucket(nodes[front]) && LiveBucket(nodes[back]);
    if |c'| > 0 {
      assert First(nodes', front) == First(nodes, front) + 1;
      forall i, j | front <= i <= back && nodes'[i].begin <= j <= nodes'[i].end
        ensures SlotHolds(nodes', front, c', i, j)
      {
        assert SlotHolds(nodes, front, contents, i, j);
        assert nodes'[i].ptr.value[j] == nodes[i].ptr.value[j];
      }
    } else {
      assert front == back;
    }
  }

  /** `pop_front` of the last slot of the front bucket when more remain: `front` moves up. */
  lemma PopFrontLeaveBucket<T>(nodes: seq<Node<T>>, front: nat, back: nat, contents: seq<T>)
    requires Layout(nodes, front, back, contents) && |contents| > 1
    requires nodes[front].begin == BUCKET_SIZE - 1
    ensures front < back
    ensures Layout(nodes[front := Store(nodes[front], BUCKET_SIZE - 1, None)][front + 1 := nodes[front + 1].(begin := 0)],
                   front + 1, back, contents[1..])
  {
    assert LiveBucket(nodes[front]) && LiveBucket(nodes[back]);
    assert front < back;
    var nodes' := nodes[front := Store(nodes[front], BUCKET_SIZE - 1, None)][front + 1 := nodes[front + 1].(begin := 0)];
    var c' := contents[1..];
    assert nodes'[front + 1] == nodes[front + 1];
    var f' := front + 1;
    assert First(nodes', f') == First(nodes, front) + 1;
    forall i, j | f' <= i <= back && nodes'[i].begin <= j <= nodes'[i].end
      ensures SlotHolds(nodes', f', c', i, j)
    {
      assert nodes'[i] == nodes[i];
      assert SlotHolds(nodes, front, contents, i, j);
    }
  }

  /** `pop_front` of the last element when it sits in the last slot: the bucket is marked NOTHING. */
  lemma PopFrontLastAtEnd<T>(nodes: seq<Node<T>>, front: nat, back: nat, contents: seq<T>)
    requires Layout(nodes, front, back, contents) && |contents| == 1
    requires nodes[front].begin == BUCKET_SIZE - 1
    ensures front == back
    ensures Layout(nodes[back := Store(nodes[back], BUCKET_SIZE - 1, None).(begin := NOTHING, end := NOTHING)],
                   front, back, [])
  {
    assert LiveBucket(nodes[front]) && LiveBucket(nodes[back]);
  }

  /** Overwriting the element at logical position k changes exactly contents[k]. */
  lemma StoreAt<T>(nodes: seq<Node<T>>, front: nat, back: nat, contents: seq<T>, k: int, it: Iterator, x: T)
    requires Layout(nodes, front, back, contents) && 0 <= k < |contents|
    requires AtPos(nodes, front, it, k)
    ensures front <= it.numberNode <= back && LiveBucket(nodes[it.numberNode])
    ensures Layout(nodes[it.numberNode := Store(nodes[it.numberNode], it.index, Some(x))], front, back, contents[k := x])
  {
    Locate(nodes, front, back, contents, k, it);
    var i0, j0 := it.numberNode, it.index;
    var nodes' := nodes[i0 := Store(nodes[i0], j0, Some(x))];
    var c' := contents[k := x];
    assert First(nodes', front) == First(nodes, front);
    forall i, j | front <= i <= back && nodes'[i].begin <= j <= nodes'[i].end
      ensures SlotHolds(nodes', front, c', i, j)
    {
      if i != i0 || j != j0 {
        assert SlotHolds(nodes, front, contents, i, j);
        assert nodes'[i].ptr.value[j] == nodes[i].ptr.value[j];
        assert i * BUCKET_SIZE + j != i0 * BUCKET_SIZE + j0;
      }
    }
  }

  /**
   * The outer array after growth: 3 * realSize descriptors, where
   * realSize = back - front + 1, and old descriptor i lands at
   * realSize + (i - front).  Descriptors up to `back` that have a place in the
   * new array are moved; the others (and those past `back`) are released.
   */
  function Grown<T>(nodes: seq<Node<T>>, front: nat, back: nat): (r: seq<Node<T>>)
    requires front <= back <= |nodes|
    ensures |r| == 3 * (back - front + 1)
  {
    GrownUpTo(nodes, front, back, |nodes|)
  }

  /** The new outer array once the descriptors before old ordinal `n` have been visited. */
  function GrownUpTo<T>(nodes: seq<Node<T>>, front: nat, back: nat, n: nat): (r: seq<Node<T>>)
    requires front <= back <= |nodes| && n <= |nodes|
    ensures |r| == 3 * (back - front + 1)
  {
    var realSize := back - front + 1;
    seq(3 * realSize, t =>
      var i := t - realSize + front;
      if 0 <= i < n && i <= back then nodes[i] else EmptyNode())
  }

  /** Visiting old descriptor `n` either moves it to realSize + (n - front) or drops it. */
  lemma GrownStep<T>(nodes: seq<Node<T>>, front: nat, back: nat, n: nat)
    requires front <= back <= |nodes| && n < |nodes|
    ensures n <= back && front <= back - front + 1 + n ==>
      GrownUpTo(nodes, front, back, n + 1) == GrownUpTo(nodes, front, back, n)[back - front + 1 + n - front := nodes[n]]
    ensures !(n <= back && front <= back - front + 1 + n) ==>
      GrownUpTo(nodes, front, back, n + 1) == GrownUpTo(nodes, front, back, n)
  {
  }

  /** Growth moves every descriptor from front to back (as far as it exists) by realSize - front. */
  lemma GrownMoves<T>(nodes: seq<Node<T>>, front: nat, back: nat, d: int)
    requires front <= back <= |nodes| && 0 <= d <= back - front
    ensures front + d < |nodes| ==> Grown(nodes, front, back)[back - front + 1 + d] == nodes[front + d]
    ensures front + d == |nodes| ==> Grown(nodes, front, back)[back - front + 1 + d] == EmptyNode()
  {
  }

  /** Growth only moves descriptors, so every bucket still has BUCKET_SIZE slots. */
  lemma GrownSized<T>(nodes: seq<Node<T>>, front: nat, back: nat)
    requires front <= back <= |nodes| && BucketsSized(nodes)
    ensures BucketsSized(Grown(nodes, front, back))
  {
    var g := Grown(nodes, front, back);
    var realSize := back - front + 1;
    forall t | 0 <= t < |g| ensures g[t].ptr.Some? ==> |g[t].ptr.value| == BUCKET_SIZE {
      var i := t - realSize + front;
      if 0 <= i <= back && i < |nodes| { assert g[t] == nodes[i]; } else { assert g[t] == EmptyNode(); }
    }
  }

  /** The window of old live buckets, seen in the grown array. */
  lemma GrownWindow<T>(nodes: seq<Node<T>>, front: nat, back: nat, back': nat, f2: nat)
    requires front <= back < |nodes| && (back' == back || back' == back + 1) && back' <= |nodes|
    requires f2 == back' - front + 1
    ensures f2 + (back - front) < |Grown(nodes, front, back')|
    ensures forall i | f2 <= i <= f2 + (back - front) :: Grown(nodes, front, back')[i] == nodes[i - f2 + front]
  {
  }

  /** The slots of a window of descriptors moved by `f2 - front` outer positions. */
  lemma ShiftedSlots<T>(nodes: seq<Node<T>>, front: nat, back: nat, contents: seq<T>, g: seq<Node<T>>, f2: nat)
    requires Layout(nodes, front, back, contents) && |contents| > 0
    requires f2 + (back - front) < |g|
    requires forall i | f2 <= i <= f2 + (back - front) :: g[i] == nodes[i - f2 + front]
    ensures forall i, j | f2 <= i <= f2 + (back - front) && g[i].begin <= j <= g[i].end ::
      SlotHolds(g, f2, contents, i, j)
  {
    assert g[f2] == nodes[front];
    assert First(g, f2) == First(nodes, front) + (f2 - front) * BUCKET_SIZE;
    forall i, j | f2 <= i <= f2 + (back - front) && g[i].begin <= j <= g[i].end
      ensures SlotHolds(g, f2, contents, i, j)
    {
      var i0 := i - f2 + front;
      assert g[i] == nodes[i0];
      assert SlotHolds(nodes, front, contents, i0, j);
      assert i * BUCKET_SIZE + j - First(g, f2) == i0 * BUCKET_SIZE + j - First(nodes, front);
    }
  }

  /** A window of descriptors moved by `f2 - front` outer positions keeps its layout. */
  lemma ShiftedLayout<T>(nodes: seq<Node<T>>, front: nat, back: nat, contents: seq<T>, g: seq<Node<T>>, f2: nat)
    requires Layout(nodes, front, back, contents) && |contents| > 0
    requires f2 + (back - front) < |g|
    requires forall i | f2 <= i <= f2 + (back - front) :: g[i] == nodes[i - f2 + front]
    ensures Layout(g, f2, f2 + (back - front), contents)
  {
    ShiftedSlots(nodes, front, back, contents, g, f2);
    assert g[f2] == nodes[front];
    forall i | f2 <= i <= f2 + (back - front)
      ensures LiveBucket(g[i])
      ensures i > f2 ==> g[i].begin == 0
      ensures i < f2 + (back - front) ==> g[i].end == BUCKET_SIZE - 1
    {
      assert g[i] == nodes[i - f2 + front];
    }
  }

  /** Growth keeps the layout: the live buckets are recentred into the middle third. */
  lemma GrownLayout<T>(nodes: seq<Node<T>>, front: nat, back: nat, back': nat, contents: seq<T>, f2: nat, b2: nat)
    requires Layout(nodes, front, back, contents) && |contents| > 0
    requires back' == back || back' == back + 1
    requires back' <= |nodes| && BucketsSized(nodes)
    requires f2 == back' - front + 1 && b2 == f2 + (back - front)
    ensures BucketsSized(Grown(nodes, front, back'))
    ensures Layout(Grown(nodes, front, back'), f2, b2, contents)
  {
    GrownSized(nodes, front, back');
    GrownWindow(nodes, front, back, back', f2);
    ShiftedLayout(nodes, front, back, contents, Grown(nodes, front, back'), f2);
  }

  /** Replacing one descriptor by one whose bucket (if any) has BUCKET_SIZE slots keeps all buckets sized. */
  lemma SizedAfterSet<T>(nodes: seq<Node<T>>, i: int, nd: Node<T>)
    requires BucketsSized(nodes) && 0 <= i < |nodes|
    requires nd.ptr.Some? ==> |nd.ptr.value| == BUCKET_SIZE
    ensures BucketsSized(nodes[i := nd])
  {
  }

  /**
   * The `insert` loop state at position p: the first p elements, a stale
   * element y at p, then s[p..] one slot further back.
   */
  function InsertMid<T>(s: seq<T>, p: nat, y: T): (r: seq<T>)
    requires p <= |s|
    ensures |r| == |s| + 1 && r[p] == y
    ensures forall i | 0 <= i < p :: r[i] == s[i]
    ensures forall i | p < i < |r| :: r[i] == s[i - 1]
  {
    s[..p] + [y] + s[p..]
  }

  /** One step of the `insert` loop: slot p receives slot p - 1, and p moves down. */
  lemma InsertStep<T>(s: seq<T>, p: nat, y: T)
    requires 0 < p <= |s|
    ensures InsertMid(s, p, y)[p - 1] == s[p - 1]
    ensures InsertMid(s, p, y)[p := s[p - 1]] == InsertMid(s, p - 1, s[p - 1])
  {
    var a, b := InsertMid(s, p, y)[p := s[p - 1]], InsertMid(s, p - 1, s[p - 1]);
    assert forall i | 0 <= i < |a| :: a[i] == b[i];
  }

  /**
   * The `erase` loop state at position p: s without slot k up to p, then
   * s[p..] (slot p still holds its old element).
   */
  function EraseMid<T>(s: seq<T>, k: nat, p: nat): (r: seq<T>)
    requires k <= p < |s|
    ensures |r| == |s|
    ensures forall i | 0 <= i < k :: r[i] == s[i]
    ensures forall i | k <= i < p :: r[i] == s[i + 1]
    ensures forall i | p <= i < |s| :: r[i] == s[i]
  {
    s[..k] + s[k + 1..p + 1] + s[p..]
  }

  /** One step of the `erase` loop: slot p receives slot p + 1, and p moves up. */
  lemma EraseStep<T>(s: seq<T>, k: nat, p: nat)
    requires k <= p < |s| - 1
    ensures EraseMid(s, k, p)[p + 1] == s[p + 1]
    ensures EraseMid(s, k, p)[p := s[p + 1]] == EraseMid(s, k, p + 1)
  {
    var a, b := EraseMid(s, k, p)[p := s[p + 1]], EraseMid(s, k, p + 1);
    assert forall i | 0 <= i < |a| :: a[i] == b[i];
  }

  /** When the `erase` loop stops at the last slot, dropping it leaves s without slot k. */
  lemma EraseDone<T>(s: seq<T>, k: nat)
    requires k < |s|
    ensures EraseMid(s, k, |s| - 1)[..|s| - 1] == s[..k] + s[k + 1..]
  {
    var a, b := EraseMid(s, k, |s| - 1)[..|s| - 1], s[..k] + s[k + 1..];
    assert forall i | 0 <= i < |a| :: a[i] == b[i];
  }
  /** The copy of a live bucket once slots begin..j-1 have been copy-constructed into fresh storage. */
  function PartialCopy<T>(nd: Node<T>, j: nat): (r: Node<T>)
    requires LiveBucket(nd)
    ensures r.begin == nd.begin && r.end == nd.end && r.ptr.Some? && |r.ptr.value| == BUCKET_SIZE
    ensures forall t | 0 <= t < BUCKET_SIZE :: r.ptr.value[t] == if nd.begin <= t < j then nd.ptr.value[t] else None
  {
    Node(Some(seq(BUCKET_SIZE, t requires 0 <= t < BUCKET_SIZE => if nd.begin <= t < j then nd.ptr.value[t] else None)), nd.begin, nd.end)
  }

  /** The copy of a live bucket: the same live range, and the same element in every live slot. */
  function CopyNode<T>(nd: Node<T>): (r: Node<T>)
    requires LiveBucket(nd)
    ensures LiveBucket(r) && r.begin == nd.begin && r.end == nd.end
    ensures forall j | nd.begin <= j <= nd.end :: r.ptr.value[j] == nd.ptr.value[j]
  {
    PartialCopy(nd, nd.end + 1)
  }

  /** Copy-constructing slot j extends the copied prefix by one slot. */
  lemma CopyStep<T>(nd: Node<T>, j: nat)
    requires LiveBucket(nd) && nd.begin <= j <= nd.end
    ensures Store(PartialCopy(nd, j), j, nd.ptr.value[j]) == PartialCopy(nd, j + 1)
  {
    var a, b := Store(PartialCopy(nd, j), j, nd.ptr.value[j]), PartialCopy(nd, j + 1);
    assert a.ptr.value == b.ptr.value;
  }

  /** The outer array of a copy: live buckets copied, every other descriptor default. */
  function CopiedNodes<T>(nodes: seq<Node<T>>, front: nat, back: nat): (r: seq<Node<T>>)
    requires back < |nodes| && forall i | front <= i <= back :: LiveBucket(nodes[i])
    ensures |r| == |nodes|
    ensures forall i | 0 <= i < |nodes| :: r[i] == if front <= i <= back then CopyNode(nodes[i]) else EmptyNode()
  {
    seq(|nodes|, i requires 0 <= i < |nodes| => if front <= i <= back then CopyNode(nodes[i]) else EmptyNode())
  }

  /** A copy lays out the same contents with the same ordinals. */
  lemma CopiedLayout<T>(nodes: seq<Node<T>>, front: nat, back: nat, contents: seq<T>)
    requires Layout(nodes, front, back, contents) && |contents| > 0
    ensures BucketsSized(CopiedNodes(nodes, front, back))
    ensures Layout(CopiedNodes(nodes, front, back), front, back, contents)
  {
    var g := CopiedNodes(nodes, front, back);
    assert First(g, front) == First(nodes, front);
    forall i, j | front <= i <= back && g[i].begin <= j <= g[i].end
      ensures SlotHolds(g, front, contents, i, j)
    {
      assert SlotHolds(nodes, front, contents, i, j);
    }
  }

  /**
   * Number of elements bucket i receives when a deque is filled with `count`
   * copies: whole buckets while at least BUCKET_SIZE remain, then the rest.
   */
  function BucketShare(count: nat, i: nat): (r: nat)
    ensures r <= BUCKET_SIZE
    ensures r == 0 <==> count <= BUCKET_SIZE * i
    ensures 0 < r < BUCKET_SIZE ==> count == BUCKET_SIZE * i + r
  {
    if count <= BUCKET_SIZE * i then 0
    else if count - BUCKET_SIZE * i > BUCKET_SIZE then BUCKET_SIZE
    else count - BUCKET_SIZE * i
  }

  /**
   * A freshly allocated bucket with v constructed in slots 0..n-1, whose
   * `end` is the last of them (the default NOTHING while n is 0).
   */
  function FilledNode<T>(n: nat, v: T): (r: Node<T>)
    requires n <= BUCKET_SIZE
    ensures r.ptr.Some? && |r.ptr.value| == BUCKET_SIZE && r.begin == 0
    ensures n > 0 ==> LiveBucket(r) && r.end == n - 1
    ensures n == 0 ==> r.end == NOTHING
    ensures forall t | 0 <= t < BUCKET_SIZE :: r.ptr.value[t] == if t < n then Some(v) else None
  {
    Node(Some(seq(BUCKET_SIZE, t => if t < n then Some(v) else None)), 0, if n == 0 then NOTHING else n - 1)
  }

  /** Constructing v in slot n and moving `end` there extends a filled prefix. */
  lemma FillStep<T>(n: nat, v: T)
    requires n < BUCKET_SIZE
    ensures Store(FilledNode(n, v), n, Some(v)).(end := n) == FilledNode(n + 1, v)
  {
    var a, b := Store(FilledNode(n, v), n, Some(v)).(end := n), FilledNode(n + 1, v);
    assert a.ptr.value == b.ptr.value;
  }

  /** Number of outer slots `Deque(count, value)` allocates (with an empty deque for count 0). */
  function FillOuterSize(count: nat): (r: nat)
    ensures r >= 1
    ensures count > 0 ==> BUCKET_SIZE * (r - 1) < count <= BUCKET_SIZE * r
  {
    if count == 0 then 1 else (count - 1) / BUCKET_SIZE + 1
  }

  /** The outer array of a deque filled with `count` copies of v. */
  function FilledNodes<T>(count: nat, v: T): (r: seq<Node<T>>)
    ensures |r| == FillOuterSize(count)
    ensures forall i | 0 <= i < |r| :: r[i] == FilledNode(BucketShare(count, i), v)
  {
    seq(FillOuterSize(count), (i: int) requires 0 <= i => FilledNode(BucketShare(count, i), v))
  }

  /** The filled outer array lays out `count` copies of v from slot 0 of bucket 0. */
  lemma FilledLayout<T>(count: nat, v: T)
    ensures BucketsSized(FilledNodes(count, v))
    ensures Layout(FilledNodes(count, v), 0, FillOuterSize(count) - 1, seq(count, _ => v))
  {
    var g, back, c := FilledNodes(count, v), FillOuterSize(count) - 1, seq(count, _ => v);
    if count > 0 {
      forall i | 0 <= i <= back
        ensures LiveBucket(g[i]) && (i < back ==> g[i].end == BUCKET_SIZE - 1)
        ensures BucketShare(count, i) == g[i].end + 1
      {
        assert BucketShare(count, i) > 0;
      }
      forall i, j | 0 <= i <= back && g[i].begin <= j <= g[i].end
        ensures SlotHolds(g, 0, c, i, j)
      {
        assert i * BUCKET_SIZE + j < count;
      }
    }
  }
}
