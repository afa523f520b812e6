/**
 * `List<T>` of list.h: a circular doubly linked list around a sentinel
 * node (`_fake_node`), with the element count kept in `_size`.  The
 * sentinel's `next` is the first element and its `prev` the last; an empty
 * list's sentinel points to itself.  An iterator is a pointer to a node,
 * `end()` being the sentinel.
 *
 * `BaseNode` and `Node` are one class here, whose value is None on the
 * sentinel.  The sentinel is a separate object owned by the list rather
 * than a member stored inside it.
 */
module LinkedList {
  import opened Wrappers

  class Node<T> {
    var next: Node?<T>
    var prev: Node?<T>
    var value: Option<T>

    /** `BaseNode()`: a node linked to itself, as the sentinel of an empty list. */
    constructor Sentinel()
      ensures next == this && prev == this && value == None
    {
      value := None;
      new;
      next := this;
      prev := this;
    }

    /** `Node(nxt, prv, val)`. */
    constructor (nxt: Node<T>, prv: Node<T>, v: T)
      ensures next == nxt && prev == prv && value == Some(v)
    {
      next, prev, value := nxt, prv, Some(v);
    }
  }

  /** The node at position i of a ring: N[i], with the sentinel at positions -1 and |N|. */
  ghost function At<T>(fake: Node<T>, N: seq<Node<T>>, i: int): Node<T>
    requires -1 <= i <= |N|
  {
    if 0 <= i < |N| then N[i] else fake
  }

  lemma AtMember<T>(fake: Node<T>, N: seq<Node<T>>, i: int)
    requires -1 <= i <= |N|
    ensures At(fake, N, i) == fake || At(fake, N, i) in N
  {
  }
  /** No node occurs twice in N. */
  ghost predicate Distinct<T>(N: seq<Node<T>>) {
    forall i, j | 0 <= i < j < |N| :: N[i] != N[j]
  }

  /** succ takes the sentinel and each node of N to the following node of the ring. */
  ghost predicate SuccLinks<T>(fake: Node<T>, N: seq<Node<T>>, succ: map<Node<T>, Node<T>>) {
    fake in succ && succ[fake] == At(fake, N, 0) &&
    forall i {:trigger N[i] in succ} {:trigger succ[N[i]]} | 0 <= i < |N| :: N[i] in succ && succ[N[i]] == At(fake, N, i + 1)
  }

  /** pred takes the sentinel and each node of N to the preceding node of the ring. */
  ghost predicate PredLinks<T>(fake: Node<T>, N: seq<Node<T>>, pred: map<Node<T>, Node<T>>) {
    fake in pred && pred[fake] == At(fake, N, |N| - 1) &&
    forall i {:trigger N[i] in pred} {:trigger pred[N[i]]} | 0 <= i < |N| :: N[i] in pred && pred[N[i]] == At(fake, N, i - 1)
  }

  /**
   * The successor and predecessor maps of a ring through the sentinel and
   * the element nodes N in order: each node's successor is the following
   * one and its predecessor the preceding one, the sentinel closing the
   * ring at both ends.
   */
  ghost predicate Ring<T>(fake: Node<T>, N: seq<Node<T>>, succ: map<Node<T>, Node<T>>, pred: map<Node<T>, Node<T>>) {
    fake !in N && SuccLinks(fake, N, succ) && PredLinks(fake, N, pred)
  }

  /**
   * Following `next` from a node never comes back to it before the
   * sentinel: two positions i < j of a ring hold different nodes.
   */
  lemma {:induction false} NoRepeats<T>(fake: Node<T>, N: seq<Node<T>>, succ: map<Node<T>, Node<T>>, i: nat, j: nat)
    requires fake !in N && SuccLinks(fake, N, succ) && i < j < |N|
    ensures N[i] != N[j]
    decreases |N| - j
  {
    assert succ[N[i]] == N[i + 1] && succ[N[j]] == At(fake, N, j + 1);
    if j + 1 < |N| {
      NoRepeats(fake, N, succ, i + 1, j + 1);
    }
  }

  /** The nodes of a ring are distinct. */
  lemma RingDistinct<T>(fake: Node<T>, N: seq<Node<T>>, succ: map<Node<T>, Node<T>>)
    requires fake !in N && SuccLinks(fake, N, succ)
    ensures Distinct(N)
  {
    forall i, j | 0 <= i < j < |N|
      ensures N[i] != N[j]
    {
      NoRepeats(fake, N, succ, i, j);
    }
  }

  /** s' is s with x inserted at position k. */
  ghost predicate Inserted<X>(s: seq<X>, k: int, x: X, s': seq<X>) {
    0 <= k <= |s| && |s'| == |s| + 1 &&
    forall i {:trigger s'[i]} | 0 <= i < |s'| :: s'[i] == if i < k then s[i] else if i == k then x else s[i - 1]
  }

  /** s' is s with position k removed. */
  ghost predicate Erased<X>(s: seq<X>, k: int, s': seq<X>) {
    0 <= k < |s| && |s'| == |s| - 1 &&
    forall i {:trigger s'[i]} | 0 <= i < |s'| :: s'[i] == if i < k then s[i] else s[i + 1]
  }

  /** Inserted pins s' down: it is the slices of s around x. */
  lemma InsertIndex<X>(s: seq<X>, k: nat, x: X, s': seq<X>)
    requires k <= |s|
    ensures Inserted(s, k, x, s') <==> s' == s[..k] + [x] + s[k..]
  {
    if Inserted(s, k, x, s') {
      assert s' == s[..k] + [x] + s[k..];
    }
  }

  /** Erased pins s' down: it is the slices of s around position k. */
  lemma EraseIndex<X>(s: seq<X>, k: nat, s': seq<X>)
    requires k < |s|
    ensures Erased(s, k, s') <==> s' == s[..k] + s[k + 1..]
  {
    if Erased(s, k, s') {
      assert s' == s[..k] + s[k + 1..];
    }
  }

  /** Inserting at the end appends, inserting at the front prepends. */
  lemma InsertEnds<X>(s: seq<X>, x: X, s': seq<X>)
    ensures Inserted(s, |s|, x, s') ==> s' == s + [x]
    ensures Inserted(s, 0, x, s') ==> s' == [x] + s
  {
    if Inserted(s, |s|, x, s') {
      assert s' == s + [x];
    }
    if Inserted(s, 0, x, s') {
      assert s' == [x] + s;
    }
  }

  /** Erasing the last position drops the last element, erasing position 0 the first. */
  lemma EraseEnds<X>(s: seq<X>, s': seq<X>)
    ensures Erased(s, |s| - 1, s') ==> s' == s[..|s| - 1]
    ensures Erased(s, 0, s') ==> s' == s[1..]
  {
    if Erased(s, |s| - 1, s') {
      assert s' == s[..|s| - 1];
    }
    if Erased(s, 0, s') {
      assert s' == s[1..];
    }
  }

  /** The nodes after inserting r are the old ones and r. */
  lemma InsertMembers<T>(N: seq<Node<T>>, k: nat, r: Node<T>, N': seq<Node<T>>)
    requires Inserted(N, k, r, N')
    ensures forall n | n in N' :: n in N || n == r
  {
    forall n | n in N'
      ensures n in N || n == r
    {
      var i :| 0 <= i < |N'| && N'[i] == n;
      if i < k {
        assert N[i] == n;
      } else if i > k {
        assert N[i - 1] == n;
      }
    }
  }

  /** The nodes after erasing a position are among the old ones. */
  lemma EraseMembers<T>(N: seq<Node<T>>, k: nat, N': seq<Node<T>>)
    requires Erased(N, k, N')
    ensures forall n | n in N' :: n in N
  {
    forall n | n in N'
      ensures n in N
    {
      var i :| 0 <= i < |N'| && N'[i] == n;
      var i0 := if i < k then i else i + 1;
      assert N[i0] == n;
    }
  }

  /** The neighbours of an erased position are the nodes around the gap it leaves. */
  lemma EraseNeighbours<T>(fake: Node<T>, N: seq<Node<T>>, k: nat, N': seq<Node<T>>)
    requires Erased(N, k, N')
    ensures At(fake, N, k - 1) == At(fake, N', k - 1) && At(fake, N, k + 1) == At(fake, N', k)
  {
    if k > 0 {
      assert N'[k - 1] == N[k - 1];
    }
    if k < |N'| {
      assert N'[k] == N[k + 1];
    }
  }
  /** Linking r in before position k: the sentinel's successor is the new first node. */
  lemma InsertSuccFirst<T>(fake: Node<T>, N: seq<Node<T>>, succ: map<Node<T>, Node<T>>, k: nat, r: Node<T>, N': seq<Node<T>>)
    requires fake !in N && SuccLinks(fake, N, succ) && Inserted(N, k, r, N') && r != fake
    ensures succ[At(fake, N, k - 1) := r][r := At(fake, N, k)][fake] == At(fake, N', 0)
  {
    assert N'[0] == if k == 0 then r else N[0];
  }

  /** Linking r in before position k: the successor of the node now at position i. */
  lemma InsertSuccAt<T>(fake: Node<T>, N: seq<Node<T>>, succ: map<Node<T>, Node<T>>, k: nat, r: Node<T>, N': seq<Node<T>>, i: nat)
    requires fake !in N && SuccLinks(fake, N, succ) && Inserted(N, k, r, N') && r != fake && r !in N && i < |N'|
    requires forall j | 0 <= j < |N| && j != k - 1 :: N[j] != At(fake, N, k - 1)
    ensures N'[i] in succ[At(fake, N, k - 1) := r][r := At(fake, N, k)]
    ensures succ[At(fake, N, k - 1) := r][r := At(fake, N, k)][N'[i]] == At(fake, N', i + 1)
  {
    var prev, next := At(fake, N, k - 1), At(fake, N, k);
    if i < k - 1 {
      assert N'[i] == N[i] != prev && N'[i + 1] == N[i + 1];
    } else if i == k - 1 {
      assert N'[i] == N[k - 1] == prev && N'[i + 1] == r;
    } else if i == k {
      assert N'[i] == r;
      if k < |N| {
        assert N'[k + 1] == N[k];
      }
    } else {
      assert N'[i] == N[i - 1] != prev;
      if i + 1 < |N'| {
        assert N'[i + 1] == N[i];
      }
    }
  }

  /** Linking r in before position k: successors. */
  lemma InsertSucc<T>(fake: Node<T>, N: seq<Node<T>>, succ: map<Node<T>, Node<T>>, k: nat, r: Node<T>, N': seq<Node<T>>)
    requires fake !in N && Distinct(N) && SuccLinks(fake, N, succ) && Inserted(N, k, r, N') && r != fake && r !in N
    ensures SuccLinks(fake, N', succ[At(fake, N, k - 1) := r][r := At(fake, N, k)])
  {
    var prev, next := At(fake, N, k - 1), At(fake, N, k);
    var succ' := succ[prev := r][r := next];
    forall j | 0 <= j < |N| && j != k - 1
      ensures N[j] != prev
    {
      if k > 0 {
        assert prev == N[k - 1];
      }
    }
    InsertSuccFirst(fake, N, succ, k, r, N');
    forall i {:trigger succ'[N'[i]]} | 0 <= i < |N'|
      ensures N'[i] in succ' && succ'[N'[i]] == At(fake, N', i + 1)
    {
      InsertSuccAt(fake, N, succ, k, r, N', i);
    }
  }

  /** Linking r in before position k: the sentinel's predecessor is the new last node. */
  lemma InsertPredLast<T>(fake: Node<T>, N: seq<Node<T>>, pred: map<Node<T>, Node<T>>, k: nat, r: Node<T>, N': seq<Node<T>>)
    requires fake !in N && PredLinks(fake, N, pred) && Inserted(N, k, r, N') && r != fake
    ensures pred[At(fake, N, k)] == At(fake, N, k - 1)
    ensures pred[At(fake, N, k) := r][r := At(fake, N, k - 1)][fake] == At(fake, N', |N'| - 1)
  {
    assert N'[|N|] == if k == |N| then r else N[|N| - 1];
  }

  /** Linking r in before position k: the predecessor of the node now at position i. */
  lemma InsertPredAt<T>(fake: Node<T>, N: seq<Node<T>>, pred: map<Node<T>, Node<T>>, k: nat, r: Node<T>, N': seq<Node<T>>, i: nat)
    requires fake !in N && PredLinks(fake, N, pred) && Inserted(N, k, r, N') && r != fake && r !in N && i < |N'|
    requires forall j | 0 <= j < |N| && j != k :: N[j] != At(fake, N, k)
    ensures N'[i] in pred[At(fake, N, k) := r][r := At(fake, N, k - 1)]
    ensures pred[At(fake, N, k) := r][r := At(fake, N, k - 1)][N'[i]] == At(fake, N', i - 1)
  {
    var prev, next := At(fake, N, k - 1), At(fake, N, k);
    if i < k {
      assert N'[i] == N[i] != next;
      if i > 0 {
        assert N'[i - 1] == N[i - 1];
      }
    } else if i == k {
      assert N'[i] == r;
      if k > 0 {
        assert N'[k - 1] == N[k - 1];
      }
    } else if i == k + 1 {
      assert N'[i] == N[k] == next && N'[k] == r;
    } else {
      assert N'[i] == N[i - 1] != next && N'[i - 1] == N[i - 2];
    }
  }

  /** Linking r in before position k: predecessors. */
  lemma InsertPred<T>(fake: Node<T>, N: seq<Node<T>>, pred: map<Node<T>, Node<T>>, k: nat, r: Node<T>, N': seq<Node<T>>)
    requires fake !in N && Distinct(N) && PredLinks(fake, N, pred) && Inserted(N, k, r, N') && r != fake && r !in N
    ensures pred[At(fake, N, k)] == At(fake, N, k - 1)
    ensures PredLinks(fake, N', pred[At(fake, N, k) := r][r := At(fake, N, k - 1)])
  {
    var prev, next := At(fake, N, k - 1), At(fake, N, k);
    var pred' := pred[next := r][r := prev];
    forall j | 0 <= j < |N| && j != k
      ensures N[j] != next
    {
      if k < |N| {
        assert next == N[k];
      }
    }
    InsertPredLast(fake, N, pred, k, r, N');
    forall i {:trigger pred'[N'[i]]} | 0 <= i < |N'|
      ensures N'[i] in pred' && pred'[N'[i]] == At(fake, N', i - 1)
    {
      InsertPredAt(fake, N, pred, k, r, N', i);
    }
  }

  /** Unlinking the node at position k: the sentinel's successor is the new first node. */
  lemma EraseSuccFirst<T>(fake: Node<T>, N: seq<Node<T>>, succ: map<Node<T>, Node<T>>, k: nat, N': seq<Node<T>>)
    requires fake !in N && SuccLinks(fake, N, succ) && Erased(N, k, N')
    ensures succ[N[k]] == At(fake, N, k + 1)
    ensures (succ - {N[k]})[At(fake, N, k - 1) := At(fake, N, k + 1)][fake] == At(fake, N', 0)
  {
    if |N'| > 0 {
      assert N'[0] == if k == 0 then N[1] else N[0];
    }
  }

  /** Unlinking the node at position k: the successor of the node now at position i. */
  lemma EraseSuccAt<T>(fake: Node<T>, N: seq<Node<T>>, succ: map<Node<T>, Node<T>>, k: nat, N': seq<Node<T>>, i: nat)
    requires fake !in N && SuccLinks(fake, N, succ) && Erased(N, k, N') && i < |N'|
    requires forall j | 0 <= j < |N| && j != k :: N[j] != N[k]
    requires forall j | 0 <= j < |N| && j != k - 1 :: N[j] != At(fake, N, k - 1)
    ensures N'[i] in (succ - {N[k]})[At(fake, N, k - 1) := At(fake, N, k + 1)]
    ensures (succ - {N[k]})[At(fake, N, k - 1) := At(fake, N, k + 1)][N'[i]] == At(fake, N', i + 1)
  {
    var it, prev, next := N[k], At(fake, N, k - 1), At(fake, N, k + 1);
    if i < k - 1 {
      assert N'[i] == N[i] != prev && N[i] != it && N'[i + 1] == N[i + 1];
    } else if i == k - 1 {
      assert N'[i] == N[k - 1] == prev;
      if k < |N'| {
        assert N'[k] == N[k + 1];
      }
    } else {
      assert N'[i] == N[i + 1] != prev && N[i + 1] != it;
      if i + 1 < |N'| {
        assert N'[i + 1] == N[i + 2];
      }
    }
  }

  /** Unlinking the node at position k: successors. */
  lemma EraseSucc<T>(fake: Node<T>, N: seq<Node<T>>, succ: map<Node<T>, Node<T>>, k: nat, N': seq<Node<T>>)
    requires fake !in N && Distinct(N) && SuccLinks(fake, N, succ) && Erased(N, k, N')
    ensures succ[N[k]] == At(fake, N, k + 1)
    ensures SuccLinks(fake, N', (succ - {N[k]})[At(fake, N, k - 1) := At(fake, N, k + 1)])
  {
    var it, prev, next := N[k], At(fake, N, k - 1), At(fake, N, k + 1);
    var succ' := (succ - {it})[prev := next];
    forall j | 0 <= j < |N| && j != k - 1
      ensures N[j] != prev
    {
      if k > 0 {
        assert prev == N[k - 1];
      }
    }
    EraseSuccFirst(fake, N, succ, k, N');
    forall i {:trigger succ'[N'[i]]} | 0 <= i < |N'|
      ensures N'[i] in succ' && succ'[N'[i]] == At(fake, N', i + 1)
    {
      EraseSuccAt(fake, N, succ, k, N', i);
    }
  }

  /** Unlinking the node at position k: the sentinel's predecessor is the new last node. */
  lemma ErasePredLast<T>(fake: Node<T>, N: seq<Node<T>>, pred: map<Node<T>, Node<T>>, k: nat, N': seq<Node<T>>)
    requires fake !in N && PredLinks(fake, N, pred) && Erased(N, k, N')
    ensures pred[N[k]] == At(fake, N, k - 1)
    ensures (pred - {N[k]})[At(fake, N, k + 1) := At(fake, N, k - 1)][fake] == At(fake, N', |N'| - 1)
  {
    if |N'| > 0 {
      assert N'[|N'| - 1] == if k == |N'| then N[k - 1] else N[|N| - 1];
    }
  }

  /** Unlinking the node at position k: the predecessor of the node now at position i. */
  lemma ErasePredAt<T>(fake: Node<T>, N: seq<Node<T>>, pred: map<Node<T>, Node<T>>, k: nat, N': seq<Node<T>>, i: nat)
    requires fake !in N && PredLinks(fake, N, pred) && Erased(N, k, N') && i < |N'|
    requires forall j | 0 <= j < |N| && j != k :: N[j] != N[k]
    requires forall j | 0 <= j < |N| && j != k + 1 :: N[j] != At(fake, N, k + 1)
    ensures N'[i] in (pred - {N[k]})[At(fake, N, k + 1) := At(fake, N, k - 1)]
    ensures (pred - {N[k]})[At(fake, N, k + 1) := At(fake, N, k - 1)][N'[i]] == At(fake, N', i - 1)
  {
    var it, prev, next := N[k], At(fake, N, k - 1), At(fake, N, k + 1);
    if i < k {
      assert N'[i] == N[i] != next && N[i] != it;
      if i > 0 {
        assert N'[i - 1] == N[i - 1];
      }
    } else if i == k {
      assert N'[i] == N[k + 1] == next;
      if k > 0 {
        assert N'[k - 1] == N[k - 1];
      }
    } else {
      assert N'[i] == N[i + 1] != next && N[i + 1] != it && N'[i - 1] == N[i];
    }
  }

  /** Unlinking the node at position k: predecessors. */
  lemma ErasePred<T>(fake: Node<T>, N: seq<Node<T>>, pred: map<Node<T>, Node<T>>, k: nat, N': seq<Node<T>>)
    requires fake !in N && Distinct(N) && PredLinks(fake, N, pred) && Erased(N, k, N')
    ensures pred[N[k]] == At(fake, N, k - 1)
    ensures PredLinks(fake, N', (pred - {N[k]})[At(fake, N, k + 1) := At(fake, N, k - 1)])
  {
    var it, prev, next := N[k], At(fake, N, k - 1), At(fake, N, k + 1);
    var pred' := (pred - {it})[next := prev];
    forall j | 0 <= j < |N| && j != k + 1
      ensures N[j] != next
    {
      if k + 1 < |N| {
        assert next == N[k + 1];
      }
    }
    ErasePredLast(fake, N, pred, k, N');
    forall i {:trigger pred'[N'[i]]} | 0 <= i < |N'|
      ensures N'[i] in pred' && pred'[N'[i]] == At(fake, N', i - 1)
    {
      ErasePredAt(fake, N, pred, k, N', i);
    }
  }


  /** Linking r in before position k keeps a ring. */
  lemma InsertRing<T>(fake: Node<T>, N: seq<Node<T>>, succ: map<Node<T>, Node<T>>, pred: map<Node<T>, Node<T>>,
                      k: nat, r: Node<T>, N': seq<Node<T>>)
    requires Ring(fake, N, succ, pred) && Inserted(N, k, r, N') && r != fake && r !in N
    ensures var prev, next := At(fake, N, k - 1), At(fake, N, k);
      next in pred && pred[next] == prev && Ring(fake, N', succ[prev := r][r := next], pred[next := r][r := prev])
  {
    RingDistinct(fake, N, succ);
    InsertSucc(fake, N, succ, k, r, N');
    InsertPred(fake, N, pred, k, r, N');
    InsertMembers(N, k, r, N');
  }

  /** Unlinking the node at position k keeps a ring. */
  lemma EraseRing<T>(fake: Node<T>, N: seq<Node<T>>, succ: map<Node<T>, Node<T>>, pred: map<Node<T>, Node<T>>, k: nat, N': seq<Node<T>>)
    requires Ring(fake, N, succ, pred) && Erased(N, k, N')
    ensures var it, prev, next := N[k], At(fake, N, k - 1), At(fake, N, k + 1);
      succ[it] == next && pred[it] == prev && it != fake && it != prev && it != next && At(fake, N', k) == next &&
      Ring(fake, N', (succ - {it})[prev := next], (pred - {it})[next := prev])
  {
    RingDistinct(fake, N, succ);
    EraseSucc(fake, N, succ, k, N');
    ErasePred(fake, N, pred, k, N');
    EraseMembers(N, k, N');
    EraseNeighbours(fake, N, k, N');
  }

  /** The values held by the nodes N, in order, are C. */
  ghost predicate Holding<T>(N: seq<Node<T>>, C: seq<T>, held: map<Node<T>, T>) {
    |N| == |C| &&
    forall i {:trigger N[i] in held} {:trigger held[N[i]]} | 0 <= i < |N| :: N[i] in held && held[N[i]] == C[i]
  }

  /** Recording the value of r inserted at position k. */
  lemma InsertHolding<T>(N: seq<Node<T>>, C: seq<T>, held: map<Node<T>, T>, k: nat, r: Node<T>, v: T,
                         N': seq<Node<T>>, C': seq<T>)
    requires Holding(N, C, held) && Inserted(N, k, r, N') && Inserted(C, k, v, C') && r !in N
    ensures Holding(N', C', held[r := v])
  {
    forall i {:trigger N'[i]} | 0 <= i < |N'|
      ensures N'[i] in held[r := v] && held[r := v][N'[i]] == C'[i]
    {
      if i < k {
        assert N'[i] == N[i] != r && C'[i] == C[i];
      } else if i == k {
        assert N'[i] == r && C'[i] == v;
      } else {
        assert N'[i] == N[i - 1] != r && C'[i] == C[i - 1];
      }
    }
  }

  /** Forgetting the value of the node at position k. */
  lemma EraseHolding<T>(N: seq<Node<T>>, C: seq<T>, held: map<Node<T>, T>, k: nat, N': seq<Node<T>>, C': seq<T>)
    requires Holding(N, C, held) && Distinct(N) && Erased(N, k, N') && Erased(C, k, C')
    ensures Holding(N', C', held - {N[k]})
  {
    forall i {:trigger N'[i]} | 0 <= i < |N'|
      ensures N'[i] in held - {N[k]} && (held - {N[k]})[N'[i]] == C'[i]
    {
      var i0 := if i < k then i else i + 1;
      assert N'[i] == N[i0] != N[k] && C'[i] == C[i0];
    }
  }

  /** A ring through the sentinel and the element nodes N, whose values in order are C. */
  ghost predicate Shape<T>(fake: Node<T>, N: seq<Node<T>>, C: seq<T>,
                           succ: map<Node<T>, Node<T>>, pred: map<Node<T>, Node<T>>, held: map<Node<T>, T>) {
    Ring(fake, N, succ, pred) && Holding(N, C, held)
  }

  /**
   * `insert`'s relinking on the ghost maps: a node r that is not yet
   * linked, holding v, goes between positions k - 1 and k, and N' and C'
   * are N and C with r and v inserted at position k.
   */
  lemma InsertShape<T>(fake: Node<T>, N: seq<Node<T>>, C: seq<T>, succ: map<Node<T>, Node<T>>, pred: map<Node<T>, Node<T>>,
                       held: map<Node<T>, T>, k: nat, r: Node<T>, v: T, N': seq<Node<T>>, C': seq<T>)
    requires Shape(fake, N, C, succ, pred, held) && r !in succ && Inserted(N, k, r, N') && Inserted(C, k, v, C')
    ensures var prev, next := At(fake, N, k - 1), At(fake, N, k);
      next in pred && pred[next] == prev &&
      Shape(fake, N', C', succ[prev := r][r := next], pred[next := r][r := prev], held[r := v])
  {
    assert forall i | 0 <= i < |N| :: N[i] in succ;
    InsertRing(fake, N, succ, pred, k, r, N');
    InsertHolding(N, C, held, k, r, v, N', C');
  }

  /**
   * `erase`'s relinking on the ghost maps: the node at position k is
   * dropped, its neighbours now point to each other, and N' and C' are N
   * and C without position k.
   */
  lemma EraseShape<T>(fake: Node<T>, N: seq<Node<T>>, C: seq<T>, succ: map<Node<T>, Node<T>>, pred: map<Node<T>, Node<T>>,
                      held: map<Node<T>, T>, k: nat, N': seq<Node<T>>, C': seq<T>)
    requires Shape(fake, N, C, succ, pred, held) && Erased(N, k, N') && Erased(C, k, C')
    ensures var it, prev, next := N[k], At(fake, N, k - 1), At(fake, N, k + 1);
      succ[it] == next && pred[it] == prev && it != fake && it != prev && it != next && At(fake, N', k) == next &&
      Shape(fake, N', C', (succ - {it})[prev := next], (pred - {it})[next := prev], held - {it})
  {
    EraseRing(fake, N, succ, pred, k, N');
    RingDistinct(fake, N, succ);
    EraseHolding(N, C, held, k, N', C');
  }

  /**
   * Moving the non-empty node sequence N from the ring of sentinel g to a
   * sentinel f outside it: f's successor is the first node, and the last
   * node's successor is f instead of g.
   */
  lemma RehomeSucc<T>(g: Node<T>, f: Node<T>, N: seq<Node<T>>, succ: map<Node<T>, Node<T>>)
    requires g !in N && SuccLinks(g, N, succ) && f !in succ && |N| > 0
    ensures SuccLinks(f, N, (succ - {g})[f := N[0]][N[|N| - 1] := f])
  {
    var succ' := (succ - {g})[f := N[0]][N[|N| - 1] := f];
    forall i {:trigger succ'[N[i]]} | 0 <= i < |N|
      ensures N[i] in succ' && succ'[N[i]] == At(f, N, i + 1)
    {
      assert N[i] in succ;
      if i < |N| - 1 {
        NoRepeats(g, N, succ, i, |N| - 1);
      }
    }
  }

  /** The same move: f's predecessor is the last node, and the first node's predecessor is f instead of g. */
  lemma RehomePred<T>(g: Node<T>, f: Node<T>, N: seq<Node<T>>, succ: map<Node<T>, Node<T>>, pred: map<Node<T>, Node<T>>)
    requires g !in N && SuccLinks(g, N, succ) && PredLinks(g, N, pred) && f !in succ && |N| > 0
    ensures PredLinks(f, N, (pred - {g})[f := N[|N| - 1]][N[0] := f])
  {
    var pred' := (pred - {g})[f := N[|N| - 1]][N[0] := f];
    assert N[|N| - 1] in succ;
    forall i {:trigger pred'[N[i]]} | 0 <= i < |N|
      ensures N[i] in pred' && pred'[N[i]] == At(f, N, i - 1)
    {
      assert N[i] in succ;
      if 0 < i {
        NoRepeats(g, N, succ, 0, i);
      }
    }
  }

  /** Moving the nodes N, with their values, from sentinel g to sentinel f keeps the shape. */
  lemma RehomeShape<T>(g: Node<T>, f: Node<T>, N: seq<Node<T>>, C: seq<T>, succ: map<Node<T>, Node<T>>, pred: map<Node<T>, Node<T>>,
                       held: map<Node<T>, T>)
    requires Shape(g, N, C, succ, pred, held) && f !in succ && |N| > 0
    ensures Shape(f, N, C, (succ - {g})[f := N[0]][N[|N| - 1] := f], (pred - {g})[f := N[|N| - 1]][N[0] := f], held)
  {
    RehomeSucc(g, f, N, succ);
    RehomePred(g, f, N, succ, pred);
    assert forall i | 0 <= i < |N| :: N[i] in succ;
  }

  /** The first n elements of s. */
  function Prefix<T>(s: seq<T>, n: nat): (p: seq<T>)
    requires n <= |s|
    ensures |p| == n
  {
    if n == 0 then [] else Prefix(s, n - 1) + [s[n - 1]]
  }

  /** The prefix of a sequence's whole length is the sequence. */
  lemma {:induction false} WholePrefix<T>(s: seq<T>)
    ensures Prefix(s, |s|) == s
  {
    if |s| > 0 {
      PrefixOfInit(s, |s| - 1);
    }
  }

  /** The recursive prefix is the slice. */
  lemma {:induction false} PrefixOfInit<T>(s: seq<T>, n: nat)
    requires n <= |s|
    ensures Prefix(s, n) == s[..n]
  {
    if n > 0 {
      PrefixOfInit(s, n - 1);
    }
  }

  /** Two disjoint footprints stay disjoint when they exchange their heads. */
  lemma ExchangeHeads(R1: set<object>, R2: set<object>, a: object, f: object, b: object, g: object)
    requires a in R1 && f in R1 && b in R2 && g in R2 && R1 !! R2
    ensures (R2 - {b, g} + {a, f}) !! (R1 - {a, f} + {b, g})
  {
  }

  /**
   * After a change of sentinels, list l with sentinel f holds the ring
   * first..last that sentinel g held before, with size n and the ghost
   * state N, C, S, P, H, R that list src had: f and the two end nodes point
   * at each other and the end nodes keep their other link.
   */
  twostate predicate Rehomed<T>(l: List<T>, src: List<T>, f: Node<T>, g: Node<T>, first: Node<T>, last: Node<T>, n: nat,
                                N: seq<Node<T>>, C: seq<T>, S: map<Node<T>, Node<T>>, P: map<Node<T>, Node<T>>, H: map<Node<T>, T>,
                                R: set<object>)
    reads l, f, first, last
  {
    l.fake == f && f.next == first && f.prev == last && first.prev == f && last.next == f &&
    (first != last ==> first.next == old(first.next) && last.prev == old(last.prev)) &&
    f.value == old(f.value) && first.value == old(first.value) && last.value == old(last.value) &&
    l.size == n && l.Nodes == N && l.Contents == C && l.Held == H &&
    l.Succ == (S - {g})[f := first][last := f] && l.Pred == (P - {g})[f := last][first := f] &&
    l.Repr == R - {src, g} + {l, f}
  }

  /** `std::swap(a->prev, b->prev)`. */
  method SwapPrev<T>(a: Node<T>, b: Node<T>)
    requires a != b
    modifies a, b
    ensures a.prev == old(b.prev) && b.prev == old(a.prev)
    ensures a.next == old(a.next) && b.next == old(b.next) && a.value == old(a.value) && b.value == old(b.value)
  {
    a.prev, b.prev := b.prev, a.prev;
  }

  /** `std::swap(a->next, b->next)`. */
  method SwapNext<T>(a: Node<T>, b: Node<T>)
    requires a != b
    modifies a, b
    ensures a.next == old(b.next) && b.next == old(a.next)
    ensures a.prev == old(a.prev) && b.prev == old(b.prev) && a.value == old(a.value) && b.value == old(b.value)
  {
    a.next, b.next := b.next, a.next;
  }

  class List<T> {
    var fake: Node<T>
    var size: nat
    /** The element nodes from the first to the last. */
    ghost var Nodes: seq<Node<T>>
    /** The values they hold. */
    ghost var Contents: seq<T>
    /** Each linked node's `next` and `prev`, the sentinel's included. */
    ghost var Succ: map<Node<T>, Node<T>>
    ghost var Pred: map<Node<T>, Node<T>>
    /** Each element node's value. */
    ghost var Held: map<Node<T>, T>
    ghost var Repr: set<object>

    /**
     * The sentinel and the element nodes form one ring through their
     * `next` and `prev` pointers, each element node holds its value, and
     * `_size` is the number of elements.
     */
    ghost predicate Valid()
      reads this, Repr
    {
      this in Repr && fake in Repr && fake.value == None && size == |Nodes| &&
      Shape(fake, Nodes, Contents, Succ, Pred, Held) &&
      (forall n | n in Succ :: n in Repr && n.next == Succ[n] && n in Pred && n.prev == Pred[n] &&
         (n != fake ==> n in Held && n.value == Some(Held[n])))
    }

    /** `List()`: only the sentinel, linked to itself. */
    constructor ()
      ensures Valid() && fresh(Repr) && Contents == []
    {
      var s := new Node.Sentinel();
      fake, size := s, 0;
      Nodes, Contents := [], [];
      Succ, Pred, Held := map[s := s], map[s := s], map[];
      Repr := {this, s};
    }

    /** `List(count)`: count default values, each inserted before `end()`; the default `T()` is the parameter zero. */
    constructor Sized(count: nat, zero: T)
      ensures Valid() && fresh(Repr) && Contents == seq(count, _ => zero)
    {
      var s := new Node.Sentinel();
      fake, size := s, 0;
      Nodes, Contents := [], [];
      Succ, Pred, Held := map[s := s], map[s := s], map[];
      Repr := {this, s};
      new;
      var created := 0;
      while created < count
        invariant created <= count && Valid() && fresh(Repr)
        invariant Contents == seq(created, _ => zero)
      {
        ghost var before := Contents;
        var _ := Insert(End(), |Nodes|, zero);
        InsertEnds(before, zero, Contents);
        created := created + 1;
      }
    }

    /** `List(count, value)`: count copies of v, pushed at the back one by one. */
    constructor Filled(count: nat, v: T)
      ensures Valid() && fresh(Repr) && Contents == seq(count, _ => v)
    {
      var s := new Node.Sentinel();
      fake, size := s, 0;
      Nodes, Contents := [], [];
      Succ, Pred, Held := map[s := s], map[s := s], map[];
      Repr := {this, s};
      new;
      var created := 0;
      while created < count
        invariant created <= count && Valid() && fresh(Repr)
        invariant Contents == seq(created, _ => v)
      {
        PushBack(v);
        created := created + 1;
      }
    }

    /** `List(const List& other)`: other's values, read from `begin()` to `end()` and pushed at the back. */
    constructor Copy(other: List<T>)
      requires other.Valid()
      ensures Valid() && fresh(Repr) && Contents == other.Contents
    {
      var s := new Node.Sentinel();
      fake, size := s, 0;
      Nodes, Contents := [], [];
      Succ, Pred, Held := map[s := s], map[s := s], map[];
      Repr := {this, s};
      new;
      ghost var R0 := Repr;
      assert fresh(R0);
      CopyFrom(other);
      assert Repr == R0 + (Repr - R0);
    }

    /** The loop of the copy constructor: other's values pushed at the back of this empty list, in order. */
    method CopyFrom(other: List<T>)
      requires Valid() && other.Valid() && Repr !! other.Repr && Contents == []
      modifies Repr
      ensures Valid() && fresh(Repr - old(Repr)) && old(Repr) <= Repr && Contents == other.Contents
    {
      var it := other.Begin();
      ghost var i := 0;
      while it != other.CEnd()
        invariant Valid() && fresh(Repr - old(Repr)) && old(Repr) <= Repr && Repr !! other.Repr && other.Valid()
        invariant i <= |other.Nodes| && it == At(other.fake, other.Nodes, i) && Contents == Prefix(other.Contents, i)
        decreases |other.Nodes| - i
      {
        ghost var added;
        it, added := CopyStep(other, it, i);
        i := i + 1;
      }
      other.EndReached(i);
      WholePrefix(other.Contents);
    }

    /** One pass of the copy loop: `push_back(*it)`, that is `insert(end(), *it)`, then `++it`. */
    method CopyStep(other: List<T>, it: Node<T>, ghost i: nat) returns (next: Node<T>, ghost added: Node<T>)
      requires Valid() && other.Valid() && Repr !! other.Repr
      requires i < |other.Nodes| && it == At(other.fake, other.Nodes, i) && Contents == Prefix(other.Contents, i)
      modifies Repr
      ensures Valid() && fresh(added) && Repr == old(Repr) + {added} && Repr !! other.Repr
      ensures other.Valid() && other.Nodes == old(other.Nodes) && other.Contents == old(other.Contents) && other.fake == old(other.fake)
      ensures next == At(other.fake, other.Nodes, i + 1) && Contents == Prefix(other.Contents, i + 1)
    {
      var v := other.Get(it, i);
      added := Insert(End(), |Nodes|, v);
      InsertEnds(old(Contents), v, Contents);
      next := other.Next(it, i);
    }

    /** Iteration from begin() reaches end() only after the last element. */
    lemma EndReached(i: nat)
      requires Valid() && i <= |Nodes| && At(fake, Nodes, i) == fake
      ensures i == |Nodes|
    {
    }

    /** `begin()`: the sentinel's successor, the first element or `end()`. */
    function Begin(): (it: Node<T>)
      reads this, Repr
      requires Valid()
      ensures it == At(fake, Nodes, 0)
    {
      fake.next
    }

    /** `end()`: the sentinel. */
    function End(): (it: Node<T>)
      reads this
      ensures it == fake
    {
      fake
    }

    /** `cend()`: the predecessor of the first node, which is the sentinel again. */
    function CEnd(): (it: Node<T>)
      reads this, Repr
      requires Valid()
      ensures it == fake
    {
      fake.next.prev
    }

    /** Iterator `operator++`: from position k to position k + 1, and from `end()` round to `begin()`. */
    function Next(it: Node<T>, ghost k: int): (r: Node<T>)
      reads this, Repr
      requires Valid() && -1 <= k <= |Nodes| && it == At(fake, Nodes, k)
      ensures r == if k == |Nodes| then At(fake, Nodes, 0) else At(fake, Nodes, k + 1)
    {
      it.next
    }

    /** Iterator `operator--`: from position k to position k - 1, and from `begin()` round to `end()`. */
    function Prev(it: Node<T>, ghost k: int): (r: Node<T>)
      reads this, Repr
      requires Valid() && -1 <= k <= |Nodes| && it == At(fake, Nodes, k)
      ensures r == if k == -1 then At(fake, Nodes, |Nodes| - 1) else At(fake, Nodes, k - 1)
    {
      it.prev
    }

    /** Iterator `operator*`: the value of the element at position k. */
    function Get(it: Node<T>, ghost k: int): (v: T)
      reads this, Repr
      requires Valid() && 0 <= k < |Nodes| && it == Nodes[k]
      ensures v == Contents[k]
    {
      it.value.value
    }

    /** `size()`. */
    function Size(): (n: nat)
      reads this, Repr
      requires Valid()
      ensures n == |Contents|
    {
      size
    }

    /** `empty()`: `size() == 0`. */
    function Empty(): (b: bool)
      reads this, Repr
      requires Valid()
      ensures b <==> Contents == []
    {
      size == 0
    }

    /**
     * `insert(it, v)`: a new node holding v is linked in just before the
     * node `it` at position k, and returned.
     */
    method Insert(it: Node<T>, ghost k: nat, v: T) returns (r: Node<T>)
      requires Valid() && k <= |Nodes| && it == At(fake, Nodes, k)
      modifies Repr
      ensures Valid() && fresh(r) && Repr == old(Repr) + {r} && fake == old(fake)
      ensures Inserted(old(Nodes), k, r, Nodes) && Inserted(old(Contents), k, v, Contents)
    {
      var prev: Node<T> := it.prev;
      r := Link(prev, it, v, k);
      InsertShape(fake, old(Nodes), old(Contents), old(Succ), old(Pred), old(Held), k, r, v, Nodes, Contents);
    }

    /**
     * The writes `insert` makes: a node holding v is allocated with its
     * links to prev and next, prev's `next` and next's `prev` now point to
     * it, `_size` grows by one, and the ghost state records the new node
     * at position k.
     */
    method Link(prev: Node<T>, next: Node<T>, v: T, ghost k: nat) returns (r: Node<T>)
      requires k <= |Nodes| && k <= |Contents|
      modifies this, prev, next
      ensures fresh(r) && r.next == next && r.prev == prev && r.value == Some(v)
      ensures prev.next == r && next.prev == r && prev.value == old(prev.value) && next.value == old(next.value)
      ensures prev != next ==> prev.prev == old(prev.prev) && next.next == old(next.next)
      ensures fake == old(fake) && size == old(size) + 1 && Repr == old(Repr) + {r}
      ensures Inserted(old(Nodes), k, r, Nodes) && Inserted(old(Contents), k, v, Contents)
      ensures Succ == old(Succ)[prev := r][r := next] && Pred == old(Pred)[next := r][r := prev] && Held == old(Held)[r := v]
    {
      r := new Node(next, prev, v);
      prev.next := r;
      next.prev := r;
      ghost var N', C' := Nodes[..k] + [r] + Nodes[k..], Contents[..k] + [v] + Contents[k..];
      InsertIndex(Nodes, k, r, N');
      InsertIndex(Contents, k, v, C');
      size, Nodes, Contents := size + 1, N', C';
      Succ, Pred, Held, Repr := Succ[prev := r][r := next], Pred[next := r][r := prev], Held[r := v], Repr + {r};
    }

    /**
     * `erase(it)`: the node at position k is unlinked from its neighbours,
     * and its successor is returned.
     */
    method Erase(it: Node<T>, ghost k: nat) returns (r: Node<T>)
      requires Valid() && k < |Nodes| && it == Nodes[k]
      modifies Repr
      ensures Valid() && Repr == old(Repr) - {it} && fake == old(fake)
      ensures Erased(old(Nodes), k, Nodes) && Erased(old(Contents), k, Contents)
      ensures r == At(fake, Nodes, k)
    {
      var prev: Node<T> := it.prev;
      var next: Node<T> := it.next;
      Unlink(it, prev, next, k);
      EraseShape(fake, old(Nodes), old(Contents), old(Succ), old(Pred), old(Held), k, Nodes, Contents);
      r := next;
    }

    /**
     * The writes `erase` makes: prev's `next` and next's `prev` skip the
     * node it at position k, `_size` shrinks by one, and the ghost state
     * forgets the node.
     */
    method Unlink(it: Node<T>, prev: Node<T>, next: Node<T>, ghost k: nat)
      requires k < |Nodes| && k < |Contents| && size > 0
      modifies this, prev, next
      ensures prev.next == next && next.prev == prev && prev.value == old(prev.value) && next.value == old(next.value)
      ensures prev != next ==> prev.prev == old(prev.prev) && next.next == old(next.next)
      ensures fake == old(fake) && size == old(size) - 1 && Repr == old(Repr) - {it}
      ensures Erased(old(Nodes), k, Nodes) && Erased(old(Contents), k, Contents)
      ensures Succ == (old(Succ) - {it})[prev := next] && Pred == (old(Pred) - {it})[next := prev] && Held == old(Held) - {it}
    {
      prev.next := next;
      next.prev := prev;
      ghost var N', C' := Nodes[..k] + Nodes[k + 1..], Contents[..k] + Contents[k + 1..];
      EraseIndex(Nodes, k, N');
      EraseIndex(Contents, k, C');
      size, Nodes, Contents := size - 1, N', C';
      Succ, Pred, Held, Repr := (Succ - {it})[prev := next], (Pred - {it})[next := prev], Held - {it}, Repr - {it};
    }

    /** `push_back(v)`: `insert(end(), v)`. */
    method PushBack(v: T)
      requires Valid()
      modifies Repr
      ensures Valid() && fresh(Repr - old(Repr)) && old(Repr) <= Repr
      ensures Contents == old(Contents) + [v]
    {
      var _ := Insert(End(), |Nodes|, v);
      InsertEnds(old(Contents), v, Contents);
    }

    /** `push_front(v)`: `insert(begin(), v)`. */
    method PushFront(v: T)
      requires Valid()
      modifies Repr
      ensures Valid() && fresh(Repr - old(Repr)) && old(Repr) <= Repr
      ensures Contents == [v] + old(Contents)
    {
      var _ := Insert(Begin(), 0, v);
      InsertEnds(old(Contents), v, Contents);
    }

    /** `pop_back()`: `erase(--end())`, on a non-empty list. */
    method PopBack()
      requires Valid() && Contents != []
      modifies Repr
      ensures Valid() && Repr <= old(Repr)
      ensures Contents == old(Contents[..|Contents| - 1])
    {
      var last := Prev(End(), |Nodes|);
      var _ := Erase(last, |Nodes| - 1);
      EraseEnds(old(Contents), Contents);
    }

    /** `pop_front()`: `erase(begin())`, on a non-empty list. */
    method PopFront()
      requires Valid() && Contents != []
      modifies Repr
      ensures Valid() && Repr <= old(Repr)
      ensures Contents == old(Contents[1..])
    {
      var _ := Erase(Begin(), 0);
      EraseEnds(old(Contents), Contents);
    }

    /** `~List()`: pops the last element until the list is empty. */
    method Clear()
      requires Valid()
      modifies Repr
      ensures Valid() && Repr <= old(Repr) && Contents == []
    {
      while !Empty()
        invariant Valid() && Repr <= old(Repr)
        decreases |Contents|
      {
        PopBack();
      }
    }

    /**
     * `swap(other)`: the two lists exchange their elements, the sentinels
     * staying where they are.  Both lists must be non-empty, or a sentinel
     * would be left pointing back to itself.
     */
    method Swap(other: List<T>)
      requires Valid() && other.Valid() && Repr !! other.Repr && Contents != [] && other.Contents != []
      modifies Repr, other.Repr
      ensures fake == old(fake) && other.fake == old(other.fake)
      ensures Valid() && other.Valid() && Repr !! other.Repr
      ensures Contents == old(other.Contents) && other.Contents == old(Contents)
      ensures Repr == old(other.Repr) - {other, other.fake} + {this, fake}
      ensures other.Repr == old(Repr) - {this, fake} + {other, other.fake}
    {
      ghost var N2, C2, S2, P2, H2 := other.Nodes, other.Contents, other.Succ, other.Pred, other.Held;
      assert N2[0] in S2 && N2[|N2| - 1] in S2;
      ExchangeHeads(Repr, other.Repr, this, fake, other, other.fake);
      ExchangeRings(other);
      RehomeShape(other.fake, fake, N2, C2, S2, P2, H2);
    }

    /**
     * The writes of `swap`, after which other is a valid list again,
     * holding the elements this list held, and this list has taken over
     * the ring of other's nodes.
     */
    method ExchangeRings(other: List<T>)
      requires Valid() && other.Valid() && Repr !! other.Repr && Contents != [] && other.Contents != []
      modifies this, other, fake, other.fake, fake.next, fake.prev, other.fake.next, other.fake.prev
      ensures fake == old(fake) && other.fake == old(other.fake)
      ensures Rehomed(this, other, fake, other.fake, old(other.fake.next), old(other.fake.prev), old(other.size),
                      old(other.Nodes), old(other.Contents), old(other.Succ), old(other.Pred), old(other.Held), old(other.Repr))
      ensures other.Valid() && other.Contents == old(Contents) && other.Repr == old(Repr) - {this, fake} + {other, other.fake}
    {
      ghost var N1, C1, S1, P1, H1 := Nodes, Contents, Succ, Pred, Held;
      ghost var N2, S2, P2 := other.Nodes, other.Succ, other.Pred;
      assert N1[0] in S1 && N1[|N1| - 1] in S1 && N2[0] in S2 && N2[|N2| - 1] in S2;
      assert N1[0] in P1 && N1[|N1| - 1] in P1 && N2[0] in P2 && N2[|N2| - 1] in P2;
      SwapLinks(other);
      RehomeShape(fake, other.fake, N1, C1, S1, P1, H1);
    }

    /**
     * The writes of `swap`: the sentinels exchange their `prev` and their
     * `next`, the first nodes and then the last nodes exchange the
     * sentinel they point back to, and the sizes are exchanged.
     */
    method SwapLinks(other: List<T>)
      requires this != other && fake != other.fake
      requires fake.next != null && fake.prev != null && other.fake.next != null && other.fake.prev != null
      requires fake.next !in {fake, other.fake, other.fake.next, other.fake.prev}
      requires fake.prev !in {fake, other.fake, other.fake.next, other.fake.prev}
      requires other.fake.next !in {fake, other.fake} && other.fake.prev !in {fake, other.fake}
      requires fake.next.prev == fake && fake.prev.next == fake && other.fake.next.prev == other.fake && other.fake.prev.next == other.fake
      modifies this, other, fake, other.fake, fake.next, fake.prev, other.fake.next, other.fake.prev
      ensures fake == old(fake) && other.fake == old(other.fake)
      ensures Rehomed(this, other, fake, other.fake, old(other.fake.next), old(other.fake.prev), old(other.size),
                      old(other.Nodes), old(other.Contents), old(other.Succ), old(other.Pred), old(other.Held), old(other.Repr))
      ensures Rehomed(other, this, other.fake, fake, old(fake.next), old(fake.prev), old(size),
                      old(Nodes), old(Contents), old(Succ), old(Pred), old(Held), old(Repr))
    {
      var g := other.fake;
      ghost var first1: Node<T>, last1: Node<T>, first2: Node<T>, last2: Node<T> := fake.next, fake.prev, g.next, g.prev;
      ghost var N1, C1, S1, P1, H1, R1 := Nodes, Contents, Succ, Pred, Held, Repr;
      SwapPrev(fake, g);
      SwapNext(fake, g);
      SwapPrev(fake.next, g.next);
      SwapNext(fake.prev, g.prev);
      size, other.size := other.size, size;
      SetGhost(other.Nodes, other.Contents, (other.Succ - {g})[fake := first2][last2 := fake],
               (other.Pred - {g})[fake := last2][first2 := fake], other.Held, other.Repr - {other, g} + {this, fake});
      other.SetGhost(N1, C1, (S1 - {fake})[g := first1][last1 := g], (P1 - {fake})[g := last1][first1 := g], H1,
                     R1 - {this, fake} + {other, g});
    }

    /** Replaces the ghost state of this list. */
    ghost method SetGhost(N: seq<Node<T>>, C: seq<T>, S: map<Node<T>, Node<T>>, P: map<Node<T>, Node<T>>, H: map<Node<T>, T>, R: set<object>)
      modifies this
      ensures fake == old(fake) && size == old(size)
      ensures Nodes == N && Contents == C && Succ == S && Pred == P && Held == H && Repr == R
    {
      Nodes, Contents, Succ, Pred, Held, Repr := N, C, S, P, H, R;
    }

    /**
     * The hand relinking of `operator=` while this list is empty: this
     * sentinel takes over the ring of src, whose sentinel is linked back to
     * itself, and the sizes are exchanged.  When src is empty too, the
     * steps leave this sentinel's `prev` pointing at src's sentinel.
     */
    method TakeOver(src: List<T>)
      requires Valid() && src.Valid() && Repr !! src.Repr && Contents == []
      modifies Repr, src.Repr
      ensures fake == old(fake) && src.fake == old(src.fake)
      ensures old(src.Contents) != [] ==>
        Valid() && src.Valid() && Repr !! src.Repr && Contents == old(src.Contents) && src.Contents == [] &&
        Repr == old(src.Repr) - {src, src.fake} + {this, fake} && src.Repr == {src, src.fake}
      ensures old(src.Contents) == [] ==> fake.next == fake && fake.prev == src.fake && !Valid()
    {
      ghost var N, C, S, P, H := src.Nodes, src.Contents, src.Succ, src.Pred, src.Held;
      assert size == 0;
      Relink(src);
      if N != [] {
        RehomeShape(src.fake, fake, N, C, S, P, H);
      }
    }

    /**
     * The writes of the hand relinking: this sentinel's `next` and `prev`
     * take src's first and last node, whose `prev` and `next` then point
     * to this sentinel; src's sentinel points to itself and the sizes are
     * exchanged.  The `prev` of the last node is read after the first
     * node's `prev` was written, so with src empty this sentinel ends up
     * linked to itself forwards and to src's sentinel backwards.
     */
    method Relink(src: List<T>)
      requires this != src && fake != src.fake && src.fake.next != null && src.fake.prev != null
      requires src.fake.next != fake && src.fake.prev != fake
      requires src.fake.next != src.fake <==> src.fake.prev != src.fake
      modifies this, src, fake, src.fake, src.fake.next, src.fake.prev
      ensures var f, g, first, last := fake, src.fake, old(src.fake.next), old(src.fake.prev);
        f == old(fake) && g == old(src.fake) && g.next == g && g.prev == g && g.value == old(g.value) &&
        size == old(src.size) && src.size == old(size) &&
        (first == g ==> f.next == f && f.prev == g) &&
        (first != g ==>
          f.next == first && f.prev == last && first.prev == f && last.next == f &&
          (first != last ==> first.next == old(first.next) && last.prev == old(last.prev)) &&
          f.value == old(f.value) && first.value == old(first.value) && last.value == old(last.value) &&
          Nodes == old(src.Nodes) && Contents == old(src.Contents) && Held == old(src.Held) &&
          Succ == (old(src.Succ) - {g})[f := first][last := f] && Pred == (old(src.Pred) - {g})[f := last][first := f] &&
          Repr == old(src.Repr) - {src, g} + {this, f} &&
          src.Nodes == [] && src.Contents == [] && src.Held == map[] && src.Succ == map[g := g] && src.Pred == map[g := g] &&
          src.Repr == {src, g})
    {
      var g := src.fake;
      var first: Node<T>, last: Node<T> := g.next, g.prev;
      fake.next := g.next;
      fake.prev := g.prev;
      var n: Node<T> := g.next;
      n.prev := fake;
      n := g.prev;
      n.next := fake;
      g.prev := g;
      g.next := g;
      size, src.size := src.size, size;
      if first != g {
        SetGhost(src.Nodes, src.Contents, (src.Succ - {g})[fake := first][last := fake], (src.Pred - {g})[fake := last][first := fake],
                 src.Held, src.Repr - {src, g} + {this, fake});
        src.SetGhost([], [], map[g := g], map[g := g], map[], {src, g});
      }
    }

    /**
     * `operator=(other)` as written: after copying other, an empty list
     * always takes over the copy's ring by hand, even when the copy is
     * empty as well.
     */
    method AssignAsWritten(other: List<T>)
      requires Valid() && other.Valid() && (this == other || Repr !! other.Repr)
      modifies Repr
      ensures this != other && old(Contents) == [] && old(other.Contents) == [] ==> !Valid()
      ensures this == other || old(Contents) != [] || old(other.Contents) != [] ==> Valid() && Contents == old(other.Contents)
    {
      if this == other {
        return;
      }
      var copy := new List.Copy(other);
      if Size() == 0 {
        TakeOver(copy);
      } else if copy.Size() == 0 {
        copy.TakeOver(this);
      } else {
        Swap(copy);
      }
    }

    /**
     * `operator=(other)`: a no-op on self-assignment; otherwise a copy of
     * other is made and its ring moved into this list, by hand when either
     * side is empty and by `swap` otherwise.  The hand move into an empty
     * list is skipped when the copy is empty as well.
     */
    method Assign(other: List<T>)
      requires Valid() && other.Valid() && (this == other || Repr !! other.Repr)
      modifies Repr
      ensures Valid() && Contents == old(other.Contents) && fresh(Repr - old(Repr))
    {
      if this == other {
        return;
      }
      var copy := new List.Copy(other);
      Adopt(copy);
    }

    /**
     * The branches of `operator=` after the copy is made: the copy's ring
     * moves into this list, by hand when either side is empty and by `swap`
     * otherwise, and nothing happens when both are empty.
     */
    method Adopt(copy: List<T>)
      requires Valid() && copy.Valid() && Repr !! copy.Repr
      modifies Repr, copy.Repr
      ensures Valid() && Contents == old(copy.Contents) && Repr <= old(Repr) + old(copy.Repr)
    {
      if Size() == 0 {
        if copy.Size() != 0 {
          TakeOver(copy);
        }
      } else if copy.Size() == 0 {
        copy.TakeOver(this);
      } else {
        Swap(copy);
      }
    }
  }

  /** Assigning an empty list to another empty list with `operator=` as written breaks the target. */
  method EmptyToEmptyAssignment() returns (a: List<int>, b: List<int>)
    ensures b.Valid() && b.Contents == [] && !a.Valid()
  {
    a := new List();
    b := new List();
    a.AssignAsWritten(b);
  }
}
