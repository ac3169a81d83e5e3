/**
 * The link structure of the circular, sentinel-based doubly-linked list, on values.
 *
 * Nodes live in an arena and are named by their index; index SENTINEL is the list's
 * `begin_` node, which never holds a payload. `next` and `prev` give the two link
 * fields of every arena slot. `order` lists the payload nodes in traversal order, so
 * position p (0 <= p < |order|) holds node `order[p]` and position |order| is the
 * end(), i.e. the sentinel itself.
 */
module Ring {

  /** The arena index reserved for the sentinel node. */
  const SENTINEL: nat := 0

  /** The node at position p; position |order| is the sentinel. */
  function At(order: seq<nat>, p: nat): nat
    requires p <= |order|
  {
    if p < |order| then order[p] else SENTINEL
  }

  /** The node just before position p on the cycle (the sentinel precedes position 0). */
  function Before(order: seq<nat>, p: nat): nat
    requires p <= |order|
  {
    if p == 0 then SENTINEL else order[p - 1]
  }

  /** One step forward on the positions 0..last of a cycle. */
  function Succ(p: nat, last: nat): nat
    requires p <= last
  {
    if p == last then 0 else p + 1
  }

  /** One step backward on the positions 0..last of a cycle. */
  function Pred(p: nat, last: nat): nat
    requires p <= last
  {
    if p == 0 then last else p - 1
  }

  /** No node occurs twice. */
  ghost predicate Distinct(order: seq<nat>)
    decreases |order|
  {
    |order| == 0 || (order[0] !in order[1..] && Distinct(order[1..]))
  }

  /** Distinct says that any two positions hold different nodes. */
  lemma {:induction false} DistinctPairwise(order: seq<nat>)
    ensures Distinct(order) <==> forall p, q :: 0 <= p < q < |order| ==> order[p] != order[q]
    decreases |order|
  {
    if |order| > 0 {
      var tail := order[1..];
      DistinctPairwise(tail);
      assert forall q :: 0 < q < |order| ==> order[q] == tail[q - 1];
      if Distinct(order) {
        forall p, q | 0 <= p < q < |order|
          ensures order[p] != order[q]
        {
          if p == 0 {
            assert order[q] in tail;
          } else {
            assert tail[p - 1] != tail[q - 1];
          }
        }
      }
      if forall p, q :: 0 <= p < q < |order| ==> order[p] != order[q] {
        forall i | 0 <= i < |tail|
          ensures tail[i] != order[0]
        {
          assert order[i + 1] != order[0];
        }
        forall p, q | 0 <= p < q < |tail|
          ensures tail[p] != tail[q]
        {
          assert order[p + 1] != order[q + 1];
        }
      }
    }
  }

  /**
   * The list invariant: every link of the arena names a slot of the arena; the sentinel
   * and the payload nodes of `order` form one cycle, and along it every `next` link is
   * matched by the reverse `prev` link.
   */
  ghost predicate IsRing(next: seq<nat>, prev: seq<nat>, order: seq<nat>) {
    0 < |next| == |prev|
    && (forall n :: 0 <= n < |next| ==> next[n] < |next| && prev[n] < |next|)
    && (forall p :: 0 <= p < |order| ==> SENTINEL < order[p] < |next|)
    && Distinct(order)
    && (forall p :: 0 <= p <= |order| ==>
          next[Before(order, p)] == At(order, p) && prev[At(order, p)] == Before(order, p))
  }

  /** The position of a node of the cycle. */
  ghost function PositionOf(order: seq<nat>, n: nat): (p: nat)
    requires n == SENTINEL || n in order
    ensures p <= |order| && At(order, p) == n
  {
    if n in order then
      var p :| 0 <= p < |order| && order[p] == n; p
    else
      |order|
  }

  /** Distinct positions of a ring hold distinct nodes. */
  lemma AtInjective(next: seq<nat>, prev: seq<nat>, order: seq<nat>, p: nat, q: nat)
    requires IsRing(next, prev, order) && p <= |order| && q <= |order|
    ensures At(order, p) == At(order, q) <==> p == q
    ensures Before(order, p) == Before(order, q) <==> p == q
  {
    DistinctPairwise(order);
  }

  /** The position of the node at position p is p: a node is at one place only. */
  lemma PositionOfAt(next: seq<nat>, prev: seq<nat>, order: seq<nat>, p: nat)
    requires IsRing(next, prev, order) && p <= |order|
    ensures PositionOf(order, At(order, p)) == p
  {
    AtInjective(next, prev, order, p, PositionOf(order, At(order, p)));
  }

  /** Following `next` from position p reaches position Succ(p). */
  lemma Successor(next: seq<nat>, prev: seq<nat>, order: seq<nat>, p: nat)
    requires IsRing(next, prev, order) && p <= |order|
    ensures At(order, p) < |next|
    ensures next[At(order, p)] == At(order, Succ(p, |order|))
  {
    if p < |order| {
      assert Before(order, p + 1) == At(order, p);
    } else {
      assert Before(order, 0) == At(order, p);
    }
  }

  /** Following `prev` from position p reaches position Pred(p). */
  lemma Predecessor(next: seq<nat>, prev: seq<nat>, order: seq<nat>, p: nat)
    requires IsRing(next, prev, order) && p <= |order|
    ensures At(order, p) < |prev|
    ensures prev[At(order, p)] == At(order, Pred(p, |order|))
  {
    if p == 0 {
      assert Before(order, 0) == At(order, |order|);
    } else {
      assert Before(order, p) == At(order, p - 1);
    }
  }

  /** On every node of the cycle, `next` and `prev` undo each other. */
  lemma Inverse(next: seq<nat>, prev: seq<nat>, order: seq<nat>, n: nat)
    requires IsRing(next, prev, order) && (n == SENTINEL || n in order)
    ensures n < |next| && next[n] < |prev| && prev[n] < |next|
    ensures prev[next[n]] == n && next[prev[n]] == n
  {
    var p := PositionOf(order, n);
    var last := |order|;
    Successor(next, prev, order, p);
    Predecessor(next, prev, order, Succ(p, last));
    Predecessor(next, prev, order, p);
    Successor(next, prev, order, Pred(p, last));
  }

  /**
   * Splicing the unlinked node m in front of the node at position p (the four link
   * writes of linkNodeTo) yields the ring whose order has m at position p.
   */
  lemma LinkBefore(next: seq<nat>, prev: seq<nat>, order: seq<nat>, p: nat, m: nat)
    requires IsRing(next, prev, order) && p <= |order|
    requires SENTINEL < m < |next| && m !in order
    ensures At(order, p) < |prev| && prev[At(order, p)] == Before(order, p)
    ensures IsRing(next[m := At(order, p)][Before(order, p) := m],
                   prev[m := Before(order, p)][At(order, p) := m],
                   order[..p] + [m] + order[p..])
  {
    var c, b := At(order, p), Before(order, p);
    var next', prev' := next[m := c][b := m], prev[m := b][c := m];
    var order' := order[..p] + [m] + order[p..];
    assert forall n :: 0 <= n < |next'| ==> next'[n] < |next'| && prev'[n] < |next'|;
    assert forall q :: 0 <= q < |order'| ==> SENTINEL < order'[q] < |next'| by {
      forall q | 0 <= q < |order'|
        ensures SENTINEL < order'[q] < |next'|
      {
        if q < p {
          assert order'[q] == order[q];
        } else if p < q {
          assert order'[q] == order[q - 1];
        }
      }
    }
    InsertAt(order, p, m);
    LinkBeforeLinks(next, prev, order, p, m);
  }

  /** The link clause of LinkBefore: every position of the new order is joined to its neighbour. */
  lemma LinkBeforeLinks(next: seq<nat>, prev: seq<nat>, order: seq<nat>, p: nat, m: nat)
    requires IsRing(next, prev, order) && p <= |order|
    requires SENTINEL < m < |next| && m !in order
    ensures var next', prev' := next[m := At(order, p)][Before(order, p) := m],
                                prev[m := Before(order, p)][At(order, p) := m];
      var order' := order[..p] + [m] + order[p..];
      forall q :: 0 <= q <= |order'| ==>
        next'[Before(order', q)] == At(order', q) && prev'[At(order', q)] == Before(order', q)
  {
    var c, b := At(order, p), Before(order, p);
    var next', prev' := next[m := c][b := m], prev[m := b][c := m];
    var order' := order[..p] + [m] + order[p..];
    assert |order'| == |order| + 1;
    assert forall q :: 0 <= q < p ==> order'[q] == order[q];
    assert order'[p] == m;
    assert forall q :: p < q < |order'| ==> order'[q] == order[q - 1];
    forall q | 0 <= q <= |order'|
      ensures next'[Before(order', q)] == At(order', q)
      ensures prev'[At(order', q)] == Before(order', q)
    {
      if q < p {
        assert Before(order', q) == Before(order, q) && At(order', q) == At(order, q);
        AtInjective(next, prev, order, p, q);
      } else if q == p {
        assert Before(order', q) == b && At(order', q) == m;
      } else if q == p + 1 {
        assert Before(order', q) == m && At(order', q) == c;
      } else {
        assert Before(order', q) == Before(order, q - 1) && At(order', q) == At(order, q - 1);
        AtInjective(next, prev, order, p, q - 1);
      }
    }
  }

  /**
   * Unlinking the payload node at position p (the two link writes of erase) yields the
   * ring whose order no longer has it; its former neighbours now point at each other.
   */
  lemma Unlink(next: seq<nat>, prev: seq<nat>, order: seq<nat>, p: nat)
    requires IsRing(next, prev, order) && p < |order|
    ensures order[p] < |next|
    ensures prev[order[p]] == Before(order, p) && next[order[p]] == At(order, p + 1)
    ensures IsRing(next[Before(order, p) := At(order, p + 1)],
                   prev[At(order, p + 1) := Before(order, p)],
                   order[..p] + order[p + 1..])
  {
    var b, a := Before(order, p), At(order, p + 1);
    assert Before(order, p + 1) == order[p] && At(order, p) == order[p];
    var next', prev' := next[b := a], prev[a := b];
    var order' := order[..p] + order[p + 1..];
    assert forall n :: 0 <= n < |next'| ==> next'[n] < |next'| && prev'[n] < |next'|;
    assert forall q :: 0 <= q < |order'| ==> SENTINEL < order'[q] < |next'| by {
      forall q | 0 <= q < |order'|
        ensures SENTINEL < order'[q] < |next'|
      {
        if q < p {
          assert order'[q] == order[q];
        } else {
          assert order'[q] == order[q + 1];
        }
      }
    }
    RemoveAt(order, p);
    UnlinkLinks(next, prev, order, p);
  }

  /** The link clause of Unlink: every position of the shorter order is joined to its neighbour. */
  lemma UnlinkLinks(next: seq<nat>, prev: seq<nat>, order: seq<nat>, p: nat)
    requires IsRing(next, prev, order) && p < |order|
    ensures var next', prev' := next[Before(order, p) := At(order, p + 1)],
                                prev[At(order, p + 1) := Before(order, p)];
      var order' := order[..p] + order[p + 1..];
      forall q :: 0 <= q <= |order'| ==>
        next'[Before(order', q)] == At(order', q) && prev'[At(order', q)] == Before(order', q)
  {
    var b, a := Before(order, p), At(order, p + 1);
    assert Before(order, p + 1) == order[p] && At(order, p) == order[p];
    var next', prev' := next[b := a], prev[a := b];
    var order' := order[..p] + order[p + 1..];
    assert |order'| == |order| - 1;
    assert forall q :: 0 <= q < p ==> order'[q] == order[q];
    assert forall q :: p <= q < |order'| ==> order'[q] == order[q + 1];
    forall q | 0 <= q <= |order'|
      ensures next'[Before(order', q)] == At(order', q)
      ensures prev'[At(order', q)] == Before(order', q)
    {
      if q < p {
        assert Before(order', q) == Before(order, q) && At(order', q) == At(order, q);
        AtInjective(next, prev, order, p, q);
        AtInjective(next, prev, order, p + 1, q);
      } else if q == p {
        assert Before(order', q) == b && At(order', q) == a;
      } else {
        assert Before(order', q) == Before(order, q + 1) && At(order', q) == At(order, q + 1);
        AtInjective(next, prev, order, p, q + 1);
        AtInjective(next, prev, order, p + 1, q + 1);
      }
    }
  }

  /** Inserting a new node into a duplicate-free order keeps it duplicate-free. */
  lemma InsertAt(order: seq<nat>, p: nat, m: nat)
    requires Distinct(order) && p <= |order| && m !in order
    ensures Distinct(order[..p] + [m] + order[p..])
  {
    var order' := order[..p] + [m] + order[p..];
    DistinctPairwise(order);
    DistinctPairwise(order');
    forall q1, q2 | 0 <= q1 < q2 < |order'|
      ensures order'[q1] != order'[q2]
    {
      var i1 := if q1 < p then q1 else q1 - 1;
      var i2 := if q2 <= p then q2 else q2 - 1;
      if q1 == p {
        assert order'[q2] == order[i2];
      } else if q2 == p {
        assert order'[q1] == order[i1];
      } else {
        assert order'[q1] == order[i1] && order'[q2] == order[i2] && i1 < i2;
      }
    }
  }

  /** Removing position p from a duplicate-free order drops that node and keeps every other. */
  lemma RemoveAt(order: seq<nat>, p: nat)
    requires Distinct(order) && p < |order|
    ensures Distinct(order[..p] + order[p + 1..])
    ensures order[p] !in order[..p] + order[p + 1..]
    ensures forall n :: n in order && n != order[p] ==> n in order[..p] + order[p + 1..]
  {
    var order' := order[..p] + order[p + 1..];
    DistinctPairwise(order);
    DistinctPairwise(order');
    forall q1, q2 | 0 <= q1 < q2 < |order'|
      ensures order'[q1] != order'[q2]
    {
      var i1 := if q1 < p then q1 else q1 + 1;
      var i2 := if q2 < p then q2 else q2 + 1;
      assert order'[q1] == order[i1] && order'[q2] == order[i2] && i1 < i2;
    }
    forall i | 0 <= i < |order'|
      ensures order'[i] != order[p]
    {
      if i < p {
        assert order'[i] == order[i];
      } else {
        assert order'[i] == order[i + 1];
      }
    }
    forall n | n in order && n != order[p]
      ensures n in order'
    {
      var i :| 0 <= i < |order| && order[i] == n;
      assert i < p ==> order'[i] == n;
      assert i > p ==> order'[i - 1] == n;
    }
  }

  /** The node reached by following `next` k times from n. */
  function Walk(next: seq<nat>, n: nat, k: nat): nat
    decreases k
  {
    if k == 0 || |next| <= n then n else Walk(next, next[n], k - 1)
  }

  /** Walking k steps from position p reaches position p + k, as long as it stays before the wrap. */
  lemma {:induction false} WalkAlong(next: seq<nat>, prev: seq<nat>, order: seq<nat>, p: nat, k: nat)
    requires IsRing(next, prev, order) && p + k <= |order|
    ensures Walk(next, At(order, p), k) == At(order, p + k)
    decreases k
  {
    if k > 0 {
      Successor(next, prev, order, p);
      WalkAlong(next, prev, order, p + 1, k - 1);
    }
  }

  /**
   * Walking from begin() (the sentinel's next) visits the payload nodes in order, and
   * reaches end() (the sentinel) after exactly |order| steps and not before.
   */
  lemma WalkFromBegin(next: seq<nat>, prev: seq<nat>, order: seq<nat>, k: nat)
    requires IsRing(next, prev, order) && k <= |order|
    ensures Walk(next, next[SENTINEL], k) == At(order, k)
    ensures Walk(next, next[SENTINEL], k) == SENTINEL <==> k == |order|
  {
    assert next[Before(order, 0)] == At(order, 0);
    WalkAlong(next, prev, order, 0, k);
  }
}
