/**
 * The container `exp::list<T>`: a circular doubly-linked list threaded through one
 * sentinel node, with a running element count, and its bidirectional cursor.
 *
 * Heap nodes become slots of an arena. `next[n]` and `prev[n]` are the link fields of
 * node n, slot Ring.SENTINEL is the member `begin_`, and `value` maps every live payload
 * node to its element. Allocating a node appends a slot; deleting one removes its
 * element from `value` and leaves the slot unlinked, so no index is ever reused.
 */
module LinkedList {
  import Ring

  /** Node order[p] holds element contents[p]. */
  ghost predicate Holds<T>(order: seq<nat>, contents: seq<T>, value: map<nat, T>) {
    |order| == |contents|
    && forall p :: 0 <= p < |order| ==> order[p] in value && value[order[p]] == contents[p]
  }

  /** Only linked nodes hold an element. */
  ghost predicate OnlyLinked<T>(value: map<nat, T>, order: seq<nat>) {
    forall n :: n in value ==> n in order
  }

  /** Splicing node m, holding v, in at position p keeps the payload in step with the order. */
  lemma HoldsInsert<T>(order: seq<nat>, contents: seq<T>, value: map<nat, T>, p: nat, m: nat)
    requires Holds(order, contents, value - {m}) && p <= |order| && m in value && m !in order
    ensures Holds(order[..p] + [m] + order[p..], contents[..p] + [value[m]] + contents[p..], value)
    ensures OnlyLinked(value - {m}, order) ==> OnlyLinked(value, order[..p] + [m] + order[p..])
  {
    var order', contents' := order[..p] + [m] + order[p..], contents[..p] + [value[m]] + contents[p..];
    forall q | 0 <= q < |order'|
      ensures order'[q] in value && value[order'[q]] == contents'[q]
    {
      if q < p {
        assert order'[q] == order[q] && contents'[q] == contents[q];
      } else if p < q {
        assert order'[q] == order[q - 1] && contents'[q] == contents[q - 1];
      }
    }
    if OnlyLinked(value - {m}, order) {
      forall n | n in value
        ensures n in order'
      {
        if n != m {
          assert n in value - {m};
          var i :| 0 <= i < |order| && order[i] == n;
          if i < p {
            assert order'[i] == n;
          } else {
            assert order'[i + 1] == n;
          }
        } else {
          assert order'[p] == n;
        }
      }
    }
  }

  /** Removing the node at position p, and its element, keeps the payload in step with the order. */
  lemma HoldsRemove<T>(order: seq<nat>, contents: seq<T>, value: map<nat, T>, p: nat)
    requires Holds(order, contents, value) && OnlyLinked(value, order) && Ring.Distinct(order)
    requires p < |order|
    ensures Holds(order[..p] + order[p + 1..], contents[..p] + contents[p + 1..], value - {order[p]})
    ensures OnlyLinked(value - {order[p]}, order[..p] + order[p + 1..])
  {
    var order', contents' := order[..p] + order[p + 1..], contents[..p] + contents[p + 1..];
    var value' := value - {order[p]};
    Ring.DistinctPairwise(order);
    forall q | 0 <= q < |order'|
      ensures order'[q] in value' && value'[order'[q]] == contents'[q]
    {
      if q < p {
        assert order'[q] == order[q] && contents'[q] == contents[q];
      } else {
        assert order'[q] == order[q + 1] && contents'[q] == contents[q + 1];
      }
    }
    forall n | n in value'
      ensures n in order'
    {
      var i :| 0 <= i < |order| && order[i] == n;
      if i < p {
        assert order'[i] == n;
      } else {
        assert order'[i - 1] == n;
      }
    }
  }

  /** A slice grows by one element at its end. */
  lemma SliceExtend<T>(s: seq<T>, a: nat, k: nat)
    requires a <= k < |s|
    ensures s[a..k + 1] == s[a..k] + [s[k]]
  {
  }

  /** Splicing x in at position 0 puts it in front. */
  lemma SpliceAtFront<T>(s: seq<T>, x: T)
    ensures s[..0] + [x] + s[0..] == [x] + s
  {
    assert s[..0] == [] && s[0..] == s;
  }

  /** Splicing x in at position |s| appends it. */
  lemma SpliceAtBack<T>(s: seq<T>, x: T)
    ensures s[..|s|] + [x] + s[|s|..] == s + [x]
  {
    assert s[..|s|] == s && s[|s|..] == [];
  }

  /** Appending the next element of a slice extends the slice. */
  lemma AppendStep<T>(c: seq<T>, s: seq<T>, a: nat, k: nat)
    requires a <= k < |s|
    ensures c + s[a..k] + [s[k]] == c + s[a..k + 1]
  {
    assert s[a..k + 1] == s[a..k] + [s[k]];
  }

  class List<T(==)> {
    var next: seq<nat>
    var prev: seq<nat>
    var value: map<nat, T>
    var size: nat

    /** The payload nodes in traversal order from begin(). */
    ghost var order: seq<nat>
    /** The elements in traversal order: the list as a sequence. */
    ghost var contents: seq<T>

    /** The element count and the payload of the linked nodes agree with `contents`. */
    ghost predicate Stores()
      reads this
    {
      size == |order| && Holds(order, contents, value)
    }

    ghost predicate Valid()
      reads this
    {
      Ring.IsRing(next, prev, order) && Stores() && OnlyLinked(value, order)
    }

    /** Node m has been allocated with its element but is not yet linked. */
    ghost predicate Detached(m: nat)
      reads this
    {
      Ring.IsRing(next, prev, order) && Stores()
      && Ring.SENTINEL < m < |next| && m !in order && m in value
      && OnlyLinked(value - {m}, order)
    }

    /** The nodes a cursor of this list may refer to: the sentinel and the linked payload nodes. */
    ghost predicate InRing(n: nat)
      reads this
    {
      n == Ring.SENTINEL || n in order
    }

    /** list(): an empty list, whose sentinel is linked to itself. */
    constructor ()
      ensures Valid() && contents == [] && size == 0
      ensures next[Ring.SENTINEL] == Ring.SENTINEL && prev[Ring.SENTINEL] == Ring.SENTINEL
    {
      next, prev := [Ring.SENTINEL], [Ring.SENTINEL];
      value, size := map[], 0;
      order, contents := [], [];
    }

    /**
     * list(n): appends n default-constructed elements. `throws(i)` says whether the
     * construction of the i-th element fails; on a failure the elements already appended
     * are popped again and the failure is caught, not passed on.
     */
    constructor WithCount(n: nat, default: T, throws: nat -> bool)
      ensures Valid()
      ensures (forall i :: 0 <= i < n ==> !throws(i)) ==>
                |contents| == n && forall i :: 0 <= i < n ==> contents[i] == default
      ensures (exists i :: 0 <= i < n && throws(i)) ==> contents == []
    {
      next, prev := [Ring.SENTINEL], [Ring.SENTINEL];
      value, size := map[], 0;
      order, contents := [], [];
      new;
      var idx := 0;
      var failed := false;
      while idx < n && !failed
        decreases n - idx, if failed then 0 else 1
        invariant Valid() && idx <= n && |contents| == idx
        invariant forall i :: 0 <= i < idx ==> contents[i] == default && !throws(i)
        invariant failed ==> idx < n && throws(idx)
      {
        if throws(idx) {
          failed := true;
        } else {
          PushBack(default);
          idx := idx + 1;
        }
      }
      if failed {
        while idx > 0
          invariant Valid() && |contents| == idx
        {
          PopBack();
          idx := idx - 1;
        }
      }
    }

    /**
     * list{a, b, ...}: appends the listed elements in order. `throws(i)` says whether the
     * copy of the i-th element fails; on a failure the elements already appended are
     * popped again and the failure is caught, not passed on.
     */
    constructor FromElements(init: seq<T>, throws: nat -> bool)
      ensures Valid()
      ensures (forall i :: 0 <= i < |init| ==> !throws(i)) ==> contents == init
      ensures (exists i :: 0 <= i < |init| && throws(i)) ==> contents == []
    {
      next, prev := [Ring.SENTINEL], [Ring.SENTINEL];
      value, size := map[], 0;
      order, contents := [], [];
      new;
      var idx := 0;
      var failed := false;
      while idx < |init| && !failed
        decreases |init| - idx, if failed then 0 else 1
        invariant Valid() && idx <= |init| && contents == init[..idx]
        invariant forall i :: 0 <= i < idx ==> !throws(i)
        invariant failed ==> idx < |init| && throws(idx)
      {
        if throws(idx) {
          failed := true;
        } else {
          PushBack(init[idx]);
          idx := idx + 1;
        }
      }
      if failed {
        while idx > 0
          invariant Valid() && |contents| == idx
        {
          PopBack();
          idx := idx - 1;
        }
      }
    }

    /** list(begin, end): appends the elements from `first` up to, not including, `last`. */
    constructor FromRange(first: ListIterator<T>, last: ListIterator<T>)
      requires first.Valid() && last.Valid() && first.list == last.list
      requires first.Position() <= last.Position()
      ensures Valid()
      ensures contents == first.list.contents[first.Position()..last.Position()]
    {
      next, prev := [Ring.SENTINEL], [Ring.SENTINEL];
      value, size := map[], 0;
      order, contents := [], [];
      new;
      AppendRange(first, last);
    }

    /** list(const list&): the range constructor over other.begin() and other.end(). */
    constructor Copy(other: List<T>)
      requires other.Valid()
      ensures Valid() && contents == other.contents
    {
      next, prev := [Ring.SENTINEL], [Ring.SENTINEL];
      value, size := map[], 0;
      order, contents := [], [];
      new;
      var first := other.Begin();
      var last := other.End();
      AppendRange(first, last);
    }

    /** The loop of the range constructor: push_back(*begin) until begin == end. */
    method AppendRange(first: ListIterator<T>, last: ListIterator<T>)
      requires Valid() && first.Valid() && last.Valid() && first.list == last.list
      requires first.list != this
      requires first.Position() <= last.Position()
      modifies this
      ensures Valid()
      ensures contents == old(contents) + first.list.contents[first.Position()..last.Position()]
    {
      var src := first.list;
      ghost var a, b, from := first.Position(), last.Position(), src.contents;
      ghost var sn, sp, so := src.next, src.prev, src.order;
      ghost var k := a;
      assert Ring.IsRing(sn, sp, so) && src.Stores();
      // `begin` is advanced as list_iterator::increment does, by following `next`
      var n := first.node;
      while n != last.node
        invariant Valid() && a <= k <= b && n == Ring.At(so, k)
        invariant contents == old(contents) + from[a..k]
        decreases b - k
      {
        Ring.AtInjective(sn, sp, so, k, b);
        PushBack(src.value[n]);
        AppendStep(old(contents), from, a, k);
        Ring.Successor(sn, sp, so, k);
        n := src.next[n];
        k := k + 1;
      }
      Ring.AtInjective(sn, sp, so, k, b);
    }

    /** begin(): a cursor to the first element, or to the sentinel when the list is empty. */
    method Begin() returns (it: ListIterator<T>)
      requires Valid()
      ensures fresh(it) && it.list == this && it.node == next[Ring.SENTINEL]
      ensures it.Valid() && it.Position() == 0
    {
      Ring.Successor(next, prev, order, |order|);
      Ring.PositionOfAt(next, prev, order, 0);
      it := new ListIterator(this, next[Ring.SENTINEL]);
    }

    /** end(): a cursor to the sentinel, one past the last element. */
    method End() returns (it: ListIterator<T>)
      requires Valid()
      ensures fresh(it) && it.list == this && it.node == Ring.SENTINEL
      ensures it.Valid() && it.Position() == size
    {
      Ring.PositionOfAt(next, prev, order, |order|);
      it := new ListIterator(this, Ring.SENTINEL);
    }

    /** size(): the maintained count equals the number of elements. */
    function Size(): (n: nat)
      reads this
      requires Valid()
      ensures n == |contents|
    {
      size
    }

    /** The count also equals the number of `next` steps from begin() to end(). */
    lemma SizeIsWalkLength(k: nat)
      requires Valid() && k <= Size()
      ensures Ring.Walk(next, next[Ring.SENTINEL], k) == Ring.SENTINEL <==> k == Size()
    {
      Ring.WalkFromBegin(next, prev, order, k);
    }

    /**
     * insert(pos, v): a new node holding v is spliced in front of the node `pos` refers
     * to; the result refers to the new node and `pos` now sits one place further on.
     */
    method Insert(pos: ListIterator<T>, v: T) returns (it: ListIterator<T>)
      requires Valid() && pos.list == this && pos.Valid()
      modifies this
      ensures Valid() && size == old(size) + 1
      ensures contents == old(contents[..pos.Position()]) + [v] + old(contents[pos.Position()..])
      ensures fresh(it) && it.list == this && it.Valid() && it.Position() == old(pos.Position())
      ensures pos.Valid() && pos.Position() == old(pos.Position()) + 1
      ensures forall n :: old(InRing(n)) ==> InRing(n)
      ensures it.node !in old(value) && value == old(value)[it.node := v]
      ensures order == old(order[..pos.Position()]) + [it.node] + old(order[pos.Position()..])
    {
      // new Node(val): a fresh arena slot holding v; its links are written by linkNodeTo
      var m := |next|;
      next, prev := next + [Ring.SENTINEL], prev + [Ring.SENTINEL];
      value := value[m := v];
      it := InsertNodeImpl(pos, m);
    }

    /** insertNodeImpl: links the detached node m in front of `pos` and counts it. */
    method InsertNodeImpl(pos: ListIterator<T>, m: nat) returns (it: ListIterator<T>)
      requires Detached(m) && pos.list == this && InRing(pos.node)
      modifies this
      ensures Valid() && size == old(size) + 1 && value == old(value)
      ensures fresh(it) && it.list == this && it.node == m && it.Valid() && pos.Valid()
      ensures var p := Ring.PositionOf(old(order), pos.node);
        contents == old(contents[..p]) + [value[m]] + old(contents[p..])
        && it.Position() == p && pos.Position() == p + 1
        && order == old(order[..p]) + [m] + old(order[p..])
      ensures forall n :: old(InRing(n)) ==> InRing(n)
    {
      ghost var p := Ring.PositionOf(order, pos.node);
      HoldsInsert(order, contents, value, p, m);
      LinkNodeTo(m, pos.node);
      size := size + 1;
      contents := contents[..p] + [value[m]] + contents[p..];
      assert Ring.At(order, p) == m && Ring.At(order, p + 1) == pos.node;
      Ring.PositionOfAt(next, prev, order, p);
      Ring.PositionOfAt(next, prev, order, p + 1);
      it := new ListIterator(this, m);
    }

    /**
     * linkNodeTo: the four link writes that splice node m in front of node `curr`.
     * The source tests the old predecessor for null; on a linked ring it never is.
     */
    method LinkNodeTo(m: nat, curr: nat)
      requires Ring.IsRing(next, prev, order) && InRing(curr)
      requires Ring.SENTINEL < m < |next| && m !in order
      modifies this
      ensures Ring.IsRing(next, prev, order) && |next| == old(|next|)
      ensures var p := Ring.PositionOf(old(order), curr);
        order == old(order[..p]) + [m] + old(order[p..])
      ensures next[m] == curr && prev[m] == old(prev[curr])
      ensures prev[curr] == m && next[old(prev[curr])] == m
      ensures value == old(value) && size == old(size) && contents == old(contents)
    {
      ghost var p := Ring.PositionOf(order, curr);
      Ring.LinkBefore(next, prev, order, p, m);
      var pv := prev[curr];
      next := next[m := curr];
      prev := prev[m := pv];
      prev := prev[curr := m];
      next := next[pv := m];
      order := order[..p] + [m] + order[p..];
    }

    /** push_back(v): insert(end(), v). */
    method PushBack(v: T)
      requires Valid()
      modifies this
      ensures Valid() && size == old(size) + 1
      ensures contents == old(contents) + [v]
      ensures |order| == old(|order|) + 1 && order[..|order| - 1] == old(order)
      ensures forall n :: old(InRing(n)) ==> InRing(n)
      ensures forall n :: n in old(value) ==> n in value && value[n] == old(value[n])
    {
      ghost var o, c := order, contents;
      var e := End();
      var it := Insert(e, v);
      SpliceAtBack(o, it.node);
      SpliceAtBack(c, v);
    }

    /** push_front(v): insert(begin(), v). */
    method PushFront(v: T)
      requires Valid()
      modifies this
      ensures Valid() && size == old(size) + 1
      ensures contents == [v] + old(contents)
      ensures |order| == old(|order|) + 1 && order[1..] == old(order)
      ensures forall n :: old(InRing(n)) ==> InRing(n)
      ensures forall n :: n in old(value) ==> n in value && value[n] == old(value[n])
    {
      ghost var o, c := order, contents;
      var b := Begin();
      var it := Insert(b, v);
      SpliceAtFront(o, it.node);
      SpliceAtFront(c, v);
    }

    /**
     * erase(pos): unlinks and deletes the node `pos` refers to, which must not be end().
     * Its former neighbours are linked to each other; every other cursor stays valid.
     */
    method Erase(pos: ListIterator<T>)
      requires Valid() && pos.list == this && pos.Valid() && pos.node != Ring.SENTINEL
      modifies this
      ensures Valid() && size == old(size) - 1 && |next| == old(|next|)
      ensures old(pos.Position()) < old(size)
      ensures contents == old(contents[..pos.Position()] + contents[pos.Position() + 1..])
      ensures next[old(prev[pos.node])] == old(next[pos.node])
      ensures prev[old(next[pos.node])] == old(prev[pos.node])
      ensures !InRing(pos.node)
      ensures forall n :: old(InRing(n)) && n != pos.node ==> InRing(n)
      ensures value == old(value) - {pos.node}
      ensures order == old(order[..pos.Position()] + order[pos.Position() + 1..])
    {
      var curr := pos.node;
      ghost var p := pos.Position();
      Ring.Unlink(next, prev, order, p);
      Ring.RemoveAt(order, p);
      HoldsRemove(order, contents, value, p);
      var pv, nx := prev[curr], next[curr];
      // the source tests both neighbours for null; on a linked ring they never are
      next := next[pv := nx];
      prev := prev[nx := pv];
      size := size - 1;
      value := value - {curr};  // delete the node
      order := order[..p] + order[p + 1..];
      contents := contents[..p] + contents[p + 1..];
    }

    /** pop_back(): erase(std::prev(end())), on a non-empty list. */
    method PopBack()
      requires Valid() && size > 0
      modifies this
      ensures Valid() && size == old(size) - 1
      ensures contents == old(contents[..|contents| - 1])
      ensures order == old(order[..|order| - 1])
      ensures value == old(value) - {old(prev[Ring.SENTINEL])}
      ensures forall n :: old(InRing(n)) && n != old(prev[Ring.SENTINEL]) ==> InRing(n)
    {
      var last := End();
      last.Decrement();
      Erase(last);
    }

    /** pop_front(): erase(begin()), on a non-empty list. */
    method PopFront()
      requires Valid() && size > 0
      modifies this
      ensures Valid() && size == old(size) - 1
      ensures contents == old(contents[1..])
      ensures order == old(order[1..])
      ensures value == old(value) - {old(next[Ring.SENTINEL])}
      ensures forall n :: old(InRing(n)) && n != old(next[Ring.SENTINEL]) ==> InRing(n)
    {
      var first := Begin();
      Erase(first);
    }

    /**
     * operator== as written: std::equal(rhs.begin(), rhs.end(), lhs.begin()), where the
     * parameter named rhs is the left operand, here `this`. It walks the left list only,
     * so it compares the left list with the prefix of the right one of the same length.
     * It dereferences the right list's sentinel only when the right list is a proper
     * prefix of the left one; that case is undefined behaviour and is excluded.
     */
    method EqualAsWritten(other: List<T>) returns (b: bool)
      requires Valid() && other.Valid()
      requires size <= other.size || contents[..other.size] != other.contents
      ensures b <==> size <= other.size && contents == other.contents[..size]
    {
      ghost var left, right := contents, other.contents;
      ghost var o1, o2 := order, other.order;
      // the two cursors advance as list_iterator::increment does, by following `next`
      ghost var k := 0;
      var n1, n2 := next[Ring.SENTINEL], other.next[Ring.SENTINEL];
      Ring.Successor(next, prev, o1, size);
      Ring.Successor(other.next, other.prev, o2, other.size);
      assert right[..|o2|] == right;
      while n1 != Ring.SENTINEL
        invariant k <= |o1| && k <= |o2| && n1 == Ring.At(o1, k) && n2 == Ring.At(o2, k)
        invariant left[..k] == right[..k]
        invariant k == |o2| ==> k == |o1|  // the right list never runs out first
        decreases |o1| - k
      {
        if value[n1] != other.value[n2] {
          assert left[k] != right[k];
          return false;
        }
        SliceExtend(left, 0, k);
        SliceExtend(right, 0, k);
        Ring.Successor(next, prev, o1, k);
        Ring.Successor(other.next, other.prev, o2, k);
        n1, n2 := next[n1], other.next[n2];
        k := k + 1;
      }
      assert left[..|left|] == left;
      return true;
    }

    /** operator!= as written: the negation of operator== as written. */
    method NotEqualsAsWritten(other: List<T>) returns (b: bool)
      requires Valid() && other.Valid()
      requires size <= other.size || contents[..other.size] != other.contents
      ensures b <==> !(size <= other.size && contents == other.contents[..size])
    {
      var eq := EqualAsWritten(other);
      b := !eq;
    }

    /** operator==, with the length check that the as-written comparison lacks. */
    method Equals(other: List<T>) returns (b: bool)
      requires Valid() && other.Valid()
      ensures b <==> contents == other.contents
    {
      if size != other.size {
        return false;
      }
      b := EqualAsWritten(other);
      assert other.contents[..size] == other.contents;
    }

    /** operator!=, corrected: the negation of the corrected operator==. */
    method NotEquals(other: List<T>) returns (b: bool)
      requires Valid() && other.Valid()
      ensures b <==> contents != other.contents
    {
      var eq := Equals(other);
      b := !eq;
    }
  }

  /**
   * list_iterator: a cursor is a node of one list. It supplies the four primitives the
   * iterator facade builds on: dereference, increment, decrement and equal.
   */
  class ListIterator<T(==)> {
    const list: List<T>
    var node: nat

    constructor (list: List<T>, node: nat)
      ensures this.list == list && this.node == node
    {
      this.list := list;
      this.node := node;
    }

    /** The cursor refers to the sentinel or to a linked node of a well-formed list. */
    ghost predicate Valid()
      reads this, list
    {
      list.Valid() && list.InRing(node)
    }

    /** The cursor's place in the list: 0 is begin(), list.size is end(). */
    ghost function Position(): (p: nat)
      reads this, list
      requires Valid()
      ensures p <= list.size && Ring.At(list.order, p) == node && node < |list.next|
      ensures p == list.size <==> node == Ring.SENTINEL
    {
      Ring.PositionOf(list.order, node)
    }

    /** dereference(): the element at the cursor, which must not be end(). */
    function Dereference(): (r: T)
      reads this, list
      requires Valid() && node != Ring.SENTINEL
      ensures Position() < |list.contents| && r == list.contents[Position()]
    {
      list.value[node]
    }

    /** increment(): follow `next`; from end() this wraps around to begin(). */
    method Increment()
      requires Valid()
      modifies this
      ensures Valid() && node == old(list.next[node])
      ensures Position() == Ring.Succ(old(Position()), list.size)
    {
      ghost var p := Position();
      Ring.Successor(list.next, list.prev, list.order, p);
      Ring.PositionOfAt(list.next, list.prev, list.order, Ring.Succ(p, list.size));
      node := list.next[node];
    }

    /** decrement(): follow `prev`; from begin() this reaches end(). */
    method Decrement()
      requires Valid()
      modifies this
      ensures Valid() && node == old(list.prev[node])
      ensures Position() == Ring.Pred(old(Position()), list.size)
    {
      ghost var p := Position();
      Ring.Predecessor(list.next, list.prev, list.order, p);
      Ring.PositionOfAt(list.next, list.prev, list.order, Ring.Pred(p, list.size));
      node := list.prev[node];
    }

    /**
     * equal(rhs): both cursors refer to the same node. A node belongs to one list only,
     * so in the arena model that is the same list and the same slot.
     */
    predicate Equal(rhs: ListIterator<T>): (r: bool)
      reads this, rhs, list, rhs.list
      ensures Valid() && rhs.Valid() ==> (r <==> list == rhs.list && Position() == rhs.Position())
    {
      list == rhs.list && node == rhs.node
    }
  }
}
