/**
 * The CRTP base `iterator_facade`: the operators every cursor gets from the four
 * primitives it supplies (dereference, increment, decrement, equal). Here the derived
 * cursor is always LinkedList.ListIterator, so each operator is a method or function over
 * one. An operator returning `Derived&` returns the cursor it was applied to.
 */
module IteratorFacade {
  import Ring
  import opened LinkedList

  /** operator*: the element under the cursor. */
  function Deref<T(==)>(it: ListIterator<T>): (r: T)
    reads it, it.list
    requires it.Valid() && it.node != Ring.SENTINEL
    ensures it.Position() < |it.list.contents| && r == it.list.contents[it.Position()]
  {
    it.Dereference()
  }

  /** Prefix operator++: advance, then return the same cursor. */
  method PreIncrement<T(==)>(it: ListIterator<T>) returns (self: ListIterator<T>)
    requires it.Valid()
    modifies it
    ensures self == it && it.Valid()
    ensures it.Position() == Ring.Succ(old(it.Position()), it.list.size)
  {
    it.Increment();
    self := it;
  }

  /** Postfix operator++: advance, and return a copy made before the step. */
  method PostIncrement<T(==)>(it: ListIterator<T>) returns (tmp: ListIterator<T>)
    requires it.Valid()
    modifies it
    ensures fresh(tmp) && tmp.list == it.list && tmp.node == old(it.node)
    ensures tmp.Valid() && tmp.Position() == old(it.Position())
    ensures it.Valid() && it.Position() == Ring.Succ(old(it.Position()), it.list.size)
  {
    tmp := new ListIterator(it.list, it.node);
    it.Increment();
  }

  /** Prefix operator--: step back, then return the same cursor. */
  method PreDecrement<T(==)>(it: ListIterator<T>) returns (self: ListIterator<T>)
    requires it.Valid()
    modifies it
    ensures self == it && it.Valid()
    ensures it.Position() == Ring.Pred(old(it.Position()), it.list.size)
  {
    it.Decrement();
    self := it;
  }

  /** Postfix operator--: step back, and return a copy made before the step. */
  method PostDecrement<T(==)>(it: ListIterator<T>) returns (tmp: ListIterator<T>)
    requires it.Valid()
    modifies it
    ensures fresh(tmp) && tmp.list == it.list && tmp.node == old(it.node)
    ensures tmp.Valid() && tmp.Position() == old(it.Position())
    ensures it.Valid() && it.Position() == Ring.Pred(old(it.Position()), it.list.size)
  {
    tmp := new ListIterator(it.list, it.node);
    it.Decrement();
  }

  /**
   * The place reached from place p of a ring with places 0..last by j single steps,
   * forward when j is positive and back when it is negative.
   */
  ghost function Advance(p: nat, j: int, last: nat): (r: nat)
    requires p <= last
    ensures r <= last
    decreases if j >= 0 then j else -j
  {
    if j > 0 then Ring.Succ(Advance(p, j - 1, last), last)
    else if j < 0 then Ring.Pred(Advance(p, j + 1, last), last)
    else p
  }

  /** j single steps round a ring of last + 1 places amount to adding j modulo last + 1. */
  lemma {:induction false} AdvanceIsMod(p: nat, j: int, last: nat)
    requires p <= last
    ensures Advance(p, j, last) == (p + j) % (last + 1)
    decreases if j >= 0 then j else -j
  {
    if j > 0 {
      AdvanceIsMod(p, j - 1, last);
      ModStep(p + j - 1, last + 1);
    } else if j < 0 {
      AdvanceIsMod(p, j + 1, last);
      ModStep(p + j, last + 1);
    } else {
      ModUnique(p, last + 1, 0, p);
    }
  }

  /**
   * operator+=: std::advance on a bidirectional cursor, n single steps forward or -n
   * single steps back. Since the ring of a list with `size` elements has size + 1 cursor
   * places, the cursor ends up n places further round, modulo size + 1.
   */
  method AddAssign<T(==)>(it: ListIterator<T>, n: int) returns (self: ListIterator<T>)
    requires it.Valid()
    modifies it
    ensures self == it && it.Valid()
    ensures it.Position() == Advance(old(it.Position()), n, it.list.size)
    ensures it.Position() == (old(it.Position()) + n) % (it.list.size + 1)
  {
    ghost var p0 := it.Position();
    var k := n;
    while k > 0
      invariant it.Valid() && (if n > 0 then 0 <= k <= n else k == n)
      invariant it.Position() == Advance(p0, n - k, it.list.size)
      decreases k
    {
      it.Increment();
      k := k - 1;
    }
    while k < 0
      invariant it.Valid() && (if n > 0 then k == 0 else n <= k <= 0)
      invariant it.Position() == Advance(p0, n - k, it.list.size)
      decreases -k
    {
      it.Decrement();
      k := k + 1;
    }
    AdvanceIsMod(p0, n, it.list.size);
    self := it;
  }

  /** operator-=: advance by -n. */
  method SubAssign<T(==)>(it: ListIterator<T>, n: int) returns (self: ListIterator<T>)
    requires it.Valid()
    modifies it
    ensures self == it && it.Valid()
    ensures it.Position() == (old(it.Position()) - n) % (it.list.size + 1)
  {
    self := AddAssign(it, -n);
  }

  /**
   * operator==: the derived cursor's equal(). On well-formed cursors this holds exactly
   * when both are in the same list at the same place.
   */
  predicate Eq<T(==)>(lhs: ListIterator<T>, rhs: ListIterator<T>): (r: bool)
    reads lhs, rhs, lhs.list, rhs.list
    ensures lhs.Valid() && rhs.Valid() ==>
      (r <==> lhs.list == rhs.list && lhs.Position() == rhs.Position())
  {
    lhs.Equal(rhs)
  }

  /** operator!=: the negation of operator==. */
  predicate Ne<T(==)>(lhs: ListIterator<T>, rhs: ListIterator<T>): (r: bool)
    reads lhs, rhs, lhs.list, rhs.list
    ensures lhs.Valid() && rhs.Valid() ==>
      (r <==> lhs.list != rhs.list || lhs.Position() != rhs.Position())
  {
    !Eq(lhs, rhs)
  }

  /** -= n undoes += n on any cursor place of a ring with m places. */
  lemma AddSubRoundTrip(p: nat, n: int, m: nat)
    requires p < m
    ensures ((p + n) % m - n) % m == p
  {
    ModShift(p + n, m, -n);
    assert (p + n) - n == p;
    ModUnique(p, m, 0, p);
  }

  /** One step forward or back on x modulo m is Succ or Pred on the remainder. */
  lemma ModStep(x: int, m: nat)
    requires m > 0
    ensures (x + 1) % m == Ring.Succ(x % m, m - 1)
    ensures x % m == Ring.Pred((x + 1) % m, m - 1)
  {
    var q, r := x / m, x % m;
    assert x == q * m + r;
    if r + 1 < m {
      assert x + 1 == q * m + (r + 1);
      ModUnique(x + 1, m, q, r + 1);
    } else {
      assert x + 1 == (q + 1) * m + 0;
      ModUnique(x + 1, m, q + 1, 0);
    }
  }

  /** Adding d before or after taking the remainder gives the same remainder. */
  lemma ModShift(x: int, m: nat, d: int)
    requires m > 0
    ensures (x % m + d) % m == (x + d) % m
  {
    var q, r := x / m, x % m;
    var q', r' := (r + d) / m, (r + d) % m;
    assert r + d == q' * m + r';
    assert x + d == (q + q') * m + r' by {
      assert x == q * m + r;
      assert (q + q') * m == q * m + q' * m;
    }
    ModUnique(x + d, m, q + q', r');
  }

  /** The remainder of Euclidean division is the one r in 0..m-1 with y == q*m + r. */
  lemma ModUnique(y: int, m: nat, q: int, r: int)
    requires m > 0 && 0 <= r < m && y == q * m + r
    ensures y % m == r
  {
    var q0, r0 := y / m, y % m;
    assert y == q0 * m + r0;
    assert (q - q0) * m == r0 - r by {
      assert q * m - q0 * m == (q - q0) * m;
    }
    if q > q0 {
      MulAtLeast(q - q0, m);
    } else if q < q0 {
      MulAtLeast(q0 - q, m);
    }
  }

  /** A positive multiple of m is at least m. */
  lemma {:induction false} MulAtLeast(d: int, m: nat)
    requires d >= 1
    ensures d * m >= m
    decreases d
  {
    if d > 1 {
      MulAtLeast(d - 1, m);
      assert d * m == (d - 1) * m + m;
    }
  }
}
