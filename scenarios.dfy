/**
 * The behaviours the repository's unit tests exercise, stated as methods whose contracts
 * give the outcome each test expects, plus the input that separates operator== as
 * written from the corrected comparison.
 */
module ListScenarios {
  import Ring
  import opened LinkedList
  import IteratorFacade

  /** No element construction fails. */
  function NeverThrows(i: nat): (b: bool)
    ensures !b
  {
    false
  }

  /** Constructing the fourth element, and any after it, fails. */
  function FourthThrows(i: nat): (b: bool)
    ensures b <==> 3 <= i
  {
    3 <= i
  }

  /** *begin() on a non-empty list: its first element. */
  method Front(list: List<int>) returns (x: int)
    requires list.Valid() && list.size > 0
    ensures x == list.contents[0]
  {
    var b := list.Begin();
    x := IteratorFacade.Deref(b);
  }

  /** *std::prev(end()) on a non-empty list: its last element. */
  method Back(list: List<int>) returns (x: int)
    requires list.Valid() && list.size > 0
    ensures x == list.contents[list.size - 1]
  {
    var e := list.End();
    var self := IteratorFacade.PreDecrement(e);
    x := IteratorFacade.Deref(e);
  }

  /** insert(begin(), 42) on an empty list: one element, and begin() is no longer end(). */
  method InsertIntoEmpty() returns (front: int, size: nat, beginIsEnd: bool)
    ensures front == 42 && size == 1 && !beginIsEnd
  {
    var list := new List<int>();
    var b := list.Begin();
    var inserted := list.Insert(b, 42);
    b := list.Begin();
    var e := list.End();
    front := IteratorFacade.Deref(b);
    size := list.Size();
    beginIsEnd := IteratorFacade.Eq(b, e);
  }

  /** push_back(1), push_back(2) keeps 1 in front; push_front(1), push_front(2) puts 2 there. */
  method PushBothEnds() returns (byBack: int, byFront: int)
    ensures byBack == 1 && byFront == 2
  {
    var l1 := new List<int>();
    l1.PushBack(1);
    l1.PushBack(2);
    var l2 := new List<int>();
    l2.PushFront(1);
    l2.PushFront(2);
    var b1 := l1.Begin();
    var b2 := l2.Begin();
    byBack, byFront := IteratorFacade.Deref(b1), IteratorFacade.Deref(b2);
  }

  /** From begin() of {1,2,3,4}: ++ three times reads 2, 3, 4, then -- twice reads 3, 2. */
  method StepForwardAndBack() returns (seen: seq<int>)
    ensures seen == [2, 3, 4, 3, 2]
  {
    var list := new List.FromElements([1, 2, 3, 4], NeverThrows);
    var it := list.Begin();
    var self := IteratorFacade.PreIncrement(it);
    assert it.Position() == 1;
    var x1 := IteratorFacade.Deref(it);
    self := IteratorFacade.PreIncrement(it);
    assert it.Position() == 2;
    var x2 := IteratorFacade.Deref(it);
    self := IteratorFacade.PreIncrement(it);
    assert it.Position() == 3;
    var x3 := IteratorFacade.Deref(it);
    self := IteratorFacade.PreDecrement(it);
    assert it.Position() == 2;
    var x4 := IteratorFacade.Deref(it);
    self := IteratorFacade.PreDecrement(it);
    assert it.Position() == 1;
    var x5 := IteratorFacade.Deref(it);
    seen := [x1, x2, x3, x4, x5];
  }

  /** begin() += 3 reads 4; then -= 1 reads 3 and -= 2 reads 1. */
  method AdvanceAndRetreat() returns (a: int, b: int, c: int)
    ensures a == 4 && b == 3 && c == 1
  {
    var list := new List.FromElements([1, 2, 3, 4], NeverThrows);
    var it := list.Begin();
    a := Shift(it, 3);
    b := Retreat(it, 1);
    c := Retreat(it, 2);
  }

  /** *(it += n), for a move that stays between begin() and the last element. */
  method Shift(it: ListIterator<int>, n: int) returns (x: int)
    requires it.Valid() && 0 <= it.Position() + n < it.list.size
    modifies it
    ensures it.Valid() && it.Position() == old(it.Position()) + n
    ensures x == it.list.contents[it.Position()]
  {
    ghost var p := it.Position();
    var self := IteratorFacade.AddAssign(it, n);
    IteratorFacade.ModUnique(p + n, it.list.size + 1, 0, p + n);
    x := IteratorFacade.Deref(it);
  }

  /** *(it -= n), for a move that stays between begin() and the last element. */
  method Retreat(it: ListIterator<int>, n: int) returns (x: int)
    requires it.Valid() && 0 <= it.Position() - n < it.list.size
    modifies it
    ensures it.Valid() && it.Position() == old(it.Position()) - n
    ensures x == it.list.contents[it.Position()]
  {
    ghost var p := it.Position();
    var self := IteratorFacade.SubAssign(it, n);
    IteratorFacade.ModUnique(p - n, it.list.size + 1, 0, p - n);
    x := IteratorFacade.Deref(it);
  }

  /** The ring has no ends: begin() -= 1 is end(), and end() += 1 is begin() again. */
  method WrapAround() returns (toEnd: bool, toBegin: bool)
    ensures toEnd && toBegin
  {
    var list := new List.FromElements([1, 2, 3, 4], NeverThrows);
    var it := list.Begin();
    assert it.list.size + 1 == 5;
    var self := IteratorFacade.SubAssign(it, 1);
    assert it.Position() == 4;
    var e := list.End();
    toEnd := IteratorFacade.Eq(it, e);
    self := IteratorFacade.AddAssign(it, 1);
    assert it.Position() == 0;
    var b := list.Begin();
    toBegin := IteratorFacade.Eq(it, b);
  }

  /** list(3) holds three default elements. */
  method CountConstructor() returns (size: nat, front: int)
    ensures size == 3 && front == 0
  {
    var list := new List.WithCount(3, 0, NeverThrows);
    size := list.Size();
    var b := list.Begin();
    front := IteratorFacade.Deref(b);
  }

  /** When the fourth of five constructions throws, the count constructor unwinds to empty. */
  method CountConstructorUnwinds() returns (size: nat)
    ensures size == 0
  {
    var list := new List.WithCount(5, 0, FourthThrows);
    assert FourthThrows(3);
    size := list.Size();
  }

  /** Three erase(begin()) calls on {1,2,3,4} bring 2, 3 and then 4 to the front. */
  method EraseFront() returns (fronts: seq<int>, size: nat)
    ensures fronts == [2, 3, 4] && size == 1
  {
    var list := new List.FromElements([1, 2, 3, 4], NeverThrows);
    var x := EraseBegin(list);
    var y := EraseBegin(list);
    var z := EraseBegin(list);
    fronts := [x, y, z];
    size := list.Size();
  }

  /** erase(begin()) on a list of at least two elements, then *begin(). */
  method EraseBegin(list: List<int>) returns (front: int)
    requires list.Valid() && list.size > 1
    modifies list
    ensures list.Valid() && list.contents == old(list.contents[1..])
    ensures front == list.contents[0]
  {
    var b := list.Begin();
    list.Erase(b);
    front := Front(list);
  }

  /** pop_back() on {1,2,3,4} leaves 3, then 2, then 1 just before end(). */
  method PopBackTail() returns (lasts: seq<int>)
    ensures lasts == [3, 2, 1]
  {
    var list := new List.FromElements([1, 2, 3, 4], NeverThrows);
    var x := PopThenBack(list);
    var y := PopThenBack(list);
    var z := PopThenBack(list);
    lasts := [x, y, z];
  }

  /** pop_back() on a list of at least two elements, then *std::prev(end()). */
  method PopThenBack(list: List<int>) returns (last: int)
    requires list.Valid() && list.size > 1
    modifies list
    ensures list.Valid() && list.contents == old(list.contents[..list.size - 1])
    ensures last == list.contents[list.size - 1]
  {
    list.PopBack();
    last := Back(list);
  }

  /** The initializer-list constructor when no construction fails. */
  method Build(init: seq<int>) returns (list: List<int>)
    ensures fresh(list) && list.Valid() && list.contents == init
  {
    list := new List.FromElements(init, NeverThrows);
  }

  /** {1,2,3,4} == {1,2,3,4}, and {1,2,3,4} != {1,5,3,4}, with the operators as written. */
  method Comparisons() returns (same: bool, differ: bool)
    ensures same && differ
  {
    var l1 := Build([1, 2, 3, 4]);
    var l2 := Build([1, 2, 3, 4]);
    var l3 := Build([1, 5, 3, 4]);
    assert [1, 2, 3, 4] != [1, 5, 3, 4] by {
      assert [1, 5, 3, 4][1] == 5;
    }
    same := SameLengthEqual(l1, l2);
    differ := SameLengthNotEqual(l1, l3);
  }

  /** operator== as written on two lists of one length compares all their elements. */
  method SameLengthEqual(l1: List<int>, l2: List<int>) returns (eq: bool)
    requires l1.Valid() && l2.Valid() && l1.size == l2.size
    ensures eq <==> l1.contents == l2.contents
  {
    assert l2.contents[..l2.size] == l2.contents;
    eq := l1.EqualAsWritten(l2);
  }

  /** operator!= as written on two lists of one length compares all their elements. */
  method SameLengthNotEqual(l1: List<int>, l2: List<int>) returns (ne: bool)
    requires l1.Valid() && l2.Valid() && l1.size == l2.size
    ensures ne <==> l1.contents != l2.contents
  {
    assert l2.contents[..l2.size] == l2.contents;
    ne := l1.NotEqualsAsWritten(l2);
  }

  /** The copy constructor gives a list equal to its source under operator== as written. */
  method CopyIsEqual() returns (same: bool)
    ensures same
  {
    var list := new List.FromElements([1, 2, 3, 4], NeverThrows);
    var copy := new List.Copy(list);
    same := SameLengthEqual(copy, list);
  }

  /** The range constructor over [begin() + 1, end()) copies all but the first element. */
  method RangeConstructor() returns (same: bool)
    ensures same
  {
    var list := new List.FromElements([1, 2, 3, 4], NeverThrows);
    var first := list.Begin();
    var last := list.End();
    first.Increment();
    var part := new List.FromRange(first, last);
    assert part.contents == [2, 3, 4];
    var expected := new List.FromElements([2, 3, 4], NeverThrows);
    same := part.Equals(expected);
  }

  /**
   * {1,2} compared with {1,2,3}: == is true and != false as written; once the lengths
   * are compared, == is false and != true.
   */
  method ShorterLeftList() returns (asWritten: bool, corrected: bool, neAsWritten: bool, neCorrected: bool)
    ensures asWritten && !corrected && !neAsWritten && neCorrected
  {
    var l1 := new List.FromElements([1, 2], NeverThrows);
    var l2 := new List.FromElements([1, 2, 3], NeverThrows);
    asWritten := l1.EqualAsWritten(l2);
    corrected := l1.Equals(l2);
    neAsWritten := l1.NotEqualsAsWritten(l2);
    neCorrected := l1.NotEquals(l2);
  }

  /** A longer left list that differs early, {1,5} == {2}, is false as written too. */
  method LongerLeftListDiffers() returns (asWritten: bool)
    ensures !asWritten
  {
    var l1 := new List.FromElements([1, 5], NeverThrows);
    var l2 := new List.FromElements([2], NeverThrows);
    assert l1.contents[..1] != l2.contents by {
      assert l1.contents[..1][0] == 1;
    }
    asWritten := l1.EqualAsWritten(l2);
  }

  /** After insert(pos, v), every other element cursor still reads the element it read. */
  method CursorSurvivesInsert<T(==)>(list: List<T>, pos: ListIterator<T>, c: ListIterator<T>, v: T)
    requires list.Valid() && pos.list == list && pos.Valid()
    requires c.list == list && c.Valid() && c.node != Ring.SENTINEL
    modifies list
    ensures c.Valid() && c.node != Ring.SENTINEL && c.Dereference() == old(c.Dereference())
  {
    var it := list.Insert(pos, v);
  }

  /** After erase(pos), every cursor on another element still reads the element it read. */
  method CursorSurvivesErase<T(==)>(list: List<T>, pos: ListIterator<T>, c: ListIterator<T>)
    requires list.Valid() && pos.list == list && pos.Valid() && pos.node != Ring.SENTINEL
    requires c.list == list && c.Valid() && c.node != Ring.SENTINEL && c.node != pos.node
    modifies list
    ensures c.Valid() && c.Dereference() == old(c.Dereference())
  {
    list.Erase(pos);
  }

  /**
   * After insert(pos, v), a cursor before pos keeps its place and a cursor at pos or
   * after it, end() included, moves one place on: no other node is relinked.
   */
  method CursorPlaceAfterInsert<T(==)>(list: List<T>, pos: ListIterator<T>, c: ListIterator<T>, v: T)
    requires list.Valid() && pos.list == list && pos.Valid()
    requires c.list == list && c.Valid()
    modifies list
    ensures c.Valid()
    ensures c.Position() == if old(c.Position()) < old(pos.Position()) then old(c.Position())
                            else old(c.Position()) + 1
  {
    ghost var q, p := c.Position(), pos.Position();
    var it := list.Insert(pos, v);
    ghost var q' := if q < p then q else q + 1;
    assert Ring.At(list.order, q') == c.node;
    Ring.PositionOfAt(list.next, list.prev, list.order, q');
  }

  /**
   * After erase(pos), a cursor before pos keeps its place and a cursor after it, end()
   * included, moves one place back, so iteration can go on from the erased node's successor.
   */
  method CursorPlaceAfterErase<T(==)>(list: List<T>, pos: ListIterator<T>, c: ListIterator<T>)
    requires list.Valid() && pos.list == list && pos.Valid() && pos.node != Ring.SENTINEL
    requires c.list == list && c.Valid() && c.node != pos.node
    modifies list
    ensures c.Valid()
    ensures c.Position() == if old(c.Position()) < old(pos.Position()) then old(c.Position())
                            else old(c.Position()) - 1
  {
    ghost var q, p := c.Position(), pos.Position();
    Ring.PositionOfAt(list.next, list.prev, list.order, p);
    assert q != p;
    list.Erase(pos);
    ghost var q' := if q < p then q else q - 1;
    assert Ring.At(list.order, q') == c.node;
    Ring.PositionOfAt(list.next, list.prev, list.order, q');
  }

  /** erase() of the cursor insert() returns undoes the insert. */
  method InsertThenErase<T(==)>(list: List<T>, pos: ListIterator<T>, v: T)
    requires list.Valid() && pos.list == list && pos.Valid()
    modifies list
    ensures list.Valid() && list.contents == old(list.contents)
  {
    ghost var p := pos.Position();
    ghost var before := list.contents;
    var it := list.Insert(pos, v);
    assert it.Position() == p && it.node != Ring.SENTINEL;
    list.Erase(it);
    SpliceOut(before, p, v);
  }

  /** Taking out position p of s[..p] + [v] + s[p..] gives s back. */
  lemma SpliceOut<T>(s: seq<T>, p: nat, v: T)
    requires p <= |s|
    ensures var t := s[..p] + [v] + s[p..]; t[..p] + t[p + 1..] == s
  {
    var t := s[..p] + [v] + s[p..];
    assert t[..p] == s[..p] && t[p + 1..] == s[p..];
    assert s[..p] + s[p..] == s;
  }

  /** pop_back() undoes push_back(v). */
  method PushThenPop<T(==)>(list: List<T>, v: T)
    requires list.Valid()
    modifies list
    ensures list.Valid() && list.contents == old(list.contents)
  {
    list.PushBack(v);
    list.PopBack();
  }
}
