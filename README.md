# exp::list and its iterator facade, modelled in Dafny

The repository implements `exp::list<T>`, a doubly-linked list. Its nodes form one cycle
through a sentinel node (`begin_`), and it keeps a running element count (`size_`). Its
bidirectional cursor `list_iterator` supplies four primitives: dereference, increment,
decrement and equal. The CRTP base `iterator_facade` turns those four into the usual
operators: `*`, prefix and postfix `++`/`--`, `+=`, `-=`, `==` and `!=`.

The model has four modules:

- **`Ring`** (ring.dfy): the link structure, on values.
  - Heap nodes become slots of an arena, named by their index. Slot `SENTINEL` is `begin_`.
  - `next` and `prev` are the two link fields of every slot.
  - The ghost `order` lists the payload nodes in traversal order.
  - `IsRing` is the cycle invariant: following `next` from the sentinel visits `order`
    and returns to the sentinel, and `prev` is the exact reverse.
  - The lemmas prove:
    - the four link writes of `linkNodeTo` keep the cycle, with the new node at its place;
    - the two link writes of `erase` keep the cycle without the erased node;
    - `next` and `prev` undo each other;
    - a walk from `begin()` meets `end()` after exactly `size` steps.
- **`LinkedList`** (list.dfy): the class `List`, with the arena fields, the count and the
  ghost `contents` (the elements in order), and the class `ListIterator`.
  - `Valid()` ties the fields to `contents`.
  - Every constructor and state-changing method states its new `contents`.
  - A cursor's `Position()` runs from 0 (`begin()`) to `size` (`end()`).
- **`IteratorFacade`** (iterator.dfy): the facade operators, as methods over a `ListIterator`.
  - `+=`/`-=` are `std::advance` loops of single steps.
  - They are proved to move the cursor n places round the ring of `size + 1` places,
    with `%` being Euclidean.
- **`ListScenarios`** (scenarios.dfy): the outcomes the repository's unit tests expect,
  two round trips, and the input behind the finding below.

Stepping past `end()` is defined in the source: `++end()` follows the sentinel's `next`
to `begin()`, and `--begin()` reaches `end()`. The model keeps this wrap-around, so
`Position()` steps with `Ring.Succ` and `Ring.Pred`.

Construction failure is modelled by a parameter. The count and initializer-list
constructors take an oracle `throws: nat -> bool`, which says which element construction
throws an exception derived from `std::exception`. The source catches exactly those
(`catch (const std::exception&)`), pops the nodes already added and does not pass the
failure on to the caller; the model does the same, except that it does not print the
`"e"` the source writes to `std::cout` first.

## Model

| member | source | states |
|---|---|---|
| Ring.Successor | projects/list.hpp:43 | following `next` from the node at position p reaches the node at position Succ(p): the next one, or begin() after end() |
| Ring.Predecessor | projects/list.hpp:44 | following `prev` from position p reaches position Pred(p): the previous one, or end() before begin() |
| Ring.Inverse | projects/list.hpp:43-44 | on every node of the cycle, including the sentinel, `prev[next[n]] == n` and `next[prev[n]] == n` |
| Ring.AtInjective | projects/list.hpp:46 | two positions hold the same node exactly when they are the same position, so comparing nodes compares places |
| Ring.PositionOfAt | projects/list.hpp:46 | the node at position p is found at position p and nowhere else |
| Ring.DistinctPairwise | projects/list.hpp:265-275 | the recursive no-duplicates predicate holds exactly when no two positions hold the same node |
| Ring.LinkBefore | projects/list.hpp:265-275 | the four link writes of linkNodeTo, splicing unlinked node m in front of position p, give a cycle whose order has m at p; beforehand `prev` of the position-p node is the node before it |
| Ring.LinkBeforeLinks | projects/list.hpp:265-275 | after those writes every position of the new order is linked both ways to the one before it |
| Ring.InsertAt | projects/list.hpp:265-275 | splicing a node that is not yet linked in keeps the order free of duplicates |
| Ring.Unlink | projects/list.hpp:227-238 | the two link writes of erase, bypassing position p, give a cycle whose order lacks that node; its old neighbours are the ones `prev` and `next` named |
| Ring.UnlinkLinks | projects/list.hpp:227-238 | after those writes every position of the shorter order is linked both ways to the one before it |
| Ring.RemoveAt | projects/list.hpp:227-241 | removing a position keeps the order duplicate-free, drops that node and keeps every other node |
| Ring.WalkAlong | projects/list.hpp:43 | k `next` steps from position p reach position p + k, while no wrap is passed |
| Ring.WalkFromBegin | projects/list.hpp:107-111 | walking `next` from begin() visits the payload nodes in order and meets end() after exactly as many steps as there are nodes, and not sooner |
| LinkedList.List.constructor | projects/list.hpp:123-128 | the new list is empty and its sentinel is linked to itself both ways |
| LinkedList.List.WithCount | projects/list.hpp:130-148 | list(n): with no failing construction it holds n default elements; if any of the first n constructions throws, the added elements are popped again and the list is empty |
| LinkedList.List.FromElements | projects/list.hpp:151-168 | initializer-list constructor: without a failure it holds the given elements in order; after a failure it is empty |
| LinkedList.List.FromRange | projects/list.hpp:171-177 | list(first, last) over a range of another list holds exactly that range's elements, first included, last excluded |
| LinkedList.List.AppendRange | projects/list.hpp:173-176 | the push_back loop of the range constructor appends the source's elements from first up to last to the current contents |
| LinkedList.List.Copy | projects/list.hpp:179 | the copy constructor yields a list with the same elements as its source |
| LinkedList.List.Begin | projects/list.hpp:107 | begin() is a new cursor on the sentinel's `next`, at position 0 |
| LinkedList.List.End | projects/list.hpp:111 | end() is a new cursor on the sentinel, at position size |
| LinkedList.List.Size | projects/list.hpp:213 | size() is the number of elements |
| LinkedList.List.SizeIsWalkLength | projects/list.hpp:213 | a walk of k steps from begin() reaches the sentinel exactly when k equals size() |
| LinkedList.List.Insert | projects/list.hpp:200-204 | insert(pos, v) puts v in front of pos's element; the returned cursor is at v; pos keeps its node, now one place on; the size grows by one; every other cursor stays in the list; the new node is the only slot whose element is set, and every other node keeps its element; the node order gains the new node at pos's old place and is otherwise unchanged |
| LinkedList.List.InsertNodeImpl | projects/list.hpp:277-285 | insertNodeImpl links node m in front of pos, bumps the count and returns a cursor on m; the node order gains m at pos's old place and is otherwise unchanged |
| LinkedList.List.LinkNodeTo | projects/list.hpp:265-275 | linkNodeTo makes m's links point to curr and curr's old predecessor, and makes both of them point back at m |
| LinkedList.List.PushBack | projects/list.hpp:215-216 | push_back(v) appends v; every node already in the list keeps its element and its place in the node order, and the new node comes last |
| LinkedList.List.PushFront | projects/list.hpp:218-219 | push_front(v) prepends v; every node already in the list keeps its element and moves exactly one place on in the node order, behind the new first node |
| LinkedList.List.Erase | projects/list.hpp:227-241 | erase(pos) removes pos's element; its neighbours are linked to each other; pos's node leaves the list; every other node stays in it and keeps its element, and only pos's element is dropped; the node order loses pos's node and is otherwise unchanged; the size drops by one |
| LinkedList.List.PopBack | projects/list.hpp:243-245 | pop_back() drops the last element; only the last node leaves the list and loses its element, every other node keeps its element and its place in the node order |
| LinkedList.List.PopFront | projects/list.hpp:246-248 | pop_front() drops the first element; only the first node leaves the list and loses its element, every other node keeps its element and moves exactly one place back in the node order |
| LinkedList.List.EqualAsWritten | projects/list.hpp:257-259 | operator== as written, `std::equal` over the left list: true exactly when the left list is no longer than the right one and equals the right list's prefix of its length; the one case that dereferences the right list's sentinel is excluded |
| LinkedList.List.Equals | projects/list.hpp:257-259 | corrected operator==: true exactly when both lists hold the same elements in the same order |
| LinkedList.List.NotEqualsAsWritten | projects/list.hpp:260-262 | operator!= as written, the negation of operator== as written: true exactly when the left list is longer than the right one or differs from the right list's prefix of its length |
| LinkedList.List.NotEquals | projects/list.hpp:260-262 | corrected operator!=, the negation of the corrected operator==: true exactly when the element sequences differ |
| LinkedList.ListIterator.constructor | projects/list.hpp:40 | the cursor refers to the given node of the given list |
| LinkedList.ListIterator.Dereference | projects/list.hpp:42 | dereference() on a non-end cursor yields the element at its position |
| LinkedList.ListIterator.Increment | projects/list.hpp:43 | increment() moves to `next`, position Succ: one on, or from end() to begin() |
| LinkedList.ListIterator.Decrement | projects/list.hpp:44 | decrement() moves to `prev`, position Pred: one back, or from begin() to end() |
| LinkedList.ListIterator.Equal | projects/list.hpp:46 | equal() compares node pointers; on valid cursors it is true exactly when both are in the same list at the same position |
| IteratorFacade.Deref | projects/iterator.hpp:30 | operator* yields the element at the cursor's position |
| IteratorFacade.PreIncrement | projects/iterator.hpp:33 | prefix ++ advances the cursor one place round the ring and returns that same cursor |
| IteratorFacade.PostIncrement | projects/iterator.hpp:35-39 | postfix ++ returns a new cursor at the old place and advances the original one place |
| IteratorFacade.PreDecrement | projects/iterator.hpp:41 | prefix -- moves the cursor one place back round the ring and returns that same cursor |
| IteratorFacade.PostDecrement | projects/iterator.hpp:43-47 | postfix -- returns a new cursor at the old place and moves the original one place back |
| IteratorFacade.AddAssign | projects/iterator.hpp:49 | += n takes n single steps (back ones for negative n) and ends at (p + n) mod (size + 1); returns the same cursor |
| IteratorFacade.AdvanceIsMod | projects/iterator.hpp:49 | j single steps from place p of a ring of last + 1 places end at (p + j) mod (last + 1) |
| IteratorFacade.SubAssign | projects/iterator.hpp:50 | -= n is += -n and ends at (p - n) mod (size + 1) |
| IteratorFacade.AddSubRoundTrip | projects/iterator.hpp:49-50 | -= n after += n returns every cursor to its place |
| IteratorFacade.ModStep | projects/iterator.hpp:33-47 | one step forward from x mod m is Succ of the remainder, and one step back undoes it |
| IteratorFacade.Eq | projects/iterator.hpp:52-54 | operator==, via equal(): on valid cursors true exactly when both are in the same list at the same position |
| IteratorFacade.Ne | projects/iterator.hpp:56-59 | operator!= is true exactly when the lists or the positions differ |
| ListScenarios.InsertIntoEmpty | projects/test.cpp:50-57 | insert(begin(), 42) on an empty list: front 42, size 1, begin() != end() |
| ListScenarios.PushBothEnds | projects/test.cpp:60-73 | two push_backs leave 1 in front; two push_fronts leave 2 in front |
| ListScenarios.StepForwardAndBack | projects/test.cpp:75-93 | ++ three times from begin() reads 2, 3, 4; -- twice then reads 3, 2 |
| ListScenarios.AdvanceAndRetreat | projects/test.cpp:95-108 | begin() += 3 reads 4, then -= 1 reads 3 and -= 2 reads 1 |
| ListScenarios.WrapAround | projects/iterator.hpp:49-50 | begin() -= 1 is end(), and end() += 1 is begin() |
| ListScenarios.CountConstructor | projects/test.cpp:124-128 | list(3) has size 3 and a default front element |
| ListScenarios.CountConstructorUnwinds | projects/list.hpp:130-148 | when the fourth construction of five throws, the list ends up empty |
| ListScenarios.EraseFront | projects/test.cpp:147-159 | three erase(begin()) calls on {1,2,3,4} bring 2, 3, 4 to the front and leave size 1 |
| ListScenarios.PopBackTail | projects/test.cpp:175-187 | repeated pop_back on {1,2,3,4} leaves 3, then 2, then 1 just before end() |
| ListScenarios.Comparisons | projects/test.cpp:189-196 | with operator== and operator!= as written, {1,2,3,4} == {1,2,3,4} and {1,2,3,4} != {1,5,3,4} |
| ListScenarios.CopyIsEqual | projects/test.cpp:233-239 | a copy compares equal to its source under operator== as written |
| ListScenarios.RangeConstructor | projects/list.hpp:171-177 | the range constructor over [begin()+1, end()) of {1,2,3,4} equals {2,3,4} |
| ListScenarios.ShorterLeftList | projects/list.hpp:257-259 | {1,2} == {1,2,3} is true and {1,2} != {1,2,3} false as written; once lengths are compared, == is false and != true |
| ListScenarios.LongerLeftListDiffers | projects/list.hpp:257-259 | {1,5} == {2} is false as written: the first elements already differ, so no sentinel is read |
| ListScenarios.CursorSurvivesInsert | projects/list.hpp:200-204 | after insert(pos, v), a cursor on any element still reads that same element |
| ListScenarios.CursorSurvivesErase | projects/list.hpp:227-241 | after erase(pos), a cursor on any other element still reads that same element |
| ListScenarios.CursorPlaceAfterInsert | projects/list.hpp:265-275 | after insert(pos, v), a cursor before pos keeps its position and a cursor at pos or after it, end() included, is one position further on |
| ListScenarios.CursorPlaceAfterErase | projects/list.hpp:227-241 | after erase(pos), a cursor before pos keeps its position and a cursor after it, end() included, is one position further back |
| ListScenarios.InsertThenErase | projects/list.hpp:200-241 | erase of the cursor insert returns restores the contents |
| ListScenarios.PushThenPop | projects/list.hpp:215-248 | pop_back after push_back(v) restores the contents |

## Left out

- The move constructor (line 180), the destructor's delete walk (lines 190-198), and `new`/`delete` ownership. The arena never reuses a slot, and nothing in the model frees memory.
- The reverse iterators, their `rbegin`/`rend` family, and `cbegin`/`cend`. `const_iterator` differs from `iterator` only in constness, which Dafny does not model.
- `emplace`, `emplace_back` and `emplace_front`: they construct the payload in place and then take the same path as `insert`, `push_back` and `push_front`.
- `operator<<`, the `"e"` that the count and initializer-list constructors print to `std::cout` when they catch a failure (list.hpp:142 and 162), `operator->` and the iterator type aliases: output, addresses and type computations have nothing to verify.
- Assignment through `*it`: the model's dereference reads the element only.
- The range constructor over cursors of other containers (a `std::vector` in the tests). Only ranges over another `List` are modelled.
- LinkedList.List.FromRange and LinkedList.List.AppendRange: they require `first` to come no later than `last`. In the source, a range that runs past `end()` dereferences the sentinel, which is undefined behaviour.
- LinkedList.List.Erase, LinkedList.List.PopBack and LinkedList.List.PopFront: they require a non-end cursor or a non-empty list. The source would delete the sentinel, which is not a heap node.
- `size_t` width: the count is an unbounded `nat`, and no list grows to 2^64 elements.
- The null tests in `erase` and `linkNodeTo`: on a linked cycle no neighbour is null, so both tests always pass.
- An exception thrown inside `insert` itself, such as the payload copy failing in `new Node(val)`: the list is then unchanged, and `push_back` passes the exception on. The model's `insert` always succeeds.
- The `throws` oracle of LinkedList.List.WithCount and LinkedList.List.FromElements stands only for failures derived from `std::exception`, which the source catches and does not rethrow; the constructed object is then an empty list. An exception of any other type leaves the constructor, and that path is not modelled.
- LinkedList.List.EqualAsWritten and LinkedList.List.NotEqualsAsWritten: they require that the right list is not a proper prefix of the left one. In that case `std::equal` dereferences the right list's sentinel, which holds no element, and the behaviour is undefined.
- The models of `std::equal` in `LinkedList.List.EqualAsWritten` and of the range constructor's loop in `LinkedList.List.AppendRange` follow `next` directly, which is what each `++` of their cursors does. They do not allocate cursor objects.
- The concurrency example, `type_traits.hpp` and `concepts.hpp` are not part of this model: they are compile-time checks and a separate threading demo.

## Findings

| source | as written | input that shows it | evidently intended | confidence | as-written member | corrected member |
|---|---|---|---|---|---|---|
| projects/list.hpp:257-259 | `operator==` is `std::equal(rhs.begin(), rhs.end(), lhs.begin())`, where the parameter named `rhs` is the left operand; the sizes are never compared, and `operator!=` negates it | {1,2} == {1,2,3} is true and {1,2} != {1,2,3} false; when the right list is a proper prefix of the left, as in {1,2,3} == {1,2}, std::equal reads the right list's sentinel | equal exactly when both lists have the same elements in the same order | not executed | LinkedList.List.EqualAsWritten, LinkedList.List.NotEqualsAsWritten, ListScenarios.ShorterLeftList | LinkedList.List.Equals, LinkedList.List.NotEquals |
