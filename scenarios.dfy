/** Single-threaded client scenarios of both structures, stated as contracts on what the
    client observes through the operations alone. */
module Scenarios {
  import ThreadsafeList
  import LockFreeStack
  import ListSpec

  /** `push_front(1); push_front(2); push_front(3)` and then `for_each` visits 3, 2, 1. */
  method ListVisitsNewestFirst() returns (visited: seq<int>)
    ensures visited == [3, 2, 1]
  {
    var list := new ThreadsafeList.List<int>();
    list.PushFront(1);
    list.PushFront(2);
    list.PushFront(3);
    visited := list.ForEach(x => x);
  }

  /** `remove_if(v == 1)` on 1, 1, 2, 1, 1 leaves only 2 (both runs of adjacent matches
      go), and a following `find_first_if(v == 1)` finds nothing: it hands back a new
      default-valued cell, none of the list's own. */
  method ListRemovesRunsThenFindsNothing() returns (visited: seq<int>, found: int, stored: bool)
    ensures visited == [2]
    ensures found == 0 && !stored
  {
    var list := OnesAroundTwo();
    var isOne := (x: int) => x == 1;
    RemoveOnes(isOne);
    list.RemoveIf(isOne);
    assert list.Contents == [2];
    visited := list.ForEach(x => x);
    assert visited == [2];
    ListSpec.SearchAfterRemoveFindsNothing(isOne, [1, 1, 2, 1, 1]);
    var cell := list.FindFirstIf(isOne, 0);
    found := cell.value;
    stored := list.head.next != null && cell == list.head.next.data;
  }

  /** The default cell `find_first_if` hands back when nothing matches is never the cell
      a later `push_front` of the same value stores: both are newly made. */
  method DefaultCellIsNotPushedCell() returns (sameValue: bool, sameCell: bool)
    ensures sameValue && !sameCell
  {
    var list := new ThreadsafeList.List<int>();
    var cell := list.FindFirstIf(x => false, 0);
    list.PushFront(0);
    sameValue := list.head.next.data.value == cell.value;
    sameCell := list.head.next.data == cell;
  }

  /** A new list holding 1, 1, 2, 1, 1, built by five `push_front` calls. */
  method OnesAroundTwo() returns (list: ThreadsafeList.List<int>)
    ensures fresh(list) && fresh(list.head) && list.Valid() && list.Contents == [1, 1, 2, 1, 1]
    ensures forall i :: 0 <= i < |list.nodes| ==> fresh(list.nodes[i])
  {
    list := new ThreadsafeList.List<int>();
    list.PushFront(1);
    list.PushFront(1);
    list.PushFront(2);
    list.PushFront(1);
    list.PushFront(1);
  }

  /** The values `remove_if(v == 1)` leaves of 1, 1, 2, 1, 1. */
  lemma RemoveOnes(isOne: int -> bool)
    requires forall x :: isOne(x) == (x == 1)
    ensures ListSpec.RemoveMatching(isOne, [1, 1, 2, 1, 1]) == [2]
  {
    var s := [1, 1, 2, 1, 1];
    assert s[1..] == [1, 2, 1, 1] && s[2..] == [2, 1, 1] && s[3..] == [1, 1] && s[4..] == [1];
    assert ListSpec.RemoveMatching(isOne, [1]) == [];
    assert ListSpec.RemoveMatching(isOne, [1, 1]) == [];
    assert ListSpec.RemoveMatching(isOne, [2, 1, 1]) == [2];
  }

  /** `find_first_if` stops at the first match: on 1, 2, 2 an even value is found in the
      second node, and the cell returned is that node's own. */
  method ListFindsFirstMatch() returns (found: int, front: bool)
    ensures found == 2 && front
  {
    var list := new ThreadsafeList.List<int>();
    list.PushFront(2);
    list.PushFront(2);
    list.PushFront(1);
    var cell := list.FindFirstIf(x => x % 2 == 0, 0);
    found := cell.value;
    var first := list.head.next;
    front := first != null && first.next != null && cell == first.next.data;
  }

  /** Three pushes leave 3 on top of 2 on top of 1, whatever the number of spurious
      compare-and-swap failures in each push. */
  method StackPushOrder(retries1: nat, retries2: nat, retries3: nat)
    returns (top: int, second: int, third: int, bottom: bool)
    ensures top == 3 && second == 2 && third == 1 && bottom
  {
    var stack := new LockFreeStack.Stack<int>();
    stack.Push(1, retries1);
    stack.Push(2, retries2);
    stack.Push(3, retries3);
    var n1 := stack.head;
    var n2 := n1.next;
    var n3 := n2.next;
    top, second, third, bottom := n1.data, n2.data, n3.data, n3.next == null;
  }
}
