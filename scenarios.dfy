/**
 * Client code over the list: the round trips its operations promise, a few concrete runs,
 * and the runs that exhibit the two defects of the walk and of `__shift`.
 */
module Scenarios {
  import opened Wrappers
  import opened Matching
  import Seqs
  import opened LinkedList

  /** Pushing onto a non-empty list and popping again returns the pushed value and restores the list. */
  method PushThenPop(l: List<int>, x: int) returns (r: Option<int>)
    requires l.Valid() && l.length >= 1
    modifies l, l.nodes
    ensures r == Some(x)
    ensures l.Valid() && l.nodes == old(l.nodes) && l.Contents() == old(l.Contents())
    ensures l.length == old(l.length) && l.head == old(l.head) && l.tail == old(l.tail)
  {
    var _ := l.Push(x);
    r := l.Pop();
  }

  /** Reversing a copy of a reversed copy gives back the original order. */
  method ReverseTwice(l: List<int>) returns (r: List<int>)
    requires l.Valid()
    ensures fresh(r) && r.WellLinked() && r.Contents() == l.Contents()
  {
    var once := l.Reverse();
    r := once.Reverse();
    Seqs.ReverseInvolutive(l.Contents());
  }

  /** Reversing a well-linked list in place twice restores its head, tail and order. */
  method ReverseInPlaceTwice(l: List<int>)
    requires l.WellLinked()
    modifies l, l.nodes
    ensures l.WellLinked() && l.nodes == old(l.nodes) && l.Contents() == old(l.Contents())
    ensures l.head == old(l.head) && l.tail == old(l.tail) && l.length == old(l.length)
  {
    var _ := l.ReverseInPlace();
    Seqs.ReverseMembers(old(l.nodes));
    assert forall i :: 0 <= i < |l.nodes| ==> l.nodes[i] in old(l.nodes);
    var _ := l.ReverseInPlace();
    Seqs.ReverseInvolutive(old(l.nodes));
    Seqs.ReverseInvolutive(old(l.Contents()));
  }

  /** A new list holding 1, 2 and 3, pushed in that order. */
  method OneTwoThree() returns (l: List<int>)
    ensures fresh(l) && l.WellLinked() && l.Contents() == [1, 2, 3] && l.length == 3
    ensures forall i :: 0 <= i < |l.nodes| ==> fresh(l.nodes[i])
  {
    l := new List();
    var _ := l.Push(1);
    var _ := l.Push(2);
    var _ := l.Push(3);
  }

  /** Three pushes: the array is [1, 2, 3], the first element 1 and the last 3. */
  method PushThree() returns (xs: seq<int>, first: Option<int>, last: Option<int>)
    ensures xs == [1, 2, 3] && first == Some(1) && last == Some(3)
  {
    var l := OneTwoThree();
    xs := l.ToA();
    first := l.First();
    last := l.Last();
  }

  /** Popping [1, 2, 3] returns 3 and leaves [1, 2]. */
  method PopFromThree() returns (r: Option<int>, xs: seq<int>)
    ensures r == Some(3) && xs == [1, 2]
  {
    var l := OneTwoThree();
    r := l.Pop();
    xs := l.ToA();
  }

  /** Popping the only element leaves a fully empty list. */
  method PopOnly() returns (r: Option<int>, l: List<int>)
    ensures r == Some(5) && l.WellLinked() && l.length == 0 && l.head == null && l.tail == null
    ensures l.First() == None && l.Last() == None
  {
    l := new List();
    var _ := l.Push(5);
    r := l.Pop();
  }

  /** A new list holding 1, 2, 2 and 3, pushed in that order. */
  method OneTwoTwoThree() returns (l: List<int>)
    ensures fresh(l) && l.Valid() && l.Contents() == [1, 2, 2, 3]
  {
    l := new List();
    var _ := l.Push(1);
    var _ := l.Push(2);
    var _ := l.Push(2);
    var _ := l.Push(3);
  }

  /** `delete_all` of 2 on [1, 2, 2, 3] returns [2, 2] and leaves [1, 3]. */
  method DeleteAllTwos() returns (r: Result<seq<int>>, xs: seq<int>)
    ensures r == Ok([2, 2]) && xs == [1, 3]
  {
    var l := OneTwoTwoThree();
    r := l.DeleteAll(Some(2), None);
    assert Select([1, 2, 2, 3], Eq(2)) == [2, 2];
    assert Reject([1, 2, 2, 3], Eq(2)) == [1, 3];
    xs := l.ToA();
  }

  /** `insert_after` of 99 after 2 on [1, 2, 3] gives [1, 2, 99, 3]. */
  method InsertAfterTwo() returns (xs: seq<int>)
    ensures xs == [1, 2, 99, 3]
  {
    var l := OneTwoThree();
    var n := l.InsertAfter(99, Some(2), None);
    assert IndexOfFirst([1, 2, 3], Eq(2)) == Some(1);
    xs := l.ToA();
  }

  /** On an empty list `delete`, `shift` and `pop` find nothing and the list stays empty. */
  method EmptyFindsNothing() returns (d: Result<Option<int>>, s: Option<int>, p: Option<int>, n: int)
    ensures d == Ok(None) && s == None && p == None && n == 0
  {
    var l := new List();
    d := l.Delete(Some(7), None);
    s := l.Shift();
    p := l.Pop();
    n := l.length;
  }

  /** Passing both a value and a block is refused and changes nothing. */
  method BothValueAndBlock() returns (r: Result<Option<int>>, xs: seq<int>)
    ensures r == ArgumentError && xs == [1, 2, 3]
  {
    var l := OneTwoThree();
    r := l.Delete(Some(2), Some(x => x > 1));
    xs := l.ToA();
  }

  /**
   * `__shift` as written, followed by `pop` on the one element left: the list reports length 0
   * but keeps its head, and its tail is the node `shift` removed, still holding 1.
   */
  method ShiftThenPopAsWritten() returns (l: List<int>, a: Option<int>, b: Option<int>)
    ensures a == Some(1) && b == Some(2) && l.length == 0
    ensures l.head != null && l.head.data == 2 && l.tail != null && l.tail.data == 1
  {
    l := new List();
    var _ := l.Push(1);
    var _ := l.Push(2);
    a := l.ShiftAsWritten();
    b := l.Pop();
  }

  /**
   * `__shift` as written on [1, 2, 3], then `pop` twice: the stale `prev` survives the first
   * `pop`, so the second one leaves length 0 with the head still holding 2 and the removed
   * node holding 1 as the tail.
   */
  method ShiftThenPopTwiceAsWritten() returns (l: List<int>, a: Option<int>, b: Option<int>, c: Option<int>)
    ensures a == Some(1) && b == Some(3) && c == Some(2) && l.length == 0
    ensures l.head != null && l.head.data == 2 && l.tail != null && l.tail.data == 1
  {
    l := OneTwoThree();
    a := l.ShiftAsWritten();
    b := l.Pop();
    c := l.Pop();
  }

  /** The same run with `__shift` corrected leaves a fully empty list. */
  method ShiftThenPop() returns (l: List<int>, a: Option<int>, b: Option<int>)
    ensures a == Some(1) && b == Some(2) && l.length == 0
    ensures l.WellLinked() && l.head == null && l.tail == null
  {
    l := new List();
    var _ := l.Push(1);
    var _ := l.Push(2);
    a := l.Shift();
    b := l.Pop();
  }

  /**
   * `__shift` as written, then an in-place reversal: the stale `prev` of the head becomes
   * the tail's `next`, so a walk from the head meets 3, 2 and then the removed node holding 1,
   * although the length is 2.
   */
  method ShiftAsWrittenThenReverse() returns (l: List<int>)
    ensures l.length == 2 && l.head != null && l.head.data == 3 && l.head.next == l.tail
    ensures l.tail != null && l.tail.data == 2 && l.tail.next != null && l.tail.next.data == 1
    ensures l.tail.next.next == null
  {
    l := OneTwoThree();
    ghost var first := l.head;
    var _ := l.ShiftAsWritten();
    assert first !in l.nodes;
    ghost var ns := l.nodes;
    var _ := l.ReverseInPlace();
    assert l.nodes == [ns[1], ns[0]] && l.nodes[0].next == l.nodes[1];
  }

  /** With `__shift` corrected the reversal is well formed: [3, 2] and nothing past the tail. */
  method ShiftThenReverse() returns (l: List<int>)
    ensures l.WellLinked() && l.Contents() == [3, 2] && l.tail.next == null
  {
    l := OneTwoThree();
    var _ := l.Shift();
    var _ := l.ReverseInPlace();
  }

  /**
   * `reverse!` as written on [1, 2, 3]: the head becomes the node holding 3, whose `next` is
   * still nil, so a walk from the head yields only [3] although the length says 3.
   */
  method ReverseThreeAsWritten() returns (l: List<int>)
    ensures l.length == 3 && l.head != null && l.head.data == 3 && l.head.next == null
  {
    l := OneTwoThree();
    var _ := l.ReverseInPlaceAsWritten();
  }

  /**
   * `reverse` as written on [1, 2, 3]: the copy reports length 3, but its head holds 3 and
   * has no `next`, so its array is [3].
   */
  method ReverseCopyThreeAsWritten() returns (r: List<int>)
    ensures r.length == 3 && r.head != null && r.head.data == 3 && r.head.next == null
  {
    var l := OneTwoThree();
    r := l.ReverseAsWritten();
  }

  /** The corrected `reverse!` on [1, 2, 3] gives [3, 2, 1]. */
  method ReverseThree() returns (xs: seq<int>)
    ensures xs == [3, 2, 1]
  {
    var l := OneTwoThree();
    var _ := l.ReverseInPlace();
    assert Seqs.Reverse([1, 2, 3]) == [3, 2, 1];
    xs := l.ToA();
  }
}
