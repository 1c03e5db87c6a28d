# A verified model of `LinkedList::List`

This project models the doubly-linked list `LinkedList::List` of the `linked-list` Ruby gem. It also models the node operations the list calls on its nodes.

- A list has a `head`, a `tail` and a `length`. Each node holds a `data` value, `prev` and `next` links, and a back reference to its owning `list`.
- The model keeps the heap structure. `Node` and `List` are classes whose fields are updated in place. Every operation that changes the list is a method with a `modifies` frame. `first` and `last` are functions; the walks, `find`, `to_a` and the copying `reverse` are methods that change nothing.
- Each list carries a ghost sequence `nodes`. While `List.Valid()` holds, it is exactly the nodes met walking from `head` along `next`.
- `List.Valid()` ties `head`, `tail`, `length`, the links and the back references to that sequence. `List.WellLinked()` also asks that the head has no `prev`.
- `List.Contents()` is the data of `nodes`. Every operation that keeps `Valid()` is stated as a change to `nodes` and `Contents()`.
- Three cases leave `nodes` stale, no longer describing the walk. Their contracts state the resulting `head`, `tail`, links and `length` directly.
  - `ReverseInPlaceAsWritten` keeps `nodes` while the walk from the new head meets one node.
  - `Pop` on a single node whose head has a stale `prev` empties `nodes` while `head` stays.
  - The corrected `ReverseInPlace` on a list whose head has a stale `prev`, left by `ShiftAsWritten`, makes that stale link the tail's `next`. So the walk meets one node more than `nodes` holds. Its contract still states the `next` and `prev` links between the nodes of `nodes`, as well as `tail.next`.

The project has five modules:

- `Wrappers`: `Option` and `Result`. `Result.ArgumentError` is the `ArgumentError` the source raises.
- `Seqs`: reversal, distinctness, and `Without`, i.e. removing a set of elements while keeping order.
- `Matching`: the value-or-block matcher of `__to_matcher`, and the reference functions `IndexOfFirst` (what `find` returns), `Select` and `Reject`.
- `LinkedList`: the `Node` and `List` classes.
- `Scenarios`: client methods that chain operations (round trips, concrete runs, the runs behind the findings).

The file `node.rb` is not part of this model. The node operations `insert_after`, `insert_before` and `unlink` are written with the behaviour their call sites need:

- fix the neighbours' links;
- move the owning list's `head` or `tail`;
- change its `length` by one.

They decide whether a node is the head or tail by comparing it with the list's `head` and `tail`, not by testing `prev` or `next` for nil.

Where the list's code and its documented intent disagree, the model has both versions (see "## Findings"). `ReverseInPlaceAsWritten`, `ReverseAsWritten` and `ShiftAsWritten` follow the code. `ReverseInPlace`, `Reverse` and `Shift` are the corrected versions. Every other operation that calls one of them calls the corrected version. `ReverseAsWritten` calls `ReverseInPlaceAsWritten`. The scenarios call the corrected versions, except where their names contain `AsWritten`: `ShiftThenPopAsWritten`, `ShiftThenPopTwiceAsWritten`, `ShiftAsWrittenThenReverse`, `ReverseThreeAsWritten` and `ReverseCopyThreeAsWritten` call the as-written versions.

## Model

| member | source | states |
|---|---|---|
| LinkedList.List.constructor | lib/linked-list/list.rb:10-14 | a new list has no nodes, nil head and tail, length 0, and is well linked |
| LinkedList.List.First | lib/linked-list/list.rb:18-20 | nothing exactly when the list is empty, otherwise the first element of the contents |
| LinkedList.List.Last | lib/linked-list/list.rb:24-26 | nothing exactly when the list is empty, otherwise the last element of the contents |
| LinkedList.List.Push | lib/linked-list/list.rb:36-49 | returns the list itself; the contents become the old contents followed by `x`; length + 1; the tail holds `x`; on an empty list head and tail are the one new node, else the head and its `prev` are unchanged, so a stale `prev` survives; old nodes keep their places; validity and well-linkedness are preserved |
| LinkedList.List.Unshift | lib/linked-list/list.rb:60-70 | returns the list itself; the contents become `x` followed by the old contents; length + 1; the head holds `x` and the list is well linked; on an empty list the tail is the new node, else it is unchanged |
| LinkedList.List.Pop | lib/linked-list/list.rb:123-131 | on an empty list returns nothing and changes nothing; otherwise returns the last element and length drops by one; the last node is dropped and the rest stay in order while the links are intact; on two or more nodes the head and its `prev` are unchanged; a well-linked one-element list ends fully empty; on a one-element list whose head still has a stale `prev`, the tail becomes that stale node and the head stays |
| LinkedList.List.ShiftAsWritten | lib/linked-list/list.rb:138-146 | `shift` with `__shift` as written: on an empty list nothing; otherwise returns the first element, drops it from nodes and contents, length − 1, but the new head's `prev` is still the removed node |
| LinkedList.List.Shift | lib/linked-list/list.rb:138-146 | corrected `shift`: the same result and contents, and the list is left well linked, including a one-element list ending fully empty |
| LinkedList.List.ReverseInPlaceAsWritten | lib/linked-list/list.rb:162-171 | `reverse!` on the walk as written: head and tail swap and only the old head's links are swapped; on two or more nodes the new head has no `next`, so a walk yields only the last element |
| LinkedList.List.SwapLinks | lib/linked-list/list.rb:165-167 | the walk with `reverse!`'s block, reading `next` before the swap: every node's `prev` and `next` trade places and no node leaves the list |
| LinkedList.List.ReverseInPlace | lib/linked-list/list.rb:162-171 | corrected `reverse!`: returns the list itself; node sequence and contents are reversed; head and tail swap; length unchanged; well-linkedness is preserved; the old head's `prev` becomes the new tail's `next`, and even then the reversed nodes are chained by `next` and `prev` and still belong to the list |
| LinkedList.List.FromSeq | lib/linked-list/conversions.rb:36 | `List(array)`: a fresh well-linked list of fresh nodes whose contents are the array |
| LinkedList.List.ReverseAsWritten | lib/linked-list/list.rb:153-155 | `reverse` as written: a fresh list with this list's length, but its new head holds the last element and has no `next`, so a walk from it yields only that element; its tail holds the first element; this list is not modified |
| LinkedList.List.Reverse | lib/linked-list/list.rb:153-155 | `reverse` with the corrected `reverse!`: a fresh well-linked list of fresh nodes whose contents are this list's contents reversed; this list is not modified (no `modifies` clause) |
| LinkedList.List.EachNode | lib/linked-list/list.rb:185-188 | the walk of `__each` terminates and visits exactly the list's nodes in order, `length` of them |
| LinkedList.List.Each | lib/linked-list/list.rb:180-183 | yields the contents, head to tail, `length` values |
| LinkedList.List.ToA | lib/linked-list/list.rb:192-194 | the array is the contents, of size `length` |
| LinkedList.List.FindNode | lib/linked-list/list.rb:78 | `each_node.find`: nil exactly when no element matches, otherwise the node at the first matching position |
| LinkedList.List.InsertAfter | lib/linked-list/list.rb:77-81 | both a value and a block: `ArgumentError`, nothing changes; no match: nil, nothing changes; otherwise a fresh node holding `to_add` is returned and spliced in right after the first match, length + 1 |
| LinkedList.List.InsertBefore | lib/linked-list/list.rb:88-92 | the same as `insert_after`, with the new node spliced in right before the first match |
| LinkedList.List.Delete | lib/linked-list/list.rb:99-104 | both a value and a block: `ArgumentError`; no match: nil and nothing changes; otherwise only the first matching node goes, its data is returned, the rest keep their order, length − 1 |
| LinkedList.List.SelectNodesOf | lib/linked-list/list.rb:112 | `each_node.select`: exactly the matching nodes, in list order |
| LinkedList.List.UnlinkNext | lib/linked-list/list.rb:112-115 | one step of the unlink loop: the next collected node still in the list is unlinked, so the nodes left are the original ones without the first `j + 1` collected nodes, and the list stays valid |
| LinkedList.List.UnlinkAll | lib/linked-list/list.rb:112-115 | unlinking the collected nodes one by one leaves exactly the other nodes, in order, and a valid list |
| LinkedList.List.DeleteAll | lib/linked-list/list.rb:111-116 | both a value and a block: `ArgumentError`; otherwise returns the matching elements in encounter order; exactly the matching nodes go and the remaining contents are the non-matching elements in their original order; with no match it returns an empty array and neither the list nor any of its nodes changes |
| LinkedList.Node.constructor | lib/linked-list/conversions.rb:18 | `Node.new(arg, list)`, reached from `push` and `unshift` through `Node(node, self)`: a node holding the value, owned by the given list, with no links |
| LinkedList.Node.InsertAfter | lib/linked-list/list.rb:80 | the node's `insert_after`: a fresh node is spliced in right after this one; the list's tail moves to it when this node was the tail; the head is unchanged; length + 1 |
| LinkedList.Node.InsertBefore | lib/linked-list/list.rb:91 | the node's `insert_before`: a fresh node is spliced in right before this one; the list's head moves to it when this node was the head; the tail is unchanged; length + 1 |
| LinkedList.Node.Unlink | lib/linked-list/list.rb:102 | the node's `unlink`: it leaves its list, whose contents lose exactly that position; length − 1; the node keeps no links or owner |
| Matching.Matches | lib/linked-list/list.rb:214-215 | the matcher lambdas: a value matcher accepts the elements equal to the value, a block matcher the ones the block accepts; stated per argument combination by `Matching.ToMatcherMeaning` |
| Matching.ToMatcher | lib/linked-list/list.rb:212-215 | fails with `ArgumentError` exactly when both a value and a block are given |
| Matching.ToMatcherMeaning | lib/linked-list/list.rb:213-215 | the matcher is the block's verdict, or equality with the value; with neither, it accepts nothing |
| Matching.IndexOfFirst | lib/linked-list/list.rb:78 | the position of the first matching element, every earlier element does not match; nothing exactly when no element matches |
| Matching.Select | lib/linked-list/list.rb:112-115 | every element returned by `delete_all` matches |
| Matching.Reject | lib/linked-list/list.rb:111-116 | every element kept by `delete_all` does not match |
| Matching.SelectRejectPartition | lib/linked-list/list.rb:111-116 | what `delete_all` returns and what it keeps together are the original elements, as a multiset and in number |
| Matching.NoMatchSelectsNothing | lib/linked-list/list.rb:111-116 | with no match `delete_all` returns an empty array and keeps every element |
| Matching.SelectStartsAtFirstMatch | lib/linked-list/list.rb:99-116 | the first element `delete_all` returns is the one `delete` would return |
| Seqs.ReverseInvolutive | lib/linked-list/list.rb:153-155 | reversing twice gives back the original order |
| LinkedList.SelectNodesMembers | lib/linked-list/list.rb:112 | a node is selected exactly when it is in the list and its data matches |
| LinkedList.SelectNodesDistinct | lib/linked-list/list.rb:112 | the collected nodes are distinct |
| LinkedList.DataWithoutMatching | lib/linked-list/list.rb:111-116 | removing the matching nodes leaves the non-matching data in order |
| Scenarios.PushThenPop | lib/linked-list/list.rb:36-49 | a push followed by a pop on a non-empty list returns the pushed value and restores nodes, contents, head, tail and length |
| Scenarios.ReverseTwice | lib/linked-list/list.rb:153-155 | with the corrected `reverse`, reversing a reversed copy gives a list with the original contents |
| Scenarios.ReverseInPlaceTwice | lib/linked-list/list.rb:162-171 | two corrected in-place reversals of a well-linked list restore its nodes, head, tail, length and contents |
| Scenarios.PushThree | lib/linked-list/list.rb:18-49 | pushing 1, 2, 3 gives `to_a == [1, 2, 3]`, `first == 1`, `last == 3` |
| Scenarios.PopFromThree | lib/linked-list/list.rb:123-131 | popping [1, 2, 3] returns 3 and leaves [1, 2] |
| Scenarios.PopOnly | lib/linked-list/list.rb:123-131 | popping the only element leaves head and tail nil, length 0, and `first` and `last` nil |
| Scenarios.DeleteAllTwos | lib/linked-list/list.rb:111-116 | `delete_all(2)` on [1, 2, 2, 3] returns [2, 2] and leaves [1, 3] |
| Scenarios.InsertAfterTwo | lib/linked-list/list.rb:77-81 | inserting 99 after 2 in [1, 2, 3] gives [1, 2, 99, 3] |
| Scenarios.EmptyFindsNothing | lib/linked-list/list.rb:99-146 | on an empty list `delete`, `shift` and `pop` return nil and the length stays 0 |
| Scenarios.BothValueAndBlock | lib/linked-list/list.rb:212-213 | passing a value and a block to `delete` is an `ArgumentError` and the list is unchanged |
| Scenarios.ShiftThenPopAsWritten | lib/linked-list/list.rb:218-230 | push 1, push 2, shift, pop with `__shift` as written: length 0, yet the head is still the node holding 2 and the tail is the removed node holding 1 |
| Scenarios.ShiftThenPopTwiceAsWritten | lib/linked-list/list.rb:218-230 | shift as written on [1, 2, 3], then pop twice: the pops return 3 and 2, and the list ends with length 0, the head still holding 2 and the removed node holding 1 as the tail |
| Scenarios.ShiftThenPop | lib/linked-list/list.rb:218-230 | the same run with `__shift` corrected ends with head and tail nil |
| Scenarios.ShiftAsWrittenThenReverse | lib/linked-list/list.rb:162-171 | shifting [1, 2, 3] as written and then applying the corrected `reverse!`: length 2, but a walk from the head meets 3, 2 and then the removed node holding 1, whose `next` is nil |
| Scenarios.ShiftThenReverse | lib/linked-list/list.rb:162-171 | with `__shift` corrected, the same run with the corrected `reverse!` gives a well-linked [3, 2] with nothing past the tail |
| Scenarios.ReverseThreeAsWritten | lib/linked-list/list.rb:232-238 | `reverse!` as written on [1, 2, 3]: length 3, but the head holds 3 and has no `next` |
| Scenarios.ReverseCopyThreeAsWritten | lib/linked-list/list.rb:153-155 | `reverse` as written on [1, 2, 3]: the copy has length 3, but its head holds 3 and has no `next` |
| Scenarios.ReverseThree | lib/linked-list/list.rb:162-171 | the corrected `reverse!` on [1, 2, 3] gives `to_a == [3, 2, 1]` |

## Left out

- The `Conversions` dispatch on `respond_to?(:to_node)`, `to_list` and `to_ary` has no invariant of its own. `List(to_a)` inside `reverse` is modelled by `FromSeq`, which builds a fresh list by pushing each element.
- `push` and `unshift` of an object that is already a `Node`, possibly one belonging to another list, are not modelled. This depends on `to_node`. Only fresh nodes are pushed.
- `inspect` is left out: it formats a string with an object id. `to_list` returns `self` and needs no model. The aliases `size`, `<<` and `to_ary` are left out too.
- Enumerators are not modelled: `each` and `each_node` without a block return an enumerator. The model returns the visited sequence instead.
- Ruby's `nil` and `false` are not modelled.
  - Elements are values of a Dafny equality type, and blocks are total predicates.
  - With neither a value nor a block, the source compares each element with `nil`. Here the matcher matches nothing, which is the same for lists that hold no `nil`.
  - The source returns `nil` both for "no match" and for "matched a node whose data is nil". The model returns `Option`, so the two cannot be confused.
- The node's own file `node.rb` is not part of this model. The node operations follow what their call sites require. `data` is treated as fixed once a node is created, because the list never rewrites it.
- `insert_after`, `insert_before` and `delete` return early through `found_node.blank?` when `find` gives `nil`. This relies on `blank?` being defined for `nil` outside the list's files. The model takes "no node found" as `null` and returns nil at that point.
- On a list whose head has a stale `prev`, left by the as-written `__shift`, `InsertAfter`, `InsertBefore`, `Delete` and `DeleteAll` do not state what becomes of that link. What they do to it depends on `node.rb`, which is not part of this model. `Push` and `Pop` do state that the link is kept.
- Concurrency and object identity beyond the heap are not modelled.
- The comments on `delete` and `delete_all` promise the deleted node and an array of deleted nodes, but the code returns their data (`.data` and `.map(&:data)`). `Delete` and `DeleteAll` follow the code and return data.
- Walking backwards from the tail along `prev` is not modelled, because the list never does it. `Valid()` states the `prev` links only for nodes after the head.
- LinkedList.List.ReverseInPlaceAsWritten: does not model lists whose head has a stale `prev` (requires `WellLinked()`). On such a list the walk as written follows the stale link into the removed node, which is outside the list's nodes and so outside the method's frame.
- LinkedList.List.Pop: states the remaining node sequence only while the links are intact, i.e. for two or more nodes or a well-linked single node. For a single node with a stale `prev` it states the resulting head, tail and length instead.
- LinkedList.List.Reverse: states the corrected `reverse`, which reverses the whole copy. `reverse` as written, which yields only the last element, is `LinkedList.List.ReverseAsWritten`.
- Scenarios.ReverseTwice: states the round trip for the corrected `reverse` only. With `reverse` as written, the first copy already yields only the last element, so there is no round trip (see `Scenarios.ReverseCopyThreeAsWritten`).
- Scenarios.ShiftAsWrittenThenReverse: reverses with the corrected `reverse!`, to show what the stale link of `__shift` does on its own. The `reverse!` as written requires a well-linked list, so this run with it is not modelled.
- Scenarios.ShiftThenReverse: reverses with the corrected `reverse!`. With `reverse!` as written, the walk from the new head would yield only 3 (see `Scenarios.ReverseThreeAsWritten`).
- LinkedList.List.ReverseInPlace: on a list left by the as-written `__shift`, it states the reversed nodes, their links, and the stale link past the tail. It does not state `Valid()`, because the tail then has a `next` and the list is no longer well formed.

## Findings

| source | as written | input that shows it | evidently intended | confidence | as-written member | corrected member |
|---|---|---|---|---|---|---|
| lib/linked-list/list.rb:165-167, 232-238 | `__each` reads `curr_node.next` after yielding, and `reverse!`'s block has by then swapped `next` with `prev`; on a well-linked list the walk stops after the head, so only the head's links are swapped before `head` and `tail` trade places | `reverse!` on [1, 2, 3]: `length` is 3 but the new head (holding 3) has no `next`, so `to_a == [3]`; `reverse` inherits this | every node's links are swapped and `to_a == [3, 2, 1]` | high, not executed | LinkedList.List.ReverseInPlaceAsWritten, Scenarios.ReverseThreeAsWritten, LinkedList.List.ReverseAsWritten, Scenarios.ReverseCopyThreeAsWritten | LinkedList.List.SwapLinks, LinkedList.List.ReverseInPlace, Scenarios.ReverseThree, LinkedList.List.Reverse, Scenarios.ReverseTwice |
| lib/linked-list/list.rb:218-223 | `__shift` clears the removed node's `next` but not the new head's `prev`, which still points at the removed node | push 1, push 2, shift, pop: `length == 0` but `head` is still the node holding 2 and `tail` is the removed node holding 1. A further `pop` then passes the `@head` guard, returns 1 a second time and sets `length` to −1; the model does not show this step, because `Pop` requires `Valid()` | the new head's `prev` is nil, so a later `pop` empties the list | high, not executed | LinkedList.List.ShiftAsWritten, Scenarios.ShiftThenPopAsWritten, Scenarios.ShiftThenPopTwiceAsWritten, Scenarios.ShiftAsWrittenThenReverse | LinkedList.List.Shift, Scenarios.ShiftThenPop, Scenarios.ShiftThenReverse |
