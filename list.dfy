/**
 * The doubly-linked list `LinkedList::List` and the node primitives it calls.
 *
 * Every list keeps a ghost sequence `nodes`: the nodes met walking from `head` along `next`.
 * `Valid()` ties `head`, `tail`, `length` and the links to that sequence, and `Contents()`
 * is the sequence of their data, the abstract value every operation is stated against.
 */
module LinkedList {
  import opened Wrappers
  import opened Matching
  import Seqs

  /** The data of a node sequence, in order. */
  function Data<T(==)>(ns: seq<Node<T>>): seq<T> {
    seq(|ns|, i requires 0 <= i < |ns| => ns[i].data)
  }

  /** The data of a spliced node sequence is the spliced data. */
  lemma DataSplice<T>(ns: seq<Node<T>>, p: nat, n: Node<T>)
    requires p <= |ns|
    ensures Data(ns[..p] + [n] + ns[p..]) == Data(ns)[..p] + [n.data] + Data(ns)[p..]
  {
  }

  /** The data of a node sequence with one node dropped is the data with that value dropped. */
  lemma DataRemove<T>(ns: seq<Node<T>>, k: nat)
    requires k < |ns|
    ensures Data(ns[..k] + ns[k + 1..]) == Data(ns)[..k] + Data(ns)[k + 1..]
  {
  }

  /** The data of the reversed node sequence is the reversed data. */
  lemma DataReverse<T>(ns: seq<Node<T>>)
    ensures Data(Seqs.Reverse(ns)) == Seqs.Reverse(Data(ns))
  {
    forall p | 0 <= p < |ns| ensures Data(Seqs.Reverse(ns))[p] == Seqs.Reverse(Data(ns))[p] {
      Seqs.ReverseIndex(ns, p);
      Seqs.ReverseIndex(Data(ns), p);
    }
  }

  /**
   * Splicing a node that was not in the chain in at position `p` yields a valid list,
   * provided the two links on each side of it are set and every other link is as before.
   */
  lemma ValidAfterSplice<T>(l: List<T>, ns: seq<Node<T>>, p: nat, n: Node<T>)
    requires p <= |ns| && Seqs.Distinct(ns) && n !in ns
    requires l.nodes == ns[..p] + [n] + ns[p..] && l.length == |ns| + 1
    requires l.head == (if p == 0 then n else ns[0])
    requires l.tail == (if p == |ns| then n else ns[|ns| - 1])
    requires n.list == l && forall i :: 0 <= i < |ns| ==> ns[i].list == l
    requires 0 < p ==> n.prev == ns[p - 1] && ns[p - 1].next == n
    requires p < |ns| ==> n.next == ns[p] && ns[p].prev == n
    requires p == |ns| ==> n.next == null
    requires p < |ns| ==> ns[|ns| - 1].next == null
    requires forall i :: 0 <= i < |ns| - 1 && i != p - 1 ==> ns[i].next == ns[i + 1]
    requires forall i :: 0 < i < |ns| && i != p ==> ns[i].prev == ns[i - 1]
    ensures l.Valid()
  {
    var ns' := l.nodes;
    forall i | 0 <= i < |ns'|
      ensures ns'[i].list == l
      ensures i < |ns'| - 1 ==> ns'[i].next == ns'[i + 1]
      ensures 0 < i ==> ns'[i].prev == ns'[i - 1]
    {
      if i < p {
        assert ns'[i] == ns[i];
        assert i + 1 < p ==> ns'[i + 1] == ns[i + 1];
        assert 0 < i ==> ns'[i - 1] == ns[i - 1];
      } else if i == p {
        assert ns'[i] == n;
        assert i + 1 < |ns'| ==> ns'[i + 1] == ns[p];
      } else {
        assert ns'[i] == ns[i - 1];
        assert i + 1 < |ns'| ==> ns'[i + 1] == ns[i];
        assert i - 1 > p ==> ns'[i - 1] == ns[i - 2];
      }
    }
    assert Seqs.Distinct(ns') by {
      forall i, j | 0 <= i < j < |ns'| ensures ns'[i] != ns'[j] {
        assert ns'[i] == n || ns'[i] in ns;
        assert ns'[j] == n || ns'[j] in ns;
      }
    }
  }

  /**
   * Dropping the node at position `k` yields a valid list, provided its neighbours are
   * linked to each other and every other link is as before.
   */
  lemma ValidAfterRemoval<T>(l: List<T>, ns: seq<Node<T>>, k: nat)
    requires k < |ns| && Seqs.Distinct(ns)
    requires l.nodes == ns[..k] + ns[k + 1..] && l.length == |ns| - 1
    requires l.head == (if |ns| == 1 then null else if k == 0 then ns[1] else ns[0])
    requires l.tail == (if |ns| == 1 then null else if k == |ns| - 1 then ns[k - 1] else ns[|ns| - 1])
    requires forall i :: 0 <= i < |ns| && i != k ==> ns[i].list == l
    requires 0 < k < |ns| - 1 ==> ns[k - 1].next == ns[k + 1] && ns[k + 1].prev == ns[k - 1]
    requires 0 < k == |ns| - 1 ==> ns[k - 1].next == null
    requires k < |ns| - 1 ==> ns[|ns| - 1].next == null
    requires forall i :: 0 <= i < |ns| - 1 && i != k - 1 && i != k ==> ns[i].next == ns[i + 1]
    requires forall i :: 0 < i < |ns| && i != k && i != k + 1 ==> ns[i].prev == ns[i - 1]
    ensures l.Valid()
  {
    var ns' := l.nodes;
    forall i | 0 <= i < |ns'|
      ensures ns'[i].list == l
      ensures i < |ns'| - 1 ==> ns'[i].next == ns'[i + 1]
      ensures 0 < i ==> ns'[i].prev == ns'[i - 1]
    {
      if i < k {
        assert ns'[i] == ns[i];
        assert i + 1 < k ==> ns'[i + 1] == ns[i + 1];
        assert i + 1 == k && i + 1 < |ns'| ==> ns'[i + 1] == ns[k + 1];
        assert 0 < i ==> ns'[i - 1] == ns[i - 1];
      } else {
        assert ns'[i] == ns[i + 1];
        assert i + 1 < |ns'| ==> ns'[i + 1] == ns[i + 2];
        assert i == k && 0 < i ==> ns'[i - 1] == ns[k - 1];
        assert i > k ==> ns'[i - 1] == ns[i];
      }
    }
    assert Seqs.Distinct(ns') by {
      forall i, j | 0 <= i < j < |ns'| ensures ns'[i] != ns'[j] {
        assert ns'[i] == ns[if i < k then i else i + 1];
        assert ns'[j] == ns[if j < k then j else j + 1];
      }
    }
  }

  /**
   * Walking the reversed node sequence forward follows the old backward links: when each
   * node's `prev` is its old successor and its `next` its old predecessor, the reversed
   * sequence is chained by `next` and `prev` as `Valid()` asks, and the list over it is valid
   * once its last node, the old first one, has no `next`.
   */
  lemma ValidReversed<T>(l: List<T>, ns: seq<Node<T>>)
    requires |ns| > 0 && Seqs.Distinct(ns)
    requires l.nodes == Seqs.Reverse(ns) && l.length == |ns|
    requires l.head == ns[|ns| - 1] && l.tail == ns[0]
    requires forall j :: 0 <= j < |ns| ==> ns[j].list == l
    requires forall j :: 0 <= j < |ns| - 1 ==> ns[j].prev == ns[j + 1]
    requires forall j :: 0 < j < |ns| ==> ns[j].next == ns[j - 1]
    ensures forall i :: 0 <= i < |l.nodes| ==> l.nodes[i].list == l
    ensures forall i :: 0 <= i < |l.nodes| - 1 ==> l.nodes[i].next == l.nodes[i + 1]
    ensures forall i :: 0 < i < |l.nodes| ==> l.nodes[i].prev == l.nodes[i - 1]
    ensures Seqs.Distinct(l.nodes)
    ensures ns[0].next == null ==> l.Valid()
  {
    var rs := l.nodes;
    forall i | 0 <= i < |rs|
      ensures rs[i] == ns[|ns| - 1 - i]
    {
      Seqs.ReverseIndex(ns, i);
    }
    assert Seqs.Distinct(rs) by {
      forall i, j | 0 <= i < j < |rs| ensures rs[i] != rs[j] {
        assert rs[i] == ns[|ns| - 1 - i] && rs[j] == ns[|ns| - 1 - j];
      }
    }
  }

  /** Where the node at position `k` of a valid list sits: at the ends or between its neighbours. */
  lemma Neighbours<T>(l: List<T>, k: nat)
    requires l.Valid() && k < |l.nodes|
    ensures l.head == l.nodes[k] <==> k == 0
    ensures l.tail == l.nodes[k] <==> k == |l.nodes| - 1
    ensures 0 < k ==> l.nodes[k].prev == l.nodes[k - 1]
    ensures k < |l.nodes| - 1 ==> l.nodes[k].next == l.nodes[k + 1]
  {
  }

  /** The nodes whose data the matcher accepts, in list order, as `select` collects them. */
  ghost function SelectNodes<T>(ns: seq<Node<T>>, m: Matcher<T>): (r: seq<Node<T>>)
    ensures |r| <= |ns|
  {
    if |ns| == 0 then []
    else if Matches(m, ns[0].data) then [ns[0]] + SelectNodes(ns[1..], m)
    else SelectNodes(ns[1..], m)
  }

  /** A node is selected exactly when it is in the sequence and its data matches. */
  lemma {:induction false} SelectNodesMembers<T>(ns: seq<Node<T>>, m: Matcher<T>)
    ensures forall n :: n in SelectNodes(ns, m) <==> n in ns && Matches(m, n.data)
  {
    if |ns| > 0 {
      SelectNodesMembers(ns[1..], m);
      assert ns == [ns[0]] + ns[1..];
    }
  }

  /** Selecting from a sequence without duplicates gives one without duplicates. */
  lemma {:induction false} SelectNodesDistinct<T>(ns: seq<Node<T>>, m: Matcher<T>)
    requires Seqs.Distinct(ns)
    ensures Seqs.Distinct(SelectNodes(ns, m))
  {
    if |ns| > 0 {
      SelectNodesDistinct(ns[1..], m);
      if Matches(m, ns[0].data) {
        var t := SelectNodes(ns[1..], m);
        SelectNodesMembers(ns[1..], m);
        assert ns[0] !in ns[1..];
        assert ns[0] !in t;
        forall i, j | 0 <= i < j < |t| + 1 ensures ([ns[0]] + t)[i] != ([ns[0]] + t)[j] {
          if i == 0 {
            assert ([ns[0]] + t)[j] == t[j - 1];
          } else {
            assert ([ns[0]] + t)[i] == t[i - 1] && ([ns[0]] + t)[j] == t[j - 1];
          }
        }
      }
    }
  }

  /** Selecting over one more node extends the selection by that node exactly when it matches. */
  lemma {:induction false} SelectNodesSnoc<T>(ns: seq<Node<T>>, n: Node<T>, m: Matcher<T>)
    ensures SelectNodes(ns + [n], m) == SelectNodes(ns, m) + (if Matches(m, n.data) then [n] else [])
  {
    if |ns| > 0 {
      assert (ns + [n])[1..] == ns[1..] + [n];
      SelectNodesSnoc(ns[1..], n, m);
    }
  }

  /** The data of the selected nodes is the selection over the data. */
  lemma {:induction false} DataSelectNodes<T>(ns: seq<Node<T>>, m: Matcher<T>)
    ensures Data(SelectNodes(ns, m)) == Select(Data(ns), m)
  {
    if |ns| > 0 {
      assert Data(ns)[1..] == Data(ns[1..]);
      DataSelectNodes(ns[1..], m);
      assert Data([ns[0]] + SelectNodes(ns[1..], m)) == [ns[0].data] + Data(SelectNodes(ns[1..], m));
    }
  }

  /**
   * Removing every node whose data matches leaves the nodes whose data the rejection over
   * the data keeps.
   */
  lemma {:induction false} DataWithoutMatching<T>(ns: seq<Node<T>>, vs: seq<Node<T>>, m: Matcher<T>)
    requires forall i :: 0 <= i < |ns| ==> (ns[i] in vs <==> Matches(m, ns[i].data))
    ensures Data(Seqs.Without(ns, vs)) == Reject(Data(ns), m)
  {
    if |ns| > 0 {
      assert Data(ns)[1..] == Data(ns[1..]);
      DataWithoutMatching(ns[1..], vs, m);
      assert Data([ns[0]] + Seqs.Without(ns[1..], vs)) == [ns[0].data] + Data(Seqs.Without(ns[1..], vs));
    }
  }

  /** One list cell. The list never rewrites a node's data, so `data` is fixed at creation. */
  class Node<T(==)> {
    const data: T
    var prev: Node?<T>
    var next: Node?<T>
    var list: List?<T>

    constructor (data: T, list: List?<T>)
      ensures this.data == data && this.list == list
      ensures prev == null && next == null
    {
      this.data := data;
      this.list := list;
      prev := null;
      next := null;
    }

    /**
     * A node created with its links already set. `Node.new` takes only the data and the list;
     * this constructor stands for a new node whose links the node's own `insert_after` and
     * `insert_before` then set, written as one step.
     */
    constructor Linked(data: T, list: List?<T>, prev: Node?<T>, next: Node?<T>)
      ensures this.data == data && this.list == list
      ensures this.prev == prev && this.next == next
    {
      this.data := data;
      this.list := list;
      this.prev := prev;
      this.next := next;
    }

    /**
     * Splices a new node holding `x` right after this one; the owning list's tail moves
     * to it when this node was the tail, and its length grows by one.
     */
    method InsertAfter(x: T) returns (n: Node<T>)
      requires list != null && list.Valid() && this in list.nodes
      modifies list, list.nodes
      ensures list == old(list) && list.Valid()
      ensures fresh(n) && n.data == x && n.list == list
      ensures var k := old(list.IndexOf(this));
        list.nodes == old(list.nodes)[..k + 1] + [n] + old(list.nodes)[k + 1..]
      ensures var k := old(list.IndexOf(this));
        list.Contents() == old(list.Contents())[..k + 1] + [x] + old(list.Contents())[k + 1..]
      ensures list.length == old(list.length) + 1
      ensures list.head == old(list.head)
      ensures old(list.tail) == this ==> list.tail == n
      ensures old(list.tail) != this ==> list.tail == old(list.tail)
      ensures old(list.WellLinked()) ==> list.WellLinked()
    {
      var l := list;
      ghost var ns := l.nodes;
      ghost var p := l.IndexOf(this) + 1;
      assert l.tail == this <==> p == |ns|;
      assert p < |ns| ==> next == ns[p];
      n := new Node.Linked(x, l, this, next);
      if l.tail == this {
        l.tail := n;
      } else {
        next.prev := n;
      }
      next := n;
      l.length := l.length + 1;
      l.nodes := ns[..p] + [n] + ns[p..];
      ValidAfterSplice(l, ns, p, n);
      DataSplice(ns, p, n);
    }

    /**
     * Splices a new node holding `x` right before this one; the owning list's head moves
     * to it when this node was the head, and its length grows by one.
     */
    method InsertBefore(x: T) returns (n: Node<T>)
      requires list != null && list.Valid() && this in list.nodes
      modifies list, list.nodes
      ensures list == old(list) && list.Valid()
      ensures fresh(n) && n.data == x && n.list == list
      ensures var k := old(list.IndexOf(this));
        list.nodes == old(list.nodes)[..k] + [n] + old(list.nodes)[k..]
      ensures var k := old(list.IndexOf(this));
        list.Contents() == old(list.Contents())[..k] + [x] + old(list.Contents())[k..]
      ensures list.length == old(list.length) + 1
      ensures list.tail == old(list.tail)
      ensures old(list.head) == this ==> list.head == n
      ensures old(list.head) != this ==> list.head == old(list.head)
      ensures old(list.WellLinked()) ==> list.WellLinked()
    {
      var l := list;
      ghost var ns := l.nodes;
      ghost var k := l.IndexOf(this);
      assert l.head == this <==> k == 0;
      assert k > 0 ==> prev == ns[k - 1];
      n := new Node.Linked(x, l, prev, this);
      if l.head == this {
        l.head := n;
      } else {
        prev.next := n;
      }
      prev := n;
      l.length := l.length + 1;
      l.nodes := ns[..k] + [n] + ns[k..];
      ValidAfterSplice(l, ns, k, n);
      DataSplice(ns, k, n);
    }

    /**
     * Takes this node out of its list: the neighbours are linked around it, the list's
     * head and tail move off it, the length drops by one, and the node keeps no links.
     */
    method Unlink()
      requires list != null && list.Valid() && this in list.nodes
      modifies list, this, if list.head == this then {} else {prev}, if list.tail == this then {} else {next}
      ensures old(list).Valid()
      ensures var k := old(list.IndexOf(this));
        old(list).nodes == old(list.nodes)[..k] + old(list.nodes)[k + 1..]
      ensures var k := old(list.IndexOf(this));
        old(list).Contents() == old(list.Contents())[..k] + old(list.Contents())[k + 1..]
      ensures old(list).length == old(list.length) - 1
      ensures prev == null && next == null && list == null
      ensures old(list.WellLinked()) ==> old(list).WellLinked()
    {
      var l := list;
      ghost var ns := l.nodes;
      ghost var k := l.IndexOf(this);
      assert l.head == this <==> k == 0;
      assert l.tail == this <==> k == |ns| - 1;
      assert k > 0 ==> prev == ns[k - 1];
      assert k < |ns| - 1 ==> next == ns[k + 1];
      var wasHead := l.head == this;
      if wasHead {
        l.head := next;
      } else {
        prev.next := next;
      }
      if l.tail == this {
        l.tail := if wasHead then null else prev;
      } else {
        next.prev := prev;
      }
      l.length := l.length - 1;
      l.nodes := ns[..k] + ns[k + 1..];
      prev, next, list := null, null, null;
      ValidAfterRemoval(l, ns, k);
      DataRemove(ns, k);
    }
  }

  class List<T(==)> {
    var head: Node?<T>
    var tail: Node?<T>
    var length: int
    ghost var nodes: seq<Node<T>>

    /**
     * The forward structure: `head`, `tail` and `length` agree with `nodes`, each node's
     * `next` is its successor, each node after the first has its predecessor as `prev`,
     * the tail has no `next`, every node belongs to this list and none occurs twice.
     * The head's `prev` is left out: `__shift` does not clear it (see `WellLinked`).
     */
    ghost predicate Valid()
      reads this, nodes
    {
      && length == |nodes|
      && (|nodes| == 0 ==> head == null && tail == null)
      && (|nodes| > 0 ==> head == nodes[0] && tail == nodes[|nodes| - 1])
      && (|nodes| > 0 ==> nodes[|nodes| - 1].next == null)
      && (forall i :: 0 <= i < |nodes| ==> nodes[i].list == this)
      && (forall i :: 0 <= i < |nodes| - 1 ==> nodes[i].next == nodes[i + 1])
      && (forall i :: 0 < i < |nodes| ==> nodes[i].prev == nodes[i - 1])
      && Seqs.Distinct(nodes)
    }

    /** `Valid()` and, in addition, no `prev` link leads out of the list at the head. */
    ghost predicate WellLinked()
      reads this, nodes
    {
      Valid() && (head != null ==> head.prev == null)
    }

    /** The data values from head to tail. */
    ghost function Contents(): seq<T>
      reads this
    {
      Data(nodes)
    }

    /** Position of a node of this list. */
    ghost function IndexOf(n: Node<T>): (k: nat)
      reads this
      requires n in nodes
      ensures k < |nodes| && nodes[k] == n
    {
      var k :| 0 <= k < |nodes| && nodes[k] == n; k
    }

    /** A new list has no nodes. */
    constructor ()
      ensures WellLinked() && nodes == [] && Contents() == []
      ensures head == null && tail == null && length == 0
    {
      head, tail, length := null, null, 0;
      nodes := [];
    }

    /** The first element, or nothing for an empty list. */
    function First(): (r: Option<T>)
      reads this, nodes
      requires Valid()
      ensures r.None? <==> length == 0
      ensures r.Some? ==> r.value == Contents()[0]
    {
      if head == null then None else Some(head.data)
    }

    /** The last element, or nothing for an empty list. */
    function Last(): (r: Option<T>)
      reads this, nodes
      requires Valid()
      ensures r.None? <==> length == 0
      ensures r.Some? ==> r.value == Contents()[|Contents()| - 1]
    {
      if tail == null then None else Some(tail.data)
    }

    /** Appends a fresh node holding `x` after the tail and returns the list itself. */
    method Push(x: T) returns (self: List<T>)
      requires Valid()
      modifies this, nodes
      ensures self == this && Valid()
      ensures |nodes| == |old(nodes)| + 1 && nodes[..|old(nodes)|] == old(nodes)
      ensures fresh(nodes[|nodes| - 1])
      ensures Contents() == old(Contents()) + [x]
      ensures length == old(length) + 1 && tail != null && tail.data == x
      ensures old(head) == null ==> head == tail
      ensures old(head) != null ==> head == old(head) && head.prev == old(head.prev)
      ensures old(WellLinked()) ==> WellLinked()
    {
      var node := new Node(x, this);
      if head == null {
        head := node;
      }
      if tail != null {
        tail.next := node;
        node.prev := tail;
      }
      tail := node;
      length := length + 1;
      nodes := nodes + [node];
      assert Data(nodes) == Data(old(nodes)) + [x];
      self := this;
    }

    /** Prepends a fresh node holding `x` before the head and returns the list itself. */
    method Unshift(x: T) returns (self: List<T>)
      requires Valid()
      modifies this, nodes
      ensures self == this && WellLinked()
      ensures |nodes| == |old(nodes)| + 1 && nodes[1..] == old(nodes)
      ensures fresh(nodes[0])
      ensures Contents() == [x] + old(Contents())
      ensures length == old(length) + 1 && head != null && head.data == x
      ensures old(tail) == null ==> tail == head
      ensures old(tail) != null ==> tail == old(tail)
    {
      var node := new Node(x, this);
      if tail == null {
        tail := node;
      }
      node.next := head;
      if head != null {
        head.prev := node;
      }
      head := node;
      length := length + 1;
      nodes := [node] + nodes;
      assert Data(nodes) == [x] + Data(old(nodes));
      self := this;
    }

    /**
     * Removes the tail and returns its data. The new tail is found through the old tail's
     * `prev`, so on a one-node list whose head still has a stale `prev` the list is left
     * with `length == 0` but a head, and the stale node as its tail.
     */
    method Pop() returns (r: Option<T>)
      requires Valid()
      modifies this, nodes, if length == 1 && head != null && head.prev != null then {head.prev} else {}
      ensures old(length) == 0 ==> r == None && unchanged(this)
      ensures old(length) > 0 ==> r == Some(old(Contents())[old(length) - 1]) && length == old(length) - 1
      ensures old(length) > 1 || (old(length) == 1 && old(WellLinked())) ==>
        Valid() && nodes == old(nodes)[..old(length) - 1] && Contents() == old(Contents())[..old(length) - 1]
      ensures old(length) > 0 && old(WellLinked()) ==> WellLinked()
      ensures old(length) > 1 ==> head == old(head) && head.prev == old(head.prev)
      ensures old(length) == 1 && old(head.prev) != null ==>
        head == old(head) && tail == old(head.prev) && tail.next == null
    {
      if head == null {
        return None;
      }
      var t := tail;
      assert |nodes| > 1 ==> t.prev == nodes[|nodes| - 2];
      assert |nodes| == 1 ==> t == head;
      tail := t.prev;
      if tail != null {
        tail.next := null;
      }
      if tail == null {
        head := null;
      }
      length := length - 1;
      nodes := nodes[..|nodes| - 1];
      r := Some(t.data);
    }

    /**
     * Removes the head and returns its data, exactly as `__shift` does: the removed node's
     * `next` is cleared but the new head keeps its `prev` pointing at the removed node.
     */
    method ShiftAsWritten() returns (r: Option<T>)
      requires Valid()
      modifies this, nodes
      ensures old(length) == 0 ==> r == None && unchanged(this)
      ensures old(length) > 0 ==> r == Some(old(Contents())[0]) && length == old(length) - 1
      ensures Valid() && nodes == if old(length) == 0 then old(nodes) else old(nodes)[1..]
      ensures Contents() == if old(length) == 0 then old(Contents()) else old(Contents())[1..]
      ensures old(length) > 1 ==> head.prev == old(head)
      ensures old(length) > 0 ==> old(head).next == null
    {
      if head == null {
        return None;
      }
      var h := head;
      head := h.next;
      h.next := null;
      if head == null {
        tail := null;
      }
      length := length - 1;
      nodes := nodes[1..];
      r := Some(h.data);
    }

    /** `__shift` corrected: the new head's `prev` is cleared, so the back links stay well formed. */
    method Shift() returns (r: Option<T>)
      requires Valid()
      modifies this, nodes
      ensures old(length) == 0 ==> r == None && unchanged(this)
      ensures old(length) > 0 ==> r == Some(old(Contents())[0]) && length == old(length) - 1
      ensures old(length) > 0 ==> WellLinked()
      ensures Valid() && nodes == if old(length) == 0 then old(nodes) else old(nodes)[1..]
      ensures Contents() == if old(length) == 0 then old(Contents()) else old(Contents())[1..]
      ensures old(WellLinked()) ==> WellLinked()
    {
      if head == null {
        return None;
      }
      var h := head;
      assert |nodes| > 1 ==> h.next == nodes[1];
      head := h.next;
      h.next := null;
      if head == null {
        tail := null;
      } else {
        head.prev := null;
      }
      length := length - 1;
      nodes := nodes[1..];
      r := Some(h.data);
    }

    /**
     * `reverse!` exactly as written: `__each` reads `next` only after the block has swapped
     * it with `prev`, so on a well-linked list the walk stops after the head. Only the head's
     * links are swapped before `head` and `tail` trade places.
     */
    method ReverseInPlaceAsWritten() returns (self: List<T>)
      requires WellLinked()
      modifies this, nodes
      ensures self == this && length == old(length) && nodes == old(nodes)
      ensures head == old(tail) && tail == old(head)
      ensures old(length) > 0 ==> old(head).prev == old(head.next) && old(head).next == null
      ensures forall i :: 0 < i < |nodes| ==> nodes[i].prev == old(nodes[i].prev) && nodes[i].next == old(nodes[i].next)
      ensures old(length) > 1 ==> head != null && head.next == null && head.data == old(Contents())[old(length) - 1]
    {
      if head == null {
        return this;
      }
      ghost var h := head;
      var curr := head;
      ghost var visited := 0;
      while curr != null
        invariant visited <= 1
        invariant head == h && tail == old(tail) && nodes == old(nodes) && length == old(length)
        invariant visited == 0 ==> curr == h && h.prev == null && h.next == old(h.next)
        invariant visited == 1 ==> curr == null && h.prev == old(h.next) && h.next == null
        invariant forall i :: 0 < i < |nodes| ==> nodes[i].prev == old(nodes[i].prev) && nodes[i].next == old(nodes[i].next)
        decreases 1 - visited
      {
        curr.prev, curr.next := curr.next, curr.prev;
        curr := curr.next;
        visited := visited + 1;
      }
      head, tail := tail, head;
      self := this;
    }

    /**
     * `__each` over the nodes with `reverse!`'s block, which swaps each node's `prev` and
     * `next`; the walk reads a node's `next` before the block runs on it.
     */
    method SwapLinks()
      requires Valid()
      modifies nodes
      ensures forall j :: 0 <= j < |nodes| ==> nodes[j].prev == old(nodes[j].next) && nodes[j].next == old(nodes[j].prev)
      ensures forall j :: 0 <= j < |nodes| ==> nodes[j].list == this
    {
      var curr := head;
      ghost var i := 0;
      while curr != null
        invariant 0 <= i <= |nodes|
        invariant curr == if i < |nodes| then nodes[i] else null
        invariant forall j :: 0 <= j < |nodes| ==> nodes[j].list == this
        invariant forall j :: 0 <= j < i ==> nodes[j].prev == old(nodes[j].next) && nodes[j].next == old(nodes[j].prev)
        invariant forall j :: i <= j < |nodes| ==> nodes[j].prev == old(nodes[j].prev) && nodes[j].next == old(nodes[j].next)
        decreases |nodes| - i
      {
        var succ := curr.next;
        curr.prev, curr.next := curr.next, curr.prev;
        curr := succ;
        i := i + 1;
      }
    }

    /**
     * `reverse!` with the walk corrected to read each node's `next` before swapping its
     * links: every node's `prev` and `next` trade places and `head` and `tail` swap, so the
     * node sequence is reversed. The old head's `prev` becomes the new tail's `next`; when it
     * is a stale link left by `__shift`, that node becomes reachable past the tail; the
     * reversed nodes are still chained by `next` and `prev` as in a valid list.
     */
    method ReverseInPlace() returns (self: List<T>)
      requires Valid()
      modifies this, nodes
      ensures self == this && length == old(length)
      ensures nodes == Seqs.Reverse(old(nodes)) && Contents() == Seqs.Reverse(old(Contents()))
      ensures head == old(tail) && tail == old(head)
      ensures old(length) > 0 ==> tail.next == old(head.prev)
      ensures forall i :: 0 <= i < |nodes| ==> nodes[i].list == this
      ensures forall i :: 0 <= i < |nodes| - 1 ==> nodes[i].next == nodes[i + 1]
      ensures forall i :: 0 < i < |nodes| ==> nodes[i].prev == nodes[i - 1]
      ensures Seqs.Distinct(nodes)
      ensures old(WellLinked()) ==> WellLinked()
    {
      if head == null {
        return this;
      }
      ghost var ns := nodes;
      SwapLinks();
      assert forall j :: 0 <= j < |ns| - 1 ==> ns[j].prev == ns[j + 1];
      assert forall j :: 0 < j < |ns| ==> ns[j].next == ns[j - 1];
      head, tail := tail, head;
      nodes := Seqs.Reverse(ns);
      ValidReversed(this, ns);
      DataReverse(ns);
      self := this;
    }

    /**
     * Building a list from a sequence, as the `List()` conversion does for an array: a new
     * list, then a push of each element in order.
     */
    static method FromSeq(xs: seq<T>) returns (l: List<T>)
      ensures fresh(l) && l.WellLinked() && l.Contents() == xs
      ensures forall i :: 0 <= i < |l.nodes| ==> fresh(l.nodes[i])
    {
      l := new List();
      for i := 0 to |xs|
        invariant fresh(l) && l.WellLinked() && l.Contents() == xs[..i]
        invariant forall j :: 0 <= j < |l.nodes| ==> fresh(l.nodes[j])
      {
        var _ := l.Push(xs[i]);
        assert xs[..i + 1] == xs[..i] + [xs[i]];
      }
      assert xs[..|xs|] == xs;
    }

    /**
     * `reverse`: a new list built from `to_a` and reversed in place; this list is left as it
     * was, and the new one shares no node with it.
     */
    method Reverse() returns (r: List<T>)
      requires Valid()
      ensures fresh(r) && r.WellLinked() && r.Contents() == Seqs.Reverse(Contents())
      ensures forall i :: 0 <= i < |r.nodes| ==> fresh(r.nodes[i])
    {
      var xs := ToA();
      r := FromSeq(xs);
      r := r.ReverseInPlace();
    }

    /**
     * `reverse` exactly as written: the copy built from `to_a` is reversed by the `reverse!`
     * walk as written, so only its first node's links are swapped. The copy's `length` is this
     * list's, but its new head holds the last element and has no `next`, so a walk from it
     * yields that one element.
     */
    method ReverseAsWritten() returns (r: List<T>)
      requires Valid()
      ensures fresh(r) && r.length == length
      ensures length == 0 ==> r.head == null && r.tail == null
      ensures length > 0 ==> r.head != null && r.head.data == Contents()[length - 1] && r.head.next == null
      ensures length > 0 ==> r.tail != null && r.tail.data == Contents()[0]
    {
      var xs := ToA();
      r := FromSeq(xs);
      r := r.ReverseInPlaceAsWritten();
    }

    /** The nodes met walking from `head` along `next`, as `__each` visits them. */
    method EachNode() returns (ns: seq<Node<T>>)
      requires Valid()
      ensures ns == nodes && |ns| == length
    {
      ns := [];
      var curr := head;
      while curr != null
        invariant |ns| <= |nodes|
        invariant ns == nodes[..|ns|]
        invariant curr == if |ns| < |nodes| then nodes[|ns|] else null
        decreases |nodes| - |ns|
      {
        ns := ns + [curr];
        curr := curr.next;
      }
    }

    /** The data values from head to tail. */
    method Each() returns (xs: seq<T>)
      requires Valid()
      ensures xs == Contents() && |xs| == length
    {
      var ns := EachNode();
      xs := Data(ns);
    }

    /** The list as an array of its data values. */
    method ToA() returns (xs: seq<T>)
      requires Valid()
      ensures xs == Contents() && |xs| == length
    {
      xs := Each();
    }

    /** The first node, walking from the head, whose data the matcher accepts. */
    method FindNode(m: Matcher<T>) returns (found: Node?<T>)
      requires Valid()
      ensures IndexOfFirst(Contents(), m).None? ==> found == null
      ensures IndexOfFirst(Contents(), m).Some? ==> found == nodes[IndexOfFirst(Contents(), m).value]
    {
      var curr := head;
      ghost var i := 0;
      while curr != null && !Matches(m, curr.data)
        invariant 0 <= i <= |nodes|
        invariant curr == if i < |nodes| then nodes[i] else null
        invariant forall j :: 0 <= j < i ==> !Matches(m, Contents()[j])
        decreases |nodes| - i
      {
        curr := curr.next;
        i := i + 1;
      }
      if curr != null {
        assert Matches(m, Contents()[i]);
      }
      found := curr;
    }

    /**
     * `insert_after`: builds the matcher, finds the first matching node walking from the
     * head and splices a node holding `toAdd` right after it, returning the new node.
     */
    method InsertAfter(toAdd: T, val: Option<T>, block: Option<T -> bool>) returns (r: Result<Option<Node<T>>>)
      requires Valid()
      modifies this, nodes
      ensures Valid()
      ensures match ToMatcher(val, block)
        case ArgumentError => r == ArgumentError && unchanged(this) && unchanged(nodes)
        case Ok(m) =>
          match IndexOfFirst(old(Contents()), m)
          case None => r == Ok(None) && unchanged(this) && unchanged(nodes)
          case Some(k) =>
            && r.Ok? && r.value.Some? && fresh(r.value.value) && r.value.value.data == toAdd
            && nodes == old(nodes)[..k + 1] + [r.value.value] + old(nodes)[k + 1..]
            && Contents() == old(Contents())[..k + 1] + [toAdd] + old(Contents())[k + 1..]
            && length == old(length) + 1
      ensures old(WellLinked()) ==> WellLinked()
    {
      var mr := ToMatcher(val, block);
      if mr.ArgumentError? {
        return ArgumentError;
      }
      var found := FindNode(mr.value);
      if found == null {
        return Ok(None);
      }
      ghost var k := IndexOfFirst(Contents(), mr.value).value;
      assert IndexOf(found) == k;
      var n := found.InsertAfter(toAdd);
      r := Ok(Some(n));
    }

    /**
     * `insert_before`: builds the matcher, finds the first matching node walking from the
     * head and splices a node holding `toAdd` right before it, returning the new node.
     */
    method InsertBefore(toAdd: T, val: Option<T>, block: Option<T -> bool>) returns (r: Result<Option<Node<T>>>)
      requires Valid()
      modifies this, nodes
      ensures Valid()
      ensures match ToMatcher(val, block)
        case ArgumentError => r == ArgumentError && unchanged(this) && unchanged(nodes)
        case Ok(m) =>
          match IndexOfFirst(old(Contents()), m)
          case None => r == Ok(None) && unchanged(this) && unchanged(nodes)
          case Some(k) =>
            && r.Ok? && r.value.Some? && fresh(r.value.value) && r.value.value.data == toAdd
            && nodes == old(nodes)[..k] + [r.value.value] + old(nodes)[k..]
            && Contents() == old(Contents())[..k] + [toAdd] + old(Contents())[k..]
            && length == old(length) + 1
      ensures old(WellLinked()) ==> WellLinked()
    {
      var mr := ToMatcher(val, block);
      if mr.ArgumentError? {
        return ArgumentError;
      }
      var found := FindNode(mr.value);
      if found == null {
        return Ok(None);
      }
      ghost var k := IndexOfFirst(Contents(), mr.value).value;
      assert IndexOf(found) == k;
      var n := found.InsertBefore(toAdd);
      r := Ok(Some(n));
    }

    /**
     * `delete`: unlinks the first node whose data matches and returns that data; with no
     * match nothing changes.
     */
    method Delete(val: Option<T>, block: Option<T -> bool>) returns (r: Result<Option<T>>)
      requires Valid()
      modifies this, nodes
      ensures Valid()
      ensures match ToMatcher(val, block)
        case ArgumentError => r == ArgumentError && unchanged(this) && unchanged(nodes)
        case Ok(m) =>
          match IndexOfFirst(old(Contents()), m)
          case None => r == Ok(None) && unchanged(this) && unchanged(nodes)
          case Some(k) =>
            && r == Ok(Some(old(Contents())[k]))
            && nodes == old(nodes)[..k] + old(nodes)[k + 1..]
            && Contents() == old(Contents())[..k] + old(Contents())[k + 1..]
            && length == old(length) - 1
      ensures old(WellLinked()) ==> WellLinked()
    {
      var mr := ToMatcher(val, block);
      if mr.ArgumentError? {
        return ArgumentError;
      }
      var found := FindNode(mr.value);
      if found == null {
        return Ok(None);
      }
      ghost var k := IndexOfFirst(Contents(), mr.value).value;
      assert IndexOf(found) == k;
      Neighbours(this, k);
      found.Unlink();
      r := Ok(Some(found.data));
    }

    /** `each_node.select`: the nodes whose data the matcher accepts, collected walking from the head. */
    method SelectNodesOf(m: Matcher<T>) returns (vs: seq<Node<T>>)
      requires Valid()
      ensures vs == SelectNodes(nodes, m)
    {
      var all := EachNode();
      vs := [];
      for i := 0 to |all|
        invariant vs == SelectNodes(all[..i], m)
      {
        SelectNodesSnoc(all[..i], all[i], m);
        assert all[..i + 1] == all[..i] + [all[i]];
        if Matches(m, all[i].data) {
          vs := vs + [all[i]];
        }
      }
      assert all[..|all|] == all;
    }

    /** Unlinks the given nodes of this list one after the other, as `delete_all` does with the ones it collected. */
    method UnlinkAll(vs: seq<Node<T>>)
      requires Valid() && Seqs.Distinct(vs)
      requires forall i :: 0 <= i < |vs| ==> vs[i] in nodes
      modifies this, nodes
      ensures Valid() && nodes == Seqs.Without(old(nodes), vs)
      ensures old(WellLinked()) ==> WellLinked()
      ensures |vs| == 0 ==> unchanged(this) && unchanged(nodes)
    {
      ghost var ns := nodes;
      Seqs.WithoutNone(ns, []);
      assert vs[..0] == [];
      for j := 0 to |vs|
        invariant Valid()
        invariant nodes == Seqs.Without(ns, vs[..j])
        invariant old(WellLinked()) ==> WellLinked()
        invariant |vs| == 0 ==> unchanged(this) && unchanged(ns)
      {
        UnlinkNext(ns, vs, j);
      }
      assert vs[..|vs|] == vs;
    }

    /** One step of `UnlinkAll`: unlinks `vs[j]`, the next of the collected nodes still in the list. */
    method UnlinkNext(ghost ns: seq<Node<T>>, vs: seq<Node<T>>, j: nat)
      requires Valid() && Seqs.Distinct(vs) && j < |vs| && vs[j] in ns
      requires nodes == Seqs.Without(ns, vs[..j])
      modifies this, ns
      ensures Valid() && nodes == Seqs.Without(ns, vs[..j + 1])
      ensures old(WellLinked()) ==> WellLinked()
    {
      var v := vs[j];
      Seqs.DistinctNotBefore(vs, j);
      Seqs.WithoutKeeps(ns, vs[..j], v);
      ghost var before := nodes;
      ghost var k := IndexOf(v);
      Neighbours(this, k);
      if 0 < k {
        Seqs.WithoutFrom(ns, vs[..j], k - 1);
      }
      if k < |before| - 1 {
        Seqs.WithoutFrom(ns, vs[..j], k + 1);
      }
      Seqs.WithoutStep(ns, vs, j, k);
      assert v.list == this;
      v.Unlink();
      assert nodes == before[..k] + before[k + 1..];
    }

    /**
     * `delete_all`: first collects every node whose data matches, then unlinks them one by
     * one, and returns their data in list order; the nodes that do not match stay, in order.
     */
    method DeleteAll(val: Option<T>, block: Option<T -> bool>) returns (r: Result<seq<T>>)
      requires Valid()
      modifies this, nodes
      ensures Valid()
      ensures match ToMatcher(val, block)
        case ArgumentError => r == ArgumentError && unchanged(this) && unchanged(nodes)
        case Ok(m) =>
          && r == Ok(Select(old(Contents()), m))
          && nodes == Seqs.Without(old(nodes), SelectNodes(old(nodes), m))
          && Contents() == Reject(old(Contents()), m)
          && length == |Reject(old(Contents()), m)|
          && (IndexOfFirst(old(Contents()), m).None? ==> r == Ok([]) && unchanged(this) && unchanged(nodes))
      ensures old(WellLinked()) ==> WellLinked()
    {
      var mr := ToMatcher(val, block);
      if mr.ArgumentError? {
        return ArgumentError;
      }
      var m := mr.value;
      var victims := SelectNodesOf(m);
      ghost var ns := nodes;
      assert Seqs.Distinct(victims) && forall i :: 0 <= i < |victims| ==> victims[i] in ns by {
        SelectNodesMembers(ns, m);
        SelectNodesDistinct(ns, m);
      }
      DataSelectNodes(ns, m);
      if IndexOfFirst(Data(ns), m).None? {
        NoMatchSelectsNothing(Data(ns), m);
        assert |victims| == 0;
      }
      UnlinkAll(victims);
      assert forall i :: 0 <= i < |ns| ==> (ns[i] in victims <==> Matches(m, ns[i].data)) by {
        SelectNodesMembers(ns, m);
      }
      DataWithoutMatching(ns, victims, m);
      r := Ok(Data(victims));
    }
  }
}
