/** Sequential meaning of threadsafe_list<T>: a singly linked list of heap nodes whose
    first node is a sentinel carrying no user data.  The per-node mutexes are erased;
    every operation below is what one thread does when no other thread touches the list. */
module ThreadsafeList {
  import opened ListSpec

  /** The object a node's `std::shared_ptr<T>` points to. */
  class Cell<T> {
    const value: T

    constructor (value: T)
      ensures this.value == value
    {
      this.value := value;
    }
  }

  /** A list node: `data` is null only for the sentinel, `next` owns the rest of the chain. */
  class Node<T> {
    const data: Cell?<T>
    var next: Node?<T>

    /** `node()`: the sentinel, with no user data. */
    constructor Sentinel()
      ensures data == null && next == null
    {
      data := null;
      next := null;
    }

    /** `node(T const& value)`: a data node holding a fresh copy of `value`. */
    constructor (value: T)
      ensures data != null && fresh(data) && data.value == value
      ensures next == null
    {
      data := new Cell(value);
      next := null;
    }
  }

  /** The node after position `i` of the chain `h, ns[0], ns[1], ...` (0 is `h`): what
      position `i`'s `next` must point to. */
  ghost function Successor<T>(ns: seq<Node<T>>, i: nat): (n: Node?<T>)
  {
    if i < |ns| then ns[i] else null
  }

  /** `h.next`, `ns[0].next`, ... visit exactly the nodes of `ns`, in order, and end in null. */
  ghost predicate Linked<T>(h: Node<T>, ns: seq<Node<T>>)
    reads h, ns
  {
    && h.next == Successor(ns, 0)
    && forall i {:trigger ns[i].next} :: 0 <= i < |ns| ==> ns[i].next == Successor(ns, i + 1)
  }

  /** The test `remove_if` applies to a node: it holds data satisfying `p`. */
  ghost function NodeTest<T>(p: T -> bool): (test: Node<T> -> bool)
  {
    (n: Node<T>) => n.data != null && p(n.data.value)
  }

  /** Node `i` of `ns` is a data node holding `cs[i]`. */
  ghost predicate Holds<T>(ns: seq<Node<T>>, cs: seq<T>)
  {
    && |ns| == |cs|
    && forall i {:trigger ns[i].data} :: 0 <= i < |ns| ==> ns[i].data != null && ns[i].data.value == cs[i]
  }

  /** No node occurs twice. */
  ghost predicate Distinct<T>(ns: seq<Node<T>>)
  {
    forall i, j :: 0 <= i < j < |ns| ==> ns[i] != ns[j]
  }

  /** A chain that ends in null cannot revisit a node: two equal nodes would have equal
      successors all the way to the end, where one successor is null and the other not. */
  lemma {:induction false} LinkedNodesDistinct<T>(h: Node<T>, ns: seq<Node<T>>, i: nat, j: nat)
    requires Linked(h, ns) && i < j < |ns|
    ensures ns[i] != ns[j]
    decreases |ns| - j
  {
    if j + 1 < |ns| {
      LinkedNodesDistinct(h, ns, i + 1, j + 1);
      assert ns[i].next == ns[i + 1] && ns[j].next == ns[j + 1];
    } else {
      assert ns[i].next == ns[i + 1] && ns[j].next == null;
    }
  }

  /** Dropping position `m` from the nodes and from the values keeps them in step. */
  lemma HoldsWithout<T>(ns: seq<Node<T>>, cs: seq<T>, m: nat)
    requires Holds(ns, cs) && m < |ns|
    ensures Holds(ns[..m] + ns[m + 1..], cs[..m] + cs[m + 1..])
  {
    var ns', cs' := ns[..m] + ns[m + 1..], cs[..m] + cs[m + 1..];
    assert forall i :: 0 <= i < |ns'| ==> ns'[i] == ns[if i < m then i else i + 1];
    assert forall i :: 0 <= i < |cs'| ==> cs'[i] == cs[if i < m then i else i + 1];
  }

  class List<T> {
    /** The sentinel, an embedded member of the list object: never replaced, never unlinked. */
    const head: Node<T>
    /** The data nodes after the sentinel, front to back. */
    ghost var nodes: seq<Node<T>>
    /** The user values they hold, front to back. */
    ghost var Contents: seq<T>

    /** The sentinel carries no data and is not among the data nodes; following `next`
        from it visits exactly `nodes`, each once, and ends in null; node `i` holds
        `Contents[i]`. */
    ghost predicate Valid()
      reads this, head, nodes
    {
      && head.data == null
      && (forall i :: 0 <= i < |nodes| ==> nodes[i] != head)
      && Linked(head, nodes)
      && Holds(nodes, Contents)
    }

    /** A valid list has no cycle: no node occurs twice in the chain. */
    lemma Acyclic()
      requires Valid()
      ensures Distinct(nodes)
    {
      forall i, j | 0 <= i < j < |nodes|
        ensures nodes[i] != nodes[j]
      {
        LinkedNodesDistinct(head, nodes, i, j);
      }
    }

    /** What `Valid` says about the successor of chain position `k` (0 is the sentinel). */
    lemma NextAt(k: nat)
      requires Valid() && k <= |nodes|
      ensures (if k == 0 then head else nodes[k - 1]).next == Successor(nodes, k)
      ensures k < |nodes| ==> nodes[k].data != null && nodes[k].data.value == Contents[k]
    {
      if k > 0 {
        assert nodes[k - 1].next == Successor(nodes, k);
      }
    }

    /** `threadsafe_list()`: only the sentinel. */
    constructor ()
      ensures Valid() && fresh(head)
      ensures nodes == [] && Contents == []
    {
      head := new Node.Sentinel();
      nodes := [];
      Contents := [];
    }

    /** `push_front`: splice a new node in directly after the sentinel. */
    method PushFront(value: T)
      requires Valid()
      modifies this, head
      ensures Valid()
      ensures Contents == [value] + old(Contents)
      ensures fresh(nodes[0]) && fresh(nodes[0].data) && nodes[1..] == old(nodes)
    {
      var pn := new Node(value);
      pn.next := head.next;
      head.next := pn;
      nodes := [pn] + nodes;
      Contents := [value] + Contents;
      forall i | 0 <= i < |nodes|
        ensures nodes[i].next == Successor(nodes, i + 1)
      {
        if i > 0 {
          var n := old(nodes)[i - 1];
          assert nodes[i] == n && n != head && n != pn;
          assert old(n.next) == Successor(old(nodes), i);
        }
      }
    }

    /** `for_each`: call `f` on the data of every node, front to back.  The callback is
        modelled by the sequence of its results, one per call, in call order; no `next`
        pointer is written (the method modifies nothing). */
    method ForEach<R>(f: T -> R) returns (results: seq<R>)
      requires Valid()
      ensures |results| == |Contents|
      ensures forall i :: 0 <= i < |Contents| ==> results[i] == f(Contents[i])
    {
      results := [];
      var pcurrent := head;
      ghost var visited := 0;
      while pcurrent.next != null
        invariant 0 <= visited <= |nodes|
        invariant pcurrent == if visited == 0 then head else nodes[visited - 1]
        invariant |results| == visited
        invariant forall i :: 0 <= i < visited ==> results[i] == f(Contents[i])
        decreases |nodes| - visited
      {
        NextAt(visited);
        var pnext := pcurrent.next;
        results := results + [f(pnext.data.value)];
        pcurrent := pnext;
        visited := visited + 1;
      }
      NextAt(visited);
    }

    /** `find_first_if`: the data of the first node satisfying `p`; when there is none,
        a newly made cell holding `defaultValue` (the value `T()` would build), which is
        none of the stored cells.  No `next` pointer is written. */
    method FindFirstIf(p: T -> bool, defaultValue: T) returns (r: Cell<T>)
      requires Valid()
      ensures var k := IndexOfFirst(p, Contents);
        if k < |nodes| then r == nodes[k].data
        else fresh(r) && r.value == defaultValue && forall i :: 0 <= i < |nodes| ==> r != nodes[i].data
    {
      var pcurrent := head;
      ghost var visited := 0;
      while pcurrent.next != null
        invariant 0 <= visited <= |nodes|
        invariant pcurrent == if visited == 0 then head else nodes[visited - 1]
        invariant forall i :: 0 <= i < visited ==> !p(Contents[i])
        decreases |nodes| - visited
      {
        NextAt(visited);
        var pnext := pcurrent.next;
        if p(pnext.data.value) {
          IndexOfFirstIsFirstMatch(p, Contents, visited);
          return pnext.data;
        }
        pcurrent := pnext;
        visited := visited + 1;
      }
      NextAt(visited);
      IndexOfFirstIsFirstMatch(p, Contents, |Contents|);
      r := new Cell(defaultValue);
    }

    /** The unlinking step of `remove_if`: the successor of chain position `m` (0 is the
        sentinel) is bypassed, `pcurrent->next` taking over that node's `next`.  Only
        `pcurrent.next` is written. */
    method UnlinkAfter(pcurrent: Node<T>, ghost m: nat)
      requires Valid() && m < |nodes|
      requires pcurrent == if m == 0 then head else nodes[m - 1]
      modifies this, pcurrent
      ensures Valid()
      ensures nodes == old(nodes[..m] + nodes[m + 1..])
      ensures Contents == old(Contents[..m] + Contents[m + 1..])
    {
      NextAt(m);
      var pnext := pcurrent.next;
      ghost var before := nodes;
      Acyclic();
      HoldsWithout(nodes, Contents, m);
      pcurrent.next := pnext.next;
      nodes := nodes[..m] + nodes[m + 1..];
      Contents := Contents[..m] + Contents[m + 1..];
      forall i | 0 <= i < |nodes|
        ensures nodes[i].next == Successor(nodes, i + 1)
      {
        if i + 1 < m {
          assert nodes[i] == before[i] != pcurrent && nodes[i + 1] == before[i + 1];
          assert old(before[i].next) == Successor(before, i + 1);
        } else if m <= i {
          assert nodes[i] == before[i + 1] != pcurrent;
          assert old(before[i + 1].next) == Successor(before, i + 2);
        } else {
          assert nodes[i] == pcurrent;
          assert old(pnext.next) == Successor(before, m + 1);
        }
      }
    }

    /** `remove_if`: unlink every node satisfying `p`.  After an unlink `pcurrent` stays
        where it is, so the node that moved up behind it is examined next.  The surviving
        nodes are exactly the old nodes whose value does not satisfy `p`, in their old order. */
    method RemoveIf(p: T -> bool)
      requires Valid()
      modifies this, head, nodes
      ensures Valid()
      ensures Contents == RemoveMatching(p, old(Contents))
      ensures nodes == RemoveMatching(NodeTest(p), old(nodes))
      ensures forall n :: n in nodes ==> n in old(nodes)
    {
      ghost var kept := 0;
      var pcurrent := head;
      while pcurrent.next != null
        invariant Valid()
        invariant Scanned(p, old(Contents), Contents, kept)
        invariant Scanned(NodeTest(p), old(nodes), nodes, kept)
        invariant forall n :: n in nodes ==> n in old(nodes)
        invariant pcurrent == if kept == 0 then head else nodes[kept - 1]
        invariant pcurrent == head || pcurrent in old(nodes)
        decreases |nodes| - kept
      {
        NextAt(kept);
        var pnext := pcurrent.next;
        RemoveStep(p, old(Contents), Contents, kept);
        RemoveStep(NodeTest(p), old(nodes), nodes, kept);
        DropStep(nodes, kept);
        if p(pnext.data.value) {
          UnlinkAfter(pcurrent, kept);
        } else {
          pcurrent := pnext;
          kept := kept + 1;
        }
      }
      NextAt(kept);
      ScannedAll(p, old(Contents), Contents, kept);
      ScannedAll(NodeTest(p), old(nodes), nodes, kept);
    }
  }

  /** `cs` is what `remove_if` has made of `orig` so far: its first `k` values have been
      scanned and kept, and removing the matches from the rest gives the final outcome. */
  ghost predicate Scanned<T>(p: T -> bool, orig: seq<T>, cs: seq<T>, k: nat)
  {
    k <= |cs| && RemoveMatching(p, orig) == cs[..k] + RemoveMatching(p, cs[k..])
  }

  /** Before the scan nothing is kept yet; once it has reached the end, the outcome is `cs`. */
  lemma ScannedAll<T>(p: T -> bool, orig: seq<T>, cs: seq<T>, k: nat)
    requires Scanned(p, orig, cs, k) && k == |cs|
    ensures cs == RemoveMatching(p, orig)
  {
    assert cs[k..] == [] && cs[..k] == cs;
  }

  /** One step of `remove_if` on the values: dropping `cs[k]` when it matches, or keeping
      it when it does not, keeps the scan on course. */
  lemma RemoveStep<T>(p: T -> bool, orig: seq<T>, cs: seq<T>, k: nat)
    requires Scanned(p, orig, cs, k) && k < |cs|
    ensures p(cs[k]) ==> Scanned(p, orig, cs[..k] + cs[k + 1..], k)
    ensures !p(cs[k]) ==> Scanned(p, orig, cs, k + 1)
  {
    var cs' := cs[..k] + cs[k + 1..];
    assert cs'[..k] == cs[..k] && cs'[k..] == cs[k + 1..];
    assert cs[k..][1..] == cs[k + 1..];
    assert cs[..k + 1] == cs[..k] + [cs[k]];
  }

  /** The same step on the nodes: dropping node `k` keeps every remaining node. */
  lemma DropStep<N>(ns: seq<N>, k: nat)
    requires k < |ns|
    ensures forall n :: n in ns[..k] + ns[k + 1..] ==> n in ns
  {
  }

  /** The search's stopping point: `k` is where `IndexOfFirst` lands when nothing before
      `k` matches and `k` is a match or the end. */
  lemma IndexOfFirstIsFirstMatch<T>(p: T -> bool, s: seq<T>, k: nat)
    requires k <= |s|
    requires forall i :: 0 <= i < k ==> !p(s[i])
    requires k < |s| ==> p(s[k])
    ensures IndexOfFirst(p, s) == k
  {
  }
}
