/** Sequential meaning of lock_free_stack<T>: a null-terminated chain of heap nodes
    reached from `head`, onto which `push` prepends a node with a compare-and-swap retry
    loop.  Atomicity is erased: the compare-and-swap is a plain compare-and-set that may
    also fail spuriously, as `compare_exchange_weak` is allowed to. */
module LockFreeStack {

  class Node<T> {
    var data: T
    var next: Node?<T>

    /** `node(const T& _data)`: holds the value, links to nothing yet. */
    constructor (data: T)
      ensures this.data == data && next == null
    {
      this.data := data;
      next := null;
    }
  }

  class Stack<T> {
    var head: Node?<T>
    /** The chain from `head`, top first. */
    ghost var nodes: seq<Node<T>>
    /** The values it holds, top first. */
    ghost var Contents: seq<T>

    /** `head` is the top of a well-formed chain holding `Contents`. */
    ghost predicate Valid()
      reads this, nodes
    {
      Chain(head, nodes, Contents)
    }

    /** A valid stack has no cycle: no node occurs twice in the chain from `head`. */
    lemma Acyclic()
      requires Valid()
      ensures forall i, j :: 0 <= i < j < |nodes| ==> nodes[i] != nodes[j]
    {
      forall i, j | 0 <= i < j < |nodes|
        ensures nodes[i] != nodes[j]
      {
        ChainNodesDistinct(head, nodes, Contents, i, j);
      }
    }

    /** The empty stack, `head` null.  The source declares no constructor: `head` is null
        under value-initialisation, for static storage and with C++20's `std::atomic`
        default constructor; only older default-initialisation leaves it indeterminate. */
    constructor ()
      ensures Valid() && head == null && nodes == [] && Contents == []
    {
      head := null;
      nodes := [];
      Contents := [];
    }

    /** `head.compare_exchange_weak(expected, desired)`, executed alone: when `head` equals
        `expected` and the hardware does not fail spuriously, `head` becomes `desired`;
        otherwise `head` is left alone and `observed`, which the caller stores back into
        `expected`, is the current `head`. */
    method CompareExchangeWeak(expected: Node?<T>, desired: Node<T>, spurious: bool)
      returns (success: bool, observed: Node?<T>)
      modifies `head
      ensures success <==> old(head) == expected && !spurious
      ensures head == if success then desired else old(head)
      ensures observed == if success then expected else old(head)
    {
      if head == expected && !spurious {
        head := desired;
        success, observed := true, expected;
      } else {
        success, observed := false, head;
      }
    }

    /** `push`: allocate a node, point it at the current `head`, and retry the
        compare-and-swap until `head` is the new node.  `spuriousFailures` is how often
        the compare-and-swap fails spuriously before it takes effect; the outcome is the
        same for every such count. */
    method Push(data: T, spuriousFailures: nat)
      requires Valid()
      modifies this
      ensures Valid()
      ensures fresh(head) && head.data == data && head.next == old(head)
      ensures nodes == [head] + old(nodes)
      ensures Contents == [data] + old(Contents)
      ensures |nodes| == |old(nodes)| + 1
    {
      var newNode: Node<T> := new Node(data);
      newNode.next := head;
      var success := false;
      var retriesLeft := spuriousFailures;
      while !success
        modifies this`head, newNode`next
        invariant newNode.next == old(head)
        invariant head == if success then newNode else old(head)
        decreases retriesLeft, !success
      {
        success, newNode.next := CompareExchangeWeak(newNode.next, newNode, retriesLeft > 0);
        if retriesLeft > 0 {
          retriesLeft := retriesLeft - 1;
        }
      }
      ChainPrepend(newNode, nodes, Contents);
      nodes := [newNode] + nodes;
      Contents := [data] + Contents;
    }
  }

  /** `top` is the first of `ns` (null when there are none), each node's `next` is the one
      after it, the last one's is null, and node `i` holds `cs[i]`. */
  ghost predicate Chain<T>(top: Node?<T>, ns: seq<Node<T>>, cs: seq<T>)
    reads ns
  {
    && |ns| == |cs|
    && top == (if ns == [] then null else ns[0])
    && forall i :: 0 <= i < |ns| ==> ns[i].next == Below(ns, i) && ns[i].data == cs[i]
  }

  /** A node whose `next` is the top of a chain is the top of the chain one longer. */
  lemma ChainPrepend<T>(n: Node<T>, ns: seq<Node<T>>, cs: seq<T>)
    requires Chain(n.next, ns, cs)
    ensures Chain(n, [n] + ns, [n.data] + cs)
  {
    var ns', cs' := [n] + ns, [n.data] + cs;
    forall i | 1 <= i < |ns'|
      ensures ns'[i].next == Below(ns', i) && ns'[i].data == cs'[i]
    {
      assert ns'[i] == ns[i - 1] && Below(ns', i) == Below(ns, i - 1);
    }
  }

  /** A chain that ends in null cannot revisit a node: two equal nodes would have equal
      successors all the way to the end, where one successor is null and the other not. */
  lemma {:induction false} ChainNodesDistinct<T>(top: Node?<T>, ns: seq<Node<T>>, cs: seq<T>, i: nat, j: nat)
    requires Chain(top, ns, cs) && i < j < |ns|
    ensures ns[i] != ns[j]
    decreases |ns| - j
  {
    if j + 1 < |ns| {
      ChainNodesDistinct(top, ns, cs, i + 1, j + 1);
      assert ns[i].next == ns[i + 1] && ns[j].next == ns[j + 1];
    } else {
      assert ns[i].next == ns[i + 1] && ns[j].next == null;
    }
  }

  /** What node `i` of the chain `ns` must link to: the node below it, or null. */
  ghost function Below<T>(ns: seq<Node<T>>, i: nat): (n: Node?<T>)
  {
    if i + 1 < |ns| then ns[i + 1] else null
  }
}
