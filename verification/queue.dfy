/**
 * The FIFO queue of queue.c: a singly linked list of nodes with a length counter.
 * The field names are the reverse of the usual ones: `enqueue` links the new node
 * after `head` and makes it the new `head`, while `dequeue` unlinks the node at
 * `tail`. The nodes live in an explicit heap so that the pointer structure itself is
 * modelled; `Elements` is the sequence of values it stands for, oldest first.
 */
module Fifo {
  import opened Bytes

  /** The address of a node, as returned by `malloc`. */
  type Ptr = nat

  /** `struct node`. */
  datatype Node<T> = Node(data: T, next: Option<Ptr>)

  /**
   * `queue_t` with the nodes it owns. `unused` is an address `malloc` has never
   * returned before, so a new node never aliases a live one.
   */
  datatype Queue<T> = Queue(nodes: map<Ptr, Node<T>>, head: Option<Ptr>, tail: Option<Ptr>, length: nat, unused: Ptr)

  /** The addresses met when following `next` from `p`, at most `n` of them. */
  function Chain<T>(nodes: map<Ptr, Node<T>>, p: Option<Ptr>, n: nat): (c: seq<Ptr>)
    ensures |c| <= n
    ensures forall a :: a in c ==> a in nodes
    decreases n
  {
    if n == 0 || p.None? || p.value !in nodes then []
    else [p.value] + Chain(nodes, nodes[p.value].next, n - 1)
  }

  /** The addresses in a chain. */
  function Addresses(c: seq<Ptr>): set<Ptr>
  {
    set a | a in c
  }

  /**
   * The shape `new_queue`, `enqueue` and `dequeue` maintain: `length` distinct live
   * nodes linked from `tail` to `head`, `head` last with a NULL `next`, both pointers
   * NULL exactly when the queue is empty, and no other node allocated.
   */
  predicate Valid<T>(q: Queue<T>)
  {
    var c := Chain(q.nodes, q.tail, q.length);
    && |c| == q.length
    && NoDup(c)
    && q.nodes.Keys == Addresses(c)
    && (forall a :: a in q.nodes ==> a < q.unused)
    && (q.length == 0 <==> q.head.None?)
    && (q.length == 0 ==> q.tail.None?)
    && (q.length > 0 ==> q.head == Some(c[q.length - 1]) && q.nodes[c[q.length - 1]].next.None?)
  }

  /** The values in the queue, from the next one `dequeue` returns to the last one enqueued. */
  function Elements<T>(q: Queue<T>): (s: seq<T>)
    requires Valid(q)
    ensures |s| == q.length
  {
    var c := Chain(q.nodes, q.tail, q.length);
    seq(|c|, i requires 0 <= i < |c| => q.nodes[c[i]].data)
  }

  /** `new_queue`: no nodes, both pointers NULL, length 0. */
  function NewQueue<T>(): (q: Queue<T>)
    ensures Valid(q) && Elements(q) == []
    ensures q.length == 0 && q.head.None? && q.tail.None?
  {
    Queue(map[], None, None, 0, 0)
  }

  /** A chain only depends on the nodes it passes through. */
  lemma {:induction false} ChainFrame<T>(nodes: map<Ptr, Node<T>>, nodes': map<Ptr, Node<T>>, p: Option<Ptr>, n: nat)
    requires |Chain(nodes, p, n)| == n
    requires forall a :: a in Chain(nodes, p, n) ==> a in nodes' && nodes'[a] == nodes[a]
    ensures Chain(nodes', p, n) == Chain(nodes, p, n)
    decreases n
  {
    if n > 0 {
      var c := Chain(nodes, p, n);
      assert c[0] == p.value;
      ChainFrame(nodes, nodes', nodes[p.value].next, n - 1);
    }
  }

  /** Linking a node `f` after the last node of a chain extends the chain by `f`. */
  lemma {:induction false} ChainAppend<T>(nodes: map<Ptr, Node<T>>, nodes': map<Ptr, Node<T>>, p: Option<Ptr>, n: nat, f: Ptr)
    requires n >= 1 && |Chain(nodes, p, n)| == n
    requires forall k :: 0 <= k < n - 1 ==>
               Chain(nodes, p, n)[k] in nodes' && nodes'[Chain(nodes, p, n)[k]] == nodes[Chain(nodes, p, n)[k]]
    requires Chain(nodes, p, n)[n - 1] in nodes' && nodes'[Chain(nodes, p, n)[n - 1]].next == Some(f)
    requires f in nodes'
    ensures Chain(nodes', p, n + 1) == Chain(nodes, p, n) + [f]
    decreases n
  {
    var c := Chain(nodes, p, n);
    assert c[0] == p.value;
    if n == 1 {
      assert Chain(nodes', Some(f), 1) == [f];
    } else {
      assert nodes'[p.value] == nodes[p.value];
      var rest := Chain(nodes, nodes[p.value].next, n - 1);
      assert c == [p.value] + rest;
      assert forall k :: 0 <= k < n - 2 ==> rest[k] == c[k + 1];
      ChainAppend(nodes, nodes', nodes[p.value].next, n - 1, f);
    }
  }

  /**
   * `enqueue`: allocate a node holding the value; on an empty queue it becomes both
   * `head` and `tail`, otherwise it is linked after `head` and becomes the new `head`.
   * The value goes to the back of the queue.
   */
  function Enqueue<T>(q: Queue<T>, value: T): (r: Queue<T>)
    requires Valid(q)
    ensures Valid(r)
    ensures Elements(r) == Elements(q) + [value]
    ensures r.length == q.length + 1
    ensures r.head == Some(q.unused)
    ensures q.length == 0 ==> r.tail == r.head
    ensures q.length > 0 ==> r.tail == q.tail
  {
    var node := q.unused;
    var nodes := q.nodes[node := Node(value, None)];
    if q.head.None? then
      var r := Queue(nodes, Some(node), Some(node), q.length + 1, node + 1);
      assert Chain(r.nodes, r.tail, 1) == [node];
      assert r.nodes.Keys == Addresses([node]);
      r
    else
      var h := q.head.value;
      assert h in q.nodes && h != node by {
        var c := Chain(q.nodes, q.tail, q.length);
        assert c[q.length - 1] in c;
      }
      var r := Queue(nodes[h := nodes[h].(next := Some(node))], Some(node), q.tail, q.length + 1, node + 1);
      EnqueueLinked(q, value, r);
      r
  }

  /** The non-empty case of `enqueue` keeps the shape and appends the value. */
  lemma EnqueueLinked<T>(q: Queue<T>, value: T, r: Queue<T>)
    requires Valid(q) && q.head.Some?
    requires r.nodes == q.nodes[q.unused := Node(value, None)][q.head.value := q.nodes[q.head.value].(next := Some(q.unused))]
    requires r.head == Some(q.unused) && r.tail == q.tail && r.length == q.length + 1 && r.unused == q.unused + 1
    ensures Valid(r) && Elements(r) == Elements(q) + [value]
  {
    var c := Chain(q.nodes, q.tail, q.length);
    var n := q.length;
    var f := q.unused;
    EnqueueChain(q, value, r);
    var c' := Chain(r.nodes, r.tail, r.length);
    assert NoDup(c');
    assert r.nodes.Keys == Addresses(c');
    assert Valid(r);
    EnqueueElements(q, value, r);
  }

  /** With the chain extended by the new node, the values are extended by the new value. */
  lemma EnqueueElements<T>(q: Queue<T>, value: T, r: Queue<T>)
    requires Valid(q) && Valid(r) && q.head.Some?
    requires r.nodes == q.nodes[q.unused := Node(value, None)][q.head.value := q.nodes[q.head.value].(next := Some(q.unused))]
    requires q.unused !in Chain(q.nodes, q.tail, q.length)
    requires Chain(r.nodes, r.tail, r.length) == Chain(q.nodes, q.tail, q.length) + [q.unused]
    ensures Elements(r) == Elements(q) + [value]
  {
    var c, c' := Chain(q.nodes, q.tail, q.length), Chain(r.nodes, r.tail, r.length);
    var n := q.length;
    var e, e0 := Elements(r), Elements(q) + [value];
    assert |e| == |e0|;
    forall i | 0 <= i < |e| ensures e[i] == e0[i] {
      if i < n {
        assert c'[i] == c[i] && c[i] != q.unused;
        assert e[i] == r.nodes[c[i]].data == q.nodes[c[i]].data;
      } else {
        assert c'[i] == q.unused != q.head.value;
      }
    }
  }

  /** Linking the new node after `head` extends the chain from `tail` by that node, which is not already on it. */
  lemma EnqueueChain<T>(q: Queue<T>, value: T, r: Queue<T>)
    requires Valid(q) && q.head.Some?
    requires r.nodes == q.nodes[q.unused := Node(value, None)][q.head.value := q.nodes[q.head.value].(next := Some(q.unused))]
    requires r.tail == q.tail && r.length == q.length + 1
    ensures q.unused !in Chain(q.nodes, q.tail, q.length)
    ensures Chain(r.nodes, r.tail, r.length) == Chain(q.nodes, q.tail, q.length) + [q.unused]
  {
    var c := Chain(q.nodes, q.tail, q.length);
    var n := q.length;
    var f := q.unused;
    assert c[n - 1] in q.nodes.Keys;
    assert f !in c by {
      forall k | 0 <= k < |c| ensures c[k] != f {
        assert c[k] in q.nodes;
      }
    }
    forall k | 0 <= k < n - 1 ensures c[k] in r.nodes && r.nodes[c[k]] == q.nodes[c[k]] {
      assert c[k] in q.nodes.Keys;
      assert c[k] != c[n - 1];
    }
    ChainAppend(q.nodes, r.nodes, q.tail, n, f);
  }

  /** A chain read after its first node is removed from the heap is the rest of the chain. */
  lemma DequeueChain<T>(q: Queue<T>, nodes: map<Ptr, Node<T>>, p: Option<Ptr>)
    requires Valid(q) && q.length > 0
    requires nodes == q.nodes - {q.tail.value} && p == q.nodes[q.tail.value].next
    ensures Chain(nodes, p, q.length - 1) == Chain(q.nodes, q.tail, q.length)[1..]
  {
    var c := Chain(q.nodes, q.tail, q.length);
    var t := c[0];
    var rest := Chain(q.nodes, q.nodes[t].next, q.length - 1);
    assert c == [t] + rest;
    forall a | a in rest ensures a in nodes && nodes[a] == q.nodes[a] {
      var k :| 0 <= k < |rest| && rest[k] == a;
      assert c[k + 1] == a;
      assert a in q.nodes.Keys;
    }
    ChainFrame(q.nodes, nodes, p, q.length - 1);
  }

  /** Removing the first address of a duplicate-free chain from the heap leaves exactly the others. */
  lemma DequeueKeys<T>(nodes: map<Ptr, Node<T>>, c: seq<Ptr>)
    requires |c| > 0 && NoDup(c) && nodes.Keys == Addresses(c)
    ensures NoDup(c[1..]) && (nodes - {c[0]}).Keys == Addresses(c[1..])
  {
    forall a ensures a in (nodes - {c[0]}).Keys <==> a in Addresses(c[1..]) {
      if a in c[1..] {
        var k :| 0 <= k < |c| - 1 && c[1..][k] == a;
        assert c[k + 1] == a && c[0] != a;
      }
      if a in c && a != c[0] {
        var k :| 0 <= k < |c| && c[k] == a;
        assert c[1..][k - 1] == a;
      }
    }
  }

  /**
   * `dequeue`: on an empty queue, NULL and nothing changes. Otherwise unlink the
   * `tail` node and return its value, the oldest one; when it was the last node,
   * `head` is reset to NULL and `tail` becomes NULL through its `next`.
   */
  function Dequeue<T>(q: Queue<T>): (r: (Option<T>, Queue<T>))
    requires Valid(q)
    ensures Valid(r.1)
    ensures q.length == 0 ==> r.0.None? && r.1 == q
    ensures q.length > 0 ==> r.0 == Some(Elements(q)[0]) && Elements(r.1) == Elements(q)[1..]
    ensures q.length > 0 ==> r.1.length == q.length - 1
    ensures q.length == 1 ==> r.1.head.None? && r.1.tail.None?
  {
    if q.length == 0 then (None, q)
    else
      var t := q.tail.value;
      var node := q.nodes[t];
      var head := if q.head == q.tail then None else q.head;
      var r := Queue(q.nodes - {t}, head, node.next, q.length - 1, q.unused);
      DequeueUnlinked(q, r);
      (Some(node.data), r)
  }

  /** The non-empty case of `dequeue` keeps the shape and drops the oldest value. */
  lemma DequeueUnlinked<T>(q: Queue<T>, r: Queue<T>)
    requires Valid(q) && q.length > 0
    requires r.nodes == q.nodes - {q.tail.value} && r.tail == q.nodes[q.tail.value].next
    requires r.head == (if q.head == q.tail then None else q.head)
    requires r.length == q.length - 1 && r.unused == q.unused
    ensures Valid(r) && Elements(r) == Elements(q)[1..]
  {
    var c := Chain(q.nodes, q.tail, q.length);
    var c' := Chain(r.nodes, r.tail, r.length);
    DequeueShape(q, r);
    var e, e0 := Elements(r), Elements(q)[1..];
    assert |e| == |e0|;
    forall i | 0 <= i < |e| ensures e[i] == e0[i] {
      assert c'[i] == c[i + 1] && c'[i] in r.nodes;
      assert r.nodes[c'[i]] == q.nodes[c[i + 1]];
    }
  }

  /** Unlinking the `tail` node leaves the rest of the chain, in a valid queue. */
  lemma DequeueShape<T>(q: Queue<T>, r: Queue<T>)
    requires Valid(q) && q.length > 0
    requires r.nodes == q.nodes - {q.tail.value} && r.tail == q.nodes[q.tail.value].next
    requires r.head == (if q.head == q.tail then None else q.head)
    requires r.length == q.length - 1 && r.unused == q.unused
    ensures Valid(r)
    ensures Chain(r.nodes, r.tail, r.length) == Chain(q.nodes, q.tail, q.length)[1..]
  {
    var c := Chain(q.nodes, q.tail, q.length);
    var n := q.length;
    assert c[0] == q.tail.value;
    DequeueChain(q, r.nodes, r.tail);
    DequeueKeys(q.nodes, c);
    assert q.head == q.tail <==> n == 1 by {
      if n > 1 { assert c[n - 1] != c[0]; }
    }
    if n == 1 {
      assert q.nodes[c[0]].next.None?;
    } else {
      assert c[1..][n - 2] == c[n - 1];
    }
  }

  /** Two values come out in the order they went in, then the empty queue answers NULL. */
  lemma FifoOrder<T>(a: T, b: T)
    ensures var q := Enqueue(Enqueue(NewQueue(), a), b);
            var (x, q1) := Dequeue(q);
            var (y, q2) := Dequeue(q1);
            var (z, q3) := Dequeue(q2);
            x == Some(a) && y == Some(b) && z.None? && q3 == q2 && q2.length == 0
  {
    var q := Enqueue(Enqueue(NewQueue(), a), b);
    assert Elements(q) == [a, b];
    var (x, q1) := Dequeue(q);
    assert Elements(q1) == [b];
  }

  /** After the last value leaves, the next `enqueue` makes its node both `head` and `tail` again. */
  lemma RefillAfterEmpty<T>(q: Queue<T>, v: T)
    requires Valid(q) && q.length == 1
    ensures var r := Enqueue(Dequeue(q).1, v);
            r.head == r.tail && r.head.Some? && Elements(r) == [v]
  {
  }
}
