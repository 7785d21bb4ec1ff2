/** The linked command queue of cmd_queue.c and its use by request_send. */
module CommandQueue {
  import opened Common

  class Node<T> {
    var elem: T
    var next: Node?<T>

    constructor (elem: T)
      ensures this.elem == elem && next == null
    {
      this.elem, next := elem, null;
    }
  }

  class Queue<T> {
    var size: nat
    var first: Node?<T>
    var last: Node?<T>
    var iter: Node?<T>

    /** The linked nodes in order, and the elements they hold. */
    ghost var nodes: seq<Node<T>>
    ghost var contents: seq<T>

    /** first, last and size describe one chain of distinct nodes. */
    ghost predicate Valid()
      reads this, nodes
    {
      && size == |nodes| == |contents|
      && (first == null <==> nodes == []) && (last == null <==> nodes == [])
      && (nodes != [] ==> first == nodes[0] && last == nodes[|nodes| - 1])
      && (forall i, j :: 0 <= i < j < |nodes| ==> nodes[i] != nodes[j])
      && (forall i {:trigger nodes[i].elem} :: 0 <= i < |nodes| ==> nodes[i].elem == contents[i])
      && (forall i {:trigger nodes[i].next} :: 0 <= i < |nodes| ==>
            nodes[i].next == if i + 1 < |nodes| then nodes[i + 1] else null)
    }

    /** The iterator stands before element k; it is exhausted when k is the length. */
    ghost predicate IterAt(k: nat)
      reads this, nodes
    {
      k <= |nodes| && iter == if k < |nodes| then nodes[k] else null
    }

    /** new_queue. */
    constructor ()
      ensures Valid() && contents == [] && nodes == []
    {
      size, first, last, iter := 0, null, null, null;
      nodes, contents := [], [];
    }

    /** queue: appends; 0 when the node cannot be allocated. */
    method Enqueue(elem: T, allocOk: bool) returns (ok: bool)
      requires Valid()
      modifies this, nodes
      ensures Valid() && ok == allocOk
      ensures contents == old(contents) + if ok then [elem] else []
      ensures nodes == old(nodes) || (|nodes| == |old(nodes)| + 1 && old(nodes) <= nodes && fresh(nodes[|old(nodes)|]))
      ensures iter == old(iter)
    {
      if !allocOk {
        return false;
      }
      var aux := new Node<T>(elem);
      if size == 0 {
        first := aux;
        last := aux;
      } else {
        last.next := aux;
        last := aux;
      }
      size := size + 1;
      nodes, contents := nodes + [aux], contents + [elem];
      ok := true;
    }

    /** dequeue: returns and removes the head. */
    method Dequeue() returns (elem: Option<T>)
      requires Valid()
      modifies this
      ensures Valid()
      ensures old(contents) == [] ==> elem == None && contents == []
      ensures old(contents) != [] ==> elem == Some(old(contents)[0]) && contents == old(contents)[1..]
      ensures nodes == if old(nodes) == [] then [] else old(nodes)[1..]
    {
      if first == null {
        return None;
      }
      elem := Some(first.elem);
      if first == last {
        first := null;
        last := null;
      } else {
        first := first.next;
      }
      size := size - 1;
      nodes, contents := nodes[1..], contents[1..];
    }

    method IsEmpty() returns (empty: bool)
      requires Valid()
      ensures empty <==> contents == []
    {
      empty := size == 0;
    }

    method ToBegin()
      requires Valid()
      modifies this`iter
      ensures Valid() && IterAt(0)
    {
      iter := first;
    }

    method HasNext(ghost k: nat) returns (more: bool)
      requires Valid() && IterAt(k)
      ensures more <==> k < |contents|
    {
      more := iter != null;
    }

    method Next(ghost k: nat) returns (elem: T)
      requires Valid() && IterAt(k) && k < |contents|
      modifies this`iter
      ensures Valid() && IterAt(k + 1) && elem == contents[k]
    {
      elem := iter.elem;
      iter := iter.next;
    }
  }
  // ---------------------------------------------------------------- runs

  datatype QueueOp<+T> = Put(elem: T, allocOk: bool) | Take

  /** The elements that a sequence of operations appends, in order. */
  function Queued<T>(ops: seq<QueueOp<T>>): seq<T> {
    if ops == [] then []
    else
      var op := ops[|ops| - 1];
      Queued(ops[..|ops| - 1]) + Appended(op)
  }

  function Appended<T>(op: QueueOp<T>): seq<T> {
    if op.Put? && op.allocOk then [op.elem] else []
  }

  method Perform<T>(q: Queue<T>, op: QueueOp<T>) returns (taken: seq<T>)
    requires q.Valid()
    modifies q, q.nodes
    ensures q.Valid()
    ensures op.Put? ==> taken == [] && q.contents == old(q.contents) + Appended(op)
    ensures op.Take? && old(q.contents) == [] ==> taken == [] && q.contents == []
    ensures op.Take? && old(q.contents) != [] ==>
      taken == [old(q.contents)[0]] && q.contents == old(q.contents)[1..]
    ensures forall k :: 0 <= k < |q.nodes| ==> q.nodes[k] in old(q.nodes) || fresh(q.nodes[k])
  {
    taken := [];
    match op
    case Put(elem, allocOk) =>
      var ok := q.Enqueue(elem, allocOk);
      assert q.nodes != old(q.nodes) ==> q.nodes[..|old(q.nodes)|] == old(q.nodes);
    case Take =>
      var elem := q.Dequeue();
      if elem.Some? {
        taken := [elem.value];
      }
  }

  /** A queue as a sequence: what it holds and what was taken from it after the operations. */
  function Served<T>(held: seq<T>, ops: seq<QueueOp<T>>): (seq<T>, seq<T>) {
    if ops == [] then (held, [])
    else
      var (q, taken) := Served(held, ops[..|ops| - 1]);
      match ops[|ops| - 1]
      case Put(elem, allocOk) => (if allocOk then q + [elem] else q, taken)
      case Take => if q == [] then (q, taken) else (q[1..], taken + [q[0]])
  }

  /** The elements come out in the order they went in, however often the queue runs empty in between. */
  lemma {:induction false} FirstInFirstOut<T>(held: seq<T>, ops: seq<QueueOp<T>>)
    ensures Served(held, ops).1 + Served(held, ops).0 == held + Queued(ops)
  {
    if ops != [] {
      FirstInFirstOut(held, ops[..|ops| - 1]);
      var (q, taken) := Served(held, ops[..|ops| - 1]);
      var op := ops[|ops| - 1];
      if op.Put? {
        assert taken + (q + [op.elem]) == taken + q + [op.elem];
      } else if q != [] {
        assert taken + [q[0]] + q[1..] == taken + q;
      }
    }
  }

  /** The linked queue does what the sequence does, over any operations. */
  method Session<T>(q: Queue<T>, ops: seq<QueueOp<T>>) returns (taken: seq<T>)
    requires q.Valid()
    modifies q, q.nodes
    ensures q.Valid()
    ensures (q.contents, taken) == Served(old(q.contents), ops)
  {
    hide Queue.Valid;
    taken := [];
    for i := 0 to |ops|
      invariant q.Valid()
      invariant forall k :: 0 <= k < |q.nodes| ==> q.nodes[k] in old(q.nodes) || fresh(q.nodes[k])
      invariant (q.contents, taken) == Served(old(q.contents), ops[..i])
    {
      assert ops[..i + 1][..i] == ops[..i];
      ghost var held := q.contents;
      var t := Perform(q, ops[i]);
      assert taken + [] == taken && held + [] == held;
      taken := taken + t;
    }
    assert ops[..|ops|] == ops;
  }

  /** Walking the queue with to_begin, has_next and next gives exactly its contents. */
  method Walk<T>(q: Queue<T>) returns (elems: seq<T>)
    requires q.Valid()
    modifies q`iter
    ensures q.Valid() && q.contents == old(q.contents) && elems == q.contents
  {
    elems := [];
    q.ToBegin();
    var more := q.HasNext(0);
    while more
      invariant q.Valid() && q.contents == old(q.contents)
      invariant |elems| <= |q.contents| && elems == q.contents[..|elems|]
      invariant q.IterAt(|elems|) && (more <==> |elems| < |q.contents|)
      decreases |q.contents| - |elems|
    {
      var elem := q.Next(|elems|);
      elems := elems + [elem];
      more := q.HasNext(|elems|);
    }
  }
}
