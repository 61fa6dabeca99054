/** src/lib/queue/queue.c and src/lib/cqueue/cqueue.c: a linked queue, and pushes and pops
    on it from several threads. */
module LinkedQueue {
  import opened Wrappers

  class QueueNode<T> {
    var next: QueueNode?<T>
    const data: T

    constructor (data: T)
      ensures this.data == data && next == null
    {
      this.data := data;
      next := null;
    }
  }

  ghost function NodeAt<T>(nodes: seq<QueueNode<T>>, i: int): QueueNode?<T> {
    if 0 <= i < |nodes| then nodes[i] else null
  }

  ghost function Values<T>(nodes: seq<QueueNode<T>>): (values: seq<T>)
    ensures |values| == |nodes| && forall i :: 0 <= i < |nodes| ==> values[i] == nodes[i].data
  {
    seq(|nodes|, i requires 0 <= i < |nodes| => nodes[i].data)
  }

  class Queue<T> {
    var first: QueueNode?<T>
    var last: QueueNode?<T>
    var length: int
    ghost var nodes: seq<QueueNode<T>>

    /** When the queue is empty `last` may be anything: the last dequeue leaves it behind. */
    ghost predicate Valid()
      reads this, nodes
    {
      && length == |nodes|
      && first == NodeAt(nodes, 0)
      && (nodes != [] ==> last == nodes[|nodes| - 1])
      && (forall i, j :: 0 <= i < j < |nodes| ==> nodes[i] != nodes[j])
      && (forall i {:trigger nodes[i].next} :: 0 <= i < |nodes| ==> nodes[i].next == NodeAt(nodes, i + 1))
    }

    ghost function Contents(): seq<T>
      reads this, nodes
    {
      Values(nodes)
    }

    constructor ()
      ensures Valid() && Contents() == [] && nodes == []
    {
      first, last, length := null, null, 0;
      nodes := [];
    }

    predicate Empty()
      reads this
    {
      length == 0 || first == null || last == null
    }

    lemma {:induction false} EmptyMeansNoContents()
      requires Valid()
      ensures Empty() <==> Contents() == []
    {
      if nodes == [] {
        assert Contents() == [];
      } else {
        assert |Contents()| > 0;
      }
    }

    method Enqueue(data: T) returns (done: bool)
      requires Valid()
      modifies this, nodes
      ensures Valid() && done
      ensures Contents() == old(Contents()) + [data]
      ensures |nodes| == |old(nodes)| + 1 && fresh(nodes[|old(nodes)|]) && old(nodes) == nodes[..|old(nodes)|]
    {
      var item := new QueueNode<T>(data);
      EmptyMeansNoContents();
      if Empty() {
        first := item;
        last := item;
        length := length + 1;
        nodes := [item];
        return true;
      }
      last.next := item;
      last := item;
      length := length + 1;
      nodes := nodes + [item];
      return true;
    }

    method Dequeue() returns (data: Option<T>)
      requires Valid()
      modifies this
      ensures Valid()
      ensures old(Contents()) == [] ==> data == None && Contents() == [] && nodes == old(nodes)
      ensures old(Contents()) != [] ==>
        && data == Some(old(Contents())[0])
        && Contents() == old(Contents())[1..]
        && nodes == old(nodes)[1..]
      ensures last == old(last)
    {
      EmptyMeansNoContents();
      if !Empty() {
        var item := first;
        first := first.next;
        length := length - 1;
        nodes := nodes[1..];
        return Some(item.data);
      }
      return None;
    }

    method Peek() returns (data: Option<T>)
      requires Valid()
      ensures data == if Contents() == [] then None else Some(Contents()[0])
    {
      EmptyMeansNoContents();
      if !Empty() {
        return Some(first.data);
      }
      return None;
    }

    method LastPeek() returns (data: Option<T>)
      requires Valid()
      ensures data == if Contents() == [] then None else Some(Contents()[|Contents()| - 1])
    {
      EmptyMeansNoContents();
      if !Empty() {
        return Some(last.data);
      }
      return None;
    }

    method Purge() returns (done: bool)
      requires Valid()
      modifies this
      ensures Valid() && Contents() == []
      ensures done <==> old(Contents()) != []
      ensures done ==> last == null
    {
      EmptyMeansNoContents();
      if !Empty() {
        ghost var rest := nodes;
        while first != null
          invariant first == NodeAt(rest, 0)
          invariant forall i {:trigger rest[i].next} :: 0 <= i < |rest| ==> rest[i].next == NodeAt(rest, i + 1)
          decreases |rest|
        {
          var item := first;
          first := item.next;
          rest := rest[1..];
        }
        last := null;
        length := 0;
        nodes := [];
        return true;
      }
      return false;
    }
  }

  // ----- pushes and pops from several threads, each under the lock

  datatype Step<T> = Push(data: T) | TryPop

  datatype History<T> = History(pushed: seq<T>, popped: seq<T>, pending: seq<T>)

  function Take<T>(h: History<T>, step: Step<T>): History<T> {
    match step
    case Push(data) => h.(pushed := h.pushed + [data], pending := h.pending + [data])
    case TryPop =>
      if h.pending == [] then h else h.(popped := h.popped + [h.pending[0]], pending := h.pending[1..])
  }

  function PushedAll<T>(h: History<T>, data: seq<T>): History<T> {
    h.(pushed := h.pushed + data, pending := h.pending + data)
  }

  /** Any interleaving: the order in which the threads get the lock. */
  function Run<T>(h: History<T>, steps: seq<Step<T>>): History<T>
    decreases |steps|
  {
    if steps == [] then h else Run(Take(h, steps[0]), steps[1..])
  }

  ghost predicate Conserved<T>(h: History<T>) {
    h.popped + h.pending == h.pushed
  }

  /** Nothing is lost, made up, doubled or overtaken, however the steps interleave. */
  lemma {:induction false} RunConserves<T>(h: History<T>, steps: seq<Step<T>>)
    requires Conserved(h)
    ensures Conserved(Run(h, steps))
    decreases |steps|
  {
    if steps != [] {
      var step := steps[0];
      if step.Push? {
        assert h.popped + (h.pending + [step.data]) == (h.popped + h.pending) + [step.data];
      } else if h.pending != [] {
        assert (h.popped + [h.pending[0]]) + h.pending[1..] == h.popped + h.pending;
      }
      RunConserves(Take(h, step), steps[1..]);
    }
  }

  /** The concurrent queue, with what went through it so far. */
  class CQueue<T> {
    const queue: Queue<T>
    ghost var history: History<T>

    ghost predicate Valid()
      reads this, queue, queue.nodes
    {
      queue.Valid() && history.pending == queue.Contents() && Conserved(history)
    }

    constructor ()
      ensures Valid() && history == History([], [], []) && fresh(queue) && queue.nodes == []
    {
      queue := new Queue();
      history := History([], [], []);
    }

    method DoPush(data: T) returns (success: bool)
      requires Valid()
      modifies this, queue, queue.nodes
      ensures Valid() && success && history == Take(old(history), Push(data))
      ensures forall node <- queue.nodes :: node in old(queue.nodes) || fresh(node)
    {
      RunConserves(history, [Push(data)]);
      assert Run(history, [Push(data)]) == Take(history, Push(data));
      success := queue.Enqueue(data);
      history := Take(history, Push(data));
    }

    method DoTryPop() returns (item: Option<T>)
      requires Valid()
      modifies this, queue
      ensures Valid() && history == Take(old(history), TryPop)
      ensures forall node <- queue.nodes :: node in old(queue.nodes)
      ensures item == if old(history).pending == [] then None else Some(old(history).pending[0])
    {
      RunConserves(history, [TryPop]);
      assert Run(history, [TryPop]) == Take(history, TryPop);
      if queue.Empty() {
        queue.EmptyMeansNoContents();
        return None;
      }
      queue.EmptyMeansNoContents();
      item := queue.Dequeue();
      history := Take(history, TryPop);
    }
  }
}
