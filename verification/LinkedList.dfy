/** src/lib/list/list.c: a doubly linked list with a cursor, refining a sequence. */
module LinkedList {
  import opened Sequences
  import opened Wrappers

  /** What a node carries: a copy of the caller's data, and its size. */
  datatype Item<+T> = Item(data: T, size: nat)

  class ListNode<T> {
    var prev: ListNode?<T>
    var next: ListNode?<T>
    var item: Item<T>

    constructor (value: T, valueSize: nat)
      ensures prev == null && next == null && item == Item(value, valueSize)
    {
      prev, next := null, null;
      item := Item(value, valueSize);
    }
  }

  /** The node at `i`, or NULL outside of the sequence. */
  ghost function At<T>(nodes: seq<ListNode<T>>, i: int): ListNode?<T> {
    if 0 <= i < |nodes| then nodes[i] else null
  }

  /** next and prev are each other's mirror image along the sequence, and NULL at its ends. */
  ghost predicate Linked<T>(nodes: seq<ListNode<T>>)
    reads nodes`next, nodes`prev
  {
    && (forall i, j :: 0 <= i < j < |nodes| ==> nodes[i] != nodes[j])
    && (forall i {:trigger nodes[i].next} :: 0 <= i < |nodes| ==> nodes[i].next == At(nodes, i + 1))
    && (forall i {:trigger nodes[i].prev} :: 0 <= i < |nodes| ==> nodes[i].prev == At(nodes, i - 1))
  }

  ghost function Items<T>(nodes: seq<ListNode<T>>): (items: seq<Item<T>>)
    reads nodes`item
    ensures |items| == |nodes| && forall i :: 0 <= i < |nodes| ==> items[i] == nodes[i].item
  {
    if nodes == [] then [] else [nodes[0].item] + Items(nodes[1..])
  }

  ghost function Spliced<T>(nodes: seq<ListNode<T>>, pos: nat, node: ListNode<T>): (spliced: seq<ListNode<T>>)
    requires pos <= |nodes|
    ensures |spliced| == |nodes| + 1 && spliced[pos] == node
    ensures forall i :: 0 <= i < pos ==> spliced[i] == nodes[i]
    ensures forall i :: pos < i < |spliced| ==> spliced[i] == nodes[i - 1]
  {
    nodes[..pos] + [node] + nodes[pos..]
  }

  /** `node` stands between its neighbours and every other link is as it was. */
  lemma {:induction false} SplicedLinked<T>(nodes: seq<ListNode<T>>, pos: nat, node: ListNode<T>)
    requires pos <= |nodes| && node !in nodes
    requires forall i, j :: 0 <= i < j < |nodes| ==> nodes[i] != nodes[j]
    requires node.next == At(nodes, pos) && node.prev == At(nodes, pos - 1)
    requires forall i {:trigger nodes[i].next} :: 0 <= i < |nodes| ==>
      nodes[i].next == if i == pos - 1 then node else At(nodes, i + 1)
    requires forall i {:trigger nodes[i].prev} :: 0 <= i < |nodes| ==>
      nodes[i].prev == if i == pos then node else At(nodes, i - 1)
    ensures Linked(Spliced(nodes, pos, node))
  {
  }

  lemma {:induction false} CutLinked<T>(nodes: seq<ListNode<T>>, pos: nat)
    requires pos < |nodes|
    requires forall i, j :: 0 <= i < j < |nodes| ==> nodes[i] != nodes[j]
    requires forall i {:trigger nodes[i].next} :: 0 <= i < |nodes| && i != pos ==>
      nodes[i].next == At(nodes, if i == pos - 1 then pos + 1 else i + 1)
    requires forall i {:trigger nodes[i].prev} :: 0 <= i < |nodes| && i != pos ==>
      nodes[i].prev == At(nodes, if i == pos + 1 then pos - 1 else i - 1)
    ensures Linked(Cut(nodes, pos))
  {
  }

  lemma {:induction false} SplicedItems<T>(nodes: seq<ListNode<T>>, pos: nat, node: ListNode<T>, items: seq<Item<T>>)
    requires pos <= |nodes| == |items| && forall i :: 0 <= i < |nodes| ==> items[i] == nodes[i].item
    ensures Items(nodes[..pos] + [node] + nodes[pos..]) == items[..pos] + [node.item] + items[pos..]
  {
  }

  class List<T> {
    var first: ListNode?<T>
    var last: ListNode?<T>
    var current: ListNode?<T>
    var length: int
    ghost var nodes: seq<ListNode<T>>

    ghost predicate Valid()
      reads this, nodes
    {
      && length == |nodes|
      && first == At(nodes, 0)
      && last == At(nodes, |nodes| - 1)
      && Linked(nodes)
    }

    ghost function Contents(): seq<Item<T>>
      reads this, nodes
    {
      Items(nodes)
    }

    constructor ()
      ensures Valid() && nodes == [] && Contents() == [] && current == null
    {
      first, last, current, length := null, null, null, 0;
      nodes := [];
    }

    predicate Empty()
      reads this
    {
      length == 0 || first == null
    }

    /** Walks `pos` links from the first node. */
    method Walk(pos: int) returns (n: ListNode?<T>)
      requires Valid() && 0 <= pos <= length
      ensures n == At(nodes, pos)
    {
      n := first;
      var i := 0;
      while i < pos
        invariant 0 <= i <= pos && n == At(nodes, i)
      {
        n := n.next;
        i := i + 1;
      }
    }

    /** The first node of an empty list is also its last, and the cursor starts there. */
    method LinkFirst(item: ListNode<T>)
      requires Valid() && nodes == [] && item.prev == null && item.next == null
      modifies this
      ensures Valid() && nodes == [item] && current == first
    {
      first := item;
      current := item;
      last := item;
      length := length + 1;
      nodes := [item];
    }

    method LinkLast(item: ListNode<T>)
      requires Valid() && nodes != [] && item !in nodes && item.prev == null && item.next == null
      modifies this, nodes, item
      ensures Valid() && nodes == old(nodes) + [item] && current == old(current)
      ensures item.item == old(item.item) && forall n <- old(nodes) :: n.item == old(n.item)
    {
      item.prev := last;
      last.next := item;
      last := item;
      length := length + 1;
      nodes := nodes + [item];
    }

    method LinkBefore(item: ListNode<T>, cursor: ListNode<T>, ghost pos: nat)
      requires Valid() && pos < |nodes| && cursor == nodes[pos]
      requires item !in nodes && item.prev == null && item.next == null
      modifies this, nodes, item
      ensures Valid() && nodes == old(nodes)[..pos] + [item] + old(nodes)[pos..] && current == old(current)
      ensures item.item == old(item.item) && forall n <- old(nodes) :: n.item == old(n.item)
    {
      ghost var before := nodes;
      item.next := cursor;
      item.prev := cursor.prev;
      if cursor.prev != null {
        cursor.prev.next := item;
      } else {
        first := item;
      }
      cursor.prev := item;
      length := length + 1;
      nodes := Spliced(before, pos, item);
      SplicedLinked(before, pos, item);
    }

    method Insert(value: T, valueSize: nat, pos: int) returns (done: bool)
      requires Valid()
      modifies this, nodes
      ensures Valid()
      ensures done <==> 0 <= pos <= old(length)
      ensures !done ==> nodes == old(nodes) && Contents() == old(Contents()) && current == old(current)
      ensures done ==> Contents() == old(Contents())[..pos] + [Item(value, valueSize)] + old(Contents())[pos..]
      ensures done ==> fresh(nodes[pos]) && nodes == old(nodes)[..pos] + [nodes[pos]] + old(nodes)[pos..]
      ensures done ==> current == if old(nodes) == [] then first else old(current)
    {
      if pos >= 0 && pos <= length {
        var item := new ListNode<T>(value, valueSize);
        var cursor := first;
        if cursor == null {
          LinkFirst(item);
          return true;
        }
        cursor := Walk(pos);
        if cursor == null {
          LinkLast(item);
          assert old(nodes)[..pos] + [item] + old(nodes)[pos..] == nodes;
        } else {
          LinkBefore(item, cursor, pos);
        }
        SplicedItems(old(nodes), pos, item, old(Contents()));
        return true;
      }
      return false;
    }

    method Append(value: T, valueSize: nat) returns (done: bool)
      requires Valid()
      modifies this, nodes
      ensures Valid() && done
      ensures Contents() == old(Contents()) + [Item(value, valueSize)]
      ensures fresh(nodes[|nodes| - 1]) && nodes == old(nodes) + [nodes[|nodes| - 1]]
      ensures current == if old(nodes) == [] then first else old(current)
    {
      ghost var n := |nodes|;
      ghost var before, items := nodes, Contents();
      done := Insert(value, valueSize, length);
      assert before[..n] == before && before[n..] == [];
      assert items[..n] == items && items[n..] == [];
    }

    method Prepend(value: T, valueSize: nat) returns (done: bool)
      requires Valid()
      modifies this, nodes
      ensures Valid() && done
      ensures Contents() == [Item(value, valueSize)] + old(Contents())
      ensures fresh(nodes[0]) && nodes == [nodes[0]] + old(nodes)
      ensures current == if old(nodes) == [] then first else old(current)
    {
      done := Insert(value, valueSize, 0);
    }

    method Unlink(n: ListNode<T>, ghost pos: nat)
      requires Valid() && pos < |nodes| && n == nodes[pos]
      modifies this, nodes
      ensures Valid() && nodes == old(nodes)[..pos] + old(nodes)[pos + 1..]
      ensures current == if pos == 0 then first else old(current)
      ensures forall n <- old(nodes) :: n.item == old(n.item)
    {
      ghost var before := nodes;
      var pn := n.prev;
      var nn := n.next;
      if pn == null {
        current := first.next;
        first := current;
      } else {
        pn.next := nn;
      }
      if nn == null {
        last := n.prev;
      } else {
        nn.prev := pn;
      }
      length := length - 1;
      nodes := Cut(before, pos);
      CutLinked(before, pos);
    }

    method Delete(pos: int) returns (done: bool)
      requires Valid()
      modifies this, nodes
      ensures Valid()
      ensures done <==> 0 <= pos < old(length)
      ensures !done ==> nodes == old(nodes) && Contents() == old(Contents()) && current == old(current)
      ensures done ==> nodes == old(nodes)[..pos] + old(nodes)[pos + 1..]
      ensures done ==> Contents() == old(Contents())[..pos] + old(Contents())[pos + 1..]
      ensures done ==> current == if pos == 0 then first else old(current)
    {
      if !Empty() && pos >= 0 && pos < length {
        var n := Walk(pos);
        Unlink(n, pos);
        return true;
      }
      return false;
    }

    method Update(value: T, valueSize: nat, pos: int) returns (done: bool)
      requires Valid()
      modifies this, nodes
      ensures Valid() && nodes == old(nodes) && current == old(current)
      ensures done <==> 0 <= pos < old(length)
      ensures !done ==> Contents() == old(Contents())
      ensures done ==> Contents() == old(Contents())[pos := Item(value, valueSize)]
    {
      if !Empty() && pos >= 0 && pos < length {
        var n := Walk(pos);
        ReplaceItem(n, Item(value, valueSize), pos);
        return true;
      }
      return false;
    }

    /** A payload is written through a pointer to its node. */
    method ReplaceItem(n: ListNode<T>, item: Item<T>, ghost pos: nat)
      requires Valid() && pos < |nodes| && n == nodes[pos]
      modifies n`item
      ensures Valid() && n.item == item && Contents() == old(Contents())[pos := item]
    {
      n.item := item;
    }

    /** The value under the cursor, which moves on to the next node. */
    method Next() returns (data: Option<T>)
      modifies this`current
      ensures old(current) == null ==> data == None && current == null
      ensures old(current) != null ==> data == Some(old(current.item.data)) && current == old(current.next)
      ensures Valid() ==> forall k :: 0 <= k < |nodes| && old(current) == nodes[k] ==>
        data == Some(Contents()[k].data) && current == At(nodes, k + 1)
    {
      var n := current;
      if n != null {
        current := n.next;
        return Some(n.item.data);
      }
      return None;
    }

    method Prev() returns (data: Option<T>)
      modifies this`current
      ensures old(current) == null ==> data == None && current == null
      ensures old(current) != null ==> data == Some(old(current.item.data)) && current == old(current.prev)
      ensures Valid() ==> forall k :: 0 <= k < |nodes| && old(current) == nodes[k] ==>
        data == Some(Contents()[k].data) && current == At(nodes, k - 1)
    {
      var n := current;
      if n != null {
        current := n.prev;
        return Some(n.item.data);
      }
      return None;
    }

    method First() returns (data: Option<T>)
      requires Valid()
      ensures data == if Contents() == [] then None else Some(Contents()[0].data)
    {
      if !Empty() && first != null {
        return Some(first.item.data);
      }
      return None;
    }

    method Last() returns (data: Option<T>)
      requires Valid()
      ensures data == if Contents() == [] then None else Some(Contents()[|Contents()| - 1].data)
    {
      if !Empty() && last != null {
        return Some(last.item.data);
      }
      return None;
    }

    method Rewind() returns (done: bool)
      requires Valid()
      modifies this`current
      ensures Valid() && (done <==> nodes != [])
      ensures current == if done then first else old(current)
    {
      if !Empty() {
        current := first;
        return true;
      }
      return false;
    }

    /** The least position whose node has the size asked for and compares equal. */
    method Search<N>(needle: N, needleSize: nat, compare: (T, N, nat) -> int) returns (pos: int)
      requires Valid()
      ensures -1 <= pos < length
      ensures pos >= 0 ==> Matches(Contents()[pos], needle, needleSize, compare)
      ensures forall i :: 0 <= i < (if pos < 0 then length else pos) ==>
        !Matches(Contents()[i], needle, needleSize, compare)
    {
      if !Empty() {
        pos := 0;
        var n := first;
        while pos < length
          invariant 0 <= pos <= length && n == At(nodes, pos)
          invariant forall i :: 0 <= i < pos ==> !Matches(Contents()[i], needle, needleSize, compare)
        {
          if n.item.size == needleSize {
            if compare(n.item.data, needle, needleSize) == 0 {
              return pos;
            }
          }
          n := n.next;
          pos := pos + 1;
        }
      }
      return -1;
    }

    method ItemAt(pos: int) returns (data: Option<T>)
      requires Valid()
      ensures data == if 0 <= pos < |Contents()| then Some(Contents()[pos].data) else None
    {
      if !Empty() && pos >= 0 && pos < length {
        var n := Walk(pos);
        return Some(n.item.data);
      }
      return None;
    }
  }

  predicate Matches<T, N>(item: Item<T>, needle: N, needleSize: nat, compare: (T, N, nat) -> int) {
    item.size == needleSize && compare(item.data, needle, needleSize) == 0
  }

  function DataOf<T>(items: seq<Item<T>>): (data: seq<T>)
    ensures |data| == |items| && forall i :: 0 <= i < |items| ==> data[i] == items[i].data
  {
    seq(|items|, i requires 0 <= i < |items| => items[i].data)
  }

  /** The walk of the broadcast thread: from the rewound cursor on until there is nothing more, every
      value comes once, in order. */
  method Traverse<T>(list: List<T>) returns (seen: seq<T>)
    requires list.Valid() && (list.nodes == [] ==> list.current == null)
    modifies list`current
    ensures list.Valid() && list.current == null && seen == DataOf(list.Contents())
  {
    hide Items, Linked;
    seen := [];
    ghost var all := DataOf(list.Contents());
    var done := list.Rewind();
    ghost var k := 0;
    while true
      invariant list.Valid() && 0 <= k <= |list.nodes| && list.current == At(list.nodes, k)
      invariant DataOf(list.Contents()) == all && seen == all[..k]
      decreases |list.nodes| - k
    {
      var data := list.Next();
      if data == None {
        break;
      }
      seen := seen + [data.value];
      k := k + 1;
    }
  }
}
