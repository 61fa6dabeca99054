/** The client list of src/server/server.c on the heap: the linked list of the clients, its cursor, and the
    pointers that the threads have into it. */
module Clients {
  import opened Wrappers
  import opened Sequences
  import CString
  import Message
  import LinkedList

  type Id = nat

  /** What the list carries for a connection; the receive buffers are kept beside it. */
  datatype Client = Client(threadID: Id, nickname: string)

  type Node = LinkedList.ListNode<Client>
  type Item = LinkedList.Item<Client>

  function FindByThreadID(client: Client, threadID: Id, size: nat): int {
    client.threadID - threadID
  }

  function FindByNickname(client: Client, nickname: string, size: nat): int {
    var n := Message.MAX_NICKNAME_SIZE;
    if CString.Take(client.nickname, n) == CString.Take(nickname, n) then 0 else 1
  }

  ghost predicate Sized(items: seq<Item>, size: nat) {
    forall i :: 0 <= i < |items| ==> items[i].size == size
  }

  /** The threads have pointers to their own nodes. */
  ghost predicate Handed(items: seq<Item>, nodes: seq<Node>, threads: map<Id, Node>) {
    && |items| == |nodes|
    && forall i :: 0 <= i < |nodes| ==>
      items[i].data.threadID in threads && threads[items[i].data.threadID] == nodes[i]
  }

  function Ids(clients: seq<Client>): (ids: seq<Id>)
    ensures |ids| == |clients| && forall i :: 0 <= i < |clients| ==> ids[i] == clients[i].threadID
  {
    seq(|clients|, i requires 0 <= i < |clients| => clients[i].threadID)
  }

  /** The cursor's node is the one of client `cursor`, and no node of the list if that one is gone. */
  ghost predicate Points(current: LinkedList.ListNode?<Client>, cursor: Option<Id>, nodes: seq<Node>, ids: seq<Id>) {
    && |nodes| == |ids|
    && (current == null <==> cursor.None?)
    && (cursor.Some? ==> forall i :: 0 <= i < |nodes| ==> (nodes[i] == current <==> ids[i] == cursor.value))
  }

  /** The values that the heap holds fit each other. */
  ghost predicate Fit(items: seq<Item>, nodes: seq<Node>, threads: map<Id, Node>,
                      current: LinkedList.ListNode?<Client>, cursor: Option<Id>, size: nat)
  {
    var ids := Ids(LinkedList.DataOf(items));
    Sized(items, size) && Handed(items, nodes, threads) && Distinct(ids) && Points(current, cursor, nodes, ids)
  }

  // ----- a client more

  lemma {:induction false} SizedMore(items: seq<Item>, size: nat, client: Client)
    requires Sized(items, size)
    ensures Sized(items + [LinkedList.Item(client, size)], size)
  {
  }

  lemma {:induction false} HandedMore(items: seq<Item>, nodes: seq<Node>, threads: map<Id, Node>, item: Item, node: Node)
    requires Handed(items, nodes, threads) && item.data.threadID !in Ids(LinkedList.DataOf(items))
    ensures Handed(items + [item], nodes + [node], threads[item.data.threadID := node])
  {
    var ids := Ids(LinkedList.DataOf(items));
    assert forall i :: 0 <= i < |items| ==> ids[i] == items[i].data.threadID;
  }

  lemma {:induction false} EntriesMore(items: seq<Item>, item: Item)
    ensures LinkedList.DataOf(items + [item]) == LinkedList.DataOf(items) + [item.data]
    ensures Ids(LinkedList.DataOf(items + [item])) == Ids(LinkedList.DataOf(items)) + [item.data.threadID]
  {
  }

  lemma {:induction false} DistinctMore(ids: seq<Id>, id: Id)
    requires Distinct(ids) && id !in ids
    ensures Distinct(ids + [id])
  {
  }

  lemma {:induction false} PointsMore(current: LinkedList.ListNode?<Client>, cursor: Option<Id>, nodes: seq<Node>,
                                      ids: seq<Id>, node: Node, id: Id)
    requires Points(current, cursor, nodes, ids) && cursor != Some(id) && current != node
    ensures Points(current, cursor, nodes + [node], ids + [id])
  {
  }

  lemma {:induction false} PointsFirst(nodes: seq<Node>, ids: seq<Id>, node: Node, id: Id)
    requires nodes == [] && ids == []
    ensures Points(node, Some(id), nodes + [node], ids + [id])
  {
  }

  lemma {:induction false} FitMore(items: seq<Item>, nodes: seq<Node>, threads: map<Id, Node>,
                                   current: LinkedList.ListNode?<Client>, cursor: Option<Id>, size: nat,
                                   item: Item, node: Node)
    requires Fit(items, nodes, threads, current, cursor, size)
    requires var id := item.data.threadID;
      id !in Ids(LinkedList.DataOf(items)) && cursor != Some(id) && current != node && item.size == size
    ensures var id := item.data.threadID; var first := nodes == [];
      Fit(items + [item], nodes + [node], threads[id := node], if first then node else current,
          if first then Some(id) else cursor, size)
  {
    hide Sized, Handed, Ids, Points, LinkedList.DataOf, Distinct;
    var id, ids := item.data.threadID, Ids(LinkedList.DataOf(items));
    SizedMore(items, size, item.data);
    HandedMore(items, nodes, threads, item, node);
    EntriesMore(items, item);
    DistinctMore(ids, id);
    if nodes == [] {
      HandedLength(items, nodes, threads);
      PointsFirst(nodes, ids, node, id);
    } else {
      PointsMore(current, cursor, nodes, ids, node, id);
    }
  }

  lemma {:induction false} HandedLength(items: seq<Item>, nodes: seq<Node>, threads: map<Id, Node>)
    requires Handed(items, nodes, threads)
    ensures |items| == |nodes|
  {
  }

  // ----- a client renamed, a client less, the cursor moved

  function Renamed(clients: seq<Client>, k: nat, nickname: string): seq<Client>
    requires k < |clients|
  {
    clients[k := Client(clients[k].threadID, nickname)]
  }

  lemma {:induction false} FitRenamed(items: seq<Item>, nodes: seq<Node>, threads: map<Id, Node>,
                                      current: LinkedList.ListNode?<Client>, cursor: Option<Id>, size: nat,
                                      k: nat, nickname: string)
    requires Fit(items, nodes, threads, current, cursor, size) && k < |items|
    ensures var items' := items[k := LinkedList.Item(Client(items[k].data.threadID, nickname), size)];
      && Fit(items', nodes, threads, current, cursor, size)
      && LinkedList.DataOf(items') == Renamed(LinkedList.DataOf(items), k, nickname)
      && Ids(LinkedList.DataOf(items')) == Ids(LinkedList.DataOf(items))
  {
    hide Points, Distinct;
    var items' := items[k := LinkedList.Item(Client(items[k].data.threadID, nickname), size)];
    assert Ids(LinkedList.DataOf(items')) == Ids(LinkedList.DataOf(items));
  }

  lemma {:induction false} EntriesCut(items: seq<Item>, k: nat)
    requires k < |items|
    ensures LinkedList.DataOf(Cut(items, k)) == Cut(LinkedList.DataOf(items), k)
    ensures Ids(LinkedList.DataOf(Cut(items, k))) == Cut(Ids(LinkedList.DataOf(items)), k)
  {
  }

  lemma {:induction false} HandedCut(items: seq<Item>, nodes: seq<Node>, threads: map<Id, Node>, k: nat)
    requires Handed(items, nodes, threads) && k < |items|
    ensures Handed(Cut(items, k), Cut(nodes, k), threads)
  {
    hide Cut;
  }

  lemma {:induction false} DistinctCut<T>(s: seq<T>, k: nat)
    requires Distinct(s) && k < |s|
    ensures Distinct(Cut(s, k)) && s[k] !in Cut(s, k)
  {
    hide Cut;
  }

  lemma {:induction false} PointsCut(current: LinkedList.ListNode?<Client>, cursor: Option<Id>, nodes: seq<Node>,
                                     ids: seq<Id>, k: nat)
    requires Points(current, cursor, nodes, ids) && k < |nodes|
    ensures Points(current, cursor, Cut(nodes, k), Cut(ids, k))
  {
    hide Cut;
  }

  lemma {:induction false} PointsAt(nodes: seq<Node>, ids: seq<Id>, k: nat)
    requires |nodes| == |ids| && k < |nodes| && Distinct(nodes) && Distinct(ids)
    ensures Points(nodes[k], Some(ids[k]), nodes, ids)
  {
  }

  /** The cursor after a deletion at `k`: for the first client it goes to the next. */
  function CursorCut(cursor: Option<Id>, ids: seq<Id>, k: nat): Option<Id>
    requires k < |ids|
  {
    if k > 0 then cursor else if |ids| > 1 then Some(ids[1]) else None
  }

  lemma {:induction false} FitCut(items: seq<Item>, nodes: seq<Node>, threads: map<Id, Node>,
                                  current: LinkedList.ListNode?<Client>, cursor: Option<Id>, size: nat,
                                  k: nat, current': LinkedList.ListNode?<Client>)
    requires Fit(items, nodes, threads, current, cursor, size) && k < |items| && Distinct(nodes)
    requires current' == if k == 0 then LinkedList.At(Cut(nodes, 0), 0) else current
    ensures Fit(Cut(items, k), Cut(nodes, k), threads, current',
                CursorCut(cursor, Ids(LinkedList.DataOf(items)), k), size)
  {
    hide Handed, Ids, Points, LinkedList.DataOf, Distinct, Cut;
    var ids := Ids(LinkedList.DataOf(items));
    HandedLength(items, nodes, threads);
    EntriesCut(items, k);
    HandedCut(items, nodes, threads, k);
    DistinctCut(ids, k);
    DistinctCut(nodes, k);
    if k > 0 {
      PointsCut(current, cursor, nodes, ids, k);
    } else if |ids| > 1 {
      PointsAt(Cut(nodes, 0), Cut(ids, 0), 0);
    } else {
      PointsNothing(Cut(nodes, 0), Cut(ids, 0));
    }
  }

  lemma {:induction false} PointsNothing(nodes: seq<Node>, ids: seq<Id>)
    requires |nodes| == |ids|
    ensures Points(null, None, nodes, ids)
  {
  }

  lemma {:induction false} FitMoved(items: seq<Item>, nodes: seq<Node>, threads: map<Id, Node>,
                                    current: LinkedList.ListNode?<Client>, cursor: Option<Id>, size: nat, k: nat)
    requires Fit(items, nodes, threads, current, cursor, size) && k <= |items| && Distinct(nodes)
    ensures var ids := Ids(LinkedList.DataOf(items));
      Fit(items, nodes, threads, LinkedList.At(nodes, k), if k < |ids| then Some(ids[k]) else None, size)
  {
    hide Sized, Handed, Ids, Points, LinkedList.DataOf, Distinct;
    var ids := Ids(LinkedList.DataOf(items));
    HandedLength(items, nodes, threads);
    if k < |ids| {
      PointsAt(nodes, ids, k);
    } else {
      PointsNothing(nodes, ids);
    }
  }

  lemma {:induction false} CursorNode(items: seq<Item>, nodes: seq<Node>, threads: map<Id, Node>,
                                      current: LinkedList.ListNode?<Client>, cursor: Option<Id>, size: nat, k: nat)
    requires Fit(items, nodes, threads, current, cursor, size)
    ensures current == null <==> cursor.None?
    ensures k < |items| && cursor == Some(Ids(LinkedList.DataOf(items))[k]) ==> |nodes| == |items| && nodes[k] == current
  {
  }

  class ClientList {
    const list: LinkedList.List<Client>
    const clientSize: nat
    var threads: map<Id, Node>
    ghost var cursor: Option<Id>
    ghost var Repr: set<Node>

    ghost function Entries(): seq<Client>
      reads list, list.nodes
    {
      LinkedList.DataOf(list.Contents())
    }

    ghost predicate Owned()
      reads this`Repr, list
    {
      forall n <- list.nodes :: n in Repr
    }

    ghost predicate Valid()
      reads this, list, Repr
    {
      Owned() && list.Valid()
      && Fit(list.Contents(), list.nodes, threads, list.current, cursor, clientSize)
    }

    constructor (clientSize: nat)
      ensures Valid() && Repr == {} && fresh(list) && Entries() == [] && cursor == None
    {
      this.clientSize := clientSize;
      list := new LinkedList.List();
      threads := map[];
      cursor := None;
      new;
      Repr := {};
    }

    /** List_append, and the pointer to the copy for the new thread. */
    method Add(id: Id)
      requires Valid() && id !in Ids(Entries()) && cursor != Some(id)
      modifies this, list, Repr
      ensures Valid() && fresh(Repr - old(Repr))
      ensures Entries() == old(Entries()) + [Client(id, "")]
      ensures cursor == if old(Entries()) == [] then Some(id) else old(cursor)
    {
      hide Fit, Ids, LinkedList.Linked, LinkedList.Items, LinkedList.DataOf;
      ghost var items, nodes := list.Contents(), list.nodes;
      ghost var item := LinkedList.Item(Client(id, ""), clientSize);
      ghost var current := list.current;
      var done := list.Append(Client(id, ""), clientSize);
      ghost var node := list.nodes[|nodes|];
      EntriesMore(items, item);
      FitMore(items, nodes, threads, current, cursor, clientSize, item, node);
      threads := threads[id := list.last];
      cursor := if nodes == [] then Some(id) else cursor;
      Repr := Repr + {node};
    }

    lemma {:induction false} Facts()
      requires Valid()
      ensures |Entries()| == |list.nodes| == list.length && Distinct(Ids(Entries()))
      ensures forall i :: 0 <= i < |list.nodes| ==>
        && list.Contents()[i].size == clientSize && list.Contents()[i] == list.nodes[i].item
        && Entries()[i] == list.Contents()[i].data
        && Entries()[i].threadID in threads && threads[Entries()[i].threadID] == list.nodes[i]
    {
      hide LinkedList.Linked, LinkedList.DataOf, LinkedList.Items;
    }

    /** Server_getClientInfoForNickname. */
    method FindNickname(nickname: string) returns (index: int)
      requires Valid() && |nickname| <= Message.MAX_NICKNAME_SIZE
      requires forall client <- Entries() :: |client.nickname| <= Message.MAX_NICKNAME_SIZE
      ensures index >= 0 <==> exists client <- Entries() :: client.nickname == nickname
    {
      hide Fit, LinkedList.Linked, LinkedList.DataOf, LinkedList.Items;
      Facts();
      index := list.Search(nickname, clientSize, FindByNickname);
      if index >= 0 {
        assert list.Contents()[index].data == Entries()[index];
      } else {
        forall i | 0 <= i < |Entries()|
          ensures Entries()[i].nickname != nickname
        {
          assert !LinkedList.Matches(list.Contents()[i], nickname, clientSize, FindByNickname);
        }
      }
    }

    /** Server_getClientInfoForThread for the thread of a listed client. */
    method FindThread(id: Id) returns (index: nat)
      requires Valid() && id in Ids(Entries())
      ensures index < |Entries()| && Ids(Entries())[index] == id
    {
      hide Fit, LinkedList.Linked, LinkedList.DataOf, LinkedList.Items;
      Facts();
      var pos := list.Search(id, clientSize, FindByThreadID);
      ghost var k :| 0 <= k < |Entries()| && Ids(Entries())[k] == id;
      assert LinkedList.Matches(list.Contents()[k], id, clientSize, FindByThreadID);
      assert pos >= 0;
      assert LinkedList.Matches(list.Contents()[pos], id, clientSize, FindByThreadID);
      index := pos;
    }

    lemma {:induction false} NodesDiffer()
      requires Valid()
      ensures Distinct(list.nodes)
    {
      hide Fit, Owned;
    }

    /** The thread writes the nickname into its own entry, through the pointer it was given. */
    method SetNickname(id: Id, nickname: string, ghost k: nat)
      requires Valid() && k < |Entries()| && Ids(Entries())[k] == id && |nickname| < Message.MAX_NICKNAME_SIZE
      modifies list, Repr
      ensures Valid()
      ensures Entries() == Renamed(old(Entries()), k, nickname)
    {
      hide Fit, Ids, LinkedList.Linked, LinkedList.DataOf, LinkedList.Items;
      Facts();
      NodesDiffer();
      var index := FindThread(id);
      assert index == k;
      var node := list.Walk(index);
      if node == threads[id] {
        ghost var items := list.Contents();
        FitRenamed(items, list.nodes, threads, list.current, cursor, clientSize, k, nickname);
        var printed := CString.Take(nickname, Message.MAX_NICKNAME_SIZE - 1);
        list.ReplaceItem(node, LinkedList.Item(Client(id, printed), clientSize), k);
      } else {
        assert false; // a listed thread finds its own entry
      }
    }

    /** What a thread reads through the pointer it was given. */
    method NicknameOf(id: Id, ghost k: nat) returns (nickname: string)
      requires Valid() && k < |Entries()| && Ids(Entries())[k] == id
      ensures nickname == Entries()[k].nickname
    {
      hide Fit, LinkedList.Linked, LinkedList.DataOf, LinkedList.Items;
      Facts();
      return threads[id].item.data.nickname;
    }

    /** Server_dropClient: the entry of the thread is found and deleted. */
    method Remove(id: Id) returns (ghost k: nat)
      requires Valid() && id in Ids(Entries())
      modifies this`cursor, list, Repr
      ensures Valid()
      ensures k < |old(Entries())| && old(Ids(Entries()))[k] == id
      ensures Entries() == Cut(old(Entries()), k) && cursor == CursorCut(old(cursor), old(Ids(Entries())), k)
    {
      hide Fit, Ids, LinkedList.Linked, LinkedList.DataOf, LinkedList.Items;
      Facts();
      NodesDiffer();
      ghost var items, nodes, current := list.Contents(), list.nodes, list.current;
      var index := FindThread(id);
      k := index;
      var done := list.Delete(index);
      EntriesCut(items, k);
      FitCut(items, nodes, threads, current, cursor, clientSize, k, list.current);
      cursor := CursorCut(cursor, Ids(LinkedList.DataOf(items)), k);
    }

    method Rewind()
      requires Valid()
      modifies this`cursor, list, Repr
      ensures Valid() && Entries() == old(Entries())
      ensures cursor == if Entries() == [] then old(cursor) else Some(Ids(Entries())[0])
    {
      hide Fit, Ids, LinkedList.Linked, LinkedList.DataOf, LinkedList.Items;
      Facts();
      NodesDiffer();
      FitMoved(list.Contents(), list.nodes, threads, list.current, cursor, clientSize, 0);
      var done := list.Rewind();
      cursor := if Entries() == [] then cursor else Some(Ids(Entries())[0]);
    }

    /** List_next: the client under the cursor, which moves on. */
    method Advance(ghost k: nat) returns (client: Option<Client>)
      requires Valid() && k <= |Entries()| && cursor == (if k < |Entries()| then Some(Ids(Entries())[k]) else None)
      modifies this`cursor, list, Repr
      ensures Valid() && Entries() == old(Entries())
      ensures client == if k < |Entries()| then Some(Entries()[k]) else None
      ensures cursor == if k + 1 < |Entries()| then Some(Ids(Entries())[k + 1]) else None
    {
      hide Fit, Ids, LinkedList.Linked, LinkedList.DataOf, LinkedList.Items;
      Facts();
      NodesDiffer();
      CursorNode(list.Contents(), list.nodes, threads, list.current, cursor, clientSize, k);
      if k < |Entries()| {
        FitMoved(list.Contents(), list.nodes, threads, list.current, cursor, clientSize, k + 1);
      }
      client := list.Next();
      cursor := if k + 1 < |Entries()| then Some(Ids(Entries())[k + 1]) else None;
    }
  }
}
