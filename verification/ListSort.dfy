/** The in-place sort of src/lib/list/list.c:323-394, which moves payloads and never nodes. */
module ListSort {
  import opened LinkedList

  /** What a comparison function owes the sort: the size it is told does not change the verdict, and
      the verdicts form a total preorder. */
  ghost predicate TotalPreorder<T(!new)>(compare: (T, T, nat) -> int) {
    && (forall a, b, m, n {:trigger compare(a, b, m), compare(a, b, n)} ::
          compare(a, b, m) < 0 <==> compare(a, b, n) < 0)
    && (forall a, b, n :: compare(a, b, n) < 0 <==> compare(b, a, n) > 0)
    && (forall a, b, c, n {:trigger compare(a, b, n), compare(b, c, n)} ::
          compare(a, b, n) <= 0 && compare(b, c, n) <= 0 ==> compare(a, c, n) <= 0)
  }

  predicate AtMost<T>(a: Item<T>, b: Item<T>, compare: (T, T, nat) -> int) {
    compare(a.data, b.data, 0) <= 0
  }

  ghost function Swapped<T>(s: seq<T>, i: nat, j: nat): seq<T>
    requires i < |s| && j < |s|
  {
    s[i := s[j]][j := s[i]]
  }

  /** `t` is `s` with the segment from `lo` to before `hi` put in some order. */
  ghost predicate Rearranged<T>(s: seq<T>, t: seq<T>, lo: nat, hi: nat) {
    && lo <= hi <= |s| == |t|
    && multiset(t[lo..hi]) == multiset(s[lo..hi])
    && t[..lo] == s[..lo] && t[hi..] == s[hi..]
  }

  lemma {:induction false} SwapRearranges<T>(s: seq<T>, lo: nat, hi: nat, i: nat, j: nat)
    requires lo <= i < hi <= |s| && lo <= j < hi
    ensures Rearranged(s, Swapped(s, i, j), lo, hi)
  {
    assert Swapped(s, i, j)[lo..hi] == Swapped(s[lo..hi], i - lo, j - lo);
  }

  lemma {:induction false} RearrangedTwice<T>(s: seq<T>, t: seq<T>, u: seq<T>, lo: nat, hi: nat)
    requires Rearranged(s, t, lo, hi) && Rearranged(t, u, lo, hi)
    ensures Rearranged(s, u, lo, hi)
  {
  }

  lemma {:induction false} RearrangedWider<T>(s: seq<T>, t: seq<T>, lo: nat, hi: nat)
    requires hi < |s| && Rearranged(s, t, lo, hi)
    ensures Rearranged(s, t, lo, hi + 1) && t[hi] == s[hi]
  {
    assert s[hi] == s[hi..][0] && t[hi] == t[hi..][0];
    assert s[lo..hi + 1] == s[lo..hi] + [s[hi]] && t[lo..hi + 1] == t[lo..hi] + [t[hi]];
    assert s[hi + 1..] == s[hi..][1..] && t[hi + 1..] == t[hi..][1..];
  }

  /** Nothing in the segment of `s` is above `m`. */
  ghost predicate BoundedIn<T>(s: seq<Item<T>>, lo: nat, hi: nat, m: Item<T>, compare: (T, T, nat) -> int) {
    && lo <= hi <= |s|
    && forall i :: lo <= i < hi ==> AtMost(s[i], m, compare)
  }

  ghost predicate SortedIn<T>(s: seq<Item<T>>, lo: nat, hi: nat, compare: (T, T, nat) -> int) {
    && lo <= hi <= |s|
    && forall i, j :: lo <= i < j < hi ==> AtMost(s[i], s[j], compare)
  }

  lemma {:induction false} BoundedRearranged<T>(s: seq<Item<T>>, t: seq<Item<T>>, lo: nat, hi: nat, m: Item<T>,
                                                compare: (T, T, nat) -> int)
    requires Rearranged(s, t, lo, hi) && BoundedIn(s, lo, hi, m, compare)
    ensures BoundedIn(t, lo, hi, m, compare)
  {
    forall i | lo <= i < hi
      ensures AtMost(t[i], m, compare)
    {
      assert t[i] == t[lo..hi][i - lo];
      assert t[i] in multiset(t[lo..hi]);
      assert t[i] in s[lo..hi];
    }
  }

  /** Sorting what is below the maximum, and leaving the maximum at the end. */
  lemma {:induction false} SortedBelowMaximum<T>(s: seq<Item<T>>, t: seq<Item<T>>, lo: nat, hi: nat,
                                                 compare: (T, T, nat) -> int)
    requires hi < |s| && BoundedIn(s, lo, hi + 1, s[hi], compare)
    requires Rearranged(s, t, lo, hi) && SortedIn(t, lo, hi, compare)
    ensures SortedIn(t, lo, hi + 1, compare) && Rearranged(s, t, lo, hi + 1)
  {
    RearrangedWider(s, t, lo, hi);
    BoundedRearranged(s, t, lo, hi, s[hi], compare);
  }

  /** The nodes the sort may write to. */
  ghost predicate Covers<T>(all: set<ListNode<T>>, nodes: seq<ListNode<T>>) {
    forall i :: 0 <= i < |nodes| ==> nodes[i] in all
  }

  method NodeSwap<T>(a: ListNode<T>, b: ListNode<T>)
    modifies a`item, b`item
    ensures a.item == old(b.item) && b.item == old(a.item)
  {
    var temp := a.item;
    a.item := b.item;
    b.item := temp;
  }

  /** Compares the front with another node, on the smaller of their sizes, and keeps the larger
      payload in front. */
  method Visit<T(!new)>(start: ListNode<T>, current: ListNode<T>, compare: (T, T, nat) -> int,
                        ghost nodes: seq<ListNode<T>>, ghost all: set<ListNode<T>>, ghost lo: nat, ghost k: nat, ghost hi: nat)
    requires Linked(nodes) && lo < k <= hi < |nodes| && start == nodes[lo] && current == nodes[k]
    requires Covers(all, nodes) && TotalPreorder(compare)
    requires BoundedIn(Items(nodes), lo, k, Items(nodes)[lo], compare)
    modifies all`item
    ensures Linked(nodes) && Rearranged(old(Items(nodes)), Items(nodes), lo, hi + 1)
    ensures BoundedIn(Items(nodes), lo, k + 1, Items(nodes)[lo], compare)
  {
    hide TotalPreorder, Rearranged, BoundedIn, Items, Linked;
    ghost var u := Items(nodes);
    var size := if start.item.size <= current.item.size then start.item.size else current.item.size;
    SelfRearranged(u, lo, hi + 1);
    if compare(start.item.data, current.item.data, size) < 0 {
      SwapNodes(start, current, nodes, lo, k);
      SwapRearranges(u, lo, hi + 1, lo, k);
    }
    PassStep(u, Items(nodes), lo, k, size, compare);
  }

  lemma {:induction false} LinksAt<T>(nodes: seq<ListNode<T>>, i: nat)
    requires Linked(nodes) && i < |nodes|
    ensures nodes[i].next == At(nodes, i + 1) && nodes[i].prev == At(nodes, i - 1)
  {
  }

  lemma {:induction false} SamePlace<T>(nodes: seq<ListNode<T>>, i: nat, j: nat)
    requires Linked(nodes) && i < |nodes| && j < |nodes|
    ensures nodes[i] == nodes[j] <==> i == j
  {
  }

  /** What the tests behind a pass read off the links at the end of the segment. */
  lemma {:induction false} EndLinks<T>(nodes: seq<ListNode<T>>, lo: nat, hi: nat)
    requires Linked(nodes) && lo < hi < |nodes|
    ensures nodes[hi].prev == nodes[hi - 1] && nodes[hi - 1].next == nodes[hi]
    ensures nodes[lo].prev != nodes[hi - 1] && nodes[hi] != nodes[lo]
    ensures nodes[hi].next != null ==> nodes[hi].next.prev == nodes[hi]
  {
  }

  lemma {:induction false} OneIsSorted<T>(s: seq<Item<T>>, lo: nat, compare: (T, T, nat) -> int)
    requires lo < |s|
    ensures SortedIn(s, lo, lo + 1, compare) && Rearranged(s, s, lo, lo + 1)
  {
  }

  /** The pass over the segment: a maximum ends up in front. */
  method MaximumToFront<T(!new)>(left: ListNode<T>, right: ListNode<T>, compare: (T, T, nat) -> int,
                                 ghost nodes: seq<ListNode<T>>, ghost all: set<ListNode<T>>, ghost lo: nat, ghost hi: nat)
    returns (current: ListNode<T>, comparisons: nat)
    requires Linked(nodes) && lo < hi < |nodes| && left == nodes[lo] && right == nodes[hi]
    requires Covers(all, nodes) && TotalPreorder(compare)
    modifies all`item
    ensures Linked(nodes) && current == right && comparisons == hi - lo
    ensures Rearranged(old(Items(nodes)), Items(nodes), lo, hi + 1)
    ensures BoundedIn(Items(nodes), lo, hi + 1, Items(nodes)[lo], compare)
  {
    hide TotalPreorder, Rearranged, BoundedIn, Items, Linked;
    ghost var s := Items(nodes);
    var start := left;
    comparisons := 0;
    LinksAt(nodes, lo);
    current := start.next;
    ghost var k := lo + 1;
    SelfRearranged(s, lo, hi + 1);
    FrontBounded(s, lo, compare);
    while true
      invariant Linked(nodes) && lo < k <= hi && current == nodes[k] && comparisons == k - lo - 1
      invariant Rearranged(s, Items(nodes), lo, hi + 1)
      invariant BoundedIn(Items(nodes), lo, k, Items(nodes)[lo], compare)
      decreases hi - k
    {
      ghost var u := Items(nodes);
      Visit(start, current, compare, nodes, all, lo, k, hi);
      comparisons := comparisons + 1;
      RearrangedTwice(s, u, Items(nodes), lo, hi + 1);
      SamePlace(nodes, k, hi);
      if current == right {
        break;
      }
      LinksAt(nodes, k);
      current := current.next;
      k := k + 1;
    }
  }

  /** One pass, and then the front and the end change places. */
  method MaximumToEnd<T(!new)>(left: ListNode<T>, right: ListNode<T>, compare: (T, T, nat) -> int,
                               ghost nodes: seq<ListNode<T>>, ghost all: set<ListNode<T>>, ghost lo: nat, ghost hi: nat)
    returns (current: ListNode<T>, comparisons: nat)
    requires Linked(nodes) && lo < hi < |nodes| && left == nodes[lo] && right == nodes[hi]
    requires Covers(all, nodes) && TotalPreorder(compare)
    modifies all`item
    ensures Linked(nodes) && current == right && comparisons == hi - lo
    ensures Rearranged(old(Items(nodes)), Items(nodes), lo, hi + 1)
    ensures BoundedIn(Items(nodes), lo, hi + 1, Items(nodes)[hi], compare)
  {
    hide TotalPreorder, Rearranged, BoundedIn, Items, Linked;
    ghost var s := Items(nodes);
    current, comparisons := MaximumToFront(left, right, compare, nodes, all, lo, hi);
    ghost var t := Items(nodes);
    SwapNodes(left, current, nodes, lo, hi);
    ghost var u := Items(nodes);
    SwappedBound(s, t, u, lo, hi, compare);
  }

  lemma {:induction false} SwappedBound<T>(s: seq<Item<T>>, t: seq<Item<T>>, u: seq<Item<T>>, lo: nat, hi: nat,
                                           compare: (T, T, nat) -> int)
    requires lo < hi < |t| && Rearranged(s, t, lo, hi + 1) && BoundedIn(t, lo, hi + 1, t[lo], compare)
    requires u == Swapped(t, lo, hi)
    ensures Rearranged(s, u, lo, hi + 1) && BoundedIn(u, lo, hi + 1, u[hi], compare)
  {
    hide Rearranged, BoundedIn;
    SwapRearranges(t, lo, hi + 1, lo, hi);
    BoundedRearranged(t, u, lo, hi + 1, t[lo], compare);
    RearrangedTwice(s, t, u, lo, hi + 1);
  }

  /** Node_swap as seen along the list. */
  method SwapNodes<T>(a: ListNode<T>, b: ListNode<T>, ghost nodes: seq<ListNode<T>>, ghost i: nat, ghost j: nat)
    requires Linked(nodes) && i < |nodes| && j < |nodes| && a == nodes[i] && b == nodes[j]
    modifies a`item, b`item
    ensures Linked(nodes) && Items(nodes) == Swapped(old(Items(nodes)), i, j)
  {
    NodeSwap(a, b);
  }

  lemma {:induction false} SelfRearranged<T>(s: seq<T>, lo: nat, hi: nat)
    requires lo <= hi <= |s|
    ensures Rearranged(s, s, lo, hi)
  {
  }

  lemma {:induction false} FrontBounded<T(!new)>(s: seq<Item<T>>, lo: nat, compare: (T, T, nat) -> int)
    requires lo < |s| && TotalPreorder(compare)
    ensures BoundedIn(s, lo, lo + 1, s[lo], compare)
  {
    assert compare(s[lo].data, s[lo].data, 0) <= 0;
  }

  /** What one comparison of the pass adds to what is known of the front. */
  lemma {:induction false} PassStep<T(!new)>(u: seq<Item<T>>, t: seq<Item<T>>, lo: nat, k: nat, size: nat,
                                             compare: (T, T, nat) -> int)
    requires lo < k < |u| == |t| && TotalPreorder(compare)
    requires BoundedIn(u, lo, k, u[lo], compare)
    requires t == if compare(u[lo].data, u[k].data, size) < 0 then Swapped(u, lo, k) else u
    ensures BoundedIn(t, lo, k + 1, t[lo], compare)
  {
    assert compare(u[lo].data, u[k].data, 0) < 0 <==> compare(u[lo].data, u[k].data, size) < 0;
    assert compare(t[lo].data, t[lo].data, 0) <= 0;
    forall i | lo <= i < k + 1
      ensures AtMost(t[i], t[lo], compare)
    {
      if lo < i < k {
        assert AtMost(u[i], u[lo], compare);
      }
    }
  }

  /** Sorts the payloads of the segment. The links are out of the method's reach, every pass compares
      the front with each other node once, and the call for the right-hand side is never made. */
  method QuickSortList<T(!new)>(left: ListNode<T>, right: ListNode<T>, compare: (T, T, nat) -> int,
                                ghost nodes: seq<ListNode<T>>, ghost all: set<ListNode<T>>, ghost lo: nat, ghost hi: nat)
    returns (comparisons: nat)
    requires Linked(nodes) && lo <= hi < |nodes| && left == nodes[lo] && right == nodes[hi]
    requires Covers(all, nodes) && TotalPreorder(compare)
    modifies all`item
    ensures Linked(nodes) && SortedIn(Items(nodes), lo, hi + 1, compare)
    ensures Rearranged(old(Items(nodes)), Items(nodes), lo, hi + 1)
    ensures 2 * comparisons == (hi - lo) * (hi - lo + 1)
    decreases hi - lo
  {
    hide TotalPreorder, Rearranged, BoundedIn, SortedIn, Items, Linked, Covers;
    ghost var s := Items(nodes);
    SamePlace(nodes, lo, hi);
    if left == right {
      OneIsSorted(s, lo, compare);
      return 0;
    }
    var current;
    current, comparisons := MaximumToEnd(left, right, compare, nodes, all, lo, hi);
    ghost var t := Items(nodes);
    var oldCurrent := current;
    EndLinks(nodes, lo, hi);
    current := oldCurrent.prev;
    if current != null {
      if left.prev != current && current.next != left {
        var more := QuickSortList(left, current, compare, nodes, all, lo, hi - 1);
        Triangle(hi - lo, comparisons, more);
        comparisons := comparisons + more;
      }
    }
    SortedBelowMaximum(t, Items(nodes), lo, hi, compare);
    RearrangedTwice(s, t, Items(nodes), lo, hi + 1);
    EndLinks(nodes, lo, hi);
    current := oldCurrent.next;
    if current != null {
      var behind := right.next;
      if current.prev != right && behind != current {
        assert false; // nothing is ever left to sort on this side
      }
    }
  }

  lemma {:induction false} Triangle(n: nat, pass: nat, rest: nat)
    requires n > 0 && pass == n && 2 * rest == (n - 1) * n
    ensures 2 * (pass + rest) == n * (n + 1)
  {
  }

  lemma {:induction false} WholeRearranged<T>(s: seq<T>, t: seq<T>, n: nat)
    requires n == |s| && Rearranged(s, t, 0, n)
    ensures multiset(t) == multiset(s)
  {
    assert s[0..n] == s && t[0..n] == t;
  }

  /** List_sort: ascending, a permutation, every pointer of the list where it was, and n(n-1)/2
      comparisons for n nodes. */
  method Sort<T(!new)>(list: List<T>, compare: (T, T, nat) -> int) returns (comparisons: nat)
    requires list.Valid() && TotalPreorder(compare)
    modifies Members(list.nodes)`item
    ensures list.Valid() && list.nodes == old(list.nodes)
    ensures SortedIn(list.Contents(), 0, |list.nodes|, compare)
    ensures multiset(list.Contents()) == multiset(old(list.Contents()))
    ensures 2 * comparisons == |list.nodes| * (|list.nodes| - 1)
  {
    hide TotalPreorder, Rearranged, Items, Linked, SortedIn, Members, Covers;
    comparisons := 0;
    ghost var nodes := list.nodes;
    ghost var n := |nodes|;
    if list.Empty() {
      NothingToSort(Items(nodes), compare);
    } else {
      ghost var s := Items(nodes);
      comparisons := QuickSortList(list.first, list.last, compare, nodes, Members(nodes), 0, n - 1);
      WholeRearranged(s, Items(nodes), n);
    }
  }

  lemma {:induction false} NothingToSort<T>(s: seq<Item<T>>, compare: (T, T, nat) -> int)
    requires s == []
    ensures SortedIn(s, 0, |s|, compare)
  {
  }

  ghost function Members<T>(nodes: seq<ListNode<T>>): (all: set<ListNode<T>>)
    ensures Covers(all, nodes)
  {
    set node | node in nodes
  }
}
