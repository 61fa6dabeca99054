/** src/lib/hash/hash.c: a chained hash table, refining a finite map. */
module Hash {
  import opened Integers
  import opened Sequences
  import opened Wrappers

  const HASH_SIZE: nat := 128

  type Byte = b: int | 0 <= b < 256

  /** A byte as `char` reads it where char is signed, and where it is not. */
  function CharValue(b: Byte, signed: bool): int {
    if signed && b >= 128 then b - 256 else b
  }

  function Sum(key: seq<Byte>, signed: bool): (sum: int)
    ensures -128 * |key| <= sum <= 255 * |key|
  {
    if key == [] then 0 else Sum(key[..|key| - 1], signed) + CharValue(key[|key| - 1], signed)
  }

  /** The byte sum of a key never leaves a 32-bit int, whichever way the bytes are read; beyond that the
      addition is undefined in C. Every key of fewer than 2^23 bytes is one. */
  predicate FitsInt(key: seq<Byte>) {
    forall i :: 0 <= i <= |key| ==> -0x8000_0000 <= Sum(key[..i], true) && Sum(key[..i], false) <= 0x7fff_ffff
  }

  type Key = k: seq<Byte> | FitsInt(k) witness []

  lemma {:induction false} ShortKeysFit(key: seq<Byte>)
    requires |key| < 0x80_0000
    ensures FitsInt(key)
  {
  }

  lemma {:induction false} SignedIsLess(key: seq<Byte>)
    ensures Sum(key, true) <= Sum(key, false)
    decreases |key|
  {
    if key != [] {
      SignedIsLess(key[..|key| - 1]);
    }
  }

  lemma {:induction false} PrefixFits(key: Key, i: nat, signed: bool)
    requires i <= |key|
    ensures -0x8000_0000 <= Sum(key[..i], signed) <= 0x7fff_ffff
  {
    SignedIsLess(key[..i]);
  }

  lemma {:induction false} SumFits(key: Key, signed: bool)
    ensures -0x8000_0000 <= Sum(key, signed) <= 0x7fff_ffff
  {
    PrefixFits(key, |key|, signed);
    assert key[..|key|] == key;
  }

  /** The bucket of a key. */
  function IndexFor(key: Key, signed: bool): (index: nat)
    ensures index < HASH_SIZE
  {
    SumFits(key, signed);
    ToSize(Sum(key, signed)) % HASH_SIZE
  }

  lemma {:induction false} SumsDifferByMultiple(key: seq<Byte>) returns (k: int)
    ensures Sum(key, false) == Sum(key, true) + 256 * k
    decreases |key|
  {
    if key == [] {
      k := 0;
    } else {
      k := SumsDifferByMultiple(key[..|key| - 1]);
      if key[|key| - 1] >= 128 {
        k := k + 1;
      }
    }
  }

  /** The size is a divisor of 2^64, so the wrap of a negative sum keeps its residue. */
  lemma {:induction false} ToSizeModulo(i: int)
    requires -0x8000_0000 <= i <= 0x7fff_ffff
    ensures ToSize(i) % HASH_SIZE == i % 128
  {
    ModShift(i, 0x200_0000_0000_0000);
  }

  /** The bucket is the same whether the platform's char is signed or not. */
  lemma {:induction false} IndexIsPortable(key: Key)
    ensures IndexFor(key, true) == IndexFor(key, false)
  {
    hide Sum;
    SumFits(key, true);
    SumFits(key, false);
    var k := SumsDifferByMultiple(key);
    ToSizeModulo(Sum(key, true));
    ToSizeModulo(Sum(key, false));
    ModShift(Sum(key, true), 2 * k);
  }

  lemma {:induction false} ModShift(x: int, k: int)
    ensures (x + 128 * k) % 128 == x % 128
  {
  }

  lemma {:induction false} SumOfBoth(a: seq<Byte>, b: seq<Byte>, signed: bool)
    ensures Sum(a + b, signed) == Sum(a, signed) + Sum(b, signed)
  {
    if b == [] {
      assert a + b == a;
    } else {
      assert (a + b)[..|a + b| - 1] == a + b[..|b| - 1];
      SumOfBoth(a, b[..|b| - 1], signed);
    }
  }

  /** A key is in the bucket that the sum of its parts' buckets gives. */
  lemma {:induction false} IndexOfBoth(a: Key, b: Key, signed: bool)
    requires FitsInt(a + b)
    ensures IndexFor(a + b, signed) == (IndexFor(a, signed) + IndexFor(b, signed)) % 128
  {
    hide IndexFor, Sum;
    IndexIsSum(a, signed);
    IndexIsSum(b, signed);
    IndexIsSum(a + b, signed);
    SumOfBoth(a, b, signed);
    ModOfSum(Sum(a, signed), Sum(b, signed));
  }

  lemma {:induction false} IndexIsSum(key: Key, signed: bool)
    ensures IndexFor(key, signed) == Sum(key, signed) % 128
  {
    hide Sum;
    SumFits(key, signed);
    ToSizeModulo(Sum(key, signed));
  }

  lemma {:induction false} ModOfSum(x: int, y: int)
    ensures (x + y) % 128 == (x % 128 + y % 128) % 128
  {
    ModShift(x % 128 + y % 128, x / 128 + y / 128);
  }

  /** A key of one byte is in the bucket of its value, so that the first and the last of such keys are the least
      and the greatest letters. */
  lemma {:induction false} IndexOfByte(b: Byte, signed: bool)
    ensures FitsInt([b]) && IndexFor([b], signed) == b % 128 && FitsInt([]) && IndexFor([], signed) == 0
  {
    ShortKeysFit([b]);
    ShortKeysFit([]);
    SumFits([b], signed);
    ToSizeModulo(Sum([b], signed));
    assert [b][..0] == [];
    if signed && b >= 128 {
      ModShift(b, -2);
    }
  }

  /** Hash_indexFor. */
  method ComputeIndex(key: Key, signed: bool) returns (r: nat)
    ensures r == IndexFor(key, signed)
  {
    var index := 0;
    var keyLength := |key|;
    var i := 0;
    while i < keyLength
      invariant 0 <= i <= keyLength && index == Sum(key[..i], signed)
      invariant -0x8000_0000 <= index <= 0x7fff_ffff
    {
      assert key[..i + 1][..i] == key[..i];
      PrefixFits(key, i + 1, signed);
      index := index + CharValue(key[i], signed);
      i := i + 1;
    }
    assert key[..keyLength] == key;
    r := ToSize(index) % HASH_SIZE;
  }

  datatype Tuple<V> = Tuple(key: Key, value: V)

  class HashNode<V> {
    var next: HashNode?<V>
    const data: Tuple<V>

    constructor (key: Key, value: V)
      ensures data == Tuple(key, value) && next == null
    {
      data := Tuple(key, value);
      next := null;
    }
  }

  /** A chain from `first`, in order, to its NULL. */
  ghost predicate Chain<V>(first: HashNode?<V>, nodes: seq<HashNode<V>>)
    reads nodes`next
  {
    && first == NodeAt(nodes, 0)
    && forall i {:trigger nodes[i].next} :: 0 <= i < |nodes| ==> nodes[i].next == NodeAt(nodes, i + 1)
  }

  ghost function NodeAt<V>(nodes: seq<HashNode<V>>, i: int): HashNode?<V> {
    if 0 <= i < |nodes| then nodes[i] else null
  }

  /** No key occurs twice in a chain; so no node does either. */
  ghost predicate DistinctKeys<V>(nodes: seq<HashNode<V>>) {
    forall i, j :: 0 <= i < j < |nodes| ==> nodes[i].data.key != nodes[j].data.key
  }

  ghost predicate InBucket<V>(nodes: seq<HashNode<V>>, b: int, signed: bool) {
    forall i :: 0 <= i < |nodes| ==> IndexFor(nodes[i].data.key, signed) == b
  }

  ghost predicate HasKey<V>(nodes: seq<HashNode<V>>, key: Key) {
    exists i :: 0 <= i < |nodes| && nodes[i].data.key == key
  }

  /** The chain holds what the map says, for the keys of its bucket. */
  ghost predicate Agrees<V>(nodes: seq<HashNode<V>>, m: map<Key, V>, b: int, signed: bool) {
    && (forall i :: 0 <= i < |nodes| ==> nodes[i].data.key in m && m[nodes[i].data.key] == nodes[i].data.value)
    && (forall key: Key :: key in m && IndexFor(key, signed) == b ==> HasKey(nodes, key))
  }

  ghost predicate GoodBucket<V>(first: HashNode?<V>, nodes: seq<HashNode<V>>, m: map<Key, V>, b: int, signed: bool)
    reads nodes`next
  {
    Chain(first, nodes) && Entries(nodes, m, b, signed)
  }

  // ----- what the operations do to the chain of the key's bucket

  ghost predicate AllIn<V>(chain: seq<HashNode<V>>, nodes: set<HashNode<V>>) {
    forall i :: 0 <= i < |chain| ==> chain[i] in nodes
  }

  lemma {:induction false} AllInChanged<V>(chain: seq<HashNode<V>>, nodes: set<HashNode<V>>, i: nat, item: HashNode<V>)
    requires AllIn(chain, nodes)
    ensures i < |chain| ==> AllIn(chain[i := item], nodes + {item}) && AllIn(Cut(chain, i), nodes + {})
    ensures AllIn(chain + [item], nodes + {item})
  {
  }

  /** No chain but the one of bucket `h` has the node `n`. */
  ghost predicate OthersAvoid<V>(chains: seq<seq<HashNode<V>>>, h: int, n: HashNode?<V>) {
    forall b, j :: 0 <= b < |chains| && b != h && 0 <= j < |chains[b]| ==> chains[b][j] != n
  }

  lemma {:induction false} ChainReplaced<V>(first: HashNode?<V>, nodes: seq<HashNode<V>>, i: nat, item: HashNode<V>)
    requires i < |nodes| && item.next == NodeAt(nodes, i + 1)
    requires first == if i == 0 then item else nodes[0]
    requires forall j {:trigger nodes[j].next} :: 0 <= j < |nodes| && j != i ==>
      nodes[j].next == if j == i - 1 then item else NodeAt(nodes, j + 1)
    ensures Chain(first, nodes[i := item])
  {
  }

  lemma {:induction false} ChainAppended<V>(first: HashNode?<V>, nodes: seq<HashNode<V>>, item: HashNode<V>)
    requires item.next == null
    requires first == if nodes == [] then item else nodes[0]
    requires forall j {:trigger nodes[j].next} :: 0 <= j < |nodes| ==>
      nodes[j].next == if j == |nodes| - 1 then item else NodeAt(nodes, j + 1)
    ensures Chain(first, nodes + [item])
  {
  }

  lemma {:induction false} ChainCut<V>(first: HashNode?<V>, nodes: seq<HashNode<V>>, i: nat)
    requires i < |nodes|
    requires first == if i == 0 then NodeAt(nodes, 1) else nodes[0]
    requires forall j {:trigger nodes[j].next} :: 0 <= j < |nodes| && j != i ==>
      nodes[j].next == NodeAt(nodes, if j == i - 1 then i + 1 else j + 1)
    ensures Chain(first, Cut(nodes, i))
  {
  }

  /** What the nodes of a bucket say, leaving aside how they are linked. */
  ghost predicate Entries<V>(nodes: seq<HashNode<V>>, m: map<Key, V>, b: int, signed: bool) {
    DistinctKeys(nodes) && InBucket(nodes, b, signed) && Agrees(nodes, m, b, signed)
  }

  lemma {:induction false} EntriesFacts<V>(nodes: seq<HashNode<V>>, m: map<Key, V>, b: int, signed: bool)
    requires Entries(nodes, m, b, signed)
    ensures Distinct(nodes)
    ensures forall i :: 0 <= i < |nodes| ==> nodes[i].data.key in m
  {
    hide IndexFor;
  }

  lemma {:induction false} EntriesReplaced<V>(nodes: seq<HashNode<V>>, m: map<Key, V>, b: int, signed: bool,
                                              i: nat, item: HashNode<V>)
    requires Entries(nodes, m, b, signed) && i < |nodes| && item.data.key == nodes[i].data.key
    ensures Entries(nodes[i := item], m[item.data.key := item.data.value], b, signed)
  {
    hide IndexFor;
    var nodes' := nodes[i := item];
    forall key: Key | key in m && IndexFor(key, signed) == b
      ensures HasKey(nodes', key)
    {
      var j :| 0 <= j < |nodes| && nodes[j].data.key == key;
      assert nodes'[j].data.key == key;
    }
    assert nodes'[i].data.key == item.data.key;
  }

  lemma {:induction false} EntriesAppended<V>(nodes: seq<HashNode<V>>, m: map<Key, V>, b: int, signed: bool,
                                              item: HashNode<V>)
    requires Entries(nodes, m, b, signed) && item.data.key !in m && IndexFor(item.data.key, signed) == b
    ensures Entries(nodes + [item], m[item.data.key := item.data.value], b, signed)
  {
    hide IndexFor;
    var nodes' := nodes + [item];
    forall key: Key | key in m && IndexFor(key, signed) == b
      ensures HasKey(nodes', key)
    {
      var j :| 0 <= j < |nodes| && nodes[j].data.key == key;
      assert nodes'[j].data.key == key;
    }
    assert nodes'[|nodes|].data.key == item.data.key;
  }

  lemma {:induction false} KeysCut<V>(nodes: seq<HashNode<V>>, b: int, signed: bool, i: nat)
    requires DistinctKeys(nodes) && InBucket(nodes, b, signed) && i < |nodes|
    ensures DistinctKeys(Cut(nodes, i)) && InBucket(Cut(nodes, i), b, signed)
    ensures forall j :: 0 <= j < |nodes| - 1 ==> Cut(nodes, i)[j].data.key != nodes[i].data.key
  {
    hide IndexFor;
  }

  lemma {:induction false} EntriesCut<V>(nodes: seq<HashNode<V>>, m: map<Key, V>, b: int, signed: bool, i: nat)
    requires Entries(nodes, m, b, signed) && i < |nodes|
    ensures Entries(Cut(nodes, i), m - {nodes[i].data.key}, b, signed)
  {
    hide IndexFor;
    KeysCut(nodes, b, signed, i);
    var nodes' := Cut(nodes, i);
    var m' := m - {nodes[i].data.key};
    assert Agrees(nodes', m', b, signed) by {
      hide DistinctKeys, InBucket;
      forall key: Key | key in m' && IndexFor(key, signed) == b
        ensures HasKey(nodes', key)
      {
        assert HasKey(nodes, key);
        var j :| 0 <= j < |nodes| && nodes[j].data.key == key;
        assert nodes'[if j < i then j else j - 1].data.key == key;
      }
    }
  }

  /** A change of the map at a key of another bucket leaves the bucket right. */
  lemma {:induction false} EntriesElsewhere<V>(nodes: seq<HashNode<V>>, m: map<Key, V>, m': map<Key, V>, b: int,
                                               signed: bool, key: Key)
    requires Entries(nodes, m, b, signed) && IndexFor(key, signed) != b
    requires m - {key} == m' - {key}
    ensures Entries(nodes, m', b, signed)
  {
    hide IndexFor;
    forall k: Key | k != key
      ensures k in m <==> k in m'
      ensures k in m ==> m[k] == m'[k]
    {
      assert k in m <==> k in m - {key};
      assert k in m' <==> k in m' - {key};
      if k in m {
        assert m[k] == (m - {key})[k] == (m' - {key})[k];
      }
    }
  }

  class HashTable<V> {
    const table: array<HashNode?<V>>
    var length: int
    const signed: bool
    ghost var chains: seq<seq<HashNode<V>>>
    ghost var nodes: set<HashNode<V>>
    ghost var model: map<Key, V>

    ghost predicate Covered()
      reads this
    {
      forall b :: 0 <= b < |chains| ==> AllIn(chains[b], nodes)
    }

    ghost predicate Valid()
      reads this, table, nodes
    {
      && table.Length == HASH_SIZE == |chains|
      && length == |model|
      && Covered()
      && forall b :: 0 <= b < HASH_SIZE ==> GoodBucket(table[b], chains[b], model, b, signed)
    }

    constructor (signed: bool)
      ensures Valid() && model == map[] && this.signed == signed
    {
      this.signed := signed;
      table := new HashNode?<V>[HASH_SIZE](_ => null);
      length := 0;
      chains := seq(HASH_SIZE, _ => []);
      nodes := {};
      model := map[];
    }

    /** Walks the chain of the key's bucket up to the node that holds the key, or past its end. */
    method FindNode(key: Key, h: nat) returns (prev: HashNode?<V>, node: HashNode?<V>, ghost i: nat)
      requires Valid() && h == IndexFor(key, signed)
      ensures i <= |chains[h]| && node == NodeAt(chains[h], i) && prev == NodeAt(chains[h], i - 1)
      ensures i < |chains[h]| ==> chains[h][i].data.key == key && key in model && model[key] == chains[h][i].data.value
      ensures i == |chains[h]| ==> key !in model
      ensures (node != null ==> node in nodes) && (prev != null ==> prev in nodes)
    {
      hide IndexFor;
      node := table[h];
      prev := null;
      i := 0;
      ghost var chain: seq<HashNode<V>> := chains[h];
      assert GoodBucket(table[h], chain, model, h, signed);
      while node != null
        invariant i <= |chain| && node == NodeAt(chain, i) && prev == NodeAt(chain, i - 1)
        invariant forall j :: 0 <= j < i ==> chain[j].data.key != key
        decreases |chain| - i
      {
        if key == node.data.key {
          return;
        }
        prev := node;
        node := node.next;
        i := i + 1;
      }
    }

    /** No node stands in two buckets. */
    lemma {:induction false} BucketsApart(b: nat, c: nat, i: nat)
      requires Valid() && b < HASH_SIZE && c < HASH_SIZE && b != c && i < |chains[b]|
      ensures chains[b][i] !in chains[c]
    {
      hide IndexFor;
      assert GoodBucket(table[b], chains[b], model, b, signed);
      assert GoodBucket(table[c], chains[c], model, c, signed);
    }

    method Get(key: Key) returns (item: Option<Tuple<V>>)
      requires Valid()
      ensures item == if key in model then Some(Tuple(key, model[key])) else None
    {
      if length > 0 {
        var h := ComputeIndex(key, signed);
        var prev, node, i := FindNode(key, h);
        if node != null {
          return Some(node.data);
        }
      }
      return None;
    }

    method GetValue(key: Key) returns (value: Option<V>)
      requires Valid()
      ensures value == if key in model then Some(model[key]) else None
    {
      if length > 0 {
        var h := ComputeIndex(key, signed);
        var prev, node, i := FindNode(key, h);
        if node != null {
          return Some(node.data.value);
        }
      }
      return None;
    }

    /** A node of one chain stands in no other. */
    lemma {:induction false} Apart(h: nat, i: int)
      requires Valid() && h < HASH_SIZE && i < |chains[h]|
      ensures OthersAvoid(chains, h, NodeAt(chains[h], i))
    {
      hide GoodBucket;
      forall c, j | 0 <= c < HASH_SIZE && c != h && 0 <= j < |chains[c]|
        ensures chains[c][j] != NodeAt(chains[h], i)
      {
        if 0 <= i {
          BucketsApart(h, c, i);
        }
      }
    }

    lemma {:induction false} NewIsApart(h: nat, item: HashNode<V>)
      requires Covered() && item !in nodes
      ensures OthersAvoid(chains, h, item)
      ensures h < |chains| ==> item !in chains[h]
    {
    }

    lemma {:induction false} Buckets()
      requires Valid()
      ensures forall b :: 0 <= b < HASH_SIZE ==> Chain(table[b], chains[b]) && Entries(chains[b], model, b, signed)
    {
    }

    /** Bucket `h` and the map have changed, the map at a key of that bucket only: the table is right
        again once that is recorded. */
    ghost method Record(h: nat, key: Key, chain: seq<HashNode<V>>, m: map<Key, V>, more: set<HashNode<V>>)
      requires table.Length == HASH_SIZE == |chains| && h == IndexFor(key, signed) && Covered()
      requires AllIn(chain, nodes + more)
      requires length == |m| && Chain(table[h], chain) && Entries(chain, m, h, signed)
      requires forall b :: 0 <= b < HASH_SIZE && b != h ==> Chain(table[b], chains[b])
      requires forall b :: 0 <= b < HASH_SIZE && b != h ==> Entries(chains[b], model, b, signed)
      requires m - {key} == model - {key}
      modifies this`chains, this`nodes, this`model
      ensures Valid() && model == m && nodes == old(nodes) + more
    {
      hide IndexFor, Chain, Entries;
      forall b | 0 <= b < HASH_SIZE && b != h
        ensures Entries(chains[b], m, b, signed)
      {
        EntriesElsewhere(chains[b], model, m, b, signed, key);
      }
      chains := chains[h := chain];
      model := m;
      nodes := nodes + more;
    }

    /** The new node is linked in where `node` stood, and `node` is cut loose. */
    method LinkInPlace(h: nat, prev: HashNode?<V>, node: HashNode<V>, item: HashNode<V>,
                       ghost chain: seq<HashNode<V>>, ghost i: nat)
      requires h < table.Length == |chains| && Chain(table[h], chain) && Distinct(chain)
      requires i < |chain| && node == chain[i] && prev == NodeAt(chain, i - 1) && item !in chain
      requires forall b :: 0 <= b < table.Length && b != h ==> Chain(table[b], chains[b])
      requires OthersAvoid(chains, h, prev) && OthersAvoid(chains, h, node) && OthersAvoid(chains, h, item)
      modifies table, item`next, node`next, (if prev == null then {} else {prev})`next
      ensures Chain(table[h], chain[i := item])
      ensures forall b :: 0 <= b < table.Length && b != h ==> Chain(table[b], chains[b])
    {
      if prev != null {
        prev.next := item;
      } else {
        table[h] := item;
      }
      item.next := node.next;
      node.next := null;
      ChainReplaced(table[h], chain, i, item);
    }

    /** A new node takes the place of the one that held the key. */
    method Replace(key: Key, value: V, h: nat, prev: HashNode?<V>, node: HashNode<V>, ghost i: nat)
      requires Valid() && h == IndexFor(key, signed) && i < |chains[h]|
      requires node == chains[h][i] && prev == NodeAt(chains[h], i - 1) && node.data.key == key
      requires node in nodes && (prev != null ==> prev in nodes)
      modifies this, table, nodes
      ensures Valid() && fresh(nodes - old(nodes)) && model == old(model)[key := value]
    {
      hide IndexFor, Entries, Chain, Distinct, GoodBucket, AllIn, Cut, OthersAvoid;
      ghost var chain: seq<HashNode<V>> := chains[h];
      Buckets();
      Apart(h, i);
      Apart(h, i - 1);
      EntriesFacts(chain, model, h, signed);
      var item := new HashNode<V>(key, value);
      NewIsApart(h, item);
      LinkInPlace(h, prev, node, item, chain, i);
      EntriesReplaced(chain, model, h, signed, i, item);
      AllInChanged(chain, nodes, i, item);
      MapUpdated(model, key, value);
      Record(h, key, chain[i := item], model[key := value], {item});
    }

    method LinkAtEnd(h: nat, prev: HashNode?<V>, item: HashNode<V>, ghost chain: seq<HashNode<V>>)
      requires h < table.Length == |chains| && Chain(table[h], chain) && Distinct(chain)
      requires prev == NodeAt(chain, |chain| - 1) && item.next == null && item !in chain
      requires forall b :: 0 <= b < table.Length && b != h ==> Chain(table[b], chains[b])
      requires OthersAvoid(chains, h, prev)
      modifies table, (if prev == null then {} else {prev})`next
      ensures Chain(table[h], chain + [item])
      ensures forall b :: 0 <= b < table.Length && b != h ==> Chain(table[b], chains[b])
    {
      if prev == null {
        table[h] := item;
      } else {
        prev.next := item;
      }
      ChainAppended(table[h], chain, item);
    }

    method AddAtEnd(key: Key, value: V, h: nat, prev: HashNode?<V>)
      requires Valid() && h == IndexFor(key, signed) && key !in model
      requires prev == NodeAt(chains[h], |chains[h]| - 1) && (prev != null ==> prev in nodes)
      modifies this, table, nodes
      ensures Valid() && fresh(nodes - old(nodes)) && model == old(model)[key := value]
    {
      hide IndexFor, Entries, Chain, Distinct, GoodBucket, AllIn, Cut, OthersAvoid;
      ghost var chain: seq<HashNode<V>> := chains[h];
      Buckets();
      Apart(h, |chain| - 1);
      EntriesFacts(chain, model, h, signed);
      var item := new HashNode<V>(key, value);
      NewIsApart(h, item);
      LinkAtEnd(h, prev, item, chain);
      EntriesAppended(chain, model, h, signed, item);
      AllInChanged(chain, nodes, 0, item);
      MapUpdated(model, key, value);
      length := length + 1;
      Record(h, key, chain + [item], model[key := value], {item});
    }

    method Set(key: Key, value: V) returns (done: bool)
      requires Valid()
      modifies this, table, nodes
      ensures Valid() && fresh(nodes - old(nodes)) && done
      ensures model == old(model)[key := value]
    {
      var h := ComputeIndex(key, signed);
      var prev, node, i := FindNode(key, h);
      if node != null {
        Replace(key, value, h, prev, node, i);
      } else {
        AddAtEnd(key, value, h, prev);
      }
      return true;
    }

    method LinkAround(h: nat, prev: HashNode?<V>, node: HashNode<V>, ghost chain: seq<HashNode<V>>, ghost i: nat)
      requires h < table.Length == |chains| && Chain(table[h], chain) && Distinct(chain)
      requires i < |chain| && node == chain[i] && prev == NodeAt(chain, i - 1)
      requires forall b :: 0 <= b < table.Length && b != h ==> Chain(table[b], chains[b])
      requires OthersAvoid(chains, h, prev) && OthersAvoid(chains, h, node)
      modifies table, node`next, (if prev == null then {} else {prev})`next
      ensures Chain(table[h], Cut(chain, i))
      ensures forall b :: 0 <= b < table.Length && b != h ==> Chain(table[b], chains[b])
    {
      if prev == null {
        table[h] := node.next;
      } else {
        prev.next := node.next;
        node.next := null;
      }
      ChainCut(table[h], chain, i);
    }

    lemma {:induction false} ReadyToCut(key: Key, h: nat, i: nat)
      requires Valid() && h == IndexFor(key, signed) && i < |chains[h]| && chains[h][i].data.key == key
      ensures forall b :: 0 <= b < HASH_SIZE ==> Chain(table[b], chains[b]) && Entries(chains[b], model, b, signed)
      ensures OthersAvoid(chains, h, NodeAt(chains[h], i)) && OthersAvoid(chains, h, NodeAt(chains[h], i - 1))
      ensures Distinct(chains[h]) && AllIn(Cut(chains[h], i), nodes)
      ensures Entries(Cut(chains[h], i), model - {key}, h, signed) && |model - {key}| == |model| - 1
    {
      hide IndexFor, Entries, Chain, Distinct, AllIn, Cut, OthersAvoid;
      Buckets();
      Apart(h, i);
      Apart(h, i - 1);
      EntriesFacts(chains[h], model, h, signed);
      EntriesCut(chains[h], model, h, signed, i);
      AllInChanged(chains[h], nodes, i, chains[h][i]);
      MapWithout(model, key);
    }

    method Detach(key: Key, h: nat, prev: HashNode?<V>, node: HashNode<V>, ghost i: nat)
      requires Valid() && h == IndexFor(key, signed) && i < |chains[h]|
      requires node == chains[h][i] && prev == NodeAt(chains[h], i - 1) && node.data.key == key
      requires node in nodes && (prev != null ==> prev in nodes)
      modifies this, table, nodes
      ensures Valid() && nodes <= old(nodes) && model == old(model) - {key}
    {
      hide IndexFor, Entries, Chain, Distinct, GoodBucket, AllIn, Cut, OthersAvoid;
      ghost var chain: seq<HashNode<V>> := chains[h];
      ReadyToCut(key, h, i);
      length := length - 1;
      LinkAround(h, prev, node, chain, i);
      Record(h, key, Cut(chain, i), model - {key}, {});
    }

    method Delete(key: Key) returns (done: bool)
      requires Valid()
      modifies this, table, nodes
      ensures Valid() && nodes <= old(nodes)
      ensures done <==> key in old(model)
      ensures model == old(model) - {key}
    {
      if length > 0 {
        var h := ComputeIndex(key, signed);
        var prev, node, i := FindNode(key, h);
        if node != null {
          Detach(key, h, prev, node, i);
          return true;
        }
      }
      return false;
    }

    /** An entry of the table with something in it is all that a non-empty map needs, and the other way round. */
    lemma {:induction false} EmptyTable()
      requires Valid()
      ensures (forall b :: 0 <= b < HASH_SIZE ==> table[b] == null) <==> model == map[]
    {
      hide IndexFor;
      Buckets();
      if model != map[] {
        var key: Key :| key in model;
        var b := IndexFor(key, signed);
        assert HasKey(chains[b], key);
        assert table[b] != null;
      }
      forall b | 0 <= b < HASH_SIZE && table[b] != null
        ensures model != map[]
      {
        assert chains[b][0].data.key in model;
      }
    }

    method First() returns (item: Option<Tuple<V>>)
      requires Valid()
      ensures item == None <==> model == map[]
      ensures item.Some? ==> item.value.key in model && model[item.value.key] == item.value.value
      ensures item.Some? ==> forall key: Key :: key in model ==> IndexFor(item.value.key, signed) <= IndexFor(key, signed)
    {
      hide IndexFor;
      EmptyTable();
      Buckets();
      if length > 0 {
        var i := 0;
        while i < HASH_SIZE
          invariant i <= HASH_SIZE && forall b :: 0 <= b < i ==> table[b] == null
        {
          var node := table[i];
          if node != null {
            assert node == chains[i][0];
            FirstIs(i, node);
            return Some(node.data);
          }
          i := i + 1;
        }
      }
      return None;
    }

    lemma {:induction false} FirstIs(i: nat, node: HashNode<V>)
      requires Valid() && i < HASH_SIZE && table[i] == node
      requires forall b :: 0 <= b < i ==> table[b] == null
      ensures node.data.key in model && model[node.data.key] == node.data.value
      ensures forall key: Key :: key in model ==> IndexFor(node.data.key, signed) <= IndexFor(key, signed)
    {
      hide IndexFor;
      Buckets();
      assert chains[i][0] == node;
      forall key: Key | key in model
        ensures IndexFor(node.data.key, signed) <= IndexFor(key, signed)
      {
        assert HasKey(chains[IndexFor(key, signed)], key);
        assert table[IndexFor(key, signed)] != null;
      }
    }

    /** The end of the last chain. */
    method Last() returns (item: Option<Tuple<V>>)
      requires Valid()
      ensures item == None <==> model == map[]
      ensures item.Some? ==> item.value.key in model && model[item.value.key] == item.value.value
      ensures item.Some? ==> forall key: Key :: key in model ==> IndexFor(key, signed) <= IndexFor(item.value.key, signed)
    {
      hide IndexFor;
      EmptyTable();
      Buckets();
      if length > 0 {
        var i := HASH_SIZE - 1;
        while i >= 0
          invariant -1 <= i < HASH_SIZE && forall b :: i < b < HASH_SIZE ==> table[b] == null
        {
          var node := table[i];
          if node != null {
            node := LastOfChain(node, chains[i]);
            LastIs(i, node);
            return Some(node.data);
          }
          i := i - 1;
        }
      }
      return None;
    }

    method LastOfChain(first: HashNode<V>, ghost chain: seq<HashNode<V>>) returns (node: HashNode<V>)
      requires Chain(first, chain)
      ensures chain != [] && node == chain[|chain| - 1]
    {
      node := first;
      ghost var i := 0;
      while node.next != null
        invariant 0 <= i < |chain| && node == chain[i]
        decreases |chain| - i
      {
        node := node.next;
        i := i + 1;
      }
    }

    lemma {:induction false} LastIs(i: nat, node: HashNode<V>)
      requires Valid() && i < HASH_SIZE && chains[i] != [] && chains[i][|chains[i]| - 1] == node
      requires forall b :: i < b < HASH_SIZE ==> table[b] == null
      ensures node.data.key in model && model[node.data.key] == node.data.value
      ensures forall key: Key :: key in model ==> IndexFor(key, signed) <= IndexFor(node.data.key, signed)
    {
      hide IndexFor;
      Buckets();
      forall key: Key | key in model
        ensures IndexFor(key, signed) <= IndexFor(node.data.key, signed)
      {
        assert HasKey(chains[IndexFor(key, signed)], key);
        assert table[IndexFor(key, signed)] != null;
      }
    }
  }

  lemma {:induction false} MapUpdated<K, V>(m: map<K, V>, key: K, value: V)
    ensures m[key := value] - {key} == m - {key}
    ensures |m[key := value]| == if key in m then |m| else |m| + 1
  {
    assert key in m ==> m[key := value].Keys == m.Keys;
  }

  lemma {:induction false} MapWithout<K, V>(m: map<K, V>, key: K)
    requires key in m
    ensures |m - {key}| == |m| - 1 && (m - {key}) - {key} == m - {key}
  {
    assert (m - {key}).Keys == m.Keys - {key};
  }
}
