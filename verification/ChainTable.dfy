/** The chained hash tables on the heap: an array of bucket heads and nodes linked by `next_node`,
    changed in place. The class covers the C++ table and the C tables, which differ only in the
    searches and in one unlock. */
module ChainTable {
  import opened Options
  import opened TableSpec

  const HT_SZ: nat := 1024

  class Node<V> {
    const key: int
    const value: V
    const index: nat
    var next: Node?<V>

    constructor (key: int, value: V, index: nat)
      ensures this.key == key && this.value == value && this.index == index && next == null
    {
      this.key, this.value, this.index, this.next := key, value, index, null;
    }
  }

  /** The j-th node of a chain, or null behind its end. */
  ghost function At<V>(c: seq<Node<V>>, j: nat): Node?<V> {
    if j < |c| then c[j] else null
  }

  /** The nodes from `head` on are exactly those of `c`, in that order; they belong to bucket i and
      no node occurs twice. */
  ghost predicate Linked<V>(head: Node?<V>, c: seq<Node<V>>, i: nat)
    reads c
  {
    && head == At(c, 0)
    && (forall j :: 0 <= j < |c| ==> c[j].next == At(c, j + 1))
    && (forall j :: 0 <= j < |c| ==> c[j].index == i)
    && (forall j, k :: 0 <= j < k < |c| ==> c[j] != c[k])
  }

  ghost function Bindings<V>(c: seq<Node<V>>): (r: seq<Binding<V>>)
    ensures |r| == |c|
    ensures forall j :: 0 <= j < |c| ==> r[j] == Binding(c[j].key, c[j].value)
  {
    if c == [] then [] else [Binding(c[0].key, c[0].value)] + Bindings(c[1..])
  }

  lemma BindingsAppend<V>(c: seq<Node<V>>, n: Node<V>)
    ensures Bindings(c + [n]) == Bindings(c) + [Binding(n.key, n.value)]
  {
  }

  lemma BindingsUnlink<V>(c: seq<Node<V>>, j: nat)
    requires j < |c|
    ensures Bindings(Without(c, j)) == Bindings(c)[..j] + Bindings(c)[j + 1..]
  {
    hide Bindings;
    var d, b := Without(c, j), Bindings(c);
    var l, r := Bindings(d), b[..j] + b[j + 1..];
    forall k | 0 <= k < |l|
      ensures l[k] == r[k]
    {
      var m := if k < j then k else k + 1;
      assert d[k] == c[m] && r[k] == b[m];
    }
  }

  /** The walk to the end of a chain and the link to the new node. */
  method AppendNode<V>(head: Node<V>, ghost c: seq<Node<V>>, ghost i: nat, n: Node<V>)
    requires Linked(head, c, i) && n !in c && n.next == null && n.index == i
    modifies c
    ensures Linked(head, c + [n], i)
  {
    var current := head;
    ghost var j := 0;
    while current.next != null
      invariant 0 <= j < |c| && current == c[j] && Linked(head, c, i)
      decreases |c| - j
    {
      current := current.next;
      j := j + 1;
    }
    assert j == |c| - 1;
    current.next := n;
  }

  /** Taking the j-th node out of a chain by its predecessor. */
  method UnlinkNode<V>(prev: Node<V>, node: Node<V>, ghost head: Node<V>, ghost c: seq<Node<V>>, ghost i: nat, ghost j: nat)
    requires Linked(head, c, i) && 0 < j < |c| && prev == c[j - 1] && node == c[j]
    modifies prev
    ensures Linked(head, Without(c, j), i)
  {
    prev.next := node.next;
  }

  lemma TailLinked<V>(c: seq<Node<V>>, i: nat)
    requires c != [] && Linked(c[0], c, i)
    ensures Linked(c[0].next, Without(c, 0), i)
  {
    assert Without(c, 0) == c[1..];
  }

  // ---------------------------------------------------------------- chains as values

  /** Chains hold the live bindings bucket by bucket, over exactly the given nodes. */
  ghost predicate Holds<V>(chains: seq<seq<Node<V>>>, nodes: set<Node<V>>,
                           live: seq<Binding<V>>, bucket: int -> nat) {
    && |chains| == HT_SZ
    && (forall key :: bucket(key) < HT_SZ)
    && (forall i, n :: 0 <= i < HT_SZ && n in chains[i] ==> n in nodes && n.index == i)
    && (forall n :: n in nodes ==> n.index < HT_SZ && n in chains[n.index])
    && (forall i :: 0 <= i < HT_SZ ==> Bindings(chains[i]) == InBucket(live, bucket, i))
  }

  lemma HoldsAfterInsert<V>(chains: seq<seq<Node<V>>>, nodes: set<Node<V>>,
                            live: seq<Binding<V>>, bucket: int -> nat, n: Node<V>)
    requires Holds(chains, nodes, live, bucket) && n.index == bucket(n.key)
    ensures Holds(chains[n.index := chains[n.index] + [n]], nodes + {n},
                  live + [Binding(n.key, n.value)], bucket)
  {
    var b := Binding(n.key, n.value);
    var after := chains[n.index := chains[n.index] + [n]];
    forall i | 0 <= i < HT_SZ
      ensures Bindings(after[i]) == InBucket(live + [b], bucket, i)
    {
      InBucketAppend(live, b, bucket, i);
      BindingsAppend(chains[i], n);
    }
  }

  lemma HoldsAfterDelete<V>(chains: seq<seq<Node<V>>>, nodes: set<Node<V>>,
                            live: seq<Binding<V>>, bucket: int -> nat, key: int, j: nat)
    requires Holds(chains, nodes, live, bucket)
    requires var c := chains[bucket(key)];
             && j < |c| && c[j].key == key
             && (forall k :: 0 <= k < j ==> c[k].key != key)
             && (forall k, m :: 0 <= k < m < |c| ==> c[k] != c[m])
    ensures var i := bucket(key);
            Holds(chains[i := Without(chains[i], j)], nodes - {chains[i][j]}, Remove(live, key), bucket)
  {
    hide Bindings, InBucket, Remove;
    var i := bucket(key);
    var c := chains[i];
    var after := chains[i := Without(c, j)];
    WithoutMembers(c, j);
    assert c[j] in c && c[j].index == i;
    assert forall b, n :: 0 <= b < HT_SZ && n in after[b] ==> n in chains[b] && n != c[j];
    assert forall n :: n in nodes - {c[j]} ==> n in after[n.index];
    forall b | 0 <= b < HT_SZ
      ensures Bindings(after[b]) == InBucket(Remove(live, key), bucket, b)
    {
      RemoveInBucket(live, bucket, key, b);
      if b == i {
        FindAt(Bindings(c), key, j);
        BindingsUnlink(c, j);
      }
    }
  }

  ghost function Without<T>(c: seq<T>, j: nat): seq<T>
    requires j < |c|
  {
    c[..j] + c[j + 1..]
  }

  lemma WithoutMembers<T>(c: seq<T>, j: nat)
    requires j < |c| && forall k, m :: 0 <= k < m < |c| ==> c[k] != c[m]
    ensures forall n :: n in Without(c, j) <==> n in c && n != c[j]
  {
    forall n
      ensures n in Without(c, j) <==> n in c && n != c[j]
    {
      if n in c && n != c[j] {
        var k :| 0 <= k < |c| && c[k] == n;
        assert Without(c, j)[if k < j then k else k - 1] == n;
      }
    }
  }

  /** `pthread_rwlock_t`, as far as one thread can see it. */
  class Lock {
    var held: bool

    constructor ()
      ensures !held
    {
      held := false;
    }
  }

  class HashTable<V> {
    var table: array<Node?<V>>
    const bucket: int -> nat
    const lock: Lock

    /** The bindings in the order of insertion, the nodes of each chain, all linked nodes, and the
        nodes given back to the allocator. */
    ghost var live: seq<Binding<V>>
    ghost var chains: seq<seq<Node<V>>>
    ghost var nodes: set<Node<V>>
    ghost var freed: set<Node<V>>

    ghost predicate Valid()
      reads this, table, nodes
    {
      && table.Length == HT_SZ
      && Holds(chains, nodes, live, bucket)
      && nodes !! freed
      && forall i :: 0 <= i < HT_SZ ==> Linked(table[i], chains[i], i)
    }

    constructor (bucket: int -> nat)
      requires forall key :: bucket(key) < HT_SZ
      ensures table.Length == 1024
      ensures Valid() && fresh(table) && live == [] && nodes == freed == {} && fresh(lock) && !lock.held && this.bucket == bucket
    {
      this.bucket := bucket;
      live, nodes, freed := [], {}, {};
      lock := new Lock();
      table := new Node?<V>[HT_SZ](i => null);
      chains := seq(HT_SZ, i => []);
    }

    /** `searchByKey` of the C++ table: walks the chain. */
    method SearchByKey(key: int) returns (r: Option<V>)
      requires Valid() && !lock.held
      ensures r == Find(live, key)
    {
      var i := bucket(key);
      FindInBucket(live, bucket, key);
      ghost var j;
      var node, prev;
      node, prev, j := FindNode(key);
      FindAt(Bindings(chains[i]), key, j);
      r := if node == null then None else Some(node.value);
    }

    /** The walk of search and delete: stops at the first node with the key, or behind the chain. */
    method FindNode(key: int) returns (node: Node?<V>, prev: Node?<V>, ghost j: nat)
      requires Valid()
      ensures var c := chains[bucket(key)];
              && j <= |c| && node == At(c, j)
              && (prev == if j > 0 then c[j - 1] else null)
              && (forall k :: 0 <= k < j ==> c[k].key != key)
              && (node != null ==> node.key == key)
    {
      var i := bucket(key);
      ghost var c := chains[i];
      assert Linked(table[i], c, i);
      node, prev, j := table[i], null, 0;
      while node != null && node.key != key
        invariant j <= |c| && node == At(c, j) && (prev == if j > 0 then c[j - 1] else null)
        invariant forall k :: 0 <= k < j ==> c[k].key != key
        decreases |c| - j
      {
        node, prev, j := node.next, node, j + 1;
      }
    }

    /** `searchByKey` of the C tables: looks at the first node only. */
    method SearchHead(key: int) returns (r: Option<V>)
      requires Valid() && !lock.held
      ensures r == HeadFind(InBucket(live, bucket, bucket(key)), key)
    {
      ghost var c := chains[bucket(key)];
      var node := table[bucket(key)];
      assert Linked(node, c, bucket(key));
      if node != null && node.key == key {
        return Some(node.value);
      }
      r := None;
    }

    /** The ghost fields catch up with the nodes. */
    ghost method Commit(cs: seq<seq<Node<V>>>, ns: set<Node<V>>, bindings: seq<Binding<V>>)
      requires table.Length == HT_SZ && Holds(cs, ns, bindings, bucket) && ns !! freed
      requires forall b :: 0 <= b < HT_SZ ==> Linked(table[b], cs[b], b)
      modifies this`chains, this`nodes, this`live
      ensures Valid() && chains == cs && nodes == ns && live == bindings
    {
      chains, nodes, live := cs, ns, bindings;
    }

    /** The other chains do not notice a change to the nodes of chain i. */
    twostate lemma OthersKept(i: nat)
      requires old(Valid()) && i < HT_SZ && unchanged(this)
      requires forall b :: 0 <= b < HT_SZ && b != i ==> table[b] == old(table[b])
      requires forall n :: n in old(nodes) && n !in old(chains[i]) ==> unchanged(n)
      ensures forall b :: 0 <= b < HT_SZ && b != i ==> Linked(table[b], chains[b], b)
    {
      forall b | 0 <= b < HT_SZ && b != i
        ensures Linked(table[b], chains[b], b)
      {
        assert old(Linked(table[b], chains[b], b));
        assert forall n :: n in chains[b] ==> n !in chains[i];
      }
    }

    /** `insertByValue`: appends at the end of the chain. */
    method InsertByValue(key: int, value: V)
      requires Valid() && !lock.held
      modifies this, table, nodes, lock
      ensures Valid() && !lock.held && table == old(table) && freed == old(freed)
      ensures live == old(live) + [Binding(key, value)]
      ensures old(nodes) <= nodes && fresh(nodes - old(nodes))
    {
      lock.held := true;
      var n := new Node(key, value, bucket(key));
      Insert(n);
      lock.held := false;
    }

    method Insert(n: Node<V>)
      requires Valid() && n !in nodes && n !in freed && n.next == null && n.index == bucket(n.key)
      modifies table, nodes, this`chains, this`nodes, this`live
      ensures Valid() && nodes == old(nodes) + {n}
      ensures live == old(live) + [Binding(n.key, n.value)]
    {
      ghost var cs := chains[n.index := chains[n.index] + [n]];
      ghost var bs := live + [Binding(n.key, n.value)];
      assert Holds(cs, nodes + {n}, bs, bucket) by {
        HoldsAfterInsert(chains, nodes, live, bucket, n);
      }
      LinkAtEnd(n.index, n, cs);
      Commit(cs, nodes + {n}, bs);
    }

    method LinkAtEnd(i: nat, n: Node<V>, ghost cs: seq<seq<Node<V>>>)
      requires Valid() && i < HT_SZ && n !in nodes && n.next == null && n.index == i
      requires cs == chains[i := chains[i] + [n]]
      modifies table, nodes
      ensures forall b :: 0 <= b < HT_SZ ==> Linked(table[b], cs[b], b)
    {
      ghost var c := chains[i];
      assert Linked(table[i], c, i);
      if table[i] == null {
        table[i] := n;
      } else {
        AppendNode(table[i], c, i, n);
      }
      OthersKept(i);
    }

    /** Returning a node to the allocator; it must not have been returned before. */
    ghost method Release(n: Node<V>)
      requires n !in freed
      modifies this`freed
      ensures freed == old(freed) + {n}
    {
      freed := freed + {n};
    }

    method Unlink(i: nat, node: Node<V>, prev: Node?<V>, ghost j: nat, ghost cs: seq<seq<Node<V>>>)
      requires Valid() && i < HT_SZ && j < |chains[i]| && node == chains[i][j]
      requires prev == if j > 0 then chains[i][j - 1] else null
      requires cs == chains[i := Without(chains[i], j)]
      modifies table, nodes
      ensures forall b :: 0 <= b < HT_SZ ==> Linked(table[b], cs[b], b)
    {
      ghost var c := chains[i];
      assert Linked(table[i], c, i);
      if prev == null {
        TailLinked(c, i);
        table[i] := node.next;
      } else {
        assert prev in c;
        UnlinkNode(prev, node, table[i], c, i, j);
      }
      OthersKept(i);
    }

    /** `deleteByKey`: unlinks and frees the first node with the key. */
    method DeleteByKey(key: int)
      requires Valid() && !lock.held
      modifies this, table, nodes, lock
      ensures Valid() && !lock.held && table == old(table) && nodes <= old(nodes)
      ensures live == Remove(old(live), key)
      ensures freed == old(freed) + (old(nodes) - nodes)
    {
      lock.held := true;
      DeleteFirst(key);
      lock.held := false;
    }

    /** `deleteByKey` of snic/hash_delee.c: with an empty bucket it returns before the unlock. */
    method DeleteByKeyLeaky(key: int)
      requires Valid() && !lock.held
      modifies this, table, nodes, lock
      ensures Valid() && table == old(table) && nodes <= old(nodes)
      ensures live == Remove(old(live), key)
      ensures freed == old(freed) + (old(nodes) - nodes)
      ensures lock.held <==> InBucket(old(live), bucket, bucket(key)) == []
    {
      lock.held := true;
      assert Linked(table[bucket(key)], chains[bucket(key)], bucket(key));
      if table[bucket(key)] == null {
        NothingToRemove(key);
        return;
      }
      DeleteFirst(key);
      lock.held := false;
    }

    method DeleteFirst(key: int)
      requires Valid()
      modifies this, table, nodes
      ensures Valid() && table == old(table) && nodes <= old(nodes)
      ensures live == Remove(old(live), key)
      ensures freed == old(freed) + (old(nodes) - nodes)
    {
      hide Remove, InBucket, Bindings, Linked;
      ghost var j;
      var node, prev;
      node, prev, j := FindNode(key);
      if node != null {
        DeleteNode(key, node, prev, j);
      } else {
        NothingToRemove(key);
      }
    }

    method DeleteNode(key: int, node: Node<V>, prev: Node?<V>, ghost j: nat)
      requires Valid()
      requires var c := chains[bucket(key)];
               && j < |c| && node == c[j] && node.key == key
               && (prev == if j > 0 then c[j - 1] else null)
               && (forall k :: 0 <= k < j ==> c[k].key != key)
      modifies table, nodes, this`chains, this`nodes, this`live, this`freed
      ensures Valid() && node in old(nodes) && nodes == old(nodes) - {node}
      ensures live == Remove(old(live), key)
      ensures freed == old(freed) + {node}
    {
      var i := bucket(key);
      ghost var cs := chains[i := Without(chains[i], j)];
      ghost var bs := Remove(live, key);
      assert Holds(cs, nodes - {node}, bs, bucket) by {
        assert Linked(table[i], chains[i], i);
        HoldsAfterDelete(chains, nodes, live, bucket, key, j);
      }
      assert node in chains[i];
      Unlink(i, node, prev, j, cs);
      Release(node);
      Commit(cs, nodes - {node}, bs);
    }

    lemma NothingToRemove(key: int)
      requires Holds(chains, nodes, live, bucket)
      requires forall k :: 0 <= k < |chains[bucket(key)]| ==> chains[bucket(key)][k].key != key
      ensures Remove(live, key) == live
    {
      var c := chains[bucket(key)];
      FindAt(Bindings(c), key, |c|);
      FindInBucket(live, bucket, key);
      FindIff(live, key);
      RemoveTakesOne(live, key);
    }

    /** `freeHashTable`: gives back every node of every chain, each of them once. */
    method FreeHashTable()
      requires Valid() && !lock.held
      modifies this, table, lock
      ensures Valid() && !lock.held && table == old(table)
      ensures live == [] && nodes == {} && freed == old(freed) + old(nodes)
      ensures forall i :: 0 <= i < HT_SZ ==> table[i] == null
    {
      hide InBucket, Bindings;
      lock.held := true;
      var i := 0;
      while i < HT_SZ
        invariant 0 <= i <= HT_SZ && table == old(table) && table.Length == HT_SZ
        invariant chains == old(chains) && nodes == old(nodes) && Holds(chains, nodes, old(live), bucket)
        invariant forall k :: 0 <= k < i ==> table[k] == null
        invariant forall k :: i <= k < HT_SZ ==> Linked(table[k], chains[k], k)
        invariant forall n :: n in freed <==> n in old(freed) || (n in nodes && n.index < i)
      {
        FreeChain(i);
        table[i] := null;
        i := i + 1;
      }
      EmptyHolds<V>(bucket);
      Commit(seq(HT_SZ, _ => []), {}, []);
      lock.held := false;
    }

    /** Frees the nodes of one chain; `next` is read before the node is given back. */
    method FreeChain(i: nat)
      requires i < HT_SZ && table.Length == HT_SZ && |chains| == HT_SZ
      requires Linked(table[i], chains[i], i)
      requires forall n :: n in chains[i] ==> n !in freed
      modifies this`freed
      ensures forall n :: n in freed <==> n in old(freed) || n in chains[i]
    {
      ghost var c := chains[i];
      ghost var j := 0;
      var node := table[i];
      while node != null
        invariant 0 <= j <= |c| && node == At(c, j)
        invariant forall n :: n in freed <==> n in old(freed) || n in c[..j]
        decreases |c| - j
      {
        assert c[..j + 1] == c[..j] + [c[j]];
        assert c[j] in c && c[j] !in c[..j];
        var temp := node;
        node, j := node.next, j + 1;
        Release(temp);
      }
      assert c[..j] == c;
    }
  }

  lemma EmptyHolds<V>(bucket: int -> nat)
    requires forall key :: bucket(key) < HT_SZ
    ensures Holds<V>(seq(HT_SZ, _ => []), {}, [], bucket)
  {
  }
}
