/** The chained hash table (hashtbl.c) as a finite map. */
module HashTable {
  import opened Options

  const NBUCKETS: nat := 16
  const GROWFACTOR: nat := 2

  // ---------- bucket numbers ----------

  /** `a & b`. */
  function BitAnd(a: nat, b: nat): nat
    decreases a
  {
    if a == 0 || b == 0 then 0 else (a % 2) * (b % 2) + 2 * BitAnd(a / 2, b / 2)
  }

  /** Sixteen doubled any number of times. */
  predicate BucketCount(n: nat) {
    n == NBUCKETS || (n > NBUCKETS && n % 2 == 0 && BucketCount(n / 2))
  }

  lemma {:induction false} Doubled(m: nat, n: nat)
    requires BucketCount(m) && n == m * 2
    ensures BucketCount(n)
  {
    assert n / 2 == m && n % 2 == 0;
  }

  predicate PowerOfTwo(n: nat) {
    n == 1 || (n > 1 && n % 2 == 0 && PowerOfTwo(n / 2))
  }

  lemma {:induction false} BucketCountPower(n: nat)
    requires BucketCount(n)
    ensures PowerOfTwo(n) && n % 4 == 0
  {
    if n == NBUCKETS {
      assert PowerOfTwo(1) && PowerOfTwo(2) && PowerOfTwo(4) && PowerOfTwo(8);
    } else {
      BucketCountPower(n / 2);
    }
  }

  lemma {:induction false} BucketCountLarge(n: nat)
    requires BucketCount(n)
    ensures n >= NBUCKETS
  {
    if n != NBUCKETS { BucketCountLarge(n / 2); }
  }

  lemma BitAndZero(a: nat)
    ensures BitAnd(a, 0) == 0
  {
  }

  /** Masking with a power of two minus one is the remainder. */
  lemma {:induction false} MaskIsMod(h: nat, n: nat)
    requires PowerOfTwo(n)
    ensures BitAnd(h, n - 1) == h % n
    decreases n
  {
    if n == 1 {
      BitAndZero(h);
    } else {
      var m := n / 2;
      MaskIsMod(h / 2, m);
      assert (n - 1) / 2 == m - 1 && (n - 1) % 2 == 1;
      HalfMod(h, m);
      assert h == 0 ==> h % n == 0;
    }
  }

  lemma {:induction false} HalfMod(h: nat, m: nat)
    requires m > 0
    ensures h % (2 * m) == h % 2 + 2 * ((h / 2) % m)
  {
    var q, r := (h / 2) / m, (h / 2) % m;
    assert h / 2 == q * m + r;
    assert h == 2 * (q * m + r) + h % 2 == (2 * m) * q + (2 * r + h % 2);
    ModUnique(h, 2 * m, q, 2 * r + h % 2);
  }

  lemma {:induction false} ModUnique(a: nat, n: nat, q: nat, r: nat)
    requires n > 0 && r < n && a == n * q + r
    ensures a % n == r
  {
    var q', r' := a / n, a % n;
    assert a == n * q' + r';
    if q' < q { MulMonotone(n, q' + 1, q); }
    if q < q' { MulMonotone(n, q + 1, q'); }
  }

  lemma MulMonotone(n: nat, x: int, y: int)
    requires x <= y
    ensures n * x <= n * y
  {
  }

  /** `hashidx`. */
  function HashIdx(hash: nat, bucketsz: nat): (i: nat)
    requires BucketCount(bucketsz)
    ensures i < bucketsz
  {
    BucketCountPower(bucketsz);
    MaskIsMod(hash, bucketsz);
    BitAnd(hash, bucketsz - 1)
  }

  // ---------- nodes ----------

  class Node<K, V> {
    const key: K
    var val: V
    var next: Node?<K, V>

    constructor (key: K, val: V)
      ensures this.key == key && this.val == val && next == null
    {
      this.key, this.val, next := key, val, null;
    }
  }

  // ---------- buckets and chains ----------

  type Chains<!K, V> = seq<seq<Node<K, V>>>

  /** `c[i]` is the linked list that starts at `b[i]`, of nodes the hash sends there. */
  ghost predicate ChainOk<K, V>(b: array<Node?<K, V>>, c: Chains<K, V>, nodes: map<K, Node<K, V>>, hash: K -> nat,
                                own: set<Node<K, V>>, i: nat)
    requires i < |c| == b.Length && BucketCount(b.Length)
    reads b, own
  {
    && b[i] == (if c[i] == [] then null else c[i][0])
    && (forall j :: 0 <= j < |c[i]| ==> NodeOk(c, nodes, own, i, j) && i == HashIdx(hash(c[i][j].key), b.Length))
    && (forall j, m :: 0 <= j < m < |c[i]| ==> c[i][j] != c[i][m])
  }

  ghost predicate NodeOk<K, V>(c: Chains<K, V>, nodes: map<K, Node<K, V>>, own: set<Node<K, V>>, i: nat, j: nat)
    requires i < |c| && j < |c[i]|
    reads own
  {
    var n := c[i][j];
    && n in own && n.key in nodes && nodes[n.key] == n
    && n.next == (if j + 1 < |c[i]| then c[i][j + 1] else null)
  }

  /** The node for a key is in the chain its hash names. */
  ghost predicate Placed<K, V>(c: Chains<K, V>, nodes: map<K, Node<K, V>>, hash: K -> nat, own: set<Node<K, V>>, k: K)
    requires k in nodes && BucketCount(|c|)
  {
    nodes[k] in own && nodes[k].key == k && nodes[k] in c[HashIdx(hash(k), |c|)]
  }

  /** The buckets hold exactly these nodes, each in the bucket its masked hash names. */
  ghost predicate Layout<K, V>(b: array<Node?<K, V>>, c: Chains<K, V>, nodes: map<K, Node<K, V>>, hash: K -> nat,
                               own: set<Node<K, V>>)
    reads b, own
  {
    && |c| == b.Length && BucketCount(b.Length)
    && (forall i :: 0 <= i < |c| ==> ChainOk(b, c, nodes, hash, own, i))
    && (forall k :: k in nodes ==> Placed(c, nodes, hash, own, k))
  }

  twostate predicate SameLink<K, V>(n: Node<K, V>)
    reads n
  {
    n.next == old(n.next)
  }

  /** Linking a node in at the head of its bucket. */
  twostate lemma PushedFront<K, V>(new b: array<Node?<K, V>>, new c: Chains<K, V>, new nodes: map<K, Node<K, V>>,
                                   new hash: K -> nat, new own: set<Node<K, V>>, new node: Node<K, V>, new idx: nat)
    requires old(allocated(b) && allocated(c) && allocated(nodes) && allocated(own) && allocated(node))
    requires old(Layout(b, c, nodes, hash, own)) && node.key !in nodes && idx == HashIdx(hash(node.key), b.Length)
    requires b[idx] == node && forall i :: 0 <= i < b.Length && i != idx ==> b[i] == old(b[i])
    requires node.next == old(b[idx])
    requires forall n :: n in own && n.key in nodes && nodes[n.key] == n ==> SameLink(n)
    ensures Layout(b, c[idx := [node] + c[idx]], nodes[node.key := node], hash, own + {node})
  {
    hide BucketCount, HashIdx, SameLink;
    var c': Chains<K, V> := c[idx := [node] + c[idx]];
    var nodes', own' := nodes[node.key := node], own + {node};
    forall i | 0 <= i < |c| ensures ChainOk(b, c', nodes', hash, own', i) {
      assert old(ChainOk(b, c, nodes, hash, own, i));
      forall j | 0 <= j < |c[i]| ensures SameLink(c[i][j]) {
        assert old(NodeOk(c, nodes, own, i, j));
      }
      PushedChain(b, c, nodes, hash, own, node, idx, i);
    }
    forall k | k in nodes' ensures Placed(c', nodes', hash, own', k) {
      if k != node.key {
        assert Placed(c, nodes, hash, own, k);
      }
    }
  }

  twostate lemma PushedChain<K, V>(new b: array<Node?<K, V>>, new c: Chains<K, V>, new nodes: map<K, Node<K, V>>,
                                   new hash: K -> nat, new own: set<Node<K, V>>, new node: Node<K, V>, new idx: nat,
                                   new i: nat)
    requires old(allocated(b) && allocated(c) && allocated(nodes) && allocated(own) && allocated(node))
    requires i < |c| == b.Length && BucketCount(b.Length) && idx < |c|
    requires old(ChainOk(b, c, nodes, hash, own, i)) && node.key !in nodes && idx == HashIdx(hash(node.key), b.Length)
    requires b[idx] == node && (i != idx ==> b[i] == old(b[i]))
    requires node.next == old(b[idx])
    requires forall j :: 0 <= j < |c[i]| ==> SameLink(c[i][j])
    ensures ChainOk(b, c[idx := [node] + c[idx]], nodes[node.key := node], hash, own + {node}, i)
  {
    hide BucketCount, HashIdx;
    var c': Chains<K, V> := c[idx := [node] + c[idx]];
    var nodes', own' := nodes[node.key := node], own + {node};
    forall j | 0 <= j < |c'[i]|
      ensures NodeOk(c', nodes', own', i, j) && i == HashIdx(hash(c'[i][j].key), b.Length)
    {
      if i != idx {
        assert old(NodeOk(c, nodes, own, i, j)) && SameLink(c[i][j]);
      } else if j > 0 {
        assert old(NodeOk(c, nodes, own, i, j - 1)) && SameLink(c[i][j - 1]);
      }
    }
  }

  /** Position `j` of chain `idx` has been unlinked: only the link to it has changed. */
  twostate predicate Spliced<K, V>(c: Chains<K, V>, idx: nat, j: nat, i: nat, m: nat)
    requires idx < |c| && j < |c[idx]| && i < |c| && m < |c[i]|
    reads c[i][m], c[idx][j]
  {
    var n := c[i][m];
    n.next == (if i == idx && m + 1 == j then old(c[idx][j].next) else old(n.next))
  }

  function Without<T>(s: seq<T>, j: nat): seq<T>
    requires j < |s|
  {
    s[..j] + s[j + 1..]
  }

  /** Taking a node out of its chain. */
  twostate lemma Unlinked<K, V>(new b: array<Node?<K, V>>, new c: Chains<K, V>, new nodes: map<K, Node<K, V>>,
                                new hash: K -> nat, new own: set<Node<K, V>>, new idx: nat, new j: nat)
    requires old(allocated(b) && allocated(c) && allocated(nodes) && allocated(own))
    requires old(Layout(b, c, nodes, hash, own)) && idx < |c| && j < |c[idx]|
    requires forall i :: 0 <= i < b.Length ==>
      b[i] == (if i == idx && j == 0 then old(c[idx][j].next) else old(b[i]))
    requires forall i, m :: 0 <= i < |c| && 0 <= m < |c[i]| ==> Spliced(c, idx, j, i, m)
    ensures Layout(b, c[idx := Without(c[idx], j)], nodes - {c[idx][j].key}, hash, own)
  {
    hide BucketCount, HashIdx, Spliced;
    var key := c[idx][j].key;
    var c': Chains<K, V> := c[idx := Without(c[idx], j)];
    var nodes' := nodes - {key};
    forall i | 0 <= i < |c| ensures ChainOk(b, c', nodes', hash, own, i) {
      assert old(ChainOk(b, c, nodes, hash, own, i)) && old(ChainOk(b, c, nodes, hash, own, idx));
      SplicedChain(b, c, nodes, hash, own, idx, j, i);
    }
    forall k | k in nodes' ensures Placed(c', nodes', hash, own, k) {
      assert old(ChainOk(b, c, nodes, hash, own, idx));
      StillPlaced(b, c, nodes, hash, own, idx, j, k);
    }
  }

  twostate lemma StillPlaced<K, V>(new b: array<Node?<K, V>>, new c: Chains<K, V>, new nodes: map<K, Node<K, V>>,
                                   new hash: K -> nat, new own: set<Node<K, V>>, new idx: nat, new j: nat, new k: K)
    requires old(allocated(b) && allocated(c) && allocated(nodes) && allocated(own))
    requires |c| == b.Length && BucketCount(b.Length) && idx < |c| && j < |c[idx]|
    requires old(ChainOk(b, c, nodes, hash, own, idx))
    requires k in nodes && Placed(c, nodes, hash, own, k) && k != c[idx][j].key
    ensures Placed(c[idx := Without(c[idx], j)], nodes - {c[idx][j].key}, hash, own, k)
  {
    hide BucketCount, HashIdx, ChainOk;
    var c': Chains<K, V> := c[idx := Without(c[idx], j)];
    var i := HashIdx(hash(k), |c|);
    var p :| 0 <= p < |c[i]| && c[i][p] == nodes[k];
    assert i == idx ==> p != j;
    if i == idx { assert c'[i][if p < j then p else p - 1] == nodes[k]; }
  }

  twostate lemma SplicedChain<K, V>(new b: array<Node?<K, V>>, new c: Chains<K, V>, new nodes: map<K, Node<K, V>>,
                                    new hash: K -> nat, new own: set<Node<K, V>>, new idx: nat, new j: nat, new i: nat)
    requires old(allocated(b) && allocated(c) && allocated(nodes) && allocated(own))
    requires i < |c| == b.Length && BucketCount(b.Length) && idx < |c| && j < |c[idx]|
    requires old(ChainOk(b, c, nodes, hash, own, i)) && old(ChainOk(b, c, nodes, hash, own, idx))
    requires b[i] == (if i == idx && j == 0 then old(c[idx][j].next) else old(b[i]))
    requires forall m :: 0 <= m < |c[i]| ==> Spliced(c, idx, j, i, m)
    ensures ChainOk(b, c[idx := Without(c[idx], j)], nodes - {c[idx][j].key}, hash, own, i)
  {
    hide BucketCount, HashIdx, NodeOk, Spliced;
    var c': Chains<K, V> := c[idx := Without(c[idx], j)];
    var nodes' := nodes - {c[idx][j].key};
    assert old(NodeOk(c, nodes, own, idx, j));
    NodeNext(c, nodes, own, idx, j);
    forall m | 0 <= m < |c'[i]|
      ensures NodeOk(c', nodes', own, i, m) && i == HashIdx(hash(c'[i][m].key), b.Length)
    {
      var was := if i == idx && m >= j then m + 1 else m;
      assert c'[i][m] == c[i][was];
      assert old(NodeOk(c, nodes, own, i, was)) && Spliced(c, idx, j, i, was);
      KeysDiffer(c, nodes, own, idx, j, i, was);
      SplicedNode(c, nodes, own, idx, j, i, m);
    }
  }

  twostate lemma NodeNext<K, V>(new c: Chains<K, V>, new nodes: map<K, Node<K, V>>, new own: set<Node<K, V>>,
                                new idx: nat, new j: nat)
    requires old(allocated(c) && allocated(nodes) && allocated(own))
    requires idx < |c| && j < |c[idx]| && old(NodeOk(c, nodes, own, idx, j))
    ensures old(c[idx][j].next) == (if j + 1 < |c[idx]| then c[idx][j + 1] else null)
  {
  }

  /** Nodes of different places have different keys. */
  twostate lemma KeysDiffer<K, V>(new c: Chains<K, V>, new nodes: map<K, Node<K, V>>, new own: set<Node<K, V>>,
                                  new idx: nat, new j: nat, new i: nat, new m: nat)
    requires old(allocated(c) && allocated(nodes) && allocated(own))
    requires idx < |c| && j < |c[idx]| && i < |c| && m < |c[i]| && c[i][m] != c[idx][j]
    requires old(NodeOk(c, nodes, own, idx, j)) && old(NodeOk(c, nodes, own, i, m))
    ensures c[i][m].key != c[idx][j].key
  {
  }

  twostate lemma SplicedNode<K, V>(new c: Chains<K, V>, new nodes: map<K, Node<K, V>>, new own: set<Node<K, V>>,
                                   new idx: nat, new j: nat, new i: nat, new m: nat)
    requires old(allocated(c) && allocated(nodes) && allocated(own))
    requires i < |c| && idx < |c| && j < |c[idx]| && m < |c[i]| && (i == idx ==> m + 1 < |c[i]|)
    requires var was := if i == idx && m >= j then m + 1 else m;
      old(NodeOk(c, nodes, own, i, was)) && Spliced(c, idx, j, i, was)
    requires old(NodeOk(c, nodes, own, idx, j))
    requires c[i][if i == idx && m >= j then m + 1 else m].key != c[idx][j].key
    ensures NodeOk(c[idx := Without(c[idx], j)], nodes - {c[idx][j].key}, own, i, m)
  {
  }

  // ---------- the table ----------

  class HashTable<K(==), V> {
    const hash: K -> nat
    var buckets: array<Node?<K, V>>
    var sz: nat
    /** The maximum load factor. */
    var threshold: real

    /** What the table maps each key to. */
    ghost var model: map<K, V>
    ghost var nodes: map<K, Node<K, V>>
    ghost var chains: Chains<K, V>
    /** All nodes ever linked in. */
    ghost var own: set<Node<K, V>>

    ghost predicate Valid()
      reads this, buckets, own
    {
      && sz == |nodes|
      && model.Keys == nodes.Keys
      && (forall k :: k in nodes ==> nodes[k] in own && nodes[k].val == model[k])
      && if buckets.Length == 0 then nodes == map[] && chains == [] else Layout(buckets, chains, nodes, hash, own)
    }

    constructor (hash: K -> nat)
      ensures Valid() && model == map[] && fresh(buckets) && own == {} && this.hash == hash
      ensures threshold == 0.75 && LoadOk()
    {
      this.hash := hash;
      buckets := new Node?<K, V>[0];
      sz := 0;
      threshold := 0.75;
      model, nodes, chains, own := map[], map[], [], {};
    }

    /** At most three quarters as many entries as buckets. */
    ghost predicate LoadOk()
      reads this, buckets
    {
      4 * sz <= 3 * buckets.Length
    }

    /** `hashtbl_empty`. */
    method Empty() returns (b: bool)
      requires Valid()
      ensures b <==> model == map[]
    {
      b := sz == 0;
      if !b {
        assert nodes != map[];
        ghost var k :| k in nodes;
        assert k in model.Keys;
      }
    }

    /** The head of a chain. */
    lemma HeadNode(i: nat)
      requires Valid() && i < buckets.Length
      ensures |chains| == buckets.Length && BucketCount(buckets.Length)
      ensures buckets[i] == (if chains[i] == [] then null else chains[i][0])
    {
      assert ChainOk(buckets, chains, nodes, hash, own, i);
    }

    /** The node at a position of a chain. */
    lemma NodeAt(i: nat, j: nat)
      requires Valid() && i < buckets.Length && i < |chains| && j < |chains[i]|
      ensures BucketCount(buckets.Length)
      ensures var n := chains[i][j];
        && n in own && n.key in nodes && nodes[n.key] == n
        && i == HashIdx(hash(n.key), buckets.Length)
        && n.next == (if j + 1 < |chains[i]| then chains[i][j + 1] else null)
    {
      assert ChainOk(buckets, chains, nodes, hash, own, i) && NodeOk(chains, nodes, own, i, j);
    }

    /** The node of a key is in the chain its hash names. */
    lemma PlaceOf(k: K)
      requires Valid() && k in nodes
      ensures buckets.Length != 0 && BucketCount(buckets.Length) && |chains| == buckets.Length
      ensures nodes[k] in own && nodes[k].key == k && nodes[k] in chains[HashIdx(hash(k), buckets.Length)]
    {
      assert Placed(chains, nodes, hash, own, k);
    }

    /** No node is twice in a chain. */
    lemma NoRepeats(i: nat)
      requires Valid() && i < buckets.Length
      ensures |chains| == buckets.Length
      ensures forall j, m :: 0 <= j < m < |chains[i]| ==> chains[i][j] != chains[i][m]
    {
      assert ChainOk(buckets, chains, nodes, hash, own, i);
    }

    lemma KeysApart(key: K)
      requires Valid() && key in nodes
      ensures forall k :: k in nodes && k != key ==> nodes[k] != nodes[key]
    {
      hide Valid, BucketCount, HashIdx;
      forall k | k in nodes ensures nodes[k].key == k {
        PlaceOf(k);
      }
    }

    /** `hashtbl_findnode`. */
    method FindNode(key: K) returns (node: Node?<K, V>)
      requires Valid()
      ensures key in nodes ==> node == nodes[key]
      ensures key !in nodes ==> node == null
    {
      if sz == 0 {
        assert nodes == map[];
        return null;
      }
      assert BucketCount(buckets.Length);
      hide Valid, BucketCount, HashIdx;
      var idx := HashIdx(hash(key), buckets.Length);
      HeadNode(idx);
      if key in nodes { PlaceOf(key); }
      node := buckets[idx];
      ghost var j := 0;
      while node != null
        invariant j <= |chains[idx]|
        invariant node == (if j < |chains[idx]| then chains[idx][j] else null)
        invariant forall k :: 0 <= k < j ==> chains[idx][k].key != key
        decreases |chains[idx]| - j
      {
        NodeAt(idx, j);
        if node.key == key { return; }
        node := node.next;
        j := j + 1;
      }
    }

    /** `hashtbl_find`. */
    method Find(key: K) returns (val: Option<V>)
      requires Valid()
      ensures val == if key in model then Some(model[key]) else None
    {
      var node := FindNode(key);
      return if node == null then None else Some(node.val);
    }

    /** Validity depends on the links, not on where the values change consistently. */
    twostate lemma SameLinks()
      requires old(Valid())
      requires buckets == old(buckets) && buckets[..] == old(buckets[..]) && sz == old(sz)
      requires nodes == old(nodes) && chains == old(chains) && own == old(own)
      requires model.Keys == nodes.Keys && forall k :: k in nodes ==> model[k] == nodes[k].val
      requires forall n :: n in own ==> SameLink(n)
      ensures Valid()
    {
      hide BucketCount, HashIdx;
      forall i | 0 <= i < |chains| ensures ChainOk(buckets, chains, nodes, hash, own, i) {
        assert old(ChainOk(buckets, chains, nodes, hash, own, i));
        assert buckets[i] == buckets[..][i] == old(buckets[..])[i];
        forall j | 0 <= j < |chains[i]| ensures NodeOk(chains, nodes, own, i, j) {
          assert old(NodeOk(chains, nodes, own, i, j)) && SameLink(chains[i][j]);
        }
      }
      forall k | k in nodes ensures Placed(chains, nodes, hash, own, k) {
        assert old(Placed(chains, nodes, hash, own, k));
      }
    }

    /** `hashtbl_update`: replaces the value of a present key. */
    method Update(key: K, newval: V) returns (dest: Option<V>)
      requires Valid()
      modifies this`model, own
      ensures Valid()
      ensures dest == if key in old(model) then Some(old(model)[key]) else None
      ensures model == if key in old(model) then old(model)[key := newval] else old(model)
    {
      var node := FindNode(key);
      if node == null { return None; }
      dest := Some(node.val);
      KeysApart(key);
      PlaceOf(key);
      assert forall k :: k in nodes ==> nodes[k].val == model[k];
      hide Valid;
      node.val := newval;
      model := model[key := newval];
      SameLinks();
    }

    /** `hashtbl_insert`: fails, changing nothing, when the key is present. */
    method Insert(key: K, val: V) returns (ok: bool)
      requires Valid()
      modifies this, buckets, own
      ensures Valid()
      ensures fresh({buckets} - {old(buckets)}) && fresh(own - old(own))
      ensures ok <==> key !in old(model)
      ensures model == if ok then old(model)[key := val] else old(model)
      ensures threshold == old(threshold)
      ensures old(LoadOk()) && threshold == 0.75 ==> LoadOk()
    {
      hide *;
      SameKeys();
      var found := FindNode(key);
      if found != null { return false; }
      MakeRoom();
      Link(key, val);
      LoadMeans();
      ok := true;
    }

    /** Allocates or rehashes when needed: under the default threshold one more entry fits. */
    method MakeRoom()
      requires Valid()
      modifies this`buckets, this`chains, buckets, own
      ensures Valid() && buckets.Length != 0 && (buckets == old(buckets) || fresh(buckets))
      ensures old(LoadOk()) && threshold == 0.75 ==> 4 * (sz + 1) <= 3 * buckets.Length
    {
      hide *;
      SameKeys();
      if buckets.Length == 0 {
        Allocate();
      }
      RoomForOne();
      LoadMeans();
      if sz as real / buckets.Length as real >= threshold {
        Rehash();
      } else if threshold == 0.75 {
        BelowLoad(sz, buckets.Length);
      }
    }

    twostate lemma LoadMeans()
      ensures old(LoadOk()) ==> 4 * old(sz) <= 3 * old(buckets.Length)
      ensures 4 * sz <= 3 * buckets.Length ==> LoadOk()
    {
    }

    lemma {:induction false} BelowLoad(n: nat, m: nat)
      requires m > 0 && m % 4 == 0 && n as real / m as real < 0.75
      ensures 4 * (n + 1) <= 3 * m
    {
      QuotientBelow(n as real, m as real, 0.75);
      var q := m / 4;
      assert m as real == 4.0 * q as real;
    }

    lemma QuotientBelow(a: real, b: real, c: real)
      requires b > 0.0 && a / b < c
      ensures a < c * b
    {
      var d := a / b;
      assert d * b == a;
      assert (c - d) * b > 0.0;
    }

    lemma SameKeys()
      requires Valid()
      ensures nodes.Keys == model.Keys && sz == |nodes|
      ensures buckets.Length == 0 ==> sz == 0
    {
    }

    /** The first array of buckets. */
    method Allocate()
      requires Valid() && buckets.Length == 0
      modifies this`buckets, this`chains
      ensures Valid() && fresh(buckets) && buckets.Length == 16
    {
      buckets := new Node?<K, V>[NBUCKETS](_ => null);
      chains := seq(NBUCKETS, _ => []);
    }

    /** The bucket count is a multiple of four. */
    lemma {:induction false} RoomForOne()
      requires Valid() && buckets.Length != 0
      ensures buckets.Length % 4 == 0 && buckets.Length >= 16
    {
      BucketCountPower(buckets.Length);
      BucketCountLarge(buckets.Length);
    }

    /** The last steps of `hashtbl_insert`: a new node at the head of its bucket. */
    method Link(key: K, val: V)
      requires Valid() && buckets.Length != 0 && key !in nodes
      modifies this`model, this`nodes, this`chains, this`own, this`sz, buckets
      ensures Valid()
      ensures fresh(own - old(own))
      ensures model == old(model)[key := val]
      ensures sz == old(sz) + 1
    {
      hide *;
      Sizes();
      var idx := HashIdx(hash(key), buckets.Length);
      var node := new Node(key, val);
      label Linking:
      node.next := buckets[idx];
      buckets[idx] := node;
      chains := chains[idx := [node] + chains[idx]];
      nodes := nodes[key := node];
      own := own + {node};
      model := model[key := val];
      sz := sz + 1;
      Linked@Linking(node, idx);
    }

    lemma Sizes()
      requires Valid() && buckets.Length != 0
      ensures BucketCount(buckets.Length) && |chains| == buckets.Length
    {
    }

    /** A node linked in at the head of the bucket its hash names keeps the table valid. */
    twostate lemma Linked(new node: Node<K, V>, new idx: nat)
      requires old(allocated(node))
      requires old(Valid()) && buckets.Length != 0 && node.key !in old(nodes) && node !in old(own)
      requires BucketCount(buckets.Length) && idx == HashIdx(hash(node.key), buckets.Length) && idx < |old(chains)|
      requires buckets == old(buckets) && buckets[idx] == node
      requires forall i :: 0 <= i < buckets.Length && i != idx ==> buckets[i] == old(buckets[i])
      requires node.next == old(buckets[idx])
      requires chains == old(chains)[idx := [node] + old(chains)[idx]]
      requires nodes == old(nodes)[node.key := node] && own == old(own) + {node}
      requires model == old(model)[node.key := node.val] && sz == old(sz) + 1
      requires forall n :: n in old(own) ==>
        n.next == old(n.next) && n.val == old(n.val)
      ensures Valid()
    {
      assert old(Layout(buckets, chains, nodes, hash, own));
      assert forall k :: k in old(nodes) ==> old(nodes)[k] in old(own) && old(nodes[k].val) == old(model)[k];
      assert old(model).Keys == old(nodes).Keys && old(sz) == |old(nodes)|;
      hide Valid, Layout, BucketCount, HashIdx;
      PushedFront(buckets, old(chains), old(nodes), hash, old(own), node, idx);
      Assemble();
    }

    lemma Assemble()
      requires buckets.Length != 0 && Layout(buckets, chains, nodes, hash, own)
      requires sz == |nodes| && model.Keys == nodes.Keys
      requires forall k :: k in nodes ==> nodes[k] in own && nodes[k].val == model[k]
      ensures Valid()
    {
    }

    /** The search of `hashtbl_remove`: the node of the key, if there is one, and the node before it. */
    method Search(key: K, idx: nat) returns (prev: Node?<K, V>, node: Node?<K, V>, ghost j: nat)
      requires Valid() && buckets.Length != 0 && idx == HashIdx(hash(key), buckets.Length)
      ensures idx < buckets.Length == |chains| && j <= |chains[idx]|
      ensures node == (if j < |chains[idx]| then chains[idx][j] else null)
      ensures prev == (if j == 0 then null else chains[idx][j - 1])
      ensures node == null <==> key !in nodes
      ensures node != null ==> node.key == key
    {
      hide *;
      Sizes();
      HeadNode(idx);
      if key in nodes { PlaceOf(key); }
      prev, node, j := null, buckets[idx], 0;
      while node != null
        invariant j <= |chains[idx]|
        invariant node == (if j < |chains[idx]| then chains[idx][j] else null)
        invariant prev == (if j == 0 then null else chains[idx][j - 1])
        invariant forall k :: 0 <= k < j ==> chains[idx][k].key != key
        decreases |chains[idx]| - j
        modifies {}
      {
        NodeAt(idx, j);
        if node.key == key { return; }
        prev, node := node, node.next;
        j := j + 1;
      }
    }

    /** `hashtbl_remove`: unlinks the node of a present key. */
    method Remove(key: K) returns (dest: Option<V>)
      requires Valid()
      modifies this, buckets, own
      ensures Valid() && buckets == old(buckets) && own == old(own) && threshold == old(threshold)
      ensures dest == if key in old(model) then Some(old(model)[key]) else None
      ensures model == old(model) - {key}
      ensures old(LoadOk()) ==> LoadOk()
    {
      hide *;
      SameKeys();
      if sz == 0 { return None; }
      Sizes();
      var idx := HashIdx(hash(key), buckets.Length);
      var prev, node, j := Search(key, idx);
      if node == null { return None; }
      NodeAt(idx, j);
      ValuesInPlace();
      dest := Some(node.val);
      Unlink(idx, prev, node, j);
      LoadMeans();
    }

    /** No node is at two places. */
    lemma {:induction false} Apart(idx: nat, j: nat)
      requires Valid() && buckets.Length != 0 && idx < |chains| && j < |chains[idx]|
      ensures |chains| == buckets.Length && chains[idx][j] in own
      ensures forall i, m :: 0 <= i < |chains| && 0 <= m < |chains[i]| && !(i == idx && m == j) ==>
        chains[i][m] != chains[idx][j]
    {
      Sizes();
      hide Valid, Layout, BucketCount, HashIdx;
      NodeAt(idx, j);
      NoRepeats(idx);
      forall i, m | 0 <= i < |chains| && 0 <= m < |chains[i]| && !(i == idx && m == j)
        ensures chains[i][m] != chains[idx][j]
      {
        NodeAt(i, m);
      }
    }

    /** The pointers that `hashtbl_remove` changes. */
    method Bypass(idx: nat, prev: Node?<K, V>, node: Node<K, V>, ghost j: nat)
      requires Valid() && buckets.Length != 0 && idx < buckets.Length == |chains| && j < |chains[idx]|
      requires node == chains[idx][j] && prev == (if j == 0 then null else chains[idx][j - 1])
      modifies buckets, prev
      ensures forall i :: 0 <= i < buckets.Length ==>
        buckets[i] == (if i == idx && j == 0 then old(node.next) else old(buckets[i]))
      ensures forall i, m :: 0 <= i < |chains| && 0 <= m < |chains[i]| ==>
        var n := chains[i][m]; n.next == (if i == idx && m + 1 == j then old(node.next) else old(n.next))
      ensures forall n :: n in own ==> n.val == old(n.val)
    {
      hide *;
      if j > 0 { Apart(idx, j - 1); }
      if prev != null {
        prev.next := node.next;
      } else {
        buckets[idx] := node.next;
      }
    }

    lemma NotEmpty(idx: nat, j: nat)
      requires Valid() && buckets.Length != 0 && idx < buckets.Length == |chains| && j < |chains[idx]|
      ensures sz > 0
    {
      hide *;
      NodeAt(idx, j);
      SameKeys();
      CountWithout(nodes, chains[idx][j].key);
    }

    /** The relinking steps of `hashtbl_remove`. */
    method Unlink(idx: nat, prev: Node?<K, V>, node: Node<K, V>, ghost j: nat)
      requires Valid() && buckets.Length != 0 && idx < buckets.Length == |chains| && j < |chains[idx]|
      requires node == chains[idx][j] && prev == (if j == 0 then null else chains[idx][j - 1])
      modifies this`model, this`nodes, this`chains, this`sz, buckets, own
      ensures Valid() && buckets == old(buckets) && own == old(own) && threshold == old(threshold)
      ensures model == old(model) - {node.key} && sz == old(sz) - 1
    {
      hide *;
      if j > 0 { NodeAt(idx, j - 1); }
      NodeAt(idx, j);
      NotEmpty(idx, j);
      Bypass(idx, prev, node, j);
      nodes := nodes - {node.key};
      chains := chains[idx := Without(chains[idx], j)];
      model := model - {node.key};
      sz := sz - 1;
      Removed(idx, j);
    }

    twostate lemma Removed(new idx: nat, new j: nat)
      requires old(Valid()) && idx < |old(chains)| && j < |old(chains)[idx]| && buckets == old(buckets)
      requires own == old(own) && old(buckets.Length) != 0
      requires forall i :: 0 <= i < buckets.Length ==>
        buckets[i] == (if i == idx && j == 0 then old(chains[idx][j].next) else old(buckets[i]))
      requires forall i, m :: 0 <= i < |old(chains)| && 0 <= m < |old(chains)[i]| ==>
        var n := old(chains)[i][m];
        n.next == (if i == idx && m + 1 == j then old(chains[idx][j].next) else old(n.next))
      requires forall n :: n in own ==> n.val == old(n.val)
      requires chains == old(chains)[idx := Without(old(chains)[idx], j)]
      requires nodes == old(nodes) - {old(chains)[idx][j].key} && model == old(model) - {old(chains)[idx][j].key}
      requires sz == old(sz) - 1
      ensures Valid()
    {
      assert old(Layout(buckets, chains, nodes, hash, own));
      assert forall k :: k in old(nodes) ==> old(nodes)[k] in own && old(nodes[k].val) == old(model)[k];
      assert old(model).Keys == old(nodes).Keys && old(sz) == |old(nodes)|;
      var key := old(chains)[idx][j].key;
      assert old(ChainOk(buckets, chains, nodes, hash, own, idx)) && old(NodeOk(chains, nodes, own, idx, j));
      assert key in old(nodes);
      CountWithout(old(nodes), key);
      hide Valid, Layout, BucketCount, HashIdx, ChainOk, NodeOk;
      Unlinked(buckets, old(chains), old(nodes), hash, own, idx, j);
      Assemble();
    }

    static lemma CountWithout(m: map<K, Node<K, V>>, k: K)
      requires k in m
      ensures |m - {k}| == |m| - 1
    {
      assert (m - {k}).Keys == m.Keys - {k};
      assert |m - {k}| == |(m - {k}).Keys| && |m| == |m.Keys|;
    }

    /** `hashtbl_clear`: keeps the array of buckets. */
    method Clear()
      requires Valid()
      modifies this, buckets
      ensures Valid() && model == map[] && buckets == old(buckets) && own == old(own)
      ensures threshold == old(threshold) && LoadOk()
    {
      hide *;
      SameKeys();
      if sz == 0 {
        NoLoad();
        return;
      }
      Sizes();
      for i := 0 to buckets.Length
        invariant forall k :: 0 <= k < i ==> buckets[k] == null
        modifies buckets
      {
        buckets[i] := null;
      }
      sz := 0;
      nodes, model := map[], map[];
      chains := seq(buckets.Length, _ => []);
      EmptyLayout(buckets, chains);
      Assemble();
      NoLoad();
    }

    lemma NoLoad()
      requires sz == 0
      ensures LoadOk()
    {
    }

    /** `rehash`: moves every node to its bucket in an array twice the size. */
    method Rehash()
      requires Valid() && buckets.Length != 0
      modifies this`buckets, this`chains, buckets, own
      ensures Valid() && fresh(buckets) && buckets.Length == old(buckets.Length) * 2
    {
      var newbucketsz := buckets.Length * GROWFACTOR;
      assert newbucketsz == buckets.Length * 2 > 0;
      hide *;
      var newbuckets := new Node?<K, V>[newbucketsz](_ => null);
      SameKeys();
      ghost var snap, newchains, moved := MoveAll(newbuckets);
      Adopt(newbuckets, snap, newchains, moved);
    }

    method Adopt(newbuckets: array<Node?<K, V>>, ghost snap: Snapshot<K, V>,
                 ghost newchains: Chains<K, V>, ghost moved: map<K, Node<K, V>>)
      requires snap.nodes == nodes && snap.vals == model && moved == nodes && newbuckets.Length != 0
      requires Layout(newbuckets, newchains, moved, hash, own) && snap.Rest(moved, own, |snap.chains|, buckets)
      requires sz == |nodes| && model.Keys == nodes.Keys
      modifies this`buckets, this`chains
      ensures Valid() && buckets == newbuckets
    {
      hide BucketCount, HashIdx;
      buckets, chains := newbuckets, newchains;
    }

    /** The outer loop of `rehash`. */
    method MoveAll(newbuckets: array<Node?<K, V>>)
      returns (ghost snap: Snapshot<K, V>, ghost newchains: Chains<K, V>, ghost moved: map<K, Node<K, V>>)
      requires Valid() && buckets.Length != 0 && newbuckets != buckets && newbuckets.Length == buckets.Length * 2
      requires forall i :: 0 <= i < newbuckets.Length ==> newbuckets[i] == null
      modifies buckets, newbuckets, own
      ensures snap.nodes == nodes && snap.vals == model && moved == nodes
      ensures Layout(newbuckets, newchains, moved, hash, own)
      ensures snap.Rest(moved, own, |snap.chains|, buckets)
    {
      hide *;
      newchains, moved := seq(newbuckets.Length, _ => []), map[];
      snap := Links();
      LinksCoherent();
      NothingMoved();
      TwiceAsMany(newbuckets.Length);
      EmptyLayout(newbuckets, newchains);
      var i := 0;
      while i < buckets.Length
        invariant i <= buckets.Length == |snap.chains|
        invariant |newchains| == newbuckets.Length && BucketCount(newbuckets.Length)
        invariant Layout(newbuckets, newchains, moved, hash, own)
        invariant snap.Moved(moved, i, 0)
        invariant snap.Rest(moved, own, i, buckets)
      {
        newchains, moved := MoveChain(newbuckets, i, snap, newchains, moved);
        i := i + 1;
      }
      snap.AllMoved(moved, own, i, buckets);
    }

    /** The inner loop of `rehash`: empties bucket `i`. */
    method MoveChain(newbuckets: array<Node?<K, V>>, i: nat, ghost snap: Snapshot<K, V>,
                     ghost c: Chains<K, V>, ghost m: map<K, Node<K, V>>)
      returns (ghost newchains: Chains<K, V>, ghost moved: map<K, Node<K, V>>)
      requires newbuckets != buckets && BucketCount(newbuckets.Length) && |c| == newbuckets.Length
      requires Layout(newbuckets, c, m, hash, own)
      requires i < |snap.chains| == buckets.Length
      requires snap.Moved(m, i, 0) && snap.Rest(m, own, i, buckets)
      modifies buckets, newbuckets, own
      ensures |newchains| == |c| && Layout(newbuckets, newchains, moved, hash, own)
      ensures snap.Moved(moved, i + 1, 0) && snap.Rest(moved, own, i + 1, buckets)
    {
      hide *;
      newchains, moved := c, m;
      snap.FirstOf(moved, own, i, buckets);
      var node := buckets[i];
      ghost var j := 0;
      while node != null
        invariant j <= |snap.chains[i]|
        invariant node == snap.At(i, j)
        invariant |newchains| == newbuckets.Length
        invariant Layout(newbuckets, newchains, moved, hash, own)
        invariant snap.Moved(moved, i, j)
        invariant snap.Rest(moved, own, i + 1, buckets)
        decreases |snap.chains[i]| - j
        modifies newbuckets, own
      {
        snap.NextOf(moved, own, i, j, buckets);
        node, newchains, moved := MoveNode(newbuckets, node, snap, newchains, moved, i, j);
        j := j + 1;
      }
      snap.LastOf(moved, i, j);
      label Emptied:
      buckets[i] := null;
      Snapshot.RestKept@Emptied(snap, moved, own, i + 1, buckets);
    }

    /** One round of the inner loop of `rehash`: relinks `node` and returns the next one. */
    method MoveNode(newbuckets: array<Node?<K, V>>, node: Node<K, V>, ghost snap: Snapshot<K, V>,
                    ghost c: Chains<K, V>, ghost m: map<K, Node<K, V>>, ghost i: nat, ghost j: nat)
      returns (next: Node?<K, V>, ghost newchains: Chains<K, V>, ghost moved: map<K, Node<K, V>>)
      requires newbuckets != buckets && BucketCount(newbuckets.Length) && |c| == newbuckets.Length
      requires Layout(newbuckets, c, m, hash, own)
      requires i < |snap.chains| && j < |snap.chains[i]| && node == snap.At(i, j)
      requires snap.Moved(m, i, j) && snap.Rest(m, own, i + 1, buckets)
      modifies newbuckets, own
      ensures |newchains| == |c| && Layout(newbuckets, newchains, moved, hash, own)
      ensures next == snap.At(i, j + 1)
      ensures snap.Moved(moved, i, j + 1) && snap.Rest(moved, own, i + 1, buckets)
    {
      hide *;
      snap.NextOf(m, own, i, j, buckets);
      next := node.next;
      var newidx := HashIdx(hash(node.key), newbuckets.Length);
      node.next := newbuckets[newidx];
      newbuckets[newidx] := node;
      Snapshot.MovedOne(snap, newbuckets, c, m, hash, own, node, newidx, i, j, buckets);
      newchains := c[newidx := [node] + c[newidx]];
      moved := m[node.key := node];
    }

    lemma EmptyLayout(b: array<Node?<K, V>>, c: Chains<K, V>)
      requires BucketCount(b.Length)
      requires |c| == b.Length && forall i :: 0 <= i < |c| ==> c[i] == [] && b[i] == null
      ensures Layout(b, c, map[], hash, own)
    {
    }

    lemma {:induction false} TwiceAsMany(n: nat)
      requires Valid() && buckets.Length != 0 && n == buckets.Length * 2
      ensures BucketCount(n)
    {
      hide *;
      Sizes();
      Doubled(buckets.Length, n);
    }

    /** The current links, as values. */
    ghost function Links(): Snapshot<K, V>
      reads this, buckets, own
    {
      Snapshot(buckets[..], chains, nodes, map k | k in nodes && nodes[k] in own :: nodes[k].next, model,
               map k | k in nodes && BucketCount(buckets.Length) :: HashIdx(hash(k), buckets.Length))
    }

    lemma LinksCoherent()
      requires Valid() && buckets.Length != 0
      ensures Links().Coherent()
    {
      var snap := Links();
      SameKeys();
      Sizes();
      hide Valid, Layout, BucketCount, HashIdx;
      forall i | 0 <= i < |chains| ensures buckets[i] == snap.At(i, 0) {
        HeadNode(i);
      }
      forall k | k in nodes ensures snap.CoherentFor(k) {
        PlaceOf(k);
      }
      forall i, j | 0 <= i < |chains| && 0 <= j < |chains[i]| ensures snap.CoherentAt(i, j) {
        NodeCoherent(i, j);
      }
    }

    lemma NodeCoherent(i: nat, j: nat)
      requires Valid() && buckets.Length != 0 && i < |chains| && j < |chains[i]|
      ensures Links().CoherentAt(i, j)
    {
      Sizes();
      hide Valid, Layout, BucketCount, HashIdx;
      NodeAt(i, j);
      NoRepeats(i);
    }

    lemma NothingMoved()
      requires Valid() && buckets.Length != 0
      ensures Links().nodes == nodes && Links().vals == model && |Links().chains| == buckets.Length
      ensures Links().Moved(map[], 0, 0) && Links().Rest(map[], own, 0, buckets)
    {
      var snap := Links();
      SameKeys();
      Sizes();
      ValuesInPlace();
      LinksCoherent();
      hide Valid, Layout, BucketCount, HashIdx;
      forall k | k in nodes ensures k in snap.homes && !snap.Before(k, 0, 0) {
        assert snap.CoherentFor(k);
      }
    }

    lemma ValuesInPlace()
      requires Valid()
      ensures forall k :: k in nodes ==> nodes[k] in own && nodes[k].val == model[k]
    {
    }
  }

  // ---------- rehashing ----------

  /** The links of a table before rehashing, as values. */
  datatype Snapshot<!K, V> = Snapshot(
    heads: seq<Node?<K, V>>, chains: Chains<K, V>, nodes: map<K, Node<K, V>>,
    nexts: map<K, Node?<K, V>>, vals: map<K, V>, homes: map<K, nat>)
  {
    ghost function At(i: nat, j: nat): Node?<K, V>
      requires i < |chains|
    {
      if j < |chains[i]| then chains[i][j] else null
    }

    ghost predicate CoherentAt(i: nat, j: nat)
      requires i < |chains| && j < |chains[i]|
    {
      var n := chains[i][j];
      && n.key in nodes && nodes[n.key] == n && n.key in nexts && n.key in homes
      && nexts[n.key] == At(i, j + 1) && homes[n.key] == i && n !in chains[i][..j]
    }

    ghost predicate CoherentFor(k: K)
      requires k in nodes
    {
      && nodes[k].key == k && k in nexts && k in vals && k in homes
      && homes[k] < |chains| && nodes[k] in chains[homes[k]]
    }

    ghost predicate Coherent() {
      && |heads| == |chains|
      && (forall i :: 0 <= i < |chains| ==> heads[i] == At(i, 0))
      && (forall i, j :: 0 <= i < |chains| && 0 <= j < |chains[i]| ==> CoherentAt(i, j))
      && (forall k :: k in nodes ==> CoherentFor(k))
    }

    /** The node for `k` comes before position `j` of chain `i`. */
    ghost predicate Before(k: K, i: nat, j: nat)
      requires k in nodes && k in homes
    {
      homes[k] < i || (homes[k] == i && i < |chains| && j <= |chains[i]| && nodes[k] in chains[i][..j])
    }

    /** Exactly the nodes before that position have been moved. */
    ghost predicate Moved(moved: map<K, Node<K, V>>, i: nat, j: nat) {
      && Coherent()
      && (forall k :: k in nodes ==> k in homes && (k in moved <==> Before(k, i, j)))
      && (forall k :: k in moved ==> k in nodes && moved[k] == nodes[k])
    }

    /** The buckets from `i` on and the nodes not yet moved are as they were. */
    ghost predicate Rest(moved: map<K, Node<K, V>>, own: set<Node<K, V>>, i: nat, b: array<Node?<K, V>>)
      reads own, b
    {
      && |heads| == b.Length
      && (forall m :: i <= m < b.Length ==> b[m] == heads[m])
      && (forall k :: k in nodes ==> nodes[k] in own && k in vals && nodes[k].val == vals[k])
      && (forall k :: k in nodes && k !in moved ==> k in nexts && nodes[k].next == nexts[k])
    }

    lemma FirstOf(moved: map<K, Node<K, V>>, own: set<Node<K, V>>, i: nat, b: array<Node?<K, V>>)
      requires Moved(moved, i, 0) && Rest(moved, own, i, b) && i < |chains| == b.Length
      ensures b[i] == At(i, 0) && Rest(moved, own, i + 1, b)
    {
    }

    lemma NextOf(moved: map<K, Node<K, V>>, own: set<Node<K, V>>, i: nat, j: nat, b: array<Node?<K, V>>)
      requires Moved(moved, i, j) && Rest(moved, own, i + 1, b) && i < |chains| && At(i, j) != null
      ensures j < |chains[i]| && At(i, j) in own && At(i, j).key !in moved
      ensures At(i, j).next == At(i, j + 1)
    {
      assert CoherentAt(i, j);
    }

    lemma LastOf(moved: map<K, Node<K, V>>, i: nat, j: nat)
      requires Moved(moved, i, j) && i < |chains| && j <= |chains[i]| && At(i, j) == null
      ensures Moved(moved, i + 1, 0)
    {
      assert chains[i][..j] == chains[i];
      forall k | k in nodes ensures Before(k, i, j) <==> Before(k, i + 1, 0) {
        assert CoherentFor(k);
      }
    }

    static twostate lemma RestKept(new snap: Snapshot<K, V>, new moved: map<K, Node<K, V>>, new own: set<Node<K, V>>,
                                   new i: nat, new b: array<Node?<K, V>>)
      requires old(allocated(snap) && allocated(moved) && allocated(own) && allocated(b))
      requires old(snap.Rest(moved, own, i, b))
      requires forall m :: i <= m < b.Length ==> b[m] == old(b[m])
      requires forall n :: n in own ==> n.val == old(n.val) && n.next == old(n.next)
      ensures snap.Rest(moved, own, i, b)
    {
    }

    lemma AllMoved(moved: map<K, Node<K, V>>, own: set<Node<K, V>>, i: nat, b: array<Node?<K, V>>)
      requires Moved(moved, i, 0) && i == |chains|
      ensures moved == nodes
    {
      forall k | k in nodes ensures k in moved {
        assert CoherentFor(k);
      }
    }

    /** Moving one more node. */
    static twostate lemma MovedOne(new snap: Snapshot<K, V>, new b: array<Node?<K, V>>, new c: Chains<K, V>,
                                   new moved: map<K, Node<K, V>>, new hash: K -> nat, new own: set<Node<K, V>>,
                                   new node: Node<K, V>, new idx: nat, new i: nat, new j: nat,
                                   new from: array<Node?<K, V>>)
      requires old(allocated(snap) && allocated(b) && allocated(c) && allocated(moved) && allocated(own))
      requires old(allocated(node) && allocated(from))
      requires old(Layout(b, c, moved, hash, own)) && snap.Moved(moved, i, j) && old(snap.Rest(moved, own, i + 1, from))
      requires i < |snap.chains| && j < |snap.chains[i]| && node == snap.At(i, j) && node in own && node.key !in moved
      requires b != from && BucketCount(b.Length) && idx == HashIdx(hash(node.key), b.Length) && idx < |c|
      requires b[idx] == node && forall m :: 0 <= m < b.Length && m != idx ==> b[m] == old(b[m])
      requires node.next == old(b[idx]) && node.val == old(node.val)
      requires forall m :: 0 <= m < from.Length ==> from[m] == old(from[m])
      requires forall n :: n in own && n != node ==>
        n.next == old(n.next) && n.val == old(n.val)
      ensures Layout(b, c[idx := [node] + c[idx]], moved[node.key := node], hash, own)
      ensures snap.Moved(moved[node.key := node], i, j + 1)
      ensures snap.Rest(moved[node.key := node], own, i + 1, from)
    {
      assert snap.CoherentAt(i, j);
      assert own + {node} == own;
      PushedFront(b, c, moved, hash, own, node, idx);
      hide Layout, BucketCount, HashIdx;
      assert snap.chains[i][..j + 1] == snap.chains[i][..j] + [node];
      forall k | k in snap.nodes ensures snap.Before(k, i, j + 1) <==> snap.Before(k, i, j) || k == node.key {
        assert snap.CoherentFor(k);
      }
      forall k | k in snap.nodes && k != node.key ensures snap.nodes[k] != node {
        assert snap.CoherentFor(k);
      }
    }
  }
}
