/**
  The separate-chaining hash table of hashtable_chain.cpp.

  A table is one chain per bucket, each chain a sequence of nodes listed
  head first, plus the element count; the number of buckets is the length
  of the bucket sequence. Every operation is a pure function from the old
  table to the new one. Heap management (create_node, free_node, free_list,
  calloc/free) has no counterpart: allocation is taken to succeed.

  The C insert re-enters the rehash, and the rehash re-inserts every node
  through the public insert, which could re-enter the rehash again. Insert,
  Rehash and ReinsertAll below keep that exact call structure; their
  termination measure is what shows that the inner rehash never grows the
  table a second time.
 */
module ChainTable {
  import opened CTypes

  /** A chain node: `Node { key, data, next }`, the link being the chain's order. */
  datatype Node = Node(key: int, data: int)

  /** `HashTable { count, size, buckets }` with size == |buckets|. */
  datatype Table = Table(buckets: seq<seq<Node>>, count: nat)

  /** The C `hashtable_find` result: the return code and the value written to `*data`. */
  datatype Reply = Reply(status: int, data: int)

  // ---------------------------------------------------------------------
  // Hashing and invariants

  /** get_hash: the key converted to hash_t, modulo the bucket count. */
  function BucketOf(key: int, size: nat): (b: nat)
    requires size > 0
    ensures b < size
  {
    ToHash(key) % size
  }

  /** No key occurs twice in a sequence of nodes (a chain, or all chains flattened). */
  predicate KeysDistinct(es: seq<Node>) {
    forall i, j :: 0 <= i < j < |es| ==> es[i].key != es[j].key
  }

  /** Every node sits in the bucket its key hashes to. */
  predicate Placed(bs: seq<seq<Node>>) {
    forall b, i :: 0 <= b < |bs| && 0 <= i < |bs[b]| ==> BucketOf(bs[b][i].key, |bs|) == b
  }

  /** All nodes, bucket by bucket, each chain head first: the order rehash visits them in. */
  function Flatten(bs: seq<seq<Node>>): seq<Node> {
    if bs == [] then [] else bs[0] + Flatten(bs[1..])
  }

  /** The representation invariant: placement, unique keys per chain, and count == number of nodes. */
  predicate Valid(t: Table) {
    && Placed(t.buckets)
    && (forall b :: 0 <= b < |t.buckets| ==> KeysDistinct(t.buckets[b]))
    && t.count == |Flatten(t.buckets)|
  }

  /** The load bound that holds after every insert: at most four nodes per bucket on average. */
  predicate LoadOk(t: Table) {
    t.count <= 4 * |t.buckets|
  }

  /** The pair (key, data) is stored in the table (it can only be in its key's bucket). */
  predicate Holds(t: Table, n: Node) {
    |t.buckets| > 0 && n in t.buckets[BucketOf(n.key, |t.buckets|)]
  }

  ghost predicate HasKey(t: Table, key: int) {
    exists d :: Holds(t, Node(key, d))
  }

  // ---------------------------------------------------------------------
  // Chain search

  /**
    find_node: the position of the first node with the key, or None. The
    node before that position is what find_node reports through `prev`
    (none when the position is 0).
   */
  function FindNode(c: seq<Node>, key: int): (r: Option<nat>)
    ensures r.Some? ==> r.value < |c| && c[r.value].key == key
    ensures r.Some? ==> forall j :: 0 <= j < r.value ==> c[j].key != key
    ensures r.None? <==> forall j :: 0 <= j < |c| ==> c[j].key != key
  {
    if c == [] then None
    else if c[0].key == key then Some(0)
    else match FindNode(c[1..], key)
      case None => None
      case Some(i) => Some(i + 1)
  }

  // ---------------------------------------------------------------------
  // Operations

  /** hashtable_constructor: `size` empty buckets and count 0. */
  function Construct(size: nat): (r: Table)
    ensures Valid(r) && LoadOk(r)
    ensures |r.buckets| == size && r.count == 0
    ensures forall n :: !Holds(r, n)
  {
    var bs := seq(size, _ => []);
    FlattenAllEmpty(bs);
    Table(bs, 0)
  }

  /** hashtable_destructor: every chain is released and the table is left with no buckets. */
  function Destroy(t: Table): (r: Table)
    ensures Valid(r) && |r.buckets| == 0 && r.count == 0
    ensures forall n :: !Holds(r, n)
  {
    Table([], 0)
  }

  /** hashtable_find: the stored data and 0, or 0 and -1 when the key is absent. */
  function Find(t: Table, key: int): (r: Reply)
    requires |t.buckets| > 0
    ensures r.status == 0 || r.status == -1
    ensures r.status == 0 <==> HasKey(t, key)
    ensures r.status == 0 ==> Holds(t, Node(key, r.data))
    ensures r.status == -1 ==> r.data == 0
  {
    var c := t.buckets[BucketOf(key, |t.buckets|)];
    match FindNode(c, key)
    case Some(i) =>
      assert c[i] == Node(key, c[i].data);
      Reply(0, c[i].data)
    case None =>
      Reply(-1, 0)
  }

  /**
    hashtable_insert. An existing key has its data overwritten and nothing
    else changes (no rehash check). A new key becomes the head of its
    bucket's chain, the count grows by one, and the rehash check runs.
   */
  function Insert(t: Table, key: int, data: int): (r: Table)
    requires Valid(t) && |t.buckets| > 0 && LoadOk(t)
    ensures Valid(r) && LoadOk(r)
    ensures forall n :: Holds(r, n) <==> n == Node(key, data) || (Holds(t, n) && n.key != key)
    ensures HasKey(t, key) ==> r.count == t.count && |r.buckets| == |t.buckets|
    ensures HasKey(t, key) ==>
      var b := BucketOf(key, |t.buckets|);
      && (forall j :: 0 <= j < |t.buckets| && j != b ==> r.buckets[j] == t.buckets[j])
      && |r.buckets[b]| == |t.buckets[b]|
      && (forall i :: 0 <= i < |t.buckets[b]| ==>
            r.buckets[b][i] == if t.buckets[b][i].key == key then Node(key, data) else t.buckets[b][i])
    ensures !HasKey(t, key) ==> r.count == t.count + 1
    ensures !HasKey(t, key) && t.count < 4 * |t.buckets| ==>
      var b := BucketOf(key, |t.buckets|);
      && |r.buckets| == |t.buckets|
      && r.buckets[b] == [Node(key, data)] + t.buckets[b]
      && (forall j :: 0 <= j < |t.buckets| && j != b ==> r.buckets[j] == t.buckets[j])
    ensures !HasKey(t, key) && t.count == 4 * |t.buckets| ==> |r.buckets| == 2 * |t.buckets|
    decreases if t.count >= 4 * |t.buckets| then 3 else 1, 0
  {
    var b := BucketOf(key, |t.buckets|);
    var c := t.buckets[b];
    if c == [] then
      PrependFacts(t, key, data);
      assert [Node(key, data)] + c == [Node(key, data)];
      Rehash(Table(t.buckets[b := [Node(key, data)]], t.count + 1))
    else match FindNode(c, key)
      case Some(i) =>
        OverwriteFacts(t, key, data, i);
        Table(t.buckets[b := c[i := Node(key, data)]], t.count)
      case None =>
        PrependFacts(t, key, data);
        Rehash(Table(t.buckets[b := [Node(key, data)] + c], t.count + 1))
  }

  /**
    hashtable_rehash, called right after an insert added a node. Below the
    threshold it does nothing; above it the table gets twice the buckets and
    every node is re-inserted, bucket by bucket, through Insert.
   */
  function Rehash(t: Table): (r: Table)
    requires Valid(t) && |t.buckets| > 0 && t.count <= 4 * |t.buckets| + 1
    ensures Valid(r) && LoadOk(r) && r.count == t.count
    ensures t.count <= 4 * |t.buckets| ==> r == t
    ensures t.count > 4 * |t.buckets| ==> |r.buckets| == 2 * |t.buckets|
    ensures forall n :: Holds(r, n) <==> Holds(t, n)
    decreases if t.count > 4 * |t.buckets| then 2 else 0, 0
  {
    if t.count <= 4 * |t.buckets| then t
    else
      var es := Flatten(t.buckets);
      FlattenFacts(t);
      ReinsertAll(es, Construct(2 * |t.buckets|))
  }

  /**
    The re-insertion loop of hashtable_rehash: each node, in order, goes
    through the public Insert. The precondition `acc.count + |es| <= 4 * size`
    is the reason the Insert it calls never triggers a nested rehash, which
    the unchanged bucket count in the postcondition records.
   */
  function ReinsertAll(es: seq<Node>, acc: Table): (r: Table)
    requires Valid(acc) && |acc.buckets| > 0
    requires acc.count + |es| <= 4 * |acc.buckets|
    requires KeysDistinct(es)
    requires forall i :: 0 <= i < |es| ==> !HasKey(acc, es[i].key)
    ensures Valid(r) && |r.buckets| == |acc.buckets| && r.count == acc.count + |es|
    ensures forall n :: Holds(r, n) <==> Holds(acc, n) || n in es
    decreases 1, |es|
  {
    if es == [] then acc
    else
      var acc' := Insert(acc, es[0].key, es[0].data);
      FreshKeysStayFresh(acc, acc', es);
      ReinsertAll(es[1..], acc')
  }

  /**
    hashtable_remove: unlink the first node with the key, through its
    predecessor or, at the head, through the bucket itself. An absent key
    leaves the table as it was.
   */
  function Remove(t: Table, key: int): (r: Table)
    requires Valid(t) && |t.buckets| > 0
    ensures Valid(r) && |r.buckets| == |t.buckets| && r.count <= t.count
    ensures forall n :: Holds(r, n) <==> Holds(t, n) && n.key != key
    ensures !HasKey(t, key) ==> r == t
    ensures HasKey(t, key) ==>
      var b := BucketOf(key, |t.buckets|);
      var c := t.buckets[b];
      && r.count == t.count - 1
      && (forall j :: 0 <= j < |t.buckets| && j != b ==> r.buckets[j] == t.buckets[j])
      && exists i :: 0 <= i < |c| && c[i].key == key && r.buckets[b] == c[..i] + c[i + 1..]
  {
    var b := BucketOf(key, |t.buckets|);
    var c := t.buckets[b];
    match FindNode(c, key)
    case None =>
      NoKeyNoHolds(t, key);
      t
    case Some(i) =>
      var c' := if i > 0 then c[..i] + c[i + 1..] else c[1..];
      assert c' == c[..i] + c[i + 1..];
      UnlinkFacts(t, key, i);
      Table(t.buckets[b := c'], t.count - 1)
  }

  // ---------------------------------------------------------------------
  // Lemmas about single-bucket updates

  lemma FlattenAllEmpty(bs: seq<seq<Node>>)
    requires forall b :: 0 <= b < |bs| ==> bs[b] == []
    ensures Flatten(bs) == []
  {
    if bs != [] {
      FlattenAllEmpty(bs[1..]);
    }
  }

  /** Replacing one bucket changes the node count by the difference in chain lengths. */
  lemma {:induction false} FlattenUpdateLength(bs: seq<seq<Node>>, b: nat, c: seq<Node>)
    requires b < |bs|
    ensures |Flatten(bs[b := c])| + |bs[b]| == |Flatten(bs)| + |c|
    decreases |bs|
  {
    if b == 0 {
      assert bs[b := c][1..] == bs[1..];
    } else {
      FlattenUpdateLength(bs[1..], b - 1, c);
      assert bs[b := c][1..] == bs[1..][b - 1 := c];
    }
  }

  /** In a placed table, no stored pair has the key exactly when the key's chain lacks it. */
  lemma NoKeyNoHolds(t: Table, key: int)
    requires Valid(t) && |t.buckets| > 0
    requires FindNode(t.buckets[BucketOf(key, |t.buckets|)], key).None?
    ensures !HasKey(t, key)
  {
  }

  /**
    Replacing the chain of bucket b by another chain of keys that hash to b
    and are pairwise distinct keeps the invariant; the stored pairs change
    only in bucket b.
   */
  lemma UpdateBucket(t: Table, b: nat, c': seq<Node>, count': nat)
    requires Valid(t) && b < |t.buckets|
    requires forall i :: 0 <= i < |c'| ==> BucketOf(c'[i].key, |t.buckets|) == b
    requires KeysDistinct(c')
    requires count' + |t.buckets[b]| == t.count + |c'|
    ensures Valid(Table(t.buckets[b := c'], count'))
    ensures forall n :: Holds(Table(t.buckets[b := c'], count'), n) <==>
      if BucketOf(n.key, |t.buckets|) == b then n in c' else Holds(t, n)
  {
    FlattenUpdateLength(t.buckets, b, c');
  }

  /** Prepending a fresh node to its bucket keeps the invariant and adds exactly that pair. */
  lemma PrependFacts(t: Table, key: int, data: int)
    requires Valid(t) && |t.buckets| > 0
    requires FindNode(t.buckets[BucketOf(key, |t.buckets|)], key).None?
    ensures !HasKey(t, key)
    ensures
      var b := BucketOf(key, |t.buckets|);
      var t' := Table(t.buckets[b := [Node(key, data)] + t.buckets[b]], t.count + 1);
      && Valid(t')
      && (forall n :: Holds(t', n) <==> n == Node(key, data) || Holds(t, n))
  {
    NoKeyNoHolds(t, key);
    var b := BucketOf(key, |t.buckets|);
    var c := t.buckets[b];
    var c' := [Node(key, data)] + c;
    assert KeysDistinct(c') by {
      forall i, j | 0 <= i < j < |c'| ensures c'[i].key != c'[j].key {
        if i == 0 { assert c'[j] == c[j - 1]; }
      }
    }
    assert forall i :: 0 <= i < |c'| ==> BucketOf(c'[i].key, |t.buckets|) == b by {
      forall i | 0 <= i < |c'| ensures BucketOf(c'[i].key, |t.buckets|) == b {
        if i > 0 { assert c'[i] == c[i - 1]; }
      }
    }
    UpdateBucket(t, b, c', t.count + 1);
  }

  /** Overwriting the data of the node with the key keeps the invariant and replaces that pair. */
  lemma OverwriteFacts(t: Table, key: int, data: int, i: nat)
    requires Valid(t) && |t.buckets| > 0
    requires FindNode(t.buckets[BucketOf(key, |t.buckets|)], key) == Some(i)
    ensures HasKey(t, key)
    ensures
      var b := BucketOf(key, |t.buckets|);
      var t' := Table(t.buckets[b := t.buckets[b][i := Node(key, data)]], t.count);
      && Valid(t')
      && (forall n :: Holds(t', n) <==> n == Node(key, data) || (Holds(t, n) && n.key != key))
      && (forall j :: 0 <= j < |t.buckets[b]| ==>
            t'.buckets[b][j] == if t.buckets[b][j].key == key then Node(key, data) else t.buckets[b][j])
  {
    var b := BucketOf(key, |t.buckets|);
    var c := t.buckets[b];
    var c' := c[i := Node(key, data)];
    assert Holds(t, Node(key, c[i].data)) by { assert c[i] == Node(key, c[i].data); }
    ChainOverwrite(c, i, key, data);
    UpdateBucket(t, b, c', t.count);
  }

  /** Replacing the one node with the key in a chain of distinct keys, as a sequence fact. */
  lemma ChainOverwrite(c: seq<Node>, i: nat, key: int, data: int)
    requires i < |c| && c[i].key == key && KeysDistinct(c)
    ensures KeysDistinct(c[i := Node(key, data)])
    ensures forall n :: n in c[i := Node(key, data)] <==> n == Node(key, data) || (n in c && n.key != key)
  {
    var c' := c[i := Node(key, data)];
    forall n: Node ensures n in c' <==> n == Node(key, data) || (n in c && n.key != key) {
      assert c'[i] == Node(key, data);
      if n in c && n.key != key {
        var j :| 0 <= j < |c| && c[j] == n;
        assert c'[j] == n;
      }
      if n in c' && n != Node(key, data) {
        var j :| 0 <= j < |c'| && c'[j] == n;
        assert j != i && c[j] == n;
      }
    }
  }

  /** Unlinking the node at position i keeps the invariant and drops exactly that key. */
  lemma UnlinkFacts(t: Table, key: int, i: nat)
    requires Valid(t) && |t.buckets| > 0
    requires FindNode(t.buckets[BucketOf(key, |t.buckets|)], key) == Some(i)
    ensures HasKey(t, key)
    ensures t.count >= 1
    ensures
      var b := BucketOf(key, |t.buckets|);
      var c := t.buckets[b];
      var t' := Table(t.buckets[b := c[..i] + c[i + 1..]], t.count - 1);
      && Valid(t')
      && (forall n :: Holds(t', n) <==> Holds(t, n) && n.key != key)
  {
    var b := BucketOf(key, |t.buckets|);
    var c := t.buckets[b];
    var c' := c[..i] + c[i + 1..];
    assert Holds(t, Node(key, c[i].data)) by { assert c[i] == Node(key, c[i].data); }
    FlattenUpdateLength(t.buckets, b, c');
    ChainRemoveAt(c, i);
    UpdateBucket(t, b, c', t.count - 1);
  }

  /** Dropping position i of a chain with distinct keys drops exactly the key found there. */
  lemma ChainRemoveAt(c: seq<Node>, i: nat)
    requires i < |c| && KeysDistinct(c)
    ensures KeysDistinct(c[..i] + c[i + 1..])
    ensures forall n :: n in c[..i] + c[i + 1..] <==> n in c && n.key != c[i].key
  {
    var c' := c[..i] + c[i + 1..];
    forall x | 0 <= x < |c'| ensures c'[x] == c[if x < i then x else x + 1] {
    }
    forall n ensures n in c' <==> n in c && n.key != c[i].key {
      if n in c && n.key != c[i].key {
        var j :| 0 <= j < |c| && c[j] == n;
        assert c'[if j < i then j else j - 1] == n;
      }
      if n in c' {
        var j :| 0 <= j < |c'| && c'[j] == n;
        var j' := if j < i then j else j + 1;
        assert c[j'] == n && j' != i;
      }
    }
  }

  /** Keys still to be re-inserted stay absent after one more (distinct) key was inserted. */
  lemma FreshKeysStayFresh(acc: Table, acc': Table, es: seq<Node>)
    requires |es| > 0 && KeysDistinct(es)
    requires forall i :: 0 <= i < |es| ==> !HasKey(acc, es[i].key)
    requires forall n :: Holds(acc', n) <==> n == es[0] || (Holds(acc, n) && n.key != es[0].key)
    ensures forall i :: 0 <= i < |es[1..]| ==> !HasKey(acc', es[1..][i].key)
  {
    forall i | 0 <= i < |es[1..]| ensures !HasKey(acc', es[1..][i].key) {
      assert es[1..][i] == es[i + 1];
    }
  }

  // ---------------------------------------------------------------------
  // Lemmas about the whole node sequence (used by the rehash)

  lemma {:induction false} FlattenMember(bs: seq<seq<Node>>, n: Node)
    ensures n in Flatten(bs) <==> exists b :: 0 <= b < |bs| && n in bs[b]
    decreases |bs|
  {
    if bs != [] {
      FlattenMember(bs[1..], n);
      if n in Flatten(bs[1..]) {
        var b :| 0 <= b < |bs[1..]| && n in bs[1..][b];
        assert n in bs[b + 1];
      }
      if exists b :: 0 <= b < |bs| && n in bs[b] {
        var b :| 0 <= b < |bs| && n in bs[b];
        if b > 0 { assert n in bs[1..][b - 1]; }
      }
    }
  }

  /** Nodes placed by bucket index `off + b` are listed by Flatten with pairwise distinct keys. */
  lemma {:induction false} FlattenKeysDistinct(bs: seq<seq<Node>>, size: nat, off: nat)
    requires size > 0
    requires forall b, i :: 0 <= b < |bs| && 0 <= i < |bs[b]| ==> BucketOf(bs[b][i].key, size) == off + b
    requires forall b :: 0 <= b < |bs| ==> KeysDistinct(bs[b])
    ensures KeysDistinct(Flatten(bs))
    ensures forall n :: n in Flatten(bs) ==> BucketOf(n.key, size) >= off
    decreases |bs|
  {
    if bs != [] {
      var rest := Flatten(bs[1..]);
      FlattenKeysDistinct(bs[1..], size, off + 1);
      var f := Flatten(bs);
      assert f == bs[0] + rest;
      forall i, j | 0 <= i < j < |f| ensures f[i].key != f[j].key {
        if j < |bs[0]| {
          assert f[i] == bs[0][i] && f[j] == bs[0][j];
        } else if i >= |bs[0]| {
          assert f[i] == rest[i - |bs[0]|] && f[j] == rest[j - |bs[0]|];
        } else {
          assert f[i] == bs[0][i];
          assert f[j] == rest[j - |bs[0]|];
          assert f[j] in rest;
        }
      }
      forall n | n in f ensures BucketOf(n.key, size) >= off {
        if n in bs[0] {
          var i :| 0 <= i < |bs[0]| && bs[0][i] == n;
        }
      }
    }
  }

  /** The node sequence of a valid table lists each stored pair once, with distinct keys. */
  lemma FlattenFacts(t: Table)
    requires Valid(t) && |t.buckets| > 0
    ensures KeysDistinct(Flatten(t.buckets))
    ensures forall n :: n in Flatten(t.buckets) <==> Holds(t, n)
  {
    FlattenKeysDistinct(t.buckets, |t.buckets|, 0);
    forall n ensures n in Flatten(t.buckets) <==> Holds(t, n) {
      FlattenMember(t.buckets, n);
      if n in Flatten(t.buckets) {
        var b :| 0 <= b < |t.buckets| && n in t.buckets[b];
        var i :| 0 <= i < |t.buckets[b]| && t.buckets[b][i] == n;
      }
    }
  }

  // ---------------------------------------------------------------------
  // The table behaves as a map from keys to data

  /** A valid table stores at most one pair per key. */
  lemma HoldsUnique(t: Table, n1: Node, n2: Node)
    requires Valid(t) && Holds(t, n1) && Holds(t, n2) && n1.key == n2.key
    ensures n1 == n2
  {
    var c := t.buckets[BucketOf(n1.key, |t.buckets|)];
    var i :| 0 <= i < |c| && c[i] == n1;
    var j :| 0 <= j < |c| && c[j] == n2;
    assert KeysDistinct(c);
  }

  /** Two valid tables that store the same pairs for a key answer Find for it identically. */
  lemma FindAgrees(t1: Table, t2: Table, key: int)
    requires Valid(t1) && Valid(t2) && |t1.buckets| > 0 && |t2.buckets| > 0
    requires forall d :: Holds(t1, Node(key, d)) <==> Holds(t2, Node(key, d))
    ensures Find(t1, key) == Find(t2, key)
  {
    var r1, r2 := Find(t1, key), Find(t2, key);
    if r1.status == 0 {
      assert Holds(t2, Node(key, r1.data));
      HoldsUnique(t2, Node(key, r1.data), Node(key, r2.data));
    }
  }

  /** After insert(k, d), find(k) yields d and every other key answers as before. */
  lemma FindAfterInsert(t: Table, key: int, data: int, other: int)
    requires Valid(t) && |t.buckets| > 0 && LoadOk(t)
    ensures Find(Insert(t, key, data), key) == Reply(0, data)
    ensures other != key ==> Find(Insert(t, key, data), other) == Find(t, other)
  {
    var r := Insert(t, key, data);
    var f := Find(r, key);
    assert Holds(r, Node(key, data));
    assert f.status == 0 && Holds(r, Node(key, f.data));
    if other != key {
      FindAgrees(r, t, other);
    }
  }

  /** After remove(k), find(k) reports absence and every other key answers as before. */
  lemma FindAfterRemove(t: Table, key: int, other: int)
    requires Valid(t) && |t.buckets| > 0
    ensures Find(Remove(t, key), key) == Reply(-1, 0)
    ensures other != key ==> Find(Remove(t, key), other) == Find(t, other)
  {
    var r := Remove(t, key);
    if other != key {
      FindAgrees(r, t, other);
    }
  }

  /** Growing the table never changes what find returns for any key. */
  lemma FindAfterRehash(t: Table, key: int)
    requires Valid(t) && |t.buckets| > 0 && t.count <= 4 * |t.buckets| + 1
    ensures Find(Rehash(t), key) == Find(t, key)
  {
    FindAgrees(Rehash(t), t, key);
  }

  /**
    Four buckets; keys 1 and 5 collide in bucket 1, the later one at the
    head. Removing 1 leaves 5 findable and the count at 1.
   */
  lemma CollisionScenario()
    ensures
      var t0 := Construct(4);
      var t1 := Insert(t0, 1, 10);
      var t2 := Insert(t1, 5, 50);
      var t3 := Remove(t2, 1);
      && t2.count == 2
      && t2.buckets[1] == [Node(5, 50), Node(1, 10)]
      && Find(t2, 1) == Reply(0, 10) && Find(t2, 5) == Reply(0, 50)
      && t3.count == 1
      && Find(t3, 1) == Reply(-1, 0) && Find(t3, 5) == Reply(0, 50)
  {
    var t0 := Construct(4);
    assert BucketOf(1, 4) == 1 && BucketOf(5, 4) == 1;
    assert !HasKey(t0, 1);
    var t1 := Insert(t0, 1, 10);
    assert t1.buckets[1] == [Node(1, 10)] && t1.count == 1;
    assert !HasKey(t1, 5);
    var t2 := Insert(t1, 5, 50);
    assert t2.buckets[1] == [Node(5, 50), Node(1, 10)] && t2.count == 2;
    FindAfterInsert(t0, 1, 10, 5);
    FindAfterInsert(t1, 5, 50, 1);
    var t3 := Remove(t2, 1);
    assert Holds(t2, Node(1, 10));
    FindAfterRemove(t2, 1, 5);
  }
}
