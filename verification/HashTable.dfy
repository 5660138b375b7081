/**
 The chained hash table of qftp_server/src/hash.c: an array of buckets, each a doubly linked list of
 nodes, refining a finite map. Keys and values are the 32-bit numbers the server stores.
 */
module HashTable {

  /** `hash_func` of qftp_server/src/main.c. */
  function Bucket(buckets: nat, key: nat): (b: nat)
    requires buckets > 0
    ensures b < buckets
  {
    key % buckets
  }

  /** Keys share a bucket exactly when their difference is a multiple of the number of buckets. */
  lemma SameBucketExactlyWhen(buckets: nat, a: nat, b: nat)
    requires buckets > 0
    ensures Bucket(buckets, a) == Bucket(buckets, b) <==> exists q: int :: a - b == q * buckets
  {
    var qa, qb, ra, rb := a / buckets, b / buckets, a % buckets, b % buckets;
    assert a == buckets * qa + ra && b == buckets * qb + rb;
    if ra == rb {
      assert a - b == (qa - qb) * buckets;
    } else if exists q: int :: a - b == q * buckets {
      var q: int :| a - b == q * buckets;
      NoMultipleBetween(buckets, ra - rb, q - (qa - qb));
    }
  }

  lemma NoMultipleBetween(n: int, d: int, q: int)
    requires n > 0 && d == q * n && -n < d < n
    ensures d == 0
  {
  }

  class Node {
    const key: nat
    var value: nat
    var prev: Node?
    var next: Node?

    constructor (key: nat, value: nat)
      ensures this.key == key && this.value == value && prev == null && next == null
    {
      this.key, this.value, prev, next := key, value, null, null;
    }
  }

  /** `head` starts a doubly linked list of exactly the nodes of `c`. */
  ghost predicate Linked(head: Node?, c: seq<Node>)
    reads c
  {
    head == (if c == [] then null else c[0]) &&
    (forall i {:trigger c[i].prev} | 0 <= i < |c| :: c[i].prev == if i == 0 then null else c[i - 1]) &&
    (forall i {:trigger c[i].next} | 0 <= i < |c| :: c[i].next == if i == |c| - 1 then null else c[i + 1])
  }

  /** The keys and values of a list of nodes. */
  ghost function Pairs(c: seq<Node>): (ps: seq<(nat, nat)>)
    reads c
    ensures |ps| == |c| && forall i | 0 <= i < |c| :: ps[i] == (c[i].key, c[i].value)
  {
    if c == [] then [] else [(c[0].key, c[0].value)] + Pairs(c[1..])
  }

  /** `ps` are the entries of `m` that belong into bucket `b`, once each, and nothing else. */
  ghost predicate Represents(n: nat, b: nat, ps: seq<(nat, nat)>, m: map<nat, nat>)
    requires n > 0
  {
    (forall i, j | 0 <= i < j < |ps| :: ps[i].0 != ps[j].0) &&
    (forall i | 0 <= i < |ps| :: Bucket(n, ps[i].0) == b && ps[i].0 in m && m[ps[i].0] == ps[i].1) &&
    (forall k | k in m && Bucket(n, k) == b :: exists i | 0 <= i < |ps| :: ps[i].0 == k)
  }

  ghost predicate BucketOk(n: nat, b: nat, head: Node?, c: seq<Node>, m: map<nat, nat>)
    requires n > 0
    reads c
  {
    Linked(head, c) && Represents(n, b, Pairs(c), m)
  }

  lemma DistinctNodes(n: nat, b: nat, c: seq<Node>, m: map<nat, nat>)
    requires n > 0 && Represents(n, b, Pairs(c), m)
    ensures forall i, j | 0 <= i < j < |c| :: c[i] != c[j]
    ensures forall x | x in c :: Bucket(n, x.key) == b
  {
    hide Bucket, Pairs;
    var ps := Pairs(c);
    forall i, j | 0 <= i < j < |c| ensures c[i] != c[j] {
      assert ps[i].0 != ps[j].0;
    }
    forall x | x in c ensures Bucket(n, x.key) == b {
      var i :| 0 <= i < |c| && c[i] == x;
      assert ps[i] == (x.key, x.value);
    }
  }

  /** A change at one key does not concern the other buckets. */
  lemma RepresentsElsewhere(n: nat, b: nat, ps: seq<(nat, nat)>, m: map<nat, nat>, m': map<nat, nat>, key: nat)
    requires n > 0 && Represents(n, b, ps, m) && Bucket(n, key) != b
    requires m - {key} == m' - {key}
    ensures Represents(n, b, ps, m')
  {
    hide Bucket;
    assert forall k | k != key :: (k in m <==> k in m - {key}) && (k in m' <==> k in m' - {key});
    assert forall k | k != key && k in m :: k in m' && m[k] == (m - {key})[k] == m'[k];
  }

  lemma RepresentsPush(n: nat, b: nat, ps: seq<(nat, nat)>, m: map<nat, nat>, key: nat, value: nat)
    requires n > 0 && Represents(n, b, ps, m) && Bucket(n, key) == b && key !in m
    ensures Represents(n, b, [(key, value)] + ps, m[key := value])
  {
    hide Bucket;
    var ps', m' := [(key, value)] + ps, m[key := value];
    assert ps'[0].0 == key && forall i | 0 <= i < |ps| :: ps'[i + 1] == ps[i];
    assert forall i | 0 < i < |ps'| :: ps'[i] == ps[i - 1];
    forall k | k in m' && Bucket(n, k) == b ensures exists i | 0 <= i < |ps'| :: ps'[i].0 == k {
      if k != key {
        var i :| 0 <= i < |ps| && ps[i].0 == k;
        assert ps'[i + 1].0 == k;
      }
    }
  }

  lemma RepresentsRemove(n: nat, b: nat, ps: seq<(nat, nat)>, m: map<nat, nat>, i: nat)
    requires n > 0 && Represents(n, b, ps, m) && i < |ps|
    ensures Represents(n, b, ps[..i] + ps[i + 1..], m - {ps[i].0})
  {
    hide Bucket;
    var ps', m' := ps[..i] + ps[i + 1..], m - {ps[i].0};
    forall j | 0 <= j < |ps'|
      ensures ps'[j].0 != ps[i].0 && Bucket(n, ps'[j].0) == b && ps'[j].0 in m && m[ps'[j].0] == ps'[j].1
    {
      assert ps'[j] == ps[if j < i then j else j + 1];
    }
    forall j, l | 0 <= j < l < |ps'| ensures ps'[j].0 != ps'[l].0 {
      assert ps'[j] == ps[if j < i then j else j + 1] && ps'[l] == ps[if l < i then l else l + 1];
    }
    forall k | k in m' && Bucket(n, k) == b ensures exists j | 0 <= j < |ps'| :: ps'[j].0 == k {
      var j :| 0 <= j < |ps| && ps[j].0 == k;
      assert j != i && ps'[if j < i then j else j - 1] == ps[j];
    }
  }

  lemma RepresentsStore(n: nat, b: nat, ps: seq<(nat, nat)>, m: map<nat, nat>, i: nat, value: nat)
    requires n > 0 && Represents(n, b, ps, m) && i < |ps|
    ensures Represents(n, b, ps[i := (ps[i].0, value)], m[ps[i].0 := value])
  {
    hide Bucket;
    var ps' := ps[i := (ps[i].0, value)];
    assert forall j | 0 <= j < |ps| :: ps'[j].0 == ps[j].0;
    forall k | k in m && Bucket(n, k) == b ensures exists j | 0 <= j < |ps'| :: ps'[j].0 == k {
      var j :| 0 <= j < |ps| && ps[j].0 == k;
      assert ps'[j].0 == k;
    }
  }

  /** Keys that are not in the list of their bucket are not in the map. */
  lemma NotThere(n: nat, b: nat, ps: seq<(nat, nat)>, m: map<nat, nat>, key: nat)
    requires n > 0 && Represents(n, b, ps, m) && Bucket(n, key) == b
    requires forall j | 0 <= j < |ps| :: ps[j].0 != key
    ensures key !in m
  {
    hide Bucket;
  }

  lemma There(n: nat, b: nat, ps: seq<(nat, nat)>, m: map<nat, nat>, i: nat)
    requires n > 0 && Represents(n, b, ps, m) && i < |ps|
    ensures ps[i].0 in m && m[ps[i].0] == ps[i].1
  {
    hide Bucket;
  }

  // ---------- One bucket ----------

  method FindIn(n: nat, b: nat, head: Node?, ghost c: seq<Node>, ghost m: map<nat, nat>, key: nat)
    returns (node: Node?, ghost i: nat)
    requires n > 0 && BucketOk(n, b, head, c, m) && Bucket(n, key) == b
    ensures node == null <==> key !in m
    ensures node != null ==> i < |c| && c[i] == node && node.key == key && node.value == m[key]
  {
    hide Bucket, Represents, Pairs;
    node, i := head, 0;
    while node != null && node.key != key
      invariant i <= |c| && node == (if i == |c| then null else c[i])
      invariant forall j | 0 <= j < i :: Pairs(c)[j].0 != key
      decreases |c| - i
    {
      assert Pairs(c)[i] == (node.key, node.value);
      assert c[i].next == (if i == |c| - 1 then null else c[i + 1]);
      node, i := node.next, i + 1;
    }
    if node == null {
      NotThere(n, b, Pairs(c), m, key);
    } else {
      assert Pairs(c)[i] == (node.key, node.value);
      There(n, b, Pairs(c), m, i);
    }
  }

  method PushFront(n: nat, b: nat, head: Node?, ghost c: seq<Node>, ghost m: map<nat, nat>, node: Node)
    requires n > 0 && BucketOk(n, b, head, c, m)
    requires node !in c && node.prev == null && node.next == null
    requires Bucket(n, node.key) == b && node.key !in m
    modifies node`next, if c == [] then {} else {c[0]}`prev
    ensures BucketOk(n, b, node, [node] + c, m[node.key := node.value])
  {
    hide Bucket, Represents;
    DistinctNodes(n, b, c, m);
    RepresentsPush(n, b, Pairs(c), m, node.key, node.value);
    if head != null {
      node.next := head;
      head.prev := node;
    }
    LinkedPush(head, c, node);
    assert Pairs([node] + c) == [(node.key, node.value)] + old(Pairs(c));
  }

  lemma LinkedPush(head: Node?, c: seq<Node>, node: Node)
    requires node.prev == null && node.next == head && head == (if c == [] then null else c[0])
    requires forall i {:trigger c[i].prev} | 0 <= i < |c| :: c[i].prev == if i == 0 then node else c[i - 1]
    requires forall i {:trigger c[i].next} | 0 <= i < |c| :: c[i].next == if i == |c| - 1 then null else c[i + 1]
    ensures Linked(node, [node] + c)
  {
    var c' := [node] + c;
    forall i | 0 <= i < |c'|
      ensures c'[i].prev == (if i == 0 then null else c'[i - 1])
      ensures c'[i].next == (if i == |c'| - 1 then null else c'[i + 1])
    {
      assert i > 0 ==> c'[i] == c[i - 1];
      assert i > 1 ==> c'[i - 1] == c[i - 2];
      assert i < |c| ==> c'[i + 1] == c[i];
    }
  }

  method Unlink(n: nat, b: nat, head: Node?, ghost c: seq<Node>, ghost m: map<nat, nat>, node: Node, ghost i: nat)
    returns (newHead: Node?)
    requires n > 0 && BucketOk(n, b, head, c, m) && i < |c| && c[i] == node
    modifies set x | x in c :: x`prev, set x | x in c :: x`next
    ensures BucketOk(n, b, newHead, c[..i] + c[i + 1..], m - {node.key})
  {
    hide Bucket, Represents, Pairs;
    DistinctNodes(n, b, c, m);
    RepresentsRemove(n, b, Pairs(c), m, i);
    newHead := head;
    assert c[i].prev == (if i == 0 then null else c[i - 1]);
    assert c[i].next == (if i == |c| - 1 then null else c[i + 1]);
    if node.prev != null {
      node.prev.next := node.next;
    } else {
      newHead := node.next;
    }
    if node.next != null { node.next.prev := node.prev; }
    LinkedRemove(newHead, c, i);
    assert Pairs(c[..i] + c[i + 1..]) == old(Pairs(c))[..i] + old(Pairs(c))[i + 1..];
  }

  lemma LinkedRemove(head: Node?, c: seq<Node>, i: nat)
    requires i < |c| && head == (if i > 0 then c[0] else if |c| > 1 then c[1] else null)
    requires forall j {:trigger c[j].prev} | 0 <= j < |c| && j != i ::
               c[j].prev == if j == 0 || (j == 1 && i == 0) then null else if j == i + 1 then c[i - 1] else c[j - 1]
    requires forall j {:trigger c[j].next} | 0 <= j < |c| && j != i ::
               c[j].next == if j == |c| - 1 || (j == |c| - 2 && i == |c| - 1) then null
                            else if j + 1 == i then c[i + 1] else c[j + 1]
    ensures Linked(head, c[..i] + c[i + 1..])
  {
    var c' := c[..i] + c[i + 1..];
    forall j | 0 <= j < |c'|
      ensures c'[j].prev == (if j == 0 then null else c'[j - 1])
      ensures c'[j].next == (if j == |c'| - 1 then null else c'[j + 1])
    {
      var was := if j < i then j else j + 1;
      assert c'[j] == c[was];
      assert j > 0 ==> c'[j - 1] == c[if j - 1 < i then j - 1 else j];
      assert j + 1 < |c'| ==> c'[j + 1] == c[if j + 1 < i then j + 1 else j + 2];
    }
  }

  method WriteValue(n: nat, b: nat, head: Node?, ghost c: seq<Node>, ghost m: map<nat, nat>, entry: Node, value: nat)
    requires n > 0 && BucketOk(n, b, head, c, m) && entry in c
    modifies entry`value
    ensures BucketOk(n, b, head, c, m[entry.key := value])
  {
    hide Bucket, Represents, Pairs;
    ghost var i, was := IndexOf(c, entry), Pairs(c);
    DistinctNodes(n, b, c, m);
    RepresentsStore(n, b, was, m, i, value);
    entry.value := value;
    SamePairs(c, was[i := (entry.key, value)]);
  }

  ghost function IndexOf(c: seq<Node>, x: Node): (i: nat)
    requires x in c
    ensures i < |c| && c[i] == x
  {
    var i :| 0 <= i < |c| && c[i] == x;
    i
  }

  lemma SamePairs(c: seq<Node>, ps: seq<(nat, nat)>)
    requires |ps| == |c| && forall j | 0 <= j < |c| :: ps[j] == (c[j].key, c[j].value)
    ensures ps == Pairs(c)
  {
  }

  // ---------- The table ----------

  class Hash {
    const nodes: array<Node?>
    ghost var chains: seq<seq<Node>>
    ghost var contents: map<nat, nat>
    ghost var repr: set<object>

    ghost predicate Valid()
      reads this, repr
      ensures Valid() ==> this in repr && nodes in repr
    {
      this in repr && nodes in repr && |chains| == nodes.Length > 0 &&
      (forall b | 0 <= b < |chains| :: forall x | x in chains[b] :: x in repr) &&
      (forall b | 0 <= b < |chains| :: BucketOk(nodes.Length, b, nodes[b], chains[b], contents))
    }

    /** `hash_alloc`. */
    constructor (buckets: nat)
      requires buckets > 0
      ensures Valid() && fresh(repr) && contents == map[] && nodes.Length == buckets
    {
      nodes := new Node?[buckets](_ => null);
      chains := seq(buckets, _ => []);
      contents := map[];
      new;
      repr := {this, nodes};
    }

    /** `entry` is one of the table's own nodes. */
    ghost predicate Holds(entry: Node)
      requires Valid()
      reads this, repr
    {
      entry in chains[Bucket(nodes.Length, entry.key)]
    }

    /** `hash_lookup_entry`: the C function points at the value, here at the node that holds it. */
    method Lookup(key: nat) returns (entry: Node?)
      requires Valid()
      ensures entry == null <==> key !in contents
      ensures entry != null ==> Holds(entry) && entry.key == key && entry.value == contents[key]
    {
      var b := Bucket(nodes.Length, key);
      ghost var i;
      entry, i := FindIn(nodes.Length, b, nodes[b], chains[b], contents, key);
    }

    /** A bucket shares no node with another one. */
    lemma Apart(b: nat)
      requires Valid() && b < |chains|
      ensures forall b', x | 0 <= b' < |chains| && b' != b && x in chains[b] :: x !in chains[b']
      ensures forall x | x in chains[b] :: Bucket(nodes.Length, x.key) == b
    {
      hide Bucket, Linked, Represents;
      forall b' | 0 <= b' < |chains|
        ensures forall x | x in chains[b'] :: Bucket(nodes.Length, x.key) == b'
      {
        DistinctNodes(nodes.Length, b', chains[b'], contents);
      }
    }

    /** Buckets whose nodes are untouched stand, since the map changes in bucket `b` only. */
    lemma OthersStand(b: nat, m: map<nat, nat>, key: nat)
      requires |chains| == nodes.Length && b < |chains| && Bucket(nodes.Length, key) == b
      requires m - {key} == contents - {key}
      requires forall b' | 0 <= b' < |chains| && b' != b :: BucketOk(nodes.Length, b', nodes[b'], chains[b'], m)
      ensures forall b' | 0 <= b' < |chains| && b' != b :: BucketOk(nodes.Length, b', nodes[b'], chains[b'], contents)
    {
      hide Bucket, Represents, Linked;
      forall b' | 0 <= b' < |chains| && b' != b
        ensures BucketOk(nodes.Length, b', nodes[b'], chains[b'], contents)
      {
        RepresentsElsewhere(nodes.Length, b', Pairs(chains[b']), m, contents, key);
      }
    }

    /** A caller writes through the pointer that `hash_lookup_entry` gave. */
    method Store(entry: Node, value: nat)
      requires Valid() && Holds(entry)
      modifies entry`value, this`contents
      ensures Valid() && contents == old(contents)[entry.key := value] && repr == old(repr)
    {
      hide Bucket, BucketOk;
      var n, b := nodes.Length, Bucket(nodes.Length, entry.key);
      Apart(b);
      ghost var m := contents;
      WriteValue(n, b, nodes[b], chains[b], m, entry, value);
      contents := m[entry.key := value];
      OthersStand(b, m, entry.key);
    }

    /** `hash_add_entry`: a duplicate changes nothing. */
    method Add(key: nat, value: nat)
      requires Valid()
      modifies repr
      ensures Valid() && fresh(repr - old(repr))
      ensures contents == if key in old(contents) then old(contents) else old(contents)[key := value]
    {
      hide Bucket, BucketOk;
      var entry := Lookup(key);
      if entry != null { return; }
      var node := new Node(key, value);
      var n, b := nodes.Length, Bucket(nodes.Length, key);
      ghost var c, m := chains[b], contents;
      Apart(b);
      assert c != [] ==> c[0] in chains[b];
      PushFront(n, b, nodes[b], c, m, node);
      nodes[b] := node;
      chains := chains[b := [node] + c];
      contents := m[key := value];
      repr := repr + {node};
      OthersStand(b, m, key);
    }

    /** `hash_free_entry`: head, middle or tail, exactly this key goes. */
    method Free(key: nat)
      requires Valid()
      modifies repr
      ensures Valid() && repr == old(repr)
      ensures contents == old(contents) - {key}
    {
      hide Bucket, BucketOk;
      var n, b := nodes.Length, Bucket(nodes.Length, key);
      ghost var c, m := chains[b], contents;
      var node, i := FindIn(n, b, nodes[b], c, m, key);
      if node == null { return; }
      Apart(b);
      var head := Unlink(n, b, nodes[b], c, m, node, i);
      nodes[b] := head;
      chains := chains[b := c[..i] + c[i + 1..]];
      contents := m - {key};
      OthersStand(b, m, key);
    }
  }
}
