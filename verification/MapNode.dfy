/** The linked-list nodes of the hash table, and the ordered container that a pair of
    long buckets shares.  A node owns one key, which never changes, and one value. */
module MapNode {

  /** Keys are compared with `==` and `<`, like the integer keys of a map field. */
  type Key = int

  /** Values are only stored and copied. */
  type Value(==, 0, !new)

  class Node {
    const key: Key
    var value: Value
    var next: Node?

    constructor (key: Key, value: Value)
      ensures this.key == key && this.value == value && next == null
    {
      this.key, this.value, this.next := key, value, null;
    }
  }

  /** Strictly increasing keys. */
  ghost predicate Ordered(ns: seq<Node>) {
    forall i, j | 0 <= i < j < |ns| :: ns[i].key < ns[j].key
  }

  /** Where `n` goes among `ns`: before the first node whose key is not smaller. */
  function InsertOrdered(ns: seq<Node>, n: Node): (r: seq<Node>) {
    if ns == [] || n.key < ns[0].key then [n] + ns
    else if n.key == ns[0].key then ns
    else [ns[0]] + InsertOrdered(ns[1..], n)
  }

  /** The nodes of `r` are those of `ns` and `n`. */
  ghost predicate Adds(r: seq<Node>, ns: seq<Node>, n: Node) {
    && n in r
    && (forall i | 0 <= i < |r| :: r[i] == n || r[i] in ns)
    && (forall i | 0 <= i < |ns| :: ns[i] in r)
  }

  lemma {:induction false} InsertOrderedAdds(ns: seq<Node>, n: Node)
    requires forall i | 0 <= i < |ns| :: ns[i].key != n.key
    ensures Adds(InsertOrdered(ns, n), ns, n)
  {
    var r := InsertOrdered(ns, n);
    if ns == [] || n.key < ns[0].key {
      assert r[0] == n && r[1..] == ns;
      forall i | 0 <= i < |ns| ensures ns[i] in r { assert r[i + 1] == ns[i]; }
    } else {
      InsertOrderedAdds(ns[1..], n);
      assert r == ns[..1] + InsertOrdered(ns[1..], n);
      assert ns == ns[..1] + ns[1..];
    }
  }

  lemma {:induction false} InsertOrderedKeepsOrder(ns: seq<Node>, n: Node)
    requires Ordered(ns) && forall i | 0 <= i < |ns| :: ns[i].key != n.key
    ensures Ordered(InsertOrdered(ns, n))
  {
    if ns != [] && ns[0].key < n.key {
      var rest := InsertOrdered(ns[1..], n);
      InsertOrderedKeepsOrder(ns[1..], n);
      InsertOrderedAdds(ns[1..], n);
      forall i | 0 <= i < |rest| ensures ns[0].key < rest[i].key {
        if rest[i] != n { assert rest[i] in ns[1..]; }
      }
    }
  }

  /** Inserting the nodes `c` one after the other. */
  ghost function InsertAll(ns: seq<Node>, c: seq<Node>): (r: seq<Node>) {
    if c == [] then ns
    else InsertOrdered(InsertAll(ns, c[..|c| - 1]), c[|c| - 1])
  }

  /** No key occurs in both, or twice in `c`. */
  ghost predicate NewKeys(ns: seq<Node>, c: seq<Node>) {
    && (forall i, j | 0 <= i < j < |c| :: c[i].key != c[j].key)
    && (forall i, j | 0 <= i < |c| && 0 <= j < |ns| :: c[i].key != ns[j].key)
  }

  lemma {:induction false} InsertAllAdds(ns: seq<Node>, c: seq<Node>)
    requires Ordered(ns) && NewKeys(ns, c)
    ensures Ordered(InsertAll(ns, c))
    ensures forall i | 0 <= i < |ns| :: ns[i] in InsertAll(ns, c)
    ensures forall i | 0 <= i < |c| :: c[i] in InsertAll(ns, c)
    ensures forall i | 0 <= i < |InsertAll(ns, c)| :: InsertAll(ns, c)[i] in ns || InsertAll(ns, c)[i] in c
  {
    hide InsertOrdered;
    if c != [] {
      var front, n := c[..|c| - 1], c[|c| - 1];
      var ms := InsertAll(ns, front);
      assert c == front + [n];
      InsertAllAdds(ns, front);
      forall i | 0 <= i < |ms| ensures ms[i].key != n.key {
        assert ms[i] in ns || ms[i] in front;
      }
      InsertOrderedAdds(ms, n);
      InsertOrderedKeepsOrder(ms, n);
      forall i | 0 <= i < |c| ensures c[i] in InsertAll(ns, c) {
        if i < |front| { assert c[i] == front[i]; assert front[i] in ms; }
      }
      forall i | 0 <= i < |ns| ensures ns[i] in InsertAll(ns, c) {
        assert ns[i] in ms;
      }
    }
  }

  /** The nodes `c` without the one at position `i`. */
  function Without(c: seq<Node>, i: nat): (r: seq<Node>)
    requires i < |c|
    ensures |r| == |c| - 1 && forall j | 0 <= j < |r| :: r[j] == c[if j < i then j else j + 1]
  {
    c[..i] + c[i + 1..]
  }

  /** `std::set<Key*, KeyCompare>`: the nodes of one pair of buckets, in key order. */
  class Tree {
    var nodes: seq<Node>

    constructor ()
      ensures nodes == []
    {
      nodes := [];
    }

    /** The position of key `k`, or the end position when it is absent. */
    method Find(k: Key) returns (at: nat)
      requires Ordered(nodes)
      ensures at <= |nodes|
      ensures at < |nodes| ==> nodes[at].key == k
      ensures at == |nodes| ==> forall i | 0 <= i < |nodes| :: nodes[i].key != k
    {
      var hi := |nodes|;
      at := 0;
      while at < hi
        invariant at <= hi <= |nodes|
        invariant forall i | 0 <= i < at :: nodes[i].key < k
        invariant forall i | hi <= i < |nodes| :: k <= nodes[i].key
      {
        var mid := (at + hi) / 2;
        if nodes[mid].key < k { at := mid + 1; } else { hi := mid; }
      }
      if at < |nodes| && nodes[at].key != k { at := |nodes|; }
    }

    method Insert(n: Node)
      modifies this
      ensures nodes == InsertOrdered(old(nodes), n)
    {
      nodes := InsertOrdered(nodes, n);
    }

    method EraseAt(at: nat)
      requires at < |nodes|
      modifies this
      ensures nodes == Without(old(nodes), at)
    {
      nodes := Without(nodes, at);
    }
  }
}
