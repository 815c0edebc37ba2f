/** Emptying a hash table: every node is destroyed once, and not used afterwards.  Links are followed,
    and nodes destroyed, only by methods that demand that the node is not destroyed yet. */
module MapClear {
  import opened MapNode
  import opened LoadFactor
  import opened TableShape
  import opened TraversalOrder
  import opened InnerHashMap
  import opened MapIterator

  ghost predicate NoneTwice(ns: seq<Node>) {
    forall i, j | 0 <= i < j < |ns| :: ns[i] != ns[j]
  }

  /** Follows the link of a node; those that are `gone` must not be used any more. */
  method NextOf(node: Node, ghost gone: seq<Node>) returns (next: Node?)
    requires node !in gone
    ensures next == node.next
  {
    next := node.next;
  }

  /** Destroys a node, after those that are `gone`. */
  ghost method Destroy(node: Node, gone: seq<Node>) returns (all: seq<Node>)
    requires node !in gone
    ensures all == gone + [node]
  {
    all := gone + [node];
  }

  /** Destroys the nodes of the list that starts at `head`, after those that are `gone`. */
  method DestroyList(head: Node, ghost c: seq<Node>, ghost gone: seq<Node>) returns (ghost all: seq<Node>)
    requires Linked(c) && c != [] && c[0] == head && NoneTwice(gone + c)
    ensures all == gone + c
  {
    var node: Node? := head;
    all := gone;
    ghost var i := 0;
    while node != null
      invariant i <= |c| && node == NodeAt(c, i) && all == gone + c[..i]
      decreases |c| - i
    {
      StillThere(c, gone, i);
      var next := NextOf(node, all);
      all := Destroy(node, all);
      node := next;
      i := i + 1;
    }
  }

  /** Destroys the nodes of a tree, after those that are `gone`. */
  method DestroyTree(tree: Tree, ghost gone: seq<Node>) returns (ghost all: seq<Node>)
    requires tree.nodes != [] && NoneTwice(gone + tree.nodes)
    modifies tree
    ensures all == gone + old(tree.nodes)
  {
    all := gone;
    ghost var c, i := tree.nodes, 0;
    while tree.nodes != []
      invariant i <= |c| && tree.nodes == c[i..] && all == gone + c[..i]
      decreases |tree.nodes|
    {
      StillThere(c, gone, i);
      var node := tree.nodes[0];
      tree.EraseAt(0);
      all := Destroy(node, all);
      i := i + 1;
    }
  }

  /** A node of `c` is not among those that have been destroyed before it. */
  lemma StillThere(c: seq<Node>, gone: seq<Node>, i: nat)
    requires NoneTwice(gone + c) && i < |c|
    ensures c[i] !in gone + c[..i]
    ensures gone + c[..i + 1] == gone + c[..i] + [c[i]]
  {
    assert (gone + c)[|gone| + i] == c[i];
    forall j | 0 <= j < |gone + c[..i]| ensures (gone + c[..i])[j] != c[i] {
      assert (gone + c)[j] == (gone + c[..i])[j];
    }
  }

  /** What the pointer comparisons say of bucket `b`, and what lies in its pair. */
  ghost predicate Tells(entries: seq<object?>, cs: seq<seq<Node>>, ts: seq<Tree?>, b: nat)
    requires |entries| == |cs| == |ts| && b < |ts|
  {
    && Buddy(b) < |ts|
    && (ts[b] != null <==> entries[b] != null && entries[b] == entries[Buddy(b)])
    && (ts[b] == null && cs[b] != [] <==> entries[b] != null && entries[b] != entries[Buddy(b)])
    && (ts[b] != null && b % 2 == 0 ==> ts[b + 1] == ts[b] && cs[b + 1] == [] && cs[b] != [])
    && (ts[b] != null ==> forall a | 0 <= a < |ts| && EvenOf(a) != EvenOf(b) :: ts[a] != ts[b])
  }

  /** The entries of a table. */
  ghost predicate Layout(entries: seq<object?>, cs: seq<seq<Node>>, ts: seq<Tree?>, own: set<Tree>) {
    && |entries| == |cs| == |ts| && |ts| % 2 == 0 && NoneTwice(Order(cs))
    && (forall b | 0 <= b < |ts| :: Tells(entries, cs, ts, b))
    && (forall b | 0 <= b < |ts| && ts[b] != null :: ts[b] in own)
  }

  lemma BucketTells(m: InnerMap, b: nat)
    requires m.Consistent() && b < m.numBuckets
    ensures m.numBuckets == |m.table[..]| == |m.chains| == |m.trees| && Tells(m.table[..], m.chains, m.trees, b)
    ensures m.trees[b] != null ==> m.trees[b] in m.ownTrees
  {
    hide Slot, Shaped, Stores, SameNodes;
    m.Sizes();
    m.Discriminates(b);
    if m.trees[b] != null { m.TreeHolds(b); m.TreesDiffer(b); }
  }

  lemma LayoutHolds(m: InnerMap)
    requires m.Consistent()
    ensures Layout(m.table[..], m.chains, m.trees, m.ownTrees) && Lists(OrderOf(m), m.where)
    ensures m.numBuckets == |m.chains| && IsTableSize(m.numBuckets) && forall k :: m.home(k) < m.numBuckets
  {
    hide InnerMap.Consistent, Tells, Slot, BucketShaped;
    m.Sizes();
    forall b | 0 <= b < m.numBuckets
      ensures Tells(m.table[..], m.chains, m.trees, b) && (m.trees[b] != null ==> m.trees[b] in m.ownTrees)
    {
      BucketTells(m, b);
    }
    ShapeOf(m);
    OrderLists(m.home, m.chains, m.trees, m.where);
  }

  /** The buckets before `b` are empty; the others are as they were. */
  ghost predicate Remains(table: array<object?>, entries: seq<object?>, cs: seq<seq<Node>>, ts: seq<Tree?>, own: set<Tree>, b: nat)
    reads table
  {
    && Layout(entries, cs, ts, own) && table.Length == |entries| == |cs| == |ts| && b <= |ts|
    && (forall a | 0 <= a < b :: table[a] == null)
    && (forall a | b <= a < |ts| :: table[a] == entries[a])
    && (b < |ts| && b % 2 == 1 ==> ts[b] == null)
  }

  /** The comparisons still say the same of bucket `b`, though its buddy may be empty by now. */
  lemma StillTells(table: array<object?>, entries: seq<object?>, cs: seq<seq<Node>>, ts: seq<Tree?>, own: set<Tree>, b: nat)
    requires Remains(table, entries, cs, ts, own, b) && b < |ts|
    ensures Buddy(b) < |ts| && NoneTwice(Upto(cs, b) + cs[b])
    ensures EntryIsTree(table, b) <==> ts[b] != null
    ensures EntryIsNonEmptyList(table, b) <==> ts[b] == null && cs[b] != []
    ensures Upto(cs, b + 1) == Upto(cs, b) + cs[b]
    ensures ts[b] != null ==> b % 2 == 0 && ts[b + 1] == ts[b] && Upto(cs, b + 2) == Upto(cs, b) + cs[b]
  {
    assert Tells(entries, cs, ts, b);
    UptoPrefix(cs, b + 1, |cs|);
    var u := Upto(cs, b + 1);
    forall i, j | 0 <= i < j < |u| ensures u[i] != u[j] {
      assert u[i] == Order(cs)[i] && u[j] == Order(cs)[j];
    }
    if ts[b] != null { assert cs[b + 1] == []; }
  }

  /** The list of bucket `b` goes. */
  method ClearList(table: array<object?>, ghost entries: seq<object?>, ghost cs: seq<seq<Node>>, ghost ts: seq<Tree?>,
                   ghost own: set<Tree>, b: nat, ghost gone: seq<Node>) returns (ghost all: seq<Node>)
    requires Remains(table, entries, cs, ts, own, b) && b < |ts| && gone == Upto(cs, b)
    requires ts[b] == null && cs[b] != [] && Stores(entries[b], b, cs[b], null)
    modifies table
    ensures Remains(table, entries, cs, ts, own, b + 1) && all == Upto(cs, b + 1)
  {
    hide Layout;
    StillTells(table, entries, cs, ts, own, b);
    var node := table[b] as Node;
    table[b] := null;
    all := DestroyList(node, cs[b], gone);
    EvenPair(entries, cs, ts, own, b);
  }

  /** The tree of the pair of buckets at `b` goes. */
  method ClearTree(table: array<object?>, ghost entries: seq<object?>, ghost cs: seq<seq<Node>>, ghost ts: seq<Tree?>,
                   ghost own: set<Tree>, b: nat, ghost gone: seq<Node>) returns (ghost all: seq<Node>)
    requires Remains(table, entries, cs, ts, own, b) && b < |ts| && gone == Upto(cs, b)
    requires ts[b] != null && Stores(entries[b], b, cs[b], ts[b])
    modifies table, ts[b]
    ensures Remains(table, entries, cs, ts, own, b + 2) && all == Upto(cs, b + 2)
  {
    hide Layout;
    StillTells(table, entries, cs, ts, own, b);
    EvenPair(entries, cs, ts, own, b);
    var tree := table[b] as Tree;
    table[b], table[b + 1] := null, null;
    all := DestroyTree(tree, gone);
  }

  /** After an even bucket without a tree comes one without a tree; pairs of buckets do not
      share trees. */
  lemma EvenPair(entries: seq<object?>, cs: seq<seq<Node>>, ts: seq<Tree?>, own: set<Tree>, b: nat)
    requires Layout(entries, cs, ts, own) && b < |ts|
    ensures b % 2 == 0 && ts[b] == null ==> b + 1 < |ts| && ts[b + 1] == null
    ensures b % 2 == 0 && ts[b] != null ==> b + 1 < |ts| && cs[b] != [] && forall a | b + 2 <= a < |ts| :: ts[a] != ts[b]
  {
    assert Tells(entries, cs, ts, b);
    if b % 2 == 0 { assert Tells(entries, cs, ts, b + 1); }
  }

  /** Destroys all nodes, bucket after bucket. */
  method Clear(m: InnerMap) returns (ghost gone: seq<Node>)
    requires m.Valid()
    modifies m, m.table, m.ownTrees
    ensures m.Valid() && m.where == map[] && m.numBuckets == old(m.numBuckets)
    ensures gone == old(OrderOf(m)) && Lists(gone, old(m.where))
  {
    hide Layout, Lists, InnerMap.FirstIsExact, Shaped;
    LayoutHolds(m);
    gone := ClearBuckets(m, m.table[..], m.chains, m.trees, m.ownTrees);
    m.numElements := 0;
    m.firstNonNull := m.numBuckets;
    Forget(m);
  }

  method ClearBuckets(m: InnerMap, ghost entries: seq<object?>, ghost cs: seq<seq<Node>>, ghost ts: seq<Tree?>,
                      ghost own: set<Tree>) returns (ghost gone: seq<Node>)
    requires m.numBuckets == m.table.Length == |ts| == |cs| && entries == m.table[..] && Layout(entries, cs, ts, own)
    requires forall a | 0 <= a < |ts| :: Stores(entries[a], a, cs[a], ts[a])
    modifies m.table, own
    ensures forall a | 0 <= a < m.numBuckets :: m.table[a] == null
    ensures gone == Order(cs)
  {
    hide Layout, Stores;
    gone := [];
    var b := 0;
    while b < m.numBuckets
      invariant b <= m.numBuckets && Remains(m.table, entries, cs, ts, own, b) && gone == Upto(cs, b)
      invariant forall a | b <= a < |ts| :: Stores(entries[a], a, cs[a], ts[a])
    {
      StillTells(m.table, entries, cs, ts, own, b);
      EvenPair(entries, cs, ts, own, b);
      if EntryIsNonEmptyList(m.table, b) {
        gone := ClearList(m.table, entries, cs, ts, own, b, gone);
      } else if EntryIsTree(m.table, b) {
        InOwn(entries, cs, ts, own, b);
        gone := ClearTree(m.table, entries, cs, ts, own, b, gone);
        b := b + 1;
      } else {
        assert cs[b] == [] && m.table[b] == null && Upto(cs, b) + cs[b] == Upto(cs, b);
      }
      b := b + 1;
    }
  }

  lemma InOwn(entries: seq<object?>, cs: seq<seq<Node>>, ts: seq<Tree?>, own: set<Tree>, b: nat)
    requires Layout(entries, cs, ts, own) && b < |ts| && ts[b] != null
    ensures ts[b] in own
  {
  }

  /** An empty table stands for the empty map. */
  ghost method Forget(m: InnerMap)
    requires m.numBuckets == m.table.Length == m.firstNonNull && IsTableSize(m.numBuckets) && m.numElements == 0
    requires (forall k :: m.home(k) < m.numBuckets) && m.Hashes(m.home, m.numBuckets)
    requires m.numBuckets <= MAX_TABLE_SIZE && forall b | 0 <= b < m.numBuckets :: m.table[b] == null
    modifies m`chains, m`trees, m`where, m`nodes, m`ownTrees
    ensures m.Valid() && m.where == map[]
  {
    hide m.Hashes;
    var n := m.numBuckets;
    m.chains, m.trees, m.where, m.nodes, m.ownTrees := NoNodes(n), NoTrees(n), map[], {}, {};
    EmptyShaped(m.home, n);
  }
}
