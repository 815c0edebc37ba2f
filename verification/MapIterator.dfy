/** Iterators over a hash table.  The node is always right; the bucket may be stale, and is
    repaired when it is needed. */
module MapIterator {
  import opened MapNode
  import opened Arithmetic
  import opened LoadFactor
  import opened TableShape
  import opened TraversalOrder
  import opened InnerHashMap

  /** The order in which iterators meet the nodes of `m`. */
  ghost function OrderOf(m: InnerMap): (r: seq<Node>)
    reads m
  {
    Order(m.chains)
  }

  /** The one place of a node in the order, from its place in its bucket. */
  lemma PlaceOf(m: InnerMap, n: Node) returns (b: nat, i: nat)
    requires m.Consistent() && n in m.nodes
    ensures b == Slot(m.home, m.trees, n.key) < m.numBuckets == |m.chains| == |m.trees|
    ensures i < |m.chains[b]| && m.chains[b][i] == n
    ensures OnlyAt(OrderOf(m), |Upto(m.chains, b)| + i, n)
  {
    hide Slot, BucketShaped;
    b, i := m.WhereIs(n.key);
    OrderAt(m.chains, b, i);
    OrderLists(m.home, m.chains, m.trees, m.where);
  }

  class Iterator {
    const m: InnerMap
    var node: Node?
    var bucketIndex: nat

    /** The node belongs to the table.  Nothing is known of the bucket. */
    ghost predicate Live()
      reads `node, m, m.table, m.nodes`next, m.ownTrees
    {
      m.Consistent() && node != null && node in m.nodes
    }

    constructor At(m: InnerMap, node: Node?, bucketIndex: nat)
      ensures this.m == m && this.node == node && this.bucketIndex == bucketIndex
    {
      this.m, this.node, this.bucketIndex := m, node, bucketIndex;
    }

    constructor Begin(m: InnerMap)
      requires m.Consistent() && m.FirstIsExact()
      ensures this.m == m && node == NodeAt(OrderOf(m), 0)
    {
      this.m, this.node, this.bucketIndex := m, null, 0;
      new;
      m.FirstIsNotOddHalf();
      UptoEmpty(m.chains, 0, m.firstNonNull);
      SearchFrom(m.firstNonNull);
    }

    /** Finds the first node in bucket `start` or after it. */
    method SearchFrom(start: nat)
      requires m.Consistent() && start <= m.numBuckets == |m.chains| == |m.trees|
      requires start < m.numBuckets && start % 2 == 1 ==> m.trees[start] == null
      modifies this
      ensures node == NodeAt(OrderOf(m), |Upto(m.chains, start)|)
      ensures node != null ==> bucketIndex == Slot(m.home, m.trees, node.key)
    {
      hide m.Consistent, Slot, EntryIsTree;
      m.Sizes();
      node := null;
      bucketIndex := start;
      while bucketIndex < m.numBuckets
        invariant start <= bucketIndex <= m.numBuckets && node == null
        invariant bucketIndex < m.numBuckets && bucketIndex % 2 == 1 ==> m.trees[bucketIndex] == null
        invariant forall x | start <= x < bucketIndex :: m.chains[x] == []
      {
        m.Discriminates(bucketIndex);
        if EntryIsNonEmptyList(m.table, bucketIndex) {
          m.ListHolds(bucketIndex);
          node := m.table[bucketIndex] as Node;
          break;
        } else if EntryIsTree(m.table, bucketIndex) {
          m.TreeHolds(bucketIndex);
          var tree := m.table[bucketIndex] as Tree;
          node := tree.nodes[0];
          break;
        }
        bucketIndex := bucketIndex + 1;
      }
      UptoEmpty(m.chains, start, bucketIndex);
      if bucketIndex < m.numBuckets { OrderAt(m.chains, bucketIndex, 0); }
    }

    /** Makes `bucketIndex` the bucket that holds the node, whatever it was.  Returns whether
        that is a list, and the place of the node if it is a tree. */
    method RevalidateIfNecessary() returns (isList: bool, at: nat)
      requires Live()
      modifies `bucketIndex
      ensures bucketIndex == Slot(m.home, m.trees, node.key) < |m.trees|
      ensures isList <==> m.trees[bucketIndex] == null
      ensures !isList ==> bucketIndex % 2 == 0
      ensures !isList ==> at < |m.trees[bucketIndex].nodes| && m.trees[bucketIndex].nodes[at] == node
    {
      hide m.Consistent, Slot, EntryIsTree;
      m.Sizes();
      MaskIsRemainder(bucketIndex, m.numBuckets);
      bucketIndex, at := BitAnd(bucketIndex, m.numBuckets - 1), 0;
      m.Discriminates(bucketIndex);
      if m.table[bucketIndex] == node {
        m.HeadIsListed(bucketIndex, node);
        return true, 0;
      }
      if EntryIsNonEmptyList(m.table, bucketIndex) {
        m.ListHolds(bucketIndex);
        ghost var c, i := m.chains[bucketIndex], 0;
        var l := m.table[bucketIndex] as Node;
        while l.next != null
          invariant i < |c| && l == c[i]
          decreases |c| - i
        {
          l, i := l.next, i + 1;
          if l == node { return true, 0; }
        }
      }
      var found, b;
      found, b, at := m.FindHelper(node.key);
      m.NodeIsNamed(node);
      bucketIndex := b;
      m.Discriminates(b);
      m.SlotInRange(node.key);
      isList := !EntryIsTree(m.table, b);
    }

    /** `operator++` */
    method Next()
      requires Live()
      modifies this
      ensures Follows(OrderOf(m), old(node), node)
    {
      hide m.Consistent, Slot, Follows, OnlyAt;
      m.Sizes();
      ghost var b, i := PlaceOf(m, node);
      if node.next == null {
        NextBucket(b, i);
      } else {
        m.LinksHold(b, i);
        node := node.next;
        OrderAt(m.chains, b, i + 1);
      }
      FollowsAt(OrderOf(m), |Upto(m.chains, b)| + i, old(node), node);
    }

    /** The part of `operator++` for a node without a successor in a list. */
    method NextBucket(ghost b: nat, ghost i: nat)
      requires Live() && node.next == null
      requires b == Slot(m.home, m.trees, node.key) < m.numBuckets == |m.chains| == |m.trees|
      requires i < |m.chains[b]| && OnlyAt(OrderOf(m), |Upto(m.chains, b)| + i, node)
      requires m.chains[b][i] == node
      modifies this
      ensures node == NodeAt(OrderOf(m), |Upto(m.chains, b)| + i + 1)
    {
      hide m.Consistent, Slot;
      m.Sizes();
      AfterBucket(m, b);
      if m.trees[b] == null { m.LinksHold(b, i); } else { m.TreeHolds(b); }
      var isList, at := RevalidateIfNecessary();
      if isList {
        SearchFrom(bucketIndex + 1);
      } else {
        var tree := m.table[bucketIndex] as Tree;
        OrderAt(m.chains, b, at);
        at := at + 1;
        if at == |tree.nodes| {
          SearchFrom(bucketIndex + 2);
        } else {
          OrderAt(m.chains, b, at);
          node := tree.nodes[at];
        }
      }
    }
  }

  /** Where the search goes on after bucket `b`. */
  lemma AfterBucket(m: InnerMap, b: nat)
    requires m.Consistent() && b < m.numBuckets == |m.chains| == |m.trees|
    ensures |Upto(m.chains, b + 1)| == |Upto(m.chains, b)| + |m.chains[b]|
    ensures b % 2 == 0 ==> b + 1 < m.numBuckets && m.trees[b + 1] == m.trees[b]
    ensures b % 2 == 0 && m.trees[b] != null ==> Upto(m.chains, b + 2) == Upto(m.chains, b + 1)
  {
    hide BucketShaped, Slot;
    if b % 2 == 0 { PairsAgree(m.home, m.chains, m.trees, m.where, b); }
  }

  /** Erases the node of `it` from the table; the other nodes stay, in the same order. */
  method Erase(m: InnerMap, it: Iterator)
    requires it.m == m && m.Valid() && it.Live()
    modifies m, m.table, m.nodes`next, m.ownTrees, it`bucketIndex
    ensures m.Valid() && it.node == old(it.node) && m.table == old(m.table) && m.ownTrees == old(m.ownTrees)
    ensures m.where == old(m.where) - {it.node.key} && m.nodes == old(m.nodes) - {it.node}
    ensures Drops(old(OrderOf(m)), OrderOf(m), it.node)
  {
    hide m.Consistent, m.FirstIsExact, Slot, Without, LoadIsBounded;
    var isList, at := it.RevalidateIfNecessary();
    ghost var cs := m.chains;
    ShapeOf(m);
    ghost var home, ts, w := m.home, m.trees, m.where;
    ghost var place := m.Erase(it.node, it.bucketIndex, isList, at);
    forall p | 0 <= p < |Order(cs)| && Order(cs)[p] == it.node
      ensures OrderOf(m) == Without(Order(cs), p)
    {
      OrderWithout(home, cs, ts, w, it.bucketIndex, place, p);
    }
  }

  lemma ShapeOf(m: InnerMap)
    requires m.Consistent()
    ensures Shaped(m.home, m.chains, m.trees, m.where) && SameNodes(m.where, m.nodes)
  {
  }
}
