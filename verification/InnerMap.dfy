/** The chaining hash table.  A bucket is empty, or the head of a linked list, or a tree
    shared with its buddy; the three are told apart only by comparing table entries. */
module InnerHashMap {
  import opened MapNode
  import opened Arithmetic
  import opened LoadFactor
  import opened TableShape
  import opened TraversalOrder

  ghost function After(c: seq<Node>, i: nat): (r: Node?) {
    NodeAt(c, i + 1)
  }

  /** Consecutive nodes of a list are linked, and the last one ends it. */
  ghost predicate Linked(c: seq<Node>)
    reads c`next
  {
    forall i | 0 <= i < |c| :: c[i].next == After(c, i)
  }

  /** Entry `e` of bucket `b` stores the nodes `c`, in the tree `t` unless that is null. */
  ghost predicate Stores(e: object?, b: nat, c: seq<Node>, t: Tree?)
    reads c`next, t
  {
    if t == null then
      e == NodeAt(c, 0) && Linked(c)
    else
      && e == t
      && (b % 2 == 0 ==> t.nodes == c)
      && (forall i | 0 <= i < |c| :: c[i].next == null)
  }

  /** A stored list with a node pushed in front. */
  lemma ListStores(node: Node, b: nat, e: object?, c: seq<Node>)
    requires Stores(e, b, c, null) && node.next == e
    ensures Stores(node, b, [node] + c, null)
  {
    var c' := [node] + c;
    forall i | 0 <= i < |c'| ensures c'[i].next == After(c', i) {
      if i > 0 { assert c'[i] == c[i - 1]; }
    }
  }

  /** How a stored list is linked. */
  lemma ListLinks(e: object?, b: nat, c: seq<Node>)
    requires Stores(e, b, c, null)
    ensures e == NodeAt(c, 0) && forall j | 0 <= j < |c| :: c[j].next == After(c, j)
  {
  }

  /** A stored tree holds its nodes. */
  lemma TreeNodes(e: object?, b: nat, c: seq<Node>, t: Tree)
    requires Stores(e, b, c, t) && b % 2 == 0
    ensures e == t && t.nodes == c
  {
  }

  /** What it takes for a pair of buckets to be stored in `t`. */
  lemma TreeStores(t: Tree, e: nat, c: seq<Node>)
    requires t.nodes == c && forall i | 0 <= i < |c| :: c[i].next == null
    requires e % 2 == 0
    ensures Stores(t, e, c, t) && Stores(t, e + 1, [], t)
  {
  }

  predicate EntryIsEmpty(table: array<object?>, b: nat)
    requires b < table.Length
    reads table
  {
    table[b] == null
  }

  predicate EntryIsNonEmptyList(table: array<object?>, b: nat)
    requires b < table.Length && Buddy(b) < table.Length
    reads table
  {
    table[b] != null && table[b] != table[Buddy(b)]
  }

  predicate EntryIsTree(table: array<object?>, b: nat)
    requires b < table.Length && Buddy(b) < table.Length
    reads table
  {
    !EntryIsEmpty(table, b) && !EntryIsNonEmptyList(table, b)
  }

  class InnerMap {
    const hasher: Key -> nat
    const seed: nat
    var numElements: nat
    var numBuckets: nat
    var firstNonNull: nat
    var table: array<object?>

    ghost var home: Key -> nat        // the bucket of each key
    ghost var chains: seq<seq<Node>>  // the nodes of each bucket, a tree's at its even bucket
    ghost var trees: seq<Tree?>       // the tree each bucket shares, if it does
    ghost var where: map<Key, Node>   // the node of each key
    ghost var nodes: set<Node>        // all these nodes
    ghost var ownTrees: set<Tree>     // all trees made for this table

    /** Key `k` belongs to bucket `home(k)` of a table of `n` buckets. */
    ghost predicate Hashes(home: Key -> nat, n: nat)
      requires n > 0
    {
      forall k {:trigger hasher(k)} :: home(k) == ((hasher(k) + seed) % SIZE_RANGE) % n
    }

    /** Everything but the element count and the first non-empty bucket. */
    ghost predicate Consistent()
      reads `numBuckets, `table, `home, `chains, `trees, `where, `nodes, `ownTrees, table, nodes`next, ownTrees
    {
      && numBuckets == table.Length == |trees| == |chains| && numBuckets > 0 && Hashes(home, numBuckets)
      && Shaped(home, chains, trees, where)
      && SameNodes(where, nodes)
      && (forall b | 0 <= b < numBuckets && trees[b] != null :: trees[b] in ownTrees)
      && (forall b | 0 <= b < numBuckets :: Stores(table[b], b, chains[b], trees[b]))
    }

    ghost predicate FirstIsExact()
      reads `firstNonNull, `table, table
    {
      && firstNonNull <= table.Length
      && (forall b | 0 <= b < firstNonNull :: table[b] == null)
      && (firstNonNull < table.Length ==> table[firstNonNull] != null)
    }

    /** The pointer comparisons tell trees and lists apart. */
    lemma Discriminates(b: nat)
      requires Consistent() && b < numBuckets
      ensures Buddy(b) < numBuckets && trees[Buddy(b)] == trees[b]
      ensures EntryIsTree(table, b) <==> trees[b] != null
      ensures EntryIsNonEmptyList(table, b) <==> trees[b] == null && chains[b] != []
    {
      EntriesTell(home, chains, trees, where, b);
      assert Stores(table[b], b, chains[b], trees[b]);
      assert Stores(table[Buddy(b)], Buddy(b), chains[Buddy(b)], trees[Buddy(b)]);
    }

    lemma Sizes()
      requires Consistent()
      ensures numBuckets == table.Length == |trees| == |chains| && IsTableSize(numBuckets)
    {
    }

    /** A list bucket, and the links in it. */
    lemma ListHolds(b: nat)
      requires Consistent() && b < numBuckets && trees[b] == null
      ensures table[b] == NodeAt(chains[b], 0)
      ensures forall i | 0 <= i < |chains[b]| ::
                chains[b][i].next == After(chains[b], i) && Slot(home, trees, chains[b][i].key) == b
    {
      assert Stores(table[b], b, chains[b], trees[b]);
      assert BucketShaped(home, trees, where, b, chains[b]);
    }

    /** The first non-empty bucket is never the odd one of a pair that shares a tree, and the
        buckets before it hold nothing. */
    lemma FirstIsNotOddHalf()
      requires Consistent() && FirstIsExact()
      ensures firstNonNull <= numBuckets == |trees| == |chains|
      ensures firstNonNull < numBuckets && firstNonNull % 2 == 1 ==> trees[firstNonNull] == null
      ensures forall b | 0 <= b < firstNonNull :: chains[b] == []
      ensures firstNonNull < numBuckets ==> chains[firstNonNull] != []
    {
      hide Shaped, Stores;
      Sizes();
      forall b | 0 <= b < firstNonNull ensures chains[b] == [] { EmptyEntry(b); }
      if firstNonNull < numBuckets {
        EmptyEntry(firstNonNull);
        if firstNonNull % 2 == 1 {
          EmptyEntry(firstNonNull - 1);
          PairsAgree(home, chains, trees, where, firstNonNull - 1);
        } else {
          PairsAgree(home, chains, trees, where, firstNonNull);
        }
      }
    }

    /** An entry that is a node is the head of a list. */
    lemma HeadIsListed(b: nat, n: Node)
      requires Consistent() && b < numBuckets && table[b] == n
      ensures trees[b] == null && Slot(home, trees, n.key) == b
    {
      if trees[b] == null { ListHolds(b); } else { TreeHolds(b); }
    }

    lemma NodeIsNamed(n: Node)
      requires Consistent() && n in nodes
      ensures n.key in where && where[n.key] == n
    {
    }

    /** What the link of a stored node says: nothing for a tree. */
    lemma LinksHold(b: nat, i: nat)
      requires Consistent() && b < numBuckets && i < |chains[b]|
      ensures chains[b][i].next == if trees[b] == null then After(chains[b], i) else null
    {
      assert Stores(table[b], b, chains[b], trees[b]);
    }

    /** Where the node of key `k` is stored. */
    lemma WhereIs(k: Key) returns (b: nat, i: nat)
      requires Consistent() && k in where
      ensures b == Slot(home, trees, k) < numBuckets && i < |chains[b]| && chains[b][i] == where[k]
    {
      b := Slot(home, trees, k);
      assert where[k] in chains[b];
      i :| 0 <= i < |chains[b]| && chains[b][i] == where[k];
    }

    /** A shared tree holds the nodes of its even bucket, and there is at least one. */
    lemma TreeHolds(b: nat)
      requires Consistent() && b < numBuckets && trees[b] != null
      ensures var e := EvenOf(b);
              && e + 1 < numBuckets && trees[e] == trees[b] && table[e] == trees[b]
              && table[e + 1] == trees[e + 1] == trees[b] && chains[e + 1] == []
              && trees[b].nodes == chains[e] != [] && Ordered(chains[e])
              && Slot(home, trees, chains[e][0].key) == e
              && (forall i | 0 <= i < |chains[e]| :: chains[e][i].next == null)
    {
      var e := EvenOf(b);
      assert e == b || e == Buddy(b);
      assert Buddy(e) == e + 1;
      assert Stores(table[e], e, chains[e], trees[e]);
      assert BucketShaped(home, trees, where, e, chains[e]);
      assert Stores(table[e + 1], e + 1, chains[e + 1], trees[e + 1]);
      assert BucketShaped(home, trees, where, e + 1, chains[e + 1]);
    }

    /** No tree serves two pairs of buckets. */
    lemma TreesDiffer(e: nat)
      requires Consistent() && e < numBuckets && trees[e] != null
      ensures forall a | 0 <= a < numBuckets && EvenOf(a) != EvenOf(e) :: trees[a] != trees[e]
    {
      TreeHolds(e);
      forall a | 0 <= a < numBuckets && EvenOf(a) != EvenOf(e) ensures trees[a] != trees[e] {
        if trees[a] != null { TreeHolds(a); }
      }
    }

    method BucketNumber(k: Key) returns (b: nat)
      requires Consistent()
      ensures b == home(k) < numBuckets
      ensures b == (hasher(k) + seed) % 0x1_0000_0000_0000_0000 % numBuckets
    {
      hide Stores, SameNodes, BucketShaped, Slot;
      var h := (hasher(k) + seed) % SIZE_RANGE;
      b := BitAnd(h, numBuckets - 1);
      MaskIsRemainder(h, numBuckets);
    }

    /** Walks the list of bucket `b` for key `k`. */
    method FindInList(b: nat, k: Key) returns (node: Node?)
      requires Consistent() && b < numBuckets && trees[b] == null && chains[b] != []
      ensures node == null ==> forall i | 0 <= i < |chains[b]| :: chains[b][i].key != k
      ensures node != null ==> node.key == k && node in chains[b]
    {
      assert Stores(table[b], b, chains[b], trees[b]);
      ghost var i := 0;
      node := table[b] as Node;
      while node != null
        invariant i <= |chains[b]| && node == NodeAt(chains[b], i)
        invariant forall j | 0 <= j < i :: chains[b][j].key != k
        decreases |chains[b]| - i
      {
        if node.key == k { return; }
        node, i := node.next, i + 1;
      }
    }

    /** The node of key `k`, the bucket it is kept under, and its place if that is a tree. */
    method FindHelper(k: Key) returns (node: Node?, b: nat, at: nat)
      requires Consistent()
      ensures node == if k in where then where[k] else null
      ensures b == Slot(home, trees, k) < |trees|
      ensures node != null && trees[b] != null ==> at < |trees[b].nodes| && trees[b].nodes[at] == node
    {
      b := BucketNumber(k);
      at, node := 0, null;
      Discriminates(b);
      if EntryIsNonEmptyList(table, b) {
        assert BucketShaped(home, trees, where, b, chains[b]);
        node := FindInList(b, k);
      } else if EntryIsTree(table, b) {
        b := EvenOf(b);
        assert Stores(table[b], b, chains[b], trees[b]);
        assert BucketShaped(home, trees, where, b, chains[b]);
        var tree := table[b] as Tree;
        at := tree.Find(k);
        if at < |tree.nodes| { node := tree.nodes[at]; }
      }
    }

    /** Whether the list of bucket `b` is as long as a list may be. */
    method EntryIsTooLong(b: nat) returns (long: bool)
      requires Consistent() && b < numBuckets && trees[b] == null && chains[b] != []
      ensures long <==> |chains[b]| == 8
    {
      assert Stores(table[b], b, chains[b], trees[b]);
      assert BucketShaped(home, trees, where, b, chains[b]);
      var count := 0;
      var node: Node? := table[b] as Node;
      while node != null
        invariant count <= |chains[b]| && node == NodeAt(chains[b], count)
        decreases |chains[b]| - count
      {
        count := count + 1;
        node := node.next;
      }
      long := count >= MAX_LIST;
    }

    /** Helper for InsertUnique: bucket `b` is a list that is not too long. */
    method InsertUniqueInList(b: nat, node: Node)
      requires Consistent() && node.key !in where
      requires b == home(node.key) < numBuckets && trees[b] == null && |chains[b]| < MAX_LIST
      modifies `chains, `where, `nodes, table, node`next
      ensures Consistent()
      ensures where == old(where)[node.key := node] && nodes == old(nodes) + {node}
      ensures forall a | 0 <= a < numBuckets && a != b :: table[a] == old(table[a])
      ensures table[b] == node
    {
      hide Shaped, Stores, SameNodes, Hashes;
      SameNodesAdd(where, nodes, node);
      NotStored(home, chains, trees, where, node);
      PushShaped(home, chains, trees, where, b, node);
      assert Stores(table[b], b, chains[b], trees[b]);
      ListLinks(table[b], b, chains[b]);
      node.next := if table[b] == null then null else table[b] as Node;
      assert forall a | 0 <= a < numBuckets :: Stores(table[a], a, chains[a], trees[a]);
      ListStores(node, b, table[b], chains[b]);
      table[b] := node;
      ghost var chains' := chains[b := [node] + chains[b]];
      forall a | 0 <= a < numBuckets ensures Stores(table[a], a, chains'[a], trees[a]) {
        if a != b { assert Stores(table[a], a, chains[a], trees[a]); }
      }
      chains, where, nodes := chains', where[node.key := node], nodes + {node};
    }

    /** Helper for InsertUnique: bucket `b` shares a tree. */
    method InsertUniqueInTree(b: nat, node: Node)
      requires Consistent() && node.key !in where
      requires b < numBuckets && EvenOf(b) == Slot(home, trees, node.key)
      requires trees[b] != null && trees[EvenOf(b)] == trees[b]
      modifies `chains, `where, `nodes, trees[b], node`next
      ensures Consistent()
      ensures where == old(where)[node.key := node] && nodes == old(nodes) + {node}
    {
      hide Shaped, Stores, InsertOrdered, SameNodes, Hashes, Ordered;
      SameNodesAdd(where, nodes, node);
      var e := EvenOf(b);
      TreeHolds(b);
      TreesDiffer(b);
      NotStored(home, chains, trees, where, node);
      InsertShaped(home, chains, trees, where, e, node);
      OtherKeys(node.key);
      InsertOrderedAdds(chains[e], node);
      node.next := null;
      var tree := table[e] as Tree;
      tree.Insert(node);
      TreeStores(tree, e, InsertOrdered(chains[e], node));
      ghost var chains' := chains[e := InsertOrdered(chains[e], node)];
      forall a | 0 <= a < numBuckets ensures Stores(table[a], a, chains'[a], trees[a]) {
        if EvenOf(a) == e {
          assert a == e || a == e + 1;
        } else {
          assert old(Stores(table[a], a, chains[a], trees[a]));
        }
      }
      chains, where, nodes := chains', where[node.key := node], nodes + {node};
    }

    lemma OtherKeys(k: Key)
      requires Consistent() && k !in where
      ensures forall a, i | 0 <= a < numBuckets && 0 <= i < |chains[a]| :: chains[a][i].key != k
    {
      forall a | 0 <= a < numBuckets ensures forall i | 0 <= i < |chains[a]| :: chains[a][i].key != k {
        assert BucketShaped(home, trees, where, a, chains[a]);
      }
    }

    /** Moves the list `c` that starts at entry `b` into `tree`; returns how many nodes it moved. */
    method CopyListToTree(b: nat, tree: Tree, ghost c: seq<Node>) returns (count: nat)
      requires b < table.Length && Stores(table[b], b, c, null)
      requires forall i, j | 0 <= i < j < |c| :: c[i] != c[j]
      modifies tree, c`next
      ensures count == |c| && tree.nodes == InsertAll(old(tree.nodes), c)
      ensures forall i | 0 <= i < |c| :: c[i].next == null
    {
      hide InsertedSoFar, InsertAll, InsertOrdered;
      InsertedNone(tree.nodes, c);
      count := 0;
      var node := if table[b] == null then null else table[b] as Node;
      while node != null
        invariant count <= |c| && node == NodeAt(c, count) && Copied(c, count)
        invariant tree.nodes == InsertedSoFar(old(tree.nodes), c, count)
        decreases |c| - count
      {
        InsertedNext(old(tree.nodes), c, count);
        node := CopyNode(node, tree, c, count);
        count := count + 1;
      }
      InsertedAll(old(tree.nodes), c);
    }

    /** Of the list `c`, the first `n` nodes have been copied, and have lost their links. */
    ghost predicate Copied(c: seq<Node>, n: nat)
      reads c`next
    {
      && (forall i | 0 <= i < n && i < |c| :: c[i].next == null)
      && (forall i | n <= i < |c| :: c[i].next == After(c, i))
    }

    /** Copies one node, and returns the next. */
    method CopyNode(node: Node, tree: Tree, ghost c: seq<Node>, ghost i: nat) returns (next: Node?)
      requires i < |c| && node == c[i] && Copied(c, i)
      requires forall i, j | 0 <= i < j < |c| :: c[i] != c[j]
      modifies tree, node`next
      ensures tree.nodes == InsertOrdered(old(tree.nodes), node)
      ensures next == NodeAt(c, i + 1) && Copied(c, i + 1)
    {
      hide InsertOrdered;
      tree.Insert(node);
      next := node.next;
      node.next := null;
    }

    /** Moves the lists `c` and `d` of buckets `b` and its buddy into `tree`. */
    method CopyPairToTree(b: nat, tree: Tree, ghost c: seq<Node>, ghost d: seq<Node>)
      requires b < table.Length && Buddy(b) < table.Length && tree.nodes == []
      requires Stores(table[b], b, c, null) && Stores(table[Buddy(b)], Buddy(b), d, null)
      requires forall i, j | 0 <= i < j < |c| :: c[i] != c[j]
      requires forall i, j | 0 <= i < j < |d| :: d[i] != d[j]
      requires forall i | 0 <= i < |c| :: c[i] !in d
      modifies tree, c`next, d`next
      ensures tree.nodes == InsertAll(InsertAll([], c), d)
      ensures forall i | 0 <= i < |c| :: c[i].next == null
      ensures forall i | 0 <= i < |d| :: d[i].next == null
    {
      var count := CopyListToTree(b, tree, c);
      assert Stores(table[Buddy(b)], Buddy(b), d, null);
      var count' := CopyListToTree(Buddy(b), tree, d);
    }

    /** The two lists of a pair have no node twice, and share none with other buckets. */
    lemma PairIsSeparate(b: nat)
      requires Consistent() && b < numBuckets && trees[b] == null
      ensures var d := Buddy(b);
              && d < numBuckets && trees[d] == null
              && Stores(table[b], b, chains[b], null) && Stores(table[d], d, chains[d], null)
              && (forall i, j | 0 <= i < j < |chains[b]| :: chains[b][i] != chains[b][j])
              && (forall i, j | 0 <= i < j < |chains[d]| :: chains[d][i] != chains[d][j])
              && (forall i | 0 <= i < |chains[b]| :: chains[b][i] !in chains[d] && chains[b][i] in nodes)
              && (forall i | 0 <= i < |chains[d]| :: chains[d][i] in nodes)
              && (forall a, i | 0 <= a < numBuckets && EvenOf(a) != EvenOf(b) && 0 <= i < |chains[a]| ::
                   chains[a][i] !in chains[b] && chains[a][i] !in chains[d])
    {
      var d := Buddy(b);
      ChainsDisjoint(home, chains, trees, where, b, d);
      assert BucketShaped(home, trees, where, b, chains[b]) && BucketShaped(home, trees, where, d, chains[d]);
      assert Stores(table[b], b, chains[b], trees[b]) && Stores(table[d], d, chains[d], trees[d]);
      forall a | 0 <= a < numBuckets && EvenOf(a) != EvenOf(b)
        ensures forall i | 0 <= i < |chains[a]| :: chains[a][i] !in chains[b] && chains[a][i] !in chains[d]
      {
        ChainsDisjoint(home, chains, trees, where, a, b);
        ChainsDisjoint(home, chains, trees, where, a, d);
      }
    }

    /** Turns the list of bucket `b`, and its buddy's, into one tree that both share. */
    method TreeConvert(b: nat)
      requires Consistent() && b < numBuckets && trees[b] == null && chains[b] != []
      modifies `chains, `trees, `ownTrees, table, nodes`next
      ensures Consistent()
      ensures fresh(ownTrees - old(ownTrees))
      ensures trees[b] != null && trees[EvenOf(b)] == trees[b]
      ensures table[EvenOf(b)] == trees[b]
      ensures forall a | 0 <= a < |trees| && EvenOf(a) != EvenOf(b) :: table[a] == old(table[a])
    {
      hide Shaped, Stores, PairTree, SameNodes, Hashes, ConvertedChains, ConvertedTrees, Ordered;
      var tree := new Tree();
      PairShaped(home, chains, trees, where, b, tree);
      MovePair(b, tree);
      ShareTree(b, tree);
    }

    /** Makes `tree`, which the nodes of bucket `b` and its buddy were moved to, the tree of both. */
    method ShareTree(b: nat, tree: Tree)
      requires numBuckets == table.Length == |trees| == |chains| && b < numBuckets && Buddy(b) < numBuckets
      requires Hashes(home, numBuckets) && SameNodes(where, nodes)
      requires Shaped(home, ConvertedChains(chains, b), ConvertedTrees(trees, b, tree), where)
      requires tree.nodes == PairTree(chains, b) && forall i | 0 <= i < |PairTree(chains, b)| :: PairTree(chains, b)[i].next == null
      requires forall a | 0 <= a < numBuckets && trees[a] != null :: trees[a] in ownTrees
      requires forall a | 0 <= a < numBuckets && EvenOf(a) != EvenOf(b) :: Stores(table[a], a, chains[a], trees[a])
      modifies `chains, `trees, `ownTrees, table
      ensures Consistent() && ownTrees == old(ownTrees) + {tree}
      ensures trees[b] == trees[EvenOf(b)] == table[EvenOf(b)] == tree
      ensures forall a | 0 <= a < |trees| && EvenOf(a) != EvenOf(b) :: table[a] == old(table[a])
    {
      hide Shaped, Stores, PairTree, SameNodes, Hashes, ConvertedChains, ConvertedTrees, Ordered;
      PairIsConverted(chains, trees, b, tree);
      TreeStores(tree, EvenOf(b), PairTree(chains, b));
      table[b], table[Buddy(b)] := tree, tree;
      ghost var chains', trees' := ConvertedChains(chains, b), ConvertedTrees(trees, b, tree);
      forall a | 0 <= a < numBuckets ensures Stores(table[a], a, chains'[a], trees'[a]) {
        if EvenOf(a) == EvenOf(b) {
          assert a == EvenOf(b) || a == EvenOf(b) + 1;
        } else {
          assert Stores(table[a], a, chains[a], trees[a]);
        }
      }
      chains, trees, ownTrees := chains', trees', ownTrees + {tree};
    }

    /** Moves the lists of bucket `b` and its buddy into `tree`, and leaves the other buckets alone. */
    method MovePair(b: nat, tree: Tree)
      requires Consistent() && b < numBuckets && trees[b] == null
      requires tree.nodes == [] && tree !in ownTrees
      modifies tree, nodes`next
      ensures Buddy(b) < numBuckets && tree.nodes == PairTree(chains, b)
      ensures forall i | 0 <= i < |PairTree(chains, b)| :: PairTree(chains, b)[i].next == null
      ensures forall a | 0 <= a < numBuckets && EvenOf(a) != EvenOf(b) :: Stores(table[a], a, chains[a], trees[a])
    {
      hide Shaped, Stores, InsertAll, SameNodes;
      var d := Buddy(b);
      PairIsSeparate(b);
      PairTreeHolds(home, chains, trees, where, b);
      CopyPairToTree(b, tree, chains[b], chains[d]);
      forall a | 0 <= a < numBuckets && EvenOf(a) != EvenOf(b) ensures Stores(table[a], a, chains[a], trees[a]) {
        assert old(Stores(table[a], a, chains[a], trees[a]));
      }
    }

    /** Puts `node`, whose key is new, where it belongs.  Leaves the element count alone. */
    method InsertUnique(b: nat, node: Node) returns (bucket: nat)
      requires Consistent() && FirstIsExact() && node.key !in where
      requires b == home(node.key) || b == Slot(home, trees, node.key)
      modifies `firstNonNull, `chains, `trees, `where, `nodes, `ownTrees, table, node`next, nodes`next, ownTrees
      ensures Consistent() && FirstIsExact() && fresh(ownTrees - old(ownTrees))
      ensures where == old(where)[node.key := node] && nodes == old(nodes) + {node}
      ensures bucket == Slot(home, trees, node.key)
    {
      hide Consistent, EntryIsTree, Slot;
      SlotInRange(node.key);
      Discriminates(b);
      EmptyEntry(b);
      bucket := EvenOf(b);
      if EntryIsEmpty(table, b) {
        InsertUniqueInList(b, node);
        bucket := b;
      } else if EntryIsNonEmptyList(table, b) {
        var long := EntryIsTooLong(b);
        if long {
          ConvertAndInsert(b, node);
        } else {
          ShortList(b);
          InsertUniqueInList(b, node);
          return b;
        }
      } else {
        InsertUniqueInTree(b, node);
        return;
      }
      firstNonNull := if firstNonNull < bucket then firstNonNull else bucket;
    }

    /** The list of bucket `b` is too long for one more node. */
    method ConvertAndInsert(b: nat, node: Node)
      requires Consistent() && node.key !in where
      requires b == home(node.key) < numBuckets && trees[b] == null && chains[b] != []
      modifies `chains, `trees, `where, `nodes, `ownTrees, table, node`next, nodes`next, ownTrees
      ensures Consistent() && fresh(ownTrees - old(ownTrees))
      ensures where == old(where)[node.key := node] && nodes == old(nodes) + {node}
      ensures EvenOf(b) == Slot(home, trees, node.key) && table[EvenOf(b)] != null
      ensures forall a | 0 <= a < EvenOf(b) :: table[a] == old(table[a])
    {
      hide Consistent, Slot;
      TreeConvert(b);
      SlotInRange(node.key);
      InsertUniqueInTree(b, node);
    }

    /** Where key `k` is kept, in the terms of each kind of bucket. */
    lemma SlotInRange(k: Key)
      requires Consistent()
      ensures var b, s := home(k), Slot(home, trees, k);
              && numBuckets == table.Length == |trees| == |chains|
              && b < numBuckets && s < numBuckets
              && (trees[b] == null ==> s == b && trees[s] == null)
              && (trees[b] != null ==> s == EvenOf(b) == EvenOf(s) && trees[s] == trees[b] && trees[b] in ownTrees)
    {
      assert trees[Buddy(home(k))] == trees[home(k)];
    }

    /** The pointer comparisons leave nothing but an empty list for a null entry. */
    lemma EmptyEntry(b: nat)
      requires Consistent() && b < numBuckets
      ensures table[b] == null <==> trees[b] == null && chains[b] == []
    {
      assert Stores(table[b], b, chains[b], trees[b]);
    }

    lemma ShortList(b: nat)
      requires Consistent() && b < numBuckets && trees[b] == null
      ensures |chains[b]| <= MAX_LIST
    {
      assert BucketShaped(home, trees, where, b, chains[b]);
    }

    /** From position `i` on, the nodes of `c` are still in their old list. */
    ghost predicate Waiting(c: seq<Node>, i: nat)
      reads this, c`next
    {
      forall j | i <= j < |c| :: c[j] !in nodes && c[j].key !in where && c[j].next == After(c, j)
    }

    lemma NextIsAfter(c: seq<Node>, i: nat)
      requires Waiting(c, i) && i < |c|
      ensures c[i].next == NodeAt(c, i + 1)
    {
    }

    /** Moves one node of a list of an old table into this one, and returns the next. */
    method TransferNode(node: Node, ghost c: seq<Node>, ghost i: nat) returns (next: Node?)
      requires Consistent() && FirstIsExact() && Waiting(c, i)
      requires i < |c| && node == c[i] && forall j | i < j < |c| :: c[j].key != node.key && c[j] != node
      modifies `firstNonNull, `chains, `trees, `where, `nodes, `ownTrees, table, node`next, nodes`next, ownTrees
      ensures Consistent() && FirstIsExact() && fresh(ownTrees - old(ownTrees))
      ensures where == old(where)[node.key := node] && nodes == old(nodes) + {node}
      ensures next == NodeAt(c, i + 1) && Waiting(c, i + 1)
    {
      hide Consistent, FirstIsExact, After, NodeAt, Slot;
      NextIsAfter(c, i);
      next := node.next;
      var b := BucketNumber(node.key);
      var bucket := InsertUnique(b, node);
      assert forall j | i < j < |c| :: c[j].next == old(c[j].next);
    }

    /** Moves the nodes `c` of a list of an old table into this one. */
    method TransferList(oldTable: array<object?>, index: nat, ghost c: seq<Node>)
      requires Consistent() && FirstIsExact() && oldTable != table
      requires index < oldTable.Length && Stores(oldTable[index], index, c, null) && c != []
      requires forall i | 0 <= i < |c| :: c[i].key !in where && c[i] !in nodes
      requires forall i, j | 0 <= i < j < |c| :: c[i].key != c[j].key
      modifies `firstNonNull, `chains, `trees, `where, `nodes, `ownTrees, table, nodes`next, ownTrees, c`next
      ensures Consistent() && FirstIsExact() && fresh(ownTrees - old(ownTrees))
      ensures where == old(where) + ByKey(c) && nodes == old(nodes) + NodesOf(c)
    {
      hide Consistent, FirstIsExact, Stores, ByKey, NamedSoFar, NodesSoFar;
      PrefixEmpty(where, nodes, c);
      ListLinks(oldTable[index], index, c);
      var node: Node? := oldTable[index] as Node;
      ghost var i := 0;
      while node != null
        invariant i <= |c| && node == NodeAt(c, i) && Waiting(c, i)
        invariant Consistent() && FirstIsExact() && fresh(ownTrees - old(ownTrees))
        invariant where == NamedSoFar(old(where), c, i) && nodes == NodesSoFar(old(nodes), c, i)
        decreases |c| - i
      {
        hide Waiting;
        PrefixNext(old(where), old(nodes), c, i);
        node := TransferNode(node, c, i);
        i := i + 1;
      }
      PrefixFull(old(where), old(nodes), c);
    }

    /** Moves the nodes `c` of a tree of an old table into this one. */
    method TransferTree(oldTable: array<object?>, index: nat, ghost c: seq<Node>, ghost t: Tree)
      requires Consistent() && FirstIsExact() && oldTable != table && t !in ownTrees
      requires index < oldTable.Length && oldTable[index] == t && t.nodes == c
      requires forall i | 0 <= i < |c| :: c[i].key !in where && c[i] !in nodes
      requires forall i, j | 0 <= i < j < |c| :: c[i].key != c[j].key
      modifies `firstNonNull, `chains, `trees, `where, `nodes, `ownTrees, table, nodes`next, ownTrees, c`next
      ensures Consistent() && FirstIsExact() && fresh(ownTrees - old(ownTrees))
      ensures where == old(where) + ByKey(c) && nodes == old(nodes) + NodesOf(c)
    {
      hide Consistent, FirstIsExact, Stores, ByKey, NamedSoFar, NodesSoFar;
      PrefixEmpty(where, nodes, c);
      var tree := oldTable[index] as Tree;
      var i := 0;
      while i < |tree.nodes|
        invariant i <= |c| && tree.nodes == c
        invariant Consistent() && FirstIsExact() && fresh(ownTrees - old(ownTrees))
        invariant where == NamedSoFar(old(where), c, i) && nodes == NodesSoFar(old(nodes), c, i)
        invariant forall j | i <= j < |c| :: c[j] !in nodes && c[j].key !in where
      {
        var node := tree.nodes[i];
        var b := BucketNumber(node.key);
        PrefixNext(old(where), old(nodes), c, i);
        var bucket := InsertUnique(b, node);
        i := i + 1;
      }
      PrefixFull(old(where), old(nodes), c);
    }

    /** The buckets of an old table, from bucket `i` on, and the nodes before it now in this one. */
    ghost predicate Transferring(oldTable: array<object?>, home0: Key -> nat, cs: seq<seq<Node>>, ts: seq<Tree?>,
                                 w: map<Key, Node>, ns: set<Node>, i: nat)
      reads this, oldTable, ns`next, ts
    {
      && oldTable.Length == |cs| == |ts| && oldTable != table && i <= |ts|
      && Shaped(home0, cs, ts, w) && SameNodes(w, ns)
      && (forall b | 0 <= b < |ts| :: oldTable[b] == EntryOf(cs[b], ts[b]))
      && (forall b | i <= b < |ts| :: Stores(oldTable[b], b, cs[b], ts[b]))
      && (forall b | 0 <= b < |ts| && ts[b] != null :: ts[b] !in ownTrees)
      && (i < |ts| && i % 2 == 1 ==> ts[i] == null)
      && where == Below(home0, ts, w, i) && nodes <= ns
    }

    /** Transferring a list is one step of the loop. */
    method StepList(oldTable: array<object?>, ghost home0: Key -> nat, ghost cs: seq<seq<Node>>,
                    ghost ts: seq<Tree?>, ghost w: map<Key, Node>, ghost ns: set<Node>, i: nat)
      requires Consistent() && FirstIsExact() && Transferring(oldTable, home0, cs, ts, w, ns, i)
      requires i < |ts| && ts[i] == null && cs[i] != []
      modifies `firstNonNull, `chains, `trees, `where, `nodes, `ownTrees, table, nodes`next, ownTrees, cs[i]`next
      ensures Consistent() && FirstIsExact() && fresh(ownTrees - old(ownTrees))
      ensures Transferring(oldTable, home0, cs, ts, w, ns, i + 1)
    {
      hide Shaped, FirstIsExact, Stores, SameNodes, Below, ByKey;
      assert SameNodes(where, nodes);
      ChainNodes(home0, cs, ts, w, ns);
      if i % 2 == 0 { PairsAgree(home0, cs, ts, w, i); }
      NotMovedYet(home0, cs, ts, w, i, nodes);
      BelowNext(home0, cs, ts, w, i);
      assert Stores(oldTable[i], i, cs[i], null);
      TransferList(oldTable, i, cs[i]);
    }

    /** Transferring a tree is two steps of the loop. */
    method StepTree(oldTable: array<object?>, ghost home0: Key -> nat, ghost cs: seq<seq<Node>>,
                    ghost ts: seq<Tree?>, ghost w: map<Key, Node>, ghost ns: set<Node>, i: nat)
      requires Consistent() && FirstIsExact() && Transferring(oldTable, home0, cs, ts, w, ns, i)
      requires i < |ts| && ts[i] != null
      modifies `firstNonNull, `chains, `trees, `where, `nodes, `ownTrees, table, nodes`next, ownTrees, cs[i]`next
      ensures Consistent() && FirstIsExact() && fresh(ownTrees - old(ownTrees))
      ensures Transferring(oldTable, home0, cs, ts, w, ns, i + 2)
    {
      hide Shaped, FirstIsExact, Stores, SameNodes, Below, ByKey;
      assert SameNodes(where, nodes);
      ChainNodes(home0, cs, ts, w, ns);
      NotMovedYet(home0, cs, ts, w, i, nodes);
      BelowNext(home0, cs, ts, w, i);
      BelowPair(home0, cs, ts, w, i);
      TreeNodes(oldTable[i], i, cs[i], ts[i]);
      PairsAgree(home0, cs, ts, w, i);
      TransferTree(oldTable, i, cs[i], ts[i]);
    }

    /** The home of every key in a table of `n` buckets. */
    ghost function HomeFor(n: nat): (h: Key -> nat)
      requires n > 0
      ensures Hashes(h, n) && forall k :: h(k) < n
    {
      (k: Key) => ((hasher(k) + seed) % SIZE_RANGE) % n
    }

    /** Gives the table `n` empty buckets. */
    method CreateEmptyTable(n: nat)
      requires IsTableSize(n)
      modifies `numBuckets, `table, `firstNonNull, `home, `chains, `trees, `where, `nodes, `ownTrees
      ensures numBuckets == n && fresh(table) && Consistent() && FirstIsExact()
      ensures where == map[] && nodes == {} && ownTrees == {}
    {
      numBuckets, firstNonNull := n, n;
      table := new object?[n](_ => null);
      home, chains, trees, where := HomeFor(n), NoNodes(n), NoTrees(n), map[];
      nodes, ownTrees := {}, {};
      EmptyShaped(home, n);
    }

    /** The non-empty buckets of the old table that were found start the transfer. */
    lemma TransferStarts(oldTable: array<object?>, home0: Key -> nat, cs: seq<seq<Node>>, ts: seq<Tree?>,
                         w: map<Key, Node>, ns: set<Node>, start: nat)
      requires oldTable.Length == |cs| == |ts| && oldTable != table && start <= |ts|
      requires Shaped(home0, cs, ts, w) && SameNodes(w, ns)
      requires forall b | 0 <= b < |ts| :: Stores(oldTable[b], b, cs[b], ts[b])
      requires forall b | 0 <= b < start :: oldTable[b] == null
      requires ownTrees == {} && where == map[] && nodes == {}
      ensures Transferring(oldTable, home0, cs, ts, w, ns, start)
    {
      hide Slot, BucketShaped;
      forall b | 0 <= b < |ts| ensures oldTable[b] == EntryOf(cs[b], ts[b]) {
        assert Stores(oldTable[b], b, cs[b], ts[b]);
      }
      BelowNone(home0, cs, ts, w, start);
      if start < |ts| && start % 2 == 1 { PairsAgree(home0, cs, ts, w, start - 1); }
    }

    /** Moves every node to a table of `n` buckets. */
    method Resize(n: nat)
      requires Consistent() && FirstIsExact() && IsTableSize(n)
      modifies `numBuckets, `table, `firstNonNull, `home, `chains, `trees, `where, `nodes, `ownTrees, nodes`next
      ensures Consistent() && FirstIsExact() && numBuckets == n
      ensures where == old(where) && nodes == old(nodes) && fresh(table) && fresh(ownTrees)
    {
      hide Shaped, Stores, SameNodes, Hashes, Below, EntryOf;
      ghost var home0, cs, ts, w, ns := home, chains, trees, where, nodes;
      var oldTable, oldTableSize, start := table, numBuckets, firstNonNull;
      CreateEmptyTable(n);
      TransferStarts(oldTable, home0, cs, ts, w, ns, start);
      var i := start;
      while i < oldTableSize
        invariant Consistent() && FirstIsExact() && numBuckets == n && fresh(table) && fresh(ownTrees)
        invariant oldTableSize == |ts| && Transferring(oldTable, home0, cs, ts, w, ns, i)
      {
        EntriesTell(home0, cs, ts, w, i);
        if EntryIsNonEmptyList(oldTable, i) {
          ChainNodes(home0, cs, ts, w, ns);
          StepList(oldTable, home0, cs, ts, w, ns, i);
          i := i + 1;
        } else if EntryIsTree(oldTable, i) {
          ChainNodes(home0, cs, ts, w, ns);
          PairsAgree(home0, cs, ts, w, i);
          StepTree(oldTable, home0, cs, ts, w, ns, i);
          i := i + 2;
        } else {
          StepNothing(oldTable, home0, cs, ts, w, ns, i);
          i := i + 1;
        }
      }
      BelowAll(home0, cs, ts, w);
      SameNodesUnique(w, ns, nodes);
    }

    lemma StepNothing(oldTable: array<object?>, home0: Key -> nat, cs: seq<seq<Node>>, ts: seq<Tree?>,
                      w: map<Key, Node>, ns: set<Node>, i: nat)
      requires Transferring(oldTable, home0, cs, ts, w, ns, i)
      requires i < |ts| && ts[i] == null && cs[i] == []
      ensures Transferring(oldTable, home0, cs, ts, w, ns, i + 1)
    {
      hide Slot, BucketShaped, Below;
      BelowNext(home0, cs, ts, w, i);
      if i % 2 == 0 { PairsAgree(home0, cs, ts, w, i); }
    }

    /** The load, and the element count, of a table between operations. */
    ghost predicate Valid()
      reads this, table, nodes`next, ownTrees
    {
      Consistent() && FirstIsExact() && numElements == |where| && LoadIsBounded(numElements, numBuckets)
    }

    ghost function Repr(): (r: set<object>)
      reads this
    {
      {this, table} + nodes + ownTrees
    }

    /** The map that the table stands for. */
    ghost function Contents(): (r: map<Key, Value>)
      reads this, nodes`value
      requires SameNodes(where, nodes)
    {
      map k | k in where :: where[k].value
    }

    constructor (hasher: Key -> nat, seed: nat)
      ensures Valid() && where == map[] && nodes == {} && fresh(Repr())
      ensures this.hasher == hasher && this.seed == seed
    {
      this.hasher, this.seed := hasher, seed;
      numElements, numBuckets, firstNonNull := 0, MIN_TABLE_SIZE, MIN_TABLE_SIZE;
      table := new object?[MIN_TABLE_SIZE](_ => null);
      new;
      CreateEmptyTable(MIN_TABLE_SIZE);
    }

    /** What holds of the sizes of every table, in plain numbers. */
    lemma SizesHold()
      requires Valid()
      ensures 8 <= numBuckets <= 0x1000_0000_0000_0000 && IsPowerOfTwo(numBuckets) && numElements == |where|
      ensures numBuckets < 0x1000_0000_0000_0000 ==> 5 * numElements < 6 * numBuckets
      ensures forall b | 0 <= b < numBuckets && trees[b] == null :: |chains[b]| <= 8
    {
      hide Stores, SameNodes, Slot;
      TableIsSized();
      Sizes();
      forall b | 0 <= b < numBuckets && trees[b] == null ensures |chains[b]| <= 8 { ShortList(b); }
    }

    lemma TableIsSized()
      requires Consistent()
      ensures IsTableSize(numBuckets) && IsTableSize(numBuckets * 2) && IsPowerOfTwo(numBuckets)
    {
      hide Stores, SameNodes, BucketShaped, Slot;
      assert numBuckets * 2 / 2 == numBuckets;
    }

    /** Makes room for `newSize` elements, or gives room back; returns whether it did. */
    method ResizeIfLoadIsOutOfRange(newSize: nat) returns (resized: bool)
      requires Valid() && newSize == numElements + 1
      modifies `numBuckets, `table, `firstNonNull, `home, `chains, `trees, `where, `nodes, `ownTrees, nodes`next
      ensures Consistent() && FirstIsExact() && LoadIsBounded(newSize, numBuckets)
      ensures where == old(where) && nodes == old(nodes)
      ensures if newSize >= HiCutoff(old(numBuckets))
              then numBuckets == if old(numBuckets) <= MAX_TABLE_SIZE / 2 then 2 * old(numBuckets) else old(numBuckets)
              else if newSize <= LoCutoff(old(numBuckets)) && old(numBuckets) > MIN_TABLE_SIZE
              then 2 * numBuckets <= old(numBuckets) && (4 * newSize < 3 * numBuckets <==> LeavesRoom(newSize))
              else numBuckets == old(numBuckets)
      ensures IsSizedFor(old(numBuckets), newSize, numBuckets)
      ensures resized <==> numBuckets != old(numBuckets)
      ensures if resized then fresh(table) && fresh(ownTrees)
              else table == old(table) && ownTrees == old(ownTrees) && trees == old(trees) && home == old(home)
    {
      hide Consistent, FirstIsExact, LeavesRoom, IsTableSize, HiCutoff, LoCutoff, IsShrunkFor;
      TableIsSized();
      CutoffsAre(numBuckets);
      if newSize >= HiCutoff(numBuckets) {
        if numBuckets <= MAX_TABLE_SIZE / 2 {
          Resize(numBuckets * 2);
          return true;
        }
        TableSizeAtMost(numBuckets);
      } else if newSize <= LoCutoff(numBuckets) && numBuckets > MIN_TABLE_SIZE {
        var n := ShrunkSize(numBuckets, newSize);
        if n != numBuckets {
          Resize(n);
          return true;
        }
      }
      return false;
    }

    /** Inserts key `k` with value `v` if it is not present. */
    method Insert(k: Key, v: Value) returns (node: Node, bucket: nat, inserted: bool)
      requires Valid()
      modifies this, table, nodes`next, ownTrees
      ensures Valid() && fresh(Repr() - old(Repr()))
      ensures inserted <==> k !in old(where)
      ensures inserted ==> where == old(where)[k := node] && nodes == old(nodes) + {node} && fresh(node) && node.value == v
      ensures !inserted ==> where == old(where) && nodes == old(nodes) && chains == old(chains)
      ensures if inserted then IsSizedFor(old(numBuckets), old(numElements) + 1, numBuckets)
              else numBuckets == old(numBuckets)
      ensures k in where && where[k] == node && bucket == Slot(home, trees, k)
    {
      hide Consistent, FirstIsExact, Slot, LoadIsBounded, LeavesRoom, HiCutoff, LoCutoff, IsSizedFor;
      var found, b, at := FindHelper(k);
      if found != null {
        return found, b, false;
      }
      node, bucket := InsertNew(k, v, b);
      inserted := true;
    }

    /** The part of Insert for a key that is not present. */
    method InsertNew(k: Key, v: Value, bucketOfKey: nat) returns (node: Node, bucket: nat)
      requires Valid() && k !in where && bucketOfKey == Slot(home, trees, k)
      modifies this, table, nodes`next, ownTrees
      ensures Valid() && fresh(Repr() - old(Repr()))
      ensures where == old(where)[k := node] && nodes == old(nodes) + {node} && fresh(node) && node.value == v
      ensures bucket == Slot(home, trees, k)
      ensures IsSizedFor(old(numBuckets), old(numElements) + 1, numBuckets)
    {
      hide Consistent, FirstIsExact, Slot, LoadIsBounded, LeavesRoom, HiCutoff, LoCutoff, IsSizedFor;
      var b := bucketOfKey;
      var resized := ResizeIfLoadIsOutOfRange(numElements + 1);
      if resized {
        var found, at;
        found, b, at := FindHelper(k);
      }
      node, bucket := InsertNode(k, v, b);
    }

    /** The same, when there is room. */
    method InsertNode(k: Key, v: Value, b: nat) returns (node: Node, bucket: nat)
      requires Consistent() && FirstIsExact() && k !in where && b == Slot(home, trees, k)
      requires numElements == |where| && LoadIsBounded(numElements + 1, numBuckets)
      modifies `numElements, `firstNonNull, `chains, `trees, `where, `nodes, `ownTrees, table, nodes`next, ownTrees
      ensures Valid() && fresh(ownTrees - old(ownTrees))
      ensures where == old(where)[k := node] && nodes == old(nodes) + {node} && fresh(node) && node.value == v
      ensures bucket == Slot(home, trees, k)
    {
      hide Consistent, FirstIsExact, Slot, LoadIsBounded;
      node := new Node(k, v);
      bucket := InsertUnique(b, node);
      numElements := numElements + 1;
    }

    /** Unlinks `item` from the list that starts at `head`; returns the new start. */
    static method EraseFromLinkedList(item: Node, head: Node, ghost c: seq<Node>, ghost i: nat) returns (r: Node?)
      requires Linked(c) && forall a, b | 0 <= a < b < |c| :: c[a] != c[b]
      requires i < |c| && c[i] == item && c[0] == head
      modifies c`next
      ensures r == NodeAt(Without(c, i), 0) && Linked(Without(c, i))
      decreases |c|
    {
      hide Linked, Without;
      TailLinked(c);
      if head == item {
        FirstWithout(c, i);
        r := head.next;
      } else {
        TailWithout(c, i);
        var rest := EraseFromLinkedList(item, head.next, c[1..], i - 1);
        head.next := rest;
        r := head;
        HeadLinked(Without(c, i));
      }
    }

    /** What removing a node does to the ghost state. */
    ghost predicate Removed(cs: seq<seq<Node>>, w: map<Key, Node>, ns: set<Node>, b: nat, i: nat, item: Node)
      reads `chains, `where, `nodes
    {
      && b < |cs| && i < |cs[b]| && cs[b][i] == item
      && chains == cs[b := Without(cs[b], i)] && where == w - {item.key} && nodes == ns - {item}
    }

    /** Erases `item` from the list of bucket `b`. */
    method EraseFromList(b: nat, item: Node, ghost i: nat)
      requires Consistent() && b < numBuckets && trees[b] == null && b == Slot(home, trees, item.key)
      requires i < |chains[b]| && chains[b][i] == item && item in nodes
      modifies `chains, `where, `nodes, table, nodes`next
      ensures Consistent() && Removed(old(chains), old(where), old(nodes), b, i, item)
      ensures forall a | 0 <= a < numBuckets && a != b :: table[a] == old(table[a])
    {
      hide Shaped, Stores, Without, SameNodes, Slot, Linked, Hashes;
      NodeIsNamed(item);
      ListIsSeparate(b);
      SameNodesRemove(where, nodes, item);
      RemoveShaped(home, chains, trees, where, item.key, i);
      var head := table[b] as Node;
      var rest := EraseFromLinkedList(item, head, chains[b], i);
      ListIsStored(rest, b, Without(chains[b], i));
      table[b] := rest;
      ghost var chains' := chains[b := Without(chains[b], i)];
      forall a | 0 <= a < numBuckets ensures Stores(table[a], a, chains'[a], trees[a]) {
        if a != b { assert old(Stores(table[a], a, chains[a], trees[a])); }
      }
      Settle(chains', item);
    }

    /** A list has no node twice, and shares none with other buckets. */
    lemma ListIsSeparate(b: nat)
      requires Consistent() && b < numBuckets && trees[b] == null
      ensures Linked(chains[b]) && table[b] == NodeAt(chains[b], 0)
      ensures forall i, j | 0 <= i < j < |chains[b]| :: chains[b][i] != chains[b][j]
      ensures forall i | 0 <= i < |chains[b]| :: chains[b][i] in nodes
      ensures forall a, i | 0 <= a < numBuckets && a != b && 0 <= i < |chains[a]| :: chains[a][i] !in chains[b]
    {
      hide Slot;
      ChainNodes(home, chains, trees, where, nodes);
      assert BucketShaped(home, trees, where, b, chains[b]);
      assert Stores(table[b], b, chains[b], trees[b]);
      forall a | 0 <= a < numBuckets && a != b ensures forall i | 0 <= i < |chains[a]| :: chains[a][i] !in chains[b] {
        ChainsDisjoint(home, chains, trees, where, a, b);
      }
    }

    /** Erases the node at place `at` of the tree of bucket `b`, and the tree if it is empty then. */
    method EraseFromTree(b: nat, item: Node, at: nat) returns (minBucket: nat)
      requires Consistent() && b < numBuckets && trees[b] != null && b == Slot(home, trees, item.key) && b % 2 == 0
      requires at < |trees[b].nodes| && trees[b].nodes[at] == item && item in nodes
      modifies `chains, `trees, `where, `nodes, table, ownTrees
      ensures minBucket == b
      ensures Consistent() && Removed(old(chains), old(where), old(nodes), b, at, item)
      ensures forall a | 0 <= a < numBuckets && EvenOf(a) != b :: table[a] == old(table[a])
      ensures b + 1 < numBuckets && table[b] == table[b + 1]
    {
      hide Shaped, Stores, Without, SameNodes, Slot, Hashes;
      minBucket := b;
      Sizes();
      NodeIsNamed(item);
      TreeHolds(b);
      TreesDiffer(b);
      SameNodesRemove(where, nodes, item);
      var tree := table[b] as Tree;
      ghost var c := Without(chains[b], at);
      if |chains[b]| > 1 {
        RemoveShaped(home, chains, trees, where, item.key, at);
      } else {
        DropTreeShaped(home, chains, trees, where, item.key);
        WithoutOnly(chains[b], at);
      }
      WithoutIsIn(chains[b], at);
      tree.EraseAt(at);
      TreeStores(tree, b, c);
      if |tree.nodes| == 0 {
        minBucket := EvenOf(b);
        FreeTree(minBucket);
      }
      ghost var chains' := chains[b := c];
      forall a | 0 <= a < numBuckets ensures Stores(table[a], a, chains'[a], trees[a]) {
        if EvenOf(a) == b {
          assert a == b || a == b + 1;
        } else {
          assert old(Stores(table[a], a, chains[a], trees[a]));
        }
      }
      Settle(chains', item);
    }

    /** The table without `item` is consistent again. */
    ghost method Settle(cs: seq<seq<Node>>, item: Node)
      requires numBuckets == table.Length == |trees| == |cs| && numBuckets > 0 && Hashes(home, numBuckets)
      requires Shaped(home, cs, trees, where - {item.key}) && SameNodes(where - {item.key}, nodes - {item})
      requires forall a | 0 <= a < numBuckets && trees[a] != null :: trees[a] in ownTrees
      requires forall a | 0 <= a < numBuckets :: Stores(table[a], a, cs[a], trees[a])
      modifies `chains, `where, `nodes
      ensures Consistent()
      ensures chains == cs && where == old(where) - {item.key} && nodes == old(nodes) - {item}
    {
      hide Hashes, Shaped, SameNodes, Stores;
      chains, where, nodes := cs, where - {item.key}, nodes - {item};
    }

    /** Empties the pair of buckets at `b`. */
    method FreeTree(b: nat)
      requires numBuckets == table.Length == |trees| == |chains| && b + 1 < numBuckets
      modifies table, `trees
      ensures trees == old(trees)[b := null][b + 1 := null]
      ensures table[b] == table[b + 1] == null && Stores(null, b, [], null) && Stores(null, b + 1, [], null)
      ensures forall a | 0 <= a < numBuckets && a != b && a != b + 1 :: table[a] == old(table[a])
    {
      hide Stores;
      table[b], table[b + 1] := null, null;
      trees := trees[b := null][b + 1 := null];
      ListIsStored(null, b, []);
      ListIsStored(null, b + 1, []);
    }

    /** Erases the node `item`, found at bucket `bucket`, at place `at` if that is a tree. */
    method Erase(item: Node, bucket: nat, isList: bool, at: nat) returns (ghost place: nat)
      requires Valid() && item in nodes && bucket == Slot(home, trees, item.key) < |trees|
      requires isList <==> trees[bucket] == null
      requires !isList ==> bucket % 2 == 0 && at < |trees[bucket].nodes| && trees[bucket].nodes[at] == item
      modifies `numElements, `firstNonNull, `chains, `trees, `where, `nodes, table, nodes`next, ownTrees
      ensures Valid() && Removed(old(chains), old(where), old(nodes), bucket, place, item)
    {
      hide Consistent, FirstIsExact, Slot, LoadIsBounded, Without, NodeAt, Hashes, Removed;
      NodeIsNamed(item);
      OneKeyLess(where, item.key);
      var b;
      b, place := EraseFromBucket(item, bucket, isList, at);
      CountErased(b);
    }

    /** Counts one node less, after bucket `b` may have become empty. */
    method CountErased(b: nat)
      requires Consistent() && numElements == |where| + 1 && LoadIsBounded(numElements, numBuckets)
      requires firstNonNull <= numBuckets == table.Length && forall a | 0 <= a < firstNonNull :: table[a] == null
      requires b != firstNonNull ==> FirstIsExact()
      modifies `numElements, `firstNonNull
      ensures Valid()
    {
      hide Consistent, FirstIsExact, LoadIsBounded;
      LoadAfterErase(numElements, numBuckets);
      numElements := numElements - 1;
      if b == firstNonNull {
        AdvanceFirst();
      }
    }

    /** The part of Erase that leaves the count and the first non-empty bucket alone. */
    method EraseFromBucket(item: Node, bucket: nat, isList: bool, at: nat) returns (b: nat, ghost place: nat)
      requires Consistent() && FirstIsExact() && item in nodes && bucket == Slot(home, trees, item.key) < |trees|
      requires isList <==> trees[bucket] == null
      requires !isList ==> bucket % 2 == 0 && at < |trees[bucket].nodes| && trees[bucket].nodes[at] == item
      modifies `chains, `trees, `where, `nodes, table, nodes`next, ownTrees
      ensures Consistent() && Removed(old(chains), old(where), old(nodes), bucket, place, item)
      ensures firstNonNull <= numBuckets == table.Length && forall a | 0 <= a < firstNonNull :: table[a] == null
      ensures b == bucket && (b != firstNonNull ==> FirstIsExact()) && where == old(where) - {item.key}
    {
      hide Consistent, Slot, Without;
      place := EntryIsUsed(item);
      b := bucket;
      if isList {
        EraseFromList(b, item, place);
      } else {
        place := at;
        b := EraseFromTree(b, item, at);
      }
    }

    /** Finds the first non-empty bucket again after the old one may have become empty. */
    method AdvanceFirst()
      requires firstNonNull <= numBuckets == table.Length
      requires forall a | 0 <= a < firstNonNull :: table[a] == null
      modifies `firstNonNull
      ensures FirstIsExact()
    {
      while firstNonNull < numBuckets && table[firstNonNull] == null
        invariant firstNonNull <= numBuckets
        invariant forall a | 0 <= a < firstNonNull :: table[a] == null
      {
        firstNonNull := firstNonNull + 1;
      }
    }

    /** The entry of the bucket that holds a node is not null. */
    lemma EntryIsUsed(item: Node) returns (i: nat)
      requires Consistent() && item in nodes
      ensures var b := Slot(home, trees, item.key);
              b < numBuckets == table.Length == |trees| == |chains| && i < |chains[b]| && chains[b][i] == item && table[b] != null
    {
      var b;
      b, i := WhereIs(item.key);
      EmptyEntry(b);
    }
  }

  lemma OneKeyLess(w: map<Key, Node>, k: Key)
    requires k in w
    ensures |w - {k}| == |w| - 1
  {
    assert w == (w - {k})[k := w[k]];
  }

  lemma WithoutOnly(c: seq<Node>, i: nat)
    requires i < |c| == 1
    ensures Without(c, i) == [] && c == [c[i]]
  {
  }

  lemma WithoutIsIn(c: seq<Node>, i: nat)
    requires i < |c|
    ensures |Without(c, i)| == |c| - 1
    ensures forall j | 0 <= j < |Without(c, i)| :: Without(c, i)[j] in c
  {
  }

  ghost function InsertedSoFar(ns: seq<Node>, c: seq<Node>, i: nat): (r: seq<Node>)
    requires i <= |c|
  {
    InsertAll(ns, c[..i])
  }

  lemma InsertedNone(ns: seq<Node>, c: seq<Node>)
    ensures InsertedSoFar(ns, c, 0) == ns
  {
  }

  lemma InsertedNext(ns: seq<Node>, c: seq<Node>, i: nat)
    requires i < |c|
    ensures InsertedSoFar(ns, c, i + 1) == InsertOrdered(InsertedSoFar(ns, c, i), c[i])
  {
    assert c[..i + 1][..i] == c[..i];
  }

  lemma InsertedAll(ns: seq<Node>, c: seq<Node>)
    ensures InsertedSoFar(ns, c, |c|) == InsertAll(ns, c)
  {
    assert c[..|c|] == c;
  }

  lemma ListIsStored(e: object?, b: nat, c: seq<Node>)
    requires e == NodeAt(c, 0) && Linked(c)
    ensures Stores(e, b, c, null)
  {
  }

  lemma TailLinked(c: seq<Node>)
    requires Linked(c) && c != []
    ensures Linked(c[1..]) && c[0].next == NodeAt(c[1..], 0)
  {
    forall j | 0 <= j < |c| - 1 ensures c[1..][j].next == After(c[1..], j) {
      assert c[1..][j] == c[j + 1];
    }
  }

  lemma FirstWithout(c: seq<Node>, i: nat)
    requires i < |c| && c[i] == c[0] && forall a, b | 0 <= a < b < |c| :: c[a] != c[b]
    ensures Without(c, i) == c[1..]
  {
    assert i == 0;
  }

  lemma TailWithout(c: seq<Node>, i: nat)
    requires 0 < i < |c| && forall a, b | 0 <= a < b < |c| :: c[a] != c[b]
    ensures var d := Without(c, i);
            d[0] == c[0] && d[1..] == Without(c[1..], i - 1) && c[0] !in d[1..]
  {
  }

  lemma HeadLinked(c: seq<Node>)
    requires c != [] && c[0].next == NodeAt(c[1..], 0) && Linked(c[1..])
    ensures Linked(c)
  {
    forall j | 0 <= j < |c| ensures c[j].next == After(c, j) {
      if j > 0 { assert c[j] == c[1..][j - 1]; }
    }
  }
}
