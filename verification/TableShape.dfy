/** What a bucket table looks like, stated without the heap: which nodes each bucket
    holds, which pairs of buckets share a tree, and where each key must be.  `home` gives the
    bucket number of every key. */
module TableShape {
  import opened MapNode
  import opened LoadFactor

  /** No linked list is longer than this. */
  const MAX_LIST: nat := 8

  /** `b ^ 1` */
  function Buddy(b: nat): (r: nat) {
    if b % 2 == 0 then b + 1 else b - 1
  }

  /** `b & ~1` */
  function EvenOf(b: nat): (r: nat) {
    b - b % 2
  }

  /** The bucket under which key `k` is kept: a pair that shares a tree uses its even one. */
  ghost function Slot(home: Key -> nat, ts: seq<Tree?>, k: Key): (b: nat)
    ensures b <= home(k)
  {
    var b := home(k);
    if b < |ts| && ts[b] != null then EvenOf(b) else b
  }

  /** Bucket `b` holds exactly the nodes `c`; `w` names the node of every key. */
  ghost predicate BucketShaped(home: Key -> nat, ts: seq<Tree?>, w: map<Key, Node>, b: nat, c: seq<Node>)
    requires b < |ts|
  {
    && (forall i | 0 <= i < |c| :: Slot(home, ts, c[i].key) == b && c[i].key in w && w[c[i].key] == c[i])
    && (forall i, j | 0 <= i < j < |c| :: c[i] != c[j])
    && (ts[b] == null ==> |c| <= MAX_LIST)
    && (ts[b] != null ==> (if b % 2 == 0 then c != [] && Ordered(c) else c == []))
  }

  ghost predicate Shaped(home: Key -> nat, cs: seq<seq<Node>>, ts: seq<Tree?>, w: map<Key, Node>) {
    && |cs| == |ts| && IsTableSize(|ts|)
    && (forall k :: home(k) < |ts|)
    && (forall b | 0 <= b < |ts| :: Buddy(b) < |ts| && ts[Buddy(b)] == ts[b])
    && (forall b | 0 <= b < |ts| :: BucketShaped(home, ts, w, b, cs[b]))
    && (forall k | k in w :: w[k].key == k && w[k] in cs[Slot(home, ts, k)])
  }

  /** `ns` are the nodes that `w` names. */
  ghost predicate SameNodes(w: map<Key, Node>, ns: set<Node>) {
    && (forall n | n in ns :: n.key in w && w[n.key] == n)
    && (forall k | k in w :: w[k].key == k && w[k] in ns)
  }

  lemma SameNodesAdd(w: map<Key, Node>, ns: set<Node>, n: Node)
    requires SameNodes(w, ns) && n.key !in w
    ensures SameNodes(w[n.key := n], ns + {n}) && n !in ns
  {
  }

  lemma SameNodesRemove(w: map<Key, Node>, ns: set<Node>, n: Node)
    requires SameNodes(w, ns) && n in ns
    ensures SameNodes(w - {n.key}, ns - {n})
  {
  }

  /** A table with no nodes. */
  ghost function NoNodes(n: nat): (cs: seq<seq<Node>>)
    ensures |cs| == n && forall b | 0 <= b < n :: cs[b] == []
  {
    seq(n, i => [])
  }

  ghost function NoTrees(n: nat): (ts: seq<Tree?>)
    ensures |ts| == n && forall b | 0 <= b < n :: ts[b] == null
  {
    seq(n, i => null)
  }

  lemma EmptyShaped(home: Key -> nat, n: nat)
    requires IsTableSize(n) && forall k :: home(k) < n
    ensures Shaped(home, NoNodes(n), NoTrees(n), map[])
  {
    TableSizeIsEven(n);
  }

  /** No node is in two buckets. */
  lemma ChainsDisjoint(home: Key -> nat, cs: seq<seq<Node>>, ts: seq<Tree?>, w: map<Key, Node>, a: nat, b: nat)
    requires Shaped(home, cs, ts, w) && a < |cs| && b < |cs| && a != b
    ensures forall i | 0 <= i < |cs[a]| :: cs[a][i] !in cs[b]
  {
    assert BucketShaped(home, ts, w, a, cs[a]);
    assert BucketShaped(home, ts, w, b, cs[b]);
  }

  /** A node whose key is not in the table is in none of its buckets. */
  lemma NotStored(home: Key -> nat, cs: seq<seq<Node>>, ts: seq<Tree?>, w: map<Key, Node>, n: Node)
    requires Shaped(home, cs, ts, w) && n.key !in w
    ensures forall a | 0 <= a < |cs| :: n !in cs[a]
  {
    forall a | 0 <= a < |cs| ensures n !in cs[a] {
      assert BucketShaped(home, ts, w, a, cs[a]);
    }
  }

  /** Adding one node to the bucket it belongs to keeps the shape. */
  lemma AddShaped(home: Key -> nat, cs: seq<seq<Node>>, ts: seq<Tree?>, w: map<Key, Node>,
                  n: Node, c: seq<Node>)
    requires Shaped(home, cs, ts, w) && n.key !in w
    requires var s, w' := Slot(home, ts, n.key), w[n.key := n];
             && s < |ts| && BucketShaped(home, ts, w', s, c)
             && n in c && forall i | 0 <= i < |cs[s]| :: cs[s][i] in c
    ensures Shaped(home, cs[Slot(home, ts, n.key) := c], ts, w[n.key := n])
  {
    var s, w' := Slot(home, ts, n.key), w[n.key := n];
    var cs' := cs[s := c];
    forall a | 0 <= a < |ts| && a != s ensures BucketShaped(home, ts, w', a, cs'[a]) {
      assert BucketShaped(home, ts, w, a, cs[a]);
    }
    forall k | k in w' ensures w'[k].key == k && w'[k] in cs'[Slot(home, ts, k)] {
    }
  }

  /** Pushing a new node on a list that is not too long keeps the shape. */
  lemma PushShaped(home: Key -> nat, cs: seq<seq<Node>>, ts: seq<Tree?>, w: map<Key, Node>, b: nat, n: Node)
    requires Shaped(home, cs, ts, w) && n.key !in w
    requires b == home(n.key) && ts[b] == null && |cs[b]| < MAX_LIST
    ensures Shaped(home, cs[b := [n] + cs[b]], ts, w[n.key := n])
  {
    var c := [n] + cs[b];
    assert BucketShaped(home, ts, w, b, cs[b]);
    assert c[0] == n;
    forall i | 0 <= i < |cs[b]| ensures cs[b][i] in c { assert c[i + 1] == cs[b][i]; }
    AddShaped(home, cs, ts, w, n, c);
  }

  /** Inserting a new node into the tree of its pair keeps the shape. */
  lemma InsertShaped(home: Key -> nat, cs: seq<seq<Node>>, ts: seq<Tree?>, w: map<Key, Node>, e: nat, n: Node)
    requires Shaped(home, cs, ts, w) && n.key !in w
    requires e == Slot(home, ts, n.key) && e < |ts| && ts[e] != null
    ensures Shaped(home, cs[e := InsertOrdered(cs[e], n)], ts, w[n.key := n])
  {
    assert BucketShaped(home, ts, w, e, cs[e]);
    assert e == home(n.key) || e == Buddy(home(n.key));
    InsertOrderedAdds(cs[e], n);
    InsertOrderedKeepsOrder(cs[e], n);
    AddShaped(home, cs, ts, w, n, InsertOrdered(cs[e], n));
  }

  /** Two buckets of a pair that are both lists cannot start with the same node: this is
      why equal entries can stand for "shares a tree" without a tag bit. */
  lemma HeadsDiffer(home: Key -> nat, cs: seq<seq<Node>>, ts: seq<Tree?>, w: map<Key, Node>, b: nat)
    requires Shaped(home, cs, ts, w) && b < |ts| && ts[b] == null
    requires cs[b] != [] && cs[Buddy(b)] != []
    ensures cs[b][0] != cs[Buddy(b)][0]
  {
    assert BucketShaped(home, ts, w, b, cs[b]);
    assert BucketShaped(home, ts, w, Buddy(b), cs[Buddy(b)]);
  }

  /** Tables `cs'`, `ts'` differ from `cs`, `ts` only at the pair of `b`, which now shares
      the tree `t` holding `c`. */
  ghost predicate Converted(cs: seq<seq<Node>>, ts: seq<Tree?>, cs': seq<seq<Node>>, ts': seq<Tree?>,
                            b: nat, t: Tree, c: seq<Node>)
  {
    var d := Buddy(b);
    && |cs| == |ts| == |cs'| == |ts'| && b < |ts| && d < |ts|
    && cs'[EvenOf(b)] == c && cs'[EvenOf(b) + 1] == []
    && ts'[b] == t && ts'[d] == t
    && (forall a | 0 <= a < |ts| && a != b && a != d :: cs'[a] == cs[a] && ts'[a] == ts[a])
  }

  /** The table entry of a bucket. */
  ghost function EntryOf(c: seq<Node>, t: Tree?): (r: object?) {
    if t != null then t else if c == [] then null else c[0]
  }

  /** Comparing the entries of a pair tells trees, non-empty lists and empty lists apart. */
  lemma EntriesTell(home: Key -> nat, cs: seq<seq<Node>>, ts: seq<Tree?>, w: map<Key, Node>, b: nat)
    requires Shaped(home, cs, ts, w) && b < |ts|
    ensures Buddy(b) < |ts| && ts[Buddy(b)] == ts[b]
    ensures var e, e' := EntryOf(cs[b], ts[b]), EntryOf(cs[Buddy(b)], ts[Buddy(b)]);
            && (ts[b] != null <==> e != null && e == e')
            && (ts[b] == null && cs[b] != [] <==> e != null && e != e')
  {
    assert ts[Buddy(b)] == ts[b];
    if ts[b] == null && cs[b] != [] && cs[Buddy(b)] != [] {
      HeadsDiffer(home, cs, ts, w, b);
    }
  }

  /** Gathering the two lists of a pair into one tree keeps the shape. */
  lemma ConvertShaped(home: Key -> nat, cs: seq<seq<Node>>, ts: seq<Tree?>,
                      cs': seq<seq<Node>>, ts': seq<Tree?>, w: map<Key, Node>,
                      b: nat, t: Tree, c: seq<Node>)
    requires Shaped(home, cs, ts, w) && b < |ts| && ts[b] == null && cs[b] != []
    requires Converted(cs, ts, cs', ts', b, t, c) && Ordered(c)
    requires forall i | 0 <= i < |c| :: c[i] in cs[b] || c[i] in cs[Buddy(b)]
    requires forall i | 0 <= i < |cs[b]| :: cs[b][i] in c
    requires forall i | 0 <= i < |cs[Buddy(b)]| :: cs[Buddy(b)][i] in c
    ensures Shaped(home, cs', ts', w)
  {
    hide BucketShaped;
    forall k | k in w ensures w[k].key == k && w[k] in cs'[Slot(home, ts', k)] {
      ConvertCovers(home, cs, ts, cs', ts', w, b, t, c, k);
    }
    forall a | 0 <= a < |ts'| ensures BucketShaped(home, ts', w, a, cs'[a]) {
      if a == b || a == Buddy(b) {
        ConvertShares(home, cs, ts, cs', ts', w, b, t, c);
      } else {
        ConvertKeeps(home, cs, ts, cs', ts', w, b, t, c, a);
      }
    }
  }

  lemma ConvertKeeps(home: Key -> nat, cs: seq<seq<Node>>, ts: seq<Tree?>,
                     cs': seq<seq<Node>>, ts': seq<Tree?>, w: map<Key, Node>,
                     b: nat, t: Tree, c: seq<Node>, a: nat)
    requires Shaped(home, cs, ts, w) && b < |ts|
    requires Converted(cs, ts, cs', ts', b, t, c)
    requires a < |ts| && a != b && a != Buddy(b)
    ensures BucketShaped(home, ts', w, a, cs'[a])
  {
    assert BucketShaped(home, ts, w, a, cs[a]);
  }

  /** The nodes of two buddy lists, put into one tree. */
  ghost function PairTree(cs: seq<seq<Node>>, b: nat): (r: seq<Node>)
    requires b < |cs| && Buddy(b) < |cs|
  {
    InsertAll(InsertAll([], cs[b]), cs[Buddy(b)])
  }

  /** The table after buckets `b` and its buddy come to share the tree `t`. */
  ghost function ConvertedChains(cs: seq<seq<Node>>, b: nat): (r: seq<seq<Node>>)
    requires b < |cs| && Buddy(b) < |cs|
    ensures |r| == |cs|
  {
    seq(|cs|, a requires 0 <= a < |cs| =>
      if a == EvenOf(b) then PairTree(cs, b) else if a == EvenOf(b) + 1 then [] else cs[a])
  }

  ghost function ConvertedTrees(ts: seq<Tree?>, b: nat, t: Tree): (r: seq<Tree?>)
    ensures |r| == |ts|
  {
    seq(|ts|, a requires 0 <= a < |ts| => if EvenOf(a) == EvenOf(b) then t else ts[a])
  }

  lemma PairShaped(home: Key -> nat, cs: seq<seq<Node>>, ts: seq<Tree?>, w: map<Key, Node>, b: nat, t: Tree)
    requires Shaped(home, cs, ts, w) && b < |ts| && ts[b] == null && cs[b] != []
    ensures Buddy(b) < |ts| && ts[Buddy(b)] == null
    ensures Shaped(home, ConvertedChains(cs, b), ConvertedTrees(ts, b, t), w)
    ensures forall i | 0 <= i < |PairTree(cs, b)| :: PairTree(cs, b)[i] in cs[b] || PairTree(cs, b)[i] in cs[Buddy(b)]
  {
    hide BucketShaped, PairTree, Slot, Ordered, Converted, ConvertedChains, ConvertedTrees;
    PairTreeHolds(home, cs, ts, w, b);
    PairIsConverted(cs, ts, b, t);
    assert ts[Buddy(b)] == ts[b];
    ConvertShaped(home, cs, ts, ConvertedChains(cs, b), ConvertedTrees(ts, b, t), w, b, t, PairTree(cs, b));
  }

  lemma PairIsConverted(cs: seq<seq<Node>>, ts: seq<Tree?>, b: nat, t: Tree)
    requires |cs| == |ts| && b < |ts| && Buddy(b) < |ts|
    ensures Converted(cs, ts, ConvertedChains(cs, b), ConvertedTrees(ts, b, t), b, t, PairTree(cs, b))
  {
    hide PairTree;
  }

  lemma PairTreeHolds(home: Key -> nat, cs: seq<seq<Node>>, ts: seq<Tree?>, w: map<Key, Node>, b: nat)
    requires Shaped(home, cs, ts, w) && b < |ts|
    ensures Buddy(b) < |ts|
    ensures var c := PairTree(cs, b);
            && Ordered(c)
            && (forall i | 0 <= i < |c| :: c[i] in cs[b] || c[i] in cs[Buddy(b)])
            && (forall i | 0 <= i < |cs[b]| :: cs[b][i] in c)
            && (forall i | 0 <= i < |cs[Buddy(b)]| :: cs[Buddy(b)][i] in c)
  {
    var d := Buddy(b);
    assert BucketShaped(home, ts, w, b, cs[b]);
    assert BucketShaped(home, ts, w, d, cs[d]);
    InsertAllAdds([], cs[b]);
    InsertAllAdds(InsertAll([], cs[b]), cs[d]);
  }

  lemma ConvertShares(home: Key -> nat, cs: seq<seq<Node>>, ts: seq<Tree?>,
                      cs': seq<seq<Node>>, ts': seq<Tree?>, w: map<Key, Node>,
                      b: nat, t: Tree, c: seq<Node>)
    requires Shaped(home, cs, ts, w) && b < |ts| && ts[b] == null && cs[b] != []
    requires Converted(cs, ts, cs', ts', b, t, c) && Ordered(c)
    requires forall i | 0 <= i < |c| :: c[i] in cs[b] || c[i] in cs[Buddy(b)]
    requires forall i | 0 <= i < |cs[b]| :: cs[b][i] in c
    ensures BucketShaped(home, ts', w, b, cs'[b])
    ensures BucketShaped(home, ts', w, Buddy(b), cs'[Buddy(b)])
  {
    var e, d := EvenOf(b), Buddy(b);
    assert BucketShaped(home, ts, w, b, cs[b]);
    assert BucketShaped(home, ts, w, d, cs[d]);
    assert c != [] by { assert cs[b][0] in c; }
    forall i | 0 <= i < |c| ensures Slot(home, ts', c[i].key) == e && c[i].key in w && w[c[i].key] == c[i] {
      assert Slot(home, ts, c[i].key) == b || Slot(home, ts, c[i].key) == d;
    }
  }

  lemma ConvertCovers(home: Key -> nat, cs: seq<seq<Node>>, ts: seq<Tree?>,
                      cs': seq<seq<Node>>, ts': seq<Tree?>, w: map<Key, Node>,
                      b: nat, t: Tree, c: seq<Node>, k: Key)
    requires Shaped(home, cs, ts, w) && b < |ts| && ts[b] == null
    requires Converted(cs, ts, cs', ts', b, t, c)
    requires forall i | 0 <= i < |cs[b]| :: cs[b][i] in c
    requires forall i | 0 <= i < |cs[Buddy(b)]| :: cs[Buddy(b)][i] in c
    requires k in w
    ensures w[k] in cs'[Slot(home, ts', k)]
  {
    var s := Slot(home, ts, k);
    assert w[k] in cs[s];
    if s == b || s == Buddy(b) { assert w[k] in c; }
  }

  /** Removing one node from its bucket keeps the shape, as long as a tree does not become empty. */
  lemma RemoveShaped(home: Key -> nat, cs: seq<seq<Node>>, ts: seq<Tree?>, w: map<Key, Node>, k: Key, i: nat)
    requires Shaped(home, cs, ts, w) && k in w
    requires var s := Slot(home, ts, k); i < |cs[s]| && cs[s][i] == w[k] && (ts[s] != null ==> |cs[s]| > 1)
    ensures var s := Slot(home, ts, k); Shaped(home, cs[s := Without(cs[s], i)], ts, w - {k})
  {
    hide BucketShaped, Slot, Without;
    var s, w' := Slot(home, ts, k), w - {k};
    var cs' := cs[s := Without(cs[s], i)];
    forall a | 0 <= a < |ts| ensures BucketShaped(home, ts, w', a, cs'[a]) {
      if a == s {
        RemoveFromBucket(home, cs, ts, w, k, i);
      } else {
        RemoveElsewhere(home, cs, ts, w, k, a);
      }
    }
    forall j | j in w' ensures w'[j].key == j && w'[j] in cs'[Slot(home, ts, j)] {
      if Slot(home, ts, j) == s { StaysIn(cs[s], i, w[j]); }
    }
  }

  /** The bucket that loses the node. */
  lemma RemoveFromBucket(home: Key -> nat, cs: seq<seq<Node>>, ts: seq<Tree?>, w: map<Key, Node>, k: Key, i: nat)
    requires Shaped(home, cs, ts, w) && k in w
    requires var s := Slot(home, ts, k); i < |cs[s]| && cs[s][i] == w[k] && (ts[s] != null ==> |cs[s]| > 1)
    ensures var s := Slot(home, ts, k); BucketShaped(home, ts, w - {k}, s, Without(cs[s], i))
  {
    hide Slot;
    assert BucketShaped(home, ts, w, Slot(home, ts, k), cs[Slot(home, ts, k)]);
  }

  /** The other buckets. */
  lemma RemoveElsewhere(home: Key -> nat, cs: seq<seq<Node>>, ts: seq<Tree?>, w: map<Key, Node>, k: Key, a: nat)
    requires Shaped(home, cs, ts, w) && k in w && a < |ts| && a != Slot(home, ts, k)
    ensures BucketShaped(home, ts, w - {k}, a, cs[a])
  {
    hide Slot;
    assert BucketShaped(home, ts, w, a, cs[a]);
  }

  lemma StaysIn(c: seq<Node>, i: nat, n: Node)
    requires i < |c| && n in c && n != c[i]
    ensures n in Without(c, i)
  {
    var m :| 0 <= m < |c| && c[m] == n;
    assert Without(c, i)[if m < i then m else m - 1] == n;
  }

  /** Removing the last node of a tree, and the tree with it, keeps the shape. */
  lemma DropTreeShaped(home: Key -> nat, cs: seq<seq<Node>>, ts: seq<Tree?>, w: map<Key, Node>, k: Key)
    requires Shaped(home, cs, ts, w) && k in w
    requires var s := Slot(home, ts, k); ts[s] != null && cs[s] == [w[k]]
    ensures var s := Slot(home, ts, k);
            Shaped(home, cs[s := []], ts[s := null][s + 1 := null], w - {k})
  {
    var s, w' := Slot(home, ts, k), w - {k};
    assert BucketShaped(home, ts, w, s, cs[s]);
    assert Buddy(s) == s + 1;
    var cs', ts' := cs[s := []], ts[s := null][s + 1 := null];
    forall a | 0 <= a < |ts| ensures BucketShaped(home, ts', w', a, cs'[a]) {
      assert BucketShaped(home, ts, w, a, cs[a]);
    }
    forall j | j in w' ensures w'[j].key == j && w'[j] in cs'[Slot(home, ts', j)] {
      if Slot(home, ts, j) == s { assert false; }
    }
    forall a | 0 <= a < |ts'| ensures Buddy(a) < |ts'| && ts'[Buddy(a)] == ts'[a] {
      assert ts[Buddy(a)] == ts[a];
    }
  }

  ghost function NodesOf(c: seq<Node>): (r: set<Node>) {
    set n | n in c
  }

  /** The nodes of `c`, found by their keys. */
  ghost function ByKey(c: seq<Node>): (r: map<Key, Node>) {
    if c == [] then map[] else ByKey(c[..|c| - 1])[c[|c| - 1].key := c[|c| - 1]]
  }

  lemma {:induction false} ByKeyHolds(c: seq<Node>)
    ensures forall k | k in ByKey(c) :: ByKey(c)[k].key == k && ByKey(c)[k] in c
    ensures forall i | 0 <= i < |c| :: c[i].key in ByKey(c)
  {
    if c != [] {
      var front := c[..|c| - 1];
      assert c == front + [c[|c| - 1]];
      ByKeyHolds(front);
    }
  }

  /** Map `w`, and nodes `ns`, with the first `i` nodes of `c`. */
  ghost function NamedSoFar(w: map<Key, Node>, c: seq<Node>, i: nat): (r: map<Key, Node>)
    requires i <= |c|
  {
    w + ByKey(c[..i])
  }

  ghost function NodesSoFar(ns: set<Node>, c: seq<Node>, i: nat): (r: set<Node>)
    requires i <= |c|
  {
    ns + NodesOf(c[..i])
  }

  lemma PrefixEmpty(w: map<Key, Node>, ns: set<Node>, c: seq<Node>)
    ensures NamedSoFar(w, c, 0) == w && NodesSoFar(ns, c, 0) == ns
  {
  }

  lemma PrefixNext(w: map<Key, Node>, ns: set<Node>, c: seq<Node>, i: nat)
    requires i < |c|
    ensures NamedSoFar(w, c, i + 1) == NamedSoFar(w, c, i)[c[i].key := c[i]]
    ensures NodesSoFar(ns, c, i + 1) == NodesSoFar(ns, c, i) + {c[i]}
    ensures NodesSoFar(ns, c, i) <= ns + NodesOf(c)
  {
    assert c[..i + 1] == c[..i] + [c[i]];
  }

  lemma PrefixFull(w: map<Key, Node>, ns: set<Node>, c: seq<Node>)
    ensures NamedSoFar(w, c, |c|) == w + ByKey(c) && NodesSoFar(ns, c, |c|) == ns + NodesOf(c)
  {
    assert c[..|c|] == c;
  }

  /** The part of `w` kept in the buckets before bucket `i`. */
  ghost function Below(home: Key -> nat, ts: seq<Tree?>, w: map<Key, Node>, i: nat): (r: map<Key, Node>) {
    map k | k in w && Slot(home, ts, k) < i :: w[k]
  }

  lemma BelowNext(home: Key -> nat, cs: seq<seq<Node>>, ts: seq<Tree?>, w: map<Key, Node>, i: nat)
    requires Shaped(home, cs, ts, w) && i < |cs|
    ensures Below(home, ts, w, i + 1) == Below(home, ts, w, i) + ByKey(cs[i])
    ensures forall j | 0 <= j < |cs[i]| :: cs[i][j].key !in Below(home, ts, w, i)
    ensures forall a, b | 0 <= a < b < |cs[i]| :: cs[i][a].key != cs[i][b].key
  {
    hide Slot;
    assert BucketShaped(home, ts, w, i, cs[i]);
    ByKeyHolds(cs[i]);
    var m, m' := Below(home, ts, w, i) + ByKey(cs[i]), Below(home, ts, w, i + 1);
    forall k | k in m ensures k in m' && m'[k] == m[k] {
      if k in ByKey(cs[i]) {
        var j :| 0 <= j < |cs[i]| && cs[i][j] == ByKey(cs[i])[k];
      }
    }
    forall k | k in m' ensures k in m {
      if Slot(home, ts, k) == i {
        var j :| 0 <= j < |cs[i]| && cs[i][j] == w[k];
      }
    }
  }

  /** All nodes in buckets are owned. */
  lemma ChainNodes(home: Key -> nat, cs: seq<seq<Node>>, ts: seq<Tree?>, w: map<Key, Node>, ns: set<Node>)
    requires Shaped(home, cs, ts, w) && SameNodes(w, ns)
    ensures forall b, j | 0 <= b < |cs| && 0 <= j < |cs[b]| :: cs[b][j] in ns
  {
    hide Slot;
    forall b | 0 <= b < |cs| ensures forall j | 0 <= j < |cs[b]| :: cs[b][j] in ns {
      assert BucketShaped(home, ts, w, b, cs[b]);
    }
  }

  /** A pair of buckets shares a tree, or none of the two does. */
  lemma PairsAgree(home: Key -> nat, cs: seq<seq<Node>>, ts: seq<Tree?>, w: map<Key, Node>, b: nat)
    requires Shaped(home, cs, ts, w) && b < |ts| && b % 2 == 0
    ensures b + 1 < |ts| && ts[b + 1] == ts[b] && (ts[b] != null ==> cs[b + 1] == [] && cs[b] != [])
  {
    assert ts[Buddy(b)] == ts[b];
    assert BucketShaped(home, ts, w, b, cs[b]) && BucketShaped(home, ts, w, b + 1, cs[b + 1]);
  }

  /** Nodes of bucket `i` and of later ones have not been moved yet, and are apart. */
  lemma NotMovedYet(home: Key -> nat, cs: seq<seq<Node>>, ts: seq<Tree?>, w: map<Key, Node>, i: nat, ns: set<Node>)
    requires Shaped(home, cs, ts, w) && i < |cs| && SameNodes(Below(home, ts, w, i), ns)
    ensures forall b, j | i <= b < |cs| && 0 <= j < |cs[b]| :: cs[b][j] !in ns
    ensures forall b, j | i < b < |cs| && 0 <= j < |cs[b]| :: cs[b][j] !in cs[i]
  {
    hide Slot;
    forall b | i <= b < |cs| ensures forall j | 0 <= j < |cs[b]| :: cs[b][j] !in ns {
      assert BucketShaped(home, ts, w, b, cs[b]);
    }
    forall b | i < b < |cs| ensures forall j | 0 <= j < |cs[b]| :: cs[b][j] !in cs[i] {
      ChainsDisjoint(home, cs, ts, w, b, i);
    }
  }

  /** A pair that shares a tree is passed in one go. */
  lemma BelowPair(home: Key -> nat, cs: seq<seq<Node>>, ts: seq<Tree?>, w: map<Key, Node>, i: nat)
    requires Shaped(home, cs, ts, w) && i < |ts| && i % 2 == 0 && ts[i] != null
    ensures Below(home, ts, w, i + 2) == Below(home, ts, w, i) + ByKey(cs[i])
  {
    hide Slot;
    PairsAgree(home, cs, ts, w, i);
    BelowNext(home, cs, ts, w, i);
    BelowNext(home, cs, ts, w, i + 1);
  }

  lemma BelowAll(home: Key -> nat, cs: seq<seq<Node>>, ts: seq<Tree?>, w: map<Key, Node>)
    requires Shaped(home, cs, ts, w)
    ensures Below(home, ts, w, |ts|) == w
  {
    hide BucketShaped;
    var m := Below(home, ts, w, |ts|);
    forall k | k in w ensures k in m {
      assert home(k) < |ts|;
    }
  }

  lemma BelowNone(home: Key -> nat, cs: seq<seq<Node>>, ts: seq<Tree?>, w: map<Key, Node>, i: nat)
    requires Shaped(home, cs, ts, w)
    requires i <= |cs| && forall b | 0 <= b < i :: cs[b] == []
    ensures Below(home, ts, w, i) == map[]
  {
    hide BucketShaped, Slot;
    forall k | k in w ensures Slot(home, ts, k) >= i {
      assert w[k] in cs[Slot(home, ts, k)];
    }
  }

  /** `w` determines the nodes. */
  lemma SameNodesUnique(w: map<Key, Node>, ns: set<Node>, ms: set<Node>)
    requires SameNodes(w, ns) && SameNodes(w, ms)
    ensures ns == ms
  {
    assert forall n | n in ns :: w[n.key] in ms;
    assert forall n | n in ms :: w[n.key] in ns;
  }
}
