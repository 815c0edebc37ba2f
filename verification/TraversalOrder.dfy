/** The order in which iterators meet the nodes of a table: bucket after bucket, a tree's
    nodes at the even bucket of its pair. */
module TraversalOrder {
  import opened MapNode
  import opened TableShape

  /** The `i`-th node of a list, or the null that ends it. */
  ghost function NodeAt(c: seq<Node>, i: nat): (r: Node?) {
    if i < |c| then c[i] else null
  }

  /** The nodes of the buckets before bucket `b`. */
  ghost function Upto(cs: seq<seq<Node>>, b: nat): (r: seq<Node>)
    requires b <= |cs|
  {
    if b == 0 then [] else Upto(cs, b - 1) + cs[b - 1]
  }

  ghost function Order(cs: seq<seq<Node>>): (r: seq<Node>) {
    Upto(cs, |cs|)
  }

  lemma {:induction false} UptoPrefix(cs: seq<seq<Node>>, a: nat, b: nat)
    requires a <= b <= |cs|
    ensures Upto(cs, a) <= Upto(cs, b)
    decreases b
  {
    if a < b { UptoPrefix(cs, a, b - 1); }
  }

  /** Where the nodes of bucket `b` are in the order. */
  lemma OrderAt(cs: seq<seq<Node>>, b: nat, i: nat)
    requires b < |cs| && i < |cs[b]|
    ensures |Upto(cs, b)| + i < |Upto(cs, b + 1)| <= |Order(cs)|
    ensures Order(cs)[|Upto(cs, b)| + i] == cs[b][i]
  {
    UptoPrefix(cs, b + 1, |cs|);
  }

  lemma {:induction false} UptoEmpty(cs: seq<seq<Node>>, a: nat, b: nat)
    requires a <= b <= |cs| && forall x | a <= x < b :: cs[x] == []
    ensures Upto(cs, a) == Upto(cs, b)
    decreases b
  {
    if a < b { UptoEmpty(cs, a, b - 1); }
  }

  /** Removing a node from its bucket removes it from the order, and moves no other. */
  lemma {:induction false} UptoWithout(cs: seq<seq<Node>>, b: nat, i: nat, m: nat)
    requires b < |cs| && i < |cs[b]| && m <= |cs|
    ensures var cs', p := cs[b := Without(cs[b], i)], |Upto(cs, b)| + i;
            if m <= b then Upto(cs', m) == Upto(cs, m)
            else p < |Upto(cs, m)| && Upto(cs', m) == Without(Upto(cs, m), p)
    decreases m
  {
    hide Without;
    if m > 0 {
      var cs', p := cs[b := Without(cs[b], i)], |Upto(cs, b)| + i;
      UptoWithout(cs, b, i, m - 1);
      if m - 1 == b {
        WithoutRight(Upto(cs, b), cs[b], i);
      } else if m - 1 > b {
        WithoutLeft(Upto(cs, m - 1), cs[m - 1], p);
      }
    }
  }

  lemma WithoutRight(a: seq<Node>, c: seq<Node>, i: nat)
    requires i < |c|
    ensures Without(a + c, |a| + i) == a + Without(c, i)
  {
  }

  lemma WithoutLeft(a: seq<Node>, c: seq<Node>, i: nat)
    requires i < |a|
    ensures Without(a + c, i) == Without(a, i) + c
  {
  }

  /** Every node is in the order, and nothing else. */
  lemma {:induction false} UptoHolds(home: Key -> nat, cs: seq<seq<Node>>, ts: seq<Tree?>, w: map<Key, Node>, b: nat)
    requires Shaped(home, cs, ts, w) && b <= |cs|
    ensures forall p | 0 <= p < |Upto(cs, b)| ::
              var n := Upto(cs, b)[p]; Slot(home, ts, n.key) < b && n.key in w && w[n.key] == n
    ensures forall p, q | 0 <= p < q < |Upto(cs, b)| :: Upto(cs, b)[p] != Upto(cs, b)[q]
  {
    hide Slot;
    if b > 0 {
      UptoHolds(home, cs, ts, w, b - 1);
      assert BucketShaped(home, ts, w, b - 1, cs[b - 1]);
    }
  }

  /** Removing a node from its bucket removes its one occurrence from the order. */
  lemma OrderWithout(home: Key -> nat, cs: seq<seq<Node>>, ts: seq<Tree?>, w: map<Key, Node>, b: nat, i: nat, p: nat)
    requires Shaped(home, cs, ts, w) && b < |cs| && i < |cs[b]|
    requires p < |Order(cs)| && Order(cs)[p] == cs[b][i]
    ensures Order(cs[b := Without(cs[b], i)]) == Without(Order(cs), p)
  {
    hide Shaped, Slot, Without, Upto;
    OnePlace(home, cs, ts, w, b, i, p);
    UptoWithout(cs, b, i, |cs|);
  }

  /** The order repeats nothing, so the place of a node in it is known from its bucket. */
  lemma OnePlace(home: Key -> nat, cs: seq<seq<Node>>, ts: seq<Tree?>, w: map<Key, Node>, b: nat, i: nat, p: nat)
    requires Shaped(home, cs, ts, w) && b < |cs| && i < |cs[b]|
    requires p < |Order(cs)| && Order(cs)[p] == cs[b][i]
    ensures p == |Upto(cs, b)| + i
  {
    hide Shaped, Slot, Upto;
    OrderRepeatsNothing(home, cs, ts, w);
    OrderAt(cs, b, i);
  }

  lemma OrderRepeatsNothing(home: Key -> nat, cs: seq<seq<Node>>, ts: seq<Tree?>, w: map<Key, Node>)
    requires Shaped(home, cs, ts, w)
    ensures forall p, q | 0 <= p < q < |Order(cs)| :: Order(cs)[p] != Order(cs)[q]
  {
    hide Shaped, Slot, Upto;
    UptoHolds(home, cs, ts, w, |cs|);
  }

  lemma OrderCovers(home: Key -> nat, cs: seq<seq<Node>>, ts: seq<Tree?>, w: map<Key, Node>, k: Key)
    requires Shaped(home, cs, ts, w) && k in w
    ensures w[k] in Order(cs)
  {
    var b := Slot(home, ts, k);
    var i :| 0 <= i < |cs[b]| && cs[b][i] == w[k];
    OrderAt(cs, b, i);
  }

  /** The order lists the node of every key exactly once. */
  ghost predicate Lists(order: seq<Node>, w: map<Key, Node>) {
    && |order| == |w|
    && (forall p | 0 <= p < |order| :: order[p].key in w && w[order[p].key] == order[p])
    && (forall p, q | 0 <= p < q < |order| :: order[p] != order[q])
    && (forall k | k in w :: w[k] in order)
  }

  lemma OrderLists(home: Key -> nat, cs: seq<seq<Node>>, ts: seq<Tree?>, w: map<Key, Node>)
    requires Shaped(home, cs, ts, w)
    ensures Lists(Order(cs), w)
  {
    hide BucketShaped, Slot;
    UptoHolds(home, cs, ts, w, |cs|);
    forall k | k in w ensures w[k] in Order(cs) { OrderCovers(home, cs, ts, w, k); }
    CountKeys(Order(cs), w);
  }

  /** A list without repetitions of all nodes is as long as there are keys. */
  lemma {:induction false} CountKeys(order: seq<Node>, w: map<Key, Node>)
    requires forall p | 0 <= p < |order| :: order[p].key in w && w[order[p].key] == order[p]
    requires forall p, q | 0 <= p < q < |order| :: order[p] != order[q]
    requires forall k | k in w :: w[k] in order && w[k].key == k
    ensures |order| == |w|
  {
    if order == [] {
      forall k ensures k !in w { if k in w { assert false; } }
      assert w == map[];
    } else {
      var n := order[0];
      var w' := w - {n.key};
      forall k | k in w' ensures w'[k] in order[1..] {
        var p :| 0 <= p < |order| && order[p] == w[k];
        assert order[1..][p - 1] == w[k];
      }
      CountKeys(order[1..], w');
      assert w == w'[n.key := n];
    }
  }

  /** In `order`, node `n` is followed by `next`, or by the end. */
  ghost predicate Follows(order: seq<Node>, n: Node?, next: Node?) {
    forall p | 0 <= p < |order| && order[p] == n :: next == NodeAt(order, p + 1)
  }

  /** Node `n` is in `order` at place `p`, and nowhere else. */
  ghost predicate OnlyAt(order: seq<Node>, p: nat, n: Node) {
    p < |order| && order[p] == n && forall q | 0 <= q < |order| && order[q] == n :: q == p
  }

  lemma FollowsAt(order: seq<Node>, p: nat, n: Node, next: Node?)
    requires OnlyAt(order, p, n) && next == NodeAt(order, p + 1)
    ensures Follows(order, n, next)
  {
  }

  /** `order'` is `order` without `n`. */
  ghost predicate Drops(order: seq<Node>, order': seq<Node>, n: Node) {
    forall p | 0 <= p < |order| && order[p] == n :: order' == Without(order, p)
  }

  /** `order'` is `order` without `n`, and in the place of `n` stands `next`, or the end. */
  ghost predicate GoesOn(order: seq<Node>, order': seq<Node>, n: Node, next: Node?) {
    forall p | 0 <= p < |order| && order[p] == n :: order' == Without(order, p) && next == NodeAt(order', p)
  }

  /** After a node is removed, the one that followed it has taken its place. */
  lemma NextAfterErase(order: seq<Node>, order': seq<Node>, n: Node, next: Node?)
    requires Follows(order, n, next) && Drops(order, order', n)
    ensures GoesOn(order, order', n, next)
  {
    forall p | 0 <= p < |order| && order[p] == n ensures next == NodeAt(Without(order, p), p) {
      assert next == NodeAt(order, p + 1);
    }
  }
}
