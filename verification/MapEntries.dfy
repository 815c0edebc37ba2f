/** Sequences of key-value entries, and the maps they stand for. */
module MapEntries {
  import opened MapNode
  import opened TraversalOrder

  datatype Entry = Entry(key: Key, value: Value)

  /** Assigning the entries one after the other: the last one of a key wins. */
  ghost function Fold(es: seq<Entry>): (r: map<Key, Value>) {
    if es == [] then map[] else Fold(es[..|es| - 1])[es[|es| - 1].key := es[|es| - 1].value]
  }

  ghost predicate DistinctKeys(es: seq<Entry>) {
    forall i, j | 0 <= i < j < |es| :: es[i].key != es[j].key
  }

  /** What the first `n` entries stand for. */
  ghost function FoldTo(es: seq<Entry>, n: nat): (r: map<Key, Value>)
    requires n <= |es|
  {
    Fold(es[..n])
  }

  lemma FoldNext(es: seq<Entry>, p: nat)
    requires p < |es|
    ensures Fold(es[..p + 1]) == Fold(es[..p])[es[p].key := es[p].value]
  {
    assert es[..p + 1] == es[..p] + [es[p]];
  }

  /** What the fold maps a key to: the value of its last entry. */
  lemma {:induction false} FoldIsLast(es: seq<Entry>, k: Key)
    ensures k in Fold(es) <==> exists i :: 0 <= i < |es| && es[i].key == k
    ensures forall i | 0 <= i < |es| && es[i].key == k && (forall j | i < j < |es| :: es[j].key != k) ::
              k in Fold(es) && Fold(es)[k] == es[i].value
  {
    if es != [] {
      var front, last := es[..|es| - 1], es[|es| - 1];
      assert es == front + [last];
      FoldIsLast(front, k);
      if last.key != k {
        forall i | 0 <= i < |es| && es[i].key == k && (forall j | i < j < |es| :: es[j].key != k)
          ensures k in Fold(es) && Fold(es)[k] == es[i].value
        {
          assert front[i] == es[i];
          assert forall j | i < j < |front| :: front[j] == es[j];
        }
      }
    }
  }

  /** Taking entry `p` over what `c` has after the first `p` entries. */
  lemma TakenOver(es: seq<Entry>, p: nat, c: map<Key, Value>)
    requires p < |es|
    ensures c + FoldTo(es, p + 1) == (c + FoldTo(es, p))[es[p].key := es[p].value]
  {
    FoldNext(es, p);
  }

  /** Taking entry `p` under what `c` has: only a new key gets its value. */
  lemma TakenUnder(es: seq<Entry>, p: nat, c: map<Key, Value>)
    requires p < |es| && DistinctKeys(es)
    ensures var m, k := FoldTo(es, p) + c, es[p].key;
            FoldTo(es, p + 1) + c == if k in m then m else m[k := es[p].value]
  {
    FoldNext(es, p);
    FoldIsLast(es[..p], es[p].key);
  }

  lemma NothingTaken(es: seq<Entry>, c: map<Key, Value>)
    ensures FoldTo(es, 0) + c == c && c + FoldTo(es, 0) == c
  {
  }

  lemma AllTaken(es: seq<Entry>)
    ensures FoldTo(es, |es|) == Fold(es)
  {
    assert es[..|es|] == es;
  }

  /** From place `p` on, the entries are those of the nodes in `order`, with the values that `c` gives. */
  ghost predicate Matches(es: seq<Entry>, order: seq<Node>, c: map<Key, Value>, p: nat) {
    p + |es| <= |order| && forall i | 0 <= i < |es| :: IsEntryOf(es[i], order[p + i], c)
  }

  ghost predicate IsEntryOf(e: Entry, n: Node, c: map<Key, Value>) {
    n.key in c && e == Entry(n.key, c[n.key])
  }

  lemma MatchesAt(es: seq<Entry>, order: seq<Node>, c: map<Key, Value>, p: nat, i: nat)
    requires Matches(es, order, c, p) && i < |es|
    ensures p + i < |order| && IsEntryOf(es[i], order[p + i], c)
  {
  }

  lemma EndOf(order: seq<Node>)
    ensures NodeAt(order, |order|) == null
  {
  }

  /** The nodes `order`, with the values that `c` gives their keys. */
  ghost function EntriesOf(order: seq<Node>, c: map<Key, Value>): (es: seq<Entry>)
    requires forall p | 0 <= p < |order| :: order[p].key in c
    ensures |es| == |order|
    ensures forall p | 0 <= p < |es| :: es[p] == Entry(order[p].key, c[order[p].key])
  {
    seq(|order|, p requires 0 <= p < |order| => Entry(order[p].key, c[order[p].key]))
  }

  /** When the nodes are those of the keys of `c`, their entries make up `c`. */
  lemma EntriesMake(order: seq<Node>, w: map<Key, Node>, c: map<Key, Value>)
    requires Lists(order, w) && c.Keys == w.Keys && forall k | k in w :: w[k].key == k
    ensures DistinctKeys(EntriesOf(order, c)) && Fold(EntriesOf(order, c)) == c
  {
    hide Fold;
    var es := EntriesOf(order, c);
    forall i, j | 0 <= i < j < |es| ensures es[i].key != es[j].key {
      assert order[i] != order[j];
    }
    forall k ensures k in Fold(es) <==> k in c {
      FoldIsLast(es, k);
      if k in c {
        var j :| 0 <= j < |order| && order[j] == w[k];
        assert es[j].key == k;
      }
    }
    forall k | k in c ensures Fold(es)[k] == c[k] {
      FoldIsLast(es, k);
      var j :| 0 <= j < |order| && order[j] == w[k];
      assert es[j].key == k;
    }
  }

  lemma EntriesBegin(order: seq<Node>, c: map<Key, Value>)
    requires forall p | 0 <= p < |order| :: order[p].key in c
    ensures EntriesOf(order, c)[..0] == []
  {
  }

  lemma EntriesNext(order: seq<Node>, c: map<Key, Value>, p: nat)
    requires forall p | 0 <= p < |order| :: order[p].key in c
    requires p < |order|
    ensures EntriesOf(order, c)[..p + 1] == EntriesOf(order, c)[..p] + [Entry(order[p].key, c[order[p].key])]
  {
  }

  lemma EntriesDone(order: seq<Node>, c: map<Key, Value>, p: nat)
    requires forall p | 0 <= p < |order| :: order[p].key in c
    requires p == |order|
    ensures EntriesOf(order, c)[..p] == EntriesOf(order, c)
  {
  }
}
