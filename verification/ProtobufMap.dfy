/** The map container on top of the hash table. */
module ProtobufMap {
  import opened MapNode
  import opened TableShape
  import opened TraversalOrder
  import opened InnerHashMap
  import opened MapIterator
  import opened MapEntries

  lemma SetTwice(m: map<Key, Value>, k: Key, v: Value, v': Value)
    ensures m[k := v][k := v'] == m[k := v']
  {
  }

  /** `now` is `order` without the `n` nodes from place `p` on. */
  ghost predicate Cut(now: seq<Node>, order: seq<Node>, p: nat, n: nat) {
    p + n <= |order| && now == order[..p] + order[p + n..]
  }

  lemma CutNothing(order: seq<Node>, p: nat)
    requires p <= |order|
    ensures Cut(order, order, p, 0)
  {
  }

  lemma CutNext(now: seq<Node>, order: seq<Node>, p: nat, n: nat, q: nat)
    requires Cut(now, order, p, n) && n <= q - p && q <= |order|
    requires NodeAt(now, p) != NodeAt(now, q - n)
    ensures n < q - p && p < |now| && Cut(Without(now, p), order, p, n + 1)
    ensures NodeAt(now, q - n) == NodeAt(Without(now, p), q - n - 1)
  {
  }

  lemma CutDone(now: seq<Node>, order: seq<Node>, p: nat, n: nat, q: nat, w: map<Key, Node>)
    requires Cut(now, order, p, n) && n <= q - p && q <= |order|
    requires NodeAt(now, p) == NodeAt(now, q - n) && Lists(now, w)
    ensures now == order[..p] + order[q..]
  {
  }

  /** Whatever `c` still has, it has as before. */
  ghost predicate Keeps(c: map<Key, Value>, before: map<Key, Value>) {
    forall k | k in c :: k in before && c[k] == before[k]
  }

  lemma KeepsAll(c: map<Key, Value>)
    ensures Keeps(c, c)
  {
  }

  lemma KeepsWithout(c: map<Key, Value>, before: map<Key, Value>, k: Key)
    requires Keeps(c, before)
    ensures Keeps(c - {k}, before)
  {
  }

  class Map {
    const arena: nat  // where the map lives; 0 is the heap
    var defaultValue: Value
    var elements: InnerMap

    ghost predicate Valid()
      reads this, elements, elements.table, elements.nodes`next, elements.ownTrees
    {
      elements.Valid()
    }

    ghost function Repr(): (r: set<object>)
      reads this, elements
    {
      {this} + elements.Repr()
    }

    /** The mathematical map that this container stands for. */
    ghost function Contents(): (r: map<Key, Value>)
      requires Valid()
      reads this, elements, elements.table, elements.nodes, elements.ownTrees
    {
      elements.Contents()
    }

    /** The order in which iterators meet the nodes. */
    ghost function Order(): (r: seq<Node>)
      reads this, elements
    {
      OrderOf(elements)
    }

    constructor (hasher: Key -> nat, seed: nat, defaultValue: Value, arena: nat)
      ensures Valid() && fresh(Repr()) && Contents() == map[] && this.defaultValue == defaultValue && this.arena == arena
    {
      hide InnerMap.Consistent, InnerMap.FirstIsExact;
      this.defaultValue, this.arena := defaultValue, arena;
      elements := new InnerMap(hasher, seed);
    }

    method Size() returns (n: nat)
      requires Valid()
      ensures n == |Contents()|
    {
      n := elements.numElements;
      assert Contents().Keys == elements.where.Keys;
      assert |Contents()| == |Contents().Keys| && |elements.where| == |elements.where.Keys|;
    }

    /** An iterator at key `k`, or the end. */
    method Find(k: Key) returns (it: Iterator)
      requires Valid()
      ensures fresh(it) && it.m == elements
      ensures it.node != null <==> k in Contents()
      ensures it.node != null ==> it.Live() && it.node.key == k && it.node == elements.where[k]
    {
      hide elements.Consistent, Slot;
      var node, b, at := elements.FindHelper(k);
      it := new Iterator.At(elements, node, b);
      NodesAreNamed();
    }

    lemma NodesAreNamed()
      requires Valid()
      ensures elements.Consistent()
      ensures SameNodes(elements.where, elements.nodes)
    {
    }

    /** Inserts key `k` with value `v` if it is not present, and never overwrites. */
    method Insert(k: Key, v: Value) returns (n: Node, bucket: nat, inserted: bool)
      requires Valid()
      modifies elements, elements.table, elements.nodes`next, elements.ownTrees
      ensures Valid() && elements == old(elements) && fresh(Repr() - old(Repr()))
      ensures inserted <==> k !in old(Contents())
      ensures Contents() == if inserted then old(Contents())[k := v] else old(Contents())
      ensures !inserted ==> Order() == old(Order())
      ensures k in elements.where && elements.where[k] == n && n in elements.nodes && n.key == k
      ensures forall j | j in old(elements.where) :: j in elements.where && elements.where[j] == old(elements.where)[j]
    {
      hide elements.Valid, elements.Consistent, Slot, InnerMap.Repr;
      ghost var before := Contents();
      NodesAreNamed();
      n, bucket, inserted := elements.Insert(k, v);
      NodesAreNamed();
      assert forall j | j in before :: elements.where[j].value == before[j];
    }

    /** `operator[]`: the node of key `k`, made with the default value if there was none. */
    method At(k: Key) returns (n: Node)
      requires Valid()
      modifies elements, elements.table, elements.nodes`next, elements.ownTrees
      ensures Valid() && elements == old(elements) && fresh(Repr() - old(Repr()))
      ensures k in elements.where && elements.where[k] == n && n in elements.nodes && n.key == k
      ensures Contents() == if k in old(Contents()) then old(Contents()) else old(Contents())[k := defaultValue]
      ensures k in old(Contents()) ==> Order() == old(Order())
      ensures forall j | j in old(elements.where) :: j in elements.where && elements.where[j] == old(elements.where)[j]
    {
      hide Valid, elements.Valid, elements.Consistent, Contents;
      var b, inserted;
      n, b, inserted := Insert(k, defaultValue);
    }

    /** A node shows the value of its key. */
    lemma NodeShows(n: Node)
      requires Valid() && n in elements.nodes
      ensures n.key in Contents() && Contents()[n.key] == n.value
    {
      NodesAreNamed();
    }

    /** Writes through the reference to the value of node `n`. */
    method Write(n: Node, v: Value)
      requires Valid() && n in elements.nodes
      modifies n`value
      ensures Valid() && n.value == v && Contents() == old(Contents())[n.key := v]
    {
      hide elements.Valid, elements.Consistent;
      NodesAreNamed();
      ghost var before := Contents();
      assert forall k | k in elements.where && k != n.key :: elements.where[k] != n && elements.where[k].value == before[k];
      n.value := v;
      assert forall k | k in elements.where && k != n.key :: elements.where[k].value == before[k];
    }

    /** `map[k] = v` */
    method Set(k: Key, v: Value)
      requires Valid()
      modifies elements, elements.table, elements.nodes, elements.ownTrees
      ensures Valid() && elements == old(elements) && fresh(Repr() - old(Repr()))
      ensures Contents() == old(Contents())[k := v]
      ensures k in old(Contents()) ==> Order() == old(Order())
    {
      hide Valid, elements.Valid, elements.Consistent, Contents;
      ghost var before := Contents();
      var n := At(k);
      NodesAreNamed();
      SetTwice(before, k, defaultValue, v);
      Write(n, v);
    }

    method Begin() returns (it: Iterator)
      requires Valid()
      ensures fresh(it) && it.m == elements && it.node == NodeAt(Order(), 0)
    {
      it := new Iterator.Begin(elements);
    }

    /** What iterators meet. */
    lemma OrderFacts()
      requires Valid()
      ensures Lists(Order(), elements.where)
      ensures forall p | 0 <= p < |Order()| :: Order()[p] in elements.nodes
    {
      hide BucketShaped, Slot;
      OrderLists(elements.home, elements.chains, elements.trees, elements.where);
    }

    /** Erases the node of `i`. */
    method EraseNode(i: Iterator)
      requires Valid() && i.m == elements && i.Live()
      modifies elements, elements.table, elements.nodes`next, elements.ownTrees, i`bucketIndex
      ensures Valid() && elements == old(elements) && Repr() <= old(Repr()) && i.node == old(i.node)
      ensures Contents() == old(Contents()) - {i.node.key}
      ensures elements.where == old(elements.where) - {i.node.key}
      ensures Drops(old(Order()), Order(), i.node)
    {
      hide elements.Valid, elements.Consistent, Slot, Drops;
      NodesAreNamed();
      Erase(elements, i);
      NodesAreNamed();
    }

    /** `erase(iterator)`: erases the node at `pos`; the result goes on where `pos` would have. */
    method EraseAt(pos: Iterator) returns (next: Iterator)
      requires Valid() && pos.m == elements && pos.Live()
      modifies elements, elements.table, elements.nodes`next, elements.ownTrees
      ensures Valid() && elements == old(elements) && Repr() <= old(Repr())
      ensures Contents() == old(Contents()) - {pos.node.key}
      ensures fresh(next) && next.m == elements
      ensures GoesOn(old(Order()), Order(), pos.node, next.node)
    {
      hide elements.Valid, elements.Consistent, Contents, Slot, Follows, Drops, GoesOn;
      NodesAreNamed();
      next := new Iterator.At(elements, pos.node, pos.bucketIndex);
      var i := new Iterator.At(elements, pos.node, pos.bucketIndex);
      ghost var order := Order();
      next.Next();
      assert OrderOf(next.m) == order;
      EraseNode(i);
      NextAfterErase(order, Order(), pos.node, next.node);
    }

    /** `erase(first, last)`, for a range from place `p` to place `q` of the order. */
    method EraseRange(first: Iterator, last: Iterator, ghost p: nat, ghost q: nat)
      requires Valid() && first.m == elements && p <= q <= |Order()|
      requires first.node == NodeAt(Order(), p) && last.node == NodeAt(Order(), q)
      modifies elements, elements.table, elements.nodes`next, elements.ownTrees
      ensures Valid() && elements == old(elements) && Repr() <= old(Repr())
      ensures Order() == old(Order()[..p] + Order()[q..])
      ensures Keeps(Contents(), old(Contents()))
    {
      hide Valid, elements.Valid, elements.Consistent, Contents, Slot, Without, NodeAt, Cut, Lists, Keeps, Repr;
      var it := first;
      ghost var order, n := Order(), 0;
      CutNothing(order, p);
      KeepsAll(Contents());
      Parts();
      while it.node != last.node
        invariant Valid() && elements == old(elements) && Repr() <= old(Repr())
        invariant n <= q - p && Cut(Order(), order, p, n) && Keeps(Contents(), old(Contents()))
        invariant it.m == elements && it.node == NodeAt(Order(), p) && last.node == NodeAt(Order(), q - n)
        decreases q - p - n
      {
        Parts();
        ghost var now := Order();
        OrderFacts();
        CutNext(now, order, p, n, q);
        LiveAt(p);
        KeepsWithout(Contents(), old(Contents()), it.node.key);
        it := EraseAt(it);
        n := n + 1;
      }
      OrderFacts();
      CutDone(Order(), order, p, n, q, elements.where);
    }

    /** The node at a place of the order belongs to the table. */
    lemma LiveAt(p: nat)
      requires Valid() && p < |Order()|
      ensures elements.Consistent() && NodeAt(Order(), p) == Order()[p] && Order()[p] in elements.nodes
    {
      OrderFacts();
      NodesAreNamed();
    }

    /** Erases everything. */
    method Clear()
      requires Valid()
      modifies elements, elements.table, elements.nodes`next, elements.ownTrees
      ensures Valid() && elements == old(elements) && Repr() <= old(Repr())
      ensures Contents() == map[] && Order() == []
    {
      hide elements.Consistent, Slot;
      var first := Begin();
      var last := new Iterator.At(elements, null, 0);
      EraseRange(first, last, 0, |Order()|);
      OrderFacts();
    }

    /** The map stands for `c`, and iterators meet its nodes in the order `order`. */
    ghost predicate Stands(order: seq<Node>, c: map<Key, Value>)
      reads this, elements, elements.table, elements.nodes, elements.ownTrees
    {
      Valid() && Order() == order && Contents() == c
    }

    lemma StandsFor(order: seq<Node>, c: map<Key, Value>)
      requires Stands(order, c)
      ensures Valid() && Order() == order && Contents() == c
    {
    }

    lemma StandsAs(order: seq<Node>, c: map<Key, Value>)
      requires Valid() && Order() == order && Contents() == c
      ensures Stands(order, c)
    {
    }

    /** An iteration meets every key once, with its value. */
    lemma IterationMeets()
      requires Valid()
      ensures forall p | 0 <= p < |Order()| :: Order()[p].key in Contents()
      ensures var es := EntriesOf(Order(), Contents()); DistinctKeys(es) && Fold(es) == Contents()
    {
      hide elements.Valid, elements.Consistent, Fold, DistinctKeys;
      OrderFacts();
      NodesAreNamed();
      EntriesMake(Order(), elements.where, Contents());
    }

    /** What an iterator that has come to place `p` of the order shows. */
    lemma IteratorShows(it: Iterator, order: seq<Node>, c: map<Key, Value>, p: nat)
      requires Stands(order, c) && it.m == elements && p < |order| && it.node == NodeAt(order, p)
      ensures it.Live() && it.node == order[p] && it.node.key in c && it.node.value == c[it.node.key]
      ensures OrderOf(it.m) == order
    {
      hide elements.Valid, elements.Consistent;
      OrderFacts();
      NodesAreNamed();
    }

    /** Advancing an iterator through an unchanged map. */
    lemma NextIs(order: seq<Node>, c: map<Key, Value>, p: nat, next: Node?)
      requires Stands(order, c) && p < |order| && Follows(order, order[p], next)
      ensures next == NodeAt(order, p + 1)
    {
    }

    /** `erase(key)`: returns how many pairs it erased. */
    method EraseKey(k: Key) returns (count: nat)
      requires Valid()
      modifies elements, elements.table, elements.nodes`next, elements.ownTrees
      ensures Valid() && elements == old(elements) && Repr() <= old(Repr())
      ensures Contents() == old(Contents()) - {k}
      ensures count == if k in old(Contents()) then 1 else 0
    {
      hide Valid, elements.Valid, elements.Consistent, Contents;
      var it := Find(k);
      if it.node == null {
        count := 0;
      } else {
        var next := EraseAt(it);
        count := 1;
      }
    }

    /** `insert(value)`: never overwrites. */
    method InsertValue(k: Key, v: Value) returns (it: Iterator, inserted: bool)
      requires Valid()
      modifies elements, elements.table, elements.nodes`next, elements.ownTrees
      ensures Valid() && elements == old(elements) && fresh(Repr() - old(Repr()))
      ensures inserted <==> k !in old(Contents())
      ensures Contents() == if inserted then old(Contents())[k := v] else old(Contents())
      ensures fresh(it) && it.m == elements && it.Live() && it.node.key == k
    {
      hide elements.Valid, elements.Consistent, Contents;
      var node, b;
      node, b, inserted := Insert(k, v);
      it := new Iterator.At(elements, node, b);
      NodesAreNamed();
    }

    /** One step of inserting a range. */
    method InsertIfAbsent(k: Key, v: Value)
      requires Valid()
      modifies elements, elements.table, elements.nodes, elements.ownTrees
      ensures Valid() && elements == old(elements) && fresh(Repr() - old(Repr()))
      ensures Contents() == if k in old(Contents()) then old(Contents()) else old(Contents())[k := v]
      ensures k in old(Contents()) ==> Order() == old(Order())
    {
      hide Valid, elements.Valid, elements.Consistent, Contents;
      var exist := Find(k);
      if exist.node == null {
        Set(k, v);
      }
    }

    /** The other map is this one, or shares nothing with it. */
    ghost predicate IsApart(other: Map)
      reads this, elements, other, other.elements
    {
      this == other || Repr() !! other.Repr()
    }

    /** Iterator `it` has come to place `p` of the other map. */
    ghost predicate Visits(other: Map, it: Iterator, order: seq<Node>, c: map<Key, Value>, p: nat)
      reads this, elements, other, other.elements, other.elements.table, other.elements.nodes, other.elements.ownTrees, it
    {
      && other.Stands(order, c) && IsApart(other)
      && it !in Repr() + other.Repr() && it.m == other.elements && it.node == NodeAt(order, p) && p <= |order|
    }

    /** One round of inserting a range. */
    method InsertStep(other: Map, it: Iterator, ghost order: seq<Node>, ghost c: map<Key, Value>, ghost p: nat)
      requires Valid() && Visits(other, it, order, c, p) && p < |order|
      modifies elements, elements.table, elements.nodes, elements.ownTrees, it
      ensures Valid() && elements == old(elements) && fresh(Repr() - old(Repr()))
      ensures Visits(other, it, order, c, p + 1)
      ensures order[p].key in c
      ensures var k := order[p].key;
              Contents() == if k in old(Contents()) then old(Contents()) else old(Contents())[k := c[k]]
    {
      hide Valid, elements.Valid, elements.Consistent, Contents, Follows, other.Stands;
      other.IteratorShows(it, order, c, p);
      other.StandsFor(order, c);
      InsertIfAbsent(it.node.key, it.node.value);
      if this == other { StandsAs(order, c); }
      other.IteratorShows(it, order, c, p);
      it.Next();
      other.NextIs(order, c, p, it.node);
    }

    /** The pairs of the map as an iteration meets them. */
    ghost function Entries(): (r: seq<Entry>)
      requires Valid()
      ensures |r| == |Order()|
      reads this, elements, elements.table, elements.nodes, elements.ownTrees
    {
      IterationMeets();
      EntriesOf(Order(), Contents())
    }

    ghost function EntriesIn(p: nat, q: nat): (r: seq<Entry>)
      requires Valid() && p <= q <= |Order()|
      reads this, elements, elements.table, elements.nodes, elements.ownTrees
      ensures |r| == q - p
    {
      Entries()[p..q]
    }

    /** Iterator `it` points to place `p` of the order. */
    ghost predicate IsAt(it: Iterator, p: nat)
      reads this, elements, it
    {
      it.m == elements && p <= |Order()| && it.node == NodeAt(Order(), p)
    }

    /** `insert(first, last)`, for the range from place `p` to place `q` of a map: what is present stays. */
    method InsertRange(other: Map, first: Iterator, last: Iterator, ghost p: nat, ghost q: nat)
      requires Valid() && other.Valid() && IsApart(other) && p <= q
      requires other.IsAt(first, p) && other.IsAt(last, q)
      modifies elements, elements.table, elements.nodes, elements.ownTrees
      ensures Valid() && elements == old(elements) && fresh(Repr() - old(Repr()))
      ensures Contents() == old(Fold(other.EntriesIn(p, q)) + Contents())
    {
      hide Valid, Repr, elements.Valid, elements.Consistent, Contents, Fold, DistinctKeys, Visits, EntriesIn, NodeAt, Matches;
      other.EntriesAre(p, q);
      ghost var all := Repr() + other.Repr();
      Parts();
      other.Parts();
      var it := new Iterator.At(first.m, first.node, first.bucketIndex);
      assert it !in all;
      VisitStarts(other, it, p);
      ghost var before := Repr();
      label Visit:
      InsertVisited(other, it, last, other.Order(), other.Contents(), other.EntriesIn(p, q), p);
      forall o | o in Repr() - old(Repr()) && o !in before ensures fresh({o}) {
        assert !old@Visit(allocated(o));
      }
    }

    /** Inserts what iterator `it` meets on its way to `last`. */
    method InsertVisited(other: Map, it: Iterator, last: Iterator, ghost order: seq<Node>, ghost c: map<Key, Value>,
                         ghost es: seq<Entry>, ghost p: nat)
      requires Valid() && Visits(other, it, order, c, p) && Matches(es, order, c, p) && DistinctKeys(es)
      requires p + |es| <= |order| && last.node == NodeAt(order, p + |es|) && last != it
      modifies elements, elements.table, elements.nodes, elements.ownTrees, it
      ensures Valid() && elements == old(elements) && fresh(Repr() - old(Repr()))
      ensures Contents() == Fold(es) + old(Contents())
    {
      hide Valid, Repr, elements.Valid, elements.Consistent, Contents, FoldTo, DistinctKeys, Visits, NodeAt, Matches;
      ghost var c0, n := Contents(), 0;
      NothingTaken(es, c0);
      Parts();
      while it.node != last.node
        invariant Valid() && elements == old(elements) && fresh(Repr() - old(Repr()))
        invariant n <= |es| && Visits(other, it, order, c, p + n) && Contents() == FoldTo(es, n) + c0
        decreases |es| - n
      {
        VisitGoesOn(other, it, order, c, p + n, p + |es|);
        MatchesAt(es, order, c, p, n);
        TakenUnder(es, n, c0);
        Parts();
        ghost var before := Repr();
        label Round:
        InsertStep(other, it, order, c, p + n);
        forall o | o in Repr() - old(Repr()) && o !in before ensures fresh({o}) {
          assert !old@Round(allocated(o));
        }
        n := n + 1;
      }
      VisitGoesOn(other, it, order, c, p + n, p + |es|);
      AllTaken(es);
    }

    /** A part of the entries, and what the nodes say of it. */
    lemma EntriesAre(p: nat, q: nat)
      requires Valid() && p <= q <= |Order()|
      ensures DistinctKeys(EntriesIn(p, q))
      ensures Matches(EntriesIn(p, q), Order(), Contents(), p)
    {
      hide Valid, Contents, Fold;
      IterationMeets();
    }

    /** `insert(other.begin(), other.end())` */
    method InsertMap(other: Map)
      requires Valid() && other.Valid() && IsApart(other)
      modifies elements, elements.table, elements.nodes, elements.ownTrees
      ensures Valid() && elements == old(elements) && fresh(Repr() - old(Repr()))
      ensures Contents() == old(other.Contents() + Contents())
    {
      hide Valid, elements.Valid, elements.Consistent, Contents, Fold, DistinctKeys;
      var first := other.Begin();
      var last := new Iterator.At(other.elements, null, 0);
      other.EntriesAre(0, |other.Order()|);
      other.AllEntries();
      InsertRange(other, first, last, 0, |other.Order()|);
    }

    lemma AllEntries()
      requires Valid()
      ensures Fold(EntriesIn(0, |Order()|)) == Contents()
    {
      hide elements.Valid, elements.Consistent, Contents, Fold, DistinctKeys;
      IterationMeets();
      assert Entries()[0..|Order()|] == Entries();
    }

    lemma Parts()
      ensures Repr() == {this, elements, elements.table} + elements.nodes + elements.ownTrees
      ensures forall o | o in Repr() :: allocated(o)
    {
    }

    lemma VisitStarts(other: Map, it: Iterator, p: nat)
      requires other.Valid() && IsApart(other) && it !in Repr() + other.Repr() && p <= |other.Order()|
      requires it.m == other.elements && it.node == NodeAt(other.Order(), p)
      ensures Visits(other, it, other.Order(), other.Contents(), p)
    {
    }

    /** The visit has come to place `q` exactly when the iterator points there. */
    lemma VisitGoesOn(other: Map, it: Iterator, order: seq<Node>, c: map<Key, Value>, p: nat, q: nat)
      requires Visits(other, it, order, c, p) && q <= |order|
      ensures it.node == NodeAt(order, q) <==> p == q
    {
      hide elements.Valid, other.elements.Valid;
      other.OrderFacts();
    }

    /** The copy constructor: a new map with its own nodes. */
    static method CopyOf(other: Map, hasher: Key -> nat, seed: nat) returns (m: Map)
      requires other.Valid()
      ensures m.Valid() && fresh(m.Repr()) && m.Contents() == other.Contents() && m.arena == 0 && m.defaultValue == other.defaultValue
    {
      hide Map.Valid, InnerMap.Valid, InnerMap.Consistent, Map.Contents;
      m := new Map(hasher, seed, other.defaultValue, 0);
      ghost var c := other.Contents();
      assert c + map[] == c;
      m.InsertMap(other);
    }

    /** `operator=` */
    method Assign(other: Map)
      requires Valid() && other.Valid() && IsApart(other)
      modifies elements, elements.table, elements.nodes, elements.ownTrees
      ensures Valid() && elements == old(elements) && fresh(Repr() - old(Repr()))
      ensures Contents() == old(other.Contents())
    {
      hide Valid, elements.Valid, elements.Consistent, Contents;
      if this != other {
        Clear();
        InsertMap(other);
      }
    }

    /** `swap`: in one arena the maps exchange what they own; otherwise they copy, and keep their
        default values. */
    method Swap(other: Map)
      requires Valid() && other.Valid() && (arena == other.arena || Repr() !! other.Repr())
      modifies `elements, `defaultValue, other`elements, other`defaultValue
      modifies if arena == other.arena then {} else (Repr() - {this}) + (other.Repr() - {other})
      ensures Valid() && other.Valid()
      ensures Contents() == old(other.Contents()) && other.Contents() == old(Contents())
      ensures if arena == other.arena then
                && elements == old(other.elements) && other.elements == old(elements)
                && defaultValue == old(other.defaultValue) && other.defaultValue == old(defaultValue)
              else
                && elements == old(elements) && other.elements == old(other.elements)
                && defaultValue == old(defaultValue) && other.defaultValue == old(other.defaultValue)
                && fresh(Repr() - old(Repr())) && fresh(other.Repr() - old(other.Repr()))
    {
      hide InnerMap.Valid, InnerMap.Consistent, InnerMap.Contents;
      if arena == other.arena {
        defaultValue, other.defaultValue := other.defaultValue, defaultValue;
        elements, other.elements := other.elements, elements;
      } else {
        Exchange(other);
      }
    }

    /** Assigns a map, and leaves a third one alone. */
    method AssignBeside(other: Map, ghost third: Map)
      requires Valid() && other.Valid() && third.Valid()
      requires Repr() !! other.Repr() && Repr() !! third.Repr() && other.Repr() !! third.Repr()
      modifies elements, elements.table, elements.nodes, elements.ownTrees
      ensures Valid() && elements == old(elements) && fresh(Repr() - old(Repr()))
      ensures other.Valid() && other.Contents() == old(other.Contents()) && other.Repr() == old(other.Repr())
      ensures third.Valid() && third.Contents() == old(third.Contents()) && third.Repr() == old(third.Repr())
      ensures Contents() == other.Contents() && Repr() !! other.Repr() && Repr() !! third.Repr()
    {
      hide Valid, Contents, InnerMap.Valid, InnerMap.Consistent;
      Assign(other);
    }

    /** Exchanges what two maps hold by copying. */
    method Exchange(other: Map)
      requires Valid() && other.Valid() && Repr() !! other.Repr()
      modifies elements, elements.table, elements.nodes, elements.ownTrees
      modifies other.elements, other.elements.table, other.elements.nodes, other.elements.ownTrees
      ensures Valid() && other.Valid()
      ensures Contents() == old(other.Contents()) && other.Contents() == old(Contents())
      ensures elements == old(elements) && other.elements == old(other.elements)
      ensures fresh(Repr() - old(Repr())) && fresh(other.Repr() - old(other.Repr()))
    {
      hide Valid, Contents, Repr, InnerMap.Valid, InnerMap.Consistent;
      Parts();
      other.Parts();
      ghost var mine, theirs := Repr(), other.Repr();
      var seed: nat := *;
      var copy := CopyOf(this, elements.hasher, seed);
      assert copy.Repr() !! mine + theirs;
      label Copied:
      AssignBeside(other, copy);
      forall o | o in Repr() - old(Repr()) && o !in mine ensures fresh({o}) {
        assert !old@Copied(allocated(o));
      }
      other.Parts();
      label Assigned:
      other.AssignBeside(copy, this);
      forall o | o in other.Repr() - old(other.Repr()) && o !in theirs ensures fresh({o}) {
        assert !old@Assigned(allocated(o));
      }
    }
  }
}
