/** A map field keeps its pairs twice: in a map and, for reflection, in a repeated field of
    entries.  The state says which of the two is up to date. */
module MapField {
  import opened MapNode
  import opened MapEntries
  import opened MapIterator
  import opened TraversalOrder
  import opened InnerHashMap
  import opened ProtobufMap

  datatype State =
    | ModifiedMap       // the map has news that the repeated field does not have
    | ModifiedRepeated  // the repeated field has news that the map does not have
    | Clean             // both hold the same data

  datatype Repeated =
    | Absent                      // the repeated field has not been made yet
    | Present(entries: seq<Entry>)

  /** A side that is up to date is there, and clean sides agree. */
  ghost predicate Coherent(repeated: Repeated, state: State, c: map<Key, Value>) {
    && (state != ModifiedMap ==> repeated.Present?)
    && (state == Clean ==> Fold(repeated.entries) == c)
  }

  /** The side that is up to date. */
  ghost function Fresh(repeated: Repeated, state: State, c: map<Key, Value>): (r: map<Key, Value>)
    requires Coherent(repeated, state, c)
  {
    if state == ModifiedRepeated then Fold(repeated.entries) else c
  }

  /** `MapFieldLite::MergeFrom`: assigns every pair of `other` to `m`. */
  method MergeMaps(m: Map, other: Map)
    requires m.Valid() && other.Valid() && m.IsApart(other)
    modifies m.elements, m.elements.table, m.elements.nodes, m.elements.ownTrees
    ensures m.Valid() && m.elements == old(m.elements) && fresh(m.Repr() - old(m.Repr()))
    ensures m.Contents() == old(m.Contents() + other.Contents())
  {
    hide m.Valid, m.Repr, m.Contents, Fold, m.Visits, other.EntriesIn, DistinctKeys, NodeAt, Matches;
    ghost var order := other.Order();
    other.EntriesAre(0, |order|);
    other.AllEntries();
    ghost var all := m.Repr() + other.Repr();
    m.Parts();
    other.Parts();
    var it := other.Begin();
    assert it !in all;
    m.VisitStarts(other, it, 0);
    ghost var before := m.Repr();
    label Visit:
    MergeVisited(m, other, it, order, other.Contents(), other.EntriesIn(0, |order|));
    forall o | o in m.Repr() - old(m.Repr()) && o !in before ensures fresh({o}) {
      assert !old@Visit(allocated(o));
    }
  }

  /** Assigns what iterator `it` meets. */
  method MergeVisited(m: Map, other: Map, it: Iterator, ghost order: seq<Node>, ghost c: map<Key, Value>, ghost es: seq<Entry>)
    requires m.Valid() && m.Visits(other, it, order, c, 0) && Matches(es, order, c, 0) && |es| == |order|
    modifies m.elements, m.elements.table, m.elements.nodes, m.elements.ownTrees, it
    ensures m.Valid() && m.elements == old(m.elements) && fresh(m.Repr() - old(m.Repr()))
    ensures m.Contents() == old(m.Contents()) + Fold(es)
  {
    hide m.Valid, m.Repr, m.Contents, FoldTo, m.Visits, NodeAt, Matches;
    ghost var c0, n := m.Contents(), 0;
    EndOf(order);
    NothingTaken(es, c0);
    m.Parts();
    while it.node != null
      invariant m.Valid() && m.elements == old(m.elements) && fresh(m.Repr() - old(m.Repr()))
      invariant n <= |es| && m.Visits(other, it, order, c, n) && m.Contents() == c0 + FoldTo(es, n)
      decreases |es| - n
    {
      m.VisitGoesOn(other, it, order, c, n, |order|);
      MatchesAt(es, order, c, 0, n);
      TakenOver(es, n, c0);
      m.Parts();
      ghost var before := m.Repr();
      label Round:
      MergeStep(m, other, it, order, c, n);
      forall o | o in m.Repr() - old(m.Repr()) && o !in before ensures fresh({o}) {
        assert !old@Round(allocated(o));
      }
      n := n + 1;
    }
    m.VisitGoesOn(other, it, order, c, n, |order|);
    AllTaken(es);
  }

  /** One round of merging. */
  method MergeStep(m: Map, other: Map, it: Iterator, ghost order: seq<Node>, ghost c: map<Key, Value>, ghost p: nat)
    requires m.Valid() && m.Visits(other, it, order, c, p) && p < |order|
    modifies m.elements, m.elements.table, m.elements.nodes, m.elements.ownTrees, it
    ensures m.Valid() && m.elements == old(m.elements) && fresh(m.Repr() - old(m.Repr()))
    ensures m.Visits(other, it, order, c, p + 1)
    ensures order[p].key in c && m.Contents() == old(m.Contents())[order[p].key := c[order[p].key]]
  {
    hide m.Valid, InnerMap.Valid, InnerMap.Consistent, m.Contents, Follows, other.Stands;
    other.IteratorShows(it, order, c, p);
    other.StandsFor(order, c);
    m.Set(it.node.key, it.node.value);
    if m == other { other.StandsAs(order, c); }
    other.IteratorShows(it, order, c, p);
    it.Next();
    other.NextIs(order, c, p, it.node);
  }

  class MapField {
    const impl: Map
    var repeated: Repeated
    var state: State

    ghost predicate Valid()
      reads this, impl, impl.elements, impl.elements.table, impl.elements.nodes, impl.elements.ownTrees
    {
      impl.Valid() && Coherent(repeated, state, impl.Contents())
    }

    ghost function Repr(): (r: set<object>)
      reads this, impl, impl.elements
    {
      {this} + impl.Repr()
    }

    /** What the field holds: the side that is up to date. */
    ghost function Holds(): (r: map<Key, Value>)
      requires Valid()
      reads this, impl, impl.elements, impl.elements.table, impl.elements.nodes, impl.elements.ownTrees
    {
      Fresh(repeated, state, impl.Contents())
    }

    constructor (hasher: Key -> nat, seed: nat, defaultValue: Value, arena: nat)
      ensures Valid() && fresh(Repr()) && Holds() == map[] && state == ModifiedMap
    {
      hide Map.Valid, Map.Contents;
      impl := new Map(hasher, seed, defaultValue, arena);
      repeated := Absent;
      state := ModifiedMap;
    }

    /** Fills the map from the repeated field. */
    method SyncMapWithRepeatedFieldNoLock()
      requires impl.Valid() && repeated.Present?
      modifies impl.elements, impl.elements.table, impl.elements.nodes, impl.elements.ownTrees
      ensures impl.Valid() && impl.elements == old(impl.elements) && fresh(impl.Repr() - old(impl.Repr()))
      ensures impl.Contents() == Fold(repeated.entries)
    {
      hide impl.Valid, impl.Repr, InnerMap.Valid, InnerMap.Consistent, impl.Contents, FoldTo;
      ghost var es := repeated.entries;
      impl.Parts();
      impl.Clear();
      NothingTaken(es, map[]);
      var i := 0;
      while i < |repeated.entries|
        invariant i <= |es| && repeated == Present(es)
        invariant impl.Valid() && impl.elements == old(impl.elements) && fresh(impl.Repr() - old(impl.Repr()))
        invariant impl.Contents() == map[] + FoldTo(es, i)
      {
        TakenOver(es, i, map[]);
        impl.Parts();
        ghost var before := impl.Repr();
        label Round:
        impl.Set(repeated.entries[i].key, repeated.entries[i].value);
        forall o | o in impl.Repr() - old(impl.Repr()) && o !in before ensures fresh({o}) {
          assert !old@Round(allocated(o));
        }
        i := i + 1;
      }
      AllTaken(es);
    }

    /** Fills the repeated field from the map. */
    method SyncRepeatedFieldWithMapNoLock()
      requires impl.Valid()
      modifies `repeated
      ensures repeated.Present? && repeated.entries == impl.Entries()
    {
      hide impl.Valid, InnerMap.Valid, InnerMap.Consistent, impl.Contents, Fold, DistinctKeys, Follows, EntriesOf;
      if repeated == Absent { repeated := Present([]); }
      repeated := Present([]);
      impl.IterationMeets();
      ghost var order, c := impl.Order(), impl.Contents();
      EntriesBegin(order, c);
      assert impl.Stands(order, c);
      var it := impl.Begin();
      ghost var p := 0;
      while it.node != null
        invariant fresh(it) && it.m == impl.elements && impl.Stands(order, c)
        invariant p <= |order| && it.node == NodeAt(order, p)
        invariant repeated == Present(EntriesOf(order, c)[..p])
        decreases |order| - p
      {
        impl.IteratorShows(it, order, c, p);
        EntriesNext(order, c, p);
        repeated := Present(repeated.entries + [Entry(it.node.key, it.node.value)]);
        it.Next();
        impl.NextIs(order, c, p, it.node);
        p := p + 1;
      }
      EntriesDone(order, c, p);
    }

    /** Brings the map up to date. */
    method SyncMapWithRepeatedField()
      requires Valid()
      modifies `state, impl.elements, impl.elements.table, impl.elements.nodes, impl.elements.ownTrees
      ensures Valid() && impl.elements == old(impl.elements) && fresh(Repr() - old(Repr()))
      ensures Holds() == impl.Contents() == old(Holds()) && state != ModifiedRepeated
      ensures state == if old(state) == ModifiedRepeated then Clean else old(state)
      ensures old(state) != ModifiedRepeated ==> impl.Order() == old(impl.Order())
    {
      hide impl.Valid, InnerMap.Valid, impl.Contents, Fold;
      if state == ModifiedRepeated {
        SyncMapWithRepeatedFieldNoLock();
        state := Clean;
      }
    }

    /** Brings the repeated field up to date. */
    method SyncRepeatedFieldWithMap()
      requires Valid()
      modifies `state, `repeated
      ensures Valid() && Holds() == old(Holds())
      ensures repeated == if old(state) == ModifiedMap then Present(old(impl.Entries())) else old(repeated)
      ensures state == if old(state) == ModifiedMap then Clean else old(state)
      ensures repeated.Present? && Fold(repeated.entries) == Holds()
      ensures old(state) == ModifiedMap ==> DistinctKeys(repeated.entries)
    {
      hide impl.Valid, InnerMap.Valid, impl.Contents, Fold, DistinctKeys;
      if state == ModifiedMap {
        impl.IterationMeets();
        SyncRepeatedFieldWithMapNoLock();
        state := Clean;
      }
    }

    method GetMap() returns (m: Map)
      requires Valid()
      modifies `state, impl.elements, impl.elements.table, impl.elements.nodes, impl.elements.ownTrees
      ensures Valid() && impl.elements == old(impl.elements) && fresh(Repr() - old(Repr()))
      ensures m == impl && m.Contents() == Holds() == old(Holds())
      ensures state == if old(state) == ModifiedRepeated then Clean else old(state)
      ensures old(state) != ModifiedRepeated ==> impl.Order() == old(impl.Order())
    {
      SyncMapWithRepeatedField();
      m := impl;
    }

    method MutableMap() returns (m: Map)
      requires Valid()
      modifies `state, impl.elements, impl.elements.table, impl.elements.nodes, impl.elements.ownTrees
      ensures Valid() && impl.elements == old(impl.elements) && fresh(Repr() - old(Repr()))
      ensures m == impl && m.Contents() == Holds() == old(Holds()) && state == ModifiedMap
      ensures old(state) != ModifiedRepeated ==> impl.Order() == old(impl.Order())
    {
      hide impl.Valid, InnerMap.Valid, impl.Contents, Fold;
      SyncMapWithRepeatedField();
      m := impl;
      state := ModifiedMap;
    }

    method GetRepeatedField() returns (es: seq<Entry>)
      requires Valid()
      modifies `state, `repeated
      ensures Valid() && Holds() == old(Holds())
      ensures repeated == Present(es)
      ensures repeated == if old(state) == ModifiedMap then Present(old(impl.Entries())) else old(repeated)
      ensures state == if old(state) == ModifiedMap then Clean else old(state)
      ensures Fold(es) == Holds() && (old(state) == ModifiedMap ==> DistinctKeys(es))
    {
      SyncRepeatedFieldWithMap();
      es := repeated.entries;
    }

    /** What a client of the mutable repeated field does: it leaves it with entries `es`. */
    method WriteRepeatedField(es: seq<Entry>)
      requires Valid()
      modifies `state, `repeated
      ensures Valid() && Holds() == Fold(es) && state == ModifiedRepeated && repeated == Present(es)
    {
      SyncRepeatedFieldWithMap();
      state := ModifiedRepeated;
      repeated := Present(es);
    }

    method Size() returns (n: nat)
      requires Valid()
      modifies `state, impl.elements, impl.elements.table, impl.elements.nodes, impl.elements.ownTrees
      ensures Valid() && impl.elements == old(impl.elements) && fresh(Repr() - old(Repr()))
      ensures Holds() == old(Holds()) && n == |Holds()|
      ensures state == if old(state) == ModifiedRepeated then Clean else old(state)
      ensures old(state) != ModifiedRepeated ==> impl.Order() == old(impl.Order())
    {
      hide Valid, Holds, impl.Valid, InnerMap.Valid, InnerMap.Consistent, impl.Contents, Fold;
      SyncMapWithRepeatedField();
      BothSides();
      n := impl.Size();
    }

    method Clear()
      requires Valid()
      modifies this, impl.elements, impl.elements.table, impl.elements.nodes, impl.elements.ownTrees
      ensures Valid() && impl.elements == old(impl.elements) && fresh(Repr() - old(Repr()))
      ensures Holds() == map[] && state == ModifiedMap
      ensures repeated == if old(repeated).Present? then Present([]) else Absent
    {
      hide impl.Valid, InnerMap.Valid, impl.Contents, Fold;
      if repeated.Present? {
        repeated := Present([]);
      }
      impl.Clear();
      state := ModifiedMap;
    }

    /** The other field is this one, or shares nothing with it. */
    ghost predicate IsApart(other: MapField)
      reads this, impl, impl.elements, other, other.impl, other.impl.elements
    {
      this == other || Repr() !! other.Repr()
    }

    method MergeFrom(other: MapField)
      requires Valid() && other.Valid() && IsApart(other)
      modifies `state, impl.elements, impl.elements.table, impl.elements.nodes, impl.elements.ownTrees
      modifies other`state, other.impl.elements, other.impl.elements.table, other.impl.elements.nodes,
               other.impl.elements.ownTrees
      ensures Valid() && other.Valid() && Holds() == old(Holds() + other.Holds())
      ensures other.Holds() == old(other.Holds()) && state == ModifiedMap
      ensures other != this ==> other.state == if old(other.state) == ModifiedRepeated then Clean else old(other.state)
    {
      hide Valid, Holds, impl.Repr, impl.Valid, InnerMap.Valid, InnerMap.Consistent, impl.Contents, Fold;
      impl.Parts();
      SyncBoth(other);
      impl.Parts();
      MergeImpl(other);
    }

    /** Brings the maps of two fields up to date. */
    method SyncBoth(other: MapField)
      requires Valid() && other.Valid() && IsApart(other)
      modifies `state, impl.elements, impl.elements.table, impl.elements.nodes, impl.elements.ownTrees
      modifies other`state, other.impl.elements, other.impl.elements.table, other.impl.elements.nodes,
               other.impl.elements.ownTrees
      ensures Valid() && Holds() == old(Holds())
      ensures other.Valid() && other.Holds() == old(other.Holds())
      ensures state == if old(state) == ModifiedRepeated then Clean else old(state)
      ensures other.state == if old(other.state) == ModifiedRepeated then Clean else old(other.state)
      ensures impl.elements == old(impl.elements) && fresh(Repr() - old(Repr()))
      ensures other.impl.elements == old(other.impl.elements) && fresh(other.Repr() - old(other.Repr()))
      ensures IsApart(other)
    {
      hide Valid, Holds, impl.Repr, impl.Valid, InnerMap.Valid, InnerMap.Consistent, impl.Contents, Fold;
      impl.Parts();
      other.impl.Parts();
      SyncBeside(other);
      impl.Parts();
      other.impl.Parts();
      ghost var theirs := other.Repr();
      label Synced:
      other.SyncBeside(this);
      forall o | o in other.Repr() - old(other.Repr()) && o !in theirs ensures fresh({o}) {
        assert !old@Synced(allocated(o));
      }
    }

    /** Brings the map up to date, and leaves another field alone. */
    method SyncBeside(ghost other: MapField)
      requires Valid() && other.Valid() && IsApart(other)
      modifies `state, impl.elements, impl.elements.table, impl.elements.nodes, impl.elements.ownTrees
      ensures Valid() && Holds() == old(Holds())
      ensures state == if old(state) == ModifiedRepeated then Clean else old(state)
      ensures impl.elements == old(impl.elements) && fresh(Repr() - old(Repr())) && IsApart(other)
      ensures other.Valid() && other.Holds() == old(other.Holds())
      ensures this != other ==> other.state == old(other.state)
      ensures this != other ==> other.Repr() == old(other.Repr()) && other.impl.elements == old(other.impl.elements)
    {
      hide Valid, Holds, impl.Valid, InnerMap.Valid, InnerMap.Consistent, impl.Contents, Fold;
      SyncMapWithRepeatedField();
    }

    /** Merges the map of another field when both are up to date. */
    method MergeImpl(other: MapField)
      requires Valid() && state != ModifiedRepeated && other.Valid() && other.state != ModifiedRepeated && IsApart(other)
      modifies `state, impl.elements, impl.elements.table, impl.elements.nodes, impl.elements.ownTrees
      ensures Valid() && Holds() == old(Holds() + other.Holds()) && state == ModifiedMap
      ensures other.Valid() && other.Holds() == old(other.Holds())
    {
      hide Valid, Holds, impl.Valid, InnerMap.Valid, InnerMap.Consistent, impl.Contents, Fold;
      BothSides();
      other.BothSides();
      MergeMaps(impl, other.impl);
      state := ModifiedMap;
      MapIsAhead();
    }

    /** When the map is not behind, it is what the field holds. */
    lemma BothSides()
      requires Valid() && state != ModifiedRepeated
      ensures impl.Valid() && Holds() == impl.Contents()
    {
    }

    lemma MapIsAhead()
      requires impl.Valid() && state == ModifiedMap
      ensures Valid() && Holds() == impl.Contents()
    {
    }

    method Swap(other: MapField)
      requires Valid() && other.Valid() && (impl.arena == other.impl.arena || Repr() !! other.Repr())
      modifies `repeated, `state, impl`elements, impl`defaultValue
      modifies other`repeated, other`state, other.impl`elements, other.impl`defaultValue
      modifies if impl.arena == other.impl.arena then {}
               else (impl.Repr() - {impl}) + (other.impl.Repr() - {other.impl})
      ensures Valid() && other.Valid()
      ensures Holds() == old(other.Holds()) && other.Holds() == old(Holds())
      ensures state == old(other.state) && other.state == old(state)
      ensures repeated == old(other.repeated) && other.repeated == old(repeated)
    {
      hide impl.Valid, InnerMap.Valid, InnerMap.Consistent, InnerMap.Contents, impl.Contents, impl.Repr, Fresh, Coherent;
      repeated, other.repeated := other.repeated, repeated;
      SwapMaps(other);
      SwapStates(other);
    }

    method SwapMaps(other: MapField)
      requires impl.Valid() && other.impl.Valid() && (impl.arena == other.impl.arena || impl.Repr() !! other.impl.Repr())
      modifies impl`elements, impl`defaultValue, other.impl`elements, other.impl`defaultValue
      modifies if impl.arena == other.impl.arena then {}
               else (impl.Repr() - {impl}) + (other.impl.Repr() - {other.impl})
      ensures impl.Valid() && impl.Contents() == old(other.impl.Contents())
      ensures other.impl.Valid() && other.impl.Contents() == old(impl.Contents())
      ensures repeated == old(repeated) && state == old(state)
      ensures other.repeated == old(other.repeated) && other.state == old(other.state)
    {
      hide impl.Valid, InnerMap.Valid, impl.Contents, InnerMap.Contents, impl.Repr;
      impl.Parts();
      other.impl.Parts();
      impl.Swap(other.impl);
    }

    method SwapStates(other: MapField)
      requires impl.Valid() && other.impl.Valid()
      modifies `state, other`state
      ensures state == old(other.state) && other.state == old(state)
      ensures impl.Valid() && impl.Contents() == old(impl.Contents())
      ensures other.impl.Valid() && other.impl.Contents() == old(other.impl.Contents())
    {
      hide impl.Valid, impl.Contents;
      state, other.state := other.state, state;
    }

    /** The value of key `k`, made with the default value if there was none. */
    method InsertOrLookupMapValue(k: Key) returns (n: Node, inserted: bool)
      requires Valid()
      modifies `state, impl.elements, impl.elements.table, impl.elements.nodes, impl.elements.ownTrees
      ensures Valid() && impl.elements == old(impl.elements) && fresh(Repr() - old(Repr()))
      ensures inserted <==> k !in old(Holds())
      ensures Holds() == if inserted then old(Holds())[k := impl.defaultValue] else old(Holds())
      ensures n in impl.elements.nodes && n.key == k && state == ModifiedMap
    {
      hide Valid, Holds, impl.Valid, InnerMap.Valid, InnerMap.Consistent, impl.Contents, Fold;
      var m := MutableMap();
      n, inserted := InsertOrLookup(m, k);
    }

    /** The same, in the map that is marked as changed already. */
    method InsertOrLookup(m: Map, k: Key) returns (n: Node, inserted: bool)
      requires Valid() && state == ModifiedMap && m == impl
      modifies impl.elements, impl.elements.table, impl.elements.nodes, impl.elements.ownTrees
      ensures Valid() && impl.elements == old(impl.elements) && fresh(Repr() - old(Repr()))
      ensures inserted <==> k !in old(Holds())
      ensures Holds() == if inserted then old(Holds())[k := impl.defaultValue] else old(Holds())
      ensures n in impl.elements.nodes && n.key == k
    {
      hide Valid, Holds, impl.Repr, impl.Valid, InnerMap.Valid, InnerMap.Consistent, impl.Contents, Fold;
      BothSides();
      var iter := m.Find(k);
      MapIsAhead();
      inserted := iter.node == null;
      if inserted {
        ghost var before := impl.Repr();
        label Found:
        n := m.At(k);
        MapIsAhead();
        forall o | o in impl.Repr() - old(impl.Repr()) && o !in before ensures fresh({o}) {
          assert !old@Found(allocated(o));
        }
      } else {
        n := iter.node;
      }
    }

    /** Whether key `k` was there; it is not any more. */
    method DeleteMapValue(k: Key) returns (deleted: bool)
      requires Valid()
      modifies `state, impl.elements, impl.elements.table, impl.elements.nodes, impl.elements.ownTrees
      ensures Valid() && impl.elements == old(impl.elements) && fresh(Repr() - old(Repr()))
      ensures Holds() == old(Holds()) - {k} && state == ModifiedMap
      ensures deleted <==> k in old(Holds())
    {
      hide impl.Valid, InnerMap.Valid, InnerMap.Consistent, impl.Contents, Fold;
      var m := MutableMap();
      var count := m.EraseKey(k);
      deleted := count != 0;
    }
  }

  /** Entries that go to the map and come back: every key is kept, once, with the value of
      its last entry. */
  lemma RepeatedRoundTrip(es: seq<Entry>, order: seq<Node>, w: map<Key, Node>)
    requires Lists(order, w) && Fold(es).Keys == w.Keys && forall k | k in w :: w[k].key == k
    ensures var back := EntriesOf(order, Fold(es));
            && DistinctKeys(back)
            && (forall i | 0 <= i < |back| :: IsLast(es, back[i]))
            && (forall j | 0 <= j < |es| :: HasKey(back, es[j].key))
  {
    hide Fold, IsLast, HasKey, EntriesOf;
    EntriesMake(order, w, Fold(es));
    var back := EntriesOf(order, Fold(es));
    forall i | 0 <= i < |back| ensures IsLast(es, back[i]) {
      LastEntry(es, back[i]);
    }
    forall j | 0 <= j < |es| ensures HasKey(back, es[j].key) {
      SameKeys(es, back, j);
    }
  }

  ghost predicate HasKey(es: seq<Entry>, k: Key) {
    exists i :: 0 <= i < |es| && es[i].key == k
  }

  lemma SameKeys(es: seq<Entry>, back: seq<Entry>, j: nat)
    requires Fold(back) == Fold(es) && j < |es|
    ensures HasKey(back, es[j].key)
  {
    hide Fold;
    FoldIsLast(es, es[j].key);
    FoldIsLast(back, es[j].key);
  }

  /** What the fold says of a key comes from the last entry of that key. */
  lemma LastEntry(es: seq<Entry>, e: Entry)
    requires e.key in Fold(es) && Fold(es)[e.key] == e.value
    ensures IsLast(es, e)
  {
    hide Fold;
    FoldIsLast(es, e.key);
    var j := LastIndex(es, e.key);
    assert es[j] == e;
  }

  /** Entry `e` occurs in `es`, and no entry after it has its key. */
  ghost predicate IsLast(es: seq<Entry>, e: Entry) {
    exists j :: 0 <= j < |es| && es[j] == e && forall i | j < i < |es| :: es[i].key != e.key
  }

  lemma {:induction false} LastIndex(es: seq<Entry>, k: Key) returns (j: nat)
    requires exists i :: 0 <= i < |es| && es[i].key == k
    ensures j < |es| && es[j].key == k && forall i | j < i < |es| :: es[i].key != k
  {
    j := |es| - 1;
    if es[j].key != k {
      j := LastIndex(es[..j], k);
    }
  }
}
