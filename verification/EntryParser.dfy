/** Parsing one entry of a map field from a coded stream: the plain way, into an entry, and
    the fast way, into the live map, with the insertion undone when it was premature. */
module EntryParser {
  import opened MapNode
  import opened MapEntries
  import opened InnerHashMap
  import opened ProtobufMap
  import opened Options

  newtype Byte = x: int | 0 <= x < 0x100

  datatype Reading<T> = Reading(ok: bool, value: T, rest: seq<Byte>)

  /** How keys, values, tags and unknown fields are read.  A value is read into an existing
      one, which messages merge with.  What a failed reading leaves behind is arbitrary. */
  datatype Wire = Wire(
    keyTag: nat,
    valueTag: nat,
    readTag: seq<Byte> -> Reading<nat>,
    readKey: seq<Byte> -> Reading<Key>,
    readValue: (Value, seq<Byte>) -> Reading<Value>,
    skipField: (nat, seq<Byte>) -> Reading<()>)
  {
    /** Tags are one byte long, readers move forward, and the end of the input reads as tag 0. */
    ghost predicate Proper() {
      && 0 < keyTag < 0x80 && 0 < valueTag < 0x80 && keyTag != valueTag
      && (forall s :: s != [] && s[0] < 0x80 ==> readTag(s).value == s[0] as nat && readTag(s).rest == s[1..])
      && (forall s :: |readTag(s).rest| <= |s| && (readTag(s).value != 0 ==> |readTag(s).rest| < |s|))
      && (forall s :: |readKey(s).rest| <= |s|)
      && (forall v, s :: |readValue(v, s).rest| <= |s|)
      && (forall t, s :: |skipField(t, s).rest| <= |s|)
    }
  }

  const END_GROUP: nat := 4

  /** What the plain parser makes of input `s`, starting from entry `e`: the entry and the
      input left over, or nothing if the input is corrupted. */
  ghost function Parse(w: Wire, e: Entry, s: seq<Byte>): (r: Option<(Entry, seq<Byte>)>)
    requires w.Proper()
    decreases |s|
  {
    var tag, r := w.readTag(s).value, w.readTag(s).rest;
    if tag == w.keyTag then
      var k := w.readKey(r);
      if k.ok then Parse(w, e.(key := k.value), k.rest) else None
    else if tag == w.valueTag then
      var v := w.readValue(e.value, r);
      if v.ok then Parse(w, e.(value := v.value), v.rest) else None
    else if tag == 0 || tag % 8 == END_GROUP then
      Some((e, r))
    else
      var f := w.skipField(tag, r);
      if f.ok then Parse(w, e, f.rest) else None
  }

  /** The part of `CodedInputStream` that the parsers use.  It keeps a window on the input,
      so it may not see what comes next, and may not notice that it is at the end. */
  class Input {
    const w: Wire
    var rest: seq<Byte>

    constructor (w: Wire, s: seq<Byte>)
      ensures this.w == w && rest == s
    {
      this.w, this.rest := w, s;
    }

    /** Takes the one-byte tag `t` if it is seen to come next. */
    method ExpectTag(t: nat) returns (taken: bool)
      modifies this
      ensures taken ==> old(rest) != [] && old(rest)[0] as nat == t && rest == old(rest)[1..]
      ensures !taken ==> rest == old(rest)
    {
      var seen: bool := *;
      taken := seen && rest != [] && rest[0] as nat == t;
      if taken { rest := rest[1..]; }
    }

    /** Whether the byte `t` is seen to come next. */
    method Peek(t: nat) returns (next: bool)
      ensures next ==> rest != [] && rest[0] as nat == t
    {
      var seen: bool := *;
      next := seen && rest != [] && rest[0] as nat == t;
    }

    method Skip()
      requires rest != []
      modifies this
      ensures rest == old(rest)[1..]
    {
      rest := rest[1..];
    }

    /** Whether this is seen to be the end. */
    method ExpectAtEnd() returns (atEnd: bool)
      ensures atEnd ==> rest == []
    {
      var seen: bool := *;
      atEnd := seen && rest == [];
    }

    method ReadTag() returns (tag: nat)
      modifies this
      ensures tag == w.readTag(old(rest)).value && rest == w.readTag(old(rest)).rest
    {
      var r := w.readTag(rest);
      tag, rest := r.value, r.rest;
    }

    method ReadKey() returns (ok: bool, k: Key)
      modifies this
      ensures w.readKey(old(rest)) == Reading(ok, k, rest)
    {
      var r := w.readKey(rest);
      ok, k, rest := r.ok, r.value, r.rest;
    }

    method ReadValue(into: Value) returns (ok: bool, v: Value)
      modifies this
      ensures w.readValue(into, old(rest)) == Reading(ok, v, rest)
    {
      var r := w.readValue(into, rest);
      ok, v, rest := r.ok, r.value, r.rest;
    }

    method SkipField(tag: nat) returns (ok: bool)
      modifies this
      ensures ok == w.skipField(tag, old(rest)).ok && rest == w.skipField(tag, old(rest)).rest
    {
      var r := w.skipField(tag, rest);
      ok, rest := r.ok, r.rest;
    }
  }

  /** The end of the input ends an entry and leaves nothing over. */
  lemma ParseAtEnd(w: Wire, e: Entry)
    requires w.Proper()
    ensures Parse(w, e, []) == Some((e, []))
  {
    assert w.readTag([]).value == 0 && w.readTag([]).rest == [];
  }

  /** What the plain parser does when the key comes next. */
  lemma KeyComesFirst(w: Wire, e: Entry, s: seq<Byte>)
    requires w.Proper() && s != [] && s[0] as nat == w.keyTag
    ensures var k := w.readKey(s[1..]);
            Parse(w, e, s) == if k.ok then Parse(w, e.(key := k.value), k.rest) else None
  {
    assert w.readTag(s).value == w.keyTag && w.readTag(s).rest == s[1..];
  }

  /** What the plain parser does when the value comes next. */
  lemma ValueComesFirst(w: Wire, e: Entry, s: seq<Byte>)
    requires w.Proper() && s != [] && s[0] as nat == w.valueTag
    ensures var v := w.readValue(e.value, s[1..]);
            Parse(w, e, s) == if v.ok then Parse(w, e.(value := v.value), v.rest) else None
  {
    assert w.readTag(s).value == w.valueTag && w.readTag(s).rest == s[1..];
  }

  /** What the plain parser does with a tag, however that is encoded: zero and the end of a group end the
      entry, and any other field that is neither the key nor the value is skipped. */
  lemma FirstTagDecides(w: Wire, e: Entry, s: seq<Byte>)
    requires w.Proper()
    ensures var t, r := w.readTag(s).value, w.readTag(s).rest;
            var k, v, f := w.readKey(r), w.readValue(e.value, r), w.skipField(t, r);
            && (t == w.keyTag ==> Parse(w, e, s) == if k.ok then Parse(w, Entry(k.value, e.value), k.rest) else None)
            && (t == w.valueTag ==> Parse(w, e, s) == if v.ok then Parse(w, Entry(e.key, v.value), v.rest) else None)
            && (t != w.keyTag && t != w.valueTag && (t == 0 || t % 8 == 4) ==> Parse(w, e, s) == Some((e, r)))
            && (t != w.keyTag && t != w.valueTag && t != 0 && t % 8 != 4 ==>
                  Parse(w, e, s) == if f.ok then Parse(w, e, f.rest) else None)
  {
  }

  /** An unknown field that can be skipped changes nothing: the entry is what the input behind it makes. */
  lemma UnknownFieldIsSkipped(w: Wire, e: Entry, t: Byte, field: seq<Byte>, s: seq<Byte>)
    requires w.Proper() && 0 < t < 0x80 && t % 8 != 4 && t as nat != w.keyTag && t as nat != w.valueTag
    requires w.skipField(t as nat, field + s).ok && w.skipField(t as nat, field + s).rest == s
    ensures Parse(w, e, [t] + field + s) == Parse(w, e, s)
  {
    BehindTag(w, t, field + s);
    assert [t] + field + s == [t] + (field + s);
    FirstTagDecides(w, e, [t] + (field + s));
  }

  /** An unknown field that cannot be skipped makes the input corrupted. */
  lemma CorruptedFieldIsRejected(w: Wire, e: Entry, t: Byte, s: seq<Byte>)
    requires w.Proper() && 0 < t < 0x80 && t % 8 != 4 && t as nat != w.keyTag && t as nat != w.valueTag
    requires !w.skipField(t as nat, s).ok
    ensures Parse(w, e, [t] + s) == None
  {
    BehindTag(w, t, s);
    FirstTagDecides(w, e, [t] + s);
  }

  lemma BehindTag(w: Wire, t: Byte, s: seq<Byte>)
    requires w.Proper() && t < 0x80
    ensures w.readTag([t] + s).value == t as nat && w.readTag([t] + s).rest == s
  {
    assert ([t] + s)[1..] == s;
  }

  class MapEntry {
    var key: Key
    var value: Value

    constructor (key: Key, value: Value)
      ensures this.key == key && this.value == value
    {
      this.key, this.value := key, value;
    }

    /** The plain parser. */
    method MergePartialFromCodedStream(input: Input) returns (ok: bool)
      requires input.w.Proper()
      modifies this, input
      ensures var p := Parse(input.w, old(Entry(key, value)), old(input.rest));
              && (ok <==> p.Some?)
              && (ok ==> p.value == (Entry(key, value), input.rest))
    {
      ghost var p := Parse(input.w, Entry(key, value), input.rest);
      while true
        invariant Parse(input.w, Entry(key, value), input.rest) == p
        decreases |input.rest|
      {
        var tag := input.ReadTag();
        if tag == input.w.keyTag {
          ok, key := input.ReadKey();
          if !ok { return false; }
        } else if tag == input.w.valueTag {
          ok, value := input.ReadValue(value);
          if !ok { return false; }
          var atEnd := input.ExpectAtEnd();
          if atEnd {
            ParseAtEnd(input.w, Entry(key, value));
            return true;
          }
        } else {
          if tag == 0 || tag % 8 == END_GROUP { return true; }
          ok := input.SkipField(tag);
          if !ok { return false; }
        }
      }
    }
  }

  lemma InsertedAndRemoved(m: map<Key, Value>, k: Key, v: Value)
    requires k !in m
    ensures m[k := v] - {k} == m
  {
  }

  lemma SetAndRemoved(m: map<Key, Value>, k: Key, v: Value)
    ensures m[k := v] - {k} == m - {k} && (m - {k})[k := v] == m[k := v]
  {
  }

  /** The node of key `k`, and whether the map has grown by it. */
  method CountedAt(m: Map, k: Key) returns (n: Node, grown: bool)
    requires m.Valid()
    modifies m.elements, m.elements.table, m.elements.nodes, m.elements.ownTrees
    ensures m.Valid() && m.elements == old(m.elements) && fresh(m.Repr() - old(m.Repr()))
    ensures grown <==> k !in old(m.Contents())
    ensures m.Contents() == if grown then old(m.Contents())[k := m.defaultValue] else old(m.Contents())
    ensures k in m.elements.where && m.elements.where[k] == n && n in m.elements.nodes && n.key == k
  {
    hide m.Valid, m.Contents, m.Repr, InnerMap.Valid, InnerMap.Consistent;
    m.Parts();
    var size := m.Size();
    ghost var left := m.Repr();
    label Counted:
    n := m.At(k);
    var size' := m.Size();
    grown := size != size';
    forall o | o in m.Repr() - old(m.Repr()) && o !in left ensures fresh({o}) {
      assert !old@Counted(allocated(o));
    }
  }

  class Parser {
    const target: Map
    const defaultKey: Key
    var key: Key
    var valuePtr: Node?
    var entry: MapEntry?

    constructor (m: Map, defaultKey: Key)
      ensures target == m && this.defaultKey == defaultKey
    {
      this.target, this.defaultKey, this.key := m, defaultKey, defaultKey;
      this.valuePtr, this.entry := null, null;
    }

    /** What `key()` and `value()` give: the parser points at the pair of key `k` in the map. */
    ghost predicate PointsAt(k: Key)
      reads this, target, target.elements
    {
      key == k && k in target.elements.where && valuePtr == target.elements.where[k]
    }

    /** Parsing has ended as outcome `p` of the plain parser says: the final key and value of an
        accepted entry are assigned to the map, which stood for `c`, and nothing else is. */
    ghost predicate Leaves(ok: bool, p: Option<(Entry, seq<Byte>)>, rest: seq<Byte>, c: map<Key, Value>)
      requires target.Valid()
      reads this, target, target.elements, target.elements.table, target.elements.nodes, target.elements.ownTrees
    {
      && (ok <==> p.Some?)
      && (ok ==> rest == p.value.1 && target.Contents() == c[p.value.0.key := p.value.0.value]
                 && PointsAt(p.value.0.key))
      && (!ok ==> target.Contents() == c)
    }

    lemma LeavesNothing(rest: seq<Byte>, c: map<Key, Value>)
      requires target.Valid() && target.Contents() == c
      ensures Leaves(false, None, rest, c)
    {
    }

    lemma LeavesPair(e: Entry, rest: seq<Byte>, c: map<Key, Value>)
      requires target.Valid() && target.Contents() == c[e.key := e.value] && PointsAt(e.key)
      ensures Leaves(true, Some((e, rest)), rest, c)
    {
    }

    /** The parser and its input are no part of the map. */
    ghost predicate Apart(input: Input)
      reads this, target, target.elements
    {
      this !in target.Repr() && input !in target.Repr()
    }

    /** Parses one entry and assigns it to the live map, exactly when the plain parser accepts
        it, and as that leaves it; otherwise the map is as it was. */
    method MergePartialFromCodedStream(input: Input) returns (ok: bool)
      requires input.w.Proper() && target.Valid() && Apart(input)
      modifies `key, `valuePtr, `entry, input
      modifies target.elements, target.elements.table, target.elements.nodes, target.elements.ownTrees
      ensures target.Valid() && target.elements == old(target.elements) && fresh(target.Repr() - old(target.Repr()))
      ensures var p := Parse(input.w, Entry(defaultKey, old(target.defaultValue)), old(input.rest));
              && (ok <==> p.Some?)
              && (ok ==> input.rest == p.value.1
                         && target.Contents() == old(target.Contents())[p.value.0.key := p.value.0.value]
                         && key == p.value.0.key && key in target.elements.where && valuePtr == target.elements.where[key])
              && (!ok ==> target.Contents() == old(target.Contents()))
    {
      hide target.Valid, target.Contents, InnerMap.Valid, InnerMap.Consistent, Parse;
      var expected := input.ExpectTag(input.w.keyTag);
      if expected {
        KeyComesFirst(input.w, Entry(defaultKey, target.defaultValue), old(input.rest));
        ok, key := input.ReadKey();
        if ok { ok := ParseAfterKey(input); }
      } else {
        key := defaultKey;
        ok := ParseIntoEntry(input);
      }
    }

    /** Goes on after the key: into the live map if the value comes next and the key is new. */
    method ParseAfterKey(input: Input) returns (ok: bool)
      requires input.w.Proper() && target.Valid() && Apart(input)
      modifies `key, `valuePtr, `entry, input
      modifies target.elements, target.elements.table, target.elements.nodes, target.elements.ownTrees
      ensures target.Valid() && target.elements == old(target.elements) && fresh(target.Repr() - old(target.Repr()))
      ensures Leaves(ok, old(Parse(input.w, Entry(key, target.defaultValue), input.rest)), input.rest,
                     old(target.Contents()))
    {
      hide target.Valid, target.Contents, InnerMap.Valid, InnerMap.Consistent, Parse, Leaves;
      var next := input.Peek(input.w.valueTag);
      var done := false;
      if next { done, ok := ParseNewPair(input); }
      if !done { ok := ParseIntoEntry(input); }
    }

    /** The value comes next: if the key is new it is read right into the map. */
    method ParseNewPair(input: Input) returns (done: bool, ok: bool)
      requires input.w.Proper() && target.Valid() && Apart(input)
      requires input.rest != [] && input.rest[0] as nat == input.w.valueTag
      modifies `key, `valuePtr, `entry, input
      modifies target.elements, target.elements.table, target.elements.nodes, target.elements.ownTrees
      ensures target.Valid() && target.elements == old(target.elements) && fresh(target.Repr() - old(target.Repr()))
      ensures done <==> old(key) !in old(target.Contents())
      ensures if done then
                Leaves(ok, old(Parse(input.w, Entry(key, target.defaultValue), input.rest)), input.rest,
                       old(target.Contents()))
              else
                && key == old(key) && input.rest == old(input.rest) && Apart(input)
                && target.Contents() == old(target.Contents())
    {
      hide target.Valid, target.Contents, target.Repr, InnerMap.Valid, InnerMap.Consistent, Parse, Leaves;
      target.Parts();
      ghost var c := target.Contents();
      ValueComesFirst(input.w, Entry(key, target.defaultValue), input.rest);
      var n, created := InsertKey();
      if !created { return false, false; }
      target.Parts();
      target.NodeShows(n);
      InsertedAndRemoved(c, key, target.defaultValue);
      ghost var left := target.Repr();
      label Inserted:
      ok := SkipAndFill(input, n);
      forall o | o in target.Repr() - old(target.Repr()) && o !in left ensures fresh({o}) {
        assert !old@Inserted(allocated(o));
      }
      done := true;
    }

    /** Goes on behind the tag of the value. */
    method SkipAndFill(input: Input, n: Node) returns (ok: bool)
      requires input.w.Proper() && target.Valid() && Apart(input) && input.rest != []
      requires n in target.elements.nodes && n.key == key && valuePtr == n && PointsAt(key)
      modifies `key, `valuePtr, `entry, input
      modifies target.elements, target.elements.table, target.elements.nodes, target.elements.ownTrees
      ensures target.Valid() && target.elements == old(target.elements) && fresh(target.Repr() - old(target.Repr()))
      ensures Leaves(ok, old(ParseValue(input.w, n.value, input.rest[1..])), input.rest, old(target.Contents() - {key}))
    {
      hide target.Valid, target.Contents, target.Repr, InnerMap.Valid, InnerMap.Consistent, Parse, Leaves, ParseValue;
      target.Parts();
      input.Skip();
      ghost var left := target.Repr();
      label Skipped:
      ok := FillNewPair(input, n);
      forall o | o in target.Repr() - old(target.Repr()) && o !in left ensures fresh({o}) {
        assert !old@Skipped(allocated(o));
      }
    }

    /** Makes a pair for `key` in the map; it is new if the size has changed. */
    method InsertKey() returns (n: Node, created: bool)
      requires target.Valid()
      modifies `valuePtr
      modifies target.elements, target.elements.table, target.elements.nodes, target.elements.ownTrees
      ensures target.Valid() && target.elements == old(target.elements) && fresh(target.Repr() - old(target.Repr()))
      ensures created <==> key !in old(target.Contents())
      ensures target.Contents() == if created then old(target.Contents())[key := target.defaultValue] else old(target.Contents())
      ensures valuePtr == n && n in target.elements.nodes && n.key == key && PointsAt(key)
    {
      hide target.Valid, target.Contents, target.Repr, InnerMap.Valid, InnerMap.Consistent;
      n, created := CountedAt(target, key);
      valuePtr := n;
    }

    /** Parses the rest into an entry that already has the key. */
    method ParseIntoEntry(input: Input) returns (ok: bool)
      requires input.w.Proper() && target.Valid() && Apart(input)
      modifies `key, `valuePtr, `entry, input
      modifies target.elements, target.elements.table, target.elements.nodes, target.elements.ownTrees
      ensures target.Valid() && target.elements == old(target.elements) && fresh(target.Repr() - old(target.Repr()))
      ensures Leaves(ok, old(Parse(input.w, Entry(key, target.defaultValue), input.rest)), input.rest,
                     old(target.Contents()))
    {
      hide target.Valid, target.Contents, target.Repr, InnerMap.Valid, InnerMap.Consistent, Parse;
      target.Parts();
      entry := new MapEntry(key, target.defaultValue);
      ok := entry.MergePartialFromCodedStream(input);
      ghost var left := target.Repr();
      label Parsed:
      if ok { UseKeyAndValueFromEntry(); }
      forall o | o in target.Repr() - old(target.Repr()) && o !in left ensures fresh({o}) {
        assert !old@Parsed(allocated(o));
      }
    }

    /** Assigns the parsed entry to the map. */
    method UseKeyAndValueFromEntry()
      requires target.Valid() && this !in target.Repr() && entry != null
      modifies `key, `valuePtr
      modifies target.elements, target.elements.table, target.elements.nodes, target.elements.ownTrees
      ensures target.Valid() && target.elements == old(target.elements) && fresh(target.Repr() - old(target.Repr()))
      ensures target.Contents() == old(target.Contents())[entry.key := entry.value] && PointsAt(entry.key)
    {
      hide target.Valid, target.Contents, target.Repr, InnerMap.Valid, InnerMap.Consistent;
      target.Parts();
      key := entry.key;
      ghost var before := target.Contents();
      var n := target.At(key);
      target.Parts();
      valuePtr := n;
      SetTwice(before, key, target.defaultValue, entry.value);
      target.Write(n, entry.value);
    }

    /** What the rest of the parser makes of the input once the value of `key` comes next. */
    ghost function ParseValue(w: Wire, into: Value, s: seq<Byte>): (r: Option<(Entry, seq<Byte>)>)
      requires w.Proper()
      reads this
    {
      var v := w.readValue(into, s);
      if v.ok then Parse(w, Entry(key, v.value), v.rest) else None
    }

    /** Reads the value of a key that was just inserted.  If that is not the end of the entry,
        or not a value, the insertion is undone. */
    method FillNewPair(input: Input, n: Node) returns (ok: bool)
      requires input.w.Proper() && target.Valid() && Apart(input)
      requires n in target.elements.nodes && n.key == key && valuePtr == n && PointsAt(key)
      modifies `key, `valuePtr, `entry, input
      modifies target.elements, target.elements.table, target.elements.nodes, target.elements.ownTrees
      ensures target.Valid() && target.elements == old(target.elements) && fresh(target.Repr() - old(target.Repr()))
      ensures Leaves(ok, old(ParseValue(input.w, n.value, input.rest)), input.rest, old(target.Contents() - {key}))
    {
      hide target.Valid, target.Contents, target.Repr, InnerMap.Valid, InnerMap.Consistent, Parse, Leaves;
      target.Parts();
      ghost var c := target.Contents() - {key};
      var v;
      ok, v := input.ReadValue(n.value);
      SetAndRemoved(target.Contents(), key, v);
      target.Write(n, v);
      if !ok {
        var count := target.EraseKey(key);
        LeavesNothing(input.rest, c);
        return;
      }
      var atEnd := input.ExpectAtEnd();
      if atEnd {
        ParseAtEnd(input.w, Entry(key, v));
        LeavesPair(Entry(key, v), input.rest, c);
        return;
      }
      ghost var left := target.Repr();
      label Filled:
      ok := ReadBeyondKeyValuePair(input, n);
      forall o | o in target.Repr() - old(target.Repr()) && o !in left ensures fresh({o}) {
        assert !old@Filled(allocated(o));
      }
    }

    /** The entry does not end after its key and value: the pair is taken out of the map again
        and parsing goes on into an entry. */
    method ReadBeyondKeyValuePair(input: Input, n: Node) returns (ok: bool)
      requires input.w.Proper() && target.Valid() && Apart(input)
      requires n in target.elements.nodes && n.key == key
      modifies `key, `valuePtr, `entry, input
      modifies target.elements, target.elements.table, target.elements.nodes, target.elements.ownTrees
      ensures target.Valid() && target.elements == old(target.elements) && fresh(target.Repr() - old(target.Repr()))
      ensures Leaves(ok, old(Parse(input.w, Entry(key, n.value), input.rest)), input.rest, old(target.Contents() - {key}))
    {
      hide target.Valid, target.Contents, target.Repr, InnerMap.Valid, InnerMap.Consistent, Parse, Leaves;
      target.Parts();
      ghost var c := target.Contents() - {key};
      entry := new MapEntry(key, n.value);
      var count := target.EraseKey(key);
      target.Parts();
      ghost var left := target.Repr();
      ok := entry.MergePartialFromCodedStream(input);
      if ok {
        label Parsed:
        UseKeyAndValueFromEntry();
        forall o | o in target.Repr() - old(target.Repr()) && o !in left ensures fresh({o}) {
          assert !old@Parsed(allocated(o));
        }
        LeavesPair(Entry(entry.key, entry.value), input.rest, c);
      } else {
        LeavesNothing(input.rest, c);
      }
    }
  }
}
