/**
 * The two stores of a section, as a value: `list_props`, the flags in the order they were
 * added, and `dict_props`, an insertion-ordered dict. A live section (`Sections.Section`)
 * exposes its fields as a `Contents<Value>`; a fully expanded section tree is a
 * `Contents<Node>` (`Trees`).
 */
module Containers {
  import opened Wrappers
  import opened Values

  datatype Contents<+V> = Contents(listProps: seq<Data>, dictOrder: seq<Key>, dictProps: map<Key, V>)
  {
    /** `dictOrder` is the insertion order of `dictProps`: each of its keys exactly once. */
    predicate Keyed() {
      Distinct(dictOrder) &&
      (forall k | k in dictProps :: k in dictOrder) && (forall k | k in dictOrder :: k in dictProps)
    }

    /** `dict_props[key] = v`: a key already present keeps its place, a new key goes last. */
    function Put(key: Key, v: V): (r: Contents<V>)
      ensures Keyed() ==> r.Keyed()
      ensures r.listProps == listProps && r.dictProps == dictProps[key := v]
      ensures Keyed() ==> r.dictOrder == if key in dictProps then dictOrder else dictOrder + [key]
    {
      Contents(listProps, if key in dictOrder then dictOrder else dictOrder + [key], dictProps[key := v])
    }

    /** `list_props.append(d)` */
    function Append(d: Data): Contents<V> {
      Contents(listProps + [d], dictOrder, dictProps)
    }

    /** `dict_props.get(key)`: the value, or nothing when the key is absent. */
    function Get(key: Key): Option<V> {
      if key in dictProps then Some(dictProps[key]) else None
    }

    /**
     * `list_props[key]`. An integer indexes from the front, or from the back when negative,
     * and fails with IndexError outside the list; a string key is a TypeError there, which
     * the section turns into KeyError.
     */
    function Flag(key: Key): Result<Data> {
      match key
      case StrKey(_) => Err(KeyError)
      case IntKey(i) =>
        if 0 <= i < |listProps| then Ok(listProps[i])
        else if -|listProps| <= i < 0 then Ok(listProps[|listProps| + i])
        else Err(IndexError)
    }

    /** `get_values`: both stores, whichever one is non-empty, or `None`. */
    function Values(): (r: Shown<V>)
      ensures r.Canonical()
      ensures r.NoValues? <==> listProps == [] && dictProps == map[]
      ensures Keyed() ==> r.Unshow() == this
    {
      assert dictOrder != [] ==> dictOrder[0] in dictOrder;
      if listProps != [] && dictProps != map[] then FlagsAndItems(listProps, dictOrder, dictProps)
      else if listProps != [] then FlagsOnly(listProps)
      else if dictProps != map[] then ItemsOnly(dictOrder, dictProps)
      else NoValues
    }

    /** `__iter__`: every flag in order, then every key of `dict_props` in insertion order. */
    function Iter(): seq<Data> {
      listProps + KeysData(dictOrder)
    }
  }

  function KeysData(ks: seq<Key>): (r: seq<Data>)
    ensures |r| == |ks|
    ensures forall i :: 0 <= i < |ks| ==> r[i] == KeyData(ks[i])
  {
    if ks == [] then [] else KeysData(ks[..|ks| - 1]) + [KeyData(ks[|ks| - 1])]
  }

  function Empty<V>(): Contents<V> {
    Contents([], [], map[])
  }

  /** What `get_values` returns: the pair, the list alone, the dict alone, or `None`. */
  datatype Shown<+V> =
    | FlagsAndItems(flags: seq<Data>, order: seq<Key>, items: map<Key, V>)
    | FlagsOnly(flags: seq<Data>)
    | ItemsOnly(order: seq<Key>, items: map<Key, V>)
    | NoValues
  {
    /** An empty list or dict is never returned on its own: `None` stands for both empty. */
    predicate Canonical() {
      match this
      case FlagsAndItems(f, _, m) => f != [] && m != map[]
      case FlagsOnly(f) => f != []
      case ItemsOnly(_, m) => m != map[]
      case NoValues => true
    }

    /** The section contents a result of `get_values` stands for. */
    function Unshow(): Contents<V> {
      match this
      case FlagsAndItems(f, o, m) => Contents(f, o, m)
      case FlagsOnly(f) => Contents(f, [], map[])
      case ItemsOnly(o, m) => Contents([], o, m)
      case NoValues => Contents([], [], map[])
    }
  }

  // ---------------------------------------------------------------------------
  // Lemmas

  /** A Keyed dict has as many entries as its order lists. */
  lemma {:induction false} OrderCount<V>(c: Contents<V>)
    requires c.Keyed()
    ensures |c.dictProps| == |c.dictOrder|
    decreases |c.dictOrder|
  {
    if c.dictOrder != [] {
      var n := |c.dictOrder|;
      var k := c.dictOrder[n - 1];
      var ks := c.dictOrder[..n - 1];
      var rest := Contents(c.listProps, ks, c.dictProps - {k});
      assert rest.Keyed() by {
        TakeOneMore(c.dictOrder, n - 1);
        assert c.dictOrder == ks + [k];
        NotBefore(c.dictOrder, n - 1);
        DistinctPrefix(c.dictOrder, n - 1);
      }
      OrderCount(rest);
      assert k in c.dictProps;
    }
  }

  /** The value just written is the one read back, and no other key is affected. */
  lemma PutThenGet<V>(c: Contents<V>, key: Key, v: V, other: Key)
    ensures c.Put(key, v).Get(key) == Some(v)
    ensures other != key ==> c.Put(key, v).Get(other) == c.Get(other)
    ensures c.Put(key, v).listProps == c.listProps
  {
  }

  /** Writing to a key twice keeps only the second value, in the place the first write gave the key. */
  lemma PutTwice<V>(c: Contents<V>, key: Key, v: V, w: V)
    requires c.Keyed()
    ensures c.Put(key, v).Put(key, w) == c.Put(key, w)
  {
  }

  /** Appending a flag grows the list by exactly one at the end and leaves the dict alone. */
  lemma AppendGrows<V>(c: Contents<V>, d: Data)
    ensures |c.Append(d).listProps| == |c.listProps| + 1
    ensures c.Append(d).listProps[|c.listProps|] == d
    ensures c.Append(d).listProps[..|c.listProps|] == c.listProps
    ensures c.Append(d).dictOrder == c.dictOrder && c.Append(d).dictProps == c.dictProps
  {
    assert (c.listProps + [d])[..|c.listProps|] == c.listProps;
  }

  /**
   * Every flag can be reached by its index from the front and by its negative index from the
   * back; every other integer is out of range.
   */
  lemma FlagIndexing<V>(c: Contents<V>, i: int)
    ensures 0 <= i < |c.listProps| ==>
      c.Flag(IntKey(i)) == Ok(c.listProps[i]) && c.Flag(IntKey(i - |c.listProps|)) == Ok(c.listProps[i])
    ensures c.Flag(IntKey(i)) == Err(IndexError) <==> !(-|c.listProps| <= i < |c.listProps|)
  {
  }

  /** A key occurs in a key list exactly when the value it yields occurs in the yielded list. */
  lemma KeysDataHas(ks: seq<Key>, k: Key)
    ensures k in ks <==> KeyData(k) in KeysData(ks)
  {
    var r := KeysData(ks);
    if k in ks {
      var t :| 0 <= t < |ks| && ks[t] == k;
      assert r[t] == KeyData(k);
    }
    if KeyData(k) in r {
      var t :| 0 <= t < |r| && r[t] == KeyData(k);
      assert KeyData(ks[t]) == KeyData(k);
    }
  }

  /** Iteration yields each flag and then each dict key once, the keys being exactly those of `dict_props`. */
  lemma IterYields<V>(c: Contents<V>)
    requires c.Keyed()
    ensures |c.Iter()| == |c.listProps| + |c.dictProps|
    ensures c.Iter()[..|c.listProps|] == c.listProps
    ensures forall k :: k in c.dictProps <==> KeyData(k) in c.Iter()[|c.listProps|..]
  {
    OrderCount(c);
    assert c.Iter()[|c.listProps|..] == KeysData(c.dictOrder);
    forall k ensures k in c.dictProps <==> KeyData(k) in KeysData(c.dictOrder) {
      KeysDataHas(c.dictOrder, k);
    }
  }
}
