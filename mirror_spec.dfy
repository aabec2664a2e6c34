/**
 * What `PyConfig._add_section_recursive(conf_dict, last_section)` does to the tree of
 * `last_section`, as a function: each item of the mapping, in order, is written into
 * `dict_props`; a dict value becomes a fresh nested section holding the mirror of that dict,
 * any other value is stored as it is.
 */
module MirrorSpec {
  import opened Values
  import opened Containers
  import opened Trees

  /** The tree of `last_section` once the first `n` items of `src` have been mirrored into `t`. */
  function Mirror(t: Tree, src: Data, n: nat): Tree
    requires src.Dict? && n <= |src.items|
    decreases src, 0, n
  {
    if n == 0 then t
    else
      var (k, v) := src.items[n - 1];
      Mirror(t, src, n - 1).Put(k, MirrorNode(v))
  }

  /** The node one value becomes: a dict is mirrored into a new, empty section. */
  function MirrorNode(v: Data): Node
    decreases v, 1
  {
    if v.Dict? then Sub(Mirror(Empty(), v, |v.items|)) else Leaf(v)
  }

  /** The whole of `src` mirrored into `t`. */
  function MirrorAll(t: Tree, src: Data): Tree
    requires src.Dict?
  {
    Mirror(t, src, |src.items|)
  }

  // ---------------------------------------------------------------------------
  // Lemmas

  /** Mirroring keeps every section's insertion order consistent. */
  lemma {:induction false} MirrorKeyed(t: Tree, src: Data, n: nat)
    requires src.Dict? && n <= |src.items| && DeepKeyed(t)
    ensures DeepKeyed(Mirror(t, src, n))
    decreases src, 0, n
  {
    if n > 0 {
      MirrorKeyed(t, src, n - 1);
      MirrorNodeKeyed(src.items[n - 1].1);
    }
  }

  lemma {:induction false} MirrorNodeKeyed(v: Data)
    ensures MirrorNode(v).Sub? ==> DeepKeyed(MirrorNode(v).tree)
    decreases v, 1
  {
    if v.Dict? {
      assert DeepKeyed(Empty<Node>());
      MirrorKeyed(Empty(), v, |v.items|);
    }
  }

  /**
   * Mirroring never creates a flag: the flags of `t` stay as they were, and every section
   * the mirror creates has none.
   */
  lemma {:induction false} MirrorAddsNoFlags(t: Tree, src: Data, n: nat)
    requires src.Dict? && n <= |src.items|
    ensures Mirror(t, src, n).listProps == t.listProps
    ensures forall k | k in Mirror(t, src, n).dictProps && k !in t.dictProps && Mirror(t, src, n).dictProps[k].Sub? ::
      NoFlags(Mirror(t, src, n).dictProps[k].tree)
    ensures NoFlags(t) ==> NoFlags(Mirror(t, src, n))
    decreases src, 0, n
  {
    if n > 0 {
      MirrorAddsNoFlags(t, src, n - 1);
      MirrorNodeNoFlags(src.items[n - 1].1);
    }
  }

  lemma {:induction false} MirrorNodeNoFlags(v: Data)
    ensures MirrorNode(v).Sub? ==> NoFlags(MirrorNode(v).tree)
    decreases v, 1
  {
    if v.Dict? {
      assert NoFlags(Empty<Node>());
      MirrorAddsNoFlags(Empty(), v, |v.items|);
    }
  }

  /** The keys after mirroring: those of `t` and those `src` mentions, nothing else. */
  lemma {:induction false} MirrorDomain(t: Tree, src: Data, n: nat, k: Key)
    requires src.Dict? && n <= |src.items|
    ensures k in Mirror(t, src, n).dictProps <==> k in t.dictProps || k in KeysOf(src.items)[..n]
    decreases n
  {
    if n > 0 {
      MirrorDomain(t, src, n - 1, k);
      var ks := KeysOf(src.items);
      TakeOneMore(ks, n - 1);
    }
  }

  /** A key of `t` that `src` does not mention keeps its value. */
  lemma {:induction false} MirrorKeeps(t: Tree, src: Data, n: nat, k: Key)
    requires src.Dict? && n <= |src.items| && k in t.dictProps && k !in KeysOf(src.items)[..n]
    ensures k in Mirror(t, src, n).dictProps && Mirror(t, src, n).dictProps[k] == t.dictProps[k]
    decreases n
  {
    if n > 0 {
      var ks := KeysOf(src.items);
      TakeOneMore(ks, n - 1);
      MirrorKeeps(t, src, n - 1, k);
    }
  }

  /** Each key `src` mentions ends up holding the mirror of its value (the keys of a Python dict are distinct). */
  lemma {:induction false} MirrorHolds(t: Tree, src: Data, n: nat, i: nat)
    requires src.Dict? && i < n <= |src.items| && Distinct(KeysOf(src.items))
    ensures src.items[i].0 in Mirror(t, src, n).dictProps
    ensures Mirror(t, src, n).dictProps[src.items[i].0] == MirrorNode(src.items[i].1)
    decreases n
  {
    if i < n - 1 {
      MirrorHolds(t, src, n - 1, i);
      assert KeysOf(src.items)[i] != KeysOf(src.items)[n - 1];
    }
  }

  /** Mirrored into an empty section, the keys keep the order they had in the mapping. */
  lemma {:induction false} MirrorOrder(src: Data, n: nat)
    requires src.Dict? && n <= |src.items| && Distinct(KeysOf(src.items))
    ensures Mirror(Empty(), src, n).Keyed()
    ensures Mirror(Empty(), src, n).dictOrder == KeysOf(src.items)[..n]
    decreases n
  {
    assert DeepKeyed(Empty<Node>());
    MirrorKeyed(Empty(), src, n);
    if n > 0 {
      var ks := KeysOf(src.items);
      var prev := Mirror(Empty(), src, n - 1);
      MirrorOrder(src, n - 1);
      MirrorDomain(Empty(), src, n - 1, ks[n - 1]);
      NotBefore(ks, n - 1);
      assert ks[n - 1] !in prev.dictProps;
      assert Mirror(Empty(), src, n).dictOrder == prev.dictOrder + [ks[n - 1]];
      TakeOneMore(ks, n - 1);
    }
  }

  /**
   * Round trip: reading back the tree built from a mapping, with each nested section
   * replaced by its contents, gives the mapping again.
   */
  lemma {:induction false} ReadBackMirror(v: Data)
    requires WellFormed(v)
    ensures MirrorNode(v).Sub? ==> DeepKeyed(MirrorNode(v).tree)
    ensures ReadNode(MirrorNode(v)) == v
    decreases v, 1
  {
    MirrorNodeKeyed(v);
    if v.Dict? {
      MirrorOrder(v, |v.items|);
      assert KeysOf(v.items)[..|v.items|] == KeysOf(v.items);
      ReadItemsMirror(v, |v.items|);
      assert v.items[..|v.items|] == v.items;
    }
  }

  lemma {:induction false} ReadItemsMirror(v: Data, n: nat)
    requires WellFormed(v) && v.Dict? && n <= |v.items|
    requires DeepKeyed(Mirror(Empty(), v, |v.items|))
    requires Mirror(Empty(), v, |v.items|).dictOrder == KeysOf(v.items)
    ensures ReadItems(Mirror(Empty(), v, |v.items|), n) == v.items[..n]
    decreases v, 0, n
  {
    if n > 0 {
      var m := Mirror(Empty(), v, |v.items|);
      var (k, x) := v.items[n - 1];
      assert m.dictOrder[n - 1] == k;
      ReadItemsMirror(v, n - 1);
      MirrorHolds(Empty(), v, |v.items|, n - 1);
      assert WellFormed(x);
      ReadBackMirror(x);
      assert ReadItems(m, n) == ReadItems(m, n - 1) + [(k, x)];
      TakeOneMore(v.items, n - 1);
    }
  }

  /** A value that is not a dict is stored verbatim: a string that looks like a number stays a string. */
  lemma MirrorVerbatim(t: Tree, src: Data, i: nat)
    requires src.Dict? && i < |src.items| && Distinct(KeysOf(src.items)) && !src.items[i].1.Dict?
    ensures src.items[i].0 in MirrorAll(t, src).dictProps
    ensures MirrorAll(t, src).dictProps[src.items[i].0] == Leaf(src.items[i].1)
  {
    MirrorHolds(t, src, |src.items|, i);
  }
}
