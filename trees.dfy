/**
 * A section with every nested section expanded: the value a section denotes once object
 * identity is forgotten. Section equality (`Section.__eq__`, `BaseConfig.__eq__`) is
 * defined here, on trees.
 */
module Trees {
  import opened Wrappers
  import opened Values
  import opened Containers

  /** A value stored in `dict_props`: a plain value, or a nested section. */
  datatype Node = Leaf(data: Data) | Sub(tree: Contents<Node>)

  type Tree = Contents<Node>

  /** Every section in the tree has a consistent insertion order. */
  predicate DeepKeyed(t: Tree)
    decreases t
  {
    t.Keyed() && forall k | k in t.dictProps && t.dictProps[k].Sub? :: DeepKeyed(t.dictProps[k].tree)
  }

  /** No section in the tree holds a flag. */
  predicate NoFlags(t: Tree)
    decreases t
  {
    t.listProps == [] && forall k | k in t.dictProps && t.dictProps[k].Sub? :: NoFlags(t.dictProps[k].tree)
  }

  /** No section in the tree holds a nested section. */
  predicate Flat(t: Tree) {
    forall k | k in t.dictProps :: t.dictProps[k].Leaf?
  }

  // ---------------------------------------------------------------------------
  // Reading a tree back as nested mappings

  /** A section read back as the mapping it mirrors: its `dict_props`, in insertion order. */
  function ReadBack(t: Tree): Data
    requires DeepKeyed(t)
    decreases t, 1
  {
    Dict(ReadItems(t, |t.dictOrder|))
  }

  function ReadItems(t: Tree, n: nat): (r: seq<(Key, Data)>)
    requires DeepKeyed(t) && n <= |t.dictOrder|
    ensures |r| == n
    decreases t, 0, n
  {
    if n == 0 then []
    else
      var k := t.dictOrder[n - 1];
      ReadItems(t, n - 1) + [(k, ReadNode(t.dictProps[k]))]
  }

  function ReadNode(x: Node): Data
    requires x.Sub? ==> DeepKeyed(x.tree)
    decreases x, 2
  {
    match x
    case Leaf(d) => d
    case Sub(t) => ReadBack(t)
  }

  // ---------------------------------------------------------------------------
  // Equality

  /**
   * `a == b` on two sections: their `dict_props` compare equal and then their `list_props`
   * do. Comparing a nested section with a plain value raises AttributeError (the section's
   * `__eq__` reads `other.dict_props`), so the result can be an error.
   */
  function SectionEq(a: Tree, b: Tree): Result<bool>
    requires DeepKeyed(a) && DeepKeyed(b)
    decreases a, 3
  {
    match DictEq(a, b)
    case Ok(true) => Ok(a.listProps == b.listProps)
    case other => other
  }

  /**
   * Dict equality: different sizes compare unequal at once; otherwise the keys of `a` are
   * visited in insertion order, and the first missing key, unequal value or error decides.
   */
  function DictEq(a: Tree, b: Tree): Result<bool>
    requires DeepKeyed(a) && DeepKeyed(b)
    decreases a, 2
  {
    if |a.dictOrder| != |b.dictOrder| then Ok(false) else ItemsEq(a, b, 0)
  }

  function ItemsEq(a: Tree, b: Tree, i: nat): Result<bool>
    requires DeepKeyed(a) && DeepKeyed(b) && i <= |a.dictOrder|
    decreases a, 1, |a.dictOrder| - i
  {
    if i == |a.dictOrder| then Ok(true)
    else
      var k := a.dictOrder[i];
      if k !in b.dictProps then Ok(false)
      else
        match NodeEq(a.dictProps[k], b.dictProps[k])
        case Ok(true) => ItemsEq(a, b, i + 1)
        case other => other
  }

  function NodeEq(x: Node, y: Node): Result<bool>
    requires x.Sub? ==> DeepKeyed(x.tree)
    requires y.Sub? ==> DeepKeyed(y.tree)
    decreases x, 4
  {
    match (x, y)
    case (Leaf(d), Leaf(e)) => Ok(d == e)
    case (Sub(s), Sub(t)) => SectionEq(s, t)
    case _ => Err(AttributeError)
  }

  // ---------------------------------------------------------------------------
  // Lemmas about equality

  /** Every section equals itself. */
  lemma {:induction false} SectionEqReflexive(t: Tree)
    requires DeepKeyed(t)
    ensures SectionEq(t, t) == Ok(true)
    decreases t, 1
  {
    ItemsEqReflexive(t, 0);
  }

  lemma {:induction false} ItemsEqReflexive(t: Tree, i: nat)
    requires DeepKeyed(t) && i <= |t.dictOrder|
    ensures ItemsEq(t, t, i) == Ok(true)
    decreases t, 0, |t.dictOrder| - i
  {
    if i < |t.dictOrder| {
      var k := t.dictOrder[i];
      if t.dictProps[k].Sub? {
        SectionEqReflexive(t.dictProps[k].tree);
      }
      ItemsEqReflexive(t, i + 1);
    }
  }

  /** Walking the keys of `a` from `i` on succeeds exactly when each of them is in `b` with the same value. */
  lemma {:induction false} FlatItemsEq(a: Tree, b: Tree, i: nat)
    requires DeepKeyed(a) && DeepKeyed(b) && Flat(a) && Flat(b) && i <= |a.dictOrder|
    ensures ItemsEq(a, b, i) ==
      Ok(forall j :: i <= j < |a.dictOrder| ==>
           a.dictOrder[j] in b.dictProps && b.dictProps[a.dictOrder[j]] == a.dictProps[a.dictOrder[j]])
    decreases |a.dictOrder| - i
  {
    if i < |a.dictOrder| {
      FlatItemsEq(a, b, i + 1);
    }
  }

  /**
   * For sections holding no nested sections, equality is plain equality of both stores:
   * the dicts as mappings (insertion order does not matter), the flag lists in order.
   */
  lemma FlatSectionEq(a: Tree, b: Tree)
    requires DeepKeyed(a) && DeepKeyed(b) && Flat(a) && Flat(b)
    ensures SectionEq(a, b) == Ok(a.dictProps == b.dictProps && a.listProps == b.listProps)
  {
    OrderCount(a);
    OrderCount(b);
    if |a.dictOrder| == |b.dictOrder| {
      FlatItemsEq(a, b, 0);
      var all := forall j :: 0 <= j < |a.dictOrder| ==>
        a.dictOrder[j] in b.dictProps && b.dictProps[a.dictOrder[j]] == a.dictProps[a.dictOrder[j]];
      if all {
        assert a.dictProps.Keys <= b.dictProps.Keys by {
          forall k | k in a.dictProps ensures k in b.dictProps {
            var j :| 0 <= j < |a.dictOrder| && a.dictOrder[j] == k;
          }
        }
        assert |b.dictProps.Keys - a.dictProps.Keys| == 0;
        assert a.dictProps.Keys == b.dictProps.Keys;
        assert a.dictProps == b.dictProps by {
          forall k | k in a.dictProps ensures a.dictProps[k] == b.dictProps[k] {
            var j :| 0 <= j < |a.dictOrder| && a.dictOrder[j] == k;
          }
        }
      }
      if a.dictProps == b.dictProps {
        assert all by {
          forall j | 0 <= j < |a.dictOrder| ensures a.dictOrder[j] in b.dictProps {
            assert a.dictOrder[j] in a.dictProps;
          }
        }
      }
    } else {
      assert a.dictProps != b.dictProps;
    }
  }

  /**
   * A section compared with one that holds a nested section where it holds a plain value
   * under its first key raises AttributeError instead of answering false.
   */
  lemma MixedValuesRaise(k: Key, d: Data, t: Tree, f: seq<Data>, g: seq<Data>)
    requires DeepKeyed(t)
    ensures SectionEq(Contents(f, [k], map[k := Leaf(d)]), Contents(g, [k], map[k := Sub(t)])) == Err(AttributeError)
    ensures SectionEq(Contents(g, [k], map[k := Sub(t)]), Contents(f, [k], map[k := Leaf(d)])) == Err(AttributeError)
  {
    var a: Tree := Contents(f, [k], map[k := Leaf(d)]);
    var b: Tree := Contents(g, [k], map[k := Sub(t)]);
    assert DeepKeyed(a) && DeepKeyed(b);
    assert ItemsEq(a, b, 0) == Err(AttributeError);
    assert ItemsEq(b, a, 0) == Err(AttributeError);
  }
}
