/**
 * The section container: `IniSection` (pyconf/ini_config.py) and its near-copy `Section`
 * (pyconf/base_config.py) as one class. The only difference between the two, the `pure`
 * argument of `_add_dict_prop`, is kept; `IniSection._add_dict_prop` is the `pure = false` case.
 */
module Sections {
  import opened Wrappers
  import opened Values
  import opened Coercion
  import opened Containers
  import opened Trees

  /** A value held in `dict_props`: a plain value, or a reference to a section object. */
  datatype Value = Plain(data: Data) | Child(section: Section)

  /**
   * `section[key]`: `dict_props` first, then `list_props` by index. A key found in neither
   * raises KeyError (the TypeError of indexing a list by a string is caught and turned into
   * KeyError); an integer outside the list raises IndexError, which is not caught.
   */
  function GetItem(c: Contents<Value>, key: Key): Result<Value> {
    match c.Get(key)
    case Some(v) => Ok(v)
    case None =>
      match c.Flag(key)
      case Ok(d) => Ok(Plain(d))
      case Err(e) => Err(e)
  }

  /**
   * The value `_add_dict_prop(key, value, pure)` stores: `value` itself when `pure`, else the
   * coerced comma group of the text; a value that is not a string has no `split` and raises
   * AttributeError.
   */
  function Stored(value: Data, pure: bool): Result<Data> {
    if pure then Ok(value)
    else if value.Str? then Ok(CoerceGroup(value.s))
    else Err(AttributeError)
  }

  /** The tree a value stands for: a plain value as a leaf, a section expanded. */
  ghost function NodeOf(v: Value): Node
    reads if v.Child? then {v.section} + v.section.Repr else {}
    requires v.Child? ==> v.section.Acyclic()
  {
    match v
    case Plain(d) => Leaf(d)
    case Child(s) => Sub(s.Tree())
  }

  class Section {
    /** `list_props`: the flags, in the order they were added. */
    var listProps: seq<Data>
    /** The insertion order of `dict_props`. */
    var dictOrder: seq<Key>
    /** `dict_props`. */
    var dictProps: map<Key, Value>
    /** This section and every section reachable from it. */
    ghost var Repr: set<object>

    /** Both stores, as a value. */
    function Props(): Contents<Value>
      reads this
    {
      Contents(listProps, dictOrder, dictProps)
    }

    /** The class invariant: `dictOrder` is the insertion order of `dict_props`. */
    ghost predicate Valid()
      reads this
    {
      Props().Keyed()
    }

    /** Every section reachable from this one is valid and none reaches back: the tree is finite. */
    ghost predicate Acyclic()
      reads this, Repr
      decreases Repr
    {
      this in Repr && Valid() &&
      forall k | k in dictProps && dictProps[k].Child? ::
        dictProps[k].section in Repr && dictProps[k].section.Repr <= Repr &&
        this !in dictProps[k].section.Repr && dictProps[k].section.Acyclic()
    }

    /** The section with every nested section expanded. */
    ghost function Tree(): (t: Trees.Tree)
      reads this, Repr
      requires Acyclic()
      ensures t.listProps == listProps && t.dictOrder == dictOrder && t.dictProps.Keys == dictProps.Keys
      decreases Repr
    {
      Contents(listProps, dictOrder,
        map k | k in dictProps ::
          if dictProps[k].Plain? then Leaf(dictProps[k].data) else Sub(dictProps[k].section.Tree()))
    }

    /** The tree keeps every insertion order consistent, at every depth. */
    lemma TreeKeyed()
      requires Acyclic()
      ensures DeepKeyed(Tree())
      decreases Repr
    {
      forall k | k in dictProps && dictProps[k].Child?
        ensures DeepKeyed(dictProps[k].section.Tree())
      {
        dictProps[k].section.TreeKeyed();
      }
    }

    /** This section may hold `v` without creating a cycle. */
    ghost predicate CanHold(v: Value)
      reads if v.Child? then {v.section} + v.section.Repr else {}
    {
      v.Child? ==> v.section.Acyclic() && this !in v.section.Repr
    }

    /** `Section()`: both stores empty. */
    constructor()
      ensures Props() == Empty() && Repr == {this}
      ensures Acyclic() && Tree() == Empty()
    {
      listProps := [];
      dictOrder := [];
      dictProps := map[];
      Repr := {this};
    }

    /** `section[key] = value`: always a write to `dict_props`, even for an integer key; `list_props` is never touched. */
    method SetItem(key: Key, value: Value)
      requires Valid()
      modifies this
      ensures Valid()
      ensures Props() == old(Props()).Put(key, value)
      ensures GetItem(Props(), key) == Ok(value)
      ensures Repr == old(Repr) + (if value.Child? then old(value.section.Repr) else {})
      ensures old(Acyclic()) && old(CanHold(value)) ==>
        Acyclic() && Tree() == old(Tree()).Put(key, old(NodeOf(value)))
    {
      ghost var before := Props();
      dictOrder := if key in dictProps then dictOrder else dictOrder + [key];
      dictProps := dictProps[key := value];
      Repr := Repr + if value.Child? then value.section.Repr else {};
      assert Props() == before.Put(key, value);
      if old(Acyclic()) && old(CanHold(value)) {
        Relinked(key, value, if value.Child? then value.section else this);
      }
    }

    /**
     * After `this[key] = value`, with nothing else changed and no cycle created, every section
     * this one holds is still acyclic, out of reach of this one, and has the tree it had.
     * `child` is the section `value` refers to, if any.
     */
    twostate lemma RelinkedChildren(new key: Key, new value: Value, child: Section)
      requires value.Child? ==> value.section == child
      requires old(Acyclic()) && unchanged(old(Repr) - {this})
      requires value.Child? ==> old(child.Acyclic()) && this !in old(child.Repr) && unchanged(old(child.Repr))
      requires listProps == old(listProps) && dictProps == old(dictProps)[key := value]
      requires dictOrder == if key in old(dictProps) then old(dictOrder) else old(dictOrder) + [key]
      requires Repr == old(Repr) + (if value.Child? then old(child.Repr) else {})
      ensures forall k | k in dictProps && dictProps[k].Child? ::
        var c := dictProps[k].section;
        this !in c.Repr && c.Repr <= Repr && c.Acyclic() && c.Tree() == old(c.Tree())
      ensures Acyclic()
    {
      forall k | k in dictProps && dictProps[k].Child?
        ensures var c := dictProps[k].section;
          this !in c.Repr && c.Repr <= Repr && c.Acyclic() && c.Tree() == old(c.Tree())
      {
        if k != key {
          assert dictProps[k] == old(dictProps[k]);
        }
        Unaffected(dictProps[k].section);
      }
    }

    /** The entries of the tree after `this[key] = value`: the old ones, with `key` now holding the node of `value`. */
    twostate lemma RelinkedEntries(new key: Key, new value: Value, child: Section)
      requires value.Child? ==> value.section == child
      requires old(Acyclic()) && unchanged(old(Repr) - {this})
      requires value.Child? ==> old(child.Acyclic()) && this !in old(child.Repr) && unchanged(old(child.Repr))
      requires listProps == old(listProps) && dictProps == old(dictProps)[key := value]
      requires dictOrder == if key in old(dictProps) then old(dictOrder) else old(dictOrder) + [key]
      requires Repr == old(Repr) + (if value.Child? then old(child.Repr) else {})
      ensures Acyclic() && (value.Child? ==> child.Acyclic())
      ensures Tree().dictProps == old(Tree()).dictProps[key := NodeOf(value)]
    {
      RelinkedChildren(key, value, child);
      assert value.Child? ==> key in dictProps && dictProps[key] == value;
      ghost var t, t0 := Tree().dictProps, old(Tree()).dictProps[key := NodeOf(value)];
      forall k | k in t ensures k in t0 && t[k] == t0[k] {
        if k != key {
          assert dictProps[k] == old(dictProps[k]);
        }
      }
    }

    /**
     * After `this[key] = value`, with nothing else changed and no cycle created, this section
     * is still acyclic and its tree is the old tree with the node of `value` under `key`.
     */
    twostate lemma Relinked(new key: Key, new value: Value, child: Section)
      requires value.Child? ==> value.section == child
      requires old(Acyclic()) && unchanged(old(Repr) - {this})
      requires value.Child? ==> old(child.Acyclic()) && this !in old(child.Repr) && unchanged(old(child.Repr))
      requires listProps == old(listProps) && dictProps == old(dictProps)[key := value]
      requires dictOrder == if key in old(dictProps) then old(dictOrder) else old(dictOrder) + [key]
      requires Repr == old(Repr) + (if value.Child? then old(child.Repr) else {})
      ensures value.Child? ==> child.Acyclic() && child.Tree() == old(child.Tree())
      ensures Acyclic() && Tree() == old(Tree()).Put(key, NodeOf(value))
    {
      RelinkedChildren(key, value, child);
      RelinkedEntries(key, value, child);
      assert value.Child? ==> key in dictProps && dictProps[key] == value;
      assert old(Tree()).dictOrder == old(dictOrder) && old(Tree()).dictProps.Keys == old(dictProps).Keys;
    }

    /** After a flag is appended, with nothing else changed, the section is still acyclic. */
    twostate lemma Reflagged(d: Data)
      requires old(Acyclic()) && unchanged(old(Repr) - {this}) && Repr == old(Repr)
      requires listProps == old(listProps) + [d] && dictOrder == old(dictOrder) && dictProps == old(dictProps)
      ensures Acyclic()
    {
      forall k | k in dictProps && dictProps[k].Child?
        ensures var c := dictProps[k].section;
          this !in c.Repr && c.Repr <= Repr && c.Acyclic()
      {
        assert dictProps[k] == old(dictProps[k]);
        Unaffected(dictProps[k].section);
      }
    }

    /**
     * A nested section `c`, held under `key`, has been filled in place: only `c`, objects
     * `c` reached before and new objects changed, and `Repr` has taken in the new footprint
     * of `c`. If no other nested section shared anything with `c`, this section is still
     * acyclic and its tree shows the new tree of `c` under `key`.
     */
    twostate lemma Regrown(new key: Key, new c: Section)
      requires old(Acyclic()) && key in old(dictProps) && old(dictProps[key]) == Child(c)
      requires listProps == old(listProps) && dictOrder == old(dictOrder) && dictProps == old(dictProps)
      requires forall k | k in old(dictProps) && k != key && old(dictProps[k]).Child? ::
        old(dictProps[k].section.Repr) !! old(c.Repr)
      requires unchanged(old(Repr) - old(c.Repr) - {this})
      requires c.Acyclic() && fresh(c.Repr - old(c.Repr))
      requires Repr == old(Repr) + c.Repr
      ensures Acyclic()
      ensures Tree() == old(Tree()).Put(key, Sub(c.Tree()))
    {
      assert this !in c.Repr;
      forall k | k in dictProps && k != key && dictProps[k].Child?
        ensures var d := dictProps[k].section;
          d.Repr == old(d.Repr) && this !in d.Repr && d.Repr <= Repr && d.Acyclic() && d.Tree() == old(d.Tree())
      {
        var d := dictProps[k].section;
        assert old(d.Repr) !! old(c.Repr) && this !in old(d.Repr) && old(d.Repr) <= old(Repr);
        Unaffected(d);
      }
      assert Acyclic();
      ghost var t, t0 := Tree(), old(Tree()).Put(key, Sub(c.Tree()));
      assert t.dictProps.Keys == t0.dictProps.Keys;
      forall k | k in t.dictProps ensures t.dictProps[k] == t0.dictProps[k] {
      }
      MapsAgree(t.dictProps, t0.dictProps);
      assert t.listProps == t0.listProps && t.dictOrder == t0.dictOrder;
    }

    /**
     * `_add_dict_prop(key, value, pure)`: stores `Stored(value, pure)` under `key`, or raises
     * AttributeError and changes nothing.
     */
    method AddDictProp(key: Key, value: Data, pure: bool) returns (r: Outcome)
      requires Valid()
      modifies this
      ensures Valid() && Repr == old(Repr)
      ensures Stored(value, pure).Err? ==> r == Fail(Stored(value, pure).error) && Props() == old(Props())
      ensures Stored(value, pure).Ok? ==> r == Pass && Props() == old(Props()).Put(key, Plain(Stored(value, pure).value))
      ensures old(Acyclic()) ==> Acyclic()
      ensures old(Acyclic()) && r.Pass? ==> Tree() == old(Tree()).Put(key, Leaf(Stored(value, pure).value))
    {
      if pure {
        SetItem(key, Plain(value));
        return Pass;
      }
      if !value.Str? {
        return Fail(AttributeError);
      }
      var typed := CoerceGroup(value.s);
      SetItem(key, Plain(typed));
      return Pass;
    }

    /**
     * `_add_list_prop(value)`: appends the coerced comma group of the text to `list_props`;
     * a value that is not a string raises AttributeError.
     */
    method AddListProp(value: Data) returns (r: Outcome)
      requires Valid()
      modifies this
      ensures Valid() && Repr == old(Repr)
      ensures !value.Str? ==> r == Fail(AttributeError) && Props() == old(Props())
      ensures value.Str? ==> r == Pass && Props() == old(Props()).Append(CoerceGroup(value.s))
      ensures old(Acyclic()) ==> Acyclic()
    {
      if !value.Str? {
        return Fail(AttributeError);
      }
      var typed := CoerceGroup(value.s);
      listProps := listProps + [typed];
      if old(Acyclic()) {
        Reflagged(typed);
      }
      return Pass;
    }
  }

  /** A section none of whose reachable objects changed keeps its footprint and its tree. */
  twostate lemma Unaffected(c: Section)
    requires old(c.Acyclic()) && unchanged(old(c.Repr))
    ensures c.Repr == old(c.Repr) && c.Acyclic() && c.Tree() == old(c.Tree())
  {
  }

  // ---------------------------------------------------------------------------
  // Lemmas

  /** Lookup prefers `dict_props`: a key present there is answered from it, whatever the flags. */
  lemma GetItemPrefersDict(c: Contents<Value>, key: Key)
    ensures c.Get(key).Some? ==> GetItem(c, key) == Ok(c.Get(key).value)
    ensures c.Get(key).None? && key.StrKey? ==> GetItem(c, key) == Err(KeyError)
    ensures c.Get(key).None? && key.IntKey? ==> GetItem(c, key) == (match c.Flag(key) case Ok(d) => Ok(Plain(d)) case Err(e) => Err(e))
  {
  }

  /**
   * A flag is found by its index, from either end, unless `dict_props` holds that integer;
   * an integer that is neither a key nor an index raises IndexError, never KeyError.
   */
  lemma GetItemIndexes(c: Contents<Value>, i: int)
    ensures 0 <= i < |c.listProps| && IntKey(i) !in c.dictProps ==>
      GetItem(c, IntKey(i)) == Ok(Plain(c.listProps[i]))
    ensures 0 <= i < |c.listProps| && IntKey(i - |c.listProps|) !in c.dictProps ==>
      GetItem(c, IntKey(i - |c.listProps|)) == Ok(Plain(c.listProps[i]))
    ensures IntKey(i) !in c.dictProps && !(-|c.listProps| <= i < |c.listProps|) ==>
      GetItem(c, IntKey(i)) == Err(IndexError)
    ensures GetItem(c, IntKey(i)) != Err(KeyError)
  {
    FlagIndexing(c, i);
  }

  /** `_add_dict_prop` with `pure` stores any value as it is; without it a string is coerced and anything else raises. */
  lemma StoredCases(value: Data, pure: bool)
    ensures pure ==> Stored(value, pure) == Ok(value)
    ensures !pure && value.Str? ==> Stored(value, pure) == Ok(CoerceGroup(value.s))
    ensures !pure && !value.Str? ==> Stored(value, pure) == Err(AttributeError)
    ensures !pure && value.Str? && ',' !in value.s ==> IsScalar(Stored(value, pure).value)
  {
  }
}
