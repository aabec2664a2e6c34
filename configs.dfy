/**
 * The configuration object: `IniConfig` (pyconf/ini_config.py) and `BaseConfig` with its
 * subclass `PyConfig` (pyconf/base_config.py, pyconf/py_config.py) as one class. A
 * configuration owns the top-level sections by name; "root" is created before anything is
 * loaded. The INI loader reads lines, the structured loader mirrors an already-parsed
 * mapping; both fill the same sections.
 */
module Configs {
  import opened Wrappers
  import opened Values
  import opened Coercion
  import opened LineGrammar
  import opened Containers
  import opened Trees
  import opened Sections
  import IniSpec
  import MirrorSpec

  /** What a lookup on the configuration finds: a whole top-level section, or a value from "root". */
  datatype Found = SectionFound(section: Section) | ValueFound(value: Value)

  /**
   * The `sections` dict seen as one section: no flags, and under each name, in the order
   * `names` gives, that section's tree.
   */
  function TopTree(names: seq<string>, trees: map<string, Trees.Tree>): (t: Trees.Tree)
    requires forall n :: n in names <==> n in trees
    requires Distinct(names) && forall n | n in trees :: DeepKeyed(trees[n])
    ensures DeepKeyed(t) && t.listProps == []
    ensures |t.dictOrder| == |names| && forall i | 0 <= i < |names| :: t.dictOrder[i] == StrKey(names[i])
    ensures forall k :: k in t.dictProps <==> k.StrKey? && k.s in trees
    ensures forall n | n in trees :: t.dictProps[StrKey(n)] == Sub(trees[n])
  {
    var order := seq(|names|, i requires 0 <= i < |names| => StrKey(names[i]));
    var t := Contents([], order, map n | n in trees :: StrKey(n) := Sub(trees[n]));
    assert t.Keyed() by {
      forall k | k in t.dictProps ensures k in order {
        var i :| 0 <= i < |names| && names[i] == k.s;
        assert order[i] == k;
      }
      forall k | k in order ensures k in t.dictProps {
        var i :| 0 <= i < |names| && order[i] == k;
        assert names[i] in trees;
      }
      assert Distinct(order) by {
        forall i, j | 0 <= i < j < |order| ensures order[i] != order[j] {
          assert names[i] != names[j];
        }
      }
    }
    t
  }


  class Config {
    /** `sections`: the top-level sections by name. */
    var sections: map<string, Section>
    /** The insertion order of `sections`. */
    var names: seq<string>
    /** This object and everything reachable from its sections. */
    ghost var Repr: set<object>

    /**
     * The class invariant: "root" exists, `names` lists each section once, every section is
     * a finite tree, and no two top-level sections share an object.
     */
    ghost predicate Valid()
      reads this, Repr
    {
      this in Repr && "root" in sections &&
      Distinct(names) && (forall n | n in sections :: n in names) && (forall n | n in names :: n in sections) &&
      (forall n | n in sections ::
        sections[n] in Repr && sections[n].Repr <= Repr && this !in sections[n].Repr && sections[n].Acyclic()) &&
      (forall n, m | n in sections && m in sections && n != m :: sections[n].Repr !! sections[m].Repr)
    }

    /** The contents of every top-level section, by name. */
    function Props(): map<string, Contents<Value>>
      reads this, sections.Values
    {
      map n | n in sections :: sections[n].Props()
    }

    /** The tree of every top-level section, by name. */
    ghost function SectionTrees(): (ts: map<string, Trees.Tree>)
      reads this, Repr
      requires Valid()
      ensures ts.Keys == sections.Keys && forall n | n in ts :: DeepKeyed(ts[n])
    {
      assert forall n | n in sections :: DeepKeyed(sections[n].Tree()) by {
        forall n | n in sections ensures DeepKeyed(sections[n].Tree()) {
          sections[n].TreeKeyed();
        }
      }
      map n | n in sections :: sections[n].Tree()
    }

    /** The whole configuration as one tree: the `sections` dict, each section expanded. */
    ghost function Tree(): (t: Trees.Tree)
      reads this, Repr
      requires Valid()
      ensures DeepKeyed(t)
    {
      TopTree(names, SectionTrees())
    }

    /** `__init__` followed by `load` on an INI source given as its lines. */
    constructor Ini(lines: seq<string>)
      ensures Valid()
      ensures var r := IniSpec.Run(IniSpec.Start(), lines);
        r.Ok? && r.value.sections == Props() && r.value.names == names
    {
      var root := new Section();
      sections := map["root" := root];
      names := ["root"];
      Repr := {this, root};
      new;
      Initial(root);
      Load(lines);
    }

    /** The state `__init__` leaves before `load`: a valid configuration with one empty "root" section. */
    lemma Initial(root: Section)
      requires sections == map["root" := root] && names == ["root"] && Repr == {this, root}
      requires root.Props() == Empty() && root.Repr == {root} && root.Acyclic()
      ensures Valid() && Props() == IniSpec.Start().sections
    {
      assert Distinct(names);
    }

    /** `__init__` followed by `PyConfig.load`, given the mapping the source evaluates to. */
    constructor Py(src: Data)
      requires src.Dict?
      ensures Valid()
      ensures sections.Keys == {"root"} && names == ["root"]
      ensures sections["root"].Tree() == MirrorSpec.MirrorAll(Empty(), src)
    {
      var root := new Section();
      sections := map["root" := root];
      names := ["root"];
      Repr := {this, root};
      new;
      LoadMapping(src);
    }

    /**
     * `_add_section(name)` with no parent: a fresh empty section under `name` in `sections`,
     * replacing any section of that name; it is returned.
     */
    method AddSection(name: string) returns (s: Section)
      requires Valid()
      modifies this
      ensures Valid() && fresh(s) && Repr == old(Repr) + {s}
      ensures sections == old(sections)[name := s] && s.Props() == Empty()
      ensures names == if name in old(sections) then old(names) else old(names) + [name]
      ensures Props() == old(Props())[name := Empty()]
    {
      s := new Section();
      if name !in sections {
        IniSpec.NotIn(names, name);
        names := names + [name];
      }
      sections := sections[name := s];
      Repr := Repr + {s};
      Added(name, s);
    }

    /**
     * After `sections[name]` was set to a fresh, empty section and nothing else changed but
     * this object, the configuration is valid and only the contents under `name` changed.
     */
    twostate lemma Added(name: string, new s: Section)
      requires old(Valid()) && fresh(s) && s.Repr == {s} && s.Acyclic()
      requires sections == old(sections)[name := s] && Repr == old(Repr) + {s}
      requires names == if name in old(sections) then old(names) else old(names) + [name]
      requires Distinct(names)
      requires unchanged(old(Repr) - {this})
      ensures Valid()
      ensures Props() == old(Props())[name := s.Props()]
    {
      forall n | n in sections
        ensures sections[n] in Repr && sections[n].Repr <= Repr && this !in sections[n].Repr && sections[n].Acyclic()
        ensures n != name ==> sections[n].Repr == old(sections[n].Repr) && s !in sections[n].Repr
        ensures sections[n].Props() == if n == name then s.Props() else old(sections[n].Props())
      {
        if n != name {
          Unaffected(sections[n]);
        }
      }
      OnlyOneChanged(name);
      forall n, m | n in sections && m in sections && n != m
        ensures sections[n].Repr !! sections[m].Repr
      {
        if n == name {
          assert s !in sections[m].Repr;
        } else if m == name {
          assert s !in sections[n].Repr;
        } else {
          assert old(sections[n].Repr !! sections[m].Repr);
        }
      }
    }

    /**
     * `_add_section(name, parent)`: a fresh empty section stored as `parent[name]` and
     * returned; no other nested section of `parent` can reach it.
     */
    method AddChildSection(name: Key, parent: Section) returns (s: Section)
      requires parent.Valid()
      modifies parent
      ensures fresh(s) && s.Props() == Empty() && s.Repr == {s} && s.Acyclic() && s.Tree() == Empty()
      ensures parent.Valid() && parent.Repr == old(parent.Repr) + {s}
      ensures parent.Props() == old(parent.Props()).Put(name, Child(s))
      ensures old(parent.Acyclic()) ==> parent.Acyclic() && parent.Tree() == old(parent.Tree()).Put(name, Sub(Empty()))
      ensures old(parent.Acyclic()) ==>
        forall k | k in parent.dictProps && k != name && parent.dictProps[k].Child? :: s !in parent.dictProps[k].section.Repr
    {
      s := new Section();
      label Made:
      parent.SetItem(name, Child(s));
      if old(parent.Acyclic()) {
        assert old@Made(parent.Acyclic()) && old@Made(parent.Tree()) == old(parent.Tree());
        forall k | k in parent.dictProps && k != name && parent.dictProps[k].Child?
          ensures s !in parent.dictProps[k].section.Repr
        {
          var d := parent.dictProps[k].section;
          assert old(parent.dictProps[k]) == Child(d);
          assert old(d.Acyclic());
        }
      }
    }

    /**
     * `IniConfig._add_dict_prop_to_section(key, value, name)`: the coerced value is stored
     * under `key` in the section called `name`; a missing section raises KeyError.
     */
    method AddDictPropToNamed(key: string, value: string, name: string) returns (r: Outcome)
      requires Valid()
      modifies if name in sections then {sections[name]} else {}
      ensures Valid() && Repr == old(Repr) && sections == old(sections) && names == old(names)
      ensures name !in sections ==> r == Fail(KeyError) && Props() == old(Props())
      ensures name in sections ==>
        r == Pass && Props() == old(Props())[name := old(Props()[name]).Put(StrKey(key), Plain(CoerceGroup(value)))]
    {
      if name !in sections {
        return Fail(KeyError);
      }
      var s := sections[name];
      Separate(name);
      r := s.AddDictProp(StrKey(key), Str(value), false);
      Untouched(name);
    }

    /**
     * `IniConfig._add_list_prop_to_section(value, name)`: the coerced value is appended to the
     * flags of the section called `name`; a missing section raises KeyError.
     */
    method AddListPropToNamed(value: string, name: string) returns (r: Outcome)
      requires Valid()
      modifies if name in sections then {sections[name]} else {}
      ensures Valid() && Repr == old(Repr) && sections == old(sections) && names == old(names)
      ensures name !in sections ==> r == Fail(KeyError) && Props() == old(Props())
      ensures name in sections ==> r == Pass && Props() == old(Props())[name := old(Props()[name]).Append(CoerceGroup(value))]
    {
      if name !in sections {
        return Fail(KeyError);
      }
      var s := sections[name];
      Separate(name);
      r := s.AddListProp(Str(value));
      Untouched(name);
    }

    /**
     * `BaseConfig._add_dict_prop_to_section(key, value, section, pure)`: `_add_dict_prop` on
     * the given section object, or on "root" when none is given.
     */
    method AddDictPropTo(key: Key, value: Data, section: Option<Section>, pure: bool) returns (r: Outcome)
      requires section.None? ==> Valid()
      requires section.Some? ==> section.value.Valid()
      modifies if section.Some? then section.value else sections["root"]
      ensures section.Some? ==> var s := section.value;
        && s.Valid() && s.Repr == old(s.Repr)
        && (Stored(value, pure).Err? ==> r == Fail(Stored(value, pure).error) && s.Props() == old(s.Props()))
        && (Stored(value, pure).Ok? ==> r == Pass && s.Props() == old(s.Props()).Put(key, Plain(Stored(value, pure).value)))
        && (old(s.Acyclic()) ==> s.Acyclic())
        && (old(s.Acyclic()) && r.Pass? ==> s.Tree() == old(s.Tree()).Put(key, Leaf(Stored(value, pure).value)))
      ensures section.None? ==> sections == old(sections) && Valid()
      ensures section.None? ==> var s := sections["root"];
        && s.Repr == old(s.Repr)
        && (Stored(value, pure).Err? ==> r == Fail(Stored(value, pure).error) && s.Props() == old(s.Props()))
        && (Stored(value, pure).Ok? ==> r == Pass && s.Props() == old(s.Props()).Put(key, Plain(Stored(value, pure).value)))
        && (r.Pass? ==> s.Tree() == old(s.Tree()).Put(key, Leaf(Stored(value, pure).value)))
      ensures section.None? ==> Props() == old(Props())["root" := sections["root"].Props()]
    {
      if section.None? {
        Separate("root");
        r := sections["root"].AddDictProp(key, value, pure);
        Untouched("root");
      } else {
        r := section.value.AddDictProp(key, value, pure);
      }
    }

    /**
     * `BaseConfig._add_list_prop_to_section(value, section)`: `_add_list_prop` on the given
     * section object, or on "root" when none is given.
     */
    method AddListPropTo(value: Data, section: Option<Section>) returns (r: Outcome)
      requires section.None? ==> Valid()
      requires section.Some? ==> section.value.Valid()
      modifies if section.Some? then section.value else sections["root"]
      ensures section.Some? ==> var s := section.value;
        && s.Valid() && s.Repr == old(s.Repr)
        && (!value.Str? ==> r == Fail(AttributeError) && s.Props() == old(s.Props()))
        && (value.Str? ==> r == Pass && s.Props() == old(s.Props()).Append(CoerceGroup(value.s)))
        && (old(s.Acyclic()) ==> s.Acyclic())
      ensures section.None? ==> sections == old(sections) && Valid()
      ensures section.None? ==> var s := sections["root"];
        && s.Repr == old(s.Repr)
        && (!value.Str? ==> r == Fail(AttributeError) && s.Props() == old(s.Props()))
        && (value.Str? ==> r == Pass && s.Props() == old(s.Props()).Append(CoerceGroup(value.s)))
      ensures section.None? ==> Props() == old(Props())["root" := sections["root"].Props()]
    {
      if section.None? {
        Separate("root");
        r := sections["root"].AddListProp(value);
        Untouched("root");
      } else {
        r := section.value.AddListProp(value);
      }
    }

    /** No other top-level section is the section called `name`, nor reaches it. */
    lemma Separate(name: string)
      requires Valid() && name in sections
      ensures forall n | n in sections && n != name ::
        sections[n] != sections[name] && sections[name] !in sections[n].Repr
    {
      forall n | n in sections && n != name
        ensures sections[n] != sections[name] && sections[name] !in sections[n].Repr
      {
        assert sections[name] in sections[name].Repr;
      }
    }

    /**
     * After the section called `name` changed in place, keeping its footprint and staying a
     * finite tree, the configuration is still valid and the other sections are as they were.
     */
    twostate lemma Untouched(name: string)
      requires old(Valid()) && name in old(sections)
      requires unchanged(this) && unchanged(old(Repr) - {old(sections[name])})
      requires sections[name].Repr == old(sections[name].Repr) && sections[name].Acyclic()
      ensures Valid()
      ensures Props() == old(Props())[name := sections[name].Props()]
    {
      EachUntouched(name);
      OnlyOneChanged(name);
      StillDisjoint();
    }

    /** Only the contents of the section called `name` may differ from the old state's. */
    twostate lemma OnlyOneChanged(name: string)
      requires sections.Keys == old(sections).Keys + {name}
      requires forall n | n in sections && n != name :: sections[n].Props() == old(sections[n].Props())
      ensures Props() == old(Props())[name := sections[name].Props()]
    {
      MapsAgree(Props(), old(Props())[name := sections[name].Props()]);
    }

    /** Sections that kept their footprints are still pairwise disjoint. */
    twostate lemma StillDisjoint()
      requires old(Valid()) && sections == old(sections)
      requires forall n | n in sections :: sections[n].Repr == old(sections[n].Repr)
      ensures forall n, m | n in sections && m in sections && n != m :: sections[n].Repr !! sections[m].Repr
    {
      forall n, m | n in sections && m in sections && n != m
        ensures sections[n].Repr !! sections[m].Repr
      {
        assert old(sections[n].Repr !! sections[m].Repr);
      }
    }

    /** `Untouched`, section by section. */
    twostate lemma EachUntouched(name: string)
      requires old(Valid()) && name in old(sections)
      requires unchanged(this) && unchanged(old(Repr) - {old(sections[name])})
      requires sections[name].Repr == old(sections[name].Repr) && sections[name].Acyclic()
      ensures forall n | n in sections ::
        sections[n].Acyclic() && sections[n].Repr == old(sections[n].Repr) &&
        sections[n] in Repr && sections[n].Repr <= Repr && this !in sections[n].Repr &&
        sections[n].Props() == if n == name then sections[name].Props() else old(sections[n].Props())
    {
      var s := sections[name];
      forall n | n in sections
        ensures sections[n].Acyclic() && sections[n].Repr == old(sections[n].Repr)
        ensures sections[n] in Repr && sections[n].Repr <= Repr && this !in sections[n].Repr
        ensures sections[n].Props() == if n == name then s.Props() else old(sections[n].Props())
      {
        if n != name {
          assert s in old(s.Repr);
          Unaffected(sections[n]);
        }
      }
    }

    /**
     * `load` of `IniConfig`: the lines are read in order, each classified by the first of the
     * comment, header, item and flag patterns that matches it. A header switches to its
     * section, creating it when new; an item or a flag goes to the current section, or to
     * "root" before any header. The target always exists, so the KeyError of
     * `_add_*_to_section` is never raised.
     */
    method Load(lines: seq<string>)
      requires Valid()
      modifies Repr
      ensures Valid() && fresh(Repr - old(Repr))
      ensures var r := IniSpec.Run(IniSpec.LoadState(old(Props()), old(names), None), lines);
        r.Ok? && r.value.sections == Props() && r.value.names == names
    {
      ghost var start := IniSpec.LoadState(Props(), names, None);
      var current: Option<string> := None;
      var i := 0;
      while i < |lines|
        invariant 0 <= i <= |lines|
        invariant Valid() && fresh(Repr - old(Repr))
        invariant IniSpec.Run(start, lines[..i]) == Ok(IniSpec.LoadState(Props(), names, current))
        invariant current.Some? ==> current.value in sections
      {
        IniSpec.RunPrefix(start, lines, i);
        current := ReadLine(lines[i], current);
        i := i + 1;
      }
      assert lines[..i] == lines;
    }

    /**
     * One pass of the loop in `load`: the first of the comment, header, item and flag
     * patterns that matches `line` decides what is done, and `current_section` is returned.
     */
    method ReadLine(line: string, current: Option<string>) returns (next: Option<string>)
      requires Valid() && (current.Some? ==> current.value in sections)
      modifies Repr
      ensures Valid() && fresh(Repr - old(Repr))
      ensures next.Some? ==> next.value in sections
      ensures IniSpec.Step(IniSpec.LoadState(old(Props()), old(names), current), line) ==
        Ok(IniSpec.LoadState(Props(), names, next))
    {
      next := current;
      if IsComment(line) {
        return;
      }
      var header := MatchHeader(line);
      if header.Some? {
        next := header;
        if header.value !in sections {
          var _ := AddSection(header.value);
        }
        return;
      }
      var target := IniSpec.Target(current);
      var item := MatchItem(line);
      if item.Some? {
        var (key, value) := item.value;
        var _ := AddDictPropToNamed(key, value, target);
        return;
      }
      var flag := MatchValue(line);
      if flag.Some? {
        var _ := AddListPropToNamed(flag.value, target);
      }
    }

    /**
     * `_add_section_recursive(src, last)`: every item of the mapping, in order, is written
     * into `last`. A dict value first gets a fresh empty section attached under its key, which
     * is then filled recursively; any other value is stored as it is (`pure`).
     */
    method AddSectionRecursive(src: Data, last: Section)
      requires src.Dict? && last.Acyclic()
      modifies last
      ensures last.Acyclic() && fresh(last.Repr - old(last.Repr))
      ensures last.Tree() == MirrorSpec.MirrorAll(old(last.Tree()), src)
      decreases src, 0
    {
      var i := 0;
      while i < |src.items|
        invariant 0 <= i <= |src.items|
        invariant last.Acyclic() && fresh(last.Repr - old(last.Repr))
        invariant last.Tree() == MirrorSpec.Mirror(old(last.Tree()), src, i)
      {
        var (key, value) := src.items[i];
        AddItem(key, value, last);
        i := i + 1;
      }
    }

    /** One item of the loop of `_add_section_recursive`, a dict or any other value. */
    method AddItem(key: Key, value: Data, last: Section)
      requires last.Acyclic()
      modifies last
      ensures last.Acyclic() && fresh(last.Repr - old(last.Repr))
      ensures last.Tree() == old(last.Tree()).Put(key, MirrorSpec.MirrorNode(value))
      decreases value, 2
    {
      if value.Dict? {
        AddNestedSection(key, value, last);
      } else {
        // `_add_dict_prop_to_section` with a section given is `_add_dict_prop` on it (AddDictPropTo)
        var _ := last.AddDictProp(key, value, true);
      }
    }

    /**
     * The dict branch of `_add_section_recursive`: a fresh empty section is attached to `last`
     * under `key` and then filled from `value` by the recursive call.
     */
    method AddNestedSection(key: Key, value: Data, last: Section)
      requires value.Dict? && last.Acyclic()
      modifies last
      ensures last.Acyclic() && fresh(last.Repr - old(last.Repr))
      ensures last.Tree() == old(last.Tree()).Put(key, MirrorSpec.MirrorNode(value))
      decreases value, 1
    {
      ghost var t0 := last.Tree();
      var current := AddChildSection(key, last);
      label Attached:
      ghost var r := last.Repr;
      assert last.Tree() == t0.Put(key, Sub(Empty()));
      AddSectionRecursive(value, current);
      assert fresh(current.Repr) by {
        assert old@Attached(current.Repr) == {current};
      }
      last.Repr := last.Repr + current.Repr;
      Refilled@Attached(last, key, current, t0, value);
      FreshExtension(last, current, r, current.Repr);
    }

    /**
     * Between the old state, where `current` was just attached empty under `key`, and now,
     * where the recursive call has filled it: `last` is acyclic again and the tree under `key`
     * is the mirror of `value`.
     */
    twostate lemma Refilled(last: Section, new key: Key, new current: Section, new t0: Trees.Tree, new value: Data)
      requires old(last.Acyclic()) && old(last.Tree()) == t0.Put(key, Sub(Empty())) && t0.Keyed()
      requires key in old(last.dictProps) && old(last.dictProps[key]) == Child(current)
      requires old(current.Repr) == {current} && current in old(last.Repr)
      requires forall k | k in old(last.dictProps) && k != key && old(last.dictProps[k]).Child? ::
        current !in old(last.dictProps[k].section.Repr)
      requires last.listProps == old(last.listProps) && last.dictOrder == old(last.dictOrder)
      requires last.dictProps == old(last.dictProps)
      requires unchanged(old(last.Repr) - {current, last})
      requires value.Dict? && current.Acyclic() && fresh(current.Repr - old(current.Repr))
      requires current.Tree() == MirrorSpec.MirrorAll(Empty(), value)
      requires last.Repr == old(last.Repr) + current.Repr
      ensures last.Acyclic() && last.Tree() == t0.Put(key, MirrorSpec.MirrorNode(value))
    {
      last.Regrown(key, current);
      PutTwice(t0, key, Sub(Empty()), Sub(current.Tree()));
    }

    /** `last` took in the footprint `cr` of a section `current` created since the old state. */
    twostate lemma FreshExtension(last: Section, new current: Section, new r: set<object>, new cr: set<object>)
      requires fresh(cr) && current in cr
      requires r == old(last.Repr) + {current} && last.Repr == r + cr
      ensures fresh(last.Repr - old(last.Repr))
    {
    }

    /**
     * `PyConfig.load`, given the mapping the source evaluates to: the mapping is mirrored
     * into "root", so its top-level keys become keys of "root" and no top-level section is added.
     */
    method LoadMapping(src: Data)
      requires Valid() && src.Dict?
      modifies this, sections["root"]
      ensures Valid() && fresh(Repr - old(Repr))
      ensures sections == old(sections) && names == old(names)
      ensures sections["root"].Tree() == MirrorSpec.MirrorAll(old(sections["root"].Tree()), src)
      ensures forall n | n in sections && n != "root" :: sections[n].Tree() == old(sections[n].Tree())
    {
      var root := sections["root"];
      Separate("root");
      AddSectionRecursive(src, root);
      ghost var filled := root.Tree();
      assert (root.Repr - old(root.Repr)) !! old(Repr) && this !in root.Repr;
      Repr := Repr + root.Repr;
      assert root.Tree() == filled;
      Grown("root");
    }

    /**
     * After the section called `name` grew in place by objects new to this configuration, with this object's
     * footprint grown to match, the configuration is valid and the other sections are as they were.
     */
    twostate lemma Grown(name: string)
      requires old(Valid()) && name in old(sections)
      requires sections == old(sections) && names == old(names)
      requires unchanged(old(Repr) - {this, old(sections[name])})
      requires sections[name].Acyclic() && (sections[name].Repr - old(sections[name].Repr)) !! old(Repr)
      requires Repr == old(Repr) + sections[name].Repr
      ensures Valid()
      ensures forall n | n in sections && n != name :: sections[n].Tree() == old(sections[n].Tree())
    {
      var s := sections[name];
      forall n | n in sections && n != name
        ensures sections[n].Acyclic() && sections[n].Repr == old(sections[n].Repr)
        ensures sections[n].Tree() == old(sections[n].Tree())
      {
        assert s in old(s.Repr);
        Unaffected(sections[n]);
      }
      forall n, m | n in sections && m in sections && n != m
        ensures sections[n].Repr !! sections[m].Repr
      {
        if n == name {
          assert old(sections[n].Repr !! sections[m].Repr);
        } else if m == name {
          assert old(sections[n].Repr !! sections[m].Repr);
        } else {
          assert old(sections[n].Repr !! sections[m].Repr);
        }
      }
    }

    /**
     * `config.get(key)`: the top-level section of that name, else the value "root" holds
     * under `key` in its dict, else nothing.
     */
    function Get(key: Key): Option<Found>
      reads this, sections.Values
      requires "root" in sections
    {
      if key.StrKey? && key.s in sections then Some(SectionFound(sections[key.s]))
      else
        match sections["root"].Props().Get(key)
        case Some(v) => Some(ValueFound(v))
        case None => None
    }

    /**
     * `config[key]`: the top-level section of that name, else `root[key]`. KeyError from
     * "root" becomes KeyError; IndexError is not caught and escapes as it is.
     */
    function GetItem(key: Key): Result<Found>
      reads this, sections.Values
      requires "root" in sections
    {
      if key.StrKey? && key.s in sections then Ok(SectionFound(sections[key.s]))
      else
        match Sections.GetItem(sections["root"].Props(), key)
        case Ok(v) => Ok(ValueFound(v))
        case Err(e) => Err(e)
    }

    /**
     * `get_config()`: every section name mapped to what that section's `get_values`
     * returns; each result stands for exactly the section's contents.
     */
    function GetConfig(): (r: map<string, Shown<Value>>)
      reads this, sections.Values
      ensures r.Keys == sections.Keys
      ensures forall n | n in r :: r[n].Canonical() && (r[n].NoValues? <==> sections[n].listProps == [] && sections[n].dictProps == map[])
      ensures forall n | n in r :: sections[n].Props().Keyed() ==> r[n].Unshow() == sections[n].Props()
    {
      map n | n in sections :: sections[n].Props().Values()
    }

    /**
     * `config[key] = value`: always written into "root". Unless the value is a section
     * already reachable from this configuration, the configuration stays valid.
     */
    method SetItem(key: Key, value: Value)
      requires Valid()
      modifies this, sections["root"]
      ensures sections == old(sections) && names == old(names)
      ensures sections["root"].Valid()
      ensures Props() == old(Props())["root" := old(Props()["root"]).Put(key, value)]
      ensures old(Detached(value)) ==> Valid()
    {
      var root := sections["root"];
      Separate("root");
      ghost var detached := Detached(value);
      assert detached ==> root.CanHold(value) && (value.Child? ==> this !in value.section.Repr);
      ghost var extra := if value.Child? then value.section.Repr else {};
      assert detached ==> extra !! Repr;
      Repr := Repr + extra;
      assert root.Acyclic();
      root.SetItem(key, value);
      RootSet(key, value, extra, detached);
    }

    /**
     * After `root[key] = value`, with this object's footprint grown by that of `value`: only
     * "root" changed, and the configuration is valid again when `value` was detached.
     */
    twostate lemma RootSet(new key: Key, new value: Value, new extra: set<object>, detached: bool)
      requires old(Valid()) && sections == old(sections) && names == old(names)
      requires unchanged(old(Repr) - {this, old(sections["root"])})
      requires sections["root"].Props() == old(sections["root"].Props()).Put(key, value)
      requires sections["root"].Repr == old(sections["root"].Repr) + extra
      requires Repr == old(Repr) + extra
      requires detached ==> extra !! old(Repr) && sections["root"].Acyclic()
      ensures Props() == old(Props())["root" := old(Props()["root"]).Put(key, value)]
      ensures detached ==> Valid()
    {
      var root := sections["root"];
      forall n | n in sections && n != "root" ensures sections[n].Props() == old(sections[n].Props()) {
        assert root in old(root.Repr);
      }
      OnlyOneChanged("root");
      if detached {
        assert (root.Repr - old(root.Repr)) !! old(Repr);
        Grown("root");
      }
    }

    /** `value` is plain, or a finite section tree sharing no object with this configuration. */
    ghost predicate Detached(value: Value)
      reads this, if value.Child? then {value.section} + value.section.Repr else {}
    {
      value.Child? ==> value.section.Acyclic() && value.section.Repr !! Repr
    }

    /** `a == b` on two configurations: their `sections` dicts compare equal, section by section. */
    ghost function Equals(other: Config): Result<bool>
      reads this, Repr, other, other.Repr
      requires Valid() && other.Valid()
    {
      DictEq(Tree(), other.Tree())
    }
  }


  // ---------------------------------------------------------------------------
  // Lemmas

  /**
   * `get` never raises: whatever `get` finds, `[]` finds too, and where `[]` raises `get`
   * returns nothing. A flag is reached by `[]` through its index, but never by `get`.
   */
  lemma GetIsLenient(c: Config, key: Key)
    requires "root" in c.sections
    ensures c.Get(key).Some? ==> c.GetItem(key) == Ok(c.Get(key).value)
    ensures c.GetItem(key).Err? ==> c.Get(key).None?
    ensures c.GetItem(key).Ok? && c.Get(key).None? ==>
      key.IntKey? && c.GetItem(key).value.ValueFound? && c.GetItem(key).value.value.Plain?
  {
  }

  /**
   * A top-level section name shadows a "root" key of the same name; `[]` raises only
   * KeyError for a string key, and an integer outside the flags of "root" raises IndexError.
   */
  lemma GetItemOrder(c: Config, key: Key)
    requires "root" in c.sections
    ensures key.StrKey? && key.s in c.sections ==> c.GetItem(key) == Ok(SectionFound(c.sections[key.s]))
    ensures key.StrKey? && key.s !in c.sections && key !in c.sections["root"].dictProps ==> c.GetItem(key) == Err(KeyError)
    ensures key.IntKey? && key !in c.sections["root"].dictProps &&
            !(-|c.sections["root"].listProps| <= key.i < |c.sections["root"].listProps|) ==>
              c.GetItem(key) == Err(IndexError)
  {
    if key.IntKey? {
      FlagIndexing(c.sections["root"].Props(), key.i);
    }
  }

  /** A section holding only plain values has the tree its contents spell out. */
  lemma PlainTree(s: Section)
    requires s.Acyclic() && forall k | k in s.dictProps :: s.dictProps[k].Plain?
    ensures s.Tree() == Contents(s.listProps, s.dictOrder, map k | k in s.dictProps :: Leaf(s.dictProps[k].data))
  {
  }

  /**
   * Loading is deterministic up to equality: two configurations whose sections hold the same
   * plain contents in the same order compare equal, as two INI loads of the same lines do.
   */
  lemma SameContentsEqual(a: Config, b: Config)
    requires a.Valid() && b.Valid() && a.Props() == b.Props() && a.names == b.names && IniSpec.PlainOnly(a.Props())
    ensures a.Equals(b) == Ok(true)
  {
    SameTree(a, b);
    SectionEqReflexive(a.Tree());
  }

  lemma SameTree(a: Config, b: Config)
    requires a.Valid() && b.Valid() && a.Props() == b.Props() && a.names == b.names && IniSpec.PlainOnly(a.Props())
    ensures a.Tree() == b.Tree()
  {
    SameSectionTrees(a, b);
    MapsAgree(a.SectionTrees(), b.SectionTrees());
  }

  lemma SameSectionTrees(a: Config, b: Config)
    requires a.Valid() && b.Valid() && a.Props() == b.Props() && a.names == b.names && IniSpec.PlainOnly(a.Props())
    ensures forall n :: n in a.sections <==> n in b.sections
    ensures forall n | n in a.sections && n in b.sections :: a.sections[n].Tree() == b.sections[n].Tree()
  {
    forall n ensures n in a.sections <==> n in b.sections {
      assert n in a.sections <==> n in a.names;
      assert n in b.sections <==> n in b.names;
    }
    forall n | n in a.sections && n in b.sections ensures a.sections[n].Tree() == b.sections[n].Tree() {
      assert a.sections[n].Props() == a.Props()[n] == b.Props()[n] == b.sections[n].Props();
      PlainTree(a.sections[n]);
      PlainTree(b.sections[n]);
    }
  }

  /** Two INI loads of the same lines compare equal. */
  lemma IniLoadTwiceEqual(a: Config, b: Config, lines: seq<string>)
    requires a.Valid() && b.Valid()
    requires var r := IniSpec.Run(IniSpec.Start(), lines);
      r.Ok? && r.value.sections == a.Props() && r.value.names == a.names
    requires var r := IniSpec.Run(IniSpec.Start(), lines);
      r.Ok? && r.value.sections == b.Props() && r.value.names == b.names
    ensures a.Equals(b) == Ok(true)
  {
    IniSpec.IniLoadIsPlain(lines);
    SameContentsEqual(a, b);
  }
}
