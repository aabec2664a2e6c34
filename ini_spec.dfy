/**
 * What `IniConfig.load` does, as a function of the lines it reads: a left-to-right pass in
 * which each line is classified and then skipped, opens a section, or adds an item or a flag
 * to the section `current_section` names (or to "root" while it is unset).
 */
module IniSpec {
  import opened Wrappers
  import opened Values
  import opened Coercion
  import opened LineGrammar
  import opened Containers
  import opened Sections

  /** The state the loader carries: the sections by name, their creation order, and `current_section`. */
  datatype LoadState = LoadState(sections: map<string, Contents<Value>>, names: seq<string>, current: Option<string>)

  /**
   * The section name an item or a flag is written to: `current_section` when it is set and
   * non-empty (Python's `if current_section:`), else the default "root".
   */
  function Target(current: Option<string>): string {
    if current.Some? && current.value != "" then current.value else "root"
  }

  /** The loader invariant: "root" exists, the section an item would go to exists, and the order lists each section once. */
  predicate Routed(s: LoadState) {
    "root" in s.sections && Target(s.current) in s.sections &&
    Distinct(s.names) && (forall n | n in s.names :: n in s.sections) && (forall n | n in s.sections :: n in s.names)
  }

  /**
   * One line. A header sets `current_section` and creates the section only when no section
   * of that name exists; an item or a flag whose target section is missing raises KeyError.
   */
  function Step(s: LoadState, line: string): Result<LoadState> {
    match Classify(line)
    case Comment => Ok(s)
    case Blank => Ok(s)
    case Header(name) =>
      if name in s.sections then Ok(s.(current := Some(name)))
      else Ok(LoadState(s.sections[name := Empty()], s.names + [name], Some(name)))
    case Item(key, value) =>
      var t := Target(s.current);
      if t in s.sections then Ok(s.(sections := s.sections[t := s.sections[t].Put(StrKey(key), Plain(CoerceGroup(value)))]))
      else Err(KeyError)
    case Flag(value) =>
      var t := Target(s.current);
      if t in s.sections then Ok(s.(sections := s.sections[t := s.sections[t].Append(CoerceGroup(value))]))
      else Err(KeyError)
  }

  /** The lines read in order from `s`; the first error stops the pass. */
  function Run(s: LoadState, lines: seq<string>): Result<LoadState>
    decreases |lines|
  {
    if lines == [] then Ok(s)
    else
      match Run(s, lines[..|lines| - 1])
      case Ok(t) => Step(t, lines[|lines| - 1])
      case Err(e) => Err(e)
  }

  /** `IniConfig.__init__` before `load`: only an empty "root" section, `current_section` unset. */
  function Start(): (s: LoadState)
    ensures Routed(s)
  {
    LoadState(map["root" := Empty()], ["root"], None)
  }

  /** The name of the last header among `lines`, if any. */
  function LastHeader(lines: seq<string>): Option<string>
    decreases |lines|
  {
    if lines == [] then None
    else if Classify(lines[|lines| - 1]).Header? then Some(Classify(lines[|lines| - 1]).name)
    else LastHeader(lines[..|lines| - 1])
  }

  /** Some line among `lines` is a header naming `n`: the last one, or one before it. */
  predicate Opens(lines: seq<string>, n: string)
    decreases |lines|
  {
    lines != [] && (Classify(lines[|lines| - 1]) == Header(n) || Opens(lines[..|lines| - 1], n))
  }

  // ---------------------------------------------------------------------------
  // Lemmas

  /** A line read in a routed state never raises, and leaves the state routed. */
  lemma StepRouted(s: LoadState, line: string)
    requires Routed(s)
    ensures Step(s, line).Ok? && Routed(Step(s, line).value)
  {
    if Classify(line).Header? {
      var n := Classify(line).name;
      if n !in s.sections {
        NotIn(s.names, n);
      }
    }
  }

  lemma NotIn<T>(s: seq<T>, x: T)
    requires Distinct(s) && x !in s
    ensures Distinct(s + [x])
  {
  }

  /**
   * The `raise KeyError` branches of `_add_dict_prop_to_section` and
   * `_add_list_prop_to_section` cannot fire: from a routed state every line sequence loads.
   */
  lemma {:induction false} RunRouted(s: LoadState, lines: seq<string>)
    requires Routed(s)
    ensures Run(s, lines).Ok? && Routed(Run(s, lines).value)
    decreases |lines|
  {
    if lines != [] {
      RunRouted(s, lines[..|lines| - 1]);
      StepRouted(Run(s, lines[..|lines| - 1]).value, lines[|lines| - 1]);
    }
  }

  /**
   * Loading never discards anything: every section that existed still exists, its flags
   * only grow at the end and its keys only grow. In particular re-opening a header does not
   * clear the section.
   */
  lemma {:induction false} RunKeeps(s: LoadState, lines: seq<string>, n: string)
    requires Run(s, lines).Ok? && n in s.sections
    ensures var r := Run(s, lines).value;
      n in r.sections &&
      s.sections[n].listProps <= r.sections[n].listProps &&
      s.sections[n].dictProps.Keys <= r.sections[n].dictProps.Keys
    decreases |lines|
  {
    if lines != [] {
      var init := lines[..|lines| - 1];
      RunKeeps(s, init, n);
      StepKeeps(Run(s, init).value, lines[|lines| - 1], n);
    }
  }

  lemma StepKeeps(s: LoadState, line: string, n: string)
    requires Step(s, line).Ok? && n in s.sections
    ensures var r := Step(s, line).value;
      n in r.sections &&
      s.sections[n].listProps <= r.sections[n].listProps &&
      s.sections[n].dictProps.Keys <= r.sections[n].dictProps.Keys
  {
    var c := Classify(line);
    if c.Item? || c.Flag? {
      StepStores(s, line);
    } else if c.Header? && c.name !in s.sections {
      assert Step(s, line).value.sections == s.sections[c.name := Empty()];
    }
  }

  /** Reading one more line of `lines` is one more step. */
  lemma RunPrefix(s: LoadState, lines: seq<string>, i: nat)
    requires i < |lines| && Run(s, lines[..i]).Ok?
    ensures Run(s, lines[..i + 1]) == Step(Run(s, lines[..i]).value, lines[i])
  {
    assert lines[..i + 1][..i] == lines[..i];
  }

  /** A key line stores one coerced value, a flag line appends one, in the section targeted. */
  lemma StepStores(s: LoadState, line: string)
    requires Step(s, line).Ok? && (Classify(line).Item? || Classify(line).Flag?)
    ensures var t := Target(s.current);
      t in s.sections &&
      Step(s, line).value.sections == s.sections[t := match Classify(line)
        case Item(key, value) => s.sections[t].Put(StrKey(key), Plain(CoerceGroup(value)))
        case Flag(value) => s.sections[t].Append(CoerceGroup(value))
        case _ => s.sections[t]]
  {
  }

  /** A header naming a section that already exists only switches to it. */
  lemma ReopenKeeps(s: LoadState, line: string)
    requires Classify(line).Header? && Classify(line).name in s.sections
    ensures Step(s, line) == Ok(LoadState(s.sections, s.names, Some(Classify(line).name)))
  {
  }

  /** The sections after loading are the ones before and those some header names: nothing else. */
  lemma {:induction false} RunSections(s: LoadState, lines: seq<string>, n: string)
    requires Run(s, lines).Ok?
    ensures n in Run(s, lines).value.sections <==> n in s.sections || Opens(lines, n)
    decreases |lines|
  {
    if lines != [] {
      RunSections(s, lines[..|lines| - 1], n);
    }
  }

  /** `current_section` after loading: the last header read, or what it was before when there was none. */
  lemma {:induction false} RunCurrent(s: LoadState, lines: seq<string>)
    requires Run(s, lines).Ok?
    ensures Run(s, lines).value.current == if LastHeader(lines).Some? then LastHeader(lines) else s.current
    decreases |lines|
  {
    if lines != [] {
      RunCurrent(s, lines[..|lines| - 1]);
    }
  }

  /**
   * Routing: an item line is written to the section of the last header before it, or to
   * "root" when no header came before, and no other section changes.
   */
  lemma ItemRouted(s: LoadState, lines: seq<string>, line: string)
    requires Routed(s) && Classify(line).Item?
    ensures Run(s, lines).Ok? && Run(s, lines + [line]).Ok?
    ensures var r := Run(s, lines).value;
      var t := Target(if LastHeader(lines).Some? then LastHeader(lines) else s.current);
      t in r.sections &&
      Run(s, lines + [line]).value.sections ==
        r.sections[t := r.sections[t].Put(StrKey(Classify(line).key), Plain(CoerceGroup(Classify(line).value)))]
  {
    RunRouted(s, lines);
    RunCurrent(s, lines);
    var all := lines + [line];
    assert all[..|all| - 1] == lines && all[|all| - 1] == line;
    assert Run(s, all) == Step(Run(s, lines).value, line);
  }

  /** The same for a flag line: it is appended to the flags of the section of the last header before it. */
  lemma FlagRouted(s: LoadState, lines: seq<string>, line: string)
    requires Routed(s) && Classify(line).Flag?
    ensures Run(s, lines).Ok? && Run(s, lines + [line]).Ok?
    ensures var r := Run(s, lines).value;
      var t := Target(if LastHeader(lines).Some? then LastHeader(lines) else s.current);
      t in r.sections &&
      Run(s, lines + [line]).value.sections == r.sections[t := r.sections[t].Append(CoerceGroup(Classify(line).value))]
  {
    RunRouted(s, lines);
    RunCurrent(s, lines);
    var all := lines + [line];
    assert all[..|all| - 1] == lines && all[|all| - 1] == line;
    assert Run(s, all) == Step(Run(s, lines).value, line);
  }

  /** An empty line and a lone newline change nothing. */
  lemma BlankLineSkipped(s: LoadState, line: string)
    requires line == [] || line == ['\n']
    ensures Step(s, line) == Ok(s)
  {
    BlankExactly(line);
  }

  /** A line of whitespace (not a lone newline) adds the flag "" to the target section. */
  lemma WhitespaceLineAddsEmptyFlag(s: LoadState, line: string)
    requires Routed(s) && IsLine(line) && AllSpace(line) && line != [] && line != ['\n']
    ensures var t := Target(s.current);
      Step(s, line) == Ok(s.(sections := s.sections[t := s.sections[t].Append(Str(""))]))
  {
    WhitespaceLineIsEmptyFlag(line);
  }

  /** No section holds a nested section: every value stored under a key is plain. */
  predicate PlainOnly(p: map<string, Contents<Value>>) {
    forall n, k | n in p && k in p[n].dictProps :: p[n].dictProps[k].Plain?
  }

  /** An INI load never stores a nested section: every value in every section is plain. */
  lemma {:induction false} IniLoadIsPlain(lines: seq<string>)
    ensures Run(Start(), lines).Ok?
    ensures PlainOnly(Run(Start(), lines).value.sections)
    decreases |lines|
  {
    RunRouted(Start(), lines);
    if lines != [] {
      var init := lines[..|lines| - 1];
      IniLoadIsPlain(init);
      StepIsPlain(Run(Start(), init).value, lines[|lines| - 1]);
    }
  }

  /** One INI line stores at most one plain value. */
  lemma StepIsPlain(s: LoadState, line: string)
    requires PlainOnly(s.sections) && Step(s, line).Ok?
    ensures PlainOnly(Step(s, line).value.sections)
  {
    var c := Classify(line);
    if c.Item? {
      ItemIsPlain(s, line);
    } else if c.Flag? {
      FlagIsPlain(s, line);
    } else if c.Header? {
      UpdateIsPlain(s.sections, c.name, Empty());
    }
  }

  lemma ItemIsPlain(s: LoadState, line: string)
    requires PlainOnly(s.sections) && Step(s, line).Ok? && Classify(line).Item?
    ensures PlainOnly(Step(s, line).value.sections)
  {
    StepStores(s, line);
    PutIsPlain(s.sections, Target(s.current), StrKey(Classify(line).key), CoerceGroup(Classify(line).value));
  }

  lemma PutIsPlain(p: map<string, Contents<Value>>, n: string, key: Key, d: Data)
    requires PlainOnly(p) && n in p
    ensures PlainOnly(p[n := p[n].Put(key, Plain(d))])
  {
    UpdateIsPlain(p, n, p[n].Put(key, Plain(d)));
  }

  lemma FlagIsPlain(s: LoadState, line: string)
    requires PlainOnly(s.sections) && Step(s, line).Ok? && Classify(line).Flag?
    ensures PlainOnly(Step(s, line).value.sections)
  {
    StepStores(s, line);
    var t := Target(s.current);
    UpdateIsPlain(s.sections, t, s.sections[t].Append(CoerceGroup(Classify(line).value)));
  }

  lemma UpdateIsPlain(p: map<string, Contents<Value>>, n: string, c: Contents<Value>)
    requires PlainOnly(p) && forall k | k in c.dictProps :: c.dictProps[k].Plain?
    ensures PlainOnly(p[n := c])
  {
  }
}
