# pyconf, modelled in Dafny

pyconf reads a configuration into sections. Each section holds *flags* (`list_props`, bare
values in file order) and *items* (`dict_props`, keys in insertion order). `IniConfig` reads
an INI file line by line: a line is a comment, a `[header]`, a `key = value` item or a flag.
`PyConfig` takes the mapping a Python config file evaluates to and mirrors it. Nested dicts
become nested sections, and every other value is stored as it is. Text values are coerced:
the text is split on commas, and each piece is stripped and read as `True`/`False`, an int,
a float or a string. A group of two or more pieces becomes a tuple.

The modules follow the program:

- `Values`: the data a section can hold (`Data`) and its keys (`Key`).
- `Containers`: a section's two stores as a value, `Contents`. It covers `get_values`,
  `get`, flag indexing and iteration.
- `Coercion`: `str.strip`, `str.split(',')`, the int and float literal grammars and
  `_get_value_type`.
- `LineGrammar`: the four line patterns of `IniConfig`, written out as scanners. It states
  what the backtracking regex engine captures.
- `Trees`: a section as a finite tree, and Python's `==` on such trees, with plain values
  compared by the model's own equality of `Data` (see "## Left out").
- `Sections`: class `Section`, which is both `IniSection` and `Section`. The two differ
  only in the `pure` flag of `_add_dict_prop`; `IniSection` behaves as `pure == false`.
- `IniSpec`: `IniConfig.load` as a left-to-right fold over the lines.
- `MirrorSpec`: `_add_section_recursive` as a fold over the mapping's items.
- `Configs`: class `Config`, which is `IniConfig`, `BaseConfig` and `PyConfig` in one. Its
  `Load` and `AddSectionRecursive` are proved against `IniSpec` and `MirrorSpec`.

A section can hold another section, so `Section` keeps a ghost footprint `Repr`. Its
`Tree()` is the finite tree it stands for while it is `Acyclic()`. A `Config` is `Valid()`
under these conditions:

- "root" exists;
- `names` lists each section once, in creation order;
- every top-level section is a finite tree;
- no two top-level sections share an object.

An empty line, or one holding only `'\n'`, matches none of the four patterns and is skipped.
Any other line holding only whitespace is not skipped: the flag pattern `_list_item`
matches it, because `.` also matches a space, and the line adds the flag `''` to the current
section (`LineGrammar.WhitespaceLineIsEmptyFlag`, `IniSpec.WhitespaceLineAddsEmptyFlag`).

## Model

| member | source | states |
|---|---|---|
| Containers.Contents.Put | pyconf/base_config.py:202-205 | `dict_props[key] = v` maps `key` to `v`, leaves the flags alone, keeps an existing key's place and puts a new key last, and preserves the order invariant |
| Containers.Contents.Values | pyconf/base_config.py:102-115 | `get_values` returns the pair when both stores are non-empty, else the non-empty one, else `None`; it is `None` exactly when both are empty; the result stands for exactly the section's contents |
| Containers.PutThenGet | pyconf/base_config.py:117-124 | after `section[key] = v`, `get(key)` is `v`, `get` of any other key is unchanged, and the flags are unchanged |
| Containers.PutTwice | pyconf/base_config.py:202-205 | writing the same key twice leaves what one write of the last value leaves, in the same order |
| Containers.AppendGrows | pyconf/base_config.py:171-174 | appending a flag adds exactly one element at the end and keeps the items |
| Containers.FlagIndexing | pyconf/base_config.py:195-198 | `list_props[i]` reaches element `i` from the front and `i - len` from the back; IndexError exactly outside `-len <= i < len` |
| Containers.IterYields | pyconf/base_config.py:182-187 | iteration yields every flag first, in order, then exactly the item keys |
| Coercion.Strip | pyconf/base_config.py:134 | `strip` removes exactly the leading and trailing whitespace: the result neither starts nor ends with whitespace and is the middle of the input |
| Coercion.StripUnique | pyconf/base_config.py:134 | whitespace + core + whitespace strips to the core, for any core that neither starts nor ends with whitespace |
| Coercion.StripIdempotent | pyconf/base_config.py:134 | stripping twice is stripping once |
| Coercion.Split | pyconf/base_config.py:156 | `split(',')` gives at least one piece, no piece holds a comma, and joining the pieces with commas gives the input back |
| Coercion.SplitJoin | pyconf/base_config.py:156 | the other round trip: splitting comma-joined comma-free pieces gives the pieces back |
| Coercion.IntLiteralIsFloatLiteral | pyconf/base_config.py:141-145 | every int literal is also a float literal, so trying int before float decides which one wins |
| Coercion.CoerceToken | pyconf/base_config.py:126-149 | `_get_value_type` gives True exactly for the stripped text "True", False exactly for "False", an int exactly when the stripped text is an int literal (with its value), a float exactly when it is a float literal but not an int literal, and otherwise the stripped text |
| Coercion.CoerceGroup | pyconf/base_config.py:156-163 | a comma-free text is one coerced scalar; otherwise the result is a tuple of the coerced pieces, one per piece, at least two |
| Coercion.LetterStartIsText | pyconf/base_config.py:141-147 | a token whose first letter is not i or n (for inf, infinity and nan) is neither an int nor a float |
| Coercion.BooleansAreCaseSensitive | pyconf/base_config.py:136-139 | only the exact words True and False become booleans; "true" and "FALSE" stay strings |
| Coercion.BlankTokenIsEmptyString | pyconf/base_config.py:134-147 | a whitespace-only token coerces to the empty string |
| Coercion.CoerceShowInt | pyconf/base_config.py:141-142 | the decimal text of any integer coerces back to that integer |
| Coercion.StringResultIsStable | pyconf/base_config.py:134-147 | coercing the string a token coerced to gives the same string again |
| Coercion.GroupOfPieces | pyconf/base_config.py:156-163 | a comma-joined list of two or more pieces becomes a tuple of the pieces' coercions, in order |
| Coercion.GroupOfInts | pyconf/base_config.py:156-163 | "1, 2, 3"-style text becomes the tuple of those ints, and a single number becomes a bare int |
| Coercion.GroupKeepsBlankPiece | pyconf/base_config.py:156-163 | an empty piece between commas is kept as an empty-string element |
| LineGrammar.SkipSpace | pyconf/ini_config.py:140-143 | `\s*` at a position runs to the first non-whitespace character |
| LineGrammar.ValueGreedy | pyconf/ini_config.py:142-143 | `\s*(.+)\s*$` matches exactly when some decomposition exists, and the captured group is the one the greedy, backtracking engine picks |
| LineGrammar.CommentExact | pyconf/ini_config.py:140 | the comment pattern matches exactly the lines with optional whitespace then `;` |
| LineGrammar.MatchHeader | pyconf/ini_config.py:141 | a captured header name is the word between `[` and `]` of an exact decomposition of the line |
| LineGrammar.HeaderComplete | pyconf/ini_config.py:141 | every line of the header form matches, capturing its word |
| LineGrammar.ItemSound | pyconf/ini_config.py:142 | a captured item is a word key, optional whitespace, `=` and a matching value part |
| LineGrammar.ItemComplete | pyconf/ini_config.py:142 | every line that starts with a word key and `=` matches as an item exactly when its value part matches |
| LineGrammar.Classify | pyconf/ini_config.py:180-212 | the first pattern that matches decides the line: comment, header, item, flag or nothing, each exactly when the earlier ones fail and its own matches, with the captured groups |
| LineGrammar.BlankExactly | pyconf/ini_config.py:204-212 | a line matches none of the patterns exactly when it is empty or only `'\n'` |
| LineGrammar.WhitespaceLineIsEmptyFlag | pyconf/ini_config.py:143 | any other whitespace-only line is a flag whose value coerces to `""` |
| LineGrammar.KeyWithoutValueIsFlag | pyconf/ini_config.py:142-143 | `key=` with nothing after it is not an item: the whole text `key=` is a flag |
| LineGrammar.TrailingTextIsNotHeader | pyconf/ini_config.py:141 | `[name]` followed by non-whitespace text is not a header |
| Trees.FlatSectionEq | pyconf/ini_config.py:130-131 | two sections holding only plain values are equal exactly when their dicts and their flag lists are equal, plain values compared as model values (by tag and float text) |
| Trees.SectionEqReflexive | pyconf/base_config.py:215-216 | every finite section tree equals itself |
| Trees.MixedValuesRaise | pyconf/base_config.py:215-216 | comparing a nested section with a plain value under the same key raises AttributeError, in either order |
| Sections.Section.constructor | pyconf/base_config.py:98-100 | a new section is empty, is its own footprint and is the empty tree |
| Sections.Section.SetItem | pyconf/base_config.py:202-213 | `section[key] = value` stores `value` under `key` (read back by `[]`) and leaves the flags alone; the tree gains `key` mapped to `value`'s tree when the value shares no object with the section |
| Sections.Section.AddDictProp | pyconf/base_config.py:151-163 | stores `value` itself when `pure`, else the coerced comma group of the text; a non-string with `pure` unset raises AttributeError and changes nothing; the section stays a finite tree |
| Sections.Section.AddListProp | pyconf/base_config.py:165-174 | appends the coerced comma group of the text to the flags; a non-string raises AttributeError and changes nothing |
| Sections.Section.Regrown | pyconf/py_config.py:11-12 | a nested section filled in place with new objects leaves its parent a finite tree whose entry under the key is the filled tree |
| Sections.GetItemPrefersDict | pyconf/base_config.py:189-200 | `section[key]` looks in the dict first; a missing string key raises KeyError; a missing integer key goes to the flags |
| Sections.GetItemIndexes | pyconf/base_config.py:195-200 | integer keys index the flags from the front or the back; outside the list IndexError escapes; an integer key never raises KeyError |
| Sections.StoredCases | pyconf/base_config.py:151-163 | what `_add_dict_prop` stores: the value when `pure`, the coerced group for text, AttributeError for other values, a scalar for comma-free text |
| IniSpec.StepRouted | pyconf/ini_config.py:180-212 | a line read from a state in which "root" and the current section exist succeeds and keeps that so |
| IniSpec.RunRouted | pyconf/ini_config.py:224-247 | a load never raises the KeyError of `_add_dict_prop_to_section` and `_add_list_prop_to_section`, since the section written to always exists |
| IniSpec.RunKeeps | pyconf/ini_config.py:185-212 | a section, once created, is never replaced: its flags only grow at the end and its keys are kept |
| IniSpec.ReopenKeeps | pyconf/ini_config.py:186-191 | a header naming an existing section only switches to it; the section is not recreated |
| IniSpec.RunSections | pyconf/ini_config.py:185-191 | after a load, the sections are exactly the initial ones plus those some header opened |
| IniSpec.RunCurrent | pyconf/ini_config.py:186-187 | the current section after a load is the last header's name, or the initial one when no header was read |
| IniSpec.ItemRouted | pyconf/ini_config.py:193-202 | an item line puts the coerced value under its key in the section of the last header, or in "root" |
| IniSpec.FlagRouted | pyconf/ini_config.py:204-212 | a flag line appends its coerced value to the section of the last header, or to "root" |
| IniSpec.BlankLineSkipped | pyconf/ini_config.py:180-212 | an empty line, or one holding only `'\n'`, changes nothing |
| IniSpec.WhitespaceLineAddsEmptyFlag | pyconf/ini_config.py:204-210 | any other whitespace-only line appends `""` to the current section |
| IniSpec.IniLoadIsPlain | pyconf/ini_config.py:171-212 | an INI load succeeds and never stores a nested section |
| MirrorSpec.MirrorOrder | pyconf/py_config.py:8-14 | mirroring a mapping with distinct keys into an empty section gives the mapping's keys in order |
| MirrorSpec.MirrorDomain | pyconf/py_config.py:9 | after mirroring, the keys are the old keys plus the mapping's keys |
| MirrorSpec.MirrorKeeps | pyconf/py_config.py:9-14 | a key the mapping does not mention keeps its old entry |
| MirrorSpec.MirrorHolds | pyconf/py_config.py:9-14 | each key of the mapping ends up holding the mirror of its value |
| MirrorSpec.MirrorAddsNoFlags | pyconf/py_config.py:8-14 | mirroring never adds a flag, at any depth |
| MirrorSpec.ReadBackMirror | pyconf/py_config.py:8-14 | reading the mirrored sections back as nested mappings gives the original mapping: the round trip |
| MirrorSpec.MirrorVerbatim | pyconf/py_config.py:13-14 | a value that is not a dict is stored exactly as it is, without coercion |
| Configs.TopTree | pyconf/base_config.py:86-87 | the `sections` dict seen as one section: the names in creation order, each mapped to its section's tree, with no flags |
| Configs.Config.Ini | pyconf/ini_config.py:145-149 | `IniConfig(lines)` is valid and holds what the fold of its lines from a lone empty "root" gives |
| Configs.Config.Initial | pyconf/ini_config.py:146-147 | `__init__` before `load` gives a valid configuration with one empty "root" |
| Configs.Config.Py | pyconf/base_config.py:2-6 | `PyConfig(src)` is valid, has "root" as its only top-level section, and "root" is the mirror of `src` |
| Configs.Config.AddSection | pyconf/base_config.py:11-19 | `_add_section(name)` stores a fresh empty section under `name`, replacing any old one; a new name goes last in the order; all other sections are unchanged |
| Configs.Config.AddChildSection | pyconf/base_config.py:11-19 | `_add_section(name, parent)` stores a fresh empty section under `name` in `parent`, which stays a finite tree with that entry now empty |
| Configs.Config.AddDictPropToNamed | pyconf/ini_config.py:224-235 | the coerced value is stored under `key` in the named section, the other sections are unchanged, and a missing section raises KeyError and changes nothing |
| Configs.Config.AddListPropToNamed | pyconf/ini_config.py:237-247 | the coerced value is appended to the named section's flags, and a missing section raises KeyError and changes nothing |
| Configs.Config.AddDictPropTo | pyconf/base_config.py:41-50 | `_add_dict_prop` on the given section, or on "root" when none is given, in which case only "root" changes |
| Configs.Config.AddListPropTo | pyconf/base_config.py:52-60 | `_add_list_prop` on the given section, or on "root" when none is given, in which case only "root" changes |
| Configs.Config.Load | pyconf/ini_config.py:171-212 | the loop leaves the configuration valid, holding exactly what the fold of the lines gives |
| Configs.Config.ReadLine | pyconf/ini_config.py:181-212 | one pass of the loop does what one step of the fold does, returning the new current section |
| Configs.Config.AddSectionRecursive | pyconf/py_config.py:8-14 | the section filled in place is still a finite tree, and its tree is the old one with the mapping mirrored in |
| Configs.Config.AddItem | pyconf/py_config.py:10-14 | one item: the section's tree gains the item's key mapped to the mirror of its value |
| Configs.Config.AddNestedSection | pyconf/py_config.py:10-12 | a dict value is attached as a fresh empty section, filled recursively, and ends up as the mirror of the dict |
| Configs.Config.LoadMapping | pyconf/py_config.py:16-20 | `load` mirrors the mapping into "root", keeps every other section, adds no top-level section and keeps the configuration valid |
| Configs.Config.GetConfig | pyconf/base_config.py:21-27 | `get_config` maps every section name, and only those, to that section's `get_values`, which stands for exactly its contents |
| Configs.Config.SetItem | pyconf/base_config.py:79-84 | `config[key] = value` always writes into "root" and changes no other section |
| Configs.GetIsLenient | pyconf/base_config.py:29-39 | `get` never raises: what `get` finds `[]` finds too; where `[]` raises, `get` returns None; only a flag reached by its index is seen by `[]` and not by `get` |
| Configs.GetItemOrder | pyconf/base_config.py:68-77 | a top-level section name shadows a key of "root"; a missing string key raises KeyError; an integer outside the flags of "root" raises IndexError, which `[]` does not catch |
| Configs.SameContentsEqual | pyconf/base_config.py:86-87 | two configurations holding the same plain contents under the same names compare equal, plain values compared as model values |
| Configs.IniLoadTwiceEqual | pyconf/ini_config.py:273-274 | two INI loads of the same lines compare equal, plain values compared as model values (a `nan` token is the exception in Python, see "## Left out") |

## Left out

- File I/O is not modelled. `IniConfig` is given the file's lines as `readlines` yields them. `PyConfig` is given the mapping that `exec` of the file produces; running Python code is outside the model.
- `config_full_path` (`abspath` of the file name) is not modelled, because it depends on the file system.
- `BaseConfig.load` raising NotImplementedError is not modelled, because `Config` stands only for its two concrete subclasses.
- `__repr__` and `__str__` are not modelled, because they print Python's `str` of the values.
- The YAML loader and `api.py` are not part of this model.
- Floats are kept as their text. The value of a float literal needs floating point, which is not modelled.
- Trees.FlatSectionEq: plain values compare by the model's equality of `Data`, by tag and by float text, so `True`, `1` and `1.0` differ, `1.5` differs from `1.50`, a `nan` equals another `nan`, and item order inside a `Dict` value counts. Python's `==` makes `True == 1 == 1.0` and `1.5 == 1.50`, makes two distinct `nan` objects unequal, and ignores dict order.
- Configs.SameContentsEqual: holds for the model's equality of plain values only (see Trees.FlatSectionEq); in Python two configurations holding separate `nan` floats compare unequal.
- Configs.IniLoadTwiceEqual: holds for the model's equality of plain values only; it is false of the program for a file with a `nan` token, such as the one-line file `nan`, because each load builds its own `nan` object and the two configurations compare unequal.
- Coercion.IsFloatLiteral and Coercion.IsIntLiteral accept ASCII digits only, and no digit-group underscores. Python's `int` and `float` also accept other Unicode digits and `1_000`.
- Coercion.IsSpace and LineGrammar.IsWordChar are the ASCII classes. Python's `str.strip`, `\s` and `\w` also accept other Unicode whitespace and letters.
- Python compares `True == 1` and `1.0 == 1` across types, so such dict keys alias each other. The model's keys are strings and integers only, and they never alias.
- Configs.Config.SetItem: the configuration is proved valid afterwards only when the value is plain, or a section sharing no object with the configuration. Storing a section already reachable from it makes two places alias one object; the source allows that.
- Configs.Config.AddDictPropTo: with a section object given, only that section is described. The configuration's validity is proved only for the "root" case, because a section given from outside may be shared.
- Configs.Config.AddListPropTo: the same restriction as AddDictPropTo.
- Configs.Config.Ini: it does not state that the new sections are fresh objects.
- Configs.Config.Py: the same; it does not state that the new sections are fresh objects.
- Configs.Config.AddSectionRecursive: it calls `_add_dict_prop` on the section directly. That is what `_add_dict_prop_to_section` does when it is given a section.
- Configs.Config.Equals is a ghost function. Python's `==` on configurations is stated as a property of the sections' trees, not as executable code.
- Configs.Config.Get and Configs.Config.GetItem carry no contracts of their own. What they promise is stated by Configs.GetIsLenient and Configs.GetItemOrder.
