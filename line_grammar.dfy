/**
 * The four line patterns of `IniConfig` and their first-match-wins classification.
 *
 *   comment  `^\s*;.*$`
 *   header   `^\s*\[\s*(?P<section>\w+)\s*\]\s*$`
 *   item     `^\s*(?P<key>\w+)\s*\=\s*(?P<value>.+)\s*$`
 *   flag     `^\s*(?P<value>.+)\s*$`
 *
 * Each pattern is applied with `re.match` (anchored at the start, no flags): `.` is any
 * character but '\n', `$` matches at the end or just before a final '\n', `\s` and `\w` are
 * taken as ASCII. The matchers below compute what the backtracking engine captures; the
 * `...At` predicates describe the same languages by decomposition, and the lemmas connect
 * the two in both directions.
 */
module LineGrammar {
  import opened Wrappers
  import opened Values
  import opened Coercion

  /** `\w` on ASCII: letters, digits and underscore. */
  predicate IsWordChar(c: char) {
    ('a' <= c <= 'z') || ('A' <= c <= 'Z') || ('0' <= c <= '9') || c == '_'
  }

  /** `s[i..j]` is whitespace. */
  predicate SpaceIn(s: string, i: nat, j: nat) {
    i <= j <= |s| && forall t :: i <= t < j ==> IsSpace(s[t])
  }

  /** `s[i..j]` is made of word characters. */
  predicate WordIn(s: string, i: nat, j: nat) {
    i <= j <= |s| && forall t :: i <= t < j ==> IsWordChar(s[t])
  }

  /** `s[i..j]` holds no '\n', so `.` can run over it. */
  predicate NoNewlineIn(s: string, i: nat, j: nat) {
    i <= j <= |s| && forall t :: i <= t < j ==> s[t] != '\n'
  }

  /** A line as `readlines` yields it: a '\n' can only be its last character. */
  predicate IsLine(s: string) {
    forall i :: 0 <= i < |s| - 1 ==> s[i] != '\n'
  }

  // ---------------------------------------------------------------------------
  // Scanning

  /** The end of the run of whitespace that starts at `i`. */
  function SkipSpace(s: string, i: nat): (j: nat)
    requires i <= |s|
    ensures SpaceIn(s, i, j)
    ensures j < |s| ==> !IsSpace(s[j])
    decreases |s| - i
  {
    if i < |s| && IsSpace(s[i]) then SkipSpace(s, i + 1) else i
  }

  /** The end of the run of word characters that starts at `i`. */
  function SkipWord(s: string, i: nat): (j: nat)
    requires i <= |s|
    ensures WordIn(s, i, j)
    ensures j < |s| ==> !IsWordChar(s[j])
    decreases |s| - i
  {
    if i < |s| && IsWordChar(s[i]) then SkipWord(s, i + 1) else i
  }

  /** A whitespace run that stops at a non-space (or the end) is the one `SkipSpace` finds. */
  lemma {:induction false} SkipSpaceAt(s: string, i: nat, p: nat)
    requires SpaceIn(s, i, p) && (p < |s| ==> !IsSpace(s[p]))
    ensures SkipSpace(s, i) == p
    decreases p - i
  {
    if i < p {
      SkipSpaceAt(s, i + 1, p);
    }
  }

  /** A word run that stops at a non-word character (or the end) is the one `SkipWord` finds. */
  lemma {:induction false} SkipWordAt(s: string, i: nat, p: nat)
    requires WordIn(s, i, p) && (p < |s| ==> !IsWordChar(s[p]))
    ensures SkipWord(s, i) == p
    decreases p - i
  {
    if i < p {
      SkipWordAt(s, i + 1, p);
    }
  }

  /** The index of the first '\n' at or after `i`, or `|s|`: how far `.+` can reach. */
  function LineEnd(s: string, i: nat): (j: nat)
    requires i <= |s|
    ensures NoNewlineIn(s, i, j)
    ensures j < |s| ==> s[j] == '\n'
    decreases |s| - i
  {
    if i < |s| && s[i] != '\n' then LineEnd(s, i + 1) else i
  }

  /** The index of the last character of `s` that is not '\n', or -1 if there is none. */
  function LastNonNewline(s: string): (k: int)
    ensures -1 <= k < |s|
    ensures k >= 0 ==> s[k] != '\n'
    ensures forall i :: k < i < |s| ==> s[i] == '\n'
  {
    if s == [] then -1
    else if s[|s| - 1] != '\n' then |s| - 1
    else LastNonNewline(s[..|s| - 1])
  }

  // ---------------------------------------------------------------------------
  // `\s*(.+)\s*$`: the value part shared by the item and flag patterns

  /** A way the tail pattern can match `s` with the group at `s[i..j]`. */
  predicate ValueAt(s: string, i: nat, j: nat) {
    i < j && SpaceIn(s, 0, i) && NoNewlineIn(s, i, j) && SpaceIn(s, j, |s|)
  }

  /**
   * The bounds of the group the backtracking engine captures. The greedy `\s*` first takes
   * all leading whitespace; if nothing is left for `.+` it gives characters back, from the
   * end, until `.` can take one, which is then the whole group.
   */
  function ValueBounds(s: string): (r: Option<(nat, nat)>)
    ensures r.Some? ==> ValueAt(s, r.value.0, r.value.1)
  {
    var p := SkipSpace(s, 0);
    if p < |s| then
      var q := LineEnd(s, p);
      if SpaceIn(s, q, |s|) then Some((p, q)) else None
    else
      var k := LastNonNewline(s);
      if k >= 0 then Some((k, k + 1)) else None
  }

  /** The group `\s*(.+)\s*$` captures, if the pattern matches. */
  function MatchValue(s: string): Option<string> {
    match ValueBounds(s)
    case Some((i, j)) => Some(s[i..j])
    case None => None
  }

  /**
   * The tail pattern matches exactly when some decomposition exists, and among all
   * decompositions the engine's has the longest leading whitespace and, for that, the
   * longest group: the priority of its greedy, backtracking search.
   */
  lemma ValueGreedy(s: string, i: nat, j: nat)
    requires ValueAt(s, i, j)
    ensures ValueBounds(s).Some?
    ensures var (i0, j0) := ValueBounds(s).value; i <= i0 && (i == i0 ==> j <= j0)
  {
    var p := SkipSpace(s, 0);
    assert p >= i;
    if p < |s| {
      assert p < j;
      assert LineEnd(s, p) >= j;
    } else {
      assert s[j - 1] != '\n';
      assert LastNonNewline(s) >= j - 1;
    }
  }

  // ---------------------------------------------------------------------------
  // Comment `^\s*;.*$`

  /** A way the comment pattern can match `line`, with its ';' at `p`. */
  predicate CommentAt(line: string, p: nat) {
    p < |line| && SpaceIn(line, 0, p) && line[p] == ';' &&
    forall t :: p < t < |line| - 1 ==> line[t] != '\n'
  }

  predicate IsComment(line: string) {
    CommentAt(line, SkipSpace(line, 0))
  }

  /** The comment pattern matches exactly when some decomposition exists. */
  lemma CommentExact(line: string, p: nat)
    ensures CommentAt(line, p) ==> IsComment(line)
    ensures IsComment(line) ==> CommentAt(line, SkipSpace(line, 0))
  {
    if CommentAt(line, p) {
      assert !IsSpace(line[p]);
      assert SkipSpace(line, 0) == p;
    }
  }

  // ---------------------------------------------------------------------------
  // Header `^\s*\[\s*(?P<section>\w+)\s*\]\s*$`

  /** A way the header pattern can match `line`: '[' at `p`, the name at `line[a..b]`, ']' at `c`. */
  predicate HeaderAt(line: string, p: nat, a: nat, b: nat, c: nat) {
    p < a < b <= c < |line| &&
    SpaceIn(line, 0, p) && line[p] == '[' && SpaceIn(line, p + 1, a) &&
    WordIn(line, a, b) && SpaceIn(line, b, c) && line[c] == ']' && SpaceIn(line, c + 1, |line|)
  }

  function MatchHeader(line: string): (r: Option<string>)
    ensures r.Some? ==>
      exists p: nat, a: nat, b: nat, c: nat :: HeaderAt(line, p, a, b, c) && r.value == line[a..b]
  {
    var p := SkipSpace(line, 0);
    if p < |line| && line[p] == '[' then
      var a := SkipSpace(line, p + 1);
      var b := SkipWord(line, a);
      var c := SkipSpace(line, b);
      if a < b && c < |line| && line[c] == ']' && SpaceIn(line, c + 1, |line|) then
        assert HeaderAt(line, p, a, b, c);
        Some(line[a..b])
      else None
    else None
  }

  /** Every decomposition is the one the matcher finds: the header pattern matches with that name. */
  lemma HeaderComplete(line: string, p: nat, a: nat, b: nat, c: nat)
    requires HeaderAt(line, p, a, b, c)
    ensures MatchHeader(line) == Some(line[a..b])
  {
    SkipSpaceAt(line, 0, p);
    assert IsWordChar(line[a]);
    SkipSpaceAt(line, p + 1, a);
    assert b < c ==> IsSpace(line[b]);
    SkipWordAt(line, a, b);
    SkipSpaceAt(line, b, c);
  }

  // ---------------------------------------------------------------------------
  // Item `^\s*(?P<key>\w+)\s*\=\s*(?P<value>.+)\s*$`

  /** A way the key part of the item pattern can match `line`: the key at `line[p..k]`, '=' at `e`. */
  predicate KeyAt(line: string, p: nat, k: nat, e: nat) {
    p < k <= e < |line| &&
    SpaceIn(line, 0, p) && WordIn(line, p, k) && SpaceIn(line, k, e) && line[e] == '='
  }

  function MatchItem(line: string): Option<(string, string)> {
    var p := SkipSpace(line, 0);
    var k := SkipWord(line, p);
    var e := SkipSpace(line, k);
    if p < k && e < |line| && line[e] == '=' then
      match MatchValue(line[e + 1..])
      case Some(v) => Some((line[p..k], v))
      case None => None
    else None
  }

  /** What the matcher captures is a decomposition: the key, the '=' and a matching value part. */
  lemma ItemSound(line: string)
    ensures MatchItem(line).Some? ==> exists p: nat, k: nat, e: nat ::
      KeyAt(line, p, k, e) && MatchItem(line).value.0 == line[p..k] &&
      MatchValue(line[e + 1..]) == Some(MatchItem(line).value.1)
  {
    var p := SkipSpace(line, 0);
    var k := SkipWord(line, p);
    var e := SkipSpace(line, k);
    assert MatchItem(line).Some? ==> KeyAt(line, p, k, e);
  }

  /** Every key decomposition is the one the matcher finds; the item then matches iff its value part does. */
  lemma ItemComplete(line: string, p: nat, k: nat, e: nat)
    requires KeyAt(line, p, k, e)
    ensures MatchItem(line) ==
      match MatchValue(line[e + 1..])
      case Some(v) => Some((line[p..k], v))
      case None => None
  {
    assert IsWordChar(line[p]);
    SkipSpaceAt(line, 0, p);
    assert k < e ==> IsSpace(line[k]);
    SkipWordAt(line, p, k);
    SkipSpaceAt(line, k, e);
  }

  // ---------------------------------------------------------------------------
  // Classification, first match wins

  datatype LineKind =
    | Comment
    | Header(name: string)
    | Item(key: string, value: string)
    | Flag(value: string)
    | Blank  // matched by no pattern: the loop goes on to the next line

  /**
   * The loader tries comment, header, item and flag in this order; the first pattern that
   * matches decides, and a later one is consulted only when every earlier one failed.
   */
  function Classify(line: string): (k: LineKind)
    ensures k == Comment <==> IsComment(line)
    ensures k.Header? <==> !IsComment(line) && MatchHeader(line).Some?
    ensures k.Header? ==> k.name == MatchHeader(line).value
    ensures k.Item? <==> !IsComment(line) && MatchHeader(line).None? && MatchItem(line).Some?
    ensures k.Item? ==> (k.key, k.value) == MatchItem(line).value
    ensures k.Flag? <==>
      !IsComment(line) && MatchHeader(line).None? && MatchItem(line).None? && MatchValue(line).Some?
    ensures k.Flag? ==> k.value == MatchValue(line).value
  {
    if IsComment(line) then Comment
    else match MatchHeader(line)
      case Some(name) => Header(name)
      case None =>
        match MatchItem(line)
        case Some((key, value)) => Item(key, value)
        case None =>
          match MatchValue(line)
          case Some(value) => Flag(value)
          case None => Blank
  }

  // ---------------------------------------------------------------------------
  // Edge cases of the grammar

  /** A line is skipped by every pattern exactly when it is empty or a lone newline. */
  lemma BlankExactly(line: string)
    requires IsLine(line)
    ensures Classify(line) == Blank <==> line == [] || line == ['\n']
  {
    if line == [] || line == ['\n'] {
      assert SkipSpace(line, 0) == |line|;
      assert LastNonNewline(line) == -1;
    } else {
      assert line[0] != '\n';
      var j := LineEnd(line, 0);
      assert ValueAt(line, 0, j);
      ValueGreedy(line, 0, j);
    }
  }

  /**
   * A line of whitespace that is not just a newline is a flag whose value is a single
   * whitespace character, and that value coerces to the empty string.
   */
  lemma WhitespaceLineIsEmptyFlag(line: string)
    requires IsLine(line) && AllSpace(line) && line != [] && line != ['\n']
    ensures Classify(line).Flag? && |Classify(line).value| == 1
    ensures CoerceGroup(Classify(line).value) == Str("")
  {
    assert line[0] != '\n';
    assert SkipSpace(line, 0) == |line|;
    var k := LastNonNewline(line);
    assert k >= 0;
    var v := line[k..k + 1];
    assert Classify(line) == Flag(v);
    assert AllSpace(v) && ',' !in v;
    BlankTokenIsEmptyString(v);
  }

  /** `key=` with nothing after the '=' is not an item: the flag pattern takes the line, '=' included. */
  lemma KeyWithoutValueIsFlag(key: string, nl: string)
    requires |key| > 0 && WordIn(key, 0, |key|) && (nl == [] || nl == ['\n'])
    ensures Classify(key + ['='] + nl) == Flag(key + ['='])
  {
    var line := key + ['='] + nl;
    var e := |key|;
    assert line[0] == key[0] && IsWordChar(key[0]);
    assert forall t :: 0 <= t < e ==> line[t] == key[t];
    assert KeyAt(line, 0, e, e);
    assert line[e + 1..] == nl;
    assert SkipSpace(nl, 0) == |nl|;
    assert MatchValue(nl).None?;
    ItemComplete(line, 0, e, e);
    assert SkipSpace(line, 0) == 0;
    assert LineEnd(line, 0) == e + 1;
    assert line[0..e + 1] == key + ['='];
  }

  /** Text after the closing ']' stops a header from being one: `[name] x` is not a header. */
  lemma TrailingTextIsNotHeader(name: string, rest: string)
    requires |name| > 0 && WordIn(name, 0, |name|) && !AllSpace(rest)
    ensures MatchHeader(['['] + name + [']'] + rest).None?
  {
    var line := ['['] + name + [']'] + rest;
    var m := |name|;
    assert forall t :: 0 <= t < m ==> line[t + 1] == name[t];
    assert line[m + 1] == ']';
    assert SkipSpace(line, 0) == 0;
    assert IsWordChar(line[1]);
    assert SkipSpace(line, 1) == 1;
    assert SkipWord(line, 1) == m + 1;
    assert SkipSpace(line, m + 1) == m + 1;
    var t :| 0 <= t < |rest| && !IsSpace(rest[t]);
    assert line[m + 2 + t] == rest[t];
  }
}
