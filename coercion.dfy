/**
 * Value coercion: `_get_value_type` (strip, then "True"/"False", then int, then float,
 * else the stripped text) and the comma grouping done by `_add_dict_prop`/`_add_list_prop`.
 * Whitespace and digits are the ASCII ones.
 */
module Coercion {
  import opened Values

  /** The ASCII characters Python treats as whitespace (`str.isspace`, and `\s` in a str pattern). */
  predicate IsSpace(c: char) {
    c == ' ' || c == '\t' || c == '\n' || c == '\r' || c == '\U{B}' || c == '\U{C}' ||
    ('\U{1C}' <= c <= '\U{1F}')
  }

  predicate AllSpace(s: string) {
    forall i :: 0 <= i < |s| ==> IsSpace(s[i])
  }

  predicate IsDigit(c: char) {
    '0' <= c <= '9'
  }

  predicate AllDigits(s: string) {
    forall i :: 0 <= i < |s| ==> IsDigit(s[i])
  }

  // ---------------------------------------------------------------------------
  // str.strip()

  /** The number of whitespace characters `s` starts with. */
  function LeadingSpace(s: string): (n: nat)
    ensures n <= |s| && AllSpace(s[..n])
    ensures n < |s| ==> !IsSpace(s[n])
  {
    if |s| > 0 && IsSpace(s[0]) then
      var m := LeadingSpace(s[1..]);
      assert s[..1 + m] == [s[0]] + s[1..][..m];
      1 + m
    else 0
  }

  /** The start of the run of whitespace that ends just before index `j`. */
  function SpaceRunBefore(s: string, j: nat): (i: nat)
    requires j <= |s|
    ensures i <= j && forall t :: i <= t < j ==> IsSpace(s[t])
    ensures i > 0 ==> !IsSpace(s[i - 1])
  {
    if j > 0 && IsSpace(s[j - 1]) then SpaceRunBefore(s, j - 1) else j
  }

  /** The number of whitespace characters `s` ends with. */
  function TrailingSpace(s: string): (n: nat)
    ensures n <= |s| && AllSpace(s[|s| - n..])
    ensures n < |s| ==> !IsSpace(s[|s| - n - 1])
  {
    var i := SpaceRunBefore(s, |s|);
    assert forall t :: 0 <= t < |s| - i ==> s[i..][t] == s[i + t];
    |s| - i
  }

  /**
   * `s.strip()`: the part of `s` between its leading and its trailing whitespace,
   * which neither starts nor ends with whitespace.
   */
  function Strip(s: string): (r: string)
    ensures r == [] || (!IsSpace(r[0]) && !IsSpace(r[|r| - 1]))
    ensures var i := LeadingSpace(s);
      i + |r| <= |s| && AllSpace(s[..i]) && r == s[i..i + |r|] && AllSpace(s[i + |r|..])
  {
    var i := LeadingSpace(s);
    var t := s[i..];
    var n := TrailingSpace(t);
    var r := t[..|t| - n];
    assert r == s[i..|s| - n] && s[|s| - n..] == t[|t| - n..];
    assert r != [] ==> r[0] == t[0] && r[|r| - 1] == t[|t| - n - 1];
    r
  }

  lemma SpaceBeforeNonSpace(a: string, b: string)
    requires AllSpace(a) && (b == [] || !IsSpace(b[0]))
    ensures LeadingSpace(a + b) == |a|
    decreases |a|
  {
    if a != [] {
      assert (a + b)[1..] == a[1..] + b;
      SpaceBeforeNonSpace(a[1..], b);
    } else {
      assert a + b == b;
    }
  }

  /** A run of whitespace preceded by the start or by a non-space is found whole. */
  lemma {:induction false} SpaceRunExact(s: string, i: nat, j: nat)
    requires i <= j <= |s| && (forall t :: i <= t < j ==> IsSpace(s[t])) && (i > 0 ==> !IsSpace(s[i - 1]))
    ensures SpaceRunBefore(s, j) == i
    decreases j
  {
    if j > i {
      SpaceRunExact(s, i, j - 1);
    }
  }

  lemma SpaceAfterNonSpace(b: string, c: string)
    requires AllSpace(c) && (b == [] || !IsSpace(b[|b| - 1]))
    ensures TrailingSpace(b + c) == |c|
  {
    var s := b + c;
    assert forall t :: |b| <= t < |s| ==> s[t] == c[t - |b|];
    assert b != [] ==> s[|b| - 1] == b[|b| - 1];
    SpaceRunExact(s, |b|, |s|);
  }

  /** Strip is determined by its contract: whitespace around a trimmed core is removed exactly. */
  lemma {:induction false} StripUnique(a: string, b: string, c: string)
    requires AllSpace(a) && AllSpace(c)
    requires b == [] || (!IsSpace(b[0]) && !IsSpace(b[|b| - 1]))
    ensures Strip(a + b + c) == b
  {
    var s := a + b + c;
    if b == [] {
      assert s == a + c;
      assert AllSpace(s);
      SpaceBeforeNonSpace(s, []);
      assert s + [] == s;
    } else {
      assert s == a + (b + c);
      SpaceBeforeNonSpace(a, b + c);
      assert s[|a|..] == b + c;
      SpaceAfterNonSpace(b, c);
    }
  }

  /** Stripping twice is stripping once. */
  lemma StripIdempotent(s: string)
    ensures Strip(Strip(s)) == Strip(s)
  {
    StripTrimmed(Strip(s));
  }

  // ---------------------------------------------------------------------------
  // str.split(',') and its inverse ','.join

  /** `','.join(parts)`. */
  function Join(parts: seq<string>): string
    requires |parts| >= 1
  {
    if |parts| == 1 then parts[0] else parts[0] + [','] + Join(parts[1..])
  }

  /** `s.split(',')`: never empty, no piece holds a comma, and joining the pieces gives `s` back. */
  function Split(s: string): (parts: seq<string>)
    ensures |parts| >= 1
    ensures forall i :: 0 <= i < |parts| ==> ',' !in parts[i]
    ensures Join(parts) == s
  {
    if s == [] then [""]
    else
      var p := Split(s[1..]);
      if s[0] == ',' then
        assert Join([""] + p) == [','] + Join(p) by {
          assert ([""] + p)[1..] == p;
        }
        [""] + p
      else
        var q := [[s[0]] + p[0]] + p[1..];
        assert q[1..] == p[1..];
        assert Join(q) == [s[0]] + Join(p);
        q
  }

  lemma {:induction false} SplitNoComma(a: string)
    requires ',' !in a
    ensures Split(a) == [a]
  {
    if a != [] {
      assert ',' !in a[1..] by { assert forall i :: 0 <= i < |a[1..]| ==> a[1..][i] == a[i + 1]; }
      SplitNoComma(a[1..]);
      assert [a[0]] + a[1..] == a;
    }
  }

  lemma {:induction false} SplitAfterComma(a: string, b: string)
    requires ',' !in a
    ensures Split(a + [','] + b) == [a] + Split(b)
  {
    if a == [] {
      assert ([] + [','] + b)[1..] == b;
    } else {
      assert ',' !in a[1..] by { assert forall i :: 0 <= i < |a[1..]| ==> a[1..][i] == a[i + 1]; }
      SplitAfterComma(a[1..], b);
      assert (a + [','] + b)[1..] == a[1..] + [','] + b;
      assert [a[0]] + a[1..] == a;
    }
  }

  /** Splitting a join of comma-free pieces gives the pieces back. */
  lemma {:induction false} SplitJoin(parts: seq<string>)
    requires |parts| >= 1
    requires forall i :: 0 <= i < |parts| ==> ',' !in parts[i]
    ensures Split(Join(parts)) == parts
  {
    if |parts| == 1 {
      SplitNoComma(parts[0]);
    } else {
      SplitJoin(parts[1..]);
      SplitAfterComma(parts[0], Join(parts[1..]));
      assert [parts[0]] + parts[1..] == parts;
    }
  }

  // ---------------------------------------------------------------------------
  // int() and float() on a stripped token

  /** What `int(t)` accepts: an optional sign and one or more decimal digits. */
  predicate IsIntLiteral(t: string) {
    if |t| > 0 && (t[0] == '+' || t[0] == '-') then |t| > 1 && AllDigits(t[1..])
    else |t| > 0 && AllDigits(t)
  }

  function DigitValue(c: char): nat
    requires IsDigit(c)
  {
    (c as int - '0' as int) as nat
  }

  /** The number a string of decimal digits denotes. */
  function DigitsValue(s: string): nat
    requires AllDigits(s)
  {
    if s == [] then 0 else 10 * DigitsValue(s[..|s| - 1]) + DigitValue(s[|s| - 1])
  }

  /** `int(t)` on a literal `IsIntLiteral` accepts. */
  function IntValue(t: string): int
    requires IsIntLiteral(t)
  {
    if t[0] == '-' then -(DigitsValue(t[1..]) as int)
    else if t[0] == '+' then DigitsValue(t[1..])
    else DigitsValue(t)
  }

  function Lower(c: char): char {
    if 'A' <= c <= 'Z' then (c as int + 32) as char else c
  }

  /** The words `float` reads without digits, in any letter case. */
  predicate IsSpecialFloat(b: string) {
    var low := seq(|b|, i requires 0 <= i < |b| => Lower(b[i]));
    low == "inf" || low == "infinity" || low == "nan"
  }

  /** The index of the first occurrence of one of `cs` in `s`, or `|s|`. */
  function IndexOfAny(s: string, cs: set<char>): (k: nat)
    ensures k <= |s|
    ensures forall i :: 0 <= i < k ==> s[i] !in cs
    ensures k < |s| ==> s[k] in cs
  {
    if s == [] then 0
    else if s[0] in cs then 0
    else 1 + IndexOfAny(s[1..], cs)
  }

  /** Digits with at most one decimal point, and at least one digit. */
  predicate IsMantissa(m: string) {
    var d := IndexOfAny(m, {'.'});
    if d == |m| then |m| > 0 && AllDigits(m)
    else |m| > 1 && AllDigits(m[..d]) && AllDigits(m[d + 1..])
  }

  /** A decimal float: a mantissa, then optionally `e`/`E` and a signed integer exponent. */
  predicate IsDecimalFloat(b: string) {
    var e := IndexOfAny(b, {'e', 'E'});
    IsMantissa(b[..e]) && (e == |b| || IsIntLiteral(b[e + 1..]))
  }

  /** What `float(t)` accepts (without digit-group underscores): an optional sign, then a decimal float or inf/infinity/nan. */
  predicate IsFloatLiteral(t: string) {
    var b := if |t| > 0 && (t[0] == '+' || t[0] == '-') then t[1..] else t;
    IsSpecialFloat(b) || IsDecimalFloat(b)
  }

  /** Every integer literal is also a float literal, so the int attempt must come first. */
  lemma IntLiteralIsFloatLiteral(t: string)
    requires IsIntLiteral(t)
    ensures IsFloatLiteral(t)
  {
    var b := if |t| > 0 && (t[0] == '+' || t[0] == '-') then t[1..] else t;
    assert AllDigits(b);
    assert forall i :: 0 <= i < |b| ==> b[i] !in {'e', 'E'};
    var e := IndexOfAny(b, {'e', 'E'});
    assert e == |b| && b[..e] == b;
    assert forall i :: 0 <= i < |b| ==> b[i] !in {'.'};
  }

  // ---------------------------------------------------------------------------
  // _get_value_type and the comma grouping

  /** A value a single token can coerce to. */
  predicate IsScalar(d: Data) {
    d.Bool? || d.Int? || d.Float? || d.Str?
  }

  /**
   * `_get_value_type`: strip, then exactly "True"/"False", then int, then float, else the
   * stripped text. Each outcome holds exactly when the earlier attempts fail and its own succeeds.
   */
  function CoerceToken(text: string): (r: Data)
    ensures IsScalar(r)
    ensures r == Bool(true) <==> Strip(text) == "True"
    ensures r == Bool(false) <==> Strip(text) == "False"
    ensures r.Int? <==> IsIntLiteral(Strip(text))
    ensures r.Int? ==> r.i == IntValue(Strip(text))
    ensures r.Float? <==> !IsIntLiteral(Strip(text)) && IsFloatLiteral(Strip(text))
    ensures r.Float? ==> r.lexeme == Strip(text)
    ensures r.Str? ==> r.s == Strip(text)
  {
    var t := Strip(text);
    if t == "True" then Bool(true)
    else if t == "False" then Bool(false)
    else if IsIntLiteral(t) then Int(IntValue(t))
    else if IsFloatLiteral(t) then Float(t)
    else Str(t)
  }

  /**
   * The grouping `_add_dict_prop`/`_add_list_prop` apply: split on ',', coerce every piece;
   * one piece is stored bare, two or more as a tuple in source order.
   */
  function CoerceGroup(text: string): (r: Data)
    ensures ',' !in text ==> r == CoerceToken(text)
    ensures ',' in text ==>
      && r.Tuple?
      && |r.elems| == |Split(text)| >= 2
      && forall i :: 0 <= i < |r.elems| ==> r.elems[i] == CoerceToken(Split(text)[i])
  {
    var parts := Split(text);
    if |parts| == 1 then
      assert text == Join(parts) == parts[0];
      CoerceToken(parts[0])
    else
      assert ',' in text by {
        if ',' !in text { SplitNoComma(text); }
      }
      Tuple(seq(|parts|, i requires 0 <= i < |parts| => CoerceToken(parts[i])))
  }

  // ---------------------------------------------------------------------------
  // Properties of the cascade

  /** A token that starts with a letter other than i/n (in either case) is neither an int nor a float. */
  lemma LetterStartIsText(t: string)
    requires |t| > 0 && ('a' <= Lower(t[0]) <= 'z') && Lower(t[0]) !in {'i', 'n'}
    ensures !IsIntLiteral(t) && !IsFloatLiteral(t)
  {
    assert !IsDigit(t[0]);
    assert !IsSpecialFloat(t) by {
      var low := seq(|t|, i requires 0 <= i < |t| => Lower(t[i]));
      assert low[0] == Lower(t[0]);
    }
    var e := IndexOfAny(t, {'e', 'E'});
    if e > 0 {
      assert t[..e][0] == t[0];
      assert IndexOfAny(t[..e], {'.'}) > 0 by { assert t[0] != '.'; }
    }
  }

  /** A token with no whitespace at either end is its own strip. */
  lemma StripTrimmed(t: string)
    requires t == [] || (!IsSpace(t[0]) && !IsSpace(t[|t| - 1]))
    ensures Strip(t) == t
  {
    assert [] + t + [] == t;
    StripUnique([], t, []);
  }

  lemma CoerceTrue()
    ensures CoerceToken(" True\n") == Bool(true)
  {
    StripUnique([' '], "True", ['\n']);
    assert [' '] + "True" + ['\n'] == " True\n";
  }

  lemma CoerceFalse()
    ensures CoerceToken("False") == Bool(false)
  {
    StripUnique([], "False", []);
    assert [] + "False" + [] == "False";
  }

  lemma CoerceLowerTrue()
    ensures CoerceToken("true") == Str("true")
  {
    StripUnique([], "true", []);
    assert [] + "true" + [] == "true";
    LetterStartIsText("true");
  }

  lemma CoerceUpperFalse()
    ensures CoerceToken("FALSE") == Str("FALSE")
  {
    StripUnique([], "FALSE", []);
    assert [] + "FALSE" + [] == "FALSE";
    LetterStartIsText("FALSE");
  }

  /** Only the exact spellings are booleans: "true" or "FALSE" stay strings. */
  lemma BooleansAreCaseSensitive()
    ensures CoerceToken(" True\n") == Bool(true) && CoerceToken("False") == Bool(false)
    ensures CoerceToken("true") == Str("true") && CoerceToken("FALSE") == Str("FALSE")
  {
    CoerceTrue();
    CoerceFalse();
    CoerceLowerTrue();
    CoerceUpperFalse();
  }

  /** The empty token and a whitespace-only token coerce to the empty string. */
  lemma BlankTokenIsEmptyString(text: string)
    requires AllSpace(text)
    ensures CoerceToken(text) == Str("")
  {
    assert text == text + [] + [];
    StripUnique(text, [], []);
    assert !IsDecimalFloat("") by { assert IndexOfAny("", {'.'}) == 0; }
  }

  /** The decimal rendering of a natural number. */
  function ShowNat(n: nat): (s: string)
    ensures |s| > 0 && AllDigits(s)
  {
    if n < 10 then [('0' as int + n) as char]
    else ShowNat(n / 10) + [('0' as int + n % 10) as char]
  }

  /** The decimal rendering of an integer, with '-' for negatives. */
  function ShowInt(i: int): string {
    if i < 0 then "-" + ShowNat(-i) else ShowNat(i)
  }

  lemma {:induction false} DigitsOfShow(n: nat)
    ensures DigitsValue(ShowNat(n)) == n
  {
    if n >= 10 {
      DigitsOfShow(n / 10);
      var s := ShowNat(n);
      assert s[..|s| - 1] == ShowNat(n / 10);
    }
  }

  lemma {:induction false} ShowIntValue(i: int)
    ensures IsIntLiteral(ShowInt(i)) && IntValue(ShowInt(i)) == i
  {
    if i < 0 {
      DigitsOfShow(-i);
      assert ShowInt(i)[1..] == ShowNat(-i);
    } else {
      DigitsOfShow(i);
    }
  }

  /** Printing an integer and coercing the text gives the integer back. */
  lemma {:induction false} CoerceShowInt(i: int)
    ensures CoerceToken(ShowInt(i)) == Int(i)
  {
    var t := ShowInt(i);
    ShowIntValue(i);
    assert t[0] == '-' || IsDigit(t[0]);
    assert IsDigit(t[|t| - 1]);
    StripTrimmed(t);
    assert t[0] != 'T' && t[0] != 'F';
  }

  /** A string result is already coerced: coercing its text again gives it back. */
  lemma StringResultIsStable(text: string)
    requires CoerceToken(text).Str?
    ensures CoerceToken(CoerceToken(text).s) == CoerceToken(text)
  {
    StripIdempotent(text);
  }

  /** Two or more comma-free pieces coerce to the tuple of the pieces' coercions, in order. */
  lemma GroupOfPieces(parts: seq<string>)
    requires |parts| >= 2
    requires forall i :: 0 <= i < |parts| ==> ',' !in parts[i]
    ensures var r := CoerceGroup(Join(parts));
      r.Tuple? && |r.elems| == |parts| && forall i :: 0 <= i < |parts| ==> r.elems[i] == CoerceToken(parts[i])
  {
    SplitJoin(parts);
    assert ',' in Join(parts) by {
      if ',' !in Join(parts) { SplitNoComma(Join(parts)); }
    }
  }

  /** A printed integer holds no comma and coerces back to the integer. */
  lemma ShowIntPiece(x: int)
    ensures ',' !in ShowInt(x) && CoerceToken(ShowInt(x)) == Int(x)
  {
    CoerceShowInt(x);
    var t := ShowInt(x);
    ShowIntValue(x);
    assert forall k :: 0 <= k < |t| ==> t[k] == '-' || IsDigit(t[k]) by {
      if x < 0 { assert t[1..] == ShowNat(-x); }
    }
  }

  /**
   * A comma-separated list of printed integers reads back as those integers:
   * a single one bare, two or more as a tuple.
   */
  lemma GroupOfInts(xs: seq<int>)
    requires |xs| >= 1
    ensures var text := Join(seq(|xs|, i requires 0 <= i < |xs| => ShowInt(xs[i])));
      CoerceGroup(text) == if |xs| == 1 then Int(xs[0]) else Tuple(seq(|xs|, i requires 0 <= i < |xs| => Int(xs[i])))
  {
    var parts := seq(|xs|, i requires 0 <= i < |xs| => ShowInt(xs[i]));
    forall i | 0 <= i < |xs|
      ensures ',' !in parts[i] && CoerceToken(parts[i]) == Int(xs[i])
    {
      ShowIntPiece(xs[i]);
    }
    if |xs| == 1 {
      assert Join(parts) == parts[0];
    } else {
      GroupOfPieces(parts);
      var r := CoerceGroup(Join(parts));
      assert r.elems == seq(|xs|, i requires 0 <= i < |xs| => Int(xs[i]));
    }
  }

  lemma GroupOfThree(a: string, w: string, b: string)
    requires ',' !in a && ',' !in w && ',' !in b
    ensures var r := CoerceGroup(Join([a, w, b]));
      r.Tuple? && r.elems == [CoerceToken(a), CoerceToken(w), CoerceToken(b)]
  {
    GroupOfPieces([a, w, b]);
    assert [a, w, b][0] == a && [a, w, b][1] == w && [a, w, b][2] == b;
  }

  /** An empty or blank piece between two commas is kept, as an empty string (`"a,,b"` gives `("a", "", "b")`). */
  lemma GroupKeepsBlankPiece(a: string, w: string, b: string)
    requires ',' !in a && ',' !in b && AllSpace(w)
    ensures CoerceGroup(Join([a, w, b])) == Tuple([CoerceToken(a), Str(""), CoerceToken(b)])
  {
    assert ',' !in w by { assert !IsSpace(','); }
    GroupOfThree(a, w, b);
    BlankTokenIsEmptyString(w);
  }
}
