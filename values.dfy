/** The Python values a configuration holds, as a tagged union. */
module Values {

  /** A dictionary key: the configuration uses string keys; integer keys arise from `s[i] = v`. */
  datatype Key = StrKey(s: string) | IntKey(i: int)

  /**
   * A plain Python value: the results of coercing INI text (Bool, Int, Float, Str, Tuple)
   * and the values a structured source delivers already typed (also List, Null and Dict).
   * A float is kept as the text it was parsed from.
   * A Dict keeps its items in insertion order.
   */
  datatype Data =
    | Bool(b: bool)
    | Int(i: int)
    | Float(lexeme: string)
    | Str(s: string)
    | Tuple(elems: seq<Data>)
    | List(elems: seq<Data>)
    | Null
    | Dict(items: seq<(Key, Data)>)

  /** The value a key yields when a Section is iterated (`for k in section`). */
  function KeyData(k: Key): (d: Data)
    ensures d.Str? || d.Int?
  {
    match k
    case StrKey(s) => Str(s)
    case IntKey(i) => Int(i)
  }

  /** The keys of an item list, in order. */
  function KeysOf(items: seq<(Key, Data)>): (ks: seq<Key>)
    ensures |ks| == |items|
    ensures forall i :: 0 <= i < |items| ==> ks[i] == items[i].0
  {
    if items == [] then [] else KeysOf(items[..|items| - 1]) + [items[|items| - 1].0]
  }

  /** No key occurs twice: a Python dict. */
  predicate Distinct<T(==)>(s: seq<T>) {
    forall i, j :: 0 <= i < j < |s| ==> s[i] != s[j]
  }

  /** Every Dict inside `d`, at any depth through Dict values, has distinct keys. */
  predicate WellFormed(d: Data)
    decreases d
  {
    d.Dict? ==>
      Distinct(KeysOf(d.items)) &&
      forall i :: 0 <= i < |d.items| ==> WellFormed(d.items[i].1)
  }

  // ---------------------------------------------------------------------------
  // Sequence facts used by the proofs

  /** A prefix one longer is the shorter prefix and one more element. */
  lemma TakeOneMore<T>(s: seq<T>, n: nat)
    requires n < |s|
    ensures s[..n + 1] == s[..n] + [s[n]]
  {
  }

  /** In a sequence without repetitions, an element does not occur before its own position. */
  lemma NotBefore<T>(s: seq<T>, n: nat)
    requires Distinct(s) && n < |s|
    ensures s[n] !in s[..n]
  {
    forall i | 0 <= i < n ensures s[..n][i] != s[n] {
      assert s[..n][i] == s[i];
    }
  }

  /** A prefix of a sequence without repetitions has none either. */
  lemma DistinctPrefix<T>(s: seq<T>, n: nat)
    requires Distinct(s) && n <= |s|
    ensures Distinct(s[..n])
  {
  }

  /** Two maps with the same keys and the same value at every key are equal. */
  lemma MapsAgree<K, V>(a: map<K, V>, b: map<K, V>)
    requires a.Keys == b.Keys && forall k | k in a :: a[k] == b[k]
    ensures a == b
  {
  }
}
