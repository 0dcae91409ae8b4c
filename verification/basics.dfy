/** Small value types shared by every module of the model. */
module Basics {

  /** An optional value: Python's `None` or a value. */
  datatype Option<+T> = None | Some(value: T)

  /**
   * A Python `dict` keyed by feature id: `keys` is its iteration (insertion)
   * order and `items` its contents.
   */
  datatype Dict<V> = Dict(keys: seq<int>, items: map<int, V>) {

    /**
     * The keys are listed once each, and exactly the keys of `items` are
     * listed (the last conjunct spells this out position by position).
     */
    ghost predicate Wf() {
      && (forall i, j :: 0 <= i < j < |keys| ==> keys[i] != keys[j])
      && (forall k :: k in items <==> k in keys)
      && (forall i :: 0 <= i < |keys| ==> keys[i] in items)
    }
  }

  /** Adding a new key at the end of a dictionary keeps it well formed. */
  lemma AppendKeepsWf<V>(d: Dict<V>, k: int, v: V)
    requires d.Wf() && k !in d.items
    ensures Dict(d.keys + [k], d.items[k := v]).Wf()
  {
    var keys := d.keys + [k];
    forall i, j | 0 <= i < j < |keys| ensures keys[i] != keys[j] {
      if j == |d.keys| {
        assert keys[i] == d.keys[i];
      }
    }
  }

  /** `a` comes before `b` in the iteration order `keys`. */
  ghost predicate Precedes(keys: seq<int>, a: int, b: int) {
    exists i, j :: 0 <= i < j < |keys| && keys[i] == a && keys[j] == b
  }

  /** No element occurs twice. */
  ghost predicate NoDup<T>(s: seq<T>) {
    forall i, j :: 0 <= i < j < |s| ==> s[i] != s[j]
  }

  /** The position of an element. */
  lemma PositionOf<T>(s: seq<T>, x: T) returns (i: int)
    requires x in s
    ensures 0 <= i < |s| && s[i] == x
  {
    i :| 0 <= i < |s| && s[i] == x;
  }

  function Min(a: real, b: real): real { if a <= b then a else b }

  function Max(a: real, b: real): real { if a >= b then a else b }
}
