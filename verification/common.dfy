/** Types shared by every component of the model. */
module Common {
  datatype Option<+T> = None | Some(value: T)

  datatype Result<+T, +E> = Ok(value: T) | Err(error: E)

  /** Clocks count milliseconds. */
  const SECOND: int := 1000

  function Min(a: int, b: int): int {
    if a <= b then a else b
  }

  function Max(a: int, b: int): int {
    if a <= b then b else a
  }

  lemma {:induction false} Highest(keys: set<nat>) returns (top: nat)
    ensures forall k | k in keys :: k <= top
    decreases |keys|
  {
    if keys == {} {
      top := 0;
    } else {
      var k :| k in keys;
      var rest := Highest(keys - {k});
      top := Max(k, rest);
      assert forall x | x in keys :: x == k || x in keys - {k};
    }
  }

  /** There is always a number that no key of a map has. */
  lemma FreshKey<T>(m: map<nat, T>) returns (k: nat)
    ensures k !in m
  {
    var top := Highest(m.Keys);
    k := top + 1;
  }

  lemma WithoutKey<K, T>(m: map<K, T>, k: K)
    requires k in m
    ensures |m - {k}| == |m| - 1
  {
    assert m == (m - {k})[k := m[k]];
  }
}
