/** The two-key distance table of buildTree. Its MultiKeyMap class is not part of
    this model: it is a map from pairs of labels in which writing a pair writes both
    orders, so that a distance stored as (merged, x) is found again as (x, merged). */
module MultiKeyMap {
  import opened JavaLang

  type Table = map<(string, string), real>

  /** get(a, b): the stored distance, or null. */
  function Get(m: Table, a: string, b: string): (r: Option<real>)
    ensures r.Some? <==> (a, b) in m
    ensures r.Some? ==> r.value == m[(a, b)]
  {
    if (a, b) in m then Some(m[(a, b)]) else None
  }

  /** put(a, b, v): afterwards both orders read `v`; every other entry is kept. */
  function Put(m: Table, a: string, b: string, v: real): (r: Table)
    ensures Get(r, a, b) == Some(v) && Get(r, b, a) == Some(v)
    ensures forall k | k in m :: k in r
    ensures forall k | k in r && k != (a, b) && k != (b, a) :: k in m && r[k] == m[k]
  {
    m[(a, b) := v][(b, a) := v]
  }

  /** Every entry can be read with its two labels either way round. */
  ghost predicate Symmetric(m: Table)
  {
    forall a, b | (a, b) in m :: (b, a) in m && m[(b, a)] == m[(a, b)]
  }

  lemma PutKeepsSymmetric(m: Table, a: string, b: string, v: real)
    requires Symmetric(m)
    ensures Symmetric(Put(m, a, b, v))
  {
    var r := Put(m, a, b, v);
    forall x, y | (x, y) in r ensures (y, x) in r && r[(y, x)] == r[(x, y)] {
      if (x, y) != (a, b) && (x, y) != (b, a) {
        assert (x, y) in m && (y, x) in m;
      }
    }
  }

  /** In a symmetric table the order of the two labels does not matter. */
  lemma SymmetricGet(m: Table, a: string, b: string)
    requires Symmetric(m)
    ensures Get(m, a, b) == Get(m, b, a)
  {
  }
}
