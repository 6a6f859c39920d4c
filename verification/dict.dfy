/**
  Python's insertion-ordered `dict` from strings to strings, as a sequence of
  key/value pairs. Assigning `d[k] = v` overwrites the value in place when `k`
  is already a key and appends a new pair otherwise, so iteration order is the
  order in which keys were first inserted.
 */
module Dict {
  import opened Wrappers

  type Dict = seq<(string, string)>

  /** The keys of `d`. */
  function Keys(d: Dict): set<string>
    decreases |d|
  {
    if |d| == 0 then {} else {d[0].0} + Keys(d[1..])
  }

  /** No key is listed twice, as in every Python dict. */
  predicate DistinctKeys(d: Dict)
    decreases |d|
  {
    |d| == 0 || (d[0].0 !in Keys(d[1..]) && DistinctKeys(d[1..]))
  }

  /** `d.get(k)`. */
  function Lookup(d: Dict, k: string): (r: Option<string>)
    ensures r.None? <==> k !in Keys(d)
    decreases |d|
  {
    if |d| == 0 then None
    else if d[0].0 == k then Some(d[0].1)
    else Lookup(d[1..], k)
  }

  /** `d[k] = v`: afterwards `k` maps to `v`, the pair is appended only when `k` is
      new, and distinct keys stay distinct (`LookupPut`: every other key keeps its value). */
  function Put(d: Dict, k: string, v: string): (r: Dict)
    ensures Lookup(r, k) == Some(v)
    ensures Keys(r) == Keys(d) + {k}
    ensures |r| == if k in Keys(d) then |d| else |d| + 1
    ensures k !in Keys(d) ==> r == d + [(k, v)]
    ensures DistinctKeys(d) ==> DistinctKeys(r)
    decreases |d|
  {
    if |d| == 0 then [(k, v)]
    else if d[0].0 == k then
      assert ([(k, v)] + d[1..])[1..] == d[1..];
      [(k, v)] + d[1..]
    else
      var rest := Put(d[1..], k, v);
      assert ([d[0]] + rest)[1..] == rest;
      assert [d[0]] + d[1..] == d;
      [d[0]] + rest
  }

  /** Every pair of `d[k] = v` is a pair of `d` or the assigned one. */
  lemma {:induction false} PutPairs(d: Dict, k: string, v: string)
    ensures forall p :: p in Put(d, k, v) ==> p in d || p == (k, v)
    decreases |d|
  {
    if |d| > 0 {
      assert forall p :: p in d[1..] ==> p in d;
      if d[0].0 != k {
        PutPairs(d[1..], k, v);
      }
    }
  }

  /** Assign `k` only when there is a value for it. */
  function PutOpt(d: Dict, k: string, o: Option<string>): Dict {
    match o
    case Some(v) => Put(d, k, v)
    case None => d
  }

  /** Assigning one key leaves every other key's value as it was. */
  lemma {:induction false} LookupPut(d: Dict, k: string, v: string, q: string)
    requires q != k
    ensures Lookup(Put(d, k, v), q) == Lookup(d, q)
    decreases |d|
  {
    if |d| > 0 && d[0].0 != k {
      LookupPut(d[1..], k, v, q);
    }
  }

  /** Looking up any key after an optional assignment. */
  lemma LookupPutOpt(d: Dict, k: string, o: Option<string>, q: string)
    ensures Lookup(PutOpt(d, k, o), q) == if q == k && o.Some? then o else Lookup(d, q)
  {
    if o.Some? && q != k {
      LookupPut(d, k, o.value, q);
    }
  }

  /** An optional assignment adds at most its own key. */
  lemma KeysPutOpt(d: Dict, k: string, o: Option<string>)
    ensures Keys(PutOpt(d, k, o)) <= Keys(d) + {k}
  {
  }
}
