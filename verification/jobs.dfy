/**
 * The data the tracker works on: a fetched posting, one entry of the seen-jobs
 * record, and the record itself as a Python dict (which remembers the order in
 * which keys were first inserted, and writes them back in that order).
 */
module Jobs {

  /** One job listing from this run's fetch. `key` is the composite identity
      `title | location | url`; dates are `YYYY-MM-DD` strings. */
  datatype Posting = Posting(key: string, title: string, location: string, postedDate: string, url: string)

  /** What the record remembers about a key: the tuple `(url, posted_date, status)`. */
  datatype Entry = Entry(url: string, postedDate: string, status: string)

  /** The status given to a key the record has not seen before. */
  const DefaultStatus: string := "Pending"

  /** A Python dict from key to entry: `m` is the mapping, `order` the keys in insertion order. */
  datatype Dict = Dict(order: seq<string>, m: map<string, Entry>)

  /** The dict invariant: every key listed once, and exactly the keys of the mapping listed. */
  ghost predicate Valid(d: Dict) {
    && (forall i, j :: 0 <= i < j < |d.order| ==> d.order[i] != d.order[j])
    && (forall k :: k in d.m <==> k in d.order)
  }

  /** `{}` */
  function Empty(): (r: Dict)
    ensures Valid(r) && r.m == map[]
  {
    Dict([], map[])
  }

  /** `d[k] = e`: the value is replaced, a key already present keeps its place in
      the iteration order and a new key goes to the end. */
  function Put(d: Dict, k: string, e: Entry): Dict {
    if k in d.m then Dict(d.order, d.m[k := e]) else Dict(d.order + [k], d.m[k := e])
  }

  /** Storing a key keeps the dict invariant. */
  lemma {:induction false} PutValid(d: Dict, k: string, e: Entry)
    requires Valid(d)
    ensures Valid(Put(d, k, e))
  {
    var r := Put(d, k, e);
    if k !in d.m {
      assert r.order == d.order + [k];
      forall k' ensures k' in r.m <==> k' in r.order {
        assert k' in r.order <==> k' in d.order || k' == k;
      }
    }
  }
}
