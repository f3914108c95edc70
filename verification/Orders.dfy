/** The orders in which a Go map may be visited. */
module Orders {
  /** order lists every key once. */
  ghost predicate Enumerates(order: seq<string>, keys: set<string>) {
    (forall i :: 0 <= i < |order| ==> order[i] in keys)
    && (forall i, j :: 0 <= i < j < |order| ==> order[i] != order[j])
    && forall k :: k in keys ==> k in order
  }

  lemma EnumeratesOneMore(order: seq<string>, keys: set<string>, k: string)
    requires Enumerates(order, keys) && k !in keys
    ensures Enumerates(order + [k], keys + {k})
  {
    assert (order + [k])[|order|] == k;
    assert forall l :: l in order ==> l in order + [k];
  }
}
