/** Double-buffered counter rates: two maps that change roles after every successful pass. */
module Postgres {
  import opened Words
  import opened Wrappers
  import opened Orders

  /** A stored value: count is what conv reads from it, shown what tofloat32 reads from it. */
  datatype PgValue = PgValue(isGauge: bool, count: U64, shown: real, ts: int)

  type Metrics = map<string, PgValue>

  datatype WriteOp = WriteOp(key: string, value: PgValue)

  /** The writes a pass made into the buffer before it succeeded or failed. */
  datatype Pass = Pass(writes: seq<WriteOp>, ok: bool)

  /** A rate is sent as delta / elapsed. */
  datatype Sent = Gauge(key: string, value: real) | Rate(key: string, delta: U64, elapsed: int)

  function Apply(m: Metrics, ws: seq<WriteOp>): Metrics {
    if ws == [] then m else Apply(m, ws[..|ws| - 1])[ws[|ws| - 1].key := ws[|ws| - 1].value]
  }

  /** What a successful pass sends for key k of the new buffer. */
  function Emit(newer: Metrics, older: Metrics, k: string): seq<Sent>
    requires k in newer
  {
    var v := newer[k];
    if v.isGauge then [Gauge(k, v.shown)]
    else if k !in older then []
    else if older[k].count > v.count then []
    else [Rate(k, v.count - older[k].count, v.ts - older[k].ts)]
  }

  ghost function EmitAll(newer: Metrics, older: Metrics, order: seq<string>): seq<Sent>
    requires forall i :: 0 <= i < |order| ==> order[i] in newer
  {
    if order == [] then []
    else EmitAll(newer, older, order[..|order| - 1]) + Emit(newer, older, order[|order| - 1])
  }

  lemma EmitAllOneMore(newer: Metrics, older: Metrics, order: seq<string>, k: string)
    requires k in newer && forall i :: 0 <= i < |order| ==> order[i] in newer
    ensures EmitAll(newer, older, order + [k]) == EmitAll(newer, older, order) + Emit(newer, older, k)
  {
    assert (order + [k])[..|order|] == order;
  }

  /** The contents of the two buffers. */
  datatype View = View(older: Metrics, newer: Metrics)

  function After(v: View, p: Pass): View {
    var read := Apply(v.newer, p.writes);
    if p.ok then View(read, v.older) else View(v.older, read)
  }

  class PgStat {
    var metrics: Metrics

    constructor ()
      ensures metrics == map[]
    {
      metrics := map[];
    }

    // The readers write into the map they are given, also when one of them fails later.
    method Read(ws: seq<WriteOp>)
      modifies this
      ensures metrics == Apply(old(metrics), ws)
    {
      for i := 0 to |ws|
        invariant metrics == Apply(old(metrics), ws[..i])
      {
        assert ws[..i + 1][..i] == ws[..i];
        metrics := metrics[ws[i].key := ws[i].value];
      }
      assert ws[..|ws|] == ws;
    }
  }

  /** m is what all keys of newer send, each once, in some order. */
  ghost predicate SendsAll(m: seq<Sent>, newer: Metrics, older: Metrics) {
    exists order: seq<string> :: Enumerates(order, newer.Keys) && m == EmitAll(newer, older, order)
  }

  /** m is what the keys in seen send, in this order. */
  ghost predicate SendsSome(m: seq<Sent>, newer: Metrics, older: Metrics, order: seq<string>, seen: set<string>) {
    seen <= newer.Keys && Enumerates(order, seen) && m == EmitAll(newer, older, order)
  }

  lemma SendsOneMore(m: seq<Sent>, newer: Metrics, older: Metrics, order: seq<string>, seen: set<string>, k: string)
    requires SendsSome(m, newer, older, order, seen) && k in newer && k !in seen
    ensures SendsSome(m + Emit(newer, older, k), newer, older, order + [k], seen + {k})
  {
    EmitAllOneMore(newer, older, order, k);
    EnumeratesOneMore(order, seen, k);
  }

  // What one key sends.
  method SendStat(newer: Metrics, older: Metrics, k: string, m: seq<Sent>) returns (n: seq<Sent>)
    requires k in newer
    ensures n == m + Emit(newer, older, k)
  {
    n := m;
    var v := newer[k];
    if v.isGauge {
      n := n + [Gauge(k, v.shown)];
    } else if k in older && older[k].count <= v.count {
      n := n + [Rate(k, v.count - older[k].count, v.ts - older[k].ts)];
    }
  }

  // Go visits the map in an arbitrary order.
  method SendStats(newer: Metrics, older: Metrics) returns (m: seq<Sent>)
    ensures SendsAll(m, newer, older)
  {
    m := [];
    var rest := newer.Keys;
    ghost var order: seq<string>, seen: set<string> := [], {};
    while rest != {}
      invariant rest + seen == newer.Keys && rest !! seen
      invariant SendsSome(m, newer, older, order, seen)
    {
      var k :| k in rest;
      SendsOneMore(m, newer, older, order, seen, k);
      m := SendStat(newer, older, k, m);
      order, seen, rest := order + [k], seen + {k}, rest - {k};
    }
    assert seen == newer.Keys;
  }

  class Collector {
    var oldStat: PgStat
    var newStat: PgStat

    ghost predicate Valid()
      reads this
    {
      oldStat != newStat
    }

    ghost function Contents(): View
      reads this, oldStat, newStat
    {
      View(oldStat.metrics, newStat.metrics)
    }

    // The first pass fills the old buffer.
    constructor (first: seq<WriteOp>)
      ensures Valid() && fresh(oldStat) && fresh(newStat)
      ensures Contents() == View(Apply(map[], first), map[])
    {
      oldStat := new PgStat();
      newStat := new PgStat();
      new;
      oldStat.Read(first);
    }

    // One pass of the loop. The buffers are swapped, not copied: the next pass writes over what this
    // one compared with.
    method Collect(p: Pass) returns (m: seq<Sent>)
      requires Valid()
      modifies this, newStat
      ensures Valid() && {oldStat, newStat} == old({oldStat, newStat})
      ensures Contents() == After(old(Contents()), p)
      ensures if p.ok then SendsAll(m, Apply(old(newStat.metrics), p.writes), old(oldStat.metrics)) else m == []
    {
      m := [];
      newStat.Read(p.writes);
      if !p.ok {
        return;
      }
      m := SendStats(newStat.metrics, oldStat.metrics);
      var temp := newStat;
      newStat := oldStat;
      oldStat := temp;
    }
  }

  /** The last value a list of writes gives to k. */
  function Reading(ws: seq<WriteOp>, k: string): Option<PgValue> {
    if ws == [] then None
    else if ws[|ws| - 1].key == k then Some(ws[|ws| - 1].value)
    else Reading(ws[..|ws| - 1], k)
  }

  // It is that of the last write to k.
  lemma {:induction false} ReadingExact(ws: seq<WriteOp>, k: string, v: PgValue)
    ensures Reading(ws, k) == Some(v)
            <==> exists i :: 0 <= i < |ws| && ws[i] == WriteOp(k, v) && forall j :: i < j < |ws| ==> ws[j].key != k
  {
    if ws != [] && ws[|ws| - 1].key != k {
      var n := |ws| - 1;
      ReadingExact(ws[..n], k, v);
      assert forall i :: 0 <= i < n ==> ws[..n][i] == ws[i];
    }
  }

  lemma {:induction false} ApplyReads(m: Metrics, ws: seq<WriteOp>, k: string)
    ensures Reading(ws, k).Some? ==> k in Apply(m, ws) && Apply(m, ws)[k] == Reading(ws, k).value
    ensures Reading(ws, k).None? ==> (k in Apply(m, ws) <==> k in m) && (k in m ==> Apply(m, ws)[k] == m[k])
    decreases |ws|
  {
    if ws != [] {
      ApplyReads(m, ws[..|ws| - 1], k);
    }
  }

  /** What is sent for k. */
  function Of(m: seq<Sent>, k: string): seq<Sent> {
    if m == [] then [] else Of(m[..|m| - 1], k) + if m[|m| - 1].key == k then [m[|m| - 1]] else []
  }

  lemma {:induction false} OfSum(m: seq<Sent>, n: seq<Sent>, k: string)
    ensures Of(m + n, k) == Of(m, k) + Of(n, k)
    decreases |n|
  {
    if n == [] {
      assert m + n == m;
    } else {
      assert (m + n)[..|m + n| - 1] == m + n[..|n| - 1];
      OfSum(m, n[..|n| - 1], k);
    }
  }

  lemma EmitOf(newer: Metrics, older: Metrics, l: string, k: string)
    requires l in newer
    ensures Of(Emit(newer, older, l), k) == if l == k then Emit(newer, older, l) else []
  {
    var m := Emit(newer, older, l);
    if m != [] {
      assert m[..0] == [];
    }
  }

  lemma {:induction false} EmitAllOf(newer: Metrics, older: Metrics, order: seq<string>, k: string)
    requires forall i :: 0 <= i < |order| ==> order[i] in newer
    requires forall i, j :: 0 <= i < j < |order| ==> order[i] != order[j]
    ensures Of(EmitAll(newer, older, order), k) == if k in order then Emit(newer, older, k) else []
    decreases |order|
  {
    if order != [] {
      var n := |order| - 1;
      EmitAllOf(newer, older, order[..n], k);
      OfSum(EmitAll(newer, older, order[..n]), Emit(newer, older, order[n]), k);
      EmitOf(newer, older, order[n], k);
    }
  }

  // What a pass sends, key by key: a gauge as it is shown, a counter that both buffers hold and that has not
  // dropped as its growth over the time between, and nothing else.
  lemma SendsExact(m: seq<Sent>, newer: Metrics, older: Metrics, k: string)
    requires SendsAll(m, newer, older)
    ensures Of(m, k) == if k !in newer then []
                        else if newer[k].isGauge then [Gauge(k, newer[k].shown)]
                        else if k in older && older[k].count <= newer[k].count
                        then [Rate(k, newer[k].count - older[k].count, newer[k].ts - older[k].ts)] else []
  {
    SendsEmitted(m, newer, older, k);
  }

  lemma SendsEmitted(m: seq<Sent>, newer: Metrics, older: Metrics, k: string)
    requires SendsAll(m, newer, older)
    ensures Of(m, k) == if k in newer then Emit(newer, older, k) else []
  {
    var order: seq<string> :| Enumerates(order, newer.Keys) && m == EmitAll(newer, older, order);
    EmitAllOf(newer, older, order, k);
  }
}
