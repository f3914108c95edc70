/** What is sent for a window: the metrics of its entries, under which names, with which values and times. */
module WebReport {
  import opened Words
  import opened Orders
  import opened WebRecords
  import opened WebBatches
  import opened WebMerge

  datatype Metric = Metric(name: string, value: real, ts: int)

  function Rate(name: string, ts: int, value: nat, interval: real): Metric
    requires interval > 0.0
  {
    Metric(name, value as real / interval, ts)
  }

  function Latency(name: string, ts: int, value: nat, reqs: nat): Metric
    requires reqs > 0
  {
    Metric(name, value as real / reqs as real, ts)
  }

  ghost predicate Reportable(b: Batch) {
    HasRatios(b) && forall p :: p in b.web ==> b.web[p].req > 0
  }

  /** The metrics of one entry, with the upstream ones when they are configured. */
  function MetricsOf(b: Batch, p: string, url: string, interval: real, upstream: bool): seq<Metric>
    requires Reportable(b) && p in b.web && interval > 0.0
  {
    var v := b.web[p];
    var name := url + v.prefix;
    [Rate(name + ".req", v.ts, v.req, interval),
     Metric(name + ".ratio", v.req as real / b.req[v.shortPrefix] as real, v.ts),
     Rate(name + ".bytes_in", v.ts, v.totals.ioRx, interval),
     Rate(name + ".bytes_out", v.ts, v.totals.ioTx, interval),
     Latency(name + ".rt", v.ts, v.totals.time, v.req)]
    + if !upstream then []
      else
        [Latency(name + ".upstream_rt", v.ts, v.totals.response, v.req),
         Latency(name + ".upstream_connect", v.ts, v.totals.connect, v.req),
         Latency(name + ".upstream_headers", v.ts, v.totals.headers, v.req),
         Latency(name + ".proxy_latency", v.ts, Minus(v.totals.time, v.totals.response), v.req)]
  }

  // What the numbers of an entry mean: a rate times the interval is the total, the ratio and the means
  // are those of WebMerge, and the proxy latency is the difference of two means exactly when the upstream
  // time is not the larger one.
  lemma EntryMetrics(b: Batch, p: string, url: string, interval: real, upstream: bool)
    requires Reportable(b) && p in b.web && interval > 0.0
    ensures var m, v := MetricsOf(b, p, url, interval, upstream), b.web[p];
            |m| == (if upstream then 9 else 5)
            && m[0].value * interval == v.req as real && m[1].value == Ratio(b, p)
            && m[2].value * interval == v.totals.ioRx as real && m[3].value * interval == v.totals.ioTx as real
            && m[4].value == Mean(v, Time)
            && (upstream ==> m[5].value == Mean(v, Response) && m[6].value == Mean(v, Connect)
                             && m[7].value == Mean(v, Headers)
                             && (m[8].value == m[4].value - m[5].value <==> v.totals.response <= v.totals.time))
  {
    var v := b.web[p];
    RateTimes(v.req, interval);
    RateTimes(v.totals.ioRx, interval);
    RateTimes(v.totals.ioTx, interval);
    ProxyLatencyExact(v);
  }

  lemma RateTimes(n: nat, interval: real)
    requires interval > 0.0
    ensures n as real / interval * interval == n as real
  {
  }

  ghost function AllMetrics(b: Batch, order: seq<string>, url: string, interval: real, upstream: bool): seq<Metric>
    requires Reportable(b) && interval > 0.0 && forall i :: 0 <= i < |order| ==> order[i] in b.web
  {
    if order == [] then []
    else AllMetrics(b, order[..|order| - 1], url, interval, upstream)
         + MetricsOf(b, Last(order), url, interval, upstream)
  }

  /** m has the metrics of every entry of b once, in some order. */
  ghost predicate Reports(m: seq<Metric>, b: Batch, url: string, interval: real, upstream: bool) {
    Reportable(b) && interval > 0.0
    && exists order: seq<string> :: Enumerates(order, b.web.Keys) && m == AllMetrics(b, order, url, interval, upstream)
  }

  lemma AllMetricsOneMore(b: Batch, order: seq<string>, k: string, url: string, interval: real, upstream: bool)
    requires Reportable(b) && interval > 0.0 && k in b.web && forall i :: 0 <= i < |order| ==> order[i] in b.web
    ensures AllMetrics(b, order + [k], url, interval, upstream)
            == AllMetrics(b, order, url, interval, upstream) + MetricsOf(b, k, url, interval, upstream)
  {
    assert (order + [k])[..|order|] == order;
  }

  /** m has the metrics of the entries in seen, in this order. */
  ghost predicate ReportsSome(m: seq<Metric>, b: Batch, order: seq<string>, seen: set<string>, url: string,
                              interval: real, upstream: bool) {
    Reportable(b) && interval > 0.0 && seen <= b.web.Keys && Enumerates(order, seen)
    && m == AllMetrics(b, order, url, interval, upstream)
  }

  lemma ReportsOneMore(m: seq<Metric>, b: Batch, order: seq<string>, seen: set<string>, k: string, url: string,
                       interval: real, upstream: bool)
    requires ReportsSome(m, b, order, seen, url, interval, upstream) && k in b.web && k !in seen
    ensures ReportsSome(m + MetricsOf(b, k, url, interval, upstream), b, order + [k], seen + {k}, url, interval,
                        upstream)
  {
    AllMetricsOneMore(b, order, k, url, interval, upstream);
    EnumeratesOneMore(order, seen, k);
  }

  lemma WindowIsReportable(rs: Records)
    ensures Reportable(BatchOf(rs))
  {
    RatiosDefined(rs);
    forall p | p in Prefixes(rs)
      ensures BatchOf(rs).web[p].req > 0
    {
      PositiveCount(rs, p);
    }
  }

  // Go visits the map in an arbitrary order.
  method ReportAll(b: Batch, url: string, interval: real, upstream: bool) returns (m: seq<Metric>)
    requires Reportable(b) && interval > 0.0
    ensures Reports(m, b, url, interval, upstream)
  {
    m := [];
    var rest := b.web.Keys;
    ghost var order: seq<string>, seen: set<string> := [], {};
    while rest != {}
      invariant rest + seen == b.web.Keys && rest !! seen
      invariant ReportsSome(m, b, order, seen, url, interval, upstream)
    {
      var k :| k in rest;
      ReportsOneMore(m, b, order, seen, k, url, interval, upstream);
      m := m + MetricsOf(b, k, url, interval, upstream);
      order, seen, rest := order + [k], seen + {k}, rest - {k};
    }
    assert seen == b.web.Keys;
  }

  /** The last parts of the names. */
  ghost function Endings(upstream: bool): set<string> {
    {".req", ".ratio", ".bytes_in", ".bytes_out", ".rt"}
    + if upstream then {".upstream_rt", ".upstream_connect", ".upstream_headers", ".proxy_latency"} else {}
  }

  /** The two characters before the last tell the endings apart. */
  ghost function EndingOf(a: char, b: char): string {
    match b
    case 'e' => ".req"
    case 'u' => ".bytes_out"
    case 'i' => if a == 't' then ".ratio" else ".bytes_in"
    case 'r' => if a == '.' then ".rt" else if a == '_' then ".upstream_rt" else ".upstream_headers"
    case _ => if a == 'e' then ".upstream_connect" else ".proxy_latency"
  }

  lemma EndingKnown(e: string)
    requires e in Endings(true)
    ensures |e| >= 3 && EndingOf(e[|e| - 3], e[|e| - 2]) == e
  {
  }

  // A name tells its ending and what is before it.
  lemma NamesDiffer(base: string, e: string, other: string, f: string)
    requires e in Endings(true) && f in Endings(true) && base + e == other + f
    ensures base == other && e == f
  {
    EndingKnown(e);
    EndingKnown(f);
    var s, n := base + e, |base + e|;
    assert s[n - 3] == e[|e| - 3] == f[|f| - 3] && s[n - 2] == e[|e| - 2] == f[|f| - 2];
    assert base == (base + e)[..|base + e| - |e|] == other;
  }

  /** The only metric of this name is this one. */
  ghost predicate Sole(m: seq<Metric>, x: Metric) {
    exists i :: 0 <= i < |m| && m[i] == x && forall j :: 0 <= j < |m| && m[j].name == x.name ==> j == i
  }

  ghost predicate NotNamed(m: seq<Metric>, name: string) {
    forall i :: 0 <= i < |m| ==> m[i].name != name
  }

  lemma SoleBefore(m: seq<Metric>, x: Metric, more: seq<Metric>)
    requires Sole(m, x) && NotNamed(more, x.name)
    ensures Sole(m + more, x)
  {
    var i :| 0 <= i < |m| && m[i] == x && forall j :: 0 <= j < |m| && m[j].name == x.name ==> j == i;
    assert (m + more)[i] == x;
  }

  lemma SoleAfter(m: seq<Metric>, x: Metric, more: seq<Metric>)
    requires NotNamed(m, x.name) && Sole(more, x)
    ensures Sole(m + more, x)
  {
    var i :| 0 <= i < |more| && more[i] == x && forall j :: 0 <= j < |more| && more[j].name == x.name ==> j == i;
    assert (m + more)[|m| + i] == x;
  }

  /** Every name is made from one of these entries. */
  ghost predicate NamedAfter(m: seq<Metric>, ps: set<string>, url: string, upstream: bool) {
    forall i :: 0 <= i < |m| ==> IsNameOf(m[i].name, ps, url, upstream)
  }

  ghost predicate IsNameOf(name: string, ps: set<string>, url: string, upstream: bool) {
    exists p, e :: p in ps && e in Endings(upstream) && name == url + p + e
  }

  /** All of these are sent once. */
  ghost predicate AllSole(m: seq<Metric>, xs: seq<Metric>) {
    forall i :: 0 <= i < |xs| ==> Sole(m, xs[i])
  }

  lemma EntryNames(b: Batch, p: string, url: string, interval: real, upstream: bool)
    requires Reportable(b) && p in b.web && interval > 0.0 && b.web[p].prefix == p
    ensures var x := MetricsOf(b, p, url, interval, upstream);
            NamedAfter(x, {p}, url, upstream) && forall i, j :: 0 <= i < j < |x| ==> x[i].name != x[j].name
  {
    var x, base := MetricsOf(b, p, url, interval, upstream), url + p;
    var es := [".req", ".ratio", ".bytes_in", ".bytes_out", ".rt", ".upstream_rt", ".upstream_connect",
               ".upstream_headers", ".proxy_latency"];
    forall i | 0 <= i < |x|
      ensures x[i].name == base + es[i] && es[i] in Endings(upstream)
    {
    }
    forall i, j | 0 <= i < j < |x|
      ensures x[i].name != x[j].name
    {
      if x[i].name == x[j].name {
        NamesDiffer(base, es[i], base, es[j]);
      }
    }
  }

  lemma EntrySole(b: Batch, p: string, url: string, interval: real, upstream: bool)
    requires Reportable(b) && p in b.web && interval > 0.0 && b.web[p].prefix == p
    ensures var x := MetricsOf(b, p, url, interval, upstream);
            AllSole(x, x)
  {
    EntryNames(b, p, url, interval, upstream);
  }

  lemma SameAfter(url: string, p: string, k: string)
    ensures url + p == url + k ==> p == k
  {
    assert p == (url + p)[|url|..] && k == (url + k)[|url|..];
  }

  lemma OtherEntry(m: seq<Metric>, ps: set<string>, k: string, name: string, url: string, upstream: bool)
    requires NamedAfter(m, ps, url, upstream) && k !in ps && IsNameOf(name, {k}, url, upstream)
    ensures NotNamed(m, name)
  {
    forall i | 0 <= i < |m|
      ensures m[i].name != name
    {
      if m[i].name == name {
        assert IsNameOf(m[i].name, ps, url, upstream);
        var p, e :| p in ps && e in Endings(upstream) && m[i].name == url + p + e;
        var f :| f in Endings(upstream) && name == url + k + f;
        NamesDiffer(url + p, e, url + k, f);
        SameAfter(url, p, k);
      }
    }
  }

  // Metrics of an entry more leave those before sent once, and are sent once themselves.
  lemma AllSoleBefore(m: seq<Metric>, xs: seq<Metric>, p: string, more: seq<Metric>, k: string, url: string,
                      upstream: bool)
    requires AllSole(m, xs) && NamedAfter(xs, {p}, url, upstream) && NamedAfter(more, {k}, url, upstream) && p != k
    ensures AllSole(m + more, xs)
  {
    forall i | 0 <= i < |xs|
      ensures Sole(m + more, xs[i])
    {
      assert IsNameOf(xs[i].name, {p}, url, upstream);
      OtherEntry(more, {k}, p, xs[i].name, url, upstream);
      SoleBefore(m, xs[i], more);
    }
  }

  lemma AllSoleAfter(m: seq<Metric>, ps: set<string>, more: seq<Metric>, k: string, url: string, upstream: bool)
    requires NamedAfter(m, ps, url, upstream) && k !in ps && NamedAfter(more, {k}, url, upstream) && AllSole(more, more)
    ensures AllSole(m + more, more)
  {
    forall i | 0 <= i < |more|
      ensures Sole(m + more, more[i])
    {
      assert IsNameOf(more[i].name, {k}, url, upstream);
      OtherEntry(m, ps, k, more[i].name, url, upstream);
      SoleAfter(m, more[i], more);
    }
  }

  ghost predicate OwnPrefixes(b: Batch) {
    forall p :: p in b.web ==> b.web[p].prefix == p
  }

  /** Every metric of the entries in ps is in m once, and m has no other. */
  ghost predicate HoldsJust(m: seq<Metric>, b: Batch, ps: set<string>, url: string, interval: real, upstream: bool) {
    Reportable(b) && interval > 0.0 && ps <= b.web.Keys && NamedAfter(m, ps, url, upstream)
    && forall p :: p in ps ==> AllSole(m, MetricsOf(b, p, url, interval, upstream))
  }

  lemma HoldsOneMore(m: seq<Metric>, b: Batch, ps: set<string>, k: string, url: string, interval: real,
                     upstream: bool)
    requires HoldsJust(m, b, ps, url, interval, upstream) && OwnPrefixes(b) && k in b.web && k !in ps
    ensures HoldsJust(m + MetricsOf(b, k, url, interval, upstream), b, ps + {k}, url, interval, upstream)
  {
    var more := MetricsOf(b, k, url, interval, upstream);
    EntryNames(b, k, url, interval, upstream);
    NamedMore(m, ps, more, k, url, upstream);
    forall p | p in ps + {k}
      ensures AllSole(m + more, MetricsOf(b, p, url, interval, upstream))
    {
      if p == k {
        EntrySole(b, k, url, interval, upstream);
        AllSoleAfter(m, ps, more, k, url, upstream);
      } else {
        EntryNames(b, p, url, interval, upstream);
        AllSoleBefore(m, MetricsOf(b, p, url, interval, upstream), p, more, k, url, upstream);
      }
    }
  }

  lemma NamedMore(m: seq<Metric>, ps: set<string>, more: seq<Metric>, k: string, url: string, upstream: bool)
    requires NamedAfter(m, ps, url, upstream) && NamedAfter(more, {k}, url, upstream)
    ensures NamedAfter(m + more, ps + {k}, url, upstream)
  {
    forall i | 0 <= i < |m + more|
      ensures IsNameOf((m + more)[i].name, ps + {k}, url, upstream)
    {
      if i < |m| {
        assert IsNameOf(m[i].name, ps, url, upstream);
      } else {
        assert IsNameOf(more[i - |m|].name, {k}, url, upstream);
      }
    }
  }

  lemma {:induction false} AllMetricsHold(b: Batch, order: seq<string>, ps: set<string>, url: string, interval: real,
                                          upstream: bool)
    requires Reportable(b) && interval > 0.0 && OwnPrefixes(b) && ps <= b.web.Keys && Enumerates(order, ps)
    ensures HoldsJust(AllMetrics(b, order, url, interval, upstream), b, ps, url, interval, upstream)
    decreases |order|
  {
    if order == [] {
      assert ps == {};
    } else {
      var k, rest := Last(order), order[..|order| - 1];
      assert Enumerates(rest, ps - {k}) by {
        assert forall p :: p in ps - {k} ==> p in rest;
      }
      AllMetricsHold(b, rest, ps - {k}, url, interval, upstream);
      HoldsOneMore(AllMetrics(b, rest, url, interval, upstream), b, ps - {k}, k, url, interval, upstream);
      assert ps - {k} + {k} == ps;
    }
  }

  /** The f-th record is the first of its prefix. */
  ghost predicate IsFirst(rs: Records, f: nat) {
    f < |rs| && forall j :: 0 <= j < f ==> rs[j].prefix != rs[f].prefix
  }

  /** What is said of a group of n requests, out of short with its short prefix, with totals t. */
  ghost function Said(name: string, ts: int, n: nat, short: nat, t: Totals, proxy: U64, interval: real, upstream: bool)
    : seq<Metric>
    requires interval > 0.0 && n > 0 && short > 0
  {
    [Metric(name + ".req", n as real / interval, ts),
     Metric(name + ".ratio", n as real / short as real, ts),
     Metric(name + ".bytes_in", t.ioRx as real / interval, ts),
     Metric(name + ".bytes_out", t.ioTx as real / interval, ts),
     Metric(name + ".rt", t.time as real / n as real, ts)]
    + if !upstream then []
      else
        [Metric(name + ".upstream_rt", t.response as real / n as real, ts),
         Metric(name + ".upstream_connect", t.connect as real / n as real, ts),
         Metric(name + ".upstream_headers", t.headers as real / n as real, ts),
         Metric(name + ".proxy_latency", proxy as real / n as real, ts)]
  }

  /** The integer sums of a group modulo 2^64. */
  ghost function ModTotals(rs: Records, p: string): Totals {
    Totals(Mod64(TrueTotal(rs, p, IoRx)), Mod64(TrueTotal(rs, p, IoTx)), Mod64(TrueTotal(rs, p, Connect)),
           Mod64(TrueTotal(rs, p, Headers)), Mod64(TrueTotal(rs, p, Response)), Mod64(TrueTotal(rs, p, Time)))
  }

  /** What is said of the group that starts with the f-th record, each metric once. */
  ghost predicate SaysGroup(m: seq<Metric>, rs: Records, f: nat, url: string, interval: real, upstream: bool)
    requires f < |rs| && interval > 0.0
  {
    var p := rs[f].prefix;
    var n, short := CountIn(rs, {p}), CountShort(rs, rs[f].shortPrefix);
    n > 0 && short > 0
    && AllSole(m, Said(url + p, rs[f].ts, n, short, ModTotals(rs, p),
                       Mod64(TrueTotal(rs, p, Time) - TrueTotal(rs, p, Response)), interval, upstream))
  }

  /** All that is sent for a window: these metrics of each group, each once, and no other. */
  ghost predicate SaysWindow(m: seq<Metric>, rs: Records, url: string, interval: real, upstream: bool) {
    interval > 0.0
    && (forall f: nat :: IsFirst(rs, f) ==> SaysGroup(m, rs, f, url, interval, upstream))
    && NamedAfter(m, Prefixes(rs), url, upstream)
  }

  lemma {:induction false} FirstAt(rs: Records, f: nat)
    requires IsFirst(rs, f)
    ensures rs[f].prefix in Prefixes(rs) && First(rs, rs[f].prefix) == rs[f]
  {
    if f > 0 {
      assert forall j :: 0 <= j < f - 1 ==> rs[1..][j] == rs[j + 1];
      FirstAt(rs[1..], f - 1);
    }
  }

  lemma MinusOfMods(a: nat, b: nat)
    ensures Minus(Mod64(a), Mod64(b)) == Mod64(a - b)
  {
    WrapIsModular(Mod64(a), Mod64(b));
    var d := Mod64(a) - Mod64(b);
    ModUnique(a - b, a / 0x1_0000_0000_0000_0000 - b / 0x1_0000_0000_0000_0000 + d / 0x1_0000_0000_0000_0000, Mod64(d));
  }

  lemma SumsAreModular(rs: Records, p: string)
    ensures SumTotals(rs, p) == ModTotals(rs, p)
  {
    TotalIsModular(rs, p, IoRx);
    TotalIsModular(rs, p, IoTx);
    TotalIsModular(rs, p, Connect);
    TotalIsModular(rs, p, Headers);
    TotalIsModular(rs, p, Response);
    TotalIsModular(rs, p, Time);
  }

  lemma GroupTotals(rs: Records, f: nat)
    requires IsFirst(rs, f)
    ensures var p := rs[f].prefix;
            p in Prefixes(rs)
            && BatchOf(rs).web[p] == rs[f].(req := CountIn(rs, {p}), totals := ModTotals(rs, p))
            && Minus(ModTotals(rs, p).time, ModTotals(rs, p).response)
               == Mod64(TrueTotal(rs, p, Time) - TrueTotal(rs, p, Response))
  {
    FirstAt(rs, f);
    var p := rs[f].prefix;
    SumsAreModular(rs, p);
    MinusOfMods(TrueTotal(rs, p, Time), TrueTotal(rs, p, Response));
  }

  lemma EntrySaid(b: Batch, p: string, url: string, interval: real, upstream: bool)
    requires Reportable(b) && p in b.web && interval > 0.0 && b.web[p].prefix == p
    ensures var v := b.web[p];
            MetricsOf(b, p, url, interval, upstream)
            == Said(url + p, v.ts, v.req, b.req[v.shortPrefix], v.totals, Minus(v.totals.time, v.totals.response),
                    interval, upstream)
  {
  }

  lemma GroupSaid(m: seq<Metric>, rs: Records, f: nat, url: string, interval: real, upstream: bool)
    requires IsFirst(rs, f) && HoldsJust(m, BatchOf(rs), Prefixes(rs), url, interval, upstream)
    ensures SaysGroup(m, rs, f, url, interval, upstream)
  {
    var b, p := BatchOf(rs), rs[f].prefix;
    GroupTotals(rs, f);
    EntrySaid(b, p, url, interval, upstream);
    assert AllSole(m, MetricsOf(b, p, url, interval, upstream));
  }

  // A report of a window says just that of it.
  lemma ReportSays(m: seq<Metric>, rs: Records, url: string, interval: real, upstream: bool)
    requires Reports(m, BatchOf(rs), url, interval, upstream)
    ensures SaysWindow(m, rs, url, interval, upstream)
  {
    var b := BatchOf(rs);
    var order: seq<string> :| Enumerates(order, b.web.Keys) && m == AllMetrics(b, order, url, interval, upstream);
    AllMetricsHold(b, order, b.web.Keys, url, interval, upstream);
    forall f: nat | IsFirst(rs, f)
      ensures SaysGroup(m, rs, f, url, interval, upstream)
    {
      GroupSaid(m, rs, f, url, interval, upstream);
    }
  }
}
