/** The two maps of a window: one merged record a prefix, and the request count a short prefix. */
module WebMerge {
  import opened Words
  import opened WebRecords
  import opened WebBatches

  datatype Batch = Batch(web: map<string, ReqStat>, req: map<string, nat>)

  function Prefixes(rs: Records): set<string> {
    set i | 0 <= i < |rs| :: rs[i].prefix
  }

  function ShortPrefixes(rs: Records): set<string> {
    set i | 0 <= i < |rs| :: rs[i].shortPrefix
  }

  /** The first record with prefix p. */
  function First(rs: Records, p: string): (r: ReqStat)
    requires p in Prefixes(rs)
    ensures r in rs && r.prefix == p
  {
    if rs[0].prefix == p then rs[0]
    else
      assert forall i :: 0 < i < |rs| ==> rs[1..][i - 1] == rs[i];
      First(rs[1..], p)
  }

  /** How many records have a prefix in ps. */
  function CountIn(rs: Records, ps: set<string>): nat {
    if rs == [] then 0 else CountIn(rs[..|rs| - 1], ps) + if Last(rs).prefix in ps then 1 else 0
  }

  function CountShort(rs: Records, s: string): nat {
    if rs == [] then 0 else CountShort(rs[..|rs| - 1], s) + if Last(rs).shortPrefix == s then 1 else 0
  }

  function SumTotals(rs: Records, p: string): Totals {
    if rs == [] then NO_TOTALS
    else
      var t := SumTotals(rs[..|rs| - 1], p);
      if Last(rs).prefix == p then AddTotals(t, Last(rs).totals) else t
  }

  function Merged(rs: Records, p: string): ReqStat
    requires p in Prefixes(rs)
  {
    First(rs, p).(req := CountIn(rs, {p}), totals := SumTotals(rs, p))
  }

  function BatchOf(rs: Records): Batch {
    Batch(map p | p in Prefixes(rs) :: Merged(rs, p), map s | s in ShortPrefixes(rs) :: CountShort(rs, s))
  }

  ghost predicate AllWellFormed(rs: Records) {
    forall i :: 0 <= i < |rs| ==> WellFormed(rs[i])
  }

  lemma SetsOneMore(rs: Records, w: ReqStat)
    ensures Prefixes(rs + [w]) == Prefixes(rs) + {w.prefix}
    ensures ShortPrefixes(rs + [w]) == ShortPrefixes(rs) + {w.shortPrefix}
  {
    var all := rs + [w];
    assert all[|rs|] == w && forall i :: 0 <= i < |rs| ==> all[i] == rs[i];
  }

  lemma {:induction false} FirstOneMore(rs: Records, w: ReqStat, p: string)
    requires p in Prefixes(rs + [w])
    ensures First(rs + [w], p) == if p in Prefixes(rs) then First(rs, p) else w
    decreases |rs|
  {
    SetsOneMore(rs, w);
    if rs != [] && rs[0].prefix != p {
      assert (rs + [w])[1..] == rs[1..] + [w];
      assert rs == [rs[0]] + rs[1..];
      assert Prefixes(rs) == {rs[0].prefix} + Prefixes(rs[1..]) by {
        assert forall i :: 0 < i < |rs| ==> rs[1..][i - 1] == rs[i];
      }
      SetsOneMore(rs[1..], w);
      FirstOneMore(rs[1..], w, p);
    }
  }

  lemma {:induction false} NoneOfPrefix(rs: Records, p: string)
    requires p !in Prefixes(rs)
    ensures CountIn(rs, {p}) == 0 && SumTotals(rs, p) == NO_TOTALS
  {
    if rs != [] {
      assert rs == rs[..|rs| - 1] + [Last(rs)];
      SetsOneMore(rs[..|rs| - 1], Last(rs));
      NoneOfPrefix(rs[..|rs| - 1], p);
    }
  }

  lemma {:induction false} NoneOfShort(rs: Records, s: string)
    ensures s in ShortPrefixes(rs) <==> CountShort(rs, s) > 0
  {
    if rs != [] {
      assert rs == rs[..|rs| - 1] + [Last(rs)];
      SetsOneMore(rs[..|rs| - 1], Last(rs));
      NoneOfShort(rs[..|rs| - 1], s);
    }
  }

  lemma SumsOneMore(rs: Records, w: ReqStat, p: string, ps: set<string>, s: string)
    ensures CountIn(rs + [w], ps) == CountIn(rs, ps) + if w.prefix in ps then 1 else 0
    ensures CountShort(rs + [w], s) == CountShort(rs, s) + if w.shortPrefix == s then 1 else 0
    ensures SumTotals(rs + [w], p)
            == if w.prefix == p then AddTotals(SumTotals(rs, p), w.totals) else SumTotals(rs, p)
  {
    assert (rs + [w])[..|rs|] == rs;
  }

  /** The update of the two maps for one more record of the window, as the loop does it. */
  function Accumulate(b: Batch, w: ReqStat): Batch {
    if w.prefix in b.web then
      var o := b.web[w.prefix];
      var sum := o.(req := o.req + 1, totals := AddTotals(o.totals, w.totals));
      Batch(b.web[sum.prefix := sum], Increment(b.req, sum.shortPrefix))
    else
      Batch(b.web[w.prefix := w], Increment(b.req, w.shortPrefix))
  }

  /** m[k]++ on a Go map: a missing key counts as 0. */
  function Increment(m: map<string, nat>, k: string): map<string, nat> {
    m[k := (if k in m then m[k] else 0) + 1]
  }

  lemma MergedOneMore(rs: Records, w: ReqStat, p: string)
    requires AllWellFormed(rs + [w]) && p in Prefixes(rs + [w])
    ensures Merged(rs + [w], p)
            == if p != w.prefix then Merged(rs, p)
               else if p !in Prefixes(rs) then w
               else Merged(rs, p).(req := Merged(rs, p).req + 1, totals := AddTotals(Merged(rs, p).totals, w.totals))
  {
    SetsOneMore(rs, w);
    FirstOneMore(rs, w, p);
    SumsOneMore(rs, w, p, {p}, "");
    assert (rs + [w])[|rs|] == w;
    if p !in Prefixes(rs) {
      NoneOfPrefix(rs, p);
    }
  }

  lemma WebAt(rs: Records, w: ReqStat, p: string)
    requires AllWellFormed(rs + [w]) && p in Prefixes(rs + [w])
    ensures p in Accumulate(BatchOf(rs), w).web && Accumulate(BatchOf(rs), w).web[p] == Merged(rs + [w], p)
  {
    SetsOneMore(rs, w);
    MergedOneMore(rs, w, p);
    if w.prefix in Prefixes(rs) {
      assert Merged(rs, w.prefix).prefix == w.prefix;
    }
  }

  lemma WebKeys(rs: Records, w: ReqStat)
    ensures Accumulate(BatchOf(rs), w).web.Keys == Prefixes(rs + [w])
  {
    SetsOneMore(rs, w);
    if w.prefix in Prefixes(rs) {
      assert Merged(rs, w.prefix).prefix == w.prefix;
    }
  }

  lemma WebOneMore(rs: Records, w: ReqStat)
    requires AllWellFormed(rs + [w])
    ensures BatchOf(rs + [w]).web == Accumulate(BatchOf(rs), w).web
  {
    var n := Accumulate(BatchOf(rs), w).web;
    WebKeys(rs, w);
    forall p | p in Prefixes(rs + [w])
      ensures n[p] == Merged(rs + [w], p)
    {
      WebAt(rs, w, p);
    }
    MapIsBatch(rs + [w], n);
  }

  lemma MapIsBatch(rs: Records, n: map<string, ReqStat>)
    requires n.Keys == Prefixes(rs) && forall p :: p in Prefixes(rs) ==> n[p] == Merged(rs, p)
    ensures n == BatchOf(rs).web
  {
  }

  lemma ReqOneMore(rs: Records, w: ReqStat)
    requires AllWellFormed(rs + [w])
    ensures BatchOf(rs + [w]).req == Increment(BatchOf(rs).req, w.shortPrefix)
  {
    var m, n := BatchOf(rs + [w]).req, Increment(BatchOf(rs).req, w.shortPrefix);
    SetsOneMore(rs, w);
    assert m.Keys == n.Keys;
    forall s | s in m
      ensures m[s] == n[s]
    {
      SumsOneMore(rs, w, "", {}, s);
      NoneOfShort(rs, s);
    }
  }

  // Folding a record into the maps of a window gives the maps of the longer window.
  lemma BatchOneMore(rs: Records, w: ReqStat)
    requires AllWellFormed(rs + [w])
    ensures BatchOf(rs + [w]) == Accumulate(BatchOf(rs), w)
  {
    WebOneMore(rs, w);
    ReqOneMore(rs, w);
    SameShort(rs, w);
  }

  // The loop counts under the short prefix of the entry it found, which is the record's own.
  lemma SameShort(rs: Records, w: ReqStat)
    requires AllWellFormed(rs + [w])
    ensures w.prefix in Prefixes(rs) ==> First(rs, w.prefix).shortPrefix == w.shortPrefix
  {
    assert (rs + [w])[|rs|] == w && forall i :: 0 <= i < |rs| ==> (rs + [w])[i] == rs[i];
    if w.prefix in Prefixes(rs) {
      PrefixDetermines(First(rs, w.prefix), w);
    }
  }

  /** The sum of req over the entries with keys in ps. */
  ghost function ReqSum(web: map<string, ReqStat>, ps: set<string>): nat
    requires ps <= web.Keys
  {
    if ps == {} then 0
    else
      var p :| p in ps;
      web[p].req + ReqSum(web, ps - {p})
  }

  lemma {:induction false} CountSplits(rs: Records, ps: set<string>, p: string)
    requires p in ps
    ensures CountIn(rs, ps) == CountIn(rs, {p}) + CountIn(rs, ps - {p})
  {
    if rs != [] {
      CountSplits(rs[..|rs| - 1], ps, p);
    }
  }

  lemma {:induction false} CountNone(rs: Records)
    ensures CountIn(rs, {}) == 0
  {
    if rs != [] {
      CountNone(rs[..|rs| - 1]);
    }
  }

  lemma {:induction false} ReqSumCounts(rs: Records, ps: set<string>)
    requires ps <= Prefixes(rs)
    ensures ReqSum(BatchOf(rs).web, ps) == CountIn(rs, ps)
  {
    var web := BatchOf(rs).web;
    if ps == {} {
      CountNone(rs);
    } else {
      var p :| p in ps && ReqSum(web, ps) == web[p].req + ReqSum(web, ps - {p});
      ReqSumCounts(rs, ps - {p});
      CountSplits(rs, ps, p);
    }
  }

  /** The entries that share a short prefix. */
  ghost function WithShort(rs: Records, s: string): set<string> {
    set p | p in Prefixes(rs) && First(rs, p).shortPrefix == s
  }

  lemma {:induction false} CountWithShort(all: Records, rs: Records, s: string)
    requires AllWellFormed(all) && rs <= all
    ensures CountIn(rs, WithShort(all, s)) == CountShort(rs, s)
    decreases |rs|
  {
    if rs != [] {
      CountWithShort(all, rs[..|rs| - 1], s);
      var w := all[|rs| - 1];
      assert w == Last(rs) && w in all && w.prefix in Prefixes(all);
      PrefixDetermines(First(all, w.prefix), w);
    }
  }

  lemma {:induction false} CountAll(all: Records, rs: Records)
    requires rs <= all
    ensures CountIn(rs, Prefixes(all)) == |rs|
    decreases |rs|
  {
    if rs != [] {
      CountAll(all, rs[..|rs| - 1]);
      assert Last(rs) == all[|rs| - 1];
    }
  }

  // In every window the count of a short prefix is the sum of req over the entries that share it, and
  // all entries together count every record of the window once.
  lemma TotalsAgree(rs: Records, s: string)
    requires AllWellFormed(rs)
    ensures WithShort(rs, s) <= BatchOf(rs).web.Keys
    ensures s in ShortPrefixes(rs) ==> BatchOf(rs).req[s] == ReqSum(BatchOf(rs).web, WithShort(rs, s))
    ensures ReqSum(BatchOf(rs).web, Prefixes(rs)) == |rs|
  {
    ReqSumCounts(rs, WithShort(rs, s));
    CountWithShort(rs, rs, s);
    ReqSumCounts(rs, Prefixes(rs));
    CountAll(rs, rs);
  }

  /** The share of an entry among the requests of its short prefix. */
  ghost function Ratio(b: Batch, p: string): real
    requires p in b.web && b.web[p].shortPrefix in b.req && b.req[b.web[p].shortPrefix] > 0
  {
    b.web[p].req as real / b.req[b.web[p].shortPrefix] as real
  }

  ghost predicate HasRatios(b: Batch) {
    forall p :: p in b.web ==> b.web[p].shortPrefix in b.req && b.req[b.web[p].shortPrefix] > 0
  }

  ghost function RatioSum(b: Batch, ps: set<string>): real
    requires HasRatios(b) && ps <= b.web.Keys
  {
    if ps == {} then 0.0
    else
      var p :| p in ps;
      Ratio(b, p) + RatioSum(b, ps - {p})
  }

  lemma {:induction false} RatioSumIs(b: Batch, ps: set<string>, s: string)
    requires HasRatios(b) && ps <= b.web.Keys && s in b.req && b.req[s] > 0
    requires forall p :: p in ps ==> b.web[p].shortPrefix == s
    ensures RatioSum(b, ps) == SumOver(b.web, ps, b.req[s] as real)
  {
    if ps == {} {
      var t := b.req[s] as real;
      assert 0.0 / t == 0.0;
    } else {
      var p :| p in ps && RatioSum(b, ps) == Ratio(b, p) + RatioSum(b, ps - {p});
      assert b.web[p].shortPrefix == s;
      assert Ratio(b, p) == b.web[p].req as real / b.req[s] as real;
      RatioSumIs(b, ps - {p}, s);
      SumOverPick(b.web, ps, p, b.req[s] as real);
    }
  }

  ghost function SumOver(web: map<string, ReqStat>, ps: set<string>, total: real): real
    requires ps <= web.Keys && total > 0.0
  {
    ReqSum(web, ps) as real / total
  }

  lemma {:induction false} ReqSumPick(web: map<string, ReqStat>, ps: set<string>, q: string)
    requires ps <= web.Keys && q in ps
    ensures ReqSum(web, ps) == web[q].req + ReqSum(web, ps - {q})
    decreases ps
  {
    var p :| p in ps && ReqSum(web, ps) == web[p].req + ReqSum(web, ps - {p});
    if p != q {
      ReqSumPick(web, ps - {p}, q);
      ReqSumPick(web, ps - {q}, p);
      assert ps - {p} - {q} == ps - {q} - {p};
    }
  }

  lemma SumOverPick(web: map<string, ReqStat>, ps: set<string>, q: string, total: real)
    requires ps <= web.Keys && q in ps && total > 0.0
    ensures SumOver(web, ps, total) == web[q].req as real / total + SumOver(web, ps - {q}, total)
  {
    ReqSumPick(web, ps, q);
  }

  // Every ratio has a positive denominator and is in (0, 1]; those of one short prefix sum to exactly 1.
  lemma RatiosSumToOne(rs: Records, p: string)
    requires AllWellFormed(rs) && p in Prefixes(rs)
    ensures var b := BatchOf(rs);
            HasRatios(b) && 0.0 < Ratio(b, p) <= 1.0
            && WithShort(rs, b.web[p].shortPrefix) <= b.web.Keys
            && RatioSum(b, WithShort(rs, b.web[p].shortPrefix)) == 1.0
  {
    var b := BatchOf(rs);
    var s := b.web[p].shortPrefix;
    RatiosDefined(rs);
    TotalsAgree(rs, s);
    PositiveCount(rs, p);
    ReqSumPick(b.web, WithShort(rs, s), p);
    RatioSumIs(b, WithShort(rs, s), s);
    AtMostOne(b.web[p].req, b.req[s]);
  }

  lemma AtMostOne(n: nat, t: nat)
    requires 0 < n <= t
    ensures 0.0 < n as real / t as real <= 1.0 && t as real / t as real == 1.0
  {
    assert n as real <= t as real;
  }

  lemma PositiveCount(rs: Records, p: string)
    requires p in Prefixes(rs)
    ensures BatchOf(rs).web[p].req > 0
    decreases |rs|
  {
    assert rs == rs[..|rs| - 1] + [Last(rs)];
    SetsOneMore(rs[..|rs| - 1], Last(rs));
    if Last(rs).prefix != p {
      PositiveCount(rs[..|rs| - 1], p);
    }
  }

  lemma RatiosDefined(rs: Records)
    ensures HasRatios(BatchOf(rs))
  {
    forall p | p in Prefixes(rs)
      ensures First(rs, p).shortPrefix in ShortPrefixes(rs) && CountShort(rs, First(rs, p).shortPrefix) > 0
    {
      NoneOfShort(rs, First(rs, p).shortPrefix);
    }
  }

  /** The integer sum of one field over the records with prefix p. */
  function TrueTotal(rs: Records, p: string, f: Field): nat {
    if rs == [] then 0
    else TrueTotal(rs[..|rs| - 1], p, f) + if Last(rs).prefix == p then Get(Last(rs).totals, f) else 0
  }

  lemma {:induction false} TotalIsModular(rs: Records, p: string, f: Field)
    ensures Get(SumTotals(rs, p), f) == Mod64(TrueTotal(rs, p, f))
  {
    if rs != [] {
      TotalIsModular(rs[..|rs| - 1], p, f);
      if Last(rs).prefix == p {
        AddKeepsModulus(SumTotals(rs[..|rs| - 1], p), Last(rs).totals, TrueTotal(rs[..|rs| - 1], p, f), f);
      }
    }
  }

  lemma AddKeepsModulus(a: Totals, b: Totals, n: nat, f: Field)
    requires Get(a, f) == Mod64(n)
    ensures Get(AddTotals(a, b), f) == Mod64(n + Get(b, f))
  {
    ModOfSum(Get(b, f), n);
    assert Get(AddTotals(a, b), f) == Plus(Get(b, f), Get(a, f));
  }

  lemma {:induction false} TotalBetween(rs: Records, p: string, f: Field, lo: nat, hi: nat)
    requires forall w :: w in rs && w.prefix == p ==> lo <= Get(w.totals, f) <= hi
    ensures lo * CountIn(rs, {p}) <= TrueTotal(rs, p, f) <= hi * CountIn(rs, {p})
  {
    if rs != [] {
      assert Last(rs) in rs;
      assert forall w :: w in rs[..|rs| - 1] ==> w in rs;
      TotalBetween(rs[..|rs| - 1], p, f, lo, hi);
      Times(lo, CountIn(rs[..|rs| - 1], {p}));
      Times(hi, CountIn(rs[..|rs| - 1], {p}));
    }
  }

  lemma Times(a: nat, n: nat)
    ensures a * (n + 1) == a * n + a
  {
  }

  /** The reported mean of a field. */
  ghost function Mean(v: ReqStat, f: Field): real
    requires v.req > 0
  {
    Get(v.totals, f) as real / v.req as real
  }

  // The stored total is the true one, and the mean the true mean, if and only if the true total is below 2^64.
  lemma MeanExact(rs: Records, p: string, f: Field)
    requires p in Prefixes(rs)
    ensures var v := BatchOf(rs).web[p];
            v.req > 0
            && (Mean(v, f) == TrueTotal(rs, p, f) as real / v.req as real <==> TrueTotal(rs, p, f) < TWO_TO_64)
  {
    var v, total := BatchOf(rs).web[p], TrueTotal(rs, p, f);
    PositiveCount(rs, p);
    TotalIsModular(rs, p, f);
    ModIsSame(total);
    MeanIs(v, f, total);
  }

  lemma MeanIs(v: ReqStat, f: Field, total: nat)
    requires v.req > 0
    ensures Mean(v, f) == total as real / v.req as real <==> Get(v.totals, f) == total
  {
    QuotientsDiffer(Get(v.totals, f), total, v.req);
  }

  lemma QuotientsDiffer(a: nat, b: nat, n: nat)
    requires n > 0
    ensures a as real / n as real == b as real / n as real <==> a == b
  {
    assert a as real / n as real * n as real == a as real;
    assert b as real / n as real * n as real == b as real;
  }

  // Unless the sum overflows, a mean lies between the least and the greatest value of its group.
  lemma MeanBetween(rs: Records, p: string, f: Field, lo: nat, hi: nat)
    requires p in Prefixes(rs) && TrueTotal(rs, p, f) < TWO_TO_64
    requires forall w :: w in rs && w.prefix == p ==> lo <= Get(w.totals, f) <= hi
    ensures BatchOf(rs).web[p].req > 0 && lo as real <= Mean(BatchOf(rs).web[p], f) <= hi as real
  {
    var v := BatchOf(rs).web[p];
    PositiveCount(rs, p);
    assert lo * v.req <= Get(v.totals, f) <= hi * v.req by {
      TotalIsModular(rs, p, f);
      TotalBetween(rs, p, f, lo, hi);
    }
    DivideBounds(lo, hi, v.req, Get(v.totals, f));
  }

  lemma DivideBounds(lo: nat, hi: nat, n: nat, t: nat)
    requires n > 0 && lo * n <= t <= hi * n
    ensures lo as real <= t as real / n as real <= hi as real
  {
    assert lo as real * n as real <= t as real <= hi as real * n as real;
    assert t as real / n as real * n as real == t as real;
  }

  // The proxy latency is the difference of two unsigned totals. It is the difference of the two means
  // exactly when the upstream total is not the larger one; otherwise it has wrapped.
  lemma ProxyLatencyExact(v: ReqStat)
    requires v.req > 0
    ensures Minus(v.totals.time, v.totals.response) as real / v.req as real == Mean(v, Time) - Mean(v, Response)
            <==> v.totals.response <= v.totals.time
  {
    var n, d := v.req as real, Minus(v.totals.time, v.totals.response) as real;
    var a, b := v.totals.time as real, v.totals.response as real;
    assert a / n - b / n == (a - b) / n;
    assert d / n * n == d && (a - b) / n * n == a - b;
  }
}
