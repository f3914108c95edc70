/** What the double buffer sends over whole runs of passes. */
module PostgresRuns {
  import opened Words
  import opened Wrappers
  import opened Postgres

  function Lookup(m: Metrics, k: string): Option<PgValue> {
    if k in m then Some(m[k]) else None
  }

  /** What is sent when the two buffers hold these values. */
  function Compare(k: string, older: Option<PgValue>, newer: Option<PgValue>): seq<Sent> {
    match newer
    case None => []
    case Some(v) =>
      if v.isGauge then [Gauge(k, v.shown)]
      else if older.None? || older.value.count > v.count then []
      else [Rate(k, v.count - older.value.count, v.ts - older.value.ts)]
  }

  function RunFrom(v: View, ps: seq<Pass>): View {
    if ps == [] then v else After(RunFrom(v, ps[..|ps| - 1]), ps[|ps| - 1])
  }

  /** The first pass fills the old buffer. */
  function Begin(first: seq<WriteOp>): View {
    View(Apply(map[], first), map[])
  }

  /** What the successful pass p sends for k when the buffers hold v. */
  function SentFrom(v: View, p: Pass, k: string): seq<Sent> {
    var read := Apply(v.newer, p.writes);
    if p.ok && k in read then Emit(read, v.older, k) else []
  }

  function SentFor(first: seq<WriteOp>, ps: seq<Pass>, p: Pass, k: string): seq<Sent> {
    SentFrom(RunFrom(Begin(first), ps), p, k)
  }

  lemma SentCompares(v: View, p: Pass, k: string)
    requires p.ok
    ensures SentFrom(v, p, k) == Compare(k, Lookup(v.older, k), Lookup(After(v, p).older, k))
    ensures Lookup(After(v, p).older, k)
            == if Reading(p.writes, k).Some? then Reading(p.writes, k) else Lookup(v.newer, k)
  {
    ApplyReads(v.newer, p.writes, k);
  }

  // What one more pass does to the buffers, key by key: it writes over the newer one, whether it succeeds or
  // not, and if it succeeds the two change roles.
  lemma PassExact(first: seq<WriteOp>, ps: seq<Pass>, p: Pass, k: string)
    ensures Lookup(RunFrom(Begin(first), []).older, k) == Reading(first, k)
    ensures Lookup(RunFrom(Begin(first), []).newer, k) == None
    ensures var v, u := RunFrom(Begin(first), ps), RunFrom(Begin(first), ps + [p]);
            var read := if Reading(p.writes, k).Some? then Reading(p.writes, k) else Lookup(v.newer, k);
            (Lookup(u.older, k), Lookup(u.newer, k))
            == if p.ok then (read, Lookup(v.older, k)) else (Lookup(v.older, k), read)
  {
    ApplyReads(map[], first, k);
    ApplyReads(RunFrom(Begin(first), ps).newer, p.writes, k);
    assert (ps + [p])[..|ps|] == ps;
  }

  /** Pass 0 is the first one; the reading of k that a pass made, if any. */
  function ReadingAt(first: seq<WriteOp>, ps: seq<Pass>, i: nat, k: string): Option<PgValue>
    requires i <= |ps|
  {
    if i == 0 then Reading(first, k) else Reading(ps[i - 1].writes, k)
  }

  /** The passes whose readings of k the two buffers hold. */
  datatype Sources = Sources(older: Option<nat>, newer: Option<nat>)

  function SourcesOf(first: seq<WriteOp>, ps: seq<Pass>, k: string): Sources {
    if ps == [] then Sources(if Reading(first, k).Some? then Some(0) else None, None)
    else
      var n := |ps| - 1;
      var s := SourcesOf(first, ps[..n], k);
      var read := if Reading(ps[n].writes, k).Some? then Some(n + 1) else s.newer;
      if ps[n].ok then Sources(read, s.older) else Sources(s.older, read)
  }

  /** The latest successful pass. */
  function LastOk(ps: seq<Pass>): (i: nat)
    ensures i <= |ps|
  {
    if ps == [] then 0 else if ps[|ps| - 1].ok then |ps| else LastOk(ps[..|ps| - 1])
  }

  ghost predicate Holds(m: Metrics, first: seq<WriteOp>, ps: seq<Pass>, source: Option<nat>, k: string) {
    match source
    case None => k !in m
    case Some(i) => i <= |ps| && ReadingAt(first, ps, i, k).Some? && Lookup(m, k) == ReadingAt(first, ps, i, k)
  }

  lemma HoldsLonger(m: Metrics, first: seq<WriteOp>, ps: seq<Pass>, p: Pass, source: Option<nat>, k: string)
    requires Holds(m, first, ps, source, k)
    ensures Holds(m, first, ps + [p], source, k)
  {
  }

  lemma {:induction false} BuffersHoldSources(first: seq<WriteOp>, ps: seq<Pass>, k: string)
    ensures var v, s := RunFrom(Begin(first), ps), SourcesOf(first, ps, k);
            Holds(v.older, first, ps, s.older, k) && Holds(v.newer, first, ps, s.newer, k)
    decreases |ps|
  {
    if ps == [] {
      ApplyReads(map[], first, k);
    } else {
      var n := |ps| - 1;
      var v, s := RunFrom(Begin(first), ps[..n]), SourcesOf(first, ps[..n], k);
      BuffersHoldSources(first, ps[..n], k);
      assert ps == ps[..n] + [ps[n]];
      HoldsLonger(v.older, first, ps[..n], ps[n], s.older, k);
      HoldsLonger(v.newer, first, ps[..n], ps[n], s.newer, k);
      ApplyReads(v.newer, ps[n].writes, k);
    }
  }

  // The old buffer has the reading of the latest successful pass if that pass read k, else one of an
  // earlier pass; what the new buffer has is not from the latest successful pass.
  lemma {:induction false} SourcesAreOlder(first: seq<WriteOp>, ps: seq<Pass>, k: string)
    ensures var s, l := SourcesOf(first, ps, k), LastOk(ps);
            (s.older == Some(l) <==> ReadingAt(first, ps, l, k).Some?)
            && (s.older.Some? ==> s.older.value <= l) && (s.newer.Some? ==> l != s.newer.value <= |ps|)
    decreases |ps|
  {
    if ps != [] {
      SourcesAreOlder(first, ps[..|ps| - 1], k);
    }
  }

  // What a successful pass sends for k compares two readings. They are its own and the one of the
  // immediately preceding successful pass if and only if both passes read k; otherwise the one that is
  // missing is replaced by a reading of an earlier or a failed pass, if there is one: all passes between
  // the latest successful one and this have failed.
  lemma FreshExact(first: seq<WriteOp>, ps: seq<Pass>, p: Pass, k: string)
    requires p.ok
    ensures var l, all := LastOk(ps), ps + [p];
            var o, n := SourcesOf(first, ps, k).older, SourcesOf(first, all, k).older;
            (o.Some? ==> o.value <= l) && (n.Some? ==> l != n.value <= |all|)
            && SentFor(first, ps, p, k)
               == Compare(k, if o.Some? then ReadingAt(first, ps, o.value, k) else None,
                          if n.Some? then ReadingAt(first, all, n.value, k) else None)
            && (o == Some(l) && n == Some(|all|)
                <==> ReadingAt(first, ps, l, k).Some? && Reading(p.writes, k).Some?)
  {
    var all := ps + [p];
    assert all[..|ps|] == ps;
    SourcesAreOlder(first, ps, k);
    SourcesAreOlder(first, all, k);
    BuffersHoldSources(first, ps, k);
    BuffersHoldSources(first, all, k);
    SentCompares(RunFrom(Begin(first), ps), p, k);
  }

  // A counter read by this pass and by the preceding successful one, whatever happened to it before: the
  // difference of the two readings is sent, unless it is a drop.
  lemma EmissionIsFresh(first: seq<WriteOp>, ps: seq<Pass>, p: Pass, k: string)
    requires p.ok && Reading(p.writes, k).Some? && !Reading(p.writes, k).value.isGauge
    requires ReadingAt(first, ps, LastOk(ps), k).Some?
    ensures var a, b := ReadingAt(first, ps, LastOk(ps), k).value, Reading(p.writes, k).value;
            SentFor(first, ps, p, k) == if a.count > b.count then [] else [Rate(k, b.count - a.count, b.ts - a.ts)]
  {
    FreshExact(first, ps, p, k);
  }

  // A gauge is sent as the pass has read it, whatever the buffers hold.
  lemma GaugeIsSent(first: seq<WriteOp>, ps: seq<Pass>, p: Pass, k: string)
    requires p.ok && Reading(p.writes, k).Some? && Reading(p.writes, k).value.isGauge
    ensures SentFor(first, ps, p, k) == [Gauge(k, Reading(p.writes, k).value.shown)]
  {
    ApplyReads(RunFrom(Begin(first), ps).newer, p.writes, k);
  }

  // What a pass sends after ps is what these lemmas speak of, key by key.
  lemma SentIsSentFor(first: seq<WriteOp>, ps: seq<Pass>, p: Pass, m: seq<Sent>, k: string)
    requires p.ok
    requires var v := RunFrom(Begin(first), ps);
             SendsAll(m, Apply(v.newer, p.writes), v.older)
    ensures Of(m, k) == SentFor(first, ps, p, k)
  {
    var v := RunFrom(Begin(first), ps);
    SentIsSentFrom(v, p, m, k);
  }

  lemma SentIsSentFrom(v: View, p: Pass, m: seq<Sent>, k: string)
    requires p.ok && SendsAll(m, Apply(v.newer, p.writes), v.older)
    ensures Of(m, k) == SentFrom(v, p, k)
  {
    SendsEmitted(m, Apply(v.newer, p.writes), v.older, k);
  }

  /** The number that is sent for a rate. */
  function RateValue(s: Sent): real
    requires s.Rate? && s.elapsed != 0
  {
    s.delta as real / s.elapsed as real
  }

  // If the clock has advanced by a second or more between the two readings, the rate is not negative.
  lemma RateNotNegative(first: seq<WriteOp>, ps: seq<Pass>, p: Pass, k: string)
    requires p.ok && Reading(p.writes, k).Some? && !Reading(p.writes, k).value.isGauge
    requires ReadingAt(first, ps, LastOk(ps), k).Some?
    requires Reading(p.writes, k).value.ts - ReadingAt(first, ps, LastOk(ps), k).value.ts >= 1
    ensures forall s :: s in SentFor(first, ps, p, k) ==> s.Rate? && s.elapsed >= 1 && RateValue(s) >= 0.0
  {
    EmissionIsFresh(first, ps, p, k);
    forall s | s in SentFor(first, ps, p, k)
      ensures s.Rate? && s.elapsed >= 1 && RateValue(s) >= 0.0
    {
      QuotientNotNegative(s.delta, s.elapsed);
    }
  }

  lemma QuotientNotNegative(delta: nat, elapsed: int)
    requires elapsed >= 1
    ensures delta as real / elapsed as real >= 0.0
  {
  }

  /** k is a counter that every successful pass reads. */
  ghost predicate AlwaysRead(first: seq<WriteOp>, ps: seq<Pass>, k: string) {
    Reading(first, k).Some? && !Reading(first, k).value.isGauge
    && forall i :: 0 <= i < |ps| && ps[i].ok ==>
         Reading(ps[i].writes, k).Some? && !Reading(ps[i].writes, k).value.isGauge
  }

  /** The readings of k on the successful passes, the first one included. */
  function Readings(first: seq<WriteOp>, ps: seq<Pass>, k: string): (rs: seq<PgValue>)
    requires AlwaysRead(first, ps, k)
    ensures rs != []
  {
    if ps == [] then [Reading(first, k).value]
    else
      var n := |ps| - 1;
      Readings(first, ps[..n], k) + if ps[n].ok then [Reading(ps[n].writes, k).value] else []
  }

  function Latest(rs: seq<PgValue>): PgValue
    requires rs != []
  {
    rs[|rs| - 1]
  }

  lemma {:induction false} LatestIsLastOk(first: seq<WriteOp>, ps: seq<Pass>, k: string)
    requires AlwaysRead(first, ps, k)
    ensures ReadingAt(first, ps, LastOk(ps), k) == Some(Latest(Readings(first, ps, k)))
    decreases |ps|
  {
    if ps != [] && !ps[|ps| - 1].ok {
      LatestIsLastOk(first, ps[..|ps| - 1], k);
    }
  }

  /** The clock advances by a second or more from one reading to the next. */
  ghost predicate Ticks(rs: seq<PgValue>) {
    forall i :: 0 <= i < |rs| - 1 ==> rs[i + 1].ts - rs[i].ts >= 1
  }

  /** Rate times elapsed time. */
  function Weight(sent: seq<Sent>): real {
    if sent != [] && sent[0].Rate? && sent[0].elapsed != 0 then RateValue(sent[0]) * sent[0].elapsed as real else 0.0
  }

  /** The sum of rate times elapsed time over everything a run sends for k. */
  function WeightSum(first: seq<WriteOp>, ps: seq<Pass>, k: string): real {
    if ps == [] then 0.0
    else
      var n := |ps| - 1;
      WeightSum(first, ps[..n], k) + Weight(SentFor(first, ps[..n], ps[n], k))
  }

  /** The sum of the drops between consecutive readings. */
  function Drops(rs: seq<PgValue>): int {
    if |rs| < 2 then 0
    else
      var a, b := rs[|rs| - 2].count, rs[|rs| - 1].count;
      Drops(rs[..|rs| - 1]) + if a > b then a - b else 0
  }

  lemma WeightIsDelta(k: string, delta: U64, elapsed: int)
    requires elapsed >= 1
    ensures Weight([Rate(k, delta, elapsed)]) == delta as real
  {
  }

  // What one more successful pass adds.
  lemma OnePassMore(first: seq<WriteOp>, ps: seq<Pass>, p: Pass, k: string)
    requires AlwaysRead(first, ps + [p], k) && p.ok && Ticks(Readings(first, ps + [p], k))
    ensures AlwaysRead(first, ps, k) && Ticks(Readings(first, ps, k))
    ensures var rs, b := Readings(first, ps, k), Reading(p.writes, k).value;
            Readings(first, ps + [p], k) == rs + [b]
            && Weight(SentFor(first, ps, p, k))
               == (if Latest(rs).count > b.count then 0 else b.count - Latest(rs).count) as real
  {
    var all := ps + [p];
    assert all[..|ps|] == ps && all[|ps|] == p && forall i :: 0 <= i < |ps| ==> all[i] == ps[i];
    var rs, b := Readings(first, ps, k), Reading(p.writes, k).value;
    assert Readings(first, all, k) == rs + [b];
    assert forall i :: 0 <= i < |rs| ==> (rs + [b])[i] == rs[i];
    assert b.ts - Latest(rs).ts >= 1 by {
      assert (rs + [b])[|rs| - 1 + 1].ts - (rs + [b])[|rs| - 1].ts >= 1;
    }
    LatestIsLastOk(first, ps, k);
    EmissionIsFresh(first, ps, p, k);
    if Latest(rs).count <= b.count {
      WeightIsDelta(k, b.count - Latest(rs).count, b.ts - Latest(rs).ts);
    }
  }

  // With a clock that advances, no pass of a run sends a negative rate.
  lemma {:induction false} RunRatesNotNegative(first: seq<WriteOp>, ps: seq<Pass>, k: string, i: nat)
    requires AlwaysRead(first, ps, k) && Ticks(Readings(first, ps, k)) && i < |ps|
    ensures forall s :: s in SentFor(first, ps[..i], ps[i], k) ==> s.Rate? && s.elapsed >= 1 && RateValue(s) >= 0.0
    decreases |ps|
  {
    var n := |ps| - 1;
    assert ps == ps[..n] + [ps[n]];
    var qs := Readings(first, ps[..n], k);
    if ps[n].ok {
      OnePassMore(first, ps[..n], ps[n], k);
      LatestIsLastOk(first, ps[..n], k);
    } else {
      assert qs + [] == qs;
    }
    if i < n {
      RunRatesNotNegative(first, ps[..n], k, i);
      assert ps[..n][..i] == ps[..i];
    } else if ps[n].ok {
      var b := Reading(ps[n].writes, k).value;
      assert (qs + [b])[|qs| - 1 + 1].ts - (qs + [b])[|qs| - 1].ts >= 1;
      RateNotNegative(first, ps[..n], ps[n], k);
    }
  }

  // With a clock that advances, over any mix of failed and successful passes, the sum of rate times
  // elapsed time, less the skipped drops, is the last reading minus the first.
  lemma {:induction false} RatesTelescope(first: seq<WriteOp>, ps: seq<Pass>, k: string)
    requires AlwaysRead(first, ps, k) && Ticks(Readings(first, ps, k))
    ensures var rs := Readings(first, ps, k);
            WeightSum(first, ps, k) - Drops(rs) as real == (Latest(rs).count - rs[0].count) as real
    decreases |ps|
  {
    if ps != [] {
      var n := |ps| - 1;
      assert ps == ps[..n] + [ps[n]];
      var qs := Readings(first, ps[..n], k);
      if ps[n].ok {
        OnePassMore(first, ps[..n], ps[n], k);
        RatesTelescope(first, ps[..n], k);
        assert (qs + [Reading(ps[n].writes, k).value])[..|qs|] == qs;
      } else {
        assert qs + [] == qs;
        RatesTelescope(first, ps[..n], k);
      }
    }
  }

  /** No pass reads k. */
  ghost predicate Unread(ps: seq<Pass>, k: string) {
    forall i :: 0 <= i < |ps| ==> Reading(ps[i].writes, k).None?
  }

  function OkCount(ps: seq<Pass>): nat {
    if ps == [] then 0 else OkCount(ps[..|ps| - 1]) + if ps[|ps| - 1].ok then 1 else 0
  }

  lemma {:induction false} UnreadSwaps(v: View, qs: seq<Pass>, k: string)
    requires Unread(qs, k)
    ensures var w, even := RunFrom(v, qs), OkCount(qs) % 2 == 0;
            Lookup(w.older, k) == Lookup(if even then v.older else v.newer, k)
            && Lookup(w.newer, k) == Lookup(if even then v.newer else v.older, k)
    decreases |qs|
  {
    if qs != [] {
      var n := |qs| - 1;
      UnreadSwaps(v, qs[..n], k);
      ApplyReads(RunFrom(v, qs[..n]).newer, qs[n].writes, k);
    }
  }

  // A metric that is no longer read stays in the buffers, and its two values change roles on every
  // successful pass: this is all that any later pass sends for it.
  lemma VanishedSends(v: View, qs: seq<Pass>, q: Pass, k: string)
    requires Unread(qs, k) && Reading(q.writes, k).None? && q.ok
    ensures SentFrom(RunFrom(v, qs), q, k)
            == if OkCount(qs) % 2 == 0 then Compare(k, Lookup(v.older, k), Lookup(v.newer, k))
               else Compare(k, Lookup(v.newer, k), Lookup(v.older, k))
  {
    UnreadSwaps(v, qs, k);
    SentCompares(RunFrom(v, qs), q, k);
  }

  ghost predicate SendsVanished(v: View, qs: seq<Pass>, q: Pass, k: string) {
    Unread(qs, k) && Reading(q.writes, k).None? && q.ok && SentFrom(RunFrom(v, qs), q, k) != []
  }

  // A counter that is no longer read is ever sent again if and only if both buffers hold it.
  lemma VanishedSilentExact(v: View, k: string)
    requires k in v.older ==> !v.older[k].isGauge
    requires k in v.newer ==> !v.newer[k].isGauge
    ensures (exists qs, q :: SendsVanished(v, qs, q, k)) <==> k in v.older && k in v.newer
  {
    if qs, q :| SendsVanished(v, qs, q, k) {
      VanishedSends(v, qs, q, k);
    }
    var empty := Pass([], true);
    if k in v.older && k in v.newer {
      if v.older[k].count <= v.newer[k].count {
        VanishedSends(v, [], empty, k);
        assert SendsVanished(v, [], empty, k);
      } else {
        assert [empty][..0] == [];
        assert OkCount([empty]) == 1;
        VanishedSends(v, [empty], empty, k);
        assert SendsVanished(v, [empty], empty, k);
      }
    }
  }

  lemma {:induction false} RunOfBoth(v: View, ps: seq<Pass>, qs: seq<Pass>)
    ensures RunFrom(v, ps + qs) == RunFrom(RunFrom(v, ps), qs)
    decreases |qs|
  {
    if qs == [] {
      assert ps + qs == ps;
    } else {
      assert (ps + qs)[..|ps + qs| - 1] == ps + qs[..|qs| - 1];
      RunOfBoth(v, ps, qs[..|qs| - 1]);
    }
  }

  /** The counter k is read by the successful pass p and, a second or more earlier, by the one before it. */
  ghost predicate ReadTwice(first: seq<WriteOp>, ps: seq<Pass>, p: Pass, k: string) {
    p.ok && Reading(p.writes, k).Some? && !Reading(p.writes, k).value.isGauge
    && ReadingAt(first, ps, LastOk(ps), k).Some? && !ReadingAt(first, ps, LastOk(ps), k).value.isGauge
    && Reading(p.writes, k).value.ts - ReadingAt(first, ps, LastOk(ps), k).value.ts >= 1
  }

  lemma BuffersAfter(first: seq<WriteOp>, ps: seq<Pass>, p: Pass, k: string)
    requires ReadTwice(first, ps, p, k)
    ensures var v := RunFrom(Begin(first), ps + [p]);
            Lookup(v.older, k) == Reading(p.writes, k) && Lookup(v.newer, k) == ReadingAt(first, ps, LastOk(ps), k)
  {
    assert (ps + [p])[..|ps|] == ps;
    SourcesAreOlder(first, ps, k);
    BuffersHoldSources(first, ps, k);
    SentCompares(RunFrom(Begin(first), ps), p, k);
  }

  lemma SentWhenRead(first: seq<WriteOp>, ps: seq<Pass>, p: Pass, k: string)
    requires ReadTwice(first, ps, p, k)
    ensures SentFor(first, ps, p, k) == Compare(k, ReadingAt(first, ps, LastOk(ps), k), Reading(p.writes, k))
  {
    EmissionIsFresh(first, ps, p, k);
  }

  lemma VanishedFrom(v: View, ps: seq<Pass>, qs: seq<Pass>, q: Pass, k: string)
    requires Unread(qs, k) && Reading(q.writes, k).None? && q.ok
    ensures var w := RunFrom(v, ps);
            SentFrom(RunFrom(v, ps + qs), q, k)
            == if OkCount(qs) % 2 == 0 then Compare(k, Lookup(w.older, k), Lookup(w.newer, k))
               else Compare(k, Lookup(w.newer, k), Lookup(w.older, k))
  {
    RunOfBoth(v, ps, qs);
    VanishedSends(RunFrom(v, ps), qs, q, k);
  }

  lemma VanishedCompares(first: seq<WriteOp>, ps: seq<Pass>, p: Pass, k: string, qs: seq<Pass>, q: Pass)
    requires ReadTwice(first, ps, p, k) && Unread(qs, k) && Reading(q.writes, k).None? && q.ok
    ensures SentFor(first, ps + [p] + qs, q, k)
            == if OkCount(qs) % 2 == 1 then SentFor(first, ps, p, k)
               else Compare(k, Reading(p.writes, k), ReadingAt(first, ps, LastOk(ps), k))
  {
    BuffersAfter(first, ps, p, k);
    VanishedFrom(Begin(first), ps + [p], qs, q, k);
    SentWhenRead(first, ps, p, k);
  }

  // After its last two readings b and a, a counter that vanishes is sent as follows, for any run of passes
  // that do not read it. After an odd number of successful ones the next sends what was sent when it was
  // last read, again. After an even number the comparison runs backwards in time: nothing if the counter
  // had grown, else a rate over negative time.
  lemma VanishedRates(first: seq<WriteOp>, ps: seq<Pass>, p: Pass, k: string, qs: seq<Pass>, q: Pass)
    requires ReadTwice(first, ps, p, k) && Unread(qs, k) && Reading(q.writes, k).None? && q.ok
    ensures var b, a := ReadingAt(first, ps, LastOk(ps), k).value, Reading(p.writes, k).value;
            var sent := SentFor(first, ps + [p] + qs, q, k);
            if OkCount(qs) % 2 == 1 then sent == SentFor(first, ps, p, k)
            else if a.count > b.count then sent == []
            else
              var r := Rate(k, b.count - a.count, b.ts - a.ts);
              sent == [r] && RateValue(r) <= 0.0 && (RateValue(r) < 0.0 <==> a.count < b.count)
  {
    VanishedCompares(first, ps, p, k, qs, q);
    var b, a := ReadingAt(first, ps, LastOk(ps), k).value, Reading(p.writes, k).value;
    if a.count <= b.count {
      BackwardsRate(b.count - a.count, b.ts - a.ts);
    }
  }

  lemma BackwardsRate(delta: nat, elapsed: int)
    requires elapsed < 0
    ensures delta as real / elapsed as real <= 0.0
    ensures delta as real / elapsed as real < 0.0 <==> delta > 0
  {
    assert delta as real / elapsed as real * elapsed as real == delta as real;
  }

  /** After qs, in which nothing reads k, the pass q does not read k either and sends a negative rate for it. */
  ghost predicate SendsNegative(first: seq<WriteOp>, ps: seq<Pass>, k: string, qs: seq<Pass>, q: Pass) {
    Unread(qs, k) && Reading(q.writes, k).None? && q.ok
    && exists s :: s in SentFor(first, ps + qs, q, k) && s.Rate? && s.elapsed != 0 && RateValue(s) < 0.0
  }

  // A vanished counter sends a negative rate on some later pass if and only if its last step was a drop.
  lemma VanishedNegativeExact(first: seq<WriteOp>, ps: seq<Pass>, p: Pass, k: string)
    requires ReadTwice(first, ps, p, k)
    ensures (exists qs, q :: SendsNegative(first, ps + [p], k, qs, q))
            <==> Reading(p.writes, k).value.count < ReadingAt(first, ps, LastOk(ps), k).value.count
  {
    if qs, q :| SendsNegative(first, ps + [p], k, qs, q) {
      VanishedRates(first, ps, p, k, qs, q);
      RateNotNegative(first, ps, p, k);
    }
    if Reading(p.writes, k).value.count < ReadingAt(first, ps, LastOk(ps), k).value.count {
      var q := Pass([], true);
      VanishedRates(first, ps, p, k, [], q);
      assert SentFor(first, ps + [p] + [], q, k)[0] in SentFor(first, ps + [p] + [], q, k);
      assert SendsNegative(first, ps + [p], k, [], q);
    }
  }
}
