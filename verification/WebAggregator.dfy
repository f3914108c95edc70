/** The record loop: it keeps one window open and flushes it when a record is too late for it. */
module WebAggregator {
  import opened Wrappers
  import opened WebRecords
  import opened WebBatches
  import opened WebMerge
  import opened WebReport

  /** Which windows were flushed, which is open, and how many records were dropped unreported. */
  datatype Feed = Feed(flushed: seq<Records>, open: Records, lost: nat)

  /** The loop takes a zero timestamp of the open window for "no record yet" and starts over. */
  function Step(s: Feed, w: ReqStat, d: int): Feed {
    if s.open == [] || s.open[0].ts == 0 then Feed(s.flushed, [w], s.lost + |s.open|)
    else if w.ts - s.open[0].ts > d then Feed(s.flushed + [s.open], [w], s.lost)
    else s.(open := s.open + [w])
  }

  function Run(rs: Records, d: int): Feed {
    if rs == [] then Feed([], [], 0) else Step(Run(rs[..|rs| - 1], d), Last(rs), d)
  }

  /** No window that another record follows starts at timestamp 0: the only one that may is the last, if
      it has one record. */
  ghost predicate StartsFine(ws: seq<Records>) {
    (forall a :: 0 <= a < |ws| ==> ws[a] != [])
    && forall a :: 0 <= a < |ws| && ws[a][0].ts == 0 ==> a == |ws| - 1 && |ws[a]| == 1
  }

  ghost predicate NoZeroStart(rs: Records, d: int) {
    StartsFine(Windows(rs, d))
  }

  /** The loop state that these windows describe. */
  ghost function FeedOf(ws: seq<Records>): Feed {
    if ws == [] then Feed([], [], 0) else Feed(ws[..|ws| - 1], Last(ws), 0)
  }

  lemma FeedOfStep(ws: seq<Records>, w: ReqStat, d: int)
    requires ws != [] && Last(ws) != [] && Last(ws)[0].ts != 0
    ensures FeedOf(AddToLast(ws, w, d)) == Step(FeedOf(ws), w, d)
  {
    var vs := AddToLast(ws, w, d);
    assert ws == ws[..|ws| - 1] + [Last(ws)];
    assert vs[..|vs| - 1] == if w.ts - Last(ws)[0].ts > d then ws else ws[..|ws| - 1];
  }

  lemma StartsFineAdd(ws: seq<Records>, w: ReqStat, d: int)
    requires ws != [] && forall a :: 0 <= a < |ws| ==> ws[a] != []
    ensures StartsFine(AddToLast(ws, w, d)) <==> StartsFine(ws) && Last(ws)[0].ts != 0
  {
    var vs, n := AddToLast(ws, w, d), |ws|;
    assert forall a :: 0 <= a < n - 1 ==> vs[a] == ws[a];
    assert vs[n - 1][0] == ws[n - 1][0];
  }

  /** s is what the windows describe, and nothing is lost, exactly when they start fine. */
  ghost predicate Refines(s: Feed, ws: seq<Records>) {
    (s.lost == 0 <==> StartsFine(ws)) && (StartsFine(ws) ==> s == FeedOf(ws))
  }

  lemma RefinesOneMore(s: Feed, ws: seq<Records>, w: ReqStat, d: int)
    requires ws != [] && Refines(s, ws) && forall a :: 0 <= a < |ws| ==> ws[a] != []
    ensures Refines(Step(s, w, d), AddToLast(ws, w, d))
  {
    StartsFineAdd(ws, w, d);
    if StartsFine(ws) && Last(ws)[0].ts != 0 {
      FeedOfStep(ws, w, d);
    }
  }

  // In particular it holds when all timestamps are positive.
  lemma PositiveIsNoZeroStart(rs: Records, d: int)
    requires forall r :: r in rs ==> r.ts > 0
    ensures NoZeroStart(rs, d)
  {
    var ws: seq<Records> := Windows(rs, d);
    WindowsAreGreedy(rs, d);
    forall a: nat | a < |ws|
      ensures ws[a][0].ts != 0
    {
      PartAt(ws, a, 0);
    }
  }

  // The one-pass loop does what the greedy cut says, and drops no record, if and only if no window
  // that another record follows starts at timestamp 0.
  lemma {:induction false} RunRefinesWindows(rs: Records, d: int)
    ensures Run(rs, d).lost == 0 <==> NoZeroStart(rs, d)
    ensures NoZeroStart(rs, d) ==> Run(rs, d) == FeedOf(Windows(rs, d))
  {
    if rs != [] {
      var r, w := rs[..|rs| - 1], Last(rs);
      assert rs == r + [w];
      if r == [] {
        OneWindow([w], d);
      } else {
        RunRefinesWindows(r, d);
        WindowsOneMore(r, w, d);
        RefinesOneMore(Run(r, d), Windows(r, d), w, d);
      }
    }
  }

  lemma {:induction false} FlattenOneMore(ws: seq<Records>, w: Records)
    ensures Flatten(ws + [w]) == Flatten(ws) + w
  {
    if ws == [] {
      assert ws + [w] == [w] && [w][1..] == [];
    } else {
      assert (ws + [w])[1..] == ws[1..] + [w];
      FlattenOneMore(ws[1..], w);
    }
  }

  // Every record is flushed, in the open window or lost, whatever the timestamps are.
  lemma {:induction false} RecordsAccounted(rs: Records, d: int)
    ensures var s := Run(rs, d);
            |Flatten(s.flushed)| + |s.open| + s.lost == |rs|
  {
    if rs != [] {
      var s := Run(rs[..|rs| - 1], d);
      RecordsAccounted(rs[..|rs| - 1], d);
      FlattenOneMore(s.flushed, s.open);
    }
  }

  class Aggregator {
    const interval: real
    const url: string
    const upstreamTime: int
    var lastTs: int
    var web: map<string, ReqStat>
    var req: map<string, nat>
    var sent: seq<seq<Metric>>
    ghost var feed: Feed

    /** int64(DELTA) of a positive interval. */
    function Window(): int { interval.Floor }

    ghost predicate Valid()
      reads this
    {
      interval > 0.0
      && lastTs == (if feed.open == [] then 0 else feed.open[0].ts)
      && AllWellFormed(feed.open) && Batch(web, req) == BatchOf(feed.open)
      && |sent| == |feed.flushed|
      && forall i :: 0 <= i < |sent| ==>
           Reports(sent[i], BatchOf(feed.flushed[i]), url, interval, upstreamTime == 1)
    }

    constructor (interval: real, url: string, upstreamTime: int)
      requires interval > 0.0
      ensures Valid() && feed == Feed([], [], 0)
      ensures this.interval == interval && this.url == url && this.upstreamTime == upstreamTime
    {
      this.interval, this.url, this.upstreamTime := interval, url, upstreamTime;
      lastTs, web, req, sent := 0, map[], map[], [];
      feed := Feed([], [], 0);
    }

    /** The state after the records rs. */
    ghost predicate HasSeen(rs: Records, interval: real, url: string, upstreamTime: int)
      reads this
    {
      Valid() && this.interval == interval && this.url == url && this.upstreamTime == upstreamTime
      && feed == Run(rs, interval.Floor)
    }

    method Flush() returns (m: seq<Metric>)
      requires Valid()
      ensures Reports(m, BatchOf(feed.open), url, interval, upstreamTime == 1)
      ensures SaysWindow(m, feed.open, url, interval, upstreamTime == 1)
    {
      WindowIsReportable(feed.open);
      m := ReportAll(Batch(web, req), url, interval, upstreamTime == 1);
      ReportSays(m, feed.open, url, interval, upstreamTime == 1);
    }

    method Restart(w: ReqStat)
      requires WellFormed(w)
      modifies `lastTs, `web, `req
      ensures lastTs == w.ts && Batch(web, req) == BatchOf([w])
    {
      lastTs := w.ts;
      web := map[w.prefix := w];
      req := map[w.shortPrefix := 1];
      BatchOneMore([], w);
      assert [] + [w] == [w];
    }

    method AddToWindow(w: ReqStat)
      modifies `web, `req
      ensures Batch(web, req) == Accumulate(old(Batch(web, req)), w)
    {
      if w.prefix in web {
        var o := web[w.prefix];
        o := o.(req := o.req + 1, totals := AddTotals(o.totals, w.totals));
        web := web[o.prefix := o];
        req := Increment(req, o.shortPrefix);
      } else {
        web := web[w.prefix := w];
        req := Increment(req, w.shortPrefix);
      }
    }

    // One record of the log.
    method Record(w: ReqStat)
      requires Valid() && WellFormed(w)
      modifies this
      ensures Valid() && feed == Step(old(feed), w, Window())
    {
      ghost var next := Step(feed, w, Window());
      if lastTs == 0 {
        Restart(w);
      } else if w.ts - lastTs > Window() {
        var m := Flush();
        sent := sent + [m];
        Restart(w);
      } else {
        BatchOneMore(feed.open, w);
        AddToWindow(w);
      }
      feed := next;
    }
  }

  /** What was sent says of each window what there is to say. */
  ghost predicate SayWindows(sent: seq<seq<Metric>>, ws: seq<Records>, url: string, interval: real, upstream: bool) {
    |sent| == |ws| && forall i :: 0 <= i < |sent| ==> SaysWindow(sent[i], ws[i], url, interval, upstream)
  }

  lemma AllReportsSay(sent: seq<seq<Metric>>, ws: seq<Records>, url: string, interval: real, upstream: bool)
    requires |sent| == |ws| && forall i :: 0 <= i < |sent| ==> Reports(sent[i], BatchOf(ws[i]), url, interval, upstream)
    ensures SayWindows(sent, ws, url, interval, upstream)
  {
    forall i | 0 <= i < |sent|
      ensures SaysWindow(sent[i], ws[i], url, interval, upstream)
    {
      ReportSays(sent[i], ws[i], url, interval, upstream);
    }
  }

  /** The readable lines. */
  ghost function Kept(lines: seq<Option<Entry>>): seq<Entry> {
    if lines == [] then []
    else Kept(lines[..|lines| - 1])
         + if Last(lines).Some? && Readable(Last(lines).value) then [Last(lines).value] else []
  }

  // They are kept one by one, in order.
  lemma {:induction false} KeptExact(lines: seq<Option<Entry>>, line: Option<Entry>, more: seq<Option<Entry>>)
    ensures Kept([line]) == if line.Some? && line.value.time.Some? && line.value.request.Some?
                               && |line.value.request.value| == 3 && line.value.status.Some?
                            then [line.value] else []
    ensures Kept(lines + more) == Kept(lines) + Kept(more)
    decreases |more|
  {
    assert [line][..0] == [];
    if more == [] {
      assert lines + more == lines;
    } else {
      var n := |more| - 1;
      assert (lines + more)[..|lines + more| - 1] == lines + more[..n];
      KeptExact(lines, line, more[..n]);
    }
  }

  ghost predicate HaveStatus(lines: seq<Option<Entry>>) {
    forall i :: 0 <= i < |lines| && lines[i].Some? && lines[i].value.status.Some? ==> lines[i].value.status.value != []
  }

  /** parsed holds what the readable lines say. */
  ghost predicate Parses(parsed: Records, lines: seq<Option<Entry>>, find: string -> Option<string>,
                         upstreamTime: int) {
    var kept := Kept(lines);
    |parsed| == |kept| && HaveStatus(lines)
    && forall i :: 0 <= i < |kept| ==>
         (kept[i].status.Some? ==> kept[i].status.value != []) && Describes(parsed[i], kept[i], find, upstreamTime)
  }

  lemma ParsesOneMore(parsed: Records, lines: seq<Option<Entry>>, line: Option<Entry>, w: Option<ReqStat>,
                      find: string -> Option<string>, upstreamTime: int)
    requires Parses(parsed, lines, find, upstreamTime) && HaveStatus(lines + [line])
    requires line.Some? && line.value.status.Some? ==> line.value.status.value != []
    requires w.Some? <==> line.Some? && Readable(line.value)
    requires w.Some? ==> Describes(w.value, line.value, find, upstreamTime)
    ensures Parses(parsed + if w.Some? then [w.value] else [], lines + [line], find, upstreamTime)
  {
    assert (lines + [line])[..|lines|] == lines;
  }

  // None is a line the log parser rejects or ParseRecord does.
  method ParseLine(line: Option<Entry>, find: string -> Option<string>, upstreamTime: int) returns (w: Option<ReqStat>)
    requires line.Some? && line.value.status.Some? ==> line.value.status.value != []
    ensures w.Some? <==> line.Some? && Readable(line.value)
    ensures w.Some? ==> Describes(w.value, line.value, find, upstreamTime)
  {
    if line.None? {
      return None;
    }
    var r := ParseRecord(line.value, find, upstreamTime);
    w := if r.Success? then Some(r.value) else None;
  }

  // The whole loop.
  method CollectWebLogStat(lines: seq<Option<Entry>>, find: string -> Option<string>, interval: real, url: string,
                           upstreamTime: int)
    returns (a: Aggregator, ghost parsed: Records)
    requires interval > 0.0 && HaveStatus(lines)
    ensures Parses(parsed, lines, find, upstreamTime) && |parsed| == |Kept(lines)|
    ensures forall i :: 0 <= i < |parsed| ==> Describes(parsed[i], Kept(lines)[i], find, upstreamTime)
    ensures fresh(a) && a.HasSeen(parsed, interval, url, upstreamTime)
    ensures SayWindows(a.sent, Run(parsed, interval.Floor).flushed, url, interval, upstreamTime == 1)
  {
    a := new Aggregator(interval, url, upstreamTime);
    parsed := [];
    for i := 0 to |lines|
      invariant fresh(a) && a.HasSeen(parsed, interval, url, upstreamTime)
      invariant Parses(parsed, lines[..i], find, upstreamTime)
    {
      TakeOneMore(lines, i);
      var w := ParseLine(lines[i], find, upstreamTime);
      ParsesOneMore(parsed, lines[..i], lines[i], w, find, upstreamTime);
      if w.Some? {
        RunOneMore(parsed, w.value, interval.Floor);
        a.Record(w.value);
        parsed := parsed + [w.value];
      } else {
        assert parsed + [] == parsed;
      }
    }
    assert lines[..|lines|] == lines;
    AllReportsSay(a.sent, a.feed.flushed, url, interval, upstreamTime == 1);
  }

  lemma TakeOneMore<T>(s: seq<T>, n: nat)
    requires n < |s|
    ensures s[..n + 1] == s[..n] + [s[n]]
  {
  }

  // One more record in the open window if it is in time for it; else that window is flushed, or lost if it
  // starts at timestamp 0.
  lemma RunOneMore(rs: Records, w: ReqStat, d: int)
    ensures Run(rs + [w], d) == Step(Run(rs, d), w, d)
    ensures var s, t := Run(rs, d), Run(rs + [w], d);
            if s.open == [] || s.open[0].ts == 0
            then t.flushed == s.flushed && t.open == [w] && t.lost == s.lost + |s.open|
            else if w.ts - s.open[0].ts > d
            then t.flushed == s.flushed + [s.open] && t.open == [w] && t.lost == s.lost
            else t.flushed == s.flushed && t.open == s.open + [w] && t.lost == s.lost
  {
    assert (rs + [w])[..|rs|] == rs;
  }
}
