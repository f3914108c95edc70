/** For each exact condition, an input that does not meet it and what the code then does. */
module Counterexamples {
  import opened Words
  import opened Wrappers
  import Keys
  import ProcTypes
  import ProcTree
  import Consolidated
  import Selection
  import WebRecords
  import WebAggregator
  import LogChannel
  import ArchiveNames
  import FileLog
  import Postgres
  import PostgresRuns
  import Snmp

  // Pid 1 running "2x" and pid 12 running "x".
  lemma SharedSnapshotKey()
    ensures Keys.ShareKey(1, "2x", 12, "x")
  {
    assert Keys.Decimal(12) == Keys.Decimal(1) + [Keys.Digit(2)];
  }

  function Shell(pid: U64, ppid: U64): ProcTypes.PidInfo {
    ProcTypes.PidInfo(false, "root", pid, "sh", 'S', ppid, ProcTypes.ZERO)
  }

  // A shell in a shell in a shell: the innermost keeps an entry of its own.
  lemma ThreeShells()
    ensures var procs := map[1 := Shell(1, 0), 2 := Shell(2, 1), 3 := Shell(3, 2)];
            ProcTree.Valid(procs) && ProcTree.Reachable(procs, 3) && ProcTree.ThreeInARow(procs, 3)
            && ProcTree.IsRep(procs, 3) && !ProcTree.IsRep(procs, 2) && procs[2].comm == procs[3].comm
  {
    var procs := map[1 := Shell(1, 0), 2 := Shell(2, 1), 3 := Shell(3, 2)];
    assert ProcTree.BelowBy(procs, 1, 0, 0);
    assert ProcTree.BelowBy(procs, 2, 0, 1);
    assert ProcTree.BelowBy(procs, 3, 0, 2);
    ProcTree.RepAt(procs, 1, 0);
    ProcTree.RepAt(procs, 2, 1);
    ProcTree.RepAt(procs, 3, 2);
  }

  // The parent of pid 3 is not in both snapshots: pid 3 has no part in the table.
  lemma MissingParent(white: string -> bool)
    ensures var procs := map[1 := Shell(1, 0), 3 := Shell(3, 2)];
            ProcTree.Valid(procs) && !ProcTree.Reachable(procs, 3)
            && Keys.TableKey("sh", 3) !in Consolidated.Final(procs, white)
            && Keys.TableKey("sh", 1) in Consolidated.Final(procs, white)
  {
    var procs := map[1 := Shell(1, 0), 3 := Shell(3, 2)];
    assert ProcTree.BelowBy(procs, 1, 0, 0);
    assert !ProcTree.Reachable(procs, 3) by {
      if ProcTree.Reachable(procs, 3) {
        ProcTree.RepExact(procs, 3);
      }
    }
    ProcTree.RepExact(procs, 1);
    Consolidated.FinalExact(procs, white, 1);
    Consolidated.FinalExact(procs, white, 3);
  }

  // Two entries and a top of none: both are selected.
  lemma TopOfNone()
    ensures var a, b := Shell(1, 0).(comm := "a"), Shell(2, 0).(comm := "b");
            var entries := map["a-1" := a, "b-2" := b];
            var top := [Selection.LoadIndex("a-1", 0.0), Selection.LoadIndex("b-2", 0.0)];
            Selection.IsRanking(top, entries, _ => 0.0, 0.0)
            && Selection.FirstKeys(top, 0) == {} && Selection.TopKeys(top, 0) == {"a-1", "b-2"}
            && Selection.Marked(entries, Selection.TopKeys(top, 0), _ => false)["b-2"].selected
  {
    var top := [Selection.LoadIndex("a-1", 0.0), Selection.LoadIndex("b-2", 0.0)];
    assert Selection.Taken(0, 2) == 2 && top[..2] == top;
    assert top[0].key in Selection.KeysIn(top) && top[1].key in Selection.KeysIn(top);
  }

  // Two records at timestamp 0: the first is lost.
  lemma TwoRecordsAtZero(w: WebRecords.ReqStat)
    requires w.ts == 0
    ensures WebAggregator.Run([w, w], 60) == WebAggregator.Feed([], [w], 1)
    ensures !WebAggregator.NoZeroStart([w, w], 60)
  {
    assert [w, w][..1] == [w] && [w][..0] == [];
    assert WebAggregator.Run([w], 60) == WebAggregator.Feed([], [w], 0);
    WebAggregator.RunRefinesWindows([w, w], 60);
  }

  // One unit of upstream time in a request of no time: the latency is 2^64 - 1 instead of -1.
  lemma WrappedLatency()
    ensures var totals := WebRecords.NO_TOTALS.(response := 1);
            totals.time < totals.response && Minus(totals.time, totals.response) == TWO_TO_64 - 1
  {
  }

  lemma RunBegins(c: LogChannel.Config, s: LogChannel.State, a: LogChannel.Action, t: LogChannel.State,
                  run: seq<LogChannel.Action>)
    requires LogChannel.Step(c, s, a) == Some(t)
    ensures LogChannel.Run(c, s, [a] + run) == LogChannel.Run(c, t, run)
  {
    assert ([a] + run)[1..] == run;
  }

  // Close may find the channel empty and be about to destroy the outputs.
  lemma DestroyingIsReached(c: LogChannel.Config, got: map<string, seq<LogChannel.Msg>>, run: seq<LogChannel.Action>)
    ensures var s := LogChannel.State([], LogChannel.Waiting, LogChannel.NotClosing, got, {}, []);
            LogChannel.Run(c, s, [LogChannel.OfferQuit] + ([LogChannel.TakeQuit] + ([LogChannel.FoundEmpty] + run)))
            == LogChannel.Run(c, s.(consumer := LogChannel.Stopped, closer := LogChannel.Destroying(c.outputs)), run)
  {
    var s := LogChannel.State([], LogChannel.Waiting, LogChannel.NotClosing, got, {}, []);
    var t := s.(closer := LogChannel.Offering);
    var u := t.(consumer := LogChannel.Stopped, closer := LogChannel.Looking);
    RunBegins(c, s, LogChannel.OfferQuit, t, [LogChannel.TakeQuit] + ([LogChannel.FoundEmpty] + run));
    RunBegins(c, t, LogChannel.TakeQuit, u, [LogChannel.FoundEmpty] + run);
    RunBegins(c, u, LogChannel.FoundEmpty, u.(closer := LogChannel.Destroying(c.outputs)), run);
  }

  // A message that is sent then stays in the channel while the only output is destroyed.
  lemma QueuedToTheEnd(c: LogChannel.Config, got: map<string, seq<LogChannel.Msg>>, m: LogChannel.Msg)
    requires c.level <= m.level && 0 < c.capacity && c.outputs == {"file"}
    ensures var s := LogChannel.State([], LogChannel.Stopped, LogChannel.Destroying(c.outputs), got, {}, []);
            LogChannel.Run(c, s, [LogChannel.Send(m)] + ([LogChannel.Destroy("file")] + ([LogChannel.Finish] + [])))
            == Some(LogChannel.State([m], LogChannel.Stopped, LogChannel.Closed, got, {"file"}, [m]))
  {
    var s := LogChannel.State([], LogChannel.Stopped, LogChannel.Destroying(c.outputs), got, {}, []);
    var t := s.(queue := [m], sent := [m]);
    assert [] + [m] == [m];
    RunBegins(c, s, LogChannel.Send(m), t, [LogChannel.Destroy("file")] + ([LogChannel.Finish] + []));
    var u := t.(destroyed := {"file"}, closer := LogChannel.Destroying({}));
    assert {} + {"file"} == {"file"} && c.outputs - {"file"} == {};
    RunBegins(c, t, LogChannel.Destroy("file"), u, [LogChannel.Finish] + []);
    RunBegins(c, u, LogChannel.Finish, u.(closer := LogChannel.Closed), []);
  }

  // A message sent after Close has found the channel empty stays in it.
  lemma LateMessage(m: LogChannel.Msg)
    requires m.level >= 0
    ensures var c := LogChannel.Config(1, {"file"}, 0);
            var run := [LogChannel.OfferQuit, LogChannel.TakeQuit, LogChannel.FoundEmpty, LogChannel.Send(m),
                        LogChannel.Destroy("file"), LogChannel.Finish];
            LogChannel.Run(c, LogChannel.Start(c), run)
            == Some(LogChannel.State([m], LogChannel.Stopped, LogChannel.Closed, map["file" := []], {"file"}, [m]))
  {
    var c := LogChannel.Config(1, {"file"}, 0);
    var got: map<string, seq<LogChannel.Msg>> := map["file" := []];
    assert LogChannel.Start(c).got == got;
    var rest := [LogChannel.Send(m)] + ([LogChannel.Destroy("file")] + ([LogChannel.Finish] + []));
    DestroyingIsReached(c, got, rest);
    QueuedToTheEnd(c, got, m);
    assert [LogChannel.OfferQuit] + ([LogChannel.TakeQuit] + ([LogChannel.FoundEmpty] + rest))
        == [LogChannel.OfferQuit, LogChannel.TakeQuit, LogChannel.FoundEmpty, LogChannel.Send(m),
            LogChannel.Destroy("file"), LogChannel.Finish];
  }

  // A message of 5 January and the next one of 5 February are in the same file.
  lemma AMonthLater()
    ensures var c := FileLog.Settings("log", 0, 0, true, true, 0);
            var k := FileLog.Clock(ArchiveNames.Day(2024, 1, 5), "2024/01/05 12:00:00 ");
            var l := FileLog.Clock(ArchiveNames.Day(2024, 2, 5), "2024/02/05 12:00:00 ");
            var m := LogChannel.Msg(0, 0, "x");
            var s := FileLog.Open(c, map[], k.day, []);
            FileLog.WriteAll(c, s, [m, m], [k, l]).files == map["log" := FileLog.Frame("x", k) + FileLog.Frame("x", l)]
  {
    var c := FileLog.Settings("log", 0, 0, true, true, 0);
    var k := FileLog.Clock(ArchiveNames.Day(2024, 1, 5), "2024/01/05 12:00:00 ");
    var l := FileLog.Clock(ArchiveNames.Day(2024, 2, 5), "2024/02/05 12:00:00 ");
    var m := LogChannel.Msg(0, 0, "x");
    var s := FileLog.Open(c, map[], k.day, []);
    assert [m, m][..1] == [m] && [k, l][..1] == [k] && [m][..0] == [] && [k][..0] == [];
    assert FileLog.WriteAll(c, s, [m], [k]) == FileLog.Write(c, s, m, k);
    assert "" + FileLog.Frame("x", k) == FileLog.Frame("x", k);
  }

  // From 2^32 - 1 to 2^32: the growth is 1 and 0 is sent.
  lemma WrappedByOne()
    ensures var c := Snmp.Counter(0, 0);
            var older := Snmp.Convert(Snmp.Shown(0xFFFF_FFFF, Snmp.Counter32), c);
            var newer := Snmp.Convert(Snmp.Shown(0x1_0000_0000, Snmp.Counter32), c);
            Snmp.Wrapped(0xFFFF_FFFF, 0x1_0000_0000) && Snmp.Amount(older, newer) == 0
  {
  }

  // From 0 to 2^63: minus 2^63 is sent.
  lemma GrowthTooLarge()
    ensures var c := Snmp.Counter(0, 0);
            var older := Snmp.Convert(Snmp.Shown(0, Snmp.Counter64), c);
            var newer := Snmp.Convert(Snmp.Shown(0x8000_0000_0000_0000, Snmp.Counter64), c);
            Snmp.Amount(older, newer) == -0x8000_0000_0000_0000
  {
  }

  // A counter falls from 5 to 3 in ten seconds and vanishes: the next pass sends 2 over -10 seconds.
  lemma NegativeRate()
    ensures var first := [Postgres.WriteOp("k", Postgres.PgValue(false, 5, 0.0, 0))];
            var p := Postgres.Pass([Postgres.WriteOp("k", Postgres.PgValue(false, 3, 0.0, 10))], true);
            PostgresRuns.SentFor(first, [p], Postgres.Pass([], true), "k") == [Postgres.Rate("k", 2, -10)]
  {
    var first := [Postgres.WriteOp("k", Postgres.PgValue(false, 5, 0.0, 0))];
    var p := Postgres.Pass([Postgres.WriteOp("k", Postgres.PgValue(false, 3, 0.0, 10))], true);
    assert PostgresRuns.ReadTwice(first, [], p, "k");
    PostgresRuns.VanishedRates(first, [], p, "k", [], Postgres.Pass([], true));
    assert [] + [p] + [] == [p];
  }
}
