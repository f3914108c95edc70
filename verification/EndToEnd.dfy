/** The logger and the file writer behind it as one system. */
module EndToEnd {
  import opened Wrappers
  import opened ArchiveNames
  import opened LogChannel
  import opened FileLog

  const FILE: Output := "file"

  /** clocks holds the clock reading of every call of the file writer so far. */
  datatype System = System(log: State, file: FileState, clocks: seq<Clock>)

  /** The message that this step writes to the file output. */
  function Written(s: State, a: Action): Option<Msg> {
    if a == Deliver(FILE) && s.consumer.Delivering? then Some(s.consumer.m)
    else if a == Drain(FILE) && s.closer.Draining? then Some(s.closer.m)
    else None
  }

  function SystemStep(c: Config, f: Settings, s: System, a: Action, k: Clock): Option<System>
    requires IsClock(k) && f.filename in s.file.files
  {
    var t := Step(c, s.log, a);
    if t.None? then None
    else
      match Written(s.log, a)
      case None => Some(s.(log := t.value))
      case Some(m) => Some(System(t.value, Write(f, s.file, m, k), s.clocks + [k]))
  }

  /** The file is what writing the delivered messages one by one makes of the initial one. */
  ghost predicate SystemInv(c: Config, f: Settings, file0: FileState, s: System) {
    FILE in c.outputs && Inv(c, s.log) && FileMatches(f, file0, s.file, s.log.got[FILE], s.clocks)
  }

  lemma GotGrows(c: Config, s: State, a: Action)
    requires Inv(c, s) && FILE in c.outputs && Step(c, s, a).Some?
    ensures var t := Step(c, s, a).value;
            FILE in t.got
            && t.got[FILE] == s.got[FILE] + match Written(s, a) { case None => [] case Some(m) => [m] }
  {
  }

  lemma WriteAllOneMore(f: Settings, s: FileState, ms: seq<Msg>, ks: seq<Clock>, m: Msg, k: Clock)
    requires |ms| == |ks| && f.filename in s.files && IsClock(k) && forall i :: 0 <= i < |ks| ==> IsClock(ks[i])
    ensures WriteAll(f, s, ms + [m], ks + [k]) == Write(f, WriteAll(f, s, ms, ks), m, k)
  {
    assert (ms + [m])[..|ms|] == ms && (ks + [k])[..|ks|] == ks;
  }

  /** The part of the invariant that is about the file. */
  ghost predicate FileMatches(f: Settings, file0: FileState, file: FileState, got: seq<Msg>, clocks: seq<Clock>) {
    Sound(f, file0) && |clocks| == |got| && (forall i :: 0 <= i < |clocks| ==> IsClock(clocks[i]))
    && file == WriteAll(f, file0, got, clocks)
  }

  lemma FileMatchesMore(f: Settings, file0: FileState, file: FileState, got: seq<Msg>, clocks: seq<Clock>, m: Msg,
                        k: Clock)
    requires FileMatches(f, file0, file, got, clocks) && IsClock(k)
    ensures f.filename in file.files && FileMatches(f, file0, Write(f, file, m, k), got + [m], clocks + [k])
  {
    WriteAllOneMore(f, file0, got, clocks, m, k);
  }

  lemma SystemStepKeepsInv(c: Config, f: Settings, file0: FileState, s: System, a: Action, k: Clock)
    requires SystemInv(c, f, file0, s) && IsClock(k) && SystemStep(c, f, s, a, k).Some?
    ensures SystemInv(c, f, file0, SystemStep(c, f, s, a, k).value)
  {
    var t := SystemStep(c, f, s, a, k).value;
    var got := s.log.got[FILE];
    assert Inv(c, t.log) by {
      StepKeepsInv(c, s.log, a);
    }
    GotGrows(c, s.log, a);
    if Written(s.log, a).Some? {
      FileMatchesMore(f, file0, s.file, got, s.clocks, Written(s.log, a).value, k);
    } else {
      assert t.log.got[FILE] == got + [] == got;
    }
  }

  datatype Event = Event(a: Action, k: Clock)

  ghost predicate Reaches(c: Config, f: Settings, s: System, run: seq<Event>, t: System)
    decreases |run|
  {
    if run == [] then s == t
    else
      IsClock(run[0].k) && f.filename in s.file.files && SystemStep(c, f, s, run[0].a, run[0].k).Some?
      && Reaches(c, f, SystemStep(c, f, s, run[0].a, run[0].k).value, run[1..], t)
  }

  lemma {:induction false} ReachesKeepsInv(c: Config, f: Settings, file0: FileState, s: System, run: seq<Event>,
                                           t: System)
    requires SystemInv(c, f, file0, s) && Reaches(c, f, s, run, t)
    ensures SystemInv(c, f, file0, t)
    decreases |run|
  {
    if run != [] {
      SystemStepKeepsInv(c, f, file0, s, run[0].a, run[0].k);
      ReachesKeepsInv(c, f, file0, SystemStep(c, f, s, run[0].a, run[0].k).value, run[1..], t);
    }
  }

  function Actions(run: seq<Event>): seq<Action> {
    seq(|run|, i requires 0 <= i < |run| => run[i].a)
  }

  // The logger's part of a run is a run of the logger.
  lemma {:induction false} ReachesRuns(c: Config, f: Settings, s: System, run: seq<Event>, t: System)
    requires Reaches(c, f, s, run, t)
    ensures Run(c, s.log, Actions(run)) == Some(t.log)
    decreases |run|
  {
    if run != [] {
      ReachesRuns(c, f, SystemStep(c, f, s, run[0].a, run[0].k).value, run[1..], t);
      assert Actions(run)[1..] == Actions(run[1..]);
    }
  }

  // And every run of the logger is one of the system: the file never holds the logger up.
  lemma {:induction false} RunsReach(c: Config, f: Settings, file0: FileState, s: System, run: seq<Event>)
    returns (t: System)
    requires SystemInv(c, f, file0, s) && Run(c, s.log, Actions(run)).Some?
    requires forall i :: 0 <= i < |run| ==> IsClock(run[i].k)
    ensures Reaches(c, f, s, run, t)
    decreases |run|
  {
    if run == [] {
      t := s;
    } else {
      assert Actions(run)[1..] == Actions(run[1..]);
      assert f.filename in s.file.files by {
        WriteAllConserves(f, file0, s.log.got[FILE], s.clocks);
      }
      SystemStepKeepsInv(c, f, file0, s, run[0].a, run[0].k);
      t := RunsReach(c, f, file0, SystemStep(c, f, s, run[0].a, run[0].k).value, run[1..]);
    }
  }

  lemma AcceptedIsSent(c: Config, f: Settings, file0: FileState, run: seq<Event>, t: System)
    requires Reaches(c, f, System(Start(c), file0, []), run, t)
    ensures t.log.sent == Accepted(c, Actions(run))
  {
    ReachesRuns(c, f, System(Start(c), file0, []), run, t);
    SentIsAccepted(c, Start(c), Actions(run));
  }

  // In every state that any interleaving of producers, consumer and close reaches, archives in rotation
  // order followed by the current file are the initial content followed by the framed messages delivered
  // so far whose level passes the writer's threshold; and those delivered, with those still on their
  // way, are all that the producers brought at or above the logger's threshold, in order.
  lemma NothingLost(c: Config, f: Settings, file0: FileState, run: seq<Event>, t: System)
    requires FILE in c.outputs && Sound(f, file0)
    requires Reaches(c, f, System(Start(c), file0, []), run, t)
    ensures FILE in t.log.got && |t.clocks| == |t.log.got[FILE]| && Sound(f, t.file) && OthersKept(f, file0, t.file)
    ensures Whole(f, t.file) == Whole(f, file0) + Frames(f, t.log.got[FILE], t.clocks)
    ensures t.log.got[FILE] + InFlight(t.log, FILE) + t.log.queue == Accepted(c, Actions(run))
  {
    var s := System(Start(c), file0, []);
    StartKeepsInv(c);
    assert SystemInv(c, f, file0, s);
    ReachesKeepsInv(c, f, file0, s, run, t);
    WriteAllConserves(f, file0, t.log.got[FILE], t.clocks);
    AcceptedIsSent(c, f, file0, run, t);
    assert Accounted(t.log, FILE);
  }

  /** The whole text is the initial one and the frames of the messages ms, at some times. */
  ghost predicate TextHolds(f: Settings, file0: FileState, file: FileState, ms: seq<Msg>)
    requires Sound(f, file0) && Sound(f, file)
  {
    exists ks: seq<Clock> :: |ks| == |ms| && (forall i :: 0 <= i < |ks| ==> IsClock(ks[i]))
                             && Whole(f, file) == Whole(f, file0) + Frames(f, ms, ks)
  }

  /** How many characters the messages take in the file. */
  function FramesSize(f: Settings, ms: seq<Msg>): nat {
    if ms == [] then 0
    else
      var m := ms[|ms| - 1];
      FramesSize(f, ms[..|ms| - 1]) + if Passes(f, m) then 21 + |m.text| else 0
  }

  lemma {:induction false} FramesHaveSize(f: Settings, ms: seq<Msg>, ks: seq<Clock>)
    requires |ms| == |ks| && forall i :: 0 <= i < |ks| ==> IsClock(ks[i])
    ensures |Frames(f, ms, ks)| == FramesSize(f, ms)
    decreases |ms|
  {
    if ms != [] {
      FramesHaveSize(f, ms[..|ms| - 1], ks[..|ms| - 1]);
    }
  }

  ghost predicate NonePasses(f: Settings, ms: seq<Msg>) {
    forall i :: 0 <= i < |ms| ==> !Passes(f, ms[i])
  }

  // Messages behind others take no room exactly when none of them passes the threshold.
  lemma {:induction false} LaterSize(f: Settings, ms: seq<Msg>, more: seq<Msg>)
    ensures FramesSize(f, ms + more) >= FramesSize(f, ms)
    ensures FramesSize(f, ms + more) == FramesSize(f, ms) <==> NonePasses(f, more)
    decreases |more|
  {
    if more == [] {
      assert ms + more == ms;
    } else {
      var n := |more| - 1;
      assert (ms + more)[..|ms + more| - 1] == ms + more[..n];
      LaterSize(f, ms, more[..n]);
      assert NonePasses(f, more) <==> NonePasses(f, more[..n]) && !Passes(f, more[n]);
    }
  }

  lemma {:induction false} LaterFrames(f: Settings, ms: seq<Msg>, ks: seq<Clock>, more: seq<Msg>, k: Clock)
    returns (all: seq<Clock>)
    requires |ms| == |ks| && IsClock(k) && NonePasses(f, more) && forall i :: 0 <= i < |ks| ==> IsClock(ks[i])
    ensures |all| == |ms + more| && forall i :: 0 <= i < |all| ==> IsClock(all[i])
    ensures Frames(f, ms + more, all) == Frames(f, ms, ks)
    decreases |more|
  {
    if more == [] {
      assert ms + more == ms;
      all := ks;
    } else {
      var n := |more| - 1;
      var some := LaterFrames(f, ms, ks, more[..n], k);
      all := some + [k];
      assert (ms + more)[..|ms + more| - 1] == ms + more[..n] && all[..|all| - 1] == some;
    }
  }

  lemma TextHoldsExact(f: Settings, file0: FileState, file: FileState, got: seq<Msg>, clocks: seq<Clock>,
                       more: seq<Msg>)
    requires Sound(f, file0) && Sound(f, file) && |clocks| == |got|
    requires forall i :: 0 <= i < |clocks| ==> IsClock(clocks[i])
    requires Whole(f, file) == Whole(f, file0) + Frames(f, got, clocks)
    ensures TextHolds(f, file0, file, got + more) <==> NonePasses(f, more)
  {
    LaterSize(f, got, more);
    FramesHaveSize(f, got, clocks);
    if ks: seq<Clock> :| |ks| == |got + more| && (forall i :: 0 <= i < |ks| ==> IsClock(ks[i]))
                         && Whole(f, file) == Whole(f, file0) + Frames(f, got + more, ks) {
      FramesHaveSize(f, got + more, ks);
    }
    if NonePasses(f, more) {
      var k := Clock(Day(2024, 1, 1), "2024/01/01 00:00:00 ");
      var all := LaterFrames(f, got, clocks, more, k);
    }
  }

  // When Close has come to its end, the archives and the file hold every message the producers brought that
  // passes both thresholds if and only if no such message is left in the channel, that is, none got in after
  // Close had found the channel empty.
  lemma AllWritten(c: Config, f: Settings, file0: FileState, run: seq<Event>, t: System)
    requires FILE in c.outputs && Sound(f, file0) && t.log.closer == Closed
    requires Reaches(c, f, System(Start(c), file0, []), run, t)
    ensures Sound(f, t.file) && (TextHolds(f, file0, t.file, Accepted(c, Actions(run))) <==> NonePasses(f, t.log.queue))
  {
    var s := System(Start(c), file0, []);
    StartKeepsInv(c);
    assert SystemInv(c, f, file0, s);
    ReachesKeepsInv(c, f, file0, s, run, t);
    NothingLost(c, f, file0, run, t);
    var got := t.log.got[FILE];
    assert Accepted(c, Actions(run)) == got + t.log.queue by {
      assert InFlight(t.log, FILE) == [];
      assert got + [] == got;
    }
    TextHoldsExact(f, file0, t.file, got, t.clocks, t.log.queue);
  }
}
