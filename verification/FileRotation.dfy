/** When the file writer rotates and when it does not, in terms of its settings and of what is in the file. */
module FileRotation {
  import opened ArchiveNames
  import opened LogChannel
  import opened FileLog
  import opened FileLimits

  /** No limit is reached that asks for a new file. */
  predicate HasRoom(c: Settings, lines: int, size: int, openDay: nat, day: Day) {
    c.rotate ==> (c.maxlines > 0 ==> lines < c.maxlines) && (c.maxsize > 0 ==> size < c.maxsize)
                 && (c.daily ==> day.day == openDay)
  }

  ghost predicate IsFree(c: Settings, files: FileLog.Files, day: Day, n: nat)
    requires IsDay(day)
  {
    1 <= n <= 999 && Name(c.filename, Archive(day, n)) !in files
  }

  ghost predicate NumberFree(c: Settings, files: FileLog.Files, day: Day)
    requires IsDay(day)
  {
    exists n :: IsFree(c, files, day, n)
  }

  /** t is s with the frame at the end of the same file, charged unless a rotation has failed. */
  ghost predicate Appended(c: Settings, s: FileState, t: FileState, frame: string, charge: nat, charged: bool)
    requires c.filename in s.files
  {
    t.archived == s.archived && t.openDay == s.openDay
    && t.files == s.files[c.filename := s.files[c.filename] + frame]
    && (t.lines, t.size) == if charged then (s.lines + 1, s.size + charge) else (s.lines, s.size)
  }

  /** t is s with its file renamed to the n-th archive of the day, and the frame in a new file. */
  ghost predicate Rotated(c: Settings, s: FileState, t: FileState, day: Day, n: nat, frame: string, charge: nat)
    requires c.filename in s.files && IsArchive(Archive(day, n))
  {
    t.archived == s.archived + [Archive(day, n)] && t.openDay == day.day
    && t.files == s.files[Name(c.filename, Archive(day, n)) := s.files[c.filename]][c.filename := frame]
    && (t.lines, t.size) == (1, charge)
  }

  /** The same for the least free number. */
  ghost predicate Moved(c: Settings, s: FileState, t: FileState, day: Day, frame: string, charge: nat)
    requires c.filename in s.files && IsDay(day)
  {
    exists n: nat :: IsFree(c, s.files, day, n) && (forall i: nat :: i < n ==> !IsFree(c, s.files, day, i))
                     && Rotated(c, s, t, day, n, frame, charge)
  }

  // All that a message does: nothing below the threshold; else it goes to a new file if a limit is reached
  // and a number of the day is free, the least one then, and to the same file otherwise.
  lemma WriteExact(c: Settings, s: FileState, m: Msg, k: Clock)
    requires IsClock(k) && c.filename in s.files
    ensures var t := Write(c, s, m, k);
            var frame, charge := k.stamp + m.text + "\n", 24 + |m.text|;
            var room, free := HasRoom(c, s.lines, s.size, s.openDay, k.day), NumberFree(c, s.files, k.day);
            if m.level < c.level then t == s
            else if room || !free then Appended(c, s, t, frame, charge, room)
            else Moved(c, s, t, k.day, frame, charge)
  {
    if c.level <= m.level && !HasRoom(c, s.lines, s.size, s.openDay, k.day) {
      var n := FreeNumber(c, s.files, k.day, 1);
      if n < 1000 {
        assert IsFree(c, s.files, k.day, n);
        NewFile(c, s, m, k, n);
      } else {
        assert Rotate(c, s, k.day).None?;
      }
    }
  }

  lemma NewFile(c: Settings, s: FileState, m: Msg, k: Clock, n: nat)
    requires IsClock(k) && c.filename in s.files && c.level <= m.level
    requires !HasRoom(c, s.lines, s.size, s.openDay, k.day)
    requires n == FreeNumber(c, s.files, k.day, 1) < 1000
    ensures Rotated(c, s, Write(c, s, m, k), k.day, n, k.stamp + m.text + "\n", 24 + |m.text|)
  {
    var a := Archive(k.day, n);
    NameInjective(c.filename, a, a);
    var moved := (s.files - {c.filename})[Name(c.filename, a) := s.files[c.filename]];
    var r := Rotate(c, s, k.day).value;
    assert r == Open(c, moved, k.day, s.archived + [a]);
    assert r.files == moved[c.filename := ""] && r.files[c.filename] == "";
    var frame := Frame(m.text, k);
    assert "" + frame == frame;
    assert moved[c.filename := ""][c.filename := frame]
        == s.files[Name(c.filename, a) := s.files[c.filename]][c.filename := frame];
  }

  /** How many messages pass the threshold, and what they are charged. */
  function Passing(c: Settings, ms: seq<Msg>): nat {
    if ms == [] then 0 else Passing(c, ms[..|ms| - 1]) + if c.level <= ms[|ms| - 1].level then 1 else 0
  }

  function Charges(c: Settings, ms: seq<Msg>): nat {
    if ms == [] then 0
    else Charges(c, ms[..|ms| - 1]) + if c.level <= ms[|ms| - 1].level then 24 + |ms[|ms| - 1].text| else 0
  }

  /** Each message that passes still finds room behind the ones before it. */
  ghost predicate AllHaveRoom(c: Settings, s: FileState, ms: seq<Msg>, ks: seq<Clock>)
    requires |ms| == |ks|
  {
    forall i :: 0 <= i < |ms| && c.level <= ms[i].level ==> RoomAt(c, s, ms, ks, i)
  }

  ghost predicate RoomAt(c: Settings, s: FileState, ms: seq<Msg>, ks: seq<Clock>, i: nat)
    requires i < |ms| == |ks|
  {
    HasRoom(c, s.lines + Passing(c, ms[..i]), s.size + Charges(c, ms[..i]), s.openDay, ks[i].day)
  }

  lemma AllHaveRoomMore(c: Settings, s: FileState, ms: seq<Msg>, ks: seq<Clock>)
    requires ms != [] && |ms| == |ks|
    ensures var n := |ms| - 1;
            AllHaveRoom(c, s, ms, ks)
            <==> AllHaveRoom(c, s, ms[..n], ks[..n]) && (c.level <= ms[n].level ==> RoomAt(c, s, ms, ks, n))
  {
    var n := |ms| - 1;
    forall i | 0 <= i < n
      ensures ms[..n][i] == ms[i] && RoomAt(c, s, ms[..n], ks[..n], i) == RoomAt(c, s, ms, ks, i)
    {
      assert ms[..n][..i] == ms[..i];
    }
  }

  /** s with these messages at the end of its file. */
  function Grown(c: Settings, s: FileState, ms: seq<Msg>, ks: seq<Clock>): FileState
    requires |ms| == |ks| && c.filename in s.files
  {
    s.(files := s.files[c.filename := s.files[c.filename] + Frames(c, ms, ks)],
       lines := s.lines + Passing(c, ms), size := s.size + Charges(c, ms))
  }

  lemma GrownMore(c: Settings, s: FileState, ms: seq<Msg>, ks: seq<Clock>)
    requires ms != [] && |ms| == |ks| && c.filename in s.files && IsClock(ks[|ms| - 1])
    requires c.level <= ms[|ms| - 1].level ==> RoomAt(c, s, ms, ks, |ms| - 1)
    ensures var n := |ms| - 1;
            Write(c, Grown(c, s, ms[..n], ks[..n]), ms[n], ks[n]) == Grown(c, s, ms, ks)
  {
    var n := |ms| - 1;
    var v := Grown(c, s, ms[..n], ks[..n]);
    WriteExact(c, v, ms[n], ks[n]);
    var content, frames := s.files[c.filename], Frames(c, ms[..n], ks[..n]);
    if c.level <= ms[n].level {
      var frame := ks[n].stamp + ms[n].text + "\n";
      assert Frames(c, ms, ks) == frames + frame;
      assert (content + frames) + frame == content + (frames + frame);
    } else {
      assert Frames(c, ms, ks) == frames + [] == frames;
    }
  }

  // While there is room nothing is archived and all frames go to the same file.
  lemma {:induction false} RunWithRoom(c: Settings, s: FileState, ms: seq<Msg>, ks: seq<Clock>)
    requires |ms| == |ks| && c.filename in s.files && (forall i :: 0 <= i < |ks| ==> IsClock(ks[i]))
    requires AllHaveRoom(c, s, ms, ks)
    ensures WriteAll(c, s, ms, ks) == Grown(c, s, ms, ks)
    decreases |ms|
  {
    if ms == [] {
      assert s.files[c.filename] + [] == s.files[c.filename];
    } else {
      AllHaveRoomMore(c, s, ms, ks);
      RunWithRoom(c, s, ms[..|ms| - 1], ks[..|ms| - 1]);
      GrownMore(c, s, ms, ks);
    }
  }

  lemma WriteArchives(c: Settings, s: FileState, m: Msg, k: Clock)
    requires IsClock(k) && c.filename in s.files
    ensures |Write(c, s, m, k).archived| >= |s.archived|
    ensures c.level <= m.level && !HasRoom(c, s.lines, s.size, s.openDay, k.day) && NumberFree(c, s.files, k.day)
            ==> |Write(c, s, m, k).archived| > |s.archived|
  {
    WriteExact(c, s, m, k);
  }

  lemma FirstRotation(c: Settings, s: FileState, ms: seq<Msg>, ks: seq<Clock>)
    requires ms != [] && |ms| == |ks| && c.filename in s.files && IsClock(ks[|ms| - 1])
    requires c.level <= ms[|ms| - 1].level && !RoomAt(c, s, ms, ks, |ms| - 1)
    requires NumberFree(c, s.files, ks[|ms| - 1].day)
    ensures var n := |ms| - 1;
            |Write(c, Grown(c, s, ms[..n], ks[..n]), ms[n], ks[n]).archived| > |s.archived|
  {
    var n := |ms| - 1;
    var v := Grown(c, s, ms[..n], ks[..n]);
    assert v.files.Keys == s.files.Keys;
    var free :| IsFree(c, s.files, ks[n].day, free);
    assert IsFree(c, v.files, ks[n].day, free);
    WriteArchives(c, v, ms[n], ks[n]);
  }

  lemma {:induction false} RunRotates(c: Settings, s: FileState, ms: seq<Msg>, ks: seq<Clock>)
    requires |ms| == |ks| && c.filename in s.files && !AllHaveRoom(c, s, ms, ks)
    requires forall i :: 0 <= i < |ks| ==> IsClock(ks[i]) && NumberFree(c, s.files, ks[i].day)
    ensures |WriteAll(c, s, ms, ks).archived| > |s.archived|
    decreases |ms|
  {
    var n := |ms| - 1;
    AllHaveRoomMore(c, s, ms, ks);
    var v := WriteAll(c, s, ms[..n], ks[..n]);
    assert |Write(c, v, ms[n], ks[n]).archived| > |s.archived| by {
      if AllHaveRoom(c, s, ms[..n], ks[..n]) {
        RunWithRoom(c, s, ms[..n], ks[..n]);
        FirstRotation(c, s, ms, ks);
      } else {
        RunRotates(c, s, ms[..n], ks[..n]);
        WriteArchives(c, v, ms[n], ks[n]);
      }
    }
  }

  // Over a run, if every day of the run has a free number, the first message that finds no room is the
  // first to open a new file: nothing is archived if and only if all that pass have room.
  lemma RunRotatesExact(c: Settings, s: FileState, ms: seq<Msg>, ks: seq<Clock>)
    requires |ms| == |ks| && c.filename in s.files
    requires forall i :: 0 <= i < |ks| ==> IsClock(ks[i]) && NumberFree(c, s.files, ks[i].day)
    ensures var t := WriteAll(c, s, ms, ks);
            if AllHaveRoom(c, s, ms, ks) then t == Grown(c, s, ms, ks) else |t.archived| > |s.archived|
  {
    if AllHaveRoom(c, s, ms, ks) {
      RunWithRoom(c, s, ms, ks);
    } else {
      RunRotates(c, s, ms, ks);
    }
  }

  // With rotation off nothing is ever archived.
  lemma NeverRotates(c: Settings, s: FileState, ms: seq<Msg>, ks: seq<Clock>)
    requires |ms| == |ks| && c.filename in s.files && (forall i :: 0 <= i < |ks| ==> IsClock(ks[i])) && !c.rotate
    ensures WriteAll(c, s, ms, ks) == Grown(c, s, ms, ks)
  {
    RunWithRoom(c, s, ms, ks);
  }

  lemma {:induction false} PrefixTakesLess(c: Settings, ms: seq<Msg>, i: nat)
    requires i < |ms|
    ensures Charges(c, ms[..i]) <= Charges(c, ms)
    ensures c.level <= ms[i].level ==> Passing(c, ms[..i]) < Passing(c, ms)
    ensures Passing(c, ms[..i]) <= Passing(c, ms)
    decreases |ms|
  {
    var n := |ms| - 1;
    if i < n {
      assert ms[..n][..i] == ms[..i];
      PrefixTakesLess(c, ms[..n], i);
    }
  }

  // A writer that starts with an empty file keeps everything in it while the messages that pass are no more
  // than maxlines, cost less than maxsize and are all of the day it was opened on.
  lemma StaysInOneFile(c: Settings, files: FileLog.Files, day: Day, ms: seq<Msg>, ks: seq<Clock>)
    requires |ms| == |ks| && (forall i :: 0 <= i < |ks| ==> IsClock(ks[i]))
    requires c.filename in files ==> files[c.filename] == ""
    requires c.maxlines > 0 ==> Passing(c, ms) <= c.maxlines
    requires c.maxsize > 0 ==> Charges(c, ms) < c.maxsize
    requires c.daily ==> OfDay(c, ms, ks, day.day)
    ensures var t := WriteAll(c, Open(c, files, day, []), ms, ks);
            t.archived == [] && t.files == files[c.filename := Frames(c, ms, ks)]
  {
    var s := Open(c, files, day, []);
    forall i | 0 <= i < |ms| && c.level <= ms[i].level
      ensures RoomAt(c, s, ms, ks, i)
    {
      PrefixTakesLess(c, ms, i);
      assert Passes(c, ms[i]);
    }
    RunWithRoom(c, s, ms, ks);
    assert "" + Frames(c, ms, ks) == Frames(c, ms, ks);
  }

  /** Lines joined by newlines. */
  function Join(ps: seq<string>): string
    requires ps != []
  {
    if |ps| == 1 then ps[0] else Join(ps[..|ps| - 1]) + ("\n" + ps[|ps| - 1])
  }

  // What is known of a file that is opened: its size, the day, and as lines the pieces between its newlines,
  // none if it is empty.
  lemma OpenExact(c: Settings, files: FileLog.Files, day: Day, archived: seq<Archive>, ps: seq<string>)
    requires ps != [] && forall i :: 0 <= i < |ps| ==> '\n' !in ps[i]
    requires Join(ps) == if c.filename in files then files[c.filename] else ""
    ensures Open(c, files, day, archived)
            == FileState(files[c.filename := Join(ps)], if Join(ps) == "" then 0 else |ps|, |Join(ps)|, day.day,
                         archived)
  {
    JoinNewlines(ps);
    assert c.filename in files ==> files[c.filename := files[c.filename]] == files;
  }

  lemma {:induction false} JoinNewlines(ps: seq<string>)
    requires ps != [] && forall i :: 0 <= i < |ps| ==> '\n' !in ps[i]
    ensures Newlines(Join(ps)) == |ps| - 1
    decreases |ps|
  {
    var n := |ps| - 1;
    NoNewlines(ps[n]);
    if n > 0 {
      JoinNewlines(ps[..n]);
      NewlinesAdd(Join(ps[..n]), "\n" + ps[n]);
      NewlinesAdd("\n", ps[n]);
      assert "\n"[..0] == "";
    }
  }
}
