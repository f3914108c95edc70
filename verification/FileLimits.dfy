/** Size and line limits, and the order of the archives. */
module FileLimits {
  import opened ArchiveNames
  import opened LogChannel
  import opened FileLog

  /** The tracked size does not fall short of the file. */
  ghost predicate SizeTracked(c: Settings, s: FileState) {
    c.filename in s.files && |s.files[c.filename]| <= s.size
  }

  /** Nor do the tracked lines. */
  ghost predicate LinesTracked(c: Settings, s: FileState) {
    c.filename in s.files && Newlines(s.files[c.filename]) <= s.lines
  }

  ghost predicate Tracks(c: Settings, s: FileState) {
    SizeTracked(c, s) && LinesTracked(c, s)
  }

  /** A content that respects the limits, for messages of at most longest characters. */
  ghost predicate InLimits(c: Settings, content: string, longest: nat) {
    (c.maxlines > 0 ==> Newlines(content) <= c.maxlines)
    && (c.maxsize > 0 ==> |content| < c.maxsize + 21 + longest)
  }

  ghost predicate AllInLimits(c: Settings, s: FileState, longest: nat) {
    Sound(c, s) && InLimits(c, s.files[c.filename], longest)
    && forall i :: 0 <= i < |s.archived| ==> InLimits(c, s.files[Name(c.filename, s.archived[i])], longest)
  }

  predicate OneLine(m: Msg) { '\n' !in m.text }

  lemma {:induction false} NewlinesAdd(s: string, t: string)
    ensures Newlines(s + t) == Newlines(s) + Newlines(t)
    decreases |t|
  {
    if t == [] {
      assert s + t == s;
    } else {
      assert (s + t)[..|s + t| - 1] == s + t[..|t| - 1];
      NewlinesAdd(s, t[..|t| - 1]);
    }
  }

  lemma {:induction false} NoNewlines(s: string)
    requires '\n' !in s
    ensures Newlines(s) == 0
  {
    if s != [] {
      NoNewlines(s[..|s| - 1]);
    }
  }

  // A frame is 21 characters longer than its message and the writer charges 24; a message without
  // newlines is one line and the writer charges one.
  lemma FrameCost(m: Msg, k: Clock)
    requires IsClock(k) && OneLine(m) && '\n' !in k.stamp
    ensures |Frame(m.text, k)| == 21 + |m.text| && Newlines(Frame(m.text, k)) == 1
  {
    NewlinesAdd(k.stamp + m.text, "\n");
    NewlinesAdd(k.stamp, m.text);
    NoNewlines(k.stamp);
    NoNewlines(m.text);
    assert "\n"[..0] == "";
  }

  /** The rotation that this message asks for, if any, finds a free number. */
  predicate RotationSucceeds(c: Settings, s: FileState, m: Msg, k: Clock)
    requires IsClock(k)
  {
    Passes(c, m) && Due(c, s, k.day) ==> Rotate(c, s, k.day).Some?
  }

  // A file that has just been opened is tracked, whatever it holds.
  lemma OpenTracks(c: Settings, files: FileLog.Files, day: Day, archived: seq<Archive>)
    ensures Tracks(c, Open(c, files, day, archived))
  {
  }

  // Where the file stands when a message is about to be appended.
  lemma CheckLimits(c: Settings, s: FileState, day: Day, size: nat, longest: nat)
    requires IsDay(day) && Tracks(c, s) && AllInLimits(c, s, longest) && (Due(c, s, day) ==> Rotate(c, s, day).Some?)
    ensures var u := Check(c, s, day, size);
            AllInLimits(c, u, longest) && |u.files[c.filename]| + size <= u.size
            && Newlines(u.files[c.filename]) + 1 <= u.lines
            && (c.rotate && c.maxlines > 0 ==> Newlines(u.files[c.filename]) < c.maxlines)
            && (c.rotate && c.maxsize > 0 ==> |u.files[c.filename]| < c.maxsize)
  {
    if Due(c, s, day) {
      RotateConserves(c, s, day);
      RotateKeepsLimits(c, s, day, longest);
    }
  }

  lemma RotateKeepsLimits(c: Settings, s: FileState, day: Day, longest: nat)
    requires IsDay(day) && AllInLimits(c, s, longest) && Rotate(c, s, day).Some?
    ensures AllInLimits(c, Rotate(c, s, day).value, longest)
  {
    RotateConserves(c, s, day);
    var n := FreeNumber(c, s.files, day, 1);
    var a, t := Archive(day, n), Rotate(c, s, day).value;
    NameInjective(c.filename, a, a);
    forall i | 0 <= i < |t.archived|
      ensures InLimits(c, t.files[Name(c.filename, t.archived[i])], longest)
    {
      if i < |s.archived| {
        NameInjective(c.filename, s.archived[i], a);
        assert t.archived[i] == s.archived[i];
      } else {
        assert t.archived[i] == a;
      }
    }
  }

  lemma AppendKeepsLimits(c: Settings, u: FileState, text: string, longest: nat)
    requires AllInLimits(c, u, longest) && InLimits(c, u.files[c.filename] + text, longest)
    ensures AllInLimits(c, u.(files := u.files[c.filename := u.files[c.filename] + text]), longest)
  {
    AppendConserves(c, u, text);
    forall i | 0 <= i < |u.archived|
      ensures Name(c.filename, u.archived[i]) != c.filename
    {
      NameInjective(c.filename, u.archived[i], u.archived[i]);
    }
  }

  lemma WriteKeepsLimits(c: Settings, s: FileState, m: Msg, k: Clock, longest: nat)
    requires c.rotate && IsClock(k) && '\n' !in k.stamp && OneLine(m) && |m.text| <= longest
    requires Tracks(c, s) && AllInLimits(c, s, longest) && RotationSucceeds(c, s, m, k)
    ensures Tracks(c, Write(c, s, m, k)) && AllInLimits(c, Write(c, s, m, k), longest)
  {
    if Passes(c, m) {
      CheckLimits(c, s, k.day, 24 + |m.text|, longest);
      FrameCost(m, k);
      var u := Check(c, s, k.day, 24 + |m.text|);
      NewlinesAdd(u.files[c.filename], Frame(m.text, k));
      AppendKeepsLimits(c, u, Frame(m.text, k), longest);
    }
  }

  /** Every rotation a run asks for succeeds. */
  ghost predicate RotationsSucceed(c: Settings, s: FileState, ms: seq<Msg>, ks: seq<Clock>)
    requires |ms| == |ks| && c.filename in s.files && forall i :: 0 <= i < |ks| ==> IsClock(ks[i])
  {
    ms == []
    || (var n := |ms| - 1;
        RotationsSucceed(c, s, ms[..n], ks[..n])
        && RotationSucceeds(c, WriteAll(c, s, ms[..n], ks[..n]), ms[n], ks[n]))
  }

  lemma WriteTracksSize(c: Settings, s: FileState, m: Msg, k: Clock)
    requires IsClock(k) && SizeTracked(c, s) && RotationSucceeds(c, s, m, k)
    ensures SizeTracked(c, Write(c, s, m, k))
  {
  }

  lemma WriteTracksLines(c: Settings, s: FileState, m: Msg, k: Clock)
    requires IsClock(k) && '\n' !in k.stamp && OneLine(m) && LinesTracked(c, s) && RotationSucceeds(c, s, m, k)
    ensures LinesTracked(c, Write(c, s, m, k))
  {
    if Passes(c, m) {
      var u := Check(c, s, k.day, 24 + |m.text|);
      assert Newlines(u.files[c.filename]) + 1 <= u.lines;
      FrameCost(m, k);
      NewlinesAdd(u.files[c.filename], Frame(m.text, k));
    }
  }

  // The tracked size never falls short of the file over any run whose rotations succeed.
  lemma {:induction false} RunTracksSize(c: Settings, s: FileState, ms: seq<Msg>, ks: seq<Clock>)
    requires |ms| == |ks| && (forall i :: 0 <= i < |ks| ==> IsClock(ks[i])) && SizeTracked(c, s)
    requires RotationsSucceed(c, s, ms, ks)
    ensures SizeTracked(c, WriteAll(c, s, ms, ks))
    decreases |ms|
  {
    if ms != [] {
      var n := |ms| - 1;
      RunTracksSize(c, s, ms[..n], ks[..n]);
      WriteTracksSize(c, WriteAll(c, s, ms[..n], ks[..n]), ms[n], ks[n]);
    }
  }

  // Nor do the tracked lines, if the messages are of one line.
  lemma {:induction false} RunTracksLines(c: Settings, s: FileState, ms: seq<Msg>, ks: seq<Clock>)
    requires |ms| == |ks| && LinesTracked(c, s)
    requires forall i :: 0 <= i < |ks| ==> IsClock(ks[i]) && '\n' !in ks[i].stamp && OneLine(ms[i])
    requires RotationsSucceed(c, s, ms, ks)
    ensures LinesTracked(c, WriteAll(c, s, ms, ks))
    decreases |ms|
  {
    if ms != [] {
      var n := |ms| - 1;
      RunTracksLines(c, s, ms[..n], ks[..n]);
      WriteTracksLines(c, WriteAll(c, s, ms[..n], ks[..n]), ms[n], ks[n]);
    }
  }

  ghost predicate ShortLines(ms: seq<Msg>, ks: seq<Clock>, longest: nat) {
    (forall i :: 0 <= i < |ks| ==> IsClock(ks[i]) && '\n' !in ks[i].stamp)
    && forall i :: 0 <= i < |ms| ==> OneLine(ms[i]) && |ms[i].text| <= longest
  }

  // While every rotation succeeds, no file of a run of one-line messages ever exceeds maxlines lines, and
  // every file stays below maxsize plus one framed message.
  lemma {:induction false} RunKeepsLimits(c: Settings, s: FileState, ms: seq<Msg>, ks: seq<Clock>, longest: nat)
    requires |ms| == |ks| && c.rotate && Tracks(c, s) && AllInLimits(c, s, longest) && ShortLines(ms, ks, longest)
    requires RotationsSucceed(c, s, ms, ks)
    ensures Tracks(c, WriteAll(c, s, ms, ks)) && AllInLimits(c, WriteAll(c, s, ms, ks), longest)
    decreases |ms|
  {
    if ms != [] {
      var n := |ms| - 1;
      RunKeepsLimits(c, s, ms[..n], ks[..n], longest);
      WriteKeepsLimits(c, WriteAll(c, s, ms[..n], ks[..n]), ms[n], ks[n], longest);
    }
  }

  // So it is for a writer that has just opened its file, if that file is within the limits.
  lemma StartedRunKeepsLimits(c: Settings, files: FileLog.Files, day: Day, ms: seq<Msg>, ks: seq<Clock>, longest: nat)
    requires |ms| == |ks| && c.rotate && ShortLines(ms, ks, longest)
    requires c.filename in files ==> InLimits(c, files[c.filename], longest)
    requires RotationsSucceed(c, Open(c, files, day, []), ms, ks)
    ensures var t := WriteAll(c, Open(c, files, day, []), ms, ks);
            Tracks(c, t) && AllInLimits(c, t, longest)
  {
    OpenTracks(c, files, day, []);
    RunKeepsLimits(c, Open(c, files, day, []), ms, ks, longest);
  }

  /** The archive numbers of every day run from 1 without a gap. */
  ghost predicate NoGaps(c: Settings, files: FileLog.Files) {
    forall d, m, n :: IsDay(d) && 1 <= m < n <= 999 && Name(c.filename, Archive(d, n)) in files
                      ==> Name(c.filename, Archive(d, m)) in files
  }

  /** Rotations so far went forward in time and none is after today. */
  ghost predicate InOrder(s: FileState, today: Day) {
    (forall i, j :: 0 <= i < j < |s.archived| ==> Earlier(s.archived[i], s.archived[j]))
    && forall i :: 0 <= i < |s.archived| ==> !Before(today, s.archived[i].day)
  }

  lemma RotateKeepsGaps(c: Settings, s: FileState, day: Day)
    requires IsDay(day) && Sound(c, s) && NoGaps(c, s.files) && Rotate(c, s, day).Some?
    ensures NoGaps(c, Rotate(c, s, day).value.files)
  {
    var num := FreeNumber(c, s.files, day, 1);
    var t := Rotate(c, s, day).value;
    forall d, m, n | IsDay(d) && 1 <= m < n <= 999 && Name(c.filename, Archive(d, n)) in t.files
      ensures Name(c.filename, Archive(d, m)) in t.files
    {
      NameInjective(c.filename, Archive(d, n), Archive(day, num));
      NameInjective(c.filename, Archive(d, m), Archive(day, num));
    }
  }

  lemma UsedIsSmaller(c: Settings, files: FileLog.Files, num: nat, a: Archive)
    requires IsArchive(a) && 1 <= num <= 999 && NoGaps(c, files)
    requires Name(c.filename, a) in files && Name(c.filename, Archive(a.day, num)) !in files
    ensures a.num < num
  {
  }

  lemma RotateKeepsOrder(c: Settings, s: FileState, day: Day)
    requires IsDay(day) && Sound(c, s) && NoGaps(c, s.files) && InOrder(s, day) && Rotate(c, s, day).Some?
    ensures InOrder(Rotate(c, s, day).value, day)
  {
    var num := FreeNumber(c, s.files, day, 1);
    forall i | 0 <= i < |s.archived|
      ensures Earlier(s.archived[i], Archive(day, num))
    {
      var a := s.archived[i];
      if a.day == day {
        UsedIsSmaller(c, s.files, num, a);
      }
      BeforeIsTotal(a.day, day);
    }
  }

  lemma BeforeIsTotal(a: Day, b: Day)
    ensures a == b || Before(a, b) || Before(b, a)
  {
  }

  lemma WriteKeepsOrder(c: Settings, s: FileState, m: Msg, k: Clock)
    requires IsClock(k) && Sound(c, s) && NoGaps(c, s.files) && InOrder(s, k.day)
    ensures NoGaps(c, Write(c, s, m, k).files) && InOrder(Write(c, s, m, k), k.day)
  {
    if Passes(c, m) {
      var u := Check(c, s, k.day, 24 + |m.text|);
      if Due(c, s, k.day) && Rotate(c, s, k.day).Some? {
        RotateKeepsGaps(c, s, k.day);
        RotateKeepsOrder(c, s, k.day);
      }
      assert NoGaps(c, u.files) && InOrder(u, k.day);
      assert Write(c, s, m, k).files.Keys == u.files.Keys;
    }
  }

  /** Dates do not go back from one reading to the next. */
  ghost predicate Forward(ks: seq<Clock>) {
    forall i, j :: 0 <= i <= j < |ks| ==> !Before(ks[j].day, ks[i].day)
  }

  lemma LaterIsFine(s: FileState, day: Day, later: Day)
    requires InOrder(s, day) && !Before(later, day)
    ensures InOrder(s, later)
  {
  }

  lemma {:induction false} RunKeepsOrder(c: Settings, s: FileState, ms: seq<Msg>, ks: seq<Clock>)
    requires |ms| == |ks| && 0 < |ks| && Sound(c, s) && NoGaps(c, s.files) && InOrder(s, ks[0].day) && Forward(ks)
    requires forall i :: 0 <= i < |ks| ==> IsClock(ks[i])
    ensures NoGaps(c, WriteAll(c, s, ms, ks).files) && InOrder(WriteAll(c, s, ms, ks), ks[|ks| - 1].day)
    decreases |ms|
  {
    var n := |ms| - 1;
    var u := WriteAll(c, s, ms[..n], ks[..n]);
    WriteAllConserves(c, s, ms[..n], ks[..n]);
    if n > 0 {
      RunKeepsOrder(c, s, ms[..n], ks[..n]);
      LaterIsFine(u, ks[n - 1].day, ks[n].day);
    }
    WriteKeepsOrder(c, u, ms[n], ks[n]);
  }

  // If the archive numbers of each day start without gaps and dates do not go back, listing the archives
  // of a run by name lists them in the order of their rotations.
  lemma NamesAreInOrder(c: Settings, s: FileState, ms: seq<Msg>, ks: seq<Clock>, i: nat, j: nat)
    requires |ms| == |ks| && 0 < |ks| && Sound(c, s) && NoGaps(c, s.files) && InOrder(s, ks[0].day) && Forward(ks)
    requires forall i :: 0 <= i < |ks| ==> IsClock(ks[i])
    requires i < j < |WriteAll(c, s, ms, ks).archived|
    ensures var t := WriteAll(c, s, ms, ks);
            Sound(c, t) && Less(Name(c.filename, t.archived[i]), Name(c.filename, t.archived[j]))
  {
    WriteAllConserves(c, s, ms, ks);
    RunKeepsOrder(c, s, ms, ks);
    var t := WriteAll(c, s, ms, ks);
    NameLess(c.filename, t.archived[i], t.archived[j]);
  }

  /** Rotation is by date alone. */
  predicate ByDateOnly(c: Settings) {
    c.rotate && c.daily && c.maxlines <= 0 && c.maxsize <= 0
  }

  // Rotation by date alone looks at the day of the month: of two consecutive messages that pass, the second
  // is written to the file of the first exactly when their dates have the same day number.
  lemma DailyRotationExact(c: Settings, s: FileState, m: Msg, k: Clock, n: Msg, l: Clock)
    requires Sound(c, s) && IsClock(k) && IsClock(l) && Passes(c, m) && Passes(c, n)
    requires ByDateOnly(c) && RotationSucceeds(c, s, m, k) && RotationSucceeds(c, Write(c, s, m, k), n, l)
    ensures var t := Write(c, s, m, k);
            var u := Write(c, t, n, l);
            if k.day.day == l.day.day
            then u.archived == t.archived && u.files[c.filename] == t.files[c.filename] + Frame(n.text, l)
            else |u.archived| == |t.archived| + 1 && u.files[c.filename] == Frame(n.text, l)
  {
    var t := Write(c, s, m, k);
    WriteConserves(c, s, m, k);
    RotateConserves(c, t, l.day);
    assert t.openDay == k.day.day;
    assert "" + Frame(n.text, l) == Frame(n.text, l);
  }

  /** All messages that pass are of this day number. */
  ghost predicate OfDay(c: Settings, ms: seq<Msg>, ks: seq<Clock>, day: int)
    requires |ms| == |ks|
  {
    forall i :: 0 <= i < |ms| && Passes(c, ms[i]) ==> ks[i].day.day == day
  }

  lemma OfDayMore(c: Settings, ms: seq<Msg>, ks: seq<Clock>, day: int)
    requires ms != [] && |ms| == |ks|
    ensures var n := |ms| - 1;
            OfDay(c, ms, ks, day)
            <==> OfDay(c, ms[..n], ks[..n], day) && (Passes(c, ms[n]) ==> ks[n].day.day == day)
  {
    var n := |ms| - 1;
    assert forall i :: 0 <= i < n ==> ms[..n][i] == ms[i] && ks[..n][i] == ks[i];
  }

  /** If same holds, u is t with the frames in the same file, else a rotation lies between them. */
  ghost predicate Continues(c: Settings, t: FileState, u: FileState, frames: string, same: bool)
    requires c.filename in t.files && c.filename in u.files
  {
    if same
    then u.archived == t.archived && u.openDay == t.openDay && u.files[c.filename] == t.files[c.filename] + frames
    else |t.archived| < |u.archived|
  }

  lemma WriteByDate(c: Settings, s: FileState, m: Msg, k: Clock)
    requires ByDateOnly(c) && c.filename in s.files && IsClock(k) && RotationSucceeds(c, s, m, k)
    ensures Continues(c, s, Write(c, s, m, k), if Passes(c, m) then Frame(m.text, k) else [],
                      Passes(c, m) ==> k.day.day == s.openDay)
  {
    assert s.files[c.filename] + [] == s.files[c.filename];
  }

  lemma ContinuesTwice(c: Settings, t: FileState, v: FileState, u: FileState, f: string, g: string, fine: bool,
                       same: bool)
    requires c.filename in t.files && c.filename in v.files && c.filename in u.files
    requires Continues(c, t, v, f, fine) && Continues(c, v, u, g, same)
    ensures Continues(c, t, u, f + g, fine && same)
  {
    assert (t.files[c.filename] + f) + g == t.files[c.filename] + (f + g);
  }

  lemma {:induction false} RunByDate(c: Settings, t: FileState, ms: seq<Msg>, ks: seq<Clock>)
    requires ByDateOnly(c) && c.filename in t.files && |ms| == |ks|
    requires (forall i :: 0 <= i < |ks| ==> IsClock(ks[i])) && RotationsSucceed(c, t, ms, ks)
    ensures Continues(c, t, WriteAll(c, t, ms, ks), Frames(c, ms, ks), OfDay(c, ms, ks, t.openDay))
    decreases |ms|
  {
    if ms == [] {
      assert t.files[c.filename] + [] == t.files[c.filename];
    } else {
      var n := |ms| - 1;
      var v := WriteAll(c, t, ms[..n], ks[..n]);
      RunByDate(c, t, ms[..n], ks[..n]);
      WriteByDate(c, v, ms[n], ks[n]);
      OfDayMore(c, ms, ks, t.openDay);
      ContinuesTwice(c, t, v, Write(c, v, ms[n], ks[n]), Frames(c, ms[..n], ks[..n]),
                     if Passes(c, ms[n]) then Frame(ms[n].text, ks[n]) else [], OfDay(c, ms[..n], ks[..n], t.openDay),
                     Passes(c, ms[n]) ==> ks[n].day.day == v.openDay);
    }
  }

  // The same over a run: the messages after m are all written to the file of m, and no rotation happens,
  // exactly when all of them that pass have its day number.
  lemma SameFileExact(c: Settings, s: FileState, m: Msg, k: Clock, ms: seq<Msg>, ks: seq<Clock>)
    requires ByDateOnly(c) && c.filename in s.files && IsClock(k) && Passes(c, m) && |ms| == |ks|
    requires forall i :: 0 <= i < |ks| ==> IsClock(ks[i])
    requires RotationSucceeds(c, s, m, k) && RotationsSucceed(c, Write(c, s, m, k), ms, ks)
    ensures var t := Write(c, s, m, k);
            var u := WriteAll(c, t, ms, ks);
            if OfDay(c, ms, ks, k.day.day)
            then u.archived == t.archived && u.files[c.filename] == t.files[c.filename] + Frames(c, ms, ks)
            else |t.archived| < |u.archived|
  {
    var t := Write(c, s, m, k);
    assert t.openDay == k.day.day;
    RunByDate(c, t, ms, ks);
  }
}
