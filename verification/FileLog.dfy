/** What writing a message does to the log directory: the meaning of the rotating file writer. */
module FileLog {
  import opened Wrappers
  import opened ArchiveNames
  import opened LogChannel

  type Files = map<string, string>

  datatype Settings = Settings(filename: string, maxlines: int, maxsize: int, daily: bool, rotate: bool, level: int)

  /** lines, size and openDay are what the writer tracks; archived lists its rotations, oldest first. */
  datatype FileState = FileState(files: Files, lines: int, size: int, openDay: nat, archived: seq<Archive>)

  /** What the clock shows during one call: the day, and the twenty characters of Ldate|Ltime. */
  datatype Clock = Clock(day: Day, stamp: string)

  predicate IsClock(k: Clock) { IsDay(k.day) && |k.stamp| == 20 }

  function Newlines(s: string): nat {
    if s == [] then 0 else Newlines(s[..|s| - 1]) + if s[|s| - 1] == '\n' then 1 else 0
  }

  /** len(strings.Split(content, "\n")), but 0 for an empty file. */
  function CountedLines(content: string): nat {
    if content == [] then 0 else Newlines(content) + 1
  }

  /** Opens the file and reads what it holds. */
  function Open(c: Settings, files: Files, day: Day, archived: seq<Archive>): FileState {
    var present := if c.filename in files then files else files[c.filename := ""];
    var content := present[c.filename];
    FileState(present, CountedLines(content), |content|, day.day, archived)
  }

  /** The least free number from num on, 1000 if there is none. */
  function FreeNumber(c: Settings, files: Files, day: Day, num: nat): (r: nat)
    requires IsDay(day) && 1 <= num <= 1000
    ensures num <= r <= 1000
    ensures forall m :: num <= m < r ==> Name(c.filename, Archive(day, m)) in files
    ensures r < 1000 ==> Name(c.filename, Archive(day, r)) !in files
    decreases 1000 - num
  {
    if num == 1000 || Name(c.filename, Archive(day, num)) !in files then num
    else FreeNumber(c, files, day, num + 1)
  }

  /** None is "cannot find free log number". */
  function Rotate(c: Settings, s: FileState, day: Day): Option<FileState>
    requires IsDay(day)
  {
    if c.filename !in s.files then Some(s)
    else
      var n := FreeNumber(c, s.files, day, 1);
      if n == 1000 then None
      else
        var a := Archive(day, n);
        var moved := (s.files - {c.filename})[Name(c.filename, a) := s.files[c.filename]];
        Some(Open(c, moved, day, s.archived + [a]))
  }

  predicate Due(c: Settings, s: FileState, day: Day) {
    c.rotate && ((c.maxlines > 0 && s.lines >= c.maxlines) || (c.maxsize > 0 && s.size >= c.maxsize)
                 || (c.daily && day.day != s.openDay))
  }

  /** A failed rotation leaves the counters as they are. */
  function Check(c: Settings, s: FileState, day: Day, size: nat): FileState
    requires IsDay(day)
  {
    if !Due(c, s, day) then s.(lines := s.lines + 1, size := s.size + size)
    else
      match Rotate(c, s, day)
      case None => s
      case Some(t) => t.(lines := t.lines + 1, size := t.size + size)
  }

  function Frame(text: string, k: Clock): string {
    k.stamp + text + "\n"
  }

  predicate Passes(c: Settings, m: Msg) { c.level <= m.level }

  function Write(c: Settings, s: FileState, m: Msg, k: Clock): (t: FileState)
    requires IsClock(k) && c.filename in s.files
    ensures c.filename in t.files
  {
    if !Passes(c, m) then s
    else
      NamesDiffer(c, k.day);
      var t := Check(c, s, k.day, 24 + |m.text|);
      t.(files := t.files[c.filename := t.files[c.filename] + Frame(m.text, k)])
  }

  lemma NamesDiffer(c: Settings, day: Day)
    requires IsDay(day)
    ensures forall n :: 1 <= n <= 999 ==> Name(c.filename, Archive(day, n)) != c.filename
  {
    forall n | 1 <= n <= 999
      ensures Name(c.filename, Archive(day, n)) != c.filename
    {
      NameInjective(c.filename, Archive(day, n), Archive(day, n));
    }
  }

  /** The text of the archives, oldest first. */
  ghost function ArchivedText(c: Settings, files: Files, archived: seq<Archive>): string
    requires forall i :: 0 <= i < |archived| ==> IsArchive(archived[i]) && Name(c.filename, archived[i]) in files
  {
    if archived == [] then []
    else
      ArchivedText(c, files, archived[..|archived| - 1])
      + files[Name(c.filename, archived[|archived| - 1])]
  }

  ghost predicate Sound(c: Settings, s: FileState) {
    c.filename in s.files
    && (forall i :: 0 <= i < |s.archived| ==> IsArchive(s.archived[i]) && Name(c.filename, s.archived[i]) in s.files)
    && forall i, j :: 0 <= i < j < |s.archived| ==> s.archived[i] != s.archived[j]
  }

  /** All that was ever written: the archives, then the current file. */
  ghost function Whole(c: Settings, s: FileState): string
    requires Sound(c, s)
  {
    ArchivedText(c, s.files, s.archived) + s.files[c.filename]
  }

  lemma {:induction false} ArchivedTextFrame(c: Settings, files: Files, more: Files, archived: seq<Archive>)
    requires forall i :: 0 <= i < |archived| ==>
               IsArchive(archived[i]) && Name(c.filename, archived[i]) in files && Name(c.filename, archived[i]) in more
               && files[Name(c.filename, archived[i])] == more[Name(c.filename, archived[i])]
    ensures ArchivedText(c, files, archived) == ArchivedText(c, more, archived)
    decreases |archived|
  {
    if archived != [] {
      ArchivedTextFrame(c, files, more, archived[..|archived| - 1]);
    }
  }

  /** Files other than the log itself keep their content. */
  ghost predicate OthersKept(c: Settings, s: FileState, t: FileState) {
    forall f :: f in s.files && f != c.filename ==> f in t.files && t.files[f] == s.files[f]
  }

  // Rotation renames: it overwrites no file, and the whole text is the same before and after. It takes
  // the least free number of the day, and fails exactly when there is none.
  lemma RotateConserves(c: Settings, s: FileState, day: Day)
    requires IsDay(day) && Sound(c, s)
    ensures Rotate(c, s, day).None? <==> forall n :: 1 <= n <= 999 ==> Name(c.filename, Archive(day, n)) in s.files
    ensures Rotate(c, s, day).Some? ==>
              var t := Rotate(c, s, day).value;
              Sound(c, t) && OthersKept(c, s, t) && Whole(c, t) == Whole(c, s) && t.files[c.filename] == ""
  {
    var n := FreeNumber(c, s.files, day, 1);
    if n < 1000 {
      var a := Archive(day, n);
      var t := Rotate(c, s, day).value;
      forall i | 0 <= i < |s.archived|
        ensures s.archived[i] != a && Name(c.filename, s.archived[i]) != c.filename
      {
        NameInjective(c.filename, s.archived[i], a);
      }
      NameInjective(c.filename, a, a);
      assert t.archived == s.archived + [a];
      assert OthersKept(c, s, t);
      assert Sound(c, t);
      assert t.archived[..|s.archived|] == s.archived;
      ArchivedTextFrame(c, s.files, t.files, s.archived);
      assert t.files[Name(c.filename, a)] == s.files[c.filename];
    }
  }

  lemma CheckConserves(c: Settings, s: FileState, day: Day, size: nat)
    requires IsDay(day) && Sound(c, s)
    ensures var u := Check(c, s, day, size);
            Sound(c, u) && OthersKept(c, s, u) && Whole(c, u) == Whole(c, s)
  {
    RotateConserves(c, s, day);
  }

  lemma OthersKeptTwice(c: Settings, s: FileState, t: FileState, u: FileState)
    requires OthersKept(c, s, t) && OthersKept(c, t, u)
    ensures OthersKept(c, s, u)
  {
  }

  // A message that passes the threshold adds its frame to the whole text, rotation or not, and even
  // when no archive number is free; any other message changes nothing.
  lemma WriteConserves(c: Settings, s: FileState, m: Msg, k: Clock)
    requires IsClock(k) && Sound(c, s)
    ensures var t := Write(c, s, m, k);
            Sound(c, t) && OthersKept(c, s, t)
            && Whole(c, t) == Whole(c, s) + if Passes(c, m) then Frame(m.text, k) else []
  {
    if Passes(c, m) {
      var u := Check(c, s, k.day, 24 + |m.text|);
      CheckConserves(c, s, k.day, 24 + |m.text|);
      AppendConserves(c, u, Frame(m.text, k));
      OthersKeptTwice(c, s, u, Write(c, s, m, k));
    } else {
      assert Whole(c, s) + [] == Whole(c, s);
    }
  }

  lemma AppendConserves(c: Settings, u: FileState, text: string)
    requires Sound(c, u)
    ensures var t := u.(files := u.files[c.filename := u.files[c.filename] + text]);
            Sound(c, t) && OthersKept(c, u, t) && Whole(c, t) == Whole(c, u) + text
  {
    var t := u.(files := u.files[c.filename := u.files[c.filename] + text]);
    forall i | 0 <= i < |u.archived|
      ensures Name(c.filename, u.archived[i]) != c.filename
    {
      NameInjective(c.filename, u.archived[i], u.archived[i]);
    }
    ArchivedTextFrame(c, u.files, t.files, u.archived);
    assert Whole(c, t) == ArchivedText(c, u.files, u.archived) + (u.files[c.filename] + text);
  }

  /** Writing messages one after the other, each with its own reading of the clock. */
  function WriteAll(c: Settings, s: FileState, ms: seq<Msg>, ks: seq<Clock>): (t: FileState)
    requires |ms| == |ks| && c.filename in s.files && forall i :: 0 <= i < |ks| ==> IsClock(ks[i])
    ensures c.filename in t.files
  {
    if ms == [] then s
    else
      var n := |ms| - 1;
      Write(c, WriteAll(c, s, ms[..n], ks[..n]), ms[n], ks[n])
  }

  /** The frames of the messages that pass the threshold. */
  function Frames(c: Settings, ms: seq<Msg>, ks: seq<Clock>): string
    requires |ms| == |ks|
  {
    if ms == [] then []
    else
      var n := |ms| - 1;
      Frames(c, ms[..n], ks[..n]) + if Passes(c, ms[n]) then Frame(ms[n].text, ks[n]) else []
  }

  lemma {:induction false} WriteAllConserves(c: Settings, s: FileState, ms: seq<Msg>, ks: seq<Clock>)
    requires |ms| == |ks| && Sound(c, s) && forall i :: 0 <= i < |ks| ==> IsClock(ks[i])
    ensures var t := WriteAll(c, s, ms, ks);
            Sound(c, t) && OthersKept(c, s, t) && Whole(c, t) == Whole(c, s) + Frames(c, ms, ks)
    decreases |ms|
  {
    if ms == [] {
      assert Whole(c, s) + [] == Whole(c, s);
    } else {
      var n := |ms| - 1;
      WriteAllConserves(c, s, ms[..n], ks[..n]);
      OneWriteMore(c, s, WriteAll(c, s, ms[..n], ks[..n]), Frames(c, ms[..n], ks[..n]), ms[n], ks[n]);
    }
  }

  lemma OneWriteMore(c: Settings, s: FileState, u: FileState, frames: string, m: Msg, k: Clock)
    requires IsClock(k) && Sound(c, s) && Sound(c, u) && OthersKept(c, s, u) && Whole(c, u) == Whole(c, s) + frames
    ensures var t := Write(c, u, m, k);
            Sound(c, t) && OthersKept(c, s, t)
            && Whole(c, t) == Whole(c, s) + (frames + if Passes(c, m) then Frame(m.text, k) else [])
  {
    WriteConserves(c, u, m, k);
    OthersKeptTwice(c, s, u, Write(c, u, m, k));
    var x := if Passes(c, m) then Frame(m.text, k) else [];
    assert (Whole(c, s) + frames) + x == Whole(c, s) + (frames + x);
  }
}
