/** The file writer as an object that updates its counters and the directory in place. */
module FileLogWriter {
  import opened ArchiveNames
  import opened LogChannel
  import opened FileLog

  /** The directory; only the writer touches its files. */
  class FileSystem {
    var files: FileLog.Files

    constructor (files: FileLog.Files)
      ensures this.files == files
    {
      this.files := files;
    }
  }

  // Looks at the names one after the other until one is free; 1000 if none is.
  method FindNumber(c: Settings, files: FileLog.Files, day: Day) returns (free: nat)
    requires IsDay(day)
    ensures free == FreeNumber(c, files, day, 1)
  {
    var num, taken := 1, true;
    while taken && num <= 999
      invariant 1 <= num <= 1000
      invariant taken ==> FreeNumber(c, files, day, 1) == FreeNumber(c, files, day, num)
      invariant !taken ==> num > 1 && FreeNumber(c, files, day, 1) == num - 1
    {
      var fname := Name(c.filename, Archive(day, num));
      taken := fname in files;
      num := num + 1;
    }
    free := if taken then 1000 else num - 1;
  }

  class Writer {
    const settings: Settings
    const fs: FileSystem
    var maxlinesCurlines: int
    var maxsizeCursize: int
    var dailyOpendate: nat
    ghost var archived: seq<Archive>

    ghost function View(): FileState
      reads this, fs
    {
      FileState(fs.files, maxlinesCurlines, maxsizeCursize, dailyOpendate, archived)
    }

    constructor (settings: Settings, fs: FileSystem, day: Day)
      modifies fs
      ensures this.settings == settings && this.fs == fs
      ensures View() == Open(settings, old(fs.files), day, [])
    {
      this.settings, this.fs := settings, fs;
      archived := [];
      new;
      StartLogger(day);
    }

    method StartLogger(day: Day)
      modifies this, fs
      ensures View() == Open(settings, old(fs.files), day, old(archived))
    {
      if settings.filename !in fs.files {
        fs.files := fs.files[settings.filename := ""];
      }
      InitFd(day);
    }

    method InitFd(day: Day)
      requires settings.filename in fs.files
      modifies this
      ensures View() == Open(settings, fs.files, day, old(archived))
    {
      var content := fs.files[settings.filename];
      maxsizeCursize := |content|;
      dailyOpendate := day.day;
      if |content| > 0 {
        var lines := CountLines(content);
        maxlinesCurlines := lines;
      } else {
        maxlinesCurlines := 0;
      }
    }

    // ok is false when no number is free; then nothing has changed.
    method DoRotate(day: Day) returns (ok: bool)
      requires IsDay(day)
      modifies this, fs
      ensures ok <==> Rotate(settings, old(View()), day).Some?
      ensures View() == if ok then Rotate(settings, old(View()), day).value else old(View())
    {
      var name := settings.filename;
      if name !in fs.files {
        return true;
      }
      var num := FindNumber(settings, fs.files, day);
      if num == 1000 {
        return false;
      }
      var fname := Name(name, Archive(day, num));
      fs.files := (fs.files - {name})[fname := fs.files[name]];
      archived := archived + [Archive(day, num)];
      StartLogger(day);
      ok := true;
    }

    method DoCheck(day: Day, size: nat)
      requires IsDay(day)
      modifies this, fs
      ensures View() == Check(settings, old(View()), day, size)
    {
      var c := settings;
      if c.rotate && ((c.maxlines > 0 && maxlinesCurlines >= c.maxlines)
                      || (c.maxsize > 0 && maxsizeCursize >= c.maxsize)
                      || (c.daily && day.day != dailyOpendate)) {
        var ok := DoRotate(day);
        if !ok {
          return;
        }
      }
      maxlinesCurlines := maxlinesCurlines + 1;
      maxsizeCursize := maxsizeCursize + size;
    }

    method WriteMsg(m: Msg, clock: Clock)
      requires IsClock(clock) && settings.filename in fs.files
      modifies this, fs
      ensures View() == Write(settings, old(View()), m, clock)
    {
      if m.level < settings.level {
        return;
      }
      NamesDiffer(settings, clock.day);
      DoCheck(clock.day, 24 + |m.text|);
      fs.files := fs.files[settings.filename := fs.files[settings.filename] + Frame(m.text, clock)];
    }
  }

  method CountLines(content: string) returns (n: nat)
    ensures n == Newlines(content) + 1
  {
    n := 1;
    for i := 0 to |content|
      invariant n == Newlines(content[..i]) + 1
    {
      assert content[..i + 1][..i] == content[..i];
      if content[i] == '\n' {
        n := n + 1;
      }
    }
    assert content[..|content|] == content;
  }
}
