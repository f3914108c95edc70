/** Names of rotated files and their lexicographic order. */
module ArchiveNames {
  import opened Keys

  datatype Day = Day(year: nat, month: nat, day: nat)

  /** Go formats the year with four digits, month and day with two. */
  predicate IsDay(d: Day) {
    d.year < 10000 && d.month < 100 && d.day < 100
  }

  predicate Before(a: Day, b: Day) {
    a.year < b.year || (a.year == b.year && (a.month < b.month || (a.month == b.month && a.day < b.day)))
  }

  function Pow10(w: nat): nat {
    if w == 0 then 1 else 10 * Pow10(w - 1)
  }

  /** n with leading zeros up to w digits. */
  function Pad(n: nat, w: nat): (s: string)
    requires n < Pow10(w)
    ensures |s| == w
  {
    if w == 0 then [] else Pad(n / 10, w - 1) + [Digit(n % 10)]
  }

  function DayText(d: Day): (s: string)
    requires IsDay(d)
    ensures |s| == 10
  {
    Fits();
    Pad(d.year, 4) + ("-" + (Pad(d.month, 2) + ("-" + Pad(d.day, 2))))
  }

  lemma Fits()
    ensures Pow10(2) == 100 && Pow10(3) == 1000 && Pow10(4) == 10000
  {
    assert Pow10(1) == 10;
    assert Pow10(2) == 100;
    assert Pow10(3) == 1000;
  }

  datatype Archive = Archive(day: Day, num: nat)

  predicate IsArchive(a: Archive) {
    IsDay(a.day) && 1 <= a.num <= 999
  }

  /** file.2006-01-02.001 */
  function Name(file: string, a: Archive): string
    requires IsArchive(a)
  {
    Fits();
    file + ("." + (DayText(a.day) + ("." + Pad(a.num, 3))))
  }

  predicate Earlier(a: Archive, b: Archive) {
    Before(a.day, b.day) || (a.day == b.day && a.num < b.num)
  }

  /** Strict lexicographic order by character code. */
  predicate Less(s: string, t: string) {
    t != [] && (s == [] || s[0] < t[0] || (s[0] == t[0] && Less(s[1..], t[1..])))
  }

  lemma {:induction false} LessAfterPrefix(p: string, s: string, t: string)
    requires Less(s, t)
    ensures Less(p + s, p + t)
  {
    if p == [] {
      assert p + s == s && p + t == t;
    } else {
      assert (p + s)[1..] == p[1..] + s && (p + t)[1..] == p[1..] + t;
      LessAfterPrefix(p[1..], s, t);
    }
  }

  lemma {:induction false} LessBeforeSuffix(s: string, x: string, t: string, y: string)
    requires |s| == |t| && Less(s, t)
    ensures Less(s + x, t + y)
  {
    if s[0] == t[0] {
      assert (s + x)[1..] == s[1..] + x && (t + y)[1..] == t[1..] + y;
      LessBeforeSuffix(s[1..], x, t[1..], y);
    }
  }

  lemma {:induction false} PadLess(m: nat, n: nat, w: nat)
    requires m < n < Pow10(w)
    ensures Less(Pad(m, w), Pad(n, w))
    decreases w
  {
    var s, t := Pad(m / 10, w - 1), Pad(n / 10, w - 1);
    if m / 10 < n / 10 {
      PadLess(m / 10, n / 10, w - 1);
      LessBeforeSuffix(s, [Digit(m % 10)], t, [Digit(n % 10)]);
    } else {
      assert s == t && Less([Digit(m % 10)], [Digit(n % 10)]);
      LessAfterPrefix(s, [Digit(m % 10)], [Digit(n % 10)]);
    }
  }

  lemma DayLess(a: Day, b: Day)
    requires IsDay(a) && IsDay(b) && Before(a, b)
    ensures Less(DayText(a), DayText(b))
  {
    Fits();
    var a2, b2 := "-" + Pad(a.day, 2), "-" + Pad(b.day, 2);
    var a1, b1 := "-" + (Pad(a.month, 2) + a2), "-" + (Pad(b.month, 2) + b2);
    if a.year < b.year {
      PadLess(a.year, b.year, 4);
      LessBeforeSuffix(Pad(a.year, 4), a1, Pad(b.year, 4), b1);
    } else {
      if a.month < b.month {
        PadLess(a.month, b.month, 2);
        LessBeforeSuffix(Pad(a.month, 2), a2, Pad(b.month, 2), b2);
      } else {
        PadLess(a.day, b.day, 2);
        LessAfterPrefix("-", Pad(a.day, 2), Pad(b.day, 2));
        LessAfterPrefix(Pad(a.month, 2), a2, b2);
      }
      LessAfterPrefix("-", Pad(a.month, 2) + a2, Pad(b.month, 2) + b2);
      LessAfterPrefix(Pad(a.year, 4), a1, b1);
    }
  }

  // Sorting archive names as text sorts them by day and number.
  lemma NameLess(file: string, a: Archive, b: Archive)
    requires IsArchive(a) && IsArchive(b) && Earlier(a, b)
    ensures Less(Name(file, a), Name(file, b))
  {
    Fits();
    var x, y := "." + Pad(a.num, 3), "." + Pad(b.num, 3);
    if Before(a.day, b.day) {
      DayLess(a.day, b.day);
      LessBeforeSuffix(DayText(a.day), x, DayText(b.day), y);
    } else {
      PadLess(a.num, b.num, 3);
      LessAfterPrefix(".", Pad(a.num, 3), Pad(b.num, 3));
      LessAfterPrefix(DayText(a.day), x, y);
    }
    LessAfterPrefix(".", DayText(a.day) + x, DayText(b.day) + y);
    LessAfterPrefix(file, "." + (DayText(a.day) + x), "." + (DayText(b.day) + y));
  }

  lemma {:induction false} LessIrreflexive(s: string)
    ensures !Less(s, s)
  {
    if s != [] {
      LessIrreflexive(s[1..]);
    }
  }

  // Different archives have different names, and no archive has the name of the log file itself.
  lemma NameInjective(file: string, a: Archive, b: Archive)
    requires IsArchive(a) && IsArchive(b)
    ensures Name(file, a) == Name(file, b) ==> a == b
    ensures Name(file, a) != file
  {
    if a != b {
      if Earlier(a, b) {
        NameLess(file, a, b);
      } else {
        NameLess(file, b, a);
      }
      LessIrreflexive(Name(file, a));
    }
    Fits();
    assert |Name(file, a)| == |file| + 15;
  }

  lemma {:induction false} PadReads(n: nat, w: nat)
    requires n < Pow10(w)
    ensures (forall i :: 0 <= i < w ==> IsDigit(Pad(n, w)[i])) && Append(0, Pad(n, w)) == n
    decreases w
  {
    if w > 0 {
      PadReads(n / 10, w - 1);
      AppendMore(0, Pad(n / 10, w - 1), Digit(n % 10));
    }
  }

  /** ds are w digits that write n. */
  ghost predicate WritesIn(ds: string, n: nat, w: nat) {
    |ds| == w && (forall i :: 0 <= i < w ==> IsDigit(ds[i])) && Append(0, ds) == n
  }

  lemma Regroup(file: string, y: string, m: string, d: string, n: string)
    ensures file + ("." + ((y + ("-" + (m + ("-" + d)))) + ("." + n)))
            == file + "." + y + "-" + m + "-" + d + "." + n
  {
  }

  // What an archive name looks like: four digits of the year, two each of month and day, three of the number.
  lemma NameText(file: string, a: Archive)
    requires IsArchive(a)
    ensures exists y, m, d, n :: WritesIn(y, a.day.year, 4) && WritesIn(m, a.day.month, 2) && WritesIn(d, a.day.day, 2)
                                 && WritesIn(n, a.num, 3)
                                 && Name(file, a) == file + "." + y + "-" + m + "-" + d + "." + n
  {
    Fits();
    PadReads(a.day.year, 4);
    PadReads(a.day.month, 2);
    PadReads(a.day.day, 2);
    PadReads(a.num, 3);
    var y, m, d, n := Pad(a.day.year, 4), Pad(a.day.month, 2), Pad(a.day.day, 2), Pad(a.num, 3);
    assert WritesIn(y, a.day.year, 4) && WritesIn(m, a.day.month, 2) && WritesIn(d, a.day.day, 2);
    assert WritesIn(n, a.num, 3);
    Regroup(file, y, m, d, n);
  }
}
