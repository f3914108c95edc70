/** The decimal text of a pid and the two kinds of map key built from it. */
module Keys {
  import opened Words

  predicate IsDigit(c: char) { '0' <= c <= '9' }

  function Digit(d: nat): char
    requires d < 10
  {
    ('0' as int + d) as char
  }

  /** strconv.FormatUint(n, 10). */
  function Decimal(n: nat): string {
    if n < 10 then [Digit(n)] else Decimal(n / 10) + [Digit(n % 10)]
  }

  /** The key of the consolidated table. */
  function TableKey(comm: string, pid: nat): string {
    comm + "-" + Decimal(pid)
  }

  /** The key of a snapshot: no separator between pid and command. */
  function SnapshotKey(pid: nat, comm: string): string {
    Decimal(pid) + comm
  }

  predicate StartsWithDigit(s: string) { s != [] && IsDigit(s[0]) }

  lemma DecimalIsDigits(n: nat)
    ensures Decimal(n) != []
    ensures forall i :: 0 <= i < |Decimal(n)| ==> IsDigit(Decimal(n)[i])
  {
  }

  lemma {:induction false} DecimalInjective(m: nat, n: nat)
    requires Decimal(m) == Decimal(n)
    ensures m == n
  {
    DecimalIsDigits(m / 10);
    DecimalIsDigits(n / 10);
    var s := Decimal(m);
    assert s[|s| - 1] == Digit(m % 10) == Digit(n % 10);
    if m >= 10 && n >= 10 {
      assert Decimal(m / 10) == s[..|s| - 1] == Decimal(n / 10);
      DecimalInjective(m / 10, n / 10);
    }
  }

  /** The position of the last dash of s, or -1. */
  ghost function LastDash(s: string): int {
    if s == [] then -1 else if s[|s| - 1] == '-' then |s| - 1 else LastDash(s[..|s| - 1])
  }

  lemma {:induction false} LastDashSeparates(c: string, t: string)
    requires forall i :: 0 <= i < |t| ==> IsDigit(t[i])
    ensures LastDash(c + "-" + t) == |c|
    decreases |t|
  {
    var s := c + "-" + t;
    if t != [] {
      assert s[..|s| - 1] == c + "-" + t[..|t| - 1];
      LastDashSeparates(c, t[..|t| - 1]);
    }
  }

  // Whatever the commands contain, dashes and digits included, the key names one command and one pid:
  // the last dash is the separator, because a decimal text has none.
  lemma TableKeyInjective(c: string, p: nat, d: string, q: nat)
    requires TableKey(c, p) == TableKey(d, q)
    ensures c == d && p == q
  {
    DecimalIsDigits(p);
    DecimalIsDigits(q);
    LastDashSeparates(c, Decimal(p));
    LastDashSeparates(d, Decimal(q));
    var s := TableKey(c, p);
    assert c == s[..|c|] == d;
    assert Decimal(p) == s[|c| + 1..] == Decimal(q);
    DecimalInjective(p, q);
  }

  lemma TableKeysInjective()
    ensures forall c, p: nat, d, q: nat {:trigger TableKey(c, p), TableKey(d, q)} ::
              TableKey(c, p) == TableKey(d, q) ==> c == d && p == q
  {
    forall c, p: nat, d, q: nat | TableKey(c, p) == TableKey(d, q)
      ensures c == d && p == q
    {
      TableKeyInjective(c, p, d, q);
    }
  }

  function LeadingDigits(s: string): (n: nat)
    ensures n <= |s| && forall i :: 0 <= i < n ==> IsDigit(s[i])
    ensures n < |s| ==> !IsDigit(s[n])
  {
    if StartsWithDigit(s) then 1 + LeadingDigits(s[1..]) else 0
  }

  lemma {:induction false} LeadingDigitsOf(t: string, c: string)
    requires forall i :: 0 <= i < |t| ==> IsDigit(t[i])
    requires !StartsWithDigit(c)
    ensures LeadingDigits(t + c) == |t|
  {
    if t == [] {
      assert t + c == c;
    } else {
      assert (t + c)[1..] == t[1..] + c;
      LeadingDigitsOf(t[1..], c);
    }
  }

  // Without a separator a snapshot key is unambiguous among commands that do not start with a digit.
  lemma SnapshotKeyInjective(p: nat, c: string, q: nat, d: string)
    requires SnapshotKey(p, c) == SnapshotKey(q, d)
    requires !StartsWithDigit(c) && !StartsWithDigit(d)
    ensures p == q && c == d
  {
    DecimalIsDigits(p);
    DecimalIsDigits(q);
    LeadingDigitsOf(Decimal(p), c);
    LeadingDigitsOf(Decimal(q), d);
    assert LeadingDigits(SnapshotKey(p, c)) == |Decimal(p)| == |Decimal(q)|;
    SameLength(p, c, q, d);
  }

  /** c is d with at least one digit in front. */
  predicate DigitsBefore(c: string, d: string) {
    |d| < |c| && c[|c| - |d|..] == d && forall i :: 0 <= i < |c| - |d| ==> IsDigit(c[i])
  }

  /** Two processes with different pids or commands and the same key; pids are 64-bit. */
  ghost predicate ShareKey(p: nat, c: string, q: nat, d: string) {
    0 < p < TWO_TO_64 && 0 < q < TWO_TO_64 && (p, c) != (q, d) && SnapshotKey(p, c) == SnapshotKey(q, d)
  }

  /** c is d with digits in front, which as digits after a 1 still write a 64-bit number. */
  ghost predicate ShortDigitsBefore(c: string, d: string) {
    DigitsBefore(c, d) && Append(1, c[..|c| - |d|]) < TWO_TO_64
  }

  lemma {:induction false} AppendGrows(m: nat, n: nat, ds: string)
    requires m <= n && forall i :: 0 <= i < |ds| ==> IsDigit(ds[i])
    ensures Append(m, ds) <= Append(n, ds)
    decreases ds
  {
    if ds != [] {
      AppendGrows(10 * m + (ds[0] as int - '0' as int), 10 * n + (ds[0] as int - '0' as int), ds[1..]);
    }
  }

  lemma ShorterPidHasDigits(p: nat, c: string, q: nat, d: string)
    requires 0 < p && q < TWO_TO_64 && SnapshotKey(p, c) == SnapshotKey(q, d) && |Decimal(p)| < |Decimal(q)|
    ensures ShortDigitsBefore(c, d)
  {
    DecimalIsDigits(q);
    var s, m, n := SnapshotKey(p, c), |Decimal(p)|, |Decimal(q)|;
    assert c == s[m..] && d == s[n..];
    assert Decimal(p) == s[..m] && Decimal(q) == s[..n];
    var t := c[..n - m];
    assert Decimal(q) == Decimal(p) + t;
    assert forall i :: 0 <= i < n - m ==> c[i] == t[i] == Decimal(q)[m + i];
    ReadBack(p, t);
    DecimalInjective(q, Append(p, t));
    AppendGrows(1, p, t);
  }

  lemma LongerPidShares(c: string, d: string) returns (q: nat)
    requires ShortDigitsBefore(c, d)
    ensures ShareKey(1, c, q, d)
  {
    var t := c[..|c| - |d|];
    ReadBack(1, t);
    q := Append(1, t);
    assert t + d == c;
    assert SnapshotKey(q, d) == Decimal(1) + (t + d);
  }

  // Two commands can share a snapshot key exactly when one is the other with digits in front, not too many
  // for a pid: pid 1 running "2x" and pid 12 running "x" are both "12x".
  lemma SnapshotKeyExact(c: string, d: string)
    ensures (exists p: nat, q: nat :: ShareKey(p, c, q, d)) <==> ShortDigitsBefore(c, d) || ShortDigitsBefore(d, c)
  {
    if p: nat, q: nat :| ShareKey(p, c, q, d) {
      if |Decimal(p)| < |Decimal(q)| {
        ShorterPidHasDigits(p, c, q, d);
      } else if |Decimal(q)| < |Decimal(p)| {
        ShorterPidHasDigits(q, d, p, c);
      } else {
        SameLength(p, c, q, d);
      }
    }
    if ShortDigitsBefore(c, d) {
      var q := LongerPidShares(c, d);
    }
    if ShortDigitsBefore(d, c) {
      var p := LongerPidShares(d, c);
      assert ShareKey(p, c, 1, d);
    }
  }

  lemma SameLength(p: nat, c: string, q: nat, d: string)
    requires SnapshotKey(p, c) == SnapshotKey(q, d) && |Decimal(p)| == |Decimal(q)|
    ensures p == q && c == d
  {
    var s := SnapshotKey(p, c);
    assert Decimal(p) == s[..|Decimal(p)|] == Decimal(q);
    assert c == s[|Decimal(p)|..] == d;
    DecimalInjective(p, q);
  }

  // The number whose decimal text is that of n followed by the digits ds.
  ghost function Append(n: nat, ds: string): nat
    requires forall i :: 0 <= i < |ds| ==> IsDigit(ds[i])
    decreases ds
  {
    if ds == [] then n else assert IsDigit(ds[0]); Append(10 * n + (ds[0] as int - '0' as int), ds[1..])
  }

  lemma {:induction false} ReadBack(n: nat, ds: string)
    requires 0 < n && forall i :: 0 <= i < |ds| ==> IsDigit(ds[i])
    ensures Decimal(Append(n, ds)) == Decimal(n) + ds
    ensures Append(n, ds) >= n && (ds != [] ==> Append(n, ds) > n)
    decreases ds
  {
    if ds != [] {
      var m := 10 * n + (ds[0] as int - '0' as int);
      assert m / 10 == n && Digit(m % 10) == ds[0];
      ReadBack(m, ds[1..]);
      assert Decimal(n) + ds == Decimal(m) + ds[1..];
    } else {
      assert Decimal(n) + ds == Decimal(n);
    }
  }

  lemma {:induction false} AppendMore(n: nat, ds: string, d: char)
    requires IsDigit(d) && forall i :: 0 <= i < |ds| ==> IsDigit(ds[i])
    ensures Append(n, ds + [d]) == 10 * Append(n, ds) + (d as int - '0' as int)
    decreases |ds|
  {
    if ds == [] {
      assert ds + [d] == [d] && [d][1..] == [];
    } else {
      assert (ds + [d])[1..] == ds[1..] + [d];
      AppendMore(10 * n + (ds[0] as int - '0' as int), ds[1..], d);
    }
  }

  /** ds are the digits of n, without leading zeros. */
  ghost predicate Writes(ds: string, n: nat) {
    ds != [] && (forall i :: 0 <= i < |ds| ==> IsDigit(ds[i])) && Append(0, ds) == n && (ds[0] == '0' ==> |ds| == 1)
  }

  lemma {:induction false} DecimalWrites(n: nat)
    ensures Writes(Decimal(n), n)
  {
    DecimalIsDigits(n);
    if n < 10 {
      assert [Digit(n)][1..] == [];
    } else {
      DecimalWrites(n / 10);
      AppendMore(0, Decimal(n / 10), Digit(n % 10));
      if Decimal(n)[0] == '0' {
        assert Decimal(n / 10)[0] == '0';
        assert Decimal(n / 10)[1..] == [];
      }
    }
  }

  // What the two keys look like: command, dash, pid, and pid, command.
  lemma KeyTexts(comm: string, pid: nat)
    ensures exists ds :: Writes(ds, pid) && TableKey(comm, pid) == comm + "-" + ds
                         && SnapshotKey(pid, comm) == ds + comm
  {
    DecimalWrites(pid);
  }
}
