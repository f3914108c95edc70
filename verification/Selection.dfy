/** Ranking the consolidated entries and choosing those to report. */
module Selection {
  import opened Words
  import opened ProcTypes
  import opened ProcTree
  import opened Consolidated
  import opened ProcPidStat

  datatype LoadIndex = LoadIndex(key: string, value: real)

  function CpuLoad(p: PidInfo): U64 {
    Plus(Plus(p.load.utime, p.load.stime), p.load.blkioTicks)
  }

  function DiskLoad(p: PidInfo): U64 {
    Plus(Plus(p.load.readBytes, p.load.writeBytes), p.load.cancelledWriteBytes)
  }

  ghost predicate Descending(s: seq<LoadIndex>) {
    forall i, j :: 0 <= i < j < |s| ==> s[i].value >= s[j].value
  }

  /** top ranks the entries that reach the threshold, each once, by descending usage. */
  ghost predicate IsRanking(top: seq<LoadIndex>, entries: PidStat, usage: PidInfo -> real, threshold: real) {
    Lists(top, entries, usage, threshold, entries.Keys) && Descending(top)
  }

  ghost predicate Lists(top: seq<LoadIndex>, entries: PidStat, usage: PidInfo -> real, threshold: real,
                        ks: set<string>) {
    (forall i :: 0 <= i < |top| ==>
       top[i].key in ks && top[i].key in entries && top[i].value == usage(entries[top[i].key]) >= threshold)
    && (forall i, j :: 0 <= i < j < |top| ==> top[i].key != top[j].key)
    && forall k :: k in ks && k in entries && usage(entries[k]) >= threshold ==> k in KeysIn(top)
  }

  ghost function KeysIn(top: seq<LoadIndex>): set<string> {
    set i | 0 <= i < |top| :: top[i].key
  }

  method Insert(r: seq<LoadIndex>, x: LoadIndex) returns (t: seq<LoadIndex>)
    requires Descending(r)
    ensures multiset(t) == multiset(r) + multiset{x} && Descending(t)
  {
    if r == [] || r[|r| - 1].value >= x.value {
      t := r + [x];
    } else {
      var rest, last := r[..|r| - 1], r[|r| - 1];
      assert r == rest + [last];
      var u := Insert(rest, x);
      t := u + [last];
      AppendLeast(u, last, rest, x);
    }
  }

  lemma AppendLeast(u: seq<LoadIndex>, last: LoadIndex, rest: seq<LoadIndex>, x: LoadIndex)
    requires Descending(u) && multiset(u) == multiset(rest) + multiset{x} && x.value >= last.value
    requires forall i :: 0 <= i < |rest| ==> rest[i].value >= last.value
    ensures Descending(u + [last])
  {
    forall i | 0 <= i < |u|
      ensures u[i].value >= last.value
    {
      assert u[i] in multiset(u);
      assert u[i] in rest || u[i] == x;
    }
  }

  // Any descending order will do: sort.Sort is not stable and promises nothing about equal loads.
  method SortDescending(s: seq<LoadIndex>) returns (r: seq<LoadIndex>)
    ensures multiset(r) == multiset(s) && Descending(r)
  {
    r := [];
    for i := 0 to |s|
      invariant multiset(r) == multiset(s[..i]) && Descending(r)
    {
      assert s[..i + 1] == s[..i] + [s[i]];
      r := Insert(r, s[i]);
    }
    assert s[..|s|] == s;
  }

  lemma SortKeepsLists(s: seq<LoadIndex>, r: seq<LoadIndex>, entries: PidStat, usage: PidInfo -> real, threshold: real,
                       ks: set<string>)
    requires multiset(r) == multiset(s) && Lists(s, entries, usage, threshold, ks)
    ensures Lists(r, entries, usage, threshold, ks)
  {
    forall i | 0 <= i < |r|
      ensures r[i] in s && multiset(r)[r[i]] == 1
    {
      assert r[i] in multiset(r);
      OnlyOnce(s, r[i]);
    }
    forall i, j | 0 <= i < j < |r|
      ensures r[i].key != r[j].key
    {
      if r[i] == r[j] {
        TwiceCounts(r, i, j);
      }
    }
    forall k | k in KeysIn(s)
      ensures k in KeysIn(r)
    {
      var i :| 0 <= i < |s| && s[i].key == k;
      assert s[i] in multiset(s);
      assert s[i] in r;
    }
  }

  lemma {:induction false} OnlyOnce(s: seq<LoadIndex>, x: LoadIndex)
    requires x in s && forall i, j :: 0 <= i < j < |s| ==> s[i].key != s[j].key
    ensures multiset(s)[x] == 1
    decreases |s|
  {
    assert s == [s[0]] + s[1..];
    if x != s[0] {
      OnlyOnce(s[1..], x);
    }
  }

  lemma TwiceCounts(r: seq<LoadIndex>, i: nat, j: nat)
    requires i < j < |r| && r[i] == r[j]
    ensures multiset(r)[r[i]] >= 2
  {
    assert r == r[..j] + r[j..];
    assert r[i] in r[..j] && r[j] in r[j..];
  }

  // Gathers the entries at or above the threshold, in an arbitrary order, and sorts them.
  method Rank(table: PidTable, usage: PidInfo -> real, threshold: real) returns (top: seq<LoadIndex>)
    ensures IsRanking(top, table.entries, usage, threshold)
  {
    top := [];
    var rest := table.entries.Keys;
    ghost var seen: set<string> := {};
    while rest != {}
      invariant rest + seen == table.entries.Keys && rest !! seen
      invariant Lists(top, table.entries, usage, threshold, seen)
    {
      var k :| k in rest;
      var u := usage(table.entries[k]);
      if u >= threshold {
        ListsOneMore(top, table.entries, usage, threshold, seen, k);
        top := top + [LoadIndex(k, u)];
      }
      rest, seen := rest - {k}, seen + {k};
    }
    assert seen == table.entries.Keys;
    var gathered := top;
    top := SortDescending(gathered);
    SortKeepsLists(gathered, top, table.entries, usage, threshold, table.entries.Keys);
  }

  lemma ListsOneMore(top: seq<LoadIndex>, entries: PidStat, usage: PidInfo -> real, threshold: real, ks: set<string>,
                     k: string)
    requires Lists(top, entries, usage, threshold, ks) && k in entries && k !in ks && usage(entries[k]) >= threshold
    ensures Lists(top + [LoadIndex(k, usage(entries[k]))], entries, usage, threshold, ks + {k})
  {
    var x := LoadIndex(k, usage(entries[k]));
    var t := top + [x];
    assert t[|top|] == x;
    forall l | l in KeysIn(top)
      ensures l in KeysIn(t)
    {
      var i :| 0 <= i < |top| && top[i].key == l;
      assert t[i] == top[i];
    }
  }

  /** How many positions of a ranking the marking loop visits: it marks first and then tests i > n. */
  function Taken(n: int, length: nat): nat {
    var visits := if n + 2 < 1 then 1 else n + 2;
    if length < visits then length else visits
  }

  /** entries with the non-blacklisted ones among ks selected. */
  ghost function Marked(entries: PidStat, ks: set<string>, black: string -> bool): PidStat {
    map k | k in entries ::
      if k in ks && !black(entries[k].comm) then entries[k].(selected := true) else entries[k]
  }

  method MarkKey(table: PidTable, k: string, black: string -> bool)
    requires k in table.entries
    modifies table
    ensures table.entries == MarkedAt(old(table.entries), k, black)
  {
    var p := table.entries[k];
    if !black(p.comm) {
      table.entries := table.entries[k := p.(selected := true)];
    }
  }

  function MarkedAt(m: PidStat, k: string, black: string -> bool): PidStat
    requires k in m
  {
    if black(m[k].comm) then m else m[k := m[k].(selected := true)]
  }

  method Mark(table: PidTable, top: seq<LoadIndex>, n: int, black: string -> bool)
    requires KeysIn(top) <= table.entries.Keys
    modifies table
    ensures table.entries == MarkedUpTo(old(table.entries), top, Taken(n, |top|), black)
  {
    ghost var entries := table.entries;
    MarkNone(entries, top, black);
    for i := 0 to |top|
      invariant i == 0 || i - 1 <= n
      invariant table.entries == MarkedUpTo(entries, top, i, black)
    {
      MarkOneMore(entries, top, i, black);
      MarkKey(table, top[i].key, black);
      if i > n {
        assert Taken(n, |top|) == i + 1;
        return;
      }
    }
    assert Taken(n, |top|) == |top|;
  }

  ghost function MarkedUpTo(entries: PidStat, top: seq<LoadIndex>, i: nat, black: string -> bool): PidStat
    requires i <= |top|
  {
    Marked(entries, KeysIn(top[..i]), black)
  }

  lemma MarkNone(entries: PidStat, top: seq<LoadIndex>, black: string -> bool)
    ensures MarkedUpTo(entries, top, 0, black) == entries
  {
  }

  lemma MarkOneMore(entries: PidStat, top: seq<LoadIndex>, i: nat, black: string -> bool)
    requires i < |top| && KeysIn(top) <= entries.Keys
    ensures var m, k := MarkedUpTo(entries, top, i, black), top[i].key;
            k in m && MarkedUpTo(entries, top, i + 1, black) == MarkedAt(m, k, black)
  {
    var s, t := top[..i], top[..i + 1];
    assert top[i].key in KeysIn(top);
    forall l
      ensures l in KeysIn(t) <==> l in KeysIn(s) || l == top[i].key
    {
      if l in KeysIn(s) {
        var j :| 0 <= j < |s| && s[j].key == l;
        assert t[j] == s[j];
      }
      if l in KeysIn(t) {
        var j :| 0 <= j < |t| && t[j].key == l;
        assert j == i || s[j] == t[j];
      }
      assert t[i] == top[i];
    }
  }

  datatype Config = Config(
    interval: real, thresholdCpu: real, thresholdDisk: real, topCpu: int, topDisk: int,
    white: string -> bool, black: string -> bool)

  /** float32(load) / float32(DELTA), over the reals. */
  function Cpu(interval: real): PidInfo -> real
    requires interval != 0.0
  {
    p => CpuLoad(p) as real / interval
  }

  function Disk(interval: real): PidInfo -> real
    requires interval != 0.0
  {
    p => DiskLoad(p) as real / interval
  }

  lemma LoadsExact(p: PidInfo)
    ensures CpuLoad(p) == Mod64(p.load.utime + p.load.stime + p.load.blkioTicks)
    ensures DiskLoad(p) == Mod64(p.load.readBytes + p.load.writeBytes + p.load.cancelledWriteBytes)
  {
    PlusTwice(p.load.utime, p.load.stime, p.load.blkioTicks);
    PlusTwice(p.load.readBytes, p.load.writeBytes, p.load.cancelledWriteBytes);
  }

  // What is ranked is all CPU time, waiting for the disk included, and all bytes moved, as sums modulo 2^64.
  lemma UsageExact(p: PidInfo, interval: real)
    requires interval != 0.0
    ensures Cpu(interval)(p) * interval == Mod64(p.load.utime + p.load.stime + p.load.blkioTicks) as real
    ensures Disk(interval)(p) * interval
            == Mod64(p.load.readBytes + p.load.writeBytes + p.load.cancelledWriteBytes) as real
  {
    LoadsExact(p);
    QuotientTimes(CpuLoad(p), interval);
    QuotientTimes(DiskLoad(p), interval);
  }

  lemma PlusTwice(x: U64, y: U64, z: U64)
    ensures Plus(Plus(x, y), z) == Mod64(x + y + z)
  {
    WrapIsModular(x, y);
    ModOfSum(z, x + y);
  }

  lemma QuotientTimes(n: U64, interval: real)
    requires interval != 0.0
    ensures n as real / interval * interval == n as real
  {
  }

  /** The integer sum of these fields. */
  ghost function Amount(load: Counters, fs: seq<Field>): nat {
    if fs == [] then 0 else Get(load, fs[0]) + Amount(load, fs[1..])
  }

  lemma AmountOfThree(load: Counters, f: Field, g: Field, h: Field)
    ensures Amount(load, [f, g, h]) == Get(load, f) + Get(load, g) + Get(load, h)
  {
    assert [f, g, h][1..] == [g, h] && [g, h][1..] == [h] && [h][1..] == [];
    assert Amount(load, [h]) == Get(load, h);
    assert Amount(load, [g, h]) == Get(load, g) + Get(load, h);
  }

  /** A ranking holds just the entries whose sum of the fields, modulo 2^64 and over the interval, reaches the
      threshold, with that value. */
  ghost predicate RanksTotals(top: seq<LoadIndex>, entries: PidStat, fs: seq<Field>, interval: real,
                              threshold: real)
    requires interval != 0.0
  {
    (forall i :: 0 <= i < |top| ==>
       top[i].key in entries && top[i].value == Mod64(Amount(entries[top[i].key].load, fs)) as real / interval)
    && forall k :: k in entries ==>
         (k in KeysIn(top) <==> Mod64(Amount(entries[k].load, fs)) as real / interval >= threshold)
  }

  lemma RankingTotals(top: seq<LoadIndex>, entries: PidStat, usage: PidInfo -> real, fs: seq<Field>,
                      interval: real, threshold: real)
    requires interval != 0.0 && IsRanking(top, entries, usage, threshold)
    requires forall k :: k in entries ==> usage(entries[k]) == Mod64(Amount(entries[k].load, fs)) as real / interval
    ensures RanksTotals(top, entries, fs, interval, threshold)
  {
    forall k | k in entries
      ensures k in KeysIn(top) <==> usage(entries[k]) >= threshold
    {
    }
  }

  /** The keys a ranking selects unless they are blacklisted. */
  ghost function TopKeys(top: seq<LoadIndex>, n: int): set<string> {
    KeysIn(top[..Taken(n, |top|)])
  }

  /** out has the entries of final; selected are exactly the whitelisted ones and the non-blacklisted ones
      among the first positions of either ranking, and nothing but that flag differs. */
  ghost predicate Selects(out: PidStat, final: PidStat, c: Config, cpu: set<string>, disk: set<string>) {
    out.Keys == final.Keys
    && forall k :: k in final ==>
         out[k] == final[k].(selected := c.white(final[k].comm)
                                         || (!c.black(final[k].comm) && (k in cpu || k in disk)))
  }

  // One whole round: what is reported is a function of the two snapshots and of the order in which the
  // two rankings put entries with equal loads.
  method CollectRound(newer: PidStat, older: PidStat, c: Config)
    returns (table: PidTable, cpu: seq<LoadIndex>, disk: seq<LoadIndex>)
    requires UniquePids(newer) && c.interval != 0.0
    ensures fresh(table)
    ensures var final := Final(Deltas(newer, older), c.white);
            IsRanking(cpu, final, Cpu(c.interval), c.thresholdCpu)
            && IsRanking(disk, final, Disk(c.interval), c.thresholdDisk)
            && Selects(table.entries, final, c, TopKeys(cpu, c.topCpu), TopKeys(disk, c.topDisk))
            && (forall k :: k in final ==>
                  k in table.entries
                  && (table.entries[k].selected
                      <==> c.white(final[k].comm)
                           || (!c.black(final[k].comm) && (InCut(cpu, c.topCpu, k) || InCut(disk, c.topDisk, k)))))
            && RanksTotals(cpu, final, [Utime, Stime, BlkioTicks], c.interval, c.thresholdCpu)
            && RanksTotals(disk, final, [ReadBytes, WriteBytes, CancelledWriteBytes], c.interval,
                           c.thresholdDisk)
  {
    table := ConsolidateAll(newer, older, c.white);
    cpu := Rank(table, Cpu(c.interval), c.thresholdCpu);
    disk := Rank(table, Disk(c.interval), c.thresholdDisk);
    Mark(table, cpu, c.topCpu, c.black);
    Mark(table, disk, c.topDisk, c.black);
    RankedTotals(Final(Deltas(newer, older), c.white), cpu, disk, c);
    SelectedExactly(Deltas(newer, older), c, TopKeys(cpu, c.topCpu), TopKeys(disk, c.topDisk));
    CutsExact(cpu, c.topCpu);
    CutsExact(disk, c.topDisk);
  }

  lemma LoadsAreAmounts(p: PidInfo)
    ensures CpuLoad(p) == Mod64(Amount(p.load, [Utime, Stime, BlkioTicks]))
    ensures DiskLoad(p) == Mod64(Amount(p.load, [ReadBytes, WriteBytes, CancelledWriteBytes]))
  {
    LoadsExact(p);
    AmountOfThree(p.load, Utime, Stime, BlkioTicks);
    AmountOfThree(p.load, ReadBytes, WriteBytes, CancelledWriteBytes);
  }

  lemma RankedTotals(final: PidStat, cpu: seq<LoadIndex>, disk: seq<LoadIndex>, c: Config)
    requires c.interval != 0.0
    requires IsRanking(cpu, final, Cpu(c.interval), c.thresholdCpu)
    requires IsRanking(disk, final, Disk(c.interval), c.thresholdDisk)
    ensures RanksTotals(cpu, final, [Utime, Stime, BlkioTicks], c.interval, c.thresholdCpu)
    ensures RanksTotals(disk, final, [ReadBytes, WriteBytes, CancelledWriteBytes], c.interval,
                        c.thresholdDisk)
  {
    forall k | k in final
      ensures CpuLoad(final[k]) == Mod64(Amount(final[k].load, [Utime, Stime, BlkioTicks]))
      ensures DiskLoad(final[k]) == Mod64(Amount(final[k].load, [ReadBytes, WriteBytes, CancelledWriteBytes]))
    {
      LoadsAreAmounts(final[k]);
    }
    RankingTotals(cpu, final, Cpu(c.interval), [Utime, Stime, BlkioTicks], c.interval, c.thresholdCpu);
    RankingTotals(disk, final, Disk(c.interval), [ReadBytes, WriteBytes, CancelledWriteBytes], c.interval,
                  c.thresholdDisk);
  }

  /** k is at a position that the loop visits: the first, or one up to n + 1. */
  ghost predicate InCut(top: seq<LoadIndex>, n: int, k: string) {
    exists i :: 0 <= i < |top| && (i == 0 || i <= n + 1) && top[i].key == k
  }

  lemma CutsExact(top: seq<LoadIndex>, n: int)
    ensures forall k :: k in TopKeys(top, n) <==> InCut(top, n, k)
  {
    forall k
      ensures k in TopKeys(top, n) <==> InCut(top, n, k)
    {
      PositionOf(top, Taken(n, |top|), k);
    }
  }

  // Marking twice selects exactly those entries: consolidation has selected the whitelisted
  // representatives and no other.
  lemma SelectedExactly(procs: Procs, c: Config, cpu: set<string>, disk: set<string>)
    requires forall pid :: pid in procs ==> !procs[pid].selected
    ensures var final := Final(procs, c.white);
            Selects(Marked(Marked(final, cpu, c.black), disk, c.black), final, c, cpu, disk)
  {
    var final := Final(procs, c.white);
    forall k | k in final
      ensures final[k].selected <==> c.white(final[k].comm)
    {
      var pid :| pid in Below(procs, 0) && IsRep(procs, pid) && k == KeyOf(procs, pid);
      TableAt(procs, c.white, Below(procs, 0), pid);
    }
  }

  // An entry that reaches the threshold and is past the cut is beaten, or equalled, by as many other
  // entries as the cut lets through; one that does not reach it is in no ranking.
  lemma CutIsFair(top: seq<LoadIndex>, entries: PidStat, usage: PidInfo -> real, threshold: real, n: int, k: string)
    requires IsRanking(top, entries, usage, threshold) && k in entries && k !in TopKeys(top, n)
    ensures usage(entries[k]) >= threshold
            ==> |TopKeys(top, n)| == (if n + 2 < 1 then 1 else n + 2)
                && forall l :: l in TopKeys(top, n) ==> l in entries && usage(entries[l]) >= usage(entries[k])
    ensures usage(entries[k]) < threshold ==> k !in KeysIn(top)
  {
    if usage(entries[k]) >= threshold {
      var i :| 0 <= i < |top| && top[i].key == k;
      var t := Taken(n, |top|);
      PositionOf(top, t, k);
      assert t <= i;
      CountKeys(top, t);
    }
  }

  lemma {:induction false} CountKeys(top: seq<LoadIndex>, t: nat)
    requires t <= |top| && forall i, j :: 0 <= i < j < |top| ==> top[i].key != top[j].key
    ensures |KeysIn(top[..t])| == t
  {
    if t > 0 {
      CountKeys(top, t - 1);
      assert KeysIn(top[..t]) == KeysIn(top[..t - 1]) + {top[t - 1].key} by {
        assert top[..t][t - 1] == top[t - 1];
        forall l | l in KeysIn(top[..t - 1])
          ensures l in KeysIn(top[..t])
        {
          var j :| 0 <= j < t - 1 && top[..t - 1][j].key == l;
          assert top[..t][j].key == l;
        }
      }
    }
  }

  /** The first n positions, which is what the configuration calls the top n. */
  ghost function FirstKeys(top: seq<LoadIndex>, n: int): set<string> {
    KeysIn(top[..if n < 0 then 0 else if n < |top| then n else |top|])
  }

  // The loop looks at two positions more than it is configured for. It selects just the top n exactly
  // when each of those extra positions holds an entry that is blacklisted or selected already.
  lemma TopNExact(top: seq<LoadIndex>, entries: PidStat, usage: PidInfo -> real, threshold: real, n: int,
                  black: string -> bool)
    requires IsRanking(top, entries, usage, threshold)
    ensures Marked(entries, TopKeys(top, n), black) == Marked(entries, FirstKeys(top, n), black)
            <==> forall i :: 0 <= i < Taken(n, |top|) && n <= i
                             ==> black(entries[top[i].key].comm) || entries[top[i].key].selected
  {
    var t := Taken(n, |top|);
    var f := if n < 0 then 0 else if n < |top| then n else |top|;
    var m, o := Marked(entries, TopKeys(top, n), black), Marked(entries, FirstKeys(top, n), black);
    forall k | k in entries
      ensures k in TopKeys(top, n) <==> k in FirstKeys(top, n) || exists i :: f <= i < t && top[i].key == k
    {
      PositionOf(top, t, k);
      PositionOf(top, f, k);
    }
    forall i | f <= i < t
      ensures top[i].key in TopKeys(top, n) && top[i].key !in FirstKeys(top, n)
    {
      PositionOf(top, t, top[i].key);
      PositionOf(top, f, top[i].key);
    }
    if m == o {
      forall i | 0 <= i < t && n <= i
        ensures black(entries[top[i].key].comm) || entries[top[i].key].selected
      {
        assert m[top[i].key] == o[top[i].key];
      }
    }
  }

  lemma PositionOf(top: seq<LoadIndex>, t: nat, k: string)
    requires t <= |top|
    ensures k in KeysIn(top[..t]) <==> exists i :: 0 <= i < t && top[i].key == k
  {
    if k in KeysIn(top[..t]) {
      var i :| 0 <= i < t && top[..t][i].key == k;
      assert top[i].key == k;
    }
    if exists i :: 0 <= i < t && top[i].key == k {
      var i :| 0 <= i < t && top[i].key == k;
      assert top[..t][i].key == k;
    }
  }
}
