/** Process records and the twelve accumulated counters. */
module ProcTypes {
  import opened Words

  datatype Counters = Counters(
    utime: U64, stime: U64, blkioTicks: U64, gtime: U64, minflt: U64, majflt: U64,
    vsize: U64, rss: U64, numThreads: U64, readBytes: U64, writeBytes: U64, cancelledWriteBytes: U64)

  datatype PidInfo = PidInfo(
    selected: bool, user: string, pid: U64, comm: string, state: char, ppid: U64, load: Counters)

  type PidStat = map<string, PidInfo>
  type PidTree = map<U64, seq<PidInfo>>

  const ZERO := Counters(0, 0, 0, 0, 0, 0, 0, 0, 0, 0, 0, 0)

  function Add(a: Counters, b: Counters): Counters {
    Counters(
      Plus(a.utime, b.utime), Plus(a.stime, b.stime), Plus(a.blkioTicks, b.blkioTicks), Plus(a.gtime, b.gtime),
      Plus(a.minflt, b.minflt), Plus(a.majflt, b.majflt), Plus(a.vsize, b.vsize), Plus(a.rss, b.rss),
      Plus(a.numThreads, b.numThreads), Plus(a.readBytes, b.readBytes), Plus(a.writeBytes, b.writeBytes),
      Plus(a.cancelledWriteBytes, b.cancelledWriteBytes))
  }

  /** What one interval adds: nine counters as differences, the three sizes as they are now. */
  function Delta(p: PidInfo, before: PidInfo): PidInfo {
    var a, b := p.load, before.load;
    PidInfo(
      false, p.user, p.pid, p.comm, p.state, p.ppid,
      Counters(
        Minus(a.utime, b.utime), Minus(a.stime, b.stime), Minus(a.blkioTicks, b.blkioTicks), Minus(a.gtime, b.gtime),
        Minus(a.minflt, b.minflt), Minus(a.majflt, b.majflt), a.vsize, a.rss, a.numThreads,
        Minus(a.readBytes, b.readBytes), Minus(a.writeBytes, b.writeBytes),
        Minus(a.cancelledWriteBytes, b.cancelledWriteBytes)))
  }

  datatype Field =
    | Utime | Stime | BlkioTicks | Gtime | Minflt | Majflt
    | Vsize | Rss | NumThreads | ReadBytes | WriteBytes | CancelledWriteBytes

  function Get(c: Counters, f: Field): U64 {
    match f
    case Utime => c.utime
    case Stime => c.stime
    case BlkioTicks => c.blkioTicks
    case Gtime => c.gtime
    case Minflt => c.minflt
    case Majflt => c.majflt
    case Vsize => c.vsize
    case Rss => c.rss
    case NumThreads => c.numThreads
    case ReadBytes => c.readBytes
    case WriteBytes => c.writeBytes
    case CancelledWriteBytes => c.cancelledWriteBytes
  }

  lemma GetOfAdd(a: Counters, b: Counters, f: Field)
    ensures Get(Add(a, b), f) == Plus(Get(a, f), Get(b, f))
  {
  }

  /** The three sizes, which are taken as they are now. */
  predicate IsSize(f: Field) { f.Vsize? || f.Rss? || f.NumThreads? }

  /** d is what the interval between before and p adds, field by field. */
  ghost predicate IsDelta(d: PidInfo, p: PidInfo, before: PidInfo) {
    !d.selected && (d.user, d.pid, d.comm, d.state, d.ppid) == (p.user, p.pid, p.comm, p.state, p.ppid)
    && d.load.utime == Mod64(p.load.utime - before.load.utime)
    && d.load.stime == Mod64(p.load.stime - before.load.stime)
    && d.load.blkioTicks == Mod64(p.load.blkioTicks - before.load.blkioTicks)
    && d.load.gtime == Mod64(p.load.gtime - before.load.gtime)
    && d.load.minflt == Mod64(p.load.minflt - before.load.minflt)
    && d.load.majflt == Mod64(p.load.majflt - before.load.majflt)
    && (d.load.vsize, d.load.rss, d.load.numThreads) == (p.load.vsize, p.load.rss, p.load.numThreads)
    && d.load.readBytes == Mod64(p.load.readBytes - before.load.readBytes)
    && d.load.writeBytes == Mod64(p.load.writeBytes - before.load.writeBytes)
    && d.load.cancelledWriteBytes == Mod64(p.load.cancelledWriteBytes - before.load.cancelledWriteBytes)
  }

  lemma DeltaIsDelta(p: PidInfo, before: PidInfo)
    ensures IsDelta(Delta(p, before), p, before)
  {
    forall x: U64, y: U64
      ensures Minus(x, y) == Mod64(x - y)
    {
      WrapIsModular(x, y);
    }
  }

  // A delta is the difference modulo 2^64, so that adding the older count gives back the newer one; a
  // size is the newer one. Pid, parent, command, user and state are those of the newer record.
  lemma DeltaExact(p: PidInfo, before: PidInfo, f: Field)
    ensures var d := Delta(p, before);
            (if IsSize(f) then Get(d.load, f) == Get(p.load, f)
             else Get(d.load, f) == Mod64(Get(p.load, f) - Get(before.load, f))
                  && Plus(Get(d.load, f), Get(before.load, f)) == Get(p.load, f))
            && d == p.(selected := false, load := d.load)
  {
    WrapIsModular(Get(p.load, f), Get(before.load, f));
  }

  lemma AddIsCommutativeMonoid(a: Counters, b: Counters, c: Counters)
    ensures Add(a, b) == Add(b, a)
    ensures Add(Add(a, b), c) == Add(a, Add(b, c))
    ensures Add(a, ZERO) == a
  {
  }

  /** The wrapping sum of the loads of the processes in s. */
  ghost function SumLoads(procs: map<U64, PidInfo>, s: set<U64>): Counters
    requires s <= procs.Keys
  {
    if s == {} then ZERO
    else
      var x :| x in s;
      Add(procs[x].load, SumLoads(procs, s - {x}))
  }

  lemma {:induction false} SumLoadsPick(procs: map<U64, PidInfo>, s: set<U64>, y: U64)
    requires s <= procs.Keys && y in s
    ensures SumLoads(procs, s) == Add(procs[y].load, SumLoads(procs, s - {y}))
    decreases s
  {
    var x :| x in s && SumLoads(procs, s) == Add(procs[x].load, SumLoads(procs, s - {x}));
    if x != y {
      SumLoadsPick(procs, s - {x}, y);
      SumLoadsPick(procs, s - {y}, x);
      assert s - {x} - {y} == s - {y} - {x};
      var rest := SumLoads(procs, s - {x} - {y});
      AddIsCommutativeMonoid(procs[x].load, procs[y].load, rest);
      AddIsCommutativeMonoid(procs[y].load, procs[x].load, rest);
    }
  }

  lemma SumLoadsInsert(procs: map<U64, PidInfo>, s: set<U64>, y: U64)
    requires s <= procs.Keys && y in procs && y !in s
    ensures SumLoads(procs, s + {y}) == Add(procs[y].load, SumLoads(procs, s)) == Add(SumLoads(procs, s), procs[y].load)
  {
    SumLoadsPick(procs, s + {y}, y);
    assert s + {y} - {y} == s;
    AddIsCommutativeMonoid(procs[y].load, SumLoads(procs, s), ZERO);
  }

  lemma {:induction false} SumLoadsUnion(procs: map<U64, PidInfo>, s: set<U64>, t: set<U64>)
    requires s <= procs.Keys && t <= procs.Keys && s !! t
    ensures SumLoads(procs, s + t) == Add(SumLoads(procs, s), SumLoads(procs, t))
    decreases t
  {
    if t == {} {
      assert s + t == s;
      AddIsCommutativeMonoid(SumLoads(procs, s), ZERO, ZERO);
    } else {
      var y :| y in t;
      SumLoadsUnion(procs, s, t - {y});
      assert s + (t - {y}) + {y} == s + t && t - {y} + {y} == t;
      SumLoadsInsert(procs, s + (t - {y}), y);
      SumLoadsInsert(procs, t - {y}, y);
      AddIsCommutativeMonoid(SumLoads(procs, s), SumLoads(procs, t - {y}), procs[y].load);
    }
  }

  /** The same sum of one field over the unbounded integers. */
  ghost function TrueSum(procs: map<U64, PidInfo>, s: set<U64>, f: Field): nat
    requires s <= procs.Keys
  {
    if s == {} then 0
    else
      var x :| x in s;
      Get(procs[x].load, f) + TrueSum(procs, s - {x}, f)
  }

  lemma {:induction false} TrueSumPick(procs: map<U64, PidInfo>, s: set<U64>, y: U64, f: Field)
    requires s <= procs.Keys && y in s
    ensures TrueSum(procs, s, f) == Get(procs[y].load, f) + TrueSum(procs, s - {y}, f)
    decreases s
  {
    var x :| x in s && TrueSum(procs, s, f) == Get(procs[x].load, f) + TrueSum(procs, s - {x}, f);
    if x != y {
      TrueSumPick(procs, s - {x}, y, f);
      TrueSumPick(procs, s - {y}, x, f);
      assert s - {x} - {y} == s - {y} - {x};
    }
  }

  lemma AddKeepsModulus(a: Counters, b: Counters, n: nat, f: Field)
    requires Get(b, f) == Mod64(n)
    ensures Get(Add(a, b), f) == Mod64(Get(a, f) + n)
  {
    GetOfAdd(a, b, f);
    ModOfSum(Get(a, f), n);
  }

  lemma ResidueStep(total: nat, rest: nat, one: Counters, others: Counters, all: Counters, f: Field)
    requires total == Get(one, f) + rest && Get(others, f) == Mod64(rest) && all == Add(one, others)
    ensures Mod64(total) == Get(all, f)
  {
    AddKeepsModulus(one, others, rest, f);
  }

  // Every field of the wrapping sum is the integer sum modulo 2^64.
  lemma {:induction false} SumLoadsIsModular(procs: map<U64, PidInfo>, s: set<U64>, f: Field)
    requires s <= procs.Keys
    ensures Get(SumLoads(procs, s), f) == Mod64(TrueSum(procs, s, f))
    decreases s
  {
    if s != {} {
      var x :| x in s;
      var n, others := TrueSum(procs, s - {x}, f), SumLoads(procs, s - {x});
      assert Get(others, f) == Mod64(n) by {
        SumLoadsIsModular(procs, s - {x}, f);
      }
      assert TrueSum(procs, s, f) == Get(procs[x].load, f) + n by {
        TrueSumPick(procs, s, x, f);
      }
      assert SumLoads(procs, s) == Add(procs[x].load, others) by {
        SumLoadsPick(procs, s, x);
      }
      ResidueStep(TrueSum(procs, s, f), n, procs[x].load, others, SumLoads(procs, s), f);
    }
  }
}
