/** What one round reports, in terms of the two snapshots alone. */
module Rounds {
  import opened Words
  import opened ProcTypes
  import opened ProcTree
  import opened Consolidated
  import opened Conservation
  import opened ProcPidStat

  /** What the process with key k adds to field f: nothing if it is new, else the growth modulo 2^64, and a
      size as it is now. */
  function Growth(newer: PidStat, older: PidStat, k: string, f: Field): nat
    requires k in newer
  {
    if k !in older then 0
    else if IsSize(f) then Get(newer[k].load, f) else Mod64(Get(newer[k].load, f) - Get(older[k].load, f))
  }

  /** The integer sum over the keys in ks. */
  ghost function GrowthSum(newer: PidStat, older: PidStat, ks: set<string>, f: Field): nat
    requires ks <= newer.Keys
  {
    if ks == {} then 0
    else
      var k :| k in ks;
      GrowthSum(newer, older, ks - {k}, f) + Growth(newer, older, k, f)
  }

  lemma {:induction false} TrueSumFrame(procs: Procs, more: Procs, s: set<U64>, f: Field)
    requires s <= procs.Keys && s <= more.Keys && forall q :: q in s ==> procs[q] == more[q]
    ensures TrueSum(procs, s, f) == TrueSum(more, s, f)
    decreases s
  {
    if s != {} {
      var x :| x in s;
      TrueSumPick(procs, s, x, f);
      TrueSumPick(more, s, x, f);
      TrueSumFrame(procs, more, s - {x}, f);
    }
  }

  lemma SumOneMore(procs: Procs, d: PidInfo, f: Field)
    requires d.pid !in procs
    ensures var more := procs[d.pid := d];
            TrueSum(more, more.Keys, f) == TrueSum(procs, procs.Keys, f) + Get(d.load, f)
  {
    var more := procs[d.pid := d];
    TrueSumPick(more, more.Keys, d.pid, f);
    assert more.Keys - {d.pid} == procs.Keys;
    TrueSumFrame(procs, more, procs.Keys, f);
  }

  lemma DeltaIsGrowth(newer: PidStat, older: PidStat, k: string, f: Field)
    requires k in newer && k in older
    ensures Get(Delta(newer[k], older[k]).load, f) == Growth(newer, older, k, f)
  {
    DeltaExact(newer[k], older[k], f);
  }

  ghost function Total(procs: Procs, f: Field): nat {
    TrueSum(procs, procs.Keys, f)
  }

  lemma TotalOneMore(newer: PidStat, older: PidStat, ks: set<string>, k: string, f: Field)
    requires UniquePids(newer) && k in newer && k !in ks
    ensures Total(DeltasOf(newer, older, ks + {k}), f)
            == Total(DeltasOf(newer, older, ks), f) + Growth(newer, older, k, f)
  {
    DeltasOneMore(newer, older, ks, k);
    if k in older {
      var d := Delta(newer[k], older[k]);
      DeltaIsGrowth(newer, older, k, f);
      SumOneMore(DeltasOf(newer, older, ks), d, f);
    }
  }

  lemma OneKey(newer: PidStat, older: PidStat, ks: set<string>, f: Field) returns (k: string)
    requires ks != {} && ks <= newer.Keys
    ensures k in ks
    ensures GrowthSum(newer, older, ks, f) == GrowthSum(newer, older, ks - {k}, f) + Growth(newer, older, k, f)
  {
    k :| k in ks && GrowthSum(newer, older, ks, f) == GrowthSum(newer, older, ks - {k}, f) + Growth(newer, older, k, f);
  }

  lemma {:induction false} DeltasTotal(newer: PidStat, older: PidStat, ks: set<string>, f: Field)
    requires UniquePids(newer) && ks <= newer.Keys
    ensures Total(DeltasOf(newer, older, ks), f) == GrowthSum(newer, older, ks, f)
    decreases ks
  {
    if ks == {} {
      assert DeltasOf(newer, older, ks) == map[];
    } else {
      var k := OneKey(newer, older, ks, f);
      var rest := ks - {k};
      assert ks == rest + {k};
      DeltasTotal(newer, older, rest, f);
      TotalOneMore(newer, older, rest, k, f);
    }
  }

  /** Every process that both snapshots hold has parent 0 or a parent that both hold, and no process is its
      own ancestor. */
  ghost predicate NoneCutOff(newer: PidStat, older: PidStat)
    requires UniquePids(newer)
  {
    var procs := Deltas(newer, older);
    (forall k :: k in newer && k in older ==>
       newer[k].ppid == 0 || exists l :: l in newer && l in older && newer[l].pid == newer[k].ppid)
    && forall q :: q in procs ==> !IsBelow(procs, q, q)
  }

  // Unless a process is cut off, the entries of a round sum, field by field, to what all processes seen
  // twice have added, modulo 2^64.
  lemma RoundIsConserved(newer: PidStat, older: PidStat, white: string -> bool, f: Field)
    requires UniquePids(newer) && NoneCutOff(newer, older)
    ensures var t := Final(Deltas(newer, older), white);
            Mod64(TableSum(t, t.Keys, f)) == Mod64(GrowthSum(newer, older, newer.Keys, f))
  {
    var procs := Deltas(newer, older);
    DeltasAreValid(newer, older, newer.Keys);
    LoadIsConserved(procs, white, f);
    forall q | q in procs
      ensures procs[q].ppid == 0 || procs[q].ppid in procs
    {
      var k := KeyOfDelta(newer, older, q);
      if newer[k].ppid != 0 {
        var l :| l in newer && l in older && newer[l].pid == newer[k].ppid;
        DeltaOfKey(newer, older, l);
      }
    }
    AllReachedExact(procs);
    DeltasTotal(newer, older, newer.Keys, f);
  }
}
