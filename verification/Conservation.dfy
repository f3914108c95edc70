/** Of the processes that the walk from pid 0 meets, nothing is lost, overwritten or counted twice. */
module Conservation {
  import opened Words
  import opened Keys
  import opened ProcTypes
  import opened ProcTree
  import opened Consolidated

  ghost predicate RepIn(procs: Procs, done: set<U64>, r: U64) {
    r in done && IsRep(procs, r)
  }

  /** The processes whose load ends in the entry of a representative in reps. */
  ghost function Share(procs: Procs, done: set<U64>, reps: set<U64>): set<U64> {
    set q | q in done && q in procs && (if IsRep(procs, q) then q in reps else procs[q].ppid in reps)
  }

  ghost function KeysOf(procs: Procs, reps: set<U64>): set<string>
    requires reps <= procs.Keys
  {
    set r | r in reps :: KeyOf(procs, r)
  }

  /** The sum of one field over the entries with keys in ks, in unbounded integers. */
  ghost function TableSum(t: PidStat, ks: set<string>, f: Field): nat
    requires ks <= t.Keys
  {
    if ks == {} then 0
    else
      var k :| k in ks;
      Get(t[k].load, f) + TableSum(t, ks - {k}, f)
  }

  lemma {:induction false} TableSumPick(t: PidStat, ks: set<string>, l: string, f: Field)
    requires ks <= t.Keys && l in ks
    ensures TableSum(t, ks, f) == Get(t[l].load, f) + TableSum(t, ks - {l}, f)
    decreases ks
  {
    var k :| k in ks && TableSum(t, ks, f) == Get(t[k].load, f) + TableSum(t, ks - {k}, f);
    if k != l {
      TableSumPick(t, ks - {k}, l, f);
      TableSumPick(t, ks - {l}, k, f);
      assert ks - {k} - {l} == ks - {l} - {k};
    }
  }

  // The share of one representative is its own load and its folded children's.
  lemma ShareOfOne(procs: Procs, white: string -> bool, done: set<U64>, r: U64)
    requires Valid(procs) && Closed(procs, done) && RepIn(procs, done, r)
    ensures Entry(procs, white, r, done).load == SumLoads(procs, Share(procs, done, {r}))
  {
    forall q | q in done
      ensures q in Share(procs, done, {r}) <==> q == r || q in Folded(procs, r, done)
    {
      RepExact(procs, q);
    }
    RepExact(procs, r);
    assert r !in Folded(procs, r, done);
    assert Share(procs, done, {r}) == Folded(procs, r, done) + {r};
    SumLoadsInsert(procs, Folded(procs, r, done), r);
  }

  lemma RepKeysInTable(procs: Procs, white: string -> bool, done: set<U64>, reps: set<U64>)
    requires done <= procs.Keys && reps <= done && forall r :: r in reps ==> IsRep(procs, r)
    ensures KeysOf(procs, reps) <= Table(procs, white, done).Keys
  {
    forall r | r in reps
      ensures KeyOf(procs, r) in Table(procs, white, done)
    {
      TableAt(procs, white, done, r);
    }
  }

  lemma {:induction false} SharesAddUp(procs: Procs, white: string -> bool, done: set<U64>, reps: set<U64>, f: Field)
    requires Valid(procs) && Closed(procs, done)
    requires reps <= done && forall r :: r in reps ==> IsRep(procs, r)
    ensures KeysOf(procs, reps) <= Table(procs, white, done).Keys
    ensures Mod64(TableSum(Table(procs, white, done), KeysOf(procs, reps), f))
            == Get(SumLoads(procs, Share(procs, done, reps)), f)
    decreases reps
  {
    RepKeysInTable(procs, white, done, reps);
    if reps == {} {
      assert KeysOf(procs, reps) == {};
      NoShare(procs, done);
    } else {
      var r :| r in reps;
      SharesAddUp(procs, white, done, reps - {r}, f);
      TableAt(procs, white, done, r);
      ShareOfOne(procs, white, done, r);
      OneMoreRep(procs, Table(procs, white, done), done, reps, r, f);
    }
  }

  lemma OneMoreRep(procs: Procs, t: PidStat, done: set<U64>, reps: set<U64>, r: U64, f: Field)
    requires Valid(procs) && Closed(procs, done) && r in reps && reps <= procs.Keys
    requires KeysOf(procs, reps) <= t.Keys && KeysOf(procs, reps - {r}) <= t.Keys && KeyOf(procs, r) in t
    requires t[KeyOf(procs, r)].load == SumLoads(procs, Share(procs, done, {r}))
    requires Mod64(TableSum(t, KeysOf(procs, reps - {r}), f))
             == Get(SumLoads(procs, Share(procs, done, reps - {r})), f)
    ensures Mod64(TableSum(t, KeysOf(procs, reps), f)) == Get(SumLoads(procs, Share(procs, done, reps)), f)
  {
    var k := KeyOf(procs, r);
    var rest := TableSum(t, KeysOf(procs, reps - {r}), f);
    var one, others := t[k].load, SumLoads(procs, Share(procs, done, reps - {r}));
    assert TableSum(t, KeysOf(procs, reps), f) == Get(one, f) + rest by {
      OneMoreKey(procs, reps, r);
      TableSumPick(t, KeysOf(procs, reps), k, f);
    }
    assert SumLoads(procs, Share(procs, done, reps)) == Add(one, others) by {
      OneMoreShare(procs, done, reps, r);
    }
    ResidueStep(TableSum(t, KeysOf(procs, reps), f), rest, one, others, SumLoads(procs, Share(procs, done, reps)), f);
  }

  lemma NoShare(procs: Procs, done: set<U64>)
    requires Valid(procs) && Closed(procs, done)
    ensures Share(procs, done, {}) == {} && SumLoads(procs, {}) == ZERO
  {
  }

  lemma OneMoreKey(procs: Procs, reps: set<U64>, r: U64)
    requires reps <= procs.Keys && r in reps
    ensures KeysOf(procs, reps) - {KeyOf(procs, r)} == KeysOf(procs, reps - {r})
  {
    TableKeysInjective();
  }

  lemma OneMoreShare(procs: Procs, done: set<U64>, reps: set<U64>, r: U64)
    requires Valid(procs) && Closed(procs, done) && r in reps
    ensures SumLoads(procs, Share(procs, done, reps))
            == Add(SumLoads(procs, Share(procs, done, {r})), SumLoads(procs, Share(procs, done, reps - {r})))
  {
    assert Share(procs, done, reps) == Share(procs, done, {r}) + Share(procs, done, reps - {r});
    SumLoadsUnion(procs, Share(procs, done, {r}), Share(procs, done, reps - {r}));
  }

  // For each of the twelve fields, the entries of the final table sum to what the processes reachable
  // from pid 0 sum to, modulo 2^64.
  lemma LoadIsConserved(procs: Procs, white: string -> bool, f: Field)
    requires Valid(procs)
    ensures var t := Final(procs, white);
            Mod64(TableSum(t, t.Keys, f)) == Mod64(TrueSum(procs, Below(procs, 0), f))
  {
    var done := Below(procs, 0);
    var t := Final(procs, white);
    var reps := set r | r in done && IsRep(procs, r);
    forall q | q in done
      ensures procs[q].ppid == 0 || procs[q].ppid in done
      ensures !IsRep(procs, q) ==> procs[q].ppid in reps
    {
      RepExact(procs, q);
    }
    assert Closed(procs, done);
    assert t.Keys == KeysOf(procs, reps);
    assert Share(procs, done, reps) == done;
    SharesAddUp(procs, white, done, reps, f);
    SumLoadsIsModular(procs, done, f);
  }
}
