/** Which processes a walk from pid 0 meets, and which of them keep an entry of their own. The parent
    relation is not assumed to be acyclic: a process that 0 does not reach may have itself as ancestor. */
module ProcTree {
  import opened Words
  import opened ProcTypes

  type Procs = map<U64, PidInfo>

  ghost predicate Valid(procs: Procs) {
    0 !in procs && forall pid :: pid in procs ==> procs[pid].pid == pid
  }

  /** q is n + 1 generations below top. */
  ghost predicate BelowBy(procs: Procs, q: U64, top: U64, n: nat)
    decreases n
  {
    q in procs && if n == 0 then procs[q].ppid == top else BelowBy(procs, procs[q].ppid, top, n - 1)
  }

  ghost predicate IsBelow(procs: Procs, q: U64, top: U64) {
    exists n: nat :: BelowBy(procs, q, top, n)
  }

  ghost function Below(procs: Procs, top: U64): set<U64> {
    set q | q in procs && IsBelow(procs, q, top)
  }

  ghost predicate Reachable(procs: Procs, q: U64) { IsBelow(procs, q, 0) }

  // 0 has no record of its own, so the distance from 0 is unique.
  lemma {:induction false} DepthUnique(procs: Procs, q: U64, m: nat, n: nat)
    requires Valid(procs) && BelowBy(procs, q, 0, m) && BelowBy(procs, q, 0, n)
    ensures m == n
    decreases m
  {
    if m > 0 && n > 0 {
      DepthUnique(procs, procs[q].ppid, m - 1, n - 1);
    }
  }

  // Distances add up.
  lemma {:induction false} BelowByAdds(procs: Procs, q: U64, mid: U64, m: nat, top: U64, n: nat)
    requires BelowBy(procs, q, mid, m) && BelowBy(procs, mid, top, n)
    ensures BelowBy(procs, q, top, m + n + 1)
    decreases m
  {
    if m > 0 {
      BelowByAdds(procs, procs[q].ppid, mid, m - 1, top, n);
    }
  }

  ghost predicate DepthWithin(procs: Procs, q: U64, n: nat) {
    exists k: nat :: k <= n && BelowBy(procs, q, 0, k)
  }

  ghost function Lineage(procs: Procs, q: U64, n: nat): set<U64>
    requires BelowBy(procs, q, 0, n)
    decreases n
  {
    {q} + if n == 0 then {} else Lineage(procs, procs[q].ppid, n - 1)
  }

  lemma {:induction false} LineageDepths(procs: Procs, q: U64, n: nat)
    requires Valid(procs) && BelowBy(procs, q, 0, n)
    ensures Lineage(procs, q, n) <= procs.Keys
    ensures forall a :: a in Lineage(procs, q, n) ==> DepthWithin(procs, a, n)
    ensures |Lineage(procs, q, n)| == n + 1
    decreases n
  {
    assert BelowBy(procs, q, 0, n);
    if n > 0 {
      var up := Lineage(procs, procs[q].ppid, n - 1);
      LineageDepths(procs, procs[q].ppid, n - 1);
      if q in up {
        var k: nat :| k <= n - 1 && BelowBy(procs, q, 0, k);
        DepthUnique(procs, q, k, n);
        assert false;
      }
      assert Lineage(procs, q, n) == {q} + up;
      forall a | a in {q} + up
        ensures DepthWithin(procs, a, n)
      {
        assert a == q || DepthWithin(procs, a, n - 1);
      }
    }
  }

  // A path from 0 never repeats a pid, so it is no longer than the number of processes: this is
  // what makes the recursion of consolidate stop.
  lemma DepthBounded(procs: Procs, q: U64, n: nat)
    requires Valid(procs) && BelowBy(procs, q, 0, n)
    ensures n < |procs|
  {
    LineageDepths(procs, q, n);
    SubsetSize(Lineage(procs, q, n), procs.Keys);
  }

  lemma {:induction false} SubsetSize(s: set<U64>, t: set<U64>)
    requires s <= t
    ensures |s| <= |t|
  {
    if s != {} {
      var x :| x in s;
      SubsetSize(s - {x}, t - {x});
    }
  }

  /** Representatives by depth: a process keeps its own entry unless its parent is a representative
      with the same command. */
  ghost predicate RepBy(procs: Procs, q: U64, n: nat)
    requires BelowBy(procs, q, 0, n)
    decreases n
  {
    n == 0 || !(RepBy(procs, procs[q].ppid, n - 1) && procs[procs[q].ppid].comm == procs[q].comm)
  }

  ghost predicate IsRep(procs: Procs, q: U64) {
    exists n: nat :: BelowBy(procs, q, 0, n) && RepBy(procs, q, n)
  }

  lemma RepAt(procs: Procs, q: U64, n: nat)
    requires Valid(procs) && BelowBy(procs, q, 0, n)
    ensures IsRep(procs, q) <==> RepBy(procs, q, n)
  {
    if IsRep(procs, q) {
      var m: nat :| BelowBy(procs, q, 0, m) && RepBy(procs, q, m);
      DepthUnique(procs, q, m, n);
    }
  }

  /** q is folded into p's entry. */
  ghost predicate FoldsInto(procs: Procs, q: U64, p: U64) {
    q in procs && p in procs && procs[q].ppid == p && IsRep(procs, p) && procs[p].comm == procs[q].comm
  }

  // The definition of a representative without depths.
  lemma RepExact(procs: Procs, q: U64)
    requires Valid(procs) && Reachable(procs, q)
    ensures IsRep(procs, q) <==> !FoldsInto(procs, q, procs[q].ppid)
    ensures procs[q].ppid == 0 || Reachable(procs, procs[q].ppid)
  {
    var n: nat :| BelowBy(procs, q, 0, n);
    RepAt(procs, q, n);
    if n > 0 {
      RepAt(procs, procs[q].ppid, n - 1);
    }
  }

  /** How many same-named ancestors stand directly above q without a gap. */
  ghost function SameNameRun(procs: Procs, q: U64, n: nat): nat
    requires BelowBy(procs, q, 0, n)
    decreases n
  {
    if n == 0 then 0
    else
      assert BelowBy(procs, procs[q].ppid, 0, n - 1);
      if procs[procs[q].ppid].comm != procs[q].comm then 0
      else 1 + SameNameRun(procs, procs[q].ppid, n - 1)
  }

  // Along a chain of same-named processes representatives alternate.
  lemma {:induction false} RepsAlternate(procs: Procs, q: U64, n: nat)
    requires Valid(procs) && BelowBy(procs, q, 0, n)
    ensures IsRep(procs, q) <==> SameNameRun(procs, q, n) % 2 == 0
    decreases n
  {
    RepAt(procs, q, n);
    if n > 0 {
      RepAt(procs, procs[q].ppid, n - 1);
      RepsAlternate(procs, procs[q].ppid, n - 1);
    }
  }

  /** q, its parent and its grandparent all run the same command. */
  ghost predicate ThreeInARow(procs: Procs, q: U64) {
    var p := if q in procs then procs[q].ppid else 0;
    q in procs && p in procs && procs[p].ppid in procs
    && procs[q].comm == procs[p].comm == procs[procs[p].ppid].comm
  }

  // Every reachable process that shares its parent's name loses its own entry exactly when no such chain
  // is three long.
  lemma FullyConsolidatedExact(procs: Procs)
    requires Valid(procs)
    ensures (forall q :: Reachable(procs, q) && IsRep(procs, q) && procs[q].ppid in procs
                         ==> procs[procs[q].ppid].comm != procs[q].comm)
            <==> (forall q :: Reachable(procs, q) ==> !ThreeInARow(procs, q))
  {
    forall q | Reachable(procs, q)
      ensures IsRep(procs, q) && procs[q].ppid in procs && procs[procs[q].ppid].comm == procs[q].comm
              ==> ThreeInARow(procs, q)
    {
      RepExact(procs, q);
      if procs[q].ppid != 0 {
        RepExact(procs, procs[q].ppid);
      }
    }
    forall q | Reachable(procs, q) && ThreeInARow(procs, q)
      ensures exists r :: Reachable(procs, r) && IsRep(procs, r) && procs[r].ppid in procs
                          && procs[procs[r].ppid].comm == procs[r].comm
    {
      RepExact(procs, q);
      RepExact(procs, procs[q].ppid);
    }
  }

  /** Every parent has a record, but for 0, and no process is its own ancestor. */
  ghost predicate Rooted(procs: Procs) {
    forall q :: q in procs ==> (procs[q].ppid == 0 || procs[q].ppid in procs) && !IsBelow(procs, q, q)
  }

  // Climbing from q through its ancestors; below holds processes already known to be below q.
  lemma {:induction false} Climb(procs: Procs, q: U64, below: set<U64>)
    requires Rooted(procs) && q in procs && below <= procs.Keys && forall x :: x in below ==> IsBelow(procs, x, q)
    ensures Reachable(procs, q)
    decreases procs.Keys - below
  {
    var p := procs[q].ppid;
    assert BelowBy(procs, q, p, 0);
    if p != 0 {
      forall x | x in below
        ensures IsBelow(procs, x, p)
      {
        var n: nat :| BelowBy(procs, x, q, n);
        BelowByAdds(procs, x, q, n, p, 0);
      }
      assert q in procs.Keys - below;
      Climb(procs, p, below + {q});
      var n: nat :| BelowBy(procs, p, 0, n);
      assert BelowBy(procs, q, 0, n + 1);
    }
  }

  // The walk from pid 0 meets every process if and only if every parent has a record, but for 0, and no
  // process is its own ancestor. The others are left out of the table, with all that is below them.
  lemma AllReachedExact(procs: Procs)
    requires Valid(procs)
    ensures Below(procs, 0) == procs.Keys <==> Rooted(procs)
  {
    if Below(procs, 0) == procs.Keys {
      forall q | q in procs
        ensures (procs[q].ppid == 0 || procs[q].ppid in procs) && !IsBelow(procs, q, q)
      {
        assert q in Below(procs, 0);
        RepExact(procs, q);
        var d: nat :| BelowBy(procs, q, 0, d);
        if IsBelow(procs, q, q) {
          var n: nat :| BelowBy(procs, q, q, n);
          BelowByAdds(procs, q, q, n, 0, d);
          DepthUnique(procs, q, d, n + d + 1);
        }
      }
    }
    if Rooted(procs) {
      forall q | q in procs
        ensures q in Below(procs, 0)
      {
        Climb(procs, q, {});
      }
    }
  }
}
