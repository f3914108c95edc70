/** The consolidated table as a function of the set of processes met so far: no order of visits and no
    shape of recursion appears in it. */
module Consolidated {
  import opened Words
  import opened Keys
  import opened ProcTypes
  import opened ProcTree

  ghost function KeyOf(procs: Procs, pid: U64): string
    requires pid in procs
  {
    TableKey(procs[pid].comm, pid)
  }

  ghost function Folded(procs: Procs, pid: U64, done: set<U64>): set<U64> {
    set q | q in done && FoldsInto(procs, q, pid)
  }

  /** A representative's entry: its own load and those of the same-named children met so far. */
  ghost function Entry(procs: Procs, white: string -> bool, pid: U64, done: set<U64>): PidInfo
    requires pid in procs
  {
    var p := procs[pid];
    p.(selected := p.selected || white(p.comm), load := Add(p.load, SumLoads(procs, Folded(procs, pid, done))))
  }

  ghost function Table(procs: Procs, white: string -> bool, done: set<U64>): PidStat
    requires done <= procs.Keys
  {
    TableKeysInjective();
    map pid | pid in done && IsRep(procs, pid) :: KeyOf(procs, pid) := Entry(procs, white, pid, done)
  }

  /** What the agent reports on: the table once everything below pid 0 has been met. */
  ghost function Final(procs: Procs, white: string -> bool): PidStat {
    Table(procs, white, Below(procs, 0))
  }

  // The parents of met processes have been met.
  ghost predicate Closed(procs: Procs, done: set<U64>) {
    done <= procs.Keys
    && forall q :: q in done ==> Reachable(procs, q) && (procs[q].ppid == 0 || procs[q].ppid in done)
  }

  lemma TableAt(procs: Procs, white: string -> bool, done: set<U64>, pid: U64)
    requires done <= procs.Keys && pid in procs
    ensures KeyOf(procs, pid) in Table(procs, white, done) <==> pid in done && IsRep(procs, pid)
    ensures pid in done && IsRep(procs, pid)
            ==> Table(procs, white, done)[KeyOf(procs, pid)] == Entry(procs, white, pid, done)
  {
    TableKeysInjective();
  }

  // The lookup under the parent's pid finds the parent's entry or nothing, never another entry.
  lemma LookupHits(procs: Procs, white: string -> bool, done: set<U64>, q: U64)
    requires Valid(procs) && Closed(procs, done)
    requires q in procs && (procs[q].ppid == 0 || procs[q].ppid in done)
    ensures TableKey(procs[q].comm, procs[q].ppid) in Table(procs, white, done)
            <==> FoldsInto(procs, q, procs[q].ppid)
  {
    TableKeysInjective();
    var p := procs[q].ppid;
    if FoldsInto(procs, q, p) {
      TableAt(procs, white, done, p);
    }
  }

  lemma EntryAfterFold(procs: Procs, white: string -> bool, done: set<U64>, q: U64, r: U64)
    requires Valid(procs) && done <= procs.Keys && q in procs && q !in done && r in done
    requires FoldsInto(procs, q, procs[q].ppid)
    ensures var e := Entry(procs, white, r, done);
            Entry(procs, white, r, done + {q})
            == if r == procs[q].ppid then e.(load := Add(e.load, procs[q].load)) else e
  {
    if r == procs[q].ppid {
      assert Folded(procs, r, done + {q}) == Folded(procs, r, done) + {q};
      SumLoadsInsert(procs, Folded(procs, r, done), q);
      AddIsCommutativeMonoid(procs[r].load, SumLoads(procs, Folded(procs, r, done)), procs[q].load);
    } else {
      assert Folded(procs, r, done + {q}) == Folded(procs, r, done);
    }
  }

  // Meeting a process that folds changes its parent's entry only, by that process's load.
  lemma MeetFolded(procs: Procs, white: string -> bool, done: set<U64>, q: U64)
    requires Valid(procs) && Closed(procs, done) && q in procs && q !in done
    requires Reachable(procs, q) && procs[q].ppid in done && FoldsInto(procs, q, procs[q].ppid)
    ensures var k := TableKey(procs[q].comm, procs[q].ppid);
            var t := Table(procs, white, done);
            k in t && Table(procs, white, done + {q}) == t[k := t[k].(load := Add(t[k].load, procs[q].load))]
  {
    var p := procs[q].ppid;
    var k := KeyOf(procs, p);
    RepExact(procs, q);
    TableAt(procs, white, done, p);
    var t := Table(procs, white, done);
    var m := t[k := t[k].(load := Add(t[k].load, procs[q].load))];
    forall r | r in done && IsRep(procs, r)
      ensures KeyOf(procs, r) in m && m[KeyOf(procs, r)] == Entry(procs, white, r, done + {q})
    {
      TableAt(procs, white, done, r);
      EntryAfterFold(procs, white, done, q, r);
      if KeyOf(procs, r) == k {
        TableKeyInjective(procs[r].comm, r, procs[p].comm, p);
      }
    }
    SameTable(procs, white, done + {q}, m, done);
  }

  // Meeting a representative adds its entry, with nothing folded in yet.
  lemma MeetRep(procs: Procs, white: string -> bool, done: set<U64>, q: U64)
    requires Valid(procs) && Closed(procs, done) && q in procs && q !in done
    requires Reachable(procs, q) && !FoldsInto(procs, q, procs[q].ppid)
    ensures var p := procs[q];
            Table(procs, white, done + {q})
            == Table(procs, white, done)[TableKey(p.comm, q) := if white(p.comm) then p.(selected := true) else p]
  {
    RepExact(procs, q);
    var p := procs[q];
    var e := if white(p.comm) then p.(selected := true) else p;
    forall r | r in done + {q} && IsRep(procs, r)
      ensures Folded(procs, r, done + {q}) == Folded(procs, r, done)
    {
    }
    assert Folded(procs, q, done) == {};
    AddIsCommutativeMonoid(p.load, ZERO, ZERO);
    assert Entry(procs, white, q, done + {q}) == e;
    TableKeysInjective();
    SameTable(procs, white, done + {q}, Table(procs, white, done)[KeyOf(procs, q) := e], done + {q});
  }

  // A map with the right keys and the right values is the table.
  lemma SameTable(procs: Procs, white: string -> bool, done: set<U64>, m: PidStat, reps: set<U64>)
    requires done <= procs.Keys && reps <= done
    requires forall q :: q in done && q !in reps ==> !IsRep(procs, q)
    requires forall q :: q in reps && IsRep(procs, q)
                         ==> KeyOf(procs, q) in m && m[KeyOf(procs, q)] == Entry(procs, white, q, done)
    requires forall k :: k in m ==> exists q :: q in reps && IsRep(procs, q) && k == KeyOf(procs, q)
    ensures Table(procs, white, done) == m
  {
    var t := Table(procs, white, done);
    forall k | k in t
      ensures k in m && m[k] == t[k]
    {
      var q :| q in done && IsRep(procs, q) && k == KeyOf(procs, q);
      TableAt(procs, white, done, q);
    }
    forall k | k in m
      ensures k in t
    {
      var q :| q in reps && IsRep(procs, q) && k == KeyOf(procs, q);
      TableAt(procs, white, done, q);
    }
  }

  // Everything the consolidated table holds: one entry for each reachable process that is not folded
  // into its parent, with its own load and the loads of the processes folded into it.
  lemma FinalExact(procs: Procs, white: string -> bool, pid: U64)
    requires Valid(procs) && pid in procs
    ensures KeyOf(procs, pid) in Final(procs, white)
            <==> Reachable(procs, pid) && !FoldsInto(procs, pid, procs[pid].ppid)
    ensures KeyOf(procs, pid) in Final(procs, white)
            ==> Final(procs, white)[KeyOf(procs, pid)]
                == procs[pid].(
                   selected := procs[pid].selected || white(procs[pid].comm),
                   load := Add(procs[pid].load, SumLoads(procs, set q | q in procs && FoldsInto(procs, q, pid))))
    ensures forall k :: k in Final(procs, white) ==> exists q :: q in procs && k == KeyOf(procs, q)
  {
    TableAt(procs, white, Below(procs, 0), pid);
    if Reachable(procs, pid) {
      RepExact(procs, pid);
      var d: nat :| BelowBy(procs, pid, 0, d);
      forall q | q in procs && FoldsInto(procs, q, pid)
        ensures Reachable(procs, q)
      {
        assert BelowBy(procs, q, 0, d + 1);
      }
      assert Folded(procs, pid, Below(procs, 0)) == set q | q in procs && FoldsInto(procs, q, pid);
    }
  }
}
