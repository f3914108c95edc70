/** Building the process tree and consolidating it in place. */
module ProcPidStat {
  import opened Words
  import opened Keys
  import opened ProcTypes
  import opened ProcTree
  import opened Consolidated

  class PidTable {
    var entries: PidStat

    constructor ()
      ensures entries == map[]
    {
      entries := map[];
    }
  }

  function Slice(tree: PidTree, par: U64): seq<PidInfo> {
    if par in tree then tree[par] else []
  }

  ghost predicate DistinctPids(slice: seq<PidInfo>) {
    forall i, j :: 0 <= i < j < |slice| ==> slice[i].pid != slice[j].pid
  }

  ghost predicate SliceOf(slice: seq<PidInfo>, par: U64, procs: Procs) {
    DistinctPids(slice) && forall p :: p in slice ==> p.ppid == par && p.pid in procs && procs[p.pid] == p
  }

  /** tree lists every process of procs once, under its parent, in any order. */
  ghost predicate Arranges(tree: PidTree, procs: Procs) {
    (forall par :: par in tree ==> SliceOf(tree[par], par, procs))
    && forall pid :: pid in procs ==> procs[pid] in Slice(tree, procs[pid].ppid)
  }

  /** The processes in slice and all that is below them. */
  ghost function Under(procs: Procs, slice: seq<PidInfo>): set<U64> {
    set q | q in procs && exists i :: 0 <= i < |slice| && (slice[i].pid == q || IsBelow(procs, q, slice[i].pid))
  }

  lemma UnderOneMore(procs: Procs, slice: seq<PidInfo>, i: nat)
    requires i < |slice| && slice[i].pid in procs
    ensures Under(procs, slice[..i + 1]) == Under(procs, slice[..i]) + {slice[i].pid} + Below(procs, slice[i].pid)
  {
    var s, t := slice[..i + 1], slice[..i];
    forall q | q in procs
      ensures q in Under(procs, s) <==> q in Under(procs, t) || q == slice[i].pid || IsBelow(procs, q, slice[i].pid)
    {
      if q in Under(procs, t) {
        var j :| 0 <= j < |t| && (t[j].pid == q || IsBelow(procs, q, t[j].pid));
        assert s[j] == t[j];
      }
      if q in Under(procs, s) {
        var j :| 0 <= j < |s| && (s[j].pid == q || IsBelow(procs, q, s[j].pid));
        assert j == i || s[j] == t[j];
      }
      assert s[i] == slice[i];
    }
  }

  // Going down from par starts with one of its children.
  lemma {:induction false} FirstStep(procs: Procs, q: U64, par: U64, n: nat) returns (c: U64)
    requires BelowBy(procs, q, par, n)
    ensures c in procs && procs[c].ppid == par
    ensures if n == 0 then c == q else BelowBy(procs, q, c, n - 1)
    decreases n
  {
    if n == 0 {
      c := q;
    } else {
      c := FirstStep(procs, procs[q].ppid, par, n - 1);
    }
  }

  lemma ChildIsBelow(procs: Procs, q: U64, c: U64, par: U64)
    requires c in procs && procs[c].ppid == par
    requires q == c || IsBelow(procs, q, c)
    ensures IsBelow(procs, q, par)
  {
    assert BelowBy(procs, c, par, 0);
    if q != c {
      var n: nat :| BelowBy(procs, q, c, n);
      BelowByAdds(procs, q, c, n, par, 0);
    }
  }

  lemma UnderAll(procs: Procs, tree: PidTree, par: U64)
    requires Valid(procs) && Arranges(tree, procs)
    ensures Under(procs, Slice(tree, par)) == Below(procs, par)
  {
    var slice := Slice(tree, par);
    forall q | q in procs
      ensures q in Under(procs, slice) <==> IsBelow(procs, q, par)
    {
      if q in Under(procs, slice) {
        var i :| 0 <= i < |slice| && (slice[i].pid == q || IsBelow(procs, q, slice[i].pid));
        assert slice[i] in slice;
        ChildIsBelow(procs, q, slice[i].pid, par);
      }
      if IsBelow(procs, q, par) {
        var n: nat :| BelowBy(procs, q, par, n);
        var c := FirstStep(procs, q, par, n);
        assert procs[c] in slice;
        var i :| 0 <= i < |slice| && slice[i] == procs[c];
        assert slice[i].pid == q || IsBelow(procs, q, slice[i].pid);
      }
    }
  }

  // A sibling at depth d is not below another process at depth d.
  lemma NotBelowSibling(procs: Procs, p: U64, q: U64, d: nat)
    requires Valid(procs) && BelowBy(procs, p, 0, d) && BelowBy(procs, q, 0, d)
    ensures !IsBelow(procs, q, p)
  {
    if IsBelow(procs, q, p) {
      var n: nat :| BelowBy(procs, q, p, n);
      BelowByAdds(procs, q, p, n, 0, d);
      DepthUnique(procs, q, d, n + d + 1);
    }
  }

  lemma ClosedMore(procs: Procs, done: set<U64>, p: U64)
    requires Valid(procs) && Closed(procs, done)
    requires p in procs && Reachable(procs, p) && (procs[p].ppid == 0 || procs[p].ppid in done)
    ensures Closed(procs, done + {p}) && Closed(procs, done + {p} + Below(procs, p))
  {
    var d: nat :| BelowBy(procs, p, 0, d);
    forall q | q in Below(procs, p)
      ensures Reachable(procs, q)
      ensures procs[q].ppid == p || procs[q].ppid in Below(procs, p)
    {
      var n: nat :| BelowBy(procs, q, p, n);
      BelowByAdds(procs, q, p, n, 0, d);
      if n > 0 {
        assert BelowBy(procs, procs[q].ppid, p, n - 1);
      }
    }
  }

  /** The place of par: pid 0, or a met process at the depth above. */
  ghost predicate MetAt(procs: Procs, par: U64, depth: nat, done: set<U64>) {
    if par == 0 then depth == 0 else par in done && depth > 0 && BelowBy(procs, par, 0, depth - 1)
  }

  /** What a call for the children of par starts from. */
  ghost predicate Ready(tree: PidTree, procs: Procs, par: U64, depth: nat, done: set<U64>) {
    Valid(procs) && Arranges(tree, procs) && Closed(procs, done) && MetAt(procs, par, depth, done)
    && forall q :: q in done ==> procs[q].ppid != par
  }

  /** What its loop keeps between two siblings. */
  ghost predicate Between(procs: Procs, slice: seq<PidInfo>, i: nat, done: set<U64>, met: set<U64>)
    requires i <= |slice|
  {
    Closed(procs, met) && met == done + Under(procs, slice[..i])
    && forall j :: i <= j < |slice| ==> slice[j].pid !in met
  }

  lemma FirstSibling(tree: PidTree, procs: Procs, par: U64, depth: nat, done: set<U64>)
    requires Ready(tree, procs, par, depth, done)
    ensures Between(procs, Slice(tree, par), 0, done, done)
  {
    var slice := Slice(tree, par);
    assert Under(procs, slice[..0]) == {};
    forall j | 0 <= j < |slice|
      ensures slice[j].pid !in done
    {
      assert slice[j] in slice;
    }
  }

  /** p can be met now. */
  ghost predicate CanMeet(procs: Procs, p: PidInfo, met: set<U64>) {
    Valid(procs) && Closed(procs, met) && p.pid in procs && procs[p.pid] == p && p.pid !in met
    && Reachable(procs, p.pid) && (p.ppid == 0 || p.ppid in met)
  }

  lemma ChildAt(tree: PidTree, procs: Procs, par: U64, depth: nat, done: set<U64>, j: nat)
    requires Ready(tree, procs, par, depth, done) && j < |Slice(tree, par)|
    ensures var p := Slice(tree, par)[j];
            p.ppid == par && p.pid in procs && procs[p.pid] == p && BelowBy(procs, p.pid, 0, depth)
  {
    assert Slice(tree, par)[j] in Slice(tree, par);
  }

  lemma CanMeetNext(tree: PidTree, procs: Procs, par: U64, depth: nat, done: set<U64>, i: nat, met: set<U64>)
    requires Ready(tree, procs, par, depth, done) && i < |Slice(tree, par)|
    requires Between(procs, Slice(tree, par), i, done, met)
    ensures CanMeet(procs, Slice(tree, par)[i], met) && depth < |procs|
  {
    ChildAt(tree, procs, par, depth, done, i);
    DepthBounded(procs, Slice(tree, par)[i].pid, depth);
  }

  lemma ReadyBelow(tree: PidTree, procs: Procs, p: PidInfo, depth: nat, met: set<U64>)
    requires Valid(procs) && Arranges(tree, procs) && CanMeet(procs, p, met) && BelowBy(procs, p.pid, 0, depth)
    ensures Ready(tree, procs, p.pid, depth + 1, met + {p.pid})
  {
    ClosedMore(procs, met, p.pid);
  }

  lemma SiblingsApart(tree: PidTree, procs: Procs, par: U64, depth: nat, done: set<U64>, i: nat)
    requires Ready(tree, procs, par, depth, done) && i < |Slice(tree, par)|
    ensures var slice := Slice(tree, par);
            forall j :: i < j < |slice| ==> slice[j].pid != slice[i].pid && slice[j].pid !in Below(procs, slice[i].pid)
  {
    var slice := Slice(tree, par);
    ChildAt(tree, procs, par, depth, done, i);
    forall j | i < j < |slice|
      ensures slice[j].pid != slice[i].pid && slice[j].pid !in Below(procs, slice[i].pid)
    {
      ChildAt(tree, procs, par, depth, done, j);
      NotBelowSibling(procs, slice[i].pid, slice[j].pid, depth);
    }
  }

  lemma Regroup(a: set<U64>, b: set<U64>, c: set<U64>, d: set<U64>)
    ensures (a + b) + c + d == a + (b + c + d)
  {
  }

  lemma BetweenNext(tree: PidTree, procs: Procs, par: U64, depth: nat, done: set<U64>, i: nat, met: set<U64>)
    requires Ready(tree, procs, par, depth, done) && i < |Slice(tree, par)|
    requires Between(procs, Slice(tree, par), i, done, met) && CanMeet(procs, Slice(tree, par)[i], met)
    ensures var p := Slice(tree, par)[i];
            Between(procs, Slice(tree, par), i + 1, done, met + {p.pid} + Below(procs, p.pid))
  {
    var slice := Slice(tree, par);
    var q := slice[i].pid;
    SiblingsApart(tree, procs, par, depth, done, i);
    assert Closed(procs, met + {q} + Below(procs, q)) by {
      ClosedMore(procs, met, q);
    }
    assert met + {q} + Below(procs, q) == done + Under(procs, slice[..i + 1]) by {
      UnderOneMore(procs, slice, i);
      Regroup(done, Under(procs, slice[..i]), {q}, Below(procs, q));
    }
  }

  lemma NextSibling(tree: PidTree, procs: Procs, par: U64, depth: nat, done: set<U64>, i: nat, met: set<U64>)
    requires Ready(tree, procs, par, depth, done) && i < |Slice(tree, par)|
    requires Between(procs, Slice(tree, par), i, done, met)
    ensures var p := Slice(tree, par)[i];
            CanMeet(procs, p, met) && depth < |procs|
            && Ready(tree, procs, p.pid, depth + 1, met + {p.pid})
            && Between(procs, Slice(tree, par), i + 1, done, met + {p.pid} + Below(procs, p.pid))
  {
    CanMeetNext(tree, procs, par, depth, done, i, met);
    ChildAt(tree, procs, par, depth, done, i);
    ReadyBelow(tree, procs, Slice(tree, par)[i], depth, met);
    BetweenNext(tree, procs, par, depth, done, i, met);
  }

  lemma NoChildren(tree: PidTree, procs: Procs, par: U64, depth: nat, done: set<U64>)
    requires Ready(tree, procs, par, depth, done) && par !in tree
    ensures done + Below(procs, par) == done
  {
    UnderAll(procs, tree, par);
  }

  lemma LastSibling(tree: PidTree, procs: Procs, par: U64, depth: nat, done: set<U64>, met: set<U64>)
    requires Ready(tree, procs, par, depth, done)
    requires Between(procs, Slice(tree, par), |Slice(tree, par)|, done, met)
    ensures met == done + Below(procs, par)
  {
    UnderAll(procs, tree, par);
    assert Slice(tree, par)[..|Slice(tree, par)|] == Slice(tree, par);
  }

  // One process is added to its parent's entry or gets an entry of its own.
  method Meet(table: PidTable, p: PidInfo, white: string -> bool, ghost procs: Procs, ghost met: set<U64>)
    requires CanMeet(procs, p, met) && table.entries == Table(procs, white, met)
    modifies table
    ensures table.entries == Table(procs, white, met + {p.pid})
  {
    var k := TableKey(p.comm, p.ppid);
    LookupHits(procs, white, met, p.pid);
    if k in table.entries {
      var entry := table.entries[k];
      MeetFolded(procs, white, met, p.pid);
      table.entries := table.entries[k := entry.(load := Add(entry.load, p.load))];
    } else {
      k := TableKey(p.comm, p.pid);
      MeetRep(procs, white, met, p.pid);
      table.entries := table.entries[k := if white(p.comm) then p.(selected := true) else p];
    }
  }

  // Consolidates everything below par. The table is a function of the processes met, so the result is
  // the same for every order of the sibling slices; and the recursion stops although the parent
  // relation may have cycles elsewhere.
  method Consolidate(tree: PidTree, table: PidTable, slice: seq<PidInfo>, white: string -> bool,
                     ghost procs: Procs, ghost par: U64, ghost depth: nat, ghost done: set<U64>)
    requires Ready(tree, procs, par, depth, done) && slice == Slice(tree, par)
    requires table.entries == Table(procs, white, done)
    modifies table
    ensures done + Below(procs, par) <= procs.Keys
    ensures table.entries == Table(procs, white, done + Below(procs, par))
    decreases |procs| - depth
  {
    ghost var met := done;
    FirstSibling(tree, procs, par, depth, done);
    for i := 0 to |slice|
      invariant Between(procs, slice, i, done, met)
      invariant table.entries == Table(procs, white, met)
    {
      var p := slice[i];
      NextSibling(tree, procs, par, depth, done, i, met);
      Meet(table, p, white, procs, met);
      if p.pid in tree {
        Consolidate(tree, table, tree[p.pid], white, procs, p.pid, depth + 1, met + {p.pid});
      } else {
        NoChildren(tree, procs, p.pid, depth + 1, met + {p.pid});
      }
      met := met + {p.pid} + Below(procs, p.pid);
    }
    LastSibling(tree, procs, par, depth, done, met);
  }

  /** One /proc directory per pid, and no process has pid 0. */
  ghost predicate UniquePids(stat: PidStat) {
    (forall k :: k in stat ==> stat[k].pid != 0)
    && forall k, l :: k in stat && l in stat && stat[k].pid == stat[l].pid ==> k == l
  }

  /** Keyed as ReadPidStat does, by commands that do not start with a digit. */
  ghost predicate KeyedByPidAndName(stat: PidStat) {
    forall k :: k in stat ==> k == SnapshotKey(stat[k].pid, stat[k].comm) && !StartsWithDigit(stat[k].comm)
  }

  // Then a key found in both snapshots is the same pid running the same command.
  lemma KeyMeansSameProcess(newer: PidStat, older: PidStat, k: string)
    requires KeyedByPidAndName(newer) && KeyedByPidAndName(older) && k in newer && k in older
    ensures newer[k].pid == older[k].pid && newer[k].comm == older[k].comm
  {
    SnapshotKeyInjective(newer[k].pid, newer[k].comm, older[k].pid, older[k].comm);
  }

  /** The deltas of the processes with keys in ks that both snapshots hold. */
  ghost function DeltasOf(newer: PidStat, older: PidStat, ks: set<string>): Procs
    requires UniquePids(newer)
  {
    map k | k in newer && k in older && k in ks :: newer[k].pid := Delta(newer[k], older[k])
  }

  ghost function Deltas(newer: PidStat, older: PidStat): Procs
    requires UniquePids(newer)
  {
    DeltasOf(newer, older, newer.Keys)
  }

  lemma DeltasAreValid(newer: PidStat, older: PidStat, ks: set<string>)
    requires UniquePids(newer)
    ensures Valid(DeltasOf(newer, older, ks))
  {
  }

  function AddPid(slice: seq<PidInfo>, p: PidInfo, before: PidInfo): seq<PidInfo> {
    slice + [Delta(p, before)]
  }

  function AddToTree(tree: PidTree, p: PidInfo, before: PidInfo): PidTree {
    tree[p.ppid := AddPid(Slice(tree, p.ppid), p, before)]
  }

  lemma SliceOneMore(slice: seq<PidInfo>, par: U64, procs: Procs, d: PidInfo)
    requires SliceOf(slice, par, procs) && d.pid !in procs && d.ppid == par
    ensures SliceOf(slice + [d], par, procs[d.pid := d])
  {
    assert forall i :: 0 <= i < |slice| ==> slice[i] in slice;
  }

  lemma ArrangesOneMore(tree: PidTree, procs: Procs, d: PidInfo)
    requires Arranges(tree, procs) && d.pid !in procs
    ensures Arranges(tree[d.ppid := Slice(tree, d.ppid) + [d]], procs[d.pid := d])
  {
    var t, ps := tree[d.ppid := Slice(tree, d.ppid) + [d]], procs[d.pid := d];
    forall par | par in t
      ensures SliceOf(t[par], par, ps)
    {
      if par == d.ppid {
        SliceOneMore(Slice(tree, par), par, procs, d);
      } else {
        assert SliceOf(tree[par], par, procs);
      }
    }
    forall pid | pid in ps
      ensures ps[pid] in Slice(t, ps[pid].ppid)
    {
      assert pid != d.pid ==> procs[pid] in Slice(tree, procs[pid].ppid);
    }
  }

  lemma DeltasOneMore(newer: PidStat, older: PidStat, ks: set<string>, k: string)
    requires UniquePids(newer) && k in newer && k !in ks
    ensures var procs, more := DeltasOf(newer, older, ks), DeltasOf(newer, older, ks + {k});
            if k !in older then more == procs
            else newer[k].pid !in procs && more == procs[newer[k].pid := Delta(newer[k], older[k])]
  {
  }

  /** The tree after the process with key k has been looked at. */
  function TreeWith(tree: PidTree, newer: PidStat, older: PidStat, k: string): PidTree
    requires k in newer
  {
    if k in older then AddToTree(tree, newer[k], older[k]) else tree
  }

  /** tree lists the deltas of the keys looked at. */
  ghost predicate Built(tree: PidTree, newer: PidStat, older: PidStat, seen: set<string>) {
    UniquePids(newer) && Arranges(tree, DeltasOf(newer, older, seen))
  }

  lemma TreeOneMore(tree: PidTree, newer: PidStat, older: PidStat, seen: set<string>, k: string)
    requires k in newer && k !in seen && Built(tree, newer, older, seen)
    ensures Built(TreeWith(tree, newer, older, k), newer, older, seen + {k})
  {
    DeltasOneMore(newer, older, seen, k);
    if k in older {
      ArrangesOneMore(tree, DeltasOf(newer, older, seen), Delta(newer[k], older[k]));
    }
  }

  /** Every process that both snapshots hold is listed once, under its parent, with its delta, and no
      other process is listed. */
  ghost predicate ListsSeenTwice(tree: PidTree, newer: PidStat, older: PidStat) {
    (forall k :: k in newer && k in older ==> ListedOnce(Slice(tree, newer[k].ppid), newer[k], older[k]))
    && forall par, i :: par in tree && 0 <= i < |tree[par]| ==>
         SeenTwiceUnder(newer, older, par, tree[par][i].pid)
  }

  ghost predicate SeenTwiceUnder(newer: PidStat, older: PidStat, par: U64, pid: U64) {
    exists k :: k in newer && k in older && newer[k].ppid == par && newer[k].pid == pid
  }

  ghost predicate ListedOnce(slice: seq<PidInfo>, p: PidInfo, before: PidInfo) {
    exists i :: 0 <= i < |slice| && IsDelta(slice[i], p, before)
                && forall j :: 0 <= j < |slice| && slice[j].pid == p.pid ==> j == i
  }

  // The deltas are those of the keys that both snapshots hold, whatever their parents are.
  lemma DeltasExact(newer: PidStat, older: PidStat)
    requires UniquePids(newer)
    ensures forall k :: k in newer && k in older ==>
              newer[k].pid in Deltas(newer, older)
              && IsDelta(Deltas(newer, older)[newer[k].pid], newer[k], older[k])
    ensures forall pid :: pid in Deltas(newer, older) ==> exists k :: k in newer && k in older && newer[k].pid == pid
  {
    forall k | k in newer && k in older
      ensures newer[k].pid in Deltas(newer, older)
              && IsDelta(Deltas(newer, older)[newer[k].pid], newer[k], older[k])
    {
      DeltaIsDelta(newer[k], older[k]);
    }
  }

  // The same for single processes, as far as who they are is concerned.
  lemma DeltaOfKey(newer: PidStat, older: PidStat, k: string)
    requires UniquePids(newer) && k in newer && k in older
    ensures var procs, p := Deltas(newer, older), newer[k];
            p.pid in procs && (procs[p.pid].pid, procs[p.pid].ppid, procs[p.pid].comm) == (p.pid, p.ppid, p.comm)
  {
    DeltasExact(newer, older);
  }

  lemma KeyOfDelta(newer: PidStat, older: PidStat, pid: U64) returns (k: string)
    requires UniquePids(newer) && pid in Deltas(newer, older)
    ensures k in newer && k in older
    ensures var d, p := Deltas(newer, older)[pid], newer[k];
            (d.pid, d.ppid, d.comm) == (p.pid, p.ppid, p.comm) && p.pid == pid
  {
    DeltasExact(newer, older);
    k :| k in newer && k in older && newer[k].pid == pid;
    DeltaOfKey(newer, older, k);
  }

  lemma ListsKey(slice: seq<PidInfo>, procs: Procs, p: PidInfo, before: PidInfo)
    requires SliceOf(slice, p.ppid, procs) && p.pid in procs && procs[p.pid] in slice
    requires IsDelta(procs[p.pid], p, before)
    ensures ListedOnce(slice, p, before)
  {
    var i :| 0 <= i < |slice| && slice[i] == procs[p.pid];
  }

  lemma ListsOnlyKeys(newer: PidStat, older: PidStat, par: U64, d: PidInfo)
    requires UniquePids(newer) && d.pid in Deltas(newer, older) && Deltas(newer, older)[d.pid] == d && d.ppid == par
    ensures SeenTwiceUnder(newer, older, par, d.pid)
  {
    var k := KeyOfDelta(newer, older, d.pid);
  }

  lemma ListsExact(tree: PidTree, newer: PidStat, older: PidStat)
    requires UniquePids(newer) && Arranges(tree, Deltas(newer, older))
    ensures ListsSeenTwice(tree, newer, older)
  {
    var procs := Deltas(newer, older);
    forall k | k in newer && k in older
      ensures ListedOnce(Slice(tree, newer[k].ppid), newer[k], older[k])
    {
      DeltasExact(newer, older);
      assert IsDelta(procs[newer[k].pid], newer[k], older[k]);
      ListsKey(Slice(tree, newer[k].ppid), procs, newer[k], older[k]);
    }
    forall par, i | par in tree && 0 <= i < |tree[par]|
      ensures SeenTwiceUnder(newer, older, par, tree[par][i].pid)
    {
      assert SliceOf(tree[par], par, procs);
      ListsOnlyKeys(newer, older, par, tree[par][i]);
    }
  }

  lemma MoveOne(rest: set<string>, seen: set<string>, all: set<string>, k: string)
    requires rest + seen == all && rest !! seen && k in rest
    ensures (rest - {k}) + (seen + {k}) == all && rest - {k} !! seen + {k} && k in all && k !in seen
  {
  }

  lemma BuiltNone(newer: PidStat, older: PidStat)
    requires UniquePids(newer)
    ensures Built(map[], newer, older, {})
  {
  }

  lemma BuiltAll(tree: PidTree, newer: PidStat, older: PidStat)
    requires Built(tree, newer, older, newer.Keys)
    ensures Arranges(tree, Deltas(newer, older)) && ListsSeenTwice(tree, newer, older)
  {
    ListsExact(tree, newer, older);
  }

  // Groups the deltas by parent; Go visits the snapshot in an arbitrary order.
  method BuildTree(newer: PidStat, older: PidStat) returns (tree: PidTree)
    requires UniquePids(newer)
    ensures Arranges(tree, Deltas(newer, older)) && ListsSeenTwice(tree, newer, older)
  {
    tree := map[];
    BuiltNone(newer, older);
    var rest := newer.Keys;
    ghost var seen: set<string> := {};
    while rest != {}
      invariant rest + seen == newer.Keys && rest !! seen
      invariant Built(tree, newer, older, seen)
    {
      var k :| k in rest;
      TreeOneMore(tree, newer, older, seen, k);
      MoveOne(rest, seen, newer.Keys, k);
      if k in older {
        tree := AddToTree(tree, newer[k], older[k]);
      }
      rest, seen := rest - {k}, seen + {k};
    }
    assert seen == newer.Keys;
    BuiltAll(tree, newer, older);
  }

  lemma RootIsReady(tree: PidTree, procs: Procs, white: string -> bool)
    requires Valid(procs) && Arranges(tree, procs)
    ensures Ready(tree, procs, 0, 0, {}) && Table(procs, white, {}) == map[]
    ensures {} + Below(procs, 0) == Below(procs, 0)
  {
  }

  /** A process that both snapshots hold and that pid 0 started has an entry, and there is no entry but
      for a process that both hold. */
  ghost predicate ShowsSeenTwice(entries: PidStat, newer: PidStat, older: PidStat) {
    (forall k :: k in newer && k in older && newer[k].ppid == 0 ==>
       TableKey(newer[k].comm, newer[k].pid) in entries)
    && forall e :: e in entries ==> exists k :: k in newer && k in older && e == TableKey(newer[k].comm, newer[k].pid)
  }

  lemma RootHasEntry(newer: PidStat, older: PidStat, white: string -> bool, k: string)
    requires UniquePids(newer) && k in newer && k in older && newer[k].ppid == 0
    ensures TableKey(newer[k].comm, newer[k].pid) in Final(Deltas(newer, older), white)
  {
    var procs := Deltas(newer, older);
    DeltasAreValid(newer, older, newer.Keys);
    DeltaOfKey(newer, older, k);
    assert BelowBy(procs, newer[k].pid, 0, 0);
    FinalExact(procs, white, newer[k].pid);
  }

  lemma EntryIsSeenTwice(newer: PidStat, older: PidStat, white: string -> bool, e: string)
    requires UniquePids(newer) && e in Final(Deltas(newer, older), white)
    ensures exists k :: k in newer && k in older && e == TableKey(newer[k].comm, newer[k].pid)
  {
    var procs := Deltas(newer, older);
    var q :| q in Below(procs, 0) && IsRep(procs, q) && e == KeyOf(procs, q);
    var k := KeyOfDelta(newer, older, q);
  }

  lemma FinalShows(newer: PidStat, older: PidStat, white: string -> bool)
    requires UniquePids(newer)
    ensures ShowsSeenTwice(Final(Deltas(newer, older), white), newer, older)
  {
    forall k | k in newer && k in older && newer[k].ppid == 0
      ensures TableKey(newer[k].comm, newer[k].pid) in Final(Deltas(newer, older), white)
    {
      RootHasEntry(newer, older, white, k);
    }
    forall e | e in Final(Deltas(newer, older), white)
      ensures exists k :: k in newer && k in older && e == TableKey(newer[k].comm, newer[k].pid)
    {
      EntryIsSeenTwice(newer, older, white, e);
    }
  }

  // One round up to the consolidated table.
  method ConsolidateAll(newer: PidStat, older: PidStat, white: string -> bool) returns (table: PidTable)
    requires UniquePids(newer)
    ensures fresh(table) && table.entries == Final(Deltas(newer, older), white)
    ensures ShowsSeenTwice(table.entries, newer, older)
  {
    var tree := BuildTree(newer, older);
    ghost var procs := Deltas(newer, older);
    DeltasAreValid(newer, older, newer.Keys);
    table := new PidTable();
    RootIsReady(tree, procs, white);
    FinalShows(newer, older, white);
    Consolidate(tree, table, Slice(tree, 0), white, procs, 0, 0, {});
  }
}
