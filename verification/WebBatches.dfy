/** The batch meaning of a log: greedy time windows, and per window one merged record a prefix. */
module WebBatches {
  import opened WebRecords

  type Records = seq<ReqStat>

  /** How many leading records are within d of t0. */
  function Fits(rs: Records, t0: int, d: int): (n: nat)
    ensures n <= |rs| && forall i :: 0 <= i < n ==> rs[i].ts - t0 <= d
    ensures n < |rs| ==> rs[n].ts - t0 > d
  {
    if rs == [] || rs[0].ts - t0 > d then 0 else 1 + Fits(rs[1..], t0, d)
  }

  /** The length of the first window: its first record and all up to one more than d later. */
  function FirstLength(rs: Records, d: int): (n: nat)
    requires rs != []
    ensures 1 <= n <= |rs|
  {
    1 + Fits(rs[1..], rs[0].ts, d)
  }

  function Windows(rs: Records, d: int): (ws: seq<Records>)
    ensures rs != [] ==> ws != []
    ensures forall i :: 0 <= i < |ws| ==> ws[i] != []
    decreases |rs|
  {
    if rs == [] then []
    else
      var n := FirstLength(rs, d);
      [rs[..n]] + Windows(rs[n..], d)
  }

  function Last<T>(s: seq<T>): T
    requires s != []
  {
    s[|s| - 1]
  }

  lemma {:induction false} FitsExact(rs: Records, t0: int, d: int, m: nat)
    requires m <= |rs| && forall i :: 0 <= i < m ==> rs[i].ts - t0 <= d
    requires m < |rs| ==> rs[m].ts - t0 > d
    ensures Fits(rs, t0, d) == m
  {
    if m > 0 {
      FitsExact(rs[1..], t0, d, m - 1);
    }
  }

  lemma {:induction false} FitsOneMore(rs: Records, w: ReqStat, t0: int, d: int)
    ensures Fits(rs + [w], t0, d)
            == if Fits(rs, t0, d) < |rs| || w.ts - t0 > d then Fits(rs, t0, d) else |rs| + 1
  {
    if rs == [] {
      assert rs + [w] == [w];
    } else {
      assert (rs + [w])[1..] == rs[1..] + [w];
      FitsOneMore(rs[1..], w, t0, d);
    }
  }

  lemma UnfoldWindows(rs: Records, d: int, n: nat)
    requires rs != [] && n == FirstLength(rs, d)
    ensures Windows(rs, d) == [rs[..n]] + Windows(rs[n..], d)
  {
  }

  lemma OneWindow(rs: Records, d: int)
    requires rs != [] && FirstLength(rs, d) == |rs|
    ensures Windows(rs, d) == [rs]
  {
    UnfoldWindows(rs, d, |rs|);
    assert rs[..|rs|] == rs && rs[|rs|..] == [];
  }

  lemma LastWindowMore(rs: Records, w: ReqStat, d: int)
    requires rs != [] && FirstLength(rs, d) == |rs|
    ensures Windows(rs + [w], d) == if w.ts - rs[0].ts > d then [rs, [w]] else [rs + [w]]
  {
    var all := rs + [w];
    assert all[1..] == rs[1..] + [w];
    FitsOneMore(rs[1..], w, rs[0].ts, d);
    if w.ts - rs[0].ts > d {
      UnfoldWindows(all, d, |rs|);
      assert all[..|rs|] == rs && all[|rs|..] == [w];
      OneWindow([w], d);
    } else {
      OneWindow(all, d);
    }
  }

  /** ws with w added to its last window or in a window of its own. */
  function AddToLast(ws: seq<Records>, w: ReqStat, d: int): seq<Records>
    requires ws != [] && Last(ws) != []
  {
    if w.ts - Last(ws)[0].ts > d then ws + [[w]] else ws[..|ws| - 1] + [Last(ws) + [w]]
  }

  lemma FirstStays(rs: Records, w: ReqStat, d: int, n: nat)
    requires rs != [] && n == FirstLength(rs, d) < |rs|
    ensures Windows(rs + [w], d) == [rs[..n]] + Windows(rs[n..] + [w], d)
  {
    var all := rs + [w];
    assert n == FirstLength(all, d) by {
      assert all[1..] == rs[1..] + [w];
      FitsOneMore(rs[1..], w, rs[0].ts, d);
    }
    assert all[..n] == rs[..n] by {
      TakeOfSum(rs, [w], n);
    }
    assert all[n..] == rs[n..] + [w] by {
      TakeOfSum(rs, [w], n);
    }
    UnfoldWindows(all, d, n);
  }

  lemma TakeOfSum(rs: Records, more: Records, n: nat)
    requires n <= |rs|
    ensures (rs + more)[..n] == rs[..n] && (rs + more)[n..] == rs[n..] + more
  {
  }

  // One more record extends the last window or opens a new one.
  lemma {:induction false} WindowsOneMore(rs: Records, w: ReqStat, d: int)
    requires rs != []
    ensures Windows(rs + [w], d) == AddToLast(Windows(rs, d), w, d)
    decreases |rs|
  {
    var n := FirstLength(rs, d);
    if n == |rs| {
      assert Windows(rs, d) == [rs] by {
        OneWindow(rs, d);
      }
      LastWindowMore(rs, w, d);
    } else {
      var rest := Windows(rs[n..], d);
      assert Windows(rs, d) == [rs[..n]] + rest by {
        UnfoldWindows(rs, d, n);
      }
      FirstStays(rs, w, d, n);
      WindowsOneMore(rs[n..], w, d);
      AddAfterFirst(rs[..n], rest, w, d);
    }
  }

  lemma AddAfterFirst(first: Records, rest: seq<Records>, w: ReqStat, d: int)
    requires rest != [] && Last(rest) != []
    ensures AddToLast([first] + rest, w, d) == [first] + AddToLast(rest, w, d)
  {
    assert Last([first] + rest) == Last(rest);
    assert ([first] + rest)[..|rest|] == [first] + rest[..|rest| - 1];
  }

  function Flatten(ws: seq<Records>): Records {
    if ws == [] then [] else ws[0] + Flatten(ws[1..])
  }

  ghost predicate Greedy(ws: seq<Records>, d: int) {
    (forall i :: 0 <= i < |ws| ==> ws[i] != [])
    && (forall i, j :: 0 <= i < |ws| && 0 < j < |ws[i]| ==> ws[i][j].ts - ws[i][0].ts <= d)
    && forall i :: 0 <= i < |ws| - 1 ==> ws[i + 1][0].ts - ws[i][0].ts > d
  }

  lemma FirstIsGreedy(rs: Records, d: int, n: nat)
    requires rs != [] && n == FirstLength(rs, d)
    ensures forall j :: 0 < j < n ==> rs[j].ts - rs[0].ts <= d
    ensures n < |rs| ==> rs[n].ts - rs[0].ts > d
  {
    assert forall j :: 0 < j < |rs| ==> rs[j] == rs[1..][j - 1];
  }

  lemma GreedyAfterFirst(first: Records, rest: seq<Records>, d: int)
    requires Greedy(rest, d) && first != [] && forall j :: 0 < j < |first| ==> first[j].ts - first[0].ts <= d
    requires rest != [] ==> rest[0][0].ts - first[0].ts > d
    ensures Greedy([first] + rest, d) && Flatten([first] + rest) == first + Flatten(rest)
  {
    var ws := [first] + rest;
    assert ws[1..] == rest;
    assert forall i :: 0 < i < |ws| ==> ws[i] == rest[i - 1];
  }

  lemma FirstJoins(rs: Records, d: int, n: nat, rest: seq<Records>)
    requires rs != [] && n == FirstLength(rs, d) && Greedy(rest, d) && Flatten(rest) == rs[n..]
    ensures Greedy([rs[..n]] + rest, d) && Flatten([rs[..n]] + rest) == rs
  {
    FirstIsGreedy(rs, d, n);
    assert rest != [] ==> rest[0][0] == rs[n..][0];
    GreedyAfterFirst(rs[..n], rest, d);
    assert rs == rs[..n] + rs[n..];
  }

  lemma {:induction false} WindowsAreGreedy(rs: Records, d: int)
    ensures Flatten(Windows(rs, d)) == rs && Greedy(Windows(rs, d), d)
    decreases |rs|
  {
    if rs != [] {
      var n := FirstLength(rs, d);
      var rest := Windows(rs[n..], d);
      assert Greedy(rest, d) && Flatten(rest) == rs[n..] by {
        WindowsAreGreedy(rs[n..], d);
      }
      assert Windows(rs, d) == [rs[..n]] + rest by {
        UnfoldWindows(rs, d, n);
      }
      FirstJoins(rs, d, n, rest);
    }
  }

  lemma CutsHere(first: Records, rest: Records, d: int)
    requires first != [] && forall j :: 0 < j < |first| ==> first[j].ts - first[0].ts <= d
    requires rest != [] ==> rest[0].ts - first[0].ts > d
    ensures Windows(first + rest, d) == [first] + Windows(rest, d)
  {
    var rs := first + rest;
    assert forall j :: 0 <= j < |first| - 1 ==> rs[1..][j] == first[j + 1];
    assert rest != [] ==> rs[1..][|first| - 1] == rest[0];
    FitsExact(rs[1..], rs[0].ts, d, |first| - 1);
    assert rs[..|first|] == first && rs[|first|..] == rest;
    UnfoldWindows(rs, d, |first|);
  }

  // The windows are the only way to cut the records greedily.
  lemma {:induction false} GreedyIsUnique(ws: seq<Records>, d: int)
    requires Greedy(ws, d)
    ensures Windows(Flatten(ws), d) == ws
    decreases |ws|
  {
    if ws != [] {
      var first, rest := ws[0], ws[1..];
      assert forall i :: 0 <= i < |rest| ==> rest[i] == ws[i + 1];
      assert rest != [] ==> Flatten(rest)[0] == rest[0][0];
      GreedyIsUnique(rest, d);
      CutsHere(first, Flatten(rest), d);
    }
  }

  ghost predicate Ordered(rs: Records) {
    forall i, j :: 0 <= i < j < |rs| ==> rs[i].ts <= rs[j].ts
  }

  /** Where part a of ws begins in its concatenation. */
  function StartOf(ws: seq<Records>, a: nat): nat
    requires a < |ws|
    decreases a
  {
    if a == 0 then 0 else |ws[0]| + StartOf(ws[1..], a - 1)
  }

  lemma {:induction false} PartAt(ws: seq<Records>, a: nat, i: nat)
    requires a < |ws| && i < |ws[a]|
    ensures StartOf(ws, a) + i < |Flatten(ws)| && Flatten(ws)[StartOf(ws, a) + i] == ws[a][i]
    decreases a
  {
    if a > 0 {
      PartAt(ws[1..], a - 1, i);
    }
  }

  lemma {:induction false} PartsFollow(ws: seq<Records>, a: nat, b: nat)
    requires a < b < |ws|
    ensures StartOf(ws, a) + |ws[a]| <= StartOf(ws, b)
    decreases a
  {
    if a > 0 {
      PartsFollow(ws[1..], a - 1, b - 1);
    }
  }

  lemma PlaceOrder(ws: seq<Records>, a: nat, i: nat, b: nat, j: nat)
    requires Ordered(Flatten(ws)) && a < |ws| && i < |ws[a]| && b < |ws| && j < |ws[b]|
    requires StartOf(ws, a) + i <= StartOf(ws, b) + j
    ensures ws[a][i].ts <= ws[b][j].ts
  {
    PartAt(ws, a, i);
    PartAt(ws, b, j);
    OrderedAt(Flatten(ws), StartOf(ws, a) + i, StartOf(ws, b) + j);
  }

  lemma OrderedAt(rs: Records, s: nat, t: nat)
    requires Ordered(rs) && s <= t < |rs|
    ensures rs[s].ts <= rs[t].ts
  {
  }

  lemma GreedyApart(ws: seq<Records>, d: nat, a: nat, b: nat, i: nat, j: nat)
    requires Greedy(ws, d) && Ordered(Flatten(ws)) && a < b < |ws| && i < |ws[a]| && j < |ws[b]|
    ensures ws[a][0].ts <= ws[a][i].ts <= ws[a][0].ts + d && ws[a][i].ts < ws[b][j].ts
  {
    PlaceOrder(ws, a, 0, a, i);
    if a + 1 < b {
      PartsFollow(ws, a + 1, b);
    }
    PlaceOrder(ws, a + 1, 0, b, j);
    assert ws[a][i].ts - ws[a][0].ts <= d;
    assert ws[a + 1][0].ts - ws[a][0].ts > d;
  }

  // With timestamps that do not go back, a window spans at most d and ends strictly before every later one.
  lemma WindowsApart(rs: Records, d: nat, a: nat, b: nat, i: nat, j: nat)
    requires Ordered(rs) && a < b < |Windows(rs, d)| && i < |Windows(rs, d)[a]| && j < |Windows(rs, d)[b]|
    ensures Windows(rs, d)[a][0].ts <= Windows(rs, d)[a][i].ts <= Windows(rs, d)[a][0].ts + d
    ensures Windows(rs, d)[a][i].ts < Windows(rs, d)[b][j].ts
  {
    WindowsAreGreedy(rs, d);
    GreedyApart(Windows(rs, d), d, a, b, i, j);
  }
}
