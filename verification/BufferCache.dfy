/** Counting shared buffers by table and state. */
module BufferCache {
  import opened Words

  datatype Row = Row(database: string, filenode: int, dirty: bool, count: U64)

  function CacheName(db: string, table: string, dirty: bool): string {
    ("database." + db + ".table.") + (table + (".buffercache." + if dirty then "dirty" else "clean"))
  }

  lemma CacheNameInjective(db: string, t: string, d: bool, u: string, e: bool)
    requires CacheName(db, t, d) == CacheName(db, u, e)
    ensures t == u && d == e
  {
    var p := "database." + db + ".table.";
    var x, y := CacheName(db, t, d)[|p|..], CacheName(db, u, e)[|p|..];
    var s1, s2 := ".buffercache." + if d then "dirty" else "clean", ".buffercache." + if e then "dirty" else "clean";
    assert x == t + s1 && y == u + s2;
    assert |s1| == |s2| == 18;
    assert t == x[..|x| - 18] == u;
    assert s1 == x[|x| - 18..] == s2;
    assert s1[13] == (if d then 'd' else 'c') && s2[13] == (if e then 'd' else 'c');
  }

  /** The row is counted, under table and state. */
  ghost predicate Counts(r: Row, db: string, fileMap: map<int, string>, table: string, dirty: bool) {
    r.database == db && r.filenode in fileMap && fileMap[r.filenode] == table && r.dirty == dirty
  }

  /** The integer sum of the rows counted under table and state. */
  ghost function Total(rows: seq<Row>, db: string, fileMap: map<int, string>, table: string, dirty: bool): nat {
    if rows == [] then 0
    else
      var r := rows[|rows| - 1];
      Total(rows[..|rows| - 1], db, fileMap, table, dirty) + if Counts(r, db, fileMap, table, dirty) then r.count else 0
  }

  ghost predicate Found(rows: seq<Row>, db: string, fileMap: map<int, string>, table: string, dirty: bool) {
    exists i :: 0 <= i < |rows| && Counts(rows[i], db, fileMap, table, dirty)
  }

  /** The entry of one table and state is right. */
  ghost predicate TallyAt(m: map<string, U64>, rows: seq<Row>, db: string, fileMap: map<int, string>, t: string,
                          d: bool) {
    var k := CacheName(db, t, d);
    (k in m <==> Found(rows, db, fileMap, t, d)) && (k in m ==> m[k] == Mod64(Total(rows, db, fileMap, t, d)))
  }

  /** m has an entry for each table and state found, with its count modulo 2^64, and no other. */
  ghost predicate Tallies(m: map<string, U64>, rows: seq<Row>, db: string, fileMap: map<int, string>) {
    (forall t, d :: TallyAt(m, rows, db, fileMap, t, d))
    && forall k :: k in m ==> exists t, d :: k == CacheName(db, t, d)
  }

  lemma FoundOneMore(rows: seq<Row>, r: Row, db: string, fileMap: map<int, string>, t: string, d: bool)
    ensures Found(rows + [r], db, fileMap, t, d) <==> Found(rows, db, fileMap, t, d) || Counts(r, db, fileMap, t, d)
    ensures Total(rows + [r], db, fileMap, t, d)
            == Total(rows, db, fileMap, t, d) + if Counts(r, db, fileMap, t, d) then r.count else 0
  {
    var all := rows + [r];
    assert all[..|rows|] == rows && all[|rows|] == r;
    if Found(rows, db, fileMap, t, d) {
      var i :| 0 <= i < |rows| && Counts(rows[i], db, fileMap, t, d);
      assert all[i] == rows[i];
    }
  }

  lemma {:induction false} TotalIfNotFound(rows: seq<Row>, db: string, fileMap: map<int, string>, t: string, d: bool)
    requires !Found(rows, db, fileMap, t, d)
    ensures Total(rows, db, fileMap, t, d) == 0
  {
    if rows != [] {
      var rest := rows[..|rows| - 1];
      assert forall i :: 0 <= i < |rest| ==> rest[i] == rows[i];
      TotalIfNotFound(rest, db, fileMap, t, d);
    }
  }

  /** m[k] += n on a Go map: a missing key counts as 0. */
  function Bump(m: map<string, U64>, k: string, n: U64): map<string, U64> {
    m[k := Plus(n, if k in m then m[k] else 0)]
  }

  /** m after the loop body has seen r. */
  function CountRow(m: map<string, U64>, r: Row, db: string, fileMap: map<int, string>): map<string, U64> {
    if r.database == db && r.filenode in fileMap then Bump(m, CacheName(db, fileMap[r.filenode], r.dirty), r.count)
    else m
  }

  lemma TallyHit(m: map<string, U64>, rows: seq<Row>, r: Row, db: string, fileMap: map<int, string>, t: string, d: bool)
    requires TallyAt(m, rows, db, fileMap, t, d) && Counts(r, db, fileMap, t, d)
    ensures var k := CacheName(db, t, d);
            Bump(m, k, r.count)[k] == Mod64(r.count + Total(rows, db, fileMap, t, d))
  {
    var k := CacheName(db, t, d);
    if k in m {
      ModOfSum(r.count, Total(rows, db, fileMap, t, d));
    } else {
      TotalIfNotFound(rows, db, fileMap, t, d);
      ModOfSum(r.count, 0);
    }
  }

  lemma TallyOneMore(m: map<string, U64>, rows: seq<Row>, r: Row, db: string, fileMap: map<int, string>, t: string,
                     d: bool)
    requires TallyAt(m, rows, db, fileMap, t, d)
    ensures TallyAt(CountRow(m, r, db, fileMap), rows + [r], db, fileMap, t, d)
  {
    FoundOneMore(rows, r, db, fileMap, t, d);
    if Counts(r, db, fileMap, t, d) {
      TallyHit(m, rows, r, db, fileMap, t, d);
    } else {
      OtherKeyKept(m, r, db, fileMap, t, d);
    }
  }

  lemma OtherKeyKept(m: map<string, U64>, r: Row, db: string, fileMap: map<int, string>, t: string, d: bool)
    requires !Counts(r, db, fileMap, t, d)
    ensures var n, k := CountRow(m, r, db, fileMap), CacheName(db, t, d);
            (k in n <==> k in m) && (k in n ==> n[k] == m[k])
  {
    if r.database == db && r.filenode in fileMap && CacheName(db, t, d) == CacheName(db, fileMap[r.filenode], r.dirty) {
      CacheNameInjective(db, t, d, fileMap[r.filenode], r.dirty);
    }
  }

  lemma TalliesOneMore(m: map<string, U64>, rows: seq<Row>, r: Row, db: string, fileMap: map<int, string>)
    requires Tallies(m, rows, db, fileMap)
    ensures Tallies(CountRow(m, r, db, fileMap), rows + [r], db, fileMap)
  {
    forall t, d
      ensures TallyAt(CountRow(m, r, db, fileMap), rows + [r], db, fileMap, t, d)
    {
      assert TallyAt(m, rows, db, fileMap, t, d);
      TallyOneMore(m, rows, r, db, fileMap, t, d);
    }
  }

  // The counting loop over the rows of all databases.
  method CountBuffers(rows: seq<Row>, db: string, fileMap: map<int, string>) returns (m: map<string, U64>)
    ensures Tallies(m, rows, db, fileMap)
  {
    m := map[];
    for i := 0 to |rows|
      invariant Tallies(m, rows[..i], db, fileMap)
    {
      var r := rows[i];
      assert rows[..i + 1] == rows[..i] + [r];
      TalliesOneMore(m, rows[..i], r, db, fileMap);
      if r.database != db || r.filenode !in fileMap {
        continue;
      }
      m := Bump(m, CacheName(db, fileMap[r.filenode], r.dirty), r.count);
    }
    assert rows[..|rows|] == rows;
  }

  // The entries by their names: for each table and state that a row of the database shows, and no other.
  lemma TalliesByName(m: map<string, U64>, rows: seq<Row>, db: string, fileMap: map<int, string>, t: string, d: bool)
    requires Tallies(m, rows, db, fileMap)
    ensures var k := "database." + db + ".table." + t + if d then ".buffercache.dirty" else ".buffercache.clean";
            (k in m <==> exists i :: 0 <= i < |rows| && rows[i].database == db && rows[i].filenode in fileMap
                                     && fileMap[rows[i].filenode] == t && rows[i].dirty == d)
            && (k in m ==> m[k] == Mod64(Total(rows, db, fileMap, t, d)))
    ensures forall k :: k in m ==>
              exists i :: 0 <= i < |rows| && rows[i].database == db && rows[i].filenode in fileMap
                          && k == CacheName(db, fileMap[rows[i].filenode], rows[i].dirty)
  {
    assert TallyAt(m, rows, db, fileMap, t, d);
    var word := if d then "dirty" else "clean";
    assert ".buffercache." + word == if d then ".buffercache.dirty" else ".buffercache.clean";
    assert CacheName(db, t, d) == "database." + db + ".table." + t + (".buffercache." + word);
    forall k | k in m
      ensures exists i :: 0 <= i < |rows| && rows[i].database == db && rows[i].filenode in fileMap
                          && k == CacheName(db, fileMap[rows[i].filenode], rows[i].dirty)
    {
      var u, e :| k == CacheName(db, u, e);
      assert TallyAt(m, rows, db, fileMap, u, e);
      var i :| 0 <= i < |rows| && Counts(rows[i], db, fileMap, u, e);
    }
  }

  // The total is that of the rows of this database, table and state, each with its count.
  lemma {:induction false} TotalExact(rows: seq<Row>, more: seq<Row>, r: Row, db: string, fileMap: map<int, string>,
                                      t: string, d: bool)
    ensures Total(rows + more, db, fileMap, t, d) == Total(rows, db, fileMap, t, d) + Total(more, db, fileMap, t, d)
    ensures Total([r], db, fileMap, t, d)
            == if r.database == db && r.filenode in fileMap && fileMap[r.filenode] == t && r.dirty == d then r.count
               else 0
    decreases |more|
  {
    assert [r][..0] == [];
    if more == [] {
      assert rows + more == rows;
    } else {
      var n := |more| - 1;
      assert (rows + more)[..|rows + more| - 1] == rows + more[..n];
      TotalExact(rows, more[..n], r, db, fileMap, t, d);
    }
  }
}
