/** SNMP polling: two arrays of counters, and deltas that try to see through the wrap of a counter. */
module Snmp {
  import opened Words
  import opened Wrappers

  const MAX_OID := 50
  const TWO_TO_32: int := 0x1_0000_0000

  /** The residue modulo 2^32. */
  function Mod32(n: int): (r: nat)
    ensures r < TWO_TO_32
  {
    n % 0x1_0000_0000
  }

  const TWO_TO_63: int := 0x8000_0000_0000_0000

  datatype VariableType = Counter32 | Counter64 | Gauge32 | Uinteger32 | Integer | OtherType

  type Int64 = x: int | -TWO_TO_63 <= x < TWO_TO_63

  /** What a reply can carry: a signed or an unsigned 64-bit integer. */
  type Raw = x: int | -TWO_TO_63 <= x < TWO_TO_64

  datatype Variable = Variable(kind: VariableType, value: Raw)

  /** Kind 0 is a 32-bit counter, 1 a 64-bit counter, 2 a gauge. */
  datatype Counter = Counter(value: Int64, kind: int)

  /** Conversion to a signed 64-bit integer, and the wrap of a sum or difference of such integers. */
  function ToInt64(x: int): Int64
    requires -TWO_TO_64 - TWO_TO_63 <= x < TWO_TO_64 + TWO_TO_63
  {
    if x < -TWO_TO_63 then x + TWO_TO_64 else if x < TWO_TO_63 then x else x - TWO_TO_64
  }

  /** A value of any other type leaves the counter as it was. */
  function Convert(v: Variable, c: Counter): Counter {
    match v.kind
    case Counter32 => Counter(ToInt64(v.value), 0)
    case Counter64 => Counter(ToInt64(v.value), 1)
    case Gauge32 => Counter(ToInt64(v.value), 2)
    case Uinteger32 => Counter(ToInt64(v.value), 2)
    case Integer => Counter(ToInt64(v.value), 2)
    case OtherType => c
  }

  /** An amount of a rate is sent divided by the interval, one of a gauge as it is. */
  datatype Sent = Sent(oid: nat, amount: int, isRate: bool)

  function Amount(older: Counter, newer: Counter): Int64 {
    if older.kind == 0 then
      if newer.value < older.value then ToInt64(4294967295 - older.value + newer.value)
      else ToInt64(newer.value - older.value)
    else if older.kind == 1 then ToInt64(newer.value - older.value)
    else newer.value
  }

  function SendOne(oid: nat, older: Counter, newer: Counter): seq<Sent> {
    if 0 <= older.kind <= 2 then [Sent(oid, Amount(older, newer), older.kind != 2)] else []
  }

  /** The counters after a successful request. */
  function Stored(cs: seq<Counter>, vars: seq<Variable>): seq<Counter> {
    seq(|cs|, i requires 0 <= i < |cs| => if i < |vars| then Convert(vars[i], cs[i]) else cs[i])
  }

  function SendAll(older: seq<Counter>, newer: seq<Counter>, n: nat): seq<Sent>
    requires n <= |older| == |newer|
  {
    if n == 0 then [] else SendAll(older, newer, n - 1) + SendOne(n - 1, older[n - 1], newer[n - 1])
  }

  /** started tells whether the first values of the current series of polls are in. */
  datatype PollState = PollState(started: bool, older: seq<Counter>, newer: seq<Counter>)

  /** None is a request that failed; nothing is stored then, and polling starts over. */
  function Next(s: PollState, reply: Option<seq<Variable>>): PollState {
    match reply
    case None => s.(started := false)
    case Some(vars) =>
      if !s.started then PollState(true, Stored(s.older, vars), s.newer)
      else PollState(true, Stored(s.newer, vars), Stored(s.newer, vars))
  }

  class Target {
    const oids: nat
    const oldcounters: array<Counter>
    const newcounters: array<Counter>
    var started: bool

    ghost predicate Valid() {
      oids <= MAX_OID && oldcounters != newcounters
      && oldcounters.Length == MAX_OID && newcounters.Length == MAX_OID
    }

    ghost function View(): PollState
      reads this, oldcounters, newcounters
    {
      PollState(started, oldcounters[..], newcounters[..])
    }

    constructor (oids: nat)
      requires oids <= MAX_OID
      ensures Valid() && this.oids == oids && fresh(oldcounters) && fresh(newcounters)
      ensures View() == PollState(false, seq(MAX_OID, i => Counter(0, 0)), seq(MAX_OID, i => Counter(0, 0)))
    {
      this.oids := oids;
      oldcounters := new Counter[MAX_OID](i => Counter(0, 0));
      newcounters := new Counter[MAX_OID](i => Counter(0, 0));
      started := false;
    }

    static method CollectOids(vars: seq<Variable>, counters: array<Counter>)
      requires |vars| <= counters.Length
      modifies counters
      ensures counters[..] == Stored(old(counters[..]), vars)
    {
      for i := 0 to |vars|
        invariant forall j :: 0 <= j < counters.Length ==>
                    counters[j] == if j < i then Convert(vars[j], old(counters[j])) else old(counters[j])
      {
        counters[i] := Convert(vars[i], counters[i]);
      }
    }

    // One request and what follows it. A Get returns at most as many values as oids were asked for.
    method Poll(reply: Option<seq<Variable>>) returns (m: seq<Sent>)
      requires Valid() && (reply.Some? ==> |reply.value| <= MAX_OID)
      modifies `started, oldcounters, newcounters
      ensures View() == Next(old(View()), reply)
      ensures m == if old(started) && reply.Some?
                   then SendAll(old(oldcounters[..]), newcounters[..], oids) else []
    {
      m := [];
      if reply.None? {
        started := false;
      } else if !started {
        CollectOids(reply.value, oldcounters);
        started := true;
      } else {
        CollectOids(reply.value, newcounters);
        for i := 0 to oids
          modifies {}
          invariant m == SendAll(oldcounters[..], newcounters[..], i)
        {
          m := m + SendOne(i, oldcounters[i], newcounters[i]);
        }
        forall i | 0 <= i < MAX_OID {
          oldcounters[i] := newcounters[i];
        }
        assert oldcounters[..] == newcounters[..];
      }
    }
  }

  /** What the device shows of a count. */
  function Shown(count: nat, kind: VariableType): Variable {
    if kind == Counter32 then Variable(Counter32, Mod32(count)) else Variable(Counter64, Mod64(count))
  }

  predicate Wrapped(count: nat, later: nat) {
    Mod32(later) < Mod32(count)
  }

  // Growth below 2^32 moves the shown value by the growth, or by the growth less 2^32, which shows.
  lemma ShownMoves(count: nat, growth: nat)
    requires growth < TWO_TO_32
    ensures Mod32(count + growth) == Mod32(count) + growth - if Wrapped(count, count + growth) then TWO_TO_32 else 0
  {
    var q, r := count / 0x1_0000_0000, Mod32(count);
    var s := if r + growth < 0x1_0000_0000 then 0 else 1;
    Rest32(count + growth, q + s, r + growth - s * 0x1_0000_0000);
  }

  lemma Rest32(a: int, q: int, r: int)
    requires a == q * 0x1_0000_0000 + r && 0 <= r < TWO_TO_32
    ensures Mod32(a) == r
  {
  }

  // The same for 64 bits.
  lemma Shown64Moves(count: nat, growth: nat)
    requires growth < TWO_TO_64
    ensures Mod64(count + growth) - Mod64(count) in {growth, growth - TWO_TO_64}
  {
    var q, r := count / 0x1_0000_0000_0000_0000, Mod64(count);
    var s := if r + growth < 0x1_0000_0000_0000_0000 then 0 else 1;
    ModUnique(count + growth, q + s, r + growth - s * 0x1_0000_0000_0000_0000);
  }

  // A 32-bit delta is never negative and never more than one short: it is the true growth exactly when
  // the shown value has not wrapped, because 4294967295 stands where the modulus is 4294967296.
  lemma Counter32Exact(count: nat, later: nat, c: Counter, d: Counter)
    requires count <= later < count + TWO_TO_32
    ensures var amount := Amount(Convert(Shown(count, Counter32), c), Convert(Shown(later, Counter32), d));
            amount == later - count - (if Wrapped(count, later) then 1 else 0) && amount >= 0
            && (amount == later - count <==> !Wrapped(count, later))
  {
    ShownMoves(count, later - count);
  }

  // A 64-bit delta is the true growth, across the wrap of the counter too, exactly when that growth is
  // below 2^63.
  lemma Counter64Exact(count: nat, later: nat, c: Counter, d: Counter)
    requires count <= later < count + TWO_TO_64
    ensures Amount(Convert(Shown(count, Counter64), c), Convert(Shown(later, Counter64), d)) == later - count
            <==> later - count < TWO_TO_63
  {
    Shown64Moves(count, later - count);
  }

  /** The poller after the replies rs. */
  function RunPolls(s: PollState, rs: seq<Option<seq<Variable>>>): PollState {
    if rs == [] then s else Next(RunPolls(s, rs[..|rs| - 1]), rs[|rs| - 1])
  }

  /** The sum of the amounts sent for oid i. */
  function AmountFor(m: seq<Sent>, i: nat): int {
    if m == [] then 0
    else AmountFor(m[..|m| - 1], i) + if m[|m| - 1].oid == i then m[|m| - 1].amount else 0
  }

  lemma {:induction false} AmountForOid(older: seq<Counter>, newer: seq<Counter>, n: nat, i: nat)
    requires n <= |older| == |newer| && i < |older| && 0 <= older[i].kind <= 2
    ensures AmountFor(SendAll(older, newer, n), i) == if i < n then Amount(older[i], newer[i]) else 0
    decreases n
  {
    if n > 0 {
      var k := n - 1;
      var m := SendAll(older, newer, k);
      assert AmountFor(m, i) == if i < k then Amount(older[i], newer[i]) else 0 by {
        AmountForOid(older, newer, k, i);
      }
      assert SendAll(older, newer, n) == m + SendOne(k, older[k], newer[k]);
      AmountForOneMore(m, k, older[k], newer[k], i);
    }
  }

  lemma AmountForOneMore(m: seq<Sent>, oid: nat, older: Counter, newer: Counter, i: nat)
    ensures AmountFor(m + SendOne(oid, older, newer), i)
            == AmountFor(m, i) + if oid == i && 0 <= older.kind <= 2 then Amount(older, newer) else 0
  {
    if 0 <= older.kind <= 2 {
      AmountForMore(m, Sent(oid, Amount(older, newer), older.kind != 2), i);
    } else {
      assert m + [] == m;
    }
  }

  lemma AmountForMore(m: seq<Sent>, x: Sent, i: nat)
    ensures AmountFor(m + [x], i) == AmountFor(m, i) + if x.oid == i then x.amount else 0
  {
    assert (m + [x])[..|m|] == m;
  }

  /** What a run of n oids sends for oid i. */
  function SumSent(s: PollState, rs: seq<Option<seq<Variable>>>, n: nat, i: nat): int
    requires n <= |s.older| == |s.newer|
  {
    if rs == [] then 0
    else
      RunKeepsLength(s, rs[..|rs| - 1]);
      var t := RunPolls(s, rs[..|rs| - 1]);
      var reply := rs[|rs| - 1];
      SumSent(s, rs[..|rs| - 1], n, i)
      + if t.started && reply.Some? then AmountFor(SendAll(t.older, Stored(t.newer, reply.value), n), i) else 0
  }

  lemma {:induction false} RunKeepsLength(s: PollState, rs: seq<Option<seq<Variable>>>)
    requires |s.older| == |s.newer|
    ensures |RunPolls(s, rs).older| == |RunPolls(s, rs).newer| == |s.older|
  {
    if rs != [] {
      RunKeepsLength(s, rs[..|rs| - 1]);
    }
  }

  /** An uninterrupted run whose replies show the counts cs of oid i. */
  ghost predicate Shows(rs: seq<Option<seq<Variable>>>, i: nat, cs: seq<nat>, kind: VariableType) {
    |rs| == |cs|
    && forall j :: 0 <= j < |rs| ==> rs[j].Some? && i < |rs[j].value| && rs[j].value[i] == Shown(cs[j], kind)
  }

  lemma {:induction false} OlderIsLast(s: PollState, rs: seq<Option<seq<Variable>>>, i: nat, cs: seq<nat>,
                                       kind: VariableType)
    requires i < |s.older| == |s.newer| && Shows(rs, i, cs, kind) && rs != []
    requires kind == Counter32 || kind == Counter64
    ensures var t := RunPolls(s, rs);
            t.started && i < |t.older| && t.older[i] == Convert(Shown(cs[|cs| - 1], kind), Counter(0, 0))
    decreases |rs|
  {
    var n := |rs| - 1;
    RunKeepsLength(s, rs[..n]);
    if n > 0 {
      OlderIsLast(s, rs[..n], i, cs[..n], kind);
    }
  }

  function Wraps(cs: seq<nat>): nat {
    if |cs| < 2 then 0
    else Wraps(cs[..|cs| - 1]) + if Wrapped(cs[|cs| - 2], cs[|cs| - 1]) then 1 else 0
  }

  ghost predicate GrowsBelow(cs: seq<nat>, limit: nat) {
    forall j :: 0 <= j < |cs| - 1 ==> cs[j] <= cs[j + 1] < cs[j] + limit
  }

  // What one more reply adds.
  lemma SumOneMore(s: PollState, rs: seq<Option<seq<Variable>>>, oids: nat, i: nat, cs: seq<nat>, kind: VariableType)
    requires i < oids <= |s.older| == |s.newer| && Shows(rs, i, cs, kind) && |rs| > 1
    requires kind == Counter32 || kind == Counter64
    ensures var n := |rs| - 1;
            SumSent(s, rs, oids, i)
            == SumSent(s, rs[..n], oids, i)
               + Amount(Convert(Shown(cs[n - 1], kind), Counter(0, 0)), Convert(Shown(cs[n], kind), Counter(0, 0)))
  {
    var n := |rs| - 1;
    RunKeepsLength(s, rs[..n]);
    OlderIsLast(s, rs[..n], i, cs[..n], kind);
    var t := RunPolls(s, rs[..n]);
    AmountForOid(t.older, Stored(t.newer, rs[n].value), oids, i);
    assert Stored(t.newer, rs[n].value)[i] == Convert(Shown(cs[n], kind), Counter(0, 0));
  }

  // Over an uninterrupted run the 32-bit deltas fall short of the true growth by the number of wraps seen.
  lemma {:induction false} Counter32Run(s: PollState, rs: seq<Option<seq<Variable>>>, oids: nat, i: nat, cs: seq<nat>)
    requires i < oids <= |s.older| == |s.newer| && Shows(rs, i, cs, Counter32) && rs != [] && !s.started
    requires GrowsBelow(cs, TWO_TO_32)
    ensures SumSent(s, rs, oids, i) + Wraps(cs) + cs[0] == cs[|cs| - 1]
    decreases |rs|
  {
    var n := |rs| - 1;
    if n > 0 {
      Counter32Run(s, rs[..n], oids, i, cs[..n]);
      SumOneMore(s, rs, oids, i, cs, Counter32);
      assert cs[n - 1] <= cs[n - 1 + 1];
      Counter32Exact(cs[n - 1], cs[n], Counter(0, 0), Counter(0, 0));
    }
  }

  // Over an uninterrupted run the 64-bit deltas add up to the true growth.
  lemma {:induction false} Counter64Run(s: PollState, rs: seq<Option<seq<Variable>>>, oids: nat, i: nat, cs: seq<nat>)
    requires i < oids <= |s.older| == |s.newer| && Shows(rs, i, cs, Counter64) && rs != [] && !s.started
    requires GrowsBelow(cs, TWO_TO_63)
    ensures SumSent(s, rs, oids, i) + cs[0] == cs[|cs| - 1]
    decreases |rs|
  {
    var n := |rs| - 1;
    if n > 0 {
      Counter64Run(s, rs[..n], oids, i, cs[..n]);
      SumOneMore(s, rs, oids, i, cs, Counter64);
      assert cs[n - 1] <= cs[n - 1 + 1];
      Counter64Exact(cs[n - 1], cs[n], Counter(0, 0), Counter(0, 0));
    }
  }

  /** a is x as a signed 64-bit integer. */
  predicate IsInt64Of(a: Int64, x: int) {
    a == x || a == x + TWO_TO_64 || a == x - TWO_TO_64
  }

  /** c is what a reply leaves of before: its value and which of the three kinds it is, or before itself if the
      reply has no value or one of another type. */
  ghost predicate IsStored(c: Counter, before: Counter, vars: seq<Variable>, i: nat) {
    if i >= |vars| || vars[i].kind.OtherType? then c == before
    else IsInt64Of(c.value, vars[i].value)
         && c.kind == if vars[i].kind.Counter32? then 0 else if vars[i].kind.Counter64? then 1 else 2
  }

  // The first reply goes to the older counters alone; a later one goes to the newer ones, and from there to
  // the older ones.
  lemma ReplyExact(s: PollState, vars: seq<Variable>, i: nat)
    requires i < |s.older| == |s.newer|
    ensures var t := Next(s, Some(vars));
            t.started && |t.older| == |t.newer| == |s.older|
            && if s.started then t.older == t.newer && IsStored(t.newer[i], s.newer[i], vars, i)
               else t.newer == s.newer && IsStored(t.older[i], s.older[i], vars, i)
  {
  }

  /** x is in m, and nothing else for its oid. */
  ghost predicate Sole(m: seq<Sent>, x: Sent) {
    exists j :: 0 <= j < |m| && m[j] == x && forall l :: 0 <= l < |m| && m[l].oid == x.oid ==> l == j
  }

  ghost predicate NotSent(m: seq<Sent>, i: nat) {
    forall j :: 0 <= j < |m| ==> m[j].oid != i
  }

  lemma SoleMore(m: seq<Sent>, one: seq<Sent>, x: Sent)
    requires (NotSent(m, x.oid) && one == [x]) || (Sole(m, x) && NotSent(one, x.oid))
    ensures Sole(m + one, x)
  {
    if NotSent(m, x.oid) && one == [x] {
      assert (m + one)[|m|] == x;
    } else {
      var j :| 0 <= j < |m| && m[j] == x && forall l :: 0 <= l < |m| && m[l].oid == x.oid ==> l == j;
      assert (m + one)[j] == x;
    }
  }

  lemma {:induction false} SoleOfOid(older: seq<Counter>, newer: seq<Counter>, n: nat, i: nat)
    requires i < |older| == |newer| && n <= |older|
    ensures var m := SendAll(older, newer, n);
            if i < n && 0 <= older[i].kind <= 2
            then Sole(m, Sent(i, Amount(older[i], newer[i]), older[i].kind != 2)) else NotSent(m, i)
    decreases n
  {
    if n > 0 {
      SoleOfOid(older, newer, n - 1, i);
      if i < n && 0 <= older[i].kind <= 2 {
        SoleMore(SendAll(older, newer, n - 1), SendOne(n - 1, older[n - 1], newer[n - 1]),
                 Sent(i, Amount(older[i], newer[i]), older[i].kind != 2));
      }
    }
  }

  /** The only thing sent for oid i is one rate: this difference, as a signed 64-bit integer, over the interval. */
  ghost predicate SendsRate(m: seq<Sent>, i: nat, difference: int) {
    exists a: Int64 :: Sole(m, Sent(i, a, true)) && IsInt64Of(a, difference)
  }

  // What a reply sends, oid by oid, goes by the kind of the older value: differences of counters as rates,
  // a gauge as it is, nothing for any other kind.
  lemma SendsExact(older: seq<Counter>, newer: seq<Counter>, n: nat, i: nat)
    requires i < |older| == |newer| && n <= |older|
    ensures var m, a, b := SendAll(older, newer, n), older[i].value, newer[i].value;
            if i >= n then NotSent(m, i)
            else
              match older[i].kind
              case 0 => SendsRate(m, i, if b < a then 4294967295 - a + b else b - a)
              case 1 => SendsRate(m, i, b - a)
              case 2 => Sole(m, Sent(i, b, false))
              case _ => NotSent(m, i)
  {
    SoleOfOid(older, newer, n, i);
  }

  predicate IsGauge(v: Variable) {
    v.kind.Gauge32? || v.kind.Uinteger32? || v.kind.Integer?
  }

  // Whatever happened before, after a reply the older counters hold its values.
  lemma OlderIsLatest(s: PollState, rs: seq<Option<seq<Variable>>>, i: nat, c: Counter)
    requires i < |s.older| == |s.newer| && rs != [] && rs[|rs| - 1].Some?
    requires i < |rs[|rs| - 1].value| && !rs[|rs| - 1].value[i].kind.OtherType?
    ensures var t := RunPolls(s, rs);
            t.started && i < |t.older| == |t.newer| && t.older[i] == Convert(rs[|rs| - 1].value[i], c)
  {
    RunKeepsLength(s, rs[..|rs| - 1]);
  }

  // A gauge that two replies in a row show is sent as the second one shows it, not as a rate.
  lemma GaugeAsShown(s: PollState, rs: seq<Option<seq<Variable>>>, vars: seq<Variable>, n: nat, i: nat)
    requires i < n <= |s.older| == |s.newer| && rs != [] && rs[|rs| - 1].Some? && i < |rs[|rs| - 1].value|
    requires i < |vars| && IsGauge(rs[|rs| - 1].value[i]) && IsGauge(vars[i]) && vars[i].value < TWO_TO_63
    ensures var t := RunPolls(s, rs);
            t.started && n <= |t.older| == |t.newer|
            && Sole(SendAll(t.older, Stored(t.newer, vars), n), Sent(i, vars[i].value, false))
  {
    RunKeepsLength(s, rs);
    OlderIsLatest(s, rs, i, Counter(0, 0));
    var t := RunPolls(s, rs);
    SendsExact(t.older, Stored(t.newer, vars), n, i);
  }

  // A failed request stores nothing, and the next reply is a first one again: it sends nothing, and what
  // comes after is compared with it.
  lemma FailureStartsOver(s: PollState, rs: seq<Option<seq<Variable>>>, vars: seq<Variable>)
    ensures var t, u := RunPolls(s, rs), RunPolls(s, rs + [None]);
            !u.started && u.older == t.older && u.newer == t.newer
            && RunPolls(s, rs + [None] + [Some(vars)]) == PollState(true, Stored(t.older, vars), t.newer)
  {
    var ns := rs + [None];
    assert ns[..|rs|] == rs && (ns + [Some(vars)])[..|ns|] == ns;
  }
}
