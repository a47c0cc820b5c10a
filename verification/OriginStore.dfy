/** The origin's script store (pkg/origin/store.go): entries, their logs, and the lazy sweep. */
module OriginStore {
  import opened Wrappers
  import opened Protocol

  const MAX_LOG_ENTRIES := 1000

  const MAX_DURATION: int := 0x7fff_ffff_ffff_ffff
  const MIN_DURATION: int := -0x8000_0000_0000_0000

  /** The difference of two instants in nanoseconds, which saturates. */
  function Sub(t: int, u: int): (d: int)
    ensures -0x8000_0000_0000_0000 <= d <= 0x7fff_ffff_ffff_ffff
    ensures -0x8000_0000_0000_0000 <= t - u <= 0x7fff_ffff_ffff_ffff ==> d == t - u
    ensures d < t - u ==> d == 0x7fff_ffff_ffff_ffff
    ensures d > t - u ==> d == -0x8000_0000_0000_0000
  {
    if t - u > MAX_DURATION then MAX_DURATION
    else if t - u < MIN_DURATION then MIN_DURATION
    else t - u
  }

  /** What an entry holds; handlers see it only through its methods. */
  datatype EntryValue = EntryValue(script: Script, created: int, issued: nat, log: Log)
  {
    function Numbered(): EntryValue {
      this.(issued := issued + 1)
    }

    /** Past the cap a record is dropped silently. */
    function Recorded(le: LogEntry): EntryValue {
      if |log| < MAX_LOG_ENTRIES then this.(log := log + [le]) else this
    }
  }

  class Entry {
    const script: Script
    const created: int
    var issued: nat
    var log: Log

    constructor (script: Script, created: int)
      ensures Value() == EntryValue(script, created, 0, [])
      ensures this.script == script && this.created == created
    {
      this.script, this.created := script, created;
      issued, log := 0, [];
    }

    ghost function Value(): EntryValue
      reads this
    {
      EntryValue(script, created, issued, log)
    }

    method NextSeq() returns (n: nat)
      modifies this
      ensures n == old(Value()).issued + 1
      ensures Value() == old(Value()).Numbered()
    {
      issued := issued + 1;
      return issued;
    }

    method Record(le: LogEntry)
      modifies this
      ensures Value() == old(Value()).Recorded(le)
    {
      if |log| < MAX_LOG_ENTRIES {
        log := log + [le];
      }
    }

    method Snapshot() returns (out: Log)
      ensures out == Value().log
    {
      return log;
    }
  }

  // ---- creation times, which are all the sweep looks at ----

  datatype Ages = Ages(created: map<string, int>, ttl: int, lastSweep: int)

  predicate SweepDue(ttl: int, lastSweep: int, now: int) {
    Sub(now, lastSweep) > ttl
  }

  predicate Expired(ttl: int, created: int, now: int) {
    Sub(now, created) > ttl
  }

  function AfterPut(a: Ages, id: string, now: int): Ages {
    if SweepDue(a.ttl, a.lastSweep, now)
    then Ages((map k | k in a.created && !Expired(a.ttl, a.created[k], now) :: a.created[k])[id := now], a.ttl, now)
    else a.(created := a.created[id := now])
  }

  class Store {
    var tests: map<string, Entry>
    const ttl: int
    var lastSweep: int

    constructor (ttl: int, zeroTime: int)
      ensures this.ttl == ttl && tests == map[] && lastSweep == zeroTime
    {
      this.ttl := ttl;
      tests, lastSweep := map[], zeroTime;
    }

    ghost function View(): Ages
      reads this
    {
      Ages(map k | k in tests :: tests[k].created, ttl, lastSweep)
    }

    /** Sweeps when due, then stores a new entry; no entry object that existed before is changed. */
    method Put(id: string, script: Script, now: int)
      modifies this
      ensures id in tests && fresh(tests[id])
      ensures tests[id].Value() == EntryValue(script, now, 0, [])
      ensures View() == AfterPut(old(View()), id, now)
      ensures forall k :: k in tests && k != id ==> k in old(tests) && tests[k] == old(tests)[k]
    {
      if SweepDue(ttl, lastSweep, now) {
        var todo, kept := tests.Keys, tests;
        while todo != {}
          invariant todo <= tests.Keys && kept.Keys <= tests.Keys
          invariant forall k :: k in kept ==> kept[k] == tests[k]
          invariant forall k :: k in todo ==> k in kept
          invariant forall k :: k in tests && k !in todo ==> (k in kept <==> !Expired(ttl, tests[k].created, now))
          decreases todo
        {
          var k :| k in todo;
          if Expired(ttl, tests[k].created, now) {
            kept := kept - {k};
          }
          todo := todo - {k};
        }
        tests, lastSweep := kept, now;
      }
      var e := new Entry(script, now);
      tests := tests[id := e];
      assert View().created == AfterPut(old(View()), id, now).created;
    }

    method Get(id: string) returns (e: Entry?)
      ensures e != null <==> id in tests
      ensures e != null ==> e == tests[id]
    {
      if id in tests {
        return tests[id];
      }
      return null;
    }

    method Remove(id: string)
      modifies this
      ensures tests == old(tests) - {id} && lastSweep == old(lastSweep)
    {
      tests := tests - {id};
    }
  }

  // ---- how old an entry can get ----

  datatype Op = PutOp(id: string, now: int) | RemoveOp(id: string)

  function AfterOp(a: Ages, op: Op): Ages {
    match op
    case PutOp(id, now) => AfterPut(a, id, now)
    case RemoveOp(id) => a.(created := a.created - {id})
  }

  function AfterOps(a: Ages, ops: seq<Op>): Ages
    decreases |ops|
  {
    if ops == [] then a else AfterOps(AfterOp(a, ops[0]), ops[1..])
  }

  /** An upload's clock reading is at most `ttl` behind the last sweep. */
  predicate Timely(a: Ages, op: Op) {
    op.PutOp? ==> op.now >= a.lastSweep - a.ttl
  }

  ghost predicate AllTimely(a: Ages, ops: seq<Op>)
    decreases |ops|
  {
    ops != [] ==> Timely(a, ops[0]) && AllTimely(AfterOp(a, ops[0]), ops[1..])
  }

  ghost predicate NoneBehind(a: Ages) {
    && 0 <= a.ttl < MAX_DURATION
    && forall id :: id in a.created ==> a.created[id] >= a.lastSweep - a.ttl
  }

  ghost predicate NoneOlderThan(a: Ages, age: int, now: int) {
    forall id :: id in a.created ==> now - a.created[id] <= age
  }

  lemma OpKeepsBound(a: Ages, op: Op)
    requires NoneBehind(a) && Timely(a, op)
    ensures NoneBehind(AfterOp(a, op))
    ensures op.PutOp? ==> NoneOlderThan(AfterOp(a, op), 2 * a.ttl, op.now)
  {
  }

  /**
   * Over any sequence of timely uploads and removals from an empty store, after each upload every
   * stored entry is at most twice `ttl` old.
   */
  lemma {:induction false} SweepBound(a: Ages, ops: seq<Op>, last: Op)
    requires NoneBehind(a) && AllTimely(a, ops + [last]) && last.PutOp?
    ensures NoneOlderThan(AfterOps(a, ops + [last]), 2 * a.ttl, last.now)
    decreases |ops|
  {
    var all := ops + [last];
    OpKeepsBound(a, all[0]);
    if ops == [] {
      assert all[1..] == [];
    } else {
      assert all[1..] == ops[1..] + [last];
      SweepBound(AfterOp(a, ops[0]), ops[1..], last);
    }
  }

  /** However timely uploads and removals go on from here, the age bound holds after each upload. */
  ghost predicate KeepsBound(a: Ages) {
    forall ops: seq<Op>, last: Op :: last.PutOp? && AllTimely(a, ops + [last]) ==>
      NoneOlderThan(AfterOps(a, ops + [last]), 2 * a.ttl, last.now)
  }

  lemma OneOp(a: Ages, op: Op)
    ensures AfterOps(a, [op]) == AfterOp(a, op)
    ensures AllTimely(a, [op]) <==> Timely(a, op)
  {
    hide AfterOp;
    assert [op][1..] == [];
  }

  /** An upload further behind the last sweep than `ttl` is still stored when another test is uploaded in time. */
  lemma LateUploadBreaksBound(a: Ages, id: string, now: int, other: string)
    requires 0 <= a.ttl < MAX_DURATION && !Timely(a, PutOp(id, now)) && other != id
    ensures !KeepsBound(AfterPut(a, id, now))
  {
    var last := PutOp(other, a.lastSweep + a.ttl);
    var b := AfterPut(a, id, now);
    var c := AfterPut(b, other, last.now);
    assert b.lastSweep == a.lastSweep && b.created[id] == now;
    assert id in c.created && c.created[id] == now;
    OneOp(b, last);
    assert [] + [last] == [last];
  }

  /**
   * The condition on the clock is exact: an upload is timely if and only if the age bound holds however
   * timely uploads and removals go on after it.
   */
  lemma TimelyIsExact(a: Ages, id: string, now: int)
    requires NoneBehind(a)
    ensures Timely(a, PutOp(id, now)) <==> KeepsBound(AfterPut(a, id, now))
  {
    if Timely(a, PutOp(id, now)) {
      OpKeepsBound(a, PutOp(id, now));
      var b := AfterPut(a, id, now);
      forall ops, last: Op | last.PutOp? && AllTimely(b, ops + [last])
        ensures NoneOlderThan(AfterOps(b, ops + [last]), 2 * b.ttl, last.now)
      {
        SweepBound(b, ops, last);
      }
    } else {
      var other := id + "'";
      assert |other| != |id|;
      LateUploadBreaksBound(a, id, now, other);
    }
  }

  /** Other tests' uploads never sweep a test that is no older than `ttl`. */
  lemma {:induction false} YoungEntrySurvives(a: Ages, ops: seq<Op>, id: string)
    requires id in a.created
    requires forall op :: op in ops ==> op.id != id && (op.PutOp? ==> op.now <= a.created[id] + a.ttl)
    requires 0 <= a.ttl <= MAX_DURATION
    ensures id in AfterOps(a, ops).created && AfterOps(a, ops).created[id] == a.created[id]
    decreases |ops|
  {
    if ops != [] {
      assert ops[0] in ops;
      YoungEntrySurvives(AfterOp(a, ops[0]), ops[1..], id);
    }
  }
}
