/**
  Sequences of operations on the open-addressing table, and two concrete
  runs of the table as hashtable_open.cpp writes it, on a table of 8 slots:
  - a key inserted, deleted and inserted again with another key in between
    ends up in two occupied slots, and removing it leaves the older copy
    findable;
  - inserting and removing keys until every slot is a tombstone leaves a
    valid table, with count 0, on which find never returns.
 */
module OpenScenarios {
  import opened Probing
  import opened OpenTable
  import opened OpenFixed

  datatype Op = Put(key: int, data: int) | Delete(key: int)

  predicate KeysOk(ops: seq<Op>) {
    forall i :: 0 <= i < |ops| ==> ops[i].key >= 0
  }

  /**
    Runs the operations in order. A remove whose probe loop never ends ends
    the run. Every operation keeps the table valid.
   */
  function Apply(t: Table, ops: seq<Op>): (r: Run<Table>)
    requires Valid(t) && KeysOk(ops)
    ensures r.Done? ==> Valid(r.value)
    decreases |ops|
  {
    if ops == [] then Done(t)
    else
      var step := match ops[0]
        case Put(k, d) => Done(Insert(t, k, d))
        case Delete(k) => Remove(t, k);
      if step.Diverges? then Diverges else Apply(step.value, ops[1..])
  }

  const E: Slot := Slot(0, 0, Empty)
  const D: Slot := Slot(0, 0, Deleted)

  lemma ApplyPut(t: Table, key: int, data: int, rest: seq<Op>)
    requires Valid(t) && key >= 0 && KeysOk(rest)
    ensures KeysOk([Put(key, data)] + rest)
    ensures Apply(t, [Put(key, data)] + rest) == Apply(Insert(t, key, data), rest)
  {
    assert ([Put(key, data)] + rest)[1..] == rest;
  }

  lemma ApplyDelete(t: Table, key: int, rest: seq<Op>)
    requires Valid(t) && key >= 0 && KeysOk(rest) && Remove(t, key).Done?
    ensures KeysOk([Delete(key)] + rest)
    ensures Apply(t, [Delete(key)] + rest) == Apply(Remove(t, key).value, rest)
  {
    var ops := [Delete(key)] + rest;
    assert ops[0] == Delete(key) && ops[1..] == rest;
  }

  lemma EmptyEight()
    ensures Construct(8) == Table([E, E, E, E, E, E, E, E], 0)
    ensures Valid(Construct(8))
  {
    assert IsPow2(8) by { assert IsPow2(4) && IsPow2(2) && IsPow2(1); }
  }

  // The tables of the first run. Key 0 starts at slot 0 % 7 = 0; key 7
  // starts there too and steps by hash2 = 7 % 5 + 1 = 3.

  const T0: Table := Table([E, E, E, E, E, E, E, E], 0)
  const T1: Table := Table([Slot(0, 100, Occupied), E, E, E, E, E, E, E], 1)
  const T2: Table := Table([Slot(0, 100, Occupied), E, E, Slot(7, 1, Occupied), E, E, E, E], 2)
  const T3: Table := Table([D, E, E, Slot(7, 1, Occupied), E, E, E, E], 1)
  const T4: Table := Table([Slot(7, 2, Occupied), E, E, Slot(7, 1, Occupied), E, E, E, E], 2)
  const T5: Table := Table([D, E, E, Slot(7, 1, Occupied), E, E, E, E], 1)

  lemma Dup1(t: Table)
    requires t == T0
    ensures Valid(t) && Insert(t, 0, 100) == T1
  {
    EmptyEight();
    assert Probe(0, 8, 0) == 0;
    InsertAtStep(t, 0, 100, 0);
  }

  lemma Dup2(t: Table)
    requires t == T1 && Valid(t)
    ensures Insert(t, 7, 1) == T2
  {
    assert |t.slots| == 8;
    assert Probe(7, 8, 0) == 0 && Probe(7, 8, 1) == 3;
    assert IsOcc(t.slots[0]) && t.slots[0].key != 7 && !IsOcc(t.slots[3]);
    assert t.slots[3 := Slot(7, 1, Occupied)] == T2.slots;
    InsertAtStep(t, 7, 1, 1);
  }

  lemma Dup3(t: Table)
    requires t == T2 && Valid(t)
    ensures Remove(t, 0) == Done(T3)
  {
    assert |t.slots| == 8;
    assert Probe(0, 8, 0) == 0;
    assert t.slots[0 := D] == T3.slots;
    HitAtStep(t, 0, 0);
  }

  lemma Dup4(t: Table)
    requires t == T3 && Valid(t)
    ensures Insert(t, 7, 2) == T4
  {
    assert Probe(7, 8, 0) == 0;
    InsertAtStep(t, 7, 2, 0);
  }

  lemma Dup5(t: Table)
    requires t == T4 && Valid(t)
    ensures Remove(t, 7) == Done(T5)
  {
    assert |t.slots| == 8;
    assert Probe(7, 8, 0) == 0;
    assert t.slots[0 := D] == T5.slots;
    HitAtStep(t, 7, 0);
  }

  lemma Dup6(t: Table)
    requires t == T5 && Valid(t)
    ensures Find(t, 7) == Done(Reply(0, 1))
  {
    assert Probe(7, 8, 0) == 0 && Probe(7, 8, 1) == 3;
    HitAtStep(t, 7, 1);
  }

  lemma Run4(t: Table)
    requires t == T4 && Valid(t)
    ensures Apply(t, [Delete(7)]) == Done(T5)
  {
    Dup5(t);
    ApplyDelete(t, 7, []);
  }

  lemma Run3(t: Table)
    requires t == T3 && Valid(t)
    ensures Apply(t, [Put(7, 2)]) == Done(T4)
    ensures Apply(t, [Put(7, 2), Delete(7)]) == Done(T5)
  {
    Dup4(t);
    var t' := Insert(t, 7, 2);
    Run4(t');
    ApplyPut(t, 7, 2, []);
    ApplyPut(t, 7, 2, [Delete(7)]);
  }

  lemma Run2(t: Table)
    requires t == T2 && Valid(t)
    ensures Apply(t, [Delete(0), Put(7, 2)]) == Done(T4)
    ensures Apply(t, [Delete(0), Put(7, 2), Delete(7)]) == Done(T5)
  {
    assert KeysOk([Put(7, 2)]) && KeysOk([Put(7, 2), Delete(7)]);
    Dup3(t);
    var t' := Remove(t, 0).value;
    Run3(t');
    ApplyDelete(t, 0, [Put(7, 2)]);
    ApplyDelete(t, 0, [Put(7, 2), Delete(7)]);
  }

  lemma Run1(t: Table)
    requires t == T1 && Valid(t)
    ensures Apply(t, [Put(7, 1), Delete(0), Put(7, 2)]) == Done(T4)
    ensures Apply(t, [Put(7, 1), Delete(0), Put(7, 2), Delete(7)]) == Done(T5)
  {
    assert KeysOk([Delete(0), Put(7, 2)]) && KeysOk([Delete(0), Put(7, 2), Delete(7)]);
    Dup2(t);
    var t' := Insert(t, 7, 1);
    Run2(t');
    ApplyPut(t, 7, 1, [Delete(0), Put(7, 2)]);
    ApplyPut(t, 7, 1, [Delete(0), Put(7, 2), Delete(7)]);
  }

  lemma DupOpsOk()
    ensures KeysOk([Put(0, 100), Put(7, 1), Delete(0), Put(7, 2)])
    ensures KeysOk([Put(0, 100), Put(7, 1), Delete(0), Put(7, 2), Delete(7)])
  {
  }

  lemma Run0(t: Table)
    requires t == T0 && Valid(t)
    ensures Apply(t, [Put(0, 100), Put(7, 1), Delete(0), Put(7, 2)]) == Done(T4)
    ensures Apply(t, [Put(0, 100), Put(7, 1), Delete(0), Put(7, 2), Delete(7)]) == Done(T5)
  {
    assert KeysOk([Put(7, 1), Delete(0), Put(7, 2)]) && KeysOk([Put(7, 1), Delete(0), Put(7, 2), Delete(7)]);
    Dup1(t);
    var t1 := Insert(t, 0, 100);
    Run1(t1);
    ApplyPut(t, 0, 100, [Put(7, 1), Delete(0), Put(7, 2)]);
    ApplyPut(t, 0, 100, [Put(7, 1), Delete(0), Put(7, 2), Delete(7)]);
  }

  /**
    Insert puts key 7 into the tombstone left by key 0, in front of the copy
    it already has; removing key 7 then deletes only the newer copy, and
    find still returns the older one.
   */
  lemma DuplicateAfterTombstone(t: Table)
    requires t == Construct(8)
    ensures Valid(t) && KeysOk([Put(0, 100), Put(7, 1), Delete(0), Put(7, 2)])
    ensures KeysOk([Put(0, 100), Put(7, 1), Delete(0), Put(7, 2), Delete(7)])
    ensures
      Apply(t, [Put(0, 100), Put(7, 1), Delete(0), Put(7, 2)])
      == Done(Table([Slot(7, 2, Occupied), E, E, Slot(7, 1, Occupied), E, E, E, E], 2))
    ensures
      var r := Apply(t, [Put(0, 100), Put(7, 1), Delete(0), Put(7, 2), Delete(7)]);
      && r == Done(Table([D, E, E, Slot(7, 1, Occupied), E, E, E, E], 1))
      && Find(r.value, 7) == Done(Reply(0, 1))
  {
    DupOpsOk();
    EmptyEight();
    Run0(t);
    var t5 := Apply(t, [Put(0, 100), Put(7, 1), Delete(0), Put(7, 2), Delete(7)]).value;
    Dup6(t5);
  }

  // The tables after put(1, 0) on T4, and after put(2, 0) has placed key 2
  // but before the rehash that placement triggers (2 * 4 >= 8).

  const T6: Table := Table([Slot(7, 2, Occupied), Slot(1, 0, Occupied), E, Slot(7, 1, Occupied), E, E, E, E], 3)
  const T7: seq<Slot> := [Slot(7, 2, Occupied), Slot(1, 0, Occupied), Slot(2, 0, Occupied), Slot(7, 1, Occupied), E, E, E, E]

  /**
    On the table with key 7 held twice, find returns the copy its probe meets
    first (data 2), while the view, the map rehash keeps, holds the copy at the
    higher index (data 1). Two puts of unrelated keys trigger a rehash, after
    which find(7) returns the stale 1: the put of 2 is silently reverted.
   */
  lemma StaleAfterRehash(t: Table)
    requires t == T4 && Valid(t)
    ensures Find(t, 7) == Done(Reply(0, 2))
    ensures 7 in View(t.slots) && View(t.slots)[7] == 1
    ensures Insert(t, 1, 0) == T6
    ensures Find(Insert(Insert(t, 1, 0), 2, 0), 7) == Done(Reply(0, 1))
  {
    Stale1(t);
    LaterCopyWins(t.slots);
    Stale2(t);
    var t6 := Insert(t, 1, 0);
    Stale3(t6);
    LaterCopyWins(T7);
    FindOnUnique(Insert(t6, 2, 0), 7, 1);
  }

  lemma Stale1(t: Table)
    requires t == T4 && Valid(t)
    ensures Find(t, 7) == Done(Reply(0, 2))
  {
    assert Probe(7, 8, 0) == 0;
    HitAtStep(t, 7, 0);
  }

  /** In both T4 and T7 key 7 sits in slots 0 and 3, and the view keeps slot 3's data, 1. */
  lemma LaterCopyWins(s: seq<Slot>)
    requires s == T4.slots || s == T7
    ensures 7 in View(s) && View(s)[7] == 1
  {
    ViewFromSpec(map[], s);
    assert IsOcc(s[3]) && s[3].key == 7 && LastOfKey(s, 3);
  }

  lemma Stale2(t: Table)
    requires t == T4 && Valid(t)
    ensures Insert(t, 1, 0) == T6
  {
    assert |t.slots| == 8;
    assert Probe(1, 8, 0) == 1;
    assert !IsOcc(t.slots[1]) && 2 * (t.count + 1) < 8;
    InsertAtStep(t, 1, 0, 0);
    assert t.slots[1 := Slot(1, 0, Occupied)] == T6.slots;
  }

  lemma Stale3(t6: Table)
    requires t6 == T6 && Valid(t6)
    ensures UniqueKeys(Insert(t6, 2, 0).slots) && View(Insert(t6, 2, 0).slots) == View(T7)
  {
    assert Probe(2, 8, 0) == 2;
    assert !IsOcc(t6.slots[2]);
    assert InsertProbe(t6, 2) == 0;
    assert t6.slots[2 := Slot(2, 0, Occupied)] == T7;
  }

  /** On a table with unique keys, find returns what the view holds. */
  lemma FindOnUnique(t: Table, key: int, data: int)
    requires Valid(t) && key >= 0 && UniqueKeys(t.slots)
    requires key in View(t.slots) && View(t.slots)[key] == data
    ensures Find(t, key) == Done(Reply(0, data))
  {
    var b := FindBounded(t, key);
  }

  /** Running two operation lists one after the other is running their concatenation. */
  lemma {:induction false} ApplyConcat(t: Table, a: seq<Op>, b: seq<Op>)
    requires Valid(t) && KeysOk(a) && KeysOk(b)
    ensures KeysOk(a + b)
    ensures Apply(t, a + b) == if Apply(t, a).Diverges? then Diverges else Apply(Apply(t, a).value, b)
    decreases |a|
  {
    if a == [] {
      assert a + b == b;
    } else {
      assert (a + b)[0] == a[0] && (a + b)[1..] == a[1..] + b;
      assert KeysOk(a[1..]);
      var step := match a[0]
        case Put(k, d) => Done(Insert(t, k, d))
        case Delete(k) => Remove(t, k);
      if step.Done? {
        ApplyConcat(step.value, a[1..], b);
      }
    }
  }

  /** put(k, 0) followed by remove(k), for k = lo, ..., 5. */
  function Churn(lo: nat): (ops: seq<Op>)
    ensures KeysOk(ops)
    decreases 6 - lo
  {
    if lo >= 6 then [] else [Put(lo, 0), Delete(lo)] + Churn(lo + 1)
  }

  /**
    In an 8-slot table with no key, a key below 6 starts at its own slot;
    when that slot is empty, putting and removing the key leaves a tombstone
    there and count 0.
   */
  lemma PutThenDelete(t: Table, k: nat, rest: seq<Op>)
    requires Valid(t) && |t.slots| == 8 && t.count == 0 && k < 6 && t.slots[k].status == Empty
    requires KeysOk(rest)
    ensures Valid(Table(t.slots[k := D], 0))
    ensures KeysOk([Put(k, 0), Delete(k)] + rest)
    ensures Apply(t, [Put(k, 0), Delete(k)] + rest) == Apply(Table(t.slots[k := D], 0), rest)
  {
    assert Probe(k, 8, 0) == k;
    InsertAtStep(t, k, 0, 0);
    var t' := Insert(t, k, 0);
    assert t' == Table(t.slots[k := Slot(k, 0, Occupied)], 1);
    HitAtStep(t', k, 0);
    assert t'.slots[k := D] == t.slots[k := D];
    ApplyDelete(t', k, rest);
    ApplyPut(t, k, 0, [Delete(k)] + rest);
    assert [Put(k, 0)] + ([Delete(k)] + rest) == [Put(k, 0), Delete(k)] + rest;
  }

  /** Churn(lo) turns the empty slots lo, ..., 5 of a key-free 8-slot table into tombstones. */
  lemma {:induction false} ChurnRun(t: Table, lo: nat)
    requires Valid(t) && |t.slots| == 8 && t.count == 0 && lo <= 6
    requires forall x :: lo <= x < 6 ==> t.slots[x].status == Empty
    ensures
      var r := Apply(t, Churn(lo));
      && r.Done? && r.value.count == 0 && |r.value.slots| == 8
      && forall x :: 0 <= x < 8 ==> r.value.slots[x] == if lo <= x < 6 then D else t.slots[x]
    decreases 6 - lo
  {
    if lo < 6 {
      var t' := Table(t.slots[lo := D], 0);
      PutThenDelete(t, lo, Churn(lo + 1));
      ChurnRun(t', lo + 1);
      var r := Apply(t', Churn(lo + 1));
      assert Apply(t, Churn(lo)) == r;
      forall x | 0 <= x < 8 ensures r.value.slots[x] == if lo <= x < 6 then D else t.slots[x] {
        assert r.value.slots[x] == if lo + 1 <= x < 6 then D else t'.slots[x];
      }
    }
  }

  // The tables of the second run. Key 6 starts at slot 6; key 20 starts at
  // slot 20 % 7 = 6 as well and steps by hash2 = 20 % 5 + 1 = 1, to slot 7.

  const U1: Table := Table([E, E, E, E, E, E, Slot(6, 1, Occupied), E], 1)
  const U2: Table := Table([E, E, E, E, E, E, Slot(6, 1, Occupied), Slot(20, 2, Occupied)], 2)
  const U3: Table := Table([E, E, E, E, E, E, Slot(6, 1, Occupied), D], 1)
  const U4: Table := Table([E, E, E, E, E, E, D, D], 0)

  lemma Tomb1(t: Table)
    requires t == T0
    ensures Valid(t) && Insert(t, 6, 1) == U1
  {
    EmptyEight();
    assert Probe(6, 8, 0) == 6;
    assert t.slots[6 := Slot(6, 1, Occupied)] == U1.slots;
    InsertAtStep(t, 6, 1, 0);
  }

  lemma Tomb2(t: Table)
    requires t == U1 && Valid(t)
    ensures Insert(t, 20, 2) == U2
  {
    assert |t.slots| == 8;
    assert Probe(20, 8, 0) == 6 && Probe(20, 8, 1) == 7;
    assert t.slots[7 := Slot(20, 2, Occupied)] == U2.slots;
    InsertAtStep(t, 20, 2, 1);
  }

  lemma Tomb3(t: Table)
    requires t == U2 && Valid(t)
    ensures Remove(t, 20) == Done(U3)
  {
    assert |t.slots| == 8;
    assert Probe(20, 8, 0) == 6 && Probe(20, 8, 1) == 7;
    assert t.slots[7 := D] == U3.slots;
    HitAtStep(t, 20, 1);
  }

  lemma Tomb4(t: Table)
    requires t == U3 && Valid(t)
    ensures Remove(t, 6) == Done(U4)
  {
    assert |t.slots| == 8;
    assert Probe(6, 8, 0) == 6;
    assert t.slots[6 := D] == U4.slots;
    HitAtStep(t, 6, 0);
  }

  lemma TombRun3(t: Table)
    requires t == U3 && Valid(t)
    ensures Apply(t, [Delete(6)]) == Done(U4)
  {
    Tomb4(t);
    ApplyDelete(t, 6, []);
  }

  lemma TombRun2(t: Table)
    requires t == U2 && Valid(t)
    ensures Apply(t, [Delete(20), Delete(6)]) == Done(U4)
  {
    Tomb3(t);
    TombRun3(Remove(t, 20).value);
    ApplyDelete(t, 20, [Delete(6)]);
  }

  lemma TombRun1(t: Table)
    requires t == U1 && Valid(t)
    ensures Apply(t, [Put(20, 2), Delete(20), Delete(6)]) == Done(U4)
  {
    assert KeysOk([Delete(20), Delete(6)]);
    Tomb2(t);
    TombRun2(Insert(t, 20, 2));
    ApplyPut(t, 20, 2, [Delete(20), Delete(6)]);
  }

  lemma TombRun0(t: Table)
    requires t == Construct(8)
    ensures Apply(t, [Put(6, 1), Put(20, 2), Delete(20), Delete(6)]) == Done(U4)
  {
    assert KeysOk([Put(20, 2), Delete(20), Delete(6)]);
    EmptyEight();
    Tomb1(t);
    TombRun1(Insert(t, 6, 1));
    ApplyPut(t, 6, 1, [Put(20, 2), Delete(20), Delete(6)]);
  }

  lemma TombRun(t: Table)
    requires t == Construct(8)
    ensures Valid(t) && KeysOk([Put(6, 1), Put(20, 2), Delete(20), Delete(6)] + Churn(0))
    ensures Apply(t, [Put(6, 1), Put(20, 2), Delete(20), Delete(6)] + Churn(0)) == Done(Table([D, D, D, D, D, D, D, D], 0))
  {
    var pre := [Put(6, 1), Put(20, 2), Delete(20), Delete(6)];
    assert KeysOk(pre);
    EmptyEight();
    ApplyConcat(t, pre, Churn(0));
    TombRun0(t);
    var u4 := Apply(t, pre).value;
    ApplyConcat(t, pre, Churn(0));
    TombRunTail(u4);
  }

  lemma TombRunTail(u4: Table)
    requires u4 == U4 && Valid(u4)
    ensures Apply(u4, Churn(0)) == Done(Table([D, D, D, D, D, D, D, D], 0))
  {
    ChurnRun(u4, 0);
    LastTwoTombstones(Apply(u4, Churn(0)).value, u4);
  }

  /**
    Slots 6 and 7 are made tombstones through a collision, slots 0 to 5
    directly. The table is then valid, holds no key and has count 0, yet has
    no empty slot, so find and remove for any key never return.
   */
  lemma TombstonesForever(t: Table)
    requires t == Construct(8)
    ensures Valid(t) && KeysOk([Put(6, 1), Put(20, 2), Delete(20), Delete(6)] + Churn(0))
    ensures
      var r := Apply(t, [Put(6, 1), Put(20, 2), Delete(20), Delete(6)] + Churn(0));
      && r == Done(Table([D, D, D, D, D, D, D, D], 0))
      && forall key :: key >= 0 ==> Find(r.value, key).Diverges? && Remove(r.value, key).Diverges?
  {
    TombRun(t);
    var r := Apply(t, [Put(6, 1), Put(20, 2), Delete(20), Delete(6)] + Churn(0)).value;
    EightTombstones(r);
    AllTombstonesDiverge(r);
  }

  lemma EightTombstones(r: Table)
    requires r == Table([D, D, D, D, D, D, D, D], 0)
    ensures forall x :: 0 <= x < |r.slots| ==> r.slots[x] == D
  {
  }

  lemma LastTwoTombstones(r: Table, u4: Table)
    requires u4 == U4 && |r.slots| == 8
    requires forall x :: 0 <= x < 8 ==> r.slots[x] == if 0 <= x < 6 then D else u4.slots[x]
    ensures r.slots == [D, D, D, D, D, D, D, D]
  {
  }

  /** In a valid table whose every slot is a tombstone, find and remove never return. */
  lemma AllTombstonesDiverge(t: Table)
    requires Valid(t) && forall x :: 0 <= x < |t.slots| ==> t.slots[x] == D
    ensures forall key :: key >= 0 ==> Find(t, key).Diverges? && Remove(t, key).Diverges?
  {
    forall key | key >= 0 ensures Find(t, key).Diverges? && Remove(t, key).Diverges? {
      assert key !in OccKeys(t.slots);
    }
  }
}
