/**
  Corrected variants of the open-addressing operations, for the two
  defects the model of hashtable_open.cpp exhibits:
  - InsertChecked looks the key up along its whole probe before falling
    back to the original insert, so a key is never held twice;
  - FindBounded and RemoveBounded stop after `size` probes, which visit
    every slot, so they always return.
  Each agrees with the original wherever the original terminates and
  already behaves as intended.
 */
module OpenFixed {
  import opened OpenTable

  /** Overwriting the data of an occupied slot keeps the table valid and its keys. */
  lemma OverwriteFacts(t: Table, p: nat, data: int)
    requires Valid(t) && p < |t.slots| && IsOcc(t.slots[p])
    ensures
      var s' := t.slots[p := t.slots[p].(data := data)];
      && Valid(Table(s', t.count))
      && OccKeys(s') == OccKeys(t.slots)
      && (UniqueKeys(t.slots) ==>
            UniqueKeys(s') && View(s') == View(t.slots)[t.slots[p].key := data])
  {
    var x := t.slots[p].(data := data);
    var s' := t.slots[p := x];
    NumOccupiedUpdate(t.slots, p, x);
    forall q | 0 <= q < |s'| && IsOcc(s'[q]) ensures s'[q].key >= 0 && Reachable(s', s'[q].key, q) {
      ReachMono(t.slots, s', s'[q].key, q);
    }
    PlaceKeys(t.slots, p, x);
    if UniqueKeys(t.slots) {
      PlaceView(t.slots, p, x);
    }
  }

  /** Turning an occupied slot of a unique-key table into a tombstone removes just its key. */
  lemma TombstoneFacts(s: seq<Slot>, p: nat)
    requires p < |s| && IsOcc(s[p])
    ensures
      var s' := s[p := Slot(0, 0, Deleted)];
      UniqueKeys(s) ==>
        && UniqueKeys(s')
        && OccKeys(s') == OccKeys(s) - {s[p].key}
        && View(s') == View(s) - {s[p].key}
  {
    if UniqueKeys(s) {
      TombstoneUnique(s, p);
    }
  }

  lemma TombstoneUnique(s: seq<Slot>, p: nat)
    requires p < |s| && IsOcc(s[p]) && UniqueKeys(s)
    ensures
      var s' := s[p := Slot(0, 0, Deleted)];
      && UniqueKeys(s')
      && OccKeys(s') == OccKeys(s) - {s[p].key}
      && View(s') == View(s) - {s[p].key}
  {
    var s' := s[p := Slot(0, 0, Deleted)];
    forall i, j | 0 <= i < j < |s'| && IsOcc(s'[i]) && IsOcc(s'[j]) ensures s'[i].key != s'[j].key {
      assert s'[i] == s[i] && s'[j] == s[j];
    }
    TombstoneKeys(s, p);
    TombstoneView(s, p);
  }

  lemma TombstoneView(s: seq<Slot>, p: nat)
    requires p < |s| && IsOcc(s[p]) && UniqueKeys(s)
    requires UniqueKeys(s[p := Slot(0, 0, Deleted)])
    requires OccKeys(s[p := Slot(0, 0, Deleted)]) == OccKeys(s) - {s[p].key}
    ensures View(s[p := Slot(0, 0, Deleted)]) == View(s) - {s[p].key}
  {
    var key := s[p].key;
    var s' := s[p := Slot(0, 0, Deleted)];
    ViewUnique(s);
    ViewUnique(s');
    var m, m' := View(s), View(s');
    forall k | k in m' ensures k in m - {key} && m'[k] == m[k] {
      var i :| 0 <= i < |s'| && IsOcc(s'[i]) && s'[i].key == k;
      assert i != p && s[i] == s'[i];
    }
    assert m'.Keys == (m - {key}).Keys;
  }

  lemma TombstoneKeys(s: seq<Slot>, p: nat)
    requires p < |s| && IsOcc(s[p]) && UniqueKeys(s)
    ensures OccKeys(s[p := Slot(0, 0, Deleted)]) == OccKeys(s) - {s[p].key}
  {
    var key := s[p].key;
    var s' := s[p := Slot(0, 0, Deleted)];
    forall k ensures k in OccKeys(s') <==> k in OccKeys(s) - {key} {
      if k in OccKeys(s) && k != key {
        var i :| 0 <= i < |s| && IsOcc(s[i]) && s[i].key == k;
        assert s'[i] == s[i];
      }
      if k in OccKeys(s') {
        var i :| 0 <= i < |s'| && IsOcc(s'[i]) && s'[i].key == k;
        assert i != p && s[i] == s'[i];
      }
    }
  }

  /**
    Insert that first looks the key up with find_node: a key found anywhere
    on its probe gets the new data in place; otherwise hashtable_insert runs.
    Every key stays in at most one slot.
   */
  function InsertChecked(t: Table, key: int, data: int): (r: Table)
    requires Valid(t) && key >= 0
    ensures Valid(r)
    ensures OccKeys(r.slots) == OccKeys(t.slots) + {key}
    ensures UniqueKeys(t.slots) ==> UniqueKeys(r.slots) && View(r.slots) == View(t.slots)[key := data]
    ensures key !in OccKeys(t.slots) ==> r == Insert(t, key, data)
  {
    SearchFacts(t, key);
    match Search(t, key)
    case Hit(j) =>
      var p := Probe(key, |t.slots|, j);
      OverwriteFacts(t, p, data);
      Table(t.slots[p := t.slots[p].(data := data)], t.count)
    case _ => Insert(t, key, data)
  }

  /**
    find_node bounded by the table size: once every slot has been probed the
    key is reported absent. It always returns, finds exactly the present
    keys, and agrees with hashtable_find whenever that returns.
   */
  function FindBounded(t: Table, key: int): (r: Reply)
    requires Valid(t) && key >= 0
    ensures r.status == 0 <==> key in OccKeys(t.slots)
    ensures r.status == 0 ==>
      exists p :: 0 <= p < |t.slots| && IsOcc(t.slots[p]) && t.slots[p].key == key && t.slots[p].data == r.data
    ensures r.status != 0 ==> r == Reply(-1, 0)
    ensures UniqueKeys(t.slots) ==>
      (key in View(t.slots) <==> r.status == 0) && (r.status == 0 ==> View(t.slots)[key] == r.data)
    ensures Find(t, key).Done? ==> r == Find(t, key).value
  {
    SearchFacts(t, key);
    ViewIfUnique(t.slots);
    match Search(t, key)
    case Hit(j) => Reply(0, t.slots[Probe(key, |t.slots|, j)].data)
    case _ => Reply(-1, 0)
  }

  /**
    hashtable_remove with the bounded lookup. It always returns, agrees with
    hashtable_remove whenever that returns, and on a unique-key table removes
    the key from the map the table stands for.
   */
  function RemoveBounded(t: Table, key: int): (r: Table)
    requires Valid(t) && key >= 0
    ensures Valid(r)
    ensures Remove(t, key).Done? ==> r == Remove(t, key).value
    ensures UniqueKeys(t.slots) ==>
      && UniqueKeys(r.slots)
      && OccKeys(r.slots) == OccKeys(t.slots) - {key}
      && View(r.slots) == View(t.slots) - {key}
  {
    SearchFacts(t, key);
    match Search(t, key)
    case Hit(j) =>
      var p := Probe(key, |t.slots|, j);
      RemoveFacts(t, p);
      TombstoneFacts(t.slots, p);
      Table(t.slots[p := Slot(0, 0, Deleted)], t.count - 1)
    case _ =>
      ViewIfUnique(t.slots);
      t
  }

  lemma ViewIfUnique(s: seq<Slot>)
    ensures UniqueKeys(s) ==> View(s).Keys == OccKeys(s)
    ensures UniqueKeys(s) ==> forall i :: 0 <= i < |s| && IsOcc(s[i]) ==> View(s)[s[i].key] == s[i].data
  {
    if UniqueKeys(s) {
      ViewUnique(s);
    }
  }

  /**
    With the corrected operations the table keeps one slot per key from
    construction on, so a removed key is no longer found, which the original
    insert does not guarantee.
   */
  lemma RemovedKeyIsGone(t: Table, key: int)
    requires Valid(t) && UniqueKeys(t.slots) && key >= 0
    ensures FindBounded(RemoveBounded(t, key), key) == Reply(-1, 0)
  {
  }

  /** A key put with the corrected insert is found with the data just put. */
  lemma FoundAfterCheckedInsert(t: Table, key: int, data: int)
    requires Valid(t) && UniqueKeys(t.slots) && key >= 0
    ensures FindBounded(InsertChecked(t, key, data), key) == Reply(0, data)
  {
  }
}
