/**
  The open-addressing, double-hashing table of hashtable_open.cpp.

  A table is a sequence of slots, each with key, data and a status
  (0 empty, 1 occupied, -1 deleted, i.e. a tombstone), plus the count of
  occupied slots. Operations are pure functions.

  The model keeps two behaviours of the C code that a textbook table would
  not have:
  - insert stops at the first slot that is not occupied, tombstones
    included, without looking further along the probe for the key, so a
    key can end up in two occupied slots (see DuplicateAfterTombstone);
  - find and remove keep probing while the slot is not empty, and
    tombstones do not count toward the load, so for an absent key whose
    whole probe cycle is occupied or deleted the C loop never ends. Find
    and Remove return `Diverges` in exactly that case.

  Keys must be non-negative: hash1 and hash2 use the signed C remainder,
  and a negative key would produce an out-of-range index. The driver only
  ever passes `rand()` values. For non-negative operands the C remainder
  and Dafny's `%` agree.
 */
module OpenTable {
  import opened CTypes
  import opened Probing

  /** Slot status: Empty is 0, Occupied is 1, Deleted (a tombstone) is -1. */
  datatype Status = Empty | Occupied | Deleted

  datatype Slot = Slot(key: int, data: int, status: Status)

  /** `HashTable { count, size, buckets }` with size == |slots|. */
  datatype Table = Table(slots: seq<Slot>, count: nat)

  /** The C `hashtable_find` result: the return code and the value written to `*data`. */
  datatype Reply = Reply(status: int, data: int)

  /** The outcome of a probe loop: a value, or a loop that never ends. */
  datatype Run<T> = Done(value: T) | Diverges

  /** How find_node's probe loop ends: a matching slot, an empty slot, or not at all. */
  datatype Outcome = Hit(j: nat) | Miss(j: nat) | Cycles

  /** The initial size the driver constructs tables with. */
  const TABLE_INIT_SIZE: nat := 128

  // ---------------------------------------------------------------------
  // Hashing and the probe sequence

  /** hash1: the start of the probe, key mod (size - 1). */
  function Hash1(key: int, size: nat): (h: nat)
    requires key >= 0 && size >= 4
    ensures h <= size - 2
  {
    key % (size - 1)
  }

  /** hash2: the probe step, key mod (size - 3) plus 1, bumped to the next odd number. */
  function Hash2(key: int, size: nat): (k: nat)
    requires key >= 0 && size >= 4
    ensures k % 2 == 1 && 1 <= k <= size - 2
  {
    var hash := key % (size - 3) + 1;
    if hash % 2 == 1 then hash else hash + 1
  }

  /**
    The slot index visited at step j of the probe for key: hash1 first, then
    `i = (i + hash2) % size` at each step, as the C loops advance.
   */
  function Probe(key: int, n: nat, j: nat): (p: nat)
    requires key >= 0 && n >= 4
    ensures p < n
  {
    if j == 0 then Hash1(key, n) else (Probe(key, n, j - 1) + Hash2(key, n)) % n
  }

  /** The stepwise probe is the closed-form double-hashing sequence. */
  lemma {:induction false} ProbeClosedForm(key: int, n: nat, j: nat)
    requires key >= 0 && n >= 4
    ensures Probe(key, n, j) == ProbeAt(Hash1(key, n), Hash2(key, n), n, j)
  {
    if j == 0 {
      ProbeStart(Hash1(key, n), Hash2(key, n), n);
    } else {
      ProbeClosedForm(key, n, j - 1);
      ProbeStep(Hash1(key, n), Hash2(key, n), n, j - 1);
    }
  }

  predicate IsOcc(x: Slot) {
    x.status == Occupied
  }

  // ---------------------------------------------------------------------
  // Abstractions of the slot sequence

  function NumOccupied(s: seq<Slot>): nat {
    if s == [] then 0 else (if IsOcc(s[0]) then 1 else 0) + NumOccupied(s[1..])
  }

  /** The keys held by occupied slots. */
  function OccKeys(s: seq<Slot>): (r: set<int>)
    ensures forall k :: k in r <==> exists i :: 0 <= i < |s| && IsOcc(s[i]) && s[i].key == k
  {
    if s == [] then {}
    else
      var rest := OccKeys(s[1..]);
      assert forall i :: 1 <= i < |s| ==> s[i] == s[1..][i - 1];
      (if IsOcc(s[0]) then {s[0].key} else {}) + rest
  }

  predicate NoDeleted(s: seq<Slot>) {
    forall i :: 0 <= i < |s| ==> s[i].status != Deleted
  }

  predicate UniqueKeys(s: seq<Slot>) {
    forall i, j :: 0 <= i < j < |s| && IsOcc(s[i]) && IsOcc(s[j]) ==> s[i].key != s[j].key
  }

  /** No occupied slot after i holds the key of slot i. */
  predicate LastOfKey(s: seq<Slot>, i: nat)
    requires i < |s|
  {
    forall j :: i < j < |s| && IsOcc(s[j]) ==> s[j].key != s[i].key
  }

  function Add(m: map<int, int>, x: Slot): map<int, int> {
    if IsOcc(x) then m[x.key := x.data] else m
  }

  /** Occupied slots folded into a map in index order; a later slot overrides an earlier one. */
  function ViewFrom(m: map<int, int>, s: seq<Slot>): map<int, int>
    decreases |s|
  {
    if s == [] then m else ViewFrom(Add(m, s[0]), s[1..])
  }

  /**
    The key-to-data map a slot sequence stands for. With unique keys it is
    simply the occupied slots; with duplicates the highest index wins, which
    is the copy rehash keeps.
   */
  function View(s: seq<Slot>): map<int, int> {
    ViewFrom(map[], s)
  }

  // ---------------------------------------------------------------------
  // Invariants

  /** No empty slot among the first j probes for key. */
  predicate NoEmptyBefore(s: seq<Slot>, key: int, j: nat)
    requires key >= 0 && |s| >= 4
  {
    forall j' :: 0 <= j' < j ==> s[Probe(key, |s|, j')].status != Empty
  }

  /** Slot p is reached by the probe for key before any empty slot. */
  ghost predicate Reachable(s: seq<Slot>, key: int, p: nat)
    requires key >= 0 && |s| >= 4
  {
    exists j :: 0 <= j < |s| && Probe(key, |s|, j) == p && NoEmptyBefore(s, key, j)
  }

  /**
    What every operation preserves: a power-of-two size of at least 4,
    count == number of occupied slots, and every occupied slot has a
    non-negative key and is reachable from its key's probe start without
    crossing an empty slot.
   */
  ghost predicate WellFormed(t: Table) {
    && |t.slots| >= 4 && IsPow2(|t.slots|)
    && t.count == NumOccupied(t.slots)
    && (forall p :: 0 <= p < |t.slots| && IsOcc(t.slots[p]) ==>
          t.slots[p].key >= 0 && Reachable(t.slots, t.slots[p].key, p))
  }

  /** WellFormed plus the load bound that holds between operations: 2 * count < size. */
  ghost predicate Valid(t: Table) {
    WellFormed(t) && 2 * t.count < |t.slots|
  }

  // ---------------------------------------------------------------------
  // The probe loops

  /**
    The loop of hashtable_insert: walk while the slot is occupied, stopping
    early at an occupied slot holding the key. Returns the probe step it
    stops at; `i` is the C variable, advanced by `i = (i + k) % size`.
   */
  function ScanInsert(s: seq<Slot>, key: int, i: nat, j: nat): (r: nat)
    requires key >= 0 && |s| >= 4 && j < |s| && i == Probe(key, |s|, j)
    requires exists j' :: j <= j' < |s| && !IsOcc(s[Probe(key, |s|, j')])
    ensures j <= r < |s|
    ensures !IsOcc(s[Probe(key, |s|, r)]) || s[Probe(key, |s|, r)].key == key
    ensures forall j' :: j <= j' < r ==> IsOcc(s[Probe(key, |s|, j')]) && s[Probe(key, |s|, j')].key != key
    decreases |s| - j
  {
    if !IsOcc(s[i]) then j
    else if s[i].key == key then j
    else
      ProbeNext(key, |s|, i, j);
      FreeSlotAhead(s, key, j);
      ScanInsert(s, key, (i + Hash2(key, |s|)) % |s|, j + 1)
  }

  /** The C update `i = (i + hash2) % size` moves from probe step j to step j + 1. */
  lemma ProbeNext(key: int, n: nat, i: nat, j: nat)
    requires key >= 0 && n >= 4 && i == Probe(key, n, j)
    ensures (i + Hash2(key, n)) % n == Probe(key, n, j + 1)
  {
  }

  /** A non-occupied slot at or after step j, and none at step j, lies after step j. */
  lemma FreeSlotAhead(s: seq<Slot>, key: int, j: nat)
    requires key >= 0 && |s| >= 4 && j < |s| && IsOcc(s[Probe(key, |s|, j)])
    requires exists j' :: j <= j' < |s| && !IsOcc(s[Probe(key, |s|, j')])
    ensures exists j' :: j + 1 <= j' < |s| && !IsOcc(s[Probe(key, |s|, j')])
  {
    var j' :| j <= j' < |s| && !IsOcc(s[Probe(key, |s|, j')]);
    assert j' != j;
  }

  /** find_node's loop goes on past this slot: it is not empty and does not hold the key. */
  predicate PassesFind(x: Slot, key: int) {
    x.status != Empty && !(IsOcc(x) && x.key == key)
  }

  /**
    The loop of find_node: walk while the slot is not empty, stopping at an
    occupied slot holding the key. After `size` steps the probe is back at
    its start (ProbePeriodic), so the C loop would repeat the same slots
    forever: that is `Cycles`.
   */
  function ScanFind(s: seq<Slot>, key: int, i: nat, j: nat): (r: Outcome)
    requires key >= 0 && |s| >= 4 && j <= |s| && i == Probe(key, |s|, j)
    ensures r.Hit? ==> j <= r.j < |s| && IsOcc(s[Probe(key, |s|, r.j)]) && s[Probe(key, |s|, r.j)].key == key
    ensures r.Miss? ==> j <= r.j < |s| && s[Probe(key, |s|, r.j)].status == Empty
    ensures forall j' :: j <= j' < (if r.Cycles? then |s| else r.j) ==> PassesFind(s[Probe(key, |s|, j')], key)
    decreases |s| - j
  {
    if j == |s| then Cycles
    else if s[i].status == Empty then Miss(j)
    else if IsOcc(s[i]) && s[i].key == key then Hit(j)
    else
      ProbeNext(key, |s|, i, j);
      ScanFind(s, key, (i + Hash2(key, |s|)) % |s|, j + 1)
  }

  /** The probe step at which insert stops for key. */
  function InsertProbe(t: Table, key: int): (j: nat)
    requires Valid(t) && key >= 0
    ensures j < |t.slots|
    ensures !IsOcc(t.slots[Probe(key, |t.slots|, j)]) || t.slots[Probe(key, |t.slots|, j)].key == key
    ensures forall j' :: 0 <= j' < j ==>
      IsOcc(t.slots[Probe(key, |t.slots|, j')]) && t.slots[Probe(key, |t.slots|, j')].key != key
  {
    FreeSlotOnProbe(t, key);
    ScanInsert(t.slots, key, Hash1(key, |t.slots|), 0)
  }

  /** find_node for key, from the start of its probe. */
  function Search(t: Table, key: int): Outcome
    requires WellFormed(t) && key >= 0
  {
    ScanFind(t.slots, key, Hash1(key, |t.slots|), 0)
  }

  // ---------------------------------------------------------------------
  // Operations

  /** hashtable_constructor: `size` zeroed slots (key 0, data 0, empty) and count 0. */
  function Construct(size: nat): (r: Table)
    ensures |r.slots| == size && r.count == 0
    ensures forall p :: 0 <= p < size ==> r.slots[p] == Slot(0, 0, Empty)
    ensures IsPow2(size) && size >= 4 ==> Valid(r)
    ensures NoDeleted(r.slots) && UniqueKeys(r.slots) && OccKeys(r.slots) == {} && View(r.slots) == map[]
  {
    var s := seq(size, _ => Slot(0, 0, Empty));
    NoneOccupied(s);
    Table(s, 0)
  }

  /** The table the driver constructs, of TABLE_INIT_SIZE slots, is valid: 128 is a power of two. */
  lemma InitialTableValid()
    ensures Valid(Construct(TABLE_INIT_SIZE)) && IsPow2(TABLE_INIT_SIZE)
  {
    assert IsPow2(128) by {
      assert IsPow2(1) && IsPow2(2) && IsPow2(4) && IsPow2(8) && IsPow2(16) && IsPow2(32) && IsPow2(64);
    }
  }

  /** hashtable_destructor: the slot array is released and the table has size 0. */
  function Destroy(t: Table): (r: Table)
    ensures |r.slots| == 0 && r.count == 0 && OccKeys(r.slots) == {}
  {
    Table([], 0)
  }

  /**
    hashtable_find. A key held by some occupied slot is always found (the
    value may be that of an earlier duplicate); an absent key yields -1 and
    0, or a loop that never ends when no slot is empty.
   */
  function Find(t: Table, key: int): (r: Run<Reply>)
    requires Valid(t) && key >= 0
    ensures r.Done? ==> r.value.status == 0 || r.value.status == -1
    ensures r.Done? && r.value.status == 0 ==>
      exists p :: 0 <= p < |t.slots| && IsOcc(t.slots[p]) && t.slots[p].key == key && t.slots[p].data == r.value.data
    ensures r.Done? && r.value.status == -1 ==> r.value.data == 0 && key !in OccKeys(t.slots)
    ensures key in OccKeys(t.slots) ==> r.Done? && r.value.status == 0
    ensures r.Diverges? <==> key !in OccKeys(t.slots) && forall p :: 0 <= p < |t.slots| ==> t.slots[p].status != Empty
  {
    var n := |t.slots|;
    SearchFacts(t, key);
    match Search(t, key)
    case Hit(j) => Done(Reply(0, t.slots[Probe(key, n, j)].data))
    case Miss(_) => Done(Reply(-1, 0))
    case Cycles => Diverges
  }

  /**
    hashtable_insert. If the probe meets an occupied slot with the key before
    any non-occupied slot, only that slot's data changes. Otherwise the first
    non-occupied slot (empty or tombstone) receives the key, the count grows
    by one and the rehash check runs. The table stays valid either way.
   */
  function Insert(t: Table, key: int, data: int): (r: Table)
    requires Valid(t) && key >= 0
    ensures Valid(r)
    ensures OccKeys(r.slots) == OccKeys(t.slots) + {key}
    ensures r.count <= t.count + 1
    ensures NoDeleted(t.slots) ==> NoDeleted(r.slots)
    ensures UniqueKeys(t.slots) && (NoDeleted(t.slots) || key !in OccKeys(t.slots)) ==>
      UniqueKeys(r.slots) && View(r.slots) == View(t.slots)[key := data]
    ensures
      var p := Probe(key, |t.slots|, InsertProbe(t, key));
      IsOcc(t.slots[p]) ==> r.count == t.count && r.slots == t.slots[p := Slot(key, data, Occupied)]
    ensures
      var p := Probe(key, |t.slots|, InsertProbe(t, key));
      !IsOcc(t.slots[p]) && 2 * (t.count + 1) < |t.slots| ==>
        r.count == t.count + 1 && r.slots == t.slots[p := Slot(key, data, Occupied)]
    ensures
      var p := Probe(key, |t.slots|, InsertProbe(t, key));
      !IsOcc(t.slots[p]) && 2 * (t.count + 1) >= |t.slots| ==>
        |r.slots| == 2 * |t.slots| && NoDeleted(r.slots) && UniqueKeys(r.slots)
    ensures View(r.slots) == View(t.slots[Probe(key, |t.slots|, InsertProbe(t, key)) := Slot(key, data, Occupied)])
    decreases if 2 * (t.count + 1) >= |t.slots| then 3 else 1, 0
  {
    var j := InsertProbe(t, key);
    var p := Probe(key, |t.slots|, j);
    PlaceFacts(t, key, data, j);
    RoomForOneMore(t.count, |t.slots|);
    if IsOcc(t.slots[p]) then
      assert t.slots[p].(data := data) == Slot(key, data, Occupied);
      Table(t.slots[p := t.slots[p].(data := data)], t.count)
    else
      var placed := Table(t.slots[p := Slot(key, data, Occupied)], t.count + 1);
      Rehash(placed)
  }

  /**
    hashtable_rehash, called right after an insert added a key. While
    2 * count < size it does nothing. Otherwise the size doubles and the
    occupied slots are re-inserted in index order through Insert: tombstones
    vanish, a duplicated key keeps the data of its highest slot, and the
    count can only shrink.
   */
  function Rehash(t: Table): (r: Table)
    requires WellFormed(t) && 2 * t.count <= |t.slots|
    ensures Valid(r)
    ensures 2 * t.count < |t.slots| ==> r == t
    ensures 2 * t.count >= |t.slots| ==>
      && |r.slots| == 2 * |t.slots|
      && NoDeleted(r.slots) && UniqueKeys(r.slots)
      && r.count == |OccKeys(t.slots)|
    ensures r.count <= t.count
    ensures OccKeys(r.slots) == OccKeys(t.slots)
    ensures View(r.slots) == View(t.slots)
    decreases if 2 * t.count >= |t.slots| then 2 else 0, 0
  {
    if 2 * t.count < |t.slots| then t
    else
      var blank := Construct(2 * |t.slots|);
      assert IsPow2(2 * |t.slots|) by { assert (2 * |t.slots|) / 2 == |t.slots|; }
      assert t.slots[0..] == t.slots;
      var r := ReinsertSlots(t.slots, 0, blank);
      OccKeysCount(r.slots);
      OccKeysCount(t.slots);
      r
  }

  /**
    The re-insertion loop of hashtable_rehash over the previous slots from index
    i on. Its precondition bounds the load so that the Insert it calls never
    triggers a nested rehash: the size stays that of `acc`.
   */
  function ReinsertSlots(prev: seq<Slot>, i: nat, acc: Table): (r: Table)
    requires Valid(acc) && NoDeleted(acc.slots) && UniqueKeys(acc.slots)
    requires i <= |prev|
    requires 2 * (acc.count + NumOccupied(prev[i..])) < |acc.slots|
    requires forall x :: i <= x < |prev| && IsOcc(prev[x]) ==> prev[x].key >= 0
    ensures Valid(r) && NoDeleted(r.slots) && UniqueKeys(r.slots)
    ensures |r.slots| == |acc.slots|
    ensures OccKeys(r.slots) == OccKeys(acc.slots) + OccKeys(prev[i..])
    ensures View(r.slots) == ViewFrom(View(acc.slots), prev[i..])
    decreases 1, |prev| - i
  {
    if i == |prev| then acc
    else
      assert prev[i..][0] == prev[i] && prev[i..][1..] == prev[i + 1..];
      if IsOcc(prev[i]) then
        var acc' := Insert(acc, prev[i].key, prev[i].data);
        ReinsertSlots(prev, i + 1, acc')
      else
        ReinsertSlots(prev, i + 1, acc)
  }

  /**
    hashtable_remove: the slot find_node reports becomes a tombstone with
    key 0 and data 0 and the count drops by one; an absent key leaves the
    table unchanged. Remove diverges exactly when Find does.
   */
  function Remove(t: Table, key: int): (r: Run<Table>)
    requires Valid(t) && key >= 0
    ensures r.Diverges? <==> Find(t, key).Diverges?
    ensures r.Done? ==> Valid(r.value)
    ensures r.Done? && key !in OccKeys(t.slots) ==> r.value == t
    ensures key in OccKeys(t.slots) ==>
      && r.Done? && r.value.count == t.count - 1
      && exists p :: 0 <= p < |t.slots| && IsOcc(t.slots[p]) && t.slots[p].key == key
           && r.value.slots == t.slots[p := Slot(0, 0, Deleted)]
  {
    var n := |t.slots|;
    SearchFacts(t, key);
    match Search(t, key)
    case Hit(j) =>
      var p := Probe(key, n, j);
      RemoveFacts(t, p);
      Done(Table(t.slots[p := Slot(0, 0, Deleted)], t.count - 1))
    case Miss(_) => Done(t)
    case Cycles => Diverges
  }

  // ---------------------------------------------------------------------
  // The operations as the C loops run them, one probe step at a time

  /**
    Insert stops at probe step j when every earlier step met an occupied
    slot with another key and step j meets a free slot or the key itself;
    slot j then holds the key and the new data. Below the rehash threshold
    nothing else changes.
   */
  lemma InsertAtStep(t: Table, key: int, data: int, j: nat)
    requires Valid(t) && key >= 0 && j < |t.slots|
    requires forall j' :: 0 <= j' < j ==>
      IsOcc(t.slots[Probe(key, |t.slots|, j')]) && t.slots[Probe(key, |t.slots|, j')].key != key
    requires !IsOcc(t.slots[Probe(key, |t.slots|, j)]) || t.slots[Probe(key, |t.slots|, j)].key == key
    requires IsOcc(t.slots[Probe(key, |t.slots|, j)]) || 2 * (t.count + 1) < |t.slots|
    ensures
      var p := Probe(key, |t.slots|, j);
      Insert(t, key, data) ==
        Table(t.slots[p := Slot(key, data, Occupied)], if IsOcc(t.slots[p]) then t.count else t.count + 1)
  {
    assert InsertProbe(t, key) == j;
  }

  /**
    Find and remove stop at probe step j when every earlier step met a
    deleted slot or an occupied slot with another key, and step j meets an
    occupied slot with the key: find returns its data, remove makes it a
    tombstone.
   */
  lemma HitAtStep(t: Table, key: int, j: nat)
    requires Valid(t) && key >= 0 && j < |t.slots|
    requires forall j' :: 0 <= j' < j ==>
      var x := t.slots[Probe(key, |t.slots|, j')];
      x.status != Empty && !(IsOcc(x) && x.key == key)
    requires IsOcc(t.slots[Probe(key, |t.slots|, j)]) && t.slots[Probe(key, |t.slots|, j)].key == key
    ensures t.count >= 1
    ensures Find(t, key) == Done(Reply(0, t.slots[Probe(key, |t.slots|, j)].data))
    ensures Remove(t, key) == Done(Table(t.slots[Probe(key, |t.slots|, j) := Slot(0, 0, Deleted)], t.count - 1))
  {
    HitSearch(t, key, j);
    RemoveFacts(t, Probe(key, |t.slots|, j));
  }

  lemma HitSearch(t: Table, key: int, j: nat)
    requires Valid(t) && key >= 0 && j < |t.slots|
    requires forall j' :: 0 <= j' < j ==> PassesFind(t.slots[Probe(key, |t.slots|, j')], key)
    requires IsOcc(t.slots[Probe(key, |t.slots|, j)]) && t.slots[Probe(key, |t.slots|, j)].key == key
    ensures Search(t, key) == Hit(j)
  {
    ScanFindStops(t.slots, key, Hash1(key, |t.slots|), 0, j);
  }

  /**
    find_node's loop, started at step j0, passes every slot up to step j and
    stops at step j: with a hit if that slot holds the key, else with a miss.
   */
  lemma {:induction false} ScanFindStops(s: seq<Slot>, key: int, i: nat, j0: nat, j: nat)
    requires key >= 0 && |s| >= 4 && j0 <= j < |s| && i == Probe(key, |s|, j0)
    requires forall j' :: j0 <= j' < j ==> PassesFind(s[Probe(key, |s|, j')], key)
    requires !PassesFind(s[Probe(key, |s|, j)], key)
    ensures ScanFind(s, key, i, j0) == if s[Probe(key, |s|, j)].status == Empty then Miss(j) else Hit(j)
    decreases j - j0
  {
    if j0 < j {
      assert PassesFind(s[i], key);
      ProbeNext(key, |s|, i, j0);
      ScanFindStops(s, key, (i + Hash2(key, |s|)) % |s|, j0 + 1, j);
    }
  }

  /**
    Find and remove give up at probe step j when every earlier step met a
    deleted slot or an occupied slot with another key, and step j meets an
    empty slot: find returns -1 and 0, remove changes nothing.
   */
  lemma MissAtStep(t: Table, key: int, j: nat)
    requires Valid(t) && key >= 0 && j < |t.slots|
    requires forall j' :: 0 <= j' < j ==>
      var x := t.slots[Probe(key, |t.slots|, j')];
      x.status != Empty && !(IsOcc(x) && x.key == key)
    requires t.slots[Probe(key, |t.slots|, j)].status == Empty
    ensures Find(t, key) == Done(Reply(-1, 0))
    ensures Remove(t, key) == Done(t)
  {
    ScanFindStops(t.slots, key, Hash1(key, |t.slots|), 0, j);
  }

  // ---------------------------------------------------------------------
  // Counting lemmas

  /** Below half of a power-of-two size, one more key still fits within half. */
  lemma RoomForOneMore(c: nat, n: nat)
    requires IsPow2(n) && n >= 4 && 2 * c < n
    ensures 2 * (c + 1) <= n
  {
    var m := n / 2;
    assert n == 2 * m;
  }

  lemma NoneOccupied(s: seq<Slot>)
    requires forall i :: 0 <= i < |s| ==> s[i] == Slot(0, 0, Empty)
    ensures NumOccupied(s) == 0 && OccKeys(s) == {} && View(s) == map[]
  {
    if s != [] {
      NoneOccupied(s[1..]);
    }
    ViewFromSpec(map[], s);
  }

  /** Changing one slot changes the occupied count by the change in that slot alone. */
  lemma {:induction false} NumOccupiedUpdate(s: seq<Slot>, p: nat, x: Slot)
    requires p < |s|
    ensures NumOccupied(s[p := x]) + (if IsOcc(s[p]) then 1 else 0) == NumOccupied(s) + (if IsOcc(x) then 1 else 0)
    decreases |s|
  {
    if p == 0 {
      assert s[p := x][1..] == s[1..];
    } else {
      NumOccupiedUpdate(s[1..], p - 1, x);
      assert s[p := x][1..] == s[1..][p - 1 := x];
    }
  }

  /** Fewer occupied slots than slots means some slot is free. */
  lemma {:induction false} NumOccupiedBound(s: seq<Slot>)
    ensures NumOccupied(s) <= |s|
    ensures NumOccupied(s) < |s| ==> exists i :: 0 <= i < |s| && !IsOcc(s[i])
    decreases |s|
  {
    if s != [] {
      NumOccupiedBound(s[1..]);
      if NumOccupied(s) < |s| && IsOcc(s[0]) {
        var i :| 0 <= i < |s| - 1 && !IsOcc(s[1..][i]);
        assert s[i + 1] == s[1..][i];
      }
    }
  }

  /** The number of distinct keys is at most the count, and equal to it when keys are unique. */
  lemma {:induction false} OccKeysCount(s: seq<Slot>)
    ensures |OccKeys(s)| <= NumOccupied(s)
    ensures UniqueKeys(s) ==> |OccKeys(s)| == NumOccupied(s)
    decreases |s|
  {
    if s != [] {
      var rest := s[1..];
      OccKeysCount(rest);
      if UniqueKeys(s) {
        UniqueTail(s);
      }
      if IsOcc(s[0]) {
        assert OccKeys(s) == {s[0].key} + OccKeys(rest);
      } else {
        assert OccKeys(s) == OccKeys(rest);
      }
    }
  }

  lemma UniqueTail(s: seq<Slot>)
    requires s != [] && UniqueKeys(s)
    ensures UniqueKeys(s[1..])
    ensures IsOcc(s[0]) ==> s[0].key !in OccKeys(s[1..])
  {
    var rest := s[1..];
    forall i, j | 0 <= i < j < |rest| && IsOcc(rest[i]) && IsOcc(rest[j])
      ensures rest[i].key != rest[j].key
    {
      assert rest[i] == s[i + 1] && rest[j] == s[j + 1];
    }
  }

  // ---------------------------------------------------------------------
  // Probe lemmas

  /** Slot p is among the first n probes for key. */
  ghost predicate Probed(key: int, n: nat, p: nat)
    requires key >= 0 && n >= 4
  {
    exists j :: 0 <= j < n && Probe(key, n, j) == p
  }

  /** Every slot index is visited by the first n probes of any non-negative key. */
  lemma AllSlotsProbed(key: int, n: nat)
    requires key >= 0 && n >= 4 && IsPow2(n)
    ensures forall p :: 0 <= p < n ==> Probed(key, n, p)
  {
    forall p | 0 <= p < n ensures Probed(key, n, p) {
      ProbeCovers(Hash1(key, n), Hash2(key, n), n, p);
      var j :| 0 <= j < n && ProbeAt(Hash1(key, n), Hash2(key, n), n, j) == p;
      ProbeClosedForm(key, n, j);
    }
  }

  /** In a valid table, the probe of every key meets a non-occupied slot: insert's loop ends. */
  lemma FreeSlotOnProbe(t: Table, key: int)
    requires Valid(t) && key >= 0
    ensures exists j :: 0 <= j < |t.slots| && !IsOcc(t.slots[Probe(key, |t.slots|, j)])
  {
    var n := |t.slots|;
    NumOccupiedBound(t.slots);
    var p :| 0 <= p < n && !IsOcc(t.slots[p]);
    AllSlotsProbed(key, n);
    assert Probed(key, n, p);
    var j :| 0 <= j < n && Probe(key, n, j) == p;
  }

  /** Once find's loop has cycled, no later step stops it either: the C loop runs forever. */
  lemma CyclesForever(t: Table, key: int, j: nat)
    requires WellFormed(t) && key >= 0 && Search(t, key).Cycles?
    ensures
      var x := t.slots[Probe(key, |t.slots|, j)];
      x.status != Empty && !(IsOcc(x) && x.key == key)
  {
    var n := |t.slots|;
    var j0 := j % n;
    ProbeReduce(Hash1(key, n), Hash2(key, n), n, j);
    ProbeClosedForm(key, n, j);
    ProbeClosedForm(key, n, j0);
    assert Probe(key, n, j) == Probe(key, n, j0);
  }

  /** The outcomes of find_node, related to the table contents. */
  lemma SearchFacts(t: Table, key: int)
    requires Valid(t) && key >= 0
    ensures key in OccKeys(t.slots) ==> Search(t, key).Hit?
    ensures Search(t, key).Miss? ==> key !in OccKeys(t.slots)
    ensures Search(t, key).Cycles? <==>
      key !in OccKeys(t.slots) && forall p :: 0 <= p < |t.slots| ==> t.slots[p].status != Empty
  {
    var n := |t.slots|;
    var r := Search(t, key);
    if key in OccKeys(t.slots) {
      var p :| 0 <= p < n && IsOcc(t.slots[p]) && t.slots[p].key == key;
      SearchHitsPresent(t, key, p);
    }
    if r.Cycles? {
      AllSlotsProbed(key, n);
      forall p | 0 <= p < n ensures t.slots[p].status != Empty && !(IsOcc(t.slots[p]) && t.slots[p].key == key) {
        assert Probed(key, n, p);
        var j :| 0 <= j < n && Probe(key, n, j) == p;
      }
    }
  }

  /** A key held by an occupied slot is found: the slot is reachable without crossing an empty one. */
  lemma SearchHitsPresent(t: Table, key: int, p: nat)
    requires WellFormed(t) && key >= 0 && p < |t.slots| && IsOcc(t.slots[p]) && t.slots[p].key == key
    ensures Search(t, key).Hit?
  {
    var n := |t.slots|;
    var jp :| 0 <= jp < n && Probe(key, n, jp) == p && NoEmptyBefore(t.slots, key, jp);
  }

  /** Without tombstones, insert's loop stops at the slot of a key that is present. */
  lemma InsertFindsPresent(t: Table, key: int)
    requires Valid(t) && key >= 0 && NoDeleted(t.slots) && key in OccKeys(t.slots)
    ensures IsOcc(t.slots[Probe(key, |t.slots|, InsertProbe(t, key))])
  {
    var n := |t.slots|;
    var p :| 0 <= p < n && IsOcc(t.slots[p]) && t.slots[p].key == key;
    var jp :| 0 <= jp < n && Probe(key, n, jp) == p && NoEmptyBefore(t.slots, key, jp);
    var i := InsertProbe(t, key);
    var q := Probe(key, n, i);
    if i < jp {
      assert t.slots[q].status != Empty && t.slots[q].status != Deleted;
    } else if i > jp {
      assert false;
    } else {
      assert q == p;
    }
  }

  /** Reachability survives any change that creates no new empty slot. */
  lemma ReachMono(s: seq<Slot>, s': seq<Slot>, key: int, p: nat)
    requires key >= 0 && |s| >= 4 && |s'| == |s|
    requires forall x :: 0 <= x < |s| && s'[x].status == Empty ==> s[x].status == Empty
    requires Reachable(s, key, p)
    ensures Reachable(s', key, p)
  {
    var j :| 0 <= j < |s| && Probe(key, |s|, j) == p && NoEmptyBefore(s, key, j);
    assert NoEmptyBefore(s', key, j);
  }

  // ---------------------------------------------------------------------
  // Slot updates

  /** Writing the key into insert's stopping slot keeps the table well formed. */
  lemma PlaceFacts(t: Table, key: int, data: int, j: nat)
    requires Valid(t) && key >= 0 && j == InsertProbe(t, key)
    ensures
      var p := Probe(key, |t.slots|, j);
      var s' := t.slots[p := Slot(key, data, Occupied)];
      && WellFormed(Table(s', if IsOcc(t.slots[p]) then t.count else t.count + 1))
      && OccKeys(s') == OccKeys(t.slots) + {key}
      && (NoDeleted(t.slots) ==> NoDeleted(s'))
      && (UniqueKeys(t.slots) && (NoDeleted(t.slots) || key !in OccKeys(t.slots)) ==>
            UniqueKeys(s') && View(s') == View(t.slots)[key := data])
  {
    var p := Probe(key, |t.slots|, j);
    var x := Slot(key, data, Occupied);
    PlaceWellFormed(t, key, data, j);
    PlaceKeys(t.slots, p, x);
    if UniqueKeys(t.slots) && (NoDeleted(t.slots) || key !in OccKeys(t.slots)) {
      if key in OccKeys(t.slots) {
        InsertFindsPresent(t, key);
      }
      PlaceView(t.slots, p, x);
    }
  }

  lemma PlaceWellFormed(t: Table, key: int, data: int, j: nat)
    requires Valid(t) && key >= 0 && j == InsertProbe(t, key)
    ensures
      var p := Probe(key, |t.slots|, j);
      var s' := t.slots[p := Slot(key, data, Occupied)];
      WellFormed(Table(s', if IsOcc(t.slots[p]) then t.count else t.count + 1))
  {
    var n := |t.slots|;
    var p := Probe(key, n, j);
    var x := Slot(key, data, Occupied);
    NumOccupiedUpdate(t.slots, p, x);
    assert NoEmptyBefore(t.slots, key, j);
    PlaceReach(t.slots, key, j, x);
  }

  /**
    Writing an occupied slot for key at probe step j, which no empty slot
    precedes, keeps every occupied slot reachable from its key's probe.
   */
  lemma PlaceReach(s: seq<Slot>, key: int, j: nat, x: Slot)
    requires key >= 0 && |s| >= 4 && j < |s| && NoEmptyBefore(s, key, j)
    requires IsOcc(x) && x.key == key
    requires forall q :: 0 <= q < |s| && IsOcc(s[q]) ==> s[q].key >= 0 && Reachable(s, s[q].key, q)
    ensures
      var s' := s[Probe(key, |s|, j) := x];
      forall q :: 0 <= q < |s'| && IsOcc(s'[q]) ==> s'[q].key >= 0 && Reachable(s', s'[q].key, q)
  {
    var p := Probe(key, |s|, j);
    var s' := s[p := x];
    assert NoEmptyBefore(s', key, j);
    forall q | 0 <= q < |s'| && IsOcc(s'[q]) ensures s'[q].key >= 0 && Reachable(s', s'[q].key, q) {
      if q != p {
        ReachMono(s, s', s'[q].key, q);
      }
    }
  }

  /** Writing an occupied slot for key at p, where p held nothing or that key, adds just that key. */
  lemma PlaceKeys(s: seq<Slot>, p: nat, x: Slot)
    requires p < |s| && IsOcc(x) && (!IsOcc(s[p]) || s[p].key == x.key)
    ensures OccKeys(s[p := x]) == OccKeys(s) + {x.key}
  {
    var s' := s[p := x];
    forall k ensures k in OccKeys(s') <==> k in OccKeys(s) + {x.key} {
      if k in OccKeys(s) {
        var i :| 0 <= i < |s| && IsOcc(s[i]) && s[i].key == k;
        if i != p { assert s'[i] == s[i]; }
      }
      if k in OccKeys(s') && k != x.key {
        var i :| 0 <= i < |s'| && IsOcc(s'[i]) && s'[i].key == k;
        assert i != p && s[i] == s'[i];
      }
      assert s'[p] == x;
    }
  }

  /**
    In a table with unique keys, writing key at p, where p held that key or
    the key was absent, keeps keys unique and updates the view at that key.
   */
  lemma PlaceView(s: seq<Slot>, p: nat, x: Slot)
    requires p < |s| && IsOcc(x) && UniqueKeys(s)
    requires if IsOcc(s[p]) then s[p].key == x.key else x.key !in OccKeys(s)
    ensures UniqueKeys(s[p := x])
    ensures View(s[p := x]) == View(s)[x.key := x.data]
  {
    var s' := s[p := x];
    forall i, j | 0 <= i < j < |s'| && IsOcc(s'[i]) && IsOcc(s'[j]) ensures s'[i].key != s'[j].key {
      if i == p {
        assert IsOcc(s[j]) && s[j] == s'[j];
      } else if j == p {
        assert IsOcc(s[i]) && s[i] == s'[i];
      } else {
        assert s'[i] == s[i] && s'[j] == s[j];
      }
    }
    PlaceKeys(s, p, x);
    PlaceMap(s, p, x);
  }

  lemma PlaceMap(s: seq<Slot>, p: nat, x: Slot)
    requires p < |s| && IsOcc(x) && UniqueKeys(s) && UniqueKeys(s[p := x])
    requires OccKeys(s[p := x]) == OccKeys(s) + {x.key}
    ensures View(s[p := x]) == View(s)[x.key := x.data]
  {
    var s' := s[p := x];
    ViewUnique(s');
    PlaceOthers(s, p, x);
    var m, m' := View(s), View(s');
    assert m'.Keys == m[x.key := x.data].Keys by { ViewUnique(s); }
    assert s'[p] == x;
  }

  lemma PlaceOthers(s: seq<Slot>, p: nat, x: Slot)
    requires p < |s| && IsOcc(x) && UniqueKeys(s) && UniqueKeys(s[p := x])
    ensures forall k :: k in View(s[p := x]) && k != x.key ==> k in View(s) && View(s[p := x])[k] == View(s)[k]
  {
    var s' := s[p := x];
    ViewUnique(s);
    ViewUnique(s');
    forall k | k in View(s') && k != x.key ensures k in View(s) && View(s')[k] == View(s)[k] {
      PlaceOtherKey(s, p, x, k);
    }
  }

  lemma PlaceOtherKey(s: seq<Slot>, p: nat, x: Slot, k: int)
    requires p < |s| && IsOcc(x) && k != x.key && k in OccKeys(s[p := x])
    ensures exists i :: 0 <= i < |s| && i != p && IsOcc(s[i]) && s[i].key == k && s[p := x][i] == s[i]
  {
    var i :| 0 <= i < |s[p := x]| && IsOcc(s[p := x][i]) && s[p := x][i].key == k;
    assert i != p;
  }

  /** Turning an occupied slot into a tombstone keeps the table well formed, with one fewer key slot. */
  lemma RemoveFacts(t: Table, p: nat)
    requires Valid(t) && p < |t.slots| && IsOcc(t.slots[p])
    ensures t.count >= 1
    ensures Valid(Table(t.slots[p := Slot(0, 0, Deleted)], t.count - 1))
  {
    var x := Slot(0, 0, Deleted);
    var s' := t.slots[p := x];
    NumOccupiedUpdate(t.slots, p, x);
    forall q | 0 <= q < |s'| && IsOcc(s'[q]) ensures s'[q].key >= 0 && Reachable(s', s'[q].key, q) {
      ReachMono(t.slots, s', s'[q].key, q);
    }
  }

  // ---------------------------------------------------------------------
  // The view

  /**
    Folding slots into a map keeps the keys of the starting map and adds
    the occupied keys; each key ends with the data of its last occupied
    slot, and untouched keys keep their starting data.
   */
  lemma {:induction false} ViewFromSpec(m: map<int, int>, s: seq<Slot>)
    ensures ViewFrom(m, s).Keys == m.Keys + OccKeys(s)
    ensures forall i :: 0 <= i < |s| && IsOcc(s[i]) && LastOfKey(s, i) ==> ViewFrom(m, s)[s[i].key] == s[i].data
    ensures forall k :: k in m && k !in OccKeys(s) ==> ViewFrom(m, s)[k] == m[k]
    decreases |s|
  {
    if s != [] {
      var m' := Add(m, s[0]);
      var rest := s[1..];
      ViewFromSpec(m', rest);
      var r := ViewFrom(m, s);
      assert r == ViewFrom(m', rest);
      forall i | 0 <= i < |s| && IsOcc(s[i]) && LastOfKey(s, i) ensures r[s[i].key] == s[i].data {
        if i > 0 {
          assert rest[i - 1] == s[i];
          assert LastOfKey(rest, i - 1) by {
            forall j | i - 1 < j < |rest| && IsOcc(rest[j]) ensures rest[j].key != rest[i - 1].key {
              assert rest[j] == s[j + 1];
            }
          }
        }
      }
    }
  }

  /** With unique keys the view maps each occupied key to the data of its slot. */
  lemma ViewUnique(s: seq<Slot>)
    requires UniqueKeys(s)
    ensures View(s).Keys == OccKeys(s)
    ensures forall i :: 0 <= i < |s| && IsOcc(s[i]) ==> View(s)[s[i].key] == s[i].data
  {
    ViewFromSpec(map[], s);
    forall i | 0 <= i < |s| && IsOcc(s[i]) ensures LastOfKey(s, i) {
    }
  }
}
