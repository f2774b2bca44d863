/**
 * The `records` collection and the import loop that upserts a batch of
 * normalised tickets into it by `id`.
 *
 * The collection is a sequence of documents in insertion order. Its lookup
 * and its replacement act on the first document with the id, as
 * `find_one` and `replace_one` (without the upsert option) do.
 */
module Store {
  import opened Wrappers
  import opened Tickets

  /** The ids of the records, position by position. */
  function Ids(s: seq<Ticket>): (ids: seq<int>)
    ensures |ids| == |s|
    ensures forall i :: 0 <= i < |s| ==> ids[i] == s[i].id
  {
    seq(|s|, i requires 0 <= i < |s| => s[i].id)
  }

  lemma IdsAppend(a: seq<Ticket>, b: seq<Ticket>)
    ensures Ids(a + b) == Ids(a) + Ids(b)
  {
  }

  lemma IdsSnoc(s: seq<Ticket>, t: Ticket)
    ensures Ids(s + [t]) == Ids(s) + [t.id]
  {
    IdsAppend(s, [t]);
    assert Ids([t]) == [t.id];
  }

  /** Position i holds the first occurrence of its id. */
  predicate IsFirst(ids: seq<int>, i: int) {
    0 <= i < |ids| && forall j :: 0 <= j < i ==> ids[j] != ids[i]
  }

  /** No two records share an id. */
  predicate UniqueIds(s: seq<Ticket>) {
    NoDuplicates(Ids(s))
  }

  predicate NoDuplicates(ids: seq<int>) {
    forall i, j :: 0 <= i < j < |ids| ==> ids[i] != ids[j]
  }

  function IdSet(ids: seq<int>): set<int> {
    set id | id in ids
  }

  /** The position of the first record with the given id. */
  function FirstIndex(s: seq<Ticket>, id: int): (i: nat)
    requires id in Ids(s)
    ensures i < |s| && s[i].id == id && IsFirst(Ids(s), i)
  {
    if s[0].id == id then 0
    else
      assert Ids(s[1..]) == Ids(s)[1..];
      1 + FirstIndex(s[1..], id)
  }

  /** The first occurrence of an id is where FirstIndex finds it. */
  lemma FirstIndexUnique(s: seq<Ticket>, i: int)
    requires IsFirst(Ids(s), i)
    ensures FirstIndex(s, s[i].id) == i
  {
    var k := FirstIndex(s, s[i].id);
    assert Ids(s)[k] == Ids(s)[i];
  }

  /** `find_one({"id": id})`: the first record with that id, or none. */
  function FindFirst(s: seq<Ticket>, id: int): (r: Option<Ticket>)
    ensures r.Some? <==> id in Ids(s)
    ensures r.Some? ==> exists i :: IsFirst(Ids(s), i) && s[i].id == id && s[i] == r.value
  {
    if id in Ids(s) then Some(s[FirstIndex(s, id)]) else None
  }

  /** `replace_one({"id": id}, t)`: the first record with that id becomes t; no match changes nothing. */
  function ReplaceFirst(s: seq<Ticket>, id: int, t: Ticket): (r: seq<Ticket>)
    ensures |r| == |s|
    ensures id in Ids(s) ==> r[FirstIndex(s, id)] == t
    ensures forall j :: 0 <= j < |s| && (id !in Ids(s) || j != FirstIndex(s, id)) ==> r[j] == s[j]
  {
    if id in Ids(s) then s[FirstIndex(s, id) := t] else s
  }

  /** One pass of the import loop: insert when the id is absent, then replace unconditionally. */
  function Upsert(s: seq<Ticket>, t: Ticket): seq<Ticket> {
    var inserted := if FindFirst(s, t.id).None? then s + [t] else s;
    ReplaceFirst(inserted, t.id, t)
  }

  /** The import loop over a whole batch, in the batch's order. */
  function Sync(s: seq<Ticket>, batch: seq<Ticket>): seq<Ticket>
    decreases |batch|
  {
    if batch == [] then s
    else Upsert(Sync(s, batch[..|batch| - 1]), batch[|batch| - 1])
  }

  /** The ids of the store after a batch: the old ones, then each new id at its first appearance. */
  function IdsAfter(known: seq<int>, batch: seq<Ticket>): seq<int>
    decreases |batch|
  {
    if batch == [] then known
    else
      var prior := IdsAfter(known, batch[..|batch| - 1]);
      var id := batch[|batch| - 1].id;
      if id in prior then prior else prior + [id]
  }

  /** The last row of the batch that carries the id. */
  function LastWith(batch: seq<Ticket>, id: int): (r: Ticket)
    requires id in Ids(batch)
    ensures r.id == id
    ensures exists k :: 0 <= k < |batch| && batch[k] == r && forall j :: k < j < |batch| ==> batch[j].id != id
    decreases |batch|
  {
    var init := batch[..|batch| - 1];
    assert Ids(batch) == Ids(init) + [batch[|batch| - 1].id];
    if batch[|batch| - 1].id == id then batch[|batch| - 1]
    else
      var r := LastWith(init, id);
      var k :| 0 <= k < |init| && init[k] == r && forall j :: k < j < |init| ==> init[j].id != id;
      assert batch[k] == r;
      r
  }

  // ---------------------------------------------------------------------
  // The shape of the store after one step and after a batch

  /** One iteration replaces the first record with the row's id, or appends the row when there is none. */
  lemma UpsertShape(s: seq<Ticket>, t: Ticket)
    ensures t.id in Ids(s) ==> Upsert(s, t) == s[FirstIndex(s, t.id) := t]
    ensures t.id !in Ids(s) ==> Upsert(s, t) == s + [t]
  {
    if t.id !in Ids(s) {
      var s1 := s + [t];
      IdsAppend(s, [t]);
      assert Ids(s1)[|s|] == t.id;
      assert IsFirst(Ids(s1), |s|);
      FirstIndexUnique(s1, |s|);
      assert s1[|s| := t] == s1;
    }
  }

  lemma IdsAfterStep(known: seq<int>, batch: seq<Ticket>, t: Ticket)
    ensures IdsAfter(known, batch + [t]) == if t.id in IdsAfter(known, batch) then IdsAfter(known, batch) else IdsAfter(known, batch) + [t.id]
  {
    assert (batch + [t])[..|batch + [t]| - 1] == batch;
  }

  lemma LastWithStep(batch: seq<Ticket>, t: Ticket, id: int)
    requires id in Ids(batch + [t])
    ensures t.id == id ==> LastWith(batch + [t], id) == t
    ensures t.id != id ==> id in Ids(batch) && LastWith(batch + [t], id) == LastWith(batch, id)
  {
    assert (batch + [t])[..|batch + [t]| - 1] == batch;
    IdsAppend(batch, [t]);
  }

  /** The first record of every id the batch carries is the batch's last row with that id. */
  predicate LatestFirst(r: seq<Ticket>, batch: seq<Ticket>) {
    forall i :: 0 <= i < |r| && IsFirst(Ids(r), i) && r[i].id in Ids(batch) ==> r[i] == LastWith(batch, r[i].id)
  }

  /** Every old position that is not such a first record still holds its old record. */
  predicate OthersKept(s: seq<Ticket>, r: seq<Ticket>, batch: seq<Ticket>) {
    |s| <= |r| && forall i :: 0 <= i < |s| && !(IsFirst(Ids(r), i) && r[i].id in Ids(batch)) ==> r[i] == s[i]
  }

  /** Appending an id leaves the first occurrences before it as they were; the new position is first iff the id is new. */
  lemma IsFirstSnoc(ids: seq<int>, x: int, i: int)
    requires 0 <= i <= |ids|
    ensures i < |ids| ==> (IsFirst(ids + [x], i) <==> IsFirst(ids, i))
    ensures i == |ids| ==> (IsFirst(ids + [x], i) <==> x !in ids)
  {
    assert forall j :: 0 <= j < |ids| ==> (ids + [x])[j] == ids[j];
    if i == |ids| && x in ids {
      var j :| 0 <= j < |ids| && ids[j] == x;
      assert (ids + [x])[j] == x;
    }
  }

  /** Replacing a record by one with the same id leaves the ids as they were. */
  lemma IdsSameId(s: seq<Ticket>, j: int, t: Ticket)
    requires 0 <= j < |s| && s[j].id == t.id
    ensures Ids(s[j := t]) == Ids(s)
  {
    assert forall i :: 0 <= i < |s| ==> Ids(s[j := t])[i] == Ids(s)[i];
  }

  /** Replacing a known id: the latest-write property at position i. */
  lemma ExistingLatestAt(init: seq<Ticket>, s': seq<Ticket>, t: Ticket, j: int, r: seq<Ticket>, i: int)
    requires LatestFirst(s', init) && t.id in Ids(s')
    requires j == FirstIndex(s', t.id) && r == s'[j := t] && Ids(r) == Ids(s')
    requires 0 <= i < |r| && IsFirst(Ids(r), i) && r[i].id in Ids(init + [t])
    ensures r[i] == LastWith(init + [t], r[i].id)
  {
    LastWithStep(init, t, r[i].id);
    if i != j && r[i].id == t.id {
      FirstIndexUnique(s', i);
    }
  }

  /** Replacing a known id: an old position that is not a latest write keeps its record. */
  lemma ExistingOthersAt(s: seq<Ticket>, init: seq<Ticket>, s': seq<Ticket>, t: Ticket, j: int, r: seq<Ticket>, i: int)
    requires OthersKept(s, s', init) && t.id in Ids(s')
    requires j == FirstIndex(s', t.id) && r == s'[j := t] && Ids(r) == Ids(s')
    requires 0 <= i < |s| && !(IsFirst(Ids(r), i) && r[i].id in Ids(init + [t]))
    ensures r[i] == s[i]
  {
    IdsSnoc(init, t);
    assert i != j;
  }

  lemma UpsertExisting(s: seq<Ticket>, init: seq<Ticket>, s': seq<Ticket>, t: Ticket)
    requires LatestFirst(s', init) && OthersKept(s, s', init)
    requires t.id in Ids(s')
    ensures Ids(Upsert(s', t)) == Ids(s')
    ensures LatestFirst(Upsert(s', t), init + [t]) && OthersKept(s, Upsert(s', t), init + [t])
  {
    UpsertShape(s', t);
    var j := FirstIndex(s', t.id);
    var r := s'[j := t];
    IdsSameId(s', j, t);
    var batch := init + [t];
    forall i | 0 <= i < |r| && IsFirst(Ids(r), i) && r[i].id in Ids(batch) ensures r[i] == LastWith(batch, r[i].id) {
      ExistingLatestAt(init, s', t, j, r, i);
    }
    forall i | 0 <= i < |s| && !(IsFirst(Ids(r), i) && r[i].id in Ids(batch)) ensures r[i] == s[i] {
      ExistingOthersAt(s, init, s', t, j, r, i);
    }
  }

  /** Appending a new id: the latest-write property at position i. */
  lemma NewLatestAt(init: seq<Ticket>, s': seq<Ticket>, t: Ticket, i: int)
    requires LatestFirst(s', init) && t.id !in Ids(s')
    requires 0 <= i < |s'| + 1 && IsFirst(Ids(s' + [t]), i) && (s' + [t])[i].id in Ids(init + [t])
    ensures (s' + [t])[i] == LastWith(init + [t], (s' + [t])[i].id)
  {
    IdsSnoc(s', t);
    LastWithStep(init, t, (s' + [t])[i].id);
    if i < |s'| {
      IsFirstSnoc(Ids(s'), t.id, i);
      var x := s'[i];
      assert (s' + [t])[i] == x;
      assert Ids(s')[i] == x.id && x.id in Ids(s');
      assert x.id != t.id && x.id in Ids(init);
      assert x == LastWith(init, x.id);
    }
  }

  /** Appending a new id: an old position that is not a latest write keeps its record. */
  lemma NewOthersAt(s: seq<Ticket>, init: seq<Ticket>, s': seq<Ticket>, t: Ticket, i: int)
    requires OthersKept(s, s', init) && t.id !in Ids(s')
    requires 0 <= i < |s| && !(IsFirst(Ids(s' + [t]), i) && (s' + [t])[i].id in Ids(init + [t]))
    ensures (s' + [t])[i] == s[i]
  {
    IdsSnoc(s', t);
    IdsSnoc(init, t);
    IsFirstSnoc(Ids(s'), t.id, i);
    assert (s' + [t])[i] == s'[i];
    assert Ids(s')[i] == s'[i].id;
  }

  lemma UpsertNew(s: seq<Ticket>, init: seq<Ticket>, s': seq<Ticket>, t: Ticket)
    requires LatestFirst(s', init) && OthersKept(s, s', init)
    requires t.id !in Ids(s')
    ensures Ids(Upsert(s', t)) == Ids(s') + [t.id]
    ensures LatestFirst(Upsert(s', t), init + [t]) && OthersKept(s, Upsert(s', t), init + [t])
  {
    UpsertShape(s', t);
    var r := s' + [t];
    IdsAppend(s', [t]);
    var batch := init + [t];
    forall i | 0 <= i < |r| && IsFirst(Ids(r), i) && r[i].id in Ids(batch) ensures r[i] == LastWith(batch, r[i].id) {
      NewLatestAt(init, s', t, i);
    }
    forall i | 0 <= i < |s| && !(IsFirst(Ids(r), i) && r[i].id in Ids(batch)) ensures r[i] == s[i] {
      NewOthersAt(s, init, s', t, i);
    }
  }

  /**
   * After a batch the store holds the old ids followed by each new id at its
   * first appearance in the batch; the first record of every id in the batch
   * is the batch's last row with that id, whole; every other old record is
   * as it was.
   */
  lemma {:induction false} SyncShape(s: seq<Ticket>, batch: seq<Ticket>)
    ensures Ids(Sync(s, batch)) == IdsAfter(Ids(s), batch)
    ensures LatestFirst(Sync(s, batch), batch)
    ensures OthersKept(s, Sync(s, batch), batch)
    decreases |batch|
  {
    if batch != [] {
      var init := batch[..|batch| - 1];
      var t := batch[|batch| - 1];
      assert batch == init + [t];
      SyncShape(s, init);
      var s' := Sync(s, init);
      IdsAfterStep(Ids(s), init, t);
      if t.id in Ids(s') {
        UpsertExisting(s, init, s', t);
      } else {
        UpsertNew(s, init, s', t);
      }
    }
  }

  // ---------------------------------------------------------------------
  // The ids after a batch

  /** The old ids stay in place at the front; what follows are batch ids that were not there. */
  lemma {:induction false} IdsAfterParts(known: seq<int>, batch: seq<Ticket>)
    ensures |known| <= |IdsAfter(known, batch)| && IdsAfter(known, batch)[..|known|] == known
    ensures forall i :: |known| <= i < |IdsAfter(known, batch)| ==>
              IdsAfter(known, batch)[i] in Ids(batch) && IdsAfter(known, batch)[i] !in known
    ensures forall x :: x in IdsAfter(known, batch) <==> x in known || x in Ids(batch)
    decreases |batch|
  {
    if batch != [] {
      var init := batch[..|batch| - 1];
      var t := batch[|batch| - 1];
      assert batch == init + [t];
      IdsAppend(init, [t]);
      IdsAfterParts(known, init);
      IdsAfterStep(known, init, t);
    }
  }

  /** A batch whose ids are all known adds none. */
  lemma {:induction false} IdsAfterKnown(known: seq<int>, batch: seq<Ticket>)
    requires forall x :: x in Ids(batch) ==> x in known
    ensures IdsAfter(known, batch) == known
    decreases |batch|
  {
    if batch != [] {
      var init := batch[..|batch| - 1];
      var t := batch[|batch| - 1];
      assert batch == init + [t];
      IdsAppend(init, [t]);
      IdsAfterKnown(known, init);
      IdsAfterStep(known, init, t);
    }
  }

  /** Distinct ids stay distinct. */
  lemma {:induction false} IdsAfterNoDuplicates(known: seq<int>, batch: seq<Ticket>)
    requires NoDuplicates(known)
    ensures NoDuplicates(IdsAfter(known, batch))
    decreases |batch|
  {
    if batch != [] {
      var init := batch[..|batch| - 1];
      var t := batch[|batch| - 1];
      assert batch == init + [t];
      IdsAfterNoDuplicates(known, init);
      IdsAfterStep(known, init, t);
    }
  }

  lemma IdSetSnoc(ids: seq<int>, x: int)
    ensures IdSet(ids + [x]) == IdSet(ids) + {x}
  {
  }

  /** The ids after a batch are the old ids and the batch's ids. */
  lemma {:induction false} IdsAfterMembers(known: seq<int>, batch: seq<Ticket>, x: int)
    ensures x in IdsAfter(known, batch) <==> x in known || x in Ids(batch)
    decreases |batch|
  {
    if batch != [] {
      var init := batch[..|batch| - 1];
      var t := batch[|batch| - 1];
      assert batch == init + [t];
      IdsSnoc(init, t);
      IdsAfterMembers(known, init, x);
      IdsAfterStep(known, init, t);
    }
  }

  /** One more id adds one new element to the unknown ids iff it is neither known nor seen. */
  lemma FreshStep(seen: set<int>, known: set<int>, x: int)
    ensures x in seen || x in known ==> (seen + {x}) - known == seen - known
    ensures x !in seen && x !in known ==> |(seen + {x}) - known| == |seen - known| + 1
  {
    if x !in seen && x !in known {
      assert (seen + {x}) - known == (seen - known) + {x};
    }
  }

  /** The ids grow by the number of batch ids that were not known. */
  lemma {:induction false} IdsAfterSize(known: seq<int>, batch: seq<Ticket>)
    ensures |IdsAfter(known, batch)| == |known| + |IdSet(Ids(batch)) - IdSet(known)|
    decreases |batch|
  {
    if batch == [] {
      assert IdSet(Ids(batch)) == {};
    } else {
      var init := batch[..|batch| - 1];
      var t := batch[|batch| - 1];
      assert batch == init + [t];
      IdsSnoc(init, t);
      IdsAfterSize(known, init);
      IdsAfterStep(known, init, t);
      IdsAfterMembers(known, init, t.id);
      IdSetSnoc(Ids(init), t.id);
      FreshStep(IdSet(Ids(init)), IdSet(known), t.id);
    }
  }

  // ---------------------------------------------------------------------
  // What the import loop guarantees

  /**
   * Last write wins: after a batch, looking up any id the batch carries
   * gives the batch's last row with that id, as a whole.
   */
  lemma SyncLastWriteWins(s: seq<Ticket>, batch: seq<Ticket>, id: int)
    requires id in Ids(batch)
    ensures FindFirst(Sync(s, batch), id) == Some(LastWith(batch, id))
  {
    var r := Sync(s, batch);
    SyncShape(s, batch);
    IdsAfterParts(Ids(s), batch);
    var i := FirstIndex(r, id);
    assert IsFirst(Ids(r), i) && r[i].id in Ids(batch);
  }

  /**
   * Records whose id the batch does not carry are left untouched, lookups
   * of such ids answer as before, and every record added has an id the
   * batch carries.
   */
  lemma SyncLeavesOtherIds(s: seq<Ticket>, batch: seq<Ticket>)
    ensures |s| <= |Sync(s, batch)|
    ensures forall i :: 0 <= i < |s| && s[i].id !in Ids(batch) ==> Sync(s, batch)[i] == s[i]
    ensures forall i :: |s| <= i < |Sync(s, batch)| ==> Sync(s, batch)[i].id in Ids(batch)
    ensures forall id :: id !in Ids(batch) ==> FindFirst(Sync(s, batch), id) == FindFirst(s, id)
  {
    var r := Sync(s, batch);
    SyncShape(s, batch);
    IdsAfterParts(Ids(s), batch);
    assert Ids(r)[..|s|] == Ids(s);
    forall i | 0 <= i < |s| && s[i].id !in Ids(batch) ensures r[i] == s[i] {
      assert Ids(r)[i] == Ids(s)[i];
    }
    forall i | |s| <= i < |r| ensures r[i].id in Ids(batch) {
      assert Ids(r)[i] == r[i].id;
    }
    forall id | id !in Ids(batch) ensures FindFirst(r, id) == FindFirst(s, id) {
      if id in Ids(s) {
        var k := FirstIndex(s, id);
        assert Ids(r)[k] == Ids(s)[k];
        assert IsFirst(Ids(r), k) by {
          forall j | 0 <= j < k ensures Ids(r)[j] != Ids(r)[k] {
            assert Ids(r)[j] == Ids(s)[j];
          }
        }
        FirstIndexUnique(r, k);
      }
    }
  }

  /**
   * The loop never creates a second record for an id: a store with distinct
   * ids keeps them distinct, grows by the number of batch ids it did not
   * hold, and afterwards holds, for each id of the batch, only that id's
   * last row.
   */
  lemma SyncKeepsIdsUnique(s: seq<Ticket>, batch: seq<Ticket>)
    requires UniqueIds(s)
    ensures UniqueIds(Sync(s, batch))
    ensures |Sync(s, batch)| == |s| + |IdSet(Ids(batch)) - IdSet(Ids(s))|
    ensures forall i :: 0 <= i < |Sync(s, batch)| && Sync(s, batch)[i].id in Ids(batch) ==>
              Sync(s, batch)[i] == LastWith(batch, Sync(s, batch)[i].id)
  {
    var r := Sync(s, batch);
    SyncShape(s, batch);
    assert NoDuplicates(Ids(s));
    IdsAfterNoDuplicates(Ids(s), batch);
    IdsAfterSize(Ids(s), batch);
    forall i, j | 0 <= i < j < |r| ensures r[i].id != r[j].id {
      assert Ids(r)[i] != Ids(r)[j];
    }
    forall i | 0 <= i < |r| && r[i].id in Ids(batch) ensures r[i] == LastWith(batch, r[i].id) {
      assert IsFirst(Ids(r), i);
    }
  }

  /** Importing the same batch twice leaves the store as importing it once. */
  lemma SyncIdempotent(s: seq<Ticket>, batch: seq<Ticket>)
    ensures Sync(Sync(s, batch), batch) == Sync(s, batch)
  {
    var r1 := Sync(s, batch);
    var r2 := Sync(r1, batch);
    SyncShape(s, batch);
    SyncShape(r1, batch);
    IdsAfterParts(Ids(s), batch);
    IdsAfterKnown(Ids(r1), batch);
    assert Ids(r2) == Ids(r1);
    forall i | 0 <= i < |r1| ensures r2[i] == r1[i] {
      if IsFirst(Ids(r1), i) && r1[i].id in Ids(batch) {
        assert Ids(r2)[i] == Ids(r1)[i];
      }
    }
  }

  /** Importing two batches one after the other is importing their concatenation. */
  lemma {:induction false} SyncAppend(s: seq<Ticket>, first: seq<Ticket>, second: seq<Ticket>)
    ensures Sync(s, first + second) == Sync(Sync(s, first), second)
    decreases |second|
  {
    if second == [] {
      assert first + second == first;
    } else {
      var init := second[..|second| - 1];
      assert (first + second)[..|first + second| - 1] == first + init;
      SyncAppend(s, first, init);
    }
  }

  /**
   * Importing a ticket and then another with the same id (in one batch, or
   * in two by SyncAppend) into a store with distinct ids: b is the only
   * record with that id, and the store holds one record more than before
   * only if the id was new.
   */
  lemma ReimportReplaces(s: seq<Ticket>, a: Ticket, b: Ticket)
    requires UniqueIds(s) && a.id == b.id
    ensures forall x :: x in Sync(s, [a, b]) && x.id == a.id ==> x == b
    ensures a.id in Ids(Sync(s, [a, b]))
    ensures |Sync(s, [a, b])| == if a.id in Ids(s) then |s| else |s| + 1
  {
    var batch := [a, b];
    PairFacts(a, b);
    SyncKeepsIdsUnique(s, batch);
    SyncLastWriteWins(s, batch, a.id);
    assert a.id in IdSet(Ids(s)) <==> a.id in Ids(s);
  }

  /** The ids and the latest row of a batch of two rows with one id. */
  lemma PairFacts(a: Ticket, b: Ticket)
    requires a.id == b.id
    ensures Ids([a, b]) == [a.id, b.id]
    ensures IdSet(Ids([a, b])) == {a.id}
    ensures LastWith([a, b], a.id) == b
  {
    assert Ids([a, b]) == [a.id, b.id];
    assert [a, b][..1] == [a];
  }

  // ---------------------------------------------------------------------
  // The collection object and the import loop

  /** `db["records"]`: the documents in insertion order. */
  class Collection {
    var records: seq<Ticket>

    constructor ()
      ensures records == []
    {
      records := [];
    }

    method FindOne(id: int) returns (r: Option<Ticket>)
      ensures r == FindFirst(records, id)
    {
      r := FindFirst(records, id);
    }

    method InsertOne(t: Ticket)
      modifies this
      ensures records == old(records) + [t]
    {
      records := records + [t];
    }

    method ReplaceOne(id: int, t: Ticket)
      modifies this
      ensures records == ReplaceFirst(old(records), id, t)
    {
      records := ReplaceFirst(records, id, t);
    }

    /** The upload handler's loop: look the row up, insert it when absent, then replace it. */
    method Import(batch: seq<Ticket>)
      modifies this
      ensures records == Sync(old(records), batch)
    {
      for i := 0 to |batch|
        invariant records == Sync(old(records), batch[..i])
      {
        var row := batch[i];
        var found := FindOne(row.id);
        if found.None? {
          InsertOne(row);
        }
        ReplaceOne(row.id, row);
        assert batch[..i + 1][..i] == batch[..i];
      }
      assert batch[..|batch|] == batch;
    }
  }
}
