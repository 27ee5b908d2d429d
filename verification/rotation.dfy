/**
  What `hash_entry_dealloc` does to the statistics table when the writer
  moves to a new bucket, stated on values.

  The scan removes the finished entries of the incoming bucket (every entry
  when the new id is negative) and takes a backup of each sticky entry of the
  previous bucket, removing it from the table. The backups are then put back
  under the new bucket id; a key that is already present keeps its entry.
  A backup whose `malloc` fails is dropped at the scan, one whose re-insertion
  finds no memory is dropped at the second pass; both are logged.
  The `int` bucket ids meet the `uint64` key field through C's conversion,
  which is `ToU64`.
 */
module Rotation {
  import opened Bytes
  import opened PgStatMonitor

  type Table = map<HashKey, Entry>

  const OUT_OF_MEMORY_MSG: string := "hash_entry_dealloc: out of memory"

  /** The key a backup is re-inserted under: the same key in the new bucket. */
  function Rekey(k: HashKey, bucket: int): (nk: HashKey)
    ensures nk.bucketId == ToU64(bucket)
    ensures nk.(bucketId := k.bucketId) == k
  {
    k.(bucketId := ToU64(bucket))
  }

  /** The first test of the scan: the entry is dropped. */
  predicate RemovedAtScan(k: HashKey, e: Entry, newBucket: int)
  {
    newBucket < 0 || (k.bucketId == ToU64(newBucket) && e.counters.state != Invalid)
  }

  /** The second test of the scan: the entry is a sticky one of the previous bucket. */
  predicate IsPending(k: HashKey, e: Entry, oldBucket: int, sticky: Counters -> bool)
  {
    k.bucketId == ToU64(oldBucket) && sticky(e.counters)
  }

  /** The table when the scan ends: neither removed nor moved away. */
  function Scanned(table: Table, newBucket: int, oldBucket: int, sticky: Counters -> bool): (s: Table)
    ensures s.Keys <= table.Keys
  {
    map k | k in table && !RemovedAtScan(k, table[k], newBucket) && !IsPending(k, table[k], oldBucket, sticky) :: table[k]
  }

  /** The pending list: a copy of every pending entry whose `malloc` succeeds, under its old key. */
  function Backups(table: Table, oldBucket: int, sticky: Counters -> bool, mallocFails: set<HashKey>): (b: Table)
    ensures b.Keys <= table.Keys
    ensures forall k :: k in b ==> k.bucketId == ToU64(oldBucket)
  {
    map k | k in table && IsPending(k, table[k], oldBucket, sticky) && k !in mallocFails :: table[k]
  }

  /** Pending entries whose backup could not be allocated. */
  function MallocLost(table: Table, oldBucket: int, sticky: Counters -> bool, mallocFails: set<HashKey>): set<HashKey>
  {
    set k | k in table && IsPending(k, table[k], oldBucket, sticky) && k in mallocFails
  }

  /** Backups whose re-insertion is attempted (the key is free) and finds no memory. */
  function EnterLost(scanned: Table, backups: Table, newBucket: int, enterFails: set<HashKey>): set<HashKey>
  {
    set k | k in backups && Rekey(k, newBucket) !in scanned && Rekey(k, newBucket) in enterFails
  }

  /** Backups that go back into the table under the new bucket id. */
  function Reinserted(scanned: Table, backups: Table, newBucket: int, enterFails: set<HashKey>): set<HashKey>
  {
    set k | k in backups && Rekey(k, newBucket) !in scanned && Rekey(k, newBucket) !in enterFails
  }

  /** The scanned table `s` once the backups `b`, all from one bucket, are put back under the new bucket id. */
  function Restored(s: Table, b: Table, oldBucket: int, newBucket: int, enterFails: set<HashKey>): Table
    requires forall k :: k in b ==> k.bucketId == ToU64(oldBucket)
  {
    s + map k | k in Reinserted(s, b, newBucket, enterFails) :: Rekey(k, newBucket) := b[k]
  }

  /** The table after `hash_entry_dealloc(newBucket, oldBucket, ...)`. */
  function Rotated(table: Table, newBucket: int, oldBucket: int, sticky: Counters -> bool,
                   mallocFails: set<HashKey>, enterFails: set<HashKey>): Table
  {
    var s := Scanned(table, newBucket, oldBucket, sticky);
    var b := Backups(table, oldBucket, sticky, mallocFails);
    Restored(s, b, oldBucket, newBucket, enterFails)
  }

  /** How many times "out of memory" is logged. */
  function Failures(table: Table, newBucket: int, oldBucket: int, sticky: Counters -> bool,
                    mallocFails: set<HashKey>, enterFails: set<HashKey>): nat
  {
    var s := Scanned(table, newBucket, oldBucket, sticky);
    var b := Backups(table, oldBucket, sticky, mallocFails);
    |MallocLost(table, oldBucket, sticky, mallocFails)| + |EnterLost(s, b, newBucket, enterFails)|
  }

  /** The query-id table: a reset (`-1`) drops the id of every entry it removes. */
  function RotatedQueryIds(queryIds: set<u64>, table: Table, newBucket: int): set<u64>
  {
    if newBucket == -1 then queryIds - set k | k in table :: k.queryId else queryIds
  }

  /** Distinct backups land on distinct keys, since they all come from the previous bucket. */
  lemma RekeyInjective(table: Table, oldBucket: int, sticky: Counters -> bool, mallocFails: set<HashKey>, newBucket: int, k1: HashKey, k2: HashKey)
    requires k1 in Backups(table, oldBucket, sticky, mallocFails) && k2 in Backups(table, oldBucket, sticky, mallocFails)
    requires Rekey(k1, newBucket) == Rekey(k2, newBucket)
    ensures k1 == k2
  {
    assert k1 == Rekey(k1, newBucket).(bucketId := k1.bucketId);
  }

  /**
    Membership and contents of a restored table, key by key: an entry of
    the scanned table stays as it is; otherwise the key holds a backup that
    was re-inserted under it.
   */
  lemma RestoredAt(s: Table, b: Table, oldBucket: int, newBucket: int, enterFails: set<HashKey>, nk: HashKey)
    requires forall k :: k in b ==> k.bucketId == ToU64(oldBucket)
    ensures var r := Restored(s, b, oldBucket, newBucket, enterFails);
      var origin := nk.(bucketId := ToU64(oldBucket));
      (nk in r <==> nk in s || (nk.bucketId == ToU64(newBucket) && origin in Reinserted(s, b, newBucket, enterFails))) &&
      (nk in s ==> r[nk] == s[nk]) &&
      (nk !in s && nk in r ==> r[nk] == b[origin])
  {
    var r := Restored(s, b, oldBucket, newBucket, enterFails);
    var origin := nk.(bucketId := ToU64(oldBucket));
    if nk !in s && nk in r {
      var k :| k in Reinserted(s, b, newBucket, enterFails) && Rekey(k, newBucket) == nk;
      assert k == origin;
    }
    if nk.bucketId == ToU64(newBucket) && origin in Reinserted(s, b, newBucket, enterFails) {
      assert Rekey(origin, newBucket) == nk;
    }
  }

  /** `RestoredAt` for the rotated table. */
  lemma RotatedAt(table: Table, newBucket: int, oldBucket: int, sticky: Counters -> bool,
                  mallocFails: set<HashKey>, enterFails: set<HashKey>, nk: HashKey)
    ensures var s := Scanned(table, newBucket, oldBucket, sticky);
      var b := Backups(table, oldBucket, sticky, mallocFails);
      var r := Rotated(table, newBucket, oldBucket, sticky, mallocFails, enterFails);
      var origin := nk.(bucketId := ToU64(oldBucket));
      (nk in r <==> nk in s || (nk.bucketId == ToU64(newBucket) && origin in Reinserted(s, b, newBucket, enterFails))) &&
      (nk in s ==> r[nk] == s[nk]) &&
      (nk !in s && nk in r ==> r[nk] == b[origin])
  {
    RestoredAt(Scanned(table, newBucket, oldBucket, sticky), Backups(table, oldBucket, sticky, mallocFails),
               oldBucket, newBucket, enterFails, nk);
  }

  /** Entries of the incoming bucket that have finished (state not invalid) are dropped, or replaced by a backup. */
  lemma FinishedEntriesRemoved(table: Table, newBucket: int, oldBucket: int, sticky: Counters -> bool,
                               mallocFails: set<HashKey>, enterFails: set<HashKey>, k: HashKey)
    requires k in table && RemovedAtScan(k, table[k], newBucket)
    ensures var r := Rotated(table, newBucket, oldBucket, sticky, mallocFails, enterFails);
      k in r ==> k.bucketId == ToU64(newBucket) && r[k] == table[k.(bucketId := ToU64(oldBucket))]
  {
    RotatedAt(table, newBucket, oldBucket, sticky, mallocFails, enterFails, k);
  }

  /**
    A sticky entry of the previous bucket whose backup was allocated ends up
    under the new bucket id with its counters, encoding and query position,
    unless an entry already sits under that key (the existing entry is kept)
    or its re-insertion fails.
   */
  lemma StickyEntriesCarriedOver(table: Table, newBucket: int, oldBucket: int, sticky: Counters -> bool,
                                 mallocFails: set<HashKey>, enterFails: set<HashKey>, k: HashKey)
    requires k in table && IsPending(k, table[k], oldBucket, sticky) && k !in mallocFails
    ensures var s := Scanned(table, newBucket, oldBucket, sticky);
      var r := Rotated(table, newBucket, oldBucket, sticky, mallocFails, enterFails);
      var nk := Rekey(k, newBucket);
      (nk in s ==> nk in r && r[nk] == table[nk]) &&
      (nk !in s && nk !in enterFails ==> nk in r && r[nk] == table[k]) &&
      (nk !in s && nk in enterFails ==> nk !in r)
  {
    var nk := Rekey(k, newBucket);
    assert nk.(bucketId := ToU64(oldBucket)) == k;
    RotatedAt(table, newBucket, oldBucket, sticky, mallocFails, enterFails, nk);
  }

  /** Entries of any other bucket are left exactly as they were, and nothing else appears there. */
  lemma OtherBucketsUntouched(table: Table, newBucket: int, oldBucket: int, sticky: Counters -> bool,
                              mallocFails: set<HashKey>, enterFails: set<HashKey>, k: HashKey)
    requires newBucket >= 0 && k.bucketId != ToU64(newBucket) && k.bucketId != ToU64(oldBucket)
    ensures var r := Rotated(table, newBucket, oldBucket, sticky, mallocFails, enterFails);
      (k in r <==> k in table) && (k in r ==> r[k] == table[k])
  {
    RotatedAt(table, newBucket, oldBucket, sticky, mallocFails, enterFails, k);
  }

  /** A negative new id removes every entry, unless a sticky entry sits in the previous bucket. */
  lemma NegativeBucketEmptiesTable(table: Table, newBucket: int, oldBucket: int, sticky: Counters -> bool,
                                   mallocFails: set<HashKey>, enterFails: set<HashKey>)
    requires newBucket < 0
    requires forall k :: k in table && k.bucketId == ToU64(oldBucket) ==> !sticky(table[k].counters)
    ensures Rotated(table, newBucket, oldBucket, sticky, mallocFails, enterFails) == map[]
  {
    var s := Scanned(table, newBucket, oldBucket, sticky);
    var b := Backups(table, oldBucket, sticky, mallocFails);
    assert s == map[];
    assert b == map[];
    assert Reinserted(s, b, newBucket, enterFails) == {};
  }

  /** A reset removes the query id of every entry from the query-id table, and keeps the others. */
  lemma ResetForgetsQueryIds(queryIds: set<u64>, table: Table, id: u64)
    ensures id in RotatedQueryIds(queryIds, table, -1) <==> id in queryIds && forall k :: k in table ==> k.queryId != id
  {
    if id in queryIds && id !in RotatedQueryIds(queryIds, table, -1) {
      var k :| k in table && k.queryId == id;
    }
  }

  /** Every failure is counted: nothing is lost silently. */
  lemma LostBackupsAreLogged(table: Table, newBucket: int, oldBucket: int, sticky: Counters -> bool,
                             mallocFails: set<HashKey>, enterFails: set<HashKey>, k: HashKey)
    requires k in table && IsPending(k, table[k], oldBucket, sticky)
    requires Rekey(k, newBucket) !in Rotated(table, newBucket, oldBucket, sticky, mallocFails, enterFails)
    ensures Failures(table, newBucket, oldBucket, sticky, mallocFails, enterFails) >= 1
  {
    var s := Scanned(table, newBucket, oldBucket, sticky);
    var b := Backups(table, oldBucket, sticky, mallocFails);
    if k in mallocFails {
      assert k in MallocLost(table, oldBucket, sticky, mallocFails);
    } else {
      StickyEntriesCarriedOver(table, newBucket, oldBucket, sticky, mallocFails, enterFails, k);
      assert k in EnterLost(s, b, newBucket, enterFails);
    }
  }
}
