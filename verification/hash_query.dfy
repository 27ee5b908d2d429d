/**
  The statistics table of hash_query.c and the shared state that goes with
  it: the table itself, the query-id table, the query-text buffer, the
  median usage, the overflow flags, the per-bucket entry counts and the
  error log. Every method assumes the exclusive lock is held.
 */
module HashQuery {
  import opened Wrappers
  import opened Bytes
  import opened PgStatMonitor
  import opened QueryBuffer
  import opened Rotation
  import opened PgsmErrors

  /**
    The record walk of `entry_dealloc` over a buffer whose used part holds
    `records`: from offset 8, while the position is below the header word
    and fewer than `numEntries` records were taken.
   */
  method WalkRecords(buf: seq<byte>, numEntries: nat, ghost records: seq<Record>) returns (walked: seq<Record>)
    requires Fits(records) && UsedLength(records) <= |buf| && buf[..UsedLength(records)] == Serialize(records)
    ensures walked == records[..Min(numEntries, |records|)]
    ensures ParseBuffer(buf, numEntries) == Some(walked)
  {
    ghost var rest := buf[UsedLength(records)..];
    assert buf == Serialize(records) + rest;
    UsedLengthInHeader(records, rest);
    ParseSerialize(records, rest, numEntries);
    var qbufLen: int := ReadU64(buf, 0);
    var qbufPos := HEADER_SIZE;
    walked := [];
    while qbufPos < qbufLen && |walked| < numEntries
      invariant |walked| <= |records| && |walked| <= numEntries
      invariant walked == records[..|walked|] && qbufPos == Offset(records, |walked|)
      decreases qbufLen - qbufPos
    {
      WalkStep(records, rest, |walked|);
      // Query id, usage and length words, then the text.
      var r := ReadRecord(buf, qbufPos);
      walked := walked + [r];
      qbufPos := qbufPos + RECORD_HEADER_SIZE + |r.text|;
    }
    OffsetBeforeEnd(records, |walked|);
  }

  /**
    The copy loop of `entry_dealloc`: the records from `nvictims` on, laid
    out back to back after the header word, and each query id's first
    position among them.
   */
  method CompactRecords(sorted: seq<Record>, nvictims: nat) returns (tmp: seq<byte>, keep: map<u64, nat>)
    requires nvictims <= |sorted|
    ensures tmp == Body(sorted[nvictims..]) && keep == FirstOffsets(sorted[nvictims..])
  {
    tmp := [];
    keep := map[];
    var qbufPos := HEADER_SIZE;
    var i := nvictims;
    while i < |sorted|
      invariant nvictims <= i <= |sorted|
      invariant tmp == Body(sorted[nvictims..i]) && qbufPos == HEADER_SIZE + |tmp|
      invariant keep == FirstOffsets(sorted[nvictims..i])
    {
      var r := sorted[i];
      ghost var next := sorted[nvictims..i + 1];
      assert next[..|next| - 1] == sorted[nvictims..i] && next[|next| - 1] == r;
      assert Offset(next, |next| - 1) == qbufPos;
      if r.queryId !in keep {
        keep := keep[r.queryId := qbufPos];
      }
      tmp := tmp + EncodeLE(r.queryId, 8) + EncodeLE(r.usage, 8) + EncodeLE(|r.text|, 8);
      qbufPos := qbufPos + 24;
      tmp := tmp + r.text;
      qbufPos := qbufPos + |r.text|;
      i := i + 1;
    }
    assert sorted[nvictims..i] == sorted[nvictims..];
  }

  /**
    The last scan of `entry_dealloc`: an entry whose query id was kept gets
    that id's new position; any other entry is removed.
   */
  method EvictTable(table: map<HashKey, Entry>, keep: map<u64, nat>) returns (t: map<HashKey, Entry>)
    ensures t == Evict(table, keep)
  {
    t := map[];
    var todo := table.Keys;
    while todo != {}
      invariant todo <= table.Keys
      invariant forall k :: k in t <==> k in table && k !in todo && k.queryId in keep
      invariant forall k :: k in t ==> t[k] == table[k].(queryPos := keep[k.queryId])
      decreases |todo|
    {
      var k :| k in todo;
      if k.queryId in keep {
        t := t[k := table[k].(queryPos := keep[k.queryId])];
      }
      todo := todo - {k};
    }
  }

  /** The table after the scan has visited every key outside `todo`. */
  ghost function ScanKept(table: Table, todo: set<HashKey>, newBucket: int, oldBucket: int, sticky: Counters -> bool): Table
  {
    map k | k in table && (k in todo || (!RemovedAtScan(k, table[k], newBucket) && !IsPending(k, table[k], oldBucket, sticky))) :: table[k]
  }

  /** The backups taken so far. */
  ghost function BackupsTaken(table: Table, todo: set<HashKey>, oldBucket: int, sticky: Counters -> bool, mallocFails: set<HashKey>): Table
  {
    map k | k in table && k !in todo && IsPending(k, table[k], oldBucket, sticky) && k !in mallocFails :: table[k]
  }

  /** The backups lost so far to a failed `malloc`. */
  ghost function LostSoFar(table: Table, todo: set<HashKey>, oldBucket: int, sticky: Counters -> bool, mallocFails: set<HashKey>): set<HashKey>
  {
    set k | k in table && k !in todo && IsPending(k, table[k], oldBucket, sticky) && k in mallocFails
  }

  /** The query-id table after the keys outside `todo` were visited. */
  ghost function QueryIdsSoFar(queryIds: set<u64>, table: Table, todo: set<HashKey>, newBucket: int): set<u64>
  {
    if newBucket == -1 then queryIds - set k | k in table && k !in todo :: k.queryId else queryIds
  }

  /** One step of the scan: visiting `k` changes the four results only at `k`. */
  lemma ScanStep(table: Table, queryIds: set<u64>, todo: set<HashKey>, k: HashKey, newBucket: int, oldBucket: int,
                 sticky: Counters -> bool, mallocFails: set<HashKey>)
    requires k in todo && todo <= table.Keys
    ensures var removed := RemovedAtScan(k, table[k], newBucket);
      var pending := IsPending(k, table[k], oldBucket, sticky);
      ScanKept(table, todo - {k}, newBucket, oldBucket, sticky) ==
        (if removed || pending then ScanKept(table, todo, newBucket, oldBucket, sticky) - {k}
         else ScanKept(table, todo, newBucket, oldBucket, sticky))
    ensures BackupsTaken(table, todo - {k}, oldBucket, sticky, mallocFails) ==
      (if IsPending(k, table[k], oldBucket, sticky) && k !in mallocFails
       then BackupsTaken(table, todo, oldBucket, sticky, mallocFails)[k := table[k]]
       else BackupsTaken(table, todo, oldBucket, sticky, mallocFails))
    ensures k !in LostSoFar(table, todo, oldBucket, sticky, mallocFails)
    ensures LostSoFar(table, todo - {k}, oldBucket, sticky, mallocFails) ==
      (if IsPending(k, table[k], oldBucket, sticky) && k in mallocFails
       then LostSoFar(table, todo, oldBucket, sticky, mallocFails) + {k}
       else LostSoFar(table, todo, oldBucket, sticky, mallocFails))
    ensures QueryIdsSoFar(queryIds, table, todo - {k}, newBucket) ==
      (if newBucket == -1 then QueryIdsSoFar(queryIds, table, todo, newBucket) - {k.queryId}
       else QueryIdsSoFar(queryIds, table, todo, newBucket))
  {
    if newBucket == -1 {
      assert (set x | x in table && x !in todo - {k} :: x.queryId) ==
        (set x | x in table && x !in todo :: x.queryId) + {k.queryId};
    }
  }

  /** Once every key was visited, the four results are those of the Rotation module. */
  lemma ScanFinished(table: Table, queryIds: set<u64>, newBucket: int, oldBucket: int,
                     sticky: Counters -> bool, mallocFails: set<HashKey>)
    ensures ScanKept(table, {}, newBucket, oldBucket, sticky) == Scanned(table, newBucket, oldBucket, sticky)
    ensures BackupsTaken(table, {}, oldBucket, sticky, mallocFails) == Backups(table, oldBucket, sticky, mallocFails)
    ensures LostSoFar(table, {}, oldBucket, sticky, mallocFails) == MallocLost(table, oldBucket, sticky, mallocFails)
    ensures QueryIdsSoFar(queryIds, table, {}, newBucket) == RotatedQueryIds(queryIds, table, newBucket)
  {
    assert (set x | x in table && x !in {} :: x.queryId) == (set x | x in table :: x.queryId);
  }

  /** Before the scan, nothing was visited. */
  lemma ScanStart(table: Table, queryIds: set<u64>, newBucket: int, oldBucket: int,
                  sticky: Counters -> bool, mallocFails: set<HashKey>)
    ensures ScanKept(table, table.Keys, newBucket, oldBucket, sticky) == table
    ensures BackupsTaken(table, table.Keys, oldBucket, sticky, mallocFails) == map[]
    ensures LostSoFar(table, table.Keys, oldBucket, sticky, mallocFails) == {}
    ensures QueryIdsSoFar(queryIds, table, table.Keys, newBucket) == queryIds
  {
    assert (set x | x in table && x !in table.Keys :: x.queryId) == {};
  }

  /**
    The scan of `hash_entry_dealloc`: drop the finished entries of the new
    bucket (every entry for a negative id, and with a reset its query id
    too), and take each sticky entry of the previous bucket out of the table,
    keeping a backup unless its allocation fails. Returns the table, the
    backups, the query-id table and how many backups could not be allocated.
   */
  method ScanTable(table: Table, queryIds: set<u64>, newBucket: int, oldBucket: int,
                   sticky: Counters -> bool, mallocFails: set<HashKey>)
    returns (t: Table, backups: Table, qids: set<u64>, lost: nat)
    ensures t == Scanned(table, newBucket, oldBucket, sticky)
    ensures backups == Backups(table, oldBucket, sticky, mallocFails)
    ensures qids == RotatedQueryIds(queryIds, table, newBucket)
    ensures lost == |MallocLost(table, oldBucket, sticky, mallocFails)|
  {
    t := table;
    backups := map[];
    qids := queryIds;
    lost := 0;
    var todo := table.Keys;
    ScanStart(table, queryIds, newBucket, oldBucket, sticky, mallocFails);
    while todo != {}
      invariant todo <= table.Keys
      invariant t == ScanKept(table, todo, newBucket, oldBucket, sticky)
      invariant backups == BackupsTaken(table, todo, oldBucket, sticky, mallocFails)
      invariant qids == QueryIdsSoFar(queryIds, table, todo, newBucket)
      invariant lost == |LostSoFar(table, todo, oldBucket, sticky, mallocFails)|
      decreases |todo|
    {
      var k :| k in todo;
      ScanStep(table, queryIds, todo, k, newBucket, oldBucket, sticky, mallocFails);
      var e := table[k];
      if newBucket < 0 || (k.bucketId == ToU64(newBucket) && e.counters.state != Invalid) {
        if newBucket == -1 {
          qids := qids - {k.queryId};
        }
        t := t - {k};
      }
      if k.bucketId == ToU64(oldBucket) && sticky(e.counters) {
        if k in mallocFails {
          // Logged by the caller: "out of memory".
          lost := lost + 1;
        } else {
          backups := backups[k := e];
        }
        t := t - {k};
      }
      todo := todo - {k};
    }
    ScanFinished(table, queryIds, newBucket, oldBucket, sticky, mallocFails);
  }

  /** The backups outside `pending` that went back into the table. */
  ghost function ReinsertedSoFar(s: Table, b: Table, pending: set<HashKey>, newBucket: int, enterFails: set<HashKey>): set<HashKey>
  {
    set k | k in b && k !in pending && Rekey(k, newBucket) !in s && Rekey(k, newBucket) !in enterFails
  }

  /** The backups outside `pending` lost to a failed `HASH_ENTER_NULL`. */
  ghost function EnterLostSoFar(s: Table, b: Table, pending: set<HashKey>, newBucket: int, enterFails: set<HashKey>): set<HashKey>
  {
    set k | k in b && k !in pending && Rekey(k, newBucket) !in s && Rekey(k, newBucket) in enterFails
  }

  /** The table once the backups outside `pending` were handled. */
  ghost function RestoredSoFar(s: Table, b: Table, pending: set<HashKey>, oldBucket: int, newBucket: int, enterFails: set<HashKey>): Table
    requires forall k :: k in b ==> k.bucketId == ToU64(oldBucket)
  {
    s + Moved(b, ReinsertedSoFar(s, b, pending, newBucket, enterFails), oldBucket, newBucket)
  }

  /** The backups `r`, all from one bucket, under the new bucket id. */
  ghost function Moved(b: Table, r: set<HashKey>, oldBucket: int, newBucket: int): Table
    requires forall k :: k in b ==> k.bucketId == ToU64(oldBucket)
    requires r <= b.Keys
  {
    map k | k in r :: Rekey(k, newBucket) := b[k]
  }

  /** Moving one more backup adds its entry under its new key, which no other moved backup has. */
  lemma MovedAdd(b: Table, r: set<HashKey>, k: HashKey, oldBucket: int, newBucket: int)
    requires forall x :: x in b ==> x.bucketId == ToU64(oldBucket)
    requires r <= b.Keys && k in b && k !in r
    ensures Rekey(k, newBucket) !in Moved(b, r, oldBucket, newBucket)
    ensures Moved(b, r + {k}, oldBucket, newBucket) == Moved(b, r, oldBucket, newBucket)[Rekey(k, newBucket) := b[k]]
  {
    var nk := Rekey(k, newBucket);
    forall x | x in r
      ensures Rekey(x, newBucket) != nk
    {
      assert Rekey(x, newBucket).(bucketId := ToU64(oldBucket)) == x;
    }
  }

  /** The new key of a pending backup is taken exactly when it was taken before the scan ended. */
  lemma ReinsertTaken(s: Table, b: Table, pending: set<HashKey>, k: HashKey, oldBucket: int, newBucket: int, enterFails: set<HashKey>)
    requires forall x :: x in b ==> x.bucketId == ToU64(oldBucket)
    requires k in pending && pending <= b.Keys
    ensures Rekey(k, newBucket) in RestoredSoFar(s, b, pending, oldBucket, newBucket, enterFails) <==> Rekey(k, newBucket) in s
  {
    MovedAdd(b, ReinsertedSoFar(s, b, pending, newBucket, enterFails), k, oldBucket, newBucket);
  }

  /** One step of the re-insertion: a pending backup goes back exactly when its new key is free and its allocation succeeds. */
  lemma ReinsertedStep(s: Table, b: Table, pending: set<HashKey>, k: HashKey, newBucket: int, enterFails: set<HashKey>)
    requires k in pending && pending <= b.Keys
    ensures k !in ReinsertedSoFar(s, b, pending, newBucket, enterFails)
    ensures ReinsertedSoFar(s, b, pending - {k}, newBucket, enterFails) ==
      (if Rekey(k, newBucket) in s || Rekey(k, newBucket) in enterFails
       then ReinsertedSoFar(s, b, pending, newBucket, enterFails)
       else ReinsertedSoFar(s, b, pending, newBucket, enterFails) + {k})
  {
  }

  /** One step of the re-insertion: handling a pending backup changes the table only at its new key. */
  lemma ReinsertStep(s: Table, b: Table, pending: set<HashKey>, k: HashKey, oldBucket: int, newBucket: int, enterFails: set<HashKey>)
    requires forall x :: x in b ==> x.bucketId == ToU64(oldBucket)
    requires k in pending && pending <= b.Keys
    ensures RestoredSoFar(s, b, pending - {k}, oldBucket, newBucket, enterFails) ==
      (if Rekey(k, newBucket) in s || Rekey(k, newBucket) in enterFails
       then RestoredSoFar(s, b, pending, oldBucket, newBucket, enterFails)
       else RestoredSoFar(s, b, pending, oldBucket, newBucket, enterFails)[Rekey(k, newBucket) := b[k]])
  {
    var nk := Rekey(k, newBucket);
    var r0 := ReinsertedSoFar(s, b, pending, newBucket, enterFails);
    ReinsertedStep(s, b, pending, k, newBucket, enterFails);
    if nk !in s && nk !in enterFails {
      MovedAdd(b, r0, k, oldBucket, newBucket);
      UnionUpdate(s, Moved(b, r0, oldBucket, newBucket), nk, b[k]);
    }
  }

  /** Updating the right operand of a map union updates the union. */
  lemma UnionUpdate(s: Table, m: Table, x: HashKey, v: Entry)
    ensures s + m[x := v] == (s + m)[x := v]
  {
    assert (s + m[x := v]).Keys == (s + m)[x := v].Keys;
  }

  /** One step of the re-insertion: a pending backup is lost only when its free new key hits a failed allocation. */
  lemma EnterLostStep(s: Table, b: Table, pending: set<HashKey>, k: HashKey, newBucket: int, enterFails: set<HashKey>)
    requires k in pending && pending <= b.Keys
    ensures k !in EnterLostSoFar(s, b, pending, newBucket, enterFails)
    ensures var nk := Rekey(k, newBucket);
      EnterLostSoFar(s, b, pending - {k}, newBucket, enterFails) ==
        (if nk !in s && nk in enterFails then EnterLostSoFar(s, b, pending, newBucket, enterFails) + {k}
         else EnterLostSoFar(s, b, pending, newBucket, enterFails))
  {
  }

  /** Before the re-insertion, the table is the scanned one and nothing was lost. */
  lemma ReinsertStart(s: Table, b: Table, oldBucket: int, newBucket: int, enterFails: set<HashKey>)
    requires forall x :: x in b ==> x.bucketId == ToU64(oldBucket)
    ensures RestoredSoFar(s, b, b.Keys, oldBucket, newBucket, enterFails) == s
    ensures EnterLostSoFar(s, b, b.Keys, newBucket, enterFails) == {}
  {
    assert ReinsertedSoFar(s, b, b.Keys, newBucket, enterFails) == {};
  }

  /** Once every backup was handled, the table and the losses are those of the Rotation module. */
  lemma ReinsertFinished(s: Table, b: Table, oldBucket: int, newBucket: int, enterFails: set<HashKey>)
    requires forall x :: x in b ==> x.bucketId == ToU64(oldBucket)
    ensures RestoredSoFar(s, b, {}, oldBucket, newBucket, enterFails) == Restored(s, b, oldBucket, newBucket, enterFails)
    ensures EnterLostSoFar(s, b, {}, newBucket, enterFails) == EnterLost(s, b, newBucket, enterFails)
  {
    assert ReinsertedSoFar(s, b, {}, newBucket, enterFails) == Reinserted(s, b, newBucket, enterFails);
  }

  /**
    One turn of the re-insertion loop: the backup of `k` goes back under
    the new bucket id unless that key is taken; a failed `HASH_ENTER_NULL`
    counts as lost.
   */
  method ReinsertOne(s: Table, backups: Table, pending: set<HashKey>, k: HashKey, oldBucket: int, newBucket: int,
                     enterFails: set<HashKey>, t0: Table, lost0: nat)
    returns (t: Table, lost: nat)
    requires forall x :: x in backups ==> x.bucketId == ToU64(oldBucket)
    requires k in pending && pending <= backups.Keys
    requires t0 == RestoredSoFar(s, backups, pending, oldBucket, newBucket, enterFails)
    requires lost0 == |EnterLostSoFar(s, backups, pending, newBucket, enterFails)|
    ensures t == RestoredSoFar(s, backups, pending - {k}, oldBucket, newBucket, enterFails)
    ensures lost == |EnterLostSoFar(s, backups, pending - {k}, newBucket, enterFails)|
  {
    ReinsertTaken(s, backups, pending, k, oldBucket, newBucket, enterFails);
    ReinsertStep(s, backups, pending, k, oldBucket, newBucket, enterFails);
    EnterLostStep(s, backups, pending, k, newBucket, enterFails);
    t, lost := t0, lost0;
    var nk := Rekey(k, newBucket);
    if nk in t {
      // The key is taken: the entry already there stays.
    } else if nk in enterFails {
      // Logged by the caller: "out of memory".
      lost := lost + 1;
    } else {
      t := t[nk := backups[k]];
    }
  }

  /**
    The second pass of `hash_entry_dealloc`: put each backup back under the
    new bucket id. A key already present keeps its entry; a failed
    `HASH_ENTER_NULL` loses the backup. Returns the table and how many
    backups were lost.
   */
  method Reinsert(s: Table, backups: Table, oldBucket: int, newBucket: int, enterFails: set<HashKey>)
    returns (t: Table, lost: nat)
    requires forall k :: k in backups ==> k.bucketId == ToU64(oldBucket)
    ensures t == Restored(s, backups, oldBucket, newBucket, enterFails)
    ensures lost == |EnterLost(s, backups, newBucket, enterFails)|
  {
    t := s;
    lost := 0;
    var pending := backups.Keys;
    ReinsertStart(s, backups, oldBucket, newBucket, enterFails);
    while pending != {}
      invariant pending <= backups.Keys
      invariant t == RestoredSoFar(s, backups, pending, oldBucket, newBucket, enterFails)
      invariant lost == |EnterLostSoFar(s, backups, pending, newBucket, enterFails)|
      decreases |pending|
    {
      var k :| k in pending;
      t, lost := ReinsertOne(s, backups, pending, k, oldBucket, newBucket, enterFails, t, lost);
      pending := pending - {k};
    }
    ReinsertFinished(s, backups, oldBucket, newBucket, enterFails);
  }

  /**
    The table work of `hash_entry_dealloc`: the scan, then the re-insertion
    of the pending list. Returns the new table and query-id set and the
    number of failed allocations.
   */
  method RotateTable(table: Table, queryIds: set<u64>, newBucket: int, oldBucket: int, sticky: Counters -> bool,
                     mallocFails: set<HashKey>, enterFails: set<HashKey>)
    returns (t: Table, qids: set<u64>, failures: nat)
    ensures t == Rotated(table, newBucket, oldBucket, sticky, mallocFails, enterFails)
    ensures qids == RotatedQueryIds(queryIds, table, newBucket)
    ensures failures == Failures(table, newBucket, oldBucket, sticky, mallocFails, enterFails)
  {
    var scanned, backups, mallocLost;
    scanned, backups, qids, mallocLost := ScanTable(table, queryIds, newBucket, oldBucket, sticky, mallocFails);
    var enterLost;
    t, enterLost := Reinsert(scanned, backups, oldBucket, newBucket, enterFails);
    failures := mallocLost + enterLost;
  }

  /**
    The part of `entry_dealloc` that works on the buffer's contents: walk
    the records, sort them by usage, take the median, pick the victims and
    lay out the rest. Returns the median (none when no record was walked),
    the new buffer contents up to the end of the last kept record, and each
    kept query id's position in it.
   */
  method CompactQueryBuffer(buf: seq<byte>, numEntries: nat, pct: nat, ghost records: seq<Record>)
    returns (median: Option<u64>, tmpQbuffer: seq<byte>, keep: map<u64, nat>)
    requires Fits(records) && UsedLength(records) <= |buf| && buf[..UsedLength(records)] == Serialize(records)
    ensures var p := PlanEviction(records, numEntries, pct);
      tmpQbuffer == Serialize(p.kept) && keep == p.keep
    ensures median == PlanMedian(records, numEntries, pct)
  {
    ghost var p := PlanEviction(records, numEntries, pct);
    var walked := WalkRecords(buf, numEntries, records);
    var n := |walked|;

    // qsort into increasing usage, then the median.
    var sorted := SortByUsage(walked);
    SortKeepsSize(walked);
    median := None;
    if n > 0 {
      median := Some(sorted[n / 2].usage);
    }

    var nvictims := Max(10, n * pct / 100);
    nvictims := Min(nvictims, n);
    assert nvictims == p.nvictims;

    var tmp;
    tmp, keep := CompactRecords(sorted, nvictims);
    var qbufPos := HEADER_SIZE + |tmp|;
    assert sorted[nvictims..] == p.kept;
    assert qbufPos == UsedLength(p.kept);
    // The header word holds the new used length.
    tmpQbuffer := EncodeLE(qbufPos, 8) + tmp;
  }

  /** `memcpy(dst, src, |src|)`: the first `|src|` bytes of `dst` become `src`, the rest stay. */
  method Memcpy(dst: array<byte>, src: seq<byte>)
    requires |src| <= dst.Length
    modifies dst
    ensures dst[..] == src + old(dst[..])[|src|..]
  {
    forall k | 0 <= k < |src| {
      dst[k] := src[k];
    }
  }

  /** The used part of `buf` is the layout of `rs`, and the header word can count the whole buffer. */
  ghost predicate Holds(buf: seq<byte>, rs: seq<Record>)
  {
    HEADER_SIZE <= |buf| < U64_LIMIT &&
    UsedLength(rs) <= |buf| &&
    buf[..UsedLength(rs)] == Serialize(rs)
  }

  /**
    `entry_dealloc` copies the kept records into a scratch buffer of
    `MAX_QUERY_BUF` bytes: they fit whenever the shared buffer, of that
    same size, held the records before.
   */
  lemma CompactedFitsScratch(buf: seq<byte>, records: seq<Record>, pgsmQuerySharedBuffer: nat, numEntries: nat, pct: nat)
    requires Holds(buf, records) && |buf| == MaxQueryBuf(pgsmQuerySharedBuffer)
    ensures UsedLength(PlanEviction(records, numEntries, pct).kept) <= MaxQueryBuf(pgsmQuerySharedBuffer)
  {
    KeptFits(records, numEntries, pct);
  }

  /** A buffer that starts with the layout of `rs` holds `rs`. */
  lemma HoldsLayout(rs: seq<Record>, rest: seq<byte>)
    requires HEADER_SIZE <= |Serialize(rs) + rest| < U64_LIMIT
    ensures Holds(Serialize(rs) + rest, rs)
  {
    assert (Serialize(rs) + rest)[..UsedLength(rs)] == Serialize(rs);
  }

  /** A record of query `id` can be read at `pos`. */
  ghost predicate PointsAt(buf: seq<byte>, pos: nat, id: u64)
  {
    RecordReadable(buf, pos) && ReadRecord(buf, pos).queryId == id
  }

  /** Every kept position points at a record of its own query in a buffer that holds the kept records. */
  lemma KeptPositionsPointAtRecords(kept: seq<Record>, buf: seq<byte>)
    requires Holds(buf, kept)
    ensures var keep := FirstOffsets(kept);
      forall id :: id in keep ==> PointsAt(buf, keep[id], id)
  {
    forall id | id in FirstOffsets(kept)
      ensures PointsAt(buf, FirstOffsets(kept)[id], id)
    {
      assert buf == Serialize(kept) + buf[UsedLength(kept)..];
      FirstOffsetsPointAtRecords(kept, buf[UsedLength(kept)..], id);
    }
  }

  /** Entries that survive eviction point at a record of their own query. */
  lemma EvictedPointAtRecords(table: map<HashKey, Entry>, keep: map<u64, nat>, buf: seq<byte>)
    requires forall id :: id in keep ==> PointsAt(buf, keep[id], id)
    ensures var t := Evict(table, keep);
      forall k :: k in t ==> PointsAt(buf, t[k].queryPos, k.queryId)
  {
    forall k | k in Evict(table, keep)
      ensures PointsAt(buf, Evict(table, keep)[k].queryPos, k.queryId)
    {
      EvictSurvivors(table, keep, k);
    }
  }

  /** The shared query-text buffer and the records its used part holds. */
  class QueryText {
    const buf: array<byte>
    ghost var records: seq<Record>

    ghost predicate Valid()
      reads this, buf
    {
      Holds(buf[..], records)
    }

    /** A buffer of `size` bytes whose header word says that only the header is used. */
    constructor (size: nat)
      requires HEADER_SIZE <= size < U64_LIMIT
      ensures Valid() && fresh(buf) && buf.Length == size && records == []
    {
      var header := EncodeLE(HEADER_SIZE, 8);
      buf := new byte[size](i => if i < 8 then header[i] else 0);
      records := [];
      new;
      assert Serialize([]) == header by {
        assert Body([]) == [];
      }
      assert buf[..][..8] == header;
    }

    /**
      The buffer half of `entry_dealloc`, done in place: the buffer ends up
      holding the kept records. Returns the median and the position of each
      kept query id, which points at a record of that query.
     */
    method Compact(numEntries: nat, pct: nat) returns (median: Option<u64>, keep: map<u64, nat>)
      requires Valid()
      modifies this, buf
      ensures Valid()
      ensures var p := PlanEviction(old(records), numEntries, pct);
        records == p.kept && keep == p.keep
      ensures median == PlanMedian(old(records), numEntries, pct)
      ensures forall id :: id in keep ==> PointsAt(buf[..], keep[id], id)
    {
      ghost var p := PlanEviction(records, numEntries, pct);
      var tmpQbuffer;
      median, tmpQbuffer, keep := CompactQueryBuffer(buf[..], numEntries, pct, records);
      KeptFits(records, numEntries, pct);
      ghost var rest := buf[..][|tmpQbuffer|..];
      // Overwrite the original buffer with the compacted one.
      Memcpy(buf, tmpQbuffer);
      HoldsLayout(p.kept, rest);
      assert keep == FirstOffsets(p.kept);
      KeptPositionsPointAtRecords(p.kept, buf[..]);
      records := p.kept;
    }
  }

  /** What `HASH_ENTER_NULL` on `key` gives: the entry found, no entry, or a new zeroed one. */
  datatype Allocation = Allocation(entry: Option<Entry>, table: map<HashKey, Entry>, created: bool)

  /** One more entry counted in bucket `i`. */
  function Bump(counts: seq<nat>, i: nat): (r: seq<nat>)
    requires i < |counts|
    ensures |r| == |counts| && r[i] == counts[i] + 1
    ensures forall j :: 0 <= j < |counts| && j != i ==> r[j] == counts[j]
  {
    counts[i := counts[i] + 1]
  }

  function Enter(t: map<HashKey, Entry>, key: HashKey, encoding: int, enterFails: bool): (a: Allocation)
    ensures a.created <==> key !in t && !enterFails
    ensures a.entry.Some? <==> key in a.table
    ensures a.entry.Some? ==> a.table[key] == a.entry.value
    ensures a.created ==> a.entry.Some? && a.entry.value.counters == ZeroCounters() && a.entry.value.encoding == encoding
    ensures !a.created ==> a.table == t
    ensures a.created ==> a.entry.Some? && a.table == t[key := a.entry.value]
  {
    if key in t then Allocation(Some(t[key]), t, false)
    else if enterFails then Allocation(None, t, false)
    else Allocation(Some(Entry(ZeroCounters(), encoding, 0)), t[key := Entry(ZeroCounters(), encoding, 0)], true)
  }

  class SharedState {
    /** `pgss_hash`. */
    var table: map<HashKey, Entry>
    /** `pgss_query_hash`, by query id. */
    var queryIds: set<u64>
    /** The query-text buffer. */
    const qbuf: QueryText
    /** The bit pattern of the double `cur_median_usage`. */
    var curMedianUsage: u64
    var memOverflow: bool
    var qbOverflow: bool
    var nBucketCycles: nat
    /** `bucket_entry[]`: entries created in each bucket. */
    const bucketEntry: array<nat>
    var currentWbucket: nat
    const errors: ErrorLog

    /** `pgsm_query_shared_buffer`: the query-text buffer size in MiB. */
    const querySharedBuffer: nat
    /** `MAX_BUCKET_ENTRIES`. */
    const maxBucketEntries: nat
    /** `USAGE_DEALLOC_PERCENT`. */
    const deallocPercent: nat
    /** `IS_STICKY`: an entry that has not finished executing. */
    const sticky: Counters -> bool

    /**
      The buffer is `MAX_QUERY_BUF` bytes long and holds its records, the
      error log is well formed and there is at least one bucket.
     */
    ghost predicate Valid()
      reads qbuf, qbuf.buf, errors
    {
      qbuf.Valid() && qbuf.buf.Length == MaxQueryBuf(querySharedBuffer) &&
      errors.Valid() && bucketEntry.Length >= 1
    }

    /**
      The state `pgss_startup` sets up the first time: median usage at its
      assumed initial value, both overflow flags clear, no bucket cycles, an
      empty table, an empty query buffer of `MAX_QUERY_BUF` bytes and a table
      bound of `MAX_BUCKET_ENTRIES` entries of `entrySize` bytes.
     */
    constructor (pgsmQuerySharedBuffer: nat, pgsmMax: nat, entrySize: nat, buckets: nat, percent: nat,
                 isSticky: Counters -> bool, assumedMedianInit: u64)
      requires HEADER_SIZE <= MaxQueryBuf(pgsmQuerySharedBuffer) < U64_LIMIT
      requires entrySize > 0 && buckets >= 1
      ensures Valid() && fresh(qbuf) && fresh(qbuf.buf) && fresh(bucketEntry) && fresh(errors)
      ensures curMedianUsage == assumedMedianInit && !qbOverflow && nBucketCycles == 0 && !memOverflow
      ensures table == map[] && queryIds == {} && qbuf.records == [] && currentWbucket == 0
      ensures qbuf.buf.Length == MaxQueryBuf(pgsmQuerySharedBuffer) && bucketEntry.Length == buckets
      ensures errors.entries == map[]
      ensures maxBucketEntries == MaxBucketEntries(pgsmMax, entrySize)
      ensures querySharedBuffer == pgsmQuerySharedBuffer && deallocPercent == percent && sticky == isSticky
    {
      querySharedBuffer := pgsmQuerySharedBuffer;
      maxBucketEntries := MaxBucketEntries(pgsmMax, entrySize);
      deallocPercent := percent;
      sticky := isSticky;
      curMedianUsage := assumedMedianInit;
      qbOverflow := false;
      nBucketCycles := 0;
      memOverflow := false;
      table := map[];
      queryIds := {};
      currentWbucket := 0;
      bucketEntry := new nat[buckets](_ => 0);
      errors := new ErrorLog();
      qbuf := new QueryText(MaxQueryBuf(pgsmQuerySharedBuffer));
    }

    /**
      `entry_dealloc`: walk the records of the query buffer (at most one per
      table entry), sort them by usage, record the usage at the middle as the
      median, drop the `nvictims` least used, compact the buffer to the rest,
      and remove every table entry whose query has no record left, pointing
      the others at their query's first kept record.
     */
    method EntryDealloc()
      requires Valid()
      modifies this, qbuf, qbuf.buf
      ensures Valid()
      ensures var p := PlanEviction(old(qbuf.records), old(|table|), deallocPercent);
        qbuf.records == p.kept && table == Evict(old(table), p.keep)
      ensures var m := PlanMedian(old(qbuf.records), old(|table|), deallocPercent);
        curMedianUsage == if m.Some? then m.value else old(curMedianUsage)
      ensures forall k :: k in table ==> PointsAt(qbuf.buf[..], table[k].queryPos, k.queryId)
      ensures (queryIds, memOverflow, qbOverflow) == (old(queryIds), old(memOverflow), old(qbOverflow))
      ensures (nBucketCycles, currentWbucket) == (old(nBucketCycles), old(currentWbucket))
    {
      var median, keep := qbuf.Compact(|table|, deallocPercent);
      if median.Some? {
        curMedianUsage := median.value;
      }
      var t := EvictTable(table, keep);
      EvictedPointAtRecords(table, keep, qbuf.buf[..]);
      table := t;
    }

    /**
      The first step of `hash_entry_alloc`: when the table is full, evict once
      and set `mem_overflow`; a second overflow reports that there is no room
      and changes nothing.
     */
    method MakeSpace() returns (room: bool)
      requires Valid()
      modifies this, qbuf, qbuf.buf
      ensures Valid()
      ensures room <==> !old(|table| >= maxBucketEntries && memOverflow)
      ensures var evicts := old(|table|) >= maxBucketEntries && !old(memOverflow);
        var p := PlanEviction(old(qbuf.records), old(|table|), deallocPercent);
        memOverflow == (old(memOverflow) || evicts) &&
        table == (if evicts then Evict(old(table), p.keep) else old(table)) &&
        qbuf.records == (if evicts then p.kept else old(qbuf.records))
      ensures var evicts := old(|table|) >= maxBucketEntries && !old(memOverflow);
        var m := PlanMedian(old(qbuf.records), old(|table|), deallocPercent);
        curMedianUsage == if evicts && m.Some? then m.value else old(curMedianUsage)
      ensures queryIds == old(queryIds) && currentWbucket == old(currentWbucket)
      ensures (qbOverflow, nBucketCycles) == (old(qbOverflow), old(nBucketCycles))
    {
      room := true;
      if |table| >= maxBucketEntries {
        if memOverflow {
          room := false;
        } else {
          memOverflow := true;
          EntryDealloc();
        }
      }
    }

    /**
      The second step of `hash_entry_alloc`: `HASH_ENTER_NULL` on the key,
      zeroing and counting a new entry.
     */
    method EnterKey(key: HashKey, encoding: int, enterFails: bool) returns (r: Option<Entry>)
      requires Valid() && currentWbucket < bucketEntry.Length
      modifies this, bucketEntry
      ensures Valid()
      ensures var a := Enter(old(table), key, encoding, enterFails);
        r == a.entry && table == a.table &&
        bucketEntry[..] == (if a.created then Bump(old(bucketEntry[..]), old(currentWbucket)) else old(bucketEntry[..]))
      ensures qbuf.records == old(qbuf.records) && memOverflow == old(memOverflow) && curMedianUsage == old(curMedianUsage)
      ensures queryIds == old(queryIds) && currentWbucket == old(currentWbucket)
      ensures (qbOverflow, nBucketCycles) == (old(qbOverflow), old(nBucketCycles))
    {
      if key in table {
        r := Some(table[key]);
      } else if enterFails {
        r := None;
      } else {
        bucketEntry[currentWbucket] := bucketEntry[currentWbucket] + 1;
        var e := Entry(ZeroCounters(), encoding, 0);
        table := table[key := e];
        r := Some(e);
      }
    }

    /**
      `hash_entry_alloc`: find or create the entry for `key`. When the table
      is full, the first overflow evicts once and sets `mem_overflow`; a
      second overflow returns no entry and changes nothing. `enterFails` is
      a failed `HASH_ENTER_NULL`.
     */
    method HashEntryAlloc(key: HashKey, encoding: int, enterFails: bool) returns (r: Option<Entry>)
      requires Valid() && currentWbucket < bucketEntry.Length
      modifies this, qbuf, qbuf.buf, bucketEntry
      ensures Valid()
      ensures old(|table| >= maxBucketEntries && memOverflow) ==>
        (r, table, qbuf.records, memOverflow, bucketEntry[..], curMedianUsage) ==
        (None, old(table), old(qbuf.records), true, old(bucketEntry[..]), old(curMedianUsage))
      ensures !old(|table| >= maxBucketEntries && memOverflow) ==>
        var evicts := old(|table|) >= maxBucketEntries;
        var p := PlanEviction(old(qbuf.records), old(|table|), deallocPercent);
        var a := Enter(if evicts then Evict(old(table), p.keep) else old(table), key, encoding, enterFails);
        (r, table, qbuf.records, memOverflow) == (a.entry, a.table, if evicts then p.kept else old(qbuf.records), old(memOverflow) || evicts) &&
        bucketEntry[..] == (if a.created then Bump(old(bucketEntry[..]), old(currentWbucket)) else old(bucketEntry[..]))
      ensures !old(|table| >= maxBucketEntries && memOverflow) ==>
        var m := PlanMedian(old(qbuf.records), old(|table|), deallocPercent);
        curMedianUsage == if old(|table|) >= maxBucketEntries && m.Some? then m.value else old(curMedianUsage)
      ensures (queryIds, currentWbucket) == (old(queryIds), old(currentWbucket))
      ensures (qbOverflow, nBucketCycles) == (old(qbOverflow), old(nBucketCycles))
    {
      var room := MakeSpace();
      if !room {
        return None;
      }
      r := EnterKey(key, encoding, enterFails);
    }

    /**
      `hash_entry_dealloc`: prepare the table for bucket `newBucket` (see
      the Rotation module). `mallocFails` are the pending entries whose
      backup cannot be allocated and `enterFails` the keys whose
      re-insertion finds no memory; each failure is logged at time `now`.
     */
    method HashEntryDealloc(newBucket: int, oldBucket: int, mallocFails: set<HashKey>, enterFails: set<HashKey>, now: string)
      requires Valid()
      modifies this, errors
      ensures Valid()
      ensures table == Rotated(old(table), newBucket, oldBucket, sticky, mallocFails, enterFails)
      ensures queryIds == RotatedQueryIds(old(queryIds), old(table), newBucket)
      ensures errors.entries == LogTimes(old(errors.entries), LogError, OUT_OF_MEMORY_MSG, now,
                                         Failures(old(table), newBucket, oldBucket, sticky, mallocFails, enterFails))
      ensures (curMedianUsage, memOverflow, currentWbucket) == (old(curMedianUsage), old(memOverflow), old(currentWbucket))
      ensures (qbuf.records, qbOverflow, nBucketCycles) == (old(qbuf.records), old(qbOverflow), old(nBucketCycles))
    {
      var t, qids, failures := RotateTable(table, queryIds, newBucket, oldBucket, sticky, mallocFails, enterFails);
      // Each failed allocation was reported with the same message.
      LogOutOfMemory(failures, now);
      table, queryIds := t, qids;
    }

    /** `pgsm_log_error("hash_entry_dealloc: out of memory")`, `n` times. */
    method LogOutOfMemory(n: nat, now: string)
      requires errors.Valid()
      modifies errors
      ensures errors.Valid()
      ensures errors.entries == LogTimes(old(errors.entries), LogError, OUT_OF_MEMORY_MSG, now, n)
    {
      var i := 0;
      while i < n
        invariant i <= n && errors.Valid()
        invariant errors.entries == LogTimes(old(errors.entries), LogError, OUT_OF_MEMORY_MSG, now, i)
      {
        errors.LogErrorMsg(OUT_OF_MEMORY_MSG, now);
        i := i + 1;
      }
    }

    /** `hash_entry_reset`: remove every entry and start writing at bucket 0 again. */
    method HashEntryReset()
      requires Valid()
      modifies this
      ensures Valid() && table == map[] && currentWbucket == 0
      ensures qbuf.records == old(qbuf.records) && queryIds == old(queryIds) && curMedianUsage == old(curMedianUsage)
      ensures memOverflow == old(memOverflow) && errors.entries == old(errors.entries)
      ensures (qbOverflow, nBucketCycles) == (old(qbOverflow), old(nBucketCycles))
    {
      var t := table;
      var todo := table.Keys;
      while todo != {}
        invariant todo <= table.Keys && t.Keys == todo
        decreases |todo|
      {
        var k :| k in todo;
        t := t - {k};
        todo := todo - {k};
      }
      table := t;
      currentWbucket := 0;
    }
  }
}
