/**
  The shared data model of pg_stat_monitor: the entry key, the per-entry
  counters, the capacity and histogram constants and the `pg_stat_monitor.track`
  option table.
 */
module PgStatMonitor {
  import opened Wrappers
  import opened Bytes

  const INT64_LIMIT: int := 0x8000_0000_0000_0000
  type i64 = x: int | -INT64_LIMIT <= x < INT64_LIMIT
  type u32 = x: int | 0 <= x < 0x1_0000_0000

  /* Usage score of a fresh entry and the bump per execution. */
  const USAGE_INIT: real := 1.0

  /** `USAGE_EXEC(duration)`: the increment does not depend on the duration. */
  function UsageExec(duration: real): (r: real)
  {
    1.0
  }

  lemma UsageExecIgnoresDuration(d1: real, d2: real)
    ensures UsageExec(d1) == UsageExec(d2) == USAGE_INIT
  {
  }

  const HISTOGRAM_MAX_TIME := 50000000
  const MAX_RESPONSE_BUCKET := 50
  /** The response-time histogram: the regular buckets plus two outlier buckets. */
  const HISTOGRAM_SLOTS := MAX_RESPONSE_BUCKET + 2
  const INVALID_BUCKET_ID := -1

  /** `MAX_QUERY_BUF`: the query-text buffer size, `pgsm_query_shared_buffer` MiB. */
  function MaxQueryBuf(pgsmQuerySharedBuffer: nat): (bytes: nat)
    ensures bytes % 1048576 == 0 && bytes / 1048576 == pgsmQuerySharedBuffer
  {
    pgsmQuerySharedBuffer * 1024 * 1024
  }

  /**
    `MAX_BUCKET_ENTRIES`: how many entries of `entrySize` bytes fit in
    `pgsm_max` MiB (`MAX_BUCKETS_MEM / sizeof(pgsmEntry)`).
   */
  function MaxBucketEntries(pgsmMax: nat, entrySize: nat): (n: nat)
    requires entrySize > 0
    ensures n * entrySize <= pgsmMax * 1048576 < (n + 1) * entrySize
  {
    (pgsmMax * 1024 * 1024) / entrySize
  }

  /** `pgsmHashKey`: the identity of a statistics entry. */
  datatype HashKey = HashKey(
    bucketId: u64,
    queryId: u64,    // int64 queryid, compared by its 8-byte pattern
    planId: i64,
    appId: i64,
    userId: u32,
    dbId: u32,
    ip: u32,
    toplevel: bool,
    parentId: i64)

  /** Keys are equal exactly when all nine fields are. */
  lemma KeyIdentity(a: HashKey, b: HashKey)
    ensures a == b <==>
      a.bucketId == b.bucketId && a.queryId == b.queryId && a.planId == b.planId &&
      a.appId == b.appId && a.userId == b.userId && a.dbId == b.dbId &&
      a.ip == b.ip && a.toplevel == b.toplevel && a.parentId == b.parentId
  {
  }

  /** `pgsmStoreKind`, the `state` of an entry's counters; `Invalid` is -1, `Parse` is 0. */
  datatype StoreKind = Invalid | Parse | Plan | Exec | Store | Error

  /** PostgreSQL's `CmdType`, as of PostgreSQL 15 (with `CMD_MERGE`). */
  datatype CmdType = CmdUnknown | CmdSelect | CmdUpdate | CmdInsert | CmdDelete | CmdMerge | CmdUtility | CmdNothing

  datatype Calls = Calls(calls: int, rows: int, usage: real)

  datatype CallTime = CallTime(totalTime: real, minTime: real, maxTime: real, meanTime: real, sumVarTime: real)

  /** The counters the core reads and writes; the other counter groups are carried unchanged. */
  datatype Counters = Counters(
    calls: Calls,
    time: CallTime,
    planCalls: Calls,
    planTime: CallTime,
    state: StoreKind,
    cmdType: CmdType,
    respCalls: seq<int>)

  /** `memset(&counters, 0, sizeof(Counters))`: every field is the zero of its type. */
  function ZeroCounters(): (c: Counters)
    ensures c.calls == c.planCalls == Calls(0, 0, 0.0)
    ensures c.time == c.planTime == CallTime(0.0, 0.0, 0.0, 0.0, 0.0)
    ensures c.state == Parse && c.cmdType == CmdUnknown
    ensures |c.respCalls| == HISTOGRAM_SLOTS && forall i :: 0 <= i < |c.respCalls| ==> c.respCalls[i] == 0
  {
    var zeroTime := CallTime(0.0, 0.0, 0.0, 0.0, 0.0);
    Counters(Calls(0, 0, 0.0), zeroTime, Calls(0, 0, 0.0), zeroTime, Parse, CmdUnknown,
             seq(HISTOGRAM_SLOTS, _ => 0))
  }

  /** A statistics entry: its counters, the query-text encoding and the text position. */
  datatype Entry = Entry(counters: Counters, encoding: int, queryPos: nat)

  /** `PGSMTrackLevel` and its numeric values. */
  datatype TrackLevel = TrackNone | TrackTop | TrackAll {
    function Value(): int {
      match this
      case TrackNone => 0
      case TrackTop => 1
      case TrackAll => 2
    }
  }

  /** A row of a `config_enum_entry` table; a `None` name terminates the table. */
  datatype ConfigEnumEntry = ConfigEnumEntry(name: Option<string>, val: int, hidden: bool)

  const TRACK_OPTIONS: seq<ConfigEnumEntry> := [
    ConfigEnumEntry(Some("none"), TrackNone.Value(), false),
    ConfigEnumEntry(Some("top"), TrackTop.Value(), false),
    ConfigEnumEntry(Some("all"), TrackAll.Value(), false),
    ConfigEnumEntry(None, 0, false)
  ]

  /**
    Row `j` is the first row from `i` on that carries `name`, and no
    terminating row comes before it.
   */
  predicate FirstMatch(options: seq<ConfigEnumEntry>, i: nat, j: nat, name: string)
  {
    i <= j < |options| && options[j].name == Some(name) &&
    forall l :: i <= l < j ==> options[l].name.Some? && options[l].name != Some(name)
  }

  /** Scan an option table from row `i` up to its terminating row. */
  function LookupOption(options: seq<ConfigEnumEntry>, i: nat, name: string): (r: Option<int>)
    requires i <= |options|
    ensures r.Some? ==> exists j: nat :: FirstMatch(options, i, j, name) && options[j].val == r.value
    ensures forall j: nat :: FirstMatch(options, i, j, name) ==> r == Some(options[j].val)
    decreases |options| - i
  {
    if i == |options| || options[i].name.None? then None
    else if options[i].name.value == name then
      assert FirstMatch(options, i, i, name);
      Some(options[i].val)
    else
      var r := LookupOption(options, i + 1, name);
      assert forall j: nat :: FirstMatch(options, i + 1, j, name) ==> FirstMatch(options, i, j, name);
      assert forall j: nat :: FirstMatch(options, i, j, name) ==> FirstMatch(options, i + 1, j, name);
      r
  }

  /** The track table maps each level's name to its value and nothing else to a value. */
  lemma TrackOptionsTable(name: string)
    ensures LookupOption(TRACK_OPTIONS, 0, "none") == Some(TrackNone.Value())
    ensures LookupOption(TRACK_OPTIONS, 0, "top") == Some(TrackTop.Value())
    ensures LookupOption(TRACK_OPTIONS, 0, "all") == Some(TrackAll.Value())
    ensures name !in {"none", "top", "all"} ==> LookupOption(TRACK_OPTIONS, 0, name) == None
    ensures TRACK_OPTIONS[|TRACK_OPTIONS| - 1].name == None
    ensures forall j :: 0 <= j < |TRACK_OPTIONS| - 1 ==> TRACK_OPTIONS[j].name.Some?
  {
  }
}
