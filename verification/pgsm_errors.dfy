/**
  The internal error log declared in pgsm_errors.h: a table keyed by the
  message text, each entry holding the severity, the time of the latest
  report and how many times the message was reported.
 */
module PgsmErrors {
  /** `ERROR_MSG_MAX_LEN`: the message buffer size, terminating NUL included. */
  const ERROR_MSG_MAX_LEN: nat := 128

  /** `PgsmLogSeverity`. */
  datatype Severity = LogInfo | LogWarning | LogError

  datatype ErrorEntry = ErrorEntry(message: string, severity: Severity, time: string, calls: int)

  /** The text stored for a message: what fits in the buffer before the NUL. */
  function Truncate(msg: string): (m: string)
    ensures |m| < ERROR_MSG_MAX_LEN && m <= msg
    ensures |msg| < ERROR_MSG_MAX_LEN ==> m == msg
  {
    if |msg| < ERROR_MSG_MAX_LEN then msg else msg[..ERROR_MSG_MAX_LEN - 1]
  }

  /** Every entry is stored under its own (truncated) message and was reported at least once. */
  ghost predicate WellFormed(entries: map<string, ErrorEntry>)
  {
    forall key :: key in entries ==> Stored(key, entries[key])
  }

  /** An entry stored under `key`: its own message, short enough for the buffer, reported at least once. */
  ghost predicate Stored(key: string, e: ErrorEntry)
  {
    e.message == key && |key| < ERROR_MSG_MAX_LEN && e.calls >= 1
  }

  /** The table after one `pgsm_log(severity, msg)` at time `now`. */
  function Logged(entries: map<string, ErrorEntry>, severity: Severity, msg: string, now: string): (r: map<string, ErrorEntry>)
    ensures Truncate(msg) in r && r[Truncate(msg)].time == now
    ensures r.Keys == entries.Keys + {Truncate(msg)}
    ensures forall key :: key in entries && key != Truncate(msg) ==> r[key] == entries[key]
  {
    var key := Truncate(msg);
    if key in entries then
      entries[key := entries[key].(time := now, calls := entries[key].calls + 1)]
    else
      entries[key := ErrorEntry(key, severity, now, 1)]
  }

  /** The table after `n` reports of the same message. */
  function LogTimes(entries: map<string, ErrorEntry>, severity: Severity, msg: string, now: string, n: nat): map<string, ErrorEntry>
  {
    if n == 0 then entries else Logged(LogTimes(entries, severity, msg, now, n - 1), severity, msg, now)
  }

  class ErrorLog {
    var entries: map<string, ErrorEntry>

    ghost predicate Valid()
      reads this
    {
      WellFormed(entries)
    }

    /** `psgm_errors_init`: an empty table. */
    constructor ()
      ensures Valid() && entries == map[]
    {
      entries := map[];
    }

    /**
      `pgsm_log`: a message already present has its count bumped and its
      time refreshed; a new message gets an entry with one call.
     */
    method Log(severity: Severity, msg: string, now: string)
      requires Valid()
      modifies this
      ensures Valid() && entries == Logged(old(entries), severity, msg, now)
      ensures var key := Truncate(msg);
        if key in old(entries) then
          entries[key] == old(entries)[key].(time := now, calls := old(entries)[key].calls + 1)
        else
          entries[key] == ErrorEntry(key, severity, now, 1)
    {
      var key := Truncate(msg);
      if key in entries {
        var e := entries[key];
        entries := entries[key := e.(time := now, calls := e.calls + 1)];
      } else {
        entries := entries[key := ErrorEntry(key, severity, now, 1)];
      }
    }

    /** `pgsm_log_info`. */
    method LogInfoMsg(msg: string, now: string)
      requires Valid()
      modifies this
      ensures Valid() && entries == Logged(old(entries), LogInfo, msg, now)
    {
      Log(LogInfo, msg, now);
    }

    /** `pgsm_log_warning`. */
    method LogWarningMsg(msg: string, now: string)
      requires Valid()
      modifies this
      ensures Valid() && entries == Logged(old(entries), LogWarning, msg, now)
    {
      Log(LogWarning, msg, now);
    }

    /** `pgsm_log_error`. */
    method LogErrorMsg(msg: string, now: string)
      requires Valid()
      modifies this
      ensures Valid() && entries == Logged(old(entries), LogError, msg, now)
    {
      Log(LogError, msg, now);
    }
  }

  /** Logging keeps one entry per distinct stored message, each under its own text. */
  lemma LoggedWellFormed(entries: map<string, ErrorEntry>, severity: Severity, msg: string, now: string)
    requires WellFormed(entries)
    ensures WellFormed(Logged(entries, severity, msg, now))
  {
  }

  /** A repeated message bumps the existing entry instead of adding one; its severity stays. */
  lemma RepeatBumpsCalls(entries: map<string, ErrorEntry>, severity: Severity, msg: string, now: string)
    requires Truncate(msg) in entries
    ensures var r := Logged(entries, severity, msg, now);
      |r| == |entries| &&
      r[Truncate(msg)].calls == entries[Truncate(msg)].calls + 1 &&
      r[Truncate(msg)].severity == entries[Truncate(msg)].severity
  {
    assert Logged(entries, severity, msg, now).Keys == entries.Keys;
  }

  /** A new message adds exactly one entry. */
  lemma NewMessageAddsOne(entries: map<string, ErrorEntry>, severity: Severity, msg: string, now: string)
    requires Truncate(msg) !in entries
    ensures var r := Logged(entries, severity, msg, now);
      |r| == |entries| + 1 && r[Truncate(msg)] == ErrorEntry(Truncate(msg), severity, now, 1)
  {
    assert Logged(entries, severity, msg, now).Keys == entries.Keys + {Truncate(msg)};
  }

  /**
    After `k` reports of a message that was not in the table, its entry has
    `calls == k`, the severity of the first report and the time of the last;
    nothing else in the table changes.
   */
  lemma {:induction false} CallsCountReports(entries: map<string, ErrorEntry>, severity: Severity, msg: string, now: string, k: nat)
    requires Truncate(msg) !in entries && k >= 1
    ensures var r := LogTimes(entries, severity, msg, now, k);
      r.Keys == entries.Keys + {Truncate(msg)} &&
      r[Truncate(msg)] == ErrorEntry(Truncate(msg), severity, now, k) &&
      forall key :: key in entries ==> r[key] == entries[key]
  {
    if k > 1 {
      CallsCountReports(entries, severity, msg, now, k - 1);
    }
  }

  /** `LogTimes` adds `n` to the count of an entry already present. */
  lemma {:induction false} LogTimesAddsCalls(entries: map<string, ErrorEntry>, severity: Severity, msg: string, now: string, n: nat)
    requires Truncate(msg) in entries
    ensures var r := LogTimes(entries, severity, msg, now, n);
      r.Keys == entries.Keys && r[Truncate(msg)].calls == entries[Truncate(msg)].calls + n &&
      r[Truncate(msg)].severity == entries[Truncate(msg)].severity
  {
    if n > 0 {
      LogTimesAddsCalls(entries, severity, msg, now, n - 1);
    }
  }

  lemma {:induction false} LogTimesWellFormed(entries: map<string, ErrorEntry>, severity: Severity, msg: string, now: string, n: nat)
    requires WellFormed(entries)
    ensures WellFormed(LogTimes(entries, severity, msg, now, n))
  {
    if n > 0 {
      LogTimesWellFormed(entries, severity, msg, now, n - 1);
      LoggedWellFormed(LogTimes(entries, severity, msg, now, n - 1), severity, msg, now);
    }
  }
}
