/**
  The helpers of pgsm_table_export.c that decide what is written to the
  export table: SQL-literal escaping with truncation, the `ARRAY[...]`
  rendering of the response-time histogram, the collection of one bucket's
  entries sorted by total time, the top-300 cut, the command-type column and
  the choice of the bucket to export.
 */
module TableExport {
  import opened Wrappers
  import opened Bytes
  import opened PgStatMonitor

  /** `MAX_QUERY_LENGTH`: the query and plan texts are cut to 1.5 KB. */
  const MAX_QUERY_LENGTH: nat := 1536
  /** `MAX_QUERIES_PER_BUCKET`: at most this many entries of a bucket are exported. */
  const MAX_QUERIES_PER_BUCKET: nat := 300

  // ---------------------------------------------------------------------------
  // SQL string literals

  /** How one character is written inside a quoted SQL literal. */
  function EscapeChar(c: char): (e: string)
    ensures |e| == (if c == '\'' then 2 else 1)
  {
    if c == '\'' then "''" else [c]
  }

  /** Every quote doubled. */
  function Escape(s: string): (e: string)
    ensures |e| == |s| + Quotes(s)
  {
    if s == [] then [] else EscapeChar(s[0]) + Escape(s[1..])
  }

  /** The number of single quotes in `s`. */
  function Quotes(s: string): nat
  {
    if s == [] then 0 else (if s[0] == '\'' then 1 else 0) + Quotes(s[1..])
  }

  lemma {:induction false} EscapeAppend(s: string, c: char)
    ensures Escape(s + [c]) == Escape(s) + EscapeChar(c)
  {
    if s != [] {
      assert (s + [c])[1..] == s[1..] + [c];
      EscapeAppend(s[1..], c);
    } else {
      assert [c][1..] == [];
    }
  }

  lemma {:induction false} EscapeConcat(a: string, b: string)
    ensures Escape(a + b) == Escape(a) + Escape(b)
  {
    if a != [] {
      assert (a + b)[1..] == a[1..] + b;
      EscapeConcat(a[1..], b);
    } else {
      assert a + b == b;
    }
  }

  /** At most every character is a quote. */
  lemma {:induction false} QuotesBound(s: string)
    ensures Quotes(s) <= |s|
  {
    if s != [] {
      QuotesBound(s[1..]);
    }
  }

  /**
    Reading a quoted literal's body back: `''` stands for one quote; a lone
    quote would end the literal, so the body is rejected.
   */
  function Unescape(e: string): Option<string>
  {
    if e == [] then Some([])
    else if e[0] != '\'' then
      match Unescape(e[1..])
      case Some(rest) => Some([e[0]] + rest)
      case None => None
    else if |e| >= 2 && e[1] == '\'' then
      match Unescape(e[2..])
      case Some(rest) => Some(['\''] + rest)
      case None => None
    else None
  }

  /** Escaping is undone by reading the literal back. */
  lemma {:induction false} UnescapeEscape(s: string)
    ensures Unescape(Escape(s)) == Some(s)
  {
    if s != [] {
      UnescapeEscape(s[1..]);
      var e := Escape(s);
      assert e == EscapeChar(s[0]) + Escape(s[1..]);
      if s[0] == '\'' {
        assert e[2..] == Escape(s[1..]);
      } else {
        assert e[1..] == Escape(s[1..]);
      }
      assert s == [s[0]] + s[1..];
    }
  }

  /** The characters a string keeps once cut to `maxLen`. */
  function SourceLength(s: string, maxLen: nat): (n: nat)
    ensures n <= |s| && n <= maxLen
    ensures |s| <= maxLen ==> n == |s|
    ensures |s| > maxLen ==> n == maxLen
  {
    if |s| > maxLen then maxLen else |s|
  }

  /**
    What `truncate_and_escape_string(str, maxLen)` returns: the empty
    string for NULL or an empty string, else the first `maxLen`
    characters with every quote doubled, followed by `...` when some were
    cut off.
   */
  function TruncatedEscaped(str: Option<string>, maxLen: nat): string
  {
    if str.None? || str.value == [] then ""
    else
      var s := str.value;
      Escape(s[..SourceLength(s, maxLen)]) + (if |s| > maxLen then "..." else "")
  }

  /**
    `truncate_and_escape_string`. The buffer is allocated with
    `2 * srcLen + 10` characters and every write, the terminating NUL
    included, is proved to land inside it.
   */
  method TruncateAndEscapeString(str: Option<string>, maxLen: nat) returns (result: string)
    ensures result == TruncatedEscaped(str, maxLen)
  {
    if str.None? || str.value == [] {
      return "";
    }
    var s := str.value;
    var len := |s|;
    var truncated := len > maxLen;
    var srcLen := if truncated then maxLen else len;
    var buf := new char[srcLen * 2 + 10];
    var j := CopyEscaped(s, srcLen, buf);
    ghost var escaped := buf[..j];
    if truncated {
      buf[j] := '.';
      buf[j + 1] := '.';
      buf[j + 2] := '.';
      j := j + 3;
      assert buf[..j] == escaped + "...";
    }
    buf[j] := 0 as char;
    result := buf[..j];
  }

  /**
    The copy loop of `truncate_and_escape_string`: the first `srcLen`
    characters of `s` into `buf` from index 0, each quote written twice.
    Returns the index after the last character written.
   */
  method CopyEscaped(s: string, srcLen: nat, buf: array<char>) returns (j: nat)
    requires srcLen <= |s| && 2 * srcLen <= buf.Length
    modifies buf
    ensures j <= 2 * srcLen && buf[..j] == Escape(s[..srcLen])
  {
    j := 0;
    for i := 0 to srcLen
      invariant j <= 2 * i
      invariant buf[..j] == Escape(s[..i])
    {
      assert s[..i + 1] == s[..i] + [s[i]];
      EscapeAppend(s[..i], s[i]);
      ghost var written := buf[..j];
      if s[i] == '\'' {
        buf[j] := '\'';
        buf[j + 1] := '\'';
        assert buf[..j + 2] == written + "''";
        j := j + 2;
      } else {
        buf[j] := s[i];
        assert buf[..j + 1] == written + [s[i]];
        j := j + 1;
      }
    }
  }

  /**
    The result's length is the characters kept, plus one per quote among
    them, plus three for the marker; so at most `2 * srcLen + 3`, which
    leaves room for the NUL in the `2 * srcLen + 10` allocation.
   */
  lemma TruncatedEscapedLength(s: string, maxLen: nat)
    requires s != []
    ensures var n := SourceLength(s, maxLen);
      |TruncatedEscaped(Some(s), maxLen)| == n + Quotes(s[..n]) + (if |s| > maxLen then 3 else 0) &&
      |TruncatedEscaped(Some(s), maxLen)| <= 2 * n + 3
  {
    QuotesBound(s[..SourceLength(s, maxLen)]);
  }

  /**
    Reading the literal back gives the kept characters, followed by `...`
    exactly when the text was cut.
   */
  lemma TruncatedEscapedReadsBack(s: string, maxLen: nat)
    requires s != []
    ensures Unescape(TruncatedEscaped(Some(s), maxLen)) ==
      Some(s[..SourceLength(s, maxLen)] + (if |s| > maxLen then "..." else ""))
  {
    var kept := s[..SourceLength(s, maxLen)];
    var marker := if |s| > maxLen then "..." else "";
    if marker != "" {
      EscapeDots();
    }
    EscapeConcat(kept, marker);
    UnescapeEscape(kept + marker);
  }

  lemma EscapeDots()
    ensures Escape("...") == "..."
  {
    assert "..."[1..] == ".." && ".."[1..] == "." && "."[1..] == "";
  }

  /**
    `APPEND_ESCAPED_STRING`: a NULL or empty text becomes `NULL`, any other
    the escaped text in quotes.
   */
  function EscapedColumn(str: Option<string>, maxLen: nat): (col: string)
    ensures str.None? || str.value == [] <==> col == "NULL"
  {
    if str.None? || str.value == [] then "NULL"
    else
      var col := "'" + TruncatedEscaped(str, maxLen) + "'";
      assert col[0] != "NULL"[0];
      col
  }

  // ---------------------------------------------------------------------------
  // Decimal integers and array literals

  function DigitChar(d: nat): (c: char)
    requires d < 10
    ensures '0' <= c <= '9'
  {
    ('0' as int + d) as char
  }

  /** `%d` of a non-negative value: its decimal digits, most significant first. */
  function NatText(n: nat): string
  {
    if n < 10 then [DigitChar(n)] else NatText(n / 10) + [DigitChar(n % 10)]
  }

  /** `%d`: a minus sign for negative values, then the digits. */
  function IntText(i: int): string
  {
    if i < 0 then "-" + NatText(-i) else NatText(i)
  }

  lemma {:induction false} NatTextDigits(n: nat)
    ensures |NatText(n)| >= 1 && forall j :: 0 <= j < |NatText(n)| ==> '0' <= NatText(n)[j] <= '9'
  {
    if n >= 10 {
      NatTextDigits(n / 10);
    }
  }

  /** A printed integer is not empty, holds no comma and starts with a sign or a digit. */
  lemma IntTextShape(i: int)
    ensures |IntText(i)| >= 1 && ',' !in IntText(i)
    ensures IntText(i)[0] == '-' || '0' <= IntText(i)[0] <= '9'
  {
    NatTextDigits(if i < 0 then -i else i);
  }

  /** The value of a string of decimal digits. */
  function ParseDigits(s: string): nat
  {
    if s == [] then 0
    else
      var d := s[|s| - 1] as int - '0' as int;
      ParseDigits(s[..|s| - 1]) * 10 + (if 0 <= d < 10 then d else 0)
  }

  function ParseInt(s: string): int
  {
    if s != [] && s[0] == '-' then -(ParseDigits(s[1..]) as int) else ParseDigits(s)
  }

  lemma {:induction false} ParseNatText(n: nat)
    ensures ParseDigits(NatText(n)) == n
  {
    if n >= 10 {
      ParseNatText(n / 10);
      var s := NatText(n);
      assert s[..|s| - 1] == NatText(n / 10);
    }
  }

  /** Reading a printed integer back gives the integer. */
  lemma ParseIntText(i: int)
    ensures ParseInt(IntText(i)) == i
  {
    if i < 0 {
      ParseNatText(-i);
      assert ("-" + NatText(-i))[1..] == NatText(-i);
    } else {
      ParseNatText(i);
      NatTextDigits(i);
    }
  }

  /** The values printed with `%d` and separated by commas. */
  function JoinInts(vals: seq<int>): string
  {
    if |vals| == 0 then ""
    else if |vals| == 1 then IntText(vals[0])
    else JoinInts(vals[..|vals| - 1]) + "," + IntText(vals[|vals| - 1])
  }

  lemma JoinIntsStep(vals: seq<int>, i: nat)
    requires i < |vals|
    ensures JoinInts(vals[..i + 1]) == (if i == 0 then "" else JoinInts(vals[..i]) + ",") + IntText(vals[i])
  {
    assert vals[..i + 1][..i] == vals[..i];
  }

  lemma AppendAssoc(a: string, b: string, c: string)
    ensures (a + b) + c == a + (b + c)
  {
  }

  /** The PostgreSQL array literal of `vals`. */
  function ArrayLiteral(vals: seq<int>): string
  {
    "ARRAY[" + JoinInts(vals) + "]"
  }

  /**
    `resp_calls_to_array(respCalls, count)`: `ARRAY[`, the first `count`
    values separated by commas, `]`. A count of zero or less gives
    `ARRAY[]`.
   */
  method RespCallsToArray(respCalls: seq<int>, count: int) returns (result: string)
    requires count <= |respCalls|
    ensures result == ArrayLiteral(respCalls[..if count < 0 then 0 else count])
  {
    var str := "ARRAY[";
    var i := 0;
    while i < count
      invariant 0 <= i <= (if count < 0 then 0 else count)
      invariant str == "ARRAY[" + JoinInts(respCalls[..i])
    {
      JoinIntsStep(respCalls, i);
      ghost var joined := JoinInts(respCalls[..i]);
      if i > 0 {
        AppendAssoc("ARRAY[", joined, ",");
        str := str + ",";
        joined := joined + ",";
      }
      AppendAssoc("ARRAY[", joined, IntText(respCalls[i]));
      str := str + IntText(respCalls[i]);
      i := i + 1;
    }
    result := str + "]";
  }

  /** The last position of `c` in `s`. */
  function LastIndex(s: string, c: char): (r: Option<nat>)
    ensures r.Some? ==> r.value < |s| && s[r.value] == c
  {
    if s == [] then None
    else if s[|s| - 1] == c then Some(|s| - 1)
    else
      var r := LastIndex(s[..|s| - 1], c);
      assert s == s[..|s| - 1] + [s[|s| - 1]];
      r
  }

  lemma {:induction false} LastIndexAfter(a: string, c: char, b: string)
    requires c !in b
    ensures LastIndex(a + [c] + b, c) == Some(|a|)
    decreases |b|
  {
    var s := a + [c] + b;
    if b != [] {
      assert s[..|s| - 1] == a + [c] + b[..|b| - 1];
      LastIndexAfter(a, c, b[..|b| - 1]);
    }
  }

  lemma {:induction false} LastIndexAbsent(s: string, c: char)
    requires c !in s
    ensures LastIndex(s, c) == None
  {
    if s != [] {
      assert s[..|s| - 1] <= s;
      LastIndexAbsent(s[..|s| - 1], c);
    }
  }

  /** The comma-separated integers of a non-empty list body. */
  function ParseInts(s: string): seq<int>
    decreases |s|
  {
    match LastIndex(s, ',')
    case None => [ParseInt(s)]
    case Some(i) => ParseInts(s[..i]) + [ParseInt(s[i + 1..])]
  }

  /** Reading an `ARRAY[...]` literal of integers back. */
  function ParseArrayLiteral(s: string): Option<seq<int>>
  {
    if |s| >= 7 && s[..6] == "ARRAY[" && s[|s| - 1] == ']' then
      var body := s[6..|s| - 1];
      if body == [] then Some([]) else Some(ParseInts(body))
    else None
  }

  /** The last comma splits off the last value. */
  lemma ParseIntsSplit(a: string, b: string)
    requires ',' !in b
    ensures ParseInts(a + "," + b) == ParseInts(a) + [ParseInt(b)]
  {
    var s := a + "," + b;
    LastIndexAfter(a, ',', b);
    assert s[..|a|] == a;
    assert s[|a| + 1..] == b;
  }

  lemma {:induction false} ParseJoinInts(vals: seq<int>)
    requires |vals| >= 1
    ensures ParseInts(JoinInts(vals)) == vals
  {
    if |vals| == 1 {
      var v := vals[0];
      ParseIntText(v);
      IntTextShape(v);
      LastIndexAbsent(IntText(v), ',');
      assert ParseInts(JoinInts(vals)) == [v];
    } else {
      var init := vals[..|vals| - 1];
      ParseJoinInts(init);
      ParseJoinIntsStep(init, vals[|vals| - 1]);
      SplitLast(vals);
    }
  }

  /** Appending one value to the list appends its text after a comma, which parses back as that value. */
  lemma ParseJoinIntsStep(init: seq<int>, last: int)
    requires |init| >= 1 && ParseInts(JoinInts(init)) == init
    ensures ParseInts(JoinInts(init + [last])) == init + [last]
  {
    var vals := init + [last];
    assert vals[..|vals| - 1] == init;
    assert JoinInts(vals) == JoinInts(init) + "," + IntText(last);
    ParseIntText(last);
    IntTextShape(last);
    ParseIntsSplit(JoinInts(init), IntText(last));
  }

  lemma SplitLast<T>(s: seq<T>)
    requires |s| >= 1
    ensures s[..|s| - 1] + [s[|s| - 1]] == s
  {
  }

  /** The array literal reads back as the values it was made from. */
  lemma ArrayLiteralReadsBack(vals: seq<int>)
    ensures ParseArrayLiteral(ArrayLiteral(vals)) == Some(vals)
  {
    var s := ArrayLiteral(vals);
    assert s[..6] == "ARRAY[";
    assert s[6..|s| - 1] == JoinInts(vals);
    if vals != [] {
      ParseJoinInts(vals);
      assert |JoinInts(vals)| >= 1 by {
        IntTextShape(vals[|vals| - 1]);
      }
    }
  }

  function CountChar(s: string, c: char): nat
  {
    if s == [] then 0 else CountChar(s[..|s| - 1], c) + (if s[|s| - 1] == c then 1 else 0)
  }

  lemma {:induction false} CountCharConcat(a: string, b: string, c: char)
    ensures CountChar(a + b, c) == CountChar(a, c) + CountChar(b, c)
    decreases |b|
  {
    if b == [] {
      assert a + b == a;
    } else {
      assert (a + b)[..|a + b| - 1] == a + b[..|b| - 1];
      CountCharConcat(a, b[..|b| - 1], c);
    }
  }

  lemma {:induction false} CountCharAbsent(s: string, c: char)
    requires c !in s
    ensures CountChar(s, c) == 0
  {
    if s != [] {
      assert s[..|s| - 1] <= s;
      CountCharAbsent(s[..|s| - 1], c);
    }
  }

  /** The list of `n` values holds `n - 1` commas. */
  lemma {:induction false} JoinIntsCommas(vals: seq<int>)
    ensures CountChar(JoinInts(vals), ',') == if |vals| == 0 then 0 else |vals| - 1
  {
    if |vals| >= 1 {
      IntTextShape(vals[|vals| - 1]);
      CountCharAbsent(IntText(vals[|vals| - 1]), ',');
    }
    if |vals| > 1 {
      var init := vals[..|vals| - 1];
      JoinIntsCommas(init);
      CountCharConcat(JoinInts(init), ",", ',');
      CountCharConcat(JoinInts(init) + ",", IntText(vals[|vals| - 1]), ',');
      assert CountChar(",", ',') == 1 by {
        assert ","[..0] == "";
      }
    }
  }

  /**
    The histogram column: `resp_calls_to_array` is given
    `MAX_RESPONSE_BUCKET`, so of the 52 slots only the first 50 are
    exported and the two outlier slots are not.
   */
  lemma HistogramColumnDropsOutliers(c: Counters)
    requires |c.respCalls| == HISTOGRAM_SLOTS
    ensures var exported := ParseArrayLiteral(ArrayLiteral(c.respCalls[..MAX_RESPONSE_BUCKET]));
      exported.Some? && |exported.value| == HISTOGRAM_SLOTS - 2 &&
      exported.value + c.respCalls[HISTOGRAM_SLOTS - 2..] == c.respCalls
  {
    ArrayLiteralReadsBack(c.respCalls[..MAX_RESPONSE_BUCKET]);
  }

  // ---------------------------------------------------------------------------
  // Collecting and sorting a bucket's entries

  /** `EntryWithTime`: an entry of the table (named by its key) and its total time. */
  datatype EntryWithTime = EntryWithTime(key: HashKey, entry: Entry, totalTime: real)

  /** The pair collected for the entry under `k`. */
  function ItemOf(table: map<HashKey, Entry>, k: HashKey): EntryWithTime
    requires k in table
  {
    EntryWithTime(k, table[k], table[k].counters.time.totalTime)
  }

  /** `compare_entries_by_time`: larger total time first. */
  function CompareByTime(a: EntryWithTime, b: EntryWithTime): (c: int)
    ensures c < 0 <==> a.totalTime > b.totalTime
    ensures c > 0 <==> a.totalTime < b.totalTime
    ensures -1 <= c <= 1
  {
    if a.totalTime > b.totalTime then -1
    else if a.totalTime < b.totalTime then 1
    else 0
  }

  /** The comparator is antisymmetric, as `qsort` requires. */
  lemma CompareByTimeAntisymmetric(a: EntryWithTime, b: EntryWithTime)
    ensures CompareByTime(a, b) == -CompareByTime(b, a)
  {
  }

  /** Non-increasing total time. */
  ghost predicate SortedByTime(s: seq<EntryWithTime>)
  {
    forall i, j :: 0 <= i < j < |s| ==> s[i].totalTime >= s[j].totalTime
  }

  /** A sequence is sorted by time exactly when the comparator puts no later element first. */
  lemma SortedByTimeIffComparator(s: seq<EntryWithTime>)
    ensures SortedByTime(s) <==> forall i, j :: 0 <= i < j < |s| ==> CompareByTime(s[i], s[j]) <= 0
  {
  }

  lemma ConsSortedByTime(x: EntryWithTime, t: seq<EntryWithTime>)
    requires SortedByTime(t) && forall k :: 0 <= k < |t| ==> x.totalTime >= t[k].totalTime
    ensures SortedByTime([x] + t)
  {
    var u := [x] + t;
    forall i, j | 0 <= i < j < |u|
      ensures u[i].totalTime >= u[j].totalTime
    {
      if i > 0 {
        assert u[i] == t[i - 1] && u[j] == t[j - 1];
      }
    }
  }

  lemma TimeBoundThroughPermutation(x: EntryWithTime, t: seq<EntryWithTime>, u: seq<EntryWithTime>)
    requires multiset(t) == multiset(u) && forall k :: 0 <= k < |u| ==> x.totalTime >= u[k].totalTime
    ensures forall k :: 0 <= k < |t| ==> x.totalTime >= t[k].totalTime
  {
    forall k | 0 <= k < |t|
      ensures x.totalTime >= t[k].totalTime
    {
      assert t[k] in multiset(u);
    }
  }

  function InsertByTime(x: EntryWithTime, s: seq<EntryWithTime>): (t: seq<EntryWithTime>)
    requires SortedByTime(s)
    ensures SortedByTime(t) && multiset(t) == multiset(s) + multiset{x}
  {
    if s == [] || x.totalTime >= s[0].totalTime then
      ConsSortedByTime(x, s);
      [x] + s
    else
      var t' := InsertByTime(x, s[1..]);
      assert s == [s[0]] + s[1..];
      TimeBoundThroughPermutation(s[0], t', s[1..] + [x]);
      ConsSortedByTime(s[0], t');
      [s[0]] + t'
  }

  /** The `qsort` with `compare_entries_by_time`: a permutation sorted by non-increasing time. */
  function SortByTime(s: seq<EntryWithTime>): (t: seq<EntryWithTime>)
    ensures SortedByTime(t) && multiset(t) == multiset(s)
  {
    if s == [] then []
    else
      assert s == [s[0]] + s[1..];
      InsertByTime(s[0], SortByTime(s[1..]))
  }

  /** The entries of bucket `bucketId` among the keys outside `skip`, as collected pairs. */
  ghost function BucketItems(table: map<HashKey, Entry>, bucketId: u64, skip: set<HashKey>): map<HashKey, EntryWithTime>
  {
    map k | k in table && k !in skip && k.bucketId == bucketId :: ItemOf(table, k)
  }

  /** `s` holds each pair of `items` exactly once and nothing else, in any order. */
  ghost predicate ListsExactly(s: seq<EntryWithTime>, items: map<HashKey, EntryWithTime>)
  {
    (forall x :: x in multiset(s) ==> x.key in items && items[x.key] == x) &&
    (forall k :: k in items ==> multiset(s)[items[k]] == 1)
  }

  /** One step of the collection: visiting `k` adds its pair exactly when it belongs to the bucket. */
  lemma CollectStep(s: seq<EntryWithTime>, table: map<HashKey, Entry>, bucketId: u64, todo: set<HashKey>, k: HashKey)
    requires k in todo && todo <= table.Keys
    requires ListsExactly(s, BucketItems(table, bucketId, todo))
    ensures k.bucketId == bucketId ==> ListsExactly(s + [ItemOf(table, k)], BucketItems(table, bucketId, todo - {k}))
    ensures k.bucketId != bucketId ==> ListsExactly(s, BucketItems(table, bucketId, todo - {k}))
  {
    BucketItemsStep(table, bucketId, todo, k);
    if k.bucketId == bucketId {
      ListsExactlyAdd(s, BucketItems(table, bucketId, todo), ItemOf(table, k));
    }
  }

  /** Visiting `k` adds its pair to the bucket's pairs exactly when it belongs to the bucket. */
  lemma BucketItemsStep(table: map<HashKey, Entry>, bucketId: u64, todo: set<HashKey>, k: HashKey)
    requires k in todo && todo <= table.Keys
    ensures k !in BucketItems(table, bucketId, todo)
    ensures BucketItems(table, bucketId, todo - {k}) ==
      if k.bucketId == bucketId then BucketItems(table, bucketId, todo)[k := ItemOf(table, k)]
      else BucketItems(table, bucketId, todo)
  {
  }

  /** Listing one more pair under a new key. */
  lemma ListsExactlyAdd(s: seq<EntryWithTime>, items: map<HashKey, EntryWithTime>, x: EntryWithTime)
    requires ListsExactly(s, items) && x.key !in items
    ensures ListsExactly(s + [x], items[x.key := x])
  {
    assert multiset(s + [x]) == multiset(s) + multiset{x};
  }

  /**
    `collect_and_sort_entries(bucketId)`: every entry of the table whose key
    is in bucket `bucketId`, each once, sorted by non-increasing total time,
    in the first `count` slots of an array that starts with 1000 slots and
    doubles whenever it is full.
   */
  method CollectAndSortEntries(table: map<HashKey, Entry>, bucketId: u64) returns (entries: array<EntryWithTime>, count: nat)
    ensures count <= entries.Length
    ensures ListsExactly(entries[..count], BucketItems(table, bucketId, {}))
    ensures SortedByTime(entries[..count])
  {
    entries, count := CollectEntries(table, bucketId);
    SortEntries(entries, count);
  }

  /** The first pass of `collect_and_sort_entries`: the bucket's pairs in table order. */
  method CollectEntries(table: map<HashKey, Entry>, bucketId: u64) returns (entries: array<EntryWithTime>, count: nat)
    ensures fresh(entries) && count <= entries.Length
    ensures ListsExactly(entries[..count], BucketItems(table, bucketId, {}))
  {
    var arraySize := 1000;
    entries := new EntryWithTime[arraySize];
    count := 0;
    ghost var collected: seq<EntryWithTime> := [];
    var todo := table.Keys;
    while todo != {}
      invariant todo <= table.Keys
      invariant entries.Length == arraySize >= 1000 && count <= arraySize && fresh(entries)
      invariant entries[..count] == collected
      invariant ListsExactly(collected, BucketItems(table, bucketId, todo))
      decreases |todo|
    {
      var k :| k in todo;
      CollectStep(collected, table, bucketId, todo, k);
      if k.bucketId == bucketId {
        entries, arraySize := Push(entries, arraySize, count, ItemOf(table, k));
        collected := collected + [ItemOf(table, k)];
        count := count + 1;
      }
      todo := todo - {k};
    }
  }

  /**
    Storing the next pair in slot `count`: when the array is full, it is
    first replaced by one twice the size holding the same first `count`
    pairs (`repalloc`).
   */
  method Push(entries: array<EntryWithTime>, arraySize: nat, count: nat, x: EntryWithTime)
    returns (result: array<EntryWithTime>, newSize: nat)
    requires entries.Length == arraySize >= 1000 && count <= arraySize
    modifies entries
    ensures result.Length == newSize >= 1000 && count < newSize
    ensures newSize == if count >= arraySize then 2 * arraySize else arraySize
    ensures result == entries || fresh(result)
    ensures result[..count + 1] == old(entries[..count]) + [x]
  {
    result, newSize := entries, arraySize;
    if count >= arraySize {
      newSize := arraySize * 2;
      result := new EntryWithTime[newSize];
      forall i | 0 <= i < count {
        result[i] := entries[i];
      }
    }
    ghost var before := result[..count];
    result[count] := x;
    assert result[..count + 1] == before + [x];
  }

  /** The `qsort` of the first `count` slots with `compare_entries_by_time`. */
  method SortEntries(entries: array<EntryWithTime>, count: nat)
    requires count <= entries.Length
    modifies entries
    ensures entries[..count] == SortByTime(old(entries[..count]))
  {
    var sorted := SortByTime(entries[..count]);
    forall i | 0 <= i < count {
      entries[i] := sorted[i];
    }
    assert entries[..count] == sorted;
  }

  // ---------------------------------------------------------------------------
  // The top-300 cut

  /**
    The first `n` entries of a list sorted by time have times no smaller
    than any entry left out.
   */
  lemma TopEntriesHaveLargestTimes(s: seq<EntryWithTime>, top: seq<EntryWithTime>, x: EntryWithTime)
    requires SortedByTime(s) && top <= s
    requires x in multiset(s) && x !in multiset(top)
    ensures forall i :: 0 <= i < |top| ==> top[i].totalTime >= x.totalTime
  {
    forall t | 0 <= t < |top|
      ensures s[t] != x
    {
      assert s[t] == top[t];
    }
    var j :| 0 <= j < |s| && s[j] == x;
  }

  /**
    The rows exported for a bucket whose entries are `items`: none exactly
    when the bucket is empty; at most `MAX_QUERIES_PER_BUCKET`, sorted by
    time, each an entry of the bucket and none twice; all of them when
    fewer than the maximum are exported; and none left out has a larger
    time than one exported.
   */
  ghost predicate TopRows(exported: seq<EntryWithTime>, items: map<HashKey, EntryWithTime>)
  {
    (exported == [] <==> items == map[]) &&
    |exported| <= MAX_QUERIES_PER_BUCKET &&
    SortedByTime(exported) &&
    (forall x :: x in multiset(exported) ==> x.key in items && items[x.key] == x) &&
    (forall x :: x in multiset(exported) ==> multiset(exported)[x] == 1) &&
    (|exported| < MAX_QUERIES_PER_BUCKET ==> forall k :: k in items ==> items[k] in multiset(exported)) &&
    (forall k :: k in items && items[k] !in multiset(exported) ==>
       forall i :: 0 <= i < |exported| ==> exported[i].totalTime >= items[k].totalTime)
  }

  /**
    `pgsm_export_bucket_to_table(bucketId)`: the bucket's entries collected
    and sorted, cut to the first `MAX_QUERIES_PER_BUCKET`. When there are
    none, the export succeeds without building any SQL; otherwise it
    succeeds when the statement does (`sqlSucceeds`, the result of running
    it). Returns the outcome and the rows the statement is built from.
   */
  method ExportBucket(table: map<HashKey, Entry>, bucketId: u64, sqlSucceeds: bool) returns (ok: bool, exported: seq<EntryWithTime>)
    ensures TopRows(exported, BucketItems(table, bucketId, {}))
    ensures ok == (BucketItems(table, bucketId, {}) == map[] || sqlSucceeds)
  {
    var entries, entryCount := CollectAndSortEntries(table, bucketId);
    var queriesToExport := if entryCount > MAX_QUERIES_PER_BUCKET then MAX_QUERIES_PER_BUCKET else entryCount;
    exported := entries[..queriesToExport];
    TopOfSorted(entries[..entryCount], BucketItems(table, bucketId, {}), exported);
    if queriesToExport == 0 {
      return true, exported;
    }
    ok := sqlSucceeds;
  }

  /** The first `min(|all|, MAX_QUERIES_PER_BUCKET)` of a sorted exact listing of `items` are its top rows. */
  lemma TopOfSorted(all: seq<EntryWithTime>, items: map<HashKey, EntryWithTime>, exported: seq<EntryWithTime>)
    requires ListsExactly(all, items) && SortedByTime(all)
    requires exported == all[..if |all| > MAX_QUERIES_PER_BUCKET then MAX_QUERIES_PER_BUCKET else |all|]
    ensures TopRows(exported, items)
  {
    PrefixOfListing(all, items, exported);
    PrefixCoverage(all, items, exported);
    forall k | k in items && items[k] !in multiset(exported)
      ensures forall i :: 0 <= i < |exported| ==> exported[i].totalTime >= items[k].totalTime
    {
      TopEntriesHaveLargestTimes(all, exported, items[k]);
    }
  }

  /** A prefix of a sorted exact listing is sorted and lists entries of `items`, none twice. */
  lemma PrefixOfListing(all: seq<EntryWithTime>, items: map<HashKey, EntryWithTime>, exported: seq<EntryWithTime>)
    requires ListsExactly(all, items) && SortedByTime(all) && exported <= all
    ensures SortedByTime(exported)
    ensures forall x :: x in multiset(exported) ==> x.key in items && items[x.key] == x
    ensures forall x :: x in multiset(exported) ==> multiset(exported)[x] == 1
  {
    var rest := all[|exported|..];
    assert all == exported + rest;
    assert multiset(all) == multiset(exported) + multiset(rest);
  }

  /** A prefix of an exact listing is empty only when `items` is, and the whole listing covers `items`. */
  lemma PrefixCoverage(all: seq<EntryWithTime>, items: map<HashKey, EntryWithTime>, exported: seq<EntryWithTime>)
    requires ListsExactly(all, items) && exported <= all && (all != [] ==> exported != [])
    ensures exported == [] <==> items == map[]
    ensures |exported| == |all| ==> forall k :: k in items ==> items[k] in multiset(exported)
  {
    if items != map[] {
      var k :| k in items;
      assert items[k] in multiset(all);
    }
    if all != [] {
      assert all[0] in multiset(all);
    }
    if |exported| == |all| {
      assert exported == all;
    }
  }

  // ---------------------------------------------------------------------------
  // The command-type columns

  /** The numbering of `CmdType` in PostgreSQL 15 and later, which have `CMD_MERGE`. */
  function CmdTypeValue(c: CmdType): (v: int)
    ensures 0 <= v <= 7
  {
    match c
    case CmdUnknown => 0
    case CmdSelect => 1
    case CmdUpdate => 2
    case CmdInsert => 3
    case CmdDelete => 4
    case CmdMerge => 5
    case CmdUtility => 6
    case CmdNothing => 7
  }

  /** The `cmd_type` column: the number, or `NULL` for `CMD_NOTHING`. */
  function CmdTypeColumn(c: CmdType): (col: string)
    ensures col == "NULL" <==> c == CmdNothing
  {
    if c != CmdNothing then
      var col := IntText(CmdTypeValue(c));
      IntTextShape(CmdTypeValue(c));
      assert col[0] != 'N';
      col
    else "NULL"
  }

  /** The keyword the `cmd_type_text` column shows, if any. */
  function CmdTypeText(c: CmdType): (t: Option<string>)
    ensures t.Some? <==> c in {CmdSelect, CmdUpdate, CmdInsert, CmdDelete, CmdUtility}
  {
    match c
    case CmdSelect => Some("SELECT")
    case CmdUpdate => Some("UPDATE")
    case CmdInsert => Some("INSERT")
    case CmdDelete => Some("DELETE")
    case CmdUtility => Some("UTILITY")
    case _ => None
  }

  /** The `cmd_type_text` column: the quoted keyword, or `NULL` for every other command type. */
  function CmdTypeTextColumn(c: CmdType): (col: string)
    ensures CmdTypeText(c).None? <==> col == "NULL"
  {
    match CmdTypeText(c)
    case Some(kw) =>
      var col := "'" + kw + "'";
      assert col[0] != 'N';
      col
    case None => "NULL"
  }

  /** The command type a keyword names. */
  function KeywordCmdType(kw: string): Option<CmdType>
  {
    if kw == "SELECT" then Some(CmdSelect)
    else if kw == "UPDATE" then Some(CmdUpdate)
    else if kw == "INSERT" then Some(CmdInsert)
    else if kw == "DELETE" then Some(CmdDelete)
    else if kw == "UTILITY" then Some(CmdUtility)
    else None
  }

  /** Each keyword names exactly the command type it was shown for, so no two types share one. */
  lemma CmdTypeTextReadsBack(c: CmdType)
    ensures CmdTypeText(c).Some? ==> KeywordCmdType(CmdTypeText(c).value) == Some(c)
  {
  }

  lemma CmdTypeTextInjective(a: CmdType, b: CmdType)
    requires CmdTypeText(a).Some? && CmdTypeText(a) == CmdTypeText(b)
    ensures a == b
  {
    CmdTypeTextReadsBack(a);
    CmdTypeTextReadsBack(b);
  }

  /** The numeric column reads back as the command type's number. */
  lemma CmdTypeColumnReadsBack(c: CmdType)
    requires c != CmdNothing
    ensures ParseInt(CmdTypeColumn(c)) == CmdTypeValue(c)
  {
    ParseIntText(CmdTypeValue(c));
  }

  // ---------------------------------------------------------------------------
  // The bucket to export

  /** `(uint64) -1`: no export is pending. */
  const NO_PENDING_EXPORT: u64 := U64_LIMIT - 1

  /** The result of `pg_stat_monitor_export`. */
  datatype ExportCall = ExportCall(target: u64, exportedBuckets: int, bucketToExport: u64)

  /**
    `pg_stat_monitor_export`: export the pending bucket, or the current one
    when none is pending; on success report one bucket and clear the
    pending mark. `exportBucket` is the outcome of the export of a bucket.
   */
  function Export(bucketToExport: u64, currentBucket: u64, exportBucket: u64 -> bool): (r: ExportCall)
    ensures r.target == (if bucketToExport == NO_PENDING_EXPORT then currentBucket else bucketToExport)
    ensures r.exportedBuckets == (if exportBucket(r.target) then 1 else 0)
    ensures r.bucketToExport == NO_PENDING_EXPORT <==> bucketToExport == NO_PENDING_EXPORT || exportBucket(r.target)
    ensures r.bucketToExport != NO_PENDING_EXPORT ==> r.bucketToExport == bucketToExport
  {
    var target := if bucketToExport == NO_PENDING_EXPORT then currentBucket else bucketToExport;
    if exportBucket(target) then ExportCall(target, 1, NO_PENDING_EXPORT)
    else ExportCall(target, 0, bucketToExport)
  }

  /**
    A pending bucket stays pending until an export of it succeeds, so the
    next call, whatever the current bucket and the outcome of its SQL then,
    targets it again; after a success the next call exports the current
    bucket of that call.
   */
  lemma PendingExportRetried(bucketToExport: u64, currentBucket: u64, exportBucket: u64 -> bool,
                             nextCurrent: u64, nextExport: u64 -> bool)
    requires bucketToExport != NO_PENDING_EXPORT
    ensures var r := Export(bucketToExport, currentBucket, exportBucket);
      var next := Export(r.bucketToExport, nextCurrent, nextExport);
      if exportBucket(bucketToExport) then r.bucketToExport == NO_PENDING_EXPORT && next.target == nextCurrent
      else r.bucketToExport == bucketToExport && next.target == bucketToExport
  {
  }
}
