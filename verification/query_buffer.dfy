/**
  The query-text buffer of hash_query.c and the eviction plan computed over it.

  The buffer is a byte array: an 8-byte header word holding the used length,
  then records `(queryid:8, usage:8, len:8, text:len)` back to back from
  offset 8. The usage word is the bit pattern of a non-negative double; for
  such values the unsigned order of the patterns is the numeric order, so the
  model compares the words.
 */
module QueryBuffer {
  import opened Wrappers
  import opened Bytes
  import opened PgStatMonitor

  const HEADER_SIZE: nat := 8
  const RECORD_HEADER_SIZE: nat := 24

  datatype Record = Record(queryId: u64, usage: u64, text: seq<byte>)

  function RecordSize(r: Record): nat
  {
    RECORD_HEADER_SIZE + |r.text|
  }

  function RecordBytes(r: Record): (b: seq<byte>)
    ensures |b| == RecordSize(r)
  {
    EncodeLE(r.queryId, 8) + EncodeLE(r.usage, 8) + EncodeLE(|r.text|, 8) + r.text
  }

  /** Total size of the records, without the header word. */
  function BodySize(rs: seq<Record>): nat
  {
    if rs == [] then 0 else BodySize(rs[..|rs| - 1]) + RecordSize(rs[|rs| - 1])
  }

  /** The records laid out back to back. */
  function Body(rs: seq<Record>): (b: seq<byte>)
    ensures |b| == BodySize(rs)
  {
    if rs == [] then [] else Body(rs[..|rs| - 1]) + RecordBytes(rs[|rs| - 1])
  }

  /** The value of the header word: the end of the last record. */
  function UsedLength(rs: seq<Record>): nat
  {
    HEADER_SIZE + BodySize(rs)
  }

  /** The byte layout of a buffer holding `rs`. */
  function Serialize(rs: seq<Record>): (b: seq<byte>)
    ensures |b| == UsedLength(rs)
  {
    EncodeLE(UsedLength(rs), 8) + Body(rs)
  }

  /** The header word can hold the used length. */
  predicate Fits(rs: seq<Record>)
  {
    UsedLength(rs) < U64_LIMIT
  }

  /** Where record `i` starts. */
  function Offset(rs: seq<Record>, i: nat): nat
    requires i <= |rs|
  {
    HEADER_SIZE + BodySize(rs[..i])
  }

  lemma {:induction false} BodySizeAppend(a: seq<Record>, b: seq<Record>)
    ensures BodySize(a + b) == BodySize(a) + BodySize(b)
    decreases |b|
  {
    if b != [] {
      assert (a + b)[..|a + b| - 1] == a + b[..|b| - 1];
      BodySizeAppend(a, b[..|b| - 1]);
    } else {
      assert a + b == a;
    }
  }

  lemma {:induction false} BodyAppend(a: seq<Record>, b: seq<Record>)
    ensures Body(a + b) == Body(a) + Body(b)
    decreases |b|
  {
    if b != [] {
      assert (a + b)[..|a + b| - 1] == a + b[..|b| - 1];
      BodyAppend(a, b[..|b| - 1]);
    } else {
      assert a + b == a;
    }
  }

  /** Offsets grow by each record's size, so they are strictly increasing. */
  lemma OffsetStep(rs: seq<Record>, i: nat)
    requires i < |rs|
    ensures Offset(rs, i + 1) == Offset(rs, i) + RecordSize(rs[i])
  {
    assert rs[..i + 1] == rs[..i] + [rs[i]];
    BodySizeAppend(rs[..i], [rs[i]]);
    assert BodySize([rs[i]]) == RecordSize(rs[i]) by {
      assert [rs[i]][..0] == [];
    }
  }

  lemma {:induction false} OffsetBelowEnd(rs: seq<Record>, i: nat)
    requires i < |rs|
    ensures Offset(rs, i) < Offset(rs, i + 1) <= UsedLength(rs)
    decreases |rs| - i
  {
    OffsetStep(rs, i);
    if i + 1 < |rs| {
      OffsetBelowEnd(rs, i + 1);
    } else {
      assert rs[..i + 1] == rs;
    }
  }

  /** The walk is inside the used part exactly while records remain. */
  lemma OffsetBeforeEnd(rs: seq<Record>, i: nat)
    requires i <= |rs|
    ensures i < |rs| <==> Offset(rs, i) < UsedLength(rs)
  {
    if i < |rs| {
      OffsetBelowEnd(rs, i);
    } else {
      assert rs[..i] == rs;
    }
  }

  lemma SliceMiddle<T>(x: seq<T>, r: seq<T>, y: seq<T>)
    ensures (x + r + y)[|x|..|x| + |r|] == r
  {
  }

  lemma SliceInside<T>(x: seq<T>, m: seq<T>, y: seq<T>, lo: nat, hi: nat)
    requires lo <= hi <= |m|
    ensures (x + m + y)[|x| + lo..|x| + hi] == m[lo..hi]
  {
    var a, b := (x + m + y)[|x| + lo..|x| + hi], m[lo..hi];
    forall j | 0 <= j < |b|
      ensures a[j] == b[j]
    {
      assert a[j] == (x + m + y)[|x| + lo + j];
    }
  }

  lemma SubSlice<T>(s: seq<T>, lo: nat, hi: nat, a: nat, b: nat)
    requires lo <= hi <= |s| && a <= b <= hi - lo
    ensures s[lo..hi][a..b] == s[lo + a..lo + b]
  {
    var x, y := s[lo..hi][a..b], s[lo + a..lo + b];
    assert |x| == |y|;
    forall k | 0 <= k < |x|
      ensures x[k] == y[k]
    {
      assert x[k] == s[lo..hi][a + k];
    }
  }

  /** The bytes of record `i` sit at its offset in the body. */
  lemma RecordInBody(rs: seq<Record>, i: nat)
    requires i < |rs|
    ensures BodySize(rs[..i]) + RecordSize(rs[i]) <= |Body(rs)|
    ensures Body(rs)[BodySize(rs[..i])..BodySize(rs[..i]) + RecordSize(rs[i])] == RecordBytes(rs[i])
  {
    var a, b := rs[..i + 1], rs[i + 1..];
    assert rs == a + b;
    BodyAppend(a, b);
    assert a[..|a| - 1] == rs[..i];
    assert Body(rs) == Body(rs[..i]) + RecordBytes(rs[i]) + Body(b);
    SliceMiddle(Body(rs[..i]), RecordBytes(rs[i]), Body(b));
  }

  /** The bytes of record `i` sit at its offset in the serialised buffer. */
  lemma RecordInBuffer(rs: seq<Record>, rest: seq<byte>, i: nat)
    requires i < |rs|
    ensures Offset(rs, i) + RecordSize(rs[i]) <= |Serialize(rs) + rest|
    ensures (Serialize(rs) + rest)[Offset(rs, i)..Offset(rs, i) + RecordSize(rs[i])] == RecordBytes(rs[i])
  {
    RecordInBody(rs, i);
    var h, body := EncodeLE(UsedLength(rs), 8), Body(rs);
    var lo := BodySize(rs[..i]);
    var hi := lo + RecordSize(rs[i]);
    assert Serialize(rs) + rest == h + body + rest;
    SliceInside(h, body, rest, lo, hi);
  }

  /** The 8-byte word at `pos`. */
  function ReadU64(buf: seq<byte>, pos: nat): (r: u64)
    requires pos + 8 <= |buf|
  {
    DecodeBelowLimit(buf[pos..pos + 8]);
    DecodeLE(buf[pos..pos + 8])
  }

  lemma {:induction false} DecodeBound(s: seq<byte>)
    ensures DecodeLE(s) < Pow256(|s|)
  {
    if s != [] {
      DecodeBound(s[1..]);
    }
  }

  lemma DecodeBelowLimit(s: seq<byte>)
    requires |s| == 8
    ensures DecodeLE(s) < U64_LIMIT
  {
    DecodeBound(s);
    Pow256Eight();
  }

  /** Whether a whole record can be read at `pos`. */
  predicate RecordReadable(buf: seq<byte>, pos: nat)
  {
    pos + RECORD_HEADER_SIZE <= |buf| && pos + RECORD_HEADER_SIZE + ReadU64(buf, pos + 16) <= |buf|
  }

  /** The record at `pos`: its id, its usage, its length word and that many text bytes. */
  function ReadRecord(buf: seq<byte>, pos: nat): Record
    requires RecordReadable(buf, pos)
  {
    var len := ReadU64(buf, pos + 16);
    Record(ReadU64(buf, pos), ReadU64(buf, pos + 8), buf[pos + RECORD_HEADER_SIZE..pos + RECORD_HEADER_SIZE + len])
  }

  /** Reading the bytes of a record gives the record back. */
  lemma ReadRecordBytes(buf: seq<byte>, pos: nat, r: Record)
    requires pos + RecordSize(r) <= |buf| && buf[pos..pos + RecordSize(r)] == RecordBytes(r)
    requires |r.text| < U64_LIMIT
    ensures RecordReadable(buf, pos) && ReadU64(buf, pos + 16) == |r.text|
    ensures ReadRecord(buf, pos) == r
  {
    var a, b, c := EncodeLE(r.queryId, 8), EncodeLE(r.usage, 8), EncodeLE(|r.text|, 8);
    var rb := RecordBytes(r);
    assert rb == a + b + c + r.text;
    SliceMiddle([], a, b + c + r.text);
    SliceMiddle(a, b, c + r.text);
    SliceMiddle(a + b, c, r.text);
    SliceMiddle(a + b + c, r.text, []);
    var end := pos + RecordSize(r);
    SubSlice(buf, pos, end, 0, 8);
    SubSlice(buf, pos, end, 8, 16);
    SubSlice(buf, pos, end, 16, 24);
    SubSlice(buf, pos, end, 24, RecordSize(r));
    assert buf[pos..pos + 8] == rb[..8] == a;
    assert buf[pos + 8..pos + 16] == rb[8..16] == b;
    assert buf[pos + 16..pos + 24] == rb[16..24] == c;
    assert buf[pos + 24..pos + RecordSize(r)] == rb[24..] == r.text;
    DecodeEncodeU64(r.queryId);
    DecodeEncodeU64(r.usage);
    DecodeEncodeU64(|r.text|);
  }

  /**
    The record walk of `entry_dealloc`: from `pos`, while `pos` is below the
    used length and fewer than `limit` records were taken, take the record at
    `pos` and move past its text. `None` when a record would run past the end
    of the buffer.
   */
  function Walk(buf: seq<byte>, pos: nat, used: nat, n: nat, limit: nat): Option<seq<Record>>
    decreases if pos < used then used - pos else 0
  {
    if !(pos < used && n < limit) then Some([])
    else if !RecordReadable(buf, pos) then None
    else
      var r := ReadRecord(buf, pos);
      match Walk(buf, pos + RecordSize(r), used, n + 1, limit)
      case None => None
      case Some(rest) => Some([r] + rest)
  }

  /** Walk a whole buffer from the first record, reading the header word first. */
  function ParseBuffer(buf: seq<byte>, limit: nat): Option<seq<Record>>
  {
    if |buf| < HEADER_SIZE then None else Walk(buf, HEADER_SIZE, ReadU64(buf, 0), 0, limit)
  }

  lemma UsedLengthInHeader(rs: seq<Record>, rest: seq<byte>)
    requires Fits(rs)
    ensures ReadU64(Serialize(rs) + rest, 0) == UsedLength(rs)
  {
    var buf := Serialize(rs) + rest;
    assert buf[0..8] == EncodeLE(UsedLength(rs), 8);
    DecodeEncodeU64(UsedLength(rs));
  }

  lemma TextFits(rs: seq<Record>, i: nat)
    requires Fits(rs) && i < |rs|
    ensures |rs[i].text| < U64_LIMIT
  {
    OffsetBelowEnd(rs, i);
    OffsetStep(rs, i);
  }

  /** One step of the walk over a serialised buffer: the record at the cursor is the next one. */
  lemma WalkStep(rs: seq<Record>, rest: seq<byte>, i: nat)
    requires Fits(rs) && i <= |rs| && Offset(rs, i) < UsedLength(rs)
    ensures i < |rs|
    ensures var buf := Serialize(rs) + rest;
      RecordReadable(buf, Offset(rs, i)) && ReadRecord(buf, Offset(rs, i)) == rs[i] &&
      Offset(rs, i + 1) == Offset(rs, i) + RecordSize(rs[i]) &&
      rs[..i + 1] == rs[..i] + [rs[i]]
  {
    OffsetBeforeEnd(rs, i);
    RecordAt(rs, rest, i);
  }

  /** The record at index `i` of a serialised buffer is readable at its offset and reads back as `rs[i]`. */
  lemma RecordAt(rs: seq<Record>, rest: seq<byte>, i: nat)
    requires Fits(rs) && i < |rs|
    ensures var buf := Serialize(rs) + rest;
      Offset(rs, i) < UsedLength(rs) &&
      RecordReadable(buf, Offset(rs, i)) && ReadRecord(buf, Offset(rs, i)) == rs[i] &&
      Offset(rs, i + 1) == Offset(rs, i) + RecordSize(rs[i])
  {
    OffsetBelowEnd(rs, i);
    RecordInBuffer(rs, rest, i);
    TextFits(rs, i);
    OffsetStep(rs, i);
    ReadRecordBytes(Serialize(rs) + rest, Offset(rs, i), rs[i]);
  }

  lemma SliceFirst<T>(s: seq<T>, i: nat, j: nat)
    requires i < j <= |s|
    ensures s[i..j] == [s[i]] + s[i + 1..j]
  {
  }

  /** A walk that reads `r` at the cursor and then `rest` gives `r` followed by `rest`. */
  lemma WalkOne(buf: seq<byte>, pos: nat, next: nat, used: nat, n: nat, limit: nat, r: Record, rest: seq<Record>)
    requires pos < used && n < limit && RecordReadable(buf, pos) && ReadRecord(buf, pos) == r
    requires next == pos + RecordSize(r) && Walk(buf, next, used, n + 1, limit) == Some(rest)
    ensures Walk(buf, pos, used, n, limit) == Some([r] + rest)
  {
  }

  lemma {:induction false} WalkSerialized(rs: seq<Record>, rest: seq<byte>, i: nat, limit: nat)
    requires Fits(rs) && i <= |rs| && i <= limit
    ensures Walk(Serialize(rs) + rest, Offset(rs, i), UsedLength(rs), i, limit) == Some(rs[i..Min(limit, |rs|)])
    decreases |rs| - i
  {
    var buf := Serialize(rs) + rest;
    if i < |rs| && i < limit {
      RecordAt(rs, rest, i);
      WalkSerialized(rs, rest, i + 1, limit);
      WalkOne(buf, Offset(rs, i), Offset(rs, i + 1), UsedLength(rs), i, limit, rs[i], rs[i + 1..Min(limit, |rs|)]);
      SliceFirst(rs, i, Min(limit, |rs|));
    } else if i == |rs| {
      assert rs[..i] == rs;
      assert Offset(rs, i) == UsedLength(rs);
      assert Walk(buf, Offset(rs, i), UsedLength(rs), i, limit) == Some([]);
      assert rs[i..Min(limit, |rs|)] == [];
    }
  }

  /**
    Round trip: walking a serialised buffer, whatever follows the used part,
    gives back the first `limit` records.
   */
  lemma ParseSerialize(rs: seq<Record>, rest: seq<byte>, limit: nat)
    requires Fits(rs)
    ensures ParseBuffer(Serialize(rs) + rest, limit) == Some(rs[..Min(limit, |rs|)])
  {
    UsedLengthInHeader(rs, rest);
    assert rs[..0] == [];
    WalkSerialized(rs, rest, 0, limit);
  }

  function Min(a: int, b: int): int { if a < b then a else b }
  function Max(a: int, b: int): int { if a < b then b else a }

  /**
    `nvictims`: the larger of ten and `pct` percent of the `n` records
    walked, and never more than `n`.
   */
  function VictimCount(n: nat, pct: nat): (v: nat)
    ensures v <= n
    ensures v >= Min(10, n) && v >= Min(n * pct / 100, n)
    ensures v == Min(10, n) || v == Min(n * pct / 100, n)
  {
    Min(Max(10, n * pct / 100), n)
  }

  ghost predicate SortedByUsage(s: seq<Record>)
  {
    forall i, j :: 0 <= i < j < |s| ==> s[i].usage <= s[j].usage
  }

  /** `entry_cmp_usage`: the `qsort` comparator, on the usage words of two records. */
  function CmpUsage(a: Record, b: Record): (c: int)
    ensures c < 0 <==> a.usage < b.usage
    ensures c > 0 <==> a.usage > b.usage
    ensures -1 <= c <= 1
  {
    if a.usage < b.usage then -1
    else if a.usage > b.usage then 1
    else 0
  }

  /** The comparator is antisymmetric and total, as `qsort` requires. */
  lemma CmpUsageAntisymmetric(a: Record, b: Record)
    ensures CmpUsage(a, b) == -CmpUsage(b, a)
    ensures CmpUsage(a, b) == 0 <==> a.usage == b.usage
  {
  }

  /** A sequence is sorted by usage exactly when the comparator finds no pair out of order. */
  lemma SortedIffNoInversion(s: seq<Record>)
    ensures SortedByUsage(s) <==> forall i, j :: 0 <= i < j < |s| ==> CmpUsage(s[i], s[j]) <= 0
  {
  }

  lemma ConsSorted(x: Record, t: seq<Record>)
    requires SortedByUsage(t) && forall k :: 0 <= k < |t| ==> x.usage <= t[k].usage
    ensures SortedByUsage([x] + t)
  {
    var u := [x] + t;
    forall i, j | 0 <= i < j < |u|
      ensures u[i].usage <= u[j].usage
    {
      if i > 0 {
        assert u[i] == t[i - 1] && u[j] == t[j - 1];
      }
    }
  }

  /** A lower bound on every element carries over to any permutation. */
  lemma BoundThroughPermutation(x: Record, t: seq<Record>, u: seq<Record>)
    requires multiset(t) == multiset(u) && forall k :: 0 <= k < |u| ==> x.usage <= u[k].usage
    ensures forall k :: 0 <= k < |t| ==> x.usage <= t[k].usage
  {
    forall k | 0 <= k < |t|
      ensures x.usage <= t[k].usage
    {
      assert t[k] in multiset(u);
    }
  }

  function InsertByUsage(r: Record, s: seq<Record>): (t: seq<Record>)
    requires SortedByUsage(s)
    ensures SortedByUsage(t) && multiset(t) == multiset(s) + multiset{r}
  {
    if s == [] || r.usage <= s[0].usage then
      ConsSorted(r, s);
      [r] + s
    else
      var t' := InsertByUsage(r, s[1..]);
      InsertBehindHead(r, s, t');
      [s[0]] + t'
  }

  /** Putting the head back in front of the tail with `r` inserted keeps the order and the records. */
  lemma InsertBehindHead(r: Record, s: seq<Record>, t': seq<Record>)
    requires SortedByUsage(s) && s != [] && s[0].usage < r.usage
    requires SortedByUsage(t') && multiset(t') == multiset(s[1..]) + multiset{r}
    ensures SortedByUsage([s[0]] + t') && multiset([s[0]] + t') == multiset(s) + multiset{r}
  {
    assert s == [s[0]] + s[1..];
    BoundThroughPermutation(s[0], t', s[1..] + [r]);
    ConsSorted(s[0], t');
  }

  /** The `qsort` by increasing usage: a sorted permutation. */
  function SortByUsage(s: seq<Record>): (t: seq<Record>)
    ensures SortedByUsage(t) && multiset(t) == multiset(s)
  {
    if s == [] then []
    else
      assert s == [s[0]] + s[1..];
      InsertByUsage(s[0], SortByUsage(s[1..]))
  }

  lemma {:induction false} InsertKeepsSize(r: Record, s: seq<Record>)
    requires SortedByUsage(s)
    ensures BodySize(InsertByUsage(r, s)) == RecordSize(r) + BodySize(s)
  {
    if s == [] || r.usage <= s[0].usage {
      BodySizeAppend([r], s);
      assert [r][..0] == [];
    } else {
      InsertKeepsSize(r, s[1..]);
      BodySizeAppend([s[0]], InsertByUsage(r, s[1..]));
      BodySizeAppend([s[0]], s[1..]);
      assert [s[0]][..0] == [];
      assert s == [s[0]] + s[1..];
    }
  }

  /** Sorting moves records but does not change how many bytes they take. */
  lemma {:induction false} SortKeepsSize(s: seq<Record>)
    ensures |SortByUsage(s)| == |s| && BodySize(SortByUsage(s)) == BodySize(s)
  {
    var t := SortByUsage(s);
    assert |t| == |multiset(t)| == |multiset(s)| == |s|;
    if s != [] {
      SortKeepsSize(s[1..]);
      InsertKeepsSize(s[0], SortByUsage(s[1..]));
      BodySizeAppend([s[0]], s[1..]);
      assert [s[0]][..0] == [];
      assert s == [s[0]] + s[1..];
    }
  }

  /**
    The map built while copying the kept records: each query id to the offset
    of its first record in the compacted buffer.
   */
  function FirstOffsets(rs: seq<Record>): map<u64, nat>
  {
    if rs == [] then map[]
    else
      var m := FirstOffsets(rs[..|rs| - 1]);
      var r := rs[|rs| - 1];
      if r.queryId in m then m else m[r.queryId := Offset(rs, |rs| - 1)]
  }

  /** Record `i` is the first of `rs` with query id `id`. */
  predicate FirstWith(rs: seq<Record>, id: u64, i: nat)
  {
    i < |rs| && rs[i].queryId == id && forall j :: 0 <= j < i ==> rs[j].queryId != id
  }

  /** An id is kept iff some record has it, and it maps to the offset of the first such record. */
  lemma {:induction false} FirstOffsetsMeaning(rs: seq<Record>, id: u64)
    ensures id in FirstOffsets(rs) <==> exists i :: 0 <= i < |rs| && rs[i].queryId == id
    ensures id in FirstOffsets(rs) ==> exists i: nat :: FirstWith(rs, id, i) && FirstOffsets(rs)[id] == Offset(rs, i)
    decreases |rs|
  {
    if rs != [] {
      var p := rs[..|rs| - 1];
      FirstOffsetsMeaning(p, id);
      PrefixOffsets(rs, p);
      if id in FirstOffsets(p) {
        var i: nat :| FirstWith(p, id, i) && FirstOffsets(p)[id] == Offset(p, i);
        assert FirstWith(rs, id, i);
      } else if rs[|rs| - 1].queryId == id {
        assert FirstWith(rs, id, |rs| - 1);
      } else {
        forall i | 0 <= i < |rs|
          ensures rs[i].queryId != id
        {
          if i < |p| { assert rs[i] == p[i]; }
        }
      }
    }
  }

  /** Dropping the last record moves no offset before it, and keeps the records before it. */
  lemma PrefixOffsets(rs: seq<Record>, p: seq<Record>)
    requires rs != [] && p == rs[..|rs| - 1]
    ensures forall i :: 0 <= i <= |p| ==> Offset(p, i) == Offset(rs, i)
    ensures forall j :: 0 <= j < |p| ==> rs[j] == p[j]
  {
    forall i | 0 <= i <= |p|
      ensures Offset(p, i) == Offset(rs, i)
    {
      assert p[..i] == rs[..i];
    }
  }

  /** Every kept position points at a record of that query in the compacted buffer. */
  lemma FirstOffsetsPointAtRecords(rs: seq<Record>, rest: seq<byte>, id: u64)
    requires Fits(rs) && id in FirstOffsets(rs)
    ensures var buf := Serialize(rs) + rest;
      var pos := FirstOffsets(rs)[id];
      RecordReadable(buf, pos) && ReadRecord(buf, pos).queryId == id
  {
    FirstOffsetsMeaning(rs, id);
    var i :| 0 <= i < |rs| && rs[i].queryId == id && FirstOffsets(rs)[id] == Offset(rs, i) &&
      forall j :: 0 <= j < i ==> rs[j].queryId != id;
    RecordInBuffer(rs, rest, i);
    TextFits(rs, i);
    OffsetStep(rs, i);
    ReadRecordBytes(Serialize(rs) + rest, Offset(rs, i), rs[i]);
  }

  /** What `entry_dealloc` computes from the records it walks. */
  datatype EvictionPlan = EvictionPlan(walked: seq<Record>, sorted: seq<Record>, nvictims: nat, kept: seq<Record>, keep: map<u64, nat>)

  function PlanEviction(records: seq<Record>, numEntries: nat, pct: nat): (p: EvictionPlan)
    ensures |p.walked| == Min(numEntries, |records|) && p.walked == records[..|p.walked|]
    ensures multiset(p.sorted) == multiset(p.walked) && SortedByUsage(p.sorted) && |p.sorted| == |p.walked|
    ensures p.nvictims == VictimCount(|p.walked|, pct) <= |p.sorted|
    ensures p.kept == p.sorted[p.nvictims..] && p.keep == FirstOffsets(p.kept)
  {
    var walked := records[..Min(numEntries, |records|)];
    var sorted := SortByUsage(walked);
    SortKeepsSize(walked);
    var v := VictimCount(|sorted|, pct);
    EvictionPlan(walked, sorted, v, sorted[v..], FirstOffsets(sorted[v..]))
  }

  /** Every victim has usage no greater than any record that is kept. */
  lemma VictimsHaveLowestUsage(records: seq<Record>, numEntries: nat, pct: nat)
    ensures var p := PlanEviction(records, numEntries, pct);
      forall i, j :: 0 <= i < p.nvictims <= j < |p.sorted| ==> p.sorted[i].usage <= p.sorted[j].usage
  {
  }

  lemma BodySizeSplit(s: seq<Record>, n: nat)
    requires n <= |s|
    ensures BodySize(s[..n]) <= BodySize(s) && BodySize(s[n..]) <= BodySize(s)
  {
    assert s == s[..n] + s[n..];
    BodySizeAppend(s[..n], s[n..]);
  }

  /** The compacted buffer is no longer than the one it replaces. */
  lemma KeptFits(records: seq<Record>, numEntries: nat, pct: nat)
    ensures var p := PlanEviction(records, numEntries, pct);
      UsedLength(p.kept) <= UsedLength(records)
  {
    var p := PlanEviction(records, numEntries, pct);
    SortKeepsSize(p.walked);
    BodySizeSplit(p.sorted, p.nvictims);
    BodySizeSplit(records, |p.walked|);
  }

  function MinUsage(s: seq<Record>): (m: u64)
    requires |s| > 0
    ensures forall i :: 0 <= i < |s| ==> m <= s[i].usage
    ensures exists i :: 0 <= i < |s| && s[i].usage == m
  {
    if |s| == 1 then s[0].usage
    else
      var m := MinUsage(s[1..]);
      assert forall i :: 1 <= i < |s| ==> s[i] == s[1..][i - 1];
      if s[0].usage <= m then s[0].usage else m
  }

  function MaxUsage(s: seq<Record>): (m: u64)
    requires |s| > 0
    ensures forall i :: 0 <= i < |s| ==> s[i].usage <= m
    ensures exists i :: 0 <= i < |s| && s[i].usage == m
  {
    if |s| == 1 then s[0].usage
    else
      var m := MaxUsage(s[1..]);
      assert forall i :: 1 <= i < |s| ==> s[i] == s[1..][i - 1];
      if s[0].usage >= m then s[0].usage else m
  }

  /**
    For any sorted permutation of the walked records, the element at index
    n/2 has a usage between the least and the greatest usage walked.
   */
  lemma MedianWithinRange(walked: seq<Record>, sorted: seq<Record>)
    requires multiset(sorted) == multiset(walked) && SortedByUsage(sorted) && |sorted| > 0
    ensures MinUsage(walked) <= sorted[|sorted| / 2].usage <= MaxUsage(walked)
  {
    var m := sorted[|sorted| / 2];
    assert m in multiset(walked);
  }

  /**
    The median `entry_dealloc` records: the usage at index n/2 of the
    sorted walk, none when nothing was walked. It lies between the least and
    the greatest usage walked.
   */
  function PlanMedian(records: seq<Record>, numEntries: nat, pct: nat): (m: Option<u64>)
    ensures var p := PlanEviction(records, numEntries, pct);
      (m.Some? <==> |p.walked| > 0) &&
      (m.Some? ==> MinUsage(p.walked) <= m.value <= MaxUsage(p.walked))
  {
    var p := PlanEviction(records, numEntries, pct);
    if |p.walked| > 0 then
      MedianWithinRange(p.walked, p.sorted);
      Some(p.sorted[|p.walked| / 2].usage)
    else
      None
  }

  /** Removing the record at `j` takes one copy of it out of the multiset. */
  lemma RemoveAt(b: seq<Record>, j: nat)
    requires j < |b|
    ensures multiset(b[..j] + b[j + 1..]) == multiset(b) - multiset{b[j]}
  {
    assert b == b[..j] + [b[j]] + b[j + 1..];
  }

  /** Removing the record at `j` keeps the others in their order. */
  lemma RemoveAtSorted(b: seq<Record>, j: nat)
    requires j < |b| && SortedByUsage(b)
    ensures var rest := b[..j] + b[j + 1..];
      SortedByUsage(rest) && forall m :: 0 <= m < |rest| ==> rest[m] == if m < j then b[m] else b[m + 1]
  {
    var rest := b[..j] + b[j + 1..];
    forall m | 0 <= m < |rest|
      ensures rest[m] == if m < j then b[m] else b[m + 1]
    {
    }
  }

  /**
    Two orders of the same records by usage differ only among equal
    usages: position by position, the usages agree.
   */
  /** `rest` is `b` with the record at `j` taken out. */
  predicate Without(rest: seq<Record>, b: seq<Record>, j: nat)
  {
    j < |b| && |rest| + 1 == |b| &&
    forall m :: 0 <= m < |rest| ==> rest[m] == if m < j then b[m] else b[m + 1]
  }

  /** Position by position, `a` and `b` hold records of the same usage. */
  predicate UsagesAgree(a: seq<Record>, b: seq<Record>)
  {
    |a| == |b| && forall i :: 0 <= i < |a| ==> a[i].usage == b[i].usage
  }

  /** The records in usage order, less the one at `j`, are still in usage order. */
  lemma RemoveOne(b: seq<Record>, j: nat) returns (rest: seq<Record>)
    requires j < |b| && SortedByUsage(b)
    ensures Without(rest, b, j) && SortedByUsage(rest)
    ensures multiset(rest) == multiset(b) - multiset{b[j]}
  {
    rest := b[..j] + b[j + 1..];
    RemoveAt(b, j);
    RemoveAtSorted(b, j);
  }

  /** The records in usage order, less the first, are still in usage order. */
  lemma DropFirst(a: seq<Record>)
    requires |a| > 0 && SortedByUsage(a)
    ensures SortedByUsage(a[1..]) && multiset(a[1..]) == multiset(a) - multiset{a[0]}
  {
    assert a == [a[0]] + a[1..];
  }

  /** Two usage orders of the same records agree on the usage at every position. */
  lemma {:induction false} SortedUsagesAgree(a: seq<Record>, b: seq<Record>)
    requires multiset(a) == multiset(b) && SortedByUsage(a) && SortedByUsage(b)
    ensures UsagesAgree(a, b)
    decreases |a|
  {
    assert |a| == |multiset(a)| == |multiset(b)| == |b|;
    if |a| > 0 {
      var x := a[0];
      assert x in multiset(b);
      var j :| 0 <= j < |b| && b[j] == x;
      assert b[0] in multiset(a);
      var k :| 0 <= k < |a| && a[k] == b[0];
      assert b[0].usage == x.usage;
      var rest := RemoveOne(b, j);
      DropFirst(a);
      SortedUsagesAgree(a[1..], rest);
      EqualUsagePrefix(b, j);
      ShiftAgree(a, b, rest, j);
    }
  }

  /** In usage order, a record of the same usage as the first has only that usage before it. */
  lemma EqualUsagePrefix(b: seq<Record>, j: nat)
    requires j < |b| && SortedByUsage(b) && b[0].usage == b[j].usage
    ensures forall i :: 0 <= i <= j ==> b[i].usage == b[j].usage
  {
    forall i | 0 <= i <= j
      ensures b[i].usage == b[j].usage
    {
      assert b[0].usage <= b[i].usage;
    }
  }

  /**
    The step of `SortedUsagesAgree`: `a` is a first record followed by
    `a[1..]`, and `b` is `rest` with a record of that usage put back at `j`,
    after records of the same usage only.
   */
  lemma ShiftAgree(a: seq<Record>, b: seq<Record>, rest: seq<Record>, j: nat)
    requires Without(rest, b, j) && |a| == |b| && a[0] == b[j]
    requires forall i :: 0 <= i <= j ==> b[i].usage == b[j].usage
    requires UsagesAgree(a[1..], rest)
    ensures UsagesAgree(a, b)
  {
    forall i | 0 < i < |a|
      ensures a[i].usage == b[i].usage
    {
      assert a[i] == a[1..][i - 1];
    }
  }

  /**
    `qsort` is not stable, so records of equal usage may come out in any
    order. Whatever order it picks, the median, and the usage at each
    victim and kept position, are those of the plan.
   */
  lemma TieOrderIrrelevant(records: seq<Record>, numEntries: nat, pct: nat, sorted: seq<Record>)
    requires var p := PlanEviction(records, numEntries, pct);
      multiset(sorted) == multiset(p.walked) && SortedByUsage(sorted)
    ensures var p := PlanEviction(records, numEntries, pct);
      |sorted| == |p.sorted| &&
      (|sorted| > 0 ==> PlanMedian(records, numEntries, pct) == Some(sorted[|sorted| / 2].usage)) &&
      (forall i :: 0 <= i < p.nvictims ==> sorted[i].usage == p.sorted[i].usage) &&
      (forall i :: 0 <= i < |p.kept| ==> sorted[p.nvictims + i].usage == p.kept[i].usage)
  {
    var p := PlanEviction(records, numEntries, pct);
    SortedUsagesAgree(sorted, p.sorted);
    AgreeAtVictimsAndKept(sorted, p.sorted, p.nvictims, p.kept);
  }

  /** Orders that agree on usage agree on the victims' usages, the kept ones' and the middle one. */
  lemma AgreeAtVictimsAndKept(sorted: seq<Record>, planned: seq<Record>, nvictims: nat, kept: seq<Record>)
    requires UsagesAgree(sorted, planned) && nvictims <= |planned| && kept == planned[nvictims..]
    ensures |sorted| > 0 ==> sorted[|sorted| / 2].usage == planned[|planned| / 2].usage
    ensures forall i :: 0 <= i < nvictims ==> sorted[i].usage == planned[i].usage
    ensures forall i :: 0 <= i < |kept| ==> sorted[nvictims + i].usage == kept[i].usage
  {
  }

  /** The table after eviction: entries whose query id was kept, re-pointed at the kept record. */
  function Evict(table: map<HashKey, Entry>, keep: map<u64, nat>): map<HashKey, Entry>
  {
    map k | k in table && k.queryId in keep :: table[k].(queryPos := keep[k.queryId])
  }

  /**
    An entry survives eviction exactly when its query id was kept, and then
    only its query position changes.
   */
  lemma EvictSurvivors(table: map<HashKey, Entry>, keep: map<u64, nat>, k: HashKey)
    ensures k in Evict(table, keep) <==> k in table && k.queryId in keep
    ensures k in Evict(table, keep) ==>
      Evict(table, keep)[k] == table[k].(queryPos := keep[k.queryId])
  {
  }
}
