/** ReadWrite/Serializer.h: the binary dump of a whole table and its loading. */
module TableSerializer {
  import opened Wrappers
  import opened BucketChain
  import opened PerfCounter
  import opened Accounting
  import opened RecordCodec
  import opened SharedTable
  import opened ReadWriteTable
  import opened TableListing
  import TableIterator

  const VERSION: byte := 1        // c_version
  const SETTING_SIZE: nat := 16   // sizeof(Setting)
  const PADDING: nat := 2         // between its 16-bit and the next 32-bit member

  // ----- the format -----

  ghost predicate SettingFits(s: Setting) {
    s.numBuckets < U32 && s.numBucketsPerMutex < U32 && s.fixedKeySize < U16 && s.fixedValueSize < U32
  }

  ghost predicate RecordFits(r: Record) {
    |r.key| < U16 && |r.value| < U32
  }

  /** The settings as they are in memory; the padding bytes may hold anything. */
  function SettingBytes(s: Setting, padding: seq<byte>): seq<byte> {
    LittleEndian(s.numBuckets, 4) + LittleEndian(s.numBucketsPerMutex, 4) + LittleEndian(s.fixedKeySize, 2) + padding
    + LittleEndian(s.fixedValueSize, 4)
  }

  function RecordBytes(r: Record): seq<byte> {
    LittleEndian(|r.key|, KEY_SIZE_BYTES) + r.key + LittleEndian(|r.value|, VALUE_SIZE_BYTES) + r.value
  }

  /** A record is announced by 1, the end by 0. */
  function RecordsBytes(rs: seq<Record>): seq<byte> {
    if rs == [] then [0] else [1] + RecordBytes(rs[0]) + RecordsBytes(rs[1..])
  }

  function Dump(s: Setting, padding: seq<byte>, rs: seq<Record>): seq<byte> {
    [VERSION] + SettingBytes(s, padding) + RecordsBytes(rs)
  }

  // ----- reading it -----

  /** What a reader takes from a stream, and what it leaves. */
  datatype Parsed<T> = Parsed(value: T, rest: seq<byte>)

  function ParseNumber(s: seq<byte>, n: nat): Result<Parsed<nat>, string> {
    if |s| < n then Err("The stream ends early.") else Ok(Parsed(FromLittleEndian(s[..n]), s[n..]))
  }

  function ParseBytes(s: seq<byte>, n: nat): Result<Parsed<seq<byte>>, string> {
    if |s| < n then Err("The stream ends early.") else Ok(Parsed(s[..n], s[n..]))
  }

  function ParseSetting(s: seq<byte>): Result<Parsed<Setting>, string> {
    if |s| < SETTING_SIZE then Err("The stream ends early.")
    else Ok(Parsed(Setting(FromLittleEndian(s[..4]), FromLittleEndian(s[4..8]), FromLittleEndian(s[8..10]),
                           FromLittleEndian(s[12..16])), s[SETTING_SIZE..]))
  }

  function ParseBlob(s: seq<byte>, sizeBytes: nat): Result<Parsed<Blob>, string> {
    match ParseNumber(s, sizeBytes)
    case Err(e) => Err(e)
    case Ok(size) => ParseBytes(size.rest, size.value)
  }

  function ParseRecord(s: seq<byte>): Result<Parsed<Record>, string> {
    match ParseBlob(s, KEY_SIZE_BYTES)
    case Err(e) => Err(e)
    case Ok(key) =>
      match ParseBlob(key.rest, VALUE_SIZE_BYTES)
      case Err(e) => Err(e)
      case Ok(value) => Ok(Parsed(Record(key.value, value.value), value.rest))
  }

  lemma RecordIsConsumed(s: seq<byte>)
    ensures ParseRecord(s).Ok? ==> |ParseRecord(s).value.rest| < |s|
  {
  }

  function ParseRecords(s: seq<byte>): Result<Parsed<seq<Record>>, string>
    decreases |s|
  {
    if s == [] then Err("The stream ends early.")
    else if s[0] == 0 then Ok(Parsed([], s[1..]))
    else if s[0] != 1 then Err("Neither true nor false.")
    else
      match ParseRecord(s[1..])
      case Err(e) => Err(e)
      case Ok(first) =>
        RecordIsConsumed(s[1..]);
        Prepended([first.value], ParseRecords(first.rest))
  }

  function Prepended(done: seq<Record>, more: Result<Parsed<seq<Record>>, string>)
    : Result<Parsed<seq<Record>>, string>
  {
    match more
    case Err(e) => Err(e)
    case Ok(p) => Ok(Parsed(done + p.value, p.rest))
  }

  datatype Content = Content(setting: Setting, records: seq<Record>)

  function ParseDump(s: seq<byte>): Result<Parsed<Content>, string> {
    if s == [] then Err("The stream ends early.")
    else if s[0] != VERSION then Err("Unsupported version is given.")
    else
      match ParseSetting(s[1..])
      case Err(e) => Err(e)
      case Ok(setting) =>
        match ParseRecords(setting.rest)
        case Err(e) => Err(e)
        case Ok(records) => Ok(Parsed(Content(setting.value, records.value), records.rest))
  }

  /** What a loaded content must meet for its table to be built. */
  ghost predicate Loadable(c: Content) {
    && c.setting.numBuckets > 0 && DistinctKeys(c.records)
    && forall r :: r in c.records ==>
      && (c.setting.fixedKeySize == 0 || |r.key| == c.setting.fixedKeySize)
      && (c.setting.fixedValueSize == 0 || |r.value| == c.setting.fixedValueSize)
  }

  // ----- reading back what was written -----

  lemma NumberReadBack(x: nat, n: nat, rest: seq<byte>)
    requires x < Power256(n)
    ensures ParseNumber(LittleEndian(x, n) + rest, n) == Ok(Parsed(x, rest))
  {
    LittleEndianRoundTrip(x, n);
    SliceOfFirst(LittleEndian(x, n), rest);
  }

  lemma BlobReadBack(b: Blob, n: nat, rest: seq<byte>)
    requires |b| < Power256(n)
    ensures ParseBlob(LittleEndian(|b|, n) + b + rest, n) == Ok(Parsed(b, rest))
  {
    assert LittleEndian(|b|, n) + b + rest == LittleEndian(|b|, n) + (b + rest);
    NumberReadBack(|b|, n, b + rest);
    SliceOfFirst(b, rest);
  }

  lemma RecordReadBack(r: Record, rest: seq<byte>)
    requires RecordFits(r)
    ensures ParseRecord(RecordBytes(r) + rest) == Ok(Parsed(r, rest))
  {
    SizesFit();
    hide LittleEndian, ParseBlob;
    var tail := LittleEndian(|r.value|, VALUE_SIZE_BYTES) + r.value + rest;
    assert RecordBytes(r) + rest == LittleEndian(|r.key|, KEY_SIZE_BYTES) + r.key + tail;
    BlobReadBack(r.key, KEY_SIZE_BYTES, tail);
    BlobReadBack(r.value, VALUE_SIZE_BYTES, rest);
  }

  lemma {:induction false} RecordsReadBack(rs: seq<Record>, rest: seq<byte>)
    requires forall r :: r in rs ==> RecordFits(r)
    ensures ParseRecords(RecordsBytes(rs) + rest) == Ok(Parsed(rs, rest))
  {
    hide RecordBytes, ParseRecord;
    var s := RecordsBytes(rs) + rest;
    if rs == [] {
      assert s[1..] == rest;
    } else {
      assert s[1..] == RecordBytes(rs[0]) + (RecordsBytes(rs[1..]) + rest);
      RecordReadBack(rs[0], RecordsBytes(rs[1..]) + rest);
      RecordsReadBack(rs[1..], rest);
      assert [rs[0]] + rs[1..] == rs;
    }
  }

  lemma SettingReadBack(s: Setting, padding: seq<byte>, rest: seq<byte>)
    requires SettingFits(s) && |padding| == PADDING
    ensures ParseSetting(SettingBytes(s, padding) + rest) == Ok(Parsed(s, rest))
  {
    SizesFit();
    LittleEndianRoundTrip(s.numBuckets, 4);
    LittleEndianRoundTrip(s.numBucketsPerMutex, 4);
    LittleEndianRoundTrip(s.fixedKeySize, 2);
    LittleEndianRoundTrip(s.fixedValueSize, 4);
    hide LittleEndian, FromLittleEndian, Power256;
    var b := SettingBytes(s, padding) + rest;
    assert b[..4] == LittleEndian(s.numBuckets, 4);
    assert b[4..8] == LittleEndian(s.numBucketsPerMutex, 4);
    assert b[8..10] == LittleEndian(s.fixedKeySize, 2);
    assert b[12..16] == LittleEndian(s.fixedValueSize, 4);
    assert b[16..] == rest;
  }

  /** A dump is read back completely, and nothing behind it is touched. */
  lemma DumpReadBack(s: Setting, padding: seq<byte>, rs: seq<Record>, rest: seq<byte>)
    requires SettingFits(s) && |padding| == PADDING && forall r :: r in rs ==> RecordFits(r)
    ensures ParseDump(Dump(s, padding, rs) + rest) == Ok(Parsed(Content(s, rs), rest))
  {
    hide SettingBytes, RecordsBytes, ParseSetting, ParseRecords;
    var b := Dump(s, padding, rs) + rest;
    assert b[1..] == SettingBytes(s, padding) + (RecordsBytes(rs) + rest);
    SettingReadBack(s, padding, RecordsBytes(rs) + rest);
    RecordsReadBack(rs, rest);
  }

  /** The dump of a table is always loadable, so the exception that a repeated key would raise is
      out of reach, and the loaded records are the same map. */
  lemma DumpIsLoadable(t: Table, h: Hash, m: map<Blob, Blob>, s: Setting, padding: seq<byte>, rest: seq<byte>)
    requires TableOk(t, h) && Represents(t, h, m) && SettingFits(s) && s.numBuckets > 0 && |padding| == PADDING
    requires AllAdmitted(RecordSerializer(s.fixedKeySize, s.fixedValueSize, 0), m)
    ensures var parsed := ParseDump(Dump(s, padding, TableRecords(t)) + rest);
      && parsed.Ok? && parsed.value.rest == rest && parsed.value.value.setting == s
      && Loadable(parsed.value.value)
      && MapOf(parsed.value.value.records) == m && |parsed.value.value.records| == |m|
  {
    var rs := TableRecords(t);
    ListingIsTheMap(t, h, m);
    hide TableOk, Represents, TableRecords, Dump, ParseDump;
    forall r | r in rs
      ensures RecordFits(r) && RecordSerializer(s.fixedKeySize, s.fixedValueSize, 0).Accepts(r.key, r.value, [])
    {
      var i :| 0 <= i < |rs| && rs[i] == r;
      MapOfRecords(rs, i);
    }
    DumpReadBack(s, padding, rs, rest);
  }

  // ----- the format is exactly what is read -----

  lemma BlobParsed(s: seq<byte>, n: nat)
    requires ParseBlob(s, n).Ok?
    ensures var p := ParseBlob(s, n).value;
      |p.value| < Power256(n) && s == LittleEndian(|p.value|, n) + p.value + p.rest
  {
    hide LittleEndian, FromLittleEndian, Power256;
    var size, tail, p := s[..n], s[n..], ParseBlob(s, n).value;
    LittleEndianOfValue(size);
    NumberBound(size);
    hide ParseBlob;
    SplitAt(s, n);
    SplitAt(tail, |p.value|);
    Regrouped(size, p.value, p.rest, [], []);
  }

  lemma SplitAt(s: seq<byte>, n: nat)
    requires n <= |s|
    ensures s == s[..n] + s[n..]
  {
  }

  lemma RecordParsed(s: seq<byte>)
    requires ParseRecord(s).Ok?
    ensures var p := ParseRecord(s).value;
      RecordFits(p.value) && s == RecordBytes(p.value) + p.rest
  {
    SizesFit();
    BlobParsed(s, KEY_SIZE_BYTES);
    var key := ParseBlob(s, KEY_SIZE_BYTES).value;
    BlobParsed(key.rest, VALUE_SIZE_BYTES);
    hide LittleEndian, ParseBlob, Power256;
    var value := ParseBlob(key.rest, VALUE_SIZE_BYTES).value;
    Regrouped(LittleEndian(|key.value|, KEY_SIZE_BYTES), key.value, LittleEndian(|value.value|, VALUE_SIZE_BYTES),
              value.value, value.rest);
  }

  lemma Regrouped(a: seq<byte>, b: seq<byte>, c: seq<byte>, d: seq<byte>, rest: seq<byte>)
    ensures a + b + (c + d + rest) == (a + b + c + d) + rest
    ensures a + (b + (c + rest)) == a + b + c + rest
    ensures a + (b + c) == a + b + c
  {
  }

  lemma {:induction false} RecordsParsed(s: seq<byte>)
    requires ParseRecords(s).Ok?
    ensures var p := ParseRecords(s).value;
      s == RecordsBytes(p.value) + p.rest && forall r :: r in p.value ==> RecordFits(r)
    decreases |s|
  {
    hide RecordBytes, ParseRecord, RecordFits;
    if s[0] == 0 {
      assert s == [0] + s[1..];
    } else {
      RecordIsConsumed(s[1..]);
      RecordParsed(s[1..]);
      var first := ParseRecord(s[1..]).value;
      RecordsParsed(first.rest);
      assert s == [1] + s[1..];
      NextRecordBytes([], first.value, ParseRecords(first.rest).value.value);
    }
  }

  lemma SettingParsed(s: seq<byte>)
    requires ParseSetting(s).Ok?
    ensures var p := ParseSetting(s).value;
      |s| >= SETTING_SIZE && SettingFits(p.value) && s == SettingBytes(p.value, s[10..12]) + p.rest
  {
    SizesFit();
    LittleEndianOfValue(s[..4]);
    LittleEndianOfValue(s[4..8]);
    LittleEndianOfValue(s[8..10]);
    LittleEndianOfValue(s[12..16]);
    NumberBound(s[..4]);
    NumberBound(s[4..8]);
    NumberBound(s[8..10]);
    NumberBound(s[12..16]);
    hide LittleEndian, FromLittleEndian, Power256;
  }

  /** The stream starts with a dump of the content, and goes on with the rest. */
  ghost predicate StartsWithDump(s: seq<byte>, c: Content, rest: seq<byte>) {
    && SettingFits(c.setting) && (forall r :: r in c.records ==> RecordFits(r))
    && exists padding :: |padding| == PADDING && s == Dump(c.setting, padding, c.records) + rest
  }

  /** Reading succeeds for dumps and for nothing else, and finds what was dumped. */
  lemma ParseIsExact(s: seq<byte>, c: Content, rest: seq<byte>)
    ensures ParseDump(s) == Ok(Parsed(c, rest)) <==> StartsWithDump(s, c, rest)
  {
    hide Dump, ParseRecords, ParseSetting, SettingFits, RecordFits;
    if StartsWithDump(s, c, rest) {
      var padding :| |padding| == PADDING && s == Dump(c.setting, padding, c.records) + rest;
      DumpReadBack(c.setting, padding, c.records, rest);
    }
    if ParseDump(s) == Ok(Parsed(c, rest)) {
      DumpParsed(s);
    }
  }

  lemma DumpParsed(s: seq<byte>)
    requires ParseDump(s).Ok?
    ensures StartsWithDump(s, ParseDump(s).value.value, ParseDump(s).value.rest)
  {
    SettingParsed(s[1..]);
    var setting := ParseSetting(s[1..]).value;
    RecordsParsed(setting.rest);
    hide ParseRecords, ParseSetting, SettingFits, RecordFits, SettingBytes, RecordsBytes;
    var records, padding := ParseRecords(setting.rest).value, s[1..][10..12];
    hide ParseDump;
    assert s == [VERSION] + s[1..];
    Regrouped([VERSION], SettingBytes(setting.value, padding), RecordsBytes(records.value), [], records.rest);
    assert s == Dump(setting.value, padding, records.value) + records.rest;
  }

  /** Where the members of the settings are, and how the dump begins and ends. */
  lemma DumpInBytes(s: Setting, padding: seq<byte>, rs: seq<Record>)
    requires |padding| == PADDING
    ensures var d := Dump(s, padding, rs);
      && |d| > 17 && d[0] == 1 && d[1..5] == LittleEndian(s.numBuckets, 4)
      && d[5..9] == LittleEndian(s.numBucketsPerMutex, 4) && d[9..11] == LittleEndian(s.fixedKeySize, 2)
      && d[11..13] == padding && d[13..17] == LittleEndian(s.fixedValueSize, 4)
      && d[17..] == RecordsBytes(rs) && d[17] == if rs == [] then 0 else 1
  {
    hide LittleEndian, RecordBytes;
    SettingInBytes(s, padding);
    assert |RecordsBytes(rs)| > 0 && RecordsBytes(rs)[0] == if rs == [] then 0 else 1;
    var d := Dump(s, padding, rs);
    hide SettingBytes, RecordsBytes;
    var b := SettingBytes(s, padding);
    hide Dump;
    SliceBehind([VERSION], b, RecordsBytes(rs), 0, 4);
    SliceBehind([VERSION], b, RecordsBytes(rs), 4, 8);
    SliceBehind([VERSION], b, RecordsBytes(rs), 8, 10);
    SliceBehind([VERSION], b, RecordsBytes(rs), 10, 12);
    SliceBehind([VERSION], b, RecordsBytes(rs), 12, 16);
    assert d[17..] == RecordsBytes(rs);
  }

  lemma SliceBehind(a: seq<byte>, b: seq<byte>, c: seq<byte>, i: nat, j: nat)
    requires i <= j <= |b|
    ensures (a + b + c)[|a| + i..|a| + j] == b[i..j]
  {
  }

  lemma SettingInBytes(s: Setting, padding: seq<byte>)
    requires |padding| == PADDING
    ensures var b := SettingBytes(s, padding);
      && |b| == 16 && b[..4] == LittleEndian(s.numBuckets, 4) && b[4..8] == LittleEndian(s.numBucketsPerMutex, 4)
      && b[8..10] == LittleEndian(s.fixedKeySize, 2) && b[10..12] == padding
      && b[12..16] == LittleEndian(s.fixedValueSize, 4)
  {
    hide LittleEndian;
  }

  /** Each record is a one, the size of the key, the key, the size of the value and the value. */
  lemma RecordsInBytes(r: Record, rest: seq<Record>)
    ensures var s, v := RecordsBytes([r] + rest), 3 + |r.key|;
      && |s| > v + 4 + |r.value|
      && s[0] == 1 && s[1..3] == LittleEndian(|r.key|, 2) && s[3..v] == r.key
      && s[v..v + 4] == LittleEndian(|r.value|, 4) && s[v + 4..v + 4 + |r.value|] == r.value
      && s[v + 4 + |r.value|..] == RecordsBytes(rest)
    ensures RecordsBytes([]) == [0]
  {
    hide LittleEndian;
    NextRecordBytes([], r, rest);
    assert |RecordsBytes(rest)| > 0;
    hide RecordsBytes;
    var s := [1] + LittleEndian(|r.key|, 2) + r.key + LittleEndian(|r.value|, 4) + r.value + RecordsBytes(rest);
    assert RecordsBytes([r] + rest) == s;
  }

  // ----- streams -----

  /** std::ostream as far as it is used. */
  class OutStream {
    var bytes: seq<byte>

    constructor ()
      ensures bytes == []
    {
      bytes := [];
    }

    method Write(data: seq<byte>)
      modifies this
      ensures bytes == old(bytes) + data
    {
      bytes := bytes + data;
    }
  }

  /** std::istream; what is still to be read. */
  class InStream {
    var rest: seq<byte>

    constructor (bytes: seq<byte>)
      ensures rest == bytes
    {
      rest := bytes;
    }

    method Read(n: nat) returns (data: Result<seq<byte>, string>)
      modifies this
      ensures data == match ParseBytes(old(rest), n) case Err(e) => Err(e) case Ok(p) => Ok(p.value)
      ensures rest == match ParseBytes(old(rest), n) case Err(_) => old(rest) case Ok(p) => p.rest
    {
      if |rest| < n {
        return Err("The stream ends early.");
      }
      data := Ok(rest[..n]);
      rest := rest[n..];
    }
  }

  lemma NextRecordBytes(written: seq<byte>, r: Record, rest: seq<Record>)
    ensures written + RecordsBytes([r] + rest) == written + [1] + RecordBytes(r) + RecordsBytes(rest)
  {
    assert ([r] + rest)[1..] == rest;
  }

  method WriteRecord(r: Record, stream: OutStream)
    modifies stream
    ensures stream.bytes == old(stream.bytes) + [1] + RecordBytes(r)
  {
    stream.Write([1]);
    stream.Write(LittleEndian(|r.key|, KEY_SIZE_BYTES));
    stream.Write(r.key);
    stream.Write(LittleEndian(|r.value|, VALUE_SIZE_BYTES));
    stream.Write(r.value);
  }

  /** Serialize: the stream gets the dump of the records that the iterator yields. */
  method Serialize(table: SharedHashTable, padding: seq<byte>, stream: OutStream)
    requires table.Valid()
    modifies stream, table.perfData
    ensures table.Valid() && stream.bytes == old(stream.bytes) + Dump(table.setting, padding, TableRecords(table.view))
    ensures table.perfData.counters
      == old(table.perfData.counters)[RecordsCountSavedFromSerializer := |TableRecords(table.view)|]
  {
    hide TableOk, Represents, SettingBytes, RecordBytes, RecordsBytes, TableRecords, LittleEndian,
      SharedHashTable.HeapOk, Dump;
    table.perfData.Set(RecordsCountSavedFromSerializer, 0);
    DumpStarts(stream.bytes, table.setting, padding, TableRecords(table.view));
    stream.Write([VERSION]);
    stream.Write(SettingBytes(table.setting, padding));
    SerializeRecords(table, stream);
  }

  /** The body of the loop: the record under the cursor is written and counted. */
  method SerializeCurrent(it: TableIterator.Iterator, table: SharedHashTable, stream: OutStream)
    requires it.Valid() && it.currentEntry != null && it.currentRecord.Some? && Complete(table.perfData.counters)
    modifies stream, table.perfData
    ensures stream.bytes == old(stream.bytes) + [1] + RecordBytes(it.currentRecord.value)
    ensures Complete(table.perfData.counters)
    ensures table.perfData.counters == Plus(old(table.perfData.counters), RecordsCountSavedFromSerializer, 1)
  {
    CurrentIsValid(it);
    var record := it.GetRecord();
    WriteRecord(record.value, stream);
    table.perfData.Increment(RecordsCountSavedFromSerializer);
  }

  method SerializeRecords(table: SharedHashTable, stream: OutStream)
    requires table.Valid()
    modifies stream, table.perfData
    ensures table.Valid() && stream.bytes == old(stream.bytes) + RecordsBytes(TableRecords(table.view))
    ensures table.perfData.counters == Plus(old(table.perfData.counters), RecordsCountSavedFromSerializer,
                                            |TableRecords(table.view)|)
  {
    hide TableOk, Represents, RecordBytes, RecordsBytes, TableRecords, LittleEndian, SharedHashTable.HeapOk,
      TableIterator.Iterator.Remaining, TableIterator.Iterator.FromHere, TableIterator.Iterator.IsValid,
      TableIterator.Iterator.OnEntry;
    ghost var before, all := stream.bytes, TableRecords(table.view);
    var it := new TableIterator.Iterator(table);
    var more := it.MoveNext();
    ghost var ahead := all;
    while more
      invariant it.Valid() && table.Valid()
      invariant more <==> ahead != []
      invariant more ==> it.currentEntry != null && it.currentRecord == Some(ahead[0])
      invariant it.Remaining() == if more then ahead[1..] else []
      invariant |ahead| <= |all| && before + RecordsBytes(all) == stream.bytes + RecordsBytes(ahead)
      invariant table.perfData.counters == Plus(old(table.perfData.counters), RecordsCountSavedFromSerializer,
                                                |all| - |ahead|)
      decreases |ahead|
    {
      NextRecordBytes(stream.bytes, ahead[0], ahead[1..]);
      assert ahead == [ahead[0]] + ahead[1..];
      SerializeCurrent(it, table, stream);
      ahead := ahead[1..];
      more := it.MoveNext();
    }
    EndBytes();
    stream.Write([0]);
  }

  lemma EndBytes()
    ensures RecordsBytes([]) == [0]
  {
  }

  lemma DumpStarts(before: seq<byte>, s: Setting, padding: seq<byte>, rs: seq<Record>)
    ensures before + Dump(s, padding, rs) == before + [VERSION] + SettingBytes(s, padding) + RecordsBytes(rs)
  {
  }

  lemma CurrentIsValid(it: TableIterator.Iterator)
    requires it.Valid() && it.currentEntry != null && it.currentRecord.Some?
    ensures it.IsValid()
  {
  }

  // ----- loading -----

  /** Reads a number in n bytes. */
  method ReadNumber(stream: InStream, n: nat) returns (x: Result<nat, string>)
    modifies stream
    ensures x == match ParseNumber(old(stream.rest), n) case Err(e) => Err(e) case Ok(p) => Ok(p.value)
    ensures x.Ok? ==> stream.rest == ParseNumber(old(stream.rest), n).value.rest
  {
    var data := stream.Read(n);
    if data.Err? {
      return Err(data.error);
    }
    x := Ok(FromLittleEndian(data.value));
  }

  method ReadBlob(stream: InStream, sizeBytes: nat) returns (b: Result<Blob, string>)
    modifies stream
    ensures b == match ParseBlob(old(stream.rest), sizeBytes) case Err(e) => Err(e) case Ok(p) => Ok(p.value)
    ensures b.Ok? ==> stream.rest == ParseBlob(old(stream.rest), sizeBytes).value.rest
  {
    var size := ReadNumber(stream, sizeBytes);
    if size.Err? {
      return Err(size.error);
    }
    b := stream.Read(size.value);
  }

  method ReadRecord(stream: InStream) returns (r: Result<Record, string>)
    modifies stream
    ensures r == match ParseRecord(old(stream.rest)) case Err(e) => Err(e) case Ok(p) => Ok(p.value)
    ensures r.Ok? ==> stream.rest == ParseRecord(old(stream.rest)).value.rest
  {
    hide ParseBlob;
    var key := ReadBlob(stream, KEY_SIZE_BYTES);
    if key.Err? {
      return Err(key.error);
    }
    var value := ReadBlob(stream, VALUE_SIZE_BYTES);
    if value.Err? {
      return Err(value.error);
    }
    r := Ok(Record(key.value, value.value));
  }

  method ReadSetting(stream: InStream) returns (s: Result<Setting, string>)
    modifies stream
    ensures s == match ParseSetting(old(stream.rest)) case Err(e) => Err(e) case Ok(p) => Ok(p.value)
    ensures s.Ok? ==> stream.rest == ParseSetting(old(stream.rest)).value.rest
  {
    hide FromLittleEndian;
    ghost var all := stream.rest;
    var data := stream.Read(SETTING_SIZE);
    if data.Err? {
      return Err(data.error);
    }
    var d := data.value;
    assert d[..4] == all[..4] && d[4..8] == all[4..8] && d[8..10] == all[8..10] && d[12..16] == all[12..16];
    s := Ok(Setting(FromLittleEndian(d[..4]), FromLittleEndian(d[4..8]), FromLittleEndian(d[8..10]),
                    FromLittleEndian(d[12..16])));
  }

  lemma {:induction false} NumberBound(s: seq<byte>)
    ensures FromLittleEndian(s) < Power256(|s|)
  {
    if s != [] {
      NumberBound(s[1..]);
    }
  }

  lemma ParsedFits(s: seq<byte>)
    ensures ParseRecord(s).Ok? ==> RecordFits(ParseRecord(s).value.value)
    ensures ParseSetting(s).Ok? ==> SettingFits(ParseSetting(s).value.value)
  {
    SizesFit();
    hide FromLittleEndian, Power256;
    if ParseRecord(s).Ok? {
      var key := ParseBlob(s, KEY_SIZE_BYTES).value;
      NumberBound(s[..KEY_SIZE_BYTES]);
      NumberBound(key.rest[..VALUE_SIZE_BYTES]);
    }
    if ParseSetting(s).Ok? {
      NumberBound(s[..4]);
      NumberBound(s[4..8]);
      NumberBound(s[8..10]);
      NumberBound(s[12..16]);
    }
  }

  /** The records of a content are fit for the tables of a setting. */
  ghost predicate AllAccepted(z: RecordSerializer, rs: seq<Record>) {
    forall r :: r in rs ==> z.Accepts(r.key, r.value, [])
  }

  /** Between two records: what has been read is stored, and reading on would complete the stream. */
  ghost predicate LoadedSoFar(z: RecordSerializer, all: Result<Parsed<seq<Record>>, string>, done: seq<Record>,
                              more: bool, rest: seq<byte>, m: map<Blob, Blob>) {
    && all == Prepended(done, ParseRecords([if more then 1 else 0] + rest))
    && DistinctKeys(done) && AllAccepted(z, done) && m == MapOf(done)
  }

  lemma LoadStarts(z: RecordSerializer, s: seq<byte>)
    requires s != [] && s[0] <= 1
    ensures LoadedSoFar(z, ParseRecords(s), [], s[0] == 1, s[1..], map[])
  {
    assert s == [if s[0] == 1 then 1 else 0] + s[1..];
    hide ParseRecords;
    assert ParseRecords(s).Ok? ==> [] + ParseRecords(s).value.value == ParseRecords(s).value.value;
  }

  /** A truth value, in one byte. */
  method ReadFlag(stream: InStream) returns (flag: Result<bool, string>)
    modifies stream
    ensures flag.Err? ==> ParseRecords(old(stream.rest)).Err?
    ensures flag.Ok? ==> old(stream.rest) == [if flag.value then 1 else 0] + stream.rest
  {
    ghost var all := stream.rest;
    var data := stream.Read(1);
    if data.Err? {
      return Err(data.error);
    }
    assert all == [all[0]] + all[1..];
    if data.value[0] == 0 {
      return Ok(false);
    }
    if data.value[0] == 1 {
      return Ok(true);
    }
    flag := Err("Neither true nor false.");
  }

  /** Why the deserializer gives up after an Add: its sizes are refused, or it has released the old
      record of a key, for which the deserializer's action manager throws. */
  function Refusal(added: Result<Option<Record>, string>): Option<string> {
    match added
    case Err(e) => Some(e)
    case Ok(released) =>
      if released.Some? then Some("RegisterAction() should not be called from the serializer.") else None
  }

  lemma LoadEnds(z: RecordSerializer, all: Result<Parsed<seq<Record>>, string>, done: seq<Record>, rest: seq<byte>,
                 m: map<Blob, Blob>)
    requires LoadedSoFar(z, all, done, false, rest, m)
    ensures all == Ok(Parsed(done, rest))
  {
    assert ([0] + rest)[1..] == rest;
    assert done + [] == done;
  }

  lemma EndsEarly(done: seq<Record>, rest: seq<byte>)
    requires ParseRecord(rest).Err?
    ensures Prepended(done, ParseRecords([1] + rest)).Err?
  {
    assert ([1] + rest)[1..] == rest;
  }

  lemma AddLeavesLoaded(t: Table, u: Table, h: Hash, r: Record, k: Counters, j: Counters, overhead: nat)
    requires exists p :: Accounted(t, u, h, r, p, k, j, overhead)
    ensures RecordsCountLoadedFromSerializer in k && RecordsCountLoadedFromSerializer in j
    ensures j[RecordsCountLoadedFromSerializer] == k[RecordsCountLoadedFromSerializer]
  {
  }

  lemma ParseNext(s: seq<byte>)
    ensures ParseRecord(s).Ok? ==>
      ParseRecords([1] + s) == Prepended([ParseRecord(s).value.value], ParseRecords(ParseRecord(s).value.rest))
  {
    assert ([1] + s)[1..] == s;
  }

  lemma PrependedTwice(done: seq<Record>, r: Record, more: Result<Parsed<seq<Record>>, string>)
    ensures Prepended(done, Prepended([r], more)) == Prepended(done + [r], more)
  {
    if more.Ok? {
      assert done + ([r] + more.value.value) == done + [r] + more.value.value;
    }
  }

  /** A record that comes next is one of the content's, so the content is not loadable when the record
      is refused or its key is already there. */
  lemma NextIsInContent(z: RecordSerializer, all: Result<Parsed<seq<Record>>, string>, done: seq<Record>, r: Record,
                        more: Result<Parsed<seq<Record>>, string>)
    requires all == Prepended(done + [r], more) && all.Ok? && DistinctKeys(all.value.value)
    requires AllAccepted(z, all.value.value)
    ensures z.Accepts(r.key, r.value, []) && r.key !in MapOf(done)
  {
    var rs := all.value.value;
    assert rs[|done|] == r && rs[|done|] in rs;
    assert forall i :: 0 <= i < |done| ==> rs[i] == done[i] && rs[i].key != r.key;
    if r.key in MapOf(done) {
      MapOfKeys(done, r.key);
    }
  }

  lemma NotLoadable(z: RecordSerializer, all: Result<Parsed<seq<Record>>, string>, done: seq<Record>, r: Record,
                    more: Result<Parsed<seq<Record>>, string>)
    requires all == Prepended(done + [r], more) && (!z.Accepts(r.key, r.value, []) || r.key in MapOf(done))
    ensures !(all.Ok? && DistinctKeys(all.value.value) && AllAccepted(z, all.value.value))
  {
    if all.Ok? && DistinctKeys(all.value.value) && AllAccepted(z, all.value.value) {
      NextIsInContent(z, all, done, r, more);
    }
  }

  lemma LoadExtends(z: RecordSerializer, done: seq<Record>, r: Record)
    requires DistinctKeys(done) && AllAccepted(z, done) && z.Accepts(r.key, r.value, []) && r.key !in MapOf(done)
    ensures DistinctKeys(done + [r]) && AllAccepted(z, done + [r]) && MapOf(done + [r]) == MapOf(done)[r.key := r.value]
  {
    forall i | 0 <= i < |done| ensures done[i].key != r.key {
      MapOfRecords(done, i);
    }
    assert (done + [r])[..|done + [r]| - 1] == done;
  }

  /** The loaded table, when the content is loadable. */
  ghost predicate Holding(w: WritableHashTable, c: Content)
    reads w, w.table, w.table.buckets, w.table.entries, w.table.perfData
  {
    && w.Valid() && w.table.setting == c.setting && w.table.contents == MapOf(c.records)
    && w.table.perfData.counters[RecordsCountLoadedFromSerializer] == |c.records|
  }

  /** Deserialize: the version decides, then the table is built record by record. It succeeds exactly
      for the streams that start with a loadable dump, and reads nothing behind it. */
  method Deserialize(stream: InStream, hash: Hash, platform: Platform) returns (r: Result<WritableHashTable, string>)
    modifies stream
    ensures r.Ok? <==> ParseDump(old(stream.rest)).Ok? && Loadable(ParseDump(old(stream.rest)).value.value)
    ensures r.Ok? ==> fresh(r.value.table) && fresh(r.value.table.perfData) && r.value.table.hash == hash
    ensures r.Ok? ==> Holding(r.value, ParseDump(old(stream.rest)).value.value)
    ensures r.Ok? ==> stream.rest == ParseDump(old(stream.rest)).value.rest
  {
    hide ParseSetting, ParseRecords;
    var version := stream.Read(1);
    if version.Err? {
      return Err(version.error);
    }
    if version.value[0] != VERSION {
      return Err("Unsupported version is given.");
    }
    r := DeserializeCurrent(stream, hash, platform);
  }

  ghost predicate IsLoadable(setting: Result<Parsed<Setting>, string>) {
    && setting.Ok? && ParseRecords(setting.value.rest).Ok?
    && Loadable(Content(setting.value.value, ParseRecords(setting.value.rest).value.value))
  }

  method DeserializeCurrent(stream: InStream, hash: Hash, platform: Platform)
    returns (r: Result<WritableHashTable, string>)
    modifies stream
    ensures r.Ok? <==> IsLoadable(ParseSetting(old(stream.rest)))
    ensures r.Ok? ==> fresh(r.value.table) && fresh(r.value.table.perfData) && r.value.table.hash == hash
    ensures r.Ok? ==>
      var setting := ParseSetting(old(stream.rest)).value;
      && Holding(r.value, Content(setting.value, ParseRecords(setting.rest).value.value))
      && stream.rest == ParseRecords(setting.rest).value.rest
  {
    hide ParseSetting, ParseRecords, TableOk, Represents, Power256;
    ParsedFits(stream.rest);
    var setting := ReadSetting(stream);
    if setting.Err? {
      return Err(setting.error);
    }
    if setting.value.numBuckets == 0 {
      return Err("A table without buckets.");
    }
    var table := new SharedHashTable(setting.value, hash, platform);
    var writable := new WritableHashTable(table, RecordSerializer(setting.value.fixedKeySize,
                                                                  setting.value.fixedValueSize, 0));
    var error := LoadRecords(stream, writable);
    if error.Some? {
      return Err(error.value);
    }
    r := Ok(writable);
  }

  /** The loop of Deserialize. A key that is already there would make Add release its old record,
      which the action manager of the deserializer answers with an exception. */
  method LoadRecords(stream: InStream, w: WritableHashTable) returns (error: Option<string>)
    requires w.Valid() && w.table.contents == map[] && w.serializer.WidthsFit() && w.serializer.metadataSize == 0
    requires w.table.perfData.counters[RecordsCountLoadedFromSerializer] == 0
    modifies stream
    modifies w.table`view, w.table`chains, w.table`entries, w.table`contents, w.table.entries, w.table.perfData
    ensures w.Valid() && fresh(w.table.entries - old(w.table.entries))
    ensures var all := ParseRecords(old(stream.rest));
      error.None? <==> all.Ok? && DistinctKeys(all.value.value) && AllAccepted(w.serializer, all.value.value)
    ensures error.None? ==>
      var all := ParseRecords(old(stream.rest)).value;
      && w.table.contents == MapOf(all.value) && stream.rest == all.rest
      && w.table.perfData.counters[RecordsCountLoadedFromSerializer] == |all.value|
  {
    hide ParseRecords, ParseRecord, TableOk, Represents, AllAdmitted, MapOf, DistinctKeys, AllAccepted, Accounted,
      SharedHashTable.HeapOk;
    ghost var z, all, done := w.serializer, ParseRecords(stream.rest), [];
    var flag := ReadFlag(stream);
    if flag.Err? {
      return Some(flag.error);
    }
    LoadStarts(z, old(stream.rest));
    var hasMoreData := flag.value;
    while hasMoreData
      invariant w.Valid() && fresh(w.table.entries - old(w.table.entries)) && old(w.table.entries) <= w.table.entries
      invariant LoadedSoFar(z, all, done, hasMoreData, stream.rest, w.table.contents)
      invariant w.table.perfData.counters[RecordsCountLoadedFromSerializer] == |done|
      decreases |stream.rest|
    {
      ghost var rest := stream.rest;
      var refused;
      refused := LoadRecord(stream, w, all, done);
      if refused.Some? {
        return refused;
      }
      done := done + [ParseRecord(rest).value.value];
      RecordIsConsumed(rest);
      ghost var next := stream.rest;
      flag := ReadFlag(stream);
      if flag.Err? {
        return Some(flag.error);
      }
      hasMoreData := flag.value;
      w.table.perfData.Increment(RecordsCountLoadedFromSerializer);
    }
    LoadEnds(z, all, done, stream.rest, w.table.contents);
    error := None;
  }

  /** Reads one record and adds it. */
  method LoadRecord(stream: InStream, w: WritableHashTable, ghost all: Result<Parsed<seq<Record>>, string>,
                    ghost done: seq<Record>)
    returns (error: Option<string>)
    requires w.Valid() && w.serializer.WidthsFit() && w.serializer.metadataSize == 0
    requires LoadedSoFar(w.serializer, all, done, true, stream.rest, w.table.contents)
    modifies stream
    modifies w.table`view, w.table`chains, w.table`entries, w.table`contents, w.table.entries, w.table.perfData
    ensures w.Valid() && fresh(w.table.entries - old(w.table.entries)) && old(w.table.entries) <= w.table.entries
    ensures w.table.perfData.counters[RecordsCountLoadedFromSerializer]
      == old(w.table.perfData.counters[RecordsCountLoadedFromSerializer])
    ensures error.Some? ==> !(all.Ok? && DistinctKeys(all.value.value) && AllAccepted(w.serializer, all.value.value))
    ensures error.None? ==>
      && ParseRecord(old(stream.rest)).Ok? && stream.rest == ParseRecord(old(stream.rest)).value.rest
      && var read := done + [ParseRecord(old(stream.rest)).value.value];
         && all == Prepended(read, ParseRecords(stream.rest))
         && DistinctKeys(read) && AllAccepted(w.serializer, read) && w.table.contents == MapOf(read)
  {
    hide ParseRecords, ParseRecord, TableOk, Represents, AllAdmitted, MapOf, DistinctKeys, AllAccepted, Accounted,
      SharedHashTable.HeapOk;
    ghost var rest := stream.rest;
    ParsedFits(rest);
    ParseNext(rest);
    var record := ReadRecord(stream);
    if record.Err? {
      EndsEarly(done, rest);
      return Some(record.error);
    }
    PrependedTwice(done, record.value, ParseRecords(stream.rest));
    var added := w.Add(record.value.key, record.value.value);
    if added.Ok? {
      AddLeavesLoaded(old(w.table.view), w.table.view, w.table.hash, Record(record.value.key, record.value.value),
                      old(w.table.perfData.counters), w.table.perfData.counters,
                      w.serializer.CalculateRecordOverhead());
    }
    error := Refusal(added);
    if error.Some? {
      NotLoadable(w.serializer, all, done, record.value, ParseRecords(stream.rest));
    } else {
      LoadExtends(w.serializer, done, record.value);
    }
  }

  /** The round trip: from a stream in which anything follows it, the dump of any table loads into a
      table with the same settings and the same map; all of the dump is read and nothing behind it,
      and as many records are loaded as were saved. */
  method SaveAndLoad(w: WritableHashTable, padding: seq<byte>, behind: seq<byte>, platform: Platform)
    returns (copy: WritableHashTable, dump: seq<byte>, rest: seq<byte>)
    requires w.Valid()
    requires w.serializer == RecordSerializer(w.table.setting.fixedKeySize, w.table.setting.fixedValueSize, 0)
    requires SettingFits(w.table.setting) && |padding| == PADDING
    modifies w.table.perfData
    ensures w.Valid() && copy.Valid() && fresh(copy.table)
    ensures dump == Dump(w.table.setting, padding, TableRecords(w.table.view)) && rest == behind
    ensures copy.table.setting == w.table.setting && copy.table.contents == w.table.contents
    ensures copy.table.perfData.counters[RecordsCountLoadedFromSerializer] == |w.table.contents|
    ensures w.table.perfData.counters[RecordsCountSavedFromSerializer] == |w.table.contents|
  {
    hide TableOk, Represents, TableRecords, AllAdmitted, MapOf, Dump, ParseDump, DistinctKeys, Loadable;
    var out := new OutStream();
    SavedCount(w.table);
    Serialize(w.table, padding, out);
    assert out.bytes == Dump(w.table.setting, padding, TableRecords(w.table.view));
    DumpIsLoadable(w.table.view, w.table.hash, w.table.contents, w.table.setting, padding, behind);
    var stream := new InStream(out.bytes + behind);
    var loaded := Deserialize(stream, w.table.hash, platform);
    dump, rest := out.bytes, stream.rest;
    copy := loaded.value;
  }

  lemma SavedCount(table: SharedHashTable)
    requires table.Valid()
    ensures |TableRecords(table.view)| == |table.contents|
  {
    ListingIsTheMap(table.view, table.hash, table.contents);
  }
}
