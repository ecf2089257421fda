/** HashTable/Common/Record.h: how a record is laid out in its buffer. */
module RecordCodec {
  import opened Wrappers
  import opened BucketChain

  const KEY_SIZE_BYTES: nat := 2   // sizeof(KeySize)
  const VALUE_SIZE_BYTES: nat := 4 // sizeof(ValueSize)
  const U16: nat := 0x1_0000
  const U32: nat := 0x1_0000_0000

  /** The little-endian representation of a number in n bytes; higher bytes are cut off. */
  function LittleEndian(x: nat, n: nat): (s: seq<byte>)
    ensures |s| == n
  {
    if n == 0 then [] else [(x % 256) as byte] + LittleEndian(x / 256, n - 1)
  }

  function FromLittleEndian(s: seq<byte>): nat {
    if s == [] then 0 else s[0] as nat + 256 * FromLittleEndian(s[1..])
  }

  function Power256(n: nat): (p: nat)
    ensures p > 0
  {
    if n == 0 then 1 else 256 * Power256(n - 1)
  }

  lemma {:induction false} LittleEndianRoundTrip(x: nat, n: nat)
    requires x < Power256(n)
    ensures FromLittleEndian(LittleEndian(x, n)) == x
  {
    if n > 0 {
      LittleEndianRoundTrip(x / 256, n - 1);
      assert LittleEndian(x, n)[1..] == LittleEndian(x / 256, n - 1);
    }
  }

  lemma {:induction false} LittleEndianOfValue(s: seq<byte>)
    ensures LittleEndian(FromLittleEndian(s), |s|) == s
  {
    if s != [] {
      LittleEndianOfValue(s[1..]);
      var x := FromLittleEndian(s);
      assert x % 256 == s[0] as nat && x / 256 == FromLittleEndian(s[1..]);
    }
  }

  /** The two widths that are written, byte by byte. */
  lemma LittleEndianBytes(x: nat)
    ensures LittleEndian(x, 2) == [(x % 256) as byte, (x / 256 % 256) as byte]
    ensures LittleEndian(x, 4) == [(x % 256) as byte, (x / 256 % 256) as byte, (x / 256 / 256 % 256) as byte,
                                   (x / 256 / 256 / 256 % 256) as byte]
  {
    var y := x / 256;
    assert LittleEndian(y, 1) == [(y % 256) as byte] + LittleEndian(y / 256, 0);
    var z := y / 256;
    var w := z / 256;
    assert LittleEndian(w, 1) == [(w % 256) as byte] + LittleEndian(w / 256, 0);
    assert LittleEndian(z, 2) == [(z % 256) as byte] + LittleEndian(w, 1);
    assert LittleEndian(y, 3) == [(y % 256) as byte] + LittleEndian(z, 2);
  }

  lemma SizesFit()
    ensures Power256(KEY_SIZE_BYTES) == U16 && Power256(VALUE_SIZE_BYTES) == U32
  {
    assert Power256(2) == 256 * 256;
    assert Power256(4) == 256 * (256 * Power256(2));
  }

  /** A fixed size of zero means that the size is stored in front of each record. */
  datatype RecordSerializer = RecordSerializer(fixedKeySize: nat, fixedValueSize: nat, metadataSize: nat) {
    ghost predicate WidthsFit() {
      fixedKeySize < U16 && fixedValueSize < U32 && metadataSize < U32
    }

    function CalculateBufferSize(keySize: nat, valueSize: nat): nat {
      (if fixedKeySize != 0 then fixedKeySize else keySize + KEY_SIZE_BYTES)
      + if fixedValueSize != 0 then (fixedValueSize + metadataSize) % U32
        else valueSize + VALUE_SIZE_BYTES + metadataSize
    }

    /** The sum of the two fixed sizes fits the 32-bit word that it is computed in. */
    predicate FixedSizesFit() {
      fixedValueSize == 0 || fixedValueSize + metadataSize < U32
    }

    function CalculateRecordOverhead(): nat {
      (if fixedKeySize != 0 then 0 else KEY_SIZE_BYTES) + if fixedValueSize != 0 then 0 else VALUE_SIZE_BYTES
    }

    /** Validate, with the meta value that goes between key and value. */
    predicate Accepts(key: Blob, value: Blob, meta: Blob) {
      && (fixedKeySize == 0 || |key| == fixedKeySize)
      && (fixedValueSize == 0 || |value| == fixedValueSize)
      && |meta| == metadataSize
    }

    /** A record that Serialize can have produced: its sizes fit their fields and the settings. */
    predicate Admits(r: Record) {
      && |r.key| < U16 && |r.value| < U32
      && (fixedKeySize == 0 || |r.key| == fixedKeySize)
      && (fixedValueSize == 0 || |r.value| == fixedValueSize + metadataSize)
    }

    /** The sizes in front of a record; the sum of value and meta value is a 32-bit word. */
    function Header(keySize: nat, valueSize: nat): (s: seq<byte>)
      ensures |s| == CalculateRecordOverhead()
    {
      (if fixedKeySize == 0 then LittleEndian(keySize, KEY_SIZE_BYTES) else [])
      + if fixedValueSize == 0 then LittleEndian(valueSize % U32, VALUE_SIZE_BYTES) else []
    }

    function Layout(key: Blob, meta: Blob, value: Blob): seq<byte> {
      Header(|key|, |meta| + |value|) + key + meta + value
    }

    function StoredKeySize(buffer: seq<byte>): nat
      requires |buffer| >= CalculateRecordOverhead()
    {
      if fixedKeySize != 0 then fixedKeySize else FromLittleEndian(buffer[..KEY_SIZE_BYTES])
    }

    function StoredValueSize(buffer: seq<byte>): nat
      requires |buffer| >= CalculateRecordOverhead()
    {
      if fixedValueSize != 0 then (fixedValueSize + metadataSize) % U32
      else
        var at := CalculateRecordOverhead() - VALUE_SIZE_BYTES;
        FromLittleEndian(buffer[at..at + VALUE_SIZE_BYTES])
    }

    /** The buffer is as long as the sizes in it say. */
    predicate Complete(buffer: seq<byte>) {
      |buffer| >= CalculateRecordOverhead()
      && |buffer| >= CalculateRecordOverhead() + StoredKeySize(buffer) + StoredValueSize(buffer)
    }

    function Deserialize(buffer: seq<byte>): Record
      requires Complete(buffer)
    {
      var start := CalculateRecordOverhead();
      var keyEnd := start + StoredKeySize(buffer);
      Record(buffer[start..keyEnd], buffer[keyEnd..keyEnd + StoredValueSize(buffer)])
    }

    /** Validates, then writes the sizes, the key, the meta value and the value. An unacceptable
        record is refused before anything is written. The buffer must have room for what is written;
        LayoutFillsBuffer says when CalculateBufferSize is enough. */
    method Serialize(key: Blob, value: Blob, meta: Blob, buffer: array<byte>) returns (r: Result<(), string>)
      requires Accepts(key, value, meta) ==> |Layout(key, meta, value)| <= buffer.Length
      modifies buffer
      ensures r.Ok? <==>
        && (fixedKeySize == 0 || |key| == fixedKeySize)
        && (fixedValueSize == 0 || |value| == fixedValueSize)
        && |meta| == metadataSize
      ensures r.Ok? ==> |Layout(key, meta, value)| <= buffer.Length
      ensures r.Ok? ==> buffer[..] == Written(old(buffer[..]), 0, Layout(key, meta, value))
      ensures r.Err? ==> buffer[..] == old(buffer[..])
    {
      if !(fixedKeySize == 0 || |key| == fixedKeySize) || !(fixedValueSize == 0 || |value| == fixedValueSize) {
        return Err("Invalid key or value sizes are given.");
      }
      if metadataSize != |meta| {
        return Err("Invalid meta value size is given.");
      }
      Write(key, meta, value, buffer);
      r := Ok(());
    }

    method Write(key: Blob, meta: Blob, value: Blob, buffer: array<byte>)
      requires CalculateRecordOverhead() + |key| + |meta| + |value| <= buffer.Length
      modifies buffer
      ensures buffer[..] == Written(old(buffer[..]), 0, Layout(key, meta, value))
    {
      hide LittleEndian, Header, Written, CalculateRecordOverhead;
      ghost var header, before := Header(|key|, |meta| + |value|), buffer[..];
      var start := SerializeSizes(buffer, |key|, |meta| + |value|);
      CopyInto(buffer, start, key);
      WrittenAfter(before, header, key);
      CopyInto(buffer, start + |key|, meta);
      WrittenAfter(before, header + key, meta);
      CopyInto(buffer, start + |key| + |meta|, value);
      WrittenAfter(before, header + key + meta, value);
    }

    method SerializeSizes(buffer: array<byte>, keySize: nat, valueSize: nat) returns (start: nat)
      requires CalculateRecordOverhead() <= buffer.Length
      modifies buffer
      ensures start == CalculateRecordOverhead()
      ensures buffer[..] == Written(old(buffer[..]), 0, Header(keySize, valueSize))
    {
      hide Written, LittleEndian;
      ghost var before := buffer[..];
      ghost var key := if fixedKeySize == 0 then LittleEndian(keySize, KEY_SIZE_BYTES) else [];
      ghost var value := if fixedValueSize == 0 then LittleEndian(valueSize % U32, VALUE_SIZE_BYTES) else [];
      start := 0;
      NothingWritten(before);
      if fixedKeySize == 0 {
        CopyInto(buffer, start, LittleEndian(keySize, KEY_SIZE_BYTES));
        start := start + KEY_SIZE_BYTES;
      }
      WrittenAfter(before, key, value);
      if fixedValueSize == 0 {
        CopyInto(buffer, start, LittleEndian(valueSize % U32, VALUE_SIZE_BYTES));
        start := start + VALUE_SIZE_BYTES;
      }
      assert fixedValueSize != 0 ==> key + value == key;
    }
  }

  /** A buffer after a copy of some bytes to an offset. */
  function Written(s: seq<byte>, at: nat, data: seq<byte>): (t: seq<byte>)
    requires at + |data| <= |s|
    ensures |t| == |s|
  {
    s[..at] + data + s[at + |data|..]
  }

  lemma NothingWritten(s: seq<byte>)
    ensures Written(s, 0, []) == s
  {
  }

  /** memcpy. */
  method CopyInto(buffer: array<byte>, at: nat, data: seq<byte>)
    requires at + |data| <= buffer.Length
    modifies buffer
    ensures buffer[..] == Written(old(buffer[..]), at, data)
  {
    var i := 0;
    while i < |data|
      invariant 0 <= i <= |data|
      invariant forall j :: 0 <= j < i ==> buffer[at + j] == data[j]
      invariant forall j :: 0 <= j < buffer.Length && !(at <= j < at + i) ==> buffer[j] == old(buffer[j])
    {
      buffer[at + i] := data[i];
      i := i + 1;
    }
  }

  /** A copy right behind an earlier one continues it. */
  lemma WrittenAfter(s: seq<byte>, first: seq<byte>, second: seq<byte>)
    requires |first| + |second| <= |s|
    ensures Written(Written(s, 0, first), |first|, second) == Written(s, 0, first + second)
  {
    var t := Written(s, 0, first);
    assert t[..|first|] == first;
    assert t[|first| + |second|..] == s[|first| + |second|..];
  }

  // ----- properties of the layout -----

  /** The bytes written are overhead, key, meta value and value. CalculateBufferSize is their number
      exactly when its 32-bit sum of the fixed value size and the meta size does not wrap. */
  lemma LayoutFillsBuffer(z: RecordSerializer, key: Blob, meta: Blob, value: Blob)
    requires z.Accepts(key, value, meta)
    ensures |z.Layout(key, meta, value)| == z.CalculateRecordOverhead() + |key| + |meta| + |value|
    ensures |z.Layout(key, meta, value)| == z.CalculateBufferSize(|key|, |value|)
      <==> (z.fixedValueSize == 0 || z.fixedValueSize + z.metadataSize < U32)
  {
    WordOf(z.fixedValueSize + z.metadataSize);
  }

  /** Where the parts are: two bytes for the size of a variable key, four for that of a variable value,
      least significant first, then key, meta value and value. */
  lemma LayoutInBytes(z: RecordSerializer, key: Blob, meta: Blob, value: Blob)
    ensures var s, k := z.Layout(key, meta, value), if z.fixedKeySize == 0 then 2 else 0;
      var v, n := k + (if z.fixedValueSize == 0 then 4 else 0), (|meta| + |value|) % U32;
      && |s| == v + |key| + |meta| + |value|
      && s[..k] == (if z.fixedKeySize == 0 then [(|key| % 256) as byte, (|key| / 256 % 256) as byte] else [])
      && s[k..v] == (if z.fixedValueSize == 0 then
                       [(n % 256) as byte, (n / 256 % 256) as byte, (n / 256 / 256 % 256) as byte,
                        (n / 256 / 256 / 256 % 256) as byte]
                     else [])
      && s[v..v + |key|] == key
      && s[v + |key|..v + |key| + |meta|] == meta
      && s[v + |key| + |meta|..] == value
  {
    LittleEndianBytes(|key|);
    LittleEndianBytes((|meta| + |value|) % U32);
    hide LittleEndian;
    var a := if z.fixedKeySize == 0 then LittleEndian(|key|, 2) else [];
    var b := if z.fixedValueSize == 0 then LittleEndian((|meta| + |value|) % U32, 4) else [];
    assert z.Layout(key, meta, value) == a + b + key + meta + value;
    hide RecordSerializer.Layout;
    Slices(a, b, key);
    Slices(a + b + key, meta, value);
    SliceOfFirst(a + b + key, meta + value);
    assert a + b + key + meta + value == a + b + key + (meta + value);
  }

  lemma Slices(a: seq<byte>, b: seq<byte>, c: seq<byte>)
    ensures var s := a + b + c;
      s[..|a|] == a && s[|a|..|a| + |b|] == b && s[|a| + |b|..] == c
  {
  }

  /** Settings whose fixed value size and meta size wrap: the buffer gets 4 bytes for a record of
      more than 2^32. */
  lemma BufferTooSmall()
    ensures var z := RecordSerializer(1, U32 - 1, 4);
      && z.WidthsFit() && z.CalculateBufferSize(1, U32 - 1) == 4
      && forall key, meta, value :: z.Accepts(key, value, meta) ==> |z.Layout(key, meta, value)| == 1 + 4 + (U32 - 1)
  {
    var z := RecordSerializer(1, U32 - 1, 4);
    forall key, meta, value | z.Accepts(key, value, meta) ensures |z.Layout(key, meta, value)| == 1 + 4 + (U32 - 1) {
      LayoutFillsBuffer(z, key, meta, value);
    }
  }

  lemma SliceOfFirst(a: seq<byte>, b: seq<byte>)
    ensures (a + b)[..|a|] == a && (a + b)[|a|..] == b
  {
  }

  /** The sizes read back from a layout, whatever follows it in memory. */
  lemma StoredSizes(z: RecordSerializer, key: Blob, meta: Blob, value: Blob, rest: seq<byte>)
    requires z.WidthsFit() && z.Accepts(key, value, meta) && |key| < U16
    ensures var buffer := z.Layout(key, meta, value) + rest;
      z.StoredKeySize(buffer) == |key| && z.StoredValueSize(buffer) == (|meta| + |value|) % U32
  {
    var buffer := z.Layout(key, meta, value) + rest;
    var k, v := LittleEndian(|key|, KEY_SIZE_BYTES), LittleEndian((|meta| + |value|) % U32, VALUE_SIZE_BYTES);
    SizesFit();
    LittleEndianRoundTrip(|key|, KEY_SIZE_BYTES);
    LittleEndianRoundTrip((|meta| + |value|) % U32, VALUE_SIZE_BYTES);
    hide LittleEndian, FromLittleEndian, Power256;
    if z.fixedKeySize == 0 {
      assert buffer[..KEY_SIZE_BYTES] == k;
    }
    if z.fixedValueSize == 0 {
      var at := z.CalculateRecordOverhead() - VALUE_SIZE_BYTES;
      assert buffer[at..at + VALUE_SIZE_BYTES] == v;
    }
  }

  lemma RecordSlices(header: seq<byte>, key: Blob, meta: Blob, value: Blob, rest: seq<byte>)
    ensures var buffer, at := header + key + meta + value + rest, |header| + |key|;
      && buffer[|header|..at] == key
      && buffer[at..at + |meta| + |value|] == meta + value
  {
    var tail := meta + value;
    assert header + key + meta + value + rest == header + (key + (tail + rest));
    SliceOfFirst(header, key + (tail + rest));
    SliceOfFirst(key, tail + rest);
    SliceOfFirst(tail, rest);
  }

  lemma WordOf(n: nat)
    ensures n % U32 <= n && (n % U32 == n <==> n < U32)
  {
  }

  /** The round trip, for fixed and variable keys and values and any meta value: a record comes back
      exactly when its meta value and value together fit the 32-bit size. */
  lemma RoundTrip(z: RecordSerializer, key: Blob, meta: Blob, value: Blob, rest: seq<byte>)
    requires z.WidthsFit() && z.Accepts(key, value, meta) && |key| < U16
    ensures var buffer := z.Layout(key, meta, value) + rest;
      z.Complete(buffer) && (z.Deserialize(buffer) == Record(key, meta + value) <==> |meta| + |value| < U32)
  {
    StoredSizes(z, key, meta, value, rest);
    WordOf(|meta| + |value|);
    hide RecordSerializer.Header, RecordSerializer.StoredKeySize, RecordSerializer.StoredValueSize,
      RecordSerializer.Accepts, RecordSerializer.WidthsFit, RecordSerializer.CalculateRecordOverhead;
    var header := z.Header(|key|, |meta| + |value|);
    RecordSlices(header, key, meta, value, rest);
    var buffer, at := header + key + meta + value + rest, |header| + |key|;
    assert z.Deserialize(buffer) == Record(key, buffer[at..at + (|meta| + |value|) % U32]);
    if |meta| + |value| >= U32 {
      assert |z.Deserialize(buffer).value| < |meta + value|;
    }
  }
}
