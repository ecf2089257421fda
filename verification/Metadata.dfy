/** HashTable/Cache/Metadata.h: the four bytes in front of a cached value. The highest bit is the
    access bit of CLOCK, the other 31 are the time the record was created, little endian. */
module CacheMetadata {
  import opened BucketChain
  import opened RecordCodec
  import Bits

  const META_SIZE: nat := 4        // c_metaDataSize
  const ACCESS_BIT_BYTE: nat := 3  // s_accessBitByte
  const EPOCH_TIME_MASK: nat := 0x7FFF_FFFF
  const ACCESS_SET_MASK: nat := 0x80
  const ACCESS_UNSET_MASK: nat := 0x7F
  const TIMES: nat := 0x8000_0000  // number of different stored times

  /** The word a new record starts with. */
  function Stamp(curEpochTime: nat): (word: Blob)
    ensures |word| == META_SIZE
  {
    LittleEndian(Bits.BitAnd(curEpochTime, EPOCH_TIME_MASK), META_SIZE)
  }

  function EpochTime(word: Blob): nat
    requires |word| >= META_SIZE
  {
    Bits.BitAnd(FromLittleEndian(word[..META_SIZE]), EPOCH_TIME_MASK)
  }

  predicate IsExpired(word: Blob, curEpochTime: nat, timeToLive: int)
    requires |word| >= META_SIZE
  {
    curEpochTime - EpochTime(word) > timeToLive
  }

  /** The masks of a byte, as arithmetic. */
  lemma AccessBit(b: byte)
    ensures Bits.BitAnd(b as nat, ACCESS_SET_MASK) == if b >= 128 then 128 else 0
    ensures Bits.BitOr(b as nat, ACCESS_SET_MASK) == if b >= 128 then b as nat else b as nat + 128
    ensures Bits.BitAnd(b as nat, ACCESS_UNSET_MASK) == b as nat % 128
  {
    hide Bits.BitAnd, Bits.BitOr, Bits.ShiftRight, Bits.Pow2;
    SmallPowers();
    Bits.TopBit(b as nat, 7);
    Bits.MaskOneBit(b as nat, 7);
    Bits.AndMaskIsMod(b as nat, 7);
  }

  lemma SmallPowers()
    ensures Bits.Pow2(7) == 128 && Bits.Pow2(8) == 256
  {
    assert Bits.Pow2(4) == 16;
  }

  predicate BitOn(b: byte) {
    Bits.BitAnd(b as nat, ACCESS_SET_MASK) != 0
  }

  predicate IsAccessed(word: Blob)
    requires |word| >= META_SIZE
  {
    BitOn(word[ACCESS_BIT_BYTE])
  }

  function SetBit(b: byte): byte {
    AccessBit(b);
    Bits.BitOr(b as nat, ACCESS_SET_MASK) as byte
  }

  function UnsetBit(b: byte): byte {
    AccessBit(b);
    Bits.BitAnd(b as nat, ACCESS_UNSET_MASK) as byte
  }

  /** The word after UpdateAccessStatus. */
  function WithAccess(word: Blob, on: bool): (updated: Blob)
    requires |word| >= META_SIZE
    ensures |updated| == |word|
  {
    if on == IsAccessed(word) then word
    else word[ACCESS_BIT_BYTE := if on then SetBit(word[ACCESS_BIT_BYTE]) else UnsetBit(word[ACCESS_BIT_BYTE])]
  }

  // ----- the time -----

  lemma MaskIsMod(x: nat)
    ensures Bits.BitAnd(x, EPOCH_TIME_MASK) == x % TIMES
  {
    assert Bits.Pow2(11) == 2048;
    assert Bits.Pow2(21) == 1024 * Bits.Pow2(11);
    assert Bits.Pow2(31) == 1024 * Bits.Pow2(21);
    Bits.AndMaskIsMod(x, 31);
  }

  /** The number in a word, by bytes. */
  lemma WordValue(word: Blob)
    requires |word| >= META_SIZE
    ensures FromLittleEndian(word[..META_SIZE])
      == word[0] as nat + 0x100 * word[1] as nat + 0x1_0000 * word[2] as nat + 0x100_0000 * word[3] as nat
  {
    var w := word[..META_SIZE];
    var w1, w2, w3 := w[1..], w[2..], w[3..];
    assert w1[1..] == w2 && w2[1..] == w3 && w3[1..] == [];
    assert FromLittleEndian(w3) == word[3] as nat;
    assert FromLittleEndian(w2) == word[2] as nat + 256 * FromLittleEndian(w3);
    assert FromLittleEndian(w1) == word[1] as nat + 256 * FromLittleEndian(w2);
  }

  lemma BitIsHighest(b: byte)
    ensures BitOn(b) <==> b >= 128
    ensures SetBit(b) == if b >= 128 then b else b + 128
    ensures UnsetBit(b) == if b >= 128 then b - 128 else b
  {
    AccessBit(b);
    hide Bits.BitAnd, Bits.BitOr;
  }

  /** Only the 31 low bits count for the time: a change of the access bit does not touch it. */
  lemma EpochTimeValue(word: Blob)
    requires |word| >= META_SIZE
    ensures EpochTime(word)
      == word[0] as nat + 0x100 * word[1] as nat + 0x1_0000 * word[2] as nat + 0x100_0000 * (word[3] as nat % 128)
  {
    WordValue(word);
    MaskIsMod(FromLittleEndian(word[..META_SIZE]));
    var low := word[0] as nat + 0x100 * word[1] as nat + 0x1_0000 * word[2] as nat
      + 0x100_0000 * (word[3] as nat % 128);
    Bits.ModUnique(FromLittleEndian(word[..META_SIZE]), TIMES, word[3] as nat / 128, low);
  }

  lemma StampValue(t: nat, value: Blob)
    ensures FromLittleEndian((Stamp(t) + value)[..META_SIZE]) == t % TIMES
  {
    MaskIsMod(t);
    SizesFit();
    LittleEndianRoundTrip(t % TIMES, META_SIZE);
    SliceOfFirst(Stamp(t), value);
    hide LittleEndian, FromLittleEndian, Power256;
  }

  /** A new word holds the creation time, as far as 31 bits go, and is not accessed. */
  lemma StampHoldsTime(t: nat, value: Blob)
    ensures EpochTime(Stamp(t) + value) == t % TIMES && !IsAccessed(Stamp(t) + value)
  {
    hide Stamp, FromLittleEndian, BitOn, Bits.BitAnd;
    var word := Stamp(t) + value;
    StampValue(t, value);
    MaskOfShort(t % TIMES);
    WordValue(word);
    BitIsHighest(word[ACCESS_BIT_BYTE]);
    HighByte(word[0] as nat, word[1] as nat, word[2] as nat, word[3] as nat);
  }

  lemma MaskOfShort(x: nat)
    requires x < TIMES
    ensures Bits.BitAnd(x, EPOCH_TIME_MASK) == x
  {
    MaskIsMod(x);
  }

  lemma HighByte(a: nat, b: nat, c: nat, d: nat)
    requires a + 0x100 * b + 0x1_0000 * c + 0x100_0000 * d < TIMES
    ensures d < 128
  {
  }

  /** UpdateAccessStatus changes the access bit and nothing else. */
  lemma UpdateIsIndependent(word: Blob, on: bool)
    requires |word| >= META_SIZE
    ensures EpochTime(WithAccess(word, on)) == EpochTime(word)
    ensures IsAccessed(WithAccess(word, on)) == on
    ensures WithAccess(word, on)[META_SIZE..] == word[META_SIZE..]
  {
    hide BitOn, SetBit, UnsetBit, EpochTime;
    BitIsHighest(word[ACCESS_BIT_BYTE]);
    BitIsHighest(WithAccess(word, on)[ACCESS_BIT_BYTE]);
    EpochTimeValue(word);
    EpochTimeValue(WithAccess(word, on));
  }

  function UpdateAll(word: Blob, sets: seq<bool>): (updated: Blob)
    requires |word| >= META_SIZE
    ensures |updated| == |word|
  {
    if sets == [] then word else WithAccess(UpdateAll(word, sets[..|sets| - 1]), sets[|sets| - 1])
  }

  /** Over any sequence of updates the time and the value stay, and the bit is the last one stored. */
  lemma {:induction false} UpdatesAreIndependent(word: Blob, sets: seq<bool>)
    requires |word| >= META_SIZE
    ensures EpochTime(UpdateAll(word, sets)) == EpochTime(word)
    ensures UpdateAll(word, sets)[META_SIZE..] == word[META_SIZE..]
    ensures IsAccessed(UpdateAll(word, sets)) == if sets == [] then IsAccessed(word) else sets[|sets| - 1]
  {
    if sets != [] {
      UpdatesAreIndependent(word, sets[..|sets| - 1]);
      UpdateIsIndependent(UpdateAll(word, sets[..|sets| - 1]), sets[|sets| - 1]);
    }
  }

  /** A record made at time t is expired exactly when it is older than its time to live, as long as
      its time fits 31 bits; from then on every record looks older than it is. */
  lemma ExpiryOfStamp(t: nat, value: Blob, sets: seq<bool>, curEpochTime: nat, timeToLive: int)
    requires t <= curEpochTime
    ensures var word := UpdateAll(Stamp(t) + value, sets);
      && (curEpochTime - t > timeToLive ==> IsExpired(word, curEpochTime, timeToLive))
      && (IsExpired(word, curEpochTime, timeToLive) <==> curEpochTime - t > timeToLive - TIMES * (t / TIMES))
  {
    StampHoldsTime(t, value);
    UpdatesAreIndependent(Stamp(t) + value, sets);
  }

  /** The object form: a view of the metadata at the start of a buffer. */
  class Metadata {
    const metadata: array<byte>

    ghost predicate Valid() {
      metadata.Length >= META_SIZE
    }

    constructor (metadata: array<byte>)
      requires metadata.Length >= META_SIZE
      ensures Valid() && this.metadata == metadata
    {
      this.metadata := metadata;
    }

    /** Starts the metadata with the current time. */
    constructor New(metadata: array<byte>, curEpochTime: nat)
      requires metadata.Length >= META_SIZE
      modifies metadata
      ensures Valid() && this.metadata == metadata
      ensures metadata[..] == Stamp(curEpochTime) + old(metadata[META_SIZE..])
    {
      this.metadata := metadata;
      new;
      CopyInto(metadata, 0, Stamp(curEpochTime));
    }

    method GetEpochTime() returns (t: nat)
      requires Valid()
      ensures t == EpochTime(metadata[..])
    {
      assert metadata[..][..META_SIZE] == metadata[..META_SIZE];
      t := Bits.BitAnd(FromLittleEndian(metadata[..META_SIZE]), EPOCH_TIME_MASK);
    }

    /** Returns the previous bit; the time and the bytes behind the word stay. */
    method UpdateAccessStatus(on: bool) returns (isAccessBitOn: bool)
      requires Valid()
      modifies metadata
      ensures isAccessBitOn == IsAccessed(old(metadata[..]))
      ensures metadata[..] == WithAccess(old(metadata[..]), on)
    {
      isAccessBitOn := BitOn(metadata[ACCESS_BIT_BYTE]);
      if on != isAccessBitOn {
        if on {
          metadata[ACCESS_BIT_BYTE] := SetBit(metadata[ACCESS_BIT_BYTE]);
        } else {
          metadata[ACCESS_BIT_BYTE] := UnsetBit(metadata[ACCESS_BIT_BYTE]);
        }
      }
    }
  }
}
