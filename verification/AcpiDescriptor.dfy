/** The QWORD address space descriptor and the end tag of ACPI 2.0 resource streams, as packed
    bytes, and the scan that finds the end of a stream. */
module AcpiDescriptor {
  import opened Words

  const ADDRESS_SPACE: u8 := 0x8A
  const END_TAG: u8 := 0x79
  const RECORD_SIZE: nat := 46

  datatype Descriptor = Descriptor(
    resType: u8, genFlag: u8, specificFlag: u8,
    granularity: u64, rangeMin: u64, rangeMax: u64, translation: u64, addrLen: u64)

  function Encode(d: Descriptor): (s: seq<u8>)
    ensures |s| == RECORD_SIZE && s[0] == ADDRESS_SPACE
  {
    [ADDRESS_SPACE] + ToLe(0x2B, 2) + [d.resType, d.genFlag, d.specificFlag]
    + ToLe(d.granularity, 8) + ToLe(d.rangeMin, 8) + ToLe(d.rangeMax, 8)
    + ToLe(d.translation, 8) + ToLe(d.addrLen, 8)
  }

  function QwordAt(s: seq<u8>, off: nat): u64
    requires off + 8 <= |s|
  {
    FromLeBound(s[off..off + 8]);
    Pow256Values();
    LeAt(s, off, 8)
  }

  /** The record whose first byte is at off, read through the packed structure. */
  function Decode(s: seq<u8>, off: nat): Descriptor
    requires off + RECORD_SIZE <= |s|
  {
    Descriptor(s[off + 3], s[off + 4], s[off + 5],
               QwordAt(s, off + 6), QwordAt(s, off + 14), QwordAt(s, off + 22),
               QwordAt(s, off + 30), QwordAt(s, off + 38))
  }

  /** Eight bytes, the least significant first. */
  lemma QwordValue(s: seq<u8>, off: nat)
    requires off + 8 <= |s|
    ensures QwordAt(s, off) as int
         == s[off] as int + 0x100 * (s[off + 1] as int) + 0x1_0000 * (s[off + 2] as int) + 0x100_0000 * (s[off + 3] as int)
            + 0x1_0000_0000 * (s[off + 4] as int) + 0x100_0000_0000 * (s[off + 5] as int)
            + 0x1_0000_0000_0000 * (s[off + 6] as int) + 0x100_0000_0000_0000 * (s[off + 7] as int)
  {
    var d := s[off..off + 8];
    FromLeStep(d);
    FromLeStep(d[1..]);
    FromLeStep(d[2..]);
    FromLeStep(d[3..]);
    FromLeStep(d[4..]);
    FromLeStep(d[5..]);
    FromLeStep(d[6..]);
    FromLeStep(d[7..]);
    assert d[8..] == [];
    hide FromLe;
    FromLeNothing(d[8..]);
  }

  lemma FromLeStep(d: seq<u8>)
    requires d != []
    ensures FromLe(d) == d[0] + 256 * FromLe(d[1..])
  {
  }

  lemma FromLeNothing(d: seq<u8>)
    requires d == []
    ensures FromLe(d) == 0
  {
  }

  /** The packed structure: where each field of a record lies. */
  lemma RecordLayout(s: seq<u8>, off: nat)
    requires off + 46 <= |s|
    ensures var d := Decode(s, off);
            && d.resType == s[off + 3] && d.genFlag == s[off + 4] && d.specificFlag == s[off + 5]
            && d.granularity == QwordAt(s, off + 6) && d.rangeMin == QwordAt(s, off + 14) && d.rangeMax == QwordAt(s, off + 22)
            && d.translation == QwordAt(s, off + 30) && d.addrLen == QwordAt(s, off + 38)
  {
  }

  /** A record that is written starts with its tag 0x8A and the length 0x2B of what follows the length field. */
  lemma RecordHeader(d: Descriptor)
    ensures |Encode(d)| == 46 && Encode(d)[0] == 0x8A && Encode(d)[1] == 0x2B && Encode(d)[2] == 0
  {
  }

  lemma QwordRoundTrip(s: seq<u8>, off: nat, v: u64)
    requires off + 8 <= |s| && s[off..off + 8] == ToLe(v, 8)
    ensures QwordAt(s, off) == v
  {
    Pow256Values();
    LeRoundTrip(v, 8);
  }

  lemma EncodeFields(d: Descriptor)
    ensures var s := Encode(d);
            && s[3..6] == [d.resType, d.genFlag, d.specificFlag]
            && s[6..14] == ToLe(d.granularity, 8) && s[14..22] == ToLe(d.rangeMin, 8)
            && s[22..30] == ToLe(d.rangeMax, 8) && s[30..38] == ToLe(d.translation, 8)
            && s[38..46] == ToLe(d.addrLen, 8)
  {
  }

  /** A qword stored at position i of a record reads back wherever the record stands. */
  lemma QwordField(s: seq<u8>, off: nat, e: seq<u8>, i: nat, v: u64)
    requires |e| == RECORD_SIZE && off + RECORD_SIZE <= |s| && s[off..off + RECORD_SIZE] == e
    requires i + 8 <= RECORD_SIZE && e[i..i + 8] == ToLe(v, 8)
    ensures QwordAt(s, off + i) == v
  {
    hide QwordAt, ToLe;
    assert forall j :: 0 <= j < RECORD_SIZE ==> s[off + j] == e[j];
    assert s[off + i..off + i + 8] == e[i..i + 8];
    QwordRoundTrip(s, off + i, v);
  }

  lemma ByteFields(s: seq<u8>, off: nat, e: seq<u8>)
    requires |e| == RECORD_SIZE && off + RECORD_SIZE <= |s| && s[off..off + RECORD_SIZE] == e
    ensures [s[off + 3], s[off + 4], s[off + 5]] == e[3..6]
  {
  }

  /** A descriptor written anywhere in a buffer reads back unchanged. */
  lemma DecodeEncode(s: seq<u8>, off: nat, d: Descriptor)
    requires off + RECORD_SIZE <= |s| && s[off..off + RECORD_SIZE] == Encode(d)
    ensures Decode(s, off) == d
  {
    hide Encode, QwordAt, ToLe;
    var e := Encode(d);
    EncodeFields(d);
    ByteFields(s, off, e);
    assert [s[off + 3], s[off + 4], s[off + 5]] == [d.resType, d.genFlag, d.specificFlag];
    QwordField(s, off, e, 6, d.granularity);
    QwordField(s, off, e, 14, d.rangeMin);
    QwordField(s, off, e, 22, d.rangeMax);
    QwordField(s, off, e, 30, d.translation);
    QwordField(s, off, e, 38, d.addrLen);
  }

  /** The stream starting at off consists of whole records followed, inside the buffer, by a
      byte that does not start a record.  Callers of the C code owe it such a buffer. */
  predicate Scannable(s: seq<u8>, off: nat)
    decreases |s| - off
  {
    && off < |s|
    && (s[off] == ADDRESS_SPACE ==> off + RECORD_SIZE <= |s| && Scannable(s, off + RECORD_SIZE))
  }

  /** Number of records from off on. */
  function RecordCount(s: seq<u8>, off: nat): nat
    requires Scannable(s, off)
    decreases |s| - off
  {
    if s[off] == ADDRESS_SPACE then 1 + RecordCount(s, off + RECORD_SIZE) else 0
  }

  lemma {:induction false} RecordsAreWhole(s: seq<u8>, off: nat)
    requires Scannable(s, off)
    ensures off + RECORD_SIZE * RecordCount(s, off) < |s|
    ensures s[off + RECORD_SIZE * RecordCount(s, off)] != ADDRESS_SPACE
    ensures forall k :: 0 <= k < RecordCount(s, off) ==> s[off + RECORD_SIZE * k] == ADDRESS_SPACE
    decreases |s| - off
  {
    if s[off] == ADDRESS_SPACE {
      RecordsAreWhole(s, off + RECORD_SIZE);
      forall k | 0 <= k < RecordCount(s, off)
        ensures s[off + RECORD_SIZE * k] == ADDRESS_SPACE
      {
        if k > 0 {
          assert s[off + RECORD_SIZE + RECORD_SIZE * (k - 1)] == ADDRESS_SPACE;
        }
      }
    }
  }

  /** A buffer whose records start at 0, 46, 92, ... and whose next byte is no record start is
      scanned to exactly that byte. */
  lemma {:induction false} ScanStopsAt(s: seq<u8>, off: nat, n: nat)
    requires off + RECORD_SIZE * n < |s|
    requires s[off + RECORD_SIZE * n] != ADDRESS_SPACE
    requires forall k :: 0 <= k < n ==> s[off + RECORD_SIZE * k] == ADDRESS_SPACE
    ensures Scannable(s, off) && RecordCount(s, off) == n
    decreases n
  {
    if n > 0 {
      assert s[off + RECORD_SIZE * 0] == ADDRESS_SPACE;
      forall k | 0 <= k < n - 1
        ensures s[off + RECORD_SIZE + RECORD_SIZE * k] == ADDRESS_SPACE
      {
        assert s[off + RECORD_SIZE * (k + 1)] == ADDRESS_SPACE;
      }
      ScanStopsAt(s, off + RECORD_SIZE, n - 1);
    }
  }
}
