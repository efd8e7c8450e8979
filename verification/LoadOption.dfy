/** EFI_LOAD_OPTION (section 3.1.3 of the UEFI Specification): how BootOptionSetFields fills its
    buffer through an advancing pointer, and how BootOptionParseLoadOption reads it. */
module LoadOption {
  import opened Words
  import opened Efi
  import opened Slices

  /** description: the characters before the terminating NUL; path: the device path list. */
  datatype Fields = Fields(attributes: u32, description: seq<u16>, path: seq<u8>, optionalData: seq<u8>)
  {
    /** A NUL-terminated string holds no earlier NUL. */
    predicate Valid() {
      forall i :: 0 <= i < |description| ==> description[i] != 0
    }
  }

  // ----- CHAR16 strings

  function CharsToBytes(s: seq<u16>): (b: seq<u8>)
    ensures |b| == 2 * |s|
    ensures forall i :: 0 <= i < |s| ==> b[2 * i] == s[i] % 256 && b[2 * i + 1] == s[i] / 256
  {
    if s == [] then []
    else
      var b := CharsToBytes(s[..|s| - 1]) + [s[|s| - 1] % 256, s[|s| - 1] / 256];
      assert forall i :: 0 <= i < |s| ==> s[i] == if i < |s| - 1 then s[..|s| - 1][i] else s[|s| - 1];
      b
  }

  /** StrSize: bytes up to and including the first NUL character from off on; None if the buffer
      ends first. */
  function StrSize(b: seq<u8>, off: nat): (r: Option<nat>)
    requires off <= |b|
    ensures r.Some? ==> 2 <= r.value <= |b| - off
    decreases |b| - off
  {
    if off + 2 > |b| then None
    else if b[off] == 0 && b[off + 1] == 0 then Some(2)
    else match StrSize(b, off + 2)
      case Some(n) => Some(n + 2)
      case None => None
  }

  function BytesToChars(b: seq<u8>): seq<u16>
    requires |b| % 2 == 0
  {
    seq(|b| / 2, i requires 0 <= i < |b| / 2 => b[2 * i] as int + 256 * (b[2 * i + 1] as int))
  }

  // ----- the two directions

  /** FilePathListLength is a UINT16. */
  function PathLength(path: seq<u8>): nat {
    |path| % TWO16
  }

  /** The bytes BootOptionSetFields produces. */
  function Encode(f: Fields): (s: seq<u8>)
    ensures |s| == 4 + 2 + 2 * (|f.description| + 1) + PathLength(f.path) + |f.optionalData|
  {
    ToLe(f.attributes, 4) + ToLe(PathLength(f.path), 2) + CharsToBytes(f.description) + [0, 0]
    + f.path[..PathLength(f.path)] + f.optionalData
  }

  /** BootOptionParseLoadOption; a buffer without a terminated description, or too short for the
      path it announces, is undefined in C and refused here. */
  function Decode(s: seq<u8>): Option<Fields> {
    if |s| < 12 then None
    else
      match StrSize(s, 6)
      case None => None
      case Some(n) =>
        var pathLength := LeAt(s, 4, 2);
        if 6 + n + pathLength > |s| then None
        else
          StrSizeEven(s, 6);
          FromLeBound(s[0..4]);
          Pow256Values();
          Some(Fields(LeAt(s, 0, 4), BytesToChars(s[6..6 + n - 2]),
                      s[6 + n..6 + n + pathLength], s[6 + n + pathLength..]))
  }

  lemma StrSizeEven(b: seq<u8>, off: nat)
    requires off <= |b|
    ensures StrSize(b, off).Some? ==> StrSize(b, off).value % 2 == 0
    decreases |b| - off
  {
  }

  lemma {:induction false} StrSizeOf(b: seq<u8>, off: nat, chars: seq<u16>)
    requires forall i :: 0 <= i < |chars| ==> chars[i] != 0
    requires off + 2 * |chars| + 2 <= |b|
    requires forall i :: 0 <= i < |chars| ==> b[off + 2 * i] == chars[i] % 256 && b[off + 2 * i + 1] == chars[i] / 256
    requires b[off + 2 * |chars|] == 0 && b[off + 2 * |chars| + 1] == 0
    ensures StrSize(b, off) == Some(2 * |chars| + 2)
    decreases |chars|
  {
    if chars != [] {
      assert b[off + 2 * 0] == chars[0] % 256 && b[off + 2 * 0 + 1] == chars[0] / 256;
      var rest := chars[1..];
      forall i | 0 <= i < |rest|
        ensures b[off + 2 + 2 * i] == rest[i] % 256 && b[off + 2 + 2 * i + 1] == rest[i] / 256
      {
        assert b[off + 2 * (i + 1)] == chars[i + 1] % 256 && b[off + 2 * (i + 1) + 1] == chars[i + 1] / 256;
      }
      StrSizeOf(b, off + 2, rest);
    }
  }

  lemma CharsRoundTrip(s: seq<u16>)
    ensures BytesToChars(CharsToBytes(s)) == s
  {
  }

  /** Where the parts of the encoding lie. */
  lemma Parts(f: Fields)
    ensures var s, d, p := Encode(f), 2 * |f.description|, PathLength(f.path);
            && s[0..4] == ToLe(f.attributes, 4) && s[4..6] == ToLe(p, 2)
            && s[6..6 + d] == CharsToBytes(f.description)
            && s[6 + d] == 0 && s[7 + d] == 0
            && s[8 + d..8 + d + p] == f.path[..p]
            && s[8 + d + p..] == f.optionalData
  {
    hide ToLe;
    var d, p := 2 * |f.description|, PathLength(f.path);
    var a := ToLe(f.attributes, 4) + ToLe(p, 2);
    var b := a + CharsToBytes(f.description);
    var c := b + [0, 0];
    var e := c + f.path[..p];
    assert Encode(f) == e + f.optionalData;
  }

  /** The packed EFI_LOAD_OPTION: attributes in bytes 0 to 3, the length of the path (its low 16 bits) in bytes 4
      and 5, then the description as 16-bit characters with a NUL behind them, the path and the optional data;
      numbers are stored with the least significant byte first. */
  lemma EncodedBytes(f: Fields)
    ensures var s, d, p := Encode(f), 2 * |f.description|, |f.path| % 0x1_0000;
            && |s| == 8 + d + p + |f.optionalData|
            && s[0] == f.attributes % 256 && s[1] == f.attributes / 0x100 % 256
            && s[2] == f.attributes / 0x1_0000 % 256 && s[3] == f.attributes / 0x100_0000
            && s[4] == p % 256 && s[5] == p / 256
            && (forall i :: 0 <= i < |f.description| ==> CharAt(s, 6 + 2 * i, f.description[i]))
            && s[6 + d] == 0 && s[7 + d] == 0
            && s[8 + d..8 + d + p] == f.path[..p] && s[8 + d + p..] == f.optionalData
  {
    hide Encode, CharsToBytes;
    Parts(f);
    var s, d, p := Encode(f), 2 * |f.description|, PathLength(f.path);
    LeBytes4(f.attributes);
    LeBytes2(p);
    assert s[0..4][0] == s[0] && s[0..4][1] == s[1] && s[0..4][2] == s[2] && s[0..4][3] == s[3];
    assert s[4..6][0] == s[4] && s[4..6][1] == s[5];
    forall i | 0 <= i < |f.description| ensures CharAt(s, 6 + 2 * i, f.description[i]) {
      CharStored(f.description, i);
      assert s[6..6 + d][2 * i] == s[6 + 2 * i] && s[6..6 + d][2 * i + 1] == s[6 + 2 * i + 1];
    }
  }

  /** Character c stands at offset o. */
  predicate CharAt(s: seq<u8>, o: nat, c: u16) {
    o + 2 <= |s| && s[o] == c % 256 && s[o + 1] == c / 256
  }

  lemma CharStored(description: seq<u16>, i: nat)
    requires i < |description|
    ensures |CharsToBytes(description)| == 2 * |description|
    ensures CharsToBytes(description)[2 * i] == description[i] % 256 && CharsToBytes(description)[2 * i + 1] == description[i] / 256
  {
  }

  lemma LeBytes4(v: u32)
    ensures ToLe(v, 4) == [v % 256, v / 0x100 % 256, v / 0x1_0000 % 256, v / 0x100_0000]
  {
    Pow256Values();
    LeDigit(v, 4, 0);
    LeDigit(v, 4, 1);
    LeDigit(v, 4, 2);
    LeDigit(v, 4, 3);
  }

  lemma LeBytes2(v: u16)
    ensures ToLe(v, 2) == [v % 256, v / 256]
  {
    Pow256Values();
    LeDigit(v, 2, 0);
    LeDigit(v, 2, 1);
  }

  /** Decoding what was encoded returns the fields, with the path cut to its 16-bit length; any
      encoding of at least 12 bytes is accepted. */
  lemma DecodeOfEncode(f: Fields)
    requires f.Valid()
    ensures Decode(Encode(f)) == if |Encode(f)| < 12 then None else Some(f.(path := f.path[..PathLength(f.path)]))
  {
    hide CharsToBytes, ToLe;
    var s := Encode(f);
    Parts(f);
    var d := 2 * |f.description|;
    forall i | 0 <= i < |f.description|
      ensures s[6 + 2 * i] == f.description[i] % 256 && s[6 + 2 * i + 1] == f.description[i] / 256
    {
      assert s[6..6 + d][2 * i] == s[6 + 2 * i] && s[6..6 + d][2 * i + 1] == s[6 + 2 * i + 1];
    }
    StrSizeOf(s, 6, f.description);
    Pow256Values();
    LeRoundTrip(f.attributes, 4);
    LeRoundTrip(PathLength(f.path), 2);
    CharsRoundTrip(f.description);
  }

  /** The round trip is exact precisely for device paths shorter than 64 KiB (and every path has at
      least its 4-byte end node). */
  lemma RoundTripIffShortPath(f: Fields)
    requires f.Valid() && |f.path| >= 4 && |Encode(f)| >= 12
    ensures Decode(Encode(f)) == Some(f) <==> |f.path| < TWO16
  {
    DecodeOfEncode(f);
    if |f.path| >= TWO16 {
      assert |f.path[..PathLength(f.path)]| < |f.path|;
    } else {
      assert f.path[..PathLength(f.path)] == f.path;
    }
  }

  // ----- the writer

  /** Stores d at ptr and nowhere else. */
  method Put(buffer: array<u8>, ptr: nat, d: seq<u8>)
    requires ptr + |d| <= buffer.Length
    modifies buffer
    ensures buffer[..] == Patch(old(buffer[..]), ptr, d)
  {
    forall k | 0 <= k < |d| {
      buffer[ptr + k] := d[k];
    }
  }

  /** BootOptionSetFields: one allocation of exactly the right size, filled by six stores. */
  method SetFields(f: Fields) returns (efiLoadOption: array<u8>)
    ensures fresh(efiLoadOption) && efiLoadOption[..] == Encode(f)
  {
    hide ToLe, CharsToBytes, Patch, Encode, PathLength;
    EncodedSize(f);
    var bootDescription := CharsToBytes(f.description) + [0, 0];
    var filePathListLength := |f.path| % TWO16;
    var efiLoadOptionSize := 4 + 2 + |bootDescription| + filePathListLength + |f.optionalData|;
    efiLoadOption := new u8[efiLoadOptionSize](_ => 0);
    ghost var done: seq<u8> := [];
    var ptr;
    ptr, done := Append(efiLoadOption, 0, done, ToLe(f.attributes, 4));
    assert done == ToLe(f.attributes, 4);
    ptr, done := Append(efiLoadOption, ptr, done, ToLe(filePathListLength, 2));
    ptr, done := Append(efiLoadOption, ptr, done, bootDescription);
    ptr, done := Append(efiLoadOption, ptr, done, f.path[..filePathListLength]);
    ptr, done := Append(efiLoadOption, ptr, done, f.optionalData);
    assert efiLoadOption[..] == efiLoadOption[..ptr];
    EncodeByParts(f, bootDescription);
  }

  lemma EncodedSize(f: Fields)
    ensures |ToLe(f.attributes, 4)| == 4 && |ToLe(PathLength(f.path), 2)| == 2
    ensures |CharsToBytes(f.description)| == 2 * |f.description|
    ensures PathLength(f.path) == |f.path| % TWO16 <= |f.path|
  {
  }

  lemma EncodeByParts(f: Fields, bootDescription: seq<u8>)
    requires bootDescription == CharsToBytes(f.description) + [0, 0]
    ensures Encode(f) == ToLe(f.attributes, 4) + ToLe(PathLength(f.path), 2) + bootDescription
                         + f.path[..PathLength(f.path)] + f.optionalData
  {
    hide ToLe, CharsToBytes;
    var a := ToLe(f.attributes, 4) + ToLe(PathLength(f.path), 2);
    assert a + CharsToBytes(f.description) + [0, 0] == a + bootDescription;
  }

  /** Extends the filled prefix of the buffer by d. */
  method Append(buffer: array<u8>, ptr: nat, ghost done: seq<u8>, d: seq<u8>)
    returns (next: nat, ghost now: seq<u8>)
    requires ptr == |done| && ptr + |d| <= buffer.Length && buffer[..ptr] == done
    modifies buffer
    ensures next == ptr + |d| && now == done + d && buffer[..next] == now
  {
    Put(buffer, ptr, d);
    next, now := ptr + |d|, done + d;
  }
}
