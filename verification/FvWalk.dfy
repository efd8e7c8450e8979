/** FindImageBase: the walk over the files of the boot firmware volume and the sections of its
    core files (formats: PI Specification, Volume 3, sections 3.2.3 and 3.2.4), over the whole of
    memory read byte by byte. */
module FvWalk {
  import opened Words
  import opened Efi

  type Memory = nat -> u8

  const FILE_HEADER: nat := 24
  const FILE_HEADER2: nat := 32
  const SECTION_HEADER: nat := 4
  const SECTION_HEADER2: nat := 8
  const SIZE24: nat := 0x00FFFFFF

  const SECURITY_CORE: u8 := 0x03
  const PEI_CORE: u8 := 0x04
  const SECTION_PE32: u8 := 0x10
  const SECTION_TE: u8 := 0x12

  function ReadLe(mem: Memory, a: nat, n: nat): (v: nat)
    ensures v < Pow256(n)
    decreases n
  {
    if n == 0 then 0 else mem(a) + 256 * ReadLe(mem, a + 1, n - 1)
  }

  // ----- headers

  predicate IsFile2(mem: Memory, f: nat) {
    mem(f + 19) % 2 == 1
  }

  function FileType(mem: Memory, f: nat): u8 {
    mem(f + 18)
  }

  /** Size, or the low 32 bits of ExtendedSize. */
  function FileSize(mem: Memory, f: nat): nat {
    if IsFile2(mem, f) then ReadLe(mem, f + 24, 4) else ReadLe(mem, f + 20, 3)
  }

  predicate FileSizeOk(mem: Memory, f: nat) {
    if IsFile2(mem, f) then FileSize(mem, f) > SIZE24 else FileSize(mem, f) >= FILE_HEADER
  }

  function FileBody(mem: Memory, f: nat): nat {
    f + if IsFile2(mem, f) then FILE_HEADER2 else FILE_HEADER
  }

  predicate IsSection2(mem: Memory, s: nat) {
    ReadLe(mem, s, 3) == SIZE24
  }

  function SectionType(mem: Memory, s: nat): u8 {
    mem(s + 3)
  }

  function SectionSize(mem: Memory, s: nat): nat {
    if IsSection2(mem, s) then ReadLe(mem, s + 4, 4) else ReadLe(mem, s, 3)
  }

  predicate SectionSizeOk(mem: Memory, s: nat) {
    if IsSection2(mem, s) then SectionSize(mem, s) > SIZE24 else SectionSize(mem, s) >= SECTION_HEADER
  }

  function SectionBody(mem: Memory, s: nat): nat {
    s + if IsSection2(mem, s) then SECTION_HEADER2 else SECTION_HEADER
  }

  predicate IsCore(mem: Memory, f: nat) {
    FileType(mem, f) in {SECURITY_CORE, PEI_CORE}
  }

  predicate IsExecutable(mem: Memory, s: nat) {
    SectionType(mem, s) in {SECTION_PE32, SECTION_TE}
  }

  function Align4(a: nat): (r: nat)
    ensures a <= r < a + 4 && r % 4 == 0
    ensures a % 4 == 0 ==> r == a
  {
    (a + 3) / 4 * 4
  }

  function Align8(a: nat): (r: nat)
    ensures a <= r < a + 8 && r % 8 == 0
    ensures a % 8 == 0 ==> r == a
  {
    (a + 7) / 8 * 8
  }

  // ----- the walk

  /** The address of the first executable section behind endOfSection; None where the walk gives up. */
  function FindSection(mem: Memory, endOfSection: nat, endOfFile: nat): (r: Option<nat>)
    decreases if endOfSection <= endOfFile then endOfFile - endOfSection + 1 else 0
  {
    var s := Align4(endOfSection);
    if !SectionSizeOk(mem, s) then None
    else if s + SectionSize(mem, s) > endOfFile then None
    else if IsExecutable(mem, s) then Some(s)
    else FindSection(mem, s + SectionSize(mem, s), endOfFile)
  }

  datatype Found = Found(status: EfiStatus, sec: nat, pei: nat)

  function Walk(mem: Memory, endOfFile: nat, endOfVolume: nat, sec: nat, pei: nat): Found
    decreases if endOfFile <= endOfVolume then endOfVolume - endOfFile + 1 else 0
  {
    var f := Align8(endOfFile);
    var e := f + FileSize(mem, f);
    if f > endOfVolume || !FileSizeOk(mem, f) || e > endOfVolume then Found(NotFound, sec, pei)
    else if !IsCore(mem, f) then Walk(mem, e, endOfVolume, sec, pei)
    else
      match FindSection(mem, FileBody(mem, f), e)
      case None => Found(NotFound, sec, pei)
      case Some(s) =>
        var sec' := if FileType(mem, f) == SECURITY_CORE then SectionBody(mem, s) else sec;
        var pei' := if FileType(mem, f) == SECURITY_CORE then pei else SectionBody(mem, s);
        if sec' != 0 && pei' != 0 then Found(Success, sec', pei')
        else Walk(mem, e, endOfVolume, sec', pei')
  }

  // ----- the volume header

  function FvLength(mem: Memory, volume: nat): nat {
    ReadLe(mem, volume + 32, 8)
  }

  function HeaderLength(mem: Memory, volume: nat): nat {
    ReadLe(mem, volume + 48, 2)
  }

  /** Room above the volume for one size field: no address computed below wraps. */
  predicate NoWrap(mem: Memory, volume: nat) {
    volume + FvLength(mem, volume) + TWO32 + 8 <= TWO64
  }

  /** (x + 3) & ~3 and (x + 7) & ~7 in 64 bits. */
  function RoundUp4(x: u64): (r: u64)
    ensures x + 3 < TWO64 ==> r == Align4(x)
  {
    Wrap64(x + 3) - Wrap64(x + 3) % 4
  }

  function RoundUp8(x: u64): (r: u64)
    ensures x + 7 < TWO64 ==> r == Align8(x)
  {
    Wrap64(x + 7) - Wrap64(x + 7) % 8
  }

  lemma WrapSmall(x: nat)
    requires x < TWO64
    ensures Wrap64(x) == x
  {
  }

  lemma RoundUp8Is(x: u64)
    requires x + 7 < TWO64
    ensures RoundUp8(x) == Align8(x) && x <= Align8(x) < x + 8
  {
  }

  lemma RoundUp4Is(x: u64)
    requires x + 3 < TWO64
    ensures RoundUp4(x) == Align4(x) && x <= Align4(x) < x + 4
  {
  }

  lemma FileBounds(mem: Memory, f: nat)
    ensures FileSize(mem, f) < TWO32
    ensures FileSizeOk(mem, f) <==> if IsFile2(mem, f) then FileSize(mem, f) > SIZE24 else FileSize(mem, f) >= FILE_HEADER
    ensures FileSizeOk(mem, f) ==> f < FileBody(mem, f) <= f + FileSize(mem, f)
  {
    hide ReadLe;
    ReadBounds(mem, f + 24);
    ReadBounds(mem, f + 20);
  }

  lemma SectionBounds(mem: Memory, s: nat)
    ensures SectionSize(mem, s) < TWO32
    ensures SectionSizeOk(mem, s) <==>
              if IsSection2(mem, s) then SectionSize(mem, s) > SIZE24 else SectionSize(mem, s) >= SECTION_HEADER
    ensures SectionSizeOk(mem, s) ==> s < SectionBody(mem, s) <= s + SectionSize(mem, s)
  {
    hide ReadLe;
    ReadBounds(mem, s + 4);
    ReadBounds(mem, s);
  }

  lemma ReadBounds(mem: Memory, a: nat)
    ensures ReadLe(mem, a, 2) < TWO16 && ReadLe(mem, a, 3) <= SIZE24 && ReadLe(mem, a, 4) < TWO32
  {
    assert ReadLe(mem, a, 2) < Pow256(2);
    assert ReadLe(mem, a, 3) < Pow256(3);
    assert ReadLe(mem, a, 4) < Pow256(4);
    Pow256Values();
  }

  lemma VolumeBounds(mem: Memory, volume: nat)
    ensures HeaderLength(mem, volume) < TWO16
  {
    hide ReadLe;
    ReadBounds(mem, volume + 48);
  }

  /** One round of the section loop, and of the file loop. */
  lemma FindSectionStep(mem: Memory, endOfSection: nat, endOfFile: nat)
    ensures var s := Align4(endOfSection);
            FindSection(mem, endOfSection, endOfFile)
            == if !SectionSizeOk(mem, s) || s + SectionSize(mem, s) > endOfFile then None
               else if IsExecutable(mem, s) then Some(s)
               else FindSection(mem, s + SectionSize(mem, s), endOfFile)
  {
    hide SectionSize, SectionSizeOk, IsExecutable, Align4;
  }

  lemma WalkStep(mem: Memory, endOfFile: nat, endOfVolume: nat, sec: nat, pei: nat)
    ensures var f := Align8(endOfFile);
            var e := f + FileSize(mem, f);
            Walk(mem, endOfFile, endOfVolume, sec, pei)
            == if f > endOfVolume || !FileSizeOk(mem, f) || e > endOfVolume then Found(NotFound, sec, pei)
               else if !IsCore(mem, f) then Walk(mem, e, endOfVolume, sec, pei)
               else
                 match FindSection(mem, FileBody(mem, f), e)
                 case None => Found(NotFound, sec, pei)
                 case Some(s) =>
                   var sec' := if FileType(mem, f) == SECURITY_CORE then SectionBody(mem, s) else sec;
                   var pei' := if FileType(mem, f) == SECURITY_CORE then pei else SectionBody(mem, s);
                   if sec' != 0 && pei' != 0 then Found(Success, sec', pei') else Walk(mem, e, endOfVolume, sec', pei')
  {
    hide FindSection, FileSize, FileSizeOk, FileBody, IsCore, Align8, SectionBody;
  }

  /** The loop over the sections of one core file. */
  method FirstExecutable(mem: Memory, body: u64, endOfFile: u64) returns (section: Option<u64>)
    requires body <= endOfFile && endOfFile + TWO32 + 8 <= TWO64
    ensures section == FindSection(mem, body, endOfFile)
  {
    hide ReadLe, Align4, RoundUp4, FindSection, SectionSize, SectionSizeOk, IsSection2, SectionBody, Wrap64;
    var endOfSection := body;
    while true
      invariant endOfSection <= endOfFile
      invariant FindSection(mem, endOfSection, endOfFile) == FindSection(mem, body, endOfFile)
      decreases endOfFile - endOfSection
    {
      RoundUp4Is(endOfSection);
      FindSectionStep(mem, endOfSection, endOfFile);
      var currentAddress := RoundUp4(endOfSection);
      SectionBounds(mem, currentAddress);
      WrapSmall(currentAddress + SectionSize(mem, currentAddress));
      var size := SectionSize(mem, currentAddress);
      if IsSection2(mem, currentAddress) {
        if size <= SIZE24 {
          return None;
        }
      } else if size < SECTION_HEADER {
        return None;
      }
      endOfSection := Wrap64(currentAddress + size);
      if endOfSection > endOfFile {
        return None;
      }
      if SectionType(mem, currentAddress) == SECTION_PE32 || SectionType(mem, currentAddress) == SECTION_TE {
        return Some(currentAddress);
      }
    }
  }

  /** FindImageBase; the two addresses found so far are returned with an error, too. */
  method FindImageBase(mem: Memory, volume: u64) returns (status: EfiStatus, secBase: u64, peiBase: u64)
    requires NoWrap(mem, volume)
    ensures Found(status, secBase, peiBase)
            == Walk(mem, volume + HeaderLength(mem, volume), volume + FvLength(mem, volume), 0, 0)
  {
    hide ReadLe, Align8, RoundUp8, Walk, FindSection, FileSize, FileSizeOk, IsFile2, FileBody, SectionBody, Wrap64;
    VolumeBounds(mem, volume);
    secBase, peiBase := 0, 0;
    WrapSmall(volume + FvLength(mem, volume));
    WrapSmall(volume + HeaderLength(mem, volume));
    var endOfVolume := Wrap64(volume + FvLength(mem, volume));
    var endOfFile := Wrap64(volume + HeaderLength(mem, volume));
    ghost var start := endOfFile;
    while true
      invariant endOfFile <= endOfVolume || (endOfFile == start && endOfFile <= volume + TWO16)
      invariant Walk(mem, endOfFile, endOfVolume, secBase, peiBase) == Walk(mem, start, endOfVolume, 0, 0)
      decreases if endOfFile <= endOfVolume then endOfVolume - endOfFile + 1 else 0
    {
      RoundUp8Is(endOfFile);
      WalkStep(mem, endOfFile, endOfVolume, secBase, peiBase);
      var file := RoundUp8(endOfFile);
      if file > endOfVolume {
        return NotFound, secBase, peiBase;
      }
      FileBounds(mem, file);
      var size := FileSize(mem, file);
      if IsFile2(mem, file) {
        if size <= SIZE24 {
          return NotFound, secBase, peiBase;
        }
      } else if size < FILE_HEADER {
        return NotFound, secBase, peiBase;
      }
      WrapSmall(file + size);
      endOfFile := Wrap64(file + size);
      if endOfFile > endOfVolume {
        return NotFound, secBase, peiBase;
      }
      if FileType(mem, file) == SECURITY_CORE || FileType(mem, file) == PEI_CORE {
        var section := FirstExecutable(mem, FileBody(mem, file), endOfFile);
        if section.None? {
          return NotFound, secBase, peiBase;
        }
        var image := SectionBody(mem, section.value);
        SectionInside(mem, FileBody(mem, file), endOfFile);
        if FileType(mem, file) == SECURITY_CORE {
          secBase := image;
        } else {
          peiBase := image;
        }
        if secBase != 0 && peiBase != 0 {
          return Success, secBase, peiBase;
        }
      }
    }
  }

  /** A section found lies inside its file. */
  lemma {:induction false} SectionInside(mem: Memory, endOfSection: nat, endOfFile: nat)
    ensures var r := FindSection(mem, endOfSection, endOfFile);
            r.Some? ==>
              && endOfSection <= r.value && r.value % 4 == 0
              && IsExecutable(mem, r.value) && SectionSizeOk(mem, r.value)
              && r.value < SectionBody(mem, r.value) <= r.value + SectionSize(mem, r.value) <= endOfFile
    decreases if endOfSection <= endOfFile then endOfFile - endOfSection + 1 else 0
  {
    hide ReadLe, SectionSize, SectionSizeOk, IsSection2, SectionBody;
    var s := Align4(endOfSection);
    SectionBounds(mem, s);
    if SectionSizeOk(mem, s) && s + SectionSize(mem, s) <= endOfFile && !IsExecutable(mem, s) {
      SectionInside(mem, s + SectionSize(mem, s), endOfFile);
    }
  }
}
