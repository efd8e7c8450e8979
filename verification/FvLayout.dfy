/** Laying out a firmware volume and walking it: core files written by the format's rules are found,
    and the bases returned point at the bytes of their images. */
module FvLayout {
  import opened Words
  import opened Efi
  import opened FvWalk

  /** Memory holds the bytes d at address a. */
  ghost predicate Holds(mem: Memory, a: nat, d: seq<u8>) {
    forall i :: 0 <= i < |d| ==> mem(a + i) == d[i]
  }

  lemma HoldsParts(mem: Memory, a: nat, d: seq<u8>, e: seq<u8>)
    requires Holds(mem, a, d + e)
    ensures Holds(mem, a, d) && Holds(mem, a + |d|, e)
  {
    forall i | 0 <= i < |d| ensures mem(a + i) == d[i] {
      assert (d + e)[i] == d[i];
    }
    forall i | 0 <= i < |e| ensures mem(a + |d| + i) == e[i] {
      assert (d + e)[|d| + i] == e[i];
      assert mem(a + (|d| + i)) == e[i];
    }
  }

  lemma {:induction false} ReadBack(mem: Memory, a: nat, v: nat, n: nat)
    requires Holds(mem, a, ToLe(v, n)) && v < Pow256(n)
    ensures ReadLe(mem, a, n) == v
    decreases n
  {
    if n > 0 {
      assert ToLe(v, n) == [v % 256] + ToLe(v / 256, n - 1);
      HoldsParts(mem, a, [v % 256], ToLe(v / 256, n - 1));
      assert mem(a + 0) == [v % 256][0];
      ReadBack(mem, a + 1, v / 256, n - 1);
    }
  }

  lemma ReadBack3(mem: Memory, a: nat, v: nat)
    requires Holds(mem, a, ToLe(v, 3)) && v <= SIZE24
    ensures ReadLe(mem, a, 3) == v
  {
    Pow256Values();
    ReadBack(mem, a, v, 3);
  }

  lemma ReadBack4(mem: Memory, a: nat, v: nat)
    requires Holds(mem, a, ToLe(v, 4)) && v < TWO32
    ensures ReadLe(mem, a, 4) == v
  {
    Pow256Values();
    ReadBack(mem, a, v, 4);
  }

  // ----- sections

  datatype SectionSpec = SectionSpec(kind: u8, large: bool, data: seq<u8>)
  {
    function HeaderSize(): nat {
      if large then SECTION_HEADER2 else SECTION_HEADER
    }

    function Size(): nat {
      HeaderSize() + |data|
    }

    /** The extended form is used precisely for sizes of more than 24 bits; 0xFFFFFF itself is its mark. */
    predicate Valid() {
      if large then SIZE24 < Size() < TWO32 else Size() < SIZE24
    }

    predicate Executable() {
      kind in {SECTION_PE32, SECTION_TE}
    }

    function Bytes(): seq<u8> {
      (if large then ToLe(SIZE24, 3) + [kind] + ToLe(Size(), 4) else ToLe(Size(), 3) + [kind]) + data
    }
  }

  lemma SectionReads(mem: Memory, s: nat, spec: SectionSpec)
    requires spec.Valid() && Holds(mem, s, spec.Bytes())
    ensures SectionSizeOk(mem, s) && SectionSize(mem, s) == spec.Size()
    ensures IsExecutable(mem, s) <==> spec.Executable()
    ensures Holds(mem, SectionBody(mem, s), spec.data)
  {
    hide ToLe, ReadLe, Holds;
    if spec.large {
      var h := ToLe(SIZE24, 3) + [spec.kind];
      HoldsParts(mem, s, h + ToLe(spec.Size(), 4), spec.data);
      HoldsParts(mem, s, h, ToLe(spec.Size(), 4));
      HoldsParts(mem, s, ToLe(SIZE24, 3), [spec.kind]);
      HoldsByte(mem, s + 3, spec.kind);
      ReadBack3(mem, s, SIZE24);
      ReadBack4(mem, s + 4, spec.Size());
    } else {
      var h := ToLe(spec.Size(), 3) + [spec.kind];
      HoldsParts(mem, s, h, spec.data);
      HoldsParts(mem, s, ToLe(spec.Size(), 3), [spec.kind]);
      HoldsByte(mem, s + 3, spec.kind);
      ReadBack3(mem, s, spec.Size());
    }
  }

  lemma HoldsByte(mem: Memory, a: nat, b: u8)
    requires Holds(mem, a, [b])
    ensures mem(a) == b
  {
    assert mem(a + 0) == [b][0];
  }

  /** Where sections laid out from `at` on end. */
  function SectionsEnd(at: nat, ss: seq<SectionSpec>): (e: nat)
    ensures e >= at
    decreases |ss|
  {
    if ss == [] then at else SectionsEnd(Align4(at) + ss[0].Size(), ss[1..])
  }

  /** Each section at the next multiple of four; the padding may hold anything. */
  ghost predicate SectionsAt(mem: Memory, at: nat, ss: seq<SectionSpec>)
    decreases |ss|
  {
    ss == []
    || (ss[0].Valid() && Holds(mem, Align4(at), ss[0].Bytes()) && SectionsAt(mem, Align4(at) + ss[0].Size(), ss[1..]))
  }

  /** The data of the first executable section. */
  function Image(ss: seq<SectionSpec>): Option<seq<u8>> {
    if ss == [] then None else if ss[0].Executable() then Some(ss[0].data) else Image(ss[1..])
  }

  lemma {:induction false} SectionsFound(mem: Memory, at: nat, ss: seq<SectionSpec>, endOfFile: nat)
    requires SectionsAt(mem, at, ss) && SectionsEnd(at, ss) <= endOfFile && Image(ss).Some?
    ensures var r := FindSection(mem, at, endOfFile);
            r.Some? && Holds(mem, SectionBody(mem, r.value), Image(ss).value)
    decreases |ss|
  {
    hide Holds, SectionSize, SectionSizeOk, IsExecutable, SectionBody, Align4;
    var s := Align4(at);
    SectionReads(mem, s, ss[0]);
    if !ss[0].Executable() {
      SectionsFound(mem, s + ss[0].Size(), ss[1..], endOfFile);
    }
  }

  /** Section types 0x10 (PE32) and 0x12 (TE) are executable; the type is byte 3 of the header, and a size of
      0xFFFFFF in bytes 0 to 2 says that the size is in bytes 4 to 7. */
  lemma SectionHeader(mem: Memory, s: nat)
    ensures IsExecutable(mem, s) <==> mem(s + 3) == 0x10 || mem(s + 3) == 0x12
    ensures IsSection2(mem, s) <==> mem(s) == 0xFF && mem(s + 1) == 0xFF && mem(s + 2) == 0xFF
    ensures SectionSize(mem, s) as int ==
              if mem(s) == 0xFF && mem(s + 1) == 0xFF && mem(s + 2) == 0xFF
              then mem(s + 4) as int + 0x100 * (mem(s + 5) as int) + 0x1_0000 * (mem(s + 6) as int) + 0x100_0000 * (mem(s + 7) as int)
              else mem(s) as int + 0x100 * (mem(s + 1) as int) + 0x1_0000 * (mem(s + 2) as int)
    ensures SectionBody(mem, s) == if IsSection2(mem, s) then s + 8 else s + 4
    ensures SectionSizeOk(mem, s) <==> SectionSize(mem, s) >= if IsSection2(mem, s) then 0x100_0000 else 4
  {
    ThreeBytes(mem, s);
    FourBytes(mem, s + 4);
    hide ReadLe;
  }

  lemma ThreeBytes(mem: Memory, a: nat)
    ensures ReadLe(mem, a, 3) as int == mem(a) as int + 0x100 * (mem(a + 1) as int) + 0x1_0000 * (mem(a + 2) as int)
  {
    assert ReadLe(mem, a + 3, 0) == 0;
    assert ReadLe(mem, a + 2, 1) == mem(a + 2) + 256 * ReadLe(mem, a + 3, 0);
    assert ReadLe(mem, a + 1, 2) == mem(a + 1) + 256 * ReadLe(mem, a + 2, 1);
  }

  lemma FourBytes(mem: Memory, a: nat)
    ensures ReadLe(mem, a, 4) as int
         == mem(a) as int + 0x100 * (mem(a + 1) as int) + 0x1_0000 * (mem(a + 2) as int) + 0x100_0000 * (mem(a + 3) as int)
  {
    ThreeBytes(mem, a + 1);
    assert ReadLe(mem, a, 4) == mem(a) + 256 * ReadLe(mem, a + 1, 3);
  }

  // ----- files

  datatype Content = Raw(bytes: seq<u8>) | Sections(ss: seq<SectionSpec>)

  datatype FileSpec = FileSpec(kind: u8, attributes: u8, content: Content)
  {
    predicate Large() {
      attributes % 2 == 1
    }

    predicate Core() {
      kind in {SECURITY_CORE, PEI_CORE}
    }

    function Body(f: nat): nat {
      f + if Large() then FILE_HEADER2 else FILE_HEADER
    }

    function End(f: nat): (e: nat)
      ensures e >= Body(f)
    {
      match content
      case Raw(bytes) => Body(f) + |bytes|
      case Sections(ss) => SectionsEnd(Body(f), ss)
    }

    /** The file written at f. */
    ghost predicate At(mem: Memory, f: nat) {
      var size := End(f) - f;
      && mem(f + 18) == kind
      && mem(f + 19) == attributes
      && (if Large() then SIZE24 < size < TWO32 && Holds(mem, f + 20, ToLe(0, 3)) && Holds(mem, f + 24, ToLe(size, 4) + ToLe(0, 4))
          else size <= SIZE24 && Holds(mem, f + 20, ToLe(size, 3)))
      && (match content
          case Raw(bytes) => Holds(mem, Body(f), bytes)
          case Sections(ss) => SectionsAt(mem, Body(f), ss))
    }

    function Payload(): Option<seq<u8>> {
      match content
      case Raw(_) => None
      case Sections(ss) => Image(ss)
    }
  }

  lemma FileReads(mem: Memory, f: nat, spec: FileSpec)
    requires spec.At(mem, f)
    ensures FileSizeOk(mem, f) && f + FileSize(mem, f) == spec.End(f)
    ensures IsCore(mem, f) <==> spec.Core()
    ensures FileType(mem, f) == spec.kind && FileBody(mem, f) == spec.Body(f)
  {
    hide ToLe, ReadLe, Holds, SectionsAt;
    var size := spec.End(f) - f;
    if spec.Large() {
      HoldsParts(mem, f + 24, ToLe(size, 4), ToLe(0, 4));
      ReadBack4(mem, f + 24, size);
    } else {
      ReadBack3(mem, f + 20, size);
    }
  }

  /** File types 3 (security core) and 4 (PEI core); bit 0 of the attributes, byte 19, marks a large file, whose
      size is in bytes 24 to 27 instead of 20 to 22. */
  lemma FileHeader(mem: Memory, f: nat)
    ensures IsCore(mem, f) <==> mem(f + 18) == 3 || mem(f + 18) == 4
    ensures FileSize(mem, f) as int ==
              if mem(f + 19) % 2 == 1
              then mem(f + 24) as int + 0x100 * (mem(f + 25) as int) + 0x1_0000 * (mem(f + 26) as int) + 0x100_0000 * (mem(f + 27) as int)
              else mem(f + 20) as int + 0x100 * (mem(f + 21) as int) + 0x1_0000 * (mem(f + 22) as int)
    ensures FileBody(mem, f) == if mem(f + 19) % 2 == 1 then f + 32 else f + 24
    ensures FileSizeOk(mem, f) <==> FileSize(mem, f) >= if mem(f + 19) % 2 == 1 then 0x100_0000 else 24
  {
    ThreeBytes(mem, f + 20);
    FourBytes(mem, f + 24);
    hide ReadLe;
  }

  /** Each file at the next multiple of eight, inside the volume. */
  ghost predicate FilesAt(mem: Memory, at: nat, files: seq<FileSpec>, endOfVolume: nat)
    decreases |files|
  {
    files == []
    || (var f := Align8(at);
        files[0].At(mem, f) && files[0].End(f) <= endOfVolume && FilesAt(mem, files[0].End(f), files[1..], endOfVolume))
  }

  datatype Images = Images(sec: Option<seq<u8>>, pei: Option<seq<u8>>)
  {
    predicate Both() {
      sec.Some? && pei.Some?
    }

    function With(file: FileSpec): Images {
      if file.kind == SECURITY_CORE then Images(file.Payload(), pei)
      else if file.kind == PEI_CORE then Images(sec, file.Payload())
      else this
    }
  }

  /** The images of the last core file of each kind, up to the file that completes the pair. */
  function Wanted(files: seq<FileSpec>, seen: Images): Images
    decreases |files|
  {
    if seen.Both() || files == [] then seen else Wanted(files[1..], seen.With(files[0]))
  }

  ghost predicate PointsAt(mem: Memory, base: nat, image: Option<seq<u8>>) {
    match image
    case None => base == 0
    case Some(d) => base != 0 && Holds(mem, base, d)
  }

  lemma {:induction false} LaidOutIsFound(mem: Memory, at: nat, files: seq<FileSpec>, endOfVolume: nat,
                                          seen: Images, sec: nat, pei: nat)
    requires FilesAt(mem, at, files, endOfVolume)
    requires forall i :: 0 <= i < |files| && files[i].Core() ==> files[i].Payload().Some?
    requires !seen.Both() && Wanted(files, seen).Both()
    requires PointsAt(mem, sec, seen.sec) && PointsAt(mem, pei, seen.pei)
    ensures var r := Walk(mem, at, endOfVolume, sec, pei);
            && r.status.Success?
            && PointsAt(mem, r.sec, Wanted(files, seen).sec) && PointsAt(mem, r.pei, Wanted(files, seen).pei)
    decreases |files|
  {
    hide FileSpec.At, FileSpec.End, FileSpec.Body, Holds, FileSize, FileSizeOk, FileBody, FindSection, SectionBody, Align8;
    var f, file := Align8(at), files[0];
    FileReads(mem, f, file);
    AtOrBehind(f, file);
    var seen' := seen.With(file);
    if file.Core() {
      CoreFound(mem, f, file);
      var image := SectionBody(mem, FindSection(mem, FileBody(mem, f), f + FileSize(mem, f)).value);
      var sec' := if file.kind == SECURITY_CORE then image else sec;
      var pei' := if file.kind == SECURITY_CORE then pei else image;
      if !seen'.Both() {
        LaidOutIsFound(mem, file.End(f), files[1..], endOfVolume, seen', sec', pei');
      }
    } else {
      LaidOutIsFound(mem, file.End(f), files[1..], endOfVolume, seen', sec, pei);
    }
  }

  lemma AtOrBehind(f: nat, file: FileSpec)
    ensures file.End(f) >= f
  {
  }

  lemma CoreFound(mem: Memory, f: nat, file: FileSpec)
    requires file.At(mem, f) && file.Payload().Some?
    ensures var r := FindSection(mem, FileBody(mem, f), f + FileSize(mem, f));
            r.Some? && PointsAt(mem, SectionBody(mem, r.value), file.Payload())
  {
    hide Holds, FileSize, FileSizeOk, FindSection, SectionBody, FileBody, IsSection2;
    FileReads(mem, f, file);
    SectionsFound(mem, file.Body(f), file.content.ss, file.End(f));
    SectionInside(mem, file.Body(f), file.End(f));
  }

  /** A volume whose header announces its lengths and whose first n files are laid out behind the header,
      both cores among them and an executable section in every core, whatever follows: FindImageBase
      succeeds, and its two bases point at the image bytes of the cores that complete the pair. */
  lemma VolumeIsFound(mem: Memory, volume: nat, headerLength: u16, fvLength: u64, files: seq<FileSpec>, n: nat)
    requires Holds(mem, volume + 32, ToLe(fvLength, 8)) && Holds(mem, volume + 48, ToLe(headerLength, 2))
    requires n <= |files| && FilesAt(mem, volume + headerLength, files[..n], volume + fvLength)
    requires forall i :: 0 <= i < n && files[i].Core() ==> files[i].Payload().Some?
    requires exists i :: 0 <= i < n && files[i].kind == SECURITY_CORE
    requires exists i :: 0 <= i < n && files[i].kind == PEI_CORE
    ensures var r := Walk(mem, volume + HeaderLength(mem, volume), volume + FvLength(mem, volume), 0, 0);
            var wanted := Wanted(files, Images(None, None));
            && r.status.Success? && wanted.Both()
            && Holds(mem, r.sec, wanted.sec.value) && Holds(mem, r.pei, wanted.pei.value)
  {
    hide ToLe, ReadLe, FilesAt, Walk, Wanted, Holds, FileSpec.Payload;
    Pow256Values();
    ReadBack(mem, volume + 32, fvLength, 8);
    ReadBack(mem, volume + 48, headerLength, 2);
    var first := files[..n];
    var sec :| 0 <= sec < n && files[sec].kind == SECURITY_CORE;
    var pei :| 0 <= pei < n && files[pei].kind == PEI_CORE;
    assert first[sec].kind == SECURITY_CORE && first[pei].kind == PEI_CORE;
    BothAreWanted(first, Images(None, None));
    WantedStays(files, Images(None, None), n);
    LaidOutIsFound(mem, volume + headerLength, first, volume + fvLength, Images(None, None), 0, 0);
  }

  /** Files behind those that complete the pair do not matter. */
  lemma {:induction false} WantedStays(files: seq<FileSpec>, seen: Images, n: nat)
    requires n <= |files| && Wanted(files[..n], seen).Both()
    ensures Wanted(files, seen) == Wanted(files[..n], seen)
    decreases n
  {
    hide FileSpec.Payload;
    if !seen.Both() && n > 0 {
      assert files[..n][1..] == files[1..][..n - 1];
      WantedStays(files[1..], seen.With(files[0]), n - 1);
    }
  }

  lemma {:induction false} BothAreWanted(files: seq<FileSpec>, seen: Images)
    requires forall i :: 0 <= i < |files| && files[i].Core() ==> files[i].Payload().Some?
    requires seen.sec.Some? || exists i :: 0 <= i < |files| && files[i].kind == SECURITY_CORE
    requires seen.pei.Some? || exists i :: 0 <= i < |files| && files[i].kind == PEI_CORE
    ensures Wanted(files, seen).Both()
    decreases |files|
  {
    hide FileSpec.Payload;
    if !seen.Both() {
      var rest := files[1..];
      assert files[0].Core() ==> files[0].Payload().Some?;
      var seen' := seen.With(files[0]);
      if !seen'.sec.Some? {
        var i :| 0 <= i < |files| && files[i].kind == SECURITY_CORE;
        assert rest[i - 1].kind == SECURITY_CORE;
      }
      if !seen'.pei.Some? {
        var i :| 0 <= i < |files| && files[i].kind == PEI_CORE;
        assert rest[i - 1].kind == PEI_CORE;
      }
      BothAreWanted(rest, seen');
    }
  }
}
