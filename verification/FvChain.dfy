/** What FindImageBase finds, said without the walk: chains of aligned files and sections. */
module FvChain {
  import opened Words
  import opened Efi
  import opened FvWalk

  // ----- sections

  /** Sections laid end to end from `body` on, each at the next multiple of four, each with a
      plausible size and inside the file. */
  ghost predicate SectionChain(mem: Memory, body: nat, endOfFile: nat, ss: seq<nat>) {
    forall i :: 0 <= i < |ss| ==> SectionLink(mem, SectionsEnd(mem, body, ss[..i]), endOfFile, ss[i])
  }

  predicate SectionLink(mem: Memory, at: nat, endOfFile: nat, s: nat) {
    s == Align4(at) && SectionSizeOk(mem, s) && s + SectionSize(mem, s) <= endOfFile
  }

  function SectionsEnd(mem: Memory, body: nat, ss: seq<nat>): nat {
    if ss == [] then body else ss[|ss| - 1] + SectionSize(mem, ss[|ss| - 1])
  }

  /** s is the first executable section of the chain. */
  ghost predicate FirstExecutableIs(mem: Memory, body: nat, endOfFile: nat, ss: seq<nat>, s: nat) {
    && SectionChain(mem, body, endOfFile, ss)
    && |ss| > 0 && ss[|ss| - 1] == s && IsExecutable(mem, s)
    && forall i :: 0 <= i < |ss| - 1 ==> !IsExecutable(mem, ss[i])
  }

  lemma SectionChainExtend(mem: Memory, body: nat, endOfFile: nat, ss: seq<nat>, s: nat)
    requires SectionChain(mem, body, endOfFile, ss)
    requires SectionLink(mem, SectionsEnd(mem, body, ss), endOfFile, s)
    ensures SectionChain(mem, body, endOfFile, ss + [s])
  {
    var t := ss + [s];
    forall i | 0 <= i < |t| ensures SectionLink(mem, SectionsEnd(mem, body, t[..i]), endOfFile, t[i]) {
      assert t[..i] == ss[..i];
      assert i == |ss| ==> ss[..i] == ss;
    }
  }

  lemma {:induction false} FoundSectionIsFirst(mem: Memory, body: nat, endOfFile: nat, ss: seq<nat>)
    returns (all: seq<nat>)
    requires SectionChain(mem, body, endOfFile, ss)
    requires forall i :: 0 <= i < |ss| ==> !IsExecutable(mem, ss[i])
    ensures var r := FindSection(mem, SectionsEnd(mem, body, ss), endOfFile);
            r.Some? ==> FirstExecutableIs(mem, body, endOfFile, all, r.value)
    decreases var e := SectionsEnd(mem, body, ss); if e <= endOfFile then endOfFile - e + 1 else 0
  {
    hide FindSection, SectionChain, SectionSize, SectionSizeOk, IsExecutable, Align4;
    var e := SectionsEnd(mem, body, ss);
    var s := Align4(e);
    all := ss + [s];
    FindSectionStep(mem, e, endOfFile);
    if SectionLink(mem, e, endOfFile, s) {
      SectionChainExtend(mem, body, endOfFile, ss, s);
      SectionBounds(mem, s);
      Align4Up(e);
      if !IsExecutable(mem, s) {
        all := FoundSectionIsFirst(mem, body, endOfFile, ss + [s]);
      }
    }
  }

  lemma Align4Up(a: nat)
    ensures Align4(a) >= a
  {
  }

  lemma Align8Up(a: nat)
    ensures Align8(a) >= a
  {
  }

  lemma {:induction false} FirstSectionIsFound(mem: Memory, body: nat, endOfFile: nat, ss: seq<nat>, s: nat, n: nat)
    requires FirstExecutableIs(mem, body, endOfFile, ss, s) && n < |ss|
    ensures FindSection(mem, SectionsEnd(mem, body, ss[..n]), endOfFile) == Some(s)
    decreases |ss| - n
  {
    hide FindSection, SectionSize, SectionSizeOk, IsExecutable, Align4;
    var e := SectionsEnd(mem, body, ss[..n]);
    FindSectionStep(mem, e, endOfFile);
    assert SectionLink(mem, e, endOfFile, ss[n]);
    if n + 1 < |ss| {
      assert !IsExecutable(mem, ss[n]);
      assert ss[..n + 1][n] == ss[n];
      FirstSectionIsFound(mem, body, endOfFile, ss, s, n + 1);
    }
  }

  /** The inner loop finds s exactly when s is the first executable section of the file's chain. */
  lemma FindSectionIff(mem: Memory, body: nat, endOfFile: nat, s: nat)
    ensures FindSection(mem, body, endOfFile) == Some(s)
            <==> exists ss :: FirstExecutableIs(mem, body, endOfFile, ss, s)
  {
    hide FirstExecutableIs, FindSection;
    NoSections(mem, body, endOfFile);
    var all := FoundSectionIsFirst(mem, body, endOfFile, []);
    if ss :| FirstExecutableIs(mem, body, endOfFile, ss, s) {
      FirstIsSome(mem, body, endOfFile, ss, s);
      FirstSectionIsFound(mem, body, endOfFile, ss, s, 0);
      assert ss[..0] == [];
    }
  }

  lemma NoSections(mem: Memory, body: nat, endOfFile: nat)
    ensures SectionChain(mem, body, endOfFile, []) && SectionsEnd(mem, body, []) == body
  {
  }

  lemma FirstIsSome(mem: Memory, body: nat, endOfFile: nat, ss: seq<nat>, s: nat)
    requires FirstExecutableIs(mem, body, endOfFile, ss, s)
    ensures |ss| > 0
  {
  }

  // ----- files

  predicate FileLink(mem: Memory, at: nat, endOfVolume: nat, f: nat) {
    f == Align8(at) && FileSizeOk(mem, f) && f + FileSize(mem, f) <= endOfVolume
  }

  function FilesEnd(mem: Memory, start: nat, files: seq<nat>): nat {
    if files == [] then start else files[|files| - 1] + FileSize(mem, files[|files| - 1])
  }

  /** Files laid end to end from `start` on, each at the next multiple of eight. */
  ghost predicate FileChain(mem: Memory, start: nat, endOfVolume: nat, files: seq<nat>) {
    forall i :: 0 <= i < |files| ==> FileLink(mem, FilesEnd(mem, start, files[..i]), endOfVolume, files[i])
  }

  function ExecutableOf(mem: Memory, f: nat): Option<nat> {
    FindSection(mem, FileBody(mem, f), f + FileSize(mem, f))
  }

  /** Just past the header of the first executable section; zero stands for none. */
  function ImageOf(mem: Memory, f: nat): nat {
    match ExecutableOf(mem, f)
    case None => 0
    case Some(s) => SectionBody(mem, s)
  }

  /** The image of the last file of the given type; zero if there is none. */
  function Latest(mem: Memory, files: seq<nat>, kind: u8): nat {
    if files == [] then 0
    else if FileType(mem, files[|files| - 1]) == kind then ImageOf(mem, files[|files| - 1])
    else Latest(mem, files[..|files| - 1], kind)
  }

  ghost predicate CoresHaveImages(mem: Memory, files: seq<nat>) {
    forall i :: 0 <= i < |files| && IsCore(mem, files[i]) ==> ExecutableOf(mem, files[i]).Some?
  }

  predicate BothFound(mem: Memory, files: seq<nat>) {
    Latest(mem, files, SECURITY_CORE) != 0 && Latest(mem, files, PEI_CORE) != 0
  }

  /** The chain up to the file with which both kinds of core have first been seen. */
  ghost predicate Completes(mem: Memory, start: nat, endOfVolume: nat, files: seq<nat>) {
    && FileChain(mem, start, endOfVolume, files)
    && CoresHaveImages(mem, files)
    && BothFound(mem, files)
    && !BothFound(mem, files[..|files| - 1])
  }

  lemma FileChainExtend(mem: Memory, start: nat, endOfVolume: nat, files: seq<nat>, f: nat)
    requires FileChain(mem, start, endOfVolume, files)
    requires FileLink(mem, FilesEnd(mem, start, files), endOfVolume, f)
    ensures FileChain(mem, start, endOfVolume, files + [f])
  {
    var t := files + [f];
    forall i | 0 <= i < |t| ensures FileLink(mem, FilesEnd(mem, start, t[..i]), endOfVolume, t[i]) {
      assert t[..i] == files[..i];
      assert i == |files| ==> files[..i] == files;
    }
  }

  /** The state of the walk behind a chain of files. */
  function WalkBehind(mem: Memory, start: nat, endOfVolume: nat, files: seq<nat>): Found {
    Walk(mem, FilesEnd(mem, start, files), endOfVolume, Latest(mem, files, SECURITY_CORE), Latest(mem, files, PEI_CORE))
  }

  /** One file further: what the outer loop does with a linked file. */
  lemma WalkOne(mem: Memory, start: nat, endOfVolume: nat, files: seq<nat>, f: nat)
    requires FileLink(mem, FilesEnd(mem, start, files), endOfVolume, f)
    requires !BothFound(mem, files)
    ensures WalkBehind(mem, start, endOfVolume, files) ==
              if IsCore(mem, f) && ExecutableOf(mem, f).None?
              then Found(NotFound, Latest(mem, files, SECURITY_CORE), Latest(mem, files, PEI_CORE))
              else if BothFound(mem, files + [f])
              then Found(Success, Latest(mem, files + [f], SECURITY_CORE), Latest(mem, files + [f], PEI_CORE))
              else WalkBehind(mem, start, endOfVolume, files + [f])
  {
    hide FileSize, FileSizeOk, FindSection, SectionBody, FileBody, Align8;
    assert (files + [f])[..|files|] == files;
    Align8Up(FilesEnd(mem, start, files));
    FileBounds(mem, f);
  }

  lemma {:induction false} WalkIsSound(mem: Memory, start: nat, endOfVolume: nat, files: seq<nat>)
    returns (all: seq<nat>)
    requires FileChain(mem, start, endOfVolume, files) && CoresHaveImages(mem, files) && !BothFound(mem, files)
    ensures var r := WalkBehind(mem, start, endOfVolume, files);
            r.status.Success? ==>
              && Completes(mem, start, endOfVolume, all)
              && r.sec == Latest(mem, all, SECURITY_CORE) && r.pei == Latest(mem, all, PEI_CORE)
    decreases var e := FilesEnd(mem, start, files); if e <= endOfVolume then endOfVolume - e + 1 else 0
  {
    hide FileChain, FileSize, FileSizeOk, ExecutableOf, IsCore, Latest, Align8;
    var e := FilesEnd(mem, start, files);
    var f := Align8(e);
    all := files + [f];
    assert all[..|all| - 1] == files;
    if FileLink(mem, e, endOfVolume, f) {
      WalkOne(mem, start, endOfVolume, files, f);
      FileChainExtend(mem, start, endOfVolume, files, f);
      if IsCore(mem, f) && ExecutableOf(mem, f).None? {
      } else if !BothFound(mem, all) {
        FileBounds(mem, f);
        Align8Up(e);
        all := WalkIsSound(mem, start, endOfVolume, all);
      }
    } else {
      WalkStops(mem, e, endOfVolume, Latest(mem, files, SECURITY_CORE), Latest(mem, files, PEI_CORE));
    }
  }

  lemma WalkStops(mem: Memory, e: nat, endOfVolume: nat, sec: nat, pei: nat)
    requires !FileLink(mem, e, endOfVolume, Align8(e))
    ensures Walk(mem, e, endOfVolume, sec, pei).status == NotFound
  {
  }

  lemma ChainAt(mem: Memory, start: nat, endOfVolume: nat, files: seq<nat>, n: nat)
    requires FileChain(mem, start, endOfVolume, files) && CoresHaveImages(mem, files) && n < |files|
    ensures FileLink(mem, FilesEnd(mem, start, files[..n]), endOfVolume, files[n])
    ensures IsCore(mem, files[n]) ==> ExecutableOf(mem, files[n]).Some?
  {
  }

  lemma {:induction false} WalkIsComplete(mem: Memory, start: nat, endOfVolume: nat, files: seq<nat>, n: nat)
    requires Completes(mem, start, endOfVolume, files) && n < |files|
    ensures WalkBehind(mem, start, endOfVolume, files[..n])
            == Found(Success, Latest(mem, files, SECURITY_CORE), Latest(mem, files, PEI_CORE))
    decreases |files| - n
  {
    hide Latest, FileLink, IsCore, ExecutableOf, Walk, FileChain, CoresHaveImages, BothFound, WalkBehind;
    FoundStays(mem, files, n);
    ChainAt(mem, start, endOfVolume, files, n);
    assert files[..n] + [files[n]] == files[..n + 1];
    WalkOne(mem, start, endOfVolume, files[..n], files[n]);
    if n + 1 < |files| {
      FoundStays(mem, files, n + 1);
      WalkIsComplete(mem, start, endOfVolume, files, n + 1);
    } else {
      assert files[..n + 1] == files;
    }
  }

  /** Once an image of a kind has been found there is always one. */
  lemma {:induction false} LatestStays(mem: Memory, files: seq<nat>, n: nat, kind: u8)
    requires CoresHaveImages(mem, files) && n <= |files| && kind in {SECURITY_CORE, PEI_CORE}
    requires Latest(mem, files[..n], kind) != 0
    ensures Latest(mem, files, kind) != 0
    decreases |files|
  {
    hide ExecutableOf, SectionBody;
    if n < |files| {
      var last := |files| - 1;
      if FileType(mem, files[last]) == kind {
        ImageIsNonZero(mem, files[last]);
      } else {
        assert files[..last][..n] == files[..n];
        LatestStays(mem, files[..last], n, kind);
      }
    } else {
      assert files[..n] == files;
    }
  }

  lemma ImageIsNonZero(mem: Memory, f: nat)
    ensures ImageOf(mem, f) != 0 <==> ExecutableOf(mem, f).Some?
  {
    SectionInside(mem, FileBody(mem, f), f + FileSize(mem, f));
  }

  lemma FoundStays(mem: Memory, files: seq<nat>, n: nat)
    requires CoresHaveImages(mem, files) && n < |files| && !BothFound(mem, files[..|files| - 1])
    ensures !BothFound(mem, files[..n])
  {
    hide Latest, ExecutableOf;
    var most := files[..|files| - 1];
    assert most[..n] == files[..n];
    assert CoresHaveImages(mem, most);
    if BothFound(mem, files[..n]) {
      LatestStays(mem, most, n, SECURITY_CORE);
      LatestStays(mem, most, n, PEI_CORE);
    }
  }

  /** FindImageBase succeeds with the given bases exactly when the chain of files in the volume
      reaches a first point where both kinds of core have been seen, every core file up to there has
      an executable section, and the bases are the images of the last core of each kind. */
  lemma WalkIff(mem: Memory, start: nat, endOfVolume: nat, sec: nat, pei: nat)
    ensures Walk(mem, start, endOfVolume, 0, 0) == Found(Success, sec, pei)
            <==> exists files :: Completes(mem, start, endOfVolume, files)
                   && sec == Latest(mem, files, SECURITY_CORE) && pei == Latest(mem, files, PEI_CORE)
  {
    NoFiles(mem, start, endOfVolume);
    hide Completes, Walk, Latest, FileChain, CoresHaveImages, BothFound;
    var all := WalkIsSound(mem, start, endOfVolume, []);
    if files :| Completes(mem, start, endOfVolume, files)
                && sec == Latest(mem, files, SECURITY_CORE) && pei == Latest(mem, files, PEI_CORE) {
      CompletesIsSome(mem, start, endOfVolume, files);
      WalkIsComplete(mem, start, endOfVolume, files, 0);
      assert files[..0] == [];
    }
  }

  /** The i-th file is the last one whose type, byte 18 of its header, is the given one. */
  ghost predicate LastOfType(mem: Memory, files: seq<nat>, kind: nat, i: int) {
    && 0 <= i < |files| && mem(files[i] + 18) == kind
    && forall k :: i < k < |files| ==> mem(files[k] + 18) != kind
  }

  lemma {:induction false} LatestByType(mem: Memory, files: seq<nat>, kind: u8) returns (i: int)
    requires Latest(mem, files, kind) != 0
    ensures LastOfType(mem, files, kind, i) && Latest(mem, files, kind) == ImageOf(mem, files[i])
  {
    hide ImageOf;
    i := |files| - 1;
    if FileType(mem, files[i]) != kind {
      i := LatestByType(mem, files[..i], kind);
    }
  }

  /** On success the first base is the image of the last security core (file type 3) of the chain walked, the
      second the image of its last PEI core (file type 4): behind the header of the first section of that
      file that is executable. */
  lemma BasesByType(mem: Memory, start: nat, endOfVolume: nat)
    returns (files: seq<nat>, i: int, j: int, s: nat, t: nat)
    requires Walk(mem, start, endOfVolume, 0, 0).status.Success?
    ensures FileChain(mem, start, endOfVolume, files)
    ensures LastOfType(mem, files, 3, i) && ExecutableOf(mem, files[i]) == Some(s)
    ensures LastOfType(mem, files, 4, j) && ExecutableOf(mem, files[j]) == Some(t)
    ensures Walk(mem, start, endOfVolume, 0, 0) == Found(Success, SectionBody(mem, s), SectionBody(mem, t))
  {
    NoFiles(mem, start, endOfVolume);
    hide Walk, Latest, FileChain, CoresHaveImages, ExecutableOf, LastOfType, SectionBody;
    files := WalkIsSound(mem, start, endOfVolume, []);
    i := LatestByType(mem, files, SECURITY_CORE);
    j := LatestByType(mem, files, PEI_CORE);
    LastIsInside(mem, files, 3, i);
    LastIsInside(mem, files, 4, j);
    s, t := ExecutableOf(mem, files[i]).value, ExecutableOf(mem, files[j]).value;
  }

  lemma LastIsInside(mem: Memory, files: seq<nat>, kind: nat, i: int)
    requires LastOfType(mem, files, kind, i)
    ensures 0 <= i < |files|
  {
  }

  lemma NoFiles(mem: Memory, start: nat, endOfVolume: nat)
    ensures FileChain(mem, start, endOfVolume, []) && CoresHaveImages(mem, []) && !BothFound(mem, [])
    ensures WalkBehind(mem, start, endOfVolume, []) == Walk(mem, start, endOfVolume, 0, 0)
  {
  }

  lemma CompletesIsSome(mem: Memory, start: nat, endOfVolume: nat, files: seq<nat>)
    requires Completes(mem, start, endOfVolume, files)
    ensures |files| > 0
  {
  }
}
