/** The program-image loader of Memory::initFromElf (src/Memory.cpp:92-154)
    as a function of the memory contents and of what the ELF reader parsed.
    The reader (ELFIO) is not modelled: its output is the Elf value below,
    and a file it cannot load is None. */
module ElfImage {
  import opened Results
  import opened RVDefs
  import opened MemorySpec

  /** e_ident[EI_CLASS] of a 32-bit image (System V ELF gABI). */
  const ELFCLASS32: nat := 1
  /** e_ident[EI_DATA] of a little-endian image. */
  const ELFDATA2LSB: nat := 1
  /** The type the loader compares p_type against: the section-type constant
      SHT_PROGBITS, whose value 1 is also that of the segment type PT_LOAD. */
  const SHT_PROGBITS: uint32 := 1

  /** A program header with the bytes it describes. A 32-bit image carries
      32-bit physical addresses, so paddr + offset never wraps. */
  datatype Segment = Segment(segType: uint32, flags: uint32, paddr: uint32, data: seq<Byte>)

  /** The parsed image: identification bytes, entry point and segment table. */
  datatype Elf = Elf(elfClass: nat, encoding: nat, entry: uint64, segments: seq<Segment>)

  /** The outcome of initFromElf: the memory contents afterwards, and the
      entry point or the fatal error that stopped the load. */
  datatype LoadResult = LoadResult(contents: seq<Byte>, entry: Result<uint32, Fault>)

  /** The segment count is read into an Elf_Half (16 bits). */
  function SegmentCount(elf: Elf): nat
  {
    |elf.segments| % 0x1_0000
  }

  /** p_flags (an Elf_Word) read into a C int: two's complement wrap. */
  function AsCInt(w: uint32): int32
  {
    if w < 0x8000_0000 then w else w - 0x1_0000_0000
  }

  /** p_filesz read into an unsigned int. */
  function FileSize(seg: Segment): nat
  {
    |seg.data| % 0x1_0000_0000
  }

  /** A segment is loaded when its type is SHT_PROGBITS and its flags are
      one of the allowed signatures. */
  predicate Selected(seg: Segment, sigs: seq<int32>)
  {
    seg.segType == SHT_PROGBITS && AsCInt(seg.flags) in sigs
  }

  /** The address range [paddr, paddr + file size) of a segment. */
  predicate Covers(seg: Segment, a: int)
  {
    seg.paddr <= a < seg.paddr + FileSize(seg)
  }

  /** Every byte of the segment lies inside a memory of the given size. */
  predicate Fits(seg: Segment, size: nat)
  {
    FileSize(seg) == 0 || seg.paddr + FileSize(seg) <= size
  }

  function Max(a: int, b: int): int
  {
    if a < b then b else a
  }

  /** The first n iterations of the byte-copy loop of one segment. The
      bytes are stored at increasing addresses, so every byte below the end
      of memory is written before the first address past the end faults. */
  function CopySegment(m: seq<Byte>, seg: Segment, n: nat): (e: Effect)
    requires n <= FileSize(seg)
    ensures |e.contents| == |m|
    ensures e.fault == if n == 0 || seg.paddr + n <= |m| then None
                       else Some(OutOfBounds(Max(seg.paddr, |m|)))
  {
    if n == 0 then Effect(m, None)
    else StoreAfter(CopySegment(m, seg, n - 1), seg.paddr + n - 1, seg.data[n - 1])
  }

  /** After n iterations of the copy loop, every address below the end of
      memory in [paddr, paddr + n) holds its segment byte and every other
      byte is unchanged, even when the loop stopped at a fatal error. */
  lemma {:induction false} CopySegmentContents(m: seq<Byte>, seg: Segment, n: nat, a: nat)
    requires n <= FileSize(seg) && a < |m|
    ensures CopySegment(m, seg, n).contents[a] ==
              if seg.paddr <= a < seg.paddr + n then seg.data[a - seg.paddr] else m[a]
  {
    if n > 0 {
      CopySegmentContents(m, seg, n - 1, a);
    }
  }

  /** Once a store of the copy loop faults, the remaining iterations change
      nothing. */
  lemma {:induction false} CopySegmentStopsAtFault(m: seq<Byte>, seg: Segment, n: nat, n': nat)
    requires n <= n' <= FileSize(seg)
    requires CopySegment(m, seg, n).fault.Some?
    ensures CopySegment(m, seg, n') == CopySegment(m, seg, n)
  {
    if n < n' {
      CopySegmentStopsAtFault(m, seg, n, n' - 1);
    }
  }

  /** The segment loop over segs, in index order, stopping at the first
      fatal error. */
  function LoadSegments(m: seq<Byte>, segs: seq<Segment>, sigs: seq<int32>): (e: Effect)
    ensures |e.contents| == |m|
  {
    if segs == [] then Effect(m, None)
    else
      var e := LoadSegments(m, segs[..|segs| - 1], sigs);
      var seg := segs[|segs| - 1];
      if e.fault.Some? || !Selected(seg, sigs) then e
      else CopySegment(e.contents, seg, FileSize(seg))
  }

  /** The image passes the identification checks of the loader. */
  predicate HeaderOk(elf: Elf)
  {
    elf.elfClass == ELFCLASS32 && elf.encoding == ELFDATA2LSB && SegmentCount(elf) != 0
  }

  /** initFromElf on memory contents m. The size of memory never changes,
      and a load that returns an entry point passed the header checks and
      returns the image's entry truncated to 32 bits. */
  function LoadElf(m: seq<Byte>, image: Option<Elf>, sigs: seq<int32>): (r: LoadResult)
    ensures |r.contents| == |m|
    ensures r.entry.Ok? ==> image.Some? && HeaderOk(image.value) && r.entry.value == image.value.entry % 0x1_0000_0000
    ensures image.None? || !HeaderOk(image.value) ==> r.contents == m && r.entry.Err?
  {
    if image.None? then LoadResult(m, Err(CannotLoad))
    else
      var elf := image.value;
      if elf.elfClass != ELFCLASS32 then LoadResult(m, Err(NotClass32))
      else if elf.encoding != ELFDATA2LSB then LoadResult(m, Err(NotLittleEndian))
      else if SegmentCount(elf) == 0 then LoadResult(m, Err(NoSegments))
      else
        var e := LoadSegments(m, elf.segments[..SegmentCount(elf)], sigs);
        if e.fault.Some? then LoadResult(e.contents, Err(e.fault.value))
        else LoadResult(e.contents, Ok(elf.entry % 0x1_0000_0000))
  }

  // ---------------------------------------------------------------------
  // The segment loop

  /** Adding one more segment to the loop: the unfolding the loader's outer
      loop steps through. */
  lemma LoadSegmentsSnoc(m: seq<Byte>, segs: seq<Segment>, i: nat, sigs: seq<int32>)
    requires i < |segs|
    ensures LoadSegments(m, segs[..i + 1], sigs) ==
              var e := LoadSegments(m, segs[..i], sigs);
              if e.fault.Some? || !Selected(segs[i], sigs) then e
              else CopySegment(e.contents, segs[i], FileSize(segs[i]))
  {
    assert segs[..i + 1][..i] == segs[..i];
  }

  /** Once a fatal error is raised no later segment changes anything. */
  lemma {:induction false} LoadSegmentsStopsAtFault(m: seq<Byte>, segs: seq<Segment>, n: nat, sigs: seq<int32>)
    requires n <= |segs|
    requires LoadSegments(m, segs[..n], sigs).fault.Some?
    ensures LoadSegments(m, segs, sigs) == LoadSegments(m, segs[..n], sigs)
  {
    if n < |segs| {
      assert segs[..|segs| - 1][..n] == segs[..n];
      LoadSegmentsStopsAtFault(m, segs[..|segs| - 1], n, sigs);
    } else {
      assert segs[..n] == segs;
    }
  }

  /** The load succeeds exactly when every selected segment fits in memory. */
  lemma {:induction false} LoadSegmentsSucceeds(m: seq<Byte>, segs: seq<Segment>, sigs: seq<int32>)
    ensures LoadSegments(m, segs, sigs).fault.None? <==>
              forall j :: 0 <= j < |segs| && Selected(segs[j], sigs) ==> Fits(segs[j], |m|)
  {
    if segs != [] {
      var init := segs[..|segs| - 1];
      LoadSegmentsSucceeds(m, init, sigs);
      assert forall j :: 0 <= j < |init| ==> init[j] == segs[j];
    }
  }

  /** The fatal error names the first address past the end of memory of the
      first selected segment that does not fit. */
  lemma {:induction false} LoadSegmentsFaultAddress(m: seq<Byte>, segs: seq<Segment>, sigs: seq<int32>, f: nat)
    requires f < |segs| && Selected(segs[f], sigs) && !Fits(segs[f], |m|)
    requires forall j :: 0 <= j < f && Selected(segs[j], sigs) ==> Fits(segs[j], |m|)
    ensures LoadSegments(m, segs, sigs).fault == Some(OutOfBounds(Max(segs[f].paddr, |m|)))
  {
    var prefix := segs[..f];
    LoadSegmentsSucceeds(m, prefix, sigs);
    LoadSegmentsSnoc(m, segs, f, sigs);
    LoadSegmentsStopsAtFault(m, segs, f + 1, sigs);
  }

  /** A byte no selected segment covers keeps its value, whether or not the
      load faults. */
  lemma {:induction false} LoadSegmentsFrame(m: seq<Byte>, segs: seq<Segment>, sigs: seq<int32>, a: nat)
    requires a < |m|
    requires forall j :: 0 <= j < |segs| && Selected(segs[j], sigs) ==> !Covers(segs[j], a)
    ensures LoadSegments(m, segs, sigs).contents[a] == m[a]
  {
    if segs != [] {
      var init := segs[..|segs| - 1];
      assert forall j :: 0 <= j < |init| ==> init[j] == segs[j];
      LoadSegmentsFrame(m, init, sigs, a);
      var e := LoadSegments(m, init, sigs);
      var last := segs[|segs| - 1];
      if e.fault.None? && Selected(last, sigs) {
        CopySegmentContents(e.contents, last, FileSize(last), a);
      }
    }
  }

  /** Segments are applied in index order: a byte of a selected segment is
      in memory after a successful load unless a later selected segment
      covers the same address. */
  lemma {:induction false} LoadSegmentsLastWriter(m: seq<Byte>, segs: seq<Segment>, sigs: seq<int32>, j: nat, k: nat)
    requires LoadSegments(m, segs, sigs).fault.None?
    requires j < |segs| && Selected(segs[j], sigs) && k < FileSize(segs[j])
    requires forall j' :: j < j' < |segs| && Selected(segs[j'], sigs) ==> !Covers(segs[j'], segs[j].paddr + k)
    ensures segs[j].paddr + k < |m|
    ensures LoadSegments(m, segs, sigs).contents[segs[j].paddr + k] == segs[j].data[k]
  {
    var init := segs[..|segs| - 1];
    var last := segs[|segs| - 1];
    assert segs == init + [last];
    var e := LoadSegments(m, init, sigs);
    assert e.fault.None?;
    if j == |segs| - 1 {
      CopySegmentContents(e.contents, last, FileSize(last), last.paddr + k);
    } else {
      assert forall i :: 0 <= i < |init| ==> init[i] == segs[i];
      LoadSegmentsLastWriter(m, init, sigs, j, k);
      if Selected(last, sigs) {
        CopySegmentContents(e.contents, last, FileSize(last), segs[j].paddr + k);
      }
    }
  }

  // ---------------------------------------------------------------------
  // initFromElf

  /** A file the reader cannot load, an image that is not 32-bit, not
      little-endian, or without segments is refused before memory is touched. */
  lemma LoadElfRejects(m: seq<Byte>, image: Option<Elf>, sigs: seq<int32>)
    requires image.None? || !HeaderOk(image.value)
    ensures LoadElf(m, image, sigs).contents == m
    ensures LoadElf(m, image, sigs).entry ==
              if image.None? then Err(CannotLoad)
              else if image.value.elfClass != ELFCLASS32 then Err(NotClass32)
              else if image.value.encoding != ELFDATA2LSB then Err(NotLittleEndian)
              else Err(NoSegments)
  {
  }

  /** The load returns the entry point, truncated to 32 bits, exactly when
      the header is acceptable and every selected segment among the first
      SegmentCount fits in memory. */
  lemma LoadElfSucceeds(m: seq<Byte>, elf: Elf, sigs: seq<int32>)
    ensures LoadElf(m, Some(elf), sigs).entry.Ok? <==>
              HeaderOk(elf) &&
              forall j :: 0 <= j < SegmentCount(elf) && Selected(elf.segments[j], sigs) ==> Fits(elf.segments[j], |m|)
    ensures LoadElf(m, Some(elf), sigs).entry.Ok? ==>
              LoadElf(m, Some(elf), sigs).entry.value == elf.entry % 0x1_0000_0000
  {
    var n := SegmentCount(elf);
    var segs := elf.segments[..n];
    LoadSegmentsSucceeds(m, segs, sigs);
    assert forall j :: 0 <= j < n ==> segs[j] == elf.segments[j];
  }

  /** Loader selectivity: an address no selected segment covers keeps its
      former value, whatever the outcome of the load. */
  lemma LoadElfFrame(m: seq<Byte>, image: Option<Elf>, sigs: seq<int32>, a: nat)
    requires a < |m|
    requires image.Some? ==>
               forall j :: 0 <= j < SegmentCount(image.value) && Selected(image.value.segments[j], sigs) ==>
                 !Covers(image.value.segments[j], a)
    ensures |LoadElf(m, image, sigs).contents| == |m|
    ensures LoadElf(m, image, sigs).contents[a] == m[a]
  {
    if image.Some? && HeaderOk(image.value) {
      var elf := image.value;
      var segs := elf.segments[..SegmentCount(elf)];
      assert forall j :: 0 <= j < |segs| ==> segs[j] == elf.segments[j];
      LoadSegmentsFrame(m, segs, sigs, a);
    }
  }

  /** After a successful load, byte k of a selected segment is at paddr + k
      unless a later selected segment overwrote that address. */
  lemma LoadElfPlacesSegment(m: seq<Byte>, elf: Elf, sigs: seq<int32>, j: nat, k: nat)
    requires LoadElf(m, Some(elf), sigs).entry.Ok?
    requires j < SegmentCount(elf) && Selected(elf.segments[j], sigs) && k < FileSize(elf.segments[j])
    requires forall j' :: j < j' < SegmentCount(elf) && Selected(elf.segments[j'], sigs) ==>
               !Covers(elf.segments[j'], elf.segments[j].paddr + k)
    ensures elf.segments[j].paddr + k < |m|
    ensures LoadElf(m, Some(elf), sigs).contents[elf.segments[j].paddr + k] == elf.segments[j].data[k]
  {
    var segs := elf.segments[..SegmentCount(elf)];
    assert forall i :: 0 <= i < |segs| ==> segs[i] == elf.segments[i];
    LoadSegmentsLastWriter(m, segs, sigs, j, k);
  }
}
