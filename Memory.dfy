/** The Memory class (include/Memory.h, src/Memory.cpp): a fixed-size byte
    buffer with bounds-checked single-byte access and the ELF loader. A
    fatal SimError is returned as a Fault instead of ending the process. */
module MemoryModel {
  import opened Results
  import opened RVDefs
  import opened MemorySpec
  import opened ElfImage

  class Memory {
    /** The byte buffer (uint8_t *mem). */
    var mem: array<Byte>
    /** The declared size of the buffer. */
    var size: uint64

    ghost predicate Valid()
      reads this
    {
      mem.Length == size
    }

    /** Allocates a buffer of maxAddr bytes whose contents are arbitrary. */
    constructor (maxAddr: uint64)
      ensures Valid() && fresh(mem)
      ensures size == maxAddr
    {
      size := maxAddr;
      mem := new Byte[maxAddr];
    }

    /** An address is valid exactly when it indexes the buffer. */
    function IsValidAddress(addr: uint64): (valid: bool)
      reads this
      requires Valid()
      ensures valid <==> addr < mem.Length
    {
      addr < size
    }

    /** Reads one byte; an address past the end is fatal. */
    method Fetch(addr: uint64) returns (r: Result<Byte, Fault>)
      requires Valid()
      ensures addr < size ==> r == Ok(mem[addr])
      ensures addr >= size ==> r == Err(OutOfBounds(addr))
    {
      if !IsValidAddress(addr) {
        return Err(OutOfBounds(addr));
      }
      return Ok(mem[addr]);
    }

    /** Writes one byte; an address past the end is fatal and writes nothing. */
    method Store(addr: uint64, b: Byte) returns (fault: Option<Fault>)
      requires Valid()
      modifies mem
      ensures Valid()
      ensures Effect(mem[..], fault) == StoreSpec(old(mem[..]), addr, b)
    {
      if !IsValidAddress(addr) {
        return Some(OutOfBounds(addr));
      }
      mem[addr] := b;
      return None;
    }

    /** The byte-copy loop of one segment: stores its file-size bytes at
        paddr, paddr + 1, ... and stops at the first fatal error. */
    method CopyIn(seg: Segment) returns (fault: Option<Fault>)
      requires Valid()
      modifies mem
      ensures Valid()
      ensures Effect(mem[..], fault) == CopySegment(old(mem[..]), seg, FileSize(seg))
    {
      var segSize := |seg.data| % 0x1_0000_0000;
      var offset := 0;
      while offset < segSize
        invariant 0 <= offset <= segSize
        invariant Effect(mem[..], None) == CopySegment(old(mem[..]), seg, offset)
      {
        fault := Store(seg.paddr + offset, seg.data[offset]);
        if fault.Some? {
          CopySegmentStopsAtFault(old(mem[..]), seg, offset + 1, segSize);
          return;
        }
        offset := offset + 1;
      }
      fault := None;
    }

    /** One round of the segment loop: copies seg in when its type is
        SHT_PROGBITS and its flags are among sigs, and does nothing
        otherwise. */
    method LoadSegment(seg: Segment, sigs: seq<int32>) returns (fault: Option<Fault>)
      requires Valid()
      modifies mem
      ensures Valid()
      ensures Effect(mem[..], fault) ==
                if Selected(seg, sigs) then CopySegment(old(mem[..]), seg, FileSize(seg))
                else Effect(old(mem[..]), None)
    {
      fault := None;
      if seg.segType == SHT_PROGBITS {
        var segFlags := AsCInt(seg.flags);
        if segFlags in sigs {
          fault := CopyIn(seg);
        }
      }
    }

    /** The segment loop: loads segs in index order and stops at the first
        fatal error. */
    method LoadAll(segs: seq<Segment>, sigs: seq<int32>) returns (fault: Option<Fault>)
      requires Valid()
      modifies mem
      ensures Valid()
      ensures Effect(mem[..], fault) == LoadSegments(old(mem[..]), segs, sigs)
    {
      ghost var m0 := mem[..];
      fault := None;
      var i := 0;
      while i < |segs| && fault.None?
        invariant 0 <= i <= |segs|
        invariant Effect(mem[..], fault) == LoadSegments(m0, segs[..i], sigs)
      {
        LoadSegmentsSnoc(m0, segs, i, sigs);
        fault := LoadSegment(segs[i], sigs);
        i := i + 1;
      }
      if fault.Some? {
        LoadSegmentsStopsAtFault(m0, segs, i, sigs);
      }
      assert segs[..|segs|] == segs;
    }

    /** Loads the segments of a parsed image whose type is SHT_PROGBITS and
        whose flags are among sigs, byte by byte in segment order, and
        returns the entry point truncated to 32 bits. */
    method InitFromElf(image: Option<Elf>, sigs: seq<int32>) returns (r: Result<uint32, Fault>)
      requires Valid()
      modifies mem
      ensures Valid()
      ensures LoadResult(mem[..], r) == LoadElf(old(mem[..]), image, sigs)
    {
      if image.None? {
        return Err(CannotLoad);
      }
      var elf := image.value;
      if elf.elfClass != ELFCLASS32 {
        return Err(NotClass32);
      }
      if elf.encoding != ELFDATA2LSB {
        return Err(NotLittleEndian);
      }
      var segNum := |elf.segments| % 0x1_0000;
      if segNum == 0 {
        return Err(NoSegments);
      }
      var fault := LoadAll(elf.segments[..segNum], sigs);
      if fault.Some? {
        return Err(fault.value);
      }
      return Ok(elf.entry % 0x1_0000_0000);
    }
  }
}
