/** The byte store behind Memory (src/Memory.cpp) as values: what one fetch
    or store does to the contents of the buffer, and what a run of stores
    does when the simulator stops at the first fatal error. */
module MemorySpec {
  import opened Results
  import opened RVDefs

  /** The fatal conditions raised through SimError::throwError. */
  datatype Fault =
    | OutOfBounds(addr: int)   // "Address out of bounds"
    | CannotLoad               // "Can't find or process ELF file"
    | NotClass32               // "should be 32-bit elf"
    | NotLittleEndian          // "should be little Endian"
    | NoSegments               // "should consist of atleast one section"

  /** The contents of the buffer after a run of operations, and the fatal
      error that stopped the run, if any. */
  datatype Effect = Effect(contents: seq<Byte>, fault: Option<Fault>)

  /** One store into buffer m. */
  function StoreSpec(m: seq<Byte>, addr: int, b: Byte): (e: Effect)
    ensures |e.contents| == |m|
    ensures e.fault.None? <==> 0 <= addr < |m|
    ensures e.fault.Some? ==> e.fault == Some(OutOfBounds(addr)) && e.contents == m
    ensures e.fault.None? ==> e.contents[addr] == b
    ensures forall a :: 0 <= a < |m| && a != addr ==> e.contents[a] == m[a]
  {
    if 0 <= addr < |m| then Effect(m[addr := b], None) else Effect(m, Some(OutOfBounds(addr)))
  }

  /** The next store of a run: nothing happens once a fatal error was raised. */
  function StoreAfter(e: Effect, addr: int, b: Byte): Effect
  {
    if e.fault.Some? then e else StoreSpec(e.contents, addr, b)
  }
}
