# RVSim-old core, modelled in Dafny

RVSim-old is a RISC-V instruction-set simulator written in C++. This project
models the parts of it that hold state and move bytes, and proves what they
do:

- **Memory** (`src/Memory.cpp`) is a fixed-size byte buffer. It offers
  bounds-checked single-byte `fetch` and `store`, and `initFromElf`, which
  copies the segments of a program image whose flags appear in an allow-list
  into the buffer and returns the entry point. Modules `MemorySpec`,
  `ElfImage` and `MemoryModel`.
- **Bus** (`Bus<REG>::request`, `src/RVSim.cpp`) is a four-lane byte
  multiplexer between register-width transfers and Memory. Bit i of the lane
  select enables byte lane i at `address + i`. Reads are composed
  little-endian. Module `BusModel`.
- **RVCPU** (`src/RVCPU.cpp`) holds the ISA configuration, the register
  count, the reset address and the architectural state: a PC and `XLEN`
  registers. It offers reset, the two accessors and `step`. Module `CpuModel`.
- **Util** (`src/Util.cpp`) holds the string utilities `lStrip`, `rStrip`,
  `strip` and `tokenize`. Module `Util`.

`RVDefs` fixes the build configuration `RV_XLEN_32`: `XLEN = 32`, and `REG`
is a 32-bit unsigned word. Machine integers are `int` subset types
(`Byte`, `uint32`, `int32`, `uint64`), and each C conversion is written out:
- the 16-bit segment count;
- `p_flags` read into a C `int`;
- the 32-bit entry point;
- `address + i` wrapping in `REG` arithmetic;
- the `uint8_t` casts of the bus.

A call to `SimError::throwError(msg, true)` ends the process. The model
returns it as a `Fault` instead, and the operation stops at once. Stores made
before the fault stay applied, which the `Effect` datatype
(contents, fault) records.

How the model is built:
- Memory and the CPU are classes whose methods carry `modifies` clauses.
  The bus is not a class here. It is the module-level method
  `BusModel.Request`, which acts on a `Memory`.
- The loops are loops: the segment loop and the byte-copy loop of
  `initFromElf`, the clearing loop of `reset`, and the `while` loop of
  `tokenize`.
- Some methods change state or loop, and each of those is proved against a
  specification function on values:
  - `Store` against `StoreSpec`;
  - `CopyIn` against `CopySegment`;
  - `LoadSegment` and `LoadAll` against `LoadSegments`;
  - `InitFromElf` against `LoadElf`;
  - `Request`, `WriteRequest` and `ReadRequest` against `BusWrite` and `BusRead`;
  - `Reset` against `ResetState`;
  - `Tokenize` against `Split`.
- `Fetch`, `IsValidAddress`, `GetRegValue`, `GetPCValue` and `Step` state
  their results directly.
- The lemmas next to each function prove what the source promises.

Behaviour of the code that the model keeps:
- `reset` clears only the first `nRegs` of the `XLEN` entries of `state.X`
  (src/RVCPU.cpp:50-53). The entries above them keep their values.
- `step` only prints (src/RVCPU.cpp:59-62). There is no fetch, decode or
  execute.
- The write path of the bus stores 0 in lanes 1 to 3. So a write followed by
  a read returns only lane 0 (see Findings).
- The lane select is a C `int`, and only its low four bits are looked at
  (src/RVSim.cpp:33-61).
- The loader compares the segment type with `SHT_PROGBITS`, which is 1
  (src/Memory.cpp:126). It also truncates the 64-bit entry point to
  `unsigned int` (src/Memory.cpp:153).

## Model

| member | source | states |
|---|---|---|
| `MemorySpec.StoreSpec` | src/Memory.cpp:73-83 | a store succeeds exactly when the address is below the buffer size; it then sets that byte and keeps every other byte, and otherwise raises OutOfBounds(addr) and changes nothing |
| `ElfImage.CopySegment` | src/Memory.cpp:140-145 | the first n iterations of the byte-copy loop keep the buffer size and fault exactly when the segment runs past the end of memory, naming the first address past the end |
| `ElfImage.CopySegmentContents` | src/Memory.cpp:140-145 | after n iterations every in-bounds address in [paddr, paddr + n) holds its segment byte and every other byte is unchanged, also after a fault |
| `ElfImage.CopySegmentStopsAtFault` | src/Memory.cpp:141-145 | once a store of the copy loop faults, later iterations change nothing |
| `ElfImage.LoadSegments` | src/Memory.cpp:119-152 | the segment loop keeps the size of memory |
| `ElfImage.LoadSegmentsSnoc` | src/Memory.cpp:119-152 | one more round of the segment loop copies segment i only when no fault happened and its type and flags select it |
| `ElfImage.LoadSegmentsStopsAtFault` | src/Memory.cpp:119-152 | once a segment faults, no later segment changes anything |
| `ElfImage.LoadSegmentsSucceeds` | src/Memory.cpp:119-152 | the segment loop succeeds exactly when every selected segment fits in memory |
| `ElfImage.LoadSegmentsFaultAddress` | src/Memory.cpp:126-145 | the fault names the first address past the end of memory of the first selected segment that does not fit |
| `ElfImage.LoadSegmentsFrame` | src/Memory.cpp:119-152 | a byte no selected segment covers keeps its value, whatever the outcome |
| `ElfImage.LoadSegmentsLastWriter` | src/Memory.cpp:119-152 | after a successful loop, byte k of a selected segment is at paddr + k unless a later selected segment covers that address |
| `ElfImage.LoadElf` | src/Memory.cpp:92-154 | the load keeps the size of memory; a returned entry point comes from an image that passed the header checks, truncated to 32 bits; an unloadable file or a failed header check leaves memory unchanged and returns an error |
| `ElfImage.LoadElfRejects` | src/Memory.cpp:98-112 | an unloadable file, a non-32-bit image, a big-endian image or an image without segments is refused with its own error before memory is touched |
| `ElfImage.LoadElfSucceeds` | src/Memory.cpp:92-154 | the load returns the entry point truncated to 32 bits exactly when the header checks pass and every selected segment among the first (16-bit) segment count fits in memory |
| `ElfImage.LoadElfFrame` | src/Memory.cpp:119-152 | an address no selected segment covers keeps its former value, whatever the outcome of the load |
| `ElfImage.LoadElfPlacesSegment` | src/Memory.cpp:119-153 | after a successful load, byte k of a selected segment is at paddr + k unless a later selected segment overwrote it |
| `MemoryModel.Memory.constructor` | src/Memory.cpp:12-21 | the buffer has max_addr bytes and size records max_addr |
| `MemoryModel.Memory.IsValidAddress` | src/Memory.cpp:42-45 | an address is valid exactly when it indexes the buffer |
| `MemoryModel.Memory.Fetch` | src/Memory.cpp:54-64 | returns the byte at an in-bounds address and OutOfBounds(addr) otherwise |
| `MemoryModel.Memory.Store` | src/Memory.cpp:73-83 | the new buffer and the fault are those of StoreSpec on the old buffer |
| `MemoryModel.Memory.CopyIn` | src/Memory.cpp:140-145 | the byte-copy loop leaves the buffer and fault of CopySegment over the whole file size |
| `MemoryModel.Memory.LoadSegment` | src/Memory.cpp:120-148 | one round of the segment loop copies the segment in, as CopySegment over its file size, when its type is SHT_PROGBITS and its flags are among the signatures, and otherwise changes nothing |
| `MemoryModel.Memory.LoadAll` | src/Memory.cpp:117-151 | the segment loop leaves the buffer and fault of LoadSegments on the old buffer |
| `MemoryModel.Memory.InitFromElf` | src/Memory.cpp:92-154 | the new buffer and the result are those of LoadElf on the old buffer |
| `BusModel.LaneAddressesDistinct` | src/RVSim.cpp:33-43 | the four lane addresses address + i (mod 2^32) are pairwise different |
| `BusModel.StoredBytes` | src/RVSim.cpp:34-43 | the bytes the write path stores are the low byte of data, then 0, 0, 0 |
| `BusModel.IntendedBytes` | src/RVSim.cpp:34-43 | shifting before the cast would store the four byte lanes of data, which compose back to data |
| `BusModel.BusWrite` | src/RVSim.cpp:31-45 | a write keeps the size of memory and succeeds exactly when every selected lane's address is in bounds |
| `BusModel.WriteLanes` | src/RVSim.cpp:31-45 | the lane stores keep the size of memory |
| `BusModel.WriteLanesStopAtFault` | src/RVSim.cpp:33-43 | once a lane's store faults, higher lanes change nothing |
| `BusModel.WriteLanesFrame` | src/RVSim.cpp:31-45 | a write changes only the addresses of selected lanes |
| `BusModel.WriteLanesSucceeds` | src/RVSim.cpp:31-45 | a write succeeds exactly when every selected lane's address is in bounds |
| `BusModel.WriteLanesStores` | src/RVSim.cpp:31-45 | after a successful write each selected lane's address holds that lane's byte |
| `BusModel.WriteLanesFaultLane` | src/RVSim.cpp:31-45 | when lane f is the first selected lane out of bounds, the lower lanes are stored and the write fails with lane f's address |
| `BusModel.WriteIgnoresHighSelBits` | src/RVSim.cpp:33-43 | bits of sel above bit 3 do not change a write |
| `BusModel.BusRead` | src/RVSim.cpp:47-63 | a read succeeds exactly when every selected lane's address is in bounds, and its error names the address of a selected lane |
| `BusModel.BusReadLanes` | src/RVSim.cpp:47-63 | a read succeeds exactly when every selected lane is in bounds; byte lane i of the result is the byte at address + i if lane i is selected and 0 if not |
| `BusModel.BusReadNoLanes` | src/RVSim.cpp:49-63 | a read with no lane selected returns 0 |
| `BusModel.BusReadFaultLane` | src/RVSim.cpp:51-61 | the first selected lane out of bounds gives the error of the read |
| `BusModel.ReadIgnoresHighSelBits` | src/RVSim.cpp:51-61 | bits of sel above bit 3 do not change a read |
| `BusModel.WriteThenRead` | src/RVSim.cpp:28-65 | reading back what a successful write stored gives the stored bytes in the selected lanes and 0 in the others |
| `BusModel.RoundTripAsWritten` | src/RVSim.cpp:31-63 | as written, a write followed by a read returns only lane 0 of data (if selected) and 0 in every other lane |
| `BusModel.RoundTripIntended` | src/RVSim.cpp:31-63 | with the intended bytes, a write followed by a read returns data masked to the selected lanes |
| `BusModel.WriteDropsUpperBytes` | src/RVSim.cpp:36-37 | writing 0xff00 with lane 1 selected stores 0, the read-back is 0, and the intended write would read back 0xff00 |
| `BusModel.Request` | src/RVSim.cpp:28-65 | a write leaves memory as BusWrite says and returns 0 or its fault; a read leaves memory unchanged and returns BusRead |
| `BusModel.StoreLane` | src/RVSim.cpp:33-43 | one lane of the write stores its byte at address + i when the lane is selected and does nothing otherwise |
| `BusModel.WriteRequest` | src/RVSim.cpp:31-45 | the write branch leaves memory as BusWrite of the old contents and returns 0 or the fault |
| `BusModel.FetchLane` | src/RVSim.cpp:51-61 | one lane of the read is the fetched byte when the lane is selected and 0 otherwise |
| `BusModel.ReadRequest` | src/RVSim.cpp:47-63 | the read branch returns BusRead of the memory contents |
| `CpuModel.RegisterCount` | src/RVCPU.cpp:17 | the register count is XLEN, or half of it exactly when the ISA is embedded |
| `CpuModel.ClearRegs` | src/RVCPU.cpp:50-53 | clearing keeps the number of registers |
| `CpuModel.ClearRegsContents` | src/RVCPU.cpp:50-53 | clearing n registers zeroes exactly the registers below n |
| `CpuModel.ResetState` | src/RVCPU.cpp:44-54 | after reset the PC is the reset address, the first nRegs registers are 0 and the registers from nRegs up keep their values |
| `CpuModel.ResetIdempotent` | src/RVCPU.cpp:44-54 | resetting twice is resetting once |
| `CpuModel.ResetForgetsClearedState` | src/RVCPU.cpp:44-54 | two states that agree on the registers from nRegs up are equal after reset |
| `CpuModel.RVCPU.constructor` | src/RVCPU.cpp:13-19 | records the reset address and the ISA, and sets nRegs from the ISA; it promises nothing about PC or registers |
| `CpuModel.RVCPU.GetRegValue` | src/RVCPU.cpp:27-30 | returns register regNo of the state |
| `CpuModel.RVCPU.GetPCValue` | src/RVCPU.cpp:36-39 | returns the PC of the state |
| `CpuModel.RVCPU.Reset` | src/RVCPU.cpp:44-54 | the new state is ResetState of the old one, and the configuration is unchanged |
| `CpuModel.RVCPU.Step` | src/RVCPU.cpp:59-62 | modifies nothing, so the PC and all registers are unchanged |
| `Util.FindFirstNotOf` | src/Util.cpp:16 | none exactly when s is all whitespace; otherwise the index of a non-whitespace character with only whitespace before it |
| `Util.FindLastNotOf` | src/Util.cpp:29 | none exactly when s is all whitespace; otherwise the index of a non-whitespace character with only whitespace after it |
| `Util.Find` | src/Util.cpp:57-66 | the index of the first c at or after from, or none when no c follows from |
| `Util.Substr` | src/Util.cpp:63-70 | substr takes len characters from pos, or the rest of the string when fewer remain |
| `Util.LStrip` | src/Util.cpp:14-18 | the result is a suffix of s; what was removed is all whitespace; the result is empty or starts with a non-whitespace character; it is empty exactly when s is all whitespace |
| `Util.RStrip` | src/Util.cpp:27-31 | the result is a prefix of s; what was removed is all whitespace; the result is empty or ends with a non-whitespace character; it is empty exactly when s is all whitespace |
| `Util.Strip` | src/Util.cpp:40-43 | strip is rStrip after lStrip; it is the middle slice of s, starting after the leading whitespace, with only whitespace around it; it neither starts nor ends with whitespace (all three in `Trimmed`); it is empty exactly when s is all whitespace |
| `Util.LStripNoop` | src/Util.cpp:14-18 | lStrip leaves a string without leading whitespace unchanged |
| `Util.RStripNoop` | src/Util.cpp:27-31 | rStrip leaves a string without trailing whitespace unchanged |
| `Util.StripFixed` | src/Util.cpp:40-43 | a string with no whitespace at either end is its own strip |
| `Util.StripIdempotent` | src/Util.cpp:40-43 | strip(strip(s)) == strip(s) |
| `Util.Split` | src/Util.cpp:62-70 | the pieces of s between delimiters: always at least one |
| `Util.SplitCount` | src/Util.cpp:62-70 | there is one piece more than there are delimiters, so an empty string gives one empty piece |
| `Util.SplitPiecesFree` | src/Util.cpp:62-70 | no piece contains the delimiter |
| `Util.JoinSplit` | src/Util.cpp:62-70 | joining the pieces with the delimiter gives back the string |
| `Util.SplitJoin` | src/Util.cpp:62-70 | splitting a join of delimiter-free pieces gives back the pieces |
| `Util.SplitAtFirst` | src/Util.cpp:62-67 | when the first delimiter is at k, the first piece is s[..k] and the rest are the pieces after it |
| `Util.SplitNoDelim` | src/Util.cpp:70 | a string without the delimiter is its only piece |
| `Util.SplitFromFound` | src/Util.cpp:63-66 | a delimiter found at k from initialPos closes the piece txt[initialPos..k] |
| `Util.SplitFromNone` | src/Util.cpp:70 | with no delimiter after initialPos the rest of txt is the last piece |
| `Util.TokenizeStep` | src/Util.cpp:62-67 | one round of the loop keeps the pieces found so far plus the pieces of the rest equal to the pieces of txt |
| `Util.TokenizeLast` | src/Util.cpp:70 | the final push completes the pieces of txt |
| `Util.Tokenize` | src/Util.cpp:55-73 | the tokens are exactly the pieces of txt, and the count is their number, the number of delimiters plus one |

## Left out

- File reading and writing (`fReadBin`, `fRead`, `fWrite`) are left out: they are I/O.
- The disassembly helpers (`GetStdoutFromCommand`, `getDisassembly`) are left out: they run an external tool through `popen`.
- The ELF reader (ELFIO) is not part of this model. Its output is the `Elf` value, and a file it cannot load is `None`.
- Allocation failure in the Memory constructor is left out, and so are the destructors: Dafny allocation does not fail and memory is not freed.
- `main` and the simulator shell around the core are left out.
- Process exit on a fatal error is modelled as a returned `Fault`.
- The diagnostic text of a fatal error, which prints the address truncated to 32 bits, is not modelled. `OutOfBounds` carries the full address.
- The `bus` field of RVCPU is left out. It is stored but never used.
- The `std::cout` line of `step` is left out: it is output.
- Instruction fetch, decode and execute are not modelled: the source has none.
- Only the `RV_XLEN_32` configuration is modelled. The 64-bit build would have `REG` a 64-bit word and `XLEN = 64`.
- The contents of a freshly allocated buffer and of the registers before the first reset are indeterminate in C++. The model gives them some value and its constructors promise nothing about them.
- BusModel.Request: the request is split into `WriteRequest` and `ReadRequest`, each lane into `StoreLane` or `FetchLane`. The OR into `rdata` is an addition of lanes with disjoint bits.
- MemoryModel.Memory.InitFromElf: the segment loop is the method `LoadAll`, one round of it is `LoadSegment`, and the inner copy loop is `CopyIn`. `LoadAll` keeps looping while no fault has happened, where the source ends the process from inside the loop; the resulting state is the same.
- CpuModel.RVCPU.GetRegValue: requires `regNo < XLEN`. The source does not check the index, and a larger one reads outside the array, which C++ leaves undefined.
- Strings: a `std::string` holds bytes and the delimiter of `tokenize` is a C `char`, while the model uses Dafny's `char`. Nothing is lost: byte strings are the strings whose characters are all below 256.
- Util.Tokenize: returns the vector the source fills through a reference. It does not model its clearing or its aliasing.

## Findings

| source | as written | input that shows it | evidently intended | confidence | as-written member | corrected member |
|---|---|---|---|---|---|---|
| src/RVSim.cpp:37 | the write path converts to uint8_t before it shifts, so the masked lane bits are already cleared and lanes 1 to 3 store 0 (also lines 40 and 43) | memory [0, 0], address 0, data 0xff00, lane select 2: byte 1 stays 0 and a read with the same select returns 0 | store byte lane i of data, shifting first and converting to uint8_t after, so that a read returns data in the selected lanes | high; not executed | `BusModel.WriteDropsUpperBytes` | `BusModel.RoundTripIntended` |

`BusModel.Request` models the bus as written. The evidently intended write is
`BusModel.BusWriteIntended`, built on `BusModel.IntendedBytes`, and its full
round trip is `BusModel.RoundTripIntended`.
