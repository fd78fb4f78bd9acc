/** Bus<REG>::request (src/RVSim.cpp:28-65): the four-lane byte multiplexer
    between register-width transfers and the byte-wide Memory. Bit i of the
    lane select enables byte lane i at address + i; reads are composed
    little-endian. Modelled as written: the write path casts to uint8_t
    before it shifts, so lanes 1 to 3 store 0 (see WriteDropsUpperBytes). */
module BusModel {
  import opened Results
  import opened RVDefs
  import opened MemorySpec
  import opened MemoryModel

  // ---------------------------------------------------------------------
  // Bytes and lanes

  /** The C conversion (uint8_t)x: keep the low eight bits. */
  function U8(x: int): Byte
  {
    x % 0x100
  }

  /** A register value from its four bytes, least significant first. The
      lanes occupy disjoint bits, so the OR of the source is this sum. */
  function Compose(b0: Byte, b1: Byte, b2: Byte, b3: Byte): Reg
  {
    b0 + 0x100 * (b1 + 0x100 * (b2 + 0x100 * b3))
  }

  /** Byte lane i of a register value: (x >> 8i) & 0xff. */
  function LaneOf(x: Reg, i: nat): Byte
    requires i < 4
  {
    if i == 0 then U8(x)
    else if i == 1 then U8(x / 0x100)
    else if i == 2 then U8(x / 0x100 / 0x100)
    else U8(x / 0x100 / 0x100 / 0x100)
  }

  /** The lane-i mask applied to x: x & (0xff << 8i). */
  function MaskLane(x: Reg, i: nat): Reg
    requires i < 4
  {
    if i == 0 then LaneOf(x, 0)
    else if i == 1 then LaneOf(x, 1) * 0x100
    else if i == 2 then LaneOf(x, 2) * 0x1_0000
    else LaneOf(x, 3) * 0x100_0000
  }

  /** Shifting the masked lane back down gives the lane:
      (uint8_t)((x & (0xff << 8i)) >> 8i) is byte lane i of x. */
  lemma UnmaskLane(x: Reg, i: nat)
    requires i < 4
    ensures i == 0 ==> U8(MaskLane(x, 0)) == LaneOf(x, 0)
    ensures i == 1 ==> U8(MaskLane(x, 1) / 0x100) == LaneOf(x, 1)
    ensures i == 2 ==> U8(MaskLane(x, 2) / 0x1_0000) == LaneOf(x, 2)
    ensures i == 3 ==> U8(MaskLane(x, 3) / 0x100_0000) == LaneOf(x, 3)
  {
  }

  lemma DivMod256(a: int, q: int)
    requires 0 <= a < 0x100
    ensures (a + 0x100 * q) / 0x100 == q && (a + 0x100 * q) % 0x100 == a
  {
  }

  /** Composing four bytes puts byte i in lane i. */
  lemma ComposeLanes(b0: Byte, b1: Byte, b2: Byte, b3: Byte)
    ensures LaneOf(Compose(b0, b1, b2, b3), 0) == b0
    ensures LaneOf(Compose(b0, b1, b2, b3), 1) == b1
    ensures LaneOf(Compose(b0, b1, b2, b3), 2) == b2
    ensures LaneOf(Compose(b0, b1, b2, b3), 3) == b3
  {
    DivMod256(b0, b1 + 0x100 * (b2 + 0x100 * b3));
    DivMod256(b1, b2 + 0x100 * b3);
    DivMod256(b2, b3);
    DivMod256(b3, 0);
  }

  /** A register value is the composition of its lanes. */
  lemma ComposeOfLanes(x: Reg)
    ensures Compose(LaneOf(x, 0), LaneOf(x, 1), LaneOf(x, 2), LaneOf(x, 3)) == x
  {
    assert x / 0x100 / 0x100 / 0x100 < 0x100;
  }

  /** Lane i takes part when bit i of sel is set, sel & (1 << i) != 0 in
      two's complement. Only sel & 0xf is looked at; the Euclidean sel % 16
      is exactly those four bits, also for a negative sel. */
  predicate LaneSelected(sel: int32, i: nat)
    requires i < 4
  {
    var low := sel % 16;
    if i == 0 then low % 2 == 1
    else if i == 1 then low / 2 % 2 == 1
    else if i == 2 then low / 4 % 2 == 1
    else low / 8 % 2 == 1
  }

  /** The address of lane i: address + i in REG arithmetic (wrapping modulo
      2^32), widened to the 64-bit address Memory takes. */
  function LaneAddress(address: Reg, i: nat): uint64
    requires i < 4
  {
    (address + i) % 0x1_0000_0000
  }

  /** The four lanes of one request address four different bytes, also when
      address + i wraps around. */
  lemma LaneAddressesDistinct(address: Reg, i: nat, j: nat)
    requires i < 4 && j < 4 && i != j
    ensures LaneAddress(address, i) != LaneAddress(address, j)
  {
  }

  /** x & mask, where the mask covers the bits of the lanes sel selects. */
  function KeepLanes(x: Reg, sel: int32): Reg
  {
    Compose(if LaneSelected(sel, 0) then LaneOf(x, 0) else 0, if LaneSelected(sel, 1) then LaneOf(x, 1) else 0,
            if LaneSelected(sel, 2) then LaneOf(x, 2) else 0, if LaneSelected(sel, 3) then LaneOf(x, 3) else 0)
  }

  // ---------------------------------------------------------------------
  // Write requests

  /** The bytes the write path stores in lanes 0..3, as written: lane i
      stores (uint8_t)(data & mask_i) >> 8i, converted to the uint8_t
      parameter of store. The cast comes before the shift, so it has
      already cleared the masked bits of lanes 1 to 3. */
  function StoredBytes(data: Reg): (bytes: seq<Byte>)
    ensures bytes == [LaneOf(data, 0), 0, 0, 0]
  {
    [U8(MaskLane(data, 0)),
     U8(U8(MaskLane(data, 1)) / 0x100),
     U8(U8(MaskLane(data, 2)) / 0x1_0000),
     U8(U8(MaskLane(data, 3)) / 0x100_0000)]
  }

  /** The bytes the write path was evidently meant to store:
      (uint8_t)((data & mask_i) >> 8i), that is, byte lane i of data. */
  function IntendedBytes(data: Reg): (bytes: seq<Byte>)
    ensures bytes == [LaneOf(data, 0), LaneOf(data, 1), LaneOf(data, 2), LaneOf(data, 3)]
    ensures Compose(bytes[0], bytes[1], bytes[2], bytes[3]) == data
  {
    ComposeOfLanes(data);
    UnmaskLane(data, 0);
    UnmaskLane(data, 1);
    UnmaskLane(data, 2);
    UnmaskLane(data, 3);
    [U8(MaskLane(data, 0)),
     U8(MaskLane(data, 1) / 0x100),
     U8(MaskLane(data, 2) / 0x1_0000),
     U8(MaskLane(data, 3) / 0x100_0000)]
  }

  /** The stores of lanes 0 .. n-1, low to high, of bytes[i] in lane i,
      stopping at the first fatal error. */
  function WriteLanes(m: seq<Byte>, address: Reg, sel: int32, bytes: seq<Byte>, n: nat): (e: Effect)
    requires |bytes| == 4 && n <= 4
    ensures |e.contents| == |m|
  {
    if n == 0 then Effect(m, None)
    else
      var e := WriteLanes(m, address, sel, bytes, n - 1);
      if LaneSelected(sel, n - 1) then StoreAfter(e, LaneAddress(address, n - 1), bytes[n - 1]) else e
  }

  /** A write request on memory contents m, as written. It keeps the size
      of memory and succeeds exactly when every selected lane is in bounds. */
  function BusWrite(m: seq<Byte>, address: Reg, data: Reg, sel: int32): (e: Effect)
    ensures |e.contents| == |m|
    ensures e.fault.None? <==> forall i :: 0 <= i < 4 && LaneSelected(sel, i) ==> LaneAddress(address, i) < |m|
  {
    WriteLanesSucceeds(m, address, sel, StoredBytes(data), 4);
    WriteLanes(m, address, sel, StoredBytes(data), 4)
  }

  /** A write request as evidently intended. */
  function BusWriteIntended(m: seq<Byte>, address: Reg, data: Reg, sel: int32): Effect
  {
    WriteLanes(m, address, sel, IntendedBytes(data), 4)
  }

  /** Once a lane faults, the higher lanes change nothing. */
  lemma {:induction false} WriteLanesStopAtFault(m: seq<Byte>, address: Reg, sel: int32, bytes: seq<Byte>, n: nat, n': nat)
    requires |bytes| == 4 && n <= n' <= 4
    requires WriteLanes(m, address, sel, bytes, n).fault.Some?
    ensures WriteLanes(m, address, sel, bytes, n') == WriteLanes(m, address, sel, bytes, n)
  {
    if n < n' {
      WriteLanesStopAtFault(m, address, sel, bytes, n, n' - 1);
    }
  }

  /** A write touches only the addresses of selected lanes. */
  lemma {:induction false} WriteLanesFrame(m: seq<Byte>, address: Reg, sel: int32, bytes: seq<Byte>, n: nat, a: nat)
    requires |bytes| == 4 && n <= 4 && a < |m|
    requires forall i :: 0 <= i < n && LaneSelected(sel, i) ==> LaneAddress(address, i) != a
    ensures WriteLanes(m, address, sel, bytes, n).contents[a] == m[a]
  {
    if n > 0 {
      WriteLanesFrame(m, address, sel, bytes, n - 1, a);
    }
  }

  /** A write succeeds exactly when every selected lane is in bounds. */
  lemma {:induction false} WriteLanesSucceeds(m: seq<Byte>, address: Reg, sel: int32, bytes: seq<Byte>, n: nat)
    requires |bytes| == 4 && n <= 4
    ensures WriteLanes(m, address, sel, bytes, n).fault.None? <==>
              forall i :: 0 <= i < n && LaneSelected(sel, i) ==> LaneAddress(address, i) < |m|
  {
    if n > 0 {
      WriteLanesSucceeds(m, address, sel, bytes, n - 1);
    }
  }

  /** After a successful write, each selected lane's address holds the
      lane's byte. */
  lemma {:induction false} WriteLanesStores(m: seq<Byte>, address: Reg, sel: int32, bytes: seq<Byte>, n: nat, i: nat)
    requires |bytes| == 4 && n <= 4 && i < n && LaneSelected(sel, i)
    requires WriteLanes(m, address, sel, bytes, n).fault.None?
    ensures LaneAddress(address, i) < |m|
    ensures WriteLanes(m, address, sel, bytes, n).contents[LaneAddress(address, i)] == bytes[i]
  {
    if i < n - 1 {
      WriteLanesStores(m, address, sel, bytes, n - 1, i);
      if LaneSelected(sel, n - 1) {
        LaneAddressesDistinct(address, i, n - 1);
      }
    }
  }

  /** Lanes are processed from low to high: when lane f is the first
      selected lane out of bounds, the lower lanes are stored and the
      request fails with lane f's address. */
  lemma WriteLanesFaultLane(m: seq<Byte>, address: Reg, sel: int32, bytes: seq<Byte>, f: nat)
    requires |bytes| == 4 && f < 4 && LaneSelected(sel, f) && LaneAddress(address, f) >= |m|
    requires forall i :: 0 <= i < f && LaneSelected(sel, i) ==> LaneAddress(address, i) < |m|
    ensures WriteLanes(m, address, sel, bytes, 4) ==
              Effect(WriteLanes(m, address, sel, bytes, f).contents, Some(OutOfBounds(LaneAddress(address, f))))
  {
    WriteLanesSucceeds(m, address, sel, bytes, f);
    WriteLanesStopAtFault(m, address, sel, bytes, f + 1, 4);
  }

  /** Bits of sel above bit 3 do not change a write. */
  lemma {:induction false} WriteIgnoresHighSelBits(m: seq<Byte>, address: Reg, sel: int32, bytes: seq<Byte>, n: nat)
    requires |bytes| == 4 && n <= 4
    ensures WriteLanes(m, address, sel, bytes, n) == WriteLanes(m, address, sel % 16, bytes, n)
  {
    if n > 0 {
      WriteIgnoresHighSelBits(m, address, sel, bytes, n - 1);
      assert sel % 16 % 16 == sel % 16;
    }
  }

  // ---------------------------------------------------------------------
  // Read requests

  /** The fetch of lane i: 0 for a lane not selected. */
  function LaneRead(m: seq<Byte>, address: Reg, sel: int32, i: nat): Result<Byte, Fault>
    requires i < 4
  {
    if !LaneSelected(sel, i) then Ok(0)
    else if LaneAddress(address, i) < |m| then Ok(m[LaneAddress(address, i)])
    else Err(OutOfBounds(LaneAddress(address, i)))
  }

  /** A read request on memory contents m: the fatal error of the lowest
      faulting lane, or the little-endian composition of the lanes. */
  function BusRead(m: seq<Byte>, address: Reg, sel: int32): (r: Result<Reg, Fault>)
    ensures r.Ok? <==> forall i :: 0 <= i < 4 && LaneSelected(sel, i) ==> LaneAddress(address, i) < |m|
    ensures r.Err? ==> exists i :: 0 <= i < 4 && LaneSelected(sel, i) && r.error == OutOfBounds(LaneAddress(address, i))
  {
    var r0, r1, r2, r3 := LaneRead(m, address, sel, 0), LaneRead(m, address, sel, 1),
                          LaneRead(m, address, sel, 2), LaneRead(m, address, sel, 3);
    if r0.Err? then Err(r0.error)
    else if r1.Err? then Err(r1.error)
    else if r2.Err? then Err(r2.error)
    else if r3.Err? then Err(r3.error)
    else Ok(Compose(r0.value, r1.value, r2.value, r3.value))
  }

  /** A read succeeds exactly when every selected lane is in bounds, and
      then byte lane i of the result is the byte at lane i's address if the
      lane is selected and 0 if not. */
  lemma BusReadLanes(m: seq<Byte>, address: Reg, sel: int32)
    ensures BusRead(m, address, sel).Ok? <==>
              forall i :: 0 <= i < 4 && LaneSelected(sel, i) ==> LaneAddress(address, i) < |m|
    ensures BusRead(m, address, sel).Ok? ==>
              forall i :: 0 <= i < 4 ==>
                LaneOf(BusRead(m, address, sel).value, i) ==
                  if LaneSelected(sel, i) then m[LaneAddress(address, i)] else 0
  {
    var r := BusRead(m, address, sel);
    if r.Ok? {
      ComposeLanes(LaneRead(m, address, sel, 0).value, LaneRead(m, address, sel, 1).value,
                   LaneRead(m, address, sel, 2).value, LaneRead(m, address, sel, 3).value);
    }
  }

  /** A read with no lane selected returns 0. */
  lemma BusReadNoLanes(m: seq<Byte>, address: Reg, sel: int32)
    requires sel % 16 == 0
    ensures BusRead(m, address, sel) == Ok(0)
  {
  }

  /** Lanes are read from low to high: the first selected lane out of
      bounds gives the fatal error. */
  lemma BusReadFaultLane(m: seq<Byte>, address: Reg, sel: int32, f: nat)
    requires f < 4 && LaneSelected(sel, f) && LaneAddress(address, f) >= |m|
    requires forall i :: 0 <= i < f && LaneSelected(sel, i) ==> LaneAddress(address, i) < |m|
    ensures BusRead(m, address, sel) == Err(OutOfBounds(LaneAddress(address, f)))
  {
  }

  /** Bits of sel above bit 3 do not change a read. */
  lemma ReadIgnoresHighSelBits(m: seq<Byte>, address: Reg, sel: int32)
    ensures BusRead(m, address, sel) == BusRead(m, address, sel % 16)
  {
    assert sel % 16 % 16 == sel % 16;
  }

  // ---------------------------------------------------------------------
  // Write then read

  /** Reading back with the same address and lane select what a successful
      write stored returns the written bytes in the selected lanes and 0 in
      the others. */
  lemma WriteThenRead(m: seq<Byte>, address: Reg, sel: int32, bytes: seq<Byte>)
    requires |bytes| == 4
    requires WriteLanes(m, address, sel, bytes, 4).fault.None?
    ensures BusRead(WriteLanes(m, address, sel, bytes, 4).contents, address, sel) ==
              Ok(Compose(if LaneSelected(sel, 0) then bytes[0] else 0, if LaneSelected(sel, 1) then bytes[1] else 0,
                         if LaneSelected(sel, 2) then bytes[2] else 0, if LaneSelected(sel, 3) then bytes[3] else 0))
  {
    var after := WriteLanes(m, address, sel, bytes, 4).contents;
    forall i | 0 <= i < 4 && LaneSelected(sel, i)
      ensures LaneAddress(address, i) < |after| && after[LaneAddress(address, i)] == bytes[i]
    {
      WriteLanesStores(m, address, sel, bytes, 4, i);
    }
  }

  /** As written, the round trip keeps only lane 0: a read after a
      successful write returns the low byte of data if lane 0 is selected,
      and 0 in every other lane. */
  lemma RoundTripAsWritten(m: seq<Byte>, address: Reg, data: Reg, sel: int32)
    requires BusWrite(m, address, data, sel).fault.None?
    ensures BusRead(BusWrite(m, address, data, sel).contents, address, sel) ==
              Ok(if LaneSelected(sel, 0) then LaneOf(data, 0) else 0)
  {
    WriteThenRead(m, address, sel, StoredBytes(data));
  }

  /** With the intended bytes the round trip is complete: a read after a
      successful write returns data in the selected lanes and 0 elsewhere. */
  lemma RoundTripIntended(m: seq<Byte>, address: Reg, data: Reg, sel: int32)
    requires BusWriteIntended(m, address, data, sel).fault.None?
    ensures BusRead(BusWriteIntended(m, address, data, sel).contents, address, sel) == Ok(KeepLanes(data, sel))
  {
    var bytes := IntendedBytes(data);
    WriteThenRead(m, address, sel, bytes);
  }

  /** The write path loses bytes: writing 0xff00 with lane 1 selected at
      address 0 stores 0 at address 1, and reading it back gives 0. */
  lemma WriteDropsUpperBytes()
    ensures BusWrite([0, 0], 0, 0xff00, 0x2) == Effect([0, 0], None) && LaneOf(0xff00, 1) == 0xff
    ensures BusRead(BusWrite([0, 0], 0, 0xff00, 0x2).contents, 0, 0x2) == Ok(0)
    ensures BusRead(BusWriteIntended([0, 0], 0, 0xff00, 0x2).contents, 0, 0x2) == Ok(0xff00)
  {
    var m: seq<Byte> := [0, 0];
    assert LaneOf(0xff00, 0) == 0 && LaneOf(0xff00, 1) == 0xff;
    assert !LaneSelected(0x2, 0) && LaneSelected(0x2, 1) && !LaneSelected(0x2, 2) && !LaneSelected(0x2, 3);
    var stored := StoredBytes(0xff00);
    assert stored == [0, 0, 0, 0];
    assert LaneAddress(0, 1) == 1;
    assert WriteLanes(m, 0, 0x2, stored, 1) == Effect(m, None);
    assert WriteLanes(m, 0, 0x2, stored, 2) == Effect(m, None);
    assert WriteLanes(m, 0, 0x2, stored, 4) == Effect(m, None);
    assert LaneRead(m, 0, 0x2, 1) == Ok(0);
    RoundTripIntended(m, 0, 0xff00, 0x2);
  }

  // ---------------------------------------------------------------------
  // The request itself

  /** Bus<REG>::request on Memory m. A write returns 0 and a read leaves
      memory unchanged; a fatal error of a lane is returned after the lower
      selected lanes took effect. */
  method Request(m: Memory, address: Reg, data: Reg, sel: int32, write: bool) returns (r: Result<Reg, Fault>)
    requires m.Valid()
    modifies m.mem
    ensures write ==>
              var e := BusWrite(old(m.mem[..]), address, data, sel);
              m.mem[..] == e.contents && r == if e.fault.None? then Ok(0) else Err(e.fault.value)
    ensures !write ==> m.mem[..] == old(m.mem[..]) && r == BusRead(old(m.mem[..]), address, sel)
  {
    if write {
      r := WriteRequest(m, address, data, sel);
    } else {
      r := ReadRequest(m, address, sel);
    }
  }

  /** One lane of the write branch: store b at the lane's address when the
      lane is selected. */
  method StoreLane(m: Memory, address: Reg, sel: int32, i: nat, b: Byte) returns (fault: Option<Fault>)
    requires m.Valid() && i < 4
    modifies m.mem
    ensures m.Valid()
    ensures Effect(m.mem[..], fault) ==
              if LaneSelected(sel, i) then StoreSpec(old(m.mem[..]), LaneAddress(address, i), b)
              else Effect(old(m.mem[..]), None)
  {
    fault := None;
    if LaneSelected(sel, i) {
      fault := m.Store((address + i) % 0x1_0000_0000, b);
    }
  }

  /** The write branch of request. */
  method WriteRequest(m: Memory, address: Reg, data: Reg, sel: int32) returns (r: Result<Reg, Fault>)
    requires m.Valid()
    modifies m.mem
    ensures var e := BusWrite(old(m.mem[..]), address, data, sel);
            m.mem[..] == e.contents && r == if e.fault.None? then Ok(0) else Err(e.fault.value)
  {
    ghost var m0 := m.mem[..];
    ghost var bytes := StoredBytes(data);
    var b0, b1, b2, b3 := U8(MaskLane(data, 0)), U8(U8(MaskLane(data, 1)) / 0x100),
                          U8(U8(MaskLane(data, 2)) / 0x1_0000), U8(U8(MaskLane(data, 3)) / 0x100_0000);
    assert bytes == [b0, b1, b2, b3];
    var fault := StoreLane(m, address, sel, 0, b0);
    assert Effect(m.mem[..], fault) == WriteLanes(m0, address, sel, bytes, 1);
    if fault.Some? {
      WriteLanesStopAtFault(m0, address, sel, bytes, 1, 4);
      return Err(fault.value);
    }
    fault := StoreLane(m, address, sel, 1, b1);
    assert Effect(m.mem[..], fault) == WriteLanes(m0, address, sel, bytes, 2);
    if fault.Some? {
      WriteLanesStopAtFault(m0, address, sel, bytes, 2, 4);
      return Err(fault.value);
    }
    fault := StoreLane(m, address, sel, 2, b2);
    assert Effect(m.mem[..], fault) == WriteLanes(m0, address, sel, bytes, 3);
    if fault.Some? {
      WriteLanesStopAtFault(m0, address, sel, bytes, 3, 4);
      return Err(fault.value);
    }
    fault := StoreLane(m, address, sel, 3, b3);
    assert Effect(m.mem[..], fault) == WriteLanes(m0, address, sel, bytes, 4);
    if fault.Some? {
      return Err(fault.value);
    }
    return Ok(0);
  }

  /** One lane of the read branch: fetch the lane's byte when the lane is
      selected, and 0 otherwise. */
  method FetchLane(m: Memory, address: Reg, sel: int32, i: nat) returns (r: Result<Byte, Fault>)
    requires m.Valid() && i < 4
    ensures r == LaneRead(m.mem[..], address, sel, i)
  {
    r := Ok(0);
    if LaneSelected(sel, i) {
      r := m.Fetch((address + i) % 0x1_0000_0000);
    }
  }

  /** The read branch of request. Each rdata |= fetch(..) << 8i is written
      as an addition: the fetched byte lands above every bit rdata holds so
      far, which the assertions between the lanes record. */
  method ReadRequest(m: Memory, address: Reg, sel: int32) returns (r: Result<Reg, Fault>)
    requires m.Valid()
    ensures r == BusRead(m.mem[..], address, sel)
  {
    var b0 := FetchLane(m, address, sel, 0);
    if b0.Err? {
      return Err(b0.error);
    }
    var rdata: Reg := b0.value;
    var b1 := FetchLane(m, address, sel, 1);
    if b1.Err? {
      return Err(b1.error);
    }
    rdata := rdata + (b1.value as int) * 0x100;
    var b2 := FetchLane(m, address, sel, 2);
    if b2.Err? {
      return Err(b2.error);
    }
    rdata := rdata + (b2.value as int) * 0x1_0000;
    assert rdata == Compose(b0.value, b1.value, b2.value, 0);
    var b3 := FetchLane(m, address, sel, 3);
    if b3.Err? {
      return Err(b3.error);
    }
    rdata := rdata + (b3.value as int) * 0x100_0000;
    return Ok(rdata);
  }
}
