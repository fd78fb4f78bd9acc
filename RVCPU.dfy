/** The RISC-V CPU object: its configuration, its architectural state (the
    program counter and XLEN integer registers) and the operations on it
    that exist, which are reset, the two accessors and a step that does no
    work yet. */
module CpuModel {
  import opened RVDefs

  /** The number of integer registers an ISA has: half of XLEN for the
      embedded base (RV32E), XLEN otherwise. */
  function RegisterCount(isa: ISAdef): (n: nat)
    ensures 0 < n <= XLEN
    ensures isa.ISA_EMBEDDED <==> n < XLEN
    ensures isa.ISA_EMBEDDED ==> 2 * n == XLEN
  {
    if isa.ISA_EMBEDDED then XLEN / 2 else XLEN
  }

  /** The architectural state: the program counter and the register file. */
  datatype ArchState = ArchState(pc: Reg, x: seq<Reg>)

  /** The registers x with x[0 .. n-1] cleared, one register at a time from
      the lowest, as the reset loop does. */
  function ClearRegs(x: seq<Reg>, n: nat): (r: seq<Reg>)
    requires n <= |x|
    ensures |r| == |x|
  {
    if n == 0 then x else ClearRegs(x, n - 1)[n - 1 := 0]
  }

  /** Clearing n registers zeroes exactly the registers below n. */
  lemma {:induction false} ClearRegsContents(x: seq<Reg>, n: nat)
    requires n <= |x|
    ensures forall j :: 0 <= j < |x| ==> ClearRegs(x, n)[j] == if j < n then 0 else x[j]
  {
    if n > 0 {
      ClearRegsContents(x, n - 1);
    }
  }

  /** The state after reset, from the state s before it: the PC is the
      reset address, the first nRegs registers are 0 and the registers above
      them keep their values. */
  function ResetState(s: ArchState, nRegs: nat, resetAddr: Reg): (r: ArchState)
    requires nRegs <= |s.x|
    ensures r.pc == resetAddr && |r.x| == |s.x|
    ensures forall j :: 0 <= j < nRegs ==> r.x[j] == 0
    ensures forall j :: nRegs <= j < |s.x| ==> r.x[j] == s.x[j]
  {
    ClearRegsContents(s.x, nRegs);
    ArchState(resetAddr, ClearRegs(s.x, nRegs))
  }

  /** Resetting twice is resetting once. */
  lemma ResetIdempotent(s: ArchState, nRegs: nat, resetAddr: Reg)
    requires nRegs <= |s.x|
    ensures ResetState(ResetState(s, nRegs, resetAddr), nRegs, resetAddr) == ResetState(s, nRegs, resetAddr)
  {
    var once := ResetState(s, nRegs, resetAddr);
    ClearRegsContents(s.x, nRegs);
    ClearRegsContents(once.x, nRegs);
    assert ClearRegs(once.x, nRegs) == once.x;
  }

  /** Reset forgets the PC and the registers it clears: two states that
      agree on the registers from nRegs up are the same after reset. */
  lemma ResetForgetsClearedState(s: ArchState, t: ArchState, nRegs: nat, resetAddr: Reg)
    requires nRegs <= |s.x| && |s.x| == |t.x|
    requires s.x[nRegs..] == t.x[nRegs..]
    ensures ResetState(s, nRegs, resetAddr) == ResetState(t, nRegs, resetAddr)
  {
    ClearRegsContents(s.x, nRegs);
    ClearRegsContents(t.x, nRegs);
    forall j | nRegs <= j < |s.x|
      ensures s.x[j] == t.x[j]
    {
      assert s.x[j] == s.x[nRegs..][j - nRegs];
    }
    assert ClearRegs(s.x, nRegs) == ClearRegs(t.x, nRegs);
  }

  /** The CPU. The bus it was built with is not part of this model: no
      operation here uses it. */
  class RVCPU {
    var cpuIsa: ISAdef
    var nRegs: nat
    var pcResetAddr: Reg
    var pc: Reg
    var x: array<Reg>

    ghost predicate Valid()
      reads this
    {
      x.Length == XLEN && nRegs == RegisterCount(cpuIsa)
    }

    /** The architectural state as a value. */
    function State(): ArchState
      reads this, x
    {
      ArchState(pc, x[..])
    }

    /** Records the reset address and the ISA and sizes the register file
        from it. The architectural state is not reset: nothing is promised
        about the PC or the registers until reset is called. */
    constructor (pcInitAddress: Reg, isa: ISAdef)
      ensures Valid() && fresh(x)
      ensures pcResetAddr == pcInitAddress && cpuIsa == isa && nRegs == RegisterCount(isa)
    {
      pcResetAddr := pcInitAddress;
      cpuIsa := isa;
      nRegs := if isa.ISA_EMBEDDED then XLEN / 2 else XLEN;
      x := new Reg[XLEN];
    }

    /** The value of register regNo, which must name one of the XLEN
        entries of the register file. */
    method GetRegValue(regNo: nat) returns (v: Reg)
      requires Valid() && regNo < XLEN
      ensures v == State().x[regNo]
    {
      return x[regNo];
    }

    /** The value of the program counter. */
    method GetPCValue() returns (v: Reg)
      requires Valid()
      ensures v == State().pc
    {
      return pc;
    }

    /** Sets the PC to the reset address and clears the first nRegs
        registers; the configuration is unchanged. */
    method Reset()
      requires Valid()
      modifies this`pc, x
      ensures Valid()
      ensures State() == ResetState(old(State()), nRegs, pcResetAddr)
    {
      pc := pcResetAddr;
      var i := 0;
      while i < nRegs
        invariant 0 <= i <= nRegs && pc == pcResetAddr
        invariant x[..] == ClearRegs(old(x[..]), i)
      {
        x[i] := 0;
        i := i + 1;
      }
    }

    /** One cycle. No instruction is fetched or executed: the method
        modifies nothing, so the state is left as it was. */
    method Step()
      requires Valid()
      ensures State() == old(State())
    {
    }
  }
}
