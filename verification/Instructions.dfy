/** Decoded R5900 instructions, reduced to the fields that the analyses read. */
module Instructions {

  const WORD: nat := 0x1_0000_0000

  const OPCODE_REGIMM: nat := 0x01
  const OPCODE_J: nat := 0x02
  const OPCODE_JAL: nat := 0x03
  const OPCODE_ADDIU: nat := 0x09
  const OPCODE_ORI: nat := 0x0D
  const OPCODE_LUI: nat := 0x0F
  const OPCODE_BEQL: nat := 0x14
  const OPCODE_BNEL: nat := 0x15
  const OPCODE_BLEZL: nat := 0x16
  const OPCODE_BGTZL: nat := 0x17

  datatype Instruction = Instruction(
    address: nat,
    opcode: nat,
    rs: nat,
    rt: nat,
    rd: nat,
    immediate: nat,
    target: nat,
    isBranch: bool,
    isJump: bool,
    isCall: bool,
    isReturn: bool,
    hasDelaySlot: bool)

  /** The ranges the decoder guarantees. */
  predicate WellFormed(i: Instruction) {
    && i.address < WORD && i.opcode < 64
    && i.rs < 32 && i.rt < 32 && i.rd < 32
    && i.immediate < 0x1_0000 && i.target < 0x400_0000
  }

  predicate WellFormedListing(l: seq<Instruction>) {
    forall i :: 0 <= i < |l| ==> WellFormed(l[i])
  }

  /** The number n in 16 bits, two's complement. */
  predicate Encodes16(immediate: nat, n: int) {
    -0x8000 <= n < 0x8000 && immediate == n % 0x1_0000
  }

  /** The 16-bit immediate read as a signed number. */
  function SignedImmediate(i: Instruction): int {
    var low := i.immediate % 0x1_0000;
    if low < 0x8000 then low else low - 0x1_0000
  }
}
