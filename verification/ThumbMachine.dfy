/** The Thumb instructions that the branch linkers write: decoding and effect, with IT blocks (sections
    A6.2, A6.3 and A8.8 of the ARMv7-A/R Architecture Reference Manual). */
module ThumbMachine {
  import opened BaseTypes

  type Half = x: int | 0 <= x < 0x1_0000

  /** The scratch register of the long jump. */
  const IP: nat := 12

  datatype Instruction =
    | Nop
    | If(cond: nat, mask: nat)
    | Branch(offset: int)
    | BranchIf(cond: nat, offset: int)
    | MovW(rd: nat, imm16: nat)
    | MovT(rd: nat, imm16: nat)
    | Bx(rm: nat)
    | Other

  /** Instructions of two halfwords start with one of these. */
  predicate IsWide(h: Half) { h / 2048 >= 0x1d }

  function DecodeShort(h: Half): Instruction {
    if h == 0xbf00 then Nop
    else if h / 256 == 0xbf && h % 16 != 0 then If(h / 16 % 16, h % 16)
    else if h / 4096 == 0xd && h / 256 % 16 < 14 then BranchIf(h / 256 % 16, 2 * Signed(h % 256, 128))
    else if h / 2048 == 0x1c then Branch(2 * Signed(h % 2048, 1024))
    else if h / 128 == 0x8e && h % 8 == 0 then Bx(h / 8 % 16)
    else Other
  }

  /** imm4:i:imm3:imm8. */
  function Imm16(h1: Half, h2: Half): nat {
    h1 % 16 * 4096 + h1 / 1024 % 2 * 2048 + h2 / 4096 % 8 * 256 + h2 % 256
  }

  /** The first halfword without its i bit and low four bits. */
  function MoveOp(h: Half): int { h / 16 - h / 1024 % 2 * 64 }

  /** Encoding T3: S:J2:J1:imm6:imm11:0, sign extended. */
  function OffsetT3(h1: Half, h2: Half): int {
    Signed(h1 / 1024 % 2 * 0x10_0000 + h2 / 2048 % 2 * 0x8_0000 + h2 / 8192 % 2 * 0x4_0000 + h1 % 64 * 0x1000
        + h2 % 2048 * 2,
           0x10_0000)
  }

  /** I1 and I2 are the J bits, inverted unless the sign is set. */
  function SignedBit(j: nat, s: nat): nat { if j == s then 1 else 0 }

  /** Encoding T4: S:I1:I2:imm10:imm11:0, sign extended. */
  function OffsetT4(h1: Half, h2: Half): int {
    var s := h1 / 1024 % 2;
    Signed(s * 0x100_0000 + SignedBit(h2 / 8192 % 2, s) * 0x80_0000 + SignedBit(h2 / 2048 % 2, s) * 0x40_0000
           + h1 % 1024 * 0x1000 + h2 % 2048 * 2, 0x100_0000)
  }

  function DecodeWide(h1: Half, h2: Half): Instruction {
    if h1 == 0xf3af && h2 == 0x8000 then Nop
    else if h1 / 2048 == 0x1e && h2 / 4096 % 8 / 4 == 0 && h2 / 32768 == 1
        && h2 / 4096 % 2 == 1 then Branch(OffsetT4(h1, h2))
    else if h1 / 2048 == 0x1e && h2 / 4096 % 8 / 4 == 0 && h2 / 32768 == 1 && h1 / 64 % 16 < 14 then
      BranchIf(h1 / 64 % 16, OffsetT3(h1, h2))
    else if MoveOp(h1) == 0xf24 && h2 / 32768 == 0 then MovW(h2 / 256 % 16, Imm16(h1, h2))
    else if MoveOp(h1) == 0xf2c && h2 / 32768 == 0 then MovT(h2 / 256 % 16, Imm16(h1, h2))
    else Other
  }

  // --- IT blocks

  /** Condition with its low bit replaced. */
  function WithLow(cond: nat, bit: nat): nat { cond - cond % 2 + bit }

  /** The conditions of one to four instructions: the lowest set bit of the mask ends the list, the bits
      above it are the low bits of the conditions after the first. */
  function Conditions(cond: nat, mask: nat): seq<nat> {
    if mask % 8 == 0 then [cond]
    else if mask % 4 == 0 then [cond, WithLow(cond, mask / 8 % 2)]
    else if mask % 2 == 0 then [cond, WithLow(cond, mask / 8 % 2), WithLow(cond, mask / 4 % 2)]
    else [cond, WithLow(cond, mask / 8 % 2), WithLow(cond, mask / 4 % 2), WithLow(cond, mask / 2 % 2)]
  }

  // --- effect

  /** Where control goes after some halfwords: to Thumb code, to ARM code, past them, or unknown. */
  datatype Outcome = Jump(address: int) | ToArm(address: int) | Past | Unknown

  type Flags = nat -> bool

  /** Run these halfwords, the first at this address, with this scratch register, inside an IT block
      that still has these conditions to apply. The PC reads as the instruction's address plus 4. */
  function Run(hs: seq<Half>, address: int, ip: nat, it: seq<nat>, holds: Flags): Outcome
    decreases |hs|, 0
  {
    if hs == [] then Past
    else if IsWide(hs[0]) then
      if |hs| == 1 then Unknown else Perform(DecodeWide(hs[0], hs[1]), hs[2..], address, 4, ip, it, holds)
    else Perform(DecodeShort(hs[0]), hs[1..], address, 2, ip, it, holds)
  }

  function Perform(i: Instruction, rest: seq<Half>, address: int, size: nat, ip: nat, it: seq<nat>,
                   holds: Flags): Outcome
    decreases |rest|, 1
  {
    var passes := it == [] || holds(it[0]);
    var later := if it == [] then [] else it[1..];
    match i
    case Nop => Run(rest, address + size, ip, later, holds)
    case If(cond, mask) => if it == [] then Run(rest, address + size, ip, Conditions(cond, mask), holds) else Unknown
    case Branch(offset) => if passes then Jump(address + 4 + offset) else Run(rest, address + size, ip, later, holds)
    case BranchIf(cond, offset) =>
      if it != [] then Unknown
      else if holds(cond) then Jump(address + 4 + offset) else Run(rest, address + size, ip, later, holds)
    case MovW(rd, imm16) => Run(rest, address + size, if passes && rd == IP then imm16 else ip, later, holds)
    case MovT(rd, imm16) =>
      Run(rest, address + size, if passes && rd == IP then imm16 * 0x1_0000 + ip % 0x1_0000 else ip, later, holds)
    case Bx(rm) =>
      if !passes then Run(rest, address + size, ip, later, holds)
      else if rm != IP then Unknown
      else if ip % 2 == 1 then Jump(ip - 1) else ToArm(ip)
    case Other => Unknown
  }
}
