/**
 * validate_adrp, validate_add and parse_adrp: recognising the two instruction
 * forms and computing the page address an ADRP leaves in its register.
 */
module Decoder {
  import opened Arm64

  // Widths and the page size are written as literals (2^32 = 0x1_0000_0000,
  // 2^64 = 0x1_0000_0000_0000_0000, a 4 KiB page = 0x1000) so that the
  // divisions and remainders by them stay linear arithmetic for the verifier.

  /**
   * validate_adrp: op1 == 1, op2 == 16 and Rd <= 30. Equivalently the top
   * byte of the word is 1xx10000 (ADRP for any immlo) and Rd is not 31.
   */
  predicate ValidateAdrp(ins: Word)
  {
    var f := DecodeAdrp(ins);
    f.op1 == 1 && f.op2 == 16 && f.rd <= 30
  }

  lemma ValidateAdrpAcceptance(ins: Word)
    ensures ValidateAdrp(ins) <==> ins / 0x100_0000 in {0x90, 0xB0, 0xD0, 0xF0} && ins % 0x20 != 0x1F
  {
  }

  /**
   * validate_add: op1 == 0, S == 0 and op2 == 34. Equivalently the top nine
   * bits are x00100010: sf (bit 31) may be either, and sh (bit 22) lies
   * below them and is not looked at.
   */
  predicate ValidateAdd(ins: Word)
  {
    var f := DecodeAdd(ins);
    f.op1 == 0 && f.s == 0 && f.op2 == 34
  }

  lemma ValidateAddAcceptance(ins: Word)
    ensures ValidateAdd(ins) <==> ins / 0x80_0000 in {0x22, 0x122}
  {
  }

  /** Whatever sh and sf hold, an encoded ADD is accepted or refused alike. */
  lemma ValidateAddIgnoresShAndSf(f: Arm64Add, sh: nat, sf: nat)
    requires AddInRange(f) && sh < 2 && sf < 2
    ensures ValidateAdd(EncodeAdd(f.(sh := sh, sf := sf))) == ValidateAdd(EncodeAdd(f))
  {
  }

  /** No word is accepted both as an ADRP and as an ADD: bit 24 tells them apart. */
  lemma AdrpAndAddDisjoint(ins: Word)
    ensures !(ValidateAdrp(ins) && ValidateAdd(ins))
  {
  }

  /**
   * The values parse_adrp stores beside the fields: imm (UINT32), pc (UINT64)
   * and RdAfterExecution (UINT64), as non-negative integers.
   */
  datatype AdrpResolved = AdrpResolved(imm: nat, pc: nat, rdAfterExecution: nat)

  /** The 21-bit immediate immhi:immlo of an ADRP (immhi << 2 | immlo). */
  function Imm21(f: Arm64Adrp): (r: nat)
    requires AdrpInRange(f)
    ensures r < 0x20_0000
  {
    f.immhi * 4 + f.immlo
  }

  /**
   * parse_adrp with the given 32-bit program counter. The 21-bit immediate is
   * shifted left by 12 in 32-bit arithmetic, so its top bit is lost and it is
   * never sign-extended; the page of pc is then added in 64 bits, which
   * cannot wrap.
   */
  function ParseAdrp(f: Arm64Adrp, pc: nat): (p: AdrpResolved)
    requires AdrpInRange(f)
    requires pc < 0x1_0000_0000
  {
    var imm := Imm21(f) * 0x1000 % 0x1_0000_0000;
    AdrpResolved(imm, pc, pc / 0x1000 * 0x1000 + imm)
  }

  /**
   * imm is a multiple of the page size below 2^32, RdAfterExecution is a
   * page address below 2^33 (so the UINT64 sum never wraps), and it is imm
   * above the start of the page holding pc.
   */
  lemma ParseAdrpPage(f: Arm64Adrp, pc: nat)
    requires AdrpInRange(f) && pc < 0x1_0000_0000
    ensures var p := ParseAdrp(f, pc);
      p.imm < 0x1_0000_0000 && p.imm % 0x1000 == 0 && p.pc == pc &&
      p.rdAfterExecution % 0x1000 == 0 && p.rdAfterExecution < 0x2_0000_0000 &&
      pc - 0x1000 < p.rdAfterExecution - p.imm <= pc
  {
  }

  /**
   * What ADRP computes according to the architecture: the page of pc plus
   * SignExtend(immhi:immlo:Zeros(12), 64), modulo 2^64.
   */
  function ArchitecturalAdrp(f: Arm64Adrp, pc: nat): (r: nat)
    requires AdrpInRange(f)
    ensures r < 0x1_0000_0000_0000_0000
  {
    var offset := if ImmediateNegative(f) then (Imm21(f) - 0x20_0000) * 0x1000 else Imm21(f) * 0x1000;
    (pc / 0x1000 * 0x1000 + offset) % 0x1_0000_0000_0000_0000
  }

  /** The top bit of the 21-bit immediate, bit 18 of immhi: set for a negative page offset. */
  predicate ImmediateNegative(f: Arm64Adrp)
    requires AdrpInRange(f)
  {
    Imm21(f) >= 0x10_0000
  }

  /**
   * parse_adrp agrees with the architecture when the immediate is
   * non-negative, and is 4 GiB above it when the immediate is negative.
   */
  lemma ParseAdrpAgainstArchitecture(f: Arm64Adrp, pc: nat)
    requires AdrpInRange(f) && pc < 0x1_0000_0000
    ensures ParseAdrp(f, pc).rdAfterExecution ==
            (ArchitecturalAdrp(f, pc) + if ImmediateNegative(f) then 0x1_0000_0000 else 0) % 0x1_0000_0000_0000_0000
  {
    var page := pc / 0x1000 * 0x1000;
    var p := ParseAdrp(f, pc);
    if ImmediateNegative(f) {
      assert p.imm == Imm21(f) * 0x1000 - 0x1_0000_0000;
      var arch := page + p.imm - 0x1_0000_0000;
      if arch >= 0 {
        assert ArchitecturalAdrp(f, pc) == arch;
      } else {
        assert ArchitecturalAdrp(f, pc) == arch + 0x1_0000_0000_0000_0000;
      }
    } else {
      assert p.imm == Imm21(f) * 0x1000;
    }
  }

  /** With a non-negative immediate, parse_adrp computes what ADRP does. */
  lemma ParseAdrpNonNegative(f: Arm64Adrp, pc: nat)
    requires AdrpInRange(f) && pc < 0x1_0000_0000 && !ImmediateNegative(f)
    ensures ParseAdrp(f, pc).rdAfterExecution == ArchitecturalAdrp(f, pc)
  {
    ParseAdrpAgainstArchitecture(f, pc);
    var arch := ArchitecturalAdrp(f, pc);
    assert (arch + 0) % 0x1_0000_0000_0000_0000 == arch;
  }

  /**
   * The sign bit of the immediate (bit 18 of immhi) has no effect on
   * parse_adrp: the bit is shifted out of the 32-bit immediate.
   */
  lemma ParseAdrpIgnoresSignBit(f: Arm64Adrp, g: Arm64Adrp, pc: nat)
    requires AdrpInRange(f) && AdrpInRange(g) && pc < 0x1_0000_0000
    requires g.immlo == f.immlo && g.immhi == f.immhi + 0x4_0000
    ensures ParseAdrp(g, pc) == ParseAdrp(f, pc)
  {
    assert Imm21(g) * 0x1000 == Imm21(f) * 0x1000 + 0x1_0000_0000;
  }
}
