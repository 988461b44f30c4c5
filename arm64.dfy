/**
 * Bit fields of the two A64 instruction forms the locator decodes: ADRP and
 * ADD (immediate), as laid out in chapter C6.2 "A64 base instructions" of the
 * Arm Architecture Reference Manual for A-profile (ARM DDI 0487).
 *
 *   ADRP:          op1[31] immlo[30:29] op2[28:24] immhi[23:5] Rd[4:0]
 *   ADD immediate: sf[31] op1[30] S[29] op2[28:23] sh[22] imm12[21:10] Rn[9:5] Rd[4:0]
 *
 * A 32-bit word is an integer below 2^32; each extraction is the header's
 * shift-and-mask written as a division by 2^shift followed by a remainder
 * modulo 2^width.
 */
module Arm64 {

  /** A UINT32 value. */
  type Word = w: int | 0 <= w < 0x1_0000_0000

  // ---- ADRP fields ----

  function AdrpRd(ins: Word): (r: nat)
    ensures r < 0x20
  { ins % 0x20 }

  function AdrpImmhi(ins: Word): (r: nat)
    ensures r < 0x8_0000
  { ins / 0x20 % 0x8_0000 }

  function AdrpOp2(ins: Word): (r: nat)
    ensures r < 0x20
  { ins / 0x100_0000 % 0x20 }

  function AdrpImmlo(ins: Word): (r: nat)
    ensures r < 4
  { ins / 0x2000_0000 % 4 }

  function AdrpOp1(ins: Word): (r: nat)
    ensures r < 2
  { ins / 0x8000_0000 % 2 }

  // ---- ADD (immediate) fields ----

  function AddRd(ins: Word): (r: nat)
    ensures r < 0x20
  { ins % 0x20 }

  function AddRn(ins: Word): (r: nat)
    ensures r < 0x20
  { ins / 0x20 % 0x20 }

  function AddImm12(ins: Word): (r: nat)
    ensures r < 0x1000
  { ins / 0x400 % 0x1000 }

  function AddSh(ins: Word): (r: nat)
    ensures r < 2
  { ins / 0x40_0000 % 2 }

  function AddOp2(ins: Word): (r: nat)
    ensures r < 0x40
  { ins / 0x80_0000 % 0x40 }

  function AddS(ins: Word): (r: nat)
    ensures r < 2
  { ins / 0x2000_0000 % 2 }

  function AddOp1(ins: Word): (r: nat)
    ensures r < 2
  { ins / 0x4000_0000 % 2 }

  function AddSf(ins: Word): (r: nat)
    ensures r < 2
  { ins / 0x8000_0000 % 2 }

  // ---- Field records ----

  /** The instruction fields of an ADRP word (the decoded members of Arm64Adrp). */
  datatype Arm64Adrp = Arm64Adrp(rd: nat, immhi: nat, op2: nat, immlo: nat, op1: nat)

  /** The instruction fields of an ADD (immediate) word (the decoded members of Arm64Add). */
  datatype Arm64Add = Arm64Add(rd: nat, rn: nat, imm12: nat, sh: nat, op2: nat, s: nat, op1: nat, sf: nat)

  /** Every field fits its bit range. */
  predicate AdrpInRange(f: Arm64Adrp)
  {
    f.rd < 0x20 && f.immhi < 0x8_0000 && f.op2 < 0x20 && f.immlo < 4 && f.op1 < 2
  }

  predicate AddInRange(f: Arm64Add)
  {
    f.rd < 0x20 && f.rn < 0x20 && f.imm12 < 0x1000 && f.sh < 2 &&
    f.op2 < 0x40 && f.s < 2 && f.op1 < 2 && f.sf < 2
  }

  /** The fields validate_adrp stores for a word. */
  function DecodeAdrp(ins: Word): (f: Arm64Adrp)
    ensures AdrpInRange(f)
  {
    Arm64Adrp(AdrpRd(ins), AdrpImmhi(ins), AdrpOp2(ins), AdrpImmlo(ins), AdrpOp1(ins))
  }

  /** The fields validate_add stores for a word. */
  function DecodeAdd(ins: Word): (f: Arm64Add)
    ensures AddInRange(f)
  {
    Arm64Add(AddRd(ins), AddRn(ins), AddImm12(ins), AddSh(ins),
             AddOp2(ins), AddS(ins), AddOp1(ins), AddSf(ins))
  }

  /** Places each field at its bit position; the inverse of DecodeAdrp. */
  function EncodeAdrp(f: Arm64Adrp): (ins: Word)
    requires AdrpInRange(f)
    ensures DecodeAdrp(ins) == f
  {
    var ins := f.rd + 0x20 * f.immhi + 0x100_0000 * f.op2 + 0x2000_0000 * f.immlo + 0x8000_0000 * f.op1;
    var above5 := f.immhi + 0x8_0000 * f.op2 + 0x100_0000 * f.immlo + 0x400_0000 * f.op1;
    var above24 := f.op2 + 0x20 * f.immlo + 0x80 * f.op1;
    var above29 := f.immlo + 4 * f.op1;
    assert ins == f.rd + 0x20 * above5;
    assert ins / 0x20 == above5 && ins % 0x20 == f.rd;
    assert ins == (ins % 0x100_0000) + 0x100_0000 * above24;
    assert ins / 0x100_0000 == above24;
    assert ins / 0x2000_0000 == above29;
    assert ins / 0x8000_0000 == f.op1;
    ins
  }

  /** Places each field at its bit position; the inverse of DecodeAdd. */
  function EncodeAdd(f: Arm64Add): (ins: Word)
    requires AddInRange(f)
    ensures DecodeAdd(ins) == f
  {
    AddFieldsPlaced(f);
    f.rd + 0x20 * f.rn + 0x400 * f.imm12 + 0x40_0000 * f.sh +
      0x80_0000 * f.op2 + 0x2000_0000 * f.s + 0x4000_0000 * f.op1 + 0x8000_0000 * f.sf
  }

  /** Each ADD field, placed at its bit position, is extracted again by DecodeAdd. */
  lemma AddFieldsPlaced(f: Arm64Add)
    requires AddInRange(f)
    ensures var ins := f.rd + 0x20 * f.rn + 0x400 * f.imm12 + 0x40_0000 * f.sh +
                       0x80_0000 * f.op2 + 0x2000_0000 * f.s + 0x4000_0000 * f.op1 + 0x8000_0000 * f.sf;
            0 <= ins < 0x1_0000_0000 && DecodeAdd(ins) == f
  {
    var ins := f.rd + 0x20 * f.rn + 0x400 * f.imm12 + 0x40_0000 * f.sh +
      0x80_0000 * f.op2 + 0x2000_0000 * f.s + 0x4000_0000 * f.op1 + 0x8000_0000 * f.sf;
    var low10 := f.rd + 0x20 * f.rn;
    var low22 := low10 + 0x400 * f.imm12;
    var low23 := low22 + 0x40_0000 * f.sh;
    var low29 := low23 + 0x80_0000 * f.op2;
    var low30 := low29 + 0x2000_0000 * f.s;
    var low31 := low30 + 0x4000_0000 * f.op1;
    assert AddRd(ins) == f.rd;
    assert AddRn(ins) == f.rn by {
      Field(ins, f.rd, f.rn, f.imm12 + 0x1000 * f.sh + 0x2000 * f.op2 + 0x8_0000 * f.s + 0x10_0000 * f.op1 + 0x20_0000 * f.sf, 0x20, 0x20);
    }
    assert AddImm12(ins) == f.imm12 by {
      Field(ins, low10, f.imm12, f.sh + 2 * f.op2 + 0x80 * f.s + 0x100 * f.op1 + 0x200 * f.sf, 0x400, 0x1000);
    }
    assert AddSh(ins) == f.sh by {
      Field(ins, low22, f.sh, f.op2 + 0x40 * f.s + 0x80 * f.op1 + 0x100 * f.sf, 0x40_0000, 2);
    }
    assert AddOp2(ins) == f.op2 by {
      Field(ins, low23, f.op2, f.s + 2 * f.op1 + 4 * f.sf, 0x80_0000, 0x40);
    }
    assert AddS(ins) == f.s by {
      Field(ins, low29, f.s, f.op1 + 2 * f.sf, 0x2000_0000, 2);
    }
    assert AddOp1(ins) == f.op1 by {
      Field(ins, low30, f.op1, f.sf, 0x4000_0000, 2);
    }
    assert AddSf(ins) == f.sf by {
      Field(ins, low31, f.sf, 0, 0x8000_0000, 2);
    }
  }

  /** A field of width w at position k: what lies below k and above k * w does not reach it. */
  lemma Field(x: nat, lo: nat, field: nat, hi: nat, k: nat, w: nat)
    requires (k, w) in {(0x20, 0x20), (0x400, 0x1000), (0x40_0000, 2), (0x80_0000, 0x40),
                        (0x2000_0000, 2), (0x4000_0000, 2), (0x8000_0000, 2)}
    requires x == lo + k * (field + w * hi) && lo < k && field < w
    ensures x / k % w == field
  {
  }

  /** The five ADRP fields cover all 32 bits: reassembling them gives the word back. */
  lemma AdrpRoundTrip(ins: Word)
    ensures EncodeAdrp(DecodeAdrp(ins)) == ins
  {
    AdrpFieldsCover(ins);
  }

  /** The word is the sum of its ADRP fields, each at its bit position. */
  lemma AdrpFieldsCover(ins: Word)
    ensures var f := DecodeAdrp(ins);
      ins == f.rd + 0x20 * f.immhi + 0x100_0000 * f.op2 + 0x2000_0000 * f.immlo + 0x8000_0000 * f.op1
  {
    var q5, q24, q29 := ins / 0x20, ins / 0x100_0000, ins / 0x2000_0000;
    Quotient(ins, 0x20, 0x8_0000);
    Quotient(ins, 0x100_0000, 0x20);
    Quotient(ins, 0x2000_0000, 4);
    var f := DecodeAdrp(ins);
    assert ins == f.rd + 0x20 * f.immhi + 0x100_0000 * f.op2 + 0x2000_0000 * f.immlo + 0x8000_0000 * f.op1;
  }

  /** The eight ADD fields cover all 32 bits: reassembling them gives the word back. */
  lemma AddRoundTrip(ins: Word)
    ensures EncodeAdd(DecodeAdd(ins)) == ins
  {
    AddFieldsCover(ins);
  }

  /** The word is the sum of its ADD fields, each at its bit position. */
  lemma AddFieldsCover(ins: Word)
    ensures var f := DecodeAdd(ins);
      ins == f.rd + 0x20 * f.rn + 0x400 * f.imm12 + 0x40_0000 * f.sh +
             0x80_0000 * f.op2 + 0x2000_0000 * f.s + 0x4000_0000 * f.op1 + 0x8000_0000 * f.sf
  {
    var f := DecodeAdd(ins);
    var q5, q10, q22, q23 := ins / 0x20, ins / 0x400, ins / 0x40_0000, ins / 0x80_0000;
    var q29, q30, q31 := ins / 0x2000_0000, ins / 0x4000_0000, ins / 0x8000_0000;
    assert ins == f.rd + 0x20 * q5;
    assert q5 == f.rn + 0x20 * q10 by { Quotient(ins, 0x20, 0x20); }
    assert q10 == f.imm12 + 0x1000 * q22 by { Quotient(ins, 0x400, 0x1000); }
    assert q22 == f.sh + 2 * q23 by { Quotient(ins, 0x40_0000, 2); }
    assert q23 == f.op2 + 0x40 * q29 by { Quotient(ins, 0x80_0000, 0x40); }
    assert q29 == f.s + 2 * q30 by { Quotient(ins, 0x2000_0000, 2); }
    assert q30 == f.op1 + 2 * q31 by { Quotient(ins, 0x4000_0000, 2); }
    assert q31 == f.sf;
  }

  /**
   * Splitting the bits of x above position a at a further width b: the low
   * part is a field, the high part is the bits above a * b. Used with the
   * field positions above.
   */
  lemma Quotient(x: nat, a: nat, b: nat)
    requires (a, b) in {(0x20, 0x8_0000), (0x100_0000, 0x20), (0x2000_0000, 4), (0x20, 0x20),
                        (0x400, 0x1000), (0x40_0000, 2), (0x80_0000, 0x40), (0x2000_0000, 2), (0x4000_0000, 2)}
    ensures x / a == x / a % b + b * (x / (a * b))
  {
  }

  /**
   * The extractions the two forms share: Rd is bits 0-4 in both, ADRP's immlo
   * (bits 29-30) is ADD's S (bit 29) and op1 (bit 30), and ADRP's op1 is ADD's sf (bit 31).
   */
  lemma SharedExtractions(ins: Word)
    ensures AdrpRd(ins) == AddRd(ins)
    ensures AdrpImmlo(ins) == AddS(ins) + 2 * AddOp1(ins)
    ensures AdrpOp1(ins) == AddSf(ins)
  {
  }
}
