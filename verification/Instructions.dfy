/**
 Instruction decoding (machine/instruction.cc) against the instruction formats
 of section 2.3 (Immediate Encoding Variants) of the RISC-V Unprivileged ISA
 specification.
 */
module Instructions {
  type Word = bv32

  // ----- decoding -----

  /** The decoded fields; signed immediates are in two's complement. */
  datatype Fields = Fields(opcode: Word, rd: Word, funct3: Word, rs1: Word, rs2: Word, funct7: Word,
                           immI: Word, immS: Word, immB: Word, immU: Word, immJ: Word, shamt: Word)

  /** The subtraction that makes an n-bit field signed. */
  function Signed(field: Word, half: Word, full: Word): Word { if field >= half then field - full else field }

  function Decoded(value: Word): Fields {
    Fields(value & 0x7f, (value >> 7) & 0x1f, (value >> 12) & 0x7, (value >> 15) & 0x1f, (value >> 20) & 0x1f,
           (value >> 25) & 0x7f,
           Signed((value >> 20) & 0xfff, 2048, 4096),
           Signed(((value >> 20) & 0xfe0) + ((value >> 7) & 0x1f), 2048, 4096),
           Signed(((value >> 19) & 0x1000) + ((value >> 20) & 0x7e0) + ((value >> 7) & 0x1e) + ((value << 4) & 0x800), 4096, 8192),
           value & 0xfffff000,
           Signed((value & 0xff000) + ((value >> 9) & 0x800) + ((value >> 20) & 0x7fe) + ((value >> 11) & 0x100000), 1048576, 2097152),
           (value >> 20) & 0x3f)
  }

  class Instruction {
    const value: Word
    var fields: Fields

    constructor (v: Word)
      ensures value == v
    {
      value, fields := v, Fields(0, 0, 0, 0, 0, 0, 0, 0, 0, 0, 0, 0);
    }

    method Decode()
      modifies this
      ensures fields == Decoded(value)
    {
      fields := Decoded(value);
    }
  }

  // ----- encoding, as the specification lays the fields out -----

  /** Bits hi..lo of a word, at the bottom. */
  function Bits(w: Word, lo: bv5, mask: Word): Word { (w >> lo) & mask }

  predicate IsRegister(r: Word) { r < 32 }

  /** imm[11:0] | rs1 | funct3 | rd | opcode */
  function EncodeI(opcode: Word, rd: Word, funct3: Word, rs1: Word, imm: Word): Word {
    (Bits(imm, 0, 0xfff) << 20) | (rs1 << 15) | (funct3 << 12) | (rd << 7) | opcode
  }

  /** imm[11:5] | rs2 | rs1 | funct3 | imm[4:0] | opcode */
  function EncodeS(opcode: Word, funct3: Word, rs1: Word, rs2: Word, imm: Word): Word {
    (Bits(imm, 5, 0x7f) << 25) | (rs2 << 20) | (rs1 << 15) | (funct3 << 12) | (Bits(imm, 0, 0x1f) << 7) | opcode
  }

  /** imm[12|10:5] | rs2 | rs1 | funct3 | imm[4:1|11] | opcode */
  function EncodeB(opcode: Word, funct3: Word, rs1: Word, rs2: Word, imm: Word): Word {
    (Bits(imm, 12, 1) << 31) | (Bits(imm, 5, 0x3f) << 25) | (rs2 << 20) | (rs1 << 15) | (funct3 << 12)
    | (Bits(imm, 1, 0xf) << 8) | (Bits(imm, 11, 1) << 7) | opcode
  }

  /** imm[31:12] | rd | opcode */
  function EncodeU(opcode: Word, rd: Word, imm: Word): Word { (imm & 0xfffff000) | (rd << 7) | opcode }

  /** imm[20|10:1|11|19:12] | rd | opcode */
  function EncodeJ(opcode: Word, rd: Word, imm: Word): Word {
    (Bits(imm, 20, 1) << 31) | (Bits(imm, 1, 0x3ff) << 21) | (Bits(imm, 11, 1) << 20) | (Bits(imm, 12, 0xff) << 12)
    | (rd << 7) | opcode
  }

  /** imm is in [-half, half) in two's complement. */
  predicate InSignedRange(imm: Word, half: Word, full: Word) { imm + half < full }

  lemma FieldsI(opcode: Word, rd: Word, funct3: Word, rs1: Word, imm: Word)
    requires opcode < 128 && IsRegister(rd) && funct3 < 8 && IsRegister(rs1)
    ensures var w := EncodeI(opcode, rd, funct3, rs1, imm);
            && w & 0x7f == opcode && (w >> 7) & 0x1f == rd && (w >> 12) & 0x7 == funct3 && (w >> 15) & 0x1f == rs1
            && (w >> 20) & 0xfff == imm & 0xfff
  {
  }

  /** Decode undoes the encoding of every I, S, B, U and J instruction. */
  lemma DecodeI(opcode: Word, rd: Word, funct3: Word, rs1: Word, imm: Word)
    requires opcode < 128 && IsRegister(rd) && funct3 < 8 && IsRegister(rs1) && InSignedRange(imm, 2048, 4096)
    ensures var f := Decoded(EncodeI(opcode, rd, funct3, rs1, imm));
            f.opcode == opcode && f.rd == rd && f.funct3 == funct3 && f.rs1 == rs1 && f.immI == imm
  {
    FieldsI(opcode, rd, funct3, rs1, imm);
    Extend12(imm);
  }

  lemma Extend12(imm: Word)
    requires InSignedRange(imm, 2048, 4096)
    ensures Signed(imm & 0xfff, 2048, 4096) == imm
  {
  }

  lemma FieldsS(opcode: Word, funct3: Word, rs1: Word, rs2: Word, imm: Word)
    requires opcode < 128 && funct3 < 8 && IsRegister(rs1) && IsRegister(rs2)
    ensures var w := EncodeS(opcode, funct3, rs1, rs2, imm);
            w & 0x7f == opcode && (w >> 12) & 0x7 == funct3 && (w >> 15) & 0x1f == rs1 && (w >> 20) & 0x1f == rs2
  {
  }

  lemma ImmediateS(opcode: Word, funct3: Word, rs1: Word, rs2: Word, imm: Word)
    requires opcode < 128 && funct3 < 8 && IsRegister(rs1) && IsRegister(rs2)
    ensures var w := EncodeS(opcode, funct3, rs1, rs2, imm); (w >> 20) & 0xfe0 == imm & 0xfe0 && (w >> 7) & 0x1f == imm & 0x1f
  {
  }

  lemma JoinS(imm: Word)
    ensures (imm & 0xfe0) + (imm & 0x1f) == imm & 0xfff
  {
  }

  lemma DecodeS(opcode: Word, funct3: Word, rs1: Word, rs2: Word, imm: Word)
    requires opcode < 128 && funct3 < 8 && IsRegister(rs1) && IsRegister(rs2) && InSignedRange(imm, 2048, 4096)
    ensures var f := Decoded(EncodeS(opcode, funct3, rs1, rs2, imm));
            f.opcode == opcode && f.funct3 == funct3 && f.rs1 == rs1 && f.rs2 == rs2 && f.immS == imm
  {
    FieldsS(opcode, funct3, rs1, rs2, imm);
    ImmediateS(opcode, funct3, rs1, rs2, imm);
    JoinS(imm);
    Extend12(imm);
  }

  lemma FieldsB(opcode: Word, funct3: Word, rs1: Word, rs2: Word, imm: Word)
    requires opcode < 128 && funct3 < 8 && IsRegister(rs1) && IsRegister(rs2)
    ensures var w := EncodeB(opcode, funct3, rs1, rs2, imm);
            w & 0x7f == opcode && (w >> 12) & 0x7 == funct3 && (w >> 15) & 0x1f == rs1 && (w >> 20) & 0x1f == rs2
  {
  }

  lemma ImmediateB(opcode: Word, funct3: Word, rs1: Word, rs2: Word, imm: Word)
    requires opcode < 128 && funct3 < 8 && IsRegister(rs1) && IsRegister(rs2)
    ensures var w := EncodeB(opcode, funct3, rs1, rs2, imm);
            && (w >> 19) & 0x1000 == imm & 0x1000 && (w >> 20) & 0x7e0 == imm & 0x7e0
            && (w >> 7) & 0x1e == imm & 0x1e && (w << 4) & 0x800 == imm & 0x800
  {
  }

  lemma JoinB(imm: Word)
    requires imm & 1 == 0
    ensures (imm & 0x1000) + (imm & 0x7e0) + (imm & 0x1e) + (imm & 0x800) == imm & 0x1fff
  {
  }

  lemma Extend13(imm: Word)
    requires InSignedRange(imm, 4096, 8192)
    ensures Signed(imm & 0x1fff, 4096, 8192) == imm
  {
  }

  lemma DecodeB(opcode: Word, funct3: Word, rs1: Word, rs2: Word, imm: Word)
    requires opcode < 128 && funct3 < 8 && IsRegister(rs1) && IsRegister(rs2)
    requires InSignedRange(imm, 4096, 8192) && imm & 1 == 0
    ensures var f := Decoded(EncodeB(opcode, funct3, rs1, rs2, imm));
            f.opcode == opcode && f.funct3 == funct3 && f.rs1 == rs1 && f.rs2 == rs2 && f.immB == imm
  {
    FieldsB(opcode, funct3, rs1, rs2, imm);
    ImmediateB(opcode, funct3, rs1, rs2, imm);
    JoinB(imm);
    Extend13(imm);
  }

  lemma DecodeU(opcode: Word, rd: Word, imm: Word)
    requires opcode < 128 && IsRegister(rd) && imm & 0xfff == 0
    ensures var f := Decoded(EncodeU(opcode, rd, imm)); f.opcode == opcode && f.rd == rd && f.immU == imm
  {
  }

  lemma ImmediateJ(opcode: Word, rd: Word, imm: Word)
    requires opcode < 128 && IsRegister(rd)
    ensures var w := EncodeJ(opcode, rd, imm);
            && w & 0xff000 == imm & 0xff000 && (w >> 9) & 0x800 == imm & 0x800
            && (w >> 20) & 0x7fe == imm & 0x7fe && (w >> 11) & 0x100000 == imm & 0x100000
            && w & 0x7f == opcode && (w >> 7) & 0x1f == rd
  {
  }

  lemma JoinJ(imm: Word)
    requires imm & 1 == 0
    ensures (imm & 0xff000) + (imm & 0x800) + (imm & 0x7fe) + (imm & 0x100000) == imm & 0x1fffff
  {
  }

  lemma Extend21(imm: Word)
    requires InSignedRange(imm, 1048576, 2097152)
    ensures Signed(imm & 0x1fffff, 1048576, 2097152) == imm
  {
    if imm < 1048576 {
      LowBits21(imm);
    } else {
      HighBits21(imm);
    }
  }

  lemma LowBits21(imm: Word)
    requires imm < 1048576
    ensures imm & 0x1fffff == imm
  {
  }

  lemma HighBits21(imm: Word)
    requires InSignedRange(imm, 1048576, 2097152) && imm >= 1048576
    ensures imm & 0x1fffff >= 1048576 && (imm & 0x1fffff) - 2097152 == imm
  {
    assert imm >= 0xfff00000;
    assert imm & 0xfff00000 == 0xfff00000;
  }

  lemma DecodeJ(opcode: Word, rd: Word, imm: Word)
    requires opcode < 128 && IsRegister(rd) && InSignedRange(imm, 1048576, 2097152) && imm & 1 == 0
    ensures var f := Decoded(EncodeJ(opcode, rd, imm)); f.opcode == opcode && f.rd == rd && f.immJ == imm
  {
    ImmediateJ(opcode, rd, imm);
    JoinJ(imm);
    Extend21(imm);
  }
}
