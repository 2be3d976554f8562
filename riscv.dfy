/** The two RV64I instructions a bistro trampoline is made of, as the RISC-V
    Unprivileged ISA (version 20191213) defines them: the instruction formats
    of section 2.2, the immediates of section 2.3, AUIPC (section 2.4),
    JALR (section 2.5), and their RV64 widening (chapter 5). The module
    decodes and executes the words the encoder builds; its fields are read
    from the word by division and remainder. */
module RiscV {
  import opened Bits

  /** Major opcodes (bits 6..0). */
  const OpAuipc: nat := 0x17
  const OpJalr: nat := 0x67

  /** Fields of a 32-bit instruction word (section 2.2): opcode is bits
      6..0, rd bits 11..7, funct3 bits 14..12, rs1 bits 19..15. */
  function Opcode(w: U32): nat { w % 0x80 }
  function Rd(w: U32): nat { (w / 0x80) % 0x20 }
  function Funct3(w: U32): nat { (w / 0x1000) % 0x8 }
  function Rs1(w: U32): nat { (w / 0x8000) % 0x20 }

  /** Bits 31..12 of a U-type word, in place: the upper immediate. */
  function UpperImm(w: U32): nat { w - w % 0x1000 }

  /** Bits 31..20 of an I-type word: the 12-bit immediate. */
  function LowerImm(w: U32): (v: nat)
    ensures v < 0x1000
  {
    w / 0x10_0000
  }

  /** A U-type word is its upper immediate, rd and opcode: the three fields
      cover all 32 bits without overlap. */
  lemma UTypeFields(w: U32)
    ensures w == UpperImm(w) + 0x80 * Rd(w) + Opcode(w)
  {
    var q7 := w / 0x80;
    var q12 := q7 / 0x20;
    assert w == 0x80 * q7 + w % 0x80;
    assert q7 == 0x20 * q12 + q7 % 0x20;
    assert w % 0x1000 == 0x80 * (q7 % 0x20) + w % 0x80;
  }

  /** An I-type word is its immediate, rs1, funct3, rd and opcode: the five
      fields cover all 32 bits without overlap. */
  lemma ITypeFields(w: U32)
    ensures w == 0x10_0000 * LowerImm(w) + 0x8000 * Rs1(w) + 0x1000 * Funct3(w) + 0x80 * Rd(w) + Opcode(w)
  {
    var q7 := w / 0x80;
    var q12 := q7 / 0x20;
    var q15 := q12 / 0x8;
    assert w == 0x80 * q7 + w % 0x80;
    assert q7 == 0x20 * q12 + q7 % 0x20;
    assert q12 == 0x8 * q15 + q12 % 0x8;
    assert q15 == 0x20 * (q15 / 0x20) + q15 % 0x20;
    assert w / 0x1000 == q12 && w / 0x8000 == q15 && w / 0x10_0000 == q15 / 0x20;
  }

  /** Conversely, a word assembled from in-range U-type fields has those
      fields. */
  lemma UTypeOf(w: U32, upper: nat, rd: nat, op: nat)
    requires upper % 0x1000 == 0 && rd < 0x20 && op < 0x80
    requires w == upper + 0x80 * rd + op
    ensures Opcode(w) == op && Rd(w) == rd && UpperImm(w) == upper
  {
    var q12 := upper / 0x1000;
    DivMod(upper, 0x1000, q12, 0);
    DivMod(w, 0x80, 0x20 * q12 + rd, op);
    DivMod(w / 0x80, 0x20, q12, rd);
    DivMod(w, 0x1000, q12, 0x80 * rd + op);
  }

  /** Conversely, a word assembled from in-range I-type fields has those
      fields. */
  lemma ITypeOf(w: U32, imm: nat, rs1: nat, f3: nat, rd: nat, op: nat)
    requires imm < 0x1000 && rs1 < 0x20 && f3 < 0x8 && rd < 0x20 && op < 0x80
    requires w == 0x10_0000 * imm + 0x8000 * rs1 + 0x1000 * f3 + 0x80 * rd + op
    ensures Opcode(w) == op && Rd(w) == rd && Funct3(w) == f3 && Rs1(w) == rs1 && LowerImm(w) == imm
  {
    DivMod(w, 0x80, 0x2000 * imm + 0x100 * rs1 + 0x20 * f3 + rd, op);
    DivMod(w / 0x80, 0x20, 0x100 * imm + 0x8 * rs1 + f3, rd);
    DivMod(w, 0x1000, 0x100 * imm + 0x8 * rs1 + f3, 0x80 * rd + op);
    DivMod(w / 0x1000, 0x8, 0x20 * imm + rs1, f3);
    DivMod(w, 0x8000, 0x20 * imm + rs1, 0x1000 * f3 + 0x80 * rd + op);
    DivMod(w / 0x8000, 0x20, imm, rs1);
    DivMod(w, 0x10_0000, imm, 0x8000 * rs1 + 0x1000 * f3 + 0x80 * rd + op);
  }

  /** The value AUIPC adds to the pc: the U-immediate as a 32-bit two's
      complement value (on RV64 the 32-bit result is sign-extended). */
  function ImmU(w: U32): int
  {
    Signed32(UpperImm(w))
  }

  /** The value JALR adds to rs1: the 12-bit immediate, sign-extended from
      bit 11. */
  function ImmI(w: U32): (v: int)
    ensures -0x800 <= v < 0x800
    ensures v % 0x1000 == LowerImm(w)
  {
    var imm := LowerImm(w);
    if imm < 0x800 then imm else imm - 0x1000
  }

  /** JALR's target with its least-significant bit set to zero. */
  function ClearLowBit(v: U64): (r: U64)
    ensures r % 2 == 0 && r <= v && v - r < 2
  {
    v - v % 2
  }

  /** The architectural state one of the two instructions reads and writes:
      the program counter and the integer registers `x0`..`x31`. */
  datatype Hart = Hart(pc: U64, x: seq<U64>)

  predicate Valid(h: Hart)
  {
    |h.x| == 32
  }

  /** A register read; `x0` reads as zero. */
  function Read(x: seq<U64>, r: nat): U64
    requires |x| == 32 && r < 32
  {
    if r == 0 then 0 else x[r]
  }

  /** A register write; writes to `x0` are discarded. */
  function Write(x: seq<U64>, r: nat, v: U64): (y: seq<U64>)
    requires |x| == 32 && r < 32
    ensures |y| == 32
    ensures 0 < r ==> Read(y, r) == v
    ensures forall q :: 0 <= q < 32 && q != r ==> Read(y, q) == Read(x, q)
  {
    if r == 0 then x else x[r := v]
  }

  /** Executes the instruction word `w` at `h.pc`. AUIPC writes
      `pc + ImmU` to rd and falls through to `pc + 4`; JALR with funct3 0
      jumps to `rs1 + ImmI` with bit 0 cleared and writes `pc + 4` to rd
      (rs1 is read before rd is written). Addresses wrap modulo 2^64. Any
      other word is outside this model: `None`. */
  function Step(h: Hart, w: U32): (r: Option<Hart>)
    requires Valid(h)
    ensures r.Some? ==> Valid(r.value)
    ensures r.Some? <==> Opcode(w) == OpAuipc || (Opcode(w) == OpJalr && Funct3(w) == 0)
  {
    if Opcode(w) == OpAuipc then
      Some(Hart(Wrap64(h.pc + 4), Write(h.x, Rd(w), Wrap64(h.pc + ImmU(w)))))
    else if Opcode(w) == OpJalr && Funct3(w) == 0 then
      var target := ClearLowBit(Wrap64(Read(h.x, Rs1(w)) + ImmI(w)));
      Some(Hart(target, Write(h.x, Rd(w), Wrap64(h.pc + 4))))
    else
      None
  }

  /** Executes `first` at `h.pc` and then `second` at the pc the first one
      leaves. After an AUIPC that pc is `h.pc + 4`, the word that follows
      it in memory. */
  function RunPair(h: Hart, first: U32, second: U32): (r: Option<Hart>)
    requires Valid(h)
    ensures r.Some? ==> Valid(r.value)
  {
    match Step(h, first)
    case None => None
    case Some(h1) => Step(h1, second)
  }

  /** An AUIPC into `rd` followed by a JALR from `rd` with link register
      `link`: the pair jumps to `pc + ImmU + ImmI` (bit 0 cleared), leaves
      `pc + ImmU` in `rd` and `pc + 8` in `link`; every other register keeps
      its value. */
  lemma RunAuipcJalr(h: Hart, a: U32, j: U32)
    requires Valid(h)
    requires Opcode(a) == OpAuipc && Opcode(j) == OpJalr && Funct3(j) == 0
    requires 0 < Rd(a) && Rs1(j) == Rd(a) && Rd(j) != Rd(a)
    ensures RunPair(h, a, j).Some?
    ensures RunPair(h, a, j).value.pc == ClearLowBit(Wrap64(h.pc + ImmU(a) + ImmI(j)))
    ensures Read(RunPair(h, a, j).value.x, Rd(a)) == Wrap64(h.pc + ImmU(a))
    ensures 0 < Rd(j) ==> Read(RunPair(h, a, j).value.x, Rd(j)) == Wrap64(h.pc + 8)
    ensures forall q :: 0 <= q < 32 && q != Rd(a) && q != Rd(j) ==> Read(RunPair(h, a, j).value.x, q) == Read(h.x, q)
  {
    var x1 := Write(h.x, Rd(a), Wrap64(h.pc + ImmU(a)));
    var h1 := Hart(Wrap64(h.pc + 4), x1);
    AuipcStep(h, a);
    var base := Read(x1, Rs1(j));
    assert base == Wrap64(h.pc + ImmU(a));
    assert Step(h, a) == Some(h1);
    JalrStep(h1, j);
    WrapAdd(base, h.pc + ImmU(a), ImmI(j));
    WrapAdd(h1.pc, h.pc + 4, 4);
  }

  // The two cases of `Step` the trampoline takes, one lemma each.

  lemma AuipcStep(h: Hart, a: U32)
    requires Valid(h) && Opcode(a) == OpAuipc
    ensures Step(h, a).Some?
    ensures Step(h, a).value.pc == Wrap64(h.pc + 4)
    ensures Step(h, a).value.x == Write(h.x, Rd(a), Wrap64(h.pc + ImmU(a)))
  {
  }

  lemma JalrStep(h: Hart, j: U32)
    requires Valid(h) && Opcode(j) == OpJalr && Funct3(j) == 0
    ensures Step(h, j).Some?
    ensures Step(h, j).value.pc == ClearLowBit(Wrap64(Read(h.x, Rs1(j)) + ImmI(j)))
    ensures Step(h, j).value.x == Write(h.x, Rd(j), Wrap64(h.pc + 4))
  {
  }

  /** Wrapping after each addition is wrapping once at the end: for
      `base == Wrap64(x)`, `Wrap64(base + y) == Wrap64(x + y)`. */
  lemma WrapAdd(base: int, x: int, y: int)
    requires base == Wrap64(x)
    ensures Wrap64(base + y) == Wrap64(x + y)
  {
    var q := x / 0x1_0000_0000_0000_0000;
    assert x == 0x1_0000_0000_0000_0000 * q + base;
    assert base + y == x + y - 0x1_0000_0000_0000_0000 * q;
  }
}
