/** The RISC-V bistro trampoline encoder of `ucm_bistro_patch`
    (src/ucm/bistro/bistro_riscv64.c): the displacement from the patched
    function to the hook, its split into a 20-bit and a 12-bit fragment with
    the source's masks, and the AUIPC/JALR pair the source's macros build
    from them. The pair is then run on the decoder of module RiscV. */
module BistroEncoder {
  import opened Bits
  import opened RiscV
  import LittleEndian

  /** Register numbers the pair uses: X31 (the highest temporary) carries the
      pc-relative upper part, X1 (the link register) receives the return
      address. X0 is defined beside them in the source but not used. */
  const X31: nat := 31
  const X1: nat := 1

  /** `hook - func_ptr` as a `ptrdiff_t`: the byte distance, as a 64-bit
      two's-complement pattern. */
  function Delta(funcPtr: U64, hook: U64): (delta: U64)
    ensures Wrap64(funcPtr + delta) == hook
  {
    WrapAdd(Wrap64(hook - funcPtr), hook - funcPtr, funcPtr);
    assert Wrap64(hook - funcPtr) + funcPtr == funcPtr + Wrap64(hook - funcPtr);
    Wrap64(hook - funcPtr)
  }

  /** The mask of `hi`: bits 63..12 set, bits 11..0 clear. Lemma
      `HiMaskFromLiteral` shows it is what the source's mask expression
      evaluates to. */
  const HiMask: U64 := 0xFFFF_FFFF_FFFF_F000

  /** The mask of `lo`, `0b111111111111`: bits 11..0. */
  const LoMask: nat := 0xFFF

  /** The high fragment `hi`. No 0x800 is added first, so it is not rounded
      toward the signed low fragment. */
  function Hi(delta: U64): U64
  {
    And(HiMask, delta)
  }

  /** The low fragment `lo`, unsigned. */
  function Lo(delta: U64): U64
  {
    And(LoMask, delta)
  }

  /** The source writes the mask as the C `int` constant
      `0b11111111111111111111 << 12`. Its value 0xFFFFF000 does not fit in
      a 32-bit `int`, so the shift is undefined behaviour in ISO C (C11
      6.5.7p4); GCC documents, and GCC and Clang produce, the wrapped bit
      pattern, which as an `int` is -4096. Converted to `ptrdiff_t` for the
      `&`, it is sign-extended to `HiMask`: `hi` keeps bits 63..12 of the
      delta. */
  lemma HiMaskFromLiteral()
    ensures Signed32(Truncate32(Shl(0xFFFFF, 12))) == -0x1000
    ensures Wrap64(Signed32(Truncate32(Shl(0xFFFFF, 12)))) == HiMask
  {
    Pow2Values();
    assert Shl(0xFFFFF, 12) == 0xFFFF_F000;
    assert Truncate32(0xFFFF_F000) == 0xFFFF_F000;
    assert Signed32(0xFFFF_F000) == -0x1000;
  }

  /** `hi` is the delta with bits 11..0 cleared. */
  lemma HiValue(delta: U64)
    ensures Hi(delta) == delta - delta % 0x1000
  {
    Pow2Values();
    var q := delta / 0x1000;
    assert delta == q * 0x1000 + delta % 0x1000;
    AndHighMask(64, 12, HiMask, delta, q, delta % 0x1000);
  }

  /** `lo` is bits 11..0 of the delta. */
  lemma LoValue(delta: U64)
    ensures Lo(delta) == delta % 0x1000
  {
    Pow2Values();
    var q := delta / 0x1000;
    assert delta == q * 0x1000 + delta % 0x1000;
    AndLowMask(12, LoMask, delta, q, delta % 0x1000);
  }

  /** The split loses nothing and the fragments do not overlap: `hi` has
      its low 12 bits clear, `lo` lies in [0, 0xFFF], `hi & lo == 0` and
      `hi | lo` is the delta. */
  lemma SplitIsLossless(delta: U64)
    ensures Hi(delta) % 0x1000 == 0 && Lo(delta) <= 0xFFF
    ensures And(Hi(delta), Lo(delta)) == 0
    ensures Or(Hi(delta), Lo(delta)) == delta
  {
    var q, r := delta / 0x1000, delta % 0x1000;
    assert Hi(delta) == 0x1000 * q by {
      HiValue(delta);
    }
    assert Lo(delta) == r by {
      LoValue(delta);
    }
    DivMod(Hi(delta), 0x1000, q, 0);
    assert Pow2(12) == 0x1000 by {
      Pow2Values();
    }
    AndDisjoint(12, Hi(delta), q, r);
    OrDisjoint(12, Hi(delta), q, r);
  }

  /** Once stored in a 32-bit word, `hi` keeps bits 31..12 of the delta, and
      with `lo` it gives back the delta's low 32 bits. */
  lemma StoredSplitIsLossless(delta: U64)
    ensures Truncate32(Hi(delta)) == Truncate32(delta) - Truncate32(delta) % 0x1000
    ensures Or(Truncate32(Hi(delta)), Lo(delta)) == Truncate32(delta)
  {
    var v := Truncate32(delta);
    var hd := Hi(delta);
    assert hd == delta - delta % 0x1000 by {
      HiValue(delta);
    }
    assert Truncate32(hd) == v - v % 0x1000 by {
      LowBits(delta);
    }
    assert Lo(delta) == v % 0x1000 by {
      LoValue(delta);
      LowBits(delta);
    }
    var b := v / 0x1000;
    assert v - v % 0x1000 == b * Pow2(12) && v % 0x1000 < Pow2(12) by {
      Pow2Values();
    }
    OrDisjoint(12, v - v % 0x1000, b, v % 0x1000);
  }

  /** Bits 11..0 of a 64-bit value are bits 11..0 of its low 32 bits, and
      clearing them commutes with the store to 32 bits. */
  lemma LowBits(delta: U64)
    ensures delta % 0x1000 == Truncate32(delta) % 0x1000
    ensures Truncate32(delta - delta % 0x1000) == Truncate32(delta) - Truncate32(delta) % 0x1000
  {
    var v := Truncate32(delta);
    var a := delta / 0x1_0000_0000;
    var b, c := v / 0x1000, v % 0x1000;
    DivMod(delta, 0x1000, 0x10_0000 * a + b, c);
    DivMod(delta - c, 0x1_0000_0000, a, 0x1000 * b);
  }

  /** Storing a wrapped 64-bit value in 32 bits keeps the same bits as
      storing the unwrapped sum. */
  lemma TruncateWrap(x: nat)
    ensures Truncate32(Wrap64(x)) == Truncate32(x)
  {
    var a := x / 0x1_0000_0000_0000_0000;
    var w := Wrap64(x);
    DivMod(x, 0x1_0000_0000, 0x1_0000_0000 * a + w / 0x1_0000_0000, w % 0x1_0000_0000);
  }

  /** The `AUIPC(_imm, _rd)` macro as the source defines it: the immediate is
      or-ed in place (it is already shifted), with `rd` at bit 7 and opcode
      0x17. The operands are `ptrdiff_t`. */
  function AuipcMacro(imm: nat, rd: nat): nat
  {
    Or(Or(imm, Shl(rd, 7)), 0x17)
  }

  /** The `JALR(_regs, _regd, _imm)` macro: immediate at bit 20, rs1 at bit
      15, rd at bit 7, opcode 0x67, funct3 left zero. */
  function JalrMacro(regs: nat, regd: nat, imm: nat): nat
  {
    Or(Or(Or(Shl(imm, 20), Shl(regs, 15)), Shl(regd, 7)), 0x67)
  }

  /** With an immediate whose low 12 bits are clear, the AUIPC macro's
      fields do not overlap: `|` is `+`. */
  lemma AuipcMacroValue(hi: nat)
    requires hi % 0x1000 == 0
    ensures AuipcMacro(hi, X31) == hi + 0xF97
  {
    Pow2Values();
    var q := hi / 0x1000;
    assert hi == q * 0x1000;
    assert Shl(X31, 7) == 0xF80;
    OrDisjoint(12, hi, q, 0xF80);
    assert hi + 0xF80 == (0x20 * q + 0x1F) * 0x80;
    OrDisjoint(7, hi + 0xF80, 0x20 * q + 0x1F, 0x17);
  }

  /** With a 12-bit immediate, the JALR macro's fields do not overlap. */
  lemma JalrMacroValue(lo: nat)
    requires lo < 0x1000
    ensures JalrMacro(X31, X1, lo) == 0x10_0000 * lo + 0xF_80E7
  {
    assert Pow2(7) == 0x80 && Pow2(15) == 0x8000 && Pow2(20) == 0x10_0000;
    assert Shl(lo, 20) == 0x10_0000 * lo;
    assert Shl(X31, 15) == 0xF_8000 && Shl(X1, 7) == 0x80;
    OrDisjoint(20, 0x10_0000 * lo, lo, 0xF_8000);
    OrDisjoint(15, 0x10_0000 * lo + 0xF_8000, 0x20 * lo + 0x1F, 0x80);
    OrDisjoint(7, 0x10_0000 * lo + 0xF_8080, 0x2000 * lo + 0x1F01, 0x67);
  }

  /** The two instruction words of the patch, in memory order. */
  datatype Trampoline = Trampoline(auipc: U32, jalr: U32)

  /** The patch initialiser: `AUIPC(hi, X31)` and `JALR(X31, X1, lo)`, each
      stored into a 32-bit field. The fields named in the ensures clauses
      cover each word (lemmas `UTypeFields` and `ITypeFields`), so they fix
      both words. */
  function Assemble(hi: U64, lo: U64): (t: Trampoline)
    requires hi % 0x1000 == 0 && lo < 0x1000
    ensures Opcode(t.auipc) == OpAuipc && Rd(t.auipc) == X31
    ensures UpperImm(t.auipc) == Truncate32(hi)
    ensures Opcode(t.jalr) == OpJalr && Rd(t.jalr) == X1 && Funct3(t.jalr) == 0 && Rs1(t.jalr) == X31
    ensures LowerImm(t.jalr) == lo
  {
    AuipcMacroValue(hi);
    JalrMacroValue(lo);
    AuipcFields(hi);
    JalrFields(lo);
    Trampoline(Truncate32(AuipcMacro(hi, X31)), Truncate32(JalrMacro(X31, X1, lo)))
  }

  lemma AuipcFields(hi: U64)
    requires hi % 0x1000 == 0
    ensures Opcode(Truncate32(hi + 0xF97)) == OpAuipc
    ensures Rd(Truncate32(hi + 0xF97)) == X31
    ensures UpperImm(Truncate32(hi + 0xF97)) == Truncate32(hi)
  {
    var u := Truncate32(hi);
    var a := hi / 0x1_0000_0000;
    DivMod(hi, 0x1_0000_0000, a, u);
    DivMod(u, 0x1000, u / 0x1000, 0);
    DivMod(hi + 0xF97, 0x1_0000_0000, a, u + 0xF97);
    UTypeOf(u + 0xF97, u, 0x1F, 0x17);
  }

  lemma JalrFields(lo: nat)
    requires lo < 0x1000
    ensures Opcode(Truncate32(0x10_0000 * lo + 0xF_80E7)) == OpJalr
    ensures Rd(Truncate32(0x10_0000 * lo + 0xF_80E7)) == X1
    ensures Funct3(Truncate32(0x10_0000 * lo + 0xF_80E7)) == 0
    ensures Rs1(Truncate32(0x10_0000 * lo + 0xF_80E7)) == X31
    ensures LowerImm(Truncate32(0x10_0000 * lo + 0xF_80E7)) == lo
  {
    var w := 0x10_0000 * lo + 0xF_80E7;
    DivMod(w, 0x1_0000_0000, 0, w);
    ITypeOf(w, lo, 0x1F, 0, 1, 0x67);
  }

  /** The trampoline `ucm_bistro_patch` builds for a delta. The AUIPC carries
      bits 31..12 of the delta, the JALR bits 11..0, and the JALR's base
      register is the AUIPC's destination, so the pair is one pc-relative
      jump-and-link. */
  function Encode(delta: U64): (t: Trampoline)
    ensures Opcode(t.auipc) == OpAuipc && Rd(t.auipc) == X31
    ensures UpperImm(t.auipc) == Truncate32(delta) - Truncate32(delta) % 0x1000
    ensures Opcode(t.jalr) == OpJalr && Rd(t.jalr) == X1 && Funct3(t.jalr) == 0
    ensures Rs1(t.jalr) == Rd(t.auipc)
    ensures LowerImm(t.jalr) == Truncate32(delta) % 0x1000
  {
    SplitIsLossless(delta);
    StoredSplitIsLossless(delta);
    LowBits(delta);
    LoValue(delta);
    Assemble(Hi(delta), Lo(delta))
  }

  /** The bytes of the patch as they lie in memory: the two words packed,
      little-endian. */
  function Image(t: Trampoline): (b: seq<LittleEndian.Byte>)
    ensures |b| == 8
    ensures LittleEndian.Unpack(b) == [t.auipc, t.jalr]
  {
    LittleEndian.UnpackPack([t.auipc, t.jalr]);
    LittleEndian.Pack([t.auipc, t.jalr])
  }

  /** A delta the pair's 32-bit reach covers: a signed 32-bit value. */
  predicate NearRange(delta: U64)
  {
    -0x8000_0000 <= Signed64(delta) < 0x8000_0000
  }

  /** What the 12-bit fragment costs when bit 11 of the delta is set (its
      low 12 bits are 0x800 or more): the JALR reads it as `lo - 0x1000`. */
  function PageLoss(delta: U64): nat
  {
    if delta % 0x1000 < 0x800 then 0 else 0x1000
  }

  /** The immediates of the encoded pair add up to the sign-extended low 32
      bits of the delta, less `PageLoss`. */
  lemma EncodedOffset(delta: U64)
    ensures ImmU(Encode(delta).auipc) + ImmI(Encode(delta).jalr)
         == Signed32(Truncate32(delta)) - PageLoss(delta)
  {
    var t := Encode(delta);
    LowBits(delta);
    SplitOffset(t.auipc, t.jalr, Truncate32(delta));
  }

  /** A U-immediate holding bits 31..12 of `v` and an I-immediate holding
      bits 11..0 add up to `v` as a signed value, less 0x1000 when bit 11
      is set. */
  lemma SplitOffset(a: U32, j: U32, v: U32)
    requires UpperImm(a) == v - v % 0x1000 && LowerImm(j) == v % 0x1000
    ensures ImmU(a) + ImmI(j) == Signed32(v) - (if v % 0x1000 < 0x800 then 0 else 0x1000)
  {
    var b := v / 0x1000;
    assert v == 0x1000 * b + v % 0x1000;
    assert v < 0x8000_0000 <==> v - v % 0x1000 < 0x8000_0000;
  }

  /** The trampoline's two words run one after the other from `h`. */
  function Run(h: Hart, t: Trampoline): (r: Option<Hart>)
    requires Valid(h)
    ensures r.Some? ==> Valid(r.value)
  {
    RunPair(h, t.auipc, t.jalr)
  }

  /** The shape both encoders give the pair: an AUIPC into X31 and a
      JALR (funct3 0) from X31 that links into X1. */
  predicate CallPair(t: Trampoline)
  {
    && Opcode(t.auipc) == OpAuipc && Rd(t.auipc) == X31
    && Opcode(t.jalr) == OpJalr && Funct3(t.jalr) == 0 && Rd(t.jalr) == X1 && Rs1(t.jalr) == X31
  }

  /** Any such pair whose immediates add up to `off` jumps to `h.pc + off`
      (bit 0 cleared), leaves `h.pc + 8` in X1 and `h.pc + ImmU` in X31,
      and changes no other register. */
  lemma RunCallPair(h: Hart, t: Trampoline, off: int)
    requires Valid(h) && CallPair(t) && ImmU(t.auipc) + ImmI(t.jalr) == off
    ensures Run(h, t).Some?
    ensures Run(h, t).value.pc == ClearLowBit(Wrap64(h.pc + off))
    ensures Read(Run(h, t).value.x, X1) == Wrap64(h.pc + 8)
    ensures Read(Run(h, t).value.x, X31) == Wrap64(h.pc + ImmU(t.auipc))
    ensures forall q :: 0 <= q < 32 && q != X1 && q != X31 ==> Read(Run(h, t).value.x, q) == Read(h.x, q)
  {
    RunAuipcJalr(h, t.auipc, t.jalr);
    var p := RunPair(h, t.auipc, t.jalr).value.pc;
    assert p == ClearLowBit(Wrap64(h.pc + ImmU(t.auipc) + ImmI(t.jalr)));
    SameTarget(h.pc + ImmU(t.auipc) + ImmI(t.jalr), h.pc + off);
    assert p == ClearLowBit(Wrap64(h.pc + off));
  }

  /** Equal sums give the same jump target. */
  lemma SameTarget(x: int, y: int)
    requires x == y
    ensures ClearLowBit(Wrap64(x)) == ClearLowBit(Wrap64(y))
  {
  }

  /** The distance the as-written pair covers: the sign-extended low 32
      bits of the delta, less `PageLoss`. */
  function AsWrittenOffset(delta: U64): int
  {
    Signed32(Truncate32(delta)) - PageLoss(delta)
  }

  /** The trampoline run at `h.pc`, for every delta: it moves the pc by
      `AsWrittenOffset` (bit 0 cleared), leaves `h.pc + 8` in X1 and the
      pc-relative upper part in X31, and no other register changes. */
  lemma TrampolineRuns(h: Hart, delta: U64)
    requires Valid(h)
    ensures Run(h, Encode(delta)).Some?
    ensures Run(h, Encode(delta)).value.pc == ClearLowBit(Wrap64(h.pc + AsWrittenOffset(delta)))
    ensures Read(Run(h, Encode(delta)).value.x, X1) == Wrap64(h.pc + 8)
    ensures Read(Run(h, Encode(delta)).value.x, X31) == Wrap64(h.pc + ImmU(Encode(delta).auipc))
    ensures forall q :: 0 <= q < 32 && q != X1 && q != X31 ==>
      Read(Run(h, Encode(delta)).value.x, q) == Read(h.x, q)
  {
    EncodedOffset(delta);
    RunCallPair(h, Encode(delta), AsWrittenOffset(delta));
  }

  /** Placed at `func_ptr`, an offset that falls `loss` short of the
      delta lands `loss` before the hook. */
  lemma Landing(funcPtr: U64, hook: U64, off: int, loss: int)
    requires off + loss == Signed64(Delta(funcPtr, hook))
    ensures Wrap64(funcPtr + off) == Wrap64(hook - loss)
  {
    var delta := Delta(funcPtr, hook);
    var s := Signed64(delta);
    WrapAdd(delta, s, funcPtr);
    assert Wrap64(s + funcPtr) == hook;
    WrapAdd(hook, s + funcPtr, -loss);
    assert funcPtr + off == s + funcPtr + -loss;
    assert hook - loss == hook + -loss;
  }

  /** A call pair placed at `func_ptr` whose immediates fall `loss` short
      of the delta jumps to `hook - loss` (bit 0 cleared). */
  lemma CallPairLanding(funcPtr: U64, hook: U64, h: Hart, t: Trampoline, loss: int)
    requires Valid(h) && h.pc == funcPtr && CallPair(t)
    requires ImmU(t.auipc) + ImmI(t.jalr) + loss == Signed64(Delta(funcPtr, hook))
    ensures Run(h, t).Some?
    ensures Run(h, t).value.pc == ClearLowBit(Wrap64(hook - loss))
  {
    var off := ImmU(t.auipc) + ImmI(t.jalr);
    RunCallPair(h, t, off);
    var p := Run(h, t).value.pc;
    assert p == ClearLowBit(Wrap64(funcPtr + off));
    Landing(funcPtr, hook, off, loss);
    assert p == ClearLowBit(Wrap64(hook - loss));
  }

  /** Within a signed 32-bit distance, the low 32 bits carry the whole
      delta. */
  lemma NearRangeSigned(delta: U64)
    requires NearRange(delta)
    ensures Signed32(Truncate32(delta)) == Signed64(delta)
  {
  }

  /** Where the as-written trampoline placed at `func_ptr` jumps when the
      hook is within a signed 32-bit distance: to the hook, less 0x1000
      when bit 11 of the delta is set (bit 0 cleared, as JALR does). */
  lemma TrampolineTarget(funcPtr: U64, hook: U64, h: Hart)
    requires Valid(h) && h.pc == funcPtr && NearRange(Delta(funcPtr, hook))
    ensures Run(h, Encode(Delta(funcPtr, hook))).Some?
    ensures Run(h, Encode(Delta(funcPtr, hook))).value.pc
         == ClearLowBit(Wrap64(hook - PageLoss(Delta(funcPtr, hook))))
  {
    var delta := Delta(funcPtr, hook);
    EncodedOffset(delta);
    NearRangeSigned(delta);
    CallPairLanding(funcPtr, hook, h, Encode(delta), PageLoss(delta));
  }

  /** So the as-written trampoline reaches the hook exactly when bit 11 of
      the delta is clear. */
  lemma ReachesHookIff(funcPtr: U64, hook: U64, h: Hart)
    requires Valid(h) && h.pc == funcPtr && NearRange(Delta(funcPtr, hook))
    ensures Run(h, Encode(Delta(funcPtr, hook))).Some?
    ensures Run(h, Encode(Delta(funcPtr, hook))).value.pc == ClearLowBit(hook)
        <==> Delta(funcPtr, hook) % 0x1000 < 0x800
  {
    var delta := Delta(funcPtr, hook);
    var loss := PageLoss(delta);
    assert Run(h, Encode(delta)).Some? && Run(h, Encode(delta)).value.pc == ClearLowBit(Wrap64(hook - loss)) by {
      TrampolineTarget(funcPtr, hook, h);
    }
    assert ClearLowBit(Wrap64(hook - loss)) == ClearLowBit(hook) <==> loss == 0 by {
      LossIff(hook, loss);
    }
  }

  /** Landing `loss` below the hook, for a loss of 0 or 0x1000, is landing
      on it exactly when the loss is 0. */
  lemma LossIff(hook: U64, loss: int)
    requires loss == 0 || loss == 0x1000
    ensures ClearLowBit(Wrap64(hook - loss)) == ClearLowBit(hook) <==> loss == 0
  {
    if loss == 0 {
      assert Wrap64(hook - loss) == hook;
    }
  }

  /** A hook at the patched function itself: delta 0, and the pair jumps
      to itself (bit 0 cleared). */
  lemma JumpToSelf(funcPtr: U64, h: Hart)
    requires Valid(h) && h.pc == funcPtr
    ensures Run(h, Encode(Delta(funcPtr, funcPtr))).Some?
    ensures Run(h, Encode(Delta(funcPtr, funcPtr))).value.pc == ClearLowBit(funcPtr)
  {
    assert Delta(funcPtr, funcPtr) == 0 by {
      WrapInRange(0);
    }
    ReachesHookIff(funcPtr, funcPtr, h);
  }

  /** A hook 0x100000 bytes past the patched function: bits 11..0 of the
      delta are clear, so the pair reaches it. */
  lemma ReachesHookMegabyteAway(funcPtr: U64, h: Hart)
    requires Valid(h) && h.pc == funcPtr && funcPtr < 0x1_0000_0000_0000_0000 - 0x10_0000
    ensures Run(h, Encode(Delta(funcPtr, funcPtr + 0x10_0000))).Some?
    ensures Run(h, Encode(Delta(funcPtr, funcPtr + 0x10_0000))).value.pc == ClearLowBit(funcPtr + 0x10_0000)
  {
    var hook: U64 := funcPtr + 0x10_0000;
    var delta := Delta(funcPtr, hook);
    assert delta == 0x10_0000 by {
      assert hook - funcPtr == 0x10_0000;
      WrapInRange(0x10_0000);
    }
    assert NearRange(delta) && delta % 0x1000 < 0x800;
    ReachesHookIff(funcPtr, hook, h);
  }

  /** A patched function at 0x10000 with its hook at 0x10800: the delta
      0x800 has bit 11 set, and the trampoline jumps to 0xF800 instead. */
  lemma MissesHookAtBit11(h: Hart)
    requires Valid(h) && h.pc == 0x1_0000
    ensures Run(h, Encode(Delta(0x1_0000, 0x1_0800))).Some?
    ensures Run(h, Encode(Delta(0x1_0000, 0x1_0800))).value.pc == 0xF800
    ensures Run(h, Encode(Delta(0x1_0000, 0x1_0800))).value.pc != ClearLowBit(0x1_0800)
  {
    ExampleDelta();
    TrampolineTarget(0x1_0000, 0x1_0800, h);
    ExampleLanding();
  }

  /** The example's delta, and the first page it crosses into. */
  lemma ExampleDelta()
    ensures Delta(0x1_0000, 0x1_0800) == 0x800 && NearRange(0x800) && PageLoss(0x800) == 0x1000
  {
    WrapInRange(0x800);
  }

  /** Where the example lands, and where it should have. */
  lemma ExampleLanding()
    ensures ClearLowBit(Wrap64(0x1_0800 - 0x1000)) == 0xF800
    ensures ClearLowBit(0x1_0800) == 0x1_0800
  {
    assert 0x1_0800 - 0x1000 == 0xF800;
    WrapInRange(0xF800);
    Even(0xF800);
    Even(0x1_0800);
  }

  lemma Even(v: U64)
    requires v % 2 == 0
    ensures ClearLowBit(v) == v
  {
  }

  /** The usual split of a pc-relative call: round `hi` to the nearest
      0x1000 by adding 0x800 first, so that the sign-extended `lo` brings
      the sum back to the delta. */
  function HiRounded(delta: U64): U64
  {
    Hi(Wrap64(delta + 0x800))
  }

  function EncodeRounded(delta: U64): (t: Trampoline)
    ensures Opcode(t.auipc) == OpAuipc && Rd(t.auipc) == X31
    ensures UpperImm(t.auipc) == Truncate32(delta + 0x800) - Truncate32(delta + 0x800) % 0x1000
    ensures Opcode(t.jalr) == OpJalr && Rd(t.jalr) == X1 && Funct3(t.jalr) == 0
    ensures Rs1(t.jalr) == Rd(t.auipc)
    ensures LowerImm(t.jalr) == Truncate32(delta) % 0x1000
  {
    RoundedFragments(delta);
    Assemble(HiRounded(delta), Lo(delta))
  }

  /** The rounded `hi` keeps bits 31..12 of `delta + 0x800` once stored;
      `lo` is unchanged. */
  lemma RoundedFragments(delta: U64)
    ensures HiRounded(delta) % 0x1000 == 0
    ensures Truncate32(HiRounded(delta)) == Truncate32(delta + 0x800) - Truncate32(delta + 0x800) % 0x1000
    ensures Lo(delta) == Truncate32(delta) % 0x1000
  {
    var d := Wrap64(delta + 0x800);
    HiValue(d);
    DivMod(d - d % 0x1000, 0x1000, d / 0x1000, 0);
    LowBits(d);
    TruncateWrap(delta + 0x800);
    LoValue(delta);
    LowBits(delta);
  }

  /** The deltas the rounded pair covers. */
  predicate PairRange(delta: U64)
  {
    -0x8000_0000 - 0x800 <= Signed64(delta) < 0x8000_0000 - 0x800
  }

  /** The rounded pair's immediates add up to the delta itself. */
  lemma RoundedOffset(delta: U64)
    requires PairRange(delta)
    ensures ImmU(EncodeRounded(delta).auipc) + ImmI(EncodeRounded(delta).jalr) == Signed64(delta)
  {
    var t := EncodeRounded(delta);
    SignedLowBits(delta);
    RoundedSplitOffset(t.auipc, t.jalr, Signed64(delta));
  }

  /** The low bits of a 64-bit pattern are those of the signed value it
      stands for. */
  lemma SignedLowBits(delta: U64)
    ensures Truncate32(delta + 0x800) == (Signed64(delta) + 0x800) % 0x1_0000_0000
    ensures Truncate32(delta) % 0x1000 == Signed64(delta) % 0x1000
  {
    var s := Signed64(delta);
    var k := if delta < 0x8000_0000_0000_0000 then 0 else 1;
    assert delta == s + 0x1_0000_0000_0000_0000 * k;
    var c := s + 0x800;
    DivMod(delta + 0x800, 0x1_0000_0000, c / 0x1_0000_0000 + 0x1_0000_0000 * k, c % 0x1_0000_0000);
    DivMod(delta, 0x1000, s / 0x1000 + 0x10_0000_0000_0000 * k, s % 0x1000);
    LowBits(delta);
  }

  /** Rounded to the nearest 0x1000, the upper part and the sign-extended
      low 12 bits add up to any `s` within the pair's reach. */
  lemma RoundedSplitOffset(a: U32, j: U32, s: int)
    requires -0x8000_0000 - 0x800 <= s < 0x8000_0000 - 0x800
    requires UpperImm(a) == (s + 0x800) % 0x1_0000_0000 - ((s + 0x800) % 0x1_0000_0000) % 0x1000
    requires LowerImm(j) == s % 0x1000
    ensures ImmU(a) + ImmI(j) == s
  {
    var c := s + 0x800;
    var w := c % 0x1_0000_0000;
    var b := c / 0x1000;
    assert c == 0x1000 * b + c % 0x1000;
    assert w == (if c < 0 then c + 0x1_0000_0000 else c);
    assert w % 0x1000 == c % 0x1000;
    assert s % 0x1000 == (if c % 0x1000 < 0x800 then c % 0x1000 + 0x800 else c % 0x1000 - 0x800);
  }

  /** With the rounding, the trampoline placed at `func_ptr` jumps to the
      hook (bit 0 cleared) for every delta the pair covers. */
  lemma CorrectedReachesHook(funcPtr: U64, hook: U64, h: Hart)
    requires Valid(h) && h.pc == funcPtr && PairRange(Delta(funcPtr, hook))
    ensures Run(h, EncodeRounded(Delta(funcPtr, hook))).Some?
    ensures Run(h, EncodeRounded(Delta(funcPtr, hook))).value.pc == ClearLowBit(hook)
  {
    var delta := Delta(funcPtr, hook);
    var t := EncodeRounded(delta);
    assert ImmU(t.auipc) + ImmI(t.jalr) + 0 == Signed64(delta) by {
      RoundedOffset(delta);
    }
    assert Run(h, t).Some? && Run(h, t).value.pc == ClearLowBit(Wrap64(hook - 0)) by {
      CallPairLanding(funcPtr, hook, h, t, 0);
    }
    WrapInRange(hook);
  }
}
