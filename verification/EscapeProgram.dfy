/** A program of nine instructions, with their encodings, that runs from reset into the exception of module ScEscape, on
    every core that decodes its instruction forms as emulator/src/cpu/cpu.c does. */
module EscapeProgram {
  import opened Riscv
  import opened Cpu
  import Arith
  import Csr
  import CsrFile
  import Sv39
  import Tlb
  import Hart
  import Memory
  import Bus
  import Patterns
  import Immediates
  import LrSc
  import opened System
  import opened ScEscape

  // ---------------------------------------------------------------- the decoder

  /** The part of cpu_step's switch that the program needs: LUI, ADDI, SLLI, ADD, CSRRW, LR.W and SC.D. */
  function Meaning(s: State, word: nat): Option<Inst>
    requires |s.regs| == 32 && word < Arith.TWO32
  {
    var x := Patterns.FieldsOf(word);
    var imm, a, b := Immediates.DecodeImm(word, x.opcode), s.regs[x.rs1], s.regs[x.rs2];
    if Patterns.Agrees(Patterns.Opcode(0x37), x) then Some(Compute(x.rd, imm))
    else if Patterns.Agrees(Patterns.Funct3(0, 0x13), x) then Some(Compute(x.rd, (a + imm) % MODULUS))
    else if Patterns.Agrees(Patterns.Funct6(0, 1, 0x13), x)
    then Some(Compute(x.rd, a * Arith.Pow2(imm % 64) % MODULUS))
    else if Patterns.Agrees(Patterns.Funct7(0, 0, 0x33), x) then Some(Compute(x.rd, (a + b) % MODULUS))
    else if Patterns.Agrees(Patterns.Funct3(1, 0x73), x)
    then Some(CsrOp(Csr.Rw, word / 0x10_0000, CsrFile.Views(a), x.rd, x.rs1))
    else if Patterns.Agrees(Patterns.LoadReserved(2, 2, 0x2F), x) then Some(LoadReserved(x.rd, a, 4))
    else if Patterns.Agrees(Patterns.Funct5(3, 3, 0x2F), x) then Some(StoreConditional(x.rd, a, 8))
    else None
  }

  /** The core decodes these forms so. */
  ghost predicate Means(core: Core) {
    forall s: State, word: nat :: |s.regs| == 32 && word < Arith.TWO32 && Meaning(s, word).Some? ==>
      core.decode(s, word) == Meaning(s, word).value
  }

  // ---------------------------------------------------------------- the program

  const LENGTH: nat := 9

  function WordAt(k: nat): (word: nat)
    ensures word < Arith.TWO32
  {
    match k
    case 0 => 0x0080_0093 // addi x1, x0, 8
    case 1 => 0x03C0_9093 // slli x1, x1, 60
    case 2 => 0x0008_1137 // lui x2, 0x81
    case 3 => 0x0020_80B3 // add x1, x1, x2
    case 4 => 0x1800_9073 // csrrw x0, satp, x1
    case 5 => 0x0002_01B7 // lui x3, 0x20
    case 6 => 0x3001_9073 // csrrw x0, mstatus, x3
    case 7 => 0x1000_222F // lr.w x4, (x0)
    case _ => 0x1801_B2AF // sc.d x5, x0, (x3)
  }

  const SATP: nat := 0x8000_0000_0008_1000
  const MPRV: nat := 0x2_0000

  /** x1, x2 and x3 before instruction k. */
  datatype Known = Known(x1: nat, x2: nat, x3: nat)

  function KnownAt(k: nat): Known {
    Known(if k == 0 then 0 else if k == 1 then 8 else if k < 4 then 0x8000_0000_0000_0000 else SATP,
          if k < 3 then 0 else 0x8_1000, if k < 6 then 0 else MPRV)
  }

  predicate Knows(s: State, k: nat) {
    |s.regs| == 32 && s.regs[0] == 0 && Known(s.regs[1], s.regs[2], s.regs[3]) == KnownAt(k)
  }

  /** Instruction k with its operand values; the CSR writes take theirs from x1 and x3. */
  function InstAt(s: State, k: nat): Inst
    requires |s.regs| == 32
  {
    match k
    case 0 => Compute(1, 8)
    case 1 => Compute(1, 0x8000_0000_0000_0000)
    case 2 => Compute(2, 0x8_1000)
    case 3 => Compute(1, SATP)
    case 4 => CsrOp(Csr.Rw, 0x180, CsrFile.Views(s.regs[1]), 0, 1)
    case 5 => Compute(3, MPRV)
    case 6 => CsrOp(Csr.Rw, 0x300, CsrFile.Views(s.regs[3]), 0, 3)
    case 7 => LoadReserved(4, 0, 4)
    case _ => StoreConditional(5, MPRV, 8)
  }

  /** The words mean these instructions. */
  lemma MeaningAt(s: State, k: nat, word: nat)
    requires k < LENGTH && word == WordAt(k) && |s.regs| == 32
    requires (k < 8 ==> Knows(s, k)) && (k == 8 ==> s.regs[3] == MPRV)
    ensures Meaning(s, word) == Some(InstAt(s, k))
  {
    FieldsAt(k, word);
    if k == 4 || k == 6 {
      ImmediateAt(k, word);
      CsrForm(s, word, Patterns.FieldsOf(word), word / 0x10_0000);
    } else if k < 7 {
      ComputeMeans(s, k, word);
    }
  }

  /** Their fields. */
  function FieldsFor(k: nat): Patterns.Fields {
    match k
    case 0 => Patterns.Fields(0x13, 1, 0, 0, 8, 0)
    case 1 => Patterns.Fields(0x13, 1, 1, 1, 28, 1)
    case 2 => Patterns.Fields(0x37, 2, 1, 16, 0, 0)
    case 3 => Patterns.Fields(0x33, 1, 0, 1, 2, 0)
    case 4 => Patterns.Fields(0x73, 0, 1, 1, 0, 12)
    case 5 => Patterns.Fields(0x37, 3, 0, 4, 0, 0)
    case 6 => Patterns.Fields(0x73, 0, 1, 3, 0, 24)
    case 7 => Patterns.Fields(0x2F, 4, 2, 0, 0, 8)
    case _ => Patterns.Fields(0x2F, 5, 3, 3, 0, 12)
  }

  lemma FieldsAt(k: nat, word: nat)
    requires k < LENGTH && word == WordAt(k)
    ensures Patterns.FieldsOf(word) == FieldsFor(k)
  {
    Assembled(FieldsFor(k), word);
  }

  /** A word put together from its fields has these fields. */
  lemma Assembled(x: Patterns.Fields, word: nat)
    requires x.opcode < 128 && x.rd < 32 && x.funct3 < 8 && x.rs1 < 32 && x.rs2 < 32
    requires word == x.opcode + 0x80 * x.rd + 0x1000 * x.funct3 + 0x8000 * x.rs1 + 0x10_0000 * x.rs2
                     + 0x200_0000 * x.funct7
    ensures Patterns.FieldsOf(word) == x
  {
    var d := x.rs2 + 32 * x.funct7;
    var c := x.rs1 + 32 * d;
    var b := x.funct3 + 8 * c;
    var rest := x.opcode + 0x80 * x.rd;
    Arith.DivModUnique(word, 0x80, x.rd + 32 * b, x.opcode);
    FieldAt(word, 0x80, x.opcode, 32, x.rd, b);
    FieldAt(word, 0x1000, rest, 8, x.funct3, c);
    FieldAt(word, 0x8000, rest + 0x1000 * x.funct3, 32, x.rs1, d);
    FieldAt(word, 0x10_0000, rest + 0x1000 * x.funct3 + 0x8000 * x.rs1, 32, x.rs2, x.funct7);
    Arith.DivModUnique(word, 0x200_0000, x.funct7,
                       rest + 0x1000 * x.funct3 + 0x8000 * x.rs1 + 0x10_0000 * x.rs2);
  }

  lemma FieldAt(word: nat, p: nat, low: nat, w: nat, value: nat, upper: nat)
    requires low < p && value < w && word == (upper * w + value) * p + low
    ensures word / p % w == value
  {
    Arith.DivModUnique(word, p, upper * w + value, low);
    Arith.DivModUnique(upper * w + value, w, upper, value);
  }

  /** Their immediates and CSR numbers. */
  lemma ImmediateAt(k: nat, word: nat)
    requires k < 7 && word == WordAt(k)
    ensures Immediates.DecodeImm(word, FieldsFor(k).opcode) == [8, 60, 0x8_1000, 0, 1, MPRV, 3][k]
    ensures k == 4 || k == 6 ==> word / 0x10_0000 == if k == 4 then 0x180 else 0x300
  {
  }

  lemma ComputeMeans(s: State, k: nat, word: nat)
    requires k < 7 && k != 4 && k != 6 && word == WordAt(k) && Knows(s, k)
    ensures Meaning(s, word) == Some(InstAt(s, k))
  {
    FieldsAt(k, word);
    ImmediateAt(k, word);
    if k == 1 {
      Pow2Of60();
    }
  }

  lemma Pow2Of60()
    ensures Arith.Pow2(60) == 0x1000_0000_0000_0000
  {
    assert Arith.Pow2(7) == 128 && Arith.Pow2(8) == 256;
    Arith.Pow2Add(8, 7);
    Arith.Pow2Add(15, 15);
    Arith.Pow2Add(30, 30);
  }

  lemma CsrForm(s: State, word: nat, x: Patterns.Fields, addr: nat)
    requires |s.regs| == 32 && word < Arith.TWO32 && Patterns.FieldsOf(word) == x && word / 0x10_0000 == addr
    requires x.opcode == 0x73 && x.funct3 == 1
    ensures x.rs1 < 32
    ensures Meaning(s, word) == Some(CsrOp(Csr.Rw, addr, CsrFile.Views(s.regs[x.rs1]), x.rd, x.rs1))
  {
  }

  // ---------------------------------------------------------------- turns without data accesses

  /** Machine mode with interrupts off and empty TLBs, as after reset. */
  predicate Early(c: Cached)
    requires c.Ok()
  {
    var s := c.hart.cpu;
    && !s.wfi && s.priv == PRIV_M && !s.csr.reg.mstatus.mie && !c.machine.syscon.reboot
    && c.hart.itlb == Tlb.Empty() && c.hart.dtlb == Tlb.Empty()
  }

  /** A computation, or a write of satp or mstatus that brings nothing to rd and leaves interrupts off. */
  predicate Inert(i: Inst) {
    || i.Compute?
    || (i.CsrOp? && i.op.Rw? && i.rd == 0 && i.rs1 != 0 && (i.addr == 0x180 || (i.addr == 0x300 && !i.v.status.mie)))
  }

  /** What it does to the registers, to satp and to mstatus. */
  function RegsAfter(i: Inst, regs: seq<nat>): seq<nat> {
    var r := if i.Compute? && i.rd < |regs| then regs[i.rd := i.result] else regs;
    if |r| > 0 then r[0 := 0] else r
  }

  function SatpAfter(i: Inst, satp: Sv39.Satp): Sv39.Satp {
    if i.CsrOp? && i.addr == 0x180 then Csr.WriteSatp(Csr.Rw, satp, i.v.satp) else satp
  }

  function StatusAfter(i: Inst, m: Csr.Mstatus): Csr.Mstatus {
    if i.CsrOp? && i.addr == 0x300 then Csr.WriteMstatus(Csr.Rw, m, i.v.status) else m
  }

  lemma CsrWritten(f: Csr.File, addr: nat, v: Csr.Written, time: nat)
    requires addr == 0x180 || addr == 0x300
    ensures Csr.Legal(f.reg.(mtime := time), addr, false, true, PRIV_M)
    ensures var r, r' := f.reg, Csr.Access(f, addr, Csr.Rw, v, false, true, time, PRIV_M).reg;
            && r'.satp == (if addr == 0x180 then Csr.WriteSatp(Csr.Rw, r.satp, v.satp) else r.satp)
            && r'.mstatus == (if addr == 0x180 then r.mstatus else Csr.WriteMstatus(Csr.Rw, r.mstatus, v.status))
  {
  }

  lemma InertStep(s: State, e: Env)
    requires Executes(s, e) && Inert(e.inst) && s.priv == PRIV_M && s.pc + 4 < MODULUS
    ensures var s' := Cpu.Step(s, e);
            && !s'.wfi && s'.priv == PRIV_M && s'.pc == s.pc + 4 && s'.regs == RegsAfter(e.inst, s.regs)
            && s'.csr.reg.satp == SatpAfter(e.inst, s.csr.reg.satp)
            && s'.csr.reg.mstatus == StatusAfter(e.inst, s.csr.reg.mstatus)
  {
    var s1 := Begin(s, e).(wfi := false);
    if e.inst.CsrOp? {
      CsrWritten(s1.csr, e.inst.addr, e.inst.v, e.time);
      assert Body(s1, e) == ExecCsr(s1, e);
    } else {
      assert Body(s1, e) == ExecPlain(s1, e);
    }
  }

  lemma EmptyStays(h: Hart.Hart, x: Hart.Around)
    requires h.Shape() && h.itlb == Tlb.Empty() && h.dtlb == Tlb.Empty() && h.cpu.priv == PRIV_M
    requires x.outside.inst.CsrOp? || x.outside.inst.Compute?
    ensures Hart.Step(h, x).itlb == Tlb.Empty() && Hart.Step(h, x).dtlb == Tlb.Empty()
  {
  }

  lemma InertServed(core: Core, c: Cached, i: Inst)
    requires c.Ok() && Early(c) && Brings(core, c, i) && Inert(i)
    ensures var r := Serve(core, c);
            && Executes(c.hart.cpu, r.env) && r.env.inst == i
            && r.machine.ram == c.machine.ram && r.machine.syscon == c.machine.syscon
  {
    ReadyFetches(core, c, i);
    var f := Fetched(core, c);
    AnswersFetch(core, c);
    NothingServed(core, f.machine, c.hart.cpu, Hart.Answers(c.hart, AroundOf(c.machine, f.env)));
  }

  lemma InertHart(core: Core, c: Cached, i: Inst, input: Input)
    requires c.Ok() && Early(c) && Brings(core, c, i) && Inert(i)
    ensures var c', e := Next(core, c, input), Serve(core, c).env;
            && c'.hart == Hart.Hart(Cpu.Step(c.hart.cpu, e), Tlb.Empty(), Tlb.Empty())
            && c'.machine.ram == c.machine.ram && !c'.machine.syscon.reboot
  {
    InertServed(core, c, i);
    ServedAnswers(core, c);
    EmptyStays(c.hart, AroundOf(c.machine, Serve(core, c).env));
  }

  lemma InertNext(core: Core, c: Cached, i: Inst, input: Input)
    requires c.Ok() && Early(c) && Brings(core, c, i) && Inert(i) && c.hart.cpu.pc + 4 < MODULUS
    ensures var c' := Next(core, c, input);
            var s, s' := c.hart.cpu, c'.hart.cpu;
            && Early(c') && s'.pc == s.pc + 4 && s'.regs == RegsAfter(i, s.regs) && c'.machine.ram == c.machine.ram
            && s'.csr.reg.satp == SatpAfter(i, s.csr.reg.satp)
            && s'.csr.reg.mstatus == StatusAfter(i, s.csr.reg.mstatus)
  {
    InertServed(core, c, i);
    InertHart(core, c, i, input);
    InertStep(c.hart.cpu, Serve(core, c).env);
    StatusStays(c.hart.cpu.csr.reg.mstatus, i);
  }

  lemma StatusStays(m: Csr.Mstatus, i: Inst)
    requires Inert(i) && !m.mie
    ensures !StatusAfter(i, m).mie
  {
  }

  // ---------------------------------------------------------------- the run

  const ROOT: nat := 0x8100_0000

  /** RAM holds the program at the reset vector and the page table at its place. */
  ghost predicate HoldsProgram(m: Bus.Machine)
    requires Bus.Ok(m)
  {
    && (forall k :: 0 <= k < LENGTH ==> HoldsWord(m, k))
    && Bus.Phys(m)(ROOT) == Some(LEAF) && 0x100_0008 <= |m.ram| && DRAM + |m.ram| < MODULUS
  }

  predicate HoldsWord(m: Bus.Machine, k: nat)
    requires Bus.Ok(m)
  {
    var bytes := Bus.Read(m, RST_VEC + 4 * k, 4);
    bytes.Some? && Memory.Value(bytes.value) == WordAt(k)
  }

  /** The state before instruction k of the first eight. */
  predicate Stage(c: Cached, m: Bus.Machine, k: nat)
    requires c.Ok()
  {
    var s := c.hart.cpu;
    && Early(c) && c.machine.ram == m.ram && s.pc == RST_VEC + 4 * k && Knows(s, k)
    && s.csr.reg.satp == (if k <= 4 then Sv39.Satp(0, 0, 0) else Sv39.Satp(8, 0, 0x8_1000))
    && (k == 7 ==> s.csr.reg.mstatus.mprv && s.csr.reg.mstatus.Mpp() == PRIV_U)
  }

  lemma SameWord(m: Bus.Machine, m': Bus.Machine, k: nat)
    requires Bus.Ok(m) && Bus.Ok(m') && m'.ram == m.ram && HoldsWord(m, k)
    ensures HoldsWord(m', k)
  {
    SameRead(m, m', RST_VEC + 4 * k);
  }

  lemma StageBrings(core: Core, c: Cached, m: Bus.Machine, k: nat)
    requires c.Ok() && Bus.Ok(m) && HoldsProgram(m) && Means(core) && k < 8 && Stage(c, m, k)
    ensures Brings(core, c, InstAt(c.hart.cpu, k))
  {
    assert HoldsWord(m, k);
    SameWord(m, c.machine, k);
    MeaningAt(c.hart.cpu, k, WordAt(k));
  }

  /** The two values written. */
  lemma SatpValue(v: nat)
    requires v == SATP
    ensures CsrFile.Views(v).satp == Sv39.Satp(8, 0, 0x8_1000)
  {
    SatpFields(v);
    ViewsSatp(v);
  }

  lemma SatpFields(v: nat)
    requires v == SATP
    ensures CsrFile.SatpOf(v) == Sv39.Satp(8, 0, 0x8_1000)
  {
  }

  lemma ViewsSatp(v: nat)
    ensures CsrFile.Views(v).satp == CsrFile.SatpOf(v)
  {
  }

  lemma StatusValue(v: nat)
    requires v == MPRV
    ensures var st := CsrFile.Views(v).status; st.mprv && !st.mppLo && !st.mppHi && !st.mie
  {
    StatusBits(v, Arith.Pow2(3), Arith.Pow2(11), Arith.Pow2(12), Arith.Pow2(17));
  }

  lemma StatusBits(v: nat, p3: nat, p11: nat, p12: nat, p17: nat)
    requires v == MPRV
    requires p3 == Arith.Pow2(3) && p11 == Arith.Pow2(11) && p12 == Arith.Pow2(12) && p17 == Arith.Pow2(17)
    ensures v / p3 % 2 == 0 && v / p11 % 2 == 0 && v / p12 % 2 == 0 && v / p17 % 2 == 1
  {
    assert p3 == 8 && Arith.Pow2(8) == 256 && Arith.Pow2(4) == 16;
    Arith.Pow2Add(8, 3);
    Arith.Pow2Add(8, 4);
    Arith.Pow2Add(12, 5);
  }

  lemma InertAt(s: State, k: nat)
    requires k < 7 && Knows(s, k)
    ensures Inert(InstAt(s, k))
  {
    if k == 6 {
      StatusValue(s.regs[3]);
    }
  }

  lemma KnownNext(s: State, s': State, k: nat)
    requires k < 7 && Knows(s, k) && s'.regs == RegsAfter(InstAt(s, k), s.regs)
    ensures Knows(s', k + 1)
  {
  }

  lemma CsrsNext(s: State, s': State, k: nat)
    requires k < 7 && Knows(s, k) && s'.csr.reg.satp == SatpAfter(InstAt(s, k), s.csr.reg.satp)
    requires k == 6 ==> s'.csr.reg.mstatus == StatusAfter(InstAt(s, k), s.csr.reg.mstatus)
    requires s.csr.reg.satp == if k <= 4 then Sv39.Satp(0, 0, 0) else Sv39.Satp(8, 0, 0x8_1000)
    ensures s'.csr.reg.satp == if k + 1 <= 4 then Sv39.Satp(0, 0, 0) else Sv39.Satp(8, 0, 0x8_1000)
    ensures k + 1 == 7 ==> s'.csr.reg.mstatus.mprv && s'.csr.reg.mstatus.Mpp() == PRIV_U
  {
    if k == 4 {
      SatpLoaded(s, k);
    } else {
      SatpStays(s, k);
      if k == 6 {
        StatusLoaded(s, k);
      }
    }
  }

  lemma SatpLoaded(s: State, k: nat)
    requires k == 4 && Knows(s, k) && s.csr.reg.satp == Sv39.Satp(0, 0, 0)
    ensures SatpAfter(InstAt(s, k), s.csr.reg.satp) == Sv39.Satp(8, 0, 0x8_1000)
  {
    SatpNext(InstAt(s, k), s.regs[1], s.csr.reg.satp);
  }

  lemma StatusLoaded(s: State, k: nat)
    requires k == 6 && Knows(s, k)
    ensures var m := StatusAfter(InstAt(s, k), s.csr.reg.mstatus); m.mprv && m.Mpp() == PRIV_U
  {
    StatusWord(s, k, s.regs[3]);
    StatusNext(InstAt(s, k), s.regs[3], s.csr.reg.mstatus);
  }

  lemma StatusWord(s: State, k: nat, v: nat)
    requires k == 6 && |s.regs| == 32 && v == s.regs[3]
    ensures InstAt(s, k) == CsrOp(Csr.Rw, 0x300, CsrFile.Views(v), 0, 3)
  {
  }

  lemma SatpStays(s: State, k: nat)
    requires k < 7 && k != 4 && Knows(s, k)
    ensures SatpAfter(InstAt(s, k), s.csr.reg.satp) == s.csr.reg.satp
  {
  }

  lemma SatpNext(i: Inst, v: nat, satp: Sv39.Satp)
    requires v == SATP && i == CsrOp(Csr.Rw, 0x180, CsrFile.Views(v), 0, 1) && satp.asid == 0
    ensures SatpAfter(i, satp) == Sv39.Satp(8, 0, 0x8_1000)
  {
    SatpValue(v);
  }

  lemma StatusNext(i: Inst, v: nat, m: Csr.Mstatus)
    requires v == MPRV && i == CsrOp(Csr.Rw, 0x300, CsrFile.Views(v), 0, 3)
    ensures StatusAfter(i, m).mprv && StatusAfter(i, m).Mpp() == PRIV_U
  {
    StatusValue(v);
  }

  lemma StageNext(core: Core, c: Cached, m: Bus.Machine, k: nat, i: Input)
    requires c.Ok() && Bus.Ok(m) && HoldsProgram(m) && Means(core) && k < 7 && Stage(c, m, k)
    ensures Stage(Next(core, c, i), m, k + 1)
  {
    StageBrings(core, c, m, k);
    InertAt(c.hart.cpu, k);
    InertNext(core, c, InstAt(c.hart.cpu, k), i);
    KnownNext(c.hart.cpu, Next(core, c, i).hart.cpu, k);
    CsrsNext(c.hart.cpu, Next(core, c, i).hart.cpu, k);
  }

  lemma StageLast(core: Core, m: Bus.Machine, before: seq<Input>, i: Input)
    requires Bus.Ok(m) && HoldsProgram(m) && Means(core) && |before| < 7 && Stage(Run(core, m, before), m, |before|)
    ensures Stage(Run(core, m, before + [i]), m, |before| + 1)
  {
    RunLast(core, m, before, i);
    StageNext(core, Run(core, m, before), m, |before|, i);
  }

  lemma StageZero(core: Core, m: Bus.Machine)
    requires Bus.Ok(m) && !m.syscon.reboot
    ensures Stage(Run(core, m, []), m, 0)
  {
  }

  lemma {:induction false} StageRun(core: Core, m: Bus.Machine, inputs: seq<Input>)
    requires Bus.Ok(m) && !m.syscon.reboot && HoldsProgram(m) && Means(core) && |inputs| <= 7
    ensures Stage(Run(core, m, inputs), m, |inputs|)
  {
    if inputs == [] {
      StageZero(core, m);
    } else {
      var before, last := inputs[..|inputs| - 1], inputs[|inputs| - 1];
      assert inputs == before + [last];
      StageRun(core, m, before);
      StageLast(core, m, before, last);
    }
  }

  /** After seven instructions the system is poised for the last two. */
  lemma StageIsPoised(core: Core, c: Cached, m: Bus.Machine)
    requires c.Ok() && Bus.Ok(m) && HoldsProgram(m) && Means(core) && Stage(c, m, 7)
    ensures Poised(core, c, ROOT, 4, 5, MPRV) && Hart.Coherent(c.hart, Bus.Phys(c.machine))
  {
    StageIsReady(c, m);
    LrBrings(core, c, m);
    ScFollows(core, c, m);
    EmptyIsCoherent(c.hart, Bus.Phys(c.machine));
    InPlace(core, c);
  }

  lemma InPlace(core: Core, c: Cached)
    requires c.Ok() && Ready(c, ROOT) && c.hart.cpu.pc == RST_VEC + 28
    requires Brings(core, c, LoadReserved(4, 0, 4)) && Follows(core, c, 4, StoreConditional(5, MPRV, 8))
    requires 0x100_0008 <= |c.machine.ram| && DRAM + |c.machine.ram| < MODULUS
    ensures Poised(core, c, ROOT, 4, 5, MPRV)
  {
  }

  lemma LrBrings(core: Core, c: Cached, m: Bus.Machine)
    requires c.Ok() && Bus.Ok(m) && HoldsProgram(m) && Means(core) && Stage(c, m, 7)
    ensures Brings(core, c, LoadReserved(4, 0, 4))
  {
    StageBrings(core, c, m, 7);
  }

  lemma StageIsReady(c: Cached, m: Bus.Machine)
    requires c.Ok() && Bus.Ok(m) && HoldsProgram(m) && Stage(c, m, 7)
    ensures Ready(c, ROOT)
  {
    SameRead(m, c.machine, ROOT);
  }

  lemma EmptyIsCoherent(h: Hart.Hart, mem: PhysMem)
    requires h.itlb == Tlb.Empty() && h.dtlb == Tlb.Empty()
    ensures h.Shape() && Hart.Coherent(h, mem)
  {
  }

  lemma ScFollows(core: Core, c: Cached, m: Bus.Machine)
    requires c.Ok() && Bus.Ok(m) && HoldsProgram(m) && Means(core) && Stage(c, m, 7)
    ensures Follows(core, c, 4, StoreConditional(5, MPRV, 8))
  {
    assert HoldsWord(m, 8);
    SameWord(m, c.machine, 8);
    forall s: State | s.pc == RST_VEC + 32 && Kept(s.regs, c.hart.cpu.regs, 4)
      ensures core.decode(s, WordAt(8)) == StoreConditional(5, MPRV, 8)
    {
      MeaningAt(s, 8, WordAt(8));
    }
  }

  /** The run: on any such core, from any machine whose RAM holds the program, and with any activity of the devices, the
      ninth turn completes SC.D of 0x20000 under the reservation that LR.W of address 0 has left. */
  lemma EscapeFromReset(core: Core, m: Bus.Machine, inputs: seq<Input>, i: Input)
    requires Bus.Ok(m) && !m.syscon.reboot && HoldsProgram(m) && Means(core) && |inputs| == 7
    ensures var c := Run(core, m, inputs + [i]);
            && LrSc.ScDone(c.hart.cpu, Serve(core, c).env) && Serve(core, c).env.inst == StoreConditional(5, MPRV, 8)
            && LrSc.Count(Trace(core, m, inputs + [i])).latest == Some((0, 4))
            && !LrSc.Inside(MPRV, 8, 0, 4)
  {
    StageRun(core, m, inputs);
    StageIsPoised(core, Run(core, m, inputs), m);
    ScEscapesAtZero(core, m, inputs, i, ROOT, 4, 5, MPRV);
  }

  // ---------------------------------------------------------------- such cores and machines exist

  function SampleCore(): Core {
    Core(SampleDecode, (s, word, time, loaded) => loaded, (s, word, loaded) => 0)
  }

  function SampleDecode(s: State, word: nat): Inst {
    if |s.regs| == 32 && word < Arith.TWO32 && Meaning(s, word).Some? then Meaning(s, word).value else Illegal
  }

  /** RAM with the program at its start and the page table 16 MiB on. */
  function Image(): (ram: seq<Byte>)
    ensures |ram| == 0x100_0008
  {
    seq(0x100_0008, i requires 0 <= i < 0x100_0008 => ImageAt(i))
  }

  function ImageAt(i: nat): Byte {
    if i < 4 * LENGTH then Memory.ByteOf(WordAt(i / 4), i % 4)
    else if i >= 0x100_0000 then Memory.ByteOf(LEAF, i - 0x100_0000) else 0
  }

  lemma RamSlice(m: Bus.Machine, offset: nat, size: nat)
    requires Bus.Ok(m) && offset + size <= |m.ram|
    requires (size == 4 && offset % 4 == 0) || (size == 8 && offset % 8 == 0)
    ensures Bus.Read(m, DRAM + offset, size) == Some(m.ram[offset..offset + size])
  {
    Bus.ReadExact(m, DRAM + offset, size);
    BytesAt(m.ram, offset, size);
  }

  lemma BytesAt(ram: seq<Byte>, offset: nat, size: nat)
    requires offset + size <= |ram|
    requires (size == 4 && offset % 4 == 0) || (size == 8 && offset % 8 == 0)
    ensures Memory.ReadBytes(ram, DRAM, DRAM + offset, size) == Some(ram[offset..offset + size])
  {
  }

  /** The bytes of the image at the offset are those of v. */
  ghost predicate Spells(offset: nat, size: nat, v: nat) {
    forall j: nat :: j < size ==> ImageAt(offset + j) == Memory.ByteOf(v, j)
  }

  lemma ImageSlice(ram: seq<Byte>, offset: nat, size: nat, v: nat)
    requires ram == Image() && offset + size <= |ram| && v < Arith.Pow2(8 * size) && Spells(offset, size, v)
    ensures Memory.Value(ram[offset..offset + size]) == v
  {
    var bytes := ram[offset..offset + size];
    forall j | 0 <= j < size
      ensures bytes[j] == Memory.Encode(v, size)[j]
    {
      assert ram[offset + j] == ImageAt(offset + j);
      Memory.EncodeAt(v, size, j);
    }
    assert bytes == Memory.Encode(v, size);
    Memory.ValueOfEncode(v, size);
  }

  lemma ImageSpells(k: nat, word: nat)
    requires k < LENGTH && word == WordAt(k)
    ensures Spells(4 * k, 4, word)
  {
    forall j: nat | j < 4
      ensures ImageAt(4 * k + j) == Memory.ByteOf(word, j)
    {
      assert (4 * k + j) / 4 == k && (4 * k + j) % 4 == j;
    }
  }

  lemma ImageWord(m: Bus.Machine, offset: nat, size: nat, v: nat)
    requires Bus.Ok(m) && m.ram == Image() && offset + size <= |m.ram| && Spells(offset, size, v)
    requires (size == 4 && offset % 4 == 0 && v < Arith.TWO32) || (size == 8 && offset % 8 == 0 && v < MODULUS)
    ensures var bytes := Bus.Read(m, DRAM + offset, size); bytes.Some? && Memory.Value(bytes.value) == v
  {
    RamSlice(m, offset, size);
    Bounds(size, 8 * size);
    ImageSlice(m.ram, offset, size, v);
  }

  lemma Bounds(size: nat, width: nat)
    requires (size == 4 || size == 8) && width == 8 * size
    ensures Arith.Pow2(width) == if size == 4 then Arith.TWO32 else MODULUS
  {
    Arith.Pow2Values();
  }

  lemma ImageHolds(m: Bus.Machine)
    requires Bus.Ok(m) && m.ram == Image()
    ensures HoldsProgram(m)
  {
    forall k | 0 <= k < LENGTH
      ensures HoldsWord(m, k)
    {
      ImageSpells(k, WordAt(k));
      ImageWord(m, 4 * k, 4, WordAt(k));
    }
    ImageWord(m, 0x100_0000, 8, LEAF);
  }

  /** The sample core takes the program there from every machine with this RAM. */
  lemma EscapeHappens(m: Bus.Machine, inputs: seq<Input>, i: Input)
    requires Bus.Ok(m) && !m.syscon.reboot && m.ram == Image() && |inputs| == 7
    ensures var c := Run(SampleCore(), m, inputs + [i]); LrSc.ScDone(c.hart.cpu, Serve(SampleCore(), c).env)
    ensures LrSc.Count(Trace(SampleCore(), m, inputs + [i])).latest == Some((0, 4))
  {
    ImageHolds(m);
    EscapeFromReset(SampleCore(), m, inputs, i);
  }
}
