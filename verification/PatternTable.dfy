/** INST_PATTERN of emulator/scripts/generate_inst_patterns.py, what its 98 patterns accept, and the tests of cpu_step.
    A pattern is put together from the pieces that vary and those that are common to its shape. */
module PatternTable {
  import opened Riscv
  import opened Patterns
  import Arith

  // ---------------------------------------------------------------- the shapes

  function P3(f3: string, op: string): string {
    "????_????_????_????_?" + f3 + "_????_?" + op
  }

  function P5(f5: string, f3: string, op: string): string {
    f5 + "???_????_????_?" + f3 + "_????_?" + op
  }

  function P6(f6: string, f3: string, op: string): string {
    f6 + "??_????_????_?" + f3 + "_????_?" + op
  }

  function P7(f7: string, f3: string, op: string): string {
    f7 + "?_????_????_?" + f3 + "_????_?" + op
  }

  function PU(op: string): string {
    "????_????_????_????_????_????_?" + op
  }

  function PL(f5: string, f3: string, op: string): string {
    f5 + "??0_0000_????_?" + f3 + "_????_?" + op
  }

  function PF(f7: string, op: string): string {
    f7 + "?_????_????_?000_0000_0" + op
  }

  function PX(f7: string, rs2: string, op: string): string {
    f7 + rs2 + "_0000_0000_0000_0" + op
  }

  // ---------------------------------------------------------------- the entries

  /** The pattern the script has for a format, if it has one. */
  function Script(f: Format): Option<string> {
    match f
    case Opcode(op) => ScriptPU(op)
    case Funct3(f3, op) => ScriptP3(f3, op)
    case Funct5(f5, f3, op) => ScriptP5(f5, f3, op)
    case Funct6(f6, f3, op) => ScriptP6(f6, f3, op)
    case Funct7(f7, f3, op) => ScriptP7(f7, f3, op)
    case LoadReserved(f5, f3, op) => ScriptPL(f5, f3, op)
    case SFence(f7, op) => ScriptPF(f7, op)
    case Exact(f7, rs2, op) => ScriptPX(f7, rs2, op)
  }

  function ScriptPU(op: nat): Option<string> {
    match op
    case 0x37 => Some(PU("011_0111")) // LUI
    case 0x17 => Some(PU("001_0111")) // AUIPC
    case 0x6F => Some(PU("110_1111")) // JAL
    case _ => None
  }

  function ScriptP3(f3: nat, op: nat): Option<string> {
    match (f3, op)
    case (0, 0x13) => Some(P3("000", "001_0011")) // ADDI
    case (2, 0x13) => Some(P3("010", "001_0011")) // SLTI
    case (3, 0x13) => Some(P3("011", "001_0011")) // SLTIU
    case (4, 0x13) => Some(P3("100", "001_0011")) // XORI
    case (6, 0x13) => Some(P3("110", "001_0011")) // ORI
    case (7, 0x13) => Some(P3("111", "001_0011")) // ANDI
    case (0, 0x1B) => Some(P3("000", "001_1011")) // ADDIW
    case (0, 0x03) => Some(P3("000", "000_0011")) // LB
    case (1, 0x03) => Some(P3("001", "000_0011")) // LH
    case (2, 0x03) => Some(P3("010", "000_0011")) // LW
    case (4, 0x03) => Some(P3("100", "000_0011")) // LBU
    case (5, 0x03) => Some(P3("101", "000_0011")) // LHU
    case (6, 0x03) => Some(P3("110", "000_0011")) // LWU
    case (3, 0x03) => Some(P3("011", "000_0011")) // LD
    case (0, 0x23) => Some(P3("000", "010_0011")) // SB
    case (1, 0x23) => Some(P3("001", "010_0011")) // SH
    case (2, 0x23) => Some(P3("010", "010_0011")) // SW
    case (3, 0x23) => Some(P3("011", "010_0011")) // SD
    case (0, 0x67) => Some(P3("000", "110_0111")) // JALR
    case (0, 0x63) => Some(P3("000", "110_0011")) // BEQ
    case (1, 0x63) => Some(P3("001", "110_0011")) // BNE
    case (4, 0x63) => Some(P3("100", "110_0011")) // BLT
    case (5, 0x63) => Some(P3("101", "110_0011")) // BGE
    case (6, 0x63) => Some(P3("110", "110_0011")) // BLTU
    case (7, 0x63) => Some(P3("111", "110_0011")) // BGEU
    case (0, 0x0F) => Some(P3("000", "000_1111")) // FENCE
    case (1, 0x0F) => Some(P3("001", "000_1111")) // FENCEI
    case (1, 0x73) => Some(P3("001", "111_0011")) // CSRRW
    case (2, 0x73) => Some(P3("010", "111_0011")) // CSRRS
    case (3, 0x73) => Some(P3("011", "111_0011")) // CSRRC
    case (5, 0x73) => Some(P3("101", "111_0011")) // CSRRWI
    case (6, 0x73) => Some(P3("110", "111_0011")) // CSRRSI
    case (7, 0x73) => Some(P3("111", "111_0011")) // CSRRCI
    case _ => None
  }

  function ScriptP5(f5: nat, f3: nat, op: nat): Option<string> {
    match (f5, f3, op)
    case (0x03, 2, 0x2F) => Some(P5("0001_1", "010", "010_1111")) // SC_W
    case (0x01, 2, 0x2F) => Some(P5("0000_1", "010", "010_1111")) // AMOSWAP_W
    case (0x00, 2, 0x2F) => Some(P5("0000_0", "010", "010_1111")) // AMOADD_W
    case (0x04, 2, 0x2F) => Some(P5("0010_0", "010", "010_1111")) // AMOXOR_W
    case (0x0C, 2, 0x2F) => Some(P5("0110_0", "010", "010_1111")) // AMOAND_W
    case (0x08, 2, 0x2F) => Some(P5("0100_0", "010", "010_1111")) // AMOOR_W
    case (0x10, 2, 0x2F) => Some(P5("1000_0", "010", "010_1111")) // AMOMIN_W
    case (0x14, 2, 0x2F) => Some(P5("1010_0", "010", "010_1111")) // AMOMAX_W
    case (0x18, 2, 0x2F) => Some(P5("1100_0", "010", "010_1111")) // AMOMINU_W
    case (0x1C, 2, 0x2F) => Some(P5("1110_0", "010", "010_1111")) // AMOMAXU_W
    case (0x03, 3, 0x2F) => Some(P5("0001_1", "011", "010_1111")) // SC_D
    case (0x01, 3, 0x2F) => Some(P5("0000_1", "011", "010_1111")) // AMOSWAP_D
    case (0x00, 3, 0x2F) => Some(P5("0000_0", "011", "010_1111")) // AMOADD_D
    case (0x04, 3, 0x2F) => Some(P5("0010_0", "011", "010_1111")) // AMOXOR_D
    case (0x0C, 3, 0x2F) => Some(P5("0110_0", "011", "010_1111")) // AMOAND_D
    case (0x08, 3, 0x2F) => Some(P5("0100_0", "011", "010_1111")) // AMOOR_D
    case (0x10, 3, 0x2F) => Some(P5("1000_0", "011", "010_1111")) // AMOMIN_D
    case (0x14, 3, 0x2F) => Some(P5("1010_0", "011", "010_1111")) // AMOMAX_D
    case (0x18, 3, 0x2F) => Some(P5("1100_0", "011", "010_1111")) // AMOMINU_D
    case (0x1C, 3, 0x2F) => Some(P5("1110_0", "011", "010_1111")) // AMOMAXU_D
    case _ => None
  }

  function ScriptP6(f6: nat, f3: nat, op: nat): Option<string> {
    match (f6, f3, op)
    case (0x0, 1, 0x13) => Some(P6("0000_00", "001", "001_0011")) // SLLI
    case (0x0, 5, 0x13) => Some(P6("0000_00", "101", "001_0011")) // SRLI
    case (0x10, 5, 0x13) => Some(P6("0100_00", "101", "001_0011")) // SRAI
    case _ => None
  }

  function ScriptP7(f7: nat, f3: nat, op: nat): Option<string> {
    match (f7, f3, op)
    case (0x00, 1, 0x1B) => Some(P7("0000_000", "001", "001_1011")) // SLLIW
    case (0x00, 5, 0x1B) => Some(P7("0000_000", "101", "001_1011")) // SRLIW
    case (0x20, 5, 0x1B) => Some(P7("0100_000", "101", "001_1011")) // SRAIW
    case (0x00, 0, 0x33) => Some(P7("0000_000", "000", "011_0011")) // ADD
    case (0x20, 0, 0x33) => Some(P7("0100_000", "000", "011_0011")) // SUB
    case (0x00, 1, 0x33) => Some(P7("0000_000", "001", "011_0011")) // SLL
    case (0x00, 2, 0x33) => Some(P7("0000_000", "010", "011_0011")) // SLT
    case (0x00, 3, 0x33) => Some(P7("0000_000", "011", "011_0011")) // SLTU
    case (0x00, 4, 0x33) => Some(P7("0000_000", "100", "011_0011")) // XOR
    case (0x00, 5, 0x33) => Some(P7("0000_000", "101", "011_0011")) // SRL
    case (0x20, 5, 0x33) => Some(P7("0100_000", "101", "011_0011")) // SRA
    case (0x00, 6, 0x33) => Some(P7("0000_000", "110", "011_0011")) // OR
    case (0x00, 7, 0x33) => Some(P7("0000_000", "111", "011_0011")) // AND
    case (0x00, 0, 0x3B) => Some(P7("0000_000", "000", "011_1011")) // ADDW
    case (0x20, 0, 0x3B) => Some(P7("0100_000", "000", "011_1011")) // SUBW
    case (0x00, 1, 0x3B) => Some(P7("0000_000", "001", "011_1011")) // SLLW
    case (0x00, 5, 0x3B) => Some(P7("0000_000", "101", "011_1011")) // SRLW
    case (0x20, 5, 0x3B) => Some(P7("0100_000", "101", "011_1011")) // SRAW
    case (0x01, 0, 0x33) => Some(P7("0000_001", "000", "011_0011")) // MUL
    case (0x01, 1, 0x33) => Some(P7("0000_001", "001", "011_0011")) // MULH
    case (0x01, 2, 0x33) => Some(P7("0000_001", "010", "011_0011")) // MULHSU
    case (0x01, 3, 0x33) => Some(P7("0000_001", "011", "011_0011")) // MULHU
    case (0x01, 4, 0x33) => Some(P7("0000_001", "100", "011_0011")) // DIV
    case (0x01, 5, 0x33) => Some(P7("0000_001", "101", "011_0011")) // DIVU
    case (0x01, 6, 0x33) => Some(P7("0000_001", "110", "011_0011")) // REM
    case (0x01, 7, 0x33) => Some(P7("0000_001", "111", "011_0011")) // REMU
    case (0x01, 0, 0x3B) => Some(P7("0000_001", "000", "011_1011")) // MULW
    case (0x01, 4, 0x3B) => Some(P7("0000_001", "100", "011_1011")) // DIVW
    case (0x01, 5, 0x3B) => Some(P7("0000_001", "101", "011_1011")) // DIVUW
    case (0x01, 6, 0x3B) => Some(P7("0000_001", "110", "011_1011")) // REMW
    case (0x01, 7, 0x3B) => Some(P7("0000_001", "111", "011_1011")) // REMUW
    case _ => None
  }

  function ScriptPL(f5: nat, f3: nat, op: nat): Option<string> {
    match (f5, f3, op)
    case (0x02, 2, 0x2F) => Some(PL("0001_0", "010", "010_1111")) // LR_W
    case (0x02, 3, 0x2F) => Some(PL("0001_0", "011", "010_1111")) // LR_D
    case _ => None
  }

  function ScriptPF(f7: nat, op: nat): Option<string> {
    match (f7, op)
    case (0x09, 0x73) => Some(PF("0001_001", "111_0011")) // SFENCE_VMA
    case _ => None
  }

  function ScriptPX(f7: nat, rs2: nat, op: nat): Option<string> {
    match (f7, rs2, op)
    case (0x00, 0, 0x73) => Some(PX("0000_000", "0_0000", "111_0011")) // ECALL
    case (0x00, 1, 0x73) => Some(PX("0000_000", "0_0001", "111_0011")) // EBREAK
    case (0x08, 2, 0x73) => Some(PX("0001_000", "0_0010", "111_0011")) // SRET
    case (0x18, 2, 0x73) => Some(PX("0011_000", "0_0010", "111_0011")) // MRET
    case (0x08, 5, 0x73) => Some(PX("0001_000", "0_0101", "111_0011")) // WFI
    case _ => None
  }

  /** The 98 entries, by the fields their patterns fix. */
  predicate InTable(f: Format) {
    match f
    case Opcode(op) => op == 0x37 || op == 0x17 || op == 0x6F // LUI, AUIPC, JAL
    case Funct3(f3, op) =>
      || (op == 0x67 && f3 == 0) // JALR
      || (op == 0x63 && f3 < 8 && f3 != 2 && f3 != 3) // branches
      || (op == 0x03 && f3 < 7) || (op == 0x23 && f3 < 4) // loads, stores
      || (op == 0x13 && f3 < 8 && f3 != 1 && f3 != 5) || (op == 0x1B && f3 == 0) // ADDI .. ANDI, ADDIW
      || (op == 0x0F && f3 < 2) // FENCE, FENCE.I
      || (op == 0x73 && 0 < f3 < 8 && f3 != 4) // CSRRW .. CSRRCI
    case Funct6(f6, f3, op) => // SLLI, SRLI, SRAI
      op == 0x13 && ((f6 == 0 && (f3 == 1 || f3 == 5)) || (f6 == 0x10 && f3 == 5))
    case Funct7(f7, f3, op) =>
      || (op == 0x1B && ((f7 == 0 && (f3 == 1 || f3 == 5)) || (f7 == 0x20 && f3 == 5))) // SLLIW, SRLIW, SRAIW
      || (op == 0x33 && f3 < 8 && (f7 == 0 || f7 == 1)) // ADD .. AND, MUL .. REMU
      || (op == 0x33 && f7 == 0x20 && (f3 == 0 || f3 == 5)) // SUB, SRA
      || (op == 0x3B && f3 < 8 && f7 == 0 && (f3 == 0 || f3 == 1 || f3 == 5)) // ADDW, SLLW, SRLW
      || (op == 0x3B && f3 < 8 && f7 == 0x20 && (f3 == 0 || f3 == 5)) // SUBW, SRAW
      || (op == 0x3B && f3 < 8 && f7 == 1 && (f3 == 0 || f3 >= 4)) // MULW, DIVW .. REMUW
    case LoadReserved(f5, f3, op) => op == 0x2F && (f3 == 2 || f3 == 3) && f5 == 2 // LR
    case Funct5(f5, f3, op) => // SC, AMOSWAP, and AMOADD .. AMOMAXU
      op == 0x2F && (f3 == 2 || f3 == 3) && (f5 == 3 || f5 == 1 || (f5 % 4 == 0 && f5 < 32))
    case SFence(f7, op) => op == 0x73 && f7 == 9
    case Exact(f7, rs2, op) => // ECALL, EBREAK, SRET, MRET, WFI
      op == 0x73 && ((f7 == 0 && rs2 < 2) || (f7 == 8 && (rs2 == 2 || rs2 == 5)) || (f7 == 0x18 && rs2 == 2))
  }

  // ---------------------------------------------------------------- the pieces

  function Three(v: nat): string {
    match v
    case 0x00 => "000"
    case 0x01 => "001"
    case 0x02 => "010"
    case 0x03 => "011"
    case 0x04 => "100"
    case 0x05 => "101"
    case 0x06 => "110"
    case _ => "111"
  }

  function Op7(v: nat): string {
    match v
    case 0x03 => "000_0011"
    case 0x0F => "000_1111"
    case 0x13 => "001_0011"
    case 0x17 => "001_0111"
    case 0x1B => "001_1011"
    case 0x23 => "010_0011"
    case 0x2F => "010_1111"
    case 0x33 => "011_0011"
    case 0x37 => "011_0111"
    case 0x3B => "011_1011"
    case 0x63 => "110_0011"
    case 0x67 => "110_0111"
    case 0x6F => "110_1111"
    case _ => "111_0011"
  }

  function Seven(v: nat): string {
    match v
    case 0x00 => "0000_000"
    case 0x01 => "0000_001"
    case 0x08 => "0001_000"
    case 0x09 => "0001_001"
    case 0x18 => "0011_000"
    case _ => "0100_000"
  }

  function Six(v: nat): string {
    match v
    case 0x00 => "0000_00"
    case _ => "0100_00"
  }

  function Five(v: nat): string {
    match v
    case 0x00 => "0000_0"
    case 0x01 => "0000_1"
    case 0x02 => "0001_0"
    case 0x03 => "0001_1"
    case 0x04 => "0010_0"
    case 0x08 => "0100_0"
    case 0x0C => "0110_0"
    case 0x10 => "1000_0"
    case 0x14 => "1010_0"
    case 0x18 => "1100_0"
    case _ => "1110_0"
  }

  function Rs2(v: nat): string {
    match v
    case 0 => "0_0000"
    case 1 => "0_0001"
    case 2 => "0_0010"
    case _ => "0_0101"
  }

  /** The pattern of a format in the script's own spelling. */
  function Written(f: Format): string {
    match f
    case Opcode(op) => PU(Op7(op))
    case Funct3(f3, op) => P3(Three(f3), Op7(op))
    case Funct5(f5, f3, op) => P5(Five(f5), Three(f3), Op7(op))
    case Funct6(f6, f3, op) => P6(Six(f6), Three(f3), Op7(op))
    case Funct7(f7, f3, op) => P7(Seven(f7), Three(f3), Op7(op))
    case LoadReserved(f5, f3, op) => PL(Five(f5), Three(f3), Op7(op))
    case SFence(f7, op) => PF(Seven(f7), Op7(op))
    case Exact(f7, rs2, op) => PX(Seven(f7), Rs2(rs2), Op7(op))
  }

  // ---------------------------------------------------------------- what the pieces mean

  /** The number of bits a piece stands for, and the number spelt by its digits. */
  function Width(q: string): nat {
    if q == "" then 0 else Width(q[..|q| - 1]) + if Separator(q[|q| - 1]) then 0 else 1
  }

  function Spelt(q: string): nat {
    if q == "" then 0
    else
      var before, c := Spelt(q[..|q| - 1]), q[|q| - 1];
      if Separator(c) then before else 2 * before + if c == '1' then 1 else 0
  }

  predicate Digital(q: string) {
    forall k :: 0 <= k < |q| ==> q[k] == '0' || q[k] == '1' || q[k] == '_'
  }

  predicate Open(q: string) {
    forall k :: 0 <= k < |q| ==> q[k] == '?' || q[k] == '_'
  }

  ghost predicate Gives(q: string, value: nat, width: nat) {
    Digital(q) && Spelt(q) == value && Width(q) == width
  }

  ghost predicate Skips(q: string, width: nat) {
    Open(q) && Width(q) == width
  }

  /** A pattern can be parsed, and matches the instructions that a layout fits. */
  ghost predicate Same(p: string, l: Layout) {
    && (forall k :: 0 <= k < |p| ==> Known(p[k]))
    && (forall x: nat :: Matches(p, x) <==> Fits(l, x))
  }

  lemma MatchesTail(p: string, q: string, x: nat)
    requires q != ""
    ensures var (r, c) := (q[..|q| - 1], q[|q| - 1]);
            Matches(p + q, x) <==>
              if Separator(c) then Matches(p + r, x)
              else (c != '?' ==> (x % 2 == 1 <==> c == '1')) && Matches(p + r, x / 2)
  {
    var t := p + q;
    assert t[..|t| - 1] == p + q[..|q| - 1];
    if Separator(q[|q| - 1]) {
      MatchesSeparator(t, x);
    } else {
      MatchesLast(t, x);
    }
  }

  lemma {:induction false} TailGives(p: string, q: string, x: nat)
    requires Digital(q)
    ensures Matches(p + q, x) <==> Lower(x, Width(q)) == Spelt(q) && Matches(p, Upper(x, Width(q)))
  {
    if q == "" {
      assert p + q == p;
    } else {
      var r := q[..|q| - 1];
      MatchesTail(p, q, x);
      if Separator(q[|q| - 1]) {
        TailGives(p, r, x);
      } else {
        TailGives(p, r, x / 2);
        SliceStep(x, Width(q));
      }
    }
  }

  lemma {:induction false} TailSkips(p: string, q: string, x: nat)
    requires Open(q)
    ensures Matches(p + q, x) <==> Matches(p, Upper(x, Width(q)))
  {
    if q == "" {
      assert p + q == p;
    } else {
      var r := q[..|q| - 1];
      MatchesTail(p, q, x);
      if Separator(q[|q| - 1]) {
        TailSkips(p, r, x);
      } else {
        TailSkips(p, r, x / 2);
        SliceStep(x, Width(q));
      }
    }
  }

  lemma Given(p: string, l: Layout, q: string, value: nat, width: nat)
    requires Same(p, l) && Gives(q, value, width)
    ensures Same(p + q, Fixed(l, value, width))
  {
    forall x: nat
      ensures Matches(p + q, x) <==> Fits(Fixed(l, value, width), x)
    {
      TailGives(p, q, x);
    }
  }

  lemma Skipped(p: string, l: Layout, q: string, width: nat)
    requires Same(p, l) && Skips(q, width)
    ensures Same(p + q, Free(l, width))
  {
    forall x: nat
      ensures Matches(p + q, x) <==> Fits(Free(l, width), x)
    {
      TailSkips(p, q, x);
    }
  }

  // ---------------------------------------------------------------- the pieces in numbers

  lemma {:induction false} Joined(a: string, b: string)
    ensures Width(a + b) == Width(a) + Width(b)
    ensures Spelt(a + b) == Spelt(a) * Arith.Pow2(Width(b)) + Spelt(b)
  {
    if b == "" {
      assert a + b == a;
      assert Arith.Pow2(0) == 1;
    } else {
      var c := b[..|b| - 1];
      var s, n := Spelt(a), Arith.Pow2(Width(c));
      Joined(a, c);
      assert (a + b)[..|a + b| - 1] == a + c;
      assert s * (2 * n) == 2 * (s * n);
    }
  }

  lemma Group(q: string)
    requires 1 <= |q| <= 4 && forall k :: 0 <= k < |q| ==> q[k] == '0' || q[k] == '1'
    ensures Width(q) == |q|
    ensures Spelt(q) == if |q| == 1 then Bit(q[0])
                        else if |q| == 2 then 2 * Bit(q[0]) + Bit(q[1])
                        else if |q| == 3 then 4 * Bit(q[0]) + 2 * Bit(q[1]) + Bit(q[2])
                        else 8 * Bit(q[0]) + 4 * Bit(q[1]) + 2 * Bit(q[2]) + Bit(q[3])
  {
    if |q| > 1 {
      Group(q[..|q| - 1]);
    } else {
      assert q[..0] == "";
    }
  }

  function Bit(c: char): nat {
    if c == '1' then 1 else 0
  }

  /** A piece of two groups, scale being 2 to the number of digits of the second. */
  lemma Groups(q: string, k: nat, n: nat, scale: nat)
    requires k + 1 <= |q| && q[k] == '_' && |q| == k + 1 + n && n <= 4
    requires scale == if n == 1 then 2 else if n == 2 then 4 else if n == 3 then 8 else 16
    requires 1 <= k <= 4 && 1 <= n && Digital(q) && '_' !in q[..k] && '_' !in q[k + 1..]
    ensures Width(q) == k + n
    ensures Spelt(q) == Spelt(q[..k]) * scale + Spelt(q[k + 1..])
  {
    var a, b := q[..k], q[k + 1..];
    Group(a);
    Group(b);
    assert (a + "_")[..k] == a;
    assert Width(a + "_") == k && Spelt(a + "_") == Spelt(a);
    Joined(a + "_", b);
    assert q == a + "_" + b;
    Scale(n);
  }

  lemma Scale(n: nat)
    requires 1 <= n <= 4
    ensures Arith.Pow2(n) == if n == 1 then 2 else if n == 2 then 4 else if n == 3 then 8 else 16
  {
    if n > 1 {
      Scale(n - 1);
    } else {
      assert Arith.Pow2(0) == 1;
    }
  }

  lemma ThreeGives(v: nat)
    requires v < 8
    ensures Gives(Three(v), v, 3)
  {
    Group(Three(v));
  }

  lemma SevenDigits(q: string)
    requires |q| == 8 && Digital(q) && q[3] == '_'
    requires q[0] != '_' && q[1] != '_' && q[2] != '_' && q[4] != '_' && q[5] != '_' && q[6] != '_' && q[7] != '_'
    ensures Width(q) == 7
    ensures Spelt(q) == 64 * Bit(q[0]) + 32 * Bit(q[1]) + 16 * Bit(q[2])
                      + 8 * Bit(q[4]) + 4 * Bit(q[5]) + 2 * Bit(q[6]) + Bit(q[7])
  {
    Group(q[..3]);
    Group(q[4..]);
    Groups(q, 3, 4, 16);
  }

  lemma OpGives(v: nat)
    requires v == 0x03 || v == 0x0F || v == 0x13 || v == 0x17 || v == 0x1B || v == 0x23 || v == 0x2F
          || v == 0x33 || v == 0x37 || v == 0x3B || v == 0x63 || v == 0x67 || v == 0x6F || v == 0x73
    ensures Gives(Op7(v), v, 7)
  {
    SevenDigits(Op7(v));
  }

  lemma SevenGives(v: nat)
    requires v == 0x00 || v == 0x01 || v == 0x08 || v == 0x09 || v == 0x18 || v == 0x20
    ensures Gives(Seven(v), v, 7)
  {
    var q := Seven(v);
    Group(q[..4]);
    Group(q[5..]);
    Groups(q, 4, 3, 8);
  }

  lemma SixGives(v: nat)
    requires v == 0x00 || v == 0x10
    ensures Gives(Six(v), v, 6)
  {
    var q := Six(v);
    Group(q[..4]);
    Group(q[5..]);
    Groups(q, 4, 2, 4);
  }

  lemma FiveGives(v: nat)
    requires v == 0x00 || v == 0x01 || v == 0x02 || v == 0x03 || v == 0x04 || v == 0x08 || v == 0x0C
          || v == 0x10 || v == 0x14 || v == 0x18 || v == 0x1C
    ensures Gives(Five(v), v, 5)
  {
    var q := Five(v);
    Group(q[..4]);
    Group(q[5..]);
    Groups(q, 4, 1, 2);
  }

  lemma Rs2Gives(v: nat)
    requires v == 0 || v == 1 || v == 2 || v == 5
    ensures Gives(Rs2(v), v, 5)
  {
    var q := Rs2(v);
    Group(q[..1]);
    Group(q[2..]);
    Groups(q, 1, 4, 16);
  }

  // ---------------------------------------------------------------- the shapes in fields

  /** Question marks with a separator at every fifth place. */
  lemma {:induction false} GapSkips(q: string, m: nat)
    requires m < 5 && forall k :: 0 <= k < |q| ==> q[k] == if k % 5 == m then '_' else '?'
    ensures Skips(q, |q| - (|q| + 4 - m) / 5)
  {
    if q != "" {
      GapSkips(q[..|q| - 1], m);
    }
  }

  /** Zeros, and a separator after every fourth. */
  lemma {:induction false} ZerosGive(q: string, m: nat)
    requires m < 5 && forall k :: 0 <= k < |q| ==> q[k] == if k % 5 == m then '_' else '0'
    ensures Gives(q, 0, |q| - (|q| + 4 - m) / 5)
  {
    if q != "" {
      ZerosGive(q[..|q| - 1], m);
    }
  }

  /** The part that six of the shapes have in common: funct3, rd and the opcode. */
  lemma Lower15Same(p: string, l: Layout, f3: nat, gap: string, op: nat)
    requires Same(p, l) && Gives(Three(f3), f3, 3) && Gives(Op7(op), op, 7) && gap == "_????_?"
    ensures Same(p + Three(f3) + gap + Op7(op), Lower15(l, f3, op))
  {
    var q := p + Three(f3);
    Given(p, l, Three(f3), f3, 3);
    GapSkips(gap, 0);
    Skipped(q, Fixed(l, f3, 3), gap, 5);
    Given(q + gap, Free(Fixed(l, f3, 3), 5), Op7(op), op, 7);
  }

  lemma SameU(op: nat, gap: string)
    requires Gives(Op7(op), op, 7) && gap == "????_????_????_????_????_????_?"
    ensures Same(gap + Op7(op), LayoutOf(Opcode(op)))
  {
    GapSkips(gap, 4);
    assert "" + gap == gap;
    Skipped("", Top, gap, 25);
    Given(gap, Free(Top, 25), Op7(op), op, 7);
  }

  lemma Same3(f3: nat, op: nat, gap: string, low: string)
    requires Gives(Three(f3), f3, 3) && Gives(Op7(op), op, 7)
    requires gap == "????_????_????_????_?" && low == "_????_?"
    ensures Same(gap + Three(f3) + low + Op7(op), LayoutOf(Funct3(f3, op)))
  {
    GapSkips(gap, 4);
    assert "" + gap == gap;
    Skipped("", Top, gap, 17);
    Lower15Same(gap, Free(Top, 17), f3, low, op);
  }

  /** The shapes that begin with a field of w bits and leave rs1, and the rest of the upper twelve bits, open. */
  lemma SameUpper(top: string, v: nat, w: nat, gap: string, f3: nat, op: nat, low: string)
    requires Gives(top, v, w) && Gives(Three(f3), f3, 3) && Gives(Op7(op), op, 7) && 5 <= w <= 7
    requires gap == if w == 5 then "???_????_????_?" else if w == 6 then "??_????_????_?" else "?_????_????_?"
    requires low == "_????_?"
    ensures Same(top + gap + Three(f3) + low + Op7(op), Lower15(Free(Fixed(Top, v, w), 17 - w), f3, op))
  {
    assert "" + top == top;
    Given("", Top, top, v, w);
    GapSkips(gap, 8 - w);
    Skipped(top, Fixed(Top, v, w), gap, 17 - w);
    Lower15Same(top + gap, Free(Fixed(Top, v, w), 17 - w), f3, low, op);
  }

  lemma SameLoad(top: string, f5: nat, f3: nat, op: nat, aqrl: string, zero: string, low: string)
    requires Gives(top, f5, 5) && Gives(Three(f3), f3, 3) && Gives(Op7(op), op, 7)
    requires aqrl == "??" && zero == "0_0000" && low == "_????_?"
    ensures Same(top + aqrl + zero + low + Three(f3) + low + Op7(op), LayoutOf(LoadReserved(f5, f3, op)))
  {
    assert "" + top == top;
    Given("", Top, top, f5, 5);
    GapSkips(aqrl, 4);
    Skipped(top, Fixed(Top, f5, 5), aqrl, 2);
    var l := Free(Fixed(Top, f5, 5), 2);
    ZerosGive(zero, 1);
    Given(top + aqrl, l, zero, 0, 5);
    GapSkips(low, 0);
    Skipped(top + aqrl + zero, Fixed(l, 0, 5), low, 5);
    Lower15Same(top + aqrl + zero + low, Free(Fixed(l, 0, 5), 5), f3, low, op);
  }

  lemma SameFence(top: string, f7: nat, op: nat, gap: string, zero: string)
    requires Gives(top, f7, 7) && Gives(Op7(op), op, 7) && gap == "?_????_????_?" && zero == "000_0000_0"
    ensures Same(top + gap + zero + Op7(op), LayoutOf(SFence(f7, op)))
  {
    assert "" + top == top;
    Given("", Top, top, f7, 7);
    GapSkips(gap, 1);
    Skipped(top, Fixed(Top, f7, 7), gap, 10);
    var l := Free(Fixed(Top, f7, 7), 10);
    ZerosGive(zero, 3);
    Given(top + gap, l, zero, 0, 8);
    Given(top + gap + zero, Fixed(l, 0, 8), Op7(op), op, 7);
  }

  lemma SameExact(top: string, f7: nat, low: string, rs2: nat, op: nat, zero: string)
    requires Gives(top, f7, 7) && Gives(low, rs2, 5) && Gives(Op7(op), op, 7) && zero == "_0000_0000_0000_0"
    ensures Same(top + low + zero + Op7(op), LayoutOf(Exact(f7, rs2, op)))
  {
    assert "" + top == top;
    Given("", Top, top, f7, 7);
    Given(top, Fixed(Top, f7, 7), low, rs2, 5);
    var l := Fixed(Fixed(Top, f7, 7), rs2, 5);
    ZerosGive(zero, 0);
    Given(top + low, l, zero, 0, 13);
    Given(top + low + zero, Fixed(l, 0, 13), Op7(op), op, 7);
  }

  // ---------------------------------------------------------------- the patterns as the script writes them

  lemma LoadGap(top: string)
    ensures top + "??0_0000_????_?" == top + "??" + "0_0000" + "_????_?"
  {
  }

  lemma FenceGap(top: string)
    ensures top + "?_????_????_?000_0000_0" == top + "?_????_????_?" + "000_0000_0"
  {
  }

  lemma WrittenU(op: nat)
    requires InTable(Opcode(op))
    ensures Same(Written(Opcode(op)), LayoutOf(Opcode(op)))
  {
    OpGives(op);
    SameU(op, "????_????_????_????_????_????_?");
  }

  lemma ListedU(op: nat)
    ensures InTable(Opcode(op)) <==> ScriptPU(op).Some?
    ensures InTable(Opcode(op)) ==> ScriptPU(op).value == Written(Opcode(op))
  {
  }

  lemma Written3(f3: nat, op: nat)
    requires InTable(Funct3(f3, op))
    ensures Same(Written(Funct3(f3, op)), LayoutOf(Funct3(f3, op)))
  {
    OpGives(op);
    ThreeGives(f3);
    Same3(f3, op, "????_????_????_????_?", "_????_?");
  }

  lemma Listed3(f3: nat, op: nat)
    ensures InTable(Funct3(f3, op)) <==> ScriptP3(f3, op).Some?
    ensures InTable(Funct3(f3, op)) ==> ScriptP3(f3, op).value == Written(Funct3(f3, op))
  {
  }

  lemma Written5(f5: nat, f3: nat, op: nat)
    requires InTable(Funct5(f5, f3, op))
    ensures Same(Written(Funct5(f5, f3, op)), LayoutOf(Funct5(f5, f3, op)))
  {
    OpGives(op);
    FiveGives(f5);
    ThreeGives(f3);
    SameUpper(Five(f5), f5, 5, "???_????_????_?", f3, op, "_????_?");
  }

  lemma Listed5(f5: nat, f3: nat, op: nat)
    ensures InTable(Funct5(f5, f3, op)) <==> ScriptP5(f5, f3, op).Some?
    ensures InTable(Funct5(f5, f3, op)) ==> ScriptP5(f5, f3, op).value == Written(Funct5(f5, f3, op))
  {
  }

  lemma Written6(f6: nat, f3: nat, op: nat)
    requires InTable(Funct6(f6, f3, op))
    ensures Same(Written(Funct6(f6, f3, op)), LayoutOf(Funct6(f6, f3, op)))
  {
    OpGives(op);
    SixGives(f6);
    ThreeGives(f3);
    SameUpper(Six(f6), f6, 6, "??_????_????_?", f3, op, "_????_?");
  }

  lemma Listed6(f6: nat, f3: nat, op: nat)
    ensures InTable(Funct6(f6, f3, op)) <==> ScriptP6(f6, f3, op).Some?
    ensures InTable(Funct6(f6, f3, op)) ==> ScriptP6(f6, f3, op).value == Written(Funct6(f6, f3, op))
  {
  }

  lemma Written7(f7: nat, f3: nat, op: nat)
    requires InTable(Funct7(f7, f3, op))
    ensures Same(Written(Funct7(f7, f3, op)), LayoutOf(Funct7(f7, f3, op)))
  {
    OpGives(op);
    SevenGives(f7);
    ThreeGives(f3);
    SameUpper(Seven(f7), f7, 7, "?_????_????_?", f3, op, "_????_?");
  }

  lemma Listed7(f7: nat, f3: nat, op: nat)
    ensures InTable(Funct7(f7, f3, op)) <==> ScriptP7(f7, f3, op).Some?
    ensures InTable(Funct7(f7, f3, op)) ==> ScriptP7(f7, f3, op).value == Written(Funct7(f7, f3, op))
  {
  }

  lemma WrittenL(f5: nat, f3: nat, op: nat)
    requires InTable(LoadReserved(f5, f3, op))
    ensures Same(Written(LoadReserved(f5, f3, op)), LayoutOf(LoadReserved(f5, f3, op)))
  {
    OpGives(op);
    FiveGives(f5);
    ThreeGives(f3);
    LoadGap(Five(f5));
    SameLoad(Five(f5), f5, f3, op, "??", "0_0000", "_????_?");
  }

  lemma ListedL(f5: nat, f3: nat, op: nat)
    ensures InTable(LoadReserved(f5, f3, op)) <==> ScriptPL(f5, f3, op).Some?
    ensures InTable(LoadReserved(f5, f3, op)) ==> ScriptPL(f5, f3, op).value == Written(LoadReserved(f5, f3, op))
  {
  }

  lemma WrittenF(f7: nat, op: nat)
    requires InTable(SFence(f7, op))
    ensures Same(Written(SFence(f7, op)), LayoutOf(SFence(f7, op)))
  {
    OpGives(op);
    SevenGives(f7);
    FenceGap(Seven(f7));
    SameFence(Seven(f7), f7, op, "?_????_????_?", "000_0000_0");
  }

  lemma ListedF(f7: nat, op: nat)
    ensures InTable(SFence(f7, op)) <==> ScriptPF(f7, op).Some?
    ensures InTable(SFence(f7, op)) ==> ScriptPF(f7, op).value == Written(SFence(f7, op))
  {
  }

  lemma WrittenX(f7: nat, rs2: nat, op: nat)
    requires InTable(Exact(f7, rs2, op))
    ensures Same(Written(Exact(f7, rs2, op)), LayoutOf(Exact(f7, rs2, op)))
  {
    OpGives(op);
    SevenGives(f7);
    Rs2Gives(rs2);
    SameExact(Seven(f7), f7, Rs2(rs2), rs2, op, "_0000_0000_0000_0");
  }

  lemma ListedX(f7: nat, rs2: nat, op: nat)
    ensures InTable(Exact(f7, rs2, op)) <==> ScriptPX(f7, rs2, op).Some?
    ensures InTable(Exact(f7, rs2, op)) ==> ScriptPX(f7, rs2, op).value == Written(Exact(f7, rs2, op))
  {
  }

  lemma WrittenSame(f: Format)
    requires InTable(f)
    ensures Same(Written(f), LayoutOf(f))
  {
    match f
    case Opcode(op) => WrittenU(op);
    case Funct3(f3, op) => Written3(f3, op);
    case Funct5(f5, f3, op) => Written5(f5, f3, op);
    case Funct6(f6, f3, op) => Written6(f6, f3, op);
    case Funct7(f7, f3, op) => Written7(f7, f3, op);
    case LoadReserved(f5, f3, op) => WrittenL(f5, f3, op);
    case SFence(f7, op) => WrittenF(f7, op);
    case Exact(f7, rs2, op) => WrittenX(f7, rs2, op);
  }

  /** The script has exactly the formats of the table. */
  lemma Listed(f: Format)
    ensures InTable(f) <==> Script(f).Some?
    ensures InTable(f) ==> Script(f).value == Written(f)
  {
    match f
    case Opcode(op) => ListedU(op);
    case Funct3(f3, op) => Listed3(f3, op);
    case Funct5(f5, f3, op) => Listed5(f5, f3, op);
    case Funct6(f6, f3, op) => Listed6(f6, f3, op);
    case Funct7(f7, f3, op) => Listed7(f7, f3, op);
    case LoadReserved(f5, f3, op) => ListedL(f5, f3, op);
    case SFence(f7, op) => ListedF(f7, op);
    case Exact(f7, rs2, op) => ListedX(f7, rs2, op);
  }

  /** INSTPAT: the test on the constants that the script makes of its pattern. */
  predicate Test(f: Format, inst: nat) {
    Script(f).Some? && var m := Parse(Script(f).value); m.Some? && BitAnd(inst, m.value.mask) == m.value.golden
  }

  /** The constants of an entry accept exactly the instructions whose fields it fixes. */
  lemma TestExact(f: Format, inst: nat)
    requires inst < Arith.TWO32 && InTable(f)
    ensures Test(f, inst) <==> Agrees(f, FieldsOf(inst))
  {
    var p := Written(f);
    Listed(f);
    WrittenSame(f);
    KnownParses(p);
    MaskTestExact(p, inst);
    LayoutFits(f, inst);
  }

  // ---------------------------------------------------------------- dispatch

  lemma FieldsDisjoint(f: Format, g: Format, x: Fields)
    requires InTable(f) && InTable(g) && Agrees(f, x) && Agrees(g, x)
    ensures f == g
  {
  }

  /** The table is pairwise disjoint, and every entry fixes the opcode of its switch case. */
  lemma PatternsDisjoint(f: Format, g: Format, inst: nat)
    requires inst < Arith.TWO32 && InTable(f) && InTable(g) && Test(f, inst)
    ensures f.opcode == inst % 128
    ensures Test(g, inst) <==> f == g
  {
    TestExact(f, inst);
    TestExact(g, inst);
    if Test(g, inst) {
      FieldsDisjoint(f, g, FieldsOf(inst));
    }
  }

  /** The first test that succeeds, or None for an illegal instruction. */
  function FirstMatch(tests: seq<Format>, inst: nat): Option<Format> {
    if tests == [] then None
    else if Test(tests[0], inst) then Some(tests[0])
    else FirstMatch(tests[1..], inst)
  }

  lemma {:induction false} FirstMatches(tests: seq<Format>, inst: nat)
    ensures match FirstMatch(tests, inst)
            case Some(f) => f in tests && Test(f, inst)
            case None => forall f :: f in tests ==> !Test(f, inst)
  {
    if tests != [] {
      FirstMatches(tests[1..], inst);
    }
  }

  /** The tests of a switch case: entries of the table, among them all with the instruction's opcode. */
  ghost predicate Covers(tests: seq<Format>, inst: nat) {
    && (forall f :: f in tests ==> InTable(f))
    && (forall f: Format :: InTable(f) && f.opcode == inst % 128 ==> f in tests)
  }

  /** The order of the tests does not matter, nor does the split into switch cases: every such list selects the one
      entry of the table that matches, and none of them selects anything when no entry does. */
  lemma OrderIsIrrelevant(tests: seq<Format>, inst: nat)
    requires inst < Arith.TWO32 && Covers(tests, inst)
    ensures forall f :: FirstMatch(tests, inst) == Some(f) <==> InTable(f) && Test(f, inst)
  {
    FirstMatches(tests, inst);
    var r := FirstMatch(tests, inst);
    forall f
      ensures r == Some(f) <==> InTable(f) && Test(f, inst)
    {
      if InTable(f) && Test(f, inst) {
        PatternsDisjoint(f, f, inst);
        if r.Some? {
          PatternsDisjoint(f, r.value, inst);
        }
      }
    }
  }
}
