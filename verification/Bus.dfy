/** The bus of emulator/src/bus/bus.c over the address map of platform/include/tinylinuxrv/addrmap.h, and why a page
    walk over it is a pure function of the machine. */
module Bus {
  import opened Riscv
  import Memory
  import Sv39
  import Tlb
  import Syscon
  import Uart
  import Clint
  import Plic

  const PLIC_MAX_INTERRUPT: nat := 11

  // ---------------------------------------------------------------- windows

  datatype Target = BootRom | SysCtl | Uart0 | Timer | Intc | Dram

  const ORDER: seq<Target> := [BootRom, SysCtl, Uart0, Timer, Intc, Dram]

  function Base(t: Target): nat {
    match t
    case BootRom => 0x1000
    case SysCtl => 0x10_0000
    case Uart0 => 0x1000_0000
    case Timer => 0x200_0000
    case Intc => 0xC00_0000
    case Dram => 0x8000_0000
  }

  function Size(t: Target, ram: nat): nat {
    match t
    case BootRom => 0x1000
    case SysCtl => 0x1000
    case Uart0 => 0x1000
    case Timer => 0x1_0000
    case Intc => 0x400_0000
    case Dram => ram
  }

  predicate Hits(t: Target, ram: nat, addr: nat, size: nat) {
    Memory.InRange(addr, size, Base(t), Size(t, ram))
  }

  /** The first window, in the given order of tests, that holds the whole access. */
  function Route(order: seq<Target>, ram: nat, addr: nat, size: nat): Option<Target> {
    if order == [] then None
    else if Hits(order[0], ram, addr, size) then Some(order[0])
    else Route(order[1..], ram, addr, size)
  }

  /** Where an access goes by definition. */
  ghost predicate Owns(t: Target, ram: nat, addr: nat, size: nat) {
    Base(t) <= addr && addr + size <= Base(t) + Size(t, ram)
  }

  lemma WindowsDisjoint(t: Target, u: Target, ram: nat, addr: nat, size: nat)
    requires size > 0 && Owns(t, ram, addr, size) && Owns(u, ram, addr, size)
    ensures t == u
  {
  }

  lemma {:induction false} RouteFinds(order: seq<Target>, ram: nat, addr: nat, size: nat)
    ensures match Route(order, ram, addr, size)
            case Some(t) => t in order && Owns(t, ram, addr, size)
            case None => forall t :: t in order ==> !Owns(t, ram, addr, size)
  {
    if order != [] {
      RouteFinds(order[1..], ram, addr, size);
    }
  }

  /** Every access of at least one byte lies wholly in one window or is rejected, so that any order of the tests routes
      it the same way. */
  lemma OrderIsIrrelevant(order: seq<Target>, ram: nat, addr: nat, size: nat)
    requires size > 0 && forall t: Target :: t in order
    ensures Route(order, ram, addr, size) == Route(ORDER, ram, addr, size)
    ensures forall t :: Route(ORDER, ram, addr, size) == Some(t) <==> Owns(t, ram, addr, size)
  {
    RouteFinds(order, ram, addr, size);
    RouteFinds(ORDER, ram, addr, size);
    forall t
      ensures t in ORDER
    {
      assert ORDER[match t case BootRom => 0 case SysCtl => 1 case Uart0 => 2 case Timer => 3 case Intc => 4
          case Dram => 5] == t;
    }
    forall t, u | Owns(t, ram, addr, size) && Owns(u, ram, addr, size)
      ensures t == u
    {
      WindowsDisjoint(t, u, ram, addr, size);
    }
  }

  /** The bound on the size is exact: an access of no bytes where two windows meet would be routed by the order. */
  lemma EmptyAccessIsOrdered(ram: nat)
    ensures Route([Uart0, Intc], ram, 0x1000_0000, 0) != Route([Intc, Uart0], ram, 0x1000_0000, 0)
  {
    assert Hits(Uart0, ram, 0x1000_0000, 0) && Hits(Intc, ram, 0x1000_0000, 0);
  }

  /** The chain of tests, spelled out. */
  lemma RouteChain(ram: nat, addr: nat, size: nat)
    ensures Route(ORDER, ram, addr, size) ==
      if Hits(BootRom, ram, addr, size) then Some(BootRom)
      else if Hits(SysCtl, ram, addr, size) then Some(SysCtl)
      else if Hits(Uart0, ram, addr, size) then Some(Uart0)
      else if Hits(Timer, ram, addr, size) then Some(Timer)
      else if Hits(Intc, ram, addr, size) then Some(Intc)
      else if Hits(Dram, ram, addr, size) then Some(Dram)
      else None
  {
    var o1, o2, o3, o4, o5 := ORDER[1..], ORDER[2..], ORDER[3..], ORDER[4..], ORDER[5..];
    assert o1[1..] == o2 && o2[1..] == o3 && o3[1..] == o4 && o4[1..] == o5 && o5[1..] == [];
    assert Route(o5, ram, addr, size) == if Hits(Dram, ram, addr, size) then Some(Dram) else None;
    assert Route(o4, ram, addr, size) == if Hits(Intc, ram, addr, size) then Some(Intc) else Route(o5, ram, addr, size);
    assert Route(o3, ram, addr, size) == if Hits(Timer, ram, addr, size) then Some(Timer)
        else Route(o4, ram, addr, size);
    assert Route(o2, ram, addr, size) == if Hits(Uart0, ram, addr, size) then Some(Uart0)
        else Route(o3, ram, addr, size);
    assert Route(o1, ram, addr, size) == if Hits(SysCtl, ram, addr, size) then Some(SysCtl)
        else Route(o2, ram, addr, size);
  }

  // ---------------------------------------------------------------- the machine behind the bus

  datatype Machine = Machine(rom: seq<Byte>, syscon: Syscon.State, uart: Uart.Device, clint: Clint.State,
                             plic: Plic.State, ram: seq<Byte>)

  predicate Ok(m: Machine) {
    |m.rom| == 0x1000 && Plic.Shape(PLIC_MAX_INTERRUPT, m.plic)
  }

  function Word(v: Option<nat>, size: nat): Option<seq<Byte>> {
    if v.Some? then Some(Memory.Encode(v.value, size)) else None
  }

  /** What the target answers to a read. */
  function Answer(m: Machine, t: Target, addr: nat, size: nat): Option<seq<Byte>>
    requires Ok(m) && Base(t) <= addr
  {
    var offset := addr - Base(t);
    match t
    case BootRom => Memory.ReadBytes(m.rom, Base(t), addr, size)
    case SysCtl => Word(Syscon.ReadValue(m.syscon, offset, size), size)
    case Uart0 => Word(Uart.ReadValue(m.uart, offset, size), size)
    case Timer => Word(Clint.ReadValue(m.clint, offset, size), size)
    case Intc => Word(Plic.ReadValue(PLIC_MAX_INTERRUPT, m.plic, offset, size), size)
    case Dram => Memory.ReadBytes(m.ram, Base(t), addr, size)
  }

  /** What the read does to the machine. */
  function AnswerEffect(m: Machine, t: Target, addr: nat, size: nat): (m': Machine)
    requires Ok(m) && Base(t) <= addr
    ensures Ok(m')
  {
    var offset := addr - Base(t);
    match t
    case Uart0 => m.(uart := Uart.Read(m.uart, offset, size))
    case Intc => m.(plic := Plic.Read(PLIC_MAX_INTERRUPT, m.plic, offset, size))
    case _ => m
  }

  function RouteOf(m: Machine, addr: nat, size: nat): (t: Option<Target>)
    ensures t.Some? ==> Base(t.value) <= addr
  {
    RouteFinds(ORDER, |m.ram|, addr, size);
    Route(ORDER, |m.ram|, addr, size)
  }

  /** bus_read: the bytes, or None for a nonzero return. */
  function Read(m: Machine, addr: nat, size: nat): Option<seq<Byte>>
    requires Ok(m)
  {
    var t := RouteOf(m, addr, size);
    if t.Some? then Answer(m, t.value, addr, size) else None
  }

  function ReadEffect(m: Machine, addr: nat, size: nat): (m': Machine)
    requires Ok(m)
    ensures Ok(m')
  {
    var t := RouteOf(m, addr, size);
    if t.Some? then AnswerEffect(m, t.value, addr, size) else m
  }

  /** bus_write of the bytes of data. */
  function Written(m: Machine, t: Target, addr: nat, data: seq<Byte>): (m': Machine)
    requires Ok(m) && Base(t) <= addr
    ensures Ok(m') && |m'.ram| == |m.ram|
  {
    var offset, size, value := addr - Base(t), |data|, Memory.Value(data);
    match t
    case BootRom => m
    case SysCtl => m.(syscon := Syscon.Write(m.syscon, offset, size, value))
    case Uart0 => m.(uart := if size == 1 then Uart.Write(m.uart, offset, size, data[0]) else m.uart)
    case Timer => m.(clint := Clint.Write(m.clint, offset, size, value))
    case Intc => m.(plic := Plic.Write(PLIC_MAX_INTERRUPT, m.plic, offset, size, value))
    case Dram => m.(ram := Memory.WriteBytes(m.ram, Base(t), addr, data))
  }

  function Write(m: Machine, addr: nat, data: seq<Byte>): (m': Machine)
    requires Ok(m)
    ensures Ok(m') && |m'.ram| == |m.ram|
  {
    var t := RouteOf(m, addr, |data|);
    if t.Some? then Written(m, t.value, addr, data) else m
  }

  /** bus_write returns 0. */
  predicate Accepts(m: Machine, addr: nat, data: seq<Byte>)
    requires Ok(m)
  {
    var t := RouteOf(m, addr, |data|);
    t.Some? && Takes(m, t.value, addr, data)
  }

  predicate Takes(m: Machine, t: Target, addr: nat, data: seq<Byte>)
    requires Ok(m) && Base(t) <= addr
  {
    match t
    case BootRom => false
    case SysCtl => Syscon.WriteAccepted(addr - Base(SysCtl), |data|, Memory.Value(data))
    case Uart0 => Uart.WriteAccepted(addr - Base(Uart0), |data|)
    case Timer => Clint.WriteAccepted(addr - Base(Timer), |data|)
    case Intc => !Plic.Decode(PLIC_MAX_INTERRUPT, addr - Base(Intc), |data|).Invalid?
    case Dram => Memory.AccessOk(Base(Dram), |m.ram|, addr, |data|)
  }

  // ---------------------------------------------------------------- in addresses

  /** The whole of [from, to) that an access covers. */
  predicate Spans(addr: nat, size: nat, from: nat, to: nat) {
    from <= addr && addr + size <= to
  }

  /** Where the targets are .. */
  lemma MapExact(m: Machine, addr: nat, size: nat)
    requires size > 0
    ensures var t := RouteOf(m, addr, size);
            && (t == Some(BootRom) <==> Spans(addr, size, 0x1000, 0x2000))
            && (t == Some(SysCtl) <==> Spans(addr, size, 0x10_0000, 0x10_1000))
            && (t == Some(Timer) <==> Spans(addr, size, 0x200_0000, 0x201_0000))
            && (t == Some(Intc) <==> Spans(addr, size, 0xC00_0000, 0x1000_0000))
            && (t == Some(Uart0) <==> Spans(addr, size, 0x1000_0000, 0x1000_1000))
            && (t == Some(Dram) <==> Spans(addr, size, 0x8000_0000, 0x8000_0000 + |m.ram|))
  {
    RouteChain(|m.ram|, addr, size);
  }

  /** .. what a read there delivers .. */
  lemma ReadExact(m: Machine, addr: nat, size: nat)
    requires Ok(m) && size > 0
    ensures Spans(addr, size, 0x1000, 0x2000) ==> Read(m, addr, size) == Memory.ReadBytes(m.rom, 0x1000, addr, size)
    ensures Spans(addr, size, 0x10_0000, 0x10_1000) ==>
              Read(m, addr, size) == Word(Syscon.ReadValue(m.syscon, addr - 0x10_0000, size), size)
    ensures Spans(addr, size, 0x200_0000, 0x201_0000) ==>
              Read(m, addr, size) == Word(Clint.ReadValue(m.clint, addr - 0x200_0000, size), size)
    ensures Spans(addr, size, 0xC00_0000, 0x1000_0000) ==>
              && Read(m, addr, size) == Word(Plic.ReadValue(11, m.plic, addr - 0xC00_0000, size), size)
              && ReadEffect(m, addr, size) == m.(plic := Plic.Read(11, m.plic, addr - 0xC00_0000, size))
    ensures Spans(addr, size, 0x1000_0000, 0x1000_1000) ==>
              && Read(m, addr, size) == Word(Uart.ReadValue(m.uart, addr - 0x1000_0000, size), size)
              && ReadEffect(m, addr, size) == m.(uart := Uart.Read(m.uart, addr - 0x1000_0000, size))
    ensures Spans(addr, size, 0x8000_0000, 0x8000_0000 + |m.ram|) ==>
              Read(m, addr, size) == Memory.ReadBytes(m.ram, 0x8000_0000, addr, size)
    ensures RouteOf(m, addr, size) == None ==> Read(m, addr, size) == None && ReadEffect(m, addr, size) == m
  {
    MapExact(m, addr, size);
  }

  /** .. and what a write to a device changes, and when it is accepted .. */
  lemma DeviceWriteExact(m: Machine, addr: nat, data: seq<Byte>)
    requires Ok(m) && data != []
    ensures var size, v, m' := |data|, Memory.Value(data), Write(m, addr, data);
            && (Spans(addr, size, 0x10_0000, 0x10_1000) ==>
                  && m' == m.(syscon := Syscon.Write(m.syscon, addr - 0x10_0000, size, v))
                  && Accepts(m, addr, data) == Syscon.WriteAccepted(addr - 0x10_0000, size, v))
            && (Spans(addr, size, 0x200_0000, 0x201_0000) ==>
                  && m' == m.(clint := Clint.Write(m.clint, addr - 0x200_0000, size, v))
                  && Accepts(m, addr, data) == Clint.WriteAccepted(addr - 0x200_0000, size))
  {
    MapExact(m, addr, |data|);
  }

  lemma ControllerWriteExact(m: Machine, addr: nat, data: seq<Byte>)
    requires Ok(m) && data != [] && Spans(addr, |data|, 0xC00_0000, 0x1000_0000)
    ensures Write(m, addr, data) == m.(plic := Plic.Write(11, m.plic, addr - 0xC00_0000, |data|, Memory.Value(data)))
  {
    MapExact(m, addr, |data|);
  }

  lemma ControllerAcceptsExact(m: Machine, addr: nat, data: seq<Byte>)
    requires Ok(m) && data != [] && Spans(addr, |data|, 0xC00_0000, 0x1000_0000)
    ensures Accepts(m, addr, data) == !Plic.Decode(11, addr - 0xC00_0000, |data|).Invalid?
  {
    MapExact(m, addr, |data|);
  }

  lemma UartWriteExact(m: Machine, addr: nat, data: seq<Byte>)
    requires Ok(m) && data != []
    ensures var size, m' := |data|, Write(m, addr, data);
            && (Spans(addr, size, 0x1000_0000, 0x1000_1000) ==>
                  && (size == 1 ==> m' == m.(uart := Uart.Write(m.uart, addr - 0x1000_0000, 1, data[0])))
                  && Accepts(m, addr, data) == Uart.WriteAccepted(addr - 0x1000_0000, size))
  {
    MapExact(m, addr, |data|);
  }

  /** .. and to memory. The boot ROM refuses writes, and nothing stands elsewhere. */
  lemma MemoryWriteExact(m: Machine, addr: nat, data: seq<Byte>)
    requires Ok(m) && data != []
    ensures var size, m' := |data|, Write(m, addr, data);
            && (Spans(addr, size, 0x8000_0000, 0x8000_0000 + |m.ram|) ==>
                  && m' == m.(ram := Memory.WriteBytes(m.ram, 0x8000_0000, addr, data))
                  && Accepts(m, addr, data) == Memory.AccessOk(0x8000_0000, |m.ram|, addr, size))
            && (RouteOf(m, addr, size) == None || Spans(addr, size, 0x1000, 0x2000) ==>
                  m' == m && !Accepts(m, addr, data))
  {
    MapExact(m, addr, |data|);
  }

  // ---------------------------------------------------------------- 8-byte reads

  /** The 8-byte reads of the machine as it stands. */
  function Phys(m: Machine): PhysMem
    requires Ok(m)
  {
    addr => var r := Read(m, addr, 8); if r.Some? then Some(Memory.Value(r.value)) else None
  }

  /** The address lies in the claim register of the context. */
  predicate AtClaim(addr: nat, c: nat) {
    Plic.Address(Plic.Claim(c)) <= addr - Base(Intc) < Plic.Address(Plic.Claim(c)) + 4
  }

  /** The only reads with an effect are the UART's data and status bytes and the 4-byte claim registers. */
  lemma ReadEffectExact(m: Machine, addr: nat, size: nat)
    requires Ok(m)
    ensures ReadEffect(m, addr, size) != m ==>
              || (size == 1 && (addr == 0x1000_0000 || addr == 0x1000_0005))
              || (size == 4 && exists c :: 0 <= c < Plic.CONTEXTS && AtClaim(addr, c))
  {
    var t := RouteOf(m, addr, size);
    if t == Some(Intc) {
      var d := Plic.Decode(PLIC_MAX_INTERRUPT, addr - Base(Intc), size);
      if d.Claim? {
        Plic.DecodeInvertsMap(PLIC_MAX_INTERRUPT, d, addr - Base(Intc));
        assert AtClaim(addr, d.context);
      }
    }
  }

  /** Hence an 8-byte read, and so each step of a page walk, leaves all devices and memory unchanged. */
  lemma DoubleReadIsPure(m: Machine, addr: nat)
    requires Ok(m)
    ensures ReadEffect(m, addr, 8) == m
  {
    ReadEffectExact(m, addr, 8);
  }

  /** The 8-byte answers of the targets: only the CLINT, the boot ROM and RAM have any. */
  lemma DoubleAnswers(m: Machine, t: Target, a: nat)
    requires Ok(m) && Base(t) <= a
    ensures t == SysCtl || t == Uart0 || t == Intc ==> Answer(m, t, a, 8).None?
  {
  }

  lemma AnswerAfterWrite(m: Machine, t: Target, addr: nat, data: seq<Byte>, u: Target, a: nat)
    requires Ok(m) && Base(t) <= addr && Base(u) <= a
    ensures Answer(Written(m, t, addr, data), u, a, 8) != Answer(m, u, a, 8) ==>
              u == t && (t == Timer || t == Dram) && a < addr + |data| && addr < a + 8
  {
    var m' := Written(m, t, addr, data);
    DoubleAnswers(m, u, a);
    DoubleAnswers(m', u, a);
    if t == Dram && u == Dram && (addr + |data| <= a || a + 8 <= addr) {
      WriteElsewhere(m.ram, addr, data, a);
    }
  }

  /** A write is seen by 8-byte reads only in its own window, which is the CLINT's or RAM, and only where the bytes
      overlap. */
  lemma WritesAreLocal(m: Machine, addr: nat, data: seq<Byte>, a: nat)
    requires Ok(m)
    ensures Phys(Write(m, addr, data))(a) != Phys(m)(a) ==>
              && (RouteOf(m, a, 8) == Some(Timer) || RouteOf(m, a, 8) == Some(Dram))
              && RouteOf(m, addr, |data|) == RouteOf(m, a, 8) && a < addr + |data| && addr < a + 8
  {
    var t, u := RouteOf(m, addr, |data|), RouteOf(m, a, 8);
    if t.Some? && u.Some? {
      AnswerAfterWrite(m, t.value, addr, data, u.value, a);
    }
  }

  lemma WriteElsewhere(ram: seq<Byte>, addr: nat, data: seq<Byte>, a: nat)
    requires addr + |data| <= a || a + 8 <= addr
    ensures var base := Base(Dram); Memory.ReadBytes(Memory.WriteBytes(ram, base, addr, data), base, a,
                                                     8) == Memory.ReadBytes(ram, base, a, 8)
  {
    var base := Base(Dram);
    var ram' := Memory.WriteBytes(ram, base, addr, data);
    if Memory.AccessOk(base, |ram|, a, 8) {
      assert ram'[a - base..a - base + 8] == ram[a - base..a - base + 8];
    }
  }

  /** A store, to whatever device or memory, that overlaps no page-table word read by the cached walks keeps a TLB
      coherent. */
  lemma StoreKeepsCoherence(t: seq<Tlb.Entry>, m: Machine, satp: Sv39.Satp, addr: nat, data: seq<Byte>)
    requires Ok(m) && |t| == Tlb.TLB_SIZE && Tlb.Coherent(t, Phys(m), satp)
    requires forall i, a :: 0 <= i < Tlb.TLB_SIZE && t[i].valid && a in Tlb.EntryReads(t[i], Phys(m), satp) ==>
               addr + |data| <= a || a + 8 <= addr
    ensures Tlb.Coherent(t, Phys(Write(m, addr, data)), satp)
  {
    var mem, mem' := Phys(m), Phys(Write(m, addr, data));
    forall i, a | 0 <= i < Tlb.TLB_SIZE && t[i].valid && a in Tlb.EntryReads(t[i], mem, satp)
      ensures mem(a) == mem'(a)
    {
      WritesAreLocal(m, addr, data, a);
    }
    Tlb.UnreadChangesKeepCoherence(t, mem, mem', satp);
  }

  // ---------------------------------------------------------------- the bus in place

  /** bus_t with its devices and memory. */
  class BusUnit {
    const rom: Memory.Ram
    const syscon: Syscon.Control
    const uart: Uart.Receiver
    const clint: Clint.Timer
    const plic: Plic.Controller
    const ram: Memory.Ram

    ghost const footprint: set<object> := {syscon, uart, uart.data, clint, plic, plic.priority, plic.busy, rom.data,
                                           ram.data}

    ghost predicate Valid()
      reads footprint
    {
      && rom.base == Base(BootRom) && rom.data.Length == 0x1000 && ram.base == Base(Dram) && rom.data != ram.data
      && uart.data != rom.data && uart.data != ram.data
      && uart.Valid() && plic.Valid() && plic.n == PLIC_MAX_INTERRUPT
    }

    ghost function View(): (m: Machine)
      requires Valid()
      reads footprint
      ensures Ok(m)
    {
      Machine(rom.Bytes(), syscon.regs, uart.Registers(), clint.regs, plic.View(), ram.Bytes())
    }

    /** memory_init and device_init at host time now. The content of the boot ROM is not initialized by the source. */
    constructor (memory: nat, poison: bool, now: int)
      ensures Valid() && fresh(footprint)
      ensures View().plic == Plic.Reset(PLIC_MAX_INTERRUPT)
      ensures View().uart == Uart.Device(Uart.ResetQueue, Uart.ResetRegs)
      ensures View().syscon == Syscon.ResetState && View().clint == Clint.State(0, 0, MODULUS - 1, now)
      ensures |View().ram| == memory && forall i :: 0 <= i < memory ==> View().ram[i] == if poison then 0xA5 else 0
    {
      rom := new Memory.Ram(Base(BootRom), 0x1000, false);
      syscon := new Syscon.Control();
      uart := new Uart.Receiver();
      clint := new Clint.Timer(now);
      plic := new Plic.Controller(PLIC_MAX_INTERRUPT);
      ram := new Memory.Ram(Base(Dram), memory, poison);
    }

    method BusRead(addr: nat, size: nat) returns (data: Option<seq<Byte>>)
      requires Valid()
      modifies uart, plic
      ensures Valid() && View() == ReadEffect(old(View()), addr, size)
      ensures data == Read(old(View()), addr, size)
    {
      var len := ram.data.Length;
      RouteChain(len, addr, size);
      assert |ram.Bytes()| == len;
      if Memory.InRange(addr, size, Base(BootRom), 0x1000) {
        data := rom.Load(addr, size);
      } else if Memory.InRange(addr, size, Base(SysCtl), 0x1000) {
        var v := syscon.ReadReg(addr - Base(SysCtl), size);
        data := Word(v, size);
      } else if Memory.InRange(addr, size, Base(Uart0), 0x1000) {
        var v := uart.ReadReg(addr - Base(Uart0), size);
        data := Word(v, size);
      } else if Memory.InRange(addr, size, Base(Timer), 0x1_0000) {
        var v := clint.ReadReg(addr - Base(Timer), size);
        data := Word(v, size);
      } else if Memory.InRange(addr, size, Base(Intc), 0x400_0000) {
        var v := plic.ReadReg(addr - Base(Intc), size);
        data := Word(v, size);
      } else if Memory.InRange(addr, size, Base(Dram), len) {
        data := ram.Load(addr, size);
      } else {
        data := None;
      }
    }

    /** The write of one target. */
    method WriteTo(t: Target, addr: nat, data: seq<Byte>, ghost m: Machine) returns (ok: bool)
      requires Valid() && View() == m && Base(t) <= addr
      modifies syscon, uart, uart.data, clint, plic, plic.priority, plic.busy, ram.data
      ensures Valid() && View() == Written(m, t, addr, data)
      ensures ok == Takes(m, t, addr, data)
    {
      var size, offset := |data|, addr - Base(t);
      match t
      case BootRom => ok := false;
      case SysCtl => ok := syscon.WriteReg(offset, size, Memory.Value(data));
      case Uart0 => ok := uart.WriteReg(offset, size, if size == 1 then data[0] else 0);
      case Timer => ok := clint.WriteReg(offset, size, Memory.Value(data));
      case Intc => ok := plic.WriteReg(offset, size, Memory.Value(data));
      case Dram => ok := ram.Store(addr, data);
    }

    method BusWrite(addr: nat, data: seq<Byte>) returns (ok: bool)
      requires Valid()
      modifies syscon, uart, uart.data, clint, plic, plic.priority, plic.busy, ram.data
      ensures Valid() && View() == Write(old(View()), addr, data)
      ensures ok == Accepts(old(View()), addr, data)
    {
      var len, size := ram.data.Length, |data|;
      ghost var m := View();
      RouteChain(len, addr, size);
      assert |m.ram| == len;
      if Memory.InRange(addr, size, Base(BootRom), 0x1000) {
        ok := WriteTo(BootRom, addr, data, m);
      } else if Memory.InRange(addr, size, Base(SysCtl), 0x1000) {
        ok := WriteTo(SysCtl, addr, data, m);
      } else if Memory.InRange(addr, size, Base(Uart0), 0x1000) {
        ok := WriteTo(Uart0, addr, data, m);
      } else if Memory.InRange(addr, size, Base(Timer), 0x1_0000) {
        ok := WriteTo(Timer, addr, data, m);
      } else if Memory.InRange(addr, size, Base(Intc), 0x400_0000) {
        ok := WriteTo(Intc, addr, data, m);
      } else if Memory.InRange(addr, size, Base(Dram), len) {
        ok := WriteTo(Dram, addr, data, m);
      } else {
        ok := false;
      }
    }

    /** The loads of page_table_walk_sv39, made over the bus: the search is the specified one over the memory of the
        moment, and leaves the machine as it was. */
    method FindLeaf(va: nat, satp: Sv39.Satp) returns (walk: Sv39.Walk)
      requires Valid()
      modifies uart, plic
      ensures Valid() && View() == old(View())
      ensures walk == Sv39.FindLeaf(Phys(old(View())), va, satp)
    {
      if !Sv39.Canonical(va) {
        return Sv39.PageFault;
      }
      ghost var m := View();
      var base: nat := satp.ppn * 4096;
      var level: nat := 2;
      while true
        invariant 0 <= level < 3 && Valid() && View() == m
        invariant Sv39.FindLeaf(Phys(m), va, satp) == Sv39.WalkFrom(Phys(m), va, base, level)
        decreases level
      {
        DoubleReadIsPure(m, Sv39.EntryAddr(base, va, level));
        var word := BusRead(base + 8 * Sv39.Vpn(va, level), 8);
        if word.None? {
          return Sv39.AccessFault;
        }
        var pte := Memory.Value(word.value);
        if Sv39.Malformed(pte) {
          return Sv39.PageFault;
        }
        if Sv39.IsLeaf(pte) {
          return if Sv39.Misaligned(pte, level) then Sv39.PageFault else Sv39.Leaf(level, pte);
        }
        if level == 0 || Sv39.ReservedInPointer(pte) {
          return Sv39.PageFault;
        }
        level, base := level - 1, Sv39.PtePpn(pte) * 4096;
      }
    }
  }
}
