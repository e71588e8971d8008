/** Byte-addressed memory: emulator/src/memory/memory.c and emulator/include/utils/address_range.h. */
module Memory {
  import opened Riscv
  import Arith

  // ---------------------------------------------------------------- little-endian data

  function Value(bytes: seq<Byte>): (v: nat) {
    if bytes == [] then 0 else bytes[0] + 256 * Value(bytes[1..])
  }

  function Encode(v: nat, size: nat): (bytes: seq<Byte>)
    ensures |bytes| == size
  {
    if size == 0 then [] else [v % 256] + Encode(v / 256, size - 1)
  }

  /** Byte k of a number. */
  function ByteOf(v: nat, k: nat): Byte {
    if k == 0 then v % 256 else ByteOf(v / 256, k - 1)
  }

  lemma Pow256(n: nat)
    requires n > 0
    ensures Arith.Pow2(8 * n) == 256 * Arith.Pow2(8 * (n - 1))
  {
    Arith.Pow2Add(8, 8 * (n - 1));
    assert Arith.Pow2(8) == 256;
  }

  lemma {:induction false} ValueOfEncode(v: nat, size: nat)
    requires v < Arith.Pow2(8 * size)
    ensures Value(Encode(v, size)) == v
  {
    if size > 0 {
      Pow256(size);
      ValueOfEncode(v / 256, size - 1);
    }
  }

  lemma {:induction false} ValueBound(bytes: seq<Byte>)
    ensures Value(bytes) < Arith.Pow2(8 * |bytes|)
  {
    if bytes != [] {
      ValueBound(bytes[1..]);
      Pow256(|bytes|);
    }
  }

  lemma {:induction false} EncodeOfValue(bytes: seq<Byte>)
    ensures Encode(Value(bytes), |bytes|) == bytes
  {
    if bytes != [] {
      EncodeOfValue(bytes[1..]);
      var v := Value(bytes);
      assert v % 256 == bytes[0] && v / 256 == Value(bytes[1..]);
    }
  }

  lemma {:induction false} EncodeAt(v: nat, size: nat, k: nat)
    requires k < size
    ensures Encode(v, size)[k] == ByteOf(v, k)
  {
    if k > 0 {
      EncodeAt(v / 256, size - 1, k - 1);
    }
  }

  lemma ValueAt(bytes: seq<Byte>, k: nat)
    requires k < |bytes|
    ensures ByteOf(Value(bytes), k) == bytes[k]
  {
    EncodeOfValue(bytes);
    EncodeAt(Value(bytes), |bytes|, k);
  }

  // ---------------------------------------------------------------- checks

  /** check_addr_range; the subtractions cannot wrap where they are evaluated. */
  predicate InRange(addr: nat, nbyte: nat, base: nat, size: nat) {
    addr >= base && nbyte <= size && addr - base <= size - nbyte
  }

  /** cpu_access_check. */
  predicate AccessOk(base: nat, length: nat, addr: nat, size: nat) {
    if size != 1 && size != 2 && size != 4 && size != 8 then false
    else if addr % size != 0 then false
    else InRange(addr, size, base, length)
  }

  // ---------------------------------------------------------------- contents

  /** ram_read. */
  function ReadBytes(mem: seq<Byte>, base: nat, addr: nat, size: nat): Option<seq<Byte>> {
    if AccessOk(base, |mem|, addr, size) then Some(mem[addr - base..addr - base + size]) else None
  }

  /** ram_write. */
  function WriteBytes(mem: seq<Byte>, base: nat, addr: nat, data: seq<Byte>): (mem': seq<Byte>)
    ensures |mem'| == |mem|
  {
    if AccessOk(base, |mem|, addr, |data|) then mem[..addr - base] + data + mem[addr - base + |data|..] else mem
  }

  /** The first i bytes written at an offset. */
  function Spliced(mem: seq<Byte>, offset: nat, bytes: seq<Byte>, i: nat): seq<Byte>
    requires i <= |bytes| && offset + |bytes| <= |mem|
  {
    mem[..offset] + bytes[..i] + mem[offset + i..]
  }

  lemma SpliceStep(mem: seq<Byte>, offset: nat, bytes: seq<Byte>, i: nat)
    requires i < |bytes| && offset + |bytes| <= |mem|
    ensures Spliced(mem, offset, bytes, i)[offset + i := bytes[i]] == Spliced(mem, offset, bytes, i + 1)
  {
  }

  class Ram {
    const data: array<Byte>
    const base: nat

    function Bytes(): seq<Byte>
      reads data
    {
      data[..]
    }

    /** memory_init. */
    constructor (start: nat, size: nat, poison: bool)
      ensures base == start && fresh(data)
      ensures |Bytes()| == size && forall i :: 0 <= i < size ==> Bytes()[i] == if poison then 0xA5 else 0
    {
      base := start;
      data := new Byte[size](_ => if poison then 0xA5 else 0);
    }

    method Load(addr: nat, size: nat) returns (bytes: Option<seq<Byte>>)
      ensures bytes == ReadBytes(Bytes(), base, addr, size)
    {
      if !AccessOk(base, data.Length, addr, size) {
        return None;
      }
      var offset := addr - base;
      bytes := Some(data[offset..offset + size]);
    }

    method Store(addr: nat, bytes: seq<Byte>) returns (ok: bool)
      modifies data
      ensures Bytes() == WriteBytes(old(Bytes()), base, addr, bytes)
      ensures ok == AccessOk(base, data.Length, addr, |bytes|)
    {
      if !AccessOk(base, data.Length, addr, |bytes|) {
        return false;
      }
      var offset := addr - base;
      ghost var was := data[..];
      for i := 0 to |bytes|
        invariant data[..] == Spliced(was, offset, bytes, i)
      {
        data[offset + i] := bytes[i];
        SpliceStep(was, offset, bytes, i);
      }
      ok := true;
    }
  }

  // ---------------------------------------------------------------- runs of stores

  datatype Write = Write(addr: nat, size: nat, value: nat)

  function After(mem: seq<Byte>, base: nat, ws: seq<Write>): (mem': seq<Byte>)
    ensures |mem'| == |mem|
  {
    if ws == [] then mem
    else
      var w := ws[|ws| - 1];
      WriteBytes(After(mem, base, ws[..|ws| - 1]), base, w.addr, Encode(w.value, w.size))
  }

  predicate Covers(base: nat, length: nat, w: Write, a: nat) {
    AccessOk(base, length, w.addr, w.size) && w.addr <= a < w.addr + w.size
  }

  /** The byte at address a by definition: from the latest accepted write that covers it, else the initial byte. */
  function Latest(mem: seq<Byte>, base: nat, ws: seq<Write>, a: nat): Byte
    requires base <= a < base + |mem|
  {
    if ws == [] then mem[a - base]
    else
      var w := ws[|ws| - 1];
      if Covers(base, |mem|, w, a) then ByteOf(w.value, a - w.addr) else Latest(mem, base, ws[..|ws| - 1], a)
  }

  lemma {:induction false} AfterAt(mem: seq<Byte>, base: nat, ws: seq<Write>, a: nat)
    requires base <= a < base + |mem|
    ensures After(mem, base, ws)[a - base] == Latest(mem, base, ws, a)
  {
    if ws != [] {
      var w := ws[|ws| - 1];
      AfterAt(mem, base, ws[..|ws| - 1], a);
      if Covers(base, |mem|, w, a) {
        EncodeAt(w.value, w.size, a - w.addr);
      }
    }
  }

  /** Reads after writes of any mix of sizes are byte-exact and little-endian: byte k of the value read is the byte last
      written to that address; an access that is rejected reads nothing and a rejected write changes nothing. */
  lemma ReadAfterWrites(mem: seq<Byte>, base: nat, ws: seq<Write>, addr: nat, size: nat)
    ensures var r := ReadBytes(After(mem, base, ws), base, addr, size);
            && (r.Some? <==> AccessOk(base, |mem|, addr, size))
            && (r.Some? ==> |r.value| == size && Value(r.value) < Arith.Pow2(8 * size))
            && forall k :: r.Some? && 0 <= k < size ==> ByteOf(Value(r.value), k) == Latest(mem, base, ws, addr + k)
  {
    var r := ReadBytes(After(mem, base, ws), base, addr, size);
    if r.Some? {
      ValueBound(r.value);
      forall k | 0 <= k < size
        ensures ByteOf(Value(r.value), k) == Latest(mem, base, ws, addr + k)
      {
        ValueAt(r.value, k);
        AfterAt(mem, base, ws, addr + k);
      }
    }
  }

  /** In particular a value is read back at its own size. */
  lemma ReadBack(mem: seq<Byte>, base: nat, w: Write)
    requires AccessOk(base, |mem|, w.addr, w.size) && w.value < Arith.Pow2(8 * w.size)
    ensures var r := ReadBytes(After(mem, base, [w]), base, w.addr, w.size); r.Some? && Value(r.value) == w.value
  {
    var r := ReadBytes(After(mem, base, [w]), base, w.addr, w.size);
    assert r.value == Encode(w.value, w.size) by {
      assert [w][..0] == [];
    }
    ValueOfEncode(w.value, w.size);
  }

  // ---------------------------------------------------------------- in numbers

  /** An access is of 1, 2, 4 or 8 bytes, aligned to its size, and inside the region. */
  lemma AccessExact(base: nat, length: nat, addr: nat, size: nat)
    ensures AccessOk(base, length, addr, size) <==>
            && (size == 1 || size == 2 || size == 4 || size == 8) && addr % size == 0
            && base <= addr && addr + size <= base + length
  {
  }

  /** Byte k of a number has the weight 256^k, so that the first byte in memory is the least significant. */
  lemma {:induction false} ByteExact(v: nat, k: nat)
    ensures ByteOf(v, k) == v / Arith.Pow2(8 * k) % 256
  {
    if k > 0 {
      ByteExact(v / 256, k - 1);
      Pow256(k);
      var p := Arith.Pow2(8 * (k - 1));
      NestedQuotient(v, p);
    } else {
      assert Arith.Pow2(0) == 1;
    }
  }

  lemma NestedQuotient(v: nat, p: nat)
    requires p > 0
    ensures v / (256 * p) == v / 256 / p
  {
    var q, r := v / 256 / p, v / 256 % p;
    assert v / 256 == q * p + r;
    assert q * (256 * p) == 256 * (q * p);
    Arith.DivModUnique(v, 256 * p, q, 256 * r + v % 256);
  }
}
