/**
  The target process as the memory editor sees it through the operating
  system: an ordered list of its allocated memory regions (what
  `VirtualQueryEx` reports, the free gaps between them implied) and a
  partial map from address to byte (what `ReadProcessMemory` and
  `WriteProcessMemory` can reach). An address outside the map is unmapped
  or inaccessible.
 */
module TargetProcess {
  import opened Wrappers
  import opened ValueCodec

  const MEM_COMMIT: nat := 0x1000
  const MEM_FREE: nat := 0x10000
  const PAGE_NOACCESS: nat := 0x01
  const PAGE_READONLY: nat := 0x02
  const PAGE_READWRITE: nat := 0x04
  const PAGE_WRITECOPY: nat := 0x08
  const PAGE_EXECUTE_READ: nat := 0x20
  const PAGE_EXECUTE_READWRITE: nat := 0x40

  /** The fields of MEMORY_BASIC_INFORMATION the editor uses. */
  datatype Region = Region(base: nat, size: nat, state: nat, protect: nat)

  function End(r: Region): nat {
    r.base + r.size
  }

  /** A region the scan reads: committed, with exactly one of the five listed protections. */
  predicate IsScannable(r: Region) {
    && r.state == MEM_COMMIT
    && (|| r.protect == PAGE_READONLY
        || r.protect == PAGE_READWRITE
        || r.protect == PAGE_WRITECOPY
        || r.protect == PAGE_EXECUTE_READ
        || r.protect == PAGE_EXECUTE_READWRITE)
  }

  /** The run of free pages from `lo` up to `hi`, as `VirtualQueryEx` reports a gap between allocations. */
  function FreeGap(lo: nat, hi: nat): (g: Region)
    requires lo < hi
    ensures g.base == lo && End(g) == hi && !IsScannable(g)
  {
    Region(lo, hi - lo, MEM_FREE, PAGE_NOACCESS)
  }

  /**
    `VirtualQueryEx(address)`: the region containing `addr`. That is the
    first listed region ending above `addr` when it starts at or below
    `addr`, and otherwise the free gap from `addr` up to that region's
    base. None stands for the call returning 0: no listed region ends
    above `addr`.
   */
  function Query(regions: seq<Region>, addr: nat): (r: Option<Region>)
    ensures r.Some? ==> r.value.base <= addr < End(r.value)
    ensures r.None? <==> forall i :: 0 <= i < |regions| ==> End(regions[i]) <= addr
  {
    if regions == [] then None
    else if End(regions[0]) > addr then
      if regions[0].base <= addr then Some(regions[0]) else Some(FreeGap(addr, regions[0].base))
    else Query(regions[1..], addr)
  }

  /** A reported region that is not listed is a free gap starting at the queried address. */
  lemma {:induction false} QueryReports(regions: seq<Region>, addr: nat)
    requires Query(regions, addr).Some?
    ensures Query(regions, addr).value in regions || Query(regions, addr).value == FreeGap(addr, End(Query(regions, addr).value))
  {
    if End(regions[0]) <= addr {
      QueryReports(regions[1..], addr);
    }
  }

  /**
    When every region before `k` ends at or below `addr` and region `k` ends
    above it, the query reports region `k`, or the free gap before it when
    `addr` lies below its base.
   */
  lemma {:induction false} QueryFinds(regions: seq<Region>, addr: nat, k: nat)
    requires k < |regions| && End(regions[k]) > addr
    requires forall j :: 0 <= j < k ==> End(regions[j]) <= addr
    ensures Query(regions, addr) ==
              Some(if regions[k].base <= addr then regions[k] else FreeGap(addr, regions[k].base))
  {
    if k > 0 {
      QueryFinds(regions[1..], addr, k - 1);
    }
  }

  type Memory = map<nat, uint8>

  /**
    How many consecutive bytes from `addr` on, at most `n`, are reachable:
    the count `ReadProcessMemory` reports in `bytes_read` and
    `WriteProcessMemory` in `bytes_written`.
   */
  function MappedPrefix(mem: Memory, addr: nat, n: nat): (k: nat)
    ensures k <= n
    ensures forall a :: addr <= a < addr + k ==> a in mem
    ensures k < n ==> addr + k !in mem
    decreases n
  {
    if n == 0 || addr !in mem then 0 else 1 + MappedPrefix(mem, addr + 1, n - 1)
  }

  /** The bytes at `addr .. addr + n`, when all of them are reachable. */
  function ReadBytes(mem: Memory, addr: nat, n: nat): (r: Option<seq<uint8>>)
    ensures r.Some? <==> forall a :: addr <= a < addr + n ==> a in mem
    ensures r.Some? ==> |r.value| == n && forall i :: 0 <= i < n ==> r.value[i] == mem[addr + i]
  {
    if MappedPrefix(mem, addr, n) == n then Some(seq(n, i requires 0 <= i < n => mem[addr + i]))
    else None
  }

  /** A window of a successful read is itself a successful read. */
  lemma ReadWindow(mem: Memory, addr: nat, n: nat, off: nat, w: nat)
    requires ReadBytes(mem, addr, n).Some? && off + w <= n
    ensures ReadBytes(mem, addr + off, w) == Some(ReadBytes(mem, addr, n).value[off .. off + w])
  {
    var whole := ReadBytes(mem, addr, n).value;
    assert forall a :: addr + off <= a < addr + off + w ==> a in mem by {
      forall a | addr + off <= a < addr + off + w ensures a in mem {
        assert addr <= a < addr + n;
      }
    }
    var part := ReadBytes(mem, addr + off, w).value;
    assert part == whole[off .. off + w];
  }

  /**
    The part of memory a write can reach: the mapped addresses whose page
    `WriteProcessMemory` lets a write through. It refuses `PAGE_READONLY`
    and `PAGE_NOACCESS` pages, so a byte can be readable without being
    writable.
   */
  function WritableView(mem: Memory, writable: set<nat>): (w: Memory)
    ensures w.Keys <= mem.Keys
    ensures forall a :: a in w <==> a in mem && a in writable
  {
    map a | a in mem && a in writable :: mem[a]
  }

  /**
    `WriteProcessMemory`: the prefix of `data` over mapped, writable bytes
    is written, the rest of memory is untouched, and no address is mapped
    or unmapped.
   */
  function WriteBytes(mem: Memory, writable: set<nat>, addr: nat, data: seq<uint8>): (m: Memory)
  {
    var k := MappedPrefix(WritableView(mem, writable), addr, |data|);
    map a | a in mem :: if addr <= a < addr + k then data[a - addr] else mem[a]
  }

  /** A write that reaches every byte lands in full: reading the range back gives the data. */
  lemma WriteThenRead(mem: Memory, writable: set<nat>, addr: nat, data: seq<uint8>)
    requires ReadBytes(WritableView(mem, writable), addr, |data|).Some?
    ensures ReadBytes(WriteBytes(mem, writable, addr, data), addr, |data|) == Some(data)
  {
    var m := WriteBytes(mem, writable, addr, data);
    assert MappedPrefix(WritableView(mem, writable), addr, |data|) == |data|;
    assert m.Keys == mem.Keys;
    var back := ReadBytes(m, addr, |data|);
    assert back.Some?;
    assert back.value == data;
  }

  /** A write changes only the bytes it reached, and never the set of reachable addresses. */
  lemma WriteFrame(mem: Memory, writable: set<nat>, addr: nat, data: seq<uint8>, a: nat)
    ensures WriteBytes(mem, writable, addr, data).Keys == mem.Keys
    ensures a in mem && !(addr <= a < addr + |data|) ==> WriteBytes(mem, writable, addr, data)[a] == mem[a]
  {
    var m := WriteBytes(mem, writable, addr, data);
    assert m.Keys == mem.Keys;
  }

  /** A write whose first byte is not writable changes nothing, and it reports failure. */
  lemma WriteRefused(mem: Memory, writable: set<nat>, addr: nat, data: seq<uint8>)
    requires |data| > 0 && addr !in writable
    ensures WriteBytes(mem, writable, addr, data) == mem
    ensures ReadBytes(WritableView(mem, writable), addr, |data|).None?
  {
    assert MappedPrefix(WritableView(mem, writable), addr, |data|) == 0;
    var m := WriteBytes(mem, writable, addr, data);
    assert m.Keys == mem.Keys;
  }

  /** A byte on a read-only page reads back, but a write to it is refused and leaves it as it was. */
  lemma ReadOnlyByteRefusesWrite()
    ensures ReadBytes(map[0x10000 := 7], 0x10000, 1) == Some([7])
    ensures WriteBytes(map[0x10000 := 7], {}, 0x10000, [9]) == map[0x10000 := 7]
    ensures ReadBytes(WritableView(map[0x10000 := 7], {}), 0x10000, 1).None?
  {
    WriteRefused(map[0x10000 := 7], {}, 0x10000, [9]);
    var back := ReadBytes(map[0x10000 := 7], 0x10000, 1);
    assert back.Some? && back.value[0] == 7;
    assert back.value == [7];
  }

  /**
    The target process: its region layout, the addresses a write may reach,
    and its current memory.
   */
  class Target {
    const regions: seq<Region>
    const writable: set<nat>
    var memory: Memory

    constructor (regions: seq<Region>, writable: set<nat>, memory: Memory)
      ensures this.regions == regions && this.writable == writable && this.memory == memory
    {
      this.regions := regions;
      this.writable := writable;
      this.memory := memory;
    }
  }
}
