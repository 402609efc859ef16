/** 32-bit x86 paging with 4 KiB pages, as in section 4.3 ("32-Bit Paging")
    of the Intel 64 and IA-32 Architectures Software Developer's Manual,
    Volume 3A: a page directory of 1024 entries, each present one pointing to
    a page table of 1024 entries, each present one mapping a 4 KiB page.

    The original follows the physical address held in a directory entry to
    reach the page table.  Here a directory keeps, next to its entries, an
    arena of its page tables keyed by directory slot; the physical address in
    the entry is recorded but never followed. */
module Paging {
  import opened Bytes
  import opened Results
  import Memory

  const EntryCount: nat := 1024

  /** A paging-structure entry, its 32 bits read as a number: bit 0 is P
      (present), bit 1 R/W (read/write), bit 2 U/S (user), bits 12-31 the
      physical address of a 4 KiB frame.  Bit k of data is
      `(data / 2^k) % 2`. */
  datatype PageTableEntry = PageTableEntry(data: u32)
  {
    /** present(): bit 0. */
    predicate Present()
    {
      data % 2 == 1
    }

    /** address(): data with its low twelve bits cleared (`data & !0xFFF`). */
    function Address(): (r: u32)
      ensures r % 0x1000 == 0 && r <= data < r + 0x1000
    {
      data - data % 0x1000
    }

    /** Bit 1. */
    predicate ReadWrite()
    {
      data / 2 % 2 == 1
    }

    /** Bit 2. */
    predicate User()
    {
      data / 4 % 2 == 1
    }
  }

  /** The entry with no bit set. */
  const Clear: PageTableEntry := PageTableEntry(0)

  /** PageTableEntry::new: the frame address with its low twelve bits
      cleared, with each requested flag bit set.  Each `|=` sets a bit that
      is still clear, so it adds the bit's value. */
  function New(address: u32, present: bool, readWrite: bool, user: bool): (e: PageTableEntry)
    ensures e.Address() == address - address % 0x1000
    ensures e.Present() == present && e.ReadWrite() == readWrite && e.User() == user
    ensures e.data % 0x1000 < 8
  {
    var frame, flags := address - address % 0x1000, Flags(present, readWrite, user);
    FrameBound(address);
    LowBits(frame, flags);
    PageTableEntry(frame + flags)
  }

  /** Bits 0 to 2 set as requested. */
  function Flags(present: bool, readWrite: bool, user: bool): (f: nat)
    ensures f < 8
    ensures f % 2 == 1 <==> present
    ensures f / 2 % 2 == 1 <==> readWrite
    ensures f / 4 % 2 == 1 <==> user
  {
    (if present then 1 else 0) + (if readWrite then 2 else 0) + (if user then 4 else 0)
  }

  /** A 32-bit number with its low twelve bits cleared is a multiple of
      4096 that leaves room for them. */
  lemma FrameBound(address: u32)
    ensures (address - address % 0x1000) % 0x1000 == 0
    ensures address - address % 0x1000 + 0x1000 <= 0x1_0000_0000
  {
    var k := address / 0x1000;
    assert address - address % 0x1000 == 0x1000 * k;
    assert k < 0x10_0000;
    Quotient(0x1000, k, 0);
  }

  /** A multiple of 4096 plus flags below 8: the flags are its low twelve
      bits, and its bits 0 to 2 are theirs. */
  lemma LowBits(frame: nat, flags: nat)
    requires frame % 0x1000 == 0 && flags < 8
    ensures (frame + flags) % 0x1000 == flags
    ensures (frame + flags) % 2 == flags % 2
    ensures (frame + flags) / 2 % 2 == flags / 2 % 2
    ensures (frame + flags) / 4 % 2 == flags / 4
  {
    var k := frame / 0x1000;
    var x := frame + flags;
    assert x == 0x1000 * k + flags;
    Quotient(0x1000, k, flags);
    var half, quarter := 0x800 * k + flags / 2, 0x400 * k + flags / 4;
    assert x == 2 * half + flags % 2;
    Quotient(2, half, flags % 2);
    assert half == 2 * quarter + flags / 2 % 2;
    Quotient(2, quarter, flags / 2 % 2);
    assert x == 4 * quarter + flags % 4;
    Quotient(4, quarter, flags % 4);
    assert quarter == 2 * (0x200 * k) + flags / 4;
    Quotient(2, 0x200 * k, flags / 4);
  }

  /** Division by m recovers quotient and remainder. */
  lemma Quotient(m: nat, q: nat, r: nat)
    requires m in {2, 4, 0x1000} && r < m
    ensures (m * q + r) / m == q && (m * q + r) % m == r
  {
    if m == 2 {
      assert (2 * q + r) / 2 == q;
    } else if m == 4 {
      assert (4 * q + r) / 4 == q;
    } else {
      assert (0x1000 * q + r) / 0x1000 == q;
    }
  }

  /** An entry built by New keeps exactly the address bits and flags it
      was built from: two such entries are equal exactly when those agree. */
  lemma NewInjective(a: u32, p: bool, rw: bool, u: bool, a': u32, p': bool, rw': bool, u': bool)
    ensures New(a, p, rw, u) == New(a', p', rw', u') <==>
              (a - a % 0x1000 == a' - a' % 0x1000 && p == p' && rw == rw' && u == u')
  {
    if New(a, p, rw, u) == New(a', p', rw', u') {
      assert New(a, p, rw, u).Address() == New(a', p', rw', u').Address();
    }
  }

  /** The directory slot of a virtual address: `va >> 22`. */
  function DirectoryIndex(va: u32): (r: nat)
    ensures r < EntryCount
  {
    va / 0x40_0000
  }

  /** The page-table slot of a virtual address: `(va >> 12) & 0x3FF`. */
  function TableIndex(va: u32): (r: nat)
    ensures r < EntryCount
  {
    (va / 0x1000) % 0x400
  }

  /** The number of the 4 KiB page holding a virtual address. */
  function PageOf(va: u32): nat
  {
    va / 0x1000
  }

  /** The two slots of an address name its page: together they are its page
      number, so two addresses share both slots exactly when they lie in the
      same page. */
  lemma Slots(va: u32, va': u32)
    ensures PageOf(va) == EntryCount * DirectoryIndex(va) + TableIndex(va)
    ensures (DirectoryIndex(va) == DirectoryIndex(va') && TableIndex(va) == TableIndex(va'))
              <==> PageOf(va) == PageOf(va')
  {
    PageSplit(va);
    PageSplit(va');
  }

  lemma PageSplit(va: u32)
    ensures PageOf(va) == EntryCount * DirectoryIndex(va) + TableIndex(va)
  {
    var page := va / 0x1000;
    assert va == 0x1000 * page + va % 0x1000;
    assert page == 0x400 * (page / 0x400) + page % 0x400;
    assert va == 0x40_0000 * (page / 0x400) + 0x1000 * (page % 0x400) + va % 0x1000;
  }

  // ---------------------------------------------------------------------
  // The abstract page tables
  // ---------------------------------------------------------------------

  /** The page tables of a directory, by directory slot, each as its 1024
      entries. */
  type Tables = map<nat, seq<PageTableEntry>>

  ghost predicate WellFormed(v: Tables)
  {
    forall d :: d in v ==> d < EntryCount && |v[d]| == EntryCount
  }

  /** A page table with every entry clear. */
  function EmptyTable(): (t: seq<PageTableEntry>)
    ensures |t| == EntryCount && forall i :: 0 <= i < |t| ==> t[i] == Clear
  {
    seq(EntryCount, _ => Clear)
  }

  /** The entry that translates the page of va, if both its directory slot
      and its page-table entry are present. */
  function Lookup(v: Tables, va: u32): Option<PageTableEntry>
    requires WellFormed(v)
  {
    var d := DirectoryIndex(va);
    if d in v && v[d][TableIndex(va)].Present() then Some(v[d][TableIndex(va)]) else None
  }

  /** map_address_1: the page table with the entry of va overwritten, and
      every other entry kept. */
  function MapAddress1(table: seq<PageTableEntry>, physicalAddress: u32, virtualAddress: u32,
                       present: bool, readWrite: bool, user: bool): (r: seq<PageTableEntry>)
    requires |table| == EntryCount
    ensures |r| == EntryCount && r[TableIndex(virtualAddress)] == New(physicalAddress, present, readWrite, user)
    ensures forall i :: 0 <= i < |r| && i != TableIndex(virtualAddress) ==> r[i] == table[i]
  {
    table[TableIndex(virtualAddress) := New(physicalAddress, present, readWrite, user)]
  }

  /** map_address on the abstract tables: install an empty table in the
      directory slot of va if it has none, then overwrite the entry of va
      in it. */
  function MapLeaf(v: Tables, pa: u32, va: u32, present: bool, readWrite: bool, user: bool): (r: Tables)
    requires WellFormed(v)
    ensures WellFormed(r)
    ensures r.Keys == v.Keys + {DirectoryIndex(va)}
  {
    var d := DirectoryIndex(va);
    var table := if d in v then v[d] else EmptyTable();
    v[d := MapAddress1(table, pa, va, present, readWrite, user)]
  }

  /** After mapping va, its page translates to the new entry when that is
      present and to nothing otherwise (the last write wins), and every other
      page translates as before. */
  lemma MapLeafLookup(v: Tables, pa: u32, va: u32, present: bool, readWrite: bool, user: bool, va': u32)
    requires WellFormed(v)
    ensures Lookup(MapLeaf(v, pa, va, present, readWrite, user), va') ==
              if PageOf(va') == PageOf(va) then
                (if present then Some(New(pa, present, readWrite, user)) else None)
              else Lookup(v, va')
  {
    Slots(va, va');
  }

  /** A request to map one page, as the loader issues it. */
  datatype Mapping = Mapping(physical: u32, virtual: u32)

  /** The tables after the mappings, in order, each present, writable and
      supervisor-only. */
  function ApplyAll(v: Tables, ms: seq<Mapping>): (r: Tables)
    requires WellFormed(v)
    ensures WellFormed(r)
    decreases |ms|
  {
    if |ms| == 0 then v
    else
      var m := ms[|ms| - 1];
      MapLeaf(ApplyAll(v, ms[..|ms| - 1]), m.physical, m.virtual, true, true, false)
  }

  /** The tables after the first k mappings, in order. */
  function ApplyPrefix(v: Tables, ms: seq<Mapping>, k: nat): (r: Tables)
    requires WellFormed(v) && k <= |ms|
    ensures WellFormed(r)
  {
    if k == 0 then v
    else MapLeaf(ApplyPrefix(v, ms, k - 1), ms[k - 1].physical, ms[k - 1].virtual, true, true, false)
  }

  /** Applying the first k mappings is applying the run ms[..k]. */
  lemma {:induction false} ApplyPrefixAll(v: Tables, ms: seq<Mapping>, k: nat)
    requires WellFormed(v) && k <= |ms|
    ensures ApplyPrefix(v, ms, k) == ApplyAll(v, ms[..k])
  {
    if k > 0 {
      ApplyPrefixAll(v, ms, k - 1);
      ApplyAllPrefix(v, ms, k - 1);
    }
  }

  /** Applying two runs of mappings one after the other is applying
      their concatenation. */
  lemma {:induction false} ApplyAllAppend(v: Tables, ms: seq<Mapping>, ms': seq<Mapping>)
    requires WellFormed(v)
    ensures ApplyAll(v, ms + ms') == ApplyAll(ApplyAll(v, ms), ms')
    decreases |ms'|
  {
    if |ms'| == 0 {
      assert ms + ms' == ms;
    } else {
      var init := ms'[..|ms'| - 1];
      SplitLast(ms, ms');
      ApplyAllAppend(v, ms, init);
    }
  }

  /** The mappings up to and including k are those before k followed by
      mapping k. */
  lemma ApplyAllPrefix(v: Tables, ms: seq<Mapping>, k: nat)
    requires WellFormed(v) && k < |ms|
    ensures ApplyAll(v, ms[..k + 1]) == MapLeaf(ApplyAll(v, ms[..k]), ms[k].physical, ms[k].virtual, true, true, false)
  {
    var prefix := ms[..k + 1];
    TakeLast(ms, k);
    assert prefix[..|prefix| - 1] == ms[..k] && prefix[|prefix| - 1] == ms[k];
  }

  /** The first k + 1 elements are the first k followed by element k. */
  lemma TakeLast<T>(s: seq<T>, k: nat)
    requires k < |s|
    ensures s[..k + 1][..k] == s[..k] && s[..k + 1][k] == s[k]
  {
  }

  /** Dropping the last element of a concatenation drops it from its
      second part. */
  lemma SplitLast<T>(s: seq<T>, t: seq<T>)
    requires |t| > 0
    ensures (s + t)[..|s + t| - 1] == s + t[..|t| - 1] && (s + t)[|s + t| - 1] == t[|t| - 1]
  {
  }

  /** The position of the last mapping of the page of va, if any. */
  function LastHit(ms: seq<Mapping>, va: u32): (r: Option<nat>)
    ensures r.Some? ==> r.value < |ms| && PageOf(ms[r.value].virtual) == PageOf(va)
    ensures r.Some? ==> forall j :: r.value < j < |ms| ==> PageOf(ms[j].virtual) != PageOf(va)
    ensures r.None? ==> forall j :: 0 <= j < |ms| ==> PageOf(ms[j].virtual) != PageOf(va)
  {
    if |ms| == 0 then None
    else if PageOf(ms[|ms| - 1].virtual) == PageOf(va) then Some(|ms| - 1)
    else LastHit(ms[..|ms| - 1], va)
  }

  /** After a run of mappings, a page translates to the frame of the last
      mapping that names it, or as before when none does. */
  lemma {:induction false} ApplyAllLookup(v: Tables, ms: seq<Mapping>, va: u32)
    requires WellFormed(v)
    ensures Lookup(ApplyAll(v, ms), va) ==
              match LastHit(ms, va)
              case None => Lookup(v, va)
              case Some(i) => Some(New(ms[i].physical, true, true, false))
    decreases |ms|
  {
    if |ms| > 0 {
      var m, init := ms[|ms| - 1], ms[..|ms| - 1];
      ApplyAllLookup(v, init, va);
      MapLeafLookup(ApplyAll(v, init), m.physical, m.virtual, true, true, false, va);
    }
  }

  // ---------------------------------------------------------------------
  // The page directory and its tables
  // ---------------------------------------------------------------------

  class PageTable {
    /** The 1024 entries of the directory. */
    const entries: array<PageTableEntry>
    /** The page table each present directory slot points to, by slot. */
    var tables: Tables

    /** Present directory slots are exactly those with a page table, and
        a present slot never holds the null address (which the original
        would fail to follow). */
    ghost predicate Valid()
      reads this, entries
    {
      && entries.Length == EntryCount && WellFormed(tables)
      && (forall d :: 0 <= d < EntryCount ==> (entries[d].Present() <==> d in tables))
      && (forall d :: 0 <= d < EntryCount && entries[d].Present() ==> entries[d].Address() != 0)
    }

    /** A directory with every entry clear and no page tables. */
    constructor Empty()
      ensures Valid() && fresh(entries) && entries[..] == EmptyTable() && tables == map[]
    {
      entries := new PageTableEntry[EntryCount](_ => Clear);
      tables := map[];
    }

    /** map_address: make sure the directory slot of va holds a page table,
        allocating a page for one and installing it (present, writable,
        user) if it does not, then overwrite the entry of va in that table.
        Fails only when the allocator has no page left, where the original
        panics; the page table it follows is never at the null address. */
    method MapAddress(mem: Memory.PhysicalMemory, physicalAddress: u32, virtualAddress: u32,
                      present: bool, readWrite: bool, user: bool) returns (ok: bool)
      requires Valid() && mem.Valid()
      modifies this, entries, mem
      ensures Valid() && mem.Valid() && mem.bytes == old(mem.bytes)
      ensures var d := DirectoryIndex(virtualAddress);
              if old(entries[d].Present()) then
                ok && mem.next == old(mem.next) && entries[..] == old(entries[..])
              else if ok then
                && mem.next == old(mem.next) + Memory.PageSize
                && entries[..] == old(entries[..])[d := New(old(mem.next), true, true, true)]
              else
                mem.next == old(mem.next) && entries[..] == old(entries[..])
      ensures ok ==> tables == MapLeaf(old(tables), physicalAddress, virtualAddress, present, readWrite, user)
      ensures !ok ==> tables == old(tables)
      ensures !ok ==> !old(entries[DirectoryIndex(virtualAddress)].Present())
                      && old(mem.next) + Memory.PageSize >= Memory.AddressLimit
    {
      var top := DirectoryIndex(virtualAddress);
      if !entries[top].Present() {
        var page := mem.AllocatePages(1);
        if page.None? {
          return false;
        }
        entries[top] := New(page.value, true, true, true);
        tables := tables[top := EmptyTable()];
      }
      tables := tables[top := MapAddress1(tables[top], physicalAddress, virtualAddress, present, readWrite, user)];
      ok := true;
    }
  }
}
