/** The Linear Executable (LE) loader: after the "LE" signature it walks the
    object table; for each object it takes pages from the allocator, copies
    the object's bytes there from a packed segment area that starts at the
    end of the header, and maps each of the object's pages, as listed in the
    big-endian page map, into a run of virtual pages that follows the runs of
    the objects before it.  It returns the first virtual address after the
    last run. */
module LinearExecutable {
  import opened Bytes
  import opened Results
  import Memory
  import Paging

  const LetterL: byte := 0x4C
  const LetterE: byte := 0x45

  /** The length of the header fields the loader reads. */
  const HeaderSize: nat := 0x4C

  /** The length of one object-table entry. */
  const ObjectEntrySize: nat := 0x18

  const PageSize: nat := Memory.PageSize

  datatype LeError =
    | BadSignature   // the image does not start with "LE"
    | OutOfMemory    // the allocator had no room left (the original's `unwrap` panics)

  /** The first byte, and behind an "L" the second, lie inside the input:
      the signature test reads no further. */
  predicate TagReadable(input: seq<byte>)
  {
    1 <= |input| && (input[0] == LetterL ==> 2 <= |input|)
  }

  /** The signature test. */
  predicate SignatureOk(input: seq<byte>)
    requires TagReadable(input)
  {
    input[0] == LetterL && input[1] == LetterE
  }

  /** Where the object table starts. */
  function ObjectTableOffset(input: seq<byte>): u32
    requires HeaderSize <= |input|
  {
    Le32(input, 0x40)
  }

  /** How many objects the table holds. */
  function ObjectCount(input: seq<byte>): u32
    requires HeaderSize <= |input|
  {
    Le32(input, 0x44)
  }

  /** Where the page map starts. */
  function PageMapOffset(input: seq<byte>): u32
    requires HeaderSize <= |input|
  {
    Le32(input, 0x48)
  }

  /** The header and the whole object table lie inside the input; an empty
      object table is never read. */
  predicate ObjectTableFits(input: seq<byte>)
  {
    && HeaderSize <= |input|
    && (ObjectCount(input) == 0 || ObjectTableOffset(input) + ObjectEntrySize * ObjectCount(input) <= |input|)
  }

  /** One object-table entry, as the loader reads it (the four name bytes
      that follow are only printed). */
  datatype ObjectEntry = ObjectEntry(virtualSize: u32, baseAddress: u32, flags: u32,
                                     pageMapIndex: u32, pageMapEntries: u32)

  /** Entry i of the object table: five little-endian u32 fields at offsets
      0, 4, 8, 12 and 16 of its 24 bytes. */
  function Object(input: seq<byte>, i: nat): (o: ObjectEntry)
    requires ObjectTableFits(input) && i < ObjectCount(input)
    ensures var at := ObjectTableOffset(input) + ObjectEntrySize * i;
            && at + ObjectEntrySize <= |input|
            && o.virtualSize == Le32(input, at) && o.pageMapIndex == Le32(input, at + 12)
            && o.pageMapEntries == Le32(input, at + 16)
  {
    var at := ObjectTableOffset(input) + ObjectEntrySize * i;
    ObjectEntry(Le32(input, at), Le32(input, at + 4), Le32(input, at + 8), Le32(input, at + 12), Le32(input, at + 16))
  }

  /** The whole object table, in table order. */
  function Objects(input: seq<byte>): (r: seq<ObjectEntry>)
    requires ObjectTableFits(input)
    ensures |r| == ObjectCount(input)
    ensures forall i :: 0 <= i < |r| ==> r[i] == Object(input, i)
  {
    seq(ObjectCount(input), i requires 0 <= i < ObjectCount(input) => Object(input, i))
  }

  /** Page-map entry j: a big-endian u32 whose top 24 bits are the number of
      a page relative to its object's run of virtual pages. */
  function PageNumber(input: seq<byte>, j: nat): (r: nat)
    requires HeaderSize <= |input| && PageMapOffset(input) + 4 * j + 4 <= |input|
    ensures r < 0x100_0000
    ensures var at := PageMapOffset(input) + 4 * j;
            r == 0x1_0000 * (input[at] as int) + 0x100 * (input[at + 1] as int) + input[at + 2] as int
  {
    Be32High24(input, PageMapOffset(input) + 4 * j);
    Be32(input, PageMapOffset(input) + 4 * j) / 0x100
  }

  /** Where the bytes of object i start: objects are packed one after the
      other from headerSize on, each taking its virtual size. */
  function SegmentStart(objects: seq<ObjectEntry>, headerSize: nat, i: nat): nat
    requires i <= |objects|
  {
    if i == 0 then headerSize
    else SegmentStart(objects, headerSize, i - 1) + objects[i - 1].virtualSize
  }

  /** The number of pages of the objects before object i. */
  function PagesBefore(objects: seq<ObjectEntry>, i: nat): nat
    requires i <= |objects|
  {
    if i == 0 then 0
    else PagesBefore(objects, i - 1) + objects[i - 1].pageMapEntries
  }

  /** The first virtual address of object i's run of pages. */
  function VirtualPage(objects: seq<ObjectEntry>, virtualBase: u32, i: nat): nat
    requires i <= |objects|
  {
    virtualBase + PageSize * PagesBefore(objects, i)
  }

  /** An object's page-map index is 1-based (the original subtracts 1 from
      it) and its run of page-map entries, when it has any, lies inside the
      input. */
  predicate PageMapFits(input: seq<byte>, o: ObjectEntry)
    requires HeaderSize <= |input|
  {
    && 1 <= o.pageMapIndex
    && (o.pageMapEntries == 0 || PageMapOffset(input) + 4 * (o.pageMapIndex - 1 + o.pageMapEntries) <= |input|)
  }

  /** The virtual address that page k of object i is mapped to: the page
      number read from the page map, counted from the object's run. */
  function VirtualOf(input: seq<byte>, objects: seq<ObjectEntry>, virtualBase: u32, i: nat, k: nat): nat
    requires HeaderSize <= |input| && i < |objects|
    requires PageMapFits(input, objects[i]) && k < objects[i].pageMapEntries
  {
    VirtualPage(objects, virtualBase, i) + PageSize * PageNumber(input, objects[i].pageMapIndex - 1 + k)
  }

  /** Page k of object i lands below 4 GiB. */
  predicate PageFits(input: seq<byte>, objects: seq<ObjectEntry>, virtualBase: u32, i: nat, k: nat)
    requires HeaderSize <= |input| && i < |objects|
    requires PageMapFits(input, objects[i]) && k < objects[i].pageMapEntries
  {
    VirtualOf(input, objects, virtualBase, i, k) < Memory.AddressLimit
  }

  /** What object i needs: a readable page-map run and page addresses
      that fit in a u32. */
  predicate ObjectLoadable(input: seq<byte>, objects: seq<ObjectEntry>, virtualBase: u32, i: nat)
    requires HeaderSize <= |input| && i < |objects|
  {
    && PageMapFits(input, objects[i])
    && forall k :: 0 <= k < objects[i].pageMapEntries ==> PageFits(input, objects, virtualBase, i, k)
  }

  /** The bytes of every object fit in its pages. */
  predicate SegmentsFit(objects: seq<ObjectEntry>)
  {
    forall i :: 0 <= i < |objects| ==> objects[i].virtualSize <= PageSize * objects[i].pageMapEntries
  }

  /** Every object of objects is loadable. */
  predicate Layout(input: seq<byte>, objects: seq<ObjectEntry>, virtualBase: u32)
  {
    HeaderSize <= |input| && forall i :: 0 <= i < |objects| ==> ObjectLoadable(input, objects, virtualBase, i)
  }

  /** What load_le demands of an "LE" image beyond its signature: every
      field it reads lies inside the input, page-map indices are 1-based,
      the packed segments (if there are any) end inside the input and each
      fits in its pages, and no virtual address computed overflows a u32. */
  predicate Loadable(input: seq<byte>, headerSize: nat, virtualBase: u32)
  {
    ObjectTableFits(input) && ObjectsLoadable(input, Objects(input), headerSize, virtualBase)
  }

  /** objects is the object table of input. */
  predicate TableOf(input: seq<byte>, objects: seq<ObjectEntry>)
    requires ObjectTableFits(input)
  {
    |objects| == ObjectCount(input) && forall i :: 0 <= i < |objects| ==> objects[i] == Object(input, i)
  }

  /** What load_le demands of the objects of an image. */
  predicate ObjectsLoadable(input: seq<byte>, objects: seq<ObjectEntry>, headerSize: nat, virtualBase: u32)
  {
    && SegmentsInside(input, objects, headerSize)
    && VirtualPage(objects, virtualBase, |objects|) < Memory.AddressLimit
    && SegmentsFit(objects)
    && Layout(input, objects, virtualBase)
  }

  /** An image with no objects is loadable whatever its object-table offset
      and its header size: neither is used. */
  lemma NoObjectsLoadable(input: seq<byte>, headerSize: nat, virtualBase: u32)
    requires HeaderSize <= |input| && ObjectCount(input) == 0
    ensures Loadable(input, headerSize, virtualBase)
  {
  }

  /** The packed segments end inside the input; with no objects there is
      nothing to read. */
  predicate SegmentsInside(input: seq<byte>, objects: seq<ObjectEntry>, headerSize: nat)
  {
    |objects| == 0 || SegmentStart(objects, headerSize, |objects|) <= |input|
  }

  /** The bytes of object i. */
  function Segment(input: seq<byte>, objects: seq<ObjectEntry>, headerSize: nat, i: nat): (s: seq<byte>)
    requires i < |objects| && SegmentStart(objects, headerSize, |objects|) <= |input|
    ensures |s| == objects[i].virtualSize
  {
    SegmentsPacked(objects, headerSize, i, i + 1);
    SegmentsPacked(objects, headerSize, i + 1, |objects|);
    input[SegmentStart(objects, headerSize, i)..SegmentStart(objects, headerSize, i) + objects[i].virtualSize]
  }

  /** The pages granted to objects 0 .. |bases|-1: granted at or after
      start and below next, page aligned, each object's pages after the
      previous object's. */
  ghost predicate Granted(objects: seq<ObjectEntry>, bases: seq<nat>, start: nat, next: nat)
    requires |bases| <= |objects|
  {
    && (forall i :: 0 <= i < |bases| ==> GrantedTo(objects, bases, start, next, i))
    && (forall i, j :: 0 <= i < j < |bases| ==> Ordered(objects, bases, i, j))
  }

  /** Object i's pages start at bases[i], page aligned, and lie in
      [start, next) below 4 GiB. */
  ghost predicate GrantedTo(objects: seq<ObjectEntry>, bases: seq<nat>, start: nat, next: nat, i: nat)
    requires i < |bases| <= |objects|
  {
    && start <= bases[i] && bases[i] % PageSize == 0
    && bases[i] + PageSize * objects[i].pageMapEntries <= next
    && bases[i] + PageSize * objects[i].pageMapEntries < Memory.AddressLimit
  }

  /** Object i's pages end where object j's can start at the earliest. */
  ghost predicate Ordered(objects: seq<ObjectEntry>, bases: seq<nat>, i: nat, j: nat)
    requires i < j < |bases| <= |objects|
  {
    bases[i] + PageSize * objects[i].pageMapEntries <= bases[j]
  }

  /** The pages of objects 0 .. |bases|-1 starting at bases end below
      4 GiB. */
  predicate BasesFit(objects: seq<ObjectEntry>, bases: seq<nat>)
    requires |bases| <= |objects|
  {
    forall i :: 0 <= i < |bases| ==> bases[i] + PageSize * objects[i].pageMapEntries < Memory.AddressLimit
  }

  /** The bytes of objects 0 .. |bases|-1 lie at bases in memory. */
  ghost predicate Loaded(input: seq<byte>, objects: seq<ObjectEntry>, headerSize: nat,
                         bytes: map<nat, byte>, bases: seq<nat>)
  {
    && |bases| <= |objects| && SegmentsInside(input, objects, headerSize)
    && forall i :: 0 <= i < |bases| ==> SegmentLoaded(input, objects, headerSize, bytes, bases, i)
  }

  /** The bytes of object i lie at bases[i]. */
  ghost predicate SegmentLoaded(input: seq<byte>, objects: seq<ObjectEntry>, headerSize: nat,
                                bytes: map<nat, byte>, bases: seq<nat>, i: nat)
    requires i < |bases| <= |objects| && SegmentStart(objects, headerSize, |objects|) <= |input|
  {
    Memory.Holds(bytes, bases[i], Segment(input, objects, headerSize, i))
  }

  /** The mappings object i asks for when its pages start at base: page k
      maps base + 4096 k to its virtual address, in page-map order. */
  function ObjectMappings(input: seq<byte>, objects: seq<ObjectEntry>, virtualBase: u32, i: nat, base: nat)
    : (r: seq<Paging.Mapping>)
    requires HeaderSize <= |input| && i < |objects| && ObjectLoadable(input, objects, virtualBase, i)
    requires base + PageSize * objects[i].pageMapEntries < Memory.AddressLimit
    ensures |r| == objects[i].pageMapEntries
    ensures forall k :: 0 <= k < |r| ==>
              r[k].physical == base + PageSize * k && r[k].virtual == VirtualOf(input, objects, virtualBase, i, k)
  {
    seq(objects[i].pageMapEntries, k requires 0 <= k < objects[i].pageMapEntries =>
      assert PageFits(input, objects, virtualBase, i, k);
      Paging.Mapping(base + PageSize * k, VirtualOf(input, objects, virtualBase, i, k)))
  }

  /** Every mapping load_le issues for objects 0 .. |bases|-1, whose pages
      start at bases: object by object, and page-map order within each. */
  function Mappings(input: seq<byte>, objects: seq<ObjectEntry>, virtualBase: u32, bases: seq<nat>)
    : seq<Paging.Mapping>
    requires Layout(input, objects, virtualBase) && |bases| <= |objects| && BasesFit(objects, bases)
    decreases |bases|
  {
    if |bases| == 0 then []
    else
      var n := |bases| - 1;
      Mappings(input, objects, virtualBase, bases[..n]) + ObjectMappings(input, objects, virtualBase, n, bases[n])
  }

  // ---------------------------------------------------------------------
  // load_le
  // ---------------------------------------------------------------------

  /** load_le: refuse an image without the "LE" signature, changing
      nothing; otherwise load every object and return the first virtual
      address after the last object's pages.  The pages granted to the
      objects are returned as bases. */
  method LoadLe(input: seq<byte>, headerSize: nat, virtualBase: u32,
                pageTable: Paging.PageTable, mem: Memory.PhysicalMemory)
    returns (r: Result<u32, LeError>, ghost bases: seq<nat>)
    requires TagReadable(input)
    requires SignatureOk(input) ==> Loadable(input, headerSize, virtualBase)
    requires pageTable.Valid() && mem.Valid()
    modifies pageTable, pageTable.entries, mem
    ensures pageTable.Valid() && mem.Valid()
    ensures r == Err(BadSignature) <==> !SignatureOk(input)
    ensures r.Err? && SignatureOk(input) ==> r == Err(OutOfMemory)
    ensures !SignatureOk(input) ==>
              && pageTable.tables == old(pageTable.tables) && pageTable.entries[..] == old(pageTable.entries[..])
              && mem.next == old(mem.next) && mem.bytes == old(mem.bytes)
    ensures r.Ok? ==>
              var objects := Objects(input);
              && |bases| == |objects|
              && Granted(objects, bases, old(mem.next), mem.next) && BasesFit(objects, bases)
              && r.value == VirtualPage(objects, virtualBase, |objects|)
              && pageTable.tables == Paging.ApplyAll(old(pageTable.tables), Mappings(input, objects, virtualBase, bases))
              && Loaded(input, objects, headerSize, mem.bytes, bases)
    ensures SignatureOk(input)
            && old(mem.next) + 2 * PageSize * PagesBefore(Objects(input), |Objects(input)|) < Memory.AddressLimit
            ==> r.Ok?
    ensures Memory.Kept(old(mem.bytes), mem.bytes, old(mem.next), mem.next)
  {
    bases := [];
    if input[0] != LetterL || input[1] != LetterE {
      return Err(BadSignature), bases;
    }
    r, bases := LoadObjects(input, headerSize, virtualBase, Objects(input), pageTable, mem);
  }

  /** The loop of load_le over the object table, behind a good signature;
      objects is the table it reads. */
  method LoadObjects(input: seq<byte>, headerSize: nat, virtualBase: u32, ghost objects: seq<ObjectEntry>,
                     pageTable: Paging.PageTable, mem: Memory.PhysicalMemory)
    returns (r: Result<u32, LeError>, ghost bases: seq<nat>)
    requires ObjectTableFits(input) && TableOf(input, objects)
    requires ObjectsLoadable(input, objects, headerSize, virtualBase)
    requires pageTable.Valid() && mem.Valid()
    modifies pageTable, pageTable.entries, mem
    ensures pageTable.Valid() && mem.Valid()
    ensures r.Ok? || r == Err(OutOfMemory)
    ensures r.Ok? ==>
              && |bases| == |objects|
              && Granted(objects, bases, old(mem.next), mem.next) && BasesFit(objects, bases)
              && r.value == VirtualPage(objects, virtualBase, |objects|)
              && pageTable.tables == Paging.ApplyAll(old(pageTable.tables), Mappings(input, objects, virtualBase, bases))
              && Loaded(input, objects, headerSize, mem.bytes, bases)
    ensures old(mem.next) + 2 * PageSize * PagesBefore(objects, |objects|) < Memory.AddressLimit ==> r.Ok?
    ensures Memory.Kept(old(mem.bytes), mem.bytes, old(mem.next), mem.next)
  {
    bases := [];
    var count := ObjectCount(input);
    var cursor := headerSize;
    var page: u32 := virtualBase;
    ghost var tables0, next0, bytes0 := pageTable.tables, mem.next, mem.bytes;
    for index := 0 to count
      invariant pageTable.Valid() && mem.Valid() && next0 <= mem.next
      invariant |bases| == index
      invariant cursor == SegmentStart(objects, headerSize, index)
      invariant page == VirtualPage(objects, virtualBase, index)
      invariant Granted(objects, bases, next0, mem.next) && BasesFit(objects, bases)
      invariant pageTable.tables == Paging.ApplyAll(tables0, Mappings(input, objects, virtualBase, bases))
      invariant Loaded(input, objects, headerSize, mem.bytes, bases)
      invariant WithinBudget(objects, next0, bytes0, mem.next, mem.bytes, index)
    {
      var entry := Object(input, index);
      assert entry == objects[index];
      var ok, base := LoadNext(input, objects, headerSize, virtualBase, index, entry, cursor, page,
                               bases, next0, bytes0, tables0, pageTable, mem);
      if !ok {
        return Err(OutOfMemory), bases;
      }
      bases := bases + [base];
      cursor := cursor + entry.virtualSize;
      PagesGrow(objects, virtualBase, index + 1, |objects|);
      page := page + entry.pageMapEntries * PageSize;
    }
    r := Ok(page);
  }

  /** LoadObject within the whole load: the pages granted since next0 stay
      within the budget of two pages per object page, and a failure means
      the budget of all objects reaches 4 GiB. */
  method LoadNext(input: seq<byte>, ghost objects: seq<ObjectEntry>, headerSize: nat, virtualBase: u32,
                  index: nat, entry: ObjectEntry, cursor: nat, page: u32,
                  ghost bases: seq<nat>, ghost next0: nat, ghost bytes0: map<nat, byte>, ghost tables0: Paging.Tables,
                  pageTable: Paging.PageTable, mem: Memory.PhysicalMemory)
    returns (ok: bool, base: nat)
    requires SegmentsInside(input, objects, headerSize) && SegmentsFit(objects)
    requires Layout(input, objects, virtualBase)
    requires index == |bases| < |objects| && entry == objects[index]
    requires cursor == SegmentStart(objects, headerSize, index) && page == VirtualPage(objects, virtualBase, index)
    requires pageTable.Valid() && mem.Valid() && next0 <= mem.next && Paging.WellFormed(tables0)
    requires Granted(objects, bases, next0, mem.next) && BasesFit(objects, bases)
    requires pageTable.tables == Paging.ApplyAll(tables0, Mappings(input, objects, virtualBase, bases))
    requires Loaded(input, objects, headerSize, mem.bytes, bases)
    requires WithinBudget(objects, next0, bytes0, mem.next, mem.bytes, index)
    modifies pageTable, pageTable.entries, mem
    ensures pageTable.Valid() && mem.Valid() && next0 <= mem.next
    ensures ok ==>
              && Granted(objects, bases + [base], next0, mem.next) && BasesFit(objects, bases + [base])
              && pageTable.tables == Paging.ApplyAll(tables0, Mappings(input, objects, virtualBase, bases + [base]))
              && Loaded(input, objects, headerSize, mem.bytes, bases + [base])
              && WithinBudget(objects, next0, bytes0, mem.next, mem.bytes, index + 1)
    ensures !ok ==> && next0 + 2 * PageSize * PagesBefore(objects, |objects|) >= Memory.AddressLimit
                    && Memory.Kept(bytes0, mem.bytes, next0, mem.next)
  {
    ghost var next, bytes := mem.next, mem.bytes;
    ok, base := LoadObject(input, objects, headerSize, virtualBase, index, entry, cursor, page,
                           bases, next0, tables0, pageTable, mem);
    FrameStep(bytes0, bytes, mem.bytes, next0, next, mem.next, entry.pageMapEntries);
    if !ok {
      OutOfBudget(objects, next0, bytes0, next, bytes, index);
    } else {
      BudgetStep(objects, next0, bytes0, next, bytes, mem.next, mem.bytes, index);
    }
  }

  /** One round of load_le's loop, for object index: grant its pages,
      copy its bytes there and map each of its pages.  Without the pages it
      reports failure. */
  method LoadObject(input: seq<byte>, ghost objects: seq<ObjectEntry>, headerSize: nat, virtualBase: u32,
                    index: nat, entry: ObjectEntry, cursor: nat, page: u32,
                    ghost bases: seq<nat>, ghost next0: nat, ghost tables0: Paging.Tables,
                    pageTable: Paging.PageTable, mem: Memory.PhysicalMemory)
    returns (ok: bool, base: nat)
    requires SegmentStart(objects, headerSize, |objects|) <= |input| && SegmentsFit(objects)
    requires Layout(input, objects, virtualBase)
    requires index == |bases| < |objects| && entry == objects[index]
    requires cursor == SegmentStart(objects, headerSize, index) && page == VirtualPage(objects, virtualBase, index)
    requires pageTable.Valid() && mem.Valid() && next0 <= mem.next && Paging.WellFormed(tables0)
    requires Granted(objects, bases, next0, mem.next) && BasesFit(objects, bases)
    requires pageTable.tables == Paging.ApplyAll(tables0, Mappings(input, objects, virtualBase, bases))
    requires Loaded(input, objects, headerSize, mem.bytes, bases)
    modifies pageTable, pageTable.entries, mem
    ensures pageTable.Valid() && mem.Valid() && old(mem.next) <= mem.next
    ensures ok ==>
              && Granted(objects, bases + [base], next0, mem.next) && BasesFit(objects, bases + [base])
              && pageTable.tables == Paging.ApplyAll(tables0, Mappings(input, objects, virtualBase, bases + [base]))
              && Loaded(input, objects, headerSize, mem.bytes, bases + [base])
    ensures mem.next <= old(mem.next) + 2 * PageSize * entry.pageMapEntries
    ensures !ok ==> old(mem.next) + 2 * PageSize * entry.pageMapEntries >= Memory.AddressLimit
    ensures Memory.Kept(old(mem.bytes), mem.bytes, old(mem.next), old(mem.next) + PageSize * entry.pageMapEntries)
    ensures mem.bytes == old(mem.bytes) || old(mem.next) + PageSize * entry.pageMapEntries <= mem.next
  {
    TwoSpans(entry.pageMapEntries);
    var grant := mem.AllocatePages(entry.pageMapEntries);
    if grant.None? {
      return false, 0;
    }
    base := grant.value;
    GrantedExtend(objects, bases, next0, base, mem.next);
    LoadSegment(input, objects, headerSize, bases, next0, cursor, entry.virtualSize, base, mem);
    ghost var granted := mem.next;
    GrantedFits(objects, bases + [base], next0, granted);
    ok := MapObject(input, objects, virtualBase, index, entry, page, base, pageTable, mem);
    if !ok {
      return;
    }
    GrantedWiden(objects, bases + [base], next0, granted, mem.next);
    MappingsStep(input, objects, virtualBase, bases, base);
    Paging.ApplyAllAppend(tables0, Mappings(input, objects, virtualBase, bases),
                          ObjectMappings(input, objects, virtualBase, index, base));
  }

  /** Two runs of n pages take twice the bytes of one. */
  lemma TwoSpans(n: nat)
    ensures 2 * PageSize * n == PageSize * n + PageSize * n
  {
  }

  /** The copy of object |bases| from the segment cursor: its bytes now lie
      at base, and the bytes of the objects before it, whose pages end at or
      below base, stay where they are. */
  method LoadSegment(input: seq<byte>, ghost objects: seq<ObjectEntry>, headerSize: nat, ghost bases: seq<nat>,
                     ghost start: nat, cursor: nat, size: nat, base: nat, mem: Memory.PhysicalMemory)
    requires |bases| < |objects| && SegmentStart(objects, headerSize, |objects|) <= |input|
    requires cursor == SegmentStart(objects, headerSize, |bases|) && size == objects[|bases|].virtualSize
    requires SegmentsFit(objects)
    requires mem.Valid() && Granted(objects, bases, start, base)
    requires Loaded(input, objects, headerSize, mem.bytes, bases)
    modifies mem
    ensures mem.Valid() && mem.next == old(mem.next)
    ensures Loaded(input, objects, headerSize, mem.bytes, bases + [base])
    ensures Memory.Kept(old(mem.bytes), mem.bytes, base, base + PageSize * objects[|bases|].pageMapEntries)
  {
    SegmentsPacked(objects, headerSize, |bases|, |bases| + 1);
    SegmentsPacked(objects, headerSize, |bases| + 1, |objects|);
    var segment := input[cursor..cursor + size];
    assert segment == Segment(input, objects, headerSize, |bases|);
    ghost var before := mem.bytes;
    mem.Copy(segment, base);
    Memory.KeptWiden(before, mem.bytes, base, base + size, base, base + PageSize * objects[|bases|].pageMapEntries);
    LoadedExtend(input, objects, headerSize, before, mem.bytes, bases, start, base);
  }

  /** The inner loop of load_le for object index: map each of its pages,
      in page-map order. */
  method MapObject(input: seq<byte>, ghost objects: seq<ObjectEntry>, virtualBase: u32, index: nat,
                   entry: ObjectEntry, page: u32, base: u32,
                   pageTable: Paging.PageTable, mem: Memory.PhysicalMemory) returns (ok: bool)
    requires HeaderSize <= |input| && index < |objects| && entry == objects[index]
    requires ObjectLoadable(input, objects, virtualBase, index)
    requires page == VirtualPage(objects, virtualBase, index)
    requires base + PageSize * entry.pageMapEntries < Memory.AddressLimit
    requires pageTable.Valid() && mem.Valid()
    modifies pageTable, pageTable.entries, mem
    ensures pageTable.Valid() && mem.Valid() && old(mem.next) <= mem.next && mem.bytes == old(mem.bytes)
    ensures ok ==> pageTable.tables ==
                     Paging.ApplyAll(old(pageTable.tables), ObjectMappings(input, objects, virtualBase, index, base))
    ensures mem.next <= old(mem.next) + PageSize * entry.pageMapEntries
    ensures !ok ==> old(mem.next) + PageSize * entry.pageMapEntries >= Memory.AddressLimit
  {
    ghost var mappings := ObjectMappings(input, objects, virtualBase, index, base);
    ok := MapPages(input, objects, virtualBase, index, entry, page, base, mappings, pageTable, mem);
    if ok {
      Paging.ApplyPrefixAll(old(pageTable.tables), mappings, |mappings|);
      assert mappings[..|mappings|] == mappings;
    }
  }

  /** The loop of MapObject: map the pages of object index one by one,
      stopping at the first that cannot be mapped. */
  method MapPages(input: seq<byte>, ghost objects: seq<ObjectEntry>, virtualBase: u32, index: nat,
                  entry: ObjectEntry, page: u32, base: u32, ghost mappings: seq<Paging.Mapping>,
                  pageTable: Paging.PageTable, mem: Memory.PhysicalMemory) returns (ok: bool)
    requires HeaderSize <= |input| && index < |objects| && entry == objects[index]
    requires PageMapFits(input, entry)
    requires page == VirtualPage(objects, virtualBase, index)
    requires base + PageSize * entry.pageMapEntries < Memory.AddressLimit
    requires |mappings| == entry.pageMapEntries
    requires forall k :: 0 <= k < |mappings| ==>
               mappings[k].physical == base + PageSize * k && mappings[k].virtual == VirtualOf(input, objects, virtualBase, index, k)
    requires pageTable.Valid() && mem.Valid()
    modifies pageTable, pageTable.entries, mem
    ensures pageTable.Valid() && mem.Valid() && old(mem.next) <= mem.next && mem.bytes == old(mem.bytes)
    ensures ok ==> pageTable.tables == Paging.ApplyPrefix(old(pageTable.tables), mappings, |mappings|)
    ensures mem.next <= old(mem.next) + PageSize * entry.pageMapEntries
    ensures !ok ==> old(mem.next) + PageSize * entry.pageMapEntries >= Memory.AddressLimit
  {
    ghost var tables0 := pageTable.tables;
    var mapFrom: nat := base;
    for k := 0 to entry.pageMapEntries
      invariant pageTable.Valid() && mem.Valid() && old(mem.next) <= mem.next && mem.bytes == old(mem.bytes)
      invariant mapFrom == base + PageSize * k
      invariant mem.next <= old(mem.next) + (mapFrom - base)
      invariant pageTable.tables == Paging.ApplyPrefix(tables0, mappings, k)
    {
      NextPage(base, k, entry.pageMapEntries);
      ghost var before := mem.next;
      ok := MapPage(input, objects, virtualBase, index, entry, page, k, mapFrom, tables0, mappings, pageTable, mem);
      if !ok {
        OutOfPages(old(mem.next), before, k, entry.pageMapEntries);
        return;
      }
      mapFrom := mapFrom + PageSize;
    }
    ok := true;
  }

  /** The body of the inner loop of load_le: read the page number of page k
      of the object from the page map and map_address the k-th allocated
      page to it, present and writable, not user-accessible. */
  method MapPage(input: seq<byte>, ghost objects: seq<ObjectEntry>, virtualBase: u32, index: nat,
                 entry: ObjectEntry, page: u32, k: nat, mapFrom: nat, ghost tables0: Paging.Tables,
                 ghost mappings: seq<Paging.Mapping>,
                 pageTable: Paging.PageTable, mem: Memory.PhysicalMemory) returns (ok: bool)
    requires HeaderSize <= |input| && index < |objects| && entry == objects[index]
    requires page == VirtualPage(objects, virtualBase, index)
    requires PageMapFits(input, entry) && k < entry.pageMapEntries
    requires Paging.WellFormed(tables0) && pageTable.Valid() && mem.Valid()
    requires k < |mappings| && mappings[k].physical == mapFrom
    requires mappings[k].virtual == VirtualOf(input, objects, virtualBase, index, k)
    requires pageTable.tables == Paging.ApplyPrefix(tables0, mappings, k)
    modifies pageTable, pageTable.entries, mem
    ensures pageTable.Valid() && mem.Valid() && old(mem.next) <= mem.next && mem.bytes == old(mem.bytes)
    ensures ok ==> pageTable.tables ==
                     Paging.ApplyPrefix(tables0, mappings, k + 1)
    ensures mem.next <= old(mem.next) + PageSize
    ensures !ok ==> old(mem.next) + PageSize >= Memory.AddressLimit
  {
    var pageNumber := PageNumber(input, entry.pageMapIndex - 1 + k);
    var mapTo := page + PageSize * pageNumber;
    assert mapTo == VirtualOf(input, objects, virtualBase, index, k);
    ok := pageTable.MapAddress(mem, mapFrom, mapTo, true, true, false);
  }

  /** The page after page k of a run of n pages, k < n, is page k + 1 and
      still lies within the run. */
  lemma NextPage(base: nat, k: nat, n: nat)
    requires k < n
    ensures base + PageSize * k + PageSize == base + PageSize * (k + 1) <= base + PageSize * n
  {
  }

  /** A run of n pages that is refused its page k + 1, having
      taken at most one page per page before it, does not fit below 4 GiB. */
  lemma OutOfPages(next0: nat, next: nat, k: nat, n: nat)
    requires k < n && next <= next0 + PageSize * k && next + PageSize >= Memory.AddressLimit
    ensures next0 + PageSize * n >= Memory.AddressLimit
  {
    NextPage(0, k, n);
  }

  // ---------------------------------------------------------------------
  // Properties of the layout
  // ---------------------------------------------------------------------

  /** What load_le has taken so far, with objects 0 .. i-1 loaded from a
      frontier of next0: at most two pages per page of those objects (each
      object's own pages, and at most one page table for each of them), and
      every byte below next0 or above the frontier kept. */
  ghost predicate WithinBudget(objects: seq<ObjectEntry>, next0: nat, bytes0: map<nat, byte>,
                               next: nat, bytes: map<nat, byte>, i: nat)
    requires i <= |objects|
  {
    next0 <= next <= next0 + 2 * PageSize * PagesBefore(objects, i) && Memory.Kept(bytes0, bytes, next0, next)
  }

  /** Loading object i within its own budget keeps the whole load within
      budget. */
  lemma BudgetStep(objects: seq<ObjectEntry>, next0: nat, bytes0: map<nat, byte>, next: nat,
                   bytes: map<nat, byte>, next': nat, bytes': map<nat, byte>, i: nat)
    requires i < |objects| && WithinBudget(objects, next0, bytes0, next, bytes, i)
    requires next <= next' <= next + 2 * PageSize * objects[i].pageMapEntries
    requires Memory.Kept(bytes0, bytes', next0, next')
    ensures WithinBudget(objects, next0, bytes0, next', bytes', i + 1)
  {
    PagesGrow(objects, 0, i + 1, |objects|);
  }

  /** Writing only into the pages an object is granted, from a frontier
      next, keeps every byte loaded before next0 or past the new frontier. */
  lemma FrameStep(bytes0: map<nat, byte>, bytes: map<nat, byte>, bytes': map<nat, byte>,
                  next0: nat, next: nat, next': nat, pages: nat)
    requires next0 <= next <= next' && Memory.Kept(bytes0, bytes, next0, next)
    requires Memory.Kept(bytes, bytes', next, next + PageSize * pages)
    requires bytes' == bytes || next + PageSize * pages <= next'
    ensures Memory.Kept(bytes0, bytes', next0, next')
  {
    if bytes' == bytes {
      Memory.KeptWiden(bytes0, bytes', next0, next, next0, next');
    } else {
      Memory.KeptWiden(bytes, bytes', next, next + PageSize * pages, next, next');
      Memory.KeptTrans(bytes0, bytes, bytes', next0, next, next');
    }
  }

  /** A refusal for object i means the budget of all objects reaches 4 GiB. */
  lemma OutOfBudget(objects: seq<ObjectEntry>, next0: nat, bytes0: map<nat, byte>, next: nat,
                    bytes: map<nat, byte>, i: nat)
    requires i < |objects| && WithinBudget(objects, next0, bytes0, next, bytes, i)
    requires next + 2 * PageSize * objects[i].pageMapEntries >= Memory.AddressLimit
    ensures next0 + 2 * PageSize * PagesBefore(objects, |objects|) >= Memory.AddressLimit
  {
    PagesGrow(objects, 0, i + 1, |objects|);
  }

  /** Segments are packed in object order: object i's bytes end where those
      of any later object can start at the earliest. */
  lemma {:induction false} SegmentsPacked(objects: seq<ObjectEntry>, headerSize: nat, i: nat, j: nat)
    requires i <= j <= |objects|
    ensures SegmentStart(objects, headerSize, i) <= SegmentStart(objects, headerSize, j)
    ensures i < j ==> SegmentStart(objects, headerSize, i) + objects[i].virtualSize <= SegmentStart(objects, headerSize, j)
    decreases j
  {
    if i < j {
      SegmentsPacked(objects, headerSize, i, j - 1);
    }
  }

  /** The page runs of the objects follow each other. */
  lemma {:induction false} PagesGrow(objects: seq<ObjectEntry>, virtualBase: u32, i: nat, j: nat)
    requires i <= j <= |objects|
    ensures PagesBefore(objects, i) <= PagesBefore(objects, j)
    ensures VirtualPage(objects, virtualBase, i) <= VirtualPage(objects, virtualBase, j)
    decreases j
  {
    if i < j {
      PagesGrow(objects, virtualBase, i, j - 1);
    }
  }

  /** Writing object |bases| at base, above the pages of every earlier
      object, loads it and keeps the earlier objects loaded. */
  lemma LoadedExtend(input: seq<byte>, objects: seq<ObjectEntry>, headerSize: nat,
                     before: map<nat, byte>, after: map<nat, byte>, bases: seq<nat>, start: nat, base: nat)
    requires |bases| < |objects| && SegmentsFit(objects) && Granted(objects, bases, start, base)
    requires Loaded(input, objects, headerSize, before, bases)
    requires Memory.Writes(before, after, base, Segment(input, objects, headerSize, |bases|))
    ensures Loaded(input, objects, headerSize, after, bases + [base])
  {
    var grown := bases + [base];
    forall i | 0 <= i < |grown|
      ensures SegmentLoaded(input, objects, headerSize, after, grown, i)
    {
      if i < |bases| {
        assert grown[i] == bases[i];
        assert SegmentLoaded(input, objects, headerSize, before, bases, i);
        assert GrantedTo(objects, bases, start, base, i);
        Memory.WriteKeeps(before, after, base, Segment(input, objects, headerSize, |bases|),
                          bases[i], Segment(input, objects, headerSize, i));
      } else {
        assert grown[i] == base;
      }
    }
  }

  /** A grant of fresh pages at base, above every earlier grant, extends
      the grants. */
  lemma GrantedExtend(objects: seq<ObjectEntry>, bases: seq<nat>, start: nat, base: nat, next: nat)
    requires |bases| < |objects| && Granted(objects, bases, start, base)
    requires start <= base && base % PageSize == 0
    requires next == base + PageSize * objects[|bases|].pageMapEntries && next < Memory.AddressLimit
    ensures Granted(objects, bases + [base], start, next)
  {
    var grown := bases + [base];
    forall i | 0 <= i < |grown|
      ensures GrantedTo(objects, grown, start, next, i)
    {
      if i < |bases| {
        assert grown[i] == bases[i];
        assert GrantedTo(objects, bases, start, base, i);
      } else {
        assert grown[i] == base;
      }
    }
    forall i, j | 0 <= i < j < |grown|
      ensures Ordered(objects, grown, i, j)
    {
      assert grown[i] == bases[i];
      assert GrantedTo(objects, bases, start, base, i);
      if j < |bases| {
        assert grown[j] == bases[j];
        assert Ordered(objects, bases, i, j);
      } else {
        assert grown[j] == base;
      }
    }
  }

  /** Granted pages end below 4 GiB. */
  lemma GrantedFits(objects: seq<ObjectEntry>, bases: seq<nat>, start: nat, next: nat)
    requires |bases| <= |objects| && Granted(objects, bases, start, next)
    ensures BasesFit(objects, bases)
  {
    forall i | 0 <= i < |bases|
      ensures bases[i] + PageSize * objects[i].pageMapEntries < Memory.AddressLimit
    {
      assert GrantedTo(objects, bases, start, next, i);
    }
  }

  /** Granting more pages keeps the earlier grants. */
  lemma GrantedWiden(objects: seq<ObjectEntry>, bases: seq<nat>, start: nat, next: nat, next': nat)
    requires |bases| <= |objects| && Granted(objects, bases, start, next) && next <= next'
    ensures Granted(objects, bases, start, next')
  {
    forall i | 0 <= i < |bases|
      ensures GrantedTo(objects, bases, start, next', i)
    {
      assert GrantedTo(objects, bases, start, next, i);
    }
  }

  /** The mappings of one more object follow those of the objects before. */
  lemma MappingsStep(input: seq<byte>, objects: seq<ObjectEntry>, virtualBase: u32, bases: seq<nat>, base: nat)
    requires Layout(input, objects, virtualBase) && |bases| < |objects|
    requires BasesFit(objects, bases + [base])
    ensures BasesFit(objects, bases)
    ensures Mappings(input, objects, virtualBase, bases + [base]) ==
              Mappings(input, objects, virtualBase, bases) + ObjectMappings(input, objects, virtualBase, |bases|, base)
  {
    var grown := bases + [base];
    assert grown[..|bases|] == bases && grown[|bases|] == base;
    forall i | 0 <= i < |bases|
      ensures bases[i] + PageSize * objects[i].pageMapEntries < Memory.AddressLimit
    {
      assert grown[i] == bases[i];
    }
  }

  /** load_le issues exactly one mapping per page-map entry of every
      object. */
  lemma {:induction false} MappingsLength(input: seq<byte>, objects: seq<ObjectEntry>, virtualBase: u32,
                                          bases: seq<nat>)
    requires Layout(input, objects, virtualBase) && |bases| <= |objects| && BasesFit(objects, bases)
    ensures |Mappings(input, objects, virtualBase, bases)| == PagesBefore(objects, |bases|)
    decreases |bases|
  {
    if |bases| > 0 {
      var n := |bases| - 1;
      assert bases[..n] + [bases[n]] == bases;
      MappingsStep(input, objects, virtualBase, bases[..n], bases[n]);
      MappingsLength(input, objects, virtualBase, bases[..n]);
    }
  }

  /** The mappings come object by object and, within an object, in
      page-map order: mapping number PagesBefore(i) + k maps page k of
      object i, from its granted frame to its virtual address. */
  lemma {:induction false} MappingAt(input: seq<byte>, objects: seq<ObjectEntry>, virtualBase: u32,
                                     bases: seq<nat>, i: nat, k: nat)
    requires Layout(input, objects, virtualBase) && |bases| <= |objects| && BasesFit(objects, bases)
    requires i < |bases| && k < objects[i].pageMapEntries
    ensures ObjectLoadable(input, objects, virtualBase, i)
    ensures PagesBefore(objects, i) + k < |Mappings(input, objects, virtualBase, bases)|
    ensures var m := Mappings(input, objects, virtualBase, bases)[PagesBefore(objects, i) + k];
            && m.physical == bases[i] + PageSize * k
            && m.virtual == VirtualOf(input, objects, virtualBase, i, k)
    decreases |bases|
  {
    assert ObjectLoadable(input, objects, virtualBase, i);
    var n := |bases| - 1;
    assert bases[..n] + [bases[n]] == bases;
    MappingsStep(input, objects, virtualBase, bases[..n], bases[n]);
    MappingsLength(input, objects, virtualBase, bases[..n]);
    if i < n {
      assert bases[..n][i] == bases[i];
      MappingAt(input, objects, virtualBase, bases[..n], i, k);
    }
  }
}
