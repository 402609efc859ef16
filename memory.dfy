/** Physical memory as the loader sees it through the firmware's boot
    services: a page allocator (`allocate_pages`) and the bytes the loader
    copies into the pages it was given.  The allocator is modelled as a bump
    allocator below the 4 GiB line: every grant is page aligned, lies above
    every earlier grant, and its addresses fit in a u32. */
module Memory {
  import opened Bytes
  import opened Results

  const PageSize: nat := 4096

  /** The first address that no longer fits in a u32. */
  const AddressLimit: nat := 0x1_0000_0000

  /** The bytes of src placed at address at. */
  ghost predicate Holds(bytes: map<nat, byte>, at: nat, src: seq<byte>)
  {
    forall k :: 0 <= k < |src| ==> Has(bytes, at, src, k)
  }

  /** Address at + k holds byte k of src. */
  ghost predicate Has(bytes: map<nat, byte>, at: nat, src: seq<byte>, k: nat)
    requires k < |src|
  {
    at + k in bytes && bytes[at + k] == src[k]
  }

  /** after is before with src written at address at: src is there, every
      other address keeps its byte, and nothing else is written. */
  ghost predicate Writes(before: map<nat, byte>, after: map<nat, byte>, at: nat, src: seq<byte>)
  {
    && Holds(after, at, src)
    && (forall a :: a in before && !(at <= a < at + |src|) ==> a in after && after[a] == before[a])
    && (forall a :: a in after ==> a in before || at <= a < at + |src|)
  }

  /** Every byte of before outside the addresses lo .. hi-1 is still in
      after. */
  ghost predicate Kept(before: map<nat, byte>, after: map<nat, byte>, lo: nat, hi: nat)
  {
    forall a :: a in before && !(lo <= a < hi) ==> a in after && after[a] == before[a]
  }

  /** Keeping everything outside lo .. mid-1, then everything outside
      mid .. hi-1, keeps everything outside lo .. hi-1. */
  lemma KeptTrans(b0: map<nat, byte>, b1: map<nat, byte>, b2: map<nat, byte>, lo: nat, mid: nat, hi: nat)
    requires lo <= mid <= hi && Kept(b0, b1, lo, mid) && Kept(b1, b2, mid, hi)
    ensures Kept(b0, b2, lo, hi)
  {
  }

  /** Keeping everything outside a range keeps everything outside a wider
      one. */
  lemma KeptWiden(before: map<nat, byte>, after: map<nat, byte>, lo: nat, hi: nat, lo': nat, hi': nat)
    requires lo' <= lo && hi <= hi' && Kept(before, after, lo, hi)
    ensures Kept(before, after, lo', hi')
  {
  }

  /** The memory bytes after writing src at address at. */
  function Placed(bytes: map<nat, byte>, at: nat, src: seq<byte>): (r: map<nat, byte>)
    ensures Writes(bytes, r, at, src)
  {
    map a | a in bytes.Keys + Region(at, |src|) :: if at <= a < at + |src| then src[a - at] else bytes[a]
  }

  /** The addresses at, at + 1, ..., at + n - 1. */
  function Region(at: nat, n: nat): (r: set<nat>)
    ensures forall a :: a in r <==> at <= a < at + n
  {
    if n == 0 then {} else Region(at, n - 1) + {at + n - 1}
  }

  /** Writing outside a region keeps what the region holds. */
  lemma WriteKeeps(bytes: map<nat, byte>, r: map<nat, byte>, at: nat, src: seq<byte>, at': nat, src': seq<byte>)
    requires Writes(bytes, r, at, src) && Holds(bytes, at', src')
    requires at' + |src'| <= at || at + |src| <= at'
    ensures Holds(r, at', src')
  {
    forall k | 0 <= k < |src'|
      ensures Has(r, at', src', k)
    {
      assert Has(bytes, at', src', k);
    }
  }

  class PhysicalMemory {
    /** The lowest address not yet granted; every grant lies below it.  It
        is never 0: the firmware never grants the null page. */
    var next: nat
    /** What the loader has written, by physical address. */
    var bytes: map<nat, byte>

    ghost predicate Valid()
      reads this
    {
      0 < next && next % PageSize == 0 && next < AddressLimit
    }

    /** Memory whose free pages start at start, above the null page, and
        hold nothing written yet. */
    constructor (start: nat)
      requires 0 < start && start % PageSize == 0 && start < AddressLimit
      ensures Valid() && next == start && bytes == map[]
    {
      next := start;
      bytes := map[];
    }

    /** allocate_pages(AnyPages, LOADER_DATA, count): count fresh pages, or
        nothing when they would not fit below 4 GiB (where the original's
        `unwrap` panics). */
    method AllocatePages(count: nat) returns (r: Option<u32>)
      requires Valid()
      modifies this
      ensures Valid() && bytes == old(bytes)
      ensures r.Some? ==> && r.value == old(next) && r.value != 0
                          && r.value % PageSize == 0
                          && r.value + PageSize * count < AddressLimit
                          && next == old(next) + PageSize * count
      ensures r.None? ==> next == old(next)
      ensures r.None? <==> old(next) + PageSize * count >= AddressLimit
    {
      if next + PageSize * count >= AddressLimit {
        return None;
      }
      r := Some(next);
      next := next + PageSize * count;
    }

    /** `core::ptr::copy(src, dst, |src|)`: the bytes of src now lie at dst,
        all other bytes are kept. */
    method Copy(src: seq<byte>, dst: nat)
      requires Valid()
      modifies this
      ensures Valid() && next == old(next)
      ensures Writes(old(bytes), bytes, dst, src)
    {
      bytes := Placed(bytes, dst, src);
    }
  }
}
