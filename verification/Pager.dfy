/** The paging unit's tables and the routines that update them in place. */
module Pager {
  import opened Common
  import opened Bits
  import Bytes
  import opened Paging

  const MAX_PHYSICAL_MEMORY_REGIONS: nat := 16

  class PageTables {
    const directory: array<nat>
    /** The frame bitmap, as 32-bit words. */
    const words: array<nat>
    const regions: array<Region>
    var regionCount: nat

    ghost predicate Valid()
      reads this, directory, words
    {
      && directory.Length == FRAMES && words.Length == MAP_WORDS && words != directory
      && regions.Length == MAX_PHYSICAL_MEMORY_REGIONS && regionCount <= regions.Length
      && IsMap(words[..])
    }

    ghost function View(): State
      reads directory, words
    {
      State(directory[..], words[..])
    }

    ghost function Regions(): seq<Region>
      requires regionCount <= regions.Length
      reads this, regions
    {
      regions[..regionCount]
    }

    constructor ()
      ensures Valid() && regionCount == 0 && fresh(directory) && fresh(words) && fresh(regions)
    {
      directory := new nat[FRAMES];
      words := new nat[MAP_WORDS](_ => 0);
      regions := new Region[MAX_PHYSICAL_MEMORY_REGIONS](_ => Region(0, 0));
      regionCount := 0;
    }

    /** `setupPaging` */
    method SetupPaging()
      requires Valid()
      modifies directory, words
      ensures Valid() && View() == Initial()
    {
      var i := 0;
      while i < FRAMES
        invariant i <= FRAMES && forall j | 0 <= j < i :: directory[j] == 0
        modifies directory
      {
        directory[i] := 0;
        i := i + 1;
      }
      directory[0] := Entry(0, true, true, true);
      i := 0;
      while i < MAP_WORDS
        invariant i <= MAP_WORDS && forall j | 0 <= j < i :: words[j] == 0
        modifies words
      {
        words[i] := 0;
        i := i + 1;
      }
      words[0] := SetBit(words[0], 0);
      assert directory[..] == Initial().directory;
      assert words[..] == Initial().words;
    }

    /** `handle_page_fault` for a fault at `va`; false where the source has run out of memory
        and spins. */
    method HandlePageFault(va: nat) returns (mapped: bool)
      requires Valid() && va < U32
      modifies directory, words
      ensures Valid()
      ensures mapped == CanMap(old(View()), Regions())
      ensures View() == Fault(old(View()), Regions(), va)
    {
      ghost var rs := Regions();
      var found, pfn := FindFrame();
      if !found { return false; }
      WithUsedExactly(words[..], pfn);
      words[pfn / 32] := SetBit(words[pfn / 32], pfn % 32);
      directory[va / FRAME_SIZE] := Entry(pfn, true, true, true);
      assert words[..] == WithUsed(old(words[..]), pfn);
      assert directory[..] == old(directory[..])[va / FRAME_SIZE := Entry(pfn, true, true, true)];
      return true;
    }

    /** The search of the handler: one region after the other. */
    method FindFrame() returns (found: bool, pfn: nat)
      requires Valid()
      ensures found == CanMap(View(), Regions())
      ensures found ==> pfn == ChosenFrame(View(), Regions())
    {
      ghost var rs, all, w := Regions(), Scan(Regions()), words[..];
      assert rs[..|rs|] == rs;
      var regionIndex := 0;
      while regionIndex < regionCount
        invariant regionIndex <= regionCount
        invariant |Scan(rs[..regionIndex])| <= |all|
        invariant FirstUnused(w, all, |Scan(rs[..regionIndex])|) == FirstUnused(w, all, 0)
      {
        ScanExtends(rs, regionIndex);
        found, pfn := TryRegion(regions[regionIndex], all, |Scan(rs[..regionIndex])|);
        if found { return; }
        regionIndex := regionIndex + 1;
      }
      return false, 0;
    }

    /** The frames of one region, which stand in `all` from `base` on. */
    method TryRegion(region: Region, ghost all: seq<nat>, ghost base: nat) returns (found: bool, pfn: nat)
      requires Valid() && forall j | 0 <= j < |all| :: all[j] < FRAMES
      requires base + FrameCount(region) <= |all|
      requires all[base..base + FrameCount(region)] == Candidates(region)
      ensures var k := FirstUnused(words[..], all, base);
              if found then k < |all| && pfn == all[k]
              else k == FirstUnused(words[..], all, base + FrameCount(region))
    {
      var frameStart := region.address - region.address % FRAME_SIZE;
      frameStart := (frameStart + FRAME_SIZE) % U32;
      if frameStart > (region.address + region.size) % U32 { return false, 0; }
      var remaining := (region.size - (frameStart - region.address)) % U32;
      var frameCount := remaining / FRAME_SIZE % 0x100;
      var frame := 0;
      ghost var used := words[..];
      while frame < frameCount
        invariant frame <= frameCount == FrameCount(region)
        invariant FirstUnused(used, all, base + frame) == FirstUnused(used, all, base)
      {
        var address := (frameStart + frame * FRAME_SIZE) % U32;
        pfn := address / FRAME_SIZE;
        assert pfn == Candidates(region)[frame] == all[base..base + FrameCount(region)][frame];
        assert pfn == all[base + frame] && Used(used, pfn) == Bit(words[pfn / 32], pfn % 32);
        if !Bit(words[pfn / 32], pfn % 32) { return true, pfn; }
        frame := frame + 1;
      }
      return false, 0;
    }

    // ---------------------------------------------------------- memory map

    /** Append one region to the table. */
    method Record(r: Region)
      requires Valid() && regionCount < MAX_PHYSICAL_MEMORY_REGIONS
      modifies this`regionCount, regions
      ensures Valid() && Regions() == old(Regions()) + [r]
    {
      regions[regionCount] := r;
      regionCount := regionCount + 1;
    }

    /** `loadPhysicalMemoryRegionDescriptors`: record the RAM entries of the Multiboot memory map.
        False where the boot loader gave no map and the source spins. `ds` are the descriptors
        stored in memory `m` from `mmapAddr` on. */
    method LoadRegions(m: array<Bytes.byte>, flags: nat, mmapAddr: nat, mmapLength: nat, ghost ds: seq<Descriptor>)
      returns (ok: bool)
      requires Valid() && flags < U32
      requires Bit(flags, 6) ==> StoredAt(m[..], mmapAddr, ds) && mmapLength == TotalLength(ds)
      requires Bit(flags, 6) ==> |RamRegions(ds)| <= MAX_PHYSICAL_MEMORY_REGIONS
      modifies this`regionCount, regions
      ensures Valid()
      ensures ok <==> Bit(flags, 6)
      ensures ok ==> Regions() == RamRegions(ds)
      ensures !ok ==> Regions() == old(Regions())
    {
      if !Bit(flags, 6) { return false; }
      var region, traversed := mmapAddr, 0;
      regionCount := 0;
      ghost var k, mem := 0, m[..];
      assert ds[0..] == ds && ds[..0] == [];
      while traversed < mmapLength
        invariant k <= |ds| && regionCount <= regions.Length
        invariant traversed + TotalLength(ds[k..]) == mmapLength
        invariant m[..] == mem && StoredAt(mem, region, ds[k..])
        invariant Regions() == RamRegions(ds[..k])
        decreases mmapLength - traversed
        modifies this`regionCount, regions
      {
        ghost var d := ds[k];
        StoredNext(mem, region, ds, k);
        var size, low, length, kind := ReadDescriptor(m, region, d);
        traversed := traversed + (size + 4);
        RamRegionsExtends(ds, k);
        if kind == 1 {
          Record(Region(low, length));
        }
        assert Regions() == RamRegions(ds[..k + 1]);
        region, k := region + size + 4, k + 1;
      }
      assert ds[..k] == ds by { EmptyTail(ds[k..]); }
      return true;
    }
  }

  // ------------------------------------------------------------------ scan

  /** The frames tried in region `i` follow those of the regions before it. */
  lemma ScanExtends(rs: seq<Region>, i: nat)
    requires i < |rs|
    ensures var base := |Scan(rs[..i])|;
            && |Scan(rs[..i + 1])| == base + FrameCount(rs[i]) <= |Scan(rs)|
            && Scan(rs)[base..base + FrameCount(rs[i])] == Candidates(rs[i])
  {
    assert rs[..i + 1][..i] == rs[..i];
    var next := Scan(rs[..i + 1]);
    assert next == Scan(rs[..i]) + Candidates(rs[i]);
    ScanPrefix(rs, i + 1);
    assert Scan(rs)[|Scan(rs[..i])|..|next|] == next[|Scan(rs[..i])|..];
  }

  lemma {:induction false} ScanPrefix(rs: seq<Region>, i: nat)
    requires i <= |rs|
    ensures Scan(rs[..i]) <= Scan(rs)
    decreases |rs|
  {
    if i < |rs| {
      ScanPrefix(rs[..|rs| - 1], i);
      assert rs[..|rs| - 1][..i] == rs[..i];
    } else {
      assert rs[..i] == rs;
    }
  }

  // ----------------------------------------------------------- descriptors

  /** An entry of the memory map of the Multiboot Specification, section 3.3: `size` counts the
      bytes after itself, and entries of kind 1 are memory. */
  datatype Descriptor = Descriptor(size: nat, baseLow: nat, baseHigh: nat, lengthLow: nat, lengthHigh: nat, kind: nat)

  /** Descriptors stored one behind the other, each as long as it says. */
  ghost predicate StoredAt(m: seq<Bytes.byte>, p: nat, ds: seq<Descriptor>)
    decreases |ds|
  {
    ds == [] || (DescriptorAt(m, p, ds[0]) && StoredAt(m, p + ds[0].size + 4, ds[1..]))
  }

  lemma StoredNext(m: seq<Bytes.byte>, p: nat, ds: seq<Descriptor>, k: nat)
    requires k < |ds| && StoredAt(m, p, ds[k..])
    ensures DescriptorAt(m, p, ds[k]) && StoredAt(m, p + ds[k].size + 4, ds[k + 1..])
    ensures TotalLength(ds[k..]) == ds[k].size + 4 + TotalLength(ds[k + 1..])
  {
    assert ds[k..][0] == ds[k] && ds[k..][1..] == ds[k + 1..];
  }

  ghost predicate DescriptorAt(m: seq<Bytes.byte>, p: nat, d: Descriptor) {
    && p + 24 <= |m| && d.size >= 20
    && Bytes.Le32(m, p) == d.size
    && Bytes.Le32(m, p + 4) == d.baseLow && Bytes.Le32(m, p + 8) == d.baseHigh
    && Bytes.Le32(m, p + 12) == d.lengthLow && Bytes.Le32(m, p + 16) == d.lengthHigh
    && Bytes.Le32(m, p + 20) == d.kind
  }

  method ReadDescriptor(m: array<Bytes.byte>, p: nat, ghost d: Descriptor)
    returns (size: nat, low: nat, length: nat, kind: nat)
    requires DescriptorAt(m[..], p, d)
    ensures size == d.size && low == d.baseLow && length == d.lengthLow && kind == d.kind
  {
    size := Bytes.Load32(m, p);
    low := Bytes.Load32(m, p + 4);
    length := Bytes.Load32(m, p + 12);
    kind := Bytes.Load32(m, p + 20);
  }

  /** Bytes the descriptors take. */
  function TotalLength(ds: seq<Descriptor>): nat {
    if ds == [] then 0 else ds[0].size + 4 + TotalLength(ds[1..])
  }

  /** The low halves of the memory entries, in order. */
  function RamRegions(ds: seq<Descriptor>): seq<Region> {
    if ds == [] then []
    else
      var d := ds[|ds| - 1];
      RamRegions(ds[..|ds| - 1]) + if d.kind == 1 then [Region(d.baseLow, d.lengthLow)] else []
  }

  lemma RamRegionsExtends(ds: seq<Descriptor>, k: nat)
    requires k < |ds|
    ensures RamRegions(ds[..k + 1])
            == RamRegions(ds[..k]) + (if ds[k].kind == 1 then [Region(ds[k].baseLow, ds[k].lengthLow)] else [])
    ensures |RamRegions(ds[..k + 1])| <= |RamRegions(ds)|
  {
    assert ds[..k + 1][..k] == ds[..k];
    RamRegionsPrefix(ds, k + 1);
  }

  lemma {:induction false} RamRegionsPrefix(ds: seq<Descriptor>, k: nat)
    requires k <= |ds|
    ensures |RamRegions(ds[..k])| <= |RamRegions(ds)|
    decreases |ds|
  {
    if k < |ds| {
      RamRegionsPrefix(ds[..|ds| - 1], k);
      assert ds[..|ds| - 1][..k] == ds[..k];
    } else {
      assert ds[..k] == ds;
    }
  }

  lemma EmptyTail(ds: seq<Descriptor>)
    requires TotalLength(ds) == 0
    ensures ds == []
  {
  }

  /** What is recorded is exactly the memory entries: each of them is a region and nothing else is. */
  lemma {:induction false} RamRegionsExactly(ds: seq<Descriptor>, r: Region)
    ensures r in RamRegions(ds) <==> exists d :: d in ds && d.kind == 1 && r == Region(d.baseLow, d.lengthLow)
  {
    if ds != [] {
      var front, last := ds[..|ds| - 1], ds[|ds| - 1];
      RamRegionsExactly(front, r);
      assert ds == front + [last];
      if last.kind == 1 && r == Region(last.baseLow, last.lengthLow) { assert last in ds; }
    }
  }
}
