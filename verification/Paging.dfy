/** Demand paging with 4 MiB pages: which frames the page-fault handler may hand out, what a page
    directory entry says, and what holds after any run of faults. */
module Paging {
  import opened Common
  import opened Bits

  const FRAME_SIZE: nat := 0x40_0000
  const FRAMES: nat := 1024
  const MAP_WORDS: nat := 32

  // --------------------------------------------------- directory entries

  /** `constructPageDirEntry`; the source spins for page frame numbers from 0x40000 on. */
  function Entry(pfn: nat, hugePage: bool, writable: bool, user: bool): nat
    requires pfn < 0x40000
  {
    var frame := pfn * FRAME_SIZE % U32;
    var sized := if hugePage then SetBit(frame, 7) else frame;
    var rw := if writable then SetBit(sized, 1) else sized;
    var permitted := if user then SetBit(rw, 2) else rw;
    SetBit(permitted, 0)
  }

  /** Bits 31:22 of an entry that maps a 4 MiB page. */
  function EntryFrame(e: nat): nat { e / FRAME_SIZE }

  predicate Present(e: nat) { Bit(e, 0) }

  /** Bit 7: the entry maps a 4 MiB page instead of naming a table of small ones. */
  predicate HugePage(e: nat) { Bit(e, 7) }

  /** A present, writable 4 MiB page that user programs may use, and no other flag. */
  ghost predicate UserFlags(e: nat) {
    forall j: nat | j < 22 :: Bit(e, j) <==> j == 0 || j == 1 || j == 2 || j == 7
  }

  lemma FrameSizeIsPow2()
    ensures Pow2(22) == FRAME_SIZE && Pow2(32) == U32
  {
    assert Pow2(8) == 0x100 && Pow2(16) == 0x1_0000 && Pow2(22) == FRAME_SIZE;
    assert Pow2(24) == 0x100_0000 && Pow2(32) == U32;
  }

  lemma SetLowBit(e: nat, k: nat)
    requires k < 22 && e < U32
    ensures SetBit(e, k) < U32 && EntryFrame(SetBit(e, k)) == EntryFrame(e)
    ensures forall j: nat :: Bit(SetBit(e, k), j) <==> j == k || Bit(e, j)
  {
    FrameSizeIsPow2();
    SetBitBound(e, k, 32);
    SetBitKeepsHigh(e, k, 22);
    forall j: nat ensures Bit(SetBit(e, k), j) <==> j == k || Bit(e, j) { BitOfSetBit(e, k, j); }
  }

  lemma {:induction false} MultipleHasNoLowBits(q: nat, n: nat, j: nat)
    requires j < n
    ensures !Bit(q * Pow2(n), j)
  {
    assert q * Pow2(n) == 2 * (q * Pow2(n - 1));
    if j > 0 { MultipleHasNoLowBits(q, n - 1, j - 1); }
  }

  /** An entry is a 32-bit word whose low bits are exactly the flags asked for, and whose frame
      field is the page frame number truncated to ten bits. */
  lemma EntryFields(pfn: nat, hugePage: bool, writable: bool, user: bool)
    requires pfn < 0x40000
    ensures var e := Entry(pfn, hugePage, writable, user);
            && e < U32 && EntryFrame(e) == pfn % FRAMES
            && forall j: nat | j < 22 ::
                 Bit(e, j) <==> j == 0 || (j == 1 && writable) || (j == 2 && user) || (j == 7 && hugePage)
  {
    FrameSizeIsPow2();
    var frame := pfn * FRAME_SIZE % U32;
    assert frame == pfn % FRAMES * FRAME_SIZE;
    forall j: nat | j < 22 ensures !Bit(frame, j) { MultipleHasNoLowBits(pfn % FRAMES, 22, j); }
    var sized := if hugePage then SetBit(frame, 7) else frame;
    if hugePage { SetLowBit(frame, 7); }
    var rw := if writable then SetBit(sized, 1) else sized;
    if writable { SetLowBit(sized, 1); }
    var permitted := if user then SetBit(rw, 2) else rw;
    if user { SetLowBit(rw, 2); }
    SetLowBit(permitted, 0);
  }

  /** The sanity check on page frame numbers lets through numbers that no entry can hold: the
      entry names the frame it was built from exactly when there are only 1024 frames before it. */
  lemma EntryNamesItsFrameExactly(pfn: nat, hugePage: bool, writable: bool, user: bool)
    requires pfn < 0x40000
    ensures EntryFrame(Entry(pfn, hugePage, writable, user)) == pfn <==> pfn < FRAMES
  {
    EntryFields(pfn, hugePage, writable, user);
  }

  // ------------------------------------------------------------- regions

  datatype Region = Region(address: nat, size: nat)

  /** Physical memory that exists: the region does not run past the end of the address space. */
  predicate IsMemory(r: Region) {
    r.address < U32 && r.size < U32 && r.address + r.size <= U32
  }

  /** First frame boundary the scan tries, in 32-bit arithmetic: the one after the frame that
      holds the region's first byte. */
  function FrameStart(r: Region): nat {
    (r.address - r.address % FRAME_SIZE + FRAME_SIZE) % U32
  }

  /** Number of frames the scan tries: the quotient goes through a `uint8_t`. */
  function FrameCount(r: Region): nat {
    if FrameStart(r) > (r.address + r.size) % U32 then 0
    else (r.size - (FrameStart(r) - r.address)) % U32 / FRAME_SIZE % 0x100
  }

  /** Page frame number of the `j`-th frame tried. */
  function Candidate(r: Region, j: nat): (pfn: nat)
    ensures pfn < FRAMES
  {
    (FrameStart(r) + j * FRAME_SIZE) % U32 / FRAME_SIZE
  }

  function Candidates(r: Region): (cs: seq<nat>)
    ensures |cs| == FrameCount(r)
    ensures forall j | 0 <= j < |cs| :: cs[j] == Candidate(r, j) && cs[j] < FRAMES
  {
    seq(FrameCount(r), j requires 0 <= j => Candidate(r, j))
  }

  /** All frames the handler tries, in order. */
  function Scan(rs: seq<Region>): (cs: seq<nat>)
    ensures forall j | 0 <= j < |cs| :: cs[j] < FRAMES
  {
    if rs == [] then [] else Scan(rs[..|rs| - 1]) + Candidates(rs[|rs| - 1])
  }

  /** The frame lies wholly inside the region. */
  predicate Inside(pfn: nat, r: Region) {
    r.address <= pfn * FRAME_SIZE && (pfn + 1) * FRAME_SIZE <= r.address + r.size
  }

  /** Every frame the scan tries lies wholly inside the region, whether or not the region runs past
      the end of the address space, unless it starts in the last frame: then the frame boundary
      wraps to zero and the scan tries frames from 0 on, as many as lie below the region's end. */
  lemma ScanStaysInsideExactly(r: Region)
    requires r.address < U32 && r.size < U32
    ensures (forall j | 0 <= j < FrameCount(r) :: Inside(Candidate(r, j), r)) <==> ScanStaysInside(r)
  {
    if ScanStaysInside(r) {
      forall j | 0 <= j < FrameCount(r) ensures Inside(Candidate(r, j), r) { CandidateInside(r, j); }
    } else {
      WrappedStart(r);
      assert Candidate(r, 0) == 0 && !Inside(Candidate(r, 0), r);
    }
  }

  /** The region starts below the last frame, or its end leaves the wrapped scan nothing to try. */
  predicate ScanStaysInside(r: Region) {
    r.address < 0xFFC0_0000 || (r.address + r.size) % U32 / FRAME_SIZE % 0x100 == 0
  }

  lemma WrappedStart(r: Region)
    requires 0xFFC0_0000 <= r.address < U32 && r.size < U32
    ensures FrameStart(r) == 0 && FrameCount(r) == (r.address + r.size) % U32 / FRAME_SIZE % 0x100
  {
    assert r.address - r.address % FRAME_SIZE == 0xFFC0_0000;
  }

  lemma ScanStart(r: Region)
    requires r.address < 0xFFC0_0000
    ensures var q := r.address / FRAME_SIZE + 1;
            q < FRAMES && FrameStart(r) == q * FRAME_SIZE > r.address
  {
    assert r.address - r.address % FRAME_SIZE == r.address / FRAME_SIZE * FRAME_SIZE;
  }

  /** A region that reaches the top of the address space is never scanned, if it starts below the
      last frame or ends at the top. */
  lemma TopRegionSkipped(r: Region)
    requires r.address < U32 && r.size < U32 && r.address + r.size >= U32
    requires r.address < 0xFFC0_0000 || r.address + r.size == U32
    ensures FrameCount(r) == 0
  {
    if r.address < 0xFFC0_0000 { ScanStart(r); } else { WrappedStart(r); }
  }

  lemma CandidateInside(r: Region, j: nat)
    requires r.address < U32 && r.size < U32 && j < FrameCount(r) && ScanStaysInside(r)
    ensures Inside(Candidate(r, j), r)
    ensures FrameStart(r) > r.address && Candidate(r, j) == FrameStart(r) / FRAME_SIZE + j
  {
    if r.address >= 0xFFC0_0000 { WrappedStart(r); }
    if r.address + r.size >= U32 { TopRegionSkipped(r); }
    ScanStart(r);
    var q, end := r.address / FRAME_SIZE + 1, r.address + r.size;
    assert j < (end - q * FRAME_SIZE) / FRAME_SIZE;
    assert (q + j + 1) * FRAME_SIZE <= end;
    assert FrameStart(r) + j * FRAME_SIZE == (q + j) * FRAME_SIZE;
  }

  /** Exactly which frames are tried: the first is the one after the frame that holds the region's
      first byte, and from there on as many as end in the region, modulo 256. From the last frame of
      the address space on, the scan wraps and starts at frame 0. */
  lemma CandidatesExactly(r: Region)
    requires r.address < U32 && r.size < U32
    ensures var first, end := (r.address / 0x40_0000 + 1) % 1024, (r.address + r.size) % U32 / 0x40_0000;
            if first * 0x40_0000 > (r.address + r.size) % U32 then Candidates(r) == []
            else Candidates(r) == seq((end - first) % 0x100, j requires 0 <= j => first + j)
  {
    var first, end := (r.address / 0x40_0000 + 1) % 1024, (r.address + r.size) % U32;
    StartExactly(r);
    if first * FRAME_SIZE <= end {
      CountExactly(r, first, end);
      forall j | 0 <= j < FrameCount(r) ensures Candidate(r, j) == first + j { CandidateExactly(r, first, end, j); }
    }
  }

  lemma StartExactly(r: Region)
    requires r.address < U32
    ensures FrameStart(r) == (r.address / FRAME_SIZE + 1) % FRAMES * FRAME_SIZE
  {
    if r.address < 0xFFC0_0000 { ScanStart(r); } else { WrappedFrame(r); }
  }

  lemma WrappedFrame(r: Region)
    requires 0xFFC0_0000 <= r.address < U32
    ensures FrameStart(r) == 0 && (r.address / FRAME_SIZE + 1) % FRAMES == 0
  {
    assert r.address - r.address % FRAME_SIZE == 0xFFC0_0000;
  }

  lemma CountExactly(r: Region, first: nat, end: nat)
    requires r.address < U32 && r.size < U32 && end == (r.address + r.size) % U32
    requires FrameStart(r) == first * FRAME_SIZE <= end
    ensures FrameCount(r) == (end / FRAME_SIZE - first) % 0x100
  {
    var d := r.size - (FrameStart(r) - r.address);
    assert d - (end - first * FRAME_SIZE) == r.address + r.size - end;
    assert d % U32 == end - first * FRAME_SIZE;
    assert (end - first * FRAME_SIZE) / FRAME_SIZE == end / FRAME_SIZE - first;
  }

  lemma CandidateExactly(r: Region, first: nat, end: nat, j: nat)
    requires r.address < U32 && r.size < U32 && end == (r.address + r.size) % U32
    requires FrameStart(r) == first * FRAME_SIZE <= end && FrameCount(r) == (end / FRAME_SIZE - first) % 0x100
    requires j < FrameCount(r)
    ensures Candidate(r, j) == first + j
  {
    assert first <= end / FRAME_SIZE;
    FrameOfAddress(first + j);
    assert FrameStart(r) + j * FRAME_SIZE == (first + j) * FRAME_SIZE;
  }

  lemma FrameOfAddress(pfn: nat)
    requires pfn < FRAMES
    ensures pfn * FRAME_SIZE % U32 / FRAME_SIZE == pfn
  {
  }

  /** Whole frames inside the region. */
  function WholeFrames(r: Region): int {
    (r.address + r.size) / FRAME_SIZE - (r.address + FRAME_SIZE - 1) / FRAME_SIZE
  }

  /** The scan tries every whole frame of a region exactly when there is none, or the region does
      not start on a frame boundary, does not end at the top of the address space, and holds
      fewer than 256 whole frames. */
  lemma ScanIsCompleteExactly(r: Region)
    requires IsMemory(r)
    ensures (forall pfn: nat | Inside(pfn, r) :: pfn in Candidates(r))
            <==> (WholeFrames(r) <= 0
                  || (r.address % FRAME_SIZE != 0 && r.address + r.size < U32 && WholeFrames(r) < 0x100))
  {
    if WholeFrames(r) <= 0 {
      forall pfn: nat ensures !Inside(pfn, r) { InsideRange(r, pfn); }
    } else if r.address % FRAME_SIZE == 0 || r.address + r.size == U32 {
      FirstFrameSkipped(r);
    } else if WholeFrames(r) < 0x100 {
      forall pfn: nat | Inside(pfn, r) ensures pfn in Candidates(r) {
        AllFramesTried(r, pfn);
      }
    } else {
      LastFrameSkipped(r);
    }
  }

  function FirstWhole(r: Region): nat {
    (r.address + FRAME_SIZE - 1) / FRAME_SIZE
  }

  lemma InsideRange(r: Region, pfn: nat)
    ensures Inside(pfn, r) <==> FirstWhole(r) <= pfn < FirstWhole(r) + WholeFrames(r)
  {
  }

  lemma FirstFrameSkipped(r: Region)
    requires IsMemory(r) && WholeFrames(r) > 0
    requires r.address % FRAME_SIZE == 0 || r.address + r.size == U32
    ensures Inside(FirstWhole(r), r) && FirstWhole(r) !in Candidates(r)
  {
    InsideRange(r, FirstWhole(r));
    if r.address + r.size == U32 {
      TopRegionSkipped(r);
    } else {
      AlignedStart(r);
      forall j | 0 <= j < FrameCount(r) ensures Candidate(r, j) != FirstWhole(r) { CandidateInside(r, j); }
    }
  }

  lemma AlignedStart(r: Region)
    requires IsMemory(r) && r.address < 0xFFC0_0000 && r.address % FRAME_SIZE == 0
    ensures FrameStart(r) / FRAME_SIZE == FirstWhole(r) + 1
  {
    var q := r.address / FRAME_SIZE;
    assert r.address == q * FRAME_SIZE && FrameStart(r) == (q + 1) * FRAME_SIZE;
  }

  lemma CountTried(r: Region)
    requires IsMemory(r) && WholeFrames(r) > 0
    requires r.address % FRAME_SIZE != 0 && r.address + r.size < U32
    ensures FrameStart(r) == FirstWhole(r) * FRAME_SIZE && FrameCount(r) == WholeFrames(r) % 0x100
  {
    var q, end := r.address / FRAME_SIZE, r.address + r.size;
    assert r.address == q * FRAME_SIZE + r.address % FRAME_SIZE;
    assert FirstWhole(r) == q + 1 < end / FRAME_SIZE < FRAMES;
    ScanStart(r);
    assert (end - (q + 1) * FRAME_SIZE) / FRAME_SIZE == end / FRAME_SIZE - (q + 1);
  }

  lemma AllFramesTried(r: Region, pfn: nat)
    requires IsMemory(r) && 0 < WholeFrames(r) < 0x100
    requires r.address % FRAME_SIZE != 0 && r.address + r.size < U32 && Inside(pfn, r)
    ensures pfn in Candidates(r)
  {
    InsideRange(r, pfn);
    CountTried(r);
    var j := pfn - FirstWhole(r);
    CandidateInside(r, j);
    assert Candidates(r)[j] == pfn;
  }

  lemma LastFrameSkipped(r: Region)
    requires IsMemory(r) && WholeFrames(r) >= 0x100
    requires r.address % FRAME_SIZE != 0 && r.address + r.size < U32
    ensures var last := FirstWhole(r) + WholeFrames(r) - 1;
            Inside(last, r) && last !in Candidates(r)
  {
    var last := FirstWhole(r) + WholeFrames(r) - 1;
    InsideRange(r, last);
    CountTried(r);
    forall j | 0 <= j < FrameCount(r) ensures Candidate(r, j) != last { CandidateInside(r, j); }
  }

  // --------------------------------------------------------- frame bitmap

  /** 32 words of 32 bits. */
  ghost predicate IsMap(words: seq<nat>) {
    |words| == MAP_WORDS && forall i | 0 <= i < MAP_WORDS :: words[i] < U32
  }

  predicate Used(words: seq<nat>, pfn: nat)
    requires |words| == MAP_WORDS && pfn < FRAMES
  {
    Bit(words[pfn / 32], pfn % 32)
  }

  /** `setFrameUsed` */
  function WithUsed(words: seq<nat>, pfn: nat): seq<nat>
    requires |words| == MAP_WORDS && pfn < FRAMES
  {
    words[pfn / 32 := SetBit(words[pfn / 32], pfn % 32)]
  }

  ghost function UsedFrames(words: seq<nat>): set<nat>
    requires |words| == MAP_WORDS
  {
    set p: nat | p < FRAMES && Used(words, p)
  }

  /** Marking a frame adds exactly that frame to the bitmap. */
  lemma WithUsedExactly(words: seq<nat>, pfn: nat)
    requires IsMap(words) && pfn < FRAMES
    ensures IsMap(WithUsed(words, pfn))
    ensures UsedFrames(WithUsed(words, pfn)) == UsedFrames(words) + {pfn}
  {
    FrameSizeIsPow2();
    SetBitBound(words[pfn / 32], pfn % 32, 32);
    forall p: nat | p < FRAMES ensures Used(WithUsed(words, pfn), p) <==> p == pfn || Used(words, p) {
      if p / 32 == pfn / 32 { BitOfSetBit(words[pfn / 32], pfn % 32, p % 32); }
    }
  }

  // --------------------------------------------------------- page faults

  /** Page directory and frame bitmap. */
  datatype State = State(directory: seq<nat>, words: seq<nat>)

  ghost predicate IsState(s: State) {
    |s.directory| == FRAMES && IsMap(s.words)
  }

  /** Index of the first frame tried from `k` on that is unused, or the number of frames tried. */
  function FirstUnused(words: seq<nat>, cs: seq<nat>, k: nat): (r: nat)
    requires |words| == MAP_WORDS && k <= |cs| && forall j | 0 <= j < |cs| :: cs[j] < FRAMES
    ensures k <= r <= |cs|
    ensures r < |cs| ==> !Used(words, cs[r])
    ensures forall j | k <= j < r :: Used(words, cs[j])
    decreases |cs| - k
  {
    if k == |cs| || !Used(words, cs[k]) then k else FirstUnused(words, cs, k + 1)
  }

  /** The handler finds a frame. */
  predicate CanMap(s: State, rs: seq<Region>)
    requires |s.words| == MAP_WORDS
  {
    FirstUnused(s.words, Scan(rs), 0) < |Scan(rs)|
  }

  /** The frame it finds. */
  function ChosenFrame(s: State, rs: seq<Region>): (pfn: nat)
    requires |s.words| == MAP_WORDS && CanMap(s, rs)
    ensures pfn < FRAMES && !Used(s.words, pfn) && pfn in Scan(rs)
  {
    Scan(rs)[FirstUnused(s.words, Scan(rs), 0)]
  }

  /** It is the first unused one in the order of the scan. */
  lemma ChosenIsFirst(s: State, rs: seq<Region>) returns (k: nat)
    requires IsState(s) && CanMap(s, rs)
    ensures k < |Scan(rs)| && Scan(rs)[k] == ChosenFrame(s, rs) && !Used(s.words, Scan(rs)[k])
    ensures forall j | 0 <= j < k :: Used(s.words, Scan(rs)[j])
  {
    k := FirstUnused(s.words, Scan(rs), 0);
  }

  /** The state after a fault at virtual address `va`; unchanged when memory has run out. */
  function Fault(s: State, rs: seq<Region>, va: nat): State
    requires |s.directory| == FRAMES && |s.words| == MAP_WORDS && va < U32
  {
    if CanMap(s, rs) then
      var pfn := ChosenFrame(s, rs);
      State(s.directory[va / FRAME_SIZE := Entry(pfn, true, true, true)], WithUsed(s.words, pfn))
    else s
  }

  /** The handler gives up exactly when every frame its scan tries is used. */
  lemma GivesUpExactly(s: State, rs: seq<Region>)
    requires IsState(s)
    ensures !CanMap(s, rs) <==> forall pfn | pfn in Scan(rs) :: Used(s.words, pfn)
  {
    var cs := Scan(rs);
    if !CanMap(s, rs) {
      forall pfn | pfn in cs ensures Used(s.words, pfn) {
        var j :| 0 <= j < |cs| && cs[j] == pfn;
      }
    }
  }

  /** Physical address of a virtual one, as the processor computes it for 4 MiB pages. */
  function Translate(directory: seq<nat>, va: nat): Option<nat>
    requires |directory| == FRAMES && va < U32
  {
    var e := directory[va / FRAME_SIZE];
    if Present(e) && HugePage(e) then Some(EntryFrame(e) * FRAME_SIZE + va % FRAME_SIZE) else None
  }

  /** After a fault that finds a frame, the faulting page translates into that frame offset by
      offset, no other page's translation changes, and one frame more is used. */
  lemma FaultMaps(s: State, rs: seq<Region>, va: nat, va': nat)
    requires IsState(s) && va < U32 && va' < U32 && CanMap(s, rs)
    ensures var t, pfn := Fault(s, rs, va), ChosenFrame(s, rs);
            && Translate(t.directory, va) == Some(pfn * FRAME_SIZE + va % FRAME_SIZE)
            && (va' / FRAME_SIZE != va / FRAME_SIZE ==> Translate(t.directory, va') == Translate(s.directory, va'))
            && UsedFrames(t.words) == UsedFrames(s.words) + {pfn} && pfn !in UsedFrames(s.words)
            && |UsedFrames(t.words)| == |UsedFrames(s.words)| + 1
  {
    var pfn := ChosenFrame(s, rs);
    UserEntry(pfn);
    WithUsedExactly(s.words, pfn);
    MappingTranslates(s.directory, va, va', Entry(pfn, true, true, true), pfn);
  }

  /** The entry the handler writes maps exactly the chosen frame. */
  lemma UserEntry(pfn: nat)
    requires pfn < FRAMES
    ensures var e := Entry(pfn, true, true, true); EntryFrame(e) == pfn && Present(e) && HugePage(e) && UserFlags(e)
  {
    EntryFields(pfn, true, true, true);
  }

  lemma MappingTranslates(directory: seq<nat>, va: nat, va': nat, e: nat, pfn: nat)
    requires |directory| == FRAMES && va < U32 && va' < U32 && EntryFrame(e) == pfn && Present(e) && HugePage(e)
    ensures var t := directory[va / FRAME_SIZE := e];
            && Translate(t, va) == Some(pfn * FRAME_SIZE + va % FRAME_SIZE)
            && (va' / FRAME_SIZE != va / FRAME_SIZE ==> Translate(t, va') == Translate(directory, va'))
  {
  }

  /** The entry of the faulting page names the chosen frame and has exactly the flags present,
      writable, user and 4 MiB; no other entry changes. */
  lemma FaultEntryExactly(s: State, rs: seq<Region>, va: nat)
    requires IsState(s) && va < U32 && CanMap(s, rs)
    ensures var t := Fault(s, rs, va);
            && |t.directory| == FRAMES && t.directory[va / FRAME_SIZE] / FRAME_SIZE == ChosenFrame(s, rs)
            && (forall j: nat | j < 22 :: Bit(t.directory[va / FRAME_SIZE], j) <==> j in {0, 1, 2, 7})
            && (forall v | 0 <= v < FRAMES && v != va / FRAME_SIZE :: t.directory[v] == s.directory[v])
  {
    UserEntry(ChosenFrame(s, rs));
  }

  // ------------------------------------------------------------ invariant

  /** Frame `pfn` lies wholly inside one recorded region. */
  predicate InRam(rs: seq<Region>, pfn: nat) {
    exists i | 0 <= i < |rs| :: Inside(pfn, rs[i])
  }

  /** The regions the scan stays inside of. */
  predicate Scannable(rs: seq<Region>) {
    forall i | 0 <= i < |rs| :: rs[i].address < U32 && rs[i].size < U32 && ScanStaysInside(rs[i])
  }

  lemma {:induction false} ScanInRam(rs: seq<Region>, pfn: nat)
    requires Scannable(rs) && pfn in Scan(rs)
    ensures InRam(rs, pfn)
  {
    var front, last := rs[..|rs| - 1], rs[|rs| - 1];
    if pfn in Scan(front) {
      ScanInRam(front, pfn);
      var i :| 0 <= i < |front| && Inside(pfn, front[i]);
      assert Inside(pfn, rs[i]);
    } else {
      var j :| 0 <= j < |Candidates(last)| && Candidates(last)[j] == pfn;
      CandidateInside(last, j);
      assert Inside(pfn, rs[|rs| - 1]);
    }
  }

  ghost predicate EntrySound(s: State, rs: seq<Region>, v: nat)
    requires IsState(s) && v < FRAMES
  {
    var e := s.directory[v];
    if !Present(e) then e == 0
    else
      && UserFlags(e) && EntryFrame(e) < FRAMES && Used(s.words, EntryFrame(e))
      && if EntryFrame(e) == 0 then v == 0 else EntryFrame(e) in Scan(rs)
  }

  ghost predicate EntriesDisjoint(s: State, v: nat, w: nat)
    requires IsState(s) && v < FRAMES && w < FRAMES
  {
    Present(s.directory[v]) && Present(s.directory[w]) && v != w
    ==> EntryFrame(s.directory[v]) != EntryFrame(s.directory[w])
  }

  /** Entries are zero or map 4 MiB user pages. Mapped pages have distinct frames, all of them marked and, but for the kernel's own first
      frame, all of them tried by the scan. */
  ghost predicate Sound(s: State, rs: seq<Region>) {
    && IsState(s) && Used(s.words, 0)
    && (forall v | 0 <= v < FRAMES :: EntrySound(s, rs, v))
    && forall v, w | 0 <= v < FRAMES && 0 <= w < FRAMES :: EntriesDisjoint(s, v, w)
  }

  /** Pointing one page at an unused frame of the scan and marking that frame keeps everything sound. */
  lemma MappingSound(s: State, t: State, rs: seq<Region>, page: nat, e: nat, pfn: nat)
    requires Sound(s, rs) && IsState(t) && page < FRAMES && pfn < FRAMES
    requires t.directory == s.directory[page := e] && EntryFrame(e) == pfn && pfn in Scan(rs) && Present(e) && UserFlags(e)
    requires pfn !in UsedFrames(s.words) && UsedFrames(t.words) == UsedFrames(s.words) + {pfn}
    ensures Sound(t, rs)
  {
    forall p: nat | p < FRAMES ensures Used(t.words, p) <==> p == pfn || Used(s.words, p) {
      assert p in UsedFrames(t.words) <==> p in UsedFrames(s.words) + {pfn};
    }
    assert !Used(s.words, pfn);
    forall v | 0 <= v < FRAMES ensures EntrySound(t, rs, v) { assert EntrySound(s, rs, v); }
    forall v, w | 0 <= v < FRAMES && 0 <= w < FRAMES ensures EntriesDisjoint(t, v, w) {
      assert EntriesDisjoint(s, v, w) && EntrySound(s, rs, v) && EntrySound(s, rs, w);
    }
  }

  lemma FaultSound(s: State, rs: seq<Region>, va: nat)
    requires Sound(s, rs) && va < U32
    ensures Sound(Fault(s, rs, va), rs)
  {
    if CanMap(s, rs) {
      var pfn := ChosenFrame(s, rs);
      UserEntry(pfn);
      WithUsedExactly(s.words, pfn);
      MappingSound(s, Fault(s, rs, va), rs, va / FRAME_SIZE, Entry(pfn, true, true, true), pfn);
    }
  }

  // ----------------------------------------------------------------- runs

  /** The state `setupPaging` leaves: page 0 mapped to frame 0, and nothing else. */
  function Initial(): State {
    State([Entry(0, true, true, true)] + seq(FRAMES - 1, _ => 0), [1] + seq(MAP_WORDS - 1, _ => 0))
  }

  lemma {:induction false} OneBit(k: nat)
    ensures Bit(1, k) <==> k == 0
    ensures !Bit(0, k)
  {
    if k > 0 { OneBit(k - 1); }
  }

  lemma InitialSound(rs: seq<Region>)
    ensures Sound(Initial(), rs) && UsedFrames(Initial().words) == {0}
  {
    var s := Initial();
    EntryFields(0, true, true, true);
    forall p: nat | p < FRAMES ensures Used(s.words, p) <==> p == 0 { OneBit(p % 32); }
    forall v | 0 <= v < FRAMES ensures EntrySound(s, rs, v) { OneBit(0); }
    forall v, w | 0 <= v < FRAMES && 0 <= w < FRAMES ensures EntriesDisjoint(s, v, w) { OneBit(0); }
  }

  /** Before the first fault exactly the kernel's own 4 MiB are mapped, to themselves. */
  lemma InitialTranslates(va: nat)
    requires va < U32
    ensures Translate(Initial().directory, va) == if va < FRAME_SIZE then Some(va) else None
  {
    UserEntry(0);
    OneBit(0);
  }

  ghost predicate Addresses(faults: seq<nat>) {
    forall i | 0 <= i < |faults| :: faults[i] < U32
  }

  /** The state after a run of faults. */
  ghost function Run(rs: seq<Region>, faults: seq<nat>): (s: State)
    requires Addresses(faults)
    ensures Sound(s, rs)
  {
    if faults == [] then
      InitialSound(rs);
      Initial()
    else
      var s := Run(rs, faults[..|faults| - 1]);
      FaultSound(s, rs, faults[|faults| - 1]);
      Fault(s, rs, faults[|faults| - 1])
  }

  /** How many faults of the run were given a frame. */
  ghost function Served(rs: seq<Region>, faults: seq<nat>): nat
    requires Addresses(faults)
  {
    if faults == [] then 0
    else Served(rs, faults[..|faults| - 1]) + if CanMap(Run(rs, faults[..|faults| - 1]), rs) then 1 else 0
  }

  /** Over any run, on any memory map: distinct pages name distinct marked frames that the scan tries,
      no page but the kernel's first ever gets frame 0, and at most 1023 faults are served. */
  lemma {:induction false} RunSound(rs: seq<Region>, faults: seq<nat>)
    requires Addresses(faults)
    ensures Sound(Run(rs, faults), rs)
    ensures 0 in UsedFrames(Run(rs, faults).words)
    ensures Served(rs, faults) + 1 == |UsedFrames(Run(rs, faults).words)| <= FRAMES
  {
    var t := Run(rs, faults);
    if faults == [] {
      InitialSound(rs);
    } else {
      var front, va := faults[..|faults| - 1], faults[|faults| - 1];
      RunSound(rs, front);
      var s := Run(rs, front);
      if CanMap(s, rs) { FaultMaps(s, rs, va, va); }
    }
    AtMostAllFrames(UsedFrames(t.words), FRAMES);
  }

  /** After any run every directory entry is zero or has exactly those flags. */
  lemma RunEntriesExactly(rs: seq<Region>, faults: seq<nat>, v: nat)
    requires Addresses(faults) && v < FRAMES
    ensures var e := Run(rs, faults).directory[v];
            e == 0 || forall j: nat | j < 22 :: Bit(e, j) <==> j in {0, 1, 2, 7}
  {
    assert EntrySound(Run(rs, faults), rs, v);
  }

  /** Every frame the scan tries, but the kernel's own, is handed out by some run. */
  lemma EveryFrameIsHandedOut(rs: seq<Region>, pfn: nat) returns (faults: seq<nat>)
    requires pfn in Scan(rs) && pfn != 0
    ensures Addresses(faults)
    ensures Present(Run(rs, faults).directory[1]) && EntryFrame(Run(rs, faults).directory[1]) == pfn
  {
    InitialSound(rs);
    assert pfn !in UsedFrames(Run(rs, []).words);
    faults := HandedOut(rs, [], pfn);
  }

  lemma HandedOut(rs: seq<Region>, faults: seq<nat>, pfn: nat) returns (more: seq<nat>)
    requires Addresses(faults) && pfn in Scan(rs) && !Used(Run(rs, faults).words, pfn)
    ensures Addresses(more)
    ensures Present(Run(rs, more).directory[1]) && EntryFrame(Run(rs, more).directory[1]) == pfn
    decreases FRAMES - |UsedFrames(Run(rs, faults).words)|
  {
    var s := Run(rs, faults);
    GivesUpExactly(s, rs);
    more := faults + [FRAME_SIZE];
    RunStep(rs, faults, FRAME_SIZE);
    PageOneMapped(s, rs);
    var t := Fault(s, rs, FRAME_SIZE);
    if ChosenFrame(s, rs) != pfn {
      assert pfn !in UsedFrames(t.words);
      AtMostAllFrames(UsedFrames(t.words), FRAMES);
      more := HandedOut(rs, more, pfn);
    }
  }

  lemma RunStep(rs: seq<Region>, faults: seq<nat>, va: nat)
    requires Addresses(faults) && va < U32
    ensures Addresses(faults + [va]) && Run(rs, faults + [va]) == Fault(Run(rs, faults), rs, va)
  {
    assert (faults + [va])[..|faults|] == faults;
  }

  lemma PageOneMapped(s: State, rs: seq<Region>)
    requires IsState(s) && CanMap(s, rs)
    ensures var t, pfn := Fault(s, rs, FRAME_SIZE), ChosenFrame(s, rs);
            && Present(t.directory[1]) && EntryFrame(t.directory[1]) == pfn
            && UsedFrames(t.words) == UsedFrames(s.words) + {pfn} && |UsedFrames(t.words)| == |UsedFrames(s.words)| + 1
  {
    FaultMaps(s, rs, FRAME_SIZE, FRAME_SIZE);
    UserEntry(ChosenFrame(s, rs));
  }

  /** Every page but the kernel's first is mapped to real memory. */
  ghost predicate MappedInRam(s: State, rs: seq<Region>)
    requires IsState(s)
  {
    forall v | 0 <= v < FRAMES && Present(s.directory[v]) && EntryFrame(s.directory[v]) != 0 ::
      InRam(rs, EntryFrame(s.directory[v]))
  }

  ghost predicate AlwaysInRam(rs: seq<Region>) {
    forall faults | Addresses(faults) :: MappedInRam(Run(rs, faults), rs)
  }

  predicate ScanIsRam(rs: seq<Region>) {
    forall pfn | pfn in Scan(rs) && pfn != 0 :: InRam(rs, pfn)
  }

  /** No run maps a page to anything but memory exactly when every frame the scan tries, but the
      kernel's own, is memory. */
  lemma AlwaysInRamExactly(rs: seq<Region>)
    ensures AlwaysInRam(rs) <==> ScanIsRam(rs)
  {
    if ScanIsRam(rs) {
      forall faults | Addresses(faults) ensures MappedInRam(Run(rs, faults), rs) { ScannedInRam(rs, Run(rs, faults)); }
    } else {
      var pfn :| pfn in Scan(rs) && pfn != 0 && !InRam(rs, pfn);
      var faults := EveryFrameIsHandedOut(rs, pfn);
      assert !MappedInRam(Run(rs, faults), rs);
    }
  }

  lemma ScannedInRam(rs: seq<Region>, s: State)
    requires ScanIsRam(rs) && Sound(s, rs)
    ensures MappedInRam(s, rs)
  {
    forall v | 0 <= v < FRAMES && Present(s.directory[v]) && EntryFrame(s.directory[v]) != 0
      ensures InRam(rs, EntryFrame(s.directory[v]))
    {
      assert EntrySound(s, rs, v);
    }
  }

  /** So it is enough for the scan to stay inside each region. */
  lemma ScannableIsRam(rs: seq<Region>)
    requires Scannable(rs)
    ensures AlwaysInRam(rs)
  {
    forall pfn | pfn in Scan(rs) ensures InRam(rs, pfn) { ScanInRam(rs, pfn); }
    AlwaysInRamExactly(rs);
  }

  lemma {:induction false} AtMostAllFrames(s: set<nat>, n: nat)
    requires forall p | p in s :: p < n
    ensures |s| <= n
  {
    if n == 0 {
      assert s == {};
    } else {
      AtMostAllFrames(s - {n - 1}, n - 1);
      if n - 1 in s { assert s == s - {n - 1} + {n - 1}; } else { assert s == s - {n - 1}; }
    }
  }
}
