/** SknyFS on a disk image: where its allocation map and file map lie, and what each operation
    does to the image. */
module SknyImage {
  import opened Common
  import opened Bytes
  import opened Bits
  import opened Kstdlib

  const CHUNK_SIZE: nat := 1024
  const IDE_SECTOR_SIZE: nat := 512
  const SECTORS_PER_CHUNK: nat := 2
  const CHUNKS_IN_ALLOCATION_MAP: nat := 16
  const CHUNKS_IN_FILE_MAP: nat := 16
  const FILE_MAP_BEGIN: nat := 16384
  const METADATA_SIZE: nat := 256
  const NAME_SIZE: nat := 252
  const FILES_PER_CHUNK: nat := 4
  const TOTAL_ALLOCATABLE_CHUNKS: nat := 131072
  const MAXIMUM_FILE_COUNT: nat := 64
  /** Bytes taken by the two maps. */
  const MAPS_SIZE: nat := 32768

  datatype Status = Ok | FilesystemFull

  /** A disk large enough for the two maps. */
  type Image = d: seq<byte> | |d| >= 32768 witness seq(32768, _ => 0)

  // ------------------------------------------------------ allocation map

  /** The allocation bit of chunk `c`. */
  predicate Allocated(d: Image, c: nat)
    requires c < TOTAL_ALLOCATABLE_CHUNKS
  {
    Bit(d[c / 8], c % 8)
  }

  lemma ByteFits(b: byte, k: nat)
    requires k < 8
    ensures SetBit(b, k) < 256
  {
    assert Pow2(8) == 256;
    SetBitBound(b, k, 8);
  }

  /** The image with the allocation bit of chunk `c` set. */
  function Marked(d: Image, c: nat): Image
    requires c < TOTAL_ALLOCATABLE_CHUNKS
  {
    ByteFits(d[c / 8], c % 8);
    d[c / 8 := SetBit(d[c / 8], c % 8)]
  }

  /** Marking sets exactly that bit; every other chunk's bit and every byte outside the
      allocation map stay. */
  lemma MarkedExactly(d: Image, c: nat)
    requires c < TOTAL_ALLOCATABLE_CHUNKS
    ensures forall x | 0 <= x < TOTAL_ALLOCATABLE_CHUNKS :: Allocated(Marked(d, c), x) <==> x == c || Allocated(d, x)
    ensures |Marked(d, c)| == |d|
    ensures forall p | 0 <= p < |d| && p != c / 8 :: Marked(d, c)[p] == d[p]
    ensures !Allocated(d, c) ==> Marked(d, c)[c / 8] as int == d[c / 8] as int + Pow2(c % 8)
  {
    SetBitAdds(d[c / 8], c % 8);
    forall x | 0 <= x < TOTAL_ALLOCATABLE_CHUNKS ensures Allocated(Marked(d, c), x) <==> x == c || Allocated(d, x) {
      if x / 8 == c / 8 { BitOfSetBit(d[c / 8], c % 8, x % 8); }
    }
  }

  // ------------------------------------------------------------ file map

  /** First byte of slot `k` of the file map. */
  function SlotBase(k: nat): (b: nat)
    requires k < MAXIMUM_FILE_COUNT
    ensures b + METADATA_SIZE <= MAPS_SIZE
  {
    FILE_MAP_BEGIN + METADATA_SIZE * k
  }

  /** An empty name marks a slot that holds no file. */
  predicate InUse(d: Image, k: nat)
    requires k < MAXIMUM_FILE_COUNT
  {
    d[SlotBase(k)] != 0
  }

  /** The chunk a slot points to. */
  function Location(d: Image, k: nat): nat
    requires k < MAXIMUM_FILE_COUNT
  {
    Le32(d, SlotBase(k) + NAME_SIZE)
  }

  /** Slot `k` stores the name `s`. */
  ghost predicate Named(d: Image, k: nat, s: seq<byte>)
    requires k < MAXIMUM_FILE_COUNT
  {
    |s| < NAME_SIZE && StringAt(d, SlotBase(k), s)
  }

  /** The image with the 256 bytes of slot `k` replaced. */
  function WithSlot(d: Image, k: nat, meta: seq<byte>): Image
    requires k < MAXIMUM_FILE_COUNT && |meta| == METADATA_SIZE
  {
    d[..SlotBase(k)] + meta + d[SlotBase(k) + METADATA_SIZE..]
  }

  /** What is stored of a file name. */
  function Truncated(name: seq<byte>): (s: seq<byte>)
    ensures |s| < NAME_SIZE && s <= name
  {
    if |name| < NAME_SIZE then name else name[..NAME_SIZE - 1]
  }

  /** The metadata record of a new file: its name padded with zeroes, then its location. */
  function Metadata(name: seq<byte>, location: nat): (m: seq<byte>)
    ensures |m| == METADATA_SIZE
  {
    Truncated(name) + seq(NAME_SIZE - |Truncated(name)|, _ => 0)
    + [LeByte(location, 0), LeByte(location, 1), LeByte(location, 2), LeByte(location, 3)]
  }

  /** Stored are up to 251 characters of the name. */
  lemma TruncatedExactly(name: seq<byte>)
    ensures Truncated(name) == if |name| <= 251 then name else name[..251]
  {
  }

  /** Behind the name the record is zero up to the location. */
  lemma MetadataExactly(name: seq<byte>, location: nat)
    requires location < U32
    ensures forall i | 0 <= i < 252 :: Metadata(name, location)[i] == if i < |name| && i < 251 then name[i] else 0
    ensures Le32(Metadata(name, location), 252) == location
  {
    LeBytesCompose(location);
  }

  /** Where a slot's fields are: its name at byte 16384 + 256 k, ended by a zero, and its chunk 252
      bytes behind, in four bytes with the lowest first. */
  lemma SlotExactly(d: Image, k: nat, s: seq<byte>)
    requires k < 64
    ensures InUse(d, k) <==> d[16384 + 256 * k] != 0
    ensures Named(d, k, s) <==> |s| < 252 && d[16384 + 256 * k + |s|] == 0
                                && forall i | 0 <= i < |s| :: d[16384 + 256 * k + i] == s[i] != 0
    ensures var at, c := 16384 + 256 * k + 252, Location(d, k);
            && d[at] == c % 0x100 && d[at + 1] == c / 0x100 % 0x100
            && d[at + 2] == c / 0x1_0000 % 0x100 && d[at + 3] == c / 0x100_0000
  {
    LittleEndian(d, 16384 + 256 * k + 252);
  }

  /** Replacing a slot makes it hold exactly that record, and leaves every other slot and the
      allocation map as they were. */
  lemma WithSlotExactly(d: Image, k: nat, name: seq<byte>, location: nat)
    requires k < MAXIMUM_FILE_COUNT && location < U32 && 0 !in name
    ensures var w := WithSlot(d, k, Metadata(name, location));
            && |w| == |d|
            && (InUse(w, k) <==> name != []) && Location(w, k) == location && Named(w, k, Truncated(name))
            && (forall j | 0 <= j < MAXIMUM_FILE_COUNT && j != k ::
                  InUse(w, j) == InUse(d, j) && Location(w, j) == Location(d, j))
            && (forall j, s | 0 <= j < MAXIMUM_FILE_COUNT && j != k && Named(d, j, s) :: Named(w, j, s))
            && (forall c | 0 <= c < TOTAL_ALLOCATABLE_CHUNKS :: Allocated(w, c) == Allocated(d, c))
  {
    var m := Metadata(name, location);
    var w := WithSlot(d, k, m);
    SlotBytes(d, k, m);
    NewSlot(d, k, name, location);
    forall j, s | 0 <= j < MAXIMUM_FILE_COUNT && j != k && Named(d, j, s) ensures Named(w, j, s) {
      assert forall i | SlotBase(j) <= i <= SlotBase(j) + |s| :: w[i] == d[i];
    }
  }

  lemma SlotBytes(d: Image, k: nat, m: seq<byte>)
    requires k < MAXIMUM_FILE_COUNT && |m| == METADATA_SIZE
    ensures var w := WithSlot(d, k, m);
            && |w| == |d|
            && (forall i | 0 <= i < |d| && !(SlotBase(k) <= i < SlotBase(k) + METADATA_SIZE) :: w[i] == d[i])
            && (forall i | SlotBase(k) <= i < SlotBase(k) + METADATA_SIZE :: w[i] == m[i - SlotBase(k)])
  {
  }

  lemma NewSlot(d: Image, k: nat, name: seq<byte>, location: nat)
    requires k < MAXIMUM_FILE_COUNT && location < U32 && 0 !in name
    ensures var w := WithSlot(d, k, Metadata(name, location));
            && (InUse(w, k) <==> name != []) && Location(w, k) == location && Named(w, k, Truncated(name))
  {
    var w := WithSlot(d, k, Metadata(name, location));
    SlotBytes(d, k, Metadata(name, location));
    MetadataExactly(name, location);
    HoldsName(w, k, Metadata(name, location), name);
    HoldsLocation(w, k, Metadata(name, location));
  }

  lemma HoldsName(w: Image, k: nat, m: seq<byte>, name: seq<byte>)
    requires k < MAXIMUM_FILE_COUNT && |m| == METADATA_SIZE && 0 !in name
    requires forall i | SlotBase(k) <= i < SlotBase(k) + METADATA_SIZE :: w[i] == m[i - SlotBase(k)]
    requires forall i | 0 <= i < 252 :: m[i] == if i < |name| && i < 251 then name[i] else 0
    ensures (InUse(w, k) <==> name != []) && Named(w, k, Truncated(name))
  {
    var s, b := Truncated(name), SlotBase(k);
    TruncatedExactly(name);
    forall i | 0 <= i < |s| ensures w[b + i] == s[i] != 0 {
      assert w[b + i] == m[b + i - b];
      assert s[i] in name;
    }
    assert w[b + |s|] == m[b + |s| - b];
    assert w[b] == m[b - b];
  }

  lemma HoldsLocation(w: Image, k: nat, m: seq<byte>)
    requires k < MAXIMUM_FILE_COUNT && |m| == METADATA_SIZE
    requires forall i | SlotBase(k) <= i < SlotBase(k) + METADATA_SIZE :: w[i] == m[i - SlotBase(k)]
    ensures Location(w, k) == Le32(m, 252)
  {
    var b := SlotBase(k);
    assert w[b + 252] == m[b + 252 - b] && w[b + 253] == m[b + 253 - b];
    assert w[b + 254] == m[b + 254 - b] && w[b + 255] == m[b + 255 - b];
  }

  // ----------------------------------------------------------- operations

  /** The lowest chunk from `c` on whose bit is clear, or the number of chunks. */
  function FirstFree(d: Image, c: nat): (r: nat)
    requires c <= TOTAL_ALLOCATABLE_CHUNKS
    ensures c <= r <= TOTAL_ALLOCATABLE_CHUNKS
    ensures r < TOTAL_ALLOCATABLE_CHUNKS ==> !Allocated(d, r)
    ensures forall x | c <= x < r :: Allocated(d, x)
    decreases TOTAL_ALLOCATABLE_CHUNKS - c
  {
    if c == TOTAL_ALLOCATABLE_CHUNKS || !Allocated(d, c) then c else FirstFree(d, c + 1)
  }

  /** The lowest slot from `k` on that holds no file, or the number of slots. */
  function FirstEmpty(d: Image, k: nat): (r: nat)
    requires k <= MAXIMUM_FILE_COUNT
    ensures k <= r <= MAXIMUM_FILE_COUNT
    ensures r < MAXIMUM_FILE_COUNT ==> !InUse(d, r)
    ensures forall x | k <= x < r :: InUse(d, x)
    decreases MAXIMUM_FILE_COUNT - k
  {
    if k == MAXIMUM_FILE_COUNT || !InUse(d, k) then k else FirstEmpty(d, k + 1)
  }

  /** There is a free chunk and an empty slot. */
  predicate HasRoom(d: Image) {
    FirstFree(d, 0) < TOTAL_ALLOCATABLE_CHUNKS && FirstEmpty(d, 0) < MAXIMUM_FILE_COUNT
  }

  lemma HasRoomExactly(d: Image)
    ensures HasRoom(d) <==> (exists c: nat :: c < 131072 && !Allocated(d, c)) && exists k: nat :: k < 64 && !InUse(d, k)
  {
  }

  /** The disk after the first of the two writes that create a file. */
  function HalfCreated(d: Image): Image {
    if HasRoom(d) then Marked(d, FirstFree(d, 0)) else d
  }

  /** The disk after a file has been created, or the unchanged disk when there is no room. */
  function Created(d: Image, name: seq<byte>): Image {
    if HasRoom(d) then WithSlot(HalfCreated(d), FirstEmpty(d, 0), Metadata(name, FirstFree(d, 0))) else d
  }

  /** Between its two writes a creation has set the allocation bit of the lowest free chunk, and
      nothing else. */
  lemma HalfCreatedExactly(d: Image)
    ensures !HasRoom(d) ==> HalfCreated(d) == d
    ensures HasRoom(d) ==>
              var c, h := FirstFree(d, 0), HalfCreated(d);
              && |h| == |d| && (forall p | 0 <= p < |d| && p != c / 8 :: h[p] == d[p])
              && (forall x | 0 <= x < 131072 :: Allocated(h, x) <==> x == c || Allocated(d, x))
  {
    if HasRoom(d) { MarkedExactly(d, FirstFree(d, 0)); }
  }

  /** A whole creation has moreover written the lowest empty slot: up to 251 characters of the name,
      and the chunk. No byte outside that slot and that bit has changed. */
  lemma CreatedExactly(d: Image, name: seq<byte>)
    requires 0 !in name
    ensures !HasRoom(d) ==> Created(d, name) == d
    ensures HasRoom(d) ==>
              var c, k, w := FirstFree(d, 0), FirstEmpty(d, 0), Created(d, name);
              && Named(w, k, if |name| <= 251 then name else name[..251]) && Location(w, k) == c
              && |w| == |d| && (forall x | 0 <= x < 131072 :: Allocated(w, x) <==> x == c || Allocated(d, x))
              && (forall p | 0 <= p < |d| && p != c / 8 && !(SlotBase(k) <= p < SlotBase(k) + 256) :: w[p] == d[p])
  {
    if HasRoom(d) {
      var c, k, h := FirstFree(d, 0), FirstEmpty(d, 0), HalfCreated(d);
      HalfCreatedExactly(d);
      WithSlotExactly(h, k, name, c);
      TruncatedExactly(name);
      SlotBytes(h, k, Metadata(name, c));
    }
  }

  /** The freshly formatted disk. */
  ghost predicate Formatted(d: Image) {
    forall p | 0 <= p < MAPS_SIZE :: d[p] == 0
  }
}
