/** The SknyFS driver: searches chunk by chunk through buffers and updates the disk by reading,
    changing and writing back whole chunks. Disk transfers succeed. */
module SknyFs {
  import opened Common
  import opened Bytes
  import opened Bits
  import opened Kstdlib
  import opened SknyImage
  import opened SknyTheorems

  class SknyDrive {
    const disk: array<byte>

    ghost predicate Valid() {
      disk.Length >= MAPS_SIZE
    }

    constructor (drive: array<byte>)
      requires drive.Length >= MAPS_SIZE
      ensures Valid() && disk == drive
    {
      disk := drive;
    }

    /** `ideReadSectors` into a new buffer. */
    method ReadSectors(num: nat, location: nat) returns (buffer: array<byte>)
      requires location + num * IDE_SECTOR_SIZE <= disk.Length
      ensures fresh(buffer) && buffer.Length == num * IDE_SECTOR_SIZE
      ensures forall i | 0 <= i < buffer.Length :: buffer[i] == disk[location + i]
    {
      buffer := new byte[num * IDE_SECTOR_SIZE];
      forall i | 0 <= i < buffer.Length { buffer[i] := disk[location + i]; }
    }

    /** `ideWriteSectors` */
    method WriteSectors(num: nat, location: nat, buffer: array<byte>)
      requires buffer != disk && buffer.Length == num * IDE_SECTOR_SIZE
      requires location + num * IDE_SECTOR_SIZE <= disk.Length
      modifies disk
      ensures forall i | 0 <= i < disk.Length ::
                disk[i] == if location <= i < location + buffer.Length then buffer[i - location] else old(disk[i])
    {
      forall i | 0 <= i < buffer.Length { disk[location + i] := buffer[i]; }
    }

    // ------------------------------------------------------ allocation map

    /** `searchAllocationMap`: the lowest free chunk; full exactly when no bit is clear. */
    method SearchAllocationMap() returns (status: Status, ret: nat)
      requires Valid()
      ensures ret == FirstFree(disk[..], 0)
      ensures status.Ok? <==> ret < TOTAL_ALLOCATABLE_CHUNKS
    {
      var i := 0;
      while i < CHUNKS_IN_ALLOCATION_MAP
        invariant i <= CHUNKS_IN_ALLOCATION_MAP
        invariant forall p | 0 <= p < i * CHUNK_SIZE :: disk[p] == 255
      {
        var chunk := ReadSectors(SECTORS_PER_CHUNK, i * CHUNK_SIZE);
        var j := 0;
        while j < CHUNK_SIZE
          modifies {}
          invariant j <= CHUNK_SIZE
          invariant forall p | 0 <= p < i * CHUNK_SIZE + j :: disk[p] == 255
        {
          var field := chunk[j];
          assert field == disk[i * CHUNK_SIZE + j];
          if field != 0xff {
            var bit := 0;
            while bit < 8
              modifies {}
              invariant bit <= 8
              invariant forall q: nat | q < bit :: Bit(field, q)
            {
              if !Bit(field, bit) {
                ret := i * (CHUNK_SIZE * 8) + j * 8 + bit;
                FoundFree(disk[..], i * CHUNK_SIZE + j, bit);
                return Ok, ret;
              }
              bit := bit + 1;
            }
            ByteNotFull(field);
            assert false;
          }
          j := j + 1;
        }
        i := i + 1;
      }
      AllFull(disk[..]);
      return FilesystemFull, TOTAL_ALLOCATABLE_CHUNKS;
    }

    /** `markChunkAsUsed`: read, set one bit, write back. */
    method MarkChunkAsUsed(chunk: nat)
      requires Valid() && chunk < TOTAL_ALLOCATABLE_CHUNKS
      modifies disk
      ensures disk[..] == Marked(old(disk[..]), chunk)
    {
      var bitsPerChunk := CHUNK_SIZE * 8;
      var mapChunk := chunk / bitsPerChunk;
      var offset := chunk % bitsPerChunk;
      var byteOffset := offset / 8;
      var bitOffset := offset % 8;
      Decomposition(chunk);
      var buffer := ReadSectors(SECTORS_PER_CHUNK, mapChunk * CHUNK_SIZE);
      ByteFits(buffer[byteOffset], bitOffset);
      buffer[byteOffset] := SetBit(buffer[byteOffset], bitOffset);
      WriteSectors(SECTORS_PER_CHUNK, mapChunk * CHUNK_SIZE, buffer);
    }

    // ------------------------------------------------------------ file map

    /** `searchFileMap`: the lowest slot with an empty name; full exactly when there is none. */
    method SearchFileMap() returns (status: Status, ret: nat)
      requires Valid()
      ensures ret == FirstEmpty(disk[..], 0)
      ensures status.Ok? <==> ret < MAXIMUM_FILE_COUNT
    {
      ghost var d, k := disk[..], 0;
      var c := 0;
      while c < CHUNKS_IN_FILE_MAP
        invariant c <= CHUNKS_IN_FILE_MAP && k == FILES_PER_CHUNK * c
        invariant FirstEmpty(d, k) == FirstEmpty(d, 0)
      {
        var files := ReadSectors(SECTORS_PER_CHUNK, FILE_MAP_BEGIN + c * CHUNK_SIZE);
        var f := 0;
        while f < FILES_PER_CHUNK
          modifies {}
          invariant f <= FILES_PER_CHUNK && k == FILES_PER_CHUNK * c + f
          invariant FirstEmpty(d, k) == FirstEmpty(d, 0)
        {
          assert files[METADATA_SIZE * f] == d[SlotBase(k)];
          if files[METADATA_SIZE * f] == 0 {
            return Ok, c * FILES_PER_CHUNK + f;
          }
          f, k := f + 1, k + 1;
        }
        c := c + 1;
      }
      return FilesystemFull, MAXIMUM_FILE_COUNT;
    }

    /** `writeFileMetadata`: read a chunk of the file map, overwrite one record, write back. */
    method WriteFileMetadata(index: nat, meta: array<byte>)
      requires Valid() && index < MAXIMUM_FILE_COUNT && meta != disk && meta.Length == METADATA_SIZE
      modifies disk
      ensures disk[..] == WithSlot(old(disk[..]), index, meta[..])
    {
      var chunk := index / FILES_PER_CHUNK;
      var location := FILE_MAP_BEGIN + chunk * CHUNK_SIZE;
      var files := ReadSectors(SECTORS_PER_CHUNK, location);
      var slot := METADATA_SIZE * (index % FILES_PER_CHUNK);
      assert location + slot == SlotBase(index);
      forall i | 0 <= i < METADATA_SIZE { files[slot + i] := meta[i]; }
      WriteSectors(SECTORS_PER_CHUNK, location, files);
      SlotBytes(old(disk[..]), index, meta[..]);
    }

    // ----------------------------------------------------------- operations

    /** `sknyCreateFile`. `half` is the disk between its two writes. */
    method CreateFile(name: array<byte>, p: nat, ghost s: seq<byte>) returns (status: Status, ghost half: seq<byte>)
      requires Valid() && name != disk && StringAt(name[..], p, s)
      modifies disk
      ensures status.Ok? <==> HasRoom(old(disk[..]))
      ensures half == HalfCreated(old(disk[..]))
      ensures disk[..] == Created(old(disk[..]), s)
    {
      half := disk[..];
      var chunk, index;
      status, chunk := SearchAllocationMap();
      if status != Ok { return; }
      status, index := SearchFileMap();
      if status != Ok { return; }
      MarkChunkAsUsed(chunk);
      half := disk[..];
      var meta := BuildMetadata(name, p, chunk, s);
      WriteFileMetadata(index, meta);
      return Ok, half;
    }

    /** The record of a new file: `kmemset`, `kstrncpy`, then the location. */
    method BuildMetadata(name: array<byte>, p: nat, location: nat, ghost s: seq<byte>) returns (meta: array<byte>)
      requires StringAt(name[..], p, s) && location < U32
      ensures fresh(meta) && meta.Length == METADATA_SIZE && meta[..] == Metadata(s, location)
    {
      meta := new byte[METADATA_SIZE];
      KMemSet(meta, 0, 0, NAME_SIZE);
      var written := KStrNCpy(meta, 0, name, p, NAME_SIZE, s);
      ghost var name' := meta[..NAME_SIZE];
      assert s[..written] == Truncated(s);
      PaddedName(name', s);
      meta[252], meta[253], meta[254], meta[255] :=
        LeByte(location, 0), LeByte(location, 1), LeByte(location, 2), LeByte(location, 3);
      assert meta[..NAME_SIZE] == name';
      assert meta[NAME_SIZE..] == [LeByte(location, 0), LeByte(location, 1), LeByte(location, 2), LeByte(location, 3)];
      assert meta[..] == meta[..NAME_SIZE] + meta[NAME_SIZE..];
    }

    /** `searchForFile`: the lowest slot whose stored name `kstrcmp` finds no difference to. `names`
        are the stored names of all slots. */
    method SearchForFile(name: array<byte>, p: nat, ghost s: seq<byte>, ghost names: seq<seq<byte>>)
      returns (status: Status, ret: nat)
      requires Valid() && StringAt(name[..], p, s)
      requires |names| == MAXIMUM_FILE_COUNT
      requires forall k | 0 <= k < MAXIMUM_FILE_COUNT :: Named(disk[..], k, names[k])
      ensures ret == FirstMatch(names, s, 0)
      ensures status.Ok? <==> ret < MAXIMUM_FILE_COUNT
    {
      var c := 0;
      while c < CHUNKS_IN_FILE_MAP
        invariant c <= CHUNKS_IN_FILE_MAP
        invariant FirstMatch(names, s, FILES_PER_CHUNK * c) == FirstMatch(names, s, 0)
      {
        var files := ReadSectors(SECTORS_PER_CHUNK, FILE_MAP_BEGIN + c * CHUNK_SIZE);
        var f := 0;
        while f < FILES_PER_CHUNK
          modifies {}
          invariant f <= FILES_PER_CHUNK
          invariant FirstMatch(names, s, FILES_PER_CHUNK * c + f) == FirstMatch(names, s, 0)
        {
          ghost var k := FILES_PER_CHUNK * c + f;
          assert Named(disk[..], k, names[k]);
          SlotInBuffer(disk[..], files[..], k, METADATA_SIZE * f, names[k]);
          var diff := KStrCmp(name, p, files, METADATA_SIZE * f, s, names[k]);
          if diff == 0 {
            return Ok, c * FILES_PER_CHUNK + f;
          }
          f := f + 1;
        }
        c := c + 1;
      }
      return FilesystemFull, MAXIMUM_FILE_COUNT;
    }

    // ----------------------------------------------------------- formatting

    /** `clearChunk` */
    method ClearChunk(chunk: nat, value: byte)
      requires Valid() && (chunk + 1) * CHUNK_SIZE <= disk.Length
      modifies disk
      ensures forall p | 0 <= p < disk.Length ::
                disk[p] == if chunk * CHUNK_SIZE <= p < (chunk + 1) * CHUNK_SIZE then value else old(disk[p])
    {
      var buffer := new byte[IDE_SECTOR_SIZE];
      var i := 0;
      while i < IDE_SECTOR_SIZE
        invariant i <= IDE_SECTOR_SIZE
        invariant forall q | 0 <= q < i :: buffer[q] == value
        modifies buffer
      {
        buffer[i] := value;
        i := i + 1;
      }
      i := 0;
      while i < SECTORS_PER_CHUNK
        invariant i <= SECTORS_PER_CHUNK
        invariant forall q | 0 <= q < IDE_SECTOR_SIZE :: buffer[q] == value
        invariant forall p | 0 <= p < disk.Length ::
          disk[p] == if chunk * CHUNK_SIZE <= p < chunk * CHUNK_SIZE + i * IDE_SECTOR_SIZE then value else old(disk[p])
      {
        WriteSectors(1, chunk * CHUNK_SIZE + i * IDE_SECTOR_SIZE, buffer);
        i := i + 1;
      }
    }

    /** `sknyCreateFilesystem`: both maps become empty and nothing else changes. */
    method CreateFilesystem() returns (status: Status)
      requires Valid()
      modifies disk
      ensures status.Ok? && Formatted(disk[..])
      ensures forall p | MAPS_SIZE <= p < disk.Length :: disk[p] == old(disk[p])
    {
      var i := 0;
      while i < CHUNKS_IN_ALLOCATION_MAP
        invariant i <= CHUNKS_IN_ALLOCATION_MAP
        invariant forall p | 0 <= p < i * CHUNK_SIZE :: disk[p] == 0
        invariant forall p | i * CHUNK_SIZE <= p < disk.Length :: disk[p] == old(disk[p])
      {
        ClearChunk(i, 0);
        i := i + 1;
      }
      i := 0;
      while i < CHUNKS_IN_FILE_MAP
        invariant i <= CHUNKS_IN_FILE_MAP
        invariant forall p | 0 <= p < FILE_MAP_BEGIN + i * CHUNK_SIZE :: disk[p] == 0
        invariant forall p | FILE_MAP_BEGIN + i * CHUNK_SIZE <= p < disk.Length :: disk[p] == old(disk[p])
      {
        ClearChunk(CHUNKS_IN_ALLOCATION_MAP + i, 0);
        i := i + 1;
      }
      return Ok;
    }
  }

  // ---------------------------------------------------------------- lemmas

  /** A byte other than 0xff has a clear bit. */
  lemma ByteNotFull(b: byte)
    requires b != 255
    ensures exists q: nat | q < 8 :: !Bit(b, q)
  {
    assert Pow2(8) == 256;
    AllBitsSet(b, 8);
  }

  lemma FullByte(b: byte, q: nat)
    requires b == 255 && q < 8
    ensures Bit(b, q)
  {
    assert Pow2(8) == 256;
    FullWord(8, q);
  }

  /** The first clear bit of the first byte that is not full is the lowest free chunk. */
  lemma FoundFree(d: Image, p: nat, bit: nat)
    requires p < CHUNKS_IN_ALLOCATION_MAP * CHUNK_SIZE && bit < 8 && !Bit(d[p], bit)
    requires forall q: nat | q < bit :: Bit(d[p], q)
    requires forall p' | 0 <= p' < p :: d[p'] == 255
    ensures FirstFree(d, 0) == p * 8 + bit
  {
    var c := p * 8 + bit;
    assert c / 8 == p && c % 8 == bit;
    assert !Allocated(d, c);
    forall x: nat | x < c ensures Allocated(d, x) {
      if x / 8 < p { FullByte(d[x / 8], x % 8); }
    }
  }

  lemma AllFull(d: Image)
    requires forall p | 0 <= p < FILE_MAP_BEGIN :: d[p] == 255
    ensures FirstFree(d, 0) == TOTAL_ALLOCATABLE_CHUNKS
  {
    forall x: nat | x < TOTAL_ALLOCATABLE_CHUNKS ensures Allocated(d, x) { FullByte(d[x / 8], x % 8); }
  }

  /** The chunk, byte and bit a chunk number splits into name its byte and bit in the map. */
  lemma Decomposition(c: nat)
    requires c < TOTAL_ALLOCATABLE_CHUNKS
    ensures c / 8192 < CHUNKS_IN_ALLOCATION_MAP
    ensures c / 8192 * CHUNK_SIZE + c % 8192 / 8 == c / 8 && c % 8192 % 8 == c % 8
  {
  }

  lemma PaddedName(m: seq<byte>, s: seq<byte>)
    requires |m| == NAME_SIZE && 0 !in s && StringAt(m, 0, Truncated(s))
    requires forall i | |Truncated(s)| < i < NAME_SIZE :: m[i] == 0
    ensures m == Truncated(s) + seq(NAME_SIZE - |Truncated(s)|, _ => 0)
  {
    var t := Truncated(s);
    assert forall i | 0 <= i < |t| :: m[0 + i] == t[i];
    assert m[0 + |t|] == 0;
  }

  lemma SlotInBuffer(d: Image, buffer: seq<byte>, k: nat, offset: nat, s: seq<byte>)
    requires k < MAXIMUM_FILE_COUNT && Named(d, k, s) && offset <= SlotBase(k) && offset + METADATA_SIZE <= |buffer|
    requires SlotBase(k) - offset + |buffer| <= |d|
    requires forall i | 0 <= i < |buffer| :: buffer[i] == d[SlotBase(k) - offset + i]
    ensures StringAt(buffer, offset, s)
  {
    forall i | 0 <= i < |s| ensures buffer[offset + i] == s[i] && s[i] != 0 {
      assert buffer[offset + i] == d[SlotBase(k) - offset + (offset + i)];
    }
    assert buffer[offset + |s|] == d[SlotBase(k) - offset + (offset + |s|)];
  }
}
