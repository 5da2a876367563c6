/** ISO9660::read_file: sector by sector through a buffer, against one slice of the file. */
module IsoFile {
  import opened Buffers
  import opened Machine

  const COMMON_LBA_SIZE := 2048
  const SECTOR := 512

  /** What a device gives for a number of its 512-byte sectors. */
  function Sectors(disk: seq<Byte>, start: nat, count: nat): (r: seq<Byte>)
    requires SECTOR * (start + count) <= |disk|
    ensures |r| == SECTOR * count
  {
    disk[SECTOR * start..SECTOR * (start + count)]
  }

  /** The extent of a file lies on the disk, to the end of its last sector. */
  predicate OnDisk(disk: seq<Byte>, inode: nat, size: nat) {
    COMMON_LBA_SIZE * (inode + DivideRoundUp(size, COMMON_LBA_SIZE)) <= |disk| < SECTOR * TWO_32
  }

  lemma RoundUp(size: nat, pos: nat)
    requires pos < size
    ensures pos / COMMON_LBA_SIZE + 1 <= DivideRoundUp(size, COMMON_LBA_SIZE)
  {
  }

  lemma RoundUpCovers(size: nat)
    ensures size <= COMMON_LBA_SIZE * DivideRoundUp(size, COMMON_LBA_SIZE)
  {
  }

  /** The contents of a contiguous file. */
  function FileBytes(disk: seq<Byte>, inode: nat, size: nat): (r: seq<Byte>)
    requires OnDisk(disk, inode, size)
    ensures |r| == size
  {
    RoundUpCovers(size);
    disk[COMMON_LBA_SIZE * inode..COMMON_LBA_SIZE * inode + size]
  }

  class FileState {
    const inode: nat
    const size: nat
    var position: nat

    constructor (inode: nat, size: nat)
      ensures this.inode == inode && this.size == size && position == 0
    {
      this.inode := inode;
      this.size := size;
      position := 0;
    }
  }

  /** The sector under a position, read through the device, holds the file's bytes up to its end. */
  lemma SectorHolds(disk: seq<Byte>, inode: nat, size: nat, position: nat, n: nat)
    requires OnDisk(disk, inode, size) && position < size
    requires position + n <= size && position % COMMON_LBA_SIZE + n <= COMMON_LBA_SIZE
    ensures var lba := 4 * (inode + position / COMMON_LBA_SIZE);
            && lba < TWO_32 && SECTOR * (lba + 4) <= |disk|
            && Sectors(disk, lba, 4)[position % COMMON_LBA_SIZE..position % COMMON_LBA_SIZE + n] ==
               FileBytes(disk, inode, size)[position..position + n]
  {
    RoundUp(size, position);
    var lba, start := 4 * (inode + position / COMMON_LBA_SIZE), position % COMMON_LBA_SIZE;
    assert SECTOR * lba + start == COMMON_LBA_SIZE * inode + position;
    SubSlice(disk, SECTOR * lba, SECTOR * (lba + 4), start, start + n);
    var first := COMMON_LBA_SIZE * inode;
    assert FileBytes(disk, inode, size) == disk[first..first + size];
    SubSlice(disk, first, first + size, position, position + n);
  }

  /** The portion the loop copies next: to the end of the file, of the sector or of the request. */
  method Portion(size: nat, position: nat, length: nat) returns (copyPortionSize: nat)
    requires position < size && length > 0
    ensures 0 < copyPortionSize == Min(Min(size - position, COMMON_LBA_SIZE - position % COMMON_LBA_SIZE), length)
  {
    var start := position % COMMON_LBA_SIZE;
    var leftToTheEndOfSector := COMMON_LBA_SIZE - start;
    copyPortionSize := size - position;
    if copyPortionSize > leftToTheEndOfSector {
      copyPortionSize := leftToTheEndOfSector;
    }
    if copyPortionSize > length {
      copyPortionSize := length;
    }
  }

  /** Exactly the bytes asked for, as far as the file goes. */
  method ReadFile(disk: seq<Byte>, state: FileState, buffer: array<Byte>, requested: nat) returns (read: nat)
    requires OnDisk(disk, state.inode, state.size) && state.position <= state.size
    requires Min(requested, state.size - state.position) <= buffer.Length
    modifies state, buffer
    ensures read == Min(requested, state.size - old(state.position)) && state.position == old(state.position) + read
    ensures buffer[..] ==
            Written(old(buffer[..]), FileBytes(disk, state.inode, state.size)[old(state.position)..state.position], 0)
  {
    hide FileBytes, OnDisk, Sectors, DivideRoundUp, Written;
    ghost var file, was := FileBytes(disk, state.inode, state.size), buffer[..];
    var initialPos, length, at := state.position, requested, 0;
    WrittenNone(was, 0);
    assert file[initialPos..initialPos] == [];
    while length > 0 && state.size - state.position > 0
      invariant initialPos <= state.position <= state.size && 0 <= length
      invariant at == state.position - initialPos == requested - length
      invariant buffer[..] == Written(was, file[initialPos..state.position], 0)
      decreases length
    {
      var copyPortionSize := Portion(state.size, state.position, length);
      SectorHolds(disk, state.inode, state.size, state.position, copyPortionSize);
      var tempReadBuffer := Sectors(disk, ToUint32(4 * (state.inode + state.position / COMMON_LBA_SIZE)), 4);
      var start := state.position % COMMON_LBA_SIZE;
      ghost var portion := file[state.position..state.position + copyPortionSize];
      MemCopy(tempReadBuffer[start..start + copyPortionSize], buffer, at);
      WrittenAppend(was, file[initialPos..state.position], portion, 0);
      ExtendSlice(file, initialPos, state.position, state.position + copyPortionSize);
      at := at + copyPortionSize;
      state.position := state.position + copyPortionSize;
      length := length - copyPortionSize;
    }
    read := state.position - initialPos;
  }

  function Sum(lengths: seq<nat>): nat {
    if lengths == [] then 0 else lengths[0] + Sum(lengths[1..])
  }

  lemma SumStep(lengths: seq<nat>, i: nat)
    requires i < |lengths|
    ensures Sum(lengths[i..]) == lengths[i] + Sum(lengths[i + 1..])
  {
    assert lengths[i..][1..] == lengths[i + 1..];
  }

  /** Any sequence of reads gives the file, cut nowhere and repeated nowhere. */
  method ReadRun(disk: seq<Byte>, state: FileState, lengths: seq<nat>) returns (bytes: seq<Byte>)
    requires OnDisk(disk, state.inode, state.size) && state.position <= state.size
    modifies state
    ensures old(state.position) <= state.position <= state.size
    ensures state.position == Min(old(state.position) + Sum(lengths), state.size)
    ensures bytes == FileBytes(disk, state.inode, state.size)[old(state.position)..state.position]
  {
    hide FileBytes, OnDisk, Sum;
    ghost var file := FileBytes(disk, state.inode, state.size);
    ghost var first := state.position;
    bytes := [];
    assert lengths[0..] == lengths;
    var i := 0;
    while i < |lengths|
      invariant 0 <= i <= |lengths| && first <= state.position <= state.size
      invariant Min(state.position + Sum(lengths[i..]), state.size) == Min(first + Sum(lengths), state.size)
      invariant bytes == file[first..state.position]
    {
      var buffer := new Byte[lengths[i]];
      ghost var before := state.position;
      SumStep(lengths, i);
      ghost var was := buffer[..];
      var read := ReadFile(disk, state, buffer, lengths[i]);
      WrittenParts(was, file[before..state.position], 0);
      ExtendSlice(file, first, before, state.position);
      bytes := bytes + buffer[..read];
      i := i + 1;
    }
    SumNone(lengths[i..]);
  }

  lemma SumNone(lengths: seq<nat>)
    requires lengths == []
    ensures Sum(lengths) == 0
  {
  }
}
