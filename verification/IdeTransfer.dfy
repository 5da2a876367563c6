/**
  IDE transfers: 28-bit addressing through the command block registers, and requests cut into commands of at most
  255 sectors.
 */
module IdeTransfer {
  import opened Buffers
  import opened Machine

  const WORDS := 256
  const TWO_24 := 0x100_0000
  const TWO_28 := 0x1000_0000

  /** The registers a read or write command takes its address and length from. */
  datatype CommandBlock = CommandBlock(
    driveHead: Byte, sectorCount: Byte, sectorNumber: Byte, cylinderLow: Byte, cylinderHigh: Byte)

  /** What the driver writes for a first sector and a count. */
  function Command(isSlave: bool, startLba: Word32, sectorCount: Byte): CommandBlock {
    CommandBlock(0xE0 + (if isSlave then 0x10 else 0) + startLba / TWO_24 % 16, sectorCount,
             startLba % 256, startLba / 256 % 256, startLba / 65536 % 256)
  }

  /** The sector the drive takes from its registers. */
  function Addressed(regs: CommandBlock): nat {
    regs.sectorNumber as int + 256 * regs.cylinderLow as int + 65536 * regs.cylinderHigh as int +
    TWO_24 * (regs.driveHead as int % 16)
  }

  /** The bytes of an address recompose to it. */
  lemma LbaBytes(startLba: Word32)
    ensures startLba % 256 + 256 * (startLba / 256 % 256) + 65536 * (startLba / 65536 % 256)
            + TWO_24 * (startLba / TWO_24) == startLba
    ensures startLba % TWO_28 == startLba - TWO_28 * (startLba / TWO_24 / 16)
  {
    var r0, r1, r2 := startLba / 256, startLba / 65536, startLba / TWO_24;
    DivSteps(startLba);
    assert startLba == 256 * r0 + startLba % 256 && r0 == 256 * r1 + r0 % 256 && r1 == 256 * r2 + r1 % 256;
  }

  lemma DivSteps(x: nat)
    ensures x / 256 / 256 == x / 65536
    ensures x / 65536 / 256 == x / TWO_24
    ensures x / TWO_24 / 16 == x / TWO_28
  {
    Div65536(x);
    Div24(x);
    Div28(x);
  }

  lemma Div65536(x: nat)
    ensures x / 256 / 256 == x / 65536
  {
  }

  lemma Div24(x: nat)
    ensures x / 65536 / 256 == x / TWO_24
  {
  }

  lemma Div28(x: nat)
    ensures x / TWO_24 / 16 == x / TWO_28
  {
  }

  lemma HeadBits(head: nat, slave: nat)
    requires slave <= 1
    ensures (0xE0 + 0x10 * slave + head % 16) % 16 == head % 16
    ensures (0xE0 + 0x10 * slave + head % 16) / 16 % 2 == slave
    ensures (0xE0 + 0x10 * slave + head % 16) / 32 == 7
  {
  }

  /** The split gives the drive the low 28 bits, so it addresses the sector meant exactly below the 28-bit limit. */
  lemma LbaSplit(isSlave: bool, startLba: Word32, sectorCount: Byte)
    ensures Addressed(Command(isSlave, startLba, sectorCount)) == startLba % TWO_28
    ensures Addressed(Command(isSlave, startLba, sectorCount)) == startLba <==> startLba < TWO_28
    ensures Command(isSlave, startLba, sectorCount).driveHead / 16 % 2 == if isSlave then 1 else 0
    ensures Command(isSlave, startLba, sectorCount).driveHead / 32 == 7
    ensures Command(isSlave, startLba, sectorCount).sectorCount == sectorCount
  {
    LbaBytes(startLba);
    var head := startLba / TWO_24;
    HeadBits(head, if isSlave then 1 else 0);
    assert head == head / 16 * 16 + head % 16;
  }

  /** A drive that carries out its commands. */
  class Drive {
    const words: array<Word16>

    constructor (sectors: nat)
      ensures words.Length == WORDS * sectors && fresh(words)
    {
      words := new Word16[WORDS * sectors](_ => 0);
    }

    /** The words of a run of sectors. */
    ghost function Sectors(start: nat, count: nat): (r: seq<Word16>)
      requires WORDS * (start + count) <= words.Length
      reads words
      ensures |r| == WORDS * count
    {
      words[WORDS * start..WORDS * (start + count)]
    }

    lemma SectorsAppend(start: nat, a: nat, b: nat)
      requires WORDS * (start + a + b) <= words.Length
      ensures Sectors(start, a) + Sectors(start + a, b) == Sectors(start, a + b)
      ensures Sectors(start, 0) == []
    {
      ExtendSlice(words[..], WORDS * start, WORDS * (start + a), WORDS * (start + a + b));
    }

    /** ata_read_sector and the transfer behind it. */
    method ReadSector(isSlave: bool, startLba: Word32, sectorCount: Byte, buffer: array<Word16>, at: nat)
      requires buffer != words && at + WORDS * sectorCount <= buffer.Length
      requires WORDS * (startLba % TWO_28 + sectorCount) <= words.Length
      modifies buffer
      ensures buffer[..] == Written(old(buffer[..]), Sectors(startLba % TWO_28, sectorCount), at)
    {
      LbaSplit(isSlave, startLba, sectorCount);
      var first := WORDS * Addressed(Command(isSlave, startLba, sectorCount));
      MemCopy(words[first..first + WORDS * sectorCount], buffer, at);
    }

    /** ata_write_sector and the transfer behind it. */
    method WriteSector(isSlave: bool, startLba: Word32, sectorCount: Byte, data: array<Word16>, at: nat)
      requires data != words && at + WORDS * sectorCount <= data.Length
      requires WORDS * (startLba % TWO_28 + sectorCount) <= words.Length
      modifies words
      ensures words[..] == Written(old(words[..]), data[at..at + WORDS * sectorCount], WORDS * (startLba % TWO_28))
    {
      LbaSplit(isSlave, startLba, sectorCount);
      var first := WORDS * Addressed(Command(isSlave, startLba, sectorCount));
      MemCopy(data[at..at + WORDS * sectorCount], words, first);
    }

    /** The request lies on the drive, below the 28-bit limit. */
    predicate IsRequest(start: nat, count: nat)
      reads this
    {
      WORDS * (start + count) <= words.Length && start + count <= TWO_28
    }

    lemma ReadStep(was: seq<Word16>, start: nat, total: nat, portion: nat)
      requires WORDS * (start + total + portion) <= words.Length && WORDS * (total + portion) <= |was|
      ensures Written(Written(was, Sectors(start, total), 0), Sectors(start + total, portion), WORDS * total) ==
              Written(was, Sectors(start, total + portion), 0)
    {
      hide *;
      WrittenAppend(was, Sectors(start, total), Sectors(start + total, portion), 0);
      SectorsAppend(start, total, portion);
    }

    /** IDEDeviceImpl::read: the commands make up one flat transfer. */
    method Read(isSlave: bool, start: nat, count: nat, outBuffer: array<Word16>)
      requires IsRequest(start, count) && outBuffer != words && WORDS * count <= outBuffer.Length
      modifies outBuffer
      ensures outBuffer[..] == Written(old(outBuffer[..]), Sectors(start, count), 0)
    {
      hide Written, Sectors;
      ghost var was := outBuffer[..];
      var totalRead := 0;
      WrittenNone(was, 0);
      SectorsAppend(start, 0, 0);
      while totalRead < count
        invariant 0 <= totalRead <= count
        invariant outBuffer[..] == Written(was, Sectors(start, totalRead), 0)
      {
        var portion := Min(count - totalRead, 0xFF);
        var offset := start + totalRead;
        ReadSector(isSlave, offset, portion, outBuffer, WORDS * totalRead);
        ReadStep(was, start, totalRead, portion);
        totalRead := totalRead + portion;
      }
    }

    /** IDEDeviceImpl::write: the commands make up one flat transfer and touch no other sector. */
    method Write(isSlave: bool, start: nat, count: nat, data: array<Word16>)
      requires IsRequest(start, count) && data != words && WORDS * count <= data.Length
      modifies words
      ensures words[..] == Written(old(words[..]), data[..WORDS * count], WORDS * start)
    {
      hide Written;
      ghost var was := words[..];
      var written := 0;
      WrittenNone(was, WORDS * start);
      assert data[..0] == [];
      while written < count
        invariant 0 <= written <= count
        invariant words[..] == Written(was, data[..WORDS * written], WORDS * start)
      {
        var portion := Min(count - written, 0xFF);
        var offset := start + written;
        WriteSector(isSlave, offset, portion, data, WORDS * written);
        WrittenAppend(was, data[..WORDS * written], data[WORDS * written..WORDS * (written + portion)], WORDS * start);
        ExtendSlice(data[..], 0, WORDS * written, WORDS * (written + portion));
        written := written + portion;
      }
    }

    /** What was written is read back, in whatever pieces the two requests are cut. */
    method WriteThenRead(isSlave: bool, start: nat, count: nat, data: array<Word16>, outBuffer: array<Word16>)
      requires IsRequest(start, count) && data != words && outBuffer != words && data != outBuffer
      requires WORDS * count <= data.Length && WORDS * count <= outBuffer.Length
      modifies words, outBuffer
      ensures outBuffer[..WORDS * count] == data[..WORDS * count]
    {
      ghost var was, old' := words[..], outBuffer[..];
      Write(isSlave, start, count, data);
      WrittenParts(was, data[..WORDS * count], WORDS * start);
      Read(isSlave, start, count, outBuffer);
      WrittenParts(old', Sectors(start, count), 0);
    }
  }
}
