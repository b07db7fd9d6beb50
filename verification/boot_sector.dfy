/** The FAT12/16 boot-sector decoder (class `fat12_16_boot_sector`).
    Every accessor reads fixed little-endian fields of the first bytes of the
    volume, and the start sectors of FAT1, FAT2, the root directory and the
    data area are running sums of region lengths. Each accessor fails exactly
    when the field it reads lies past the end of the buffer. */
module BootSector {
  import opened Results
  import opened Bytes

  /** Bytes 0..2 read as a 3-byte little-endian number; the original pads
      them with a zero byte and unpacks a 32-bit value. */
  function BootStrappingAddress(data: seq<Byte>): (r: Result<nat>)
    ensures r.Ok? <==> |data| >= 3
    ensures r.Ok? ==> r.value == U16At(data, 0) + 65536 * data[2] as nat
    ensures r.Ok? ==> r.value < 0x100_0000
    ensures r.Err? ==> r.error == StructError
  {
    var padded := Slice(data, 0, 3) + [0];
    var v :- Unpack(U32LE, padded);
    assert v == U32At(padded, 0) by {
      assert padded[0..4] == padded;
      assert Read(padded, 0, U32LE) == Unpack(U32LE, padded);
    }
    Ok(v)
  }

  function BytesPerSector(data: seq<Byte>): (r: Result<nat>)
    ensures r.Ok? <==> |data| >= 13
    ensures r.Ok? ==> r.value == U16At(data, 11) < 0x1_0000
    ensures r.Err? ==> r.error == StructError
  {
    Read(data, 11, U16LE)
  }

  /** Byte 13 by subscript, so a short buffer gives an IndexError. */
  function SectorsPerCluster(data: seq<Byte>): (r: Result<nat>)
    ensures r.Ok? <==> |data| >= 14
    ensures r.Ok? ==> r.value == data[13] as nat
    ensures r.Err? ==> r.error == IndexError
  {
    var b :- ByteAt(data, 13);
    Ok(b as nat)
  }

  function ReservedSectors(data: seq<Byte>): (r: Result<nat>)
    ensures r.Ok? <==> |data| >= 16
    ensures r.Ok? ==> r.value == U16At(data, 14) < 0x1_0000
    ensures r.Err? ==> r.error == StructError
  {
    Read(data, 14, U16LE)
  }

  /** Quirk, kept as written: the root-directory capacity is read from bytes
      11..12, the bytes-per-sector field, and not from offset 17 where the
      boot sector stores it. */
  function MaxFilesInRootDir(data: seq<Byte>): (r: Result<nat>)
    ensures r == BytesPerSector(data)
  {
    Read(data, 11, U16LE)
  }

  /** Quirk, kept as written: capacity × 32 bytes divided by the constant 512
      with Python 2 floor division, not by the bytes-per-sector field. So the
      count is the whole 512-byte sectors the capacity's entries fill. */
  function SectorsInRootDirectory(data: seq<Byte>): (r: Result<nat>)
    ensures r.Ok? <==> |data| >= 13
    ensures r.Ok? ==> r.value * 512 <= U16At(data, 11) * 32 < (r.value + 1) * 512
    ensures r.Err? ==> r.error == StructError
  {
    var entries :- MaxFilesInRootDir(data);
    Ok(entries * 32 / 512)
  }

  /** The 16-bit total at offset 19 when it is non-zero; a zero there means
      the total did not fit and the 32-bit field at offset 32 holds it. */
  function TotalNumberSectors(data: seq<Byte>): (r: Result<nat>)
    ensures r.Ok? <==> |data| >= 21 && (U16At(data, 19) != 0 || |data| >= 36)
    ensures r.Ok? && U16At(data, 19) != 0 ==> r.value == U16At(data, 19)
    ensures r.Ok? && U16At(data, 19) == 0 ==> r.value == U32At(data, 32)
    ensures r.Ok? ==> r.value < 0x1_0000_0000
    ensures r.Err? ==> r.error == StructError
  {
    var short :- Read(data, 19, U16LE);
    if short > 0 then Ok(short) else Read(data, 32, U32LE)
  }

  function SectorsPerFat(data: seq<Byte>): (r: Result<nat>)
    ensures r.Ok? <==> |data| >= 24
    ensures r.Ok? ==> r.value == U16At(data, 22) < 0x1_0000
    ensures r.Err? ==> r.error == StructError
  {
    Read(data, 22, U16LE)
  }

  /** FAT1 follows the reserved sectors. */
  function Fat1StartSector(data: seq<Byte>): (r: Result<nat>)
    ensures r.Ok? <==> |data| >= 16
    ensures r.Ok? ==> r.value == U16At(data, 14)
    ensures r.Err? ==> r.error == StructError
  {
    ReservedSectors(data)
  }

  /** FAT2 follows FAT1, which is one FAT long. */
  function Fat2StartSector(data: seq<Byte>): (r: Result<nat>)
    ensures r.Ok? <==> |data| >= 24
    ensures r.Ok? ==> r.value == U16At(data, 14) + U16At(data, 22)
    ensures r.Err? ==> r.error == StructError
  {
    var fat1 :- Fat1StartSector(data);
    var perFat :- SectorsPerFat(data);
    Ok(fat1 + perFat)
  }

  /** The root directory follows FAT2; the count of FATs at offset 16 is never
      read, so exactly two FATs are assumed. */
  function RootDirStartSector(data: seq<Byte>): (r: Result<nat>)
    ensures r.Ok? <==> |data| >= 24
    ensures r.Ok? ==> r.value == U16At(data, 14) + 2 * U16At(data, 22)
    ensures r.Err? ==> r.error == StructError
  {
    match Fat2StartSector(data)
    case Err(e) => Err(e)
    case Ok(fat2) => Ok(fat2 + SectorsPerFat(data).value)
  }

  /** The data area follows the root directory. */
  function DataStartSector(data: seq<Byte>): (r: Result<nat>)
    ensures r.Ok? <==> |data| >= 24
    ensures r.Ok? ==> r.value == U16At(data, 14) + 2 * U16At(data, 22) + U16At(data, 11) / 16
    ensures r.Err? ==> r.error == StructError
  {
    match RootDirStartSector(data)
    case Err(e) => Err(e)
    case Ok(root) => Ok(root + SectorsInRootDirectory(data).value)
  }

  /** The volume layout is a chain of sums: once the boot sector holds the
      sectors-per-FAT field, every start sector is defined and each region
      begins where the one before it ends. */
  lemma GeometryIsChainOfSums(data: seq<Byte>)
    requires |data| >= 24
    ensures Fat1StartSector(data) == ReservedSectors(data)
    ensures Fat2StartSector(data).value == Fat1StartSector(data).value + SectorsPerFat(data).value
    ensures RootDirStartSector(data).value == Fat2StartSector(data).value + SectorsPerFat(data).value
    ensures DataStartSector(data).value == RootDirStartSector(data).value + SectorsInRootDirectory(data).value
    ensures Fat1StartSector(data).value <= Fat2StartSector(data).value
            <= RootDirStartSector(data).value <= DataStartSector(data).value
  {
  }

  /** The root-directory capacity where the boot sector stores it: the
      16-bit field at offset 17, as the original's own offset table lists. */
  function RootEntryCapacity(data: seq<Byte>): (r: Result<nat>)
    ensures r.Ok? <==> |data| >= 19
    ensures r.Ok? ==> r.value == U16At(data, 17) < 0x1_0000
    ensures r.Err? ==> r.error == StructError
  {
    Read(data, 17, U16LE)
  }

  /** Data start with the capacity read from offset 17 (the evidently intended
      reading); the 512-byte sector constant and floor division are kept. */
  function DataStartSectorCorrected(data: seq<Byte>): (r: Result<nat>)
    ensures r.Ok? <==> |data| >= 24
    ensures r.Ok? ==> r.value == U16At(data, 14) + 2 * U16At(data, 22) + U16At(data, 17) / 16
    ensures r.Ok? ==> var rootSectors := r.value - RootDirStartSector(data).value;
                      rootSectors * 512 <= U16At(data, 17) * 32 < (rootSectors + 1) * 512
    ensures r.Err? ==> r.error == StructError
  {
    match RootDirStartSector(data)
    case Err(e) => Err(e)
    case Ok(root) => Ok(root + RootEntryCapacity(data).value * 32 / 512)
  }

  /** The boot sector of a 1.44 MB floppy: 512 bytes per sector, one reserved
      sector, two FATs of 9 sectors, 224 root entries, 2880 sectors. */
  const Floppy144: seq<Byte> :=
    [0xEB, 0x3C, 0x90, 0x4D, 0x53, 0x44, 0x4F, 0x53, 0x35, 0x2E, 0x30,
     0x00, 0x02, 0x01, 0x01, 0x00, 0x02, 0xE0, 0x00, 0x40, 0x0B, 0xF0,
     0x09, 0x00]

  /** On that floppy the original places the data area at sector 51, reading
      512 root entries from the bytes-per-sector field; with the capacity
      from offset 17 it lies at sector 33, where the volume's data begins. */
  lemma RootCapacityQuirkWitness()
    ensures MaxFilesInRootDir(Floppy144) == Ok(512)
    ensures RootEntryCapacity(Floppy144) == Ok(224)
    ensures DataStartSector(Floppy144) == Ok(51)
    ensures DataStartSectorCorrected(Floppy144) == Ok(33)
  {
  }
}
