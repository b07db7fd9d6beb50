# FAT12/16 on-disk structure decoder, modelled in Dafny

This project models the decoding layer of `fat_fs_parser.py`, a Python 2
decoder for FAT12/16 volumes. It has four parts, each a Dafny module:

- `BootSector` (class `fat12_16_boot_sector`). It reads the little-endian
  boot-sector fields and derives the start sectors of FAT1, FAT2, the root
  directory and the data area as running sums.
- `RootDirectory` (method `root_directory.files`). It cuts the root-directory
  region into 32-byte slots and stops at the first slot whose leading 8 bytes
  are all zero.
- `DirectoryEntry` (class `directory_entry`). It covers:
  - the attribute bit tests on byte 11;
  - the packed FAT date and time words;
  - the deleted and long-filename markers;
  - the file size;
  - the first cluster, rebuilt from two non-adjacent 16-bit halves.
- `ClusterChain` (method `data_run.list`). It follows 16-bit FAT entries until
  it reads 0xFFFF.

Three support modules are shared by the others:

- `Results`: the error outcomes of the original as a `Result` type.
- `Bytes`: Python 2 byte-string slicing, `struct.unpack` and the
  little-/big-endian byte definitions.
- `Bits`: Python's `&` and `>>` on non-negative integers, plus the lemmas that
  give masks and shifts their arithmetic meaning.

The original's failures become error values instead of preconditions:

- A slice that clamps short and is then given to `struct.unpack` becomes
  `StructError`.
- A single-byte subscript past the end becomes `IndexError`.
- The original chain loop has no cycle guard and loops forever on a cyclic
  table. It is modelled twice:
  - `ListFrom` is the same loop, cut off after a number of trips.
  - `Walk` is a total walker that stops with `CycleDetected` when it revisits
    a cluster.

  The walker is proved to agree exactly with the loop: it returns a list if
  and only if the loop eventually returns that list, it fails with
  `StructError` if and only if the loop raises, and it fails with
  `CycleDetected` if and only if the loop never stops.

Quirks of the code are kept as written, each recorded in a comment:

- The root-directory capacity is read from bytes 11..12, which hold the
  bytes-per-sector field.
- The root-directory sector count divides by the constant 512, with floor
  division.
- FAT2 and the root directory assume exactly two FATs.
- The day of a date is rendered with space padding. Rendering is not
  modelled.

## Model

| member | source | states |
|---|---|---|
| `Bytes.Read` | fat_fs_parser.py:66-68 | `struct.unpack` of the clamped slice `s[off:off+w]` succeeds exactly when the field lies wholly in the buffer, otherwise `StructError`; a `<H` field is byte `off` plus 256 times byte `off+1`, below 2^16, and a `<L` field is the 32-bit little-endian value, below 2^32 |
| `Bytes.Slice` | fat_fs_parser.py:68 | Python's `s[lo:hi]` with both bounds clamped to the string: inside the string it is exactly the bytes from `lo` up to `hi`, a slice running past the end stops at the end, and a slice starting past the end is empty |
| `Bytes.Unpack` | fat_fs_parser.py:68 | `struct.unpack` succeeds only on a string of exactly the format's width, with a value below 256^width; any other length is a `StructError`; a `<` format reads the bytes least significant first, a `>` format (the `>Q` and `>L` reads of lines 135 and 242) reads them most significant first, i.e. the little-endian value of the reversed bytes |
| `Bytes.ByteAt` | fat_fs_parser.py:72 | a single-byte subscript yields that byte inside the buffer and an `IndexError` past its end |
| `Bytes.LittleEndianRoundTrip` | fat_fs_parser.py:68 | little-endian decoding inverts the n-byte little-endian encoding of every value below 256^n |
| `Bytes.ToLittleEndianRoundTrip` | fat_fs_parser.py:68 | every byte string is the encoding of its little-endian value, so `<H`/`<L` decoding is a bijection |
| `Bytes.BigEndianIsReversedLittleEndian` | fat_fs_parser.py:242 | a big-endian read is the little-endian read of the reversed bytes |
| `Bytes.BigEndianOfFour` | fat_fs_parser.py:242 | a 4-byte big-endian read weights the bytes by 2^24, 2^16, 2^8 and 1 |
| `Bytes.BigEndianZero` | fat_fs_parser.py:135 | a `>Q` value is zero exactly when all 8 bytes are zero |
| `Bits.And` | fat_fs_parser.py:178-225 | bitwise `&` of two naturals, never larger than either operand |
| `Bits.Shr` | fat_fs_parser.py:194-224 | `x >> k` is the quotient of `x` by 2^k: `2^k * r <= x < 2^k * r + 2^k` |
| `Bits.AndLowMask` | fat_fs_parser.py:207 | masking with the low n bits keeps the value modulo 2^n |
| `Bits.AndMask` | fat_fs_parser.py:206 | masking with n bits from bit k keeps exactly that field in place: `((x >> k) % 2^n) << k` |
| `Bits.ExtractField` | fat_fs_parser.py:223-224 | mask-then-shift yields the field `(x >> k) % 2^n` |
| `Bits.AndSingleBit` | fat_fs_parser.py:178 | masking with a single bit yields that bit's weight if the bit is set and 0 otherwise |
| `BootSector.BootStrappingAddress` | fat_fs_parser.py:58-60 | bytes 0..2 padded with a zero byte read as a 3-byte little-endian number below 2^24, defined exactly when the buffer has 3 bytes; every failure is a `StructError` |
| `BootSector.BytesPerSector` | fat_fs_parser.py:66-68 | the little-endian word at offset 11, defined exactly when the buffer has 13 bytes; every failure is a `StructError` |
| `BootSector.SectorsPerCluster` | fat_fs_parser.py:70-72 | byte 13, and an `IndexError` on a buffer of 13 bytes or fewer |
| `BootSector.ReservedSectors` | fat_fs_parser.py:74-76 | the little-endian word at offset 14, defined exactly when the buffer has 16 bytes; every failure is a `StructError` |
| `BootSector.MaxFilesInRootDir` | fat_fs_parser.py:78-79 | the root-directory capacity is the bytes-per-sector field itself, in value and in failure |
| `BootSector.SectorsInRootDirectory` | fat_fs_parser.py:81-82 | the whole 512-byte sectors that capacity × 32 bytes fill: `r·512 ≤ cap·32 < (r+1)·512`; every failure is a `StructError` |
| `BootSector.TotalNumberSectors` | fat_fs_parser.py:84-89 | the 16-bit total at offset 19 when non-zero, else the 32-bit total at offset 32; its exact failure condition; always below 2^32; every failure is a `StructError` |
| `BootSector.SectorsPerFat` | fat_fs_parser.py:91-92 | the little-endian word at offset 22, defined exactly when the buffer has 24 bytes; every failure is a `StructError` |
| `BootSector.Fat1StartSector` | fat_fs_parser.py:94-95 | FAT1 starts at the reserved-sector count; every failure is a `StructError` |
| `BootSector.Fat2StartSector` | fat_fs_parser.py:97-98 | FAT2 starts at reserved + sectors per FAT, defined exactly when the buffer has 24 bytes; every failure is a `StructError` |
| `BootSector.RootDirStartSector` | fat_fs_parser.py:100-101 | the root directory starts at reserved + 2 × sectors per FAT (two FATs assumed); every failure is a `StructError` |
| `BootSector.DataStartSector` | fat_fs_parser.py:103-104 | the data area starts at reserved + 2 × sectors per FAT + (word at 11) / 16; every failure is a `StructError` |
| `BootSector.GeometryIsChainOfSums` | fat_fs_parser.py:94-104 | once the buffer holds sectors-per-FAT, every start sector is defined and each region starts where the previous one ends, in non-decreasing order |
| `BootSector.RootEntryCapacity` | fat_fs_parser.py:47 | the root-entry capacity at offset 17, where the boot-sector layout puts it; every failure is a `StructError` |
| `BootSector.DataStartSectorCorrected` | fat_fs_parser.py:103-104 | the data start with the capacity read from offset 17; the root directory spans the whole 512-byte sectors its entries fill; every failure is a `StructError` |
| `BootSector.RootCapacityQuirkWitness` | fat_fs_parser.py:78-82 | on a 1.44 MB floppy boot sector the code puts the data area at sector 51 (capacity 512), while offset 17 gives capacity 224 and sector 33 |
| `RootDirectory.LeadingWord` | fat_fs_parser.py:135 | the `>Q` read of a slot's first 8 bytes fails exactly on a short slice and is zero exactly when all 8 bytes are |
| `RootDirectory.Files` | fat_fs_parser.py:132-139 | fails exactly on a short tail; otherwise returns at most one entry per slot, each in use and equal to its slot, stops early only at a slot whose first 8 bytes are zero, and the entries laid end to end are the buffer's prefix |
| `RootDirectory.ListingGrows` | fat_fs_parser.py:135-136 | appending the next slot when it is in use keeps every entry in use and at its position |
| `RootDirectory.CoverGrows` | fat_fs_parser.py:136 | appending the next slot extends the covered prefix by one slot, clamped at the end of the buffer |
| `RootDirectory.EmptySlotEndsListing` | fat_fs_parser.py:137-138 | stopping at a zero slot is not the raising case and leaves slots unvisited |
| `RootDirectory.ExhaustedEndsListing` | fat_fs_parser.py:134 | a loop that ran past every slot returned one entry per slot and did not raise |
| `RootDirectory.PartialHeadIsShortTail` | fat_fs_parser.py:135 | reaching a final slot of fewer than 8 bytes after in-use slots only is exactly the raising case |
| `DirectoryEntry.AttributeMasks` | fat_fs_parser.py:176-198 | each low mask equals its value exactly when its bit is set, and the high-nibble mask shifted by 4 is `a / 16` |
| `DirectoryEntry.DecodeAttributes` | fat_fs_parser.py:176-198 | read-only, hidden, system and volume are bits 0..3; directory iff `a >> 4 == 1`, archive iff `a >> 4 == 2`, never both |
| `DirectoryEntry.EncodeAttributes` | fat_fs_parser.py:155-162 | the attribute byte of a flag set has a high nibble of at most 2 |
| `DirectoryEntry.AttributesRoundTrip` | fat_fs_parser.py:176-198 | decoding the encoding of any flag set without both directory and archive gives the flags back |
| `DirectoryEntry.AttributeByteRoundTrip` | fat_fs_parser.py:176-198 | every byte with a high nibble of 0, 1 or 2 is recovered from its decoded flags |
| `DirectoryEntry.LongFilenameFlags` | fat_fs_parser.py:200-202 | the long-filename byte 0x0F reads as read-only, hidden, system and volume, and as neither directory nor archive |
| `DirectoryEntry.RecordAttributes` | fat_fs_parser.py:176-198 | the flags of byte 11, and an `IndexError` on a record of 11 bytes or fewer |
| `DirectoryEntry.IsLongFilename` | fat_fs_parser.py:200-202 | true exactly when byte 11 is 0x0F; defined exactly when byte 11 exists, and a failure is an `IndexError` |
| `DirectoryEntry.IsDeleted` | fat_fs_parser.py:172-174 | true exactly when byte 0 is 0xE5; defined exactly when byte 0 exists, and a failure is an `IndexError` |
| `DirectoryEntry.DateMasks` | fat_fs_parser.py:205-207 | the date masks and shifts isolate `v >> 9`, bits 5..8 and bits 0..4 |
| `DirectoryEntry.DateOfWord` | fat_fs_parser.py:204-208 | year = (v >> 9) + 1980 in 1980..2107, month = bits 5..8 in 0..15, day = bits 0..4 in 0..31, and the fields re-pack to v |
| `DirectoryEntry.EncodeDate` | fat_fs_parser.py:204-207 | the packed word of an in-range date carries each field in its bits |
| `DirectoryEntry.DateRoundTrip` | fat_fs_parser.py:204-207 | every in-range date is the decoding of its packed word |
| `DirectoryEntry.DateWordRoundTrip` | fat_fs_parser.py:204-207 | every 16-bit word is the packing of its decoded date, so decoding is a bijection |
| `DirectoryEntry.DateBoundaries` | fat_fs_parser.py:205 | word 0 decodes to 1980-00-00 and 0xFE00 to year 2107 |
| `DirectoryEntry.DecodeDate` | fat_fs_parser.py:204-207 | defined exactly on a 2-byte string, whose little-endian word it decodes; every failure is a `StructError` |
| `DirectoryEntry.CreatedDate` | fat_fs_parser.py:210-212 | the date of the word at offset 16, defined exactly when the record has 18 bytes; every failure is a `StructError` |
| `DirectoryEntry.AccessDate` | fat_fs_parser.py:214-216 | the date of the word at offset 18, defined exactly when the record has 20 bytes; every failure is a `StructError` |
| `DirectoryEntry.ModifiedDate` | fat_fs_parser.py:218-220 | the date of the word at offset 24, defined exactly when the record has 26 bytes; every failure is a `StructError` |
| `DirectoryEntry.TimeMasks` | fat_fs_parser.py:223-225 | the time masks and shifts isolate bits 11..15, 5..10 and 0..4 |
| `DirectoryEntry.TimeOfWord` | fat_fs_parser.py:222-226 | hours = bits 11..15 ≤ 31, minutes = bits 5..10 ≤ 63, seconds = 2 × bits 0..4 (even, ≤ 62) with the alternative seconds + 1, and the fields re-pack to v |
| `DirectoryEntry.EncodeTime` | fat_fs_parser.py:222-225 | the packed word of an in-range time carries each field in its bits |
| `DirectoryEntry.TimeRoundTrip` | fat_fs_parser.py:222-225 | every in-range time is the decoding of its packed word |
| `DirectoryEntry.TimeWordRoundTrip` | fat_fs_parser.py:222-225 | every 16-bit word is the packing of its decoded time |
| `DirectoryEntry.DecodeTime` | fat_fs_parser.py:222-225 | defined exactly on a 2-byte string, whose little-endian word it decodes; every failure is a `StructError` |
| `DirectoryEntry.CreatedTime` | fat_fs_parser.py:228-230 | the time of the word at offset 14, defined exactly when the record has 16 bytes; every failure is a `StructError` |
| `DirectoryEntry.ModifiedTime` | fat_fs_parser.py:232-234 | the time of the word at offset 22, defined exactly when the record has 24 bytes; every failure is a `StructError` |
| `DirectoryEntry.FileSize` | fat_fs_parser.py:236-238 | the 32-bit little-endian value at offset 28, below 2^32; since `record[28:]` runs to the end, only a record of exactly 32 bytes has one |
| `DirectoryEntry.FirstCluster` | fat_fs_parser.py:240-242 | the high word at offset 20 times 65536 plus the low word at offset 26, below 2^32; an `IndexError` on a record shorter than 28 bytes |
| `ClusterChain.Link` | fat_fs_parser.py:259-263 | one read of the loop yields a 16-bit entry, below 2^16, or raises |
| `ClusterChain.LinkIsUnpack` | fat_fs_parser.py:259 | one read of the loop is `struct.unpack("<H")` of the clamped entry slice: it fails exactly when the entry lies past the table, otherwise it yields the 16-bit entry |
| `ClusterChain.ListFrom` | fat_fs_parser.py:256-264 | the loop, cut off after `fuel` trips: it raises only `StructError`; a list it returns extends the list built so far by at most `fuel` clusters, and when that list ends at the current cluster, the entry of the returned list's last cluster is 0xFFFF |
| `ClusterChain.SourceList` | fat_fs_parser.py:255-264 | `list()` allowed `fuel` trips: a list it returns begins with `start`, holds at most `fuel + 1` clusters, and its last cluster's entry is 0xFFFF; the only error it raises is `StructError` |
| `ClusterChain.LoopStep` | fat_fs_parser.py:260-263 | one trip round the loop appends the entry of the current cluster and moves to it |
| `ClusterChain.MoreFuelSameOutcome` | fat_fs_parser.py:260-263 | once the loop has returned or raised, more trips do not change its outcome |
| `ClusterChain.Follow` | fat_fs_parser.py:255-264 | a walk that succeeds extends its path to a chain without repeats; it never fails with `IndexError` |
| `ClusterChain.Walk` | fat_fs_parser.py:255-264 | a successful walk is a repeat-free chain of `start`; a start with no entry is a `StructError` |
| `ClusterChain.ClosedNeverEnds` | fat_fs_parser.py:260-263 | from inside a set of clusters whose entries stay in the set and are never 0xFFFF, the loop never stops |
| `ClusterChain.RevisitIsClosed` | fat_fs_parser.py:260-263 | when a walk's next cluster was already visited, the visited clusters form such a closed set |
| `ClusterChain.FollowFinishes` | fat_fs_parser.py:255-264 | a walk that succeeds is the loop returning the same list, after as many trips as clusters appended |
| `ClusterChain.FollowRaises` | fat_fs_parser.py:259-263 | a walk that runs off the table is the loop raising `StructError` |
| `ClusterChain.RevisitNeverEnds` | fat_fs_parser.py:260-263 | a loop whose next cluster was already visited never stops |
| `ClusterChain.FollowCycles` | fat_fs_parser.py:260-263 | a walk that detects a cycle is a loop that never stops |
| `ClusterChain.WalkOutcomes` | fat_fs_parser.py:255-264 | each outcome of the walk is matched by the loop from `start`: the same list, the same raise, or no end |
| `ClusterChain.WalkIsSourceLoop` | fat_fs_parser.py:255-264 | the walk returns a list if and only if the loop, given enough trips, returns that list |
| `ClusterChain.WalkFailsAsSourceLoop` | fat_fs_parser.py:255-264 | the walk fails with `CycleDetected` iff the loop never stops, and with `StructError` iff it raises |
| `ClusterChain.ChainIsLoopResult` | fat_fs_parser.py:255-264 | a chain read off the table, continued from any position, is what the loop returns |
| `ClusterChain.WalkReturnsExactlyTheChain` | fat_fs_parser.py:255-264 | the walk returns a list if and only if it is the cluster chain of `start`: first element `start`, each cluster's entry is the next, no 0xFFFF after the first, and the last entry is 0xFFFF |
| `ClusterChain.WalkExamples` | fat_fs_parser.py:255-264 | 5 → 6 → 0xFFFF walks to [5, 6], a self-loop at 5 is a `CycleDetected`, and a start with no entry is a `StructError` |

## Left out

- The `__str__` report and the `binascii.hexlify` halves of the returned tuples: they are presentation only.
- The rendering of dates and times as strings, including the space-padded day: only the decoded numbers are modelled.
- `oem_name` and `short_file_name`: string slicing, `strip` and concatenation with no decoding logic.
- Reading the volume image: callers supply the byte buffers, so there is no I/O.
- FAT12 12-bit packed tables, FAT32 and exFAT: the code reads only 16-bit entries.
- The number of FATs at offset 16: the code never reads it and assumes two.
- A zero or implausible bytes-per-sector field: the code divides by the constant 512, so there is no geometry failure to model.
- Directory entries shorter than 32 bytes have no single failure: each accessor fails on its own field (`IndexError` for subscripts, `StructError` for short slices), as the code does.
- Long-filename records are decoded like any other record, as the code does.
- A negative start cluster: clusters are natural numbers, as every caller's value comes from an unsigned field.
- `ClusterChain.Walk`: the original loop has no cycle guard. The walker's `CycleDetected` outcome stands for the loop never stopping, which `ClusterChain.WalkFailsAsSourceLoop` proves.

## Findings

| source | as written | input that shows it | evidently intended | confidence | as-written member | corrected member |
|---|---|---|---|---|---|---|
| fat_fs_parser.py:78-79 | the root-directory capacity is read from bytes 11..12, the bytes-per-sector field, so the root directory's size and the data start depend on the sector size | the boot sector of a 1.44 MB floppy (`BootSector.Floppy144`): 512 bytes per sector and 224 root entries give a data start of sector 51 instead of 33 | read the capacity from offset 17 (0x11), as the code's own field table at line 47 documents | high, not executed | `BootSector.RootCapacityQuirkWitness` | `BootSector.DataStartSectorCorrected` |
