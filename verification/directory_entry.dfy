/** The 32-byte directory-entry decoder (class `directory_entry`).
    The attribute byte at offset 11 is read through bit masks, dates and times
    are 16-bit packed words, the first cluster is reassembled from two
    non-adjacent 16-bit halves and the file size is a 32-bit field. The masks
    and shifts are written with Python's integer `&` and `>>` as the original
    writes them, and each contract states the arithmetic meaning of the bits. */
module DirectoryEntry {
  import opened Results
  import opened Bytes
  import opened Bits

  /** A 16-bit word as `struct.unpack("<H", ...)` returns it. */
  type Word = w: int | 0 <= w < 0x1_0000

  // ---------------------------------------------------------------------
  // Attributes (byte 11)
  // ---------------------------------------------------------------------

  /** The flags the original tests on the attribute byte. */
  datatype Attributes = Attributes(
    readOnly: bool, hidden: bool, system: bool, volume: bool,
    directory: bool, archived: bool)

  /** What each attribute mask isolates: one low bit, or the high nibble. */
  lemma AttributeMasks(a: Byte)
    ensures And(a, 0x01) == 1 <==> Bit(a, 0)
    ensures And(a, 0x02) == 2 <==> Bit(a, 1)
    ensures And(a, 0x04) == 4 <==> Bit(a, 2)
    ensures And(a, 0x08) == 8 <==> Bit(a, 3)
    ensures Shr(And(a, 0xF0), 4) == a / 16
  {
    assert Pow2(0) == 1 && Pow2(1) == 2 && Pow2(2) == 4 && Pow2(3) == 8 && Pow2(4) == 16;
    AndSingleBit(a, 0);
    AndSingleBit(a, 1);
    AndSingleBit(a, 2);
    AndSingleBit(a, 3);
    assert Mask(4, 4) == 0xF0;
    var nibble := a / 16;
    SmallMod(nibble, 16);
    ExtractField(a, 4, 4);
    assert Shr(And(a, Mask(4, 4)), 4) == nibble % 16;
  }

  /** The masks of `is_readonly` .. `is_archived`: one mask per low bit, and
      the high nibble compared with 1 (directory) or 2 (archive). Read-only,
      hidden, system and volume are exactly bits 0..3; directory and archive
      are the high-nibble values 1 and 2, so never both. */
  function DecodeAttributes(a: Byte): (f: Attributes)
    ensures f.readOnly <==> Bit(a, 0)
    ensures f.hidden <==> Bit(a, 1)
    ensures f.system <==> Bit(a, 2)
    ensures f.volume <==> Bit(a, 3)
    ensures f.directory <==> a / 16 == 1
    ensures f.archived <==> a / 16 == 2
    ensures !(f.directory && f.archived)
  {
    AttributeMasks(a);
    Attributes(
      readOnly := And(a, 0x01) == 1,
      hidden := And(a, 0x02) == 2,
      system := And(a, 0x04) == 4,
      volume := And(a, 0x08) == 8,
      directory := Shr(And(a, 0xF0), 4) == 1,
      archived := Shr(And(a, 0xF0), 4) == 2)
  }

  /** The attribute byte that carries the given flags, with a high nibble of
      1 for a directory, 2 for an archive and 0 otherwise. */
  function EncodeAttributes(f: Attributes): (a: Byte)
    requires !(f.directory && f.archived)
    ensures a / 16 <= 2
  {
    (if f.readOnly then 1 else 0) + (if f.hidden then 2 else 0)
    + (if f.system then 4 else 0) + (if f.volume then 8 else 0)
    + (if f.directory then 16 else if f.archived then 32 else 0)
  }

  /** Four flag bits and a high part packed into one number are read back
      by the quotients and remainders the bit tests use. */
  lemma PackedFlags(b0: nat, b1: nat, b2: nat, b3: nat, h: nat)
    requires b0 <= 1 && b1 <= 1 && b2 <= 1 && b3 <= 1
    ensures var a := b0 + 2 * b1 + 4 * b2 + 8 * b3 + 16 * h;
            && a % 2 == b0 && (a / 2) % 2 == b1 && (a / 4) % 2 == b2
            && (a / 8) % 2 == b3 && a / 16 == h
  {
    var a := b0 + 2 * b1 + 4 * b2 + 8 * b3 + 16 * h;
    DivModUnique(a, 2, b1 + 2 * b2 + 4 * b3 + 8 * h, b0);
    DivModUnique(a / 2, 2, b2 + 2 * b3 + 4 * h, b1);
    DivModUnique(a, 4, b2 + 2 * b3 + 4 * h, b0 + 2 * b1);
    DivModUnique(a / 4, 2, b3 + 2 * h, b2);
    DivModUnique(a, 8, b3 + 2 * h, b0 + 2 * b1 + 4 * b2);
    DivModUnique(a / 8, 2, h, b3);
    DivModUnique(a, 16, h, b0 + 2 * b1 + 4 * b2 + 8 * b3);
  }

  /** Encoding known flags and decoding them gives the same flags back. */
  lemma AttributesRoundTrip(f: Attributes)
    requires !(f.directory && f.archived)
    ensures DecodeAttributes(EncodeAttributes(f)) == f
  {
    var a := EncodeAttributes(f);
    var b0, b1, b2, b3 := if f.readOnly then 1 else 0, if f.hidden then 1 else 0,
                          if f.system then 1 else 0, if f.volume then 1 else 0;
    var h := if f.directory then 1 else if f.archived then 2 else 0;
    assert a == b0 + 2 * b1 + 4 * b2 + 8 * b3 + 16 * h;
    PackedFlags(b0, b1, b2, b3, h);
    assert Pow2(0) == 1 && Pow2(1) == 2 && Pow2(2) == 4 && Pow2(3) == 8;
  }

  /** A byte whose high nibble is 0, 1 or 2 is recovered from its flags. */
  lemma AttributeByteRoundTrip(a: Byte)
    requires a / 16 <= 2
    ensures EncodeAttributes(DecodeAttributes(a)) == a
  {
    var f := DecodeAttributes(a);
    assert Pow2(0) == 1 && Pow2(1) == 2 && Pow2(2) == 4 && Pow2(3) == 8;
    LowBits(a);
    assert (if f.readOnly then 1 else 0) == a % 2;
    assert (if f.hidden then 2 else 0) == 2 * ((a / 2) % 2);
    assert (if f.system then 4 else 0) == 4 * ((a / 4) % 2);
    assert (if f.volume then 8 else 0) == 8 * ((a / 8) % 2);
  }

  /** A byte is its four low bits and its high nibble put back in place. */
  lemma LowBits(a: Byte)
    ensures a == a % 2 + 2 * ((a / 2) % 2) + 4 * ((a / 4) % 2) + 8 * ((a / 8) % 2) + 16 * (a / 16)
  {
    var a1, a2, a3 := a / 2, a / 4, a / 8;
    assert a == a % 2 + 2 * a1;
    assert a2 == a1 / 2 && a1 == a1 % 2 + 2 * a2;
    assert a3 == a2 / 2 && a2 == a2 % 2 + 2 * a3;
    assert a / 16 == a3 / 2 && a3 == a3 % 2 + 2 * (a / 16);
  }

  /** `is_long_filename`: the attribute byte is exactly 0x0F. */
  predicate IsLongFilenameByte(a: Byte) {
    a == 0x0F
  }

  /** A long-filename marker reads as read-only, hidden, system and volume,
      and as neither directory nor archive. */
  lemma LongFilenameFlags(a: Byte)
    requires IsLongFilenameByte(a)
    ensures DecodeAttributes(a) == Attributes(true, true, true, true, false, false)
  {
    assert Pow2(1) == 2 && Pow2(2) == 4 && Pow2(3) == 8;
  }

  /** The attribute flags of a record; byte 11 is read by subscript. */
  function RecordAttributes(record: seq<Byte>): (r: Result<Attributes>)
    ensures r.Ok? <==> |record| >= 12
    ensures r.Ok? ==> r.value == DecodeAttributes(record[11])
    ensures r.Err? ==> r.error == IndexError
  {
    var a :- ByteAt(record, 11);
    Ok(DecodeAttributes(a))
  }

  /** `is_long_filename` on a record. */
  function IsLongFilename(record: seq<Byte>): (r: Result<bool>)
    ensures r.Ok? <==> |record| >= 12
    ensures r.Ok? ==> (r.value <==> record[11] == 0x0F)
    ensures r.Err? ==> r.error == IndexError
  {
    var a :- ByteAt(record, 11);
    Ok(IsLongFilenameByte(a))
  }

  /** `is_deleted`: the first name byte is 0xE5. */
  function IsDeleted(record: seq<Byte>): (r: Result<bool>)
    ensures r.Ok? <==> |record| >= 1
    ensures r.Ok? ==> (r.value <==> record[0] == 0xE5)
    ensures r.Err? ==> r.error == IndexError
  {
    var first :- ByteAt(record, 0);
    Ok(first == 229)
  }

  // ---------------------------------------------------------------------
  // Dates (bytes 16..17, 18..19, 24..25)
  // ---------------------------------------------------------------------

  /** A decoded FAT date; nothing checks it is a calendar date (0 decodes to
      year 1980, month 0, day 0). */
  datatype Date = Date(year: nat, month: nat, day: nat)

  predicate ValidDateFields(d: Date) {
    1980 <= d.year <= 2107 && d.month <= 15 && d.day <= 31
  }

  /** A word is its bits 9..15, 5..8 and 0..4 put back in place. */
  lemma DateSplit(v: Word)
    ensures v == (v / 512) * 512 + ((v / 32) % 16) * 32 + v % 32
    ensures v / 512 < 128
  {
    assert v / 32 == (v / 512) * 16 + (v / 32) % 16;
    assert v == (v / 32) * 32 + v % 32;
  }

  /** Fields in range packed at bits 9, 5 and 0 are read back by the
      matching quotients and remainders. */
  lemma DatePack(y: nat, m: nat, d: nat)
    requires m < 16 && d < 32
    ensures var v := y * 512 + m * 32 + d;
            v / 512 == y && (v / 32) % 16 == m && v % 32 == d
  {
    var v := y * 512 + m * 32 + d;
    DivModUnique(v, 32, y * 16 + m, d);
    DivModUnique(v / 32, 16, y, m);
    DivModUnique(v, 512, y, m * 32 + d);
  }

  /** What the date masks and shifts isolate. */
  lemma DateMasks(v: Word)
    ensures Shr(And(Shr(v, 8), 0xFE), 1) == v / 512
    ensures Shr(And(v, 0x01E0), 5) == (v / 32) % 16
    ensures And(v, 0x001F) == v % 32
  {
    assert Pow2(1) == 2 && Pow2(5) == 32 && Pow2(7) == 128 && Pow2(8) == 256;
    var high := Shr(v, 8);
    assert high == v / 256;
    assert high / 2 == v / 512 < 128 by {
      DivModUnique(v, 512, high / 2, 256 * (high % 2) + v % 256);
    }
    var year := high / 2;
    SmallMod(year, 128);
    assert Mask(1, 7) == 0xFE;
    ExtractField(high, 1, 7);
    assert Shr(And(high, Mask(1, 7)), 1) == year % 128;
    assert Mask(5, 4) == 0x01E0;
    ExtractField(v, 5, 4);
    assert Shr(And(v, Mask(5, 4)), 5) == (v / 32) % 16;
    AndLowMask(v, 5);
  }

  /** The masks and shifts of `_decode_date`: year from bits 9..15 plus
      1980, month from bits 5..8, day from bits 0..4. The three fields are in
      range and re-pack to the word, so decoding is injective. Quirk, not
      modelled: the original renders the day with space padding (`{0:2d}`)
      where month and year are zero-padded; only the numbers are modelled. */
  function DateOfWord(v: Word): (d: Date)
    ensures d.year == v / 512 + 1980 && d.month == (v / 32) % 16 && d.day == v % 32
    ensures ValidDateFields(d)
    ensures v == (d.year - 1980) * 512 + d.month * 32 + d.day
  {
    DateMasks(v);
    DateSplit(v);
    Date(
      year := Shr(And(Shr(v, 8), 0xFE), 1) + 1980,
      month := Shr(And(v, 0x01E0), 5),
      day := And(v, 0x001F))
  }

  /** The packed word of a date whose fields are in range; each field is
      read back from its bits. */
  function EncodeDate(d: Date): (v: Word)
    requires ValidDateFields(d)
    ensures v / 512 == d.year - 1980 && (v / 32) % 16 == d.month && v % 32 == d.day
  {
    DatePack(d.year - 1980, d.month, d.day);
    (d.year - 1980) * 512 + d.month * 32 + d.day
  }

  /** Every in-range date is the decoding of its packed word, so decoding is
      a bijection between 16-bit words and in-range dates. */
  lemma DateRoundTrip(d: Date)
    requires ValidDateFields(d)
    ensures DateOfWord(EncodeDate(d)) == d
  {
  }

  /** Every word is the encoding of its decoded date. */
  lemma DateWordRoundTrip(v: Word)
    ensures EncodeDate(DateOfWord(v)) == v
  {
  }

  /** The word-level extremes: 0 is 1980-00-00 and year bits all ones is 2107. */
  lemma DateBoundaries()
    ensures DateOfWord(0) == Date(1980, 0, 0)
    ensures DateOfWord(0xFE00).year == 2107
  {
  }

  /** `_decode_date` on a 2-byte slice: the slice must be exactly two bytes. */
  function DecodeDate(raw: seq<Byte>): (r: Result<Date>)
    ensures r.Ok? <==> |raw| == 2
    ensures r.Ok? ==> r.value == DateOfWord(raw[0] as nat + 256 * raw[1] as nat)
    ensures r.Err? ==> r.error == StructError
  {
    var v :- Unpack(U16LE, raw);
    assert raw[0..2] == raw && Read(raw, 0, U16LE) == Unpack(U16LE, raw);
    Ok(DateOfWord(v))
  }

  function CreatedDate(record: seq<Byte>): (r: Result<Date>)
    ensures r.Ok? <==> |record| >= 18
    ensures r.Ok? ==> r.value == DateOfWord(U16At(record, 16))
    ensures r.Err? ==> r.error == StructError
  {
    DecodeDate(Slice(record, 16, 18))
  }

  function AccessDate(record: seq<Byte>): (r: Result<Date>)
    ensures r.Ok? <==> |record| >= 20
    ensures r.Ok? ==> r.value == DateOfWord(U16At(record, 18))
    ensures r.Err? ==> r.error == StructError
  {
    DecodeDate(Slice(record, 18, 20))
  }

  function ModifiedDate(record: seq<Byte>): (r: Result<Date>)
    ensures r.Ok? <==> |record| >= 26
    ensures r.Ok? ==> r.value == DateOfWord(U16At(record, 24))
    ensures r.Err? ==> r.error == StructError
  {
    DecodeDate(Slice(record, 24, 26))
  }

  // ---------------------------------------------------------------------
  // Times (bytes 14..15, 22..23)
  // ---------------------------------------------------------------------

  /** A decoded FAT time. Only even seconds are stored, so the original
      reports both `seconds` and `laterSeconds` as the possible actual value. */
  datatype Time = Time(hours: nat, minutes: nat, seconds: nat, laterSeconds: nat)

  predicate ValidTimeFields(t: Time) {
    && t.hours <= 31 && t.minutes <= 63
    && t.seconds <= 62 && t.seconds % 2 == 0
    && t.laterSeconds == t.seconds + 1
  }

  /** A word is its bits 11..15, 5..10 and 0..4 put back in place. */
  lemma TimeSplit(v: Word)
    ensures v == (v / 2048) * 2048 + ((v / 32) % 64) * 32 + v % 32
    ensures v / 2048 < 32
  {
    assert v / 32 == (v / 2048) * 64 + (v / 32) % 64;
    assert v == (v / 32) * 32 + v % 32;
  }

  /** Fields in range packed at bits 11, 5 and 0 are read back by the
      matching quotients and remainders. */
  lemma TimePack(h: nat, m: nat, s: nat)
    requires m < 64 && s < 32
    ensures var v := h * 2048 + m * 32 + s;
            v / 2048 == h && (v / 32) % 64 == m && v % 32 == s
  {
    var v := h * 2048 + m * 32 + s;
    DivModUnique(v, 32, h * 64 + m, s);
    DivModUnique(v / 32, 64, h, m);
    DivModUnique(v, 2048, h, m * 32 + s);
  }

  /** What the time masks and shifts isolate. */
  lemma TimeMasks(v: Word)
    ensures Shr(And(v, 0xF800), 11) == v / 2048
    ensures Shr(And(v, 0x07E0), 5) == (v / 32) % 64
    ensures And(v, 0x001F) == v % 32
  {
    assert Pow2(5) == 32 && Pow2(6) == 64 && Pow2(11) == 2048;
    var hours := v / 2048;
    SmallMod(hours, 32);
    assert Mask(11, 5) == 0xF800;
    ExtractField(v, 11, 5);
    assert Shr(And(v, Mask(11, 5)), 11) == hours % 32;
    assert Mask(5, 6) == 0x07E0;
    ExtractField(v, 5, 6);
    assert Shr(And(v, Mask(5, 6)), 5) == (v / 32) % 64;
    AndLowMask(v, 5);
  }

  /** The masks and shifts of `_decode_time`: hours from bits 11..15, minutes
      from bits 5..10, seconds twice bits 0..4. The fields are in range and
      re-pack to the word. */
  function TimeOfWord(v: Word): (t: Time)
    ensures t.hours == v / 2048 && t.minutes == (v / 32) % 64 && t.seconds == 2 * (v % 32)
    ensures ValidTimeFields(t)
    ensures v == t.hours * 2048 + t.minutes * 32 + t.seconds / 2
  {
    TimeMasks(v);
    TimeSplit(v);
    var seconds := And(v, 0x001F) * 2;
    Time(
      hours := Shr(And(v, 0xF800), 11),
      minutes := Shr(And(v, 0x07E0), 5),
      seconds := seconds,
      laterSeconds := seconds + 1)
  }

  /** The packed word of a time whose fields are in range; each field is
      read back from its bits. */
  function EncodeTime(t: Time): (v: Word)
    requires ValidTimeFields(t)
    ensures v / 2048 == t.hours && (v / 32) % 64 == t.minutes && 2 * (v % 32) == t.seconds
  {
    TimePack(t.hours, t.minutes, t.seconds / 2);
    t.hours * 2048 + t.minutes * 32 + t.seconds / 2
  }

  /** Every in-range time is the decoding of its packed word. */
  lemma TimeRoundTrip(t: Time)
    requires ValidTimeFields(t)
    ensures TimeOfWord(EncodeTime(t)) == t
  {
  }

  /** Every word is the encoding of its decoded time. */
  lemma TimeWordRoundTrip(v: Word)
    ensures EncodeTime(TimeOfWord(v)) == v
  {
  }

  /** `_decode_time` on a 2-byte slice: the slice must be exactly two bytes. */
  function DecodeTime(raw: seq<Byte>): (r: Result<Time>)
    ensures r.Ok? <==> |raw| == 2
    ensures r.Ok? ==> r.value == TimeOfWord(raw[0] as nat + 256 * raw[1] as nat)
    ensures r.Err? ==> r.error == StructError
  {
    var v :- Unpack(U16LE, raw);
    assert raw[0..2] == raw && Read(raw, 0, U16LE) == Unpack(U16LE, raw);
    Ok(TimeOfWord(v))
  }

  function CreatedTime(record: seq<Byte>): (r: Result<Time>)
    ensures r.Ok? <==> |record| >= 16
    ensures r.Ok? ==> r.value == TimeOfWord(U16At(record, 14))
    ensures r.Err? ==> r.error == StructError
  {
    DecodeTime(Slice(record, 14, 16))
  }

  function ModifiedTime(record: seq<Byte>): (r: Result<Time>)
    ensures r.Ok? <==> |record| >= 24
    ensures r.Ok? ==> r.value == TimeOfWord(U16At(record, 22))
    ensures r.Err? ==> r.error == StructError
  {
    DecodeTime(Slice(record, 22, 24))
  }

  // ---------------------------------------------------------------------
  // Size and first cluster
  // ---------------------------------------------------------------------

  /** `struct.unpack("<L", record[28:])`: the slice runs to the end of the
      record, so only a record of exactly 32 bytes has a size. */
  function FileSize(record: seq<Byte>): (r: Result<nat>)
    ensures r.Ok? <==> |record| == 32
    ensures r.Ok? ==> r.value == U32At(record, 28) < 0x1_0000_0000
    ensures r.Err? ==> r.error == StructError
  {
    var tail := Slice(record, 28, |record|);
    if |tail| == 4 then
      assert Read(record, 28, U32LE) == Unpack(U32LE, tail);
      Unpack(U32LE, tail)
    else
      Unpack(U32LE, tail)
  }

  /** Bytes 21, 20, 27, 26 unpacked big-endian: the high half at offset 20
      and the low half at offset 26, each stored little-endian. Subscripting
      any of the four past the end raises an IndexError. */
  function FirstCluster(record: seq<Byte>): (r: Result<nat>)
    ensures r.Ok? <==> |record| >= 28
    ensures r.Ok? ==> r.value == U16At(record, 20) * 0x1_0000 + U16At(record, 26)
    ensures r.Ok? ==> r.value < 0x1_0000_0000
    ensures r.Err? ==> r.error == IndexError
  {
    if |record| < 28 then Err(IndexError)
    else
      var bs := [record[21], record[20], record[27], record[26]];
      BigEndianOfFour(bs);
      Unpack(U32BE, bs)
  }
}
