/** The root-directory slicer (class `root_directory`, method `files`).
    The root-directory region is cut into 32-byte slots from offset 0, and the
    listing stops at the first slot whose leading 8 bytes are all zero. */
module RootDirectory {
  import opened Results
  import opened Bytes

  const EntrySize: nat := 32

  /** Slot `i` as the original slices it: `data[32i:32i+32]`, so a slot at
      the end of a buffer whose length is not a multiple of 32 is short. */
  function Slot(data: seq<Byte>, i: nat): seq<Byte> {
    Slice(data, EntrySize * i, EntrySize * i + EntrySize)
  }

  /** The number of slots the original's `range(0, len(data), 32)` visits. */
  function SlotCount(data: seq<Byte>): nat {
    (|data| + EntrySize - 1) / EntrySize
  }

  /** Slot `i` holds an entry: its first 8 bytes are present and not all zero. */
  predicate InUse(data: seq<Byte>, i: nat) {
    EntrySize * i + 8 <= |data| && !AllZero(data[EntrySize * i..EntrySize * i + 8])
  }

  /** The case in which the original raises: every whole slot is in use and
      the buffer ends with a partial slot of fewer than 8 bytes, whose
      leading 8-byte unpack gets a short string. */
  predicate ShortTail(data: seq<Byte>) {
    && 0 < |data| % EntrySize < 8
    && forall i: nat :: i < |data| / EntrySize ==> InUse(data, i)
  }

  /** The slots laid end to end. */
  function Flatten(slots: seq<seq<Byte>>): seq<Byte> {
    if |slots| == 0 then [] else Flatten(slots[..|slots| - 1]) + slots[|slots| - 1]
  }

  lemma FlattenAppend(slots: seq<seq<Byte>>, slot: seq<Byte>)
    ensures Flatten(slots + [slot]) == Flatten(slots) + slot
  {
    assert (slots + [slot])[..|slots|] == slots;
  }

  /** Appending slot `k` extends the covered prefix by that slot. */
  lemma PrefixGrows(data: seq<Byte>, k: nat)
    requires EntrySize * k < |data|
    ensures data[..EntrySize * k] + Slot(data, k) == data[..Min(EntrySize * k + EntrySize, |data|)]
  {
  }

  /** `struct.unpack(">Q", data[p:p+8])`: the leading 8 bytes of a slot read
      as one number. It fails when the clamped slice is short, and it is zero
      exactly when all 8 bytes are. */
  function LeadingWord(data: seq<Byte>, p: nat): (r: Result<nat>)
    ensures r.Ok? <==> p + 8 <= |data|
    ensures r.Ok? ==> (r.value == 0 <==> AllZero(data[p..p + 8]))
    ensures r.Err? ==> r.error == StructError
  {
    var head := Slice(data, p, p + 8);
    BigEndianZero(head);
    Unpack(U64BE, head)
  }

  /** `entries` are slots 0.. of `data`, in order, each in use. */
  predicate Listing(data: seq<Byte>, entries: seq<seq<Byte>>) {
    forall i :: 0 <= i < |entries| ==> InUse(data, i) && entries[i] == Slot(data, i)
  }

  /** The slots cover the buffer from its start: laid end to end they are
      exactly its first `32 * |entries|` bytes, or all of it. */
  predicate Covers(data: seq<Byte>, entries: seq<seq<Byte>>) {
    Flatten(entries) == data[..Min(EntrySize * |entries|, |data|)]
  }

  /** A listing that ends before the last slot ends at a slot whose leading
      8 bytes are present and all zero. */
  predicate StopsAtEmptySlot(data: seq<Byte>, entries: seq<seq<Byte>>) {
    |entries| < SlotCount(data) ==>
      var stop := EntrySize * |entries|;
      stop + 8 <= |data| && AllZero(data[stop..stop + 8])
  }

  /** Appending the next slot, when it is in use, extends a listing. */
  lemma ListingGrows(data: seq<Byte>, entries: seq<seq<Byte>>)
    requires Listing(data, entries)
    requires InUse(data, |entries|)
    ensures Listing(data, entries + [Slot(data, |entries|)])
  {
    var longer := entries + [Slot(data, |entries|)];
    forall i | 0 <= i < |longer|
      ensures InUse(data, i) && longer[i] == Slot(data, i)
    {
      if i < |entries| {
        assert longer[i] == entries[i];
      }
    }
  }

  /** Appending the next slot extends the prefix the slots cover. */
  lemma CoverGrows(data: seq<Byte>, entries: seq<seq<Byte>>)
    requires EntrySize * |entries| < |data|
    requires Covers(data, entries)
    ensures Covers(data, entries + [Slot(data, |entries|)])
  {
    var k := |entries|;
    assert Min(EntrySize * k, |data|) == EntrySize * k;
    FlattenAppend(entries, Slot(data, k));
    PrefixGrows(data, k);
  }

  /** A listing stopped by a slot whose leading 8 bytes are zero: no short
      tail, and it ends before the last slot exactly at that slot. */
  lemma EmptySlotEndsListing(data: seq<Byte>, entries: seq<seq<Byte>>)
    requires EntrySize * |entries| + 8 <= |data|
    requires AllZero(data[EntrySize * |entries|..EntrySize * |entries| + 8])
    ensures !ShortTail(data)
    ensures |entries| < SlotCount(data)
    ensures StopsAtEmptySlot(data, entries)
  {
    var k := |entries|;
    assert !InUse(data, k);
    if k >= |data| / EntrySize {
      assert |data| / EntrySize == k;
    }
  }

  /** A listing that consumed every slot: no short tail, and it holds one
      entry per slot. */
  lemma ExhaustedEndsListing(data: seq<Byte>, entries: seq<seq<Byte>>)
    requires Listing(data, entries)
    requires EntrySize * |entries| >= |data|
    requires |entries| == 0 || EntrySize * (|entries| - 1) < |data|
    ensures !ShortTail(data)
    ensures |entries| == SlotCount(data)
    ensures StopsAtEmptySlot(data, entries)
  {
    var k := |entries|;
    if 0 < k {
      assert InUse(data, k - 1);
    }
  }

  /** Reaching a partial slot of fewer than 8 bytes, after in-use slots
      only, is the short tail. */
  lemma PartialHeadIsShortTail(data: seq<Byte>, entries: seq<seq<Byte>>)
    requires Listing(data, entries)
    requires EntrySize * |entries| < |data| < EntrySize * |entries| + 8
    ensures ShortTail(data)
  {
    var k := |entries|;
    assert |data| / EntrySize == k;
    forall i: nat | i < |data| / EntrySize
      ensures InUse(data, i)
    {
    }
  }

  /** The entries of the root directory: the longest run of in-use slots from
      offset 0. Every returned slot is in use and is the slot at its position,
      the slots together are exactly the bytes they cover from the start of the
      buffer, and a listing that ends before the last slot ends at a slot
      whose first 8 bytes are zero. It fails exactly in the short-tail case. */
  method Files(data: seq<Byte>) returns (r: Result<seq<seq<Byte>>>)
    ensures r.Err? <==> ShortTail(data)
    ensures r.Err? ==> r.error == StructError
    ensures r.Ok? ==> |r.value| <= SlotCount(data)
    ensures r.Ok? ==> Listing(data, r.value)
    ensures r.Ok? ==> StopsAtEmptySlot(data, r.value)
    ensures r.Ok? ==> Covers(data, r.value)
  {
    var entries: seq<seq<Byte>> := [];
    var pointer: nat := 0;
    while pointer < |data|
      invariant pointer == EntrySize * |entries|
      invariant |entries| == 0 || EntrySize * (|entries| - 1) < |data|
      invariant Listing(data, entries)
      invariant Covers(data, entries)
      decreases |data| - pointer
    {
      var word := LeadingWord(data, pointer);
      if word.Err? {
        PartialHeadIsShortTail(data, entries);
        return Err(StructError);
      }
      if word.value == 0 {
        EmptySlotEndsListing(data, entries);
        return Ok(entries);
      }
      ListingGrows(data, entries);
      CoverGrows(data, entries);
      entries := entries + [Slot(data, |entries|)];
      pointer := pointer + EntrySize;
    }
    ExhaustedEndsListing(data, entries);
    return Ok(entries);
  }
}
