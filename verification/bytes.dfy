/** Byte buffers and the fixed-width integer reads every decoder is built on.
    The original works on Python 2 `str` buffers: slicing clamps its bounds to
    the buffer, and `struct.unpack` insists on a slice of exactly the format's
    width. Both behaviours are modelled here, so that a field lying past the
    end of a short buffer becomes an error exactly where the original raises. */
module Bytes {
  import opened Results

  type Byte = b: int | 0 <= b < 256

  function Pow256(n: nat): (r: nat)
    ensures r >= 1
  {
    if n == 0 then 1 else 256 * Pow256(n - 1)
  }

  function Min(a: nat, b: nat): nat {
    if a <= b then a else b
  }

  /** Python's `s[lo:hi]` for non-negative bounds: both bounds are clamped to
      the buffer and an empty slice results when they cross. */
  function Slice(s: seq<Byte>, lo: nat, hi: nat): (r: seq<Byte>)
    ensures hi <= |s| && lo <= hi ==> r == s[lo..hi]
    ensures |s| < hi && lo <= |s| ==> r == s[lo..]
    ensures |r| == if Min(hi, |s|) <= lo then 0 else Min(hi, |s|) - lo
  {
    var a := Min(lo, |s|);
    var b := Min(hi, |s|);
    if b <= a then [] else s[a..b]
  }

  /** Unsigned value of a byte string read least significant byte first. */
  function LittleEndian(bs: seq<Byte>): (v: nat)
    ensures v < Pow256(|bs|)
  {
    if |bs| == 0 then 0
    else
      var rest := LittleEndian(bs[1..]);
      assert bs[0] + 256 * rest <= 255 + 256 * (Pow256(|bs| - 1) - 1);
      bs[0] + 256 * rest
  }

  /** Unsigned value of a byte string read most significant byte first. */
  function BigEndian(bs: seq<Byte>): (v: nat)
    ensures v < Pow256(|bs|)
  {
    if |bs| == 0 then 0
    else
      var front := BigEndian(bs[..|bs| - 1]);
      assert front * 256 + bs[|bs| - 1] <= (Pow256(|bs| - 1) - 1) * 256 + 255;
      front * 256 + bs[|bs| - 1]
  }

  function Reverse(bs: seq<Byte>): (r: seq<Byte>)
    ensures |r| == |bs|
    ensures forall i :: 0 <= i < |bs| ==> r[i] == bs[|bs| - 1 - i]
  {
    if |bs| == 0 then [] else [bs[|bs| - 1]] + Reverse(bs[..|bs| - 1])
  }

  /** The `n`-byte little-endian encoding of `v`: the inverse of `LittleEndian`. */
  function ToLittleEndian(v: nat, n: nat): (bs: seq<Byte>)
    requires v < Pow256(n)
    ensures |bs| == n
  {
    if n == 0 then [] else [v % 256] + ToLittleEndian(v / 256, n - 1)
  }

  /** Reading most significant byte first is reading the reversed string
      least significant byte first. */
  lemma {:induction false} BigEndianIsReversedLittleEndian(bs: seq<Byte>)
    ensures BigEndian(bs) == LittleEndian(Reverse(bs))
  {
    if |bs| > 0 {
      var init := bs[..|bs| - 1];
      BigEndianIsReversedLittleEndian(init);
      assert Reverse(bs)[1..] == Reverse(init);
    }
  }

  lemma {:induction false} LittleEndianRoundTrip(v: nat, n: nat)
    requires v < Pow256(n)
    ensures LittleEndian(ToLittleEndian(v, n)) == v
  {
    if n > 0 {
      LittleEndianRoundTrip(v / 256, n - 1);
      assert ToLittleEndian(v, n)[1..] == ToLittleEndian(v / 256, n - 1);
    }
  }

  lemma {:induction false} ToLittleEndianRoundTrip(bs: seq<Byte>)
    ensures ToLittleEndian(LittleEndian(bs), |bs|) == bs
  {
    if |bs| > 0 {
      ToLittleEndianRoundTrip(bs[1..]);
      var v := LittleEndian(bs);
      assert v % 256 == bs[0] && v / 256 == LittleEndian(bs[1..]);
    }
  }

  lemma BigEndianOfFour(bs: seq<Byte>)
    requires |bs| == 4
    ensures BigEndian(bs) == bs[0] as nat * 0x100_0000 + bs[1] as nat * 0x1_0000 + bs[2] as nat * 0x100 + bs[3] as nat
  {
    assert bs[..3][..2][..1][..0] == [];
    var b0, b1, b2: nat := bs[0], bs[1], bs[2];
    assert BigEndian(bs[..1]) == b0;
    assert bs[..2][..1] == bs[..1];
    assert BigEndian(bs[..2]) == b0 * 256 + b1;
    assert bs[..3][..2] == bs[..2];
    assert BigEndian(bs[..3]) == (b0 * 256 + b1) * 256 + b2;
    assert bs[..4][..3] == bs[..3];
  }

  predicate AllZero(bs: seq<Byte>) {
    forall i :: 0 <= i < |bs| ==> bs[i] == 0
  }

  /** A big-endian value is zero exactly when every byte is zero. */
  lemma {:induction false} BigEndianZero(bs: seq<Byte>)
    ensures BigEndian(bs) == 0 <==> AllZero(bs)
  {
    if |bs| > 0 {
      BigEndianZero(bs[..|bs| - 1]);
    }
  }

  /** The `struct.unpack` formats the decoder uses: `<B`, `<H`, `<I`/`<L`,
      `>L` and `>Q`. */
  datatype Format = U8 | U16LE | U32LE | U32BE | U64BE

  function Width(f: Format): nat {
    match f
    case U8 => 1
    case U16LE => 2
    case U32LE => 4
    case U32BE => 4
    case U64BE => 8
  }

  /** `struct.unpack(f, bs)[0]`: fails unless the string has exactly the
      format's width, and otherwise reads the bytes least significant first
      for the `<` formats and most significant first for the `>` ones. */
  function Unpack(f: Format, bs: seq<Byte>): (r: Result<nat>)
    ensures r.Ok? <==> |bs| == Width(f)
    ensures r.Ok? ==> r.value < Pow256(Width(f))
    ensures r.Err? ==> r.error == StructError
    ensures r.Ok? && !(f.U32BE? || f.U64BE?) ==> r.value == LittleEndian(bs)
    ensures r.Ok? && (f.U32BE? || f.U64BE?) ==> r.value == LittleEndian(Reverse(bs))
  {
    BigEndianIsReversedLittleEndian(bs);
    if |bs| != Width(f) then Err(StructError)
    else if f.U32BE? || f.U64BE? then Ok(BigEndian(bs))
    else Ok(LittleEndian(bs))
  }

  /** The 16-bit little-endian field at `off`, by its byte definition. */
  function U16At(s: seq<Byte>, off: nat): nat
    requires off + 2 <= |s|
  {
    s[off] as nat + 256 * s[off + 1] as nat
  }

  /** The 32-bit little-endian field at `off`, by its byte definition. */
  function U32At(s: seq<Byte>, off: nat): nat
    requires off + 4 <= |s|
  {
    U16At(s, off) + 65536 * U16At(s, off + 2)
  }

  /** `struct.unpack(f, s[off:off + width])[0]`: the field of format `f` at
      `off`. It is present exactly when it lies wholly inside the buffer, and
      its value is the field's byte definition. */
  function Read(s: seq<Byte>, off: nat, f: Format): (r: Result<nat>)
    ensures r.Ok? <==> off + Width(f) <= |s|
    ensures r.Err? ==> r.error == StructError
    ensures r.Ok? && f == U8 ==> r.value == s[off]
    ensures r.Ok? && f == U16LE ==> r.value == U16At(s, off) < 0x1_0000
    ensures r.Ok? && f == U32LE ==> r.value == U32At(s, off) < 0x1_0000_0000
  {
    var bs := Slice(s, off, off + Width(f));
    if f == U16LE && |bs| == 2 then
      assert LittleEndian(bs[1..]) == bs[1] + 256 * LittleEndian(bs[2..]);
      Unpack(f, bs)
    else if f == U32LE && |bs| == 4 then
      assert LittleEndian(bs[1..]) == bs[1] + 256 * LittleEndian(bs[2..]);
      assert LittleEndian(bs[2..]) == bs[2] + 256 * LittleEndian(bs[3..]);
      assert LittleEndian(bs[3..]) == bs[3] + 256 * LittleEndian(bs[4..]);
      Unpack(f, bs)
    else
      Unpack(f, bs)
  }

  /** `s[i]` for one byte: an IndexError past the end. */
  function ByteAt(s: seq<Byte>, i: nat): (r: Result<Byte>)
    ensures r.Ok? <==> i < |s|
    ensures r.Ok? ==> r.value == s[i]
    ensures r.Err? ==> r.error == IndexError
  {
    if i < |s| then Ok(s[i]) else Err(IndexError)
  }
}
