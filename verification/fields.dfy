/**
 * The field reader (`readVal`): one fixed-width field taken from a byte string
 * at an offset and unpacked in the file's byte order, as `struct.unpack` does.
 */
module Fields {
  import opened Bytes
  import opened Outcomes

  datatype Endian = Little | Big

  /** The signed integer formats `b`, `h`, `i`, `q`. */
  datatype Width = B | H | I | Q

  /**
   * The formats the reader asks for: `s` (a string of the requested size),
   * `numeric` (a possibly truncated double), `d` (a double) and the integers.
   */
  datatype Fmt = Str | Numeric | Dbl | Int(w: Width)

  /**
   * An unpacked field. A double is kept as its IEEE-754 bit pattern, eight
   * bytes most-significant first; its numeric interpretation is not modelled.
   */
  datatype Value = IntVal(i: int) | Text(bytes: seq<Byte>) | Float(bits: seq<Byte>)

  function WidthBytes(w: Width): (n: nat)
    ensures 1 <= n <= 8
  {
    match w
    case B => 1
    case H => 2
    case I => 4
    case Q => 8
  }

  /** The unsigned value of a field stored in byte order `e`. */
  function Unsigned(e: Endian, raw: seq<Byte>): (u: nat)
    ensures u < Pow256(|raw|)
  {
    if e == Little then UIntLE(raw) else UIntBE(raw)
  }

  /** A field's bytes most-significant first. */
  function MsbFirst(e: Endian, raw: seq<Byte>): (r: seq<Byte>)
    ensures |r| == |raw|
  {
    if e == Little then Reverse(raw) else raw
  }

  /**
   * A numeric field narrower than eight bytes is widened by zero bytes:
   * in front of the whole buffer for little-endian files, after it for
   * big-endian ones.
   */
  function PadNumeric(e: Endian, h: seq<Byte>, size: int): (r: seq<Byte>)
    ensures size < 8 ==> |r| == |h| + 8 - size
  {
    if size >= 8 then h
    else if e == Little then Zeros(8 - size) + h
    else h + Zeros(8 - size)
  }

  /** `readVal(fmt, h, start, size)` on a file of byte order `e`. */
  function ReadVal(e: Endian, fmt: Fmt, h: seq<Byte>, start: int, size: int): (r: Result<Value>)
    ensures r.Raise? ==> r.exc == StructError
    ensures r.Ok? && fmt.Int? ==> r.value.IntVal?
    ensures r.Ok? && fmt == Str ==> r.value.Text?
    ensures r.Ok? && (fmt == Numeric || fmt == Dbl) ==> r.value.Float? && |r.value.bits| == 8
  {
    match fmt
    case Str =>
      var raw := Slice(h, start, start + size);
      if size < 0 || |raw| != size then Raise(StructError)
      else Ok(Text(Strip(raw, Nul)))
    case Numeric =>
      var padded := PadNumeric(e, h, size);
      var width := if size < 8 then 8 else size;
      var raw := Slice(padded, start, start + width);
      if |raw| != 8 then Raise(StructError) else Ok(Float(MsbFirst(e, raw)))
    case Dbl =>
      var raw := Slice(h, start, start + size);
      if |raw| != 8 then Raise(StructError) else Ok(Float(MsbFirst(e, raw)))
    case Int(w) =>
      var raw := Slice(h, start, start + size);
      if |raw| != WidthBytes(w) then Raise(StructError)
      else Ok(IntVal(Signed(Unsigned(e, raw), WidthBytes(w))))
  }

  /** The unsigned value of the `n` bytes of `h` from `i` on, stored in byte order `e`. */
  function UnsignedAt(e: Endian, h: seq<Byte>, i: nat, n: nat): (u: nat)
    requires i + n <= |h|
    ensures u < Pow256(n)
  {
    if e == Little then UIntLEAt(h, i, n) else UIntBEAt(h, i, n)
  }

  lemma UnsignedAtIsUnsigned(e: Endian, h: seq<Byte>, i: nat, n: nat)
    requires i + n <= |h|
    ensures UnsignedAt(e, h, i, n) == Unsigned(e, h[i..i + n])
  {
    if e == Little {
      UIntLEAtIsUIntLE(h, i, n);
    } else {
      UIntBEAtIsUIntBE(h, i, n);
    }
  }

  /**
   * An integer field; the format alone fixes how many bytes it needs. The
   * bytes of `h[start:start + size]` are decoded where they lie in `h`.
   */
  function ReadInt(e: Endian, w: Width, h: seq<Byte>, start: int, size: int): (r: Result<int>)
    ensures r.Ok? ==> -SignBound(WidthBytes(w)) <= r.value < SignBound(WidthBytes(w))
    ensures r.Ok? <==> SliceLen(|h|, start, start + size) == WidthBytes(w)
    ensures r.Raise? ==> r.exc == StructError
  {
    var n := WidthBytes(w);
    if SliceLen(|h|, start, start + size) != n then Raise(StructError)
    else Ok(Signed(UnsignedAt(e, h, SliceBound(start, |h|), n), n))
  }

  /** A string field with its NUL padding stripped. */
  function ReadStr(e: Endian, h: seq<Byte>, start: int, size: int): (r: Result<seq<Byte>>)
    ensures r.Ok? <==> size >= 0 && |Slice(h, start, start + size)| == size
    ensures r.Raise? ==> r.exc == StructError
  {
    var raw := Slice(h, start, start + size);
    if size < 0 || |raw| != size then Raise(StructError)
    else Ok(Strip(raw, Nul))
  }

  /** The integer reader is `readVal` with an integer format. */
  lemma ReadIntIsReadVal(e: Endian, w: Width, h: seq<Byte>, start: int, size: int)
    ensures ReadInt(e, w, h, start, size).Ok? == ReadVal(e, Int(w), h, start, size).Ok?
    ensures ReadInt(e, w, h, start, size).Ok? ==>
      ReadVal(e, Int(w), h, start, size).value == IntVal(ReadInt(e, w, h, start, size).value)
  {
    var lo := SliceBound(start, |h|);
    var n := SliceLen(|h|, start, start + size);
    assert Slice(h, start, start + size) == h[lo..lo + n];
    UnsignedAtIsUnsigned(e, h, lo, n);
  }

  /** The string reader is `readVal` with an `s` format. */
  lemma ReadStrIsReadVal(e: Endian, h: seq<Byte>, start: int, size: int)
    ensures ReadStr(e, h, start, size).Ok? == ReadVal(e, Str, h, start, size).Ok?
    ensures ReadStr(e, h, start, size).Ok? ==>
      ReadVal(e, Str, h, start, size).value == Text(ReadStr(e, h, start, size).value)
  {
  }

  // ---------------------------------------------------------------------
  // Properties

  /** A field wholly inside the buffer reads as the same field cut out on its own. */
  lemma ReadIntWithin(e: Endian, w: Width, h: seq<Byte>, start: nat, size: nat)
    requires start + size <= |h|
    ensures ReadInt(e, w, h, start, size) == ReadInt(e, w, h[start..start + size], 0, size)
  {
    var n := WidthBytes(w);
    if size == n {
      UnsignedAtIsUnsigned(e, h, start, n);
      UnsignedAtIsUnsigned(e, h[start..start + size], 0, n);
      assert h[start..start + size][0..n] == h[start..start + n];
    }
  }

  /** A `b` field is its byte read as a signed 8-bit value. */
  lemma ReadByte(e: Endian, h: seq<Byte>, start: nat)
    requires start < |h|
    ensures var b: int := h[start];
      ReadInt(e, B, h, start, 1) == Ok(if b < 128 then b else b - 256)
  {
    assert UnsignedAt(e, h, start, 1) == h[start];
  }

  /** The bytes a field of byte order `e` holds for the signed `n`-byte value `v`. */
  function EncodeInt(e: Endian, v: int, n: nat): (raw: seq<Byte>)
    requires n >= 1 && -SignBound(n) <= v < SignBound(n)
    ensures |raw| == n
  {
    var le := LEBytes(TwosComplement(v, n), n);
    if e == Little then le else Reverse(le)
  }

  /** A field that is exactly the bytes given reads as their two's-complement value. */
  lemma ReadIntWhole(e: Endian, w: Width, raw: seq<Byte>)
    requires |raw| == WidthBytes(w)
    ensures ReadInt(e, w, raw, 0, |raw|) == Ok(Signed(Unsigned(e, raw), |raw|))
  {
    UnsignedAtIsUnsigned(e, raw, 0, |raw|);
    assert raw[0..|raw|] == raw;
  }

  /** The bytes of `EncodeInt` are, in their byte order, the two's-complement pattern. */
  lemma UnsignedOfEncodeInt(e: Endian, v: int, n: nat)
    requires n >= 1 && -SignBound(n) <= v < SignBound(n)
    ensures Unsigned(e, EncodeInt(e, v, n)) == TwosComplement(v, n)
  {
    var u := TwosComplement(v, n);
    UIntLEOfLEBytes(u, n);
    if e == Big {
      ReverseReverse(LEBytes(u, n));
      UIntBEIsReversedLE(Reverse(LEBytes(u, n)));
    }
  }

  /** Reading an integer field inverts writing it, in either byte order. */
  lemma ReadIntOfEncodeInt(e: Endian, w: Width, v: int)
    requires -SignBound(WidthBytes(w)) <= v < SignBound(WidthBytes(w))
    ensures ReadInt(e, w, EncodeInt(e, v, WidthBytes(w)), 0, WidthBytes(w)) == Ok(v)
  {
    var n := WidthBytes(w);
    ReadIntWhole(e, w, EncodeInt(e, v, n));
    UnsignedOfEncodeInt(e, v, n);
    SignedOfTwosComplement(v, n);
  }

  /** The two's-complement pattern of the value of some bytes, encoded in their byte order, is those bytes. */
  lemma EncodeIntOfUnsigned(e: Endian, raw: seq<Byte>)
    requires |raw| >= 1
    ensures EncodeInt(e, Signed(Unsigned(e, raw), |raw|), |raw|) == raw
  {
    var n := |raw|;
    var u := Unsigned(e, raw);
    TwosComplementOfSigned(u, n);
    if e == Little {
      LEBytesOfUIntLE(raw);
    } else {
      LEBytesOfUIntLE(Reverse(raw));
      ReverseReverse(raw);
      UIntBEIsReversedLE(raw);
    }
  }

  /** ... and writing back what was read gives the same bytes. */
  lemma EncodeIntOfReadInt(e: Endian, w: Width, raw: seq<Byte>)
    requires |raw| == WidthBytes(w)
    ensures ReadInt(e, w, raw, 0, |raw|).Ok?
    ensures EncodeInt(e, ReadInt(e, w, raw, 0, |raw|).value, |raw|) == raw
  {
    ReadIntWhole(e, w, raw);
    EncodeIntOfUnsigned(e, raw);
  }

  /**
   * A numeric field of fewer than eight bytes holds the most significant bytes
   * of a double: whichever side the padding goes on, the decoded bit pattern is
   * the field's bytes followed by zero low-order bytes.
   */
  lemma NumericPadding(e: Endian, raw: seq<Byte>)
    requires |raw| <= 8
    ensures ReadVal(e, Numeric, raw, 0, |raw|) == Ok(Float(MsbFirst(e, raw) + Zeros(8 - |raw|)))
  {
    NumericPadded(e, raw);
    MsbFirstPadded(e, raw);
  }

  /** A numeric field of at most eight bytes reads as its padded form. */
  lemma NumericPadded(e: Endian, raw: seq<Byte>)
    requires |raw| <= 8
    ensures ReadVal(e, Numeric, raw, 0, |raw|) == Ok(Float(MsbFirst(e, PadNumeric(e, raw, |raw|))))
  {
    var padded := PadNumeric(e, raw, |raw|);
    assert |padded| == 8;
    assert Slice(padded, 0, 8) == padded;
  }

  /** Zero padding ends up as the low-order bytes whichever side it was added on. */
  lemma MsbFirstPadded(e: Endian, raw: seq<Byte>)
    requires |raw| <= 8
    ensures MsbFirst(e, PadNumeric(e, raw, |raw|)) == MsbFirst(e, raw) + Zeros(8 - |raw|)
  {
    if |raw| == 8 {
      assert Zeros(0) == [];
    } else if e == Little {
      PaddedLittle(raw);
    } else {
      assert PadNumeric(e, raw, |raw|) == raw + Zeros(8 - |raw|);
    }
  }

  lemma PaddedLittle(raw: seq<Byte>)
    requires |raw| < 8
    ensures Reverse(PadNumeric(Little, raw, |raw|)) == Reverse(raw) + Zeros(8 - |raw|)
  {
    ReverseZerosAppend(8 - |raw|, raw);
  }

  /** A numeric field wider than eight bytes cannot be unpacked. */
  lemma NumericTooWide(e: Endian, raw: seq<Byte>)
    requires |raw| > 8
    ensures ReadVal(e, Numeric, raw, 0, |raw|) == Raise(StructError)
  {
    assert Slice(raw, 0, |raw|) == raw;
  }

  /** A string field inside the buffer is its window of bytes, stripped of NULs. */
  lemma ReadStrWindow(e: Endian, h: seq<Byte>, start: int, size: int)
    requires 0 <= start && 0 <= size && start + size <= |h|
    ensures ReadStr(e, h, start, size) == Ok(Strip(h[start..start + size], Nul))
  {
  }

  /** A string field comes back without NUL bytes at either end, and is otherwise the bytes read. */
  lemma ReadStrStripped(e: Endian, h: seq<Byte>, start: int, size: int)
    requires 0 <= start && 0 <= size && start + size <= |h|
    ensures ReadStr(e, h, start, size) == Ok(Strip(h[start..start + size], Nul))
    ensures |Strip(h[start..start + size], Nul)| > 0 ==>
      && Strip(h[start..start + size], Nul)[0] != 0
      && Strip(h[start..start + size], Nul)[|Strip(h[start..start + size], Nul)| - 1] != 0
  {
    ReadStrWindow(e, h, start, size);
    StripEnds(h[start..start + size]);
  }

  lemma StripEnds(w: seq<Byte>)
    ensures |Strip(w, Nul)| > 0 ==> Strip(w, Nul)[0] != 0 && Strip(w, Nul)[|Strip(w, Nul)| - 1] != 0
  {
    StripSpec(w, Nul);
  }
}
