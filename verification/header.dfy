/**
 * The fixed part of the file header (`checkMagicNumber` and the first half of
 * `_readHeader`): the 32-byte magic number, the flag bytes that fix the word
 * size, alignment, byte order and platform, and the fields at offsets derived
 * from them, up to the point where the subheaders are read.
 */
module Header {
  import opened Bytes
  import opened Outcomes
  import opened Fields

  /** How many bytes are read before anything else is known. */
  const ProbeLength: nat := 288

  const Magic: seq<Byte> := [
    0x00, 0x00, 0x00, 0x00, 0x00, 0x00, 0x00, 0x00, 0x00, 0x00, 0x00, 0x00, 0xc2, 0xea, 0x81, 0x60,
    0xb3, 0x14, 0x11, 0xcf, 0xbd, 0x92, 0x08, 0x00, 0x09, 0xc7, 0x31, 0x8c, 0x18, 0x1f, 0x10, 0x11]

  /** Why the reader gives up on a file after logging an error (the header becomes `None`). */
  datatype Rejection =
    | HeaderTooShort
    | MagicMismatch
    | NegativePageSize
    | NonPositivePageCount
    | RowSizeCount(found: nat)
    | ColumnSizeCount(found: nat)
    | NoColumnText
    | NoColumnAttributes
    | AttributeCountMismatch(found: nat, expected: int)
    | NoColumnNames

  /** A parse that either produced its value or was abandoned with a logged error. */
  datatype Verdict<+T> = Accepted(value: T) | Rejected(why: Rejection)

  /** `checkMagicNumber`: the first 32 bytes (as many as there are) compared with the magic number. */
  predicate CheckMagic(h: seq<Byte>) {
    Slice(h, 0, |Magic|) == Magic
  }

  lemma CheckMagicIff(h: seq<Byte>)
    ensures CheckMagic(h) <==> |h| >= |Magic| && h[..|Magic|] == Magic
  {
    if |h| < |Magic| {
      assert |Slice(h, 0, |Magic|)| < |Magic|;
    }
  }

  datatype Platform = Unix | Windows | UnknownPlatform

  /** What the flag bytes at offsets 32, 35, 37 and 39 say. */
  datatype Flags = Flags(u64: bool, align1: nat, align2: nat, endian: Endian, platform: Platform)

  function PlatformOf(b: Byte): Platform {
    if b == 0x31 then Unix else if b == 0x32 then Windows else UnknownPlatform
  }

  /**
   * Byte 32 equal to 0x33 marks a 64-bit file and widens the page-count
   * field by `align2`; 64-bit offsets are used only on unix files, while the
   * widening does not depend on the platform.
   */
  function FlagsOf(h: seq<Byte>): (r: Flags)
    requires |h| >= 40
    ensures r.u64 <==> h[32] == 0x33 && h[39] == 0x31
    ensures r.u64 ==> r.align2 == 4
    ensures r.align1 in {0, 4} && (r.align1 == 4 <==> h[35] == 0x33)
    ensures r.align2 in {0, 4} && (r.align2 == 4 <==> h[32] == 0x33)
    ensures r.endian == Little <==> h[37] == 0x01
    ensures (r.platform == Unix <==> h[39] == 0x31) && (r.platform == Windows <==> h[39] == 0x32)
  {
    var wide := h[32] == 0x33;
    var platform := PlatformOf(h[39]);
    Flags(
      wide && platform == Unix,
      if h[35] == 0x33 then 4 else 0,
      if wide then 4 else 0,
      if h[37] == 0x01 then Little else Big,
      platform)
  }

  /** `s.lstrip().strip()`: surrounding whitespace removed. */
  function StripSpaces(s: seq<Byte>): seq<Byte> {
    Strip(LStrip(s, Whitespace), Whitespace)
  }

  /** The first bytes of the file, or the reason to stop: too short, or not a SAS7BDAT file. */
  function Probe(file: seq<Byte>): Verdict<seq<Byte>> {
    var h := FileRead(file, 0, ProbeLength);
    if |h| < ProbeLength then Rejected(HeaderTooShort)
    else if !CheckMagic(h) then Rejected(MagicMismatch)
    else Accepted(h)
  }

  lemma ProbeSpec(file: seq<Byte>)
    ensures Probe(file) == Rejected(HeaderTooShort) <==> |file| < ProbeLength
    ensures Probe(file) == Rejected(MagicMismatch) <==> |file| >= ProbeLength && file[..|Magic|] != Magic
    ensures Probe(file).Accepted? <==> |file| >= ProbeLength && file[..|Magic|] == Magic
    ensures Probe(file).Accepted? ==> Probe(file).value == file[..ProbeLength]
  {
    var h := FileRead(file, 0, ProbeLength);
    CheckMagicIff(h);
    if |file| >= ProbeLength {
      assert h == file[..ProbeLength];
      assert h[..|Magic|] == file[..|Magic|];
    }
  }

  /** Everything the fixed part of the header yields. */
  datatype Fixed = Fixed(
    flags: Flags,
    bytes: seq<Byte>,          // the whole header; its length is `headerlength`
    dataset: seq<Byte>,
    datecreated: seq<Byte>,    // IEEE-754 bits, most significant byte first
    datemodified: seq<Byte>,
    pagesize: nat,
    pagecount: int,
    sasrelease: seq<Byte>,
    sashost: seq<Byte>,
    osversion: seq<Byte>,
    osmaker: seq<Byte>,
    osname: seq<Byte>)

  /** Where the header length field sits. */
  function LengthAt(fl: Flags): nat { 196 + fl.align1 }

  /** Where the page size and page count fields sit, and how wide the count is. */
  function PageSizeAt(fl: Flags): nat { 200 + fl.align1 }
  function PageCountAt(fl: Flags): nat { 204 + fl.align1 }
  function PageCountWidth(fl: Flags): Width { if fl.u64 then Q else I }

  /** The strings after the page count start `align1 + align2` bytes further on. */
  function StringsAt(fl: Flags): nat { 216 + fl.align1 + fl.align2 }

  /** The dataset name, the two timestamps and the header length, all inside the probe. */
  datatype Head = Head(name: seq<Byte>, created: seq<Byte>, modified: seq<Byte>, hl: int)

  function HeadOf(fl: Flags, h: seq<Byte>): Result<Head> {
    var e := fl.endian;
    var name :- ReadStr(e, h, 92, 64);
    var created :- ReadVal(e, Dbl, h, 164 + fl.align1, 8);
    var modified :- ReadVal(e, Dbl, h, 172 + fl.align1, 8);
    var hl :- ReadInt(e, I, h, LengthAt(fl), 4);
    Ok(Head(StripSpaces(name), created.bits, modified.bits, hl))
  }

  /**
   * The part of the header after the probe: the header length (which must
   * be 8192 in a 64-bit file), the rest of the header read up to that
   * length, then page size, page count and the release and host strings.
   */
  function FixedFrom(file: seq<Byte>, h: seq<Byte>): Result<Verdict<Fixed>>
    requires |h| == ProbeLength <= |file|
  {
    var fl := FlagsOf(h);
    var hd :- HeadOf(fl, h);
    if fl.u64 && hd.hl != 8192 then Raise(AssertionError)
    else RestFrom(file, h, fl, hd)
  }

  /** The header read on to its full length `hd.hl`; a file that ends first is rejected. */
  function RestFrom(file: seq<Byte>, h: seq<Byte>, fl: Flags, hd: Head): Result<Verdict<Fixed>>
    requires |h| == ProbeLength <= |file|
  {
    var whole := h + FileRead(file, ProbeLength, hd.hl - ProbeLength);
    if |whole| != hd.hl then Ok(Rejected(HeaderTooShort))
    else SizesFrom(fl, whole, hd.name, hd.created, hd.modified)
  }

  function SizesFrom(fl: Flags, whole: seq<Byte>, name: seq<Byte>, created: seq<Byte>, modified: seq<Byte>)
    : Result<Verdict<Fixed>>
  {
    var e := fl.endian;
    var pagesize :- ReadInt(e, I, whole, PageSizeAt(fl), 4);
    if pagesize < 0 then Ok(Rejected(NegativePageSize))
    else
      var pagecount :- ReadInt(e, PageCountWidth(fl), whole, PageCountAt(fl), 4 + fl.align2);
      if pagecount < 1 then Ok(Rejected(NonPositivePageCount))
      else StringsFrom(fl, whole, name, created, modified, pagesize, pagecount)
  }

  /** The release, host and operating-system strings, which end the fixed part. */
  function StringsFrom(fl: Flags, whole: seq<Byte>, name: seq<Byte>, created: seq<Byte>, modified: seq<Byte>,
                       pagesize: nat, pagecount: int): (r: Result<Verdict<Fixed>>)
    ensures r.Ok? ==> r.value.Accepted? && r.value.value.bytes == whole && r.value.value.flags == fl
    ensures r.Ok? ==> r.value.value.pagesize == pagesize && r.value.value.pagecount == pagecount
  {
    var e := fl.endian;
    var at := StringsAt(fl);
    var release :- ReadStr(e, whole, at, 8);
    var host :- ReadStr(e, whole, at + 8, 16);
    var version :- ReadStr(e, whole, at + 24, 16);
    var maker :- ReadStr(e, whole, at + 40, 16);
    var os :- ReadStr(e, whole, at + 56, 16);
    Ok(Accepted(Fixed(fl, whole, name, created, modified, pagesize, pagecount,
                      release, host, version, maker, os)))
  }

  /** The fixed part of `_readHeader`. */
  function ReadFixed(file: seq<Byte>): Result<Verdict<Fixed>> {
    match Probe(file)
    case Rejected(why) => Ok(Rejected(why))
    case Accepted(h) => FixedFrom(file, h)
  }

  /** The size fields of an accepted header, read where the flags put them. */
  lemma {:induction false} SizesFacts(fl: Flags, whole: seq<Byte>, name: seq<Byte>, created: seq<Byte>, modified: seq<Byte>)
    requires SizesFrom(fl, whole, name, created, modified).Ok?
    requires SizesFrom(fl, whole, name, created, modified).value.Accepted?
    ensures SizesFrom(fl, whole, name, created, modified).value.value.bytes == whole
    ensures SizesFrom(fl, whole, name, created, modified).value.value.flags == fl
    ensures ReadInt(fl.endian, I, whole, PageSizeAt(fl), 4)
      == Ok(SizesFrom(fl, whole, name, created, modified).value.value.pagesize)
    ensures ReadInt(fl.endian, PageCountWidth(fl), whole, PageCountAt(fl), 4 + fl.align2)
      == Ok(SizesFrom(fl, whole, name, created, modified).value.value.pagecount)
    ensures SizesFrom(fl, whole, name, created, modified).value.value.pagecount >= 1
  {
  }

  /**
   * An accepted fixed header is a prefix of the file whose length is the
   * header-length field, 8192 for a 64-bit file; its flags are those of the
   * file's first bytes, and page size and page count are the fields at the
   * offsets those flags give, non-negative and positive.
   */
  lemma FixedFacts(file: seq<Byte>)
    requires ReadFixed(file).Ok? && ReadFixed(file).value.Accepted?
    ensures |file| >= ProbeLength && file[..|Magic|] == Magic
    ensures ReadFixed(file).value.value.flags == FlagsOf(file[..ProbeLength])
    ensures ProbeLength <= |ReadFixed(file).value.value.bytes| <= |file|
    ensures ReadFixed(file).value.value.bytes == file[..|ReadFixed(file).value.value.bytes|]
    ensures ReadInt(ReadFixed(file).value.value.flags.endian, I, file[..ProbeLength],
                    LengthAt(ReadFixed(file).value.value.flags), 4)
      == Ok(|ReadFixed(file).value.value.bytes|)
    ensures ReadFixed(file).value.value.flags.u64 ==> |ReadFixed(file).value.value.bytes| == 8192
    ensures ReadInt(ReadFixed(file).value.value.flags.endian, I, ReadFixed(file).value.value.bytes,
                    PageSizeAt(ReadFixed(file).value.value.flags), 4)
      == Ok(ReadFixed(file).value.value.pagesize)
    ensures ReadInt(ReadFixed(file).value.value.flags.endian, PageCountWidth(ReadFixed(file).value.value.flags),
                    ReadFixed(file).value.value.bytes, PageCountAt(ReadFixed(file).value.value.flags),
                    4 + ReadFixed(file).value.value.flags.align2)
      == Ok(ReadFixed(file).value.value.pagecount)
    ensures ReadFixed(file).value.value.pagecount >= 1
  {
    ProbeSpec(file);
    FixedFromFacts(file, file[..ProbeLength]);
  }

  lemma FixedFromFacts(file: seq<Byte>, h: seq<Byte>)
    requires |h| == ProbeLength <= |file| && h == file[..ProbeLength]
    requires FixedFrom(file, h).Ok? && FixedFrom(file, h).value.Accepted?
    ensures FixedFrom(file, h).value.value.flags == FlagsOf(h)
    ensures ProbeLength <= |FixedFrom(file, h).value.value.bytes| <= |file|
    ensures FixedFrom(file, h).value.value.bytes == file[..|FixedFrom(file, h).value.value.bytes|]
    ensures ReadInt(FlagsOf(h).endian, I, h, LengthAt(FlagsOf(h)), 4) == Ok(|FixedFrom(file, h).value.value.bytes|)
    ensures FlagsOf(h).u64 ==> |FixedFrom(file, h).value.value.bytes| == 8192
    ensures ReadInt(FlagsOf(h).endian, I, FixedFrom(file, h).value.value.bytes, PageSizeAt(FlagsOf(h)), 4)
      == Ok(FixedFrom(file, h).value.value.pagesize)
    ensures ReadInt(FlagsOf(h).endian, PageCountWidth(FlagsOf(h)), FixedFrom(file, h).value.value.bytes,
                    PageCountAt(FlagsOf(h)), 4 + FlagsOf(h).align2)
      == Ok(FixedFrom(file, h).value.value.pagecount)
    ensures FixedFrom(file, h).value.value.pagecount >= 1
  {
    var fl := FlagsOf(h);
    var hd := HeadOf(fl, h).value;
    assert HeadOf(fl, h) == Ok(hd);
    assert FixedFrom(file, h) == RestFrom(file, h, fl, hd);
    RestFacts(file, h, fl, hd);
  }

  lemma RestFacts(file: seq<Byte>, h: seq<Byte>, fl: Flags, hd: Head)
    requires |h| == ProbeLength <= |file| && h == file[..ProbeLength]
    requires RestFrom(file, h, fl, hd).Ok? && RestFrom(file, h, fl, hd).value.Accepted?
    ensures RestFrom(file, h, fl, hd).value.value.flags == fl
    ensures |RestFrom(file, h, fl, hd).value.value.bytes| == hd.hl
    ensures ProbeLength <= hd.hl <= |file|
    ensures RestFrom(file, h, fl, hd).value.value.bytes == file[..hd.hl]
    ensures ReadInt(fl.endian, I, RestFrom(file, h, fl, hd).value.value.bytes, PageSizeAt(fl), 4)
      == Ok(RestFrom(file, h, fl, hd).value.value.pagesize)
    ensures ReadInt(fl.endian, PageCountWidth(fl), RestFrom(file, h, fl, hd).value.value.bytes, PageCountAt(fl), 4 + fl.align2)
      == Ok(RestFrom(file, h, fl, hd).value.value.pagecount)
    ensures RestFrom(file, h, fl, hd).value.value.pagecount >= 1
  {
    var whole := h + FileRead(file, ProbeLength, hd.hl - ProbeLength);
    SizesFacts(fl, whole, hd.name, hd.created, hd.modified);
    assert whole == file[..|whole|];
  }
}
