/**
 * The second half of `_readHeader`: the subheaders found in the meta, mix
 * and amd pages are sorted into buckets by signature, the row-size and
 * column-size subheaders give the table geometry, the first column-text
 * subheader tells the compression, and the column attributes, names and
 * labels are zipped into the column list of the header.
 */
module Metadata {
  import opened Bytes
  import opened Outcomes
  import opened Fields
  import opened Pages
  import opened Columns
  import opened Header

  // ---------------------------------------------------------------------
  // Signatures

  const SubhRowSize: set<seq<Byte>> := {
    [0xF7, 0xF7, 0xF7, 0xF7], [0x00, 0x00, 0x00, 0x00, 0xF7, 0xF7, 0xF7, 0xF7],
    [0xF7, 0xF7, 0xF7, 0xF7, 0x00, 0x00, 0x00, 0x00]}
  const SubhColSize: set<seq<Byte>> := {
    [0xF6, 0xF6, 0xF6, 0xF6], [0x00, 0x00, 0x00, 0x00, 0xF6, 0xF6, 0xF6, 0xF6],
    [0xF6, 0xF6, 0xF6, 0xF6, 0x00, 0x00, 0x00, 0x00]}
  const SubhColText: set<seq<Byte>> := {
    [0xFD, 0xFF, 0xFF, 0xFF], [0xFF, 0xFF, 0xFF, 0xFD],
    [0xFD, 0xFF, 0xFF, 0xFF, 0xFF, 0xFF, 0xFF, 0xFF], [0xFF, 0xFF, 0xFF, 0xFF, 0xFF, 0xFF, 0xFF, 0xFD]}
  const SubhColAttr: set<seq<Byte>> := {
    [0xFC, 0xFF, 0xFF, 0xFF], [0xFF, 0xFF, 0xFF, 0xFC],
    [0xFC, 0xFF, 0xFF, 0xFF, 0xFF, 0xFF, 0xFF, 0xFF], [0xFF, 0xFF, 0xFF, 0xFF, 0xFF, 0xFF, 0xFF, 0xFC]}
  const SubhColName: set<seq<Byte>> := {
    [0xFF, 0xFF, 0xFF, 0xFF], [0xFF, 0xFF, 0xFF, 0xFF, 0xFF, 0xFF, 0xFF, 0xFF]}
  const SubhColLabs: set<seq<Byte>> := {
    [0xFE, 0xFB, 0xFF, 0xFF], [0xFF, 0xFF, 0xFB, 0xFE],
    [0xFE, 0xFB, 0xFF, 0xFF, 0xFF, 0xFF, 0xFF, 0xFF], [0xFF, 0xFF, 0xFF, 0xFF, 0xFF, 0xFF, 0xFB, 0xFE]}

  /** The buckets of `_readHeader`; every other signature (column list, subheader counts, unknown) is passed over. */
  datatype Kind = RowSizeKind | ColSizeKind | ColTextKind | ColAttrKind | ColNameKind | ColLabsKind | Passed

  /** The `if`/`elif` chain over the signature sets, in the order the reader tests them. */
  function KindOf(sig: seq<Byte>): Kind {
    if sig in SubhRowSize then RowSizeKind
    else if sig in SubhColSize then ColSizeKind
    else if sig in SubhColText then ColTextKind
    else if sig in SubhColAttr then ColAttrKind
    else if sig in SubhColName then ColNameKind
    else if sig in SubhColLabs then ColLabsKind
    else Passed
  }

  /** The signature set a bucket collects. */
  function SignaturesOf(k: Kind): set<seq<Byte>>
    requires k != Passed
  {
    match k
    case RowSizeKind => SubhRowSize
    case ColSizeKind => SubhColSize
    case ColTextKind => SubhColText
    case ColAttrKind => SubhColAttr
    case ColNameKind => SubhColName
    case ColLabsKind => SubhColLabs
  }

  /**
   * The signature sets do not overlap, so the order of the tests does not
   * matter: a subheader lands in a bucket exactly when its signature is in
   * that bucket's set.
   */
  lemma KindOfMembership(sig: seq<Byte>, k: Kind)
    requires k != Passed
    ensures KindOf(sig) == k <==> sig in SignaturesOf(k)
  {
    if |sig| != 4 && |sig| != 8 {
      assert sig !in SubhRowSize && sig !in SubhColSize && sig !in SubhColText;
      assert sig !in SubhColAttr && sig !in SubhColName && sig !in SubhColLabs;
    }
  }

  // ---------------------------------------------------------------------
  // Bucketing

  /** The subheaders of one kind, in the order they were found. */
  function Filter(subs: seq<SubHeader>, k: Kind): (r: seq<SubHeader>)
    ensures |r| <= |subs|
  {
    if |subs| == 0 then []
    else
      var last := subs[|subs| - 1];
      Filter(subs[..|subs| - 1], k) + (if KindOf(last.signature) == k then [last] else [])
  }

  /** A bucket holds exactly the subheaders of its kind. */
  lemma {:induction false} FilterMembership(subs: seq<SubHeader>, k: Kind, x: SubHeader)
    ensures x in Filter(subs, k) <==> x in subs && KindOf(x.signature) == k
  {
    if |subs| > 0 {
      var init := subs[..|subs| - 1];
      FilterMembership(init, k, x);
      assert subs == init + [subs[|subs| - 1]];
    }
  }

  /** A bucket keeps the order of the subheaders: filtering a concatenation filters each part. */
  lemma {:induction false} FilterConcat(a: seq<SubHeader>, b: seq<SubHeader>, k: Kind)
    ensures Filter(a + b, k) == Filter(a, k) + Filter(b, k)
    decreases |b|
  {
    if |b| == 0 {
      assert a + b == a;
    } else {
      var init, last := b[..|b| - 1], b[|b| - 1];
      FilterConcat(a, init, k);
      assert (a + b)[..|a + b| - 1] == a + init;
      assert (a + b)[|a + b| - 1] == last;
    }
  }

  /** A one-subheader list keeps the subheader exactly when it is of the kind. */
  lemma FilterSingleton(x: SubHeader, k: Kind)
    ensures Filter([x], k) == if KindOf(x.signature) == k then [x] else []
  {
    assert [x][..0] == [];
  }

  /** A list with no subheader of the kind leaves the bucket empty. */
  lemma {:induction false} FilterNone(subs: seq<SubHeader>, k: Kind)
    requires forall i :: 0 <= i < |subs| ==> KindOf(subs[i].signature) != k
    ensures Filter(subs, k) == []
  {
    if |subs| > 0 {
      FilterNone(subs[..|subs| - 1], k);
    }
  }

  /** The head of a bucket is the first subheader of its kind, which is the one the reader takes. */
  lemma FilterFirst(subs: seq<SubHeader>, k: Kind, j: nat)
    requires j < |subs| && KindOf(subs[j].signature) == k
    requires forall i :: 0 <= i < j ==> KindOf(subs[i].signature) != k
    ensures |Filter(subs, k)| > 0 && Filter(subs, k)[0] == subs[j]
  {
    var before, rest := subs[..j], subs[j + 1..];
    assert subs == before + ([subs[j]] + rest);
    FilterNone(before, k);
    FilterConcat(before, [subs[j]] + rest, k);
    FilterConcat([subs[j]], rest, k);
    FilterSingleton(subs[j], k);
    assert [] + ([subs[j]] + Filter(rest, k)) == [subs[j]] + Filter(rest, k);
  }

  /** A bucket holds each subheader of its kind as many times as the list does, and no other. */
  lemma {:induction false} FilterCount(subs: seq<SubHeader>, k: Kind, x: SubHeader)
    ensures multiset(Filter(subs, k))[x] == if KindOf(x.signature) == k then multiset(subs)[x] else 0
  {
    if |subs| > 0 {
      var init, last := subs[..|subs| - 1], subs[|subs| - 1];
      FilterCount(init, k, x);
      assert subs == init + [last];
    }
  }

  /** The buckets are disjoint: a subheader never lands in two of them. */
  lemma FilterDisjoint(subs: seq<SubHeader>, k1: Kind, k2: Kind, x: SubHeader)
    requires k1 != k2
    ensures !(x in Filter(subs, k1) && x in Filter(subs, k2))
  {
    FilterMembership(subs, k1, x);
    FilterMembership(subs, k2, x);
  }

  datatype Buckets = Buckets(
    rowsize: seq<SubHeader>, colsize: seq<SubHeader>, coltext: seq<SubHeader>,
    colattr: seq<SubHeader>, colname: seq<SubHeader>, collabs: seq<SubHeader>)

  function BucketsOf(subs: seq<SubHeader>): Buckets {
    Buckets(
      Filter(subs, RowSizeKind), Filter(subs, ColSizeKind), Filter(subs, ColTextKind),
      Filter(subs, ColAttrKind), Filter(subs, ColNameKind), Filter(subs, ColLabsKind))
  }

  /** The bucketing loop of `_readHeader`: each subheader is appended to the list its signature selects. */
  method SortSubheaders(subs: seq<SubHeader>) returns (b: Buckets)
    ensures b == BucketsOf(subs)
  {
    b := Buckets([], [], [], [], [], []);
    var j := 0;
    while j < |subs|
      invariant j <= |subs|
      invariant b == BucketsOf(subs[..j])
    {
      var x := subs[j];
      assert subs[..j + 1][..j] == subs[..j];
      if x.signature in SubhRowSize {
        b := b.(rowsize := b.rowsize + [x]);
      } else if x.signature in SubhColSize {
        b := b.(colsize := b.colsize + [x]);
      } else if x.signature in SubhColText {
        b := b.(coltext := b.coltext + [x]);
      } else if x.signature in SubhColAttr {
        b := b.(colattr := b.colattr + [x]);
      } else if x.signature in SubhColName {
        b := b.(colname := b.colname + [x]);
      } else if x.signature in SubhColLabs {
        b := b.(collabs := b.collabs + [x]);
      }
      j := j + 1;
    }
    assert subs[..j] == subs;
  }

  // ---------------------------------------------------------------------
  // Row size and column size

  datatype RowSize = RowSize(
    rowlength: int, rowcount: int, colcountp1: int, colcountp2: int, rowcountfp: int, lcs: int, lcp: int)

  /** Offsets and lengths are `q` fields in 64-bit files and `i` fields otherwise. */
  function WordWidth(u64: bool): Width { if u64 then Q else I }

  /** The fields of the row-size subheader; a 32-bit file has each word field at half the 64-bit offset. */
  function ReadRowSize(l: Layout, raw: seq<Byte>): (r: Result<RowSize>)
    ensures r.Ok? <==> |raw| >= (if l.u64 then 708 else 380)
    ensures r.Raise? ==> r.exc == StructError
  {
    if l.u64 then RowSizeFields(l.endian, Q, raw, 40, 48, 72, 80, 120, 682, 706)
    else RowSizeFields(l.endian, I, raw, 20, 24, 36, 40, 60, 354, 378)
  }

  /** The seven row-size fields read at the given offsets, the last two as shorts. */
  function RowSizeFields(e: Endian, w: Width, raw: seq<Byte>, a: nat, b: nat, c: nat, d: nat, f: nat, s: nat, p: nat)
    : (r: Result<RowSize>)
    requires a <= b <= c <= d <= f < s < p
    ensures r.Ok? <==> |raw| >= p + 2 && |raw| >= f + WidthBytes(w)
    ensures r.Ok? ==>
      && ReadInt(e, w, raw, a, WidthBytes(w)) == Ok(r.value.rowlength)
      && ReadInt(e, w, raw, b, WidthBytes(w)) == Ok(r.value.rowcount)
      && ReadInt(e, w, raw, c, WidthBytes(w)) == Ok(r.value.colcountp1)
      && ReadInt(e, w, raw, d, WidthBytes(w)) == Ok(r.value.colcountp2)
      && ReadInt(e, w, raw, f, WidthBytes(w)) == Ok(r.value.rowcountfp)
      && ReadInt(e, H, raw, s, 2) == Ok(r.value.lcs)
      && ReadInt(e, H, raw, p, 2) == Ok(r.value.lcp)
    ensures r.Raise? ==> r.exc == StructError
  {
    var n := WidthBytes(w);
    var rowlength :- ReadInt(e, w, raw, a, n);
    var rowcount :- ReadInt(e, w, raw, b, n);
    var colcountp1 :- ReadInt(e, w, raw, c, n);
    var colcountp2 :- ReadInt(e, w, raw, d, n);
    var rowcountfp :- ReadInt(e, w, raw, f, n);
    var lcs :- ReadInt(e, H, raw, s, 2);
    var lcp :- ReadInt(e, H, raw, p, 2);
    Ok(RowSize(rowlength, rowcount, colcountp1, colcountp2, rowcountfp, lcs, lcp))
  }

  /** The column count in the column-size subheader. */
  function ReadColCount(l: Layout, raw: seq<Byte>): (r: Result<int>)
    ensures r.Ok? <==> |raw| >= (if l.u64 then 16 else 8)
    ensures r.Ok? ==> ReadInt(l.endian, if l.u64 then Q else I, raw, if l.u64 then 8 else 4, if l.u64 then 8 else 4) == r
    ensures r.Raise? ==> r.exc == StructError
  {
    var n := WidthBytes(WordWidth(l.u64));
    ReadInt(l.endian, WordWidth(l.u64), raw, n, n)
  }

  // ---------------------------------------------------------------------
  // Compression and creator

  /** The table's compression: none, run-length (`SASYZCRL`), or an unrecognised name kept as read. */
  datatype DataCompression = Uncompressed | RleCompressed | OtherCompression(name: seq<Byte>)

  /** `'RLE'`: the value `header.compression` holds for a run-length compressed table. */
  const RleName: seq<Byte> := [0x52, 0x4C, 0x45]

  /**
   * The Python value of `header.compression`: `None`, `'RLE'` for a
   * `SASYZCRL` table, or an unrecognised name as it was read.
   */
  function CompressionValue(c: DataCompression): Option<seq<Byte>> {
    match c
    case Uncompressed => None
    case RleCompressed => Some(RleName)
    case OtherCompression(name) => Some(name)
  }

  datatype Creator = Creator(compression: DataCompression, creator: seq<Byte>, creatorproc: seq<Byte>)

  const Sasyzcrl: seq<Byte> := [0x53, 0x41, 0x53, 0x59, 0x5A, 0x43, 0x52, 0x4C]

  /** Where the compression name (or the creator) starts in the first column-text subheader. */
  function TextStart(u64: bool): nat { if u64 then 20 else 16 }

  /** The eight bytes naming the compression, NULs and whitespace stripped. */
  function CompressionName(l: Layout, text: seq<Byte>): Result<seq<Byte>> {
    var name :- ReadStr(l.endian, text, TextStart(l.u64), 8);
    Ok(StripSpaces(name))
  }

  /**
   * No name means no compression and a creator procedure of length `lcp`
   * after it; `SASYZCRL` means run-length compression, with the creator
   * procedure eight bytes further on; any other name with a positive `lcs`
   * is the start of the creator string; otherwise the name is kept as an
   * unknown compression (the reader logs an error and goes on).
   */
  function CreatorOf(l: Layout, text: seq<Byte>, lcs: int, lcp: int): (r: Result<Creator>)
    ensures r.Ok? ==> CompressionName(l, text).Ok?
    ensures r.Ok? ==> (r.value.compression == RleCompressed <==> CompressionName(l, text).value == Sasyzcrl)
    ensures r.Ok? ==> (r.value.compression.OtherCompression?
      <==> |CompressionName(l, text).value| > 0 && CompressionName(l, text).value != Sasyzcrl && lcs <= 0)
    ensures r.Ok? && r.value.compression.OtherCompression? ==> r.value.compression.name == CompressionName(l, text).value
    ensures r.Ok? && |r.value.creator| > 0 ==> r.value.compression == Uncompressed
    ensures r.Ok? ==> (CompressionValue(r.value.compression).None?
      <==> |CompressionName(l, text).value| == 0 || (CompressionName(l, text).value != Sasyzcrl && lcs > 0))
    ensures r.Ok? ==> (CompressionValue(r.value.compression) == Some(RleName)
      <==> CompressionName(l, text).value == Sasyzcrl || (CompressionName(l, text).value == RleName && lcs <= 0))
    ensures r.Raise? ==> r.exc == StructError
  {
    var name :- CompressionName(l, text);
    if |name| == 0 then
      var proc :- ReadStr(l.endian, text, 16 + TextStart(l.u64), lcp);
      Ok(Creator(Uncompressed, [], proc))
    else if name == Sasyzcrl then
      var proc :- ReadStr(l.endian, text, 24 + TextStart(l.u64), lcp);
      Ok(Creator(RleCompressed, [], proc))
    else if lcs > 0 then
      var creator :- ReadStr(l.endian, text, TextStart(l.u64), lcs);
      Ok(Creator(Uncompressed, StripSpaces(creator), []))
    else Ok(Creator(OtherCompression(name), [], []))
  }

  // ---------------------------------------------------------------------
  // Columns

  datatype Column = Column(name: seq<Byte>, attr: ColumnAttr, formatLabel: ColumnLabel)

  /** `cols.append(Column(colname[i], colattr[i], collabs[i]))` for `i` from `i` up to `colcount`. */
  function ColumnsFrom(names: seq<seq<Byte>>, attrs: seq<ColumnAttr>, labels: seq<ColumnLabel>, colcount: int, i: nat)
    : Result<seq<Column>>
    decreases colcount - i
  {
    if i >= colcount then Ok([])
    else if i >= |names| || i >= |attrs| || i >= |labels| then Raise(IndexError)
    else Prepend([Column(names[i], attrs[i], labels[i])], ColumnsFrom(names, attrs, labels, colcount, i + 1))
  }

  /**
   * The column loop succeeds exactly when names, attributes and labels each
   * have at least `colcount` entries; then column `k` pairs the `k`-th of
   * each, and there are `colcount` columns (none when it is negative).
   */
  lemma {:induction false} ColumnsFromSpec(names: seq<seq<Byte>>, attrs: seq<ColumnAttr>, labels: seq<ColumnLabel>,
                                           colcount: int, i: nat)
    ensures ColumnsFrom(names, attrs, labels, colcount, i).Ok?
      <==> colcount <= i || (colcount <= |names| && colcount <= |attrs| && colcount <= |labels|)
    ensures ColumnsFrom(names, attrs, labels, colcount, i).Raise? ==>
      ColumnsFrom(names, attrs, labels, colcount, i).exc == IndexError
    ensures ColumnsFrom(names, attrs, labels, colcount, i).Ok? ==>
      |ColumnsFrom(names, attrs, labels, colcount, i).value| == (if colcount <= i then 0 else colcount - i)
    ensures ColumnsFrom(names, attrs, labels, colcount, i).Ok? ==>
      forall k :: 0 <= k < |ColumnsFrom(names, attrs, labels, colcount, i).value| ==>
        i + k < |names| && i + k < |attrs| && i + k < |labels| &&
        ColumnsFrom(names, attrs, labels, colcount, i).value[k] == Column(names[i + k], attrs[i + k], labels[i + k])
    decreases colcount - i
  {
    if i < colcount && i < |names| && i < |attrs| && i < |labels| {
      ColumnsFromSpec(names, attrs, labels, colcount, i + 1);
      var rest := ColumnsFrom(names, attrs, labels, colcount, i + 1);
      if rest.Ok? {
        var r := ColumnsFrom(names, attrs, labels, colcount, i);
        assert r.value == [Column(names[i], attrs[i], labels[i])] + rest.value;
        forall k | 0 <= k < |r.value|
          ensures i + k < |names| && i + k < |attrs| && i + k < |labels|
          ensures r.value[k] == Column(names[i + k], attrs[i + k], labels[i + k])
        {
          if k > 0 {
            assert r.value[k] == rest.value[k - 1];
          }
        }
      }
    }
  }

  /** The loop `for i in xrange(colcount)` that builds the column list. */
  method BuildColumns(names: seq<seq<Byte>>, attrs: seq<ColumnAttr>, labels: seq<ColumnLabel>, colcount: int)
    returns (r: Result<seq<Column>>)
    ensures r == ColumnsFrom(names, attrs, labels, colcount, 0)
  {
    var cols: seq<Column> := [];
    var i: nat := 0;
    PrependNothing(ColumnsFrom(names, attrs, labels, colcount, 0));
    while i < colcount
      invariant Prepend(cols, ColumnsFrom(names, attrs, labels, colcount, i)) == ColumnsFrom(names, attrs, labels, colcount, 0)
      decreases colcount - i
    {
      if i >= |names| || i >= |attrs| || i >= |labels| {
        return Raise(IndexError);
      }
      var c := Column(names[i], attrs[i], labels[i]);
      PrependAssoc(cols, [c], ColumnsFrom(names, attrs, labels, colcount, i + 1));
      cols := cols + [c];
      i := i + 1;
    }
    assert cols + [] == cols;
    r := Ok(cols);
  }

  // ---------------------------------------------------------------------
  // The header

  /** The header `_readHeader` returns, without the file name. */
  datatype HeaderInfo = HeaderInfo(
    headerlength: nat,
    endian: Endian,
    platform: Platform,
    datecreated: seq<Byte>,
    dataset: seq<Byte>,
    datemodified: seq<Byte>,
    pagesize: nat,
    pagecount: int,
    sasrelease: seq<Byte>,
    sashost: seq<Byte>,
    osversion: seq<Byte>,
    osmaker: seq<Byte>,
    osname: seq<Byte>,
    u64: bool,
    rowcount: int,
    colcount: int,
    cols: seq<Column>,
    rowcountfp: int,
    rowlength: int,
    compression: DataCompression,
    creator: seq<Byte>,
    creatorproc: seq<Byte>)

  function LayoutOf(fl: Flags): Layout { Layout(fl.u64, fl.endian) }

  /**
   * From the buckets to the header: one row-size and one column-size
   * subheader, at least one column-text subheader, then the columns.
   */
  function Assemble(fx: Fixed, subs: seq<SubHeader>): Result<Verdict<HeaderInfo>> {
    var l := LayoutOf(fx.flags);
    var b := BucketsOf(subs);
    if |b.rowsize| != 1 then Ok(Rejected(RowSizeCount(|b.rowsize|)))
    else
      var rs :- ReadRowSize(l, b.rowsize[0].raw);
      if |b.colsize| != 1 then Ok(Rejected(ColumnSizeCount(|b.colsize|)))
      else
        var colcount :- ReadColCount(l, b.colsize[0].raw);
        if |b.coltext| < 1 then Ok(Rejected(NoColumnText))
        else
          var cr :- CreatorOf(l, b.coltext[0].raw, rs.lcs, rs.lcp);
          AssembleColumns(fx, b, rs, colcount, cr)
  }

  /**
   * At least one attribute subheader, exactly `colcount` attributes and at
   * least one name subheader are required; too few names or labels are only
   * logged, and then the column loop raises IndexError.
   */
  function AssembleColumns(fx: Fixed, b: Buckets, rs: RowSize, colcount: int, cr: Creator)
    : Result<Verdict<HeaderInfo>>
  {
    var l := LayoutOf(fx.flags);
    if |b.colattr| < 1 then Ok(Rejected(NoColumnAttributes))
    else
      var attrs :- AttributesOf(l, b.colattr, 0);
      if |attrs| != colcount then Ok(Rejected(AttributeCountMismatch(|attrs|, colcount)))
      else if |b.colname| < 1 then Ok(Rejected(NoColumnNames))
      else
        var names :- NamesOf(l, b.colname, b.coltext, 0);
        var labels :- ColumnLabels(l, b.collabs, b.coltext, colcount);
        var cols :- ColumnsFrom(names, attrs, labels, colcount, 0);
        Ok(Accepted(HeaderInfo(
          |fx.bytes|, fx.flags.endian, fx.flags.platform, fx.datecreated, fx.dataset, fx.datemodified,
          fx.pagesize, fx.pagecount, fx.sasrelease, fx.sashost, fx.osversion, fx.osmaker, fx.osname,
          fx.flags.u64, rs.rowcount, colcount, cols, rs.rowcountfp, rs.rowlength,
          cr.compression, cr.creator, cr.creatorproc)))
  }

  /** The subheaders of the pages after the header: the cursor stands at the header's end. */
  function SubheadersAfter(file: seq<Byte>, fx: Fixed): Result<seq<SubHeader>>
    requires |fx.bytes| <= |file|
  {
    Subheaders(LayoutOf(fx.flags), file, |fx.bytes|, fx.pagecount, fx.pagesize)
  }

  /** `_readHeader`: the header, the logged reason there is none, or the exception that escapes. */
  function HeaderOf(file: seq<Byte>): Result<Verdict<HeaderInfo>> {
    var fixed :- ReadFixed(file);
    match fixed
    case Rejected(why) => Ok(Rejected(why))
    case Accepted(fx) =>
      FixedFacts(file);
      var subs :- SubheadersAfter(file, fx);
      Assemble(fx, subs)
  }

  method AssembleHeader(fx: Fixed, subs: seq<SubHeader>) returns (r: Result<Verdict<HeaderInfo>>)
    ensures r == Assemble(fx, subs)
  {
    var l := LayoutOf(fx.flags);
    var b := SortSubheaders(subs);
    if |b.rowsize| != 1 {
      return Ok(Rejected(RowSizeCount(|b.rowsize|)));
    }
    var rs := ReadRowSize(l, b.rowsize[0].raw);
    if rs.Raise? {
      return Raise(rs.exc);
    }
    if |b.colsize| != 1 {
      return Ok(Rejected(ColumnSizeCount(|b.colsize|)));
    }
    var colcount := ReadColCount(l, b.colsize[0].raw);
    if colcount.Raise? {
      return Raise(colcount.exc);
    }
    if |b.coltext| < 1 {
      return Ok(Rejected(NoColumnText));
    }
    var cr := CreatorOf(l, b.coltext[0].raw, rs.value.lcs, rs.value.lcp);
    if cr.Raise? {
      return Raise(cr.exc);
    }
    r := AssembleColumnList(fx, b, rs.value, colcount.value, cr.value);
  }

  method AssembleColumnList(fx: Fixed, b: Buckets, rs: RowSize, colcount: int, cr: Creator)
    returns (r: Result<Verdict<HeaderInfo>>)
    ensures r == AssembleColumns(fx, b, rs, colcount, cr)
  {
    var l := LayoutOf(fx.flags);
    if |b.colattr| < 1 {
      return Ok(Rejected(NoColumnAttributes));
    }
    var attrs := ReadColumnAttributes(l, b.colattr);
    if attrs.Raise? {
      return Raise(attrs.exc);
    }
    if |attrs.value| != colcount {
      return Ok(Rejected(AttributeCountMismatch(|attrs.value|, colcount)));
    }
    if |b.colname| < 1 {
      return Ok(Rejected(NoColumnNames));
    }
    var names := ReadColumnNames(l, b.colname, b.coltext);
    if names.Raise? {
      return Raise(names.exc);
    }
    var labels := ReadColumnLabels(l, b.collabs, b.coltext, colcount);
    if labels.Raise? {
      return Raise(labels.exc);
    }
    var cols := BuildColumns(names.value, attrs.value, labels.value, colcount);
    if cols.Raise? {
      return Raise(cols.exc);
    }
    r := Ok(Accepted(HeaderInfo(
      |fx.bytes|, fx.flags.endian, fx.flags.platform, fx.datecreated, fx.dataset, fx.datemodified,
      fx.pagesize, fx.pagecount, fx.sasrelease, fx.sashost, fx.osversion, fx.osmaker, fx.osname,
      fx.flags.u64, rs.rowcount, colcount, cols.value, rs.rowcountfp, rs.rowlength,
      cr.compression, cr.creator, cr.creatorproc)));
  }

  /** `_readHeader` run step by step: the fixed part, the subheader walk, then the assembly. */
  method ReadHeader(file: seq<Byte>) returns (r: Result<Verdict<HeaderInfo>>)
    ensures r == HeaderOf(file)
  {
    var fixed := ReadFixed(file);
    if fixed.Raise? {
      return Raise(fixed.exc);
    }
    if fixed.value.Rejected? {
      return Ok(Rejected(fixed.value.why));
    }
    var fx := fixed.value.value;
    FixedFacts(file);
    var subs := ReadSubheaders(LayoutOf(fx.flags), file, |fx.bytes|, fx.pagecount, fx.pagesize);
    if subs.Raise? {
      return Raise(subs.exc);
    }
    r := AssembleHeader(fx, subs.value);
  }

  // ---------------------------------------------------------------------
  // What an accepted header guarantees

  /**
   * Columns are assembled only when there are attribute and name
   * subheaders and exactly `colcount` attributes; then there is one column
   * per attribute, in order, and the header carries the fixed part's sizes.
   */
  lemma AssembleColumnsFacts(fx: Fixed, b: Buckets, rs: RowSize, colcount: int, cr: Creator)
    requires AssembleColumns(fx, b, rs, colcount, cr).Ok? && AssembleColumns(fx, b, rs, colcount, cr).value.Accepted?
    ensures |b.colattr| >= 1 && |b.colname| >= 1
    ensures AttributesOf(LayoutOf(fx.flags), b.colattr, 0).Ok?
    ensures |AttributesOf(LayoutOf(fx.flags), b.colattr, 0).value| == colcount
    ensures |AssembleColumns(fx, b, rs, colcount, cr).value.value.cols| == colcount
    ensures forall k :: 0 <= k < colcount ==>
      AssembleColumns(fx, b, rs, colcount, cr).value.value.cols[k].attr
        == AttributesOf(LayoutOf(fx.flags), b.colattr, 0).value[k]
    ensures AssembleColumns(fx, b, rs, colcount, cr).value.value.colcount == colcount
    ensures AssembleColumns(fx, b, rs, colcount, cr).value.value.headerlength == |fx.bytes|
    ensures AssembleColumns(fx, b, rs, colcount, cr).value.value.u64 == fx.flags.u64
    ensures AssembleColumns(fx, b, rs, colcount, cr).value.value.endian == fx.flags.endian
    ensures AssembleColumns(fx, b, rs, colcount, cr).value.value.pagesize == fx.pagesize
    ensures AssembleColumns(fx, b, rs, colcount, cr).value.value.pagecount == fx.pagecount
    ensures AssembleColumns(fx, b, rs, colcount, cr).value.value.rowcount == rs.rowcount
    ensures AssembleColumns(fx, b, rs, colcount, cr).value.value.rowlength == rs.rowlength
    ensures AssembleColumns(fx, b, rs, colcount, cr).value.value.rowcountfp == rs.rowcountfp
    ensures AssembleColumns(fx, b, rs, colcount, cr).value.value.compression == cr.compression
  {
    var l := LayoutOf(fx.flags);
    var attrs := AttributesOf(l, b.colattr, 0).value;
    var names := NamesOf(l, b.colname, b.coltext, 0).value;
    var labels := ColumnLabels(l, b.collabs, b.coltext, colcount).value;
    ColumnsFromSpec(names, attrs, labels, colcount, 0);
  }

  /**
   * A header is assembled only from exactly one row-size and one
   * column-size subheader and at least one column-text subheader; its row
   * geometry is that of the row-size subheader, its column count that of
   * the column-size subheader, and its compression that named in the first
   * column-text subheader.
   */
  lemma AssembleFacts(fx: Fixed, subs: seq<SubHeader>)
    requires Assemble(fx, subs).Ok? && Assemble(fx, subs).value.Accepted?
    ensures |Filter(subs, RowSizeKind)| == 1 && |Filter(subs, ColSizeKind)| == 1
    ensures |Filter(subs, ColTextKind)| >= 1 && |Filter(subs, ColAttrKind)| >= 1 && |Filter(subs, ColNameKind)| >= 1
    ensures ReadRowSize(LayoutOf(fx.flags), Filter(subs, RowSizeKind)[0].raw).Ok?
    ensures ReadColCount(LayoutOf(fx.flags), Filter(subs, ColSizeKind)[0].raw)
      == Ok(Assemble(fx, subs).value.value.colcount)
    ensures Assemble(fx, subs).value.value.rowcount
      == ReadRowSize(LayoutOf(fx.flags), Filter(subs, RowSizeKind)[0].raw).value.rowcount
    ensures Assemble(fx, subs).value.value.rowlength
      == ReadRowSize(LayoutOf(fx.flags), Filter(subs, RowSizeKind)[0].raw).value.rowlength
    ensures Assemble(fx, subs).value.value.rowcountfp
      == ReadRowSize(LayoutOf(fx.flags), Filter(subs, RowSizeKind)[0].raw).value.rowcountfp
    ensures Assemble(fx, subs).value.value.colcount >= 0
    ensures |Assemble(fx, subs).value.value.cols| == Assemble(fx, subs).value.value.colcount
    ensures Assemble(fx, subs).value.value.headerlength == |fx.bytes|
    ensures Assemble(fx, subs).value.value.u64 == fx.flags.u64
    ensures Assemble(fx, subs).value.value.endian == fx.flags.endian
    ensures Assemble(fx, subs).value.value.pagesize == fx.pagesize
    ensures Assemble(fx, subs).value.value.pagecount == fx.pagecount
    ensures (Assemble(fx, subs).value.value.compression == RleCompressed)
      == (CompressionName(LayoutOf(fx.flags), Filter(subs, ColTextKind)[0].raw) == Ok(Sasyzcrl))
    ensures (CompressionValue(Assemble(fx, subs).value.value.compression) == Some(RleName))
      == (CompressionName(LayoutOf(fx.flags), Filter(subs, ColTextKind)[0].raw) == Ok(Sasyzcrl)
          || (CompressionName(LayoutOf(fx.flags), Filter(subs, ColTextKind)[0].raw) == Ok(RleName)
              && ReadRowSize(LayoutOf(fx.flags), Filter(subs, RowSizeKind)[0].raw).value.lcs <= 0))
  {
    var l := LayoutOf(fx.flags);
    var b := BucketsOf(subs);
    var rs := ReadRowSize(l, b.rowsize[0].raw).value;
    var colcount := ReadColCount(l, b.colsize[0].raw).value;
    var cr := CreatorOf(l, b.coltext[0].raw, rs.lcs, rs.lcp).value;
    assert Assemble(fx, subs) == AssembleColumns(fx, b, rs, colcount, cr);
    AssembleColumnsFacts(fx, b, rs, colcount, cr);
  }

  /** A file shorter than the 288-byte probe, or one without the magic number, has no header. */
  lemma HeaderRejections(file: seq<Byte>)
    ensures |file| < ProbeLength ==> HeaderOf(file) == Ok(Rejected(HeaderTooShort))
    ensures |file| >= ProbeLength && file[..|Magic|] != Magic ==> HeaderOf(file) == Ok(Rejected(MagicMismatch))
  {
    ProbeSpec(file);
  }

  /** An accepted header is the assembly of the fixed part and the subheaders after it. */
  lemma HeaderAssembled(file: seq<Byte>)
    requires HeaderOf(file).Ok? && HeaderOf(file).value.Accepted?
    ensures ReadFixed(file).Ok? && ReadFixed(file).value.Accepted?
    ensures |ReadFixed(file).value.value.bytes| <= |file|
    ensures SubheadersAfter(file, ReadFixed(file).value.value).Ok?
    ensures HeaderOf(file) == Assemble(ReadFixed(file).value.value, SubheadersAfter(file, ReadFixed(file).value.value).value)
  {
    FixedFacts(file);
  }

  /**
   * An accepted header comes from a file that starts with the magic
   * number; it is 64-bit exactly when byte 32 is `'3'` and byte 39 names a
   * Unix platform, and little-endian exactly when byte 37 is 1.
   */
  lemma HeaderFlags(file: seq<Byte>)
    requires HeaderOf(file).Ok? && HeaderOf(file).value.Accepted?
    ensures |file| >= ProbeLength && file[..|Magic|] == Magic
    ensures HeaderOf(file).value.value.u64 <==> file[32] == 0x33 && file[39] == 0x31
    ensures HeaderOf(file).value.value.endian == Little <==> file[37] == 0x01
  {
    HeaderAssembled(file);
    var fx := ReadFixed(file).value.value;
    HeaderKeepsFixed(fx, SubheadersAfter(file, fx).value);
    FixedFacts(file);
    var h := file[..ProbeLength];
    assert h[32] == file[32] && h[37] == file[37] && h[39] == file[39];
  }

  /**
   * Byte 35 equal to 0x33 moves the page size and page count four bytes on;
   * byte 32 equal to 0x33 widens the page count to eight bytes.
   */
  lemma HeaderPageFields(file: seq<Byte>)
    requires HeaderOf(file).Ok? && HeaderOf(file).value.Accepted?
    ensures HeaderOf(file).value.value.headerlength <= |file|
    ensures ReadInt(HeaderOf(file).value.value.endian, I, file[..HeaderOf(file).value.value.headerlength],
                    if file[35] == 0x33 then 204 else 200, 4)
      == Ok(HeaderOf(file).value.value.pagesize)
    ensures ReadInt(HeaderOf(file).value.value.endian, if HeaderOf(file).value.value.u64 then Q else I,
                    file[..HeaderOf(file).value.value.headerlength],
                    if file[35] == 0x33 then 208 else 204, if file[32] == 0x33 then 8 else 4)
      == Ok(HeaderOf(file).value.value.pagecount)
  {
    HeaderAssembled(file);
    var fx := ReadFixed(file).value.value;
    HeaderKeepsFixed(fx, SubheadersAfter(file, fx).value);
    FixedFacts(file);
    var hd := HeaderOf(file).value.value;
    var h := file[..ProbeLength];
    var fl := fx.flags;
    assert fl == FlagsOf(h);
    assert h[32] == file[32] && h[35] == file[35];
    assert PageSizeAt(fl) == (if file[35] == 0x33 then 204 else 200);
    assert PageCountAt(fl) == (if file[35] == 0x33 then 208 else 204);
    assert 4 + fl.align2 == (if file[32] == 0x33 then 8 else 4);
    assert PageCountWidth(fl) == (if hd.u64 then Q else I);
    assert fx.bytes == file[..hd.headerlength];
  }

  /** An assembled header carries the fixed header's layout, sizes and length. */
  lemma HeaderKeepsFixed(fx: Fixed, subs: seq<SubHeader>)
    requires Assemble(fx, subs).Ok? && Assemble(fx, subs).value.Accepted?
    ensures Assemble(fx, subs).value.value.headerlength == |fx.bytes|
    ensures Assemble(fx, subs).value.value.u64 == fx.flags.u64
    ensures Assemble(fx, subs).value.value.endian == fx.flags.endian
    ensures Assemble(fx, subs).value.value.pagesize == fx.pagesize
    ensures Assemble(fx, subs).value.value.pagecount == fx.pagecount
  {
    AssembleFacts(fx, subs);
  }

  /**
   * The header length of an accepted header is the file's own
   * header-length field, within the file, and 8192 for a 64-bit file; the
   * page count is positive.
   */
  lemma HeaderSizes(file: seq<Byte>)
    requires HeaderOf(file).Ok? && HeaderOf(file).value.Accepted?
    ensures |file| >= ProbeLength
    ensures ProbeLength <= HeaderOf(file).value.value.headerlength <= |file|
    ensures ReadInt(HeaderOf(file).value.value.endian, I, file[..ProbeLength],
                    LengthAt(FlagsOf(file[..ProbeLength])), 4)
      == Ok(HeaderOf(file).value.value.headerlength)
    ensures HeaderOf(file).value.value.u64 ==> HeaderOf(file).value.value.headerlength == 8192
    ensures HeaderOf(file).value.value.pagecount >= 1
  {
    HeaderAssembled(file);
    var fx := ReadFixed(file).value.value;
    AssembleFacts(fx, SubheadersAfter(file, fx).value);
    FixedFacts(file);
  }

  /**
   * The pages after an accepted header hold exactly one row-size and one
   * column-size subheader, and the header has one column per column
   * attribute.
   */
  lemma HeaderSubheaders(file: seq<Byte>)
    requires HeaderOf(file).Ok? && HeaderOf(file).value.Accepted?
    ensures HeaderOf(file).value.value.headerlength <= |file|
    ensures Subheaders(Layout(HeaderOf(file).value.value.u64, HeaderOf(file).value.value.endian), file,
                       HeaderOf(file).value.value.headerlength, HeaderOf(file).value.value.pagecount,
                       HeaderOf(file).value.value.pagesize).Ok?
    ensures |Filter(Subheaders(Layout(HeaderOf(file).value.value.u64, HeaderOf(file).value.value.endian), file,
                               HeaderOf(file).value.value.headerlength, HeaderOf(file).value.value.pagecount,
                               HeaderOf(file).value.value.pagesize).value, RowSizeKind)| == 1
    ensures |Filter(Subheaders(Layout(HeaderOf(file).value.value.u64, HeaderOf(file).value.value.endian), file,
                               HeaderOf(file).value.value.headerlength, HeaderOf(file).value.value.pagecount,
                               HeaderOf(file).value.value.pagesize).value, ColSizeKind)| == 1
    ensures HeaderOf(file).value.value.colcount >= 0
    ensures |HeaderOf(file).value.value.cols| == HeaderOf(file).value.value.colcount
  {
    HeaderAssembled(file);
    var fx := ReadFixed(file).value.value;
    AssembleFacts(fx, SubheadersAfter(file, fx).value);
  }
}
