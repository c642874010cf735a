/**
 * The reader object and its row generator (`SAS7BDAT.__init__`,
 * `readData`): opening a file reads its header and records the layout the
 * header's flag bytes give; reading the data yields the column names, then
 * one row per stored record of every data, mix (and, when the header's
 * compression value is `'RLE'`, meta) page, each column cut out of the page at the row's
 * start plus the column's offset.
 */
module Reader {
  import opened Bytes
  import opened Outcomes
  import opened Fields
  import opened Pages
  import opened Columns
  import opened Header
  import opened Metadata
  import Decompress

  // ---------------------------------------------------------------------
  // Where rows start

  /**
   * The page types whose rows are read: mix and data pages, and meta pages
   * when the header's compression value is `'RLE'` — which a table whose
   * compression name is `'RLE'` itself also gets when it has no creator
   * text.
   */
  predicate Selected(h: HeaderInfo, ptype: int)
    ensures Selected(h, ptype) <==>
      ptype in PageMix || ptype == PageData ||
      (ptype == PageMeta && (h.compression == RleCompressed || h.compression == OtherCompression(RleName)))
  {
    IsMixData(ptype) || (ptype == PageMeta && CompressionValue(h.compression) == Some(RleName))
  }

  /** The end of a mix page's subheader pointer table: `subheadercount` pointers after the page header. */
  function PointerTableEnd(u64: bool, subheadercount: int): int {
    if u64 then 40 + subheadercount * 24 else 24 + subheadercount * 12
  }

  /** `base += base % 8`, as the reader writes it. */
  function Bump(base: int): int { base + base % 8 }

  /**
   * `base + base % 8` is a multiple of eight exactly when `base` is a
   * multiple of four: it is not a rounding up to eight in general.
   */
  lemma BumpAligns(base: int)
    ensures Bump(base) % 8 == 0 <==> base % 4 == 0
    ensures base % 4 == 0 ==> base <= Bump(base) < base + 8
  {
    var q, r := base / 8, base % 8;
    assert base == 8 * q + r;
    if r == 0 {
      assert Bump(base) == 8 * q;
    } else if r == 1 {
      assert Bump(base) == 8 * q + 2;
    } else if r == 2 {
      assert Bump(base) == 8 * q + 4;
    } else if r == 3 {
      assert Bump(base) == 8 * q + 6;
    } else if r == 4 {
      assert Bump(base) == 8 * (q + 1);
    } else if r == 5 {
      assert Bump(base) == 8 * (q + 1) + 2;
    } else if r == 6 {
      assert Bump(base) == 8 * (q + 1) + 4;
    } else {
      assert Bump(base) == 8 * (q + 1) + 6;
    }
  }

  lemma QuadrupleMod(m: int)
    ensures (4 * m) % 4 == 0
  {
  }

  /**
   * The pointer table of a mix page always ends on a multiple of four, so
   * on the pages the reader meets the bump is the smallest multiple of
   * eight at or after the table's end.
   */
  lemma MixBaseAligned(u64: bool, subheadercount: int)
    ensures Bump(PointerTableEnd(u64, subheadercount)) % 8 == 0
    ensures PointerTableEnd(u64, subheadercount) <= Bump(PointerTableEnd(u64, subheadercount))
              < PointerTableEnd(u64, subheadercount) + 8
  {
    var m := if u64 then 10 + 6 * subheadercount else 6 + 3 * subheadercount;
    assert PointerTableEnd(u64, subheadercount) == 4 * m;
    QuadrupleMod(m);
    BumpAligns(4 * m);
  }

  /** The bytes rows are cut from, how many rows the page claims, and where the first one starts. */
  datatype Geometry = Geometry(data: seq<Byte>, rowcount: int, base: int)

  /**
   * A meta page is decompressed and its rows follow the pointer table; a
   * mix page holds the number of rows per mix page recorded in the header,
   * after the pointer table bumped as above; a data page stores its own row
   * count (a signed 16-bit field) and its rows start after the page header.
   */
  function GeometryOf(h: HeaderInfo, page: Page): (r: Result<Geometry>)
    ensures r.Raise? ==> r.exc == StructError && page.ptype != PageMeta && page.ptype !in PageMix
  {
    if page.ptype == PageMeta then
      Ok(Geometry(Decompress.Decompressed(page.data), h.rowcountfp, 129 + page.subheadercount * 24))
    else if page.ptype in PageMix then
      Ok(Geometry(page.data, h.rowcountfp, Bump(PointerTableEnd(h.u64, page.subheadercount))))
    else
      var n :- ReadInt(h.endian, H, page.data, if h.u64 then 34 else 18, 2);
      Ok(Geometry(page.data, n, if h.u64 then 40 else 24))
  }

  /** A page never yields more rows than the table has. */
  function RowsOnPage(h: HeaderInfo, g: Geometry): (n: int)
    ensures n <= h.rowcount && n <= g.rowcount
    ensures n == h.rowcount || n == g.rowcount
  {
    if g.rowcount > h.rowcount then h.rowcount else g.rowcount
  }

  // ---------------------------------------------------------------------
  // Cells and rows

  /** The bytes of a column in the row starting at `base`. */
  function CellBytes(data: seq<Byte>, base: int, attr: ColumnAttr): seq<Byte> {
    Slice(data, base + attr.offset, base + attr.offset + attr.length)
  }

  /** A character cell is its text with NULs and surrounding whitespace removed; a numeric cell is its 8-byte double. */
  function CellOf(e: Endian, attr: ColumnAttr, data: seq<Byte>, base: int): (r: Result<Value>)
    ensures r.Raise? ==> r.exc == StructError
  {
    var raw := CellBytes(data, base, attr);
    if attr.ctype == CharacterColumn then
      var v :- ReadStr(e, raw, 0, attr.length);
      Ok(Text(StripSpaces(v)))
    else ReadVal(e, Numeric, raw, 0, attr.length)
  }

  /**
   * The cells of columns `i` onwards, `cell` decoding one column: a column
   * of non-positive length is passed over, and the first cell that cannot
   * be decoded ends the row.
   */
  function CellsFrom(cell: ColumnAttr -> Result<Value>, cols: seq<Column>, i: nat): seq<Value>
    requires i <= |cols|
    decreases |cols| - i
  {
    if i == |cols| then []
    else if cols[i].attr.length <= 0 then CellsFrom(cell, cols, i + 1)
    else match cell(cols[i].attr)
      case Raise(_) => []
      case Ok(v) => [v] + CellsFrom(cell, cols, i + 1)
  }

  /** The cell decoder of the row starting at `base`. */
  function CellFn(e: Endian, data: seq<Byte>, base: int): (f: ColumnAttr -> Result<Value>)
    ensures forall attr :: f(attr) == CellOf(e, attr, data, base)
  {
    attr => CellOf(e, attr, data, base)
  }

  /** The cell decoders of a page, one per record start. */
  function CellAt(e: Endian, data: seq<Byte>): int -> (ColumnAttr -> Result<Value>) {
    base => CellFn(e, data, base)
  }

  /** The row decoder built from a page's cell decoders and the columns. */
  function RowMaker(cellAt: int -> (ColumnAttr -> Result<Value>), cols: seq<Column>): (f: int -> seq<Value>)
    ensures forall base :: f(base) == CellsFrom(cellAt(base), cols, 0)
  {
    base => CellsFrom(cellAt(base), cols, 0)
  }

  /** The row starting at `base`. */
  function RowOf(h: HeaderInfo, data: seq<Byte>, base: int): seq<Value> {
    CellsFrom(CellFn(h.endian, data, base), h.cols, 0)
  }

  /** The row decoder of a page. */
  function RowFn(h: HeaderInfo, data: seq<Byte>): (f: int -> seq<Value>)
    ensures forall base :: f(base) == RowOf(h, data, base)
  {
    RowMaker(CellAt(h.endian, data), h.cols)
  }

  /** Where the `k`-th record of a page starts: `k` record lengths after the first. */
  function RowStart(base: int, rowlength: int, k: nat): int {
    if k == 0 then base else RowStart(base, rowlength, k - 1) + rowlength
  }

  /** The `k`-th record starts `k * rowlength` bytes after the first. */
  lemma {:induction false} RowStartIs(base: int, rowlength: int, k: nat)
    ensures RowStart(base, rowlength, k) == base + k * rowlength
  {
    if k > 0 {
      RowStartIs(base, rowlength, k - 1);
      assert (k - 1) * rowlength + rowlength == k * rowlength;
    }
  }

  /** The record after the first is where the count starts again. */
  lemma {:induction false} RowStartShift(base: int, rowlength: int, k: nat)
    ensures RowStart(base + rowlength, rowlength, k) == RowStart(base, rowlength, k + 1)
  {
    if k > 0 {
      RowStartShift(base, rowlength, k - 1);
    }
  }

  /**
   * The rows yielded from `n` records starting at `base`, `rowlength` bytes
   * apart, `row` decoding one record; empty rows are not yielded.
   */
  function RowsFrom(row: int -> seq<Value>, base: int, rowlength: int, n: int): seq<seq<Value>>
    decreases n
  {
    if n <= 0 then []
    else (if |row(base)| > 0 then [row(base)] else []) + RowsFrom(row, base + rowlength, rowlength, n - 1)
  }

  /** The rows of one selected page, or the exception reading its row count raised. */
  function PageRows(h: HeaderInfo, page: Page): Result<seq<seq<Value>>> {
    var g :- GeometryOf(h, page);
    Ok(RowsFrom(RowFn(h, g.data), g.base, h.rowlength, RowsOnPage(h, g)))
  }

  /** Rows yielded so far, and the exception that ended the generator, if any. */
  datatype RowsOut = RowsOut(rows: seq<seq<Value>>, error: Option<Exception>)

  /** `Selected` for the header `h`, as a function value of the page type. */
  function SelectedFn(h: HeaderInfo): (f: int -> bool)
    ensures forall t :: f(t) == Selected(h, t)
  {
    t => Selected(h, t)
  }

  /** `PageRows` for the header `h`, as a function value of the page. */
  function PageRowsFn(h: HeaderInfo): (f: Page -> Result<seq<seq<Value>>>)
    ensures forall p :: f(p) == PageRows(h, p)
  {
    p => PageRows(h, p)
  }

  /**
   * The rows of pages `j` onwards, `selected` telling which page types are
   * read and `pageRows` reading one page; pages of other types are passed
   * over and the first page that raises ends the generator.
   */
  function RowsOf(selected: int -> bool, pageRows: Page -> Result<seq<seq<Value>>>, pages: seq<Page>, j: nat): RowsOut
    requires j <= |pages|
    decreases |pages| - j
  {
    if j == |pages| then RowsOut([], None)
    else if !selected(pages[j].ptype) then RowsOf(selected, pageRows, pages, j + 1)
    else match pageRows(pages[j])
      case Raise(e) => RowsOut([], Some(e))
      case Ok(rs) =>
        var rest := RowsOf(selected, pageRows, pages, j + 1);
        RowsOut(rs + rest.rows, rest.error)
  }

  /** Everything `readData` yields: the column names (absent when it fails at once), the rows, and how it ended. */
  datatype DataStream = DataStream(names: Option<seq<seq<Byte>>>, rows: seq<seq<Value>>, error: Option<Exception>)

  function NamesOfColumns(cols: seq<Column>): (r: seq<seq<Byte>>)
    ensures |r| == |cols|
    ensures forall i :: 0 <= i < |cols| ==> r[i] == cols[i].name
  {
    if |cols| == 0 then [] else NamesOfColumns(cols[..|cols| - 1]) + [cols[|cols| - 1].name]
  }

  /** A cursor past the end of the file reads nothing, as one at the end does. */
  function DataStart(file: seq<Byte>, h: HeaderInfo): nat {
    if h.headerlength <= |file| then h.headerlength else |file|
  }

  /**
   * `readData` run to completion. Without a header the first access to it
   * raises AttributeError before anything is yielded; otherwise the names
   * come first, then the rows of the pages after the header, until a page
   * fails to parse or a data page's row count cannot be read.
   */
  function DataOf(file: seq<Byte>, header: Option<HeaderInfo>): (r: DataStream)
    ensures header.None? ==> r.names.None? && r.rows == [] && r.error == Some(AttributeError)
    ensures header.Some? ==>
      && r.names.Some?
      && |r.names.value| == |header.value.cols|
      && forall i :: 0 <= i < |header.value.cols| ==> r.names.value[i] == header.value.cols[i].name
  {
    match header
    case None => DataStream(None, [], Some(AttributeError))
    case Some(h) =>
      var ps := Pages.Pages(Layout(h.u64, h.endian), file, DataStart(file, h), h.pagecount, h.pagesize);
      var out := RowsOf(SelectedFn(h), PageRowsFn(h), ps.pages, 0);
      DataStream(Some(NamesOfColumns(h.cols)), out.rows, if out.error.Some? then out.error else ps.error)
  }

  // ---------------------------------------------------------------------
  // Properties of the rows

  /** A column's cell is decoded from exactly the bytes `[base + offset, base + offset + length)` of the page. */
  lemma CellWindow(e: Endian, attr: ColumnAttr, data: seq<Byte>, base: int)
    requires attr.length > 0 && 0 <= base + attr.offset && base + attr.offset + attr.length <= |data|
    ensures CellBytes(data, base, attr) == data[base + attr.offset..base + attr.offset + attr.length]
    ensures attr.ctype == CharacterColumn ==>
      CellOf(e, attr, data, base) == Ok(Text(StripSpaces(Strip(CellBytes(data, base, attr), Nul))))
    ensures attr.ctype == NumericColumn ==>
      (CellOf(e, attr, data, base).Ok? <==> attr.length <= 8)
  {
    var raw := CellBytes(data, base, attr);
    SliceNonNegative(data, base + attr.offset, base + attr.offset + attr.length);
    assert Slice(raw, 0, attr.length) == raw;
    if attr.ctype == NumericColumn && attr.length < 8 {
      assert |PadNumeric(e, raw, attr.length)| == 8;
    }
  }

  /** A row has at most one cell per column. */
  lemma {:induction false} CellsFromLength(cell: ColumnAttr -> Result<Value>, cols: seq<Column>, i: nat)
    requires i <= |cols|
    ensures |CellsFrom(cell, cols, i)| <= |cols| - i
    decreases |cols| - i
  {
    if i < |cols| {
      CellsFromLength(cell, cols, i + 1);
    }
  }

  /**
   * When every column has a positive length and decodes, there is one cell
   * per column, and cell `k` is column `k`'s.
   */
  lemma {:induction false} CellsFromSpec(cell: ColumnAttr -> Result<Value>, cols: seq<Column>, i: nat)
    requires i <= |cols|
    requires forall k :: i <= k < |cols| ==> cols[k].attr.length > 0 && cell(cols[k].attr).Ok?
    ensures |CellsFrom(cell, cols, i)| == |cols| - i
    ensures forall k :: i <= k < |cols| ==> CellsFrom(cell, cols, i)[k - i] == cell(cols[k].attr).value
    decreases |cols| - i
  {
    if i < |cols| {
      CellsFromSpec(cell, cols, i + 1);
      var rest := CellsFrom(cell, cols, i + 1);
      var all := CellsFrom(cell, cols, i);
      assert all == [cell(cols[i].attr).value] + rest;
      forall k | i < k < |cols|
        ensures all[k - i] == cell(cols[k].attr).value
      {
        assert all[k - i] == rest[k - (i + 1)];
      }
    }
  }

  /** A column that cannot be decoded ends the row: neither it nor any later column contributes a cell. */
  lemma {:induction false} CellsStopAtFailure(cell: ColumnAttr -> Result<Value>, cols: seq<Column>, i: nat, k: nat)
    requires i <= k < |cols|
    requires cols[k].attr.length > 0 && cell(cols[k].attr).Raise?
    ensures |CellsFrom(cell, cols, i)| <= k - i
    decreases k - i
  {
    if i < k {
      CellsStopAtFailure(cell, cols, i + 1, k);
    }
  }

  /** At most `n` rows come from `n` records, and none of them is empty. */
  lemma {:induction false} RowsFromSpec(row: int -> seq<Value>, base: int, rowlength: int, n: int)
    ensures |RowsFrom(row, base, rowlength, n)| <= (if n < 0 then 0 else n)
    ensures forall r :: r in RowsFrom(row, base, rowlength, n) ==> |r| > 0
    decreases n
  {
    if n > 0 {
      RowsFromSpec(row, base + rowlength, rowlength, n - 1);
      var rest := RowsFrom(row, base + rowlength, rowlength, n - 1);
      assert RowsFrom(row, base, rowlength, n) == (if |row(base)| > 0 then [row(base)] else []) + rest;
    } else {
      assert RowsFrom(row, base, rowlength, n) == [];
    }
  }

  /**
   * The indices of the records among `n` whose rows are not empty, in record
   * order, the record at `base` being record `k`.
   */
  function KeptRecords(row: int -> seq<Value>, base: int, rowlength: int, n: int, k: nat): (r: seq<nat>)
    decreases n
  {
    if n <= 0 then []
    else (if |row(base)| > 0 then [k] else []) + KeptRecords(row, base + rowlength, rowlength, n - 1, k + 1)
  }

  /** One index per row yielded. */
  lemma {:induction false} KeptRecordsLength(row: int -> seq<Value>, base: int, rowlength: int, n: int, k: nat)
    ensures |KeptRecords(row, base, rowlength, n, k)| == |RowsFrom(row, base, rowlength, n)|
    decreases n
  {
    if n > 0 {
      KeptRecordsLength(row, base + rowlength, rowlength, n - 1, k + 1);
    }
  }

  /** The indices kept are among the `n` records read, in increasing order. */
  lemma {:induction false} KeptRecordsOrder(row: int -> seq<Value>, base: int, rowlength: int, n: int, k: nat)
    ensures forall i :: 0 <= i < |KeptRecords(row, base, rowlength, n, k)| ==>
      k <= KeptRecords(row, base, rowlength, n, k)[i] < k + n
    ensures forall i, j :: 0 <= i < j < |KeptRecords(row, base, rowlength, n, k)| ==>
      KeptRecords(row, base, rowlength, n, k)[i] < KeptRecords(row, base, rowlength, n, k)[j]
    decreases n
  {
    if n > 0 {
      var rest := KeptRecords(row, base + rowlength, rowlength, n - 1, k + 1);
      KeptRecordsOrder(row, base + rowlength, rowlength, n - 1, k + 1);
      if |row(base)| > 0 {
        var kept := KeptRecords(row, base, rowlength, n, k);
        assert kept == [k] + rest;
        forall i | 1 <= i < |kept|
          ensures k < kept[i] == rest[i - 1]
        {
        }
      }
    } else {
      assert KeptRecords(row, base, rowlength, n, k) == [];
    }
  }

  /**
   * Row `i` yielded is the row of record `KeptRecords(..)[i]`, where record
   * `k` (the one at `base`) starts `k` record lengths after `origin`.
   */
  lemma {:induction false} RowsFromOrigin(row: int -> seq<Value>, origin: int, base: int, rowlength: int, n: int, k: nat, i: nat)
    requires base == RowStart(origin, rowlength, k)
    requires i < |RowsFrom(row, base, rowlength, n)|
    ensures i < |KeptRecords(row, base, rowlength, n, k)|
    ensures RowsFrom(row, base, rowlength, n)[i] == row(RowStart(origin, rowlength, KeptRecords(row, base, rowlength, n, k)[i]))
    decreases n
  {
    KeptRecordsLength(row, base, rowlength, n, k);
    assert n > 0;
    var next := base + rowlength;
    var all, kept := RowsFrom(row, base, rowlength, n), KeptRecords(row, base, rowlength, n, k);
    var rest, restKept := RowsFrom(row, next, rowlength, n - 1), KeptRecords(row, next, rowlength, n - 1, k + 1);
    if |row(base)| > 0 {
      assert all == [row(base)] + rest && kept == [k] + restKept;
      if i == 0 {
        assert all[0] == row(base) && kept[0] == k;
      } else {
        RowsFromOrigin(row, origin, next, rowlength, n - 1, k + 1, i - 1);
        assert all[i] == rest[i - 1] && kept[i] == restKept[i - 1];
      }
    } else {
      assert all == rest && kept == restKept;
      RowsFromOrigin(row, origin, next, rowlength, n - 1, k + 1, i);
    }
  }

  /**
   * When no record comes out empty, the `k`-th row yielded is the record
   * starting `k * rowlength` bytes after the first.
   */
  lemma {:induction false} RowsFromDense(row: int -> seq<Value>, base: int, rowlength: int, n: nat)
    requires forall k :: 0 <= k < n ==> |row(RowStart(base, rowlength, k))| > 0
    ensures |RowsFrom(row, base, rowlength, n)| == n
    ensures forall k :: 0 <= k < n ==> RowsFrom(row, base, rowlength, n)[k] == row(RowStart(base, rowlength, k))
    decreases n
  {
    if n > 0 {
      var next := base + rowlength;
      forall k: nat | k < n - 1
        ensures |row(RowStart(next, rowlength, k))| > 0
      {
        RowStartShift(base, rowlength, k);
      }
      RowsFromDense(row, base + rowlength, rowlength, n - 1);
      assert row(base) == row(RowStart(base, rowlength, 0));
      var rest := RowsFrom(row, base + rowlength, rowlength, n - 1);
      assert RowsFrom(row, base, rowlength, n) == [row(base)] + rest;
      forall k | 1 <= k < n
        ensures RowsFrom(row, base, rowlength, n)[k] == row(RowStart(base, rowlength, k))
      {
        RowStartShift(base, rowlength, k - 1);
      }
    }
  }

  /**
   * Where the rows of each kind of selected page start and what they are
   * read from, and that a page yields no more rows than the table has.
   */
  lemma PageGeometry(h: HeaderInfo, page: Page)
    requires GeometryOf(h, page).Ok?
    ensures page.ptype == PageMeta ==>
      GeometryOf(h, page).value == Geometry(Decompress.Decompressed(page.data), h.rowcountfp, 129 + 24 * page.subheadercount)
    ensures page.ptype in PageMix ==>
      && GeometryOf(h, page).value.data == page.data
      && GeometryOf(h, page).value.rowcount == h.rowcountfp
      && GeometryOf(h, page).value.base % 8 == 0
      && PointerTableEnd(h.u64, page.subheadercount) <= GeometryOf(h, page).value.base
      && GeometryOf(h, page).value.base < PointerTableEnd(h.u64, page.subheadercount) + 8
    ensures page.ptype == PageData ==>
      && GeometryOf(h, page).value.data == page.data
      && GeometryOf(h, page).value.base == (if h.u64 then 40 else 24)
      && ReadInt(h.endian, H, page.data, if h.u64 then 34 else 18, 2) == Ok(GeometryOf(h, page).value.rowcount)
    ensures |PageRows(h, page).value| <= (if h.rowcount < 0 then 0 else h.rowcount)
  {
    var g := GeometryOf(h, page).value;
    MixBaseAligned(h.u64, page.subheadercount);
    RowsFromSpec(RowFn(h, g.data), g.base, h.rowlength, RowsOnPage(h, g));
  }

  /** A selected page that reads yields no more rows than the table has. */
  lemma PageRowsBound(h: HeaderInfo, page: Page)
    requires PageRows(h, page).Ok?
    ensures |PageRows(h, page).value| <= (if h.rowcount < 0 then 0 else h.rowcount)
  {
    PageGeometry(h, page);
  }

  /**
   * Row `i` yielded is the row decoded from record `KeptRecords(..)[i]`,
   * which starts that many record lengths after the first and is among the
   * `n` records read.
   */
  lemma RecordOrigin(row: int -> seq<Value>, base: int, rowlength: int, n: int, i: nat)
    requires i < |RowsFrom(row, base, rowlength, n)|
    ensures i < |KeptRecords(row, base, rowlength, n, 0)| && KeptRecords(row, base, rowlength, n, 0)[i] < n
    ensures RowsFrom(row, base, rowlength, n)[i] == row(base + KeptRecords(row, base, rowlength, n, 0)[i] * rowlength)
  {
    RowsFromOrigin(row, base, base, rowlength, n, 0, i);
    KeptRecordsOrder(row, base, rowlength, n, 0);
    RowStartIs(base, rowlength, KeptRecords(row, base, rowlength, n, 0)[i]);
  }

  /**
   * Pages of other types yield nothing, and when no page yields more than
   * `cap` rows, pages `j` onwards yield no more than `cap` rows each.
   */
  lemma {:induction false} RowsOfBound(selected: int -> bool, pageRows: Page -> Result<seq<seq<Value>>>, pages: seq<Page>, j: nat, cap: nat)
    requires j <= |pages|
    requires forall p :: pageRows(p).Ok? ==> |pageRows(p).value| <= cap
    ensures |RowsOf(selected, pageRows, pages, j).rows| <= (|pages| - j) * cap
    ensures (forall k :: j <= k < |pages| ==> !selected(pages[k].ptype)) ==> RowsOf(selected, pageRows, pages, j) == RowsOut([], None)
    decreases |pages| - j
  {
    if j < |pages| {
      RowsOfBound(selected, pageRows, pages, j + 1, cap);
      assert (|pages| - j) * cap == (|pages| - (j + 1)) * cap + cap;
    }
  }

  /** Over a whole file: no data page yields more rows than the table has. */
  lemma DataRowsBound(file: seq<Byte>, h: HeaderInfo)
    ensures |DataOf(file, Some(h)).rows| <=
      |Pages.Pages(Layout(h.u64, h.endian), file, DataStart(file, h), h.pagecount, h.pagesize).pages| * (if h.rowcount < 0 then 0 else h.rowcount)
  {
    var cap: nat := if h.rowcount < 0 then 0 else h.rowcount;
    var f := PageRowsFn(h);
    forall p | f(p).Ok?
      ensures |f(p).value| <= cap
    {
      PageRowsBound(h, p);
    }
    var ps := Pages.Pages(Layout(h.u64, h.endian), file, DataStart(file, h), h.pagecount, h.pagesize);
    RowsOfBound(SelectedFn(h), f, ps.pages, 0, cap);
  }

  /** One page of the generator: passed over, ending it, or yielding its rows before the rest. */
  lemma RowsOfStep(selected: int -> bool, pageRows: Page -> Result<seq<seq<Value>>>, pages: seq<Page>, j: nat)
    requires j < |pages|
    ensures !selected(pages[j].ptype) ==> RowsOf(selected, pageRows, pages, j) == RowsOf(selected, pageRows, pages, j + 1)
    ensures selected(pages[j].ptype) && pageRows(pages[j]).Raise? ==>
      RowsOf(selected, pageRows, pages, j) == RowsOut([], Some(pageRows(pages[j]).exc))
    ensures selected(pages[j].ptype) && pageRows(pages[j]).Ok? ==>
      RowsOf(selected, pageRows, pages, j) ==
        RowsOut(pageRows(pages[j]).value + RowsOf(selected, pageRows, pages, j + 1).rows, RowsOf(selected, pageRows, pages, j + 1).error)
  {
  }

  /**
   * `readData`'s page filter for a header `h`: a page whose type is not
   * selected is passed over; a mix or data page, or a meta page when the
   * compression value is `'RLE'`, yields its rows or ends the generator.
   * A meta page never raises here, so in such a file its rows come first.
   */
  lemma PageSelection(h: HeaderInfo, pages: seq<Page>, j: nat)
    requires j < |pages|
    ensures var p, out, next := pages[j], RowsOf(SelectedFn(h), PageRowsFn(h), pages, j), RowsOf(SelectedFn(h), PageRowsFn(h), pages, j + 1);
      && (!Selected(h, p.ptype) ==> out == next)
      && (Selected(h, p.ptype) && PageRows(h, p).Raise? ==> out == RowsOut([], Some(PageRows(h, p).exc)))
      && (Selected(h, p.ptype) && PageRows(h, p).Ok? ==> out == RowsOut(PageRows(h, p).value + next.rows, next.error))
    ensures var p, out, next := pages[j], RowsOf(SelectedFn(h), PageRowsFn(h), pages, j), RowsOf(SelectedFn(h), PageRowsFn(h), pages, j + 1);
      p.ptype == PageMeta && h.compression in {RleCompressed, OtherCompression(RleName)} ==>
        PageRows(h, p).Ok? && out == RowsOut(PageRows(h, p).value + next.rows, next.error)
  {
    RowsOfStep(SelectedFn(h), PageRowsFn(h), pages, j);
  }

  // ---------------------------------------------------------------------
  // The generator, step by step

  /** The column loop of one row, with its `try`/`except: break`. */
  method ReadRow(cell: ColumnAttr -> Result<Value>, cols: seq<Column>) returns (row: seq<Value>)
    ensures row == CellsFrom(cell, cols, 0)
  {
    row := [];
    var i := 0;
    while i < |cols|
      invariant i <= |cols|
      invariant row + CellsFrom(cell, cols, i) == CellsFrom(cell, cols, 0)
    {
      if cols[i].attr.length > 0 {
        var v := cell(cols[i].attr);
        if v.Raise? {
          assert row == CellsFrom(cell, cols, 0);
          return;
        }
        assert CellsFrom(cell, cols, i) == [v.value] + CellsFrom(cell, cols, i + 1);
        row := row + [v.value];
      }
      i := i + 1;
    }
    assert row == row + [];
  }

  /** The record loop of one page: `n` records, `rowlength` bytes apart, non-empty rows kept. */
  method ReadRows(cellAt: int -> (ColumnAttr -> Result<Value>), cols: seq<Column>, base0: int, rowlength: int, n: int)
    returns (rows: seq<seq<Value>>)
    ensures rows == RowsFrom(RowMaker(cellAt, cols), base0, rowlength, n)
  {
    ghost var row := RowMaker(cellAt, cols);
    rows := [];
    var base := base0;
    var k := 0;
    while k < n
      invariant rows + RowsFrom(row, base, rowlength, n - k) == RowsFrom(row, base0, rowlength, n)
    {
      var cells := ReadRow(cellAt(base), cols);
      var kept := if |cells| > 0 then [cells] else [];
      RowsStep(row, base, rowlength, n - k, rows, kept);
      rows := rows + kept;
      base := base + rowlength;
      k := k + 1;
    }
    assert rows == rows + [];
  }

  /** One pass of the record loop. */
  lemma RowsStep(row: int -> seq<Value>, base: int, rowlength: int, n: int, rows: seq<seq<Value>>, kept: seq<seq<Value>>)
    requires n > 0 && kept == (if |row(base)| > 0 then [row(base)] else [])
    ensures rows + RowsFrom(row, base, rowlength, n) == (rows + kept) + RowsFrom(row, base + rowlength, rowlength, n - 1)
  {
  }

  /** Where the rows of a selected page are and how many it claims, decompressing a meta page. */
  method ReadGeometry(h: HeaderInfo, page: Page) returns (r: Result<Geometry>)
    ensures r == GeometryOf(h, page)
  {
    if page.ptype == PageMeta {
      var data := Decompress.Uncompress(page.data);
      return Ok(Geometry(data, h.rowcountfp, 129 + page.subheadercount * 24));
    } else if page.ptype in PageMix {
      var base := PointerTableEnd(h.u64, page.subheadercount);
      base := base + base % 8;
      return Ok(Geometry(page.data, h.rowcountfp, base));
    }
    var stored := ReadInt(h.endian, H, page.data, if h.u64 then 34 else 18, 2);
    if stored.Raise? {
      return Raise(stored.exc);
    }
    r := Ok(Geometry(page.data, stored.value, if h.u64 then 40 else 24));
  }

  /** One selected page: its geometry, the row count capped at the table's, then its records. */
  method ReadPageRows(h: HeaderInfo, page: Page) returns (r: Result<seq<seq<Value>>>)
    ensures r == PageRows(h, page)
  {
    var g := ReadGeometry(h, page);
    if g.Raise? {
      return Raise(g.exc);
    }
    var count := g.value.rowcount;
    if count > h.rowcount {
      count := h.rowcount;
    }
    var rows := ReadRows(CellAt(h.endian, g.value.data), h.cols, g.value.base, h.rowlength, count);
    r := Ok(rows);
  }

  // ---------------------------------------------------------------------
  // The reader object

  class SAS7BDAT {
    /** The contents of the file at the reader's path. */
    const file: seq<Byte>
    /** `self.u64` and `self.endian`, which exist once the header's flag bytes have been read. */
    var layout: Option<Layout>
    /** `self.header`: `None` when the header was rejected. */
    var header: Option<HeaderInfo>

    /** The reader's state after `__init__`: the layout of the flag bytes and the header, as far as they were read. */
    ghost predicate Valid()
      reads this
    {
      && HeaderOf(file).Ok?
      && header == AcceptedHeader(HeaderOf(file).value)
      && layout == LayoutOfProbe(file)
      && LayoutAgrees()
    }

    /** When there is a header, `self.u64` and `self.endian` are the header's. */
    predicate LayoutAgrees()
      reads this
    {
      header.Some? ==> layout == Some(Layout(header.value.u64, header.value.endian))
    }

    constructor Blank(file: seq<Byte>)
      ensures this.file == file && layout == None && header == None
    {
      this.file := file;
      layout := None;
      header := None;
    }

    /** `self.header = self._readHeader()`, which sets `self.u64` and `self.endian` on the way. */
    method LoadHeader() returns (r: Result<Verdict<HeaderInfo>>)
      modifies this
      ensures r == HeaderOf(file)
      ensures layout == LayoutOfProbe(file)
      ensures r.Ok? ==> header == AcceptedHeader(r.value)
      ensures r.Raise? ==> header == old(header)
    {
      layout := LayoutOfProbe(file);
      r := ReadHeader(file);
      if r.Ok? {
        header := AcceptedHeader(r.value);
      }
    }

    /** `SAS7BDAT(path)`: the reader, or the exception reading its header raised. */
    static method Open(file: seq<Byte>) returns (r: Result<SAS7BDAT>)
      ensures r.Ok? <==> HeaderOf(file).Ok?
      ensures r.Raise? ==> r.exc == HeaderOf(file).exc
      ensures r.Ok? ==> fresh(r.value) && r.value.file == file && r.value.Valid()
    {
      var reader := new SAS7BDAT.Blank(file);
      var loaded := reader.LoadHeader();
      if loaded.Raise? {
        return Raise(loaded.exc);
      }
      if loaded.value.Accepted? {
        HeaderLayout(file);
      }
      r := Ok(reader);
    }

    /** `readData` run to completion on an opened reader. */
    method ReadData() returns (out: DataStream)
      requires LayoutAgrees()
      ensures out == DataOf(file, header)
    {
      if header.None? {
        return DataStream(None, [], Some(AttributeError));
      }
      var h := header.value;
      var names := CollectNames(h.cols);
      var ps := ReadPages(layout.value, file, DataStart(file, h), h.pagecount, h.pagesize);
      var rows := ReadAllRows(h, ps.pages);
      out := DataStream(Some(names), rows.rows, if rows.error.Some? then rows.error else ps.error);
    }
  }

  /** The page loop of `readData`: the rows of every selected page, until one raises. */
  method ReadAllRows(h: HeaderInfo, pages: seq<Page>) returns (out: RowsOut)
    ensures out == RowsOf(SelectedFn(h), PageRowsFn(h), pages, 0)
  {
    var sel, pr := SelectedFn(h), PageRowsFn(h);
    var rows: seq<seq<Value>> := [];
    var j := 0;
    while j < |pages|
      invariant j <= |pages|
      invariant RowsOf(sel, pr, pages, 0).rows == rows + RowsOf(sel, pr, pages, j).rows
      invariant RowsOf(sel, pr, pages, 0).error == RowsOf(sel, pr, pages, j).error
    {
      var page := pages[j];
      RowsOfStep(sel, pr, pages, j);
      if Selected(h, page.ptype) {
        var got := ReadPageRows(h, page);
        assert got == pr(pages[j]);
        if got.Raise? {
          return RowsOut(rows, Some(got.exc));
        }
        RowsOfTake(sel, pr, pages, j, rows);
        rows := rows + got.value;
      }
      j := j + 1;
    }
    out := RowsOut(rows, None);
  }

  /** Taking a page's rows moves them from the rest of the walk to the rows yielded so far. */
  lemma RowsOfTake(selected: int -> bool, pageRows: Page -> Result<seq<seq<Value>>>, pages: seq<Page>, j: nat,
                   rows: seq<seq<Value>>)
    requires j < |pages| && selected(pages[j].ptype) && pageRows(pages[j]).Ok?
    ensures rows + RowsOf(selected, pageRows, pages, j).rows
      == (rows + pageRows(pages[j]).value) + RowsOf(selected, pageRows, pages, j + 1).rows
    ensures RowsOf(selected, pageRows, pages, j).error == RowsOf(selected, pageRows, pages, j + 1).error
  {
    RowsOfStep(selected, pageRows, pages, j);
  }

  /** The layout `__init__` records: set once the magic number has matched. */
  function LayoutOfProbe(file: seq<Byte>): Option<Layout> {
    match Probe(file)
    case Rejected(_) => None
    case Accepted(h) => Some(LayoutOf(FlagsOf(h)))
  }

  function AcceptedHeader(v: Verdict<HeaderInfo>): Option<HeaderInfo> {
    match v
    case Rejected(_) => None
    case Accepted(h) => Some(h)
  }

  /** The list comprehension of column names. */
  method CollectNames(cols: seq<Column>) returns (names: seq<seq<Byte>>)
    ensures names == NamesOfColumns(cols)
  {
    names := [];
    var i := 0;
    while i < |cols|
      invariant i <= |cols|
      invariant names == NamesOfColumns(cols[..i])
    {
      assert cols[..i + 1][..i] == cols[..i];
      names := names + [cols[i].name];
      i := i + 1;
    }
    assert cols[..i] == cols;
  }

  /** An accepted header's layout is the one recorded from the flag bytes. */
  lemma HeaderLayout(file: seq<Byte>)
    requires HeaderOf(file).Ok? && HeaderOf(file).value.Accepted?
    ensures LayoutOfProbe(file) == Some(Layout(HeaderOf(file).value.value.u64, HeaderOf(file).value.value.endian))
  {
    HeaderAssembled(file);
    var fx := ReadFixed(file).value.value;
    AssembleFacts(fx, SubheadersAfter(file, fx).value);
    FixedFacts(file);
    ProbeSpec(file);
  }
}
