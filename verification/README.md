# sas7bdat reader, modelled in Dafny

This project models the decoder of the `sas7bdat` Python module, which reads
SAS7BDAT data set files. The SAS7BDAT format is the binary table format
written by SAS.

The reader works in two stages:

- **Header.** `SAS7BDAT(path)` reads the header:
  - the 288-byte probe, with its magic number and its flag bytes for word
    size, alignment, endianness and platform;
  - the rest of the fixed header, with the page size and the page count;
  - then the subheaders of every meta, mix and AMD page, sorted into row
    size, column size, column text, column attribute, column name and
    column format/label lists;
  - from those lists it assembles the column descriptions.
- **Data.** `readData()` yields the column names and then one list of
  values per record. The records come from every mix and data page, and,
  when the header's compression value is `'RLE'`, from the meta pages too,
  after expanding them.

## How the model is laid out

- **Bytes** (`bytes.dfy`): the file as a sequence of bytes, and the Python
  operations the reader applies to it:
  - slicing with Python's clamping and negative indices;
  - `f.read(n)`;
  - `strip`;
  - little- and big-endian unsigned integers and two's complement.
- **Fields** (`fields.dfy`): `readVal`, the one place where bytes become
  values:
  - signed integers of 1, 2, 4 and 8 bytes;
  - NUL-stripped strings;
  - 8-byte doubles, kept as their bit pattern;
  - the `numeric` format, which pads a short field with zero bytes on the
    low-order side before reading it as a double.
- **Pages** (`pages.dfy`):
  - `readPages`, a generator of pages, run until it finishes or raises;
  - `readSubheaders`, which walks each meta, mix and AMD page's pointer
    table.
- **Columns** (`columns.dfy`): `readColumnAttributes`, `readColumnNames` and
  `readColumnLabels`, and the text references into column-text subheaders.
- **Decompress** (`decompress.dfy`): `uncompressData`, the command-byte
  expansion of run-length compressed pages.
- **Header** (`header.dfy`): the probe, the flag bytes and the fixed part of
  `_readHeader`, up to and including the page count and the OS strings.
- **Metadata** (`metadata.dfy`): the rest of `_readHeader`:
  - bucketing the subheaders by signature;
  - the row size and column size subheaders;
  - the compression name and creator;
  - the columns;
  - the header record.
- **Reader** (`reader.dfy`):
  - `readData`: which pages are read, where their rows start, how many
    records each holds, and how one cell and one row are decoded;
  - the `SAS7BDAT` object with its `header` and recorded layout.

**Outcomes.** Each Python outcome maps onto a Dafny value:

- **An exception** that escapes to the caller is a `Raise` of `Outcomes.Result`:
  - `struct.error` becomes `StructError`;
  - `IndexError` becomes `IndexError`;
  - the `assert` on a column type becomes `AssertionError`;
  - `readData` on a reader without a header becomes `AttributeError`.
- **A logged error** after which `_readHeader` returns no header is
  `Rejected(reason)`. Such a reader has `header == None`.
- **Generators** are run to completion. The result is the list of what
  they yielded plus the exception that ended them, if any, because rows
  yielded before a failing page are observable.

**Loops.** Every loop of the source is a `method` with a `while` loop. Each
one is proved equal to a recursive function, and the lemmas are stated
about that function. Examples:

- `Reader.ReadRow` against `CellsFrom`;
- `Reader.ReadRows` against `RowsFrom`;
- `Reader.ReadAllRows` against `RowsOf`;
- `Pages.ReadPages` against `Pages`;
- `Metadata.SortSubheaders` against `BucketsOf`;
- `Decompress.Uncompress` against `Decompressed`.

**The reader object.** It is a class. Its fields `layout` and `header` are
the `self.u64`/`self.endian` and `self.header` attributes.

**The file.** Its contents are a parameter: the path, `open` and the file
object are not modelled.

**Behaviour of the code worth knowing:**

- **Compression.**
  - `_readHeader` tells three cases apart: a blank compression name, the
    name `SASYZCRL` (compression value `'RLE'`), and a positive
    creator-string length.
  - Any other name is kept, after a log line, as `OtherCompression(name)`,
    and the file is still read. A stored name of `RLE` is such a name, and
    its compression value is `'RLE'` as well.
  - `readData` expands the meta pages of every file whose compression value
    is `'RLE'`. Nothing checks the length of an expanded page.
- **Subheaders and text references** are used without a range check:
  - a subheader is a Python slice, which may be shorter than its declared
    length;
  - a text reference to a missing column-text subheader raises `IndexError`;
  - a reference whose bytes run past the subheader raises `struct.error`.
- **A missing magic number, a short header, a negative page size** and the
  like are logged, and the reader is left with no header; none of these
  raise.
- **A file that ends early** raises `struct.error` when a page is too short
  for its type field, or, on a meta, mix or AMD page, for its block and
  subheader counts. A page that holds those fields but is shorter than the
  page size is read as far as the file goes.
- **A cell that cannot be decoded** ends its row, keeping the cells before
  it. A row that ends up empty is not yielded.
- **The declared row count** caps the records read from each page
  separately. With many pages, more than `rowcount` rows can be yielded.

## Model

| member | source | states |
|---|---|---|
| Bytes.Slice | sas7bdat.py:140 | Python slicing: the result is the window of `s` between the clamped bounds (negative bounds count from the end), of length `SliceLen`, and `s[a..b]` when both bounds lie inside `s` |
| Bytes.FileRead | sas7bdat.py:216 | `f.read(n)` at a position: `n` bytes, or up to the end of the file when fewer remain (all of it when `n` is negative), always the bytes at that position |
| Bytes.StripSpec | sas7bdat.py:142 | `strip`: the result is a contiguous piece of the input, everything cut from either end is in the stripped set, and the result neither starts nor ends with a byte of the set |
| Bytes.StripUnchanged | sas7bdat.py:142 | a string with no stripped byte at either end is left as it is |
| Bytes.UIntBEIsReversedLE | sas7bdat.py:136-140 | a big-endian field is the little-endian reading of its bytes reversed |
| Bytes.SignedOfTwosComplement | sas7bdat.py:140 | reading back the two's complement encoding of a value in range gives the value |
| Bytes.TwosComplementOfSigned | sas7bdat.py:140 | encoding the signed reading of a field gives the field's unsigned value back |
| Bytes.UIntLEOfLEBytes | sas7bdat.py:140 | the little-endian encoding of `v` in `n` bytes reads back as `v` |
| Fields.ReadVal | sas7bdat.py:124-143 | `readVal`: every failure is `struct.error`; integer formats give integers, `s` gives bytes, `d` and `numeric` give an 8-byte double |
| Fields.ReadInt | sas7bdat.py:124-143 | an integer field reads exactly when the slice has the format's width, and its value lies in the signed range of that width |
| Fields.ReadStr | sas7bdat.py:126-127 | a string field reads exactly when the size is not negative and the slice holds `size` bytes |
| Fields.ReadIntIsReadVal | sas7bdat.py:124-143 | the integer reader agrees with `readVal` on success and on failure |
| Fields.ReadStrIsReadVal | sas7bdat.py:124-143 | the string reader agrees with `readVal` on success and on failure |
| Fields.ReadByte | sas7bdat.py:159 | the `b` format is a signed byte: values from 128 up read as negative |
| Fields.ReadIntOfEncodeInt | sas7bdat.py:140 | encoding a value in range and reading it back gives the value, in either byte order and for every width |
| Fields.EncodeIntOfReadInt | sas7bdat.py:140 | a field of the format's width always reads, and re-encoding what it reads gives the same bytes |
| Fields.NumericPadding | sas7bdat.py:128-135 | a `numeric` field of up to 8 bytes reads as the double whose most significant bytes are the field and whose low-order bytes are zero, in either byte order |
| Fields.NumericTooWide | sas7bdat.py:128-140 | a `numeric` field wider than 8 bytes raises `struct.error` |
| Fields.ReadStrStripped | sas7bdat.py:140-142 | a string field inside the buffer is its window of bytes with NULs stripped, and starts and ends with a non-NUL byte |
| Decompress.Uncompress | sas7bdat.py:522-580 | the command loop of `uncompressData` computes `Decompressed(data)` |
| Decompress.CommandOf | sas7bdat.py:525-579 | the command a control byte selects, by its high nibble: `0x0?` copies `c + 64` bytes, `0x1?`–`0x5?` do nothing, `0x6?`/`0x7?` insert `c + 17` spaces or NULs, `0x8?`–`0xB?` copy `lo + 1`, `lo + 17`, `lo + 33` or `lo + 49` bytes, `0xC?` repeats the next byte `lo + 3` times, `0xD?`–`0xF?` insert `lo + 2` bytes `0x40`, space or NUL |
| Decompress.StepInPlace | sas7bdat.py:526-579 | one command byte: copy the next `n` bytes (fewer at the end), repeat the next byte, insert a fixed byte `n` times, or do nothing, as its high nibble selects |
| Decompress.CopyLong | sas7bdat.py:532-534 | command `0x0?` copies `c + 64` literal bytes, `c` being the whole control byte |
| Decompress.CopyShort | sas7bdat.py:556-567 | commands `0x8?` to `0xB?` copy `lo + 1`, `lo + 17`, `lo + 33` or `lo + 49` literal bytes |
| Decompress.RepeatByte | sas7bdat.py:568-570 | command `0xC?` repeats the following byte `lo + 3` times |
| Decompress.ShortFill | sas7bdat.py:571-579 | commands `0xD?`, `0xE?`, `0xF?` insert `lo + 2` bytes `0x40`, space or NUL |
| Decompress.LongFill | sas7bdat.py:550-555 | commands `0x6?` and `0x7?` insert `c + 17` spaces or NULs, `c` being the whole control byte |
| Decompress.Ignored | sas7bdat.py:535-549 | commands `0x1?` to `0x5?` produce nothing and consume only themselves |
| Decompress.CopyTruncated | sas7bdat.py:534 | a copy that runs past the end of the page copies what is left |
| Decompress.RoundTrip | sas7bdat.py:522-580 | for every list of encodable literals, runs and fills, expanding their encoding gives back their bytes |
| Pages.PageCompIsSigned16 | sas7bdat.py:94 | the compressed-page marker -28672 is what the signed 16-bit type field holds for `0x9000` |
| Pages.PointerGeometry | sas7bdat.py:228-231 | the pointer table starts at 40 or 24, a pointer is 24 or 12 bytes, its fields 8 or 4 bytes, and the three fields fit in one pointer |
| Pages.CompressionOf | sas7bdat.py:244-252 | compression byte 0 is none, 1 is `ignore`, 4 is `rle`, and any other value is kept as an unknown code |
| Pages.ReadPage | sas7bdat.py:215-223 | a page keeps its number and its bytes, and a page with room for its type, block count and subheader count always reads |
| Pages.ReadPageFields | sas7bdat.py:217-222 | the page type is read at 32 or 16; the block and subheader counts are read only for meta, mix and AMD pages and are zero otherwise; a failure is `struct.error` |
| Pages.ReadPages | sas7bdat.py:211-223 | the page loop computes `Pages`: one page per `pagesize` bytes read, up to `pagecount` pages, ending at the first page that raises |
| Pages.PagesFacts | sas7bdat.py:215-223 | pages are numbered from 0, there are `pagecount` of them when none raises, and the first holds the bytes read at the start |
| Pages.PagesFromNext | sas7bdat.py:216 | each page holds the bytes read at its position |
| Pages.ReadPointer | sas7bdat.py:237-254 | a pointer reads exactly when it holds its offset, length and compression fields, and otherwise raises `struct.error`; it names a subheader exactly when the length field is positive, and that subheader has the offset, length and compression the fields hold, the page's slice at that offset as its bytes and their first 8 or 4 bytes as its signature |
| Pages.WalkPointers | sas7bdat.py:235-254 | the pointer loop of one page computes `PageSubheaders` |
| Pages.PageSubheadersInBounds | sas7bdat.py:235-242 | a pointer table inside the page always reads, gives at most `subheadercount` subheaders, and each is located in the page |
| Pages.PageSubheadersExact | sas7bdat.py:235-254 | a pointer table inside the page reads every one of its `subheadercount` pointers and yields exactly the subheaders they name, in table order |

| Pages.ReadSubheaders | sas7bdat.py:225-254 | the page-and-pointer loop computes `Subheaders` |
| Pages.SubheadersFromMetaPages | sas7bdat.py:232-243 | every subheader comes from a meta, mix or AMD page of the stream and is located in it |
| Columns.Copies | sas7bdat.py:190 | `[x] * n`: `n` copies of `x`, none for a negative `n` |
| Columns.ReadAttr | sas7bdat.py:155-166 | an attribute entry fails only with `struct.error`, or with `AssertionError` for a type other than 1 and 2 |
| Columns.ReadAttrOfEncode | sas7bdat.py:155-166 | decoding the bytes of an attribute entry gives back its offset, length and type |
| Columns.ReadAttrType | sas7bdat.py:159-165 | a whole entry reads exactly when its type byte is 1 or 2, 1 being numeric; otherwise it raises `AssertionError` |
| Columns.ReadAttrTable | sas7bdat.py:154-166 | the entry loop of one subheader computes `AttrsFrom` |
| Columns.ReadColumnAttributes | sas7bdat.py:145-167 | the subheader loop computes `AttributesOf` |
| Columns.AttrsFromWhole | sas7bdat.py:154-166 | a table of `m` whole entries gives `m` attributes, attribute `k` being what entry `k` decodes to, or an `AssertionError` |
| Columns.AttributesCount | sas7bdat.py:149-166 | when every table lies inside its subheader, the attribute count is the sum of the counts the lengths announce |
| Columns.TextOf | sas7bdat.py:183 | a text lookup fails only with `IndexError` or `struct.error` |
| Columns.TextOfMissing | sas7bdat.py:183 | the lookup raises `IndexError` exactly when the column-text index is out of the list's range, negative indices counting from the end |
| Columns.TextOfNegativeLength | sas7bdat.py:183 | a negative length raises `struct.error` |
| Columns.TextOfWindow | sas7bdat.py:183 | a reference inside its subheader gives the bytes there with NULs stripped |
| Columns.ReadTextRefOfEncode | sas7bdat.py:179-181 | decoding an encoded text reference gives back index, offset (shifted by 8 or 4) and length |
| Columns.ReadNameTable | sas7bdat.py:177-184 | the name loop of one subheader computes `NamesFrom` |
| Columns.ReadColumnNames | sas7bdat.py:169-185 | the subheader loop computes `NamesOf` |
| Columns.NamesFromWhole | sas7bdat.py:174-184 | a table of `m` whole entries gives `m` names, name `k` being the text entry `k` refers to, or fails with `IndexError` or `struct.error` |
| Columns.ReadColumnLabels | sas7bdat.py:187-209 | the label loop computes `ColumnLabels` |
| Columns.LabelsWithoutSubheaders | sas7bdat.py:189-190 | with no label subheaders, every one of the `colcount` columns gets an empty format and label |
| Columns.LabelsOnePerSubheader | sas7bdat.py:193-209 | with label subheaders, a successful result has one format and label per subheader, the `k`-th decoded from the `k`-th subheader, whatever `colcount` says |
| Columns.EmptyTextNeedsNoColumnText | sas7bdat.py:198-207 | a label subheader whose format and label references both have length zero or less decodes to an empty format and label even with no column-text subheaders: nothing is looked up |
| Header.CheckMagicIff | sas7bdat.py:121-122 | the magic check holds exactly when the header starts with the 32 magic bytes |
| Header.FlagsOf | sas7bdat.py:307-333 | 64-bit offsets exactly when byte 32 is `0x33` and byte 39 is `'1'`; `align2` is 4 exactly when byte 32 is `0x33`, `align1` is 4 exactly when byte 35 is `0x33`, each 0 otherwise; little-endian exactly when byte 37 is 1; platform unix for `'1'`, windows for `'2'` |
| Header.ProbeSpec | sas7bdat.py:298-306 | fewer than 288 bytes reject the file as too short; otherwise a wrong magic number rejects it; otherwise the probe is the first 288 bytes |
| Header.StringsFrom | sas7bdat.py:372-383 | once the OS strings read, the fixed header is accepted with the bytes, flags, page size and page count read before |
| Header.SizesFacts | sas7bdat.py:357-371 | an accepted header's page size and page count are the fields where the flags put them (the count 8 bytes wide in 64-bit files), and the count is at least 1 |
| Header.RestFacts | sas7bdat.py:349-356 | the header is the file's first `hl` bytes, with `288 <= hl <= |file|` |
| Header.FixedFromFacts | sas7bdat.py:307-371 | the flags come from the probe, the header length is the field at `196 + align1`, 8192 in 64-bit files, and the sizes are read from the whole header |
| Header.FixedFacts | sas7bdat.py:296-371 | the same facts stated of the file: magic present, header a prefix of the file, its length the length field, page count at least 1 |
| Metadata.KindOfMembership | sas7bdat.py:395-406 | a signature goes to a list exactly when it is in that list's signature set |
| Metadata.FilterMembership | sas7bdat.py:392-416 | a subheader is in a list exactly when it was read and its signature selects that list |
| Metadata.FilterDisjoint | sas7bdat.py:395-416 | no subheader goes to two lists |
| Metadata.FilterConcat | sas7bdat.py:392-416 | bucketing a concatenation gives the concatenation of the buckets: the order of the subheaders is kept |
| Metadata.FilterCount | sas7bdat.py:392-416 | a list holds each subheader of its kind as many times as it was read, and none of another kind |
| Metadata.FilterFirst | sas7bdat.py:392-421 | the first subheader of a list (`rowsize[0]`) is the first one read with that list's signature |
| Metadata.SortSubheaders | sas7bdat.py:392-416 | the bucketing loop computes `BucketsOf` |
| Metadata.ReadRowSize | sas7bdat.py:422-438 | a row size subheader reads exactly when it holds 708 bytes (64-bit) or 380 bytes, else `struct.error` |
| Metadata.RowSizeFields | sas7bdat.py:422-438 | the row length, row count, two column counts and mix-page row count are the 8- or 4-byte fields at 40, 48, 72, 80, 120 or 20, 24, 36, 40, 60, and `lcs`, `lcp` the 2-byte fields at 682, 706 or 354, 378 |
| Metadata.ReadColCount | sas7bdat.py:444-448 | the column count is the field at 8 (8 bytes) or at 4 (4 bytes) of the column size subheader, and a shorter subheader raises `struct.error` |
| Metadata.CreatorOf | sas7bdat.py:456-486 | the compression is run-length exactly when the name is `SASYZCRL`; it is an unknown name exactly when the name is neither blank nor `SASYZCRL` and `lcs <= 0`, and then it keeps the name; a creator string means no compression; a failure is `struct.error` |
| Metadata.ColumnsFromSpec | sas7bdat.py:512-514 | building the columns succeeds exactly when `colcount` names, attributes and labels exist (else `IndexError`); there are `colcount` columns, column `k` being name `k`, attribute `k` and label `k` |
| Metadata.BuildColumns | sas7bdat.py:512-514 | the column loop computes `ColumnsFrom` |
| Metadata.AssembleHeader | sas7bdat.py:417-519 | the code after the bucketing computes `Assemble` |
| Metadata.AssembleColumnList | sas7bdat.py:487-519 | the code from the attributes on computes `AssembleColumns` |
| Metadata.ReadHeader | sas7bdat.py:256-520 | `_readHeader` computes `HeaderOf(file)` |
| Metadata.AssembleColumnsFacts | sas7bdat.py:487-519 | an assembled header has attribute and name subheaders, exactly `colcount` attributes, column `k`'s attribute being attribute `k`, and carries the sizes and compression it was given |
| Metadata.AssembleFacts | sas7bdat.py:417-519 | an accepted header had exactly one row size and one column size subheader and at least one text, attribute and name subheader; its counts and lengths are the ones those subheaders hold, and it is run-length compressed exactly when the name is `SASYZCRL` |
| Metadata.HeaderRejections | sas7bdat.py:298-306 | a file shorter than 288 bytes, or one without the magic number, gets no header |
| Metadata.HeaderAssembled | sas7bdat.py:296-520 | an accepted header is assembled from the fixed header and the subheaders read after it |
| Metadata.HeaderFlags | sas7bdat.py:303-333 | an accepted file starts with the magic number; it uses 64-bit offsets exactly when byte 32 is `0x33` and byte 39 is `'1'` (unix); it is little-endian exactly when byte 37 is 1 |
| Metadata.HeaderPageFields | sas7bdat.py:313-371 | an accepted header's page size is the 4-byte field at 204 when byte 35 is `0x33` and at 200 otherwise, and its page count the field at 208 or 204, 8 bytes wide when byte 32 is `0x33` |
| Metadata.HeaderSizes | sas7bdat.py:349-371 | the header length lies between 288 and the file size, is the length field of the probe, is 8192 in 64-bit files, and the page count is at least 1 |
| Metadata.HeaderSubheaders | sas7bdat.py:392-448 | the subheaders after the header read, with exactly one row size and one column size subheader, and there are `colcount >= 0` columns |
| Reader.BumpAligns | sas7bdat.py:604 | `base += base % 8` gives a multiple of eight exactly when `base` is a multiple of four, and then moves it by less than eight |
| Reader.MixBaseAligned | sas7bdat.py:600-612 | on a mix page the bumped end of the pointer table is the multiple of eight at or after the end, less than eight past it |
| Reader.GeometryOf | sas7bdat.py:595-615 | only a page that is neither a meta nor a mix page can fail to give its geometry (its stored row count does not read), and then with `struct.error` |
| Reader.RowsOnPage | sas7bdat.py:616-617 | a page reads no more records than the table's row count or its own, and exactly the smaller of the two |
| Reader.PageGeometry | sas7bdat.py:595-617 | meta pages are expanded and read from `129 + 24 * subheadercount` with the mix-page row count; mix pages from the bumped table end, 8-aligned, with the mix-page row count; data pages from 40 or 24 with the row count stored at 34 or 18; no page gives more rows than the table has |
| Reader.ReadGeometry | sas7bdat.py:595-615 | the page branch of `readData` computes `GeometryOf` |
| Reader.CellOf | sas7bdat.py:624-632 | a cell fails only with `struct.error` |
| Reader.CellWindow | sas7bdat.py:621-632 | a cell is decoded from the page's bytes `[base + offset, base + offset + length)`; a character cell within the page is those bytes with NULs and then whitespace stripped; a numeric cell within the page reads exactly when its length is at most 8 |
| Reader.CellsFromLength | sas7bdat.py:619-635 | a row has at most one cell per column |
| Reader.CellsFromSpec | sas7bdat.py:619-635 | when every column has a positive length and decodes, the row has one cell per column, in column order |
| Reader.CellsStopAtFailure | sas7bdat.py:625-634 | a cell that fails ends the row: only the columns before it can contribute |
| Reader.ReadRow | sas7bdat.py:619-635 | the column loop computes `CellsFrom` |
| Reader.RowsFromSpec | sas7bdat.py:618-638 | `n` records give at most `n` rows, and no row yielded is empty |
| Reader.KeptRecordsLength | sas7bdat.py:618-638 | there is one kept record index per row yielded |
| Reader.KeptRecordsOrder | sas7bdat.py:618-638 | the kept records are among the `n` read and come in increasing order |
| Reader.RowsFromOrigin | sas7bdat.py:618-638 | row `i` is the row of kept record `i`, counting records from any starting index |
| Reader.RecordOrigin | sas7bdat.py:618-638 | row `i` is decoded from the record starting `k * rowlength` bytes after the first, `k` being kept record `i`, with `k < n` |
| Reader.RowsFromDense | sas7bdat.py:618-638 | when no record decodes to an empty row, there are exactly `n` rows and row `k` is record `k` |
| Reader.ReadRows | sas7bdat.py:618-638 | the record loop computes `RowsFrom` |
| Reader.ReadPageRows | sas7bdat.py:595-638 | one selected page, row count capped, computes `PageRows` |
| Reader.PageRowsBound | sas7bdat.py:616-638 | a page never yields more rows than the table's row count |
| Reader.RowsOfStep | sas7bdat.py:589-638 | for any page selection: a page not selected is passed over; a selected page whose rows raise ends the rows with that exception; otherwise its rows come before the rest |
| Reader.Selected | sas7bdat.py:591-594 | a page is read exactly when it is a mix or data page, or a meta page of a header whose compression value is `'RLE'` (`SASYZCRL`, or an unknown name `RLE`) |
| Reader.PageSelection | sas7bdat.py:589-638 | in `readData`: a page that is not read is passed over, a read page whose rows raise ends the rows, and otherwise its rows come before the rest; a meta page of a file whose compression value is `'RLE'` always gives its rows |
| Reader.RowsOfBound | sas7bdat.py:589-594 | pages that are not selected yield nothing, and pages that each yield at most `cap` rows yield at most `cap` per page together |
| Reader.DataRowsBound | sas7bdat.py:589-638 | `readData` yields at most `rowcount` rows per page read |
| Reader.ReadAllRows | sas7bdat.py:589-638 | the page loop computes `RowsOf` |
| Reader.DataOf | sas7bdat.py:582-586 | without a header nothing is yielded and `AttributeError` is raised; with one, the column names come first, name `i` being column `i`'s |
| Reader.CollectNames | sas7bdat.py:586 | the list comprehension of names computes `NamesOfColumns` |
| Reader.HeaderLayout | sas7bdat.py:332-333 | the layout recorded from the flag bytes is the accepted header's word size and byte order |
| Reader.SAS7BDAT.LoadHeader | sas7bdat.py:104 | `self.header = self._readHeader()`: the result is `HeaderOf(file)`, the layout is the probe's, and the header field is the accepted header or none |
| Reader.SAS7BDAT.Open | sas7bdat.py:99-105 | opening succeeds exactly when reading the header does not raise, with the same exception; an opened reader is fresh and in the state `__init__` leaves |
| Reader.SAS7BDAT.ReadData | sas7bdat.py:582-638 | `readData` on a reader whose layout agrees with its header yields `DataOf(file, header)` |

## Left out

- Logging: every `logger` call is left out, including the `__init__` debug dump, `_makeLogger`, the colour emitter and `sys.excepthook` under `logLevel`. A logged error that makes `_readHeader` return no header is modelled as `Rejected(reason)`; a warning that changes nothing (unknown host, column count mismatch, name and label count mismatches, compressed data not supported, unknown subheader compression) is dropped.
- The two timestamps are kept as their 8 raw bytes, and doubles are not decoded to floating point; Dafny has no IEEE doubles. The 1960-epoch `datetime` conversion and its `try/except` are not part of this model.
- The header's `filename` field (`os.path.basename(self.path)`) is not modelled: the model has no paths.
- `Info.__repr__` (`_repr`) and the `KNOWNHOSTS` set only format text and feed a warning: not part of this model.
- `convertFile`, the CSV writer, `sas_to_csv.py` and `setup.py`: output and packaging, not decoding.
- The laziness of the generators is not modelled. `readPages`, `readSubheaders` and `readData` are run to completion, keeping what they yielded before the exception that ended them.
- Opening and reading the file is not modelled: the file's contents are an input. A second `open` in `readData` reads the same contents.
- `Reader.SAS7BDAT.ReadData` requires that the recorded layout agrees with the header. `Reader.SAS7BDAT.Open` establishes that for every reader it returns.

## Findings

No defect was established. The mix-page `base += base % 8` is a rounding
up to a multiple of eight only when `base` is a multiple of four.
`Reader.BumpAligns` shows that in general. `Reader.MixBaseAligned` shows
that every mix-page pointer table ends on such a value, so the reader is
correct as written.
