/**
 * Pages and subheaders (`readPages`, `readSubheaders`): the file after its
 * header is a run of fixed-size pages; metadata pages carry a table of
 * pointers to subheaders, whose first bytes are their signature.
 */
module Pages {
  import opened Bytes
  import opened Outcomes
  import opened Fields

  /** What the header decided about the file: 64-bit offsets, and byte order. */
  datatype Layout = Layout(u64: bool, endian: Endian)

  // Page types, read as a signed 16-bit field.
  const PageMeta: int := 0
  const PageData: int := 256
  const PageMix: seq<int> := [512, 640]
  const PageAmd: int := 1024
  const PageMetc: int := 16384
  const PageComp: int := -28672

  /** `PAGE_META_MIX_AMD`: the page types whose subheader pointers are walked. */
  predicate IsMetaMixAmd(t: int) {
    t == PageMeta || t == PageMix[0] || t == PageMix[1] || t == PageAmd
  }

  /** `PAGE_MIX_DATA`: the page types that hold rows. */
  predicate IsMixData(t: int) {
    t == PageMix[0] || t == PageMix[1] || t == PageData
  }

  /** The compressed-page marker is a negative number because the type field is signed. */
  lemma PageCompIsSigned16()
    ensures ReadInt(Little, H, [0x00, 0x90], 0, 2) == Ok(PageComp)
    ensures ReadInt(Big, H, [0x90, 0x00], 0, 2) == Ok(PageComp)
  {
    assert Slice([0x00, 0x90], 0, 2) == [0x00, 0x90];
    assert Slice([0x90, 0x00], 0, 2) == [0x90, 0x00];
    assert Reverse([0x90, 0x00]) == [0x00, 0x90];
    assert UIntLE([0x00, 0x90]) == 0x9000 by {
      assert UIntLE([0x90]) == 0x90;
      assert [0x00, 0x90][1..] == [0x90];
    }
  }

  datatype Page = Page(number: nat, data: seq<Byte>, ptype: int, blockcount: int, subheadercount: int)

  /** Where the page type, block count and subheader count sit in a page. */
  function TypeOffset(u64: bool): nat { if u64 then 32 else 16 }

  /** The signed 16-bit field at `at`, which lies inside `data`. */
  function Int16At(e: Endian, data: seq<Byte>, at: nat): int
    requires at + 2 <= |data|
  {
    Signed(UnsignedAt(e, data, at, 2), 2)
  }

  /**
   * One page as `readPages` yields it: the type, and the block and subheader
   * counts only on meta, mix and amd pages (zero on the others). A page too
   * short for a field it needs fails as `struct.unpack` does.
   */
  function ReadPage(l: Layout, number: nat, data: seq<Byte>): (r: Result<Page>)
    ensures r.Ok? ==> r.value.number == number && r.value.data == data
    ensures |data| >= TypeOffset(l.u64) + 6 ==> r.Ok?
  {
    var t := TypeOffset(l.u64);
    if |data| < t + 2 then Raise(StructError)
    else
      var ptype := Int16At(l.endian, data, t);
      if !IsMetaMixAmd(ptype) then Ok(Page(number, data, ptype, 0, 0))
      else if |data| < t + 6 then Raise(StructError)
      else Ok(Page(number, data, ptype, Int16At(l.endian, data, t + 2), Int16At(l.endian, data, t + 4)))
  }

  /**
   * `ReadPage` is the three `h` reads of the page header: the type always,
   * the two counts only on meta, mix and amd pages; it fails exactly when one
   * of the reads it makes fails, with that read's `struct.error`.
   */
  lemma ReadPageFields(l: Layout, number: nat, data: seq<Byte>)
    ensures var t := TypeOffset(l.u64);
      var ptype := ReadInt(l.endian, H, data, t, 2);
      var blocks := ReadInt(l.endian, H, data, t + 2, 2);
      var subs := ReadInt(l.endian, H, data, t + 4, 2);
      var r := ReadPage(l, number, data);
      && (r.Ok? <==> ptype.Ok? && (IsMetaMixAmd(ptype.value) ==> blocks.Ok? && subs.Ok?))
      && (r.Raise? ==> r.exc == StructError)
      && (r.Ok? ==> r.value.ptype == ptype.value)
      && (r.Ok? ==> r.value.blockcount == if IsMetaMixAmd(ptype.value) then blocks.value else 0)
      && (r.Ok? ==> r.value.subheadercount == if IsMetaMixAmd(ptype.value) then subs.value else 0)
  {
  }

  /**
   * The pages a generator reading `count` pages of `size` bytes yields, and
   * the exception that stopped it early, if any.
   */
  datatype PageStream = PageStream(pages: seq<Page>, error: Option<Exception>)

  /**
   * The generator resumed at cursor `pos` before page `i`, having yielded
   * `acc` so far: each page is `size` bytes read from the cursor (fewer at the
   * end of the file), and the first page that fails to parse ends the stream.
   */
  function PagesFrom(l: Layout, file: seq<Byte>, pos: nat, i: nat, count: int, size: nat, acc: seq<Page>): PageStream
    requires pos <= |file|
    decreases count - i
  {
    if i >= count then PageStream(acc, None)
    else
      var data := FileRead(file, pos, size);
      match ReadPage(l, i, data)
      case Raise(e) => PageStream(acc, Some(e))
      case Ok(p) => PagesFrom(l, file, pos + |data|, i + 1, count, size, acc + [p])
  }

  /** `readPages(start, count, size)` run to completion. */
  function Pages(l: Layout, file: seq<Byte>, start: nat, count: int, size: nat): PageStream
    requires start <= |file|
  {
    PagesFrom(l, file, start, 0, count, size, [])
  }

  method ReadPages(l: Layout, file: seq<Byte>, start: nat, count: int, size: nat) returns (s: PageStream)
    requires start <= |file|
    ensures s == Pages(l, file, start, count, size)
  {
    var pages: seq<Page> := [];
    var pos: nat, i: nat := start, 0;
    while i < count
      invariant pos <= |file|
      invariant PagesFrom(l, file, pos, i, count, size, pages) == Pages(l, file, start, count, size)
      decreases count - i
    {
      var data := FileRead(file, pos, size);
      var page := ReadPage(l, i, data);
      PagesFromStep(l, file, pos, i, count, size, pages);
      if page.Raise? {
        return PageStream(pages, Some(page.exc));
      }
      pages := pages + [page.value];
      pos, i := pos + |data|, i + 1;
    }
    s := PageStream(pages, None);
  }

  /** One step of the generator: read a page, then stop or go on with it yielded. */
  lemma PagesFromStep(l: Layout, file: seq<Byte>, pos: nat, i: nat, count: int, size: nat, acc: seq<Page>)
    requires pos <= |file| && i < count
    ensures var data := FileRead(file, pos, size);
      var p := ReadPage(l, i, data);
      PagesFrom(l, file, pos, i, count, size, acc)
        == if p.Raise? then PageStream(acc, Some(p.exc))
           else PagesFrom(l, file, pos + |data|, i + 1, count, size, acc + [p.value])
  {
  }

  /** The pages already yielded stay at the front of the stream. */
  lemma {:induction false} PagesFromKeeps(l: Layout, file: seq<Byte>, pos: nat, i: nat, count: int, size: nat, acc: seq<Page>)
    requires pos <= |file|
    ensures acc <= PagesFrom(l, file, pos, i, count, size, acc).pages
    decreases count - i
  {
    if i < count {
      var data := FileRead(file, pos, size);
      var p := ReadPage(l, i, data);
      if p.Ok? {
        PagesFromKeeps(l, file, pos + |data|, i + 1, count, size, acc + [p.value]);
      }
    }
  }

  /** The page after those already yielded, if any, holds the next `size` bytes of the file. */
  lemma PagesFromNext(l: Layout, file: seq<Byte>, pos: nat, i: nat, count: int, size: nat, acc: seq<Page>)
    requires pos <= |file|
    requires |acc| < |PagesFrom(l, file, pos, i, count, size, acc).pages|
    ensures PagesFrom(l, file, pos, i, count, size, acc).pages[|acc|].data == FileRead(file, pos, size)
  {
    var data := FileRead(file, pos, size);
    var p := ReadPage(l, i, data);
    PagesFromKeeps(l, file, pos + |data|, i + 1, count, size, acc + [p.value]);
    assert (acc + [p.value])[|acc|] == p.value;
  }

  /** Pages are numbered in order from the first one read. */
  lemma {:induction false} PagesFromNumbers(l: Layout, file: seq<Byte>, pos: nat, i: nat, count: int, size: nat, acc: seq<Page>)
    requires pos <= |file|
    requires |acc| == i && forall k :: 0 <= k < |acc| ==> acc[k].number == k
    ensures forall k :: 0 <= k < |PagesFrom(l, file, pos, i, count, size, acc).pages| ==>
      PagesFrom(l, file, pos, i, count, size, acc).pages[k].number == k
    decreases count - i
  {
    if i < count {
      var data := FileRead(file, pos, size);
      var p := ReadPage(l, i, data);
      if p.Ok? {
        var acc' := acc + [p.value];
        assert forall k :: 0 <= k < |acc'| ==> acc'[k].number == k by {
          forall k | 0 <= k < |acc'| ensures acc'[k].number == k {
            if k < |acc| {
              assert acc'[k] == acc[k];
            }
          }
        }
        PagesFromNumbers(l, file, pos + |data|, i + 1, count, size, acc');
        var r := PagesFrom(l, file, pos, i, count, size, acc).pages;
        var r' := PagesFrom(l, file, pos + |data|, i + 1, count, size, acc').pages;
        assert r == r';
        forall k | 0 <= k < |r| ensures r[k].number == k {
          assert r[k] == r'[k];
        }
      } else {
        assert PagesFrom(l, file, pos, i, count, size, acc).pages == acc;
      }
    }
  }

  /** A stream that no exception cut short holds all `count` pages. */
  lemma {:induction false} PagesFromCount(l: Layout, file: seq<Byte>, pos: nat, i: nat, count: int, size: nat, acc: seq<Page>)
    requires pos <= |file|
    ensures var s := PagesFrom(l, file, pos, i, count, size, acc);
      s.error.None? ==> |s.pages| == |acc| + if i >= count then 0 else count - i
    decreases count - i
  {
    if i < count {
      var data := FileRead(file, pos, size);
      var p := ReadPage(l, i, data);
      if p.Ok? {
        PagesFromCount(l, file, pos + |data|, i + 1, count, size, acc + [p.value]);
      }
    }
  }

  /** What `readPages` yields: pages numbered from zero, all `count` of them unless an exception intervened, the first one at `start`. */
  lemma PagesFacts(l: Layout, file: seq<Byte>, start: nat, count: int, size: nat)
    requires start <= |file|
    ensures var s := Pages(l, file, start, count, size);
      && (forall k :: 0 <= k < |s.pages| ==> s.pages[k].number == k)
      && (s.error.None? ==> |s.pages| == if count <= 0 then 0 else count)
      && (0 < |s.pages| ==> s.pages[0].data == FileRead(file, start, size))
  {
    PagesFromNumbers(l, file, start, 0, count, size, []);
    PagesFromCount(l, file, start, 0, count, size, []);
    if 0 < |Pages(l, file, start, count, size).pages| {
      PagesFromNext(l, file, start, 0, count, size, []);
    }
  }

  // ---------------------------------------------------------------------
  // Subheader pointers

  /** How the reader records a pointer's compression flag (0, 1 and 4 are named; any other code is kept). */
  datatype Compression = NoCompression | Ignore | Rle | UnknownCompression(code: int)

  function CompressionOf(code: int): (r: Compression)
    ensures r == NoCompression <==> code == 0
    ensures r == Ignore <==> code == 1
    ensures r == Rle <==> code == 4
    ensures r.UnknownCompression? <==> code != 0 && code != 1 && code != 4
    ensures r.UnknownCompression? ==> r.code == code
  {
    if code == 0 then NoCompression
    else if code == 1 then Ignore
    else if code == 4 then Rle
    else UnknownCompression(code)
  }

  datatype SubHeader = SubHeader(
    page: nat, offset: int, length: int, raw: seq<Byte>, signature: seq<Byte>, compression: Compression)

  /** Pointer-table geometry: where the table starts, the size of a pointer, the size of its fields. */
  function TableOffset(u64: bool): nat { if u64 then 40 else 24 }
  function PointerSize(u64: bool): nat { if u64 then 24 else 12 }
  /** Offsets and lengths are `q` fields in 64-bit files and `i` fields otherwise. */
  function OffsetWidth(u64: bool): Width { if u64 then Q else I }

  /** The byte size of an offset or length field: 8 or 4. */
  function FieldSize(u64: bool): nat { WidthBytes(OffsetWidth(u64)) }

  /** The table starts at 40 and holds 24-byte pointers of 8-byte fields in a 64-bit file; 24, 12 and 4 otherwise. */
  lemma PointerGeometry(u64: bool)
    ensures TableOffset(u64) == (if u64 then 40 else 24)
    ensures PointerSize(u64) == (if u64 then 24 else 12)
    ensures FieldSize(u64) == (if u64 then 8 else 4)
    ensures 2 * FieldSize(u64) + 1 <= PointerSize(u64)
  {
  }

  /** A subheader as a pointer describes it: its bytes in the page, and their first field as the signature. */
  predicate Located(l: Layout, page: Page, sh: SubHeader) {
    && sh.page == page.number
    && sh.length > 0
    && sh.raw == Slice(page.data, sh.offset, sh.offset + sh.length)
    && sh.signature == Slice(sh.raw, 0, FieldSize(l.u64))
  }

  /** One pointer: offset, length and compression flag; a pointer of length zero or less names no subheader. */
  function ReadPointer(l: Layout, page: Page, pointer: seq<Byte>): (r: Result<Option<SubHeader>>)
    ensures r.Ok? <==> |pointer| >= 2 * FieldSize(l.u64) + 1
    ensures r.Raise? ==> r.exc == StructError
    ensures r.Ok? ==>
      var f, w := FieldSize(l.u64), OffsetWidth(l.u64);
      && ReadInt(l.endian, w, pointer, 0, f).Ok?
      && ReadInt(l.endian, w, pointer, f, f).Ok?
      && ReadInt(l.endian, B, pointer, 2 * f, 1).Ok?
      && (r.value.Some? <==> ReadInt(l.endian, w, pointer, f, f).value > 0)
      && (r.value.Some? ==>
            && r.value.value.offset == ReadInt(l.endian, w, pointer, 0, f).value
            && r.value.value.length == ReadInt(l.endian, w, pointer, f, f).value
            && r.value.value.compression == CompressionOf(ReadInt(l.endian, B, pointer, 2 * f, 1).value))
    ensures r.Ok? && r.value.Some? ==> Located(l, page, r.value.value)
  {
    var f := FieldSize(l.u64);
    var w := OffsetWidth(l.u64);
    var offset :- ReadInt(l.endian, w, pointer, 0, f);
    var length :- ReadInt(l.endian, w, pointer, f, f);
    var comp :- ReadInt(l.endian, B, pointer, 2 * f, 1);
    if length > 0 then
      var raw := Slice(page.data, offset, offset + length);
      Ok(Some(SubHeader(page.number, offset, length, raw, Slice(raw, 0, f), CompressionOf(comp))))
    else
      Ok(None)
  }

  function PointersFrom(l: Layout, page: Page, table: seq<Byte>, i: nat): Result<seq<SubHeader>>
    decreases |table| - i
  {
    if i >= |table| then Ok([])
    else
      var sh :- ReadPointer(l, page, Slice(table, i, i + PointerSize(l.u64)));
      Prepend(if sh.Some? then [sh.value] else [], PointersFrom(l, page, table, i + PointerSize(l.u64)))
  }

  /** The pointer table of a page: `subheadercount` pointers from the table offset on. */
  function PointerTable(l: Layout, page: Page): seq<Byte> {
    var t := TableOffset(l.u64);
    Slice(page.data, t, t + page.subheadercount * PointerSize(l.u64))
  }

  function PageSubheaders(l: Layout, page: Page): Result<seq<SubHeader>> {
    PointersFrom(l, page, PointerTable(l, page), 0)
  }

  /** The inner loop of `readSubheaders`: walk one page's pointer table. */
  method WalkPointers(l: Layout, page: Page) returns (r: Result<seq<SubHeader>>)
    ensures r == PageSubheaders(l, page)
  {
    var table := PointerTable(l, page);
    var step := PointerSize(l.u64);
    var found: seq<SubHeader> := [];
    var i := 0;
    PrependNothing(PointersFrom(l, page, table, 0));
    while i < |table|
      invariant Prepend(found, PointersFrom(l, page, table, i)) == PointersFrom(l, page, table, 0)
      decreases |table| - i
    {
      var sh := ReadPointer(l, page, Slice(table, i, i + step));
      if sh.Raise? {
        assert PointersFrom(l, page, table, i) == Raise(sh.exc);
        return Raise(sh.exc);
      }
      var here := if sh.value.Some? then [sh.value.value] else [];
      PrependAssoc(found, here, PointersFrom(l, page, table, i + step));
      found := found + here;
      i := i + step;
    }
    assert found + [] == found;
    r := Ok(found);
  }

  /** Every subheader a walk yields is located in its page. */
  lemma {:induction false} PointersFromLocated(l: Layout, page: Page, table: seq<Byte>, i: nat)
    ensures var r := PointersFrom(l, page, table, i);
      r.Ok? ==> forall sh :: sh in r.value ==> Located(l, page, sh)
    decreases |table| - i
  {
    if i < |table| {
      var n := PointerSize(l.u64);
      PointersFromLocated(l, page, table, i + n);
      var sh := ReadPointer(l, page, Slice(table, i, i + n));
      var rest := PointersFrom(l, page, table, i + n);
      if sh.Ok? && rest.Ok? {
        if sh.value.Some? {
          assert PointersFrom(l, page, table, i) == Ok([sh.value.value] + rest.value);
          forall x | x in [sh.value.value] + rest.value
            ensures Located(l, page, x)
          {
            if x != sh.value.value {
              assert x in rest.value;
            }
          }
        } else {
          assert PointersFrom(l, page, table, i) == Ok([] + rest.value);
          assert [] + rest.value == rest.value;
        }
      }
    }
  }

  /** A walk over `m` whole pointers never raises and yields at most `m` subheaders. */
  lemma {:induction false} PointersFromWhole(l: Layout, page: Page, table: seq<Byte>, i: nat, m: nat)
    requires i + m * PointerSize(l.u64) == |table|
    ensures PointersFrom(l, page, table, i).Ok?
    ensures |PointersFrom(l, page, table, i).value| <= m
    decreases m
  {
    var n := PointerSize(l.u64);
    if m > 0 {
      assert i + n + (m - 1) * n == |table|;
      PointersFromWhole(l, page, table, i + n, m - 1);
      assert |Slice(table, i, i + n)| == n;
    }
  }

  /** A page whose pointer table lies inside it yields at most `subheadercount` subheaders, and never raises. */
  lemma PageSubheadersInBounds(l: Layout, page: Page)
    requires page.subheadercount >= 0
    requires TableOffset(l.u64) + page.subheadercount * PointerSize(l.u64) <= |page.data|
    ensures PageSubheaders(l, page).Ok?
    ensures |PageSubheaders(l, page).value| <= page.subheadercount
    ensures forall sh :: sh in PageSubheaders(l, page).value ==> Located(l, page, sh)
  {
    var table := PointerTable(l, page);
    assert |table| == page.subheadercount * PointerSize(l.u64);
    PointersFromWhole(l, page, table, 0, page.subheadercount);
    PointersFromLocated(l, page, table, 0);
  }

  /** The pointer at byte `i` of a page's table: `PointerSize` bytes from `TableOffset + i` of the page. */
  function PointerAt(l: Layout, page: Page, i: nat): seq<Byte> {
    var t := TableOffset(l.u64);
    Slice(page.data, t + i, t + i + PointerSize(l.u64))
  }

  /** Pointer `k` of a page's table: the one at byte `k * PointerSize`. */
  function PointerEntry(l: Layout, page: Page, k: nat): seq<Byte> {
    PointerAt(l, page, k * PointerSize(l.u64))
  }

  /**
   * The subheaders that the pointers at table bytes `i`, `i + PointerSize`,
   * … before the end of `subheadercount` pointers name, in table order; a
   * pointer that does not read names none.
   */
  function Pointed(l: Layout, page: Page, i: nat): seq<SubHeader>
    decreases page.subheadercount * PointerSize(l.u64) - i
  {
    if i >= page.subheadercount * PointerSize(l.u64) then []
    else Named(ReadPointer(l, page, PointerAt(l, page, i))) + Pointed(l, page, i + PointerSize(l.u64))
  }

  /** The subheader a read pointer names, if any. */
  function Named(r: Result<Option<SubHeader>>): seq<SubHeader> {
    if r.Ok? && r.value.Some? then [r.value.value] else []
  }

  /** Pointer `k` before pointer `c` ends inside `c` pointers, and the next one starts where it ends. */
  lemma EntryArith(k: nat, c: nat, u64: bool)
    requires k < c
    ensures k * PointerSize(u64) + PointerSize(u64) <= c * PointerSize(u64)
    ensures (k + 1) * PointerSize(u64) == k * PointerSize(u64) + PointerSize(u64)
  {
    if u64 {
      assert PointerSize(u64) == 24;
    } else {
      assert PointerSize(u64) == 12;
    }
  }

  /** The pointer at byte `i` of the table is the pointer at byte `i` of the page's table. */
  lemma TableEntry(l: Layout, page: Page, i: nat)
    requires page.subheadercount >= 0 && i + PointerSize(l.u64) <= page.subheadercount * PointerSize(l.u64)
    requires TableOffset(l.u64) + page.subheadercount * PointerSize(l.u64) <= |page.data|
    ensures |PointerAt(l, page, i)| == PointerSize(l.u64)
    ensures Slice(PointerTable(l, page), i, i + PointerSize(l.u64)) == PointerAt(l, page, i)
  {
    var t, n, end := TableOffset(l.u64), PointerSize(l.u64), page.subheadercount * PointerSize(l.u64);
    var table := PointerTable(l, page);
    assert table == page.data[t..t + end];
    var here, there := table[i..i + n], page.data[t + i..t + i + n];
    forall j | 0 <= j < n
      ensures here[j] == there[j]
    {
      assert table[i + j] == page.data[t + i + j];
    }
    assert here == there;
  }

  /** `i` is `end`, or `n` bytes before a boundary at or before `end`: a pointer starts there. */
  predicate Boundary(i: int, end: int, n: nat)
    decreases end - i
  {
    i == end || (n > 0 && i + n <= end && Boundary(i + n, end, n))
  }

  /** Pointer `k` of `c` starts on a boundary of the table. */
  lemma {:induction false} EntryBoundary(k: nat, c: nat, u64: bool)
    requires k <= c
    ensures Boundary(k * PointerSize(u64), c * PointerSize(u64), PointerSize(u64))
    decreases c - k
  {
    if k < c {
      EntryArith(k, c, u64);
      EntryBoundary(k + 1, c, u64);
    }
  }

  /** Walking the table from a boundary `i` yields exactly what the pointers from there on name, in order. */
  lemma {:induction false} PointersFromEntries(l: Layout, page: Page, i: nat)
    requires page.subheadercount >= 0
    requires Boundary(i, page.subheadercount * PointerSize(l.u64), PointerSize(l.u64))
    requires TableOffset(l.u64) + page.subheadercount * PointerSize(l.u64) <= |page.data|
    ensures PointersFrom(l, page, PointerTable(l, page), i) == Ok(Pointed(l, page, i))
    decreases page.subheadercount * PointerSize(l.u64) - i
  {
    if i == page.subheadercount * PointerSize(l.u64) {
      EntryEnd(l, page, i);
    } else {
      PointersFromEntries(l, page, i + PointerSize(l.u64));
      WalkStep(l, page, i);
      PointedStep(l, page, i);
    }
  }

  /** Past the last pointer the walk yields nothing. */
  lemma EntryEnd(l: Layout, page: Page, i: nat)
    requires page.subheadercount >= 0 && i == page.subheadercount * PointerSize(l.u64)
    requires TableOffset(l.u64) + page.subheadercount * PointerSize(l.u64) <= |page.data|
    ensures PointersFrom(l, page, PointerTable(l, page), i) == Ok(Pointed(l, page, i))
  {
    assert |PointerTable(l, page)| == i;
  }

  /** The walk at the pointer at byte `i`: what that pointer names, before the walk from the next one. */
  lemma WalkStep(l: Layout, page: Page, i: nat)
    requires page.subheadercount >= 0 && i + PointerSize(l.u64) <= page.subheadercount * PointerSize(l.u64)
    requires TableOffset(l.u64) + page.subheadercount * PointerSize(l.u64) <= |page.data|
    ensures PointersFrom(l, page, PointerTable(l, page), i) ==
      Prepend(Named(ReadPointer(l, page, PointerAt(l, page, i))), PointersFrom(l, page, PointerTable(l, page), i + PointerSize(l.u64)))
  {
    var n := PointerSize(l.u64);
    var table := PointerTable(l, page);
    assert |table| == page.subheadercount * n;
    TableEntry(l, page, i);
    WalkAt(l, page, table, i);
  }

  /** The walk of any table at a whole pointer `i`: what that pointer names, before the walk from the next one. */
  lemma WalkAt(l: Layout, page: Page, table: seq<Byte>, i: nat)
    requires i + PointerSize(l.u64) <= |table|
    ensures PointersFrom(l, page, table, i) ==
      Prepend(Named(ReadPointer(l, page, Slice(table, i, i + PointerSize(l.u64)))), PointersFrom(l, page, table, i + PointerSize(l.u64)))
  {
    var n := PointerSize(l.u64);
    var entry := Slice(table, i, i + n);
    assert |entry| == n;
    PointerGeometry(l.u64);
    var r := ReadPointer(l, page, entry);
    assert r.Ok?;
  }

  /** `Pointed` from a pointer before the end: what it names, then the rest. */
  lemma PointedStep(l: Layout, page: Page, i: nat)
    requires i + PointerSize(l.u64) <= page.subheadercount * PointerSize(l.u64)
    ensures Pointed(l, page, i) == Named(ReadPointer(l, page, PointerAt(l, page, i))) + Pointed(l, page, i + PointerSize(l.u64))
  {
    PointerGeometry(l.u64);
  }

  /** Every pointer of a table inside its page reads. */
  lemma EntryReads(l: Layout, page: Page, k: nat)
    requires page.subheadercount >= 0 && k < page.subheadercount
    requires TableOffset(l.u64) + page.subheadercount * PointerSize(l.u64) <= |page.data|
    ensures ReadPointer(l, page, PointerEntry(l, page, k)).Ok?
  {
    EntryArith(k, page.subheadercount, l.u64);
    TableEntry(l, page, k * PointerSize(l.u64));
    PointerGeometry(l.u64);
  }

  /**
   * A page whose pointer table lies inside it yields exactly the
   * subheaders its `subheadercount` pointers name, in table order: every
   * pointer reads, and one of positive length names a subheader.
   */
  lemma PageSubheadersExact(l: Layout, page: Page)
    requires page.subheadercount >= 0
    requires TableOffset(l.u64) + page.subheadercount * PointerSize(l.u64) <= |page.data|
    ensures PageSubheaders(l, page) == Ok(Pointed(l, page, 0))
    ensures forall k :: 0 <= k < page.subheadercount ==> ReadPointer(l, page, PointerEntry(l, page, k)).Ok?
  {
    EntryBoundary(0, page.subheadercount, l.u64);
    PointersFromEntries(l, page, 0);
    forall k | 0 <= k < page.subheadercount
      ensures ReadPointer(l, page, PointerEntry(l, page, k)).Ok?
    {
      EntryReads(l, page, k);
    }
  }

  // ---------------------------------------------------------------------
  // All subheaders of the file

  function SubheadersOf(l: Layout, pages: seq<Page>, j: nat): Result<seq<SubHeader>>
    decreases |pages| - j
  {
    if j >= |pages| then Ok([])
    else if !IsMetaMixAmd(pages[j].ptype) then SubheadersOf(l, pages, j + 1)
    else
      var here :- PageSubheaders(l, pages[j]);
      Prepend(here, SubheadersOf(l, pages, j + 1))
  }

  /** `readSubheaders`: the subheaders of every meta, mix and amd page, in file order. */
  function Subheaders(l: Layout, file: seq<Byte>, start: nat, count: int, size: nat): Result<seq<SubHeader>>
    requires start <= |file|
  {
    var stream := Pages(l, file, start, count, size);
    var found :- SubheadersOf(l, stream.pages, 0);
    if stream.error.Some? then Raise(stream.error.value) else Ok(found)
  }

  method ReadSubheaders(l: Layout, file: seq<Byte>, start: nat, count: int, size: nat)
    returns (r: Result<seq<SubHeader>>)
    requires start <= |file|
    ensures r == Subheaders(l, file, start, count, size)
  {
    var stream := ReadPages(l, file, start, count, size);
    var pages := stream.pages;
    var found: seq<SubHeader> := [];
    var j := 0;
    PrependNothing(SubheadersOf(l, pages, 0));
    while j < |pages|
      invariant j <= |pages|
      invariant Prepend(found, SubheadersOf(l, pages, j)) == SubheadersOf(l, pages, 0)
    {
      if IsMetaMixAmd(pages[j].ptype) {
        var here := WalkPointers(l, pages[j]);
        if here.Raise? {
          assert SubheadersOf(l, pages, j) == Raise(here.exc);
          assert SubheadersOf(l, pages, 0) == Raise(here.exc);
          return Raise(here.exc);
        }
        PrependAssoc(found, here.value, SubheadersOf(l, pages, j + 1));
        found := found + here.value;
      }
      j := j + 1;
    }
    assert found + [] == found;
    if stream.error.Some? {
      return Raise(stream.error.value);
    }
    r := Ok(found);
  }

  /** A subheader found in the pages is located in one of them, and that page is a meta, mix or amd page. */
  predicate FromMetaPage(l: Layout, pages: seq<Page>, sh: SubHeader) {
    && sh.page < |pages|
    && IsMetaMixAmd(pages[sh.page].ptype)
    && Located(l, pages[sh.page], sh)
  }

  lemma {:induction false} SubheadersOfFacts(l: Layout, pages: seq<Page>, j: nat)
    requires forall k :: 0 <= k < |pages| ==> pages[k].number == k
    ensures var r := SubheadersOf(l, pages, j);
      r.Ok? ==> forall sh :: sh in r.value ==> FromMetaPage(l, pages, sh)
    decreases |pages| - j
  {
    if j < |pages| {
      SubheadersOfFacts(l, pages, j + 1);
      var r := SubheadersOf(l, pages, j);
      if IsMetaMixAmd(pages[j].ptype) && r.Ok? {
        var here := PageSubheaders(l, pages[j]);
        PointersFromLocated(l, pages[j], PointerTable(l, pages[j]), 0);
        assert r.value == here.value + SubheadersOf(l, pages, j + 1).value;
        forall sh | sh in here.value ensures FromMetaPage(l, pages, sh) {
          assert Located(l, pages[j], sh);
          assert pages[j].number == j;
        }
      }
    }
  }

  /** Every subheader the reader collects comes from a meta, mix or amd page, at the place its pointer names. */
  lemma SubheadersFromMetaPages(l: Layout, file: seq<Byte>, start: nat, count: int, size: nat)
    requires start <= |file|
    ensures var r := Subheaders(l, file, start, count, size);
      r.Ok? ==> forall sh :: sh in r.value ==>
        FromMetaPage(l, Pages(l, file, start, count, size).pages, sh)
  {
    var pages := Pages(l, file, start, count, size).pages;
    PagesFacts(l, file, start, count, size);
    SubheadersOfFacts(l, pages, 0);
  }
}
