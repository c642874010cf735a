/**
 * Column metadata (`readColumnAttributes`, `readColumnNames`,
 * `readColumnLabels`): fixed-stride tables inside subheaders, some of whose
 * entries point into the column-text subheaders.
 */
module Columns {
  import opened Bytes
  import opened Outcomes
  import opened Fields
  import opened Pages

  datatype ColumnType = NumericColumn | CharacterColumn

  /** Where a column's bytes sit in a row, and how to decode them. */
  datatype ColumnAttr = ColumnAttr(offset: int, length: int, ctype: ColumnType)

  datatype ColumnLabel = ColumnLabel(format: seq<Byte>, text: seq<Byte>)

  /** `[x] * n` */
  function Copies<T>(x: T, n: int): (r: seq<T>)
    ensures |r| == if n < 0 then 0 else n
    ensures forall k :: 0 <= k < |r| ==> r[k] == x
  {
    if n <= 0 then [] else Copies(x, n - 1) + [x]
  }

  // ---------------------------------------------------------------------
  // Column attributes

  /** The size of one attribute entry. */
  function AttrStride(u64: bool): nat { if u64 then 16 else 12 }

  /** Where the table of attribute entries starts in its subheader. */
  function AttrTableStart(u64: bool): nat { if u64 then 16 else 12 }

  /** Where an entry keeps its type byte. */
  function AttrTypeAt(u64: bool): nat { if u64 then 14 else 10 }

  /** How many entries the subheader's length announces (Python's floor division). */
  function AttrCount(l: Layout, sh: SubHeader): int {
    if l.u64 then (sh.length - 28) / 16 else (sh.length - 20) / 12
  }

  /** The attribute entries of one subheader. */
  function AttrTable(l: Layout, sh: SubHeader): seq<Byte> {
    var start := AttrTableStart(l.u64);
    Slice(sh.raw, start, start + AttrCount(l, sh) * AttrStride(l.u64))
  }

  /** One attribute entry: offset, length and a type byte that must be 1 (numeric) or 2 (character). */
  function ReadAttr(l: Layout, pointer: seq<Byte>): (r: Result<ColumnAttr>)
    ensures r.Raise? ==> r.exc == StructError || r.exc == AssertionError
  {
    var f := FieldSize(l.u64);
    var offset :- ReadInt(l.endian, OffsetWidth(l.u64), pointer, 0, f);
    var length :- ReadInt(l.endian, I, pointer, f, 4);
    var ctype :- ReadInt(l.endian, B, pointer, AttrTypeAt(l.u64), 1);
    if ctype == 1 then Ok(ColumnAttr(offset, length, NumericColumn))
    else if ctype == 2 then Ok(ColumnAttr(offset, length, CharacterColumn))
    else Raise(AssertionError)
  }

  function AttrsFrom(l: Layout, attrs: seq<Byte>, i: nat): Result<seq<ColumnAttr>>
    decreases |attrs| - i
  {
    if i >= |attrs| then Ok([])
    else
      var a :- ReadAttr(l, Slice(attrs, i, i + AttrStride(l.u64)));
      Prepend([a], AttrsFrom(l, attrs, i + AttrStride(l.u64)))
  }

  /** `readColumnAttributes`: the entries of every column-attribute subheader, in order. */
  function AttributesOf(l: Layout, colattr: seq<SubHeader>, j: nat): Result<seq<ColumnAttr>>
    decreases |colattr| - j
  {
    if j >= |colattr| then Ok([])
    else
      var here :- AttrsFrom(l, AttrTable(l, colattr[j]), 0);
      Prepend(here, AttributesOf(l, colattr, j + 1))
  }

  /** The inner loop of `readColumnAttributes`: one subheader's table. */
  method ReadAttrTable(l: Layout, attrs: seq<Byte>) returns (r: Result<seq<ColumnAttr>>)
    ensures r == AttrsFrom(l, attrs, 0)
  {
    var step := AttrStride(l.u64);
    var info: seq<ColumnAttr> := [];
    var i := 0;
    PrependNothing(AttrsFrom(l, attrs, 0));
    while i < |attrs|
      invariant Prepend(info, AttrsFrom(l, attrs, i)) == AttrsFrom(l, attrs, 0)
      decreases |attrs| - i
    {
      var a := ReadAttr(l, Slice(attrs, i, i + step));
      if a.Raise? {
        assert AttrsFrom(l, attrs, i) == Raise(a.exc);
        return Raise(a.exc);
      }
      PrependAssoc(info, [a.value], AttrsFrom(l, attrs, i + step));
      info := info + [a.value];
      i := i + step;
    }
    assert info + [] == info;
    r := Ok(info);
  }

  method ReadColumnAttributes(l: Layout, colattr: seq<SubHeader>) returns (r: Result<seq<ColumnAttr>>)
    ensures r == AttributesOf(l, colattr, 0)
  {
    var info: seq<ColumnAttr> := [];
    var j := 0;
    PrependNothing(AttributesOf(l, colattr, 0));
    while j < |colattr|
      invariant j <= |colattr|
      invariant Prepend(info, AttributesOf(l, colattr, j)) == AttributesOf(l, colattr, 0)
    {
      var here := ReadAttrTable(l, AttrTable(l, colattr[j]));
      if here.Raise? {
        assert AttributesOf(l, colattr, j) == Raise(here.exc);
        return Raise(here.exc);
      }
      PrependAssoc(info, here.value, AttributesOf(l, colattr, j + 1));
      info := info + here.value;
      j := j + 1;
    }
    assert info + [] == info;
    r := Ok(info);
  }

  /** The type byte of a column type. */
  function TypeCode(t: ColumnType): Byte {
    if t == NumericColumn then 1 else 2
  }

  /** The bytes of an attribute entry holding `a` (the bytes the reader skips are zero). */
  function EncodeAttr(l: Layout, a: ColumnAttr): (p: seq<Byte>)
    requires -SignBound(FieldSize(l.u64)) <= a.offset < SignBound(FieldSize(l.u64))
    requires -SignBound(4) <= a.length < SignBound(4)
    ensures |p| == AttrStride(l.u64)
    ensures p[0..FieldSize(l.u64)] == EncodeInt(l.endian, a.offset, FieldSize(l.u64))
    ensures p[FieldSize(l.u64)..FieldSize(l.u64) + 4] == EncodeInt(l.endian, a.length, 4)
    ensures p[AttrTypeAt(l.u64)] == TypeCode(a.ctype)
  {
    EncodeInt(l.endian, a.offset, FieldSize(l.u64)) + EncodeInt(l.endian, a.length, 4)
      + [0, 0, TypeCode(a.ctype), 0]
  }

  /** Reading an attribute entry inverts writing it. */
  lemma ReadAttrOfEncode(l: Layout, a: ColumnAttr)
    requires -SignBound(FieldSize(l.u64)) <= a.offset < SignBound(FieldSize(l.u64))
    requires -SignBound(4) <= a.length < SignBound(4)
    ensures ReadAttr(l, EncodeAttr(l, a)) == Ok(a)
  {
    var f := FieldSize(l.u64);
    var p := EncodeAttr(l, a);
    assert ReadInt(l.endian, OffsetWidth(l.u64), p, 0, f) == Ok(a.offset) by {
      ReadIntWithin(l.endian, OffsetWidth(l.u64), p, 0, f);
      ReadIntOfEncodeInt(l.endian, OffsetWidth(l.u64), a.offset);
    }
    assert ReadInt(l.endian, I, p, f, 4) == Ok(a.length) by {
      ReadIntWithin(l.endian, I, p, f, 4);
      ReadIntOfEncodeInt(l.endian, I, a.length);
    }
    assert ReadInt(l.endian, B, p, AttrTypeAt(l.u64), 1) == Ok(TypeCode(a.ctype)) by {
      ReadByte(l.endian, p, AttrTypeAt(l.u64));
    }
  }

  /** A whole entry is rejected exactly when its type byte is neither 1 nor 2; 1 means numeric. */
  lemma ReadAttrType(l: Layout, pointer: seq<Byte>)
    requires |pointer| == AttrStride(l.u64)
    ensures var t := pointer[AttrTypeAt(l.u64)];
      && (ReadAttr(l, pointer).Ok? <==> t == 1 || t == 2)
      && (ReadAttr(l, pointer).Raise? ==> ReadAttr(l, pointer).exc == AssertionError)
      && (ReadAttr(l, pointer).Ok? ==> (ReadAttr(l, pointer).value.ctype == NumericColumn <==> t == 1))
  {
    var f := FieldSize(l.u64);
    assert |Slice(pointer, 0, f)| == f;
    assert |Slice(pointer, f, f + 4)| == 4;
    ReadByte(l.endian, pointer, AttrTypeAt(l.u64));
  }

  /** A table of `m` whole entries yields exactly `m` attributes, or fails on a bad type byte. */
  lemma {:induction false} AttrsFromWhole(l: Layout, attrs: seq<Byte>, i: nat, m: nat)
    requires i + m * AttrStride(l.u64) == |attrs|
    ensures var r := AttrsFrom(l, attrs, i);
      && (r.Ok? ==> |r.value| == m)
      && (r.Ok? ==> forall k :: 0 <= k < m ==> ReadAttr(l, Entry(attrs, i, k, AttrStride(l.u64))) == Ok(r.value[k]))
      && (r.Raise? ==> r.exc == AssertionError)
    decreases m
  {
    var n := AttrStride(l.u64);
    if m > 0 {
      assert i + n + (m - 1) * n == |attrs|;
      AttrsFromWhole(l, attrs, i + n, m - 1);
      ReadAttrType(l, Slice(attrs, i, i + n));
    }
    AttrsFromEntries(l, attrs, i);
  }

  /** Attribute `k` read from a table is its entry `k`, read alone. */
  lemma {:induction false} AttrsFromEntries(l: Layout, attrs: seq<Byte>, i: nat)
    ensures var r := AttrsFrom(l, attrs, i);
      r.Ok? ==> forall k :: 0 <= k < |r.value| ==> ReadAttr(l, Entry(attrs, i, k, AttrStride(l.u64))) == Ok(r.value[k])
    decreases |attrs| - i
  {
    var n := AttrStride(l.u64);
    assert n == 16 || n == 12;
    var r := AttrsFrom(l, attrs, i);
    if i < |attrs| && r.Ok? {
      var rest := AttrsFrom(l, attrs, i + n);
      AttrsFromEntries(l, attrs, i + n);
      var a := ReadAttr(l, Slice(attrs, i, i + n));
      assert a.Ok? && rest.Ok? && r.value == [a.value] + rest.value;
      forall k | 0 <= k < |r.value|
        ensures ReadAttr(l, Entry(attrs, i, k, n)) == Ok(r.value[k])
      {
        if k > 0 {
          EntryNext(attrs, i, k, n);
          assert r.value[k] == rest.value[k - 1];
        }
      }
    }
  }

  /** A subheader whose announced table lies inside its bytes. */
  predicate AttrTableWhole(l: Layout, sh: SubHeader) {
    AttrCount(l, sh) >= 0 && AttrTableStart(l.u64) + AttrCount(l, sh) * AttrStride(l.u64) <= |sh.raw|
  }

  function TotalAttrCount(l: Layout, colattr: seq<SubHeader>, j: nat): int
    decreases |colattr| - j
  {
    if j >= |colattr| then 0 else AttrCount(l, colattr[j]) + TotalAttrCount(l, colattr, j + 1)
  }

  /**
   * When every table lies inside its subheader, the reader yields exactly as
   * many attributes as the subheader lengths announce, or stops on a bad type byte.
   */
  lemma {:induction false} AttributesCount(l: Layout, colattr: seq<SubHeader>, j: nat)
    requires forall k :: 0 <= k < |colattr| ==> AttrTableWhole(l, colattr[k])
    ensures var r := AttributesOf(l, colattr, j);
      && (r.Ok? ==> |r.value| == TotalAttrCount(l, colattr, j))
      && (r.Raise? ==> r.exc == AssertionError)
    decreases |colattr| - j
  {
    if j < |colattr| {
      var sh := colattr[j];
      var m := AttrCount(l, sh);
      var table := AttrTable(l, sh);
      assert AttrTableWhole(l, sh);
      assert |table| == m * AttrStride(l.u64);
      AttrsFromWhole(l, table, 0, m);
      AttributesCount(l, colattr, j + 1);
    }
  }

  // ---------------------------------------------------------------------
  // Text references (column names and labels)

  /** A piece of a column-text subheader: which one, where in it, how long. */
  datatype TextRef = TextRef(txt: int, offset: int, length: int)

  /** Text offsets are stored relative to the end of the column-text subheader's signature. */
  function TextShift(u64: bool): nat { if u64 then 8 else 4 }

  /** Three signed 16-bit fields at `base`: the subheader index, the offset and the length. */
  function ReadTextRef(l: Layout, h: seq<Byte>, base: int): Result<TextRef> {
    var txt :- ReadInt(l.endian, H, h, base, 2);
    var offset :- ReadInt(l.endian, H, h, base + 2, 2);
    var length :- ReadInt(l.endian, H, h, base + 4, 2);
    Ok(TextRef(txt, offset + TextShift(l.u64), length))
  }

  /** The text a reference names; a missing column-text subheader is a list index out of range. */
  function TextOf(l: Layout, coltext: seq<SubHeader>, ref: TextRef): (r: Result<seq<Byte>>)
    ensures r.Raise? ==> r.exc == IndexError || r.exc == StructError
  {
    if !IndexOk(coltext, ref.txt) then Raise(IndexError)
    else TextIn(l, Index(coltext, ref.txt), ref)
  }

  /** The text a reference picks out of one column-text subheader. */
  function TextIn(l: Layout, sh: SubHeader, ref: TextRef): (r: Result<seq<Byte>>)
    ensures r.Raise? ==> r.exc == StructError
  {
    ReadStr(l.endian, sh.raw, ref.offset, ref.length)
  }

  /** The six bytes of a text reference (offset given relative to the signature's end). */
  function EncodeTextRef(l: Layout, txt: int, offset: int, length: int): (p: seq<Byte>)
    requires -SignBound(2) <= txt < SignBound(2)
    requires -SignBound(2) <= offset < SignBound(2)
    requires -SignBound(2) <= length < SignBound(2)
    ensures |p| == 6
    ensures p[0..2] == EncodeInt(l.endian, txt, 2)
    ensures p[2..4] == EncodeInt(l.endian, offset, 2)
    ensures p[4..6] == EncodeInt(l.endian, length, 2)
  {
    EncodeInt(l.endian, txt, 2) + EncodeInt(l.endian, offset, 2) + EncodeInt(l.endian, length, 2)
  }

  /** Reading a text reference inverts writing it, and moves the offset past the signature. */
  lemma ReadTextRefOfEncode(l: Layout, txt: int, offset: int, length: int)
    requires -SignBound(2) <= txt < SignBound(2)
    requires -SignBound(2) <= offset < SignBound(2)
    requires -SignBound(2) <= length < SignBound(2)
    ensures ReadTextRef(l, EncodeTextRef(l, txt, offset, length), 0)
      == Ok(TextRef(txt, offset + TextShift(l.u64), length))
  {
    var p := EncodeTextRef(l, txt, offset, length);
    ReadIntWithin(l.endian, H, p, 0, 2);
    ReadIntOfEncodeInt(l.endian, H, txt);
    ReadIntWithin(l.endian, H, p, 2, 2);
    ReadIntOfEncodeInt(l.endian, H, offset);
    ReadIntWithin(l.endian, H, p, 4, 2);
    ReadIntOfEncodeInt(l.endian, H, length);
  }

  /** A reference to a column-text subheader that does not exist raises IndexError, and only such a one does. */
  lemma TextOfMissing(l: Layout, coltext: seq<SubHeader>, ref: TextRef)
    ensures TextOf(l, coltext, ref) == Raise(IndexError) <==> !IndexOk(coltext, ref.txt)
  {
  }

  /** A negative length raises struct.error. */
  lemma TextOfNegativeLength(l: Layout, coltext: seq<SubHeader>, ref: TextRef)
    requires IndexOk(coltext, ref.txt) && ref.length < 0
    ensures TextOf(l, coltext, ref) == Raise(StructError)
  {
  }

  /**
   * A reference to an existing column-text subheader whose window lies inside
   * it gives that window with its NUL padding stripped.
   */
  lemma TextOfWindow(l: Layout, coltext: seq<SubHeader>, ref: TextRef)
    requires IndexOk(coltext, ref.txt) && 0 <= ref.offset && 0 <= ref.length
    requires ref.offset + ref.length <= |Index(coltext, ref.txt).raw|
    ensures TextOf(l, coltext, ref)
      == Ok(Strip(Index(coltext, ref.txt).raw[ref.offset..ref.offset + ref.length], Nul))
  {
    TextInWindow(l, Index(coltext, ref.txt), ref);
  }

  lemma TextInWindow(l: Layout, sh: SubHeader, ref: TextRef)
    requires 0 <= ref.offset && 0 <= ref.length && ref.offset + ref.length <= |sh.raw|
    ensures TextIn(l, sh, ref) == Ok(Strip(sh.raw[ref.offset..ref.offset + ref.length], Nul))
  {
    ReadStrWindow(l.endian, sh.raw, ref.offset, ref.length);
  }

  // ---------------------------------------------------------------------
  // Column names

  /** Each name entry is eight bytes wide in both layouts. */
  const NameStride: nat := 8

  function NameCount(l: Layout, sh: SubHeader): int {
    if l.u64 then (sh.length - 28) / 8 else (sh.length - 20) / 8
  }

  function NameTable(l: Layout, sh: SubHeader): seq<Byte> {
    var start := AttrTableStart(l.u64);
    Slice(sh.raw, start, start + NameCount(l, sh) * NameStride)
  }

  function NamesFrom(l: Layout, coltext: seq<SubHeader>, names: seq<Byte>, i: nat): Result<seq<seq<Byte>>>
    decreases |names| - i
  {
    if i >= |names| then Ok([])
    else
      var ref :- ReadTextRef(l, Slice(names, i, i + NameStride), 0);
      var name :- TextOf(l, coltext, ref);
      Prepend([name], NamesFrom(l, coltext, names, i + NameStride))
  }

  /** `readColumnNames`: one name per entry of every column-name subheader, in order. */
  function NamesOf(l: Layout, colname: seq<SubHeader>, coltext: seq<SubHeader>, j: nat): Result<seq<seq<Byte>>>
    decreases |colname| - j
  {
    if j >= |colname| then Ok([])
    else
      var here :- NamesFrom(l, coltext, NameTable(l, colname[j]), 0);
      Prepend(here, NamesOf(l, colname, coltext, j + 1))
  }

  /** One entry of the name table: the exception its reference or its text raises, or its name before the rest. */
  lemma NamesFromStep(l: Layout, coltext: seq<SubHeader>, names: seq<Byte>, i: nat)
    requires i < |names|
    ensures var ref := ReadTextRef(l, Slice(names, i, i + NameStride), 0);
      && (ref.Raise? ==> NamesFrom(l, coltext, names, i) == Raise(ref.exc))
      && (ref.Ok? && TextOf(l, coltext, ref.value).Raise? ==>
            NamesFrom(l, coltext, names, i) == Raise(TextOf(l, coltext, ref.value).exc))
      && (ref.Ok? && TextOf(l, coltext, ref.value).Ok? ==>
            NamesFrom(l, coltext, names, i) == Prepend([TextOf(l, coltext, ref.value).value], NamesFrom(l, coltext, names, i + NameStride)))
  {
  }

  method ReadNameTable(l: Layout, coltext: seq<SubHeader>, names: seq<Byte>) returns (r: Result<seq<seq<Byte>>>)
    ensures r == NamesFrom(l, coltext, names, 0)
  {
    var info: seq<seq<Byte>> := [];
    var i := 0;
    PrependNothing(NamesFrom(l, coltext, names, 0));
    while i < |names|
      invariant Prepend(info, NamesFrom(l, coltext, names, i)) == NamesFrom(l, coltext, names, 0)
      decreases |names| - i
    {
      NamesFromStep(l, coltext, names, i);
      var ref := ReadTextRef(l, Slice(names, i, i + NameStride), 0);
      if ref.Raise? {
        return Raise(ref.exc);
      }
      var name := TextOf(l, coltext, ref.value);
      if name.Raise? {
        return Raise(name.exc);
      }
      PrependAssoc(info, [name.value], NamesFrom(l, coltext, names, i + NameStride));
      info := info + [name.value];
      i := i + NameStride;
    }
    assert info + [] == info;
    r := Ok(info);
  }

  method ReadColumnNames(l: Layout, colname: seq<SubHeader>, coltext: seq<SubHeader>)
    returns (r: Result<seq<seq<Byte>>>)
    ensures r == NamesOf(l, colname, coltext, 0)
  {
    var info: seq<seq<Byte>> := [];
    var j := 0;
    PrependNothing(NamesOf(l, colname, coltext, 0));
    while j < |colname|
      invariant j <= |colname|
      invariant Prepend(info, NamesOf(l, colname, coltext, j)) == NamesOf(l, colname, coltext, 0)
    {
      var here := ReadNameTable(l, coltext, NameTable(l, colname[j]));
      if here.Raise? {
        assert NamesOf(l, colname, coltext, j) == Raise(here.exc);
        return Raise(here.exc);
      }
      PrependAssoc(info, here.value, NamesOf(l, colname, coltext, j + 1));
      info := info + here.value;
      j := j + 1;
    }
    assert info + [] == info;
    r := Ok(info);
  }

  /** A table of `m` whole name entries yields `m` names, unless a reference fails. */
  lemma {:induction false} NamesFromWhole(l: Layout, coltext: seq<SubHeader>, names: seq<Byte>, i: nat, m: nat)
    requires i + m * NameStride == |names|
    ensures var r := NamesFrom(l, coltext, names, i);
      && (r.Ok? ==> |r.value| == m)
      && (r.Ok? ==> forall k :: 0 <= k < m ==>
            var ref := ReadTextRef(l, Entry(names, i, k, NameStride), 0);
            ref.Ok? && TextOf(l, coltext, ref.value) == Ok(r.value[k]))
      && (r.Raise? ==> r.exc == IndexError || r.exc == StructError)
    decreases m
  {
    var n := NameStride;
    if m > 0 {
      assert i + n + (m - 1) * n == |names|;
      NamesFromWhole(l, coltext, names, i + n, m - 1);
      assert |Slice(names, i, i + n)| == n;
    }
    NamesFromEntries(l, coltext, names, i);
  }

  /** Name `k` read from a table is the text its entry `k` refers to. */
  lemma {:induction false} NamesFromEntries(l: Layout, coltext: seq<SubHeader>, names: seq<Byte>, i: nat)
    ensures var r := NamesFrom(l, coltext, names, i);
      r.Ok? ==> forall k :: 0 <= k < |r.value| ==>
        var ref := ReadTextRef(l, Entry(names, i, k, NameStride), 0);
        ref.Ok? && TextOf(l, coltext, ref.value) == Ok(r.value[k])
    decreases |names| - i
  {
    var n := NameStride;
    var r := NamesFrom(l, coltext, names, i);
    if i < |names| && r.Ok? {
      var rest := NamesFrom(l, coltext, names, i + n);
      NamesFromEntries(l, coltext, names, i + n);
      var ref := ReadTextRef(l, Slice(names, i, i + n), 0);
      assert ref.Ok?;
      var name := TextOf(l, coltext, ref.value);
      assert name.Ok? && rest.Ok? && r.value == [name.value] + rest.value;
      forall k | 0 <= k < |r.value|
        ensures var ref := ReadTextRef(l, Entry(names, i, k, n), 0);
          ref.Ok? && TextOf(l, coltext, ref.value) == Ok(r.value[k])
      {
        if k > 0 {
          EntryNext(names, i, k, n);
          assert r.value[k] == rest.value[k - 1];
        }
      }
    }
  }

  // ---------------------------------------------------------------------
  // Column labels

  /** Where the format and the label references sit in a label subheader. */
  function FormatRefAt(u64: bool): nat { if u64 then 46 else 34 }
  function LabelRefAt(u64: bool): nat { if u64 then 52 else 40 }

  /** A referenced text, or the empty string when the length is not positive (then nothing is looked up). */
  function OptionalText(l: Layout, coltext: seq<SubHeader>, ref: TextRef): Result<seq<Byte>> {
    if ref.length > 0 then TextOf(l, coltext, ref) else Ok([])
  }

  function LabelOf(l: Layout, coltext: seq<SubHeader>, sh: SubHeader): Result<ColumnLabel> {
    var fref :- ReadTextRef(l, sh.raw, FormatRefAt(l.u64));
    var format :- OptionalText(l, coltext, fref);
    var lref :- ReadTextRef(l, sh.raw, LabelRefAt(l.u64));
    var text :- OptionalText(l, coltext, lref);
    Ok(ColumnLabel(format, text))
  }

  /** The label decoder for one label subheader, as a value the label loop maps over the subheaders. */
  function LabelFn(l: Layout, coltext: seq<SubHeader>): (f: SubHeader -> Result<ColumnLabel>)
    ensures forall sh :: f(sh) == LabelOf(l, coltext, sh)
  {
    sh => LabelOf(l, coltext, sh)
  }

  const NoLabel := ColumnLabel([], [])

  /**
   * `readColumnLabels`: one label per label subheader; with none, `colcount`
   * empty labels (the `or` fallback after the loop applies to an empty result).
   */
  function ColumnLabels(l: Layout, collabs: seq<SubHeader>, coltext: seq<SubHeader>, colcount: int)
    : Result<seq<ColumnLabel>>
  {
    if |collabs| < 1 then Ok(Copies(NoLabel, colcount))
    else
      var info :- MapFrom(LabelFn(l, coltext), collabs, 0);
      Ok(if |info| == 0 then Copies(NoLabel, colcount) else info)
  }

  method ReadColumnLabels(l: Layout, collabs: seq<SubHeader>, coltext: seq<SubHeader>, colcount: int)
    returns (r: Result<seq<ColumnLabel>>)
    ensures r == ColumnLabels(l, collabs, coltext, colcount)
  {
    if |collabs| < 1 {
      return Ok(Copies(NoLabel, colcount));
    }
    var info: seq<ColumnLabel> := [];
    var j := 0;
    PrependNothing(MapFrom(LabelFn(l, coltext), collabs, 0));
    while j < |collabs|
      invariant j <= |collabs|
      invariant Prepend(info, MapFrom(LabelFn(l, coltext), collabs, j)) == MapFrom(LabelFn(l, coltext), collabs, 0)
    {
      var lab := LabelOf(l, coltext, collabs[j]);
      MapFromStep(LabelFn(l, coltext), collabs, j);
      if lab.Raise? {
        return Raise(lab.exc);
      }
      PrependAssoc(info, [lab.value], MapFrom(LabelFn(l, coltext), collabs, j + 1));
      info := info + [lab.value];
      j := j + 1;
    }
    assert info + [] == info;
    if |info| == 0 {
      info := Copies(NoLabel, colcount);
    }
    r := Ok(info);
  }

  /** Without label subheaders every column gets an empty format and label (none when `colcount` is negative). */
  lemma LabelsWithoutSubheaders(l: Layout, coltext: seq<SubHeader>, colcount: int)
    ensures ColumnLabels(l, [], coltext, colcount).Ok?
    ensures var v := ColumnLabels(l, [], coltext, colcount).value;
      |v| == (if colcount < 0 then 0 else colcount) && forall k :: 0 <= k < |v| ==> v[k] == NoLabel
  {
  }

  /**
   * With label subheaders present, the k-th label comes from the k-th subheader,
   * one each, so the empty-result fallback never applies.
   */
  lemma LabelsOnePerSubheader(l: Layout, collabs: seq<SubHeader>, coltext: seq<SubHeader>, colcount: int)
    requires |collabs| >= 1
    ensures ColumnLabels(l, collabs, coltext, colcount).Ok? ==>
      && |ColumnLabels(l, collabs, coltext, colcount).value| == |collabs|
      && forall k :: 0 <= k < |collabs| ==>
           LabelOf(l, coltext, collabs[k]) == Ok(ColumnLabels(l, collabs, coltext, colcount).value[k])
  {
    var f := LabelFn(l, coltext);
    if MapFrom(f, collabs, 0).Ok? {
      forall k | 0 <= k < |collabs|
        ensures LabelOf(l, coltext, collabs[k]) == Ok(MapFrom(f, collabs, 0).value[k])
      {
        MapFromAt(f, collabs, 0, k);
      }
    }
  }

  /** A reference of length zero or less gives an empty text without looking at the column text at all. */
  lemma EmptyTextNeedsNoColumnText(l: Layout, sh: SubHeader)
    requires ReadTextRef(l, sh.raw, FormatRefAt(l.u64)).Ok?
    requires ReadTextRef(l, sh.raw, FormatRefAt(l.u64)).value.length <= 0
    requires ReadTextRef(l, sh.raw, LabelRefAt(l.u64)).Ok?
    requires ReadTextRef(l, sh.raw, LabelRefAt(l.u64)).value.length <= 0
    ensures LabelOf(l, [], sh) == Ok(NoLabel)
  {
  }
}
