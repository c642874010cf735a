/**
 * The row decompressor (`uncompressData`): a stream of control bytes, each
 * followed by the input it consumes. The high nibble of a control byte picks
 * the command; the low nibble, or for some commands the whole byte, gives
 * its length.
 */
module Decompress {
  import opened Bytes

  /** What one control byte asks for. */
  datatype Command =
    | Copy(n: nat)               // copy the next n input bytes verbatim
    | RepeatNext(n: nat)         // repeat the next input byte n times
    | Insert(fill: Byte, n: nat) // emit n copies of a fixed byte
    | Skip                       // emit nothing

  /** The command of control byte `c`, by its high nibble (compared as a range of `c`). */
  function CommandOf(c: Byte): (r: Command)
    ensures c / 16 == 0 ==> r == Copy(c + 64)
    ensures 1 <= c / 16 <= 5 ==> r == Skip
    ensures c / 16 == 6 ==> r == Insert(0x20, c + 17)
    ensures c / 16 == 7 ==> r == Insert(0x00, c + 17)
    ensures 8 <= c / 16 <= 11 ==> r == Copy(c % 16 + 1 + 16 * (c / 16 - 8))
    ensures c / 16 == 12 ==> r == RepeatNext(c % 16 + 3)
    ensures c / 16 == 13 ==> r == Insert(0x40, c % 16 + 2)
    ensures c / 16 == 14 ==> r == Insert(0x20, c % 16 + 2)
    ensures c / 16 == 15 ==> r == Insert(0x00, c % 16 + 2)
  {
    var lo := c % 16;
    if c < 0x10 then Copy(c + 64)
    else if c < 0x60 then Skip
    else if c < 0x70 then Insert(0x20, c + 17)
    else if c < 0x80 then Insert(0x00, c + 17)
    else if c < 0x90 then Copy(lo + 1)
    else if c < 0xA0 then Copy(lo + 17)
    else if c < 0xB0 then Copy(lo + 33)
    else if c < 0xC0 then Copy(lo + 49)
    else if c < 0xD0 then RepeatNext(lo + 3)
    else if c < 0xE0 then Insert(0x40, lo + 2)
    else if c < 0xF0 then Insert(0x20, lo + 2)
    else Insert(0x00, lo + 2)
  }

  /**
   * One command at the front of the remaining input: what it emits and how
   * many input bytes it uses up, the control byte included. Reads past the end
   * of the input return what is left, as a `StringIO` does.
   */
  function Step(s: seq<Byte>): (r: (seq<Byte>, nat))
    requires s != []
    ensures 1 <= r.1 <= |s|
  {
    var rest := s[1..];
    match CommandOf(s[0])
    case Copy(n) =>
      var got := FileRead(rest, 0, n);
      (got, 1 + |got|)
    case RepeatNext(n) =>
      var got := FileRead(rest, 0, 1);
      (if |got| == 0 then [] else Repeat(got[0], n), 1 + |got|)
    case Insert(b, n) => (Repeat(b, n), 1)
    case Skip => ([], 1)
  }

  /** The decompressed form of a whole input. */
  function Decompressed(s: seq<Byte>): seq<Byte>
    decreases |s|
  {
    if |s| == 0 then []
    else
      var (out, used) := Step(s);
      out + Decompressed(s[used..])
  }

  /**
   * The reader's loop: take a control byte while one remains, append what its
   * command produces, and move past the input it consumed. (The source appends
   * chunks to a list and joins them at the end; that is the concatenation here.)
   */
  method Uncompress(data: seq<Byte>) returns (result: seq<Byte>)
    ensures result == Decompressed(data)
  {
    result := [];
    var pos := 0;
    while pos < |data|
      invariant 0 <= pos <= |data|
      invariant result + Decompressed(data[pos..]) == Decompressed(data)
    {
      var chunk, next := NextChunk(data, pos);
      DecompressedFrom(data, pos, chunk, next);
      AppendAssoc(result, chunk, Decompressed(data[next..]));
      result, pos := result + chunk, next;
    }
  }

  /** One pass of the reader's loop body: the control byte at `pos` and its operands. */
  method NextChunk(data: seq<Byte>, pos: nat) returns (chunk: seq<Byte>, next: nat)
    requires pos < |data|
    ensures pos < next <= |data|
    ensures Step(data[pos..]) == (chunk, next - pos)
  {
    StepInPlace(data, pos);
    var d := data[pos];
    next := pos + 1;
    match CommandOf(d) {
    case Copy(n) =>
      chunk := FileRead(data, next, n);
      next := next + |chunk|;
    case RepeatNext(n) =>
      var operand := FileRead(data, next, 1);
      next := next + |operand|;
      chunk := if |operand| == 0 then [] else Repeat(operand[0], n);
    case Insert(b, n) =>
      chunk := Repeat(b, n);
    case Skip =>
      chunk := [];
    }
  }

  lemma AppendAssoc(a: seq<Byte>, b: seq<Byte>, c: seq<Byte>)
    ensures (a + b) + c == a + (b + c)
  {
  }

  /** Decompression from a position takes the command there, then goes on after the input it used. */
  lemma DecompressedFrom(data: seq<Byte>, pos: nat, out: seq<Byte>, next: nat)
    requires pos < next <= |data| && Step(data[pos..]) == (out, next - pos)
    ensures Decompressed(data[pos..]) == out + Decompressed(data[next..])
  {
    assert data[pos..][next - pos..] == data[next..];
  }

  /** The command at `pos` reads its operands where they lie in the whole input. */
  lemma StepInPlace(data: seq<Byte>, pos: nat)
    requires pos < |data|
    ensures var next := FileRead(data, pos + 1, 1);
      match CommandOf(data[pos])
      case Copy(n) => Step(data[pos..]) == (FileRead(data, pos + 1, n), 1 + |FileRead(data, pos + 1, n)|)
      case RepeatNext(n) => Step(data[pos..]) == (if |next| == 0 then [] else Repeat(next[0], n), 1 + |next|)
      case Insert(b, n) => Step(data[pos..]) == (Repeat(b, n), 1)
      case Skip => Step(data[pos..]) == ([], 1)
  {
    var s := data[pos..];
    assert s[1..] == data[pos + 1..];
    FileReadShift(data, pos + 1, 1);
    if CommandOf(data[pos]).Copy? {
      FileReadShift(data, pos + 1, CommandOf(data[pos]).n);
    }
  }

  // ---------------------------------------------------------------------
  // What each command does

  lemma DecompressedEmpty()
    ensures Decompressed([]) == []
  {
  }

  /** Decompression takes the stream one command at a time. */
  lemma DecompressedCons(c: Byte, payload: seq<Byte>, rest: seq<Byte>)
    requires Step([c] + payload + rest).1 == 1 + |payload|
    ensures Decompressed([c] + payload + rest) == Step([c] + payload + rest).0 + Decompressed(rest)
  {
    assert ([c] + payload + rest)[1 + |payload|..] == rest;
  }

  /** 0x80–0xBF copy the next 1–64 bytes (0x8n: n+1, 0x9n: n+17, 0xAn: n+33, 0xBn: n+49). */
  lemma CopyShort(c: Byte, literal: seq<Byte>, rest: seq<Byte>)
    requires 0x80 <= c < 0xC0 && |literal| == c - 0x7F
    ensures Decompressed([c] + literal + rest) == literal + Decompressed(rest)
  {
    var s := [c] + literal + rest;
    assert CommandOf(c) == Copy(c - 0x7F);
    assert s[1..][..|literal|] == literal;
    DecompressedCons(c, literal, rest);
  }

  /** 0x00–0x0F copy the next (whole control byte + 64) bytes. */
  lemma CopyLong(c: Byte, literal: seq<Byte>, rest: seq<Byte>)
    requires c < 0x10 && |literal| == c + 64
    ensures Decompressed([c] + literal + rest) == literal + Decompressed(rest)
  {
    var s := [c] + literal + rest;
    assert CommandOf(c) == Copy(c + 64);
    assert s[1..][..|literal|] == literal;
    DecompressedCons(c, literal, rest);
  }

  /** 0xCn repeats the next byte n+3 times. */
  lemma RepeatByte(c: Byte, b: Byte, rest: seq<Byte>)
    requires 0xC0 <= c < 0xD0
    ensures Decompressed([c, b] + rest) == Repeat(b, c % 16 + 3) + Decompressed(rest)
  {
    assert [c, b] + rest == [c] + [b] + rest;
    DecompressedCons(c, [b], rest);
  }

  /** 0xDn, 0xEn, 0xFn emit n+2 bytes of 0x40, 0x20, 0x00. */
  lemma ShortFill(c: Byte, rest: seq<Byte>)
    requires 0xD0 <= c
    ensures Decompressed([c] + rest) ==
      Repeat(if c < 0xE0 then 0x40 else if c < 0xF0 then 0x20 else 0x00, c % 16 + 2) + Decompressed(rest)
  {
    assert [c] + [] + rest == [c] + rest;
    DecompressedCons(c, [], rest);
  }

  /** 0x6n and 0x7n emit (whole control byte + 17) spaces or zeros. */
  lemma LongFill(c: Byte, rest: seq<Byte>)
    requires 0x60 <= c < 0x80
    ensures Decompressed([c] + rest) == Repeat(if c < 0x70 then 0x20 else 0x00, c + 17) + Decompressed(rest)
  {
    assert [c] + [] + rest == [c] + rest;
    DecompressedCons(c, [], rest);
  }

  /** 0x10–0x5F are consumed and emit nothing. */
  lemma Ignored(c: Byte, rest: seq<Byte>)
    requires 0x10 <= c < 0x60
    ensures Decompressed([c] + rest) == Decompressed(rest)
  {
    assert [c] + [] + rest == [c] + rest;
    DecompressedCons(c, [], rest);
  }

  /** A copy whose input runs out copies what is left and ends the output. */
  lemma CopyTruncated(c: Byte, tail: seq<Byte>)
    requires CommandOf(c).Copy? && |tail| < CommandOf(c).n
    ensures Decompressed([c] + tail) == tail
  {
    var s := [c] + tail;
    assert s[1..] == tail;
    assert s[1 + |tail|..] == [];
  }

  // ---------------------------------------------------------------------
  // Round trip: a hand-built control stream decompresses to the bytes it describes

  /** A piece of a row and the one control command that stands for it. */
  datatype Piece =
    | Literal(bytes: seq<Byte>)   // copied verbatim
    | Run(b: Byte, count: nat)    // one byte repeated
    | Fill(b: Byte, count: nat)   // 0x40, 0x20 or 0x00 inserted without input

  predicate Encodable(p: Piece) {
    match p
    case Literal(bs) => 1 <= |bs| <= 79
    case Run(_, n) => 3 <= n <= 18
    case Fill(b, n) =>
      || ((b == 0x40 || b == 0x20 || b == 0x00) && 2 <= n <= 17)
      || (b == 0x20 && 113 <= n <= 128)
      || (b == 0x00 && 129 <= n <= 144)
  }

  /** The bytes a piece stands for. */
  function Expand(p: Piece): seq<Byte> {
    match p
    case Literal(bs) => bs
    case Run(b, n) => Repeat(b, n)
    case Fill(b, n) => Repeat(b, n)
  }

  /** A control byte and payload for one piece. */
  function EncodePiece(p: Piece): seq<Byte>
    requires Encodable(p)
  {
    match p
    case Literal(bs) =>
      if |bs| <= 64 then [0x7F + |bs|] + bs else [|bs| - 64] + bs
    case Run(b, n) => [0xC0 + n - 3, b]
    case Fill(b, n) =>
      if n <= 17 then [(if b == 0x40 then 0xD0 else if b == 0x20 then 0xE0 else 0xF0) + n - 2]
      else [n - 17]
  }

  function Encode(ps: seq<Piece>): seq<Byte>
    requires forall i :: 0 <= i < |ps| ==> Encodable(ps[i])
  {
    if |ps| == 0 then [] else EncodePiece(ps[0]) + Encode(ps[1..])
  }

  function ExpandAll(ps: seq<Piece>): seq<Byte> {
    if |ps| == 0 then [] else Expand(ps[0]) + ExpandAll(ps[1..])
  }

  lemma EncodeLiteralCorrect(bs: seq<Byte>, rest: seq<Byte>)
    requires Encodable(Literal(bs))
    ensures Decompressed(EncodePiece(Literal(bs)) + rest) == bs + Decompressed(rest)
  {
    var c: Byte := if |bs| <= 64 then 0x7F + |bs| else |bs| - 64;
    assert EncodePiece(Literal(bs)) == [c] + bs;
    if |bs| <= 64 { CopyShort(c, bs, rest); } else { CopyLong(c, bs, rest); }
  }

  lemma EncodeRunCorrect(b: Byte, n: nat, rest: seq<Byte>)
    requires Encodable(Run(b, n))
    ensures Decompressed(EncodePiece(Run(b, n)) + rest) == Repeat(b, n) + Decompressed(rest)
  {
    var c: Byte := 0xC0 + n - 3;
    assert EncodePiece(Run(b, n)) == [c, b];
    assert c % 16 + 3 == n;
    RepeatByte(c, b, rest);
  }

  lemma EncodeFillCorrect(b: Byte, n: nat, rest: seq<Byte>)
    requires Encodable(Fill(b, n))
    ensures Decompressed(EncodePiece(Fill(b, n)) + rest) == Repeat(b, n) + Decompressed(rest)
  {
    if n <= 17 {
      var c: Byte := (if b == 0x40 then 0xD0 else if b == 0x20 then 0xE0 else 0xF0) + n - 2;
      assert EncodePiece(Fill(b, n)) == [c];
      assert c % 16 == n - 2;
      assert (if c < 0xE0 then 0x40 else if c < 0xF0 then 0x20 else 0x00) == b;
      ShortFill(c, rest);
    } else {
      var c: Byte := n - 17;
      assert EncodePiece(Fill(b, n)) == [c];
      assert (if c < 0x70 then 0x20 else 0x00) == b;
      LongFill(c, rest);
    }
  }

  lemma EncodePieceCorrect(p: Piece, rest: seq<Byte>)
    requires Encodable(p)
    ensures Decompressed(EncodePiece(p) + rest) == Expand(p) + Decompressed(rest)
  {
    match p
    case Literal(bs) => EncodeLiteralCorrect(bs, rest);
    case Run(b, n) => EncodeRunCorrect(b, n, rest);
    case Fill(b, n) => EncodeFillCorrect(b, n, rest);
  }

  /** Decompressing the encoding of any sequence of encodable pieces gives back exactly their bytes. */
  lemma {:induction false} RoundTrip(ps: seq<Piece>)
    requires forall i :: 0 <= i < |ps| ==> Encodable(ps[i])
    ensures Decompressed(Encode(ps)) == ExpandAll(ps)
  {
    if ps != [] {
      EncodePieceCorrect(ps[0], Encode(ps[1..]));
      RoundTrip(ps[1..]);
    }
  }
}
