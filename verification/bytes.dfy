/**
 * Byte strings as the reader sees them: Python 2 `str` values sliced with
 * Python's slice rules, read from a file cursor, stripped of padding, and
 * decoded as fixed-width two's-complement integers in either byte order.
 */
module Bytes {

  type Byte = b: int | 0 <= b < 256

  /** Python's normalisation of one slice bound against a length `n`. */
  function SliceBound(i: int, n: nat): (r: nat)
    ensures r <= n
    ensures 0 <= i <= n ==> r == i
    ensures i > n ==> r == n
    ensures i < 0 ==> r == if i + n < 0 then 0 else i + n
  {
    if i < 0 then (if i + n < 0 then 0 else i + n)
    else if i > n then n
    else i
  }

  /** The length of `s[a:b]` for a sequence of length `n`. */
  function SliceLen(n: nat, a: int, b: int): (k: nat)
    ensures SliceBound(a, n) + k <= n
  {
    var lo, hi := SliceBound(a, n), SliceBound(b, n);
    if lo <= hi then hi - lo else 0
  }

  /** `s[a:b]` with Python semantics: negative bounds count from the end, all bounds clamp. */
  function Slice<T>(s: seq<T>, a: int, b: int): (r: seq<T>)
    ensures |r| == SliceLen(|s|, a, b)
    ensures r == s[SliceBound(a, |s|)..SliceBound(a, |s|) + |r|]
    ensures |r| <= |s|
    ensures 0 <= a <= b <= |s| ==> r == s[a..b]
    ensures 0 <= a <= |s| && b >= |s| ==> r == s[a..]
    ensures 0 <= b <= a ==> |r| == 0
  {
    var lo := SliceBound(a, |s|);
    var hi := SliceBound(b, |s|);
    if lo <= hi then s[lo..hi] else []
  }

  /** Entry `k` of a table of `n`-element entries that starts at `i`: `s[i + k * n:i + k * n + n]`. */
  function Entry<T>(s: seq<T>, i: int, k: nat, n: nat): seq<T> {
    Slice(s, i + k * n, i + k * n + n)
  }

  /** Entry `k` from `i` is entry `k - 1` from the next entry. */
  lemma EntryNext<T>(s: seq<T>, i: int, k: nat, n: nat)
    requires k > 0
    ensures Entry(s, i, k, n) == Entry(s, i + n, k - 1, n)
  {
    var a, b := i + k * n, i + n + (k - 1) * n;
    NextEntryStart(i, k, n);
    assert Entry(s, i, k, n) == Slice(s, a, a + n);
    assert Entry(s, i + n, k - 1, n) == Slice(s, b, b + n);
  }

  lemma NextEntryStart(i: int, k: nat, n: nat)
    requires k > 0
    ensures i + n + (k - 1) * n == i + k * n
  {
    assert k * n == (k - 1) * n + n;
  }

  /** A slice with non-negative bounds is a window of `s` that holds as much of `[a, b)` as `s` has. */
  lemma SliceNonNegative<T>(s: seq<T>, a: nat, b: nat)
    requires a <= b
    ensures |Slice(s, a, b)| == if a >= |s| then 0 else (if b <= |s| then b - a else |s| - a)
    ensures forall k :: 0 <= k < |Slice(s, a, b)| ==> Slice(s, a, b)[k] == s[a + k]
  {
  }

  /** `l[i]` on a Python list: negative indices count from the end, others raise IndexError. */
  predicate IndexOk<T>(l: seq<T>, i: int) {
    -|l| <= i < |l|
  }

  function Index<T>(l: seq<T>, i: int): (r: T)
    requires IndexOk(l, i)
    ensures 0 <= i ==> r == l[i]
    ensures i < 0 ==> r == l[|l| + i]
  {
    if i < 0 then l[|l| + i] else l[i]
  }

  /**
   * `f.read(n)` on a file whose cursor is at `pos`: at most `n` bytes, fewer at
   * end of file, and everything that is left when `n` is negative.
   */
  function FileRead(file: seq<Byte>, pos: nat, n: int): (r: seq<Byte>)
    requires pos <= |file|
    ensures |r| <= |file| - pos
    ensures n >= 0 ==> |r| == if pos + n <= |file| then n else |file| - pos
    ensures n < 0 ==> r == file[pos..]
    ensures r == file[pos..pos + |r|]
  {
    if n < 0 || pos + n > |file| then file[pos..] else file[pos..pos + n]
  }

  /** Reading from a cursor is reading from the start of what lies after it. */
  lemma FileReadShift(file: seq<Byte>, pos: nat, n: int)
    requires pos <= |file|
    ensures FileRead(file, pos, n) == FileRead(file[pos..], 0, n)
  {
  }

  function Zeros(n: int): (r: seq<Byte>)
    ensures |r| == if n < 0 then 0 else n
    ensures forall i :: 0 <= i < |r| ==> r[i] == 0
  {
    if n <= 0 then [] else Zeros(n - 1) + [0]
  }

  function Repeat(b: Byte, n: int): (r: seq<Byte>)
    ensures |r| == if n < 0 then 0 else n
    ensures forall i :: 0 <= i < |r| ==> r[i] == b
  {
    if n <= 0 then [] else Repeat(b, n - 1) + [b]
  }

  // ---------------------------------------------------------------------
  // Stripping (`str.strip(chars)`)

  /** The NUL byte, stripped from every decoded string field. */
  const Nul: set<Byte> := {0}

  /** What Python 2's `str.strip()` with no argument removes: space, \t, \n, \v, \f, \r. */
  const Whitespace: set<Byte> := {0x20, 0x09, 0x0A, 0x0B, 0x0C, 0x0D}

  /** The number of leading bytes of `s` that are in `chars`. */
  function LeadingIn(s: seq<Byte>, chars: set<Byte>): (k: nat)
    ensures k <= |s|
  {
    if |s| > 0 && s[0] in chars then 1 + LeadingIn(s[1..], chars) else 0
  }

  /** The leading run is all in `chars`, and the byte after it is not. */
  lemma {:induction false} LeadingInSpec(s: seq<Byte>, chars: set<Byte>)
    ensures forall i :: 0 <= i < LeadingIn(s, chars) ==> s[i] in chars
    ensures LeadingIn(s, chars) < |s| ==> s[LeadingIn(s, chars)] !in chars
  {
    if |s| > 0 && s[0] in chars {
      LeadingInSpec(s[1..], chars);
      forall i | 1 <= i < LeadingIn(s, chars) ensures s[i] in chars {
        assert s[i] == s[1..][i - 1];
      }
    }
  }

  /** The number of trailing bytes of `s` that are in `chars`. */
  function TrailingIn(s: seq<Byte>, chars: set<Byte>): (k: nat)
    ensures k <= |s|
  {
    if |s| > 0 && s[|s| - 1] in chars then 1 + TrailingIn(s[..|s| - 1], chars) else 0
  }

  /** The trailing run is all in `chars`, and the byte before it is not. */
  lemma {:induction false} TrailingInSpec(s: seq<Byte>, chars: set<Byte>)
    ensures forall i :: |s| - TrailingIn(s, chars) <= i < |s| ==> s[i] in chars
    ensures TrailingIn(s, chars) < |s| ==> s[|s| - 1 - TrailingIn(s, chars)] !in chars
  {
    if |s| > 0 && s[|s| - 1] in chars {
      TrailingInSpec(s[..|s| - 1], chars);
      forall i | |s| - TrailingIn(s, chars) <= i < |s| - 1 ensures s[i] in chars {
        assert s[i] == s[..|s| - 1][i];
      }
    }
  }

  /** `s.lstrip(chars)` */
  function LStrip(s: seq<Byte>, chars: set<Byte>): (r: seq<Byte>) {
    s[LeadingIn(s, chars)..]
  }

  /** `s.strip(chars)` */
  function Strip(s: seq<Byte>, chars: set<Byte>): (r: seq<Byte>) {
    var t := LStrip(s, chars);
    t[..|t| - TrailingIn(t, chars)]
  }

  /**
   * What `strip` promises: the result is a contiguous piece of `s`, everything
   * cut off on either side is in `chars`, and the result neither starts nor
   * ends with a byte of `chars`.
   */
  lemma StripSpec(s: seq<Byte>, chars: set<Byte>)
    ensures LeadingIn(s, chars) + |Strip(s, chars)| <= |s|
    ensures Strip(s, chars) == s[LeadingIn(s, chars)..LeadingIn(s, chars) + |Strip(s, chars)|]
    ensures forall i :: 0 <= i < LeadingIn(s, chars) ==> s[i] in chars
    ensures forall i :: LeadingIn(s, chars) + |Strip(s, chars)| <= i < |s| ==> s[i] in chars
    ensures |Strip(s, chars)| > 0 ==>
      Strip(s, chars)[0] !in chars && Strip(s, chars)[|Strip(s, chars)| - 1] !in chars
  {
    var a := LeadingIn(s, chars);
    var t := s[a..];
    var b := TrailingIn(t, chars);
    var r := Strip(s, chars);
    assert r == t[..|t| - b];
    assert r == s[a..a + |r|];
    LeadingInSpec(s, chars);
    forall i | a + |r| <= i < |s| ensures s[i] in chars {
      TrailingInSpec(t, chars);
      assert s[i] == t[i - a];
    }
    if |r| > 0 {
      assert r[0] !in chars by { LeadingInSpec(s, chars); }
      assert r[|r| - 1] !in chars by { TrailingInSpec(t, chars); }
    }
  }

  /** A string with no byte of `chars` at either end is left as it is. */
  lemma StripUnchanged(s: seq<Byte>, chars: set<Byte>)
    requires s == [] || (s[0] !in chars && s[|s| - 1] !in chars)
    ensures Strip(s, chars) == s
  {
    assert LeadingIn(s, chars) == 0;
    assert TrailingIn(s, chars) == 0;
  }

  // ---------------------------------------------------------------------
  // Integers

  function Pow256(n: nat): (r: nat)
    ensures r >= 1
  {
    if n == 0 then 1 else 256 * Pow256(n - 1)
  }

  /** The unsigned value of `s` read least-significant byte first. */
  function UIntLE(s: seq<Byte>): (r: nat)
    ensures r < Pow256(|s|)
  {
    if |s| == 0 then 0 else s[0] + 256 * UIntLE(s[1..])
  }

  /** The unsigned value of `s` read most-significant byte first. */
  function UIntBE(s: seq<Byte>): (r: nat)
    ensures r < Pow256(|s|)
  {
    if |s| == 0 then 0 else 256 * UIntBE(s[..|s| - 1]) + s[|s| - 1]
  }

  /** The unsigned value of the `n` bytes of `s` from `i` on, least-significant first. */
  function UIntLEAt(s: seq<Byte>, i: nat, n: nat): (r: nat)
    requires i + n <= |s|
    ensures r < Pow256(n)
    decreases n
  {
    if n == 0 then 0 else s[i] + 256 * UIntLEAt(s, i + 1, n - 1)
  }

  /** The unsigned value of the `n` bytes of `s` from `i` on, most-significant first. */
  function UIntBEAt(s: seq<Byte>, i: nat, n: nat): (r: nat)
    requires i + n <= |s|
    ensures r < Pow256(n)
    decreases n
  {
    if n == 0 then 0 else 256 * UIntBEAt(s, i, n - 1) + s[i + n - 1]
  }

  lemma {:induction false} UIntLEAtIsUIntLE(s: seq<Byte>, i: nat, n: nat)
    requires i + n <= |s|
    ensures UIntLEAt(s, i, n) == UIntLE(s[i..i + n])
    decreases n
  {
    if n > 0 {
      UIntLEAtIsUIntLE(s, i + 1, n - 1);
      assert s[i..i + n][1..] == s[i + 1..i + n];
    }
  }

  lemma {:induction false} UIntBEAtIsUIntBE(s: seq<Byte>, i: nat, n: nat)
    requires i + n <= |s|
    ensures UIntBEAt(s, i, n) == UIntBE(s[i..i + n])
    decreases n
  {
    if n > 0 {
      UIntBEAtIsUIntBE(s, i, n - 1);
      assert s[i..i + n][..n - 1] == s[i..i + n - 1];
    }
  }

  /** The `n` bytes of `v`, least-significant first. */
  function LEBytes(v: nat, n: nat): (r: seq<Byte>)
    requires v < Pow256(n)
    ensures |r| == n
  {
    if n == 0 then [] else [v % 256] + LEBytes(v / 256, n - 1)
  }

  lemma {:induction false} UIntLEOfLEBytes(v: nat, n: nat)
    requires v < Pow256(n)
    ensures UIntLE(LEBytes(v, n)) == v
  {
    if n > 0 {
      UIntLEOfLEBytes(v / 256, n - 1);
      assert LEBytes(v, n)[1..] == LEBytes(v / 256, n - 1);
    }
  }

  lemma {:induction false} LEBytesOfUIntLE(s: seq<Byte>)
    ensures LEBytes(UIntLE(s), |s|) == s
  {
    if s != [] {
      var v := UIntLE(s);
      assert v % 256 == s[0] && v / 256 == UIntLE(s[1..]);
      LEBytesOfUIntLE(s[1..]);
    }
  }

  function Reverse<T>(s: seq<T>): (r: seq<T>)
    ensures |r| == |s|
    ensures forall i :: 0 <= i < |s| ==> r[i] == s[|s| - 1 - i]
  {
    if |s| == 0 then [] else Reverse(s[1..]) + [s[0]]
  }

  lemma ReverseReverse<T>(s: seq<T>)
    ensures Reverse(Reverse(s)) == s
  {
    assert forall i :: 0 <= i < |s| ==> Reverse(Reverse(s))[i] == s[i];
  }

  lemma ReverseAppend<T>(a: seq<T>, b: seq<T>)
    ensures Reverse(a + b) == Reverse(b) + Reverse(a)
  {
    var l, r := Reverse(a + b), Reverse(b) + Reverse(a);
    assert |l| == |r|;
    forall i | 0 <= i < |l| ensures l[i] == r[i] {
      if i < |b| {
        assert l[i] == (a + b)[|a| + |b| - 1 - i];
      } else {
        assert l[i] == (a + b)[|a| + |b| - 1 - i];
      }
    }
  }

  /** Reversing zeros followed by `s` moves the zeros to the end. */
  lemma ReverseZerosAppend(n: nat, s: seq<Byte>)
    ensures Reverse(Zeros(n) + s) == Reverse(s) + Zeros(n)
  {
    ReverseAppend(Zeros(n), s);
    ReverseZeros(n);
  }

  lemma ReverseZeros(n: int)
    ensures Reverse(Zeros(n)) == Zeros(n)
  {
    assert forall i :: 0 <= i < |Zeros(n)| ==> Reverse(Zeros(n))[i] == 0;
  }

  /** Reading most-significant first is reading the reversed bytes least-significant first. */
  lemma {:induction false} UIntBEIsReversedLE(s: seq<Byte>)
    ensures UIntBE(s) == UIntLE(Reverse(s))
  {
    if s != [] {
      var init := s[..|s| - 1];
      var r := Reverse(s);
      assert r[0] == s[|s| - 1];
      assert r[1..] == Reverse(init);
      UIntBEIsReversedLE(init);
    }
  }

  /** Half the range of an `n`-byte value: the first pattern whose sign bit is set. */
  function SignBound(n: nat): (h: int)
    requires n >= 1
    ensures h >= 1 && Pow256(n) == 2 * h
  {
    128 * Pow256(n - 1)
  }

  /** The two's-complement reading of an `n`-byte unsigned value. */
  function Signed(u: nat, n: nat): (v: int)
    requires n >= 1 && u < Pow256(n)
    ensures -SignBound(n) <= v < SignBound(n)
    ensures v >= 0 <==> u < SignBound(n)
  {
    if u >= SignBound(n) then u - Pow256(n) else u
  }

  /** The `n`-byte unsigned pattern of a signed value. */
  function TwosComplement(v: int, n: nat): (u: nat)
    requires n >= 1 && -SignBound(n) <= v < SignBound(n)
    ensures u < Pow256(n)
  {
    if v < 0 then v + Pow256(n) else v
  }

  /** Two's complement is a bijection between the signed range and `n`-byte patterns. */
  lemma SignedOfTwosComplement(v: int, n: nat)
    requires n >= 1 && -SignBound(n) <= v < SignBound(n)
    ensures Signed(TwosComplement(v, n), n) == v
  {
  }

  lemma TwosComplementOfSigned(u: nat, n: nat)
    requires n >= 1 && u < Pow256(n)
    ensures TwosComplement(Signed(u, n), n) == u
  {
  }
}
