/**
 * The ways a decoding step can end: with a value, or with one of the
 * exceptions the reader raises (it never catches them, except around the
 * per-column decode in row reading).
 */
module Outcomes {

  /** The exceptions the reader can raise. */
  datatype Exception =
    | StructError     // struct.unpack given a slice of the wrong length or a bad format
    | IndexError      // a list index out of range
    | AssertionError  // an `assert` in the reader failed
    | AttributeError  // a member read on a header that was never produced

  datatype Option<+T> = None | Some(value: T)

  /** A value, or the exception that ended the computation. */
  datatype Result<+T> = Ok(value: T) | Raise(exc: Exception) {
    predicate IsFailure() { Raise? }

    function PropagateFailure<U>(): Result<U>
      requires Raise?
    {
      Raise(exc)
    }

    function Extract(): T
      requires Ok?
    {
      value
    }
  }

  /**
   * `acc` followed by whatever the rest of a list-building loop produces:
   * the loop's accumulator stays in front of a successful rest, and an
   * exception from the rest discards it.
   */
  function Prepend<T>(acc: seq<T>, r: Result<seq<T>>): (p: Result<seq<T>>)
    ensures p.Ok? <==> r.Ok?
    ensures p.Ok? ==> p.value == acc + r.value
    ensures p.Raise? ==> p.exc == r.exc
  {
    match r
    case Ok(v) => Ok(acc + v)
    case Raise(e) => Raise(e)
  }

  lemma PrependNothing<T>(r: Result<seq<T>>)
    ensures Prepend([], r) == r
  {
    if r.Ok? {
      assert [] + r.value == r.value;
    }
  }

  lemma PrependAssoc<T>(a: seq<T>, b: seq<T>, r: Result<seq<T>>)
    ensures Prepend(a, Prepend(b, r)) == Prepend(a + b, r)
  {
    if r.Ok? {
      assert a + (b + r.value) == (a + b) + r.value;
    }
  }

  /**
   * `[f(x) for x in s[j:]]` built by a loop that calls `f` on each element in
   * turn: the first exception `f` raises ends the loop and is what the whole
   * computation raises.
   */
  function MapFrom<A, B>(f: A -> Result<B>, s: seq<A>, j: nat): (r: Result<seq<B>>)
    requires j <= |s|
    ensures r.Ok? ==> |r.value| == |s| - j
    decreases |s| - j
  {
    if j == |s| then Ok([])
    else
      var b :- f(s[j]);
      Prepend([b], MapFrom(f, s, j + 1))
  }

  /** One turn of the loop. */
  lemma MapFromStep<A, B>(f: A -> Result<B>, s: seq<A>, j: nat)
    requires j < |s|
    ensures f(s[j]).Raise? ==> MapFrom(f, s, j) == Raise(f(s[j]).exc)
    ensures f(s[j]).Ok? ==> MapFrom(f, s, j) == Prepend([f(s[j]).value], MapFrom(f, s, j + 1))
  {
  }

  /** On success the `k`-th result is what `f` gives for the `k`-th element. */
  lemma {:induction false} MapFromAt<A, B>(f: A -> Result<B>, s: seq<A>, j: nat, k: nat)
    requires j <= |s| && MapFrom(f, s, j).Ok? && k < |s| - j
    ensures f(s[j + k]) == Ok(MapFrom(f, s, j).value[k])
    decreases k
  {
    if k > 0 {
      MapFromAt(f, s, j + 1, k - 1);
    }
  }

  /** The loop succeeds exactly when `f` succeeds on every element. */
  lemma {:induction false} MapFromOk<A, B>(f: A -> Result<B>, s: seq<A>, j: nat)
    requires j <= |s|
    ensures MapFrom(f, s, j).Ok? <==> forall k :: j <= k < |s| ==> f(s[k]).Ok?
    decreases |s| - j
  {
    if j < |s| {
      MapFromOk(f, s, j + 1);
    }
  }

  /** A failing loop raises the exception of the first element on which `f` fails. */
  lemma {:induction false} MapFromRaise<A, B>(f: A -> Result<B>, s: seq<A>, j: nat)
    requires j <= |s| && MapFrom(f, s, j).Raise?
    ensures exists k :: && j <= k < |s| && f(s[k]) == Raise(MapFrom(f, s, j).exc)
                        && forall i :: j <= i < k ==> f(s[i]).Ok?
    decreases |s| - j
  {
    if f(s[j]).Ok? {
      MapFromRaise(f, s, j + 1);
      var k :| && j + 1 <= k < |s| && f(s[k]) == Raise(MapFrom(f, s, j + 1).exc)
               && forall i :: j + 1 <= i < k ==> f(s[i]).Ok?;
      assert && j <= k < |s| && f(s[k]) == Raise(MapFrom(f, s, j).exc)
             && forall i :: j <= i < k ==> f(s[i]).Ok?;
    } else {
      assert j <= j < |s| && f(s[j]) == Raise(MapFrom(f, s, j).exc);
    }
  }
}
