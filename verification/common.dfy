/** Small shared vocabulary: bytes, optional values, results, and the
    concatenation of segment lists used by both the native buffer and the
    host-side decode loop. */
module Common {

  /** One octet of compressed input (`unsigned char` / `Uint8Array` element). */
  type Byte = bv8

  datatype Option<+T> = None | Some(value: T)

  datatype Result<+R, +E> = Success(value: R) | Failure(error: E)

  function Min(a: int, b: int): int
  {
    if a <= b then a else b
  }

  /** The in-order concatenation of a list of segments. */
  function Concat<T>(segments: seq<seq<T>>): seq<T>
  {
    if segments == [] then [] else segments[0] + Concat(segments[1..])
  }

  /** Appending one segment to the list appends its elements to the concatenation. */
  lemma {:induction false} ConcatAppend<T>(segments: seq<seq<T>>, s: seq<T>)
    ensures Concat(segments + [s]) == Concat(segments) + s
    decreases |segments|
  {
    if segments == [] {
      assert [s][1..] == [];
      assert segments + [s] == [s];
    } else {
      assert (segments + [s])[0] == segments[0];
      assert (segments + [s])[1..] == segments[1..] + [s];
      ConcatAppend(segments[1..], s);
    }
  }

  /** Concatenation distributes over any split of the segment list. */
  lemma {:induction false} ConcatSplit<T>(segments: seq<seq<T>>, i: nat)
    requires i <= |segments|
    ensures Concat(segments) == Concat(segments[..i]) + Concat(segments[i..])
    decreases i
  {
    if i == 0 {
      assert segments[..0] == [];
      assert segments[0..] == segments;
    } else {
      ConcatSplit(segments, i - 1);
      assert segments[..i] == segments[..i - 1] + [segments[i - 1]];
      ConcatAppend(segments[..i - 1], segments[i - 1]);
      assert segments[i - 1..][0] == segments[i - 1];
      assert segments[i - 1..][1..] == segments[i..];
    }
  }
}
