/** Byte-level vocabulary shared by the codec, the receive path and the payload builders. */
module Bytes {

  /** An unsigned 8-bit value (`std::uint8_t`). */
  type byte = x: int | 0 <= x < 256

  /** An unsigned 16-bit value (`std::uint16_t`), the width of a message id. */
  type u16 = x: int | 0 <= x < 65536

  datatype Option<+T> = None | Some(value: T)

  /** The byte strings of `chunks` joined end to end, in order. */
  function Flatten(chunks: seq<seq<byte>>): seq<byte>
  {
    if chunks == [] then [] else Flatten(chunks[..|chunks| - 1]) + chunks[|chunks| - 1]
  }

  /** Joining two lists of chunks is joining their flattenings. */
  lemma {:induction false} FlattenAppend(a: seq<seq<byte>>, b: seq<seq<byte>>)
    ensures Flatten(a + b) == Flatten(a) + Flatten(b)
    decreases |b|
  {
    if b != [] {
      var last := b[|b| - 1];
      assert (a + b)[..|a + b| - 1] == a + b[..|b| - 1];
      FlattenAppend(a, b[..|b| - 1]);
    } else {
      assert a + b == a;
    }
  }

  /** A single chunk flattens to itself. */
  lemma FlattenOne(c: seq<byte>)
    ensures Flatten([c]) == c
  {
    assert [c][..0] == [];
  }

  /** A prefix one longer is the shorter prefix with the next element appended. */
  lemma TakeSnoc<T>(s: seq<T>, k: nat)
    requires 0 < k <= |s|
    ensures s[..k - 1] + [s[k - 1]] == s[..k]
    ensures k == |s| ==> s[..k] == s
  {
  }

  /** `ceil(a / b)` on naturals: the least number of `b`-sized pieces that cover `a` items. */
  function CeilDiv(a: nat, b: nat): (r: nat)
    requires b > 0
    ensures r * b >= a
    ensures (r - 1) * b < a
    ensures a > 0 ==> r >= 1
    decreases a
  {
    if a == 0 then 0
    else if a <= b then 1
    else
      var r' := CeilDiv(a - b, b);
      assert (r' + 1) * b == r' * b + b;
      r' + 1
  }
}
