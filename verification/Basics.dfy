/** Types shared by the whole model. */
module Basics {

  datatype Option<+T> = None | Some(value: T)

  /** A byte string. Each character stands for one byte, so it is below 256 in every string of the real system. */
  type Bytes = string

  predicate IsByteString(s: Bytes) {
    forall i :: 0 <= i < |s| ==> s[i] as int < 256
  }

  /**
   * A hash as the trees store it. The tree code asks "is this slot filled?" by
   * truthiness, so an empty byte string would count as a hole; hashes are
   * therefore non-empty.
   */
  type Hash = b: Bytes | |b| > 0 witness "h"

  /** `pair_hash`: left uninterpreted, so every statement holds for any such function. */
  type PairHash = (Hash, Hash) -> Hash

  /** Where index i of a slice lands in a byte string of length n; a negative one counts from the end. */
  function Clamp(i: int, n: nat): nat {
    if i < 0 then (if n + i < 0 then 0 else n + i) else if i > n then n else i
  }

  /** `s[i:j]` for any integers. */
  function Slice(s: Bytes, i: int, j: int): (r: Bytes)
    ensures |r| <= |s|
  {
    var a, b := Clamp(i, |s|), Clamp(j, |s|);
    if a <= b then s[a..b] else ""
  }

  /** All but the last n bytes, and the last n bytes, of a byte string that may be shorter. */
  lemma SliceFromEnd(s: Bytes, n: nat)
    requires n > 0
    ensures Slice(s, 0, 0 - n) == if n <= |s| then s[..|s| - n] else ""
    ensures Slice(s, 0 - n, |s|) == if n <= |s| then s[|s| - n..] else s
  {
    assert s[0..] == s;
  }
}
