/** Foundation's `Data`, as a sequence of unsigned 8-bit values. */
module Bytes {

  type byte = b: int | 0 <= b < 0x100

  /** `Data(count: n)` and `Data(repeating: 0, count: n)`: n zero bytes. */
  function Zeros(n: nat): (r: seq<byte>)
    ensures |r| == n
    ensures forall i :: 0 <= i < n ==> r[i] == 0
  {
    seq(n, _ => 0)
  }

  /** The buffer after a C primitive wrote `written` to its first bytes; the rest is untouched. */
  function WritePrefix(buffer: seq<byte>, written: seq<byte>): (r: seq<byte>)
    requires |written| <= |buffer|
    ensures |r| == |buffer|
    ensures r[..|written|] == written
    ensures r[|written|..] == buffer[|written|..]
  {
    written + buffer[|written|..]
  }

  /** `Data.dropFirst(k)`: the bytes after the first k, empty when there are no more than k. */
  function DropFirst(d: seq<byte>, k: nat): (r: seq<byte>)
    ensures |r| == if |d| <= k then 0 else |d| - k
    ensures forall i :: 0 <= i < |r| ==> r[i] == d[k + i]
  {
    if |d| <= k then [] else d[k..]
  }

  /** Dropping the first k bytes undoes prepending a k-byte marker. */
  lemma DropFirstAfterPrefix(marker: seq<byte>, rest: seq<byte>)
    ensures DropFirst(marker + rest, |marker|) == rest
  {
    var r := DropFirst(marker + rest, |marker|);
    assert |r| == |rest|;
    forall i | 0 <= i < |rest|
      ensures r[i] == rest[i]
    {
      assert r[i] == (marker + rest)[|marker| + i];
    }
  }
}
