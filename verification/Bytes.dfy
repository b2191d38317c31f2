/** Bytes and the little-endian fields of a ZIP archive. */
module Bytes {

  type Byte = b: int | 0 <= b < 256

  const U16_LIMIT: nat := 0x1_0000
  const U32_LIMIT: nat := 0x1_0000_0000

  function U16At(s: seq<Byte>, i: nat): (r: nat)
    requires i + 2 <= |s|
    ensures r < U16_LIMIT
  {
    s[i] as int + 0x100 * (s[i + 1] as int)
  }

  function U32At(s: seq<Byte>, i: nat): (r: nat)
    requires i + 4 <= |s|
    ensures r < U32_LIMIT
  {
    s[i] as int + 0x100 * (s[i + 1] as int) + 0x1_0000 * (s[i + 2] as int) + 0x100_0000 * (s[i + 3] as int)
  }

  function U16Le(v: nat): (s: seq<Byte>)
    requires v < U16_LIMIT
    ensures |s| == 2 && U16At(s, 0) == v
  {
    [v % 0x100, v / 0x100]
  }

  function U32Le(v: nat): (s: seq<Byte>)
    requires v < U32_LIMIT
    ensures |s| == 4 && U32At(s, 0) == v
  {
    var high := v / 0x1_0000;
    var low := v % 0x1_0000;
    assert v == low + 0x1_0000 * high;
    U16Le(low) + U16Le(high)
  }

  lemma SliceOfSlice(s: seq<Byte>, lo: nat, hi: nat, a: nat, b: nat)
    requires lo <= hi <= |s| && a <= b <= hi - lo
    ensures s[lo..hi][a..b] == s[lo + a..lo + b]
  {
    var m, t := s[lo..hi][a..b], s[lo + a..lo + b];
    forall k | 0 <= k < b - a ensures m[k] == t[k] {
      assert m[k] == s[lo..hi][a + k];
    }
  }

  lemma SliceOfRight(left: seq<Byte>, right: seq<Byte>, a: nat, b: nat)
    requires a <= b <= |right|
    ensures (left + right)[|left| + a..|left| + b] == right[a..b]
  {
  }

  /** All parts one after the other. */
  function Concat(parts: seq<seq<Byte>>): seq<Byte> {
    if parts == [] then [] else Concat(parts[..|parts| - 1]) + parts[|parts| - 1]
  }

  lemma {:induction false} ConcatAppend(left: seq<seq<Byte>>, right: seq<seq<Byte>>)
    ensures Concat(left + right) == Concat(left) + Concat(right)
    decreases |right|
  {
    if right == [] {
      assert left + right == left;
    } else {
      var n := |right| - 1;
      assert (left + right)[..|left| + n] == left + right[..n];
      ConcatAppend(left, right[..n]);
    }
  }
}
