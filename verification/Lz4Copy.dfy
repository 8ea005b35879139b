/** Copies in 8-byte steps that may run past their end (LZ4_copy8, LZ4_wildCopy). */
module Lz4Copy {
  import opened Bytes

  /** Where a copy in 8-byte steps from `d` stops when asked to reach `e`; it always takes a step. */
  function Stop(d: nat, e: int): (r: nat)
    ensures r >= e && r >= d + 8 && r <= Max(d + 8, e + 7)
    decreases e - d
  {
    if d + 8 >= e then d + 8 else Stop(d + 8, e)
  }

  method Copy8(dst: array<Byte>, d: nat, s: nat)
    requires s + 8 <= d && d + 8 <= dst.Length
    modifies dst
    ensures forall k :: d <= k < d + 8 ==> dst[k] == dst[s + (k - d)]
    ensures forall k :: 0 <= k < d || d + 8 <= k < dst.Length ==> dst[k] == old(dst[k])
  {
    forall k | 0 <= k < 8 { dst[d + k] := dst[s + k]; }
  }

  /** 8 bytes at a time until `e` is reached, within one array. The bytes read are at least 8
      behind, so each one is final when it is read. */
  method WildCopy(dst: array<Byte>, d0: nat, s0: nat, e: int)
    requires Stop(d0, e) <= dst.Length && s0 + 8 <= d0
    modifies dst
    ensures forall k :: d0 <= k < Stop(d0, e) ==> dst[k] == dst[s0 + (k - d0)]
    ensures forall k :: 0 <= k < d0 || Stop(d0, e) <= k < dst.Length ==> dst[k] == old(dst[k])
  {
    Copy8(dst, d0, s0);
    var d, s := d0 + 8, s0 + 8;
    while d < e
      invariant d == d0 + 8 + (s - (s0 + 8)) && s >= s0 + 8
      invariant Stop(d0, e) == if d < e then Stop(d, e) else d
      invariant forall k :: d0 <= k < d ==> dst[k] == dst[s0 + (k - d0)]
      invariant forall k :: 0 <= k < d0 || d <= k < dst.Length ==> dst[k] == old(dst[k])
      decreases e - d
    {
      Copy8(dst, d, s);
      d, s := d + 8, s + 8;
    }
  }

  /** The same loop from the read-only input. */
  method WildCopyFrom(dst: array<Byte>, d0: nat, source: seq<Byte>, s0: nat, e: int)
    requires Stop(d0, e) <= dst.Length && s0 + Stop(d0, e) - d0 <= |source|
    modifies dst
    ensures forall k :: d0 <= k < Stop(d0, e) ==> dst[k] == source[s0 + (k - d0)]
    ensures forall k :: 0 <= k < d0 || Stop(d0, e) <= k < dst.Length ==> dst[k] == old(dst[k])
  {
    var d, s := d0, s0;
    var more := true;
    while more
      invariant d == d0 + (s - s0) && s >= s0 && more == (d == d0 || d < e)
      invariant Stop(d0, e) == if more then Stop(d, e) else d
      invariant forall k :: d0 <= k < d ==> dst[k] == source[s0 + (k - d0)]
      invariant forall k :: 0 <= k < d0 || d <= k < dst.Length ==> dst[k] == old(dst[k])
      decreases more, e - d
    {
      forall k | 0 <= k < 8 { dst[d + k] := source[s + k]; }
      d, s := d + 8, s + 8;
      more := d < e;
    }
  }
}
