/**
 The allocator's page bitmaps: one bit per page, packed eight to a byte, with range
 updates that set single bits at the ragged ends and whole bytes in between.
 */
module Bitmap {

  function Mask(k: int): bv8
    requires 0 <= k < 8
  {
    if k == 0 then 1 else if k == 1 then 2 else if k == 2 then 4 else if k == 3 then 8
    else if k == 4 then 16 else if k == 5 then 32 else if k == 6 then 64 else 128
  }

  predicate Bit(s: seq<bv8>, i: int)
    requires 0 <= i < 8 * |s|
  {
    s[i / 8] & Mask(i % 8) != 0
  }

  lemma OrMask(b: bv8, j: int, k: int)
    requires 0 <= j < 8 && 0 <= k < 8
    ensures (b | Mask(k)) & Mask(j) != 0 <==> j == k || b & Mask(j) != 0
    ensures (b & !Mask(k)) & Mask(j) != 0 <==> j != k && b & Mask(j) != 0
    ensures 0xFF & Mask(j) != 0 && (0 as bv8) & Mask(j) == 0
  {
  }

  /** The bits of t are those of s, except that those in [from, to) are v. */
  ghost predicate Filled(s: seq<bv8>, t: seq<bv8>, from: int, to: int, v: bool) {
    && |s| == |t|
    && forall i :: 0 <= i < 8 * |s| ==> Bit(t, i) == (if from <= i < to then v else Bit(s, i))
  }

  function PutMask(b: bv8, k: int, v: bool): bv8
    requires 0 <= k < 8
  {
    if v then b | Mask(k) else b & !Mask(k)
  }

  lemma PutMaskAt(b: bv8, j: int, k: int, v: bool)
    requires 0 <= j < 8 && 0 <= k < 8
    ensures PutMask(b, k, v) & Mask(j) != 0 <==> if j == k then v else b & Mask(j) != 0
  {
    OrMask(b, j, k);
  }

  lemma SameByte(i: int, j: int)
    requires i / 8 == j / 8
    ensures i == j <==> i % 8 == j % 8
  {
  }

  lemma PutBitAt(s: seq<bv8>, i: int, v: bool, j: int)
    requires 0 <= i < 8 * |s| && 0 <= j < 8 * |s|
    ensures Bit(s[i / 8 := PutMask(s[i / 8], i % 8, v)], j) == if j == i then v else Bit(s, j)
  {
    hide Mask, PutMask;
    if j / 8 == i / 8 {
      SameByte(i, j);
      PutMaskAt(s[i / 8], j % 8, i % 8, v);
    }
  }

  lemma PutBitFills(s: seq<bv8>, i: int, v: bool)
    requires 0 <= i < 8 * |s|
    ensures Filled(s, s[i / 8 := PutMask(s[i / 8], i % 8, v)], i, i + 1, v)
  {
    hide Mask, PutMask, Bit;
    var t := s[i / 8 := PutMask(s[i / 8], i % 8, v)];
    forall j | 0 <= j < 8 * |s| ensures Bit(t, j) == (if i <= j < i + 1 then v else Bit(s, j)) {
      PutBitAt(s, i, v, j);
    }
  }

  /** Sets or clears one bit. */
  method PutBit(bm: array<bv8>, i: int, v: bool)
    requires 0 <= i < 8 * bm.Length
    modifies bm
    ensures Filled(old(bm[..]), bm[..], i, i + 1, v)
  {
    hide Mask, Bit;
    PutBitFills(bm[..], i, v);
    bm[i / 8] := PutMask(bm[i / 8], i % 8, v);
    assert bm[..] == old(bm[..])[i / 8 := PutMask(old(bm[i / 8]), i % 8, v)];
  }

  /** Fills bytes [first, first + n) with all ones or all zeros. */
  method FillBytes(bm: array<bv8>, first: int, n: int, v: bool)
    requires 0 <= first && 0 <= n && first + n <= bm.Length
    modifies bm
    ensures Filled(old(bm[..]), bm[..], 8 * first, 8 * (first + n), v)
  {
    for k := 0 to n
      invariant Filled(old(bm[..]), bm[..], 8 * first, 8 * (first + k), v)
    {
      FillByte(bm, first + k, v);
    }
  }

  method FillByte(bm: array<bv8>, k: int, v: bool)
    requires 0 <= k < bm.Length
    modifies bm
    ensures Filled(old(bm[..]), bm[..], 8 * k, 8 * k + 8, v)
  {
    bm[k] := if v then 0xFF else 0;
    forall j | 0 <= j < 8 * bm.Length
      ensures Bit(bm[..], j) == if 8 * k <= j < 8 * k + 8 then v else Bit(old(bm[..]), j)
    {
      OrMask(0, j % 8, 0);
    }
  }

  lemma FilledStep(s: seq<bv8>, t: seq<bv8>, u: seq<bv8>, a: int, b: int, c: int, v: bool)
    requires Filled(s, t, a, b, v) && Filled(t, u, b, c, v) && a <= b <= c
    ensures Filled(s, u, a, c, v)
  {
    forall i | 0 <= i < 8 * |s| ensures Bit(u, i) == (if a <= i < c then v else Bit(s, i)) {
      assert Bit(t, i) == (if a <= i < b then v else Bit(s, i));
    }
  }

  /** The part of a page range that lies inside the managed span, as bit positions. */
  function ClampedEnd(lo: int, hi: int, start: int, count: int): int {
    if start < lo || start >= hi then start - lo
    else if start + count > hi then hi - lo else start - lo + count
  }

  /** Of the managed pages exactly those of the range are meant, and none when the range starts outside. */
  lemma ClampedRange(lo: int, hi: int, start: int, count: int, p: int)
    requires lo <= p < hi && 0 <= count
    ensures start - lo <= p - lo < ClampedEnd(lo, hi, start, count) <==> lo <= start < hi && start <= p < start + count
  {
  }

  /** Marks a range of pages: bit by bit to the first byte boundary, then bytes, then bits again. */
  method FillRange(bm: array<bv8>, lo: int, hi: int, start: int, count: int, v: bool)
    requires lo <= hi <= lo + 8 * bm.Length && 0 <= count
    modifies bm
    ensures Filled(old(bm[..]), bm[..], start - lo, ClampedEnd(lo, hi, start, count), v)
  {
    if start < lo || start >= hi { return; }
    var idx := start - lo;
    var end := if start + count > hi then hi - lo else idx + count;
    ghost var s := bm[..];
    while idx < end && idx % 8 != 0
      invariant start - lo <= idx <= end && Filled(s, bm[..], start - lo, idx, v)
    {
      ghost var t := bm[..];
      PutBit(bm, idx, v);
      FilledStep(s, t, bm[..], start - lo, idx, idx + 1, v);
      idx := idx + 1;
    }
    var bytes := (end - idx) / 8;
    if bytes > 0 {
      ghost var t := bm[..];
      FillBytes(bm, idx / 8, bytes, v);
      FilledStep(s, t, bm[..], start - lo, idx, idx + 8 * bytes, v);
      idx := idx + 8 * bytes;
    }
    while idx < end
      invariant start - lo <= idx <= end && Filled(s, bm[..], start - lo, idx, v)
    {
      ghost var t := bm[..];
      PutBit(bm, idx, v);
      FilledStep(s, t, bm[..], start - lo, idx, idx + 1, v);
      idx := idx + 1;
    }
  }
}
