/**
 The over-copying primitives of the decoder and compressor. Each may write past the end it was
 asked for, by a stated margin; what lies below its start and beyond that margin never changes.
 A match copy is right when the bytes it writes repeat with the distance `offset`, however it
 was cut into pieces.
 */
module WildCopy {
  import opened Bytes
  import opened BlockFormat

  const INC32: seq<nat> := [0, 1, 2, 1, 0, 4, 4, 4]
  const DEC64: seq<int> := [0, 0, 0, -1, -4, 1, 2, 3]

  // ----- From the input -----

  method CopyIn(dst: array<byte>, d: nat, src: seq<byte>, s: nat, n: nat)
    requires d + n <= dst.Length && s + n <= |src|
    modifies dst
    ensures forall i :: 0 <= i < dst.Length ==>
      dst[i] == if d <= i < d + n then src[s + i - d] else old(dst[i])
  {
    forall i | 0 <= i < n {
      dst[d + i] := src[s + i];
    }
  }

  /** LZ4_wildCopy8 from the input: writes [d, e), and at most 7 bytes more (8 when e == d). */
  method WildCopy8In(dst: array<byte>, d0: nat, src: seq<byte>, s0: nat, e: nat)
    requires d0 <= e && s0 + (e - d0) + 8 <= |src|
    requires e + 7 <= dst.Length && d0 + 8 <= dst.Length
    modifies dst
    ensures forall i :: d0 <= i < e ==> dst[i] == src[s0 + i - d0]
    ensures forall i :: 0 <= i < d0 ==> dst[i] == old(dst[i])
    ensures forall i :: e + 7 <= i < dst.Length && d0 + 8 <= i ==> dst[i] == old(dst[i])
  {
    var d, s := d0, s0;
    CopyIn(dst, d, src, s, 8);
    d, s := d + 8, s + 8;
    while d < e
      invariant d0 + 8 <= d && s - s0 == d - d0 && (d <= e + 7 || d == d0 + 8)
      invariant forall i :: d0 <= i < d ==> dst[i] == src[s0 + i - d0]
      invariant forall i :: 0 <= i < d0 ==> dst[i] == old(dst[i])
      invariant forall i :: d <= i < dst.Length ==> dst[i] == old(dst[i])
    {
      CopyIn(dst, d, src, s, 8);
      d, s := d + 8, s + 8;
    }
  }

  /** LZ4_wildCopy32 from the input: writes [d, e), and at most 31 bytes more. */
  method WildCopy32In(dst: array<byte>, d0: nat, src: seq<byte>, s0: nat, e: nat)
    requires d0 < e && s0 + (e - d0) + 31 <= |src| && e + 31 <= dst.Length
    modifies dst
    ensures forall i :: d0 <= i < e ==> dst[i] == src[s0 + i - d0]
    ensures forall i :: 0 <= i < d0 ==> dst[i] == old(dst[i])
    ensures forall i :: e + 31 <= i < dst.Length ==> dst[i] == old(dst[i])
  {
    var d, s := d0, s0;
    CopyIn(dst, d, src, s, 16);
    CopyIn(dst, d + 16, src, s + 16, 16);
    d, s := d + 32, s + 32;
    while d < e
      invariant d0 + 32 <= d <= e + 31 && s - s0 == d - d0
      invariant forall i :: d0 <= i < d ==> dst[i] == src[s0 + i - d0]
      invariant forall i :: 0 <= i < d0 ==> dst[i] == old(dst[i])
      invariant forall i :: d <= i < dst.Length ==> dst[i] == old(dst[i])
    {
      CopyIn(dst, d, src, s, 16);
      CopyIn(dst, d + 16, src, s + 16, 16);
      d, s := d + 32, s + 32;
    }
  }

  // ----- Within the output -----

  /** memcpy inside the output buffer; like memcpy it wants the two stretches apart. */
  method CopyWithin(dst: array<byte>, d: nat, s: nat, n: nat)
    requires s + n <= d && d + n <= dst.Length
    modifies dst
    ensures forall i :: 0 <= i < dst.Length ==>
      dst[i] == if d <= i < d + n then old(dst[s + i - d]) else old(dst[i])
  {
    forall i | 0 <= i < n {
      dst[d + i] := dst[s + i];
    }
  }

  /** From `from` up to `end`, each byte equals the one `stride` before it. */
  ghost predicate Strided(s: seq<byte>, from: nat, end: nat, stride: nat) {
    end <= |s| && stride <= from && forall i :: from <= i < end ==> s[i] == s[i - stride]
  }

  /** From `from` up to `end`, the bytes are a match copy with this offset. */
  ghost predicate Copied(s: seq<byte>, from: nat, end: nat, offset: nat) {
    end <= |s| && offset <= from && forall i :: from <= i < end ==> s[i] == (if offset == 0 then 0 else s[i - offset])
  }

  /** Where a loop that stores eight bytes at least once, and until it reaches `e`, stops. */
  function WildEnd(d: nat, e: nat): (r: nat)
    ensures d + 8 <= r && e <= r && (r <= e + 7 || r == d + 8)
    decreases e - d
  {
    if d + 8 >= e then d + 8 else WildEnd(d + 8, e)
  }

  lemma WildEndStep(d: nat, e: nat)
    ensures WildEnd(d, e) == if d + 8 < e then WildEnd(d + 8, e) else d + 8
  {
  }

  /** LZ4_wildCopy8 inside the output, at a distance of at least 8. */
  method WildCopy8(dst: array<byte>, d0: nat, s0: nat, e: nat)
    requires s0 + 8 <= d0 && WildEnd(d0, e) <= dst.Length
    modifies dst
    ensures Strided(dst[..], d0, WildEnd(d0, e), d0 - s0)
    ensures forall i :: 0 <= i < d0 ==> dst[i] == old(dst[i])
    ensures forall i :: WildEnd(d0, e) <= i < dst.Length ==> dst[i] == old(dst[i])
  {
    hide WildEnd;
    var d, s := d0, s0;
    CopyWithin(dst, d, s, 8);
    d, s := d + 8, s + 8;
    WildEndStep(d0, e);
    while d < e
      invariant d0 + 8 <= d && s - s0 == d - d0
      invariant WildEnd(d0, e) == if d < e then WildEnd(d, e) else d
      invariant Strided(dst[..], d0, d, d0 - s0)
      invariant forall i :: 0 <= i < d0 ==> dst[i] == old(dst[i])
      invariant forall i :: d <= i < dst.Length ==> dst[i] == old(dst[i])
    {
      WildEndStep(d, e);
      CopyWithin(dst, d, s, 8);
      d, s := d + 8, s + 8;
    }
  }

  /** One round of LZ4_wildCopy32: two pieces of 16 bytes, so that any distance from 16 on will do. */
  method Copy32(dst: array<byte>, d: nat, s: nat)
    requires s + 16 <= d && d + 32 <= dst.Length
    modifies dst
    ensures Strided(dst[..], d, d + 32, d - s)
    ensures forall i :: 0 <= i < dst.Length && !(d <= i < d + 32) ==> dst[i] == old(dst[i])
  {
    CopyWithin(dst, d, s, 16);
    CopyWithin(dst, d + 16, s + 16, 16);
  }

  /** The same for 32 bytes at a time. */
  function WildEnd32(d: nat, e: nat): (r: nat)
    ensures d + 32 <= r && e <= r && (r <= e + 31 || r == d + 32)
    decreases e - d
  {
    if d + 32 >= e then d + 32 else WildEnd32(d + 32, e)
  }

  /** LZ4_wildCopy32 inside the output, at a distance of at least 16. */
  method WildCopy32(dst: array<byte>, d0: nat, s0: nat, e: nat)
    requires s0 + 16 <= d0 && WildEnd32(d0, e) <= dst.Length
    modifies dst
    ensures Strided(dst[..], d0, WildEnd32(d0, e), d0 - s0)
    ensures forall i :: 0 <= i < d0 ==> dst[i] == old(dst[i])
    ensures forall i :: WildEnd32(d0, e) <= i < dst.Length ==> dst[i] == old(dst[i])
  {
    var d, s := d0, s0;
    Copy32(dst, d, s);
    d, s := d + 32, s + 32;
    while d < e
      invariant d0 + 32 <= d && s - s0 == d - d0 && WildEnd32(d0, e) == WildEnd32(d - 32, e)
      invariant Strided(dst[..], d0, d, d0 - s0)
      invariant forall i :: 0 <= i < d0 ==> dst[i] == old(dst[i])
      invariant forall i :: d <= i < dst.Length ==> dst[i] == old(dst[i])
    {
      Copy32(dst, d, s);
      d, s := d + 32, s + 32;
    }
  }

  // ----- Short offsets -----

  /** Distance between the cursors once the first eight bytes of a match are written. */
  function Stride(offset: nat): (k: nat)
    ensures 8 <= k && offset <= k <= offset + 8
  {
    if offset < 8 then 8 + offset - INC32[offset] + DEC64[offset] else offset
  }

  predicate Multiple(k: nat, offset: nat) {
    k == 0 || (0 < offset <= k && Multiple(k - offset, offset))
  }

  /** Distance of the second four bytes of a short match from their source. */
  function HalfStride(offset: nat): (k: nat)
    requires offset < 8
    ensures 4 <= k <= 4 + offset
  {
    4 + offset - INC32[offset]
  }

  lemma StrideIsMultiple(offset: nat)
    requires 1 <= offset
    ensures Multiple(Stride(offset), offset)
    ensures offset < 8 ==> Multiple(HalfStride(offset), offset)
  {
    assert Multiple(0, offset) && Multiple(offset, offset);
    if offset <= 4 {
      assert Multiple(2 * offset, offset);
      assert Multiple(3 * offset, offset);
      assert Multiple(4 * offset, offset);
      if offset == 1 {
        assert Multiple(5, 1);
        assert Multiple(6, 1);
        assert Multiple(7, 1);
      }
    }
  }

  lemma {:induction false} StepBack(s: seq<byte>, op: nat, x: nat, offset: nat, k: nat)
    requires 1 <= offset && Multiple(k, offset) && 0 < k && x < |s|
    requires Copied(s, op, x, offset) && op <= x && op + k <= x + offset
    ensures s[x - k] == s[x - offset]
    decreases k
  {
    if k > offset {
      StepBack(s, op, x, offset, k - offset);
    }
  }

  /** Copying at a distance that is a multiple of the offset continues the match. */
  lemma {:induction false} StridedContinues(s: seq<byte>, op: nat, mid: nat, end: nat, offset: nat, k: nat)
    requires op <= mid <= end && Copied(s, op, mid, offset) && Strided(s, mid, end, k)
    requires offset == 0 || Multiple(k, offset)
    requires 0 < k <= mid - op + offset
    ensures Copied(s, op, end, offset)
    decreases end
  {
    if mid < end {
      StridedContinues(s, op, mid, end - 1, offset, k);
      var x := end - 1;
      assert s[x] == s[x - k];
      if offset != 0 {
        StepBack(s, op, x, offset, k);
      }
    }
  }

  lemma CopiedKept(s: seq<byte>, t: seq<byte>, op: nat, end: nat, offset: nat)
    requires Copied(s, op, end, offset) && end <= |t| && forall i :: 0 <= i < end ==> t[i] == s[i]
    ensures Copied(t, op, end, offset)
  {
  }

  lemma StridedJoins(s: seq<byte>, t: seq<byte>, from: nat, mid: nat, end: nat, k: nat)
    requires from <= mid <= end && Strided(s, from, mid, k) && Strided(t, mid, end, k)
    requires mid <= |t| && forall i :: 0 <= i < mid ==> t[i] == s[i]
    ensures Strided(t, from, end, k)
  {
  }

  /** A copied stretch of the buffer, in terms of the reference decoder. */
  lemma CopiedIsCopyMatch(s: seq<byte>, lo: nat, op: nat, end: nat, offset: nat)
    requires lo <= op <= end && lo + offset <= op && Copied(s, op, end, offset)
    ensures s[lo..end] == CopyMatch(s[lo..op], offset, end - op)
  {
    var out, r := s[lo..op], s[lo..end];
    forall i | |out| <= i < |r|
      ensures r[i] == (if offset == 0 then 0 else r[i - offset])
    {
      assert r[i] == s[lo + i];
    }
    assert r[..|out|] == out;
    RepeatsIsCopyMatch(out, offset, r);
  }

  /** The first four bytes of a short match, one at a time, behind a zero store. */
  method FirstFour(dst: array<byte>, op: nat, m: nat, offset: nat)
    requires m + offset == op && op + 4 <= dst.Length
    modifies dst
    ensures Copied(dst[..], op, op + 4, offset)
    ensures forall i :: 0 <= i < dst.Length && !(op <= i < op + 4) ==> dst[i] == old(dst[i])
  {
    dst[op], dst[op + 1], dst[op + 2], dst[op + 3] := 0, 0, 0, 0;
    dst[op] := dst[m];
    dst[op + 1] := dst[m + 1];
    dst[op + 2] := dst[m + 2];
    dst[op + 3] := dst[m + 3];
  }

  /** The first eight bytes of a short match: four singly, then four at once from a cursor moved by
      the first table; the second table sets the cursor for what follows. */
  method FirstEightShort(dst: array<byte>, op: nat, match0: nat, offset: nat) returns (m: nat)
    requires match0 + offset == op && op + 8 <= dst.Length && offset < 8
    modifies dst
    ensures m + Stride(offset) == op + 8
    ensures Copied(dst[..], op, op + 8, offset)
    ensures forall i :: 0 <= i < dst.Length && !(op <= i < op + 8) ==> dst[i] == old(dst[i])
  {
    FirstFour(dst, op, match0, offset);
    m := match0 + INC32[offset];
    ghost var four := dst[..];
    CopyWithin(dst, op + 4, m, 4);
    m := m - DEC64[offset];
    assert Strided(dst[..], op + 4, op + 8, HalfStride(offset));
    CopiedKept(four, dst[..], op, op + 4, offset);
    if offset != 0 {
      StrideIsMultiple(offset);
    }
    StridedContinues(dst[..], op, op + 4, op + 8, offset, HalfStride(offset));
  }

  /** The first eight bytes of a match. */
  method FirstEight(dst: array<byte>, op: nat, match0: nat, offset: nat) returns (m: nat)
    requires match0 + offset == op && op + 8 <= dst.Length
    modifies dst
    ensures m + Stride(offset) == op + 8
    ensures Copied(dst[..], op, op + 8, offset)
    ensures forall i :: 0 <= i < dst.Length && !(op <= i < op + 8) ==> dst[i] == old(dst[i])
  {
    if offset < 8 {
      m := FirstEightShort(dst, op, match0, offset);
    } else {
      CopyWithin(dst, op, match0, 8);
      m := match0 + 8;
    }
  }

  // ----- Whole matches -----

  /** Writes an eight-byte pattern behind itself. */
  method CopyPattern(dst: array<byte>, d: nat, v: seq<byte>)
    requires |v| == 8 <= d && d + 8 <= dst.Length && dst[d - 8..d] == v
    modifies dst
    ensures dst[d..d + 8] == v && Strided(dst[..], d, d + 8, 8)
    ensures forall i :: 0 <= i < dst.Length && !(d <= i < d + 8) ==> dst[i] == old(dst[i])
  {
    assert forall i :: 0 <= i < 8 ==> v[i] == dst[d - 8..d][i];
    CopyIn(dst, d, v, 0, 8);
  }

  /** Repeats an eight-byte pattern over [op, e), and up to 7 bytes more. */
  method FillPattern(dst: array<byte>, op: nat, e: nat, v: seq<byte>)
    requires |v| == 8 && WildEnd(op, e) <= dst.Length
    modifies dst
    ensures dst[op..op + 8] == v
    ensures Strided(dst[..], op + 8, WildEnd(op, e), 8)
    ensures forall i :: 0 <= i < op ==> dst[i] == old(dst[i])
    ensures forall i :: WildEnd(op, e) <= i < dst.Length ==> dst[i] == old(dst[i])
  {
    hide WildEnd;
    CopyIn(dst, op, v, 0, 8);
    var d := op + 8;
    WildEndStep(op, e);
    while d < e
      invariant op + 8 <= d && WildEnd(op, e) == if d < e then WildEnd(d, e) else d
      invariant dst[op..op + 8] == v && dst[d - 8..d] == v
      invariant Strided(dst[..], op + 8, d, 8)
      invariant forall i :: 0 <= i < op ==> dst[i] == old(dst[i])
      invariant forall i :: d <= i < dst.Length ==> dst[i] == old(dst[i])
    {
      WildEndStep(d, e);
      CopyPattern(dst, d, v);
      d := d + 8;
    }
  }

  function Pattern(dst: seq<byte>, m: nat, offset: nat): (v: seq<byte>)
    requires offset in {1, 2, 4} && m + offset <= |dst|
    ensures |v| == 8
    ensures forall i :: 0 <= i < 8 ==> v[i] == if i < offset then dst[m + i] else v[i - offset]
  {
    if offset == 1 then
      var a := dst[m];
      [a, a, a, a, a, a, a, a]
    else if offset == 2 then
      var a, b := dst[m], dst[m + 1];
      [a, b, a, b, a, b, a, b]
    else
      var a, b, c, d := dst[m], dst[m + 1], dst[m + 2], dst[m + 3];
      [a, b, c, d, a, b, c, d]
  }

  lemma PatternIsCopied(before: seq<byte>, s: seq<byte>, op: nat, offset: nat)
    requires offset in {1, 2, 4} && offset <= op && op + 8 <= |s| && |s| == |before|
    requires forall i :: 0 <= i < op ==> s[i] == before[i]
    requires s[op..op + 8] == Pattern(before, op - offset, offset)
    ensures Copied(s, op, op + 8, offset)
  {
    var v := s[op..op + 8];
    forall i | op <= i < op + 8
      ensures s[i] == s[i - offset]
    {
      assert s[i] == v[i - op];
      if i < op + offset {
        assert v[i - op] == before[i - offset];
      } else {
        assert s[i - offset] == v[i - op - offset];
      }
    }
  }

  /** Where the copies for short distances stop writing: the pattern form as soon as it can, the table
      form after eight bytes and then at least eight more. */
  function CopyEnd(op: nat, e: nat, offset: nat): (r: nat)
    ensures op + 8 <= r && e <= r && (op + MIN_MATCH <= e ==> r <= e + 12)
  {
    if offset in {1, 2, 4} then WildEnd(op, e) else WildEnd(op + 8, e)
  }

  /** The buffer such a copy leaves: the match, as far as it is written, and what stood behind it. */
  function AfterCopy(s: seq<byte>, op: nat, e: nat, offset: nat): (r: seq<byte>)
    requires offset <= op && CopyEnd(op, e, offset) <= |s|
    ensures |r| == |s|
  {
    CopyMatchRepeats(s[..op], offset, CopyEnd(op, e, offset) - op);
    CopyMatch(s[..op], offset, CopyEnd(op, e, offset) - op) + s[CopyEnd(op, e, offset)..]
  }

  lemma AfterCopyIs(before: seq<byte>, s: seq<byte>, op: nat, e: nat, offset: nat)
    requires offset <= op && CopyEnd(op, e, offset) <= |s| == |before|
    requires Copied(s, op, CopyEnd(op, e, offset), offset)
    requires forall i :: 0 <= i < op ==> s[i] == before[i]
    requires forall i :: CopyEnd(op, e, offset) <= i < |s| ==> s[i] == before[i]
    ensures s == AfterCopy(before, op, e, offset)
  {
    var end := CopyEnd(op, e, offset);
    CopiedIsCopyMatch(s, 0, op, end, offset);
    assert s[0..op] == before[..op] && s[end..] == before[end..];
    assert s == s[0..end] + s[end..];
  }

  /** LZ4_memcpy_using_offset: a match at a distance below 16, at least 4 bytes long. */
  method CopyUsingOffset(dst: array<byte>, op: nat, m: nat, e: nat, offset: nat)
    requires m + offset == op && op + MIN_MATCH <= e && CopyEnd(op, e, offset) <= dst.Length
    modifies dst
    ensures Copied(dst[..], op, CopyEnd(op, e, offset), offset)
    ensures forall i :: 0 <= i < op ==> dst[i] == old(dst[i])
    ensures forall i :: CopyEnd(op, e, offset) <= i < dst.Length ==> dst[i] == old(dst[i])
    ensures dst[..] == AfterCopy(old(dst[..]), op, e, offset)
  {
    if offset == 1 || offset == 2 || offset == 4 {
      var v := Pattern(dst[..], m, offset);
      FillPattern(dst, op, e, v);
      PatternIsCopied(old(dst[..]), dst[..], op, offset);
      StrideIsMultiple(offset);
      StridedContinues(dst[..], op, op + 8, WildEnd(op, e), offset, 8);
    } else {
      CopyUsingOffsetBase(dst, op, m, e, offset);
    }
    AfterCopyIs(old(dst[..]), dst[..], op, e, offset);
  }

  /** LZ4_memcpy_using_offset_base: eight bytes, and at least eight more. */
  method CopyUsingOffsetBase(dst: array<byte>, op: nat, match0: nat, e: nat, offset: nat)
    requires match0 + offset == op && op + MIN_MATCH <= e && WildEnd(op + 8, e) <= dst.Length
    modifies dst
    ensures Copied(dst[..], op, WildEnd(op + 8, e), offset)
    ensures forall i :: 0 <= i < op ==> dst[i] == old(dst[i])
    ensures forall i :: WildEnd(op + 8, e) <= i < dst.Length ==> dst[i] == old(dst[i])
  {
    var m := FirstEight(dst, op, match0, offset);
    ghost var start := dst[..];
    WildCopy8(dst, op + 8, m, e);
    CopiedKept(start, dst[..], op, op + 8, offset);
    if offset != 0 {
      StrideIsMultiple(offset);
    }
    StridedContinues(dst[..], op, op + 8, WildEnd(op + 8, e), offset, Stride(offset));
  }

  /** `n` zeros, and ones behind them. */
  function ZerosThenOnes(n: nat, size: nat): (r: seq<byte>)
    ensures |r| == size
  {
    seq(size, i => if i < n then 0 else 1)
  }

  lemma {:induction false} ZerosRepeat(out: seq<byte>, offset: nat, n: nat)
    requires offset <= |out| && forall i :: 0 <= i < |out| ==> out[i] == 0
    ensures forall i :: 0 <= i < |CopyMatch(out, offset, n)| ==> CopyMatch(out, offset, n)[i] == 0
    decreases n
  {
    if n > 0 {
      ZerosRepeat(out + [0], offset, n - 1);
    }
  }

  /** A buffer on which a copy shows every byte it writes. */
  lemma ExtentShows(op: nat, e: nat, offset: nat, size: nat)
    requires offset <= op <= e && CopyEnd(op, e, offset) <= size
    ensures forall i :: op <= i < CopyEnd(op, e, offset) ==>
      AfterCopy(ZerosThenOnes(op, size), op, e, offset)[i] != ZerosThenOnes(op, size)[i]
  {
    var s, n := ZerosThenOnes(op, size), CopyEnd(op, e, offset) - op;
    ZerosRepeat(s[..op], offset, n);
    CopyMatchRepeats(s[..op], offset, n);
  }

  /** Eight bytes of room behind the destination are enough, whatever the buffer holds, exactly for the
      pattern distances and for matches of at least eight bytes. */
  lemma EightBytesSuffice(op: nat, e: nat, offset: nat)
    requires offset <= op && op + MIN_MATCH <= e
    ensures (forall s: seq<byte> {:trigger AfterCopy(s, op, e, offset)} ::
               e + 12 <= |s| ==> AfterCopy(s, op, e, offset)[e + 8..] == s[e + 8..])
            <==> offset in {1, 2, 4} || 8 <= e - op
  {
    var end := CopyEnd(op, e, offset);
    if offset in {1, 2, 4} || 8 <= e - op {
      forall s: seq<byte> | e + 12 <= |s|
        ensures AfterCopy(s, op, e, offset)[e + 8..] == s[e + 8..]
      {
        KeptBehind(s, op, e, offset);
      }
    } else {
      var s := ZerosThenOnes(op, e + 12);
      ExtentShows(op, e, offset, e + 12);
      assert AfterCopy(s, op, e, offset)[e + 8..][0] == AfterCopy(s, op, e, offset)[e + 8];
      assert s[e + 8..][0] == s[e + 8];
    }
  }

  lemma KeptBehind(s: seq<byte>, op: nat, e: nat, offset: nat)
    requires offset <= op && op + MIN_MATCH <= e && e + 12 <= |s| && CopyEnd(op, e, offset) <= e + 8
    ensures AfterCopy(s, op, e, offset)[e + 8..] == s[e + 8..]
  {
    CopyMatchRepeats(s[..op], offset, CopyEnd(op, e, offset) - op);
  }

  /** Four bytes at distance 3 are written with 16: all twelve bytes behind the match change here. */
  lemma FourBytesAtThree(i: nat)
    requires 7 <= i < 19
    ensures CopyEnd(3, 7, 3) == 19
    ensures AfterCopy(ZerosThenOnes(3, 19), 3, 7, 3)[i] != ZerosThenOnes(3, 19)[i]
  {
    ExtentShows(3, 7, 3, 19);
  }

  /** What every match copy of the decoder promises: the bytes [op, op + n) of the output become the
      reference copy behind what stands at [lo, op), and nothing below op or from `end` on moves. */
  ghost predicate MatchCopied(was: seq<byte>, now: seq<byte>, lo: nat, op: nat, n: nat, offset: nat, end: nat) {
    && lo + offset <= op && op + n <= end <= |was| == |now|
    && now[lo..op + n] == CopyMatch(was[lo..op], offset, n)
    && now[..op] == was[..op]
    && now[end..] == was[end..]
  }

  lemma MatchIsCopied(was: seq<byte>, now: seq<byte>, lo: nat, op: nat, n: nat, offset: nat, end: nat)
    requires lo + offset <= op && op + n <= end <= |was| == |now|
    requires Copied(now, op, op + n, offset)
    requires forall i :: 0 <= i < op ==> now[i] == was[i]
    requires forall i :: end <= i < |now| ==> now[i] == was[i]
    ensures MatchCopied(was, now, lo, op, n, offset, end)
  {
    CopiedIsCopyMatch(now, lo, op, op + n, offset);
    assert now[lo..op] == was[lo..op];
  }

  /** A match of at most 18 bytes at a distance of at least 8, in three pieces. */
  method CopyMatch18(dst: array<byte>, ghost lo: nat, op: nat, n: nat, offset: nat, ghost end: nat)
    requires lo + offset <= op && 8 <= offset && n <= 18 && op + 18 <= end <= dst.Length
    modifies dst
    ensures MatchCopied(old(dst[..]), dst[..], lo, op, n, offset, end)
  {
    var m := op - offset;
    CopyWithin(dst, op, m, 8);
    CopyWithin(dst, op + 8, m + 8, 8);
    CopyWithin(dst, op + 16, m + 16, 2);
    MatchIsCopied(old(dst[..]), dst[..], lo, op, n, offset, end);
  }

  /** The match copy of the fast loop, with at least 32 bytes of room behind the match. */
  method CopyMatchFast(dst: array<byte>, ghost lo: nat, op: nat, n: nat, offset: nat, ghost end: nat)
    requires lo + offset <= op && MIN_MATCH <= n && op + n + 32 <= end <= dst.Length
    modifies dst
    ensures MatchCopied(old(dst[..]), dst[..], lo, op, n, offset, end)
  {
    if offset < 16 {
      CopyUsingOffset(dst, op, op - offset, op + n, offset);
    } else {
      WildCopy32(dst, op, op - offset, op + n);
    }
    MatchIsCopied(old(dst[..]), dst[..], lo, op, n, offset, end);
  }

  /** The match copy of the safe loop, which may run up to the end of the buffer; it gives up when
      the match would leave fewer than 5 bytes there. */
  method CopyMatchSafe(dst: array<byte>, ghost lo: nat, op0: nat, n: nat, offset: nat, end: nat) returns (ok: bool)
    requires lo + offset <= op0 && MIN_MATCH <= n && op0 + 8 <= end <= dst.Length
    modifies dst
    ensures ok <==> op0 + n <= end - LAST_LITERALS
    ensures ok ==> MatchCopied(old(dst[..]), dst[..], lo, op0, n, offset, end)
    ensures dst[..op0] == old(dst[..op0]) && dst[end..] == old(dst[end..])
  {
    var cpy := op0 + n;
    var m := FirstEight(dst, op0, op0 - offset, offset);
    var op := op0 + 8;
    if cpy > end - MF_LIMIT {
      if cpy > end - LAST_LITERALS {
        return false;
      }
      CopyMatchTail(dst, op0, m, cpy, offset, end);
    } else {
      CopyMatchRest(dst, op0, m, cpy, offset, end);
    }
    MatchIsCopied(old(dst[..]), dst[..], lo, op0, n, offset, end);
    ok := true;
  }

  /** The rest of a match with room to spare behind it: eight bytes, and more only when needed. */
  method CopyMatchRest(dst: array<byte>, op0: nat, m: nat, cpy: nat, offset: nat, ghost end: nat)
    requires offset <= op0 && op0 + MIN_MATCH <= cpy && cpy + 12 <= end <= dst.Length
    requires m + Stride(offset) == op0 + 8 && Copied(dst[..], op0, op0 + 8, offset)
    modifies dst
    ensures Copied(dst[..], op0, cpy, offset)
    ensures forall i :: 0 <= i < op0 ==> dst[i] == old(dst[i])
    ensures forall i :: end <= i < dst.Length ==> dst[i] == old(dst[i])
  {
    var op := op0 + 8;
    CopyWithin(dst, op, m, 8);
    ghost var reached := op + 8;
    ghost var once := dst[..];
    assert Strided(once, op, op + 8, Stride(offset));
    if cpy - op0 > 16 {
      WildCopy8(dst, op + 8, m + 8, cpy);
      reached := Max(cpy, op + 16);
      StridedJoins(once, dst[..], op, op + 8, reached, Stride(offset));
    }
    CopiedKept(old(dst[..]), dst[..], op0, op, offset);
    if offset != 0 {
      StrideIsMultiple(offset);
    }
    StridedContinues(dst[..], op0, op, reached, offset, Stride(offset));
  }

  /** The rest of a match close to the end: eight bytes at a time while there is room, then singly. */
  method CopyMatchTail(dst: array<byte>, op0: nat, m0: nat, cpy: nat, offset: nat, end: nat)
    requires offset <= op0 && op0 + MIN_MATCH <= cpy <= end <= dst.Length && op0 + 8 <= end
    requires m0 + Stride(offset) == op0 + 8 && Copied(dst[..], op0, op0 + 8, offset)
    modifies dst
    ensures Copied(dst[..], op0, cpy, offset)
    ensures forall i :: 0 <= i < op0 ==> dst[i] == old(dst[i])
    ensures forall i :: end <= i < dst.Length ==> dst[i] == old(dst[i])
  {
    var op, m := op0 + 8, m0;
    var limit := end - 7;
    if op < limit {
      WildCopy8(dst, op, m, limit);
      m := m + (limit - op);
      op := limit;
    }
    hide Stride;
    while op < cpy
      invariant op0 + 8 <= op && op - m == Stride(offset) && (op <= cpy || op <= end)
      invariant Strided(dst[..], op0 + 8, op, Stride(offset))
      invariant forall i :: 0 <= i < op0 + 8 ==> dst[i] == old(dst[i])
      invariant forall i :: end <= i < dst.Length ==> dst[i] == old(dst[i])
    {
      dst[op] := dst[m];
      op, m := op + 1, m + 1;
    }
    CopiedKept(old(dst[..]), dst[..], op0, op0 + 8, offset);
    if offset != 0 {
      StrideIsMultiple(offset);
    }
    StridedContinues(dst[..], op0, op0 + 8, op, offset, Stride(offset));
  }
}
