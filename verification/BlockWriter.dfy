/**
 Writing the parts of a sequence into the output buffer: lengths, literals, offset and match length,
 in the ways the compressor writes them, over-copying and bulk stores included. Each method says
 which bytes it appends, and that nothing from `end` on moves.
 */
module BlockWriter {
  import opened Bytes
  import opened BlockFormat
  import opened WildCopy

  /** `out` now stands at the front of the buffer, and nothing from `end` on has moved. */
  twostate predicate Wrote(dst: array<byte>, out: seq<byte>, end: nat)
    reads dst
  {
    && |out| <= end <= dst.Length && dst[..|out|] == out && dst[end..] == old(dst[end..])
  }

  /** Length bytes one at a time, as for literal lengths. */
  method WriteRun(dst: array<byte>, op0: nat, n: nat, ghost end: nat) returns (op: nat)
    requires op0 + n / 255 + 1 <= end <= dst.Length
    modifies dst
    ensures op == op0 + n / 255 + 1
    ensures Wrote(dst, old(dst[..op0]) + RunBytes(n), end)
  {
    RunBytesSize(n);
    var len := n;
    op := op0;
    while len >= 255
      invariant op0 <= op && len + 255 * (op - op0) == n && op - op0 <= n / 255
      invariant forall i :: op0 <= i < op ==> dst[i] == 255
      invariant dst[..op0] == old(dst[..op0]) && dst[end..] == old(dst[end..])
    {
      dst[op] := 255;
      op, len := op + 1, len - 255;
    }
    dst[op] := len;
    op := op + 1;
    assert dst[op0..op] == RunBytes(n);
    assert dst[..op] == dst[..op0] + dst[op0..op];
  }

  /** Four bytes 0xFF. */
  method Write32Ones(dst: array<byte>, op: nat)
    requires op + 4 <= dst.Length
    modifies dst
    ensures forall i :: 0 <= i < dst.Length ==> dst[i] == if op <= i < op + 4 then 255 else old(dst[i])
  {
    dst[op], dst[op + 1], dst[op + 2], dst[op + 3] := 255, 255, 255, 255;
  }

  /** Length bytes four at a time, as for match lengths; may store up to three bytes too many. */
  method WriteRunBulk(dst: array<byte>, op0: nat, n: nat, ghost end: nat) returns (op: nat)
    requires op0 + n / 255 + 4 <= end <= dst.Length
    modifies dst
    ensures op == op0 + n / 255 + 1
    ensures Wrote(dst, old(dst[..op0]) + RunBytes(n), end)
  {
    hide RunBytes;
    RunBytesSize(n);
    var code := n;
    op := op0;
    Write32Ones(dst, op);
    while code >= 4 * 255
      invariant op0 <= op && code + 255 * (op - op0) == n && op - op0 + code / 255 == n / 255
      invariant op + 4 <= end
      invariant forall i :: op0 <= i < op + 4 ==> dst[i] == 255
      invariant dst[..op0] == old(dst[..op0]) && dst[end..] == old(dst[end..])
    {
      op := op + 4;
      Write32Ones(dst, op);
      code := code - 4 * 255;
    }
    op := op + code / 255;
    dst[op] := code % 255;
    op := op + 1;
    assert dst[op0..op] == RunBytes(n);
    assert dst[..op] == dst[..op0] + dst[op0..op];
  }

  lemma Assoc(a: seq<byte>, b: seq<byte>, c: seq<byte>)
    ensures a + b + c == a + (b + c)
  {
  }

  /** Appending to what stands at the front. */
  lemma Appended(dst: array<byte>, j: nat, op: nat, head: seq<byte>, part: seq<byte>)
    requires j <= op <= dst.Length && dst[..j] == head && dst[j..op] == part
    ensures dst[..op] == head + part && |head + part| == op
  {
  }

  /** Token and length bytes of `n` literals. */
  function Header(n: nat, low: nat): (r: seq<byte>)
    requires low < 16
    ensures |r| == 1 + LengthSize(n)
  {
    LengthBytesSize(n);
    [Token(Nibble(n), low)] + LengthBytes(n)
  }

  lemma LiteralPartIsHeader(before: seq<byte>, l: seq<byte>, low: nat)
    requires low < 16
    ensures before + LiteralPart(l, low) == before + Header(|l|, low) + l
    ensures |LiteralPart(l, low)| == 1 + LengthSize(|l|) + |l|
  {
    Assoc(before, Header(|l|, low), l);
  }

  method WriteHeader(dst: array<byte>, op0: nat, n: nat, ghost end: nat) returns (op: nat)
    requires op0 + 1 + LengthSize(n) <= end <= dst.Length
    modifies dst
    ensures op == op0 + 1 + LengthSize(n)
    ensures Wrote(dst, old(dst[..op0]) + Header(n, 0), end)
  {
    ghost var before := dst[..op0];
    dst[op0] := if n >= RUN_MASK then RUN_MASK * 16 else n * 16;
    op := op0 + 1;
    assert dst[..op] == before + [Token(Nibble(n), 0)];
    if n >= RUN_MASK {
      op := WriteRun(dst, op, n - RUN_MASK, end);
      Assoc(before, [Token(Nibble(n), 0)], RunBytes(n - RUN_MASK));
    } else {
      assert Header(n, 0) == [Token(Nibble(n), 0)];
    }
  }

  /** Token, length and literals of a sequence; the copy may run 7 bytes over (8 when empty). */
  method WriteLiteralPart(dst: array<byte>, op0: nat, buf: seq<byte>, anchor: nat, n: nat, ghost end: nat)
    returns (op: nat)
    requires anchor + n + 8 <= |buf| && end <= dst.Length
    requires op0 + 1 + LengthSize(n) + n + 7 <= end && op0 + 1 + LengthSize(n) + 8 <= end
    modifies dst
    ensures op == op0 + 1 + LengthSize(n) + n
    ensures Wrote(dst, old(dst[..op0]) + LiteralPart(buf[anchor..anchor + n], 0), end)
  {
    hide LiteralPart, Header, LengthSize;
    ghost var before, l := dst[..op0], buf[anchor..anchor + n];
    var j := WriteHeader(dst, op0, n, end);
    ghost var head := dst[..j];
    WildCopy8In(dst, j, buf, anchor, j + n);
    op := j + n;
    Appended(dst, j, op, head, l);
    LiteralPartIsHeader(before, l, 0);
  }

  /** The last literals, copied exactly. */
  method WriteLast(dst: array<byte>, op0: nat, buf: seq<byte>, anchor: nat, n: nat, ghost end: nat) returns (op: nat)
    requires anchor + n <= |buf| && op0 + 1 + LengthSize(n) + n <= end <= dst.Length
    modifies dst
    ensures op == op0 + 1 + LengthSize(n) + n
    ensures Wrote(dst, old(dst[..op0]) + LiteralPart(buf[anchor..anchor + n], 0), end)
  {
    hide LiteralPart, Header, LengthSize;
    ghost var before, l := dst[..op0], buf[anchor..anchor + n];
    var j := WriteHeader(dst, op0, n, end);
    ghost var head := dst[..j];
    CopyIn(dst, j, buf, anchor, n);
    op := j + n;
    Appended(dst, j, op, head, l);
    LiteralPartIsHeader(before, l, 0);
  }

  /** The low nibble of a token, set. */
  lemma NibbleSet(before: seq<byte>, l: seq<byte>, low: nat)
    requires low < 16
    ensures var s := before + LiteralPart(l, 0);
            && |before| < |s| && s[|before|] == Token(Nibble(|l|), 0)
            && s[|before| := Token(Nibble(|l|), low)] == before + LiteralPart(l, low)
  {
    var h := Nibble(|l|);
    hide Token, Nibble;
    var tail := LengthBytes(|l|) + l;
    hide LengthBytes;
    Assoc([Token(h, 0)], LengthBytes(|l|), l);
    Assoc([Token(h, low)], LengthBytes(|l|), l);
    assert (before + ([Token(h, 0)] + tail))[|before| := Token(h, low)] == before + ([Token(h, low)] + tail);
  }

  lemma TokenSum(high: nat, code: nat)
    requires high < 16
    ensures var token: int, sum: int := Token(high, 0), Token(high, Nibble(code));
            sum == token + (if code >= ML_MASK then ML_MASK else code)
  {
  }

  /** Adds the low nibble to a token. */
  method AddNibble(dst: array<byte>, token: nat, ghost op0: nat, code: nat, ghost before: seq<byte>, ghost l: seq<byte>)
    requires |before| == token && op0 <= dst.Length && dst[..op0] == before + LiteralPart(l, 0)
    modifies dst
    ensures dst[..op0] == before + LiteralPart(l, Nibble(code)) && dst[op0..] == old(dst[op0..])
  {
    hide LiteralPart, Token, Nibble;
    NibbleSet(before, l, Nibble(code));
    TokenSum(Nibble(|l|), code);
    ghost var was := dst[..op0];
    assert dst[token] == was[token];
    dst[token] := dst[token] + (if code >= ML_MASK then ML_MASK else code);
    assert dst[..op0] == was[token := Token(Nibble(|l|), Nibble(code))];
  }

  /** LZ4_writeLE16 of the offset. */
  method WriteOffset(dst: array<byte>, op: nat, offset: nat, ghost end: nat)
    requires offset <= DISTANCE_MAX && op + 2 <= end <= dst.Length
    modifies dst
    ensures Wrote(dst, old(dst[..op]) + OffsetBytes(offset), end)
  {
    ghost var before := dst[..op];
    dst[op], dst[op + 1] := offset % 256, offset / 256;
    Appended(dst, op, op + 2, before, OffsetBytes(offset));
  }

  /** The match length code behind literals and offset; its nibble is added to the token. */
  method WriteMatchLength(dst: array<byte>, token: nat, op0: nat, ghost offset: nat, code: nat,
                          ghost before: seq<byte>, ghost l: seq<byte>, ghost end: nat)
    returns (op: nat)
    requires offset <= DISTANCE_MAX && end <= dst.Length
    requires op0 + (if code < 15 then 0 else (code - 15) / 255 + 4) <= end
    requires |before| == token && 2 <= op0 <= dst.Length
    requires dst[..op0] == before + LiteralPart(l, 0) + OffsetBytes(offset)
    modifies dst
    ensures op == op0 + LengthSize(code)
    ensures Wrote(dst, before + EncodeSequence(Sequence(l, offset, code + MIN_MATCH)), end)
  {
    ghost var front := op0 - 2;
    assert dst[..front] == before + LiteralPart(l, 0) by {
      assert dst[..front] == dst[..op0][..front];
    }
    assert dst[front..op0] == OffsetBytes(offset) by {
      assert dst[front..op0] == dst[..op0][front..];
    }
    ghost var kept := dst[front..];
    AddNibble(dst, token, front, code, before, l);
    ghost var head := before + LiteralPart(l, Nibble(code));
    hide LiteralPart, Nibble;
    assert dst[front..op0] == kept[..2] && dst[end..] == kept[end - front..];
    Appended(dst, front, op0, head, OffsetBytes(offset));
    op := op0;
    if code >= ML_MASK {
      op := WriteRunBulk(dst, op, code - ML_MASK, end);
    } else {
      assert head + OffsetBytes(offset) + [] == head + OffsetBytes(offset);
    }
    Assoc(head, OffsetBytes(offset), LengthBytes(code));
    Assoc(before, LiteralPart(l, Nibble(code)), MatchPart(offset, code + MIN_MATCH));
  }

  lemma EmptyLiterals(l: seq<byte>)
    requires |l| == 0
    ensures |LiteralPart(l, 0)| == 1 && LiteralPart(l, 0)[0] == 0
  {
    LiteralPartIsHeader([], l, 0);
  }
}
