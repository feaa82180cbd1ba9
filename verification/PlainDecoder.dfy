/**
 LZ4_decompress_unsafe_generic: the plain decoder, one sequence and one match byte at a time. It
 is told the output size and trusts the input, so it can be characterised exactly, also when it is told
 another size than the block's.
 */
module PlainDecoder {
  import opened Bytes
  import opened BlockFormat
  import opened WildCopy

  /** No match of the block reaches further back than `n` bytes of history and its own output. */
  predicate InRange(n: nat, b: Block)
    decreases b
  {
    match b
    case Last(_, _) => true
    case More(s, rest) =>
      s.offset <= n + |s.literals| && InRange(n + |s.literals| + s.matchLen, rest)
  }

  lemma {:induction false} RunDefined(out: seq<byte>, b: Block)
    ensures Run(out, b).Some? <==> InRange(|out|, b)
    decreases b
  {
    match b
    case Last(_, _) =>
    case More(s, rest) =>
      var o := out + s.literals;
      if s.offset <= |o| {
        CopyMatchRepeats(o, s.offset, s.matchLen);
        RunDefined(CopyMatch(o, s.offset, s.matchLen), rest);
      }
  }

  /** read_long_length_no_check: the caller vouches that the run ends inside the input. */
  method ReadLongLength(src: seq<byte>, ip0: nat) returns (length: nat, ip: nat)
    requires ReadRun(src, ip0).Some?
    ensures ReadRun(src, ip0) == Some((length, ip))
  {
    ip, length := ip0, 0;
    ghost var rest := ReadRun(src, ip0).value;
    var b := 255;
    while b == 255
      invariant ip0 <= ip <= |src|
      invariant b == 255 ==> ReadRun(src, ip) == Some(rest)
      invariant b == 255 ==> ReadRun(src, ip0) == Some((length + rest.0, rest.1))
      invariant b != 255 ==> ReadRun(src, ip0) == Some((length, ip))
      decreases |src| - ip
    {
      b := src[ip];
      ip := ip + 1;
      length := length + b;
      if b == 255 {
        rest := ReadRun(src, ip).value;
      }
    }
  }

  /** The part of a block that stands for its first `size` bytes, if they end where literals end. */
  function Cut(b: Block, size: nat): Option<Block>
    decreases b
  {
    match b
    case Last(l, _) => if |l| == size then Some(b) else None
    case More(s, rest) =>
      if |s.literals| == size then Some(Last(s.literals, Nibble(Max(s.matchLen - MIN_MATCH, 0))))
      else if size < |s.literals| + s.matchLen then None
      else
        match Cut(rest, size - |s.literals| - s.matchLen)
        case None => None
        case Some(r) => Some(More(s, r))
  }

  lemma {:induction false} CutShape(b: Block, size: nat)
    requires WellFormed(b) && Cut(b, size).Some?
    ensures WellFormed(Cut(b, size).value) && OutLen(Cut(b, size).value) == size
    ensures OffsetsPositive(b) ==> OffsetsPositive(Cut(b, size).value)
    decreases b
  {
    match b
    case Last(_, _) =>
    case More(s, rest) =>
      if |s.literals| != size {
        CutShape(rest, size - |s.literals| - s.matchLen);
      }
  }

  /** A whole block is cut at its end. */
  lemma {:induction false} CutWhole(b: Block)
    requires WellFormed(b)
    ensures Cut(b, OutLen(b)) == Some(b)
    decreases b
  {
    match b
    case Last(_, _) =>
    case More(s, rest) => CutWhole(rest);
  }

  /** What is cut stands in front of the input. */
  lemma {:induction false} CutStands(src: seq<byte>, i: nat, b: Block, size: nat)
    requires WellFormed(b) && At(src, i, Encode(b)) && Cut(b, size).Some?
    ensures WellFormed(Cut(b, size).value) && At(src, i, Encode(Cut(b, size).value))
    decreases b
  {
    hide LiteralPart, MatchPart, At;
    match b
    case Last(_, _) =>
    case More(s, rest) =>
      AtConcat(src, i, EncodeSequence(s), Encode(rest));
      if |s.literals| == size {
        AtConcat(src, i, LiteralPart(s.literals, Nibble(s.matchLen - MIN_MATCH)), MatchPart(s.offset, s.matchLen));
      } else {
        CutStands(src, i + |EncodeSequence(s)|, rest, size - |s.literals| - s.matchLen);
        AtConcat(src, i, EncodeSequence(s), Encode(Cut(rest, size - |s.literals| - s.matchLen).value));
      }
  }

  /** What is cut means the first bytes of what the block means. */
  lemma {:induction false} CutIsPrefix(out: seq<byte>, b: Block, size: nat)
    requires Run(out, b).Some? && Cut(b, size).Some?
    ensures |out| + size <= |Run(out, b).value|
    ensures Run(out, Cut(b, size).value) == Some(Run(out, b).value[..|out| + size])
    decreases b
  {
    match b
    case Last(l, _) =>
      assert (out + l)[..|out| + size] == out + l;
    case More(s, rest) =>
      var o := out + s.literals;
      CopyMatchRepeats(o, s.offset, s.matchLen);
      var c := CopyMatch(o, s.offset, s.matchLen);
      RunExtends(c, rest);
      if |s.literals| == size {
        assert Run(out, b).value[..|c|] == c && c[..|o|] == o;
        assert Run(out, b).value[..|o|] == c[..|o|];
      } else {
        CutIsPrefix(c, rest, size - |s.literals| - s.matchLen);
      }
  }

  /** What the plain decoder accepts behind `n` bytes of history, told the output takes `size` bytes. */
  ghost predicate Acceptable(n: nat, b: Block, size: nat) {
    Cut(b, size).Some? && EndsWell(Cut(b, size).value) && InRange(n, Cut(b, size).value)
  }

  lemma LiteralsReadable(src: seq<byte>, ip: nat, b: Block)
    requires Parse(src, ip) == Some(b)
    ensures ip < |src| && ReadLength(src, High(src[ip]), ip + 1).Some?
    ensures var (n, j) := ReadLength(src, High(src[ip]), ip + 1).value; ip < j && j + n <= |src|
  {
  }

  /** The literals of a sequence: their bytes, and where they end; or there is no room for them. */
  method PlainLiterals(src: seq<byte>, dst: array<byte>, ip0: nat, op: nat, end: nat, ghost b: Block)
    returns (token: byte, n: nat, j: nat, fits: bool)
    requires Parse(src, ip0) == Some(b) && op <= end <= dst.Length
    modifies dst
    ensures ip0 < j && token == src[ip0] && ReadLength(src, High(token), ip0 + 1) == Some((n, j)) && j + n <= |src|
    ensures fits <==> n <= end - op
    ensures fits ==> dst[op..op + n] == src[j..j + n]
    ensures dst[..op] == old(dst[..op]) && dst[end..] == old(dst[end..])
  {
    hide Parse, High;
    LiteralsReadable(src, ip0, b);
    token := src[ip0];
    n, j := High(token), ip0 + 1;
    if n == 15 {
      var more, next := ReadLongLength(src, j);
      n, j := n + more, next;
    }
    fits := n <= end - op;
    if fits {
      CopyIn(dst, op, src, j, n);
    }
  }

  /** A match, byte by byte. With offset 0 it leaves the bytes as they are. */
  method PlainMatch(dst: array<byte>, op: nat, n: nat, offset: nat)
    requires offset <= op && op + n <= dst.Length
    modifies dst
    ensures offset != 0 ==> Copied(dst[..], op, op + n, offset)
    ensures forall i :: 0 <= i < dst.Length && !(op <= i < op + n) ==> dst[i] == old(dst[i])
  {
    var u := 0;
    while u < n
      invariant u <= n
      invariant offset != 0 ==> Copied(dst[..], op, op + u, offset)
      invariant forall i :: 0 <= i < dst.Length && !(op <= i < op + u) ==> dst[i] == old(dst[i])
    {
      dst[op + u] := dst[op - offset + u];
      u := u + 1;
    }
  }

  datatype Round = Next(ip: nat, op: nat) | Done(ip: nat) | Refused

  lemma HeadOfBlock(src: seq<byte>, ip: nat, b: Block, n: nat, j: nat)
    requires Parse(src, ip) == Some(b) && ip < |src|
    requires ReadLength(src, High(src[ip]), ip + 1) == Some((n, j)) && j + n <= |src|
    ensures b.Last? ==> j + n == |src| && b.literals == src[j..j + n] && b.spare == Low(src[ip])
    ensures j + n == ip + |LiteralPart(src[j..j + n], Low(src[ip]))|
    ensures b.More? ==>
      && j + n + 2 <= |src| && Low(src[ip]) == Nibble(Max(b.first.matchLen - MIN_MATCH, 0))
      && b.first.literals == src[j..j + n] && b.first.offset == ReadLE16(src, j + n)
      && var h := ReadLength(src, Low(src[ip]), j + n + 2);
         h.Some? && b.first.matchLen == h.value.0 + MIN_MATCH && Parse(src, h.value.1) == Some(b.rest)
  {
    hide ReadLength, High, Low, Nibble, LiteralPart, MatchPart, At;
    EncodingOfLiterals(src, ip, n, j);
    if b.Last? {
      assert src[j..j + n] == src[j..];
    } else {
      ParseHeadWithMatch(src, ip, n, j);
      EncodeParsedMatch(src, Low(src[ip]), j, j + n);
    }
  }

  /** Where the data ends, behind literals, the block is cut there. */
  lemma CutHere(b: Block)
    ensures b.Last? ==> Cut(b, |b.literals|) == Some(b)
    ensures b.More? ==>
      Cut(b, |b.first.literals|) == Some(Last(b.first.literals, Nibble(Max(b.first.matchLen - MIN_MATCH, 0))))
  {
  }

  /** It is not acceptable to end inside literals, or less than twelve bytes behind them. */
  lemma LiteralsRefused(n: nat, b: Block, size: nat)
    requires WellFormed(b)
    requires var literals := if b.Last? then |b.literals| else |b.first.literals|;
             size < literals + MF_LIMIT && size != literals
    ensures !Acceptable(n, b, size)
  {
    if Cut(b, size).Some? {
      CutShape(b, size);
    }
  }

  /** When a match is acceptable. */
  lemma MatchAcceptable(n: nat, b: Block, size: nat)
    requires WellFormed(b) && b.More? && |b.first.literals| + MF_LIMIT <= size
    ensures size < |b.first.literals| + b.first.matchLen ==> !Acceptable(n, b, size)
    ensures b.first.offset > n + |b.first.literals| ==> !Acceptable(n, b, size)
    ensures size < |b.first.literals| + b.first.matchLen + LAST_LITERALS ==> !Acceptable(n, b, size)
    ensures var taken := |b.first.literals| + b.first.matchLen;
            taken + LAST_LITERALS <= size && b.first.offset <= n + |b.first.literals| ==>
              && (Acceptable(n, b, size) <==> Acceptable(n + taken, b.rest, size - taken))
              && (Cut(b.rest, size - taken).Some? ==>
                    Cut(b, size) == Some(More(b.first, Cut(b.rest, size - taken).value)))
  {
    if Cut(b, size).Some? {
      CutShape(b, size);
    }
  }

  /** One round: literals, the end-of-block checks, and a match. It refuses only what is not
      acceptable. */
  method PlainRound(src: seq<byte>, dst: array<byte>, lo: nat, end: nat, ip0: nat, op0: nat, ghost b: Block)
    returns (r: Round)
    requires Parse(src, ip0) == Some(b) && WellFormed(b) && lo <= op0 <= end <= dst.Length
    requires end - op0 < OutLen(b) + MF_LIMIT
    modifies dst
    ensures r.Next? ==>
      && b.More? && ip0 < r.ip && Parse(src, r.ip) == Some(b.rest)
      && op0 <= r.op == op0 + |b.first.literals| + b.first.matchLen && r.op + LAST_LITERALS <= end
      && |b.first.literals| + MF_LIMIT <= end - op0 && b.first.offset <= op0 - lo + |b.first.literals|
      && (b.first.offset != 0 ==>
            dst[lo..r.op] == CopyMatch(old(dst[lo..op0]) + b.first.literals, b.first.offset, b.first.matchLen))
    ensures r.Done? ==>
      && Cut(b, end - op0).Some? && Cut(b, end - op0).value.Last? && WellFormed(Cut(b, end - op0).value)
      && r.ip == ip0 + |Encode(Cut(b, end - op0).value)|
      && dst[lo..end] == old(dst[lo..op0]) + Cut(b, end - op0).value.literals
    ensures r.Refused? ==> !Acceptable(op0 - lo, b, end - op0)
    ensures dst[..op0] == old(dst[..op0]) && dst[end..] == old(dst[end..])
  {
    hide High, Low, ReadLE16, ReadLength, CopyMatch, Parse, Cut, Acceptable, Encode, LiteralPart;
    ghost var kept := dst[..op0];
    assert dst[lo..op0] == kept[lo..];
    var token, n, j, fits := PlainLiterals(src, dst, ip0, op0, end, b);
    HeadOfBlock(src, ip0, b, n, j);
    if !fits {
      LiteralsRefused(op0 - lo, b, end - op0);
      return Refused;
    }
    var op, ip := op0 + n, j + n;
    assert dst[lo..op] == kept[lo..] + src[j..j + n] by {
      assert dst[lo..op0] == dst[..op0][lo..];
      assert dst[lo..op] == dst[lo..op0] + dst[op0..op];
    }
    if end - op < MF_LIMIT {
      if op == end {
        CutHere(b);
        CutSize(src, ip0, b, n, j);
        return Done(ip);
      }
      LiteralsRefused(op0 - lo, b, end - op0);
      return Refused;
    }
    var offset := ReadLE16(src, ip);
    var length, next := PlainLength(src, token, ip + 2);
    r := PlainCopy(dst, lo, end, op, length + MIN_MATCH, offset, next, b, op0);
  }

  /** The match length, less 4. */
  method PlainLength(src: seq<byte>, token: byte, ip0: nat) returns (length: nat, ip: nat)
    requires ip0 <= |src| && ReadLength(src, Low(token), ip0).Some?
    ensures ReadLength(src, Low(token), ip0) == Some((length, ip))
  {
    hide Low;
    length, ip := Low(token), ip0;
    if length == 15 {
      var more, next := ReadLongLength(src, ip);
      length, ip := length + more, next;
    }
  }

  lemma CutSize(src: seq<byte>, ip: nat, b: Block, n: nat, j: nat)
    requires Parse(src, ip) == Some(b) && WellFormed(b) && ip < |src|
    requires ReadLength(src, High(src[ip]), ip + 1) == Some((n, j)) && j + n <= |src|
    requires Cut(b, n).Some? && Cut(b, n).value.Last? && |Cut(b, n).value.literals| == n
    ensures WellFormed(Cut(b, n).value) && j + n == ip + |Encode(Cut(b, n).value)|
  {
    hide Cut, Parse, High, Low, LiteralPart, ReadLength;
    HeadOfBlock(src, ip, b, n, j);
    CutShape(b, n);
    CutHere(b);
  }

  /** The match of a round, and the checks around it. */
  method PlainCopy(dst: array<byte>, lo: nat, end: nat, op: nat, length: nat, offset: nat, ip: nat, ghost b: Block,
                   ghost op0: nat)
    returns (r: Round)
    requires b.More? && WellFormed(b) && b.first.offset == offset && b.first.matchLen == length && lo <= op0
    requires op == op0 + |b.first.literals| && MF_LIMIT <= end - op && end <= dst.Length
    modifies dst
    ensures r.Next? ==>
      && r.ip == ip && r.op == op + length && offset <= op - lo && r.op + LAST_LITERALS <= end
      && (offset != 0 ==> dst[lo..r.op] == CopyMatch(old(dst[lo..op]), offset, length))
    ensures r.Refused? ==> !Acceptable(op0 - lo, b, end - op0)
    ensures !r.Done?
    ensures dst[..op] == old(dst[..op]) && dst[end..] == old(dst[end..])
  {
    hide Cut, Acceptable;
    MatchAcceptable(op0 - lo, b, end - op0);
    if end - op < length {
      return Refused;
    }
    if offset > op - lo {
      return Refused;
    }
    PlainMatch(dst, op, length, offset);
    assert dst[..op] == old(dst[..op]) && dst[end..] == old(dst[end..]);
    if offset != 0 {
      CopiedIsCopyMatch(dst[..], lo, op, op + length, offset);
      assert dst[..][lo..op + length] == dst[lo..op + length];
      assert dst[..][lo..op] == old(dst[lo..op]);
    }
    if end - (op + length) < LAST_LITERALS {
      return Refused;
    }
    r := Next(ip, op + length);
  }

  /** What has been decoded, and what is to come. */
  ghost predicate Midway(src: seq<byte>, b: Block, size: nat, init: seq<byte>, ip: nat, out: seq<byte>, rest: Block,
                         left: nat) {
    && Parse(src, ip) == Some(rest) && WellFormed(b) && WellFormed(rest) && left < OutLen(rest) + MF_LIMIT
    && (Acceptable(|init|, b, size) <==> Acceptable(|out|, rest, left))
    && (Cut(rest, left).Some? ==>
          && Cut(b, size).Some? && WellFormed(Cut(b, size).value) && WellFormed(Cut(rest, left).value)
          && |Encode(Cut(b, size).value)| == ip + |Encode(Cut(rest, left).value)|
          && (OffsetsPositive(Cut(b, size).value) ==>
                && OffsetsPositive(Cut(rest, left).value)
                && Run(init, Cut(b, size).value) == Run(out, Cut(rest, left).value)))
  }

  /** One sequence further. The bytes of a match at offset 0 are left open. */
  lemma MidwayOn(src: seq<byte>, b: Block, size: nat, init: seq<byte>, ip: nat, out: seq<byte>, rest: Block,
                 left: nat, ip': nat, out': seq<byte>, left': nat)
    requires Midway(src, b, size, init, ip, out, rest, left) && rest.More? && Parse(src, ip') == Some(rest.rest)
    requires left' + |rest.first.literals| + rest.first.matchLen == left && LAST_LITERALS <= left'
    requires |rest.first.literals| + MF_LIMIT <= left && rest.first.offset <= |out| + |rest.first.literals|
    requires |out'| == |out| + |rest.first.literals| + rest.first.matchLen
    requires rest.first.offset != 0 ==>
      out' == CopyMatch(out + rest.first.literals, rest.first.offset, rest.first.matchLen)
    ensures Midway(src, b, size, init, ip', out', rest.rest, left')
  {
    hide Cut, Acceptable, Parse, CopyMatch, EncodeSequence;
    MatchAcceptable(|out|, rest, left);
    ParseIffEncode(src, ip, rest);
    ParseIffEncode(src, ip', rest.rest);
    if Cut(rest.rest, left').Some? {
      CutShape(rest.rest, left');
    }
  }

  /** LZ4_decompress_unsafe_generic, where it does not read past the input: told any size less than
      twelve bytes more than the block's, with the output from `start` on and history from `lo` on. It
      accepts exactly when literals end at that size and the block cut there obeys the parsing
      restrictions and stays in range; it consumes the encoding of that part, and produces what it
      expands to. */
  method DecompressUnsafe(src: seq<byte>, dst: array<byte>, lo: nat, start: nat, size: nat, ghost b: Block)
    returns (result: int)
    requires lo <= start && start + size <= dst.Length && Parse(src, 0) == Some(b) && size < OutLen(b) + MF_LIMIT
    modifies dst
    ensures result >= 0 <==> Acceptable(start - lo, b, size)
    ensures result >= 0 ==> WellFormed(Cut(b, size).value) && result == |Encode(Cut(b, size).value)|
    ensures result >= 0 && OffsetsPositive(Cut(b, size).value) ==>
      Run(old(dst[lo..start]), Cut(b, size).value) == Some(dst[lo..start + size])
    ensures dst[..start] == old(dst[..start]) && dst[start + size..] == old(dst[start + size..])
  {
    hide Parse, CopyMatch, Cut, Acceptable, Encode, Midway;
    var end := start + size;
    ghost var rest := b;
    ghost var init := dst[lo..start];
    var ip, op := 0, start;
    MidwayStart(src, b, size, init);
    while true
      invariant start <= op <= end && Midway(src, b, size, init, ip, dst[lo..op], rest, end - op)
      invariant dst[..start] == old(dst[..start]) && dst[end..] == old(dst[end..])
      decreases |src| - ip
    {
      MidwayInside(src, b, size, init, ip, dst[lo..op], rest, end - op);
      ghost var kept, out := dst[..op], dst[lo..op];
      var r := PlainRound(src, dst, lo, end, ip, op, rest);
      assert dst[..start] == kept[..start];
      match r
      case Refused =>
        MidwayRefused(src, b, size, init, ip, out, rest, end - op);
        return -1;
      case Done(next) =>
        MidwayEnds(src, b, size, init, ip, out, rest, end - op);
        return next;
      case Next(next, to) =>
        MidwayOn(src, b, size, init, ip, out, rest, end - op, next, dst[lo..to], end - to);
        ip, op := next, to;
        ParseInside(src, ip);
        rest := rest.rest;
    }
  }

  lemma MidwayStart(src: seq<byte>, b: Block, size: nat, init: seq<byte>)
    requires Parse(src, 0) == Some(b) && size < OutLen(b) + MF_LIMIT
    ensures Midway(src, b, size, init, 0, init, b, size)
  {
    ParseIffEncode(src, 0, b);
    if Cut(b, size).Some? {
      CutShape(b, size);
    }
  }

  lemma MidwayInside(src: seq<byte>, b: Block, size: nat, init: seq<byte>, ip: nat, out: seq<byte>, rest: Block,
                     left: nat)
    requires Midway(src, b, size, init, ip, out, rest, left)
    ensures Parse(src, ip) == Some(rest) && WellFormed(rest) && left < OutLen(rest) + MF_LIMIT && ip < |src|
  {
  }

  lemma MidwayRefused(src: seq<byte>, b: Block, size: nat, init: seq<byte>, ip: nat, out: seq<byte>, rest: Block,
                      left: nat)
    requires Midway(src, b, size, init, ip, out, rest, left) && !Acceptable(|out|, rest, left)
    ensures !Acceptable(|init|, b, size)
  {
  }

  /** Where the last literals are reached, the whole cut block has been decoded. */
  lemma MidwayEnds(src: seq<byte>, b: Block, size: nat, init: seq<byte>, ip: nat, out: seq<byte>, rest: Block,
                   left: nat)
    requires Midway(src, b, size, init, ip, out, rest, left) && Cut(rest, left).Some? && Cut(rest, left).value.Last?
    ensures Acceptable(|init|, b, size) && WellFormed(Cut(b, size).value) && WellFormed(Cut(rest, left).value)
    ensures |Encode(Cut(b, size).value)| == ip + |Encode(Cut(rest, left).value)|
    ensures OffsetsPositive(Cut(b, size).value) ==>
      Run(init, Cut(b, size).value) == Some(out + Cut(rest, left).value.literals)
  {
  }

  lemma ParseInside(src: seq<byte>, ip: nat)
    requires Parse(src, ip).Some?
    ensures ip < |src|
  {
  }
}
