/**
 The LZ4 block format: what a compressed block says, how it is written, how it is read, and what
 it expands to. Nothing here mentions buffers, tables or speed; every other module is tied to it.
 */
module BlockFormat {
  import opened Bytes

  const MIN_MATCH := 4
  const LAST_LITERALS := 5
  const MF_LIMIT := 12
  const RUN_MASK := 15
  const ML_MASK := 15
  const DISTANCE_MAX := 65535

  /** One sequence: literals, then a copy of `matchLen` bytes found `offset` bytes back. */
  datatype Sequence = Sequence(literals: seq<byte>, offset: nat, matchLen: nat)

  /** A block: sequences, closed by a run of literals. `spare` is the low nibble of the last token,
      which no decoder looks at. */
  datatype Block = Last(literals: seq<byte>, spare: nat) | More(first: Sequence, rest: Block)

  predicate WellFormedSequence(s: Sequence) {
    s.offset <= DISTANCE_MAX && MIN_MATCH <= s.matchLen
  }

  predicate WellFormed(b: Block) {
    match b
    case Last(_, spare) => spare < 16
    case More(s, rest) => WellFormedSequence(s) && WellFormed(rest)
  }

  /** The format forbids offset 0. */
  predicate OffsetsPositive(b: Block) {
    match b
    case Last(_, _) => true
    case More(s, rest) => 1 <= s.offset && OffsetsPositive(rest)
  }

  /** Number of bytes the block expands to. */
  function OutLen(b: Block): nat {
    match b
    case Last(l, _) => |l|
    case More(s, rest) => |s.literals| + s.matchLen + OutLen(rest)
  }

  /** The parsing restrictions: each match starts at least 12 bytes, and ends at least 5 bytes,
      before the end of the expanded data. */
  predicate EndsWell(b: Block) {
    match b
    case Last(_, _) => true
    case More(s, rest) =>
      && MF_LIMIT <= s.matchLen + OutLen(rest)
      && LAST_LITERALS <= OutLen(rest)
      && EndsWell(rest)
  }

  // ----- Expansion -----

  /** Copies `n` bytes one at a time from `offset` back, so that a match may overlap its own output.
      Offset 0, which the format forbids, gives zeros: that is what the safe decoder writes. */
  function CopyMatch(out: seq<byte>, offset: nat, n: nat): seq<byte>
    requires offset <= |out|
    decreases n
  {
    if n == 0 then out
    else CopyMatch(out + [if offset == 0 then 0 else out[|out| - offset]], offset, n - 1)
  }

  /** Expands a block behind what is already there; fails when a match reaches before the start. */
  function Run(out: seq<byte>, b: Block): Option<seq<byte>>
    decreases b
  {
    match b
    case Last(l, _) => Some(out + l)
    case More(s, rest) =>
      var o := out + s.literals;
      if s.offset > |o| then None else Run(CopyMatch(o, s.offset, s.matchLen), rest)
  }

  /** `r` is `out` followed by bytes that repeat with distance `offset`. */
  ghost predicate Repeats(out: seq<byte>, offset: nat, r: seq<byte>) {
    && |out| <= |r|
    && offset <= |out|
    && r[..|out|] == out
    && forall i :: |out| <= i < |r| ==> r[i] == (if offset == 0 then 0 else r[i - offset])
  }

  lemma {:induction false} CopyMatchRepeats(out: seq<byte>, offset: nat, n: nat)
    requires offset <= |out|
    ensures |CopyMatch(out, offset, n)| == |out| + n
    ensures Repeats(out, offset, CopyMatch(out, offset, n))
    decreases n
  {
    if n != 0 {
      var next: byte := if offset == 0 then 0 else out[|out| - offset];
      var longer := out + [next];
      CopyMatchRepeats(longer, offset, n - 1);
      var r := CopyMatch(out, offset, n);
      assert r[..|longer|] == longer;
      assert r[..|out|] == longer[..|out|] == out;
      assert r[|out|] == longer[|out|] == next;
      if offset != 0 {
        assert r[|out| - offset] == longer[|out| - offset];
      }
    }
  }

  /** A copy is determined by where it starts and the distance at which it repeats. */
  lemma {:induction false} RepeatsIsCopyMatch(out: seq<byte>, offset: nat, r: seq<byte>)
    requires Repeats(out, offset, r)
    ensures r == CopyMatch(out, offset, |r| - |out|)
    decreases |r| - |out|
  {
    if |r| == |out| {
      assert r == out;
    } else {
      var next: byte := if offset == 0 then 0 else out[|out| - offset];
      var longer := out + [next];
      if offset != 0 {
        assert r[|out| - offset] == r[..|out|][|out| - offset];
      }
      assert r[..|longer|] == longer;
      RepeatsIsCopyMatch(longer, offset, r);
    }
  }

  /** A block's length is what it adds, and expanding never changes what was there. */
  lemma {:induction false} RunExtends(out: seq<byte>, b: Block)
    requires Run(out, b).Some?
    ensures |Run(out, b).value| == |out| + OutLen(b)
    ensures out <= Run(out, b).value
    decreases b
  {
    match b
    case Last(l, _) =>
    case More(s, rest) =>
      var o := out + s.literals;
      CopyMatchRepeats(o, s.offset, s.matchLen);
      var c := CopyMatch(o, s.offset, s.matchLen);
      RunExtends(c, rest);
      var r := Run(out, b).value;
      assert r[..|c|] == c;
      assert r[..|out|] == c[..|o|][..|out|] == out;
  }

  // ----- Writing -----

  /** A length in base "255 and a rest". */
  function RunBytes(n: nat): seq<byte> {
    if n < 255 then [n] else [255] + RunBytes(n - 255)
  }

  function Nibble(n: nat): (r: nat)
    ensures r < 16
  {
    if n < 15 then n else 15
  }

  function LengthBytes(n: nat): seq<byte> {
    if n < 15 then [] else RunBytes(n - 15)
  }

  /** Number of bytes a length takes beyond its nibble. */
  function LengthSize(n: nat): nat {
    if n < 15 then 0 else (n - 15) / 255 + 1
  }

  function OffsetBytes(offset: nat): seq<byte>
    requires offset <= DISTANCE_MAX
  {
    [offset % 256, offset / 256]
  }

  /** The part of a sequence before its offset; `low` is the nibble of the match length. */
  function LiteralPart(literals: seq<byte>, low: nat): seq<byte>
    requires low < 16
  {
    [Token(Nibble(|literals|), low)] + LengthBytes(|literals|) + literals
  }

  function MatchPart(offset: nat, matchLen: nat): seq<byte>
    requires offset <= DISTANCE_MAX && MIN_MATCH <= matchLen
  {
    OffsetBytes(offset) + LengthBytes(matchLen - MIN_MATCH)
  }

  function EncodeSequence(s: Sequence): seq<byte>
    requires WellFormedSequence(s)
  {
    LiteralPart(s.literals, Nibble(s.matchLen - MIN_MATCH)) + MatchPart(s.offset, s.matchLen)
  }

  function Encode(b: Block): seq<byte>
    requires WellFormed(b)
  {
    match b
    case Last(l, spare) => LiteralPart(l, spare)
    case More(s, rest) => EncodeSequence(s) + Encode(rest)
  }

  lemma {:induction false} RunBytesSize(n: nat)
    ensures |RunBytes(n)| == n / 255 + 1
    ensures forall i :: 0 <= i < n / 255 ==> RunBytes(n)[i] == 255
    ensures RunBytes(n)[n / 255] == n % 255
  {
    if n >= 255 {
      RunBytesSize(n - 255);
      assert (n - 255) / 255 == n / 255 - 1;
    }
  }

  lemma LengthBytesSize(n: nat)
    ensures |LengthBytes(n)| == LengthSize(n)
  {
    if n >= 15 {
      RunBytesSize(n - 15);
    }
  }

  // ----- Reading -----

  /** Reads a 255-run at `i`: its value and the position behind it. */
  function ReadRun(src: seq<byte>, i: nat): (r: Option<(nat, nat)>)
    ensures r.Some? ==> i < r.value.1 <= |src|
    decreases |src| - i
  {
    if i >= |src| then None
    else if src[i] < 255 then Some((src[i], i + 1))
    else
      match ReadRun(src, i + 1)
      case None => None
      case Some((v, j)) => Some((255 + v, j))
  }

  /** Reads the rest of a length whose nibble is known. */
  function ReadLength(src: seq<byte>, nibble: nat, i: nat): (r: Option<(nat, nat)>)
    ensures r.Some? && i <= |src| ==> i <= r.value.1 <= |src|
  {
    if nibble < 15 then Some((nibble, i))
    else
      match ReadRun(src, i)
      case None => None
      case Some((v, j)) => Some((15 + v, j))
  }

  /** The two nibbles of a token. */
  function High(token: byte): (r: nat)
    ensures r < 16
  {
    token / 16
  }

  function Low(token: byte): (r: nat)
    ensures r < 16
  {
    token % 16
  }

  function Token(high: nat, low: nat): (r: byte)
    requires high < 16 && low < 16
    ensures High(r) == high && Low(r) == low
  {
    high * 16 + low
  }

  lemma TokenOfNibbles(token: byte)
    ensures Token(High(token), Low(token)) == token
  {
  }

  function ReadLE16(src: seq<byte>, k: nat): (r: nat)
    requires k + 2 <= |src|
    ensures r <= DISTANCE_MAX
  {
    var low: int, high: int := src[k], src[k + 1];
    low + 256 * high
  }

  /** What stands at one token: nothing readable, the last literals, or a whole sequence. */
  datatype Head = Bad | Final(literals: seq<byte>, spare: nat) | Full(s: Sequence, next: nat)

  /** Reads the part of a sequence behind its literals, which start at `j` and end at `k`. */
  function ParseMatch(src: seq<byte>, low: nat, j: nat, k: nat): (h: Head)
    requires j <= k <= |src|
    ensures h.Full? ==> k + 2 <= h.next <= |src|
  {
    if k + 2 > |src| then Bad
    else
      match ReadLength(src, low, k + 2)
      case None => Bad
      case Some((n, e)) => Full(Sequence(src[j..k], ReadLE16(src, k), n + MIN_MATCH), e)
  }

  function ParseHead(src: seq<byte>, i: nat): (h: Head)
    ensures h.Full? ==> i < h.next <= |src|
  {
    if i >= |src| then Bad
    else
      match ReadLength(src, High(src[i]), i + 1)
      case None => Bad
      case Some((n, j)) =>
        if j + n > |src| then Bad
        else if j + n == |src| then Final(src[j..], Low(src[i]))
        else ParseMatch(src, Low(src[i]), j, j + n)
  }

  /** The whole block that starts at `i`, if there is one. */
  function Parse(src: seq<byte>, i: nat): Option<Block>
    decreases |src| - i
  {
    match ParseHead(src, i)
    case Bad => None
    case Final(l, spare) => Some(Last(l, spare))
    case Full(s, next) =>
      match Parse(src, next)
      case None => None
      case Some(rest) => Some(More(s, rest))
  }

  /** The reference decoder: reads the block at `i` and expands it behind `out`. */
  function Decode(src: seq<byte>, i: nat, out: seq<byte>): Option<seq<byte>> {
    match Parse(src, i)
    case None => None
    case Some(b) => Run(out, b)
  }

  // ----- Writing and reading are inverse -----

  /** The bytes `x` stand in `src` at position `i`. */
  predicate At(src: seq<byte>, i: nat, x: seq<byte>) {
    i + |x| <= |src| && src[i..i + |x|] == x
  }

  lemma AtConcat(src: seq<byte>, i: nat, x: seq<byte>, y: seq<byte>)
    ensures At(src, i, x + y) <==> At(src, i, x) && At(src, i + |x|, y)
  {
    var j, k := i + |x|, i + |x| + |y|;
    if k <= |src| {
      assert src[i..k] == src[i..j] + src[j..k];
      assert (x + y)[..|x|] == x && (x + y)[|x|..] == y;
    }
  }

  lemma AtOne(src: seq<byte>, i: nat, b: byte)
    ensures At(src, i, [b]) <==> i < |src| && src[i] == b
  {
    if i < |src| {
      assert src[i..i + 1] == [src[i]];
    }
  }

  lemma {:induction false} ReadRunOfRunBytes(src: seq<byte>, i: nat, n: nat)
    requires At(src, i, RunBytes(n))
    ensures ReadRun(src, i) == Some((n, i + |RunBytes(n)|))
    decreases n
  {
    if n < 255 {
      AtOne(src, i, n);
    } else {
      AtConcat(src, i, [255], RunBytes(n - 255));
      AtOne(src, i, 255);
      ReadRunOfRunBytes(src, i + 1, n - 255);
    }
  }

  lemma {:induction false} RunBytesOfReadRun(src: seq<byte>, i: nat)
    requires ReadRun(src, i).Some?
    ensures var (n, j) := ReadRun(src, i).value; At(src, i, RunBytes(n)) && j == i + |RunBytes(n)|
    decreases |src| - i
  {
    AtOne(src, i, src[i]);
    if src[i] >= 255 {
      RunBytesOfReadRun(src, i + 1);
      var (n, j) := ReadRun(src, i + 1).value;
      AtConcat(src, i, [255], RunBytes(n));
    }
  }

  /** Length coding round trip: a length is read back exactly where its own bytes stand. */
  lemma LengthRoundTrip(src: seq<byte>, i: nat, n: nat, j: nat)
    requires i <= |src|
    ensures ReadLength(src, Nibble(n), i) == Some((n, j))
            <==> At(src, i, LengthBytes(n)) && j == i + |LengthBytes(n)|
  {
    if n >= 15 {
      if At(src, i, LengthBytes(n)) {
        ReadRunOfRunBytes(src, i, n - 15);
      }
      if ReadRun(src, i).Some? {
        RunBytesOfReadRun(src, i);
      }
    }
  }

  lemma LiteralPartAt(src: seq<byte>, i: nat, l: seq<byte>, low: nat)
    requires low < 16
    ensures At(src, i, LiteralPart(l, low))
            <==> && i < |src| && src[i] == Token(Nibble(|l|), low)
                 && At(src, i + 1, LengthBytes(|l|))
                 && At(src, i + 1 + |LengthBytes(|l|)|, l)
  {
    var token := Token(Nibble(|l|), low);
    AtConcat(src, i, [token] + LengthBytes(|l|), l);
    AtConcat(src, i, [token], LengthBytes(|l|));
    AtOne(src, i, token);
  }

  lemma MatchPartAt(src: seq<byte>, k: nat, offset: nat, matchLen: nat)
    requires offset <= DISTANCE_MAX && MIN_MATCH <= matchLen
    ensures At(src, k, MatchPart(offset, matchLen))
            <==> && k + 2 <= |src| && ReadLE16(src, k) == offset
                 && At(src, k + 2, LengthBytes(matchLen - MIN_MATCH))
  {
    AtConcat(src, k, OffsetBytes(offset), LengthBytes(matchLen - MIN_MATCH));
    if k + 2 <= |src| {
      assert src[k..k + 2] == [src[k], src[k + 1]];
    }
  }

  /** Reading the token, length and literals at `i` gives `l` when they stand there... */
  lemma LiteralsOfEncoding(src: seq<byte>, i: nat, l: seq<byte>, low: nat)
    requires low < 16 && At(src, i, LiteralPart(l, low))
    ensures i < |src| && Low(src[i]) == low
    ensures var j := i + 1 + |LengthBytes(|l|)|;
            && ReadLength(src, High(src[i]), i + 1) == Some((|l|, j))
            && At(src, j, l) && j + |l| == i + |LiteralPart(l, low)|
  {
    LiteralPartAt(src, i, l, low);
    LengthRoundTrip(src, i + 1, |l|, i + 1 + |LengthBytes(|l|)|);
  }

  lemma NibbleOfLength(src: seq<byte>, token: byte, i: nat)
    requires ReadLength(src, High(token), i).Some?
    ensures High(token) == Nibble(ReadLength(src, High(token), i).value.0)
  {
    hide ReadRun;
  }

  /** ... and only then. */
  lemma EncodingOfLiterals(src: seq<byte>, i: nat, n: nat, j: nat)
    requires i < |src| && ReadLength(src, High(src[i]), i + 1) == Some((n, j)) && j + n <= |src|
    ensures At(src, i, LiteralPart(src[j..j + n], Low(src[i])))
    ensures j + n == i + |LiteralPart(src[j..j + n], Low(src[i]))|
  {
    hide ReadRun, LengthBytes, High, Low;
    var l := src[j..j + n];
    NibbleOfLength(src, src[i], i + 1);
    TokenOfNibbles(src[i]);
    LengthRoundTrip(src, i + 1, n, j);
    LiteralPartAt(src, i, l, Low(src[i]));
  }

  /** Reading a sequence at `i` gives `s` exactly when the bytes of `s` stand there. */
  lemma {:induction false} ParseHeadFull(src: seq<byte>, i: nat, s: Sequence, e: nat)
    ensures ParseHead(src, i) == Full(s, e)
            <==> WellFormedSequence(s) && At(src, i, EncodeSequence(s)) && e == i + |EncodeSequence(s)|
  {
    if WellFormedSequence(s) && At(src, i, EncodeSequence(s)) && e == i + |EncodeSequence(s)| {
      ParseEncodedSequence(src, i, s);
    }
    if ParseHead(src, i) == Full(s, e) {
      EncodeParsedSequence(src, i, s, e);
    }
  }

  lemma ParseEncodedMatch(src: seq<byte>, j: nat, k: nat, offset: nat, matchLen: nat)
    requires offset <= DISTANCE_MAX && MIN_MATCH <= matchLen && j <= k
    requires At(src, k, MatchPart(offset, matchLen))
    ensures ParseMatch(src, Nibble(matchLen - MIN_MATCH), j, k)
            == Full(Sequence(src[j..k], offset, matchLen), k + |MatchPart(offset, matchLen)|)
  {
    hide LengthBytes;
    var n := matchLen - MIN_MATCH;
    MatchPartAt(src, k, offset, matchLen);
    LengthRoundTrip(src, k + 2, n, k + 2 + |LengthBytes(n)|);
  }

  lemma EncodeParsedMatch(src: seq<byte>, low: nat, j: nat, k: nat)
    requires low < 16 && j <= k <= |src| && ParseMatch(src, low, j, k).Full?
    ensures var Full(s, e) := ParseMatch(src, low, j, k);
            && WellFormedSequence(s) && low == Nibble(s.matchLen - MIN_MATCH) && s.literals == src[j..k]
            && At(src, k, MatchPart(s.offset, s.matchLen)) && e == k + |MatchPart(s.offset, s.matchLen)|
  {
    var Full(s, e) := ParseMatch(src, low, j, k);
    LengthRoundTrip(src, k + 2, s.matchLen - MIN_MATCH, e);
    MatchPartAt(src, k, s.offset, s.matchLen);
  }

  lemma ParseHeadWithMatch(src: seq<byte>, i: nat, n: nat, j: nat)
    requires i < |src| && ReadLength(src, High(src[i]), i + 1) == Some((n, j)) && j + n < |src|
    ensures ParseHead(src, i) == ParseMatch(src, Low(src[i]), j, j + n)
  {
  }

  lemma ParseEncodedSequence(src: seq<byte>, i: nat, s: Sequence)
    requires WellFormedSequence(s) && At(src, i, EncodeSequence(s))
    ensures ParseHead(src, i) == Full(s, i + |EncodeSequence(s)|)
  {
    hide LiteralPart, MatchPart, ReadLength, Nibble, High, Low;
    var l, low := s.literals, Nibble(s.matchLen - MIN_MATCH);
    var part, tail := LiteralPart(l, low), MatchPart(s.offset, s.matchLen);
    AtConcat(src, i, part, tail);
    LiteralsOfEncoding(src, i, l, low);
    var k := i + |part|;
    assert k < |src| by { MatchPartAt(src, k, s.offset, s.matchLen); }
    ParseHeadWithMatch(src, i, |l|, k - |l|);
    ParseEncodedMatch(src, k - |l|, k, s.offset, s.matchLen);
    assert |part + tail| == |part| + |tail|;
  }

  lemma EncodeParsedSequence(src: seq<byte>, i: nat, s: Sequence, e: nat)
    requires ParseHead(src, i) == Full(s, e)
    ensures WellFormedSequence(s) && At(src, i, EncodeSequence(s)) && e == i + |EncodeSequence(s)|
  {
    hide LiteralPart, MatchPart, ReadLength, Nibble, High, Low;
    var (n, j) := ReadLength(src, High(src[i]), i + 1).value;
    EncodingOfLiterals(src, i, n, j);
    EncodeParsedMatch(src, Low(src[i]), j, j + n);
    AtConcat(src, i, LiteralPart(s.literals, Low(src[i])), MatchPart(s.offset, s.matchLen));
  }

  lemma ParseHeadFinal(src: seq<byte>, i: nat, l: seq<byte>, spare: nat)
    ensures ParseHead(src, i) == Final(l, spare)
            <==> spare < 16 && At(src, i, LiteralPart(l, spare)) && |src| == i + |LiteralPart(l, spare)|
  {
    hide LiteralPart, ReadLength, Nibble, High, Low;
    if spare < 16 && At(src, i, LiteralPart(l, spare)) && |src| == i + |LiteralPart(l, spare)| {
      LiteralsOfEncoding(src, i, l, spare);
      assert src[|src| - |l|..] == src[|src| - |l|..|src|];
    }
    if ParseHead(src, i) == Final(l, spare) {
      EncodingOfLiterals(src, i, |l|, |src| - |l|);
      assert src[|src| - |l|..] == src[|src| - |l|..|src|];
    }
  }

  /** The format is uniquely decodable: a byte string reads as a block exactly when it is that
      block's encoding. */
  lemma {:induction false} ParseIffEncode(src: seq<byte>, i: nat, b: Block)
    ensures Parse(src, i) == Some(b)
            <==> WellFormed(b) && At(src, i, Encode(b)) && |src| == i + |Encode(b)|
    decreases b
  {
    hide LiteralPart, EncodeSequence, ParseHead, At;
    match b
    case Last(l, spare) =>
      ParseHeadFinal(src, i, l, spare);
    case More(s, rest) =>
      if WellFormedSequence(s) {
        var e := i + |EncodeSequence(s)|;
        ParseHeadFull(src, i, s, e);
        ParseIffEncode(src, e, rest);
        if WellFormed(rest) {
          AtConcat(src, i, EncodeSequence(s), Encode(rest));
        }
      }
      if Parse(src, i) == Some(b) {
        var next := ParseHead(src, i).next;
        ParseHeadFull(src, i, s, next);
      }
  }

  /** A run of literals takes its bytes and at least a token. */
  lemma LastSize(l: seq<byte>, spare: nat)
    requires spare < 16
    ensures |l| + 1 <= |Encode(Last(l, spare))|
  {
  }

  /** Five bytes still to come are written in at least six. */
  lemma {:induction false} TailTakesSix(b: Block)
    requires WellFormed(b) && EndsWell(b) && LAST_LITERALS <= OutLen(b)
    ensures LAST_LITERALS + 1 <= |Encode(b)|
    decreases b
  {
    match b
    case Last(l, spare) => LastSize(l, spare);
    case More(s, rest) => TailTakesSix(rest);
  }
}
