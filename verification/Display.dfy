/**
 The display driver: blits paint the host's frame buffer and queue damage; a timer tick cuts the
 damage into bands, packs, compresses and sends them; the device shows what it is sent. Over any run,
 device and host agree on every pixel painted, except where it still is in the damage or where a
 failed flush lost it.
 */
module Display {
  import opened Bytes
  import opened Geometry
  import BlockFormat
  import Codec
  import Incompressible
  import Periods
  import GreedyPlan
  import PlanLimits
  import WildCopy

  datatype Status = Success | InvalidParameter | BufferTooSmall | DeviceError | Unsupported

  datatype Mode = Mode(hDisplay: nat, vDisplay: nat)

  /** GUD_DRM_REQ_SET_BUFFER. */
  datatype Request = Request(box: Box, length: nat, compressed: bool, compressedLength: nat)

  datatype Operation = VideoFill | VideoToBltBuffer | BufferToVideo | VideoToVideo

  // ----- The device -----

  /** The image bytes a transfer carries. */
  function Payload(request: Request, bytes: seq<byte>): Option<seq<byte>> {
    if !request.compressed then Some(bytes)
    else if |bytes| != request.compressedLength then None
    else BlockFormat.Decode(bytes, 0, [])
  }

  /** The image bytes of a transfer to a device that wants its bands compressed, or not. */
  function Image(lz4: bool, bytes: seq<byte>): Option<seq<byte>> {
    if lz4 then BlockFormat.Decode(bytes, 0, []) else Some(bytes)
  }

  /** The image bytes of several transfers, one behind the other. */
  function Images(lz4: bool, transfers: seq<seq<byte>>): Option<seq<byte>> {
    if transfers == [] then Some([])
    else
      match (Images(lz4, transfers[..|transfers| - 1]), Image(lz4, transfers[|transfers| - 1]))
      case (Some(front), Some(last)) => Some(front + last)
      case (_, _) => None
  }

  lemma ImagesMore(lz4: bool, before: nat, shorter: seq<seq<byte>>, received: seq<seq<byte>>, sent: seq<byte>,
                   bytes: seq<byte>)
    requires before <= |shorter| && |received| == |shorter| + 1 && received[..|shorter|] == shorter
    requires Images(lz4, shorter[before..]) == Some(sent) && Image(lz4, received[|shorter|]) == Some(bytes)
    ensures Images(lz4, received[before..]) == Some(sent + bytes) && received[..before] == shorter[..before]
  {
    var transfers := received[before..];
    assert transfers[..|transfers| - 1] == shorter[before..] && transfers[|transfers| - 1] == received[|shorter|];
  }

  /** What the screen shows after a transfer. */
  function Shown(screen: seq<byte>, w: nat, h: nat, request: Request, bytes: seq<byte>): (r: seq<byte>)
    requires |screen| == ImageSize(w, h)
    ensures |r| == |screen|
  {
    match Payload(request, bytes)
    case Some(image) =>
      if request.box.Fits(w, h) && |image| == request.length == ImageSize(request.box.width, request.box.height) then
        Stored(screen, w, h, request.box, image)
      else screen
    case None => screen
  }

  /** The device at the other end of the cable; each of its steps may fail, and then changes nothing. */
  class Panel {
    var width: nat
    var height: nat
    var screen: seq<byte>
    var request: Option<Request>
    /** The transfers that succeeded, in order. */
    ghost var received: seq<seq<byte>>
    /** The number of steps that failed. */
    ghost var failures: nat

    ghost predicate Valid()
      reads this
    {
      |screen| == ImageSize(width, height)
    }

    constructor (w: nat, h: nat)
      ensures Valid() && width == w && height == h && received == [] && failures == 0
    {
      width, height := w, h;
      screen := seq(ImageSize(w, h), _ => 0);
      request := None;
      received, failures := [], 0;
    }

    method SetMode(w: nat, h: nat)
      modifies this`width, this`height, this`screen, this`request
      ensures Valid() && width == w && height == h
    {
      width, height := w, h;
      screen := seq(ImageSize(w, h), _ => 0);
      request := None;
    }

    method SetBuffer(r: Request) returns (ok: bool)
      modifies this`request, this`failures
      ensures request == if ok then Some(r) else old(request)
      ensures failures == if ok then old(failures) else old(failures) + 1
    {
      ok := *;
      failures := if ok then failures else failures + 1;
      if ok {
        request := Some(r);
      }
    }

    method BulkTransfer(bytes: seq<byte>) returns (ok: bool)
      requires Valid()
      modifies this`screen, this`received, this`failures
      ensures Valid()
      ensures failures == if ok then old(failures) else old(failures) + 1
      ensures received == if ok then old(received) + [bytes] else old(received)
      ensures screen == if ok && request.Some? then Shown(old(screen), width, height, request.value, bytes)
                        else old(screen)
    {
      ok := *;
      received := if ok then received + [bytes] else received;
      failures := if ok then failures else failures + 1;
      if ok && request.Some? {
        screen := Shown(screen, width, height, request.value, bytes);
      }
    }
  }

  // ----- Screens -----

  /** Inside the rectangle the new screen shows the image, elsewhere what it showed before. */
  ghost predicate Updated(before: seq<byte>, image: seq<byte>, after: seq<byte>, stride: nat, box: Box) {
    && |before| == |image| == |after| && 1 <= stride
    && forall i :: 0 <= i < |after| ==> after[i] == if Inside(stride, box, i) then image[i] else before[i]
  }

  lemma NothingUpdated(screen: seq<byte>, image: seq<byte>, stride: nat, box: Box)
    requires |screen| == |image| && 1 <= stride && box.height == 0
    ensures Updated(screen, image, screen, stride, box)
  {
  }

  lemma StoredIsUpdated(screen: seq<byte>, image: seq<byte>, stride: nat, h: nat, box: Box)
    requires |screen| == |image| == ImageSize(stride, h) && box.Fits(stride, h)
    ensures Updated(screen, image, Stored(screen, stride, h, box, Packed(image, stride, h, box)), stride, box)
  {
    forall i | 0 <= i < |screen|
      ensures Stored(screen, stride, h, box, Packed(image, stride, h, box))[i]
              == if Inside(stride, box, i) then image[i] else screen[i]
    {
      StoredPacked(screen, image, stride, h, box, i);
    }
  }

  /** Two bands, one below the other, update the rectangle they make up. */
  lemma UpdatedBands(s0: seq<byte>, image: seq<byte>, s1: seq<byte>, s2: seq<byte>, stride: nat, top: Box, bottom: Box)
    requires Updated(s0, image, s1, stride, top) && Updated(s1, image, s2, stride, bottom)
    requires top.x == bottom.x && top.width == bottom.width && bottom.y == top.y + top.height
    ensures Updated(s0, image, s2, stride, Box(top.x, top.y, top.width, top.height + bottom.height))
  {
    hide PixelX, PixelY;
  }

  predicate SamePixel(a: seq<byte>, b: seq<byte>, stride: nat, x: nat, y: nat) {
    var o := Offset(stride, x, y);
    o + BPP <= |a| && o + BPP <= |b| && a[o..o + BPP] == b[o..o + BPP]
  }

  lemma UpdatedByte(before: seq<byte>, image: seq<byte>, after: seq<byte>, stride: nat, h: nat, box: Box, x: nat,
                    y: nat, c: nat)
    requires Updated(before, image, after, stride, box) && |image| == ImageSize(stride, h) && x < stride && y < h
    requires c < BPP
    ensures Offset(stride, x, y) + BPP <= |image|
    ensures after[Offset(stride, x, y) + c]
            == if box.Contains(x, y) then image[Offset(stride, x, y) + c] else before[Offset(stride, x, y) + c]
  {
    RowInside(stride, h, x, y, 1);
    PixelOfOffset(stride, x, y, c);
    hide Offset, ImageSize, PixelX, PixelY;
  }

  lemma SameBytes(a: seq<byte>, b: seq<byte>, o: nat)
    requires o + BPP <= |a| == |b| && a[o] == b[o] && a[o + 1] == b[o + 1] && a[o + 2] == b[o + 2]
    requires a[o + 3] == b[o + 3]
    ensures a[o..o + BPP] == b[o..o + BPP]
  {
  }

  /** A pixel after an update: new inside the rectangle, as before outside. */
  lemma UpdatedPixel(before: seq<byte>, image: seq<byte>, after: seq<byte>, stride: nat, h: nat, box: Box, x: nat,
                     y: nat)
    requires Updated(before, image, after, stride, box) && |image| == ImageSize(stride, h) && x < stride && y < h
    ensures box.Contains(x, y) ==> SamePixel(image, after, stride, x, y)
    ensures !box.Contains(x, y) ==> SamePixel(before, after, stride, x, y)
  {
    assert |before| == |image| == |after|;
    UpdatedByte(before, image, after, stride, h, box, x, y, 0);
    UpdatedByte(before, image, after, stride, h, box, x, y, 1);
    UpdatedByte(before, image, after, stride, h, box, x, y, 2);
    UpdatedByte(before, image, after, stride, h, box, x, y, 3);
    hide Updated, Offset, ImageSize;
    if box.Contains(x, y) {
      SameBytes(image, after, Offset(stride, x, y));
    } else {
      SameBytes(before, after, Offset(stride, x, y));
    }
  }

  /** The pixels of a rectangle. */
  ghost function Points(box: Box): iset<(nat, nat)> {
    iset p: (nat, nat) | box.Contains(p.0, p.1)
  }

  /** Pixels painted so far are the same on both sides, but for those excused. */
  ghost predicate Agree(drawn: iset<(nat, nat)>, excused: iset<(nat, nat)>, host: seq<byte>, device: seq<byte>,
                        w: nat, h: nat) {
    forall p :: p in drawn ==> p.0 < w && p.1 < h && (p in excused || SamePixel(host, device, w, p.0, p.1))
  }

  /** A flush makes everything in its rectangle agree. */
  lemma FlushAgrees(drawn: iset<(nat, nat)>, lost: iset<(nat, nat)>, host: seq<byte>, before: seq<byte>,
                    after: seq<byte>, w: nat, h: nat, box: Box)
    requires Agree(drawn, Points(box) + lost, host, before, w, h) && Updated(before, host, after, w, box)
    requires |host| == ImageSize(w, h)
    ensures Agree(drawn, lost - Points(box), host, after, w, h)
  {
    forall p | p in drawn
      ensures p in lost - Points(box) || SamePixel(host, after, w, p.0, p.1)
    {
      hide Updated, Offset, ImageSize;
      UpdatedPixel(before, host, after, w, h, box, p.0, p.1);
    }
  }

  /** A failed flush loses at most the pixels of its rectangle. */
  lemma FailedAgrees(drawn: iset<(nat, nat)>, lost: iset<(nat, nat)>, host: seq<byte>, before: seq<byte>,
                     after: seq<byte>, w: nat, h: nat, box: Box)
    requires Agree(drawn, Points(box) + lost, host, before, w, h) && Updated(before, after, after, w, box)
    requires |host| == |after| == ImageSize(w, h)
    ensures Agree(drawn, lost + Points(box), host, after, w, h)
  {
    forall p | p in drawn
      ensures p in lost + Points(box) || SamePixel(host, after, w, p.0, p.1)
    {
      hide Updated, Offset, ImageSize;
      UpdatedPixel(before, after, after, w, h, box, p.0, p.1);
    }
  }

  /** Painting a rectangle makes it pending, and leaves the rest as it was. */
  lemma PaintAgrees(drawn: iset<(nat, nat)>, excused: iset<(nat, nat)>, wider: iset<(nat, nat)>, host: seq<byte>,
                    paint: seq<byte>, painted: seq<byte>, device: seq<byte>, w: nat, h: nat, box: Box)
    requires Agree(drawn, excused, host, device, w, h) && Updated(host, paint, painted, w, box)
    requires |host| == ImageSize(w, h) && box.Fits(w, h) && excused <= wider && Points(box) <= wider
    ensures Agree(drawn + Points(box), wider, painted, device, w, h)
  {
    forall p | p in drawn + Points(box)
      ensures p.0 < w && p.1 < h && (p in wider || SamePixel(painted, device, w, p.0, p.1))
    {
      hide Updated, Offset, ImageSize;
      if p !in wider {
        UpdatedPixel(host, paint, painted, w, h, box, p.0, p.1);
      }
    }
  }

  // ----- The driver -----

  const INT_MAX := 0x7FFF_FFFF

  function Whole(mode: Mode): Box {
    Box(0, 0, mode.hDisplay, mode.vDisplay)
  }

  lemma PartFits(max: nat, width: nat, rows: nat)
    requires 1 <= width && rows <= max / (width * BPP)
    ensures ImageSize(width, rows) <= max
  {
    var line := width * BPP;
    MulGrows(line, rows, max / line);
    assert line * (max / line) <= max;
    assert line * rows == BPP * (width * rows) by {
      assert width * BPP * rows == BPP * (width * rows);
    }
  }

  ghost predicate DamageKept(dirty: bool, damage: Box, queued: seq<Box>, mode: Mode) {
    && (forall b :: b in queued ==> b.Fits(mode.hDisplay, mode.vDisplay))
    && if dirty then queued != [] && damage == Damage(queued) else queued == []
  }

  /** A painting of `n` bytes. */
  ghost function Canvas(n: nat, paint: nat -> byte): (r: seq<byte>)
    ensures |r| == n
  {
    seq(n, i requires 0 <= i < n => paint(i))
  }

  /** The rows of a rectangle above `y`, if there are any, were sent. */
  ghost predicate Sent(box: Box, y: nat, image: seq<byte>, sent: seq<byte>, w: nat, h: nat) {
    && |image| == ImageSize(w, h) && box.Fits(w, h) && box.y <= y <= box.y + box.height
    && if y == box.y then sent == [] else sent == Packed(image, w, h, Box(box.x, box.y, box.width, y - box.y))
  }

  /** And they are shown. */
  ghost predicate Banded(box: Box, y: nat, before: seq<byte>, image: seq<byte>, now: seq<byte>, w: nat, h: nat) {
    && |image| == ImageSize(w, h) && box.Fits(w, h) && box.y <= y <= box.y + box.height
    && Updated(before, image, now, w, Box(box.x, box.y, box.width, y - box.y))
  }

  lemma NoBand(box: Box, screen: seq<byte>, image: seq<byte>, w: nat, h: nat)
    requires |screen| == |image| == ImageSize(w, h) && box.Fits(w, h)
    ensures Banded(box, box.y, screen, image, screen, w, h) && Sent(box, box.y, image, [], w, h)
  {
    NothingUpdated(screen, image, w, Box(box.x, box.y, box.width, 0));
  }

  lemma SentMore(box: Box, y: nat, rows: nat, image: seq<byte>, sent: seq<byte>, w: nat, h: nat)
    requires Sent(box, y, image, sent, w, h) && 1 <= rows && y + rows <= box.y + box.height
    ensures Sent(box, y + rows, image, sent + Packed(image, w, h, Box(box.x, y, box.width, rows)), w, h)
  {
    hide Packed, ImageSize;
    var part := Packed(image, w, h, Box(box.x, y, box.width, rows));
    if y > box.y {
      PackedBands(image, w, h, Box(box.x, box.y, box.width, y + rows - box.y), y - box.y);
    } else {
      assert sent + part == part;
    }
  }

  /** Bands follow one another without gap or overlap. */
  lemma OneBandMore(box: Box, y: nat, rows: nat, before: seq<byte>, image: seq<byte>, shown: seq<byte>,
                    now: seq<byte>, w: nat, h: nat)
    requires Banded(box, y, before, image, shown, w, h) && 1 <= rows && y + rows <= box.y + box.height
    requires Updated(shown, image, now, w, Box(box.x, y, box.width, rows))
    ensures Banded(box, y + rows, before, image, now, w, h)
  {
    hide Updated, Packed, ImageSize;
    UpdatedBands(before, image, shown, now, w, Box(box.x, box.y, box.width, y - box.y), Box(box.x, y, box.width, rows));
  }

  /** Whatever was sent before a flush broke off, it stayed inside the rectangle. */
  lemma BandsStayInside(box: Box, y: nat, before: seq<byte>, image: seq<byte>, now: seq<byte>, w: nat, h: nat)
    requires Banded(box, y, before, image, now, w, h)
    ensures Updated(before, now, now, w, box)
  {
    hide PixelX, PixelY, Packed;
  }

  lemma AllBands(box: Box, before: seq<byte>, image: seq<byte>, now: seq<byte>, w: nat, h: nat)
    requires Banded(box, box.y + box.height, before, image, now, w, h)
    ensures Updated(before, image, now, w, box)
  {
    hide Updated, Packed;
  }

  lemma AllSent(box: Box, image: seq<byte>, sent: seq<byte>, w: nat, h: nat)
    requires Sent(box, box.y + box.height, image, sent, w, h)
    ensures sent == Packed(image, w, h, box)
  {
    hide Packed;
  }

  // ----- How a rectangle is cut -----

  /** Rows in a band. */
  function Part(max: nat, width: nat): nat
    requires 1 <= width
  {
    max / (width * BPP)
  }

  /** Bands in a rectangle: its height by the rows in a band, rounded up. */
  function BandCount(height: nat, part: nat): nat
    requires 1 <= part
  {
    (height + part - 1) / part
  }

  /** Band `i`: the rows from i * part on. */
  function Band(box: Box, part: nat, i: nat): Box {
    Box(box.x, box.y + i * part, box.width, Max(0, Min(part, box.height - i * part)))
  }

  lemma BandInside(box: Box, part: nat, i: nat, w: nat, h: nat)
    requires box.Fits(w, h) && 1 <= part && i < BandCount(box.height, part)
    ensures i * part < box.height && Band(box, part, i).Fits(w, h)
    ensures Min((i + 1) * part, box.height) == i * part + Band(box, part, i).height
  {
    CountIs(box.height, part, i);
    assert (i + 1) * part == i * part + part;
  }

  /** There are as many bands as begin above the end of the rectangle. */
  lemma CountIs(height: nat, part: nat, i: nat)
    requires 1 <= part
    ensures i < BandCount(height, part) <==> i * part < height
  {
    var n := BandCount(height, part);
    assert height + part - 1 == part * n + (height + part - 1) % part;
    if i < n {
      MulGrows(part, i + 1, n);
      MulStep(part, i);
    } else {
      MulGrows(part, n, i);
    }
  }

  /** The bytes of band `i`. */
  function BandBytes(image: seq<byte>, w: nat, h: nat, box: Box, part: nat, i: nat): seq<byte>
    requires |image| == ImageSize(w, h) && box.Fits(w, h) && 1 <= part && i < BandCount(box.height, part)
  {
    BandInside(box, part, i, w, h);
    Packed(image, w, h, Band(box, part, i))
  }

  /** A band the device cannot be sent: compressed, it does not fit the buffer. */
  ghost predicate Unsendable(lz4: bool, max: nat, image: seq<byte>, w: nat, h: nat, box: Box, part: nat, i: nat)
    requires |image| == ImageSize(w, h) && box.Fits(w, h) && 1 <= part && i < BandCount(box.height, part)
  {
    lz4 && TooLarge(BandBytes(image, w, h, box, part, i), max)
  }

  /** The transfers carry the first bands, one each. */
  ghost predicate Cut(lz4: bool, max: nat, image: seq<byte>, w: nat, h: nat, box: Box, part: nat,
                      transfers: seq<seq<byte>>)
    requires |image| == ImageSize(w, h) && box.Fits(w, h) && 1 <= part
  {
    && |transfers| <= BandCount(box.height, part)
    && forall i: nat :: i < |transfers| ==>
         && Image(lz4, transfers[i]) == Some(BandBytes(image, w, h, box, part, i))
         && !Unsendable(lz4, max, image, w, h, box, part, i)
  }

  lemma CutMore(lz4: bool, max: nat, image: seq<byte>, w: nat, h: nat, box: Box, part: nat, before: nat,
                shorter: seq<seq<byte>>, received: seq<seq<byte>>)
    requires |image| == ImageSize(w, h) && box.Fits(w, h) && 1 <= part && before <= |shorter|
    requires Cut(lz4, max, image, w, h, box, part, shorter[before..])
    requires |shorter| - before < BandCount(box.height, part)
    requires |received| == |shorter| + 1 && received[..|shorter|] == shorter
    requires Image(lz4, received[|shorter|]) == Some(BandBytes(image, w, h, box, part, |shorter| - before))
    requires !Unsendable(lz4, max, image, w, h, box, part, |shorter| - before)
    ensures Cut(lz4, max, image, w, h, box, part, received[before..])
  {
    hide Unsendable, BandBytes, Image;
    var transfers := received[before..];
    forall i: nat | i < |transfers|
      ensures Image(lz4, transfers[i]) == Some(BandBytes(image, w, h, box, part, i))
      ensures !Unsendable(lz4, max, image, w, h, box, part, i)
    {
      if i < |transfers| - 1 {
        assert transfers[i] == received[..|shorter|][before + i] == shorter[before..][i];
      }
    }
  }

  /** How a flush ends, and what it has sent by then: the bands from the top on, all of them on success; a band
      that cannot be sent, or a failure of the device, is where it stops. */
  ghost predicate Reports(lz4: bool, max: nat, image: seq<byte>, w: nat, h: nat, box: Box, status: Status,
                          transfers: seq<seq<byte>>, failed: int) {
    && |image| == ImageSize(w, h) && box.Fits(w, h) && 1 <= Part(max, box.width)
    && var part, k := Part(max, box.width), |transfers|;
       && Cut(lz4, max, image, w, h, box, part, transfers)
       && match status
          case Success => k == BandCount(box.height, part) && failed == 0
          case DeviceError =>
            k < BandCount(box.height, part) && !Unsendable(lz4, max, image, w, h, box, part, k) && failed == 1
          case BufferTooSmall =>
            k < BandCount(box.height, part) && Unsendable(lz4, max, image, w, h, box, part, k) && failed == 0
          case _ => false
  }

  /** While the device works, a flush succeeds exactly when all of its bands can be sent, and fails for want of
      room exactly when one cannot. */
  lemma WorkingDevice(lz4: bool, max: nat, image: seq<byte>, w: nat, h: nat, box: Box, status: Status,
                      transfers: seq<seq<byte>>)
    requires Reports(lz4, max, image, w, h, box, status, transfers, 0)
    ensures var part := Part(max, box.width);
            var some := exists i: nat :: i < BandCount(box.height, part)
                                         && Unsendable(lz4, max, image, w, h, box, part, i);
            status == if some then BufferTooSmall else Success
  {
    hide Unsendable, BandBytes, Image, BandCount;
  }

  /** The device is blamed only when one of its steps failed. */
  lemma BlamedDevice(lz4: bool, max: nat, image: seq<byte>, w: nat, h: nat, box: Box, status: Status,
                     transfers: seq<seq<byte>>, failed: int)
    requires Reports(lz4, max, image, w, h, box, status, transfers, failed)
    ensures status == DeviceError <==> failed > 0
  {
    hide Cut, Unsendable, BandBytes, Image, BandCount;
  }

  /** Where the bands sent so far end. */
  function Down(box: Box, part: nat, k: nat): nat {
    box.y + Min(k * part, box.height)
  }

  /** The part of a rectangle they make up. */
  function Above(box: Box, part: nat, k: int): Box {
    Box(box.x, box.y, box.width, Min(Max(k, 0) * part, box.height))
  }

  lemma CutStarts(lz4: bool, max: nat, image: seq<byte>, w: nat, h: nat, box: Box, part: nat, earlier: seq<seq<byte>>)
    requires |image| == ImageSize(w, h) && box.Fits(w, h) && 1 <= part
    ensures Cut(lz4, max, image, w, h, box, part, earlier[|earlier|..]) && Down(box, part, 0) == box.y
  {
    hide BandCount;
  }

  /** What is sent next is the next band. */
  lemma NextBand(lz4: bool, max: nat, image: seq<byte>, w: nat, h: nat, box: Box, part: nat, k: nat, y: nat, rows: nat)
    requires |image| == ImageSize(w, h) && box.Fits(w, h) && 1 <= part
    requires y == Down(box, part, k) < box.y + box.height
    requires rows == if part <= box.y + box.height - y then part else box.y + box.height - y
    ensures k < BandCount(box.height, part) && Box(box.x, y, box.width, rows).Fits(w, h)
    ensures BandBytes(image, w, h, box, part, k) == Packed(image, w, h, Box(box.x, y, box.width, rows))
    ensures Unsendable(lz4, max, image, w, h, box, part, k)
            <==> lz4 && TooLarge(Packed(image, w, h, Box(box.x, y, box.width, rows)), max)
    ensures Down(box, part, k + 1) == y + rows
  {
    hide BandCount, Packed, TooLarge, ImageSize;
    CountIs(box.height, part, k);
    BandInside(box, part, k, w, h);
  }

  /** `k` bands down, to the row `y`, of which all were received behind `before` transfers. */
  ghost predicate Reached(lz4: bool, max: nat, image: seq<byte>, w: nat, h: nat, box: Box, y: nat, k: nat, before: nat,
                          received: seq<seq<byte>>) {
    && |image| == ImageSize(w, h) && box.Fits(w, h) && 1 <= Part(max, box.width)
    && y == Down(box, Part(max, box.width), k) && |received| == before + k
    && Cut(lz4, max, image, w, h, box, Part(max, box.width), received[before..])
  }

  lemma ReachedFirst(lz4: bool, max: nat, image: seq<byte>, w: nat, h: nat, box: Box, earlier: seq<seq<byte>>)
    requires |image| == ImageSize(w, h) && box.Fits(w, h) && 1 <= Part(max, box.width)
    ensures Reached(lz4, max, image, w, h, box, box.y, 0, |earlier|, earlier)
  {
    hide Cut, Part;
    CutStarts(lz4, max, image, w, h, box, Part(max, box.width), earlier);
  }

  /** The band that is next, and what comes of it. */
  lemma ReachedMore(lz4: bool, max: nat, image: seq<byte>, w: nat, h: nat, box: Box, y: nat, rows: nat, k: nat,
                    before: nat, shorter: seq<seq<byte>>, received: seq<seq<byte>>, status: Status)
    requires Reached(lz4, max, image, w, h, box, y, k, before, shorter) && y < box.y + box.height
    requires rows == Min(Part(max, box.width), box.y + box.height - y)
    requires Box(box.x, y, box.width, rows).Fits(w, h)
    requires var bytes := Packed(image, w, h, Box(box.x, y, box.width, rows));
             && (status == BufferTooSmall <==> lz4 && TooLarge(bytes, max))
             && if status == Success then
                  && |received| == |shorter| + 1 && received[..|shorter|] == shorter
                  && Image(lz4, received[|shorter|]) == Some(bytes)
                else (status == BufferTooSmall || status == DeviceError) && received == shorter
    ensures status == Success ==> Reached(lz4, max, image, w, h, box, y + rows, k + 1, before, received)
    ensures status != Success ==>
      Reports(lz4, max, image, w, h, box, status, received[before..], if status == DeviceError then 1 else 0)
  {
    hide Cut, Part, BandBytes, Band, Unsendable, TooLarge, Image, BandCount, Packed, Reports;
    NextBand(lz4, max, image, w, h, box, Part(max, box.width), k, y, rows);
    if status == Success {
      CutMore(lz4, max, image, w, h, box, Part(max, box.width), before, shorter, received);
    } else {
      FailureReports(lz4, max, image, w, h, box, status, received[before..], k);
    }
  }

  lemma ReachedLast(lz4: bool, max: nat, image: seq<byte>, w: nat, h: nat, box: Box, k: nat, before: nat,
                    received: seq<seq<byte>>)
    requires Reached(lz4, max, image, w, h, box, box.y + box.height, k, before, received)
    ensures before <= |received| && Reports(lz4, max, image, w, h, box, Success, received[before..], 0)
  {
    hide Cut, Part, Reports;
    SuccessReports(lz4, max, image, w, h, box, received[before..], k);
  }

  lemma FailureReports(lz4: bool, max: nat, image: seq<byte>, w: nat, h: nat, box: Box, status: Status,
                       transfers: seq<seq<byte>>, k: nat)
    requires |image| == ImageSize(w, h) && box.Fits(w, h) && 1 <= Part(max, box.width)
    requires Cut(lz4, max, image, w, h, box, Part(max, box.width), transfers)
    requires |transfers| == k < BandCount(box.height, Part(max, box.width))
    requires status == BufferTooSmall || status == DeviceError
    requires status == BufferTooSmall <==> Unsendable(lz4, max, image, w, h, box, Part(max, box.width), k)
    ensures Reports(lz4, max, image, w, h, box, status, transfers, if status == DeviceError then 1 else 0)
  {
    hide Cut, Unsendable, BandCount;
  }

  lemma SuccessReports(lz4: bool, max: nat, image: seq<byte>, w: nat, h: nat, box: Box, transfers: seq<seq<byte>>,
                       k: nat)
    requires |image| == ImageSize(w, h) && box.Fits(w, h) && 1 <= Part(max, box.width)
    requires Cut(lz4, max, image, w, h, box, Part(max, box.width), transfers) && |transfers| == k
    requires Down(box, Part(max, box.width), k) == box.y + box.height
    ensures Reports(lz4, max, image, w, h, box, Success, transfers, 0)
  {
    hide Unsendable, BandBytes, Image, BandCount;
    CountIs(box.height, Part(max, box.width), k);
  }

  lemma RowsFit(width: nat, w: nat, max: nat)
    requires 1 <= width <= w && BPP * w <= max
    ensures width * BPP > 0 && max / (width * BPP) >= 1
  {
  }

  /** Data that LZ4 refuses, or whose block does not fit. */
  ghost predicate TooLarge(data: seq<byte>, capacity: int) {
    || |data| > GreedyPlan.MAX_INPUT_SIZE
    || |BlockFormat.Encode(Codec.BlockOf(data, 1))| > capacity
  }

  /** Data in which no four bytes in a row occur twice is too large for a buffer of its own size: a band of such
      pixels that fills the transfer buffer is lost at every flush, though every transfer works. */
  lemma FullBandTooLarge(data: seq<byte>)
    requires Incompressible.NoRepeats(data)
    ensures TooLarge(data, |data|)
  {
    if |data| <= GreedyPlan.MAX_INPUT_SIZE {
      Incompressible.NothingGained(data, |data|);
    }
  }

  /** There is such data of every size up to 195075. */
  lemma SomeBandTooLarge(size: nat)
    requires size <= 3 * 255 * 255
    ensures TooLarge(Incompressible.Numbered(size), size)
  {
    Incompressible.NumberedHasNoRepeats(size);
    FullBandTooLarge(Incompressible.Numbered(size));
  }

  /** Inside the rectangle all pixels have one colour. */
  ghost predicate OneColour(image: seq<byte>, w: nat, box: Box, pixel: seq<byte>) {
    && 1 <= w && |pixel| == BPP
    && forall i: nat :: i < |image| && Inside(w, box, i) ==> image[i] == pixel[i % BPP]
  }

  /** Its bytes are that pixel over and over. */
  lemma ColourPacked(image: seq<byte>, w: nat, h: nat, box: Box, pixel: seq<byte>)
    requires |image| == ImageSize(w, h) && box.Fits(w, h) && OneColour(image, w, box, pixel)
    ensures Packed(image, w, h, box) == Periods.Pixels(pixel, box.width * box.height)
  {
    forall k: nat | k < ImageSize(box.width, box.height)
      ensures Packed(image, w, h, box)[k] == pixel[k % BPP]
    {
      ColourByte(image, w, h, box, pixel, k);
    }
  }

  lemma ColourByte(image: seq<byte>, w: nat, h: nat, box: Box, pixel: seq<byte>, k: nat)
    requires |image| == ImageSize(w, h) && box.Fits(w, h) && OneColour(image, w, box, pixel)
    requires k < ImageSize(box.width, box.height)
    ensures Packed(image, w, h, box)[k] == pixel[k % BPP]
  {
    SourceInside(w, h, box, k);
    PixelOfOffset(w, box.x + PixelX(box.width, k), box.y + PixelY(box.width, k), k % BPP);
    OffsetRemainder(w, box.x + PixelX(box.width, k), box.y + PixelY(box.width, k), k % BPP);
    hide Offset, ImageSize, PixelX, PixelY;
  }

  lemma OffsetRemainder(w: nat, x: nat, y: nat, c: nat)
    requires c < BPP
    ensures (Offset(w, x, y) + c) % BPP == c
  {
    var p := w * y + x;
    assert Offset(w, x, y) == BPP * p;
  }

  /** A band of one colour can be sent exactly when the buffer has the few bytes it takes, however large the
      band is, where the four rotations of the pixel fall into different slots... */
  lemma ColourFits(image: seq<byte>, w: nat, h: nat, box: Box, pixel: seq<byte>, max: int)
    requires |image| == ImageSize(w, h) && box.Fits(w, h) && OneColour(image, w, box, pixel)
    requires var n := box.width * box.height;
             && 4 <= n && BPP * n <= GreedyPlan.MAX_INPUT_SIZE
             && Periods.SlotsDiffer(Codec.FreshJob(Periods.Pixels(pixel, n), 1, GreedyPlan.NotLimited, 0))
    ensures TooLarge(Packed(image, w, h, box), max)
            <==> 13 + BlockFormat.LengthSize(BPP * (box.width * box.height) - 13) > max
  {
    hide Packed, Periods.SlotsDiffer, Periods.Pixels, Codec.BlockOf, BlockFormat.LengthSize;
    ColourPacked(image, w, h, box, pixel);
    Periods.BlockOfColour(pixel, box.width * box.height);
  }

  /** ... and for a grey, with four equal bytes, in any case. */
  lemma GreyFits(image: seq<byte>, w: nat, h: nat, box: Box, a: byte, max: int)
    requires |image| == ImageSize(w, h) && box.Fits(w, h) && OneColour(image, w, box, [a, a, a, a])
    requires 4 <= box.width * box.height && BPP * (box.width * box.height) <= GreedyPlan.MAX_INPUT_SIZE
    ensures TooLarge(Packed(image, w, h, box), max)
            <==> 10 + BlockFormat.LengthSize(BPP * (box.width * box.height) - 10) > max
  {
    var n := BPP * (box.width * box.height);
    assert Periods.Pixels([a, a, a, a], box.width * box.height) == seq(n, _ => a);
    hide Packed, OneColour, Periods.Pixels, Codec.BlockOf, BlockFormat.LengthSize;
    ColourPacked(image, w, h, box, [a, a, a, a]);
    Periods.BlockOfEqual(a, n);
  }

  /** Lz4Compress, the wrapper around LZ4_compress_default. */
  method Lz4Compress(dataIn: seq<byte>, dataOut: array<byte>, capacity: nat) returns (status: Status, size: nat)
    requires capacity <= dataOut.Length
    modifies dataOut
    ensures status == if TooLarge(dataIn, capacity) then BufferTooSmall else Success
    ensures status == Success ==>
      && size <= capacity && dataOut[..size] == BlockFormat.Encode(Codec.BlockOf(dataIn, 1))
      && BlockFormat.Decode(dataOut[..size], 0, []) == Some(dataIn)
    ensures |dataIn| <= GreedyPlan.MAX_INPUT_SIZE && PlanLimits.CompressBound(|dataIn|) <= capacity ==>
      status == Success
  {
    hide BlockFormat.Encode, Codec.BlockOf, Codec.Means;
    size := Codec.CompressDefault(dataIn, dataOut, capacity);
    if size == 0 {
      return BufferTooSmall, 0;
    }
    Codec.MeansIsDecode(dataOut[..size], dataIn);
    status := Success;
  }

  lemma RowPacked(image: seq<byte>, w: nat, h: nat, row: Box, bytes: seq<byte>, base: nat)
    requires |image| == ImageSize(w, h) && row.Fits(w, h) && row.height == 1 && base == Offset(w, row.x, row.y)
    requires |bytes| == BPP * row.width && base + |bytes| <= |image| && bytes == image[base..base + |bytes|]
    ensures bytes == Packed(image, w, h, row)
  {
    forall b | 0 <= b < |bytes|
      ensures b < |Packed(image, w, h, row)| && bytes[b] == Packed(image, w, h, row)[b]
    {
      PackedRow(image, w, h, row, b);
    }
  }

  /** Where the bytes of one more row go: behind the rows before it, and inside the buffer. */
  lemma RowRoom(box: Box, index: nat, w: nat, h: nat, lineSize: nat, max: nat)
    requires box.Fits(w, h) && index < box.height && lineSize == box.width * BPP
    requires ImageSize(box.width, box.height) <= max && lineSize * index == ImageSize(box.width, index)
    ensures lineSize * (index + 1) == ImageSize(box.width, index + 1) == lineSize * index + lineSize <= max
    ensures Offset(w, box.x, box.y + index) + lineSize <= ImageSize(w, h)
  {
    MulStep(lineSize, index);
    MulGrows(box.width, index + 1, box.height);
    MulStep(box.width, index);
    RowInside(w, h, box.x, box.y + index, box.width);
  }

  /** Packing one row more. */
  lemma RowJoins(image: seq<byte>, w: nat, h: nat, box: Box, index: nat, front: seq<byte>, bytes: seq<byte>, base: nat)
    requires |image| == ImageSize(w, h) && box.Fits(w, h) && index < box.height
    requires base == Offset(w, box.x, box.y + index)
    requires |bytes| == BPP * box.width && base + |bytes| <= |image| && bytes == image[base..base + |bytes|]
    requires if index == 0 then front == [] else front == Packed(image, w, h, Box(box.x, box.y, box.width, index))
    ensures front + bytes == Packed(image, w, h, Box(box.x, box.y, box.width, index + 1))
  {
    RowPacked(image, w, h, Box(box.x, box.y + index, box.width, 1), bytes, base);
    hide Packed, Offset, ImageSize;
    if index > 0 {
      PackedBands(image, w, h, Box(box.x, box.y, box.width, index + 1), index);
    } else {
      assert front + bytes == bytes;
    }
  }

  class Driver {
    const maxBufferSize: nat
    const lz4: bool
    const fullUpdate: bool
    const modes: seq<Mode>
    const panel: Panel
    const transferBuffer: array<byte>
    const transferBufferCompressed: array<byte>
    var modeIndex: nat
    var frameBuffer: array<byte>
    var dirty: bool
    var damage: Box
    /** The rectangles queued since the last tick; the pixels painted since the mode was set; and those
        among them that a failed flush did not send, and nothing did since. */
    ghost var queued: seq<Box>
    ghost var drawn: iset<(nat, nat)>
    ghost var lost: iset<(nat, nat)>

    /** What the device's descriptors promise: modes are not empty, and a row fits the buffer. */
    ghost predicate Described() {
      && modes != [] && maxBufferSize <= INT_MAX
      && (forall m :: m in modes ==> Whole(m).NonEmpty() && BPP * m.hDisplay <= maxBufferSize)
      && transferBuffer.Length == maxBufferSize == transferBufferCompressed.Length
      && transferBuffer != transferBufferCompressed
    }

    ghost predicate Valid()
      reads this, panel
    {
      && Described() && modeIndex < |modes|
      && frameBuffer != transferBuffer && frameBuffer != transferBufferCompressed
      && frameBuffer.Length == ImageSize(modes[modeIndex].hDisplay, modes[modeIndex].vDisplay)
      && panel.Valid() && panel.width == modes[modeIndex].hDisplay && panel.height == modes[modeIndex].vDisplay
      && DamageKept(dirty, damage, queued, modes[modeIndex])
    }

    /** The pixels waiting for the next tick. */
    ghost function Pending(): iset<(nat, nat)>
      reads this
    {
      if dirty then Points(damage) else iset{}
    }

    /** Host and device agree wherever something was painted and is neither pending nor lost. */
    ghost predicate Agrees()
      reads this, panel, frameBuffer
    {
      && Valid()
      && Agree(drawn, Pending() + lost, frameBuffer[..], panel.screen,
               modes[modeIndex].hDisplay, modes[modeIndex].vDisplay)
    }

    /** The state GudInit and the first GopSetMode leave. */
    constructor (maxBufferSize: nat, lz4: bool, fullUpdate: bool, modes: seq<Mode>)
      requires modes != [] && maxBufferSize <= INT_MAX
      requires forall m :: m in modes ==> Whole(m).NonEmpty() && BPP * m.hDisplay <= maxBufferSize
      ensures Agrees() && drawn == lost == iset{} && !dirty
      ensures this.maxBufferSize == maxBufferSize && this.fullUpdate == fullUpdate && this.lz4 == lz4
      ensures this.modes == modes && modeIndex == 0
      ensures forall i :: 0 <= i < frameBuffer.Length ==> frameBuffer[i] == 0
      ensures fresh(panel) && fresh(frameBuffer) && fresh(transferBuffer) && fresh(transferBufferCompressed)
    {
      this.maxBufferSize, this.lz4, this.fullUpdate, this.modes := maxBufferSize, lz4, fullUpdate, modes;
      panel := new Panel(modes[0].hDisplay, modes[0].vDisplay);
      transferBuffer, transferBufferCompressed := new byte[maxBufferSize], new byte[maxBufferSize];
      frameBuffer := new byte[ImageSize(modes[0].hDisplay, modes[0].vDisplay)](_ => 0);
      modeIndex, dirty, damage, queued, drawn, lost := 0, false, Box(0, 0, 0, 0), [], iset{}, iset{};
    }

    /** GudQueueFlush. */
    method QueueFlush(box: Box)
      requires Valid() && box.Fits(modes[modeIndex].hDisplay, modes[modeIndex].vDisplay)
      modifies `dirty, `damage, `queued
      ensures Valid() && dirty && queued == old(queued) + [box] && damage == Damage(queued)
      ensures old(Pending()) <= Pending() && Points(box) <= Pending()
    {
      queued := queued + [box];
      assert queued[..|queued| - 1] == old(queued);
      if dirty {
        var oldRight, oldBottom := damage.x + damage.width, damage.y + damage.height;
        var x := if damage.x <= box.x then damage.x else box.x;
        var y := if damage.y <= box.y then damage.y else box.y;
        var newRight := if oldRight <= box.x + box.width then box.x + box.width else oldRight;
        var newBottom := if oldBottom <= box.y + box.height then box.y + box.height else oldBottom;
        damage := Box(x, y, newRight - x, newBottom - y);
      } else {
        dirty := true;
        damage := box;
      }
    }

    /** Copies the rows of a rectangle into the transfer buffer, one behind the other. */
    method Pack(box: Box)
      requires Valid() && box.Fits(modes[modeIndex].hDisplay, modes[modeIndex].vDisplay)
      requires ImageSize(box.width, box.height) <= maxBufferSize
      modifies transferBuffer
      ensures transferBuffer[..ImageSize(box.width, box.height)]
              == Packed(frameBuffer[..], modes[modeIndex].hDisplay, modes[modeIndex].vDisplay, box)
    {
      var w, h := modes[modeIndex].hDisplay, modes[modeIndex].vDisplay;
      ghost var image := frameBuffer[..];
      var lineSize := box.width * BPP;
      var index := 0;
      while index < box.height
        invariant index <= box.height && frameBuffer[..] == image
        invariant ImageSize(box.width, index) <= maxBufferSize && lineSize * index == ImageSize(box.width, index)
        invariant index > 0 ==>
          transferBuffer[..ImageSize(box.width, index)] == Packed(image, w, h, Box(box.x, box.y, box.width, index))
      {
        index := PackRow(box, index, w, h, lineSize, image);
      }
    }

    method PackRow(box: Box, index: nat, w: nat, h: nat, lineSize: nat, ghost image: seq<byte>) returns (next: nat)
      requires Valid() && w == modes[modeIndex].hDisplay && h == modes[modeIndex].vDisplay && box.Fits(w, h)
      requires index < box.height && image == frameBuffer[..] && lineSize == box.width * BPP
      requires ImageSize(box.width, index) <= maxBufferSize
      requires ImageSize(box.width, box.height) <= maxBufferSize && lineSize * index == ImageSize(box.width, index)
      requires index > 0 ==>
        transferBuffer[..ImageSize(box.width, index)] == Packed(image, w, h, Box(box.x, box.y, box.width, index))
      modifies transferBuffer
      ensures next == index + 1 && lineSize * next == ImageSize(box.width, next) <= maxBufferSize
      ensures transferBuffer[..ImageSize(box.width, next)] == Packed(image, w, h, Box(box.x, box.y, box.width, next))
    {
      var at := lineSize * index;
      RowRoom(box, index, w, h, lineSize, maxBufferSize);
      hide Offset, Packed, ImageSize, DamageKept;
      ghost var front := transferBuffer[..at];
      var base := Offset(w, box.x, box.y + index);
      WildCopy.CopyIn(transferBuffer, at, frameBuffer[..], base, lineSize);
      next := index + 1;
      ghost var bytes := transferBuffer[at..at + lineSize];
      assert bytes == image[base..base + lineSize];
      assert transferBuffer[..at + lineSize] == front + bytes;
      RowJoins(image, w, h, box, index, front, bytes, base);
    }

    /** Announces a band, unless the device takes whole screens only, and sends it. */
    method Send(box: Box, bytes: seq<byte>, ghost image: seq<byte>) returns (status: Status)
      requires Valid() && box.Fits(modes[modeIndex].hDisplay, modes[modeIndex].vDisplay)
      requires Image(lz4, bytes) == Some(image) && |image| == ImageSize(box.width, box.height)
      modifies panel`request, panel`screen, panel`received, panel`failures
      ensures Valid() && (status == Success || status == DeviceError)
      ensures status != Success ==> panel.screen == old(panel.screen) && panel.received == old(panel.received)
      ensures status == Success ==> panel.received == old(panel.received) + [bytes]
      ensures panel.failures == old(panel.failures) + (if status == DeviceError then 1 else 0)
      ensures fullUpdate ==> panel.request == old(panel.request)
      ensures status == Success && !fullUpdate ==>
        panel.screen == Stored(old(panel.screen), modes[modeIndex].hDisplay, modes[modeIndex].vDisplay, box, image)
    {
      hide Stored, DamageKept, BlockFormat.Decode;
      if !fullUpdate {
        var ok := panel.SetBuffer(Request(box, ImageSize(box.width, box.height), lz4, if lz4 then |bytes| else 0));
        if !ok {
          return DeviceError;
        }
      }
      var ok := panel.BulkTransfer(bytes);
      status := if ok then Success else DeviceError;
    }

    /** The bytes of a band as they are sent: packed, and compressed if the device wants that. */
    method Prepare(box: Box) returns (status: Status, bytes: seq<byte>)
      requires Valid() && box.Fits(modes[modeIndex].hDisplay, modes[modeIndex].vDisplay)
      requires ImageSize(box.width, box.height) <= maxBufferSize
      modifies transferBuffer, transferBufferCompressed
      ensures Valid()
      ensures var image := Packed(frameBuffer[..], modes[modeIndex].hDisplay, modes[modeIndex].vDisplay, box);
              && status == (if lz4 && TooLarge(image, maxBufferSize) then BufferTooSmall else Success)
              && (status == Success ==> Image(lz4, bytes) == Some(image))
    {
      ghost var image := frameBuffer[..];
      var rawBufferSize := ImageSize(box.width, box.height);
      hide DamageKept, Packed, Damage, TooLarge, ImageSize;
      Pack(box);
      bytes := transferBuffer[..rawBufferSize];
      assert frameBuffer[..] == image;
      status := Success;
      if lz4 {
        var size;
        status, size := Lz4Compress(bytes, transferBufferCompressed, maxBufferSize);
        assert frameBuffer[..] == image;
        if status == Success {
          bytes := transferBufferCompressed[..size];
        }
      }
    }

    /** GudFlushPart: packs a band, compresses it if the device wants that, announces it and sends it. */
    method FlushPart(box: Box) returns (status: Status)
      requires Valid() && box.Fits(modes[modeIndex].hDisplay, modes[modeIndex].vDisplay)
      requires ImageSize(box.width, box.height) <= maxBufferSize
      modifies transferBuffer, transferBufferCompressed, panel`request, panel`screen, panel`received, panel`failures
      ensures Valid()
      ensures status == Success && !fullUpdate ==>
        Updated(old(panel.screen), frameBuffer[..], panel.screen, modes[modeIndex].hDisplay, box)
      ensures status != Success ==> panel.screen == old(panel.screen) && panel.received == old(panel.received)
      ensures status == Success ==>
        && |panel.received| == |old(panel.received)| + 1
        && panel.received[..|old(panel.received)|] == old(panel.received)
        && Image(lz4, panel.received[|old(panel.received)|])
           == Some(Packed(frameBuffer[..], modes[modeIndex].hDisplay, modes[modeIndex].vDisplay, box))
      ensures status == BufferTooSmall <==>
        && lz4
        && TooLarge(Packed(frameBuffer[..], modes[modeIndex].hDisplay, modes[modeIndex].vDisplay, box), maxBufferSize)
      ensures status == Success || status == BufferTooSmall || status == DeviceError
      ensures panel.failures == old(panel.failures) + (if status == DeviceError then 1 else 0)
      ensures fullUpdate ==> panel.request == old(panel.request)
    {
      var w, h := modes[modeIndex].hDisplay, modes[modeIndex].vDisplay;
      ghost var image := frameBuffer[..];
      hide Packed, Stored, Updated, Damage, DamageKept, TooLarge, Image;
      var bytes;
      status, bytes := Prepare(box);
      assert frameBuffer[..] == image;
      if status == Success {
        status := Send(box, bytes, Packed(image, w, h, box));
        StoredIsUpdated(old(panel.screen), image, w, h, box);
      }
    }

    /** What a flush of `box` covers: everything, for a device that wants that. */
    function Covered(box: Box): Box
      requires modeIndex < |modes|
      reads this
    {
      if fullUpdate then Whole(modes[modeIndex]) else box
    }

    /** What a flush that began with `screen` on the device and `earlier` received has done above the row `y`. */
    ghost predicate Flushed(box: Box, y: nat, screen: seq<byte>, image: seq<byte>, earlier: seq<seq<byte>>,
                            sent: seq<byte>)
      requires modeIndex < |modes|
      reads this, panel
    {
      var w, h := modes[modeIndex].hDisplay, modes[modeIndex].vDisplay;
      && (!fullUpdate ==> Banded(box, y, screen, image, panel.screen, w, h))
      && Sent(box, y, image, sent, w, h)
      && |earlier| <= |panel.received| && panel.received[..|earlier|] == earlier
      && Images(lz4, panel.received[|earlier|..]) == Some(sent)
    }

    /** One band more. */
    method FlushBand(box: Box, y: nat, rows: nat, ghost screen: seq<byte>, ghost image: seq<byte>,
                     ghost earlier: seq<seq<byte>>, ghost sent0: seq<byte>)
      returns (status: Status, ghost sent: seq<byte>)
      requires Valid() && box.Fits(modes[modeIndex].hDisplay, modes[modeIndex].vDisplay) && frameBuffer[..] == image
      requires box.y <= y && 1 <= rows && y + rows <= box.y + box.height
      requires ImageSize(box.width, rows) <= maxBufferSize && Flushed(box, y, screen, image, earlier, sent0)
      modifies transferBuffer, transferBufferCompressed, panel`request, panel`screen, panel`received, panel`failures
      ensures Valid() && frameBuffer[..] == image
      ensures Flushed(box, if status == Success then y + rows else y, screen, image, earlier, sent)
      ensures status == Success || status == BufferTooSmall || status == DeviceError
      ensures panel.failures == old(panel.failures) + (if status == DeviceError then 1 else 0)
      ensures fullUpdate ==> panel.request == old(panel.request)
      ensures var bytes := Packed(image, modes[modeIndex].hDisplay, modes[modeIndex].vDisplay,
                                  Box(box.x, y, box.width, rows));
              && (status == BufferTooSmall <==> lz4 && TooLarge(bytes, maxBufferSize))
              && if status == Success then
                   && |panel.received| == |old(panel.received)| + 1
                   && panel.received[..|old(panel.received)|] == old(panel.received)
                   && Image(lz4, panel.received[|old(panel.received)|]) == Some(bytes)
                 else panel.received == old(panel.received)
    {
      var w, h := modes[modeIndex].hDisplay, modes[modeIndex].vDisplay;
      hide Banded, Sent, Updated, Packed, DamageKept, Offset, ImageSize, Damage, TooLarge, Image;
      ghost var shown, received := panel.screen, panel.received;
      status := FlushPart(Box(box.x, y, box.width, rows));
      sent := sent0;
      if status == Success {
        if !fullUpdate {
          OneBandMore(box, y, rows, screen, image, shown, panel.screen, w, h);
        }
        ghost var part := Packed(image, w, h, Box(box.x, y, box.width, rows));
        SentMore(box, y, rows, image, sent0, w, h);
        ImagesMore(lz4, |earlier|, received, panel.received, sent0, part);
        sent := sent0 + part;
      }
    }

    /** GudFlush: bands of as many rows as the buffer takes, from top to bottom. */
    method Flush(box0: Box) returns (status: Status, ghost sent: seq<byte>)
      requires Valid() && box0.Fits(modes[modeIndex].hDisplay, modes[modeIndex].vDisplay)
      modifies transferBuffer, transferBufferCompressed, panel`request, panel`screen, panel`received, panel`failures
      ensures Valid()
      ensures !fullUpdate ==> Updated(old(panel.screen), panel.screen, panel.screen, modes[modeIndex].hDisplay, box0)
      ensures status == Success && !fullUpdate ==>
        Updated(old(panel.screen), frameBuffer[..], panel.screen, modes[modeIndex].hDisplay, box0)
      ensures !fullUpdate ==>
        Updated(old(panel.screen), frameBuffer[..], panel.screen, modes[modeIndex].hDisplay,
                Above(box0, Part(maxBufferSize, box0.width), |panel.received| - |old(panel.received)|))
      ensures |old(panel.received)| <= |panel.received|
      ensures panel.received[..|old(panel.received)|] == old(panel.received)
      ensures Images(lz4, panel.received[|old(panel.received)|..]) == Some(sent)
      ensures Covered(box0).Fits(modes[modeIndex].hDisplay, modes[modeIndex].vDisplay)
      ensures status == Success ==>
        sent == Packed(frameBuffer[..], modes[modeIndex].hDisplay, modes[modeIndex].vDisplay, Covered(box0))
      ensures Reports(lz4, maxBufferSize, frameBuffer[..], modes[modeIndex].hDisplay, modes[modeIndex].vDisplay,
                      Covered(box0), status, panel.received[|old(panel.received)|..],
                      panel.failures - old(panel.failures))
      ensures fullUpdate ==> panel.request == old(panel.request)
    {
      hide Flushed, Updated, Packed, DamageKept, Offset, ImageSize, Damage, Cut, Band, BandBytes, Unsendable, TooLarge,
          Reports, BandCount;
      var w, h := modes[modeIndex].hDisplay, modes[modeIndex].vDisplay;
      ghost var image, screen, earlier := frameBuffer[..], panel.screen, panel.received;
      ghost var failures := panel.failures;
      assert modes[modeIndex] in modes;
      var box := if fullUpdate then Box(0, 0, w, h) else box0;
      assert box == Covered(box0);
      RowsFit(box.width, w, maxBufferSize);
      FlushStarts(box);
      var partHeight := maxBufferSize / (box.width * BPP);
      var currentY := box.y;
      status, sent := Success, [];
      ghost var k := 0;
      ReachedFirst(lz4, maxBufferSize, image, w, h, box, earlier);
      while currentY < box.y + box.height
        invariant box.y <= currentY <= box.y + box.height && Valid() && frameBuffer[..] == image
        invariant Flushed(box, currentY, screen, image, earlier, sent) && panel.failures == failures
        invariant Reached(lz4, maxBufferSize, image, w, h, box, currentY, k, |earlier|, panel.received)
        invariant status == Success
        invariant fullUpdate ==> panel.request == old(panel.request)
      {
        var rows := if partHeight <= box.y + box.height - currentY then partHeight else box.y + box.height - currentY;
        PartFits(maxBufferSize, box.width, rows);
        ghost var received := panel.received;
        status, sent := FlushBand(box, currentY, rows, screen, image, earlier, sent);
        ReachedMore(lz4, maxBufferSize, image, w, h, box, currentY, rows, k, |earlier|, received, panel.received,
                    status);
        if status != Success {
          FlushStops(box, currentY, screen, image, earlier, sent);
          return;
        }
        currentY, k := currentY + rows, k + 1;
      }
      FlushStops(box, currentY, screen, image, earlier, sent);
      ReachedLast(lz4, maxBufferSize, image, w, h, box, k, |earlier|, panel.received);
    }

    lemma FlushStarts(box: Box)
      requires Valid() && box.Fits(modes[modeIndex].hDisplay, modes[modeIndex].vDisplay)
      ensures Flushed(box, box.y, panel.screen, frameBuffer[..], panel.received, [])
    {
      hide Updated, Packed, DamageKept, ImageSize;
      NoBand(box, panel.screen, frameBuffer[..], modes[modeIndex].hDisplay, modes[modeIndex].vDisplay);
    }

    /** What it means to have flushed down to `y`: to have stayed inside the rectangle, and at its end, all of it. */
    lemma FlushStops(box: Box, y: nat, screen: seq<byte>, image: seq<byte>, earlier: seq<seq<byte>>, sent: seq<byte>)
      requires modeIndex < |modes| && Flushed(box, y, screen, image, earlier, sent)
      ensures var w, h := modes[modeIndex].hDisplay, modes[modeIndex].vDisplay;
              && |image| == ImageSize(w, h) && box.Fits(w, h)
              && (!fullUpdate ==> Updated(screen, panel.screen, panel.screen, w, box))
              && box.y <= y
              && (!fullUpdate ==> Updated(screen, image, panel.screen, w, Box(box.x, box.y, box.width, y - box.y)))
              && |earlier| <= |panel.received| && panel.received[..|earlier|] == earlier
              && Images(lz4, panel.received[|earlier|..]) == Some(sent)
              && (y == box.y + box.height ==>
                    && sent == Packed(image, w, h, box)
                    && (!fullUpdate ==> Updated(screen, image, panel.screen, w, box)))
    {
      hide Updated, Packed, Images, ImageSize;
      var w, h := modes[modeIndex].hDisplay, modes[modeIndex].vDisplay;
      if !fullUpdate {
        BandsStayInside(box, y, screen, image, panel.screen, w, h);
        if y == box.y + box.height {
          AllBands(box, screen, image, panel.screen, w, h);
        }
      }
      if y == box.y + box.height {
        AllSent(box, image, sent, w, h);
      }
    }

    /** GudFlushTimerCallback. A flush that fails is not tried again: its rectangle is lost until it is
        painted or sent with another. */
    method FlushTimerCallback() returns (status: Status)
      requires Valid()
      modifies `dirty, `queued, `lost, transferBuffer, transferBufferCompressed
      modifies panel`request, panel`screen, panel`received, panel`failures
      ensures Valid() && !dirty
      ensures lost == if !old(dirty) then old(lost)
                      else if status == Success then old(lost) - Points(damage) else old(lost) + Points(damage)
      ensures old(Agrees()) && !fullUpdate ==> Agrees()
      ensures |old(panel.received)| <= |panel.received|
      ensures panel.received[..|old(panel.received)|] == old(panel.received)
      ensures if old(dirty) then
                Reports(lz4, maxBufferSize, frameBuffer[..], modes[modeIndex].hDisplay, modes[modeIndex].vDisplay,
                        Covered(damage), status, panel.received[|old(panel.received)|..],
                        panel.failures - old(panel.failures))
              else
                status == Success && unchanged(panel)
      ensures fullUpdate ==> panel.request == old(panel.request)
    {
      hide Reports;
      status := Success;
      if dirty {
        var w, h := modes[modeIndex].hDisplay, modes[modeIndex].vDisplay;
        DamageFits(queued, w, h);
        dirty := false;
        queued := [];
        ghost var screen := panel.screen;
        ghost var sent;
        status, sent := Flush(damage);
        if old(Agrees()) && !fullUpdate {
          if status == Success {
            FlushAgrees(drawn, lost, frameBuffer[..], screen, panel.screen, w, h, damage);
          } else {
            FailedAgrees(drawn, lost, frameBuffer[..], screen, panel.screen, w, h, damage);
          }
        }
        lost := if status == Success then lost - Points(damage) else lost + Points(damage);
        assert Pending() + lost == lost;
      }
    }

    /** GopBlt. `blits` is whether FrameBufferBlt succeeds, which it does not on a rectangle of the screen that
        it should paint and that does not fit; `paint` is what it paints there. For reading back, `box` is a
        rectangle of the caller's buffer. */
    method Blt(operation: Operation, box: Box, blits: bool, paint: nat -> byte) returns (ok: bool)
      requires Valid()
      modifies frameBuffer, `dirty, `damage, `queued, `drawn, `lost
      ensures Valid()
      ensures old(Agrees()) ==> Agrees()
      ensures ok <==> blits && (operation == VideoToBltBuffer
                                || box.Fits(modes[modeIndex].hDisplay, modes[modeIndex].vDisplay))
      ensures if ok && operation != VideoToBltBuffer then
                && dirty && queued == old(queued) + [box] && damage == Damage(queued)
                && drawn == old(drawn) + Points(box) && lost == old(lost) - Points(box)
                && Updated(old(frameBuffer[..]), Canvas(frameBuffer.Length, paint), frameBuffer[..],
                           modes[modeIndex].hDisplay, box)
              else
                unchanged(this) && unchanged(frameBuffer)
    {
      var w, h := modes[modeIndex].hDisplay, modes[modeIndex].vDisplay;
      ok := blits && (operation == VideoToBltBuffer || box.Fits(w, h));
      if ok && operation != VideoToBltBuffer {
        ghost var before, excused := frameBuffer[..], Pending() + lost;
        forall i | 0 <= i < frameBuffer.Length && Inside(w, box, i) {
          frameBuffer[i] := paint(i);
        }
        assert Updated(before, Canvas(frameBuffer.Length, paint), frameBuffer[..], w, box);
        drawn, lost := drawn + Points(box), lost - Points(box);
        QueueFlush(box);
        if old(Agrees()) {
          PaintAgrees(old(drawn), excused, Pending() + lost, before, Canvas(frameBuffer.Length, paint),
                      frameBuffer[..], panel.screen, w, h, box);
        }
      }
    }

    /** GopSetMode; `accepted` is whether the device takes the mode, `configured` whether
        FrameBufferBltConfigure succeeds then. If both, there is a new frame buffer, black, and nothing queued,
        whatever was before. If the device refuses, the mode index has changed all the same, and nothing else:
        the driver is left as it should be exactly when the mode refused has the dimensions of the one before.
        If the configuration fails the frame buffer is freed, which leaves nothing to flush from. */
    method SetMode(modeNumber: nat, accepted: bool, configured: bool) returns (status: Status)
      requires Described()
      modifies this`modeIndex, this`frameBuffer, `dirty, `queued, `drawn, `lost
      modifies panel`width, panel`height, panel`screen, panel`request
      ensures Described()
      ensures if modeNumber >= |modes| then
                status == InvalidParameter && unchanged(this) && unchanged(panel)
              else if !accepted then
                && status == DeviceError && modeIndex == modeNumber && unchanged(panel)
                && frameBuffer == old(frameBuffer) && dirty == old(dirty) && queued == old(queued)
                && drawn == old(drawn) && lost == old(lost)
              else if configured then
                && status == Success && modeIndex == modeNumber && fresh(frameBuffer)
                && drawn == lost == iset{} && !dirty && Agrees()
                && (forall i :: 0 <= i < frameBuffer.Length ==> frameBuffer[i] == 0)
              else
                && status == Unsupported && modeIndex == modeNumber && !dirty && !Valid()
                && drawn == lost == iset{} && queued == []
                && fresh(frameBuffer) && frameBuffer.Length == 0
      ensures modeNumber < |modes| && !accepted && old(Valid()) ==>
        && (Valid() <==> modes[modeNumber] == modes[old(modeIndex)])
        && (old(Agrees()) && Valid() ==> Agrees())
    {
      if modeNumber >= |modes| {
        return InvalidParameter;
      }
      modeIndex := modeNumber;
      var w, h := modes[modeIndex].hDisplay, modes[modeIndex].vDisplay;
      if !accepted {
        return DeviceError;
      }
      panel.SetMode(w, h);
      dirty, queued, drawn, lost := false, [], iset{}, iset{};
      if !configured {
        frameBuffer := new byte[0];
        WholeIsNotEmpty(w, h);
        assert modes[modeIndex] in modes;
        return Unsupported;
      }
      frameBuffer := new byte[ImageSize(w, h)](_ => 0);
      status := Success;
    }
  }

  lemma WholeIsNotEmpty(w: nat, h: nat)
    ensures Box(0, 0, w, h).NonEmpty() ==> ImageSize(w, h) > 0
  {
  }

  // ----- Runs -----

  datatype Event =
    | Tick
    | Paint(operation: Operation, box: Box, blits: bool, paint: nat -> byte)
    | NewMode(modeNumber: nat, accepted: bool, configured: bool)

  /** A mode change that breaks what belongs together: one the device refuses, to a mode of other dimensions
      than the one before; or one it accepts, where the blit configuration fails. */
  predicate Breaks(event: Event, modes: seq<Mode>, before: nat) {
    && event.NewMode? && event.modeNumber < |modes| && before < |modes|
    && if event.accepted then !event.configured else modes[event.modeNumber] != modes[before]
  }

  /** What a run is about: the mode, the rectangles queued since the last tick, the pixels painted since the
      mode was set. */
  datatype Course = Course(mode: nat, queued: seq<Box>, drawn: iset<(nat, nat)>)

  ghost function Next(c: Course, event: Event, modes: seq<Mode>): Course
    requires c.mode < |modes|
    ensures Next(c, event, modes).mode < |modes|
  {
    match event
    case Tick => c.(queued := [])
    case Paint(operation, box, blits, _) =>
      if blits && operation != VideoToBltBuffer && box.Fits(modes[c.mode].hDisplay, modes[c.mode].vDisplay) then
        c.(queued := c.queued + [box], drawn := c.drawn + Points(box))
      else c
    case NewMode(n, accepted, _) =>
      if n >= |modes| then c else if accepted then Course(n, [], iset{}) else c.(mode := n)
  }

  ghost function CourseAfter(c: Course, events: seq<Event>, modes: seq<Mode>): (r: Course)
    requires c.mode < |modes|
    ensures r.mode < |modes|
    decreases |events|
  {
    if events == [] then c else Next(CourseAfter(c, events[..|events| - 1], modes), events[|events| - 1], modes)
  }

  lemma CourseOn(c: Course, events: seq<Event>, k: nat, modes: seq<Mode>)
    requires c.mode < |modes| && k < |events|
    ensures CourseAfter(c, events[..k + 1], modes) == Next(CourseAfter(c, events[..k], modes), events[k], modes)
  {
    assert events[..k + 1][..k] == events[..k];
  }

  /** One event; `ok` unless a flush failed. */
  method Step(driver: Driver, event: Event) returns (ok: bool, broken: bool)
    requires driver.Agrees() && !driver.fullUpdate
    modifies driver, driver.frameBuffer, driver.panel, driver.transferBuffer, driver.transferBufferCompressed
    ensures old(driver.modeIndex) < |driver.modes|
    ensures Course(driver.modeIndex, driver.queued, driver.drawn)
            == Next(Course(old(driver.modeIndex), old(driver.queued), old(driver.drawn)), event, driver.modes)
    ensures driver.frameBuffer == old(driver.frameBuffer) || fresh(driver.frameBuffer)
    ensures !broken ==> driver.Agrees()
    ensures ok && old(driver.lost) == iset{} ==> driver.lost == iset{}
    ensures broken ==>
      && Breaks(event, driver.modes, old(driver.modeIndex))
      && driver.modeIndex == event.modeNumber && !driver.Valid()
  {
    ok, broken := true, false;
    match event
    case Tick =>
      var status := driver.FlushTimerCallback();
      ok := status == Success;
    case Paint(operation, box, blits, paint) =>
      var _ := driver.Blt(operation, box, blits, paint);
    case NewMode(modeNumber, accepted, configured) =>
      var before := driver.modeIndex;
      var status := driver.SetMode(modeNumber, accepted, configured);
      broken := status == Unsupported || (status == DeviceError && driver.modes[modeNumber] != driver.modes[before]);
  }

  /** Over any run of blits, ticks and mode changes, host and device agree on every pixel painted since
      the mode was set that is not waiting for the next tick and was not lost; and if no flush failed,
      none was. Only a mode change that fails breaks the run off: then `last` is the event, and `before` the mode
      before it. Mode, queue and painted pixels are what the events make them. */
  method Run(driver: Driver, events: seq<Event>) returns (clean: bool, broken: bool, last: nat, before: nat)
    requires driver.Agrees() && !driver.fullUpdate && driver.lost == iset{}
    modifies driver, driver.frameBuffer, driver.panel, driver.transferBuffer, driver.transferBufferCompressed
    ensures !broken ==> driver.Agrees()
    ensures old(driver.modeIndex) < |driver.modes| && last <= |events|
    ensures Course(driver.modeIndex, driver.queued, driver.drawn)
            == CourseAfter(Course(old(driver.modeIndex), old(driver.queued), old(driver.drawn)),
                           if broken && last < |events| then events[..last + 1] else events, driver.modes)
    ensures clean ==> driver.lost == iset{}
    ensures broken ==>
      && last < |events| && Breaks(events[last], driver.modes, before)
      && driver.modeIndex == events[last].modeNumber && !driver.Valid()
  {
    clean, broken, last, before := true, false, 0, driver.modeIndex;
    ghost var start := Course(driver.modeIndex, driver.queued, driver.drawn);
    assert events[..0] == [];
    hide CourseAfter;
    StandsStill(start, events[..0], driver.modes);
    for k := 0 to |events|
      invariant driver.Agrees() && (clean ==> driver.lost == iset{}) && !broken
      invariant driver.frameBuffer == old(driver.frameBuffer) || fresh(driver.frameBuffer)
      invariant last <= |events|
      invariant Course(driver.modeIndex, driver.queued, driver.drawn)
                == CourseAfter(start, events[..k], driver.modes)
    {
      CourseOn(start, events, k, driver.modes);
      last, before := k, driver.modeIndex;
      var ok;
      ok, broken := Step(driver, events[k]);
      clean := clean && ok;
      if broken {
        return;
      }
    }
    assert events[..|events|] == events;
  }

  lemma StandsStill(c: Course, events: seq<Event>, modes: seq<Mode>)
    requires c.mode < |modes| && events == []
    ensures CourseAfter(c, events, modes) == c
  {
  }
}
