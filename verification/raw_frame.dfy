/** The raw-frame side of the camera stream on the ESP32: the 14-byte "RAWH"
    header that precedes every raw payload, the geometry of a camera frame
    buffer, and the RGB565 to GRAY8 luminance conversion.

    Every multi-byte field of the header is little-endian. The Android client
    has no parser for this header, so `DecodeHeader` exists only to state what
    the encoder's bytes mean. */
module RawFrame {
  import opened Common

  const HeaderSize: nat := 14
  /** "RAWH" in ASCII. */
  const Magic: seq<byte> := [0x52, 0x41, 0x57, 0x48]
  const Version: byte := 1
  const FormatRgb565: byte := 0
  const FormatGray8: byte := 1

  datatype Header = Header(format: byte, width: u16, height: u16, payloadLen: u32)

  /** The unsigned number whose little-endian bytes are `b`. */
  function LeValue(b: seq<byte>): (v: nat)
    ensures v < Pow256(|b|)
  {
    if |b| == 0 then 0 else b[0] + 0x100 * LeValue(b[1..])
  }

  function Pow256(n: nat): (p: nat)
    ensures p >= 1
  {
    if n == 0 then 1 else 0x100 * Pow256(n - 1)
  }

  function Le16(x: u16): seq<byte>
  {
    [x % 0x100, x / 0x100 % 0x100]
  }

  function Le32(x: u32): seq<byte>
  {
    [x % 0x100, x / 0x100 % 0x100, x / 0x1_0000 % 0x100, x / 0x100_0000 % 0x100]
  }

  lemma LeValue2(b: seq<byte>)
    requires |b| == 2
    ensures LeValue(b) == b[0] as int + 0x100 * (b[1] as int)
  {
    assert b[1..][1..] == [];
  }

  lemma LeValue4(b: seq<byte>)
    requires |b| == 4
    ensures LeValue(b) == b[0] as int + 0x100 * (b[1] as int + 0x100 * (b[2] as int + 0x100 * (b[3] as int)))
  {
    assert b[1..][1..][1..][1..] == [];
    LeValue2(b[2..]);
    assert b[1..][1..] == b[2..];
  }

  lemma {:induction false} Le16RoundTrip(x: u16)
    ensures LeValue(Le16(x)) == x
  {
    LeValue2(Le16(x));
  }

  lemma {:induction false} Le32RoundTrip(x: u32)
    ensures LeValue(Le32(x)) == x
  {
    LeValue4(Le32(x));
    var q1 := x / 0x100;
    var q2 := q1 / 0x100;
    var q3 := q2 / 0x100;
    assert x / 0x1_0000 == q2;
    assert x / 0x100_0000 == q3;
    assert q3 < 0x100;
    assert q2 == q2 % 0x100 + 0x100 * q3;
    assert q1 == q1 % 0x100 + 0x100 * q2;
    assert x == x % 0x100 + 0x100 * q1;
  }

  lemma {:induction false} Le16Inverse(b: seq<byte>)
    requires |b| == 2
    ensures LeValue(b) < 0x1_0000 && Le16(LeValue(b)) == b
  {
    LeValue2(b);
  }

  lemma {:induction false} Le32Inverse(b: seq<byte>)
    requires |b| == 4
    ensures LeValue(b) < 0x1_0000_0000 && Le32(LeValue(b)) == b
  {
    LeValue4(b);
    var v := LeValue(b);
    var t1 := b[1] as int + 0x100 * (b[2] as int + 0x100 * (b[3] as int));
    var t2 := b[2] as int + 0x100 * (b[3] as int);
    assert v % 0x100 == b[0] && v / 0x100 == t1;
    assert t1 % 0x100 == b[1] && t1 / 0x100 == t2;
    assert t2 % 0x100 == b[2] && t2 / 0x100 == b[3];
    assert v / 0x1_0000 == t1 / 0x100;
    assert v / 0x100_0000 == t2 / 0x100;
  }

  /** The header bytes built by `ws_broadcast_raw_sync`. */
  function EncodeHeader(h: Header): (r: seq<byte>)
    ensures |r| == HeaderSize
    ensures LeValue(r[6..8]) == h.width
    ensures LeValue(r[8..10]) == h.height
    ensures LeValue(r[10..14]) == h.payloadLen
  {
    var r := Magic + [Version, h.format] + Le16(h.width) + Le16(h.height) + Le32(h.payloadLen);
    assert r[6..8] == Le16(h.width) && r[8..10] == Le16(h.height) && r[10..14] == Le32(h.payloadLen);
    Le16RoundTrip(h.width);
    Le16RoundTrip(h.height);
    Le32RoundTrip(h.payloadLen);
    r
  }

  /** Reads back a header: exactly 14 bytes, the magic and version 1. */
  function DecodeHeader(m: seq<byte>): Option<Header>
  {
    if |m| != HeaderSize || m[..4] != Magic || m[4] != Version then None
    else
      Some(Header(m[5], LeValue(m[6..8]), LeValue(m[8..10]), LeValue(m[10..14])))
  }

  lemma {:induction false} DecodeEncodeHeader(h: Header)
    ensures DecodeHeader(EncodeHeader(h)) == Some(h)
  {
    var m := EncodeHeader(h);
    assert m[..4] == Magic;
    assert m[4] == Version && m[5] == h.format;
  }

  /** The other direction: a decodable message is the encoding of what it decodes to. */
  lemma {:induction false} EncodeDecodeHeader(m: seq<byte>)
    requires DecodeHeader(m).Some?
    ensures EncodeHeader(DecodeHeader(m).value) == m
  {
    var h := DecodeHeader(m).value;
    Le16Inverse(m[6..8]);
    Le16Inverse(m[8..10]);
    Le32Inverse(m[10..14]);
    assert m == m[..4] + [m[4], m[5]] + m[6..8] + m[8..10] + m[10..14];
  }

  /** The messages `ws_broadcast_raw_sync` hands to the WebSocket clients, in
      order: nothing for an empty payload or a zero dimension, otherwise the
      header and then the payload as two separate messages. */
  function BroadcastRaw(format: byte, width: u16, height: u16, payload: seq<byte>): (msgs: seq<seq<byte>>)
    requires |payload| < SizeModulus
    ensures msgs == [] <==> |payload| == 0 || width == 0 || height == 0
    ensures msgs != [] ==>
              && |msgs| == 2
              && DecodeHeader(msgs[0]) == Some(Header(format, width, height, |payload|))
              && msgs[1] == payload
  {
    if |payload| == 0 || width == 0 || height == 0 then []
    else
      var h := Header(format, width, height, |payload|);
      DecodeEncodeHeader(h);
      [EncodeHeader(h), payload]
  }

  // ---------------------------------------------------------------------
  // Camera frame buffers

  datatype PixFormat = PixRgb565 | PixJpeg | PixOther

  /** A `camera_fb_t`: `len` is `|buf|`, so an absent buffer is an empty one. */
  datatype FrameBuffer = FrameBuffer(format: PixFormat, width: u32, height: u32, buf: seq<byte>)

  /** `len` is a `size_t`. */
  predicate ValidFrameBuffer(fb: FrameBuffer)
  {
    |fb.buf| < SizeModulus
  }

  datatype Geometry = Geometry(rowBytes: u32, effHeight: u16, effLen: u32)

  lemma MulMono(a: nat, b: nat, c: nat)
    requires b <= c
    ensures a * b <= a * c
  {
  }

  lemma QuotientRows(len: nat, row: nat)
    requires row > 0
    ensures row * (len / row) <= len < row * (len / row) + row
  {
  }

  /** `row_bytes`, `effective_height` (truncated to `uint16_t`) and
      `effective_len` (a `size_t` product) of `ws_broadcast_raw_*_from_fb`. */
  function FrameGeometry(fb: FrameBuffer): (g: Geometry)
    requires ValidFrameBuffer(fb)
    ensures g.effLen <= |fb.buf|
    ensures g.rowBytes == 0 ==> g.effLen == 0
  {
    var rowBytes := (fb.width * 2) % SizeModulus;
    var rows := if rowBytes > 0 then |fb.buf| / rowBytes else fb.height;
    var effHeight := rows % 0x1_0000;
    if rowBytes > 0 then
      RowsFit(|fb.buf|, rowBytes, effHeight);
      Geometry(rowBytes, effHeight, (rowBytes * effHeight) % SizeModulus)
    else
      Geometry(rowBytes, effHeight, 0)
  }

  /** Truncating the row count can only shrink the byte count, so the
      `size_t` product never wraps. */
  lemma RowsFit(len: nat, row: nat, h: nat)
    requires 0 < row && len < SizeModulus
    requires h == (len / row) % 0x1_0000
    ensures row * h <= len
    ensures (row * h) % SizeModulus == row * h
    ensures len < 0x1_0000 * row ==> h == len / row && len < row * h + row
  {
    var q := len / row;
    QuotientRows(len, row);
    assert h <= q;
    MulMono(row, h, q);
    if len < 0x1_0000 * row && q >= 0x1_0000 {
      MulMono(row, 0x1_0000, q);
      assert false;
    }
  }

  /** The messages of `ws_broadcast_raw_rgb565_from_fb`: whole rows of the
      frame buffer, announced as RGB565. */
  function RawRgb565FromFb(fb: FrameBuffer): (msgs: seq<seq<byte>>)
    requires ValidFrameBuffer(fb)
  {
    if |fb.buf| == 0 || fb.format != PixRgb565 then []
    else
      var g := FrameGeometry(fb);
      if g.effHeight == 0 || g.effLen == 0 then []
      else BroadcastRaw(FormatRgb565, fb.width % 0x1_0000, g.effHeight, fb.buf[..g.effLen])
  }

  /** A frame no wider than 32767 pixels whose buffer holds at least one row
      and fewer than 65536 rows, as every supported camera frame does. */
  predicate OrdinaryFrame(fb: FrameBuffer)
  {
    && fb.format == PixRgb565
    && 0 < fb.width < 0x8000
    && 2 * fb.width <= |fb.buf| < 0x1_0000 * (2 * fb.width)
  }

  /** The geometry of an ordinary frame: as many whole rows as the buffer
      holds (what is left over is shorter than a row), nothing truncated. */
  lemma {:induction false} OrdinaryGeometry(fb: FrameBuffer)
    requires ValidFrameBuffer(fb)
    ensures OrdinaryFrame(fb) ==>
            var g := FrameGeometry(fb);
            && g.rowBytes == 2 * fb.width
            && g.effHeight == |fb.buf| / (2 * fb.width) >= 1
            && g.effLen == 2 * (fb.width * g.effHeight)
            && |fb.buf| < g.effLen + g.rowBytes
  {
    if !OrdinaryFrame(fb) {
      return;
    }
    var w, len := fb.width, |fb.buf|;
    var row := 2 * w;
    var q := len / row;
    WholeRows(len, row, w, q);
    GeometryOfWholeRows(fb, row, q, 2 * (w * q));
  }

  /** The same facts for the callers, with the products spelled out. */
  lemma OrdinaryFacts(fb: FrameBuffer, g: Geometry)
    requires ValidFrameBuffer(fb) && OrdinaryFrame(fb) && g == FrameGeometry(fb)
    ensures fb.width % 0x1_0000 == fb.width
    ensures g.effHeight == |fb.buf| / (2 * fb.width) > 0
    ensures g.effLen == 2 * (fb.width * g.effHeight) <= |fb.buf|
    ensures 0 < PixelCount(fb.width, g.effHeight) == fb.width * g.effHeight < SizeModulus
  {
    var w, len := fb.width, |fb.buf|;
    var row := 2 * w;
    var q := len / row;
    WholeRows(len, row, w, q);
    GeometryOfWholeRows(fb, row, q, 2 * (w * q));
    assert g.effHeight == q && g.effLen == 2 * (w * q);
    assert PixelCount(w, q) == w * q;
    assert w % 0x1_0000 == w;
  }

  lemma GeometryOfWholeRows(fb: FrameBuffer, row: nat, q: nat, effLen: nat)
    requires ValidFrameBuffer(fb)
    requires row == 2 * fb.width < SizeModulus && row > 0
    requires q == |fb.buf| / row < 0x1_0000
    requires effLen == row * q < SizeModulus
    ensures FrameGeometry(fb) == Geometry(row, q, effLen)
  {
    assert (fb.width * 2) % SizeModulus == row;
    assert q % 0x1_0000 == q;
    assert (row * q) % SizeModulus == effLen;
  }

  /** Arithmetic behind `OrdinaryGeometry`, on plain numbers. */
  lemma WholeRows(len: nat, row: nat, w: nat, q: nat)
    requires row == 2 * w && 0 < row <= len < 0x1_0000 * row && len < SizeModulus
    requires q == len / row
    ensures 1 <= q < 0x1_0000
    ensures row * q == 2 * (w * q) <= len < row * q + row
    ensures (row * q) % SizeModulus == row * q
    ensures (w * q) % SizeModulus == w * q > 0
  {
    QuotientRows(len, row);
    if q >= 0x1_0000 {
      MulMono(row, 0x1_0000, q);
    }
    assert row * q == 2 * (w * q);
  }

  /** A narrow RGB565 buffer shorter than one row yields no rows at all. */
  lemma {:induction false} ShortFrameGeometry(fb: FrameBuffer)
    requires ValidFrameBuffer(fb)
    ensures 0 < fb.width < 0x8000_0000 && |fb.buf| < 2 * fb.width ==> FrameGeometry(fb).effHeight == 0
  {
    if !(0 < fb.width < 0x8000_0000 && |fb.buf| < 2 * fb.width) {
      return;
    }
    var row := 2 * fb.width;
    assert (fb.width * 2) % SizeModulus == row;
    SmallQuotient(|fb.buf|, row);
  }

  lemma SmallQuotient(a: nat, b: nat)
    requires a < b
    ensures a / b == 0
  {
  }

  /** Nothing travels for a buffer that is not RGB565 or that is shorter
      than one row. */
  lemma {:induction false} RawRgb565Skips(fb: FrameBuffer)
    requires ValidFrameBuffer(fb)
    requires fb.format != PixRgb565 || (fb.width < 0x8000_0000 && |fb.buf| < 2 * fb.width)
    ensures RawRgb565FromFb(fb) == []
  {
    ShortFrameGeometry(fb);
  }

  /** For an ordinary frame, a header whose payload length is exactly
      width * height * 2, followed by that many bytes from the start of the
      buffer. */
  lemma {:induction false} RawRgb565Ordinary(fb: FrameBuffer)
    requires ValidFrameBuffer(fb) && OrdinaryFrame(fb)
    ensures var msgs := RawRgb565FromFb(fb);
            && |msgs| == 2
            && DecodeHeader(msgs[0]).Some?
            && var h := DecodeHeader(msgs[0]).value;
            && h.format == FormatRgb565 && h.width == fb.width
            && h.height == |fb.buf| / (2 * fb.width)
            && h.payloadLen == 2 * (h.width * h.height)
            && msgs[1] == fb.buf[..h.payloadLen]
  {
    var g := FrameGeometry(fb);
    OrdinaryFacts(fb, g);
    assert RawRgb565FromFb(fb) == BroadcastRaw(FormatRgb565, fb.width, g.effHeight, fb.buf[..g.effLen]);
  }

  // ---------------------------------------------------------------------
  // RGB565 to GRAY8

  /** Widens a 5-bit channel to 8 bits: the channel fills the top five
      bits and its own top three bits repeat below them. */
  function Expand5(v: bv8): (r: bv8)
    requires v < 0x20
    ensures r >> 3 == v
    ensures r & 7 == v >> 2
  {
    (v << 3) | (v >> 2)
  }

  /** Widens a 6-bit channel to 8 bits: the channel fills the top six bits
      and its own top two bits repeat below them. */
  function Expand6(v: bv8): (r: bv8)
    requires v < 0x40
    ensures r >> 2 == v
    ensures r & 3 == v >> 4
  {
    (v << 2) | (v >> 4)
  }

  /** Replication maps the channel extremes to the byte extremes. */
  lemma ExpandExtremes()
    ensures Expand5(0) == 0 && Expand6(0) == 0
    ensures Expand5(0x1F) == 0xFF && Expand6(0x3F) == 0xFF
  {
  }

  /** Replication keeps the order of channel values. */
  lemma Expand5Monotone(v: bv8, w: bv8)
    requires v < w < 0x20
    ensures Expand5(v) < Expand5(w)
  {
  }

  /** `77 r + 150 g + 29 b` as stored in a `uint16_t`. */
  function Luma16(r: byte, g: byte, b: byte): (y: u16)
  {
    (r * 77 + g * 150 + b * 29) % 0x1_0000
  }

  /** The weighted sum never reaches 2^16, so the `uint16_t` does not wrap. */
  lemma LumaNoWrap(r: byte, g: byte, b: byte)
    ensures Luma16(r, g, b) == r * 77 + g * 150 + b * 29 <= 0xFF00
  {
    var s := r * 77 + g * 150 + b * 29;
    assert 0 <= s <= 0xFF00;
    SmallMod(s);
  }

  /** The weights add up to 256, so a pixel with three equal channels keeps
      that level after `>> 8`. */
  lemma LumaOfGray(v: byte)
    ensures Luma16(v, v, v) / 0x100 == v
  {
    LumaNoWrap(v, v, v);
    assert Luma16(v, v, v) == v * 0x100;
    ShiftBack(v);
  }

  lemma SmallMod(s: int)
    requires 0 <= s < 0x1_0000
    ensures s % 0x1_0000 == s
  {
  }

  lemma ShiftBack(r: int)
    ensures (r * 0x100) / 0x100 == r
  {
  }

  /** The 16-bit pixel whose most significant byte comes first in the buffer. */
  function Pixel(hi: byte, lo: byte): bv16
  {
    ((hi as bv16) << 8) | (lo as bv16)
  }

  /** An 8-bit channel as the integer the weighted sum multiplies. */
  function Level(c: bv8): byte
  {
    c as int
  }

  /** The gray level of one big-endian RGB565 pixel `hi, lo`. */
  function GrayOf(hi: byte, lo: byte): byte
  {
    var pix := Pixel(hi, lo);
    var r8 := Expand5(((pix >> 11) & 0x1F) as bv8);
    var g8 := Expand6(((pix >> 5) & 0x3F) as bv8);
    var b8 := Expand5((pix & 0x1F) as bv8);
    LumaNoWrap(Level(r8), Level(g8), Level(b8));
    Luma16(Level(r8), Level(g8), Level(b8)) / 0x100
  }

  /** Black stays black and white stays white. */
  lemma GrayExtremes()
    ensures GrayOf(0, 0) == 0
    ensures GrayOf(0xFF, 0xFF) == 0xFF
  {
    assert Pixel(0, 0) == 0;
    assert Pixel(0xFF, 0xFF) == 0xFFFF;
    ExpandExtremes();
    assert Level(0) == 0 && Level(0xFF) == 0xFF;
    LumaOfGray(0);
    LumaOfGray(0xFF);
  }

  /** The first `n` bytes of a fresh `malloc` block whose byte `p` is `junk(p)`. */
  function Block(junk: nat -> byte, n: nat): (r: seq<byte>)
    ensures |r| == n && forall p :: 0 <= p < n ==> r[p] == junk(p)
  {
    if n == 0 then [] else Block(junk, n - 1) + [junk(n - 1)]
  }

  /** The conversion loop of `ws_broadcast_raw_gray8_from_fb`: pixel `p` is
      read from bytes `2p` and `2p+1` while `2p + 1 < effLen` and
      `p < pixelCount`; bytes past that keep what the allocator left in
      `block`. */
  method GrayPlane(buf: seq<byte>, effLen: nat, pixelCount: nat, block: seq<byte>) returns (gray: seq<byte>)
    requires effLen <= |buf| && |block| == pixelCount
    ensures |gray| == pixelCount
    ensures forall p :: 0 <= p < pixelCount && 2 * p + 1 < effLen ==> gray[p] == GrayOf(buf[2 * p], buf[2 * p + 1])
    ensures forall p :: 0 <= p < pixelCount && 2 * p + 1 >= effLen ==> gray[p] == block[p]
  {
    gray := block;
    var i, p := 0, 0;
    while i + 1 < effLen && p < pixelCount
      invariant i == 2 * p && i <= effLen && p <= pixelCount && |gray| == pixelCount
      invariant forall q :: 0 <= q < p ==> gray[q] == GrayOf(buf[2 * q], buf[2 * q + 1])
      invariant forall q :: p <= q < pixelCount ==> gray[q] == block[q]
    {
      gray := gray[p := GrayOf(buf[i], buf[i + 1])];
      i, p := i + 2, p + 1;
    }
  }

  /** `ws_broadcast_raw_gray8_from_fb`: converts whole rows to one gray byte
      per pixel and sends them announced as GRAY8. `allocOk` is whether the
      `malloc` of the gray plane succeeds; without it nothing is sent.
      `junk(p)` stands for byte `p` of the fresh block. */
  method RawGray8FromFb(fb: FrameBuffer, allocOk: bool, junk: nat -> byte) returns (msgs: seq<seq<byte>>)
    requires ValidFrameBuffer(fb)
    ensures fb.format != PixRgb565 || (fb.width < 0x8000_0000 && |fb.buf| < 2 * fb.width) ==> msgs == []
    ensures !allocOk ==> msgs == []
    ensures OrdinaryFrame(fb) && allocOk ==>
              && |msgs| == 2
              && DecodeHeader(msgs[0]).Some?
              && var h := DecodeHeader(msgs[0]).value;
              && h.format == FormatGray8 && h.width == fb.width
              && h.height == |fb.buf| / (2 * fb.width)
              && h.payloadLen == |msgs[1]| == h.width * h.height
              && 2 * |msgs[1]| <= |fb.buf|
              && forall p :: 0 <= p < |msgs[1]| ==> msgs[1][p] == GrayOf(fb.buf[2 * p], fb.buf[2 * p + 1])
  {
    msgs := [];
    if |fb.buf| == 0 || fb.format != PixRgb565 {
      return;
    }
    var g := FrameGeometry(fb);
    ShortFrameGeometry(fb);
    if OrdinaryFrame(fb) {
      OrdinaryFacts(fb, g);
    }
    var pixelCount := PixelCount(fb.width, g.effHeight);
    if g.effHeight == 0 || g.effLen == 0 || pixelCount == 0 {
      return;
    }
    if !allocOk {
      return;
    }
    var gray := GrayPlane(fb.buf, g.effLen, pixelCount, Block(junk, pixelCount));
    msgs := BroadcastRaw(FormatGray8, fb.width % 0x1_0000, g.effHeight, gray);
    Gray8Ordinary(fb, g, msgs, gray);
  }

  /** `(size_t)fb->width * (size_t)effective_height`. */
  function PixelCount(width: u32, effHeight: u16): u32
  {
    (width * effHeight) % SizeModulus
  }

  lemma Gray8Ordinary(fb: FrameBuffer, g: Geometry, msgs: seq<seq<byte>>, gray: seq<byte>)
    requires ValidFrameBuffer(fb) && g == FrameGeometry(fb) && g.effHeight > 0
    requires |gray| == PixelCount(fb.width, g.effHeight) > 0
    requires forall p :: 0 <= p < |gray| && 2 * p + 1 < g.effLen ==> gray[p] == GrayOf(fb.buf[2 * p], fb.buf[2 * p + 1])
    requires msgs == BroadcastRaw(FormatGray8, fb.width % 0x1_0000, g.effHeight, gray)
    ensures OrdinaryFrame(fb) ==>
              && |msgs| == 2
              && DecodeHeader(msgs[0]).Some?
              && var h := DecodeHeader(msgs[0]).value;
              && h.format == FormatGray8 && h.width == fb.width
              && h.height == |fb.buf| / (2 * fb.width)
              && h.payloadLen == |msgs[1]| == h.width * h.height
              && 2 * |msgs[1]| <= |fb.buf|
              && forall p :: 0 <= p < |msgs[1]| ==> msgs[1][p] == GrayOf(fb.buf[2 * p], fb.buf[2 * p + 1])
  {
    if OrdinaryFrame(fb) {
      OrdinaryFacts(fb, g);
      Gray8Rows(fb, msgs, gray, fb.width, g.effHeight);
    }
  }

  lemma Gray8Rows(fb: FrameBuffer, msgs: seq<seq<byte>>, gray: seq<byte>, w: u16, q: u16)
    requires w == fb.width > 0 && q > 0 && 2 * (w * q) <= |fb.buf|
    requires w * q < SizeModulus && |gray| == w * q
    requires forall p :: 0 <= p < |gray| && 2 * p + 1 < 2 * (w * q) ==> gray[p] == GrayOf(fb.buf[2 * p], fb.buf[2 * p + 1])
    requires msgs == BroadcastRaw(FormatGray8, w, q, gray)
    ensures && |msgs| == 2
            && DecodeHeader(msgs[0]).Some?
            && var h := DecodeHeader(msgs[0]).value;
            && h.format == FormatGray8 && h.width == w && h.height == q
            && h.payloadLen == |msgs[1]| == h.width * h.height
            && forall p :: 0 <= p < |msgs[1]| ==> msgs[1][p] == GrayOf(fb.buf[2 * p], fb.buf[2 * p + 1])
  {
    Gray8Header(msgs, gray, w, q);
    GrayPlaneCovers(fb.buf, gray, 2 * (w * q), w * q);
  }

  lemma Gray8Header(msgs: seq<seq<byte>>, gray: seq<byte>, w: u16, eh: u16)
    requires w > 0 && eh > 0 && 0 < |gray| == w * eh < SizeModulus
    requires msgs == BroadcastRaw(FormatGray8, w, eh, gray)
    ensures && |msgs| == 2
            && DecodeHeader(msgs[0]).Some?
            && var h := DecodeHeader(msgs[0]).value;
            && h.format == FormatGray8 && h.width == w
            && h.height == eh
            && h.payloadLen == |msgs[1]| == h.width * h.height
            && msgs[1] == gray
  {
  }

  lemma GrayPlaneCovers(buf: seq<byte>, gray: seq<byte>, effLen: nat, pixelCount: nat)
    requires effLen == 2 * pixelCount <= |buf| && |gray| == pixelCount
    requires forall p :: 0 <= p < pixelCount && 2 * p + 1 < effLen ==> gray[p] == GrayOf(buf[2 * p], buf[2 * p + 1])
    ensures forall p :: 0 <= p < |gray| ==> gray[p] == GrayOf(buf[2 * p], buf[2 * p + 1])
  {
  }
}
