/**
 * `load_pcx_data` of game_integrated/ui_custom.h: the loader for 8-bit,
 * single-plane ZSoft PCX images. The 128-byte header is checked, then the
 * run-length coded pixels after it are expanded into a buffer of exactly
 * `width * height` bytes.
 *
 * The reader `data_reader_le` (data_loading.h, not part of this model)
 * reads little-endian values and refuses to read or skip past the end of
 * the data; every such refusal is `ReadPastEnd` here. The `error` calls of
 * the loader become the other cases of `PcxError`.
 */
module Pcx {
  import opened Common

  datatype PcxError = ReadPastEnd | InvalidIdentifier | InvalidEncoding | InvalidBpp | InvalidOffset
                    | PaddingNotSupported | DecodeFailed

  datatype Decoded<T> = Ok(value: T) | Err(error: PcxError)

  datatype PcxImage = PcxImage(width: nat, height: nat, data: seq<Byte>)

  /** The offset of the pixel data: the header is 128 bytes long. */
  const HeaderSize: nat := 128

  /** A byte with both top bits set (`(v & 0xc0) == 0xc0`) starts a run of `v & 0x3f` copies. */
  predicate IsRun(v: Byte)
  {
    v >= 0xc0
  }

  /** The little-endian 16-bit value at `at`. */
  function U16(data: seq<Byte>, at: nat): (v: nat)
    requires at + 2 <= |data|
    ensures v < 0x1_0000
  {
    data[at] as int + 0x100 * (data[at + 1] as int)
  }

  function Repeat(c: Byte, n: nat): (r: seq<Byte>)
    ensures |r| == n && forall k :: 0 <= k < n ==> r[k] == c
  {
    if n == 0 then [] else Repeat(c, n - 1) + [c]
  }

  /** `p` in front of a decoded value; an error stays an error. */
  function Prepend(p: seq<Byte>, r: Decoded<seq<Byte>>): Decoded<seq<Byte>>
  {
    if r.Ok? then Ok(p + r.value) else r
  }

  /**
   * The pixel loop: `need` more bytes are expanded from the stream `s`. A
   * literal byte is copied; a run byte and the byte after it give that
   * many copies, a run longer than what is left fails, and a stream that
   * ends before the image is full is read past its end. Whatever follows
   * the last pixel is ignored.
   */
  function Expand(s: seq<Byte>, need: nat): (r: Decoded<seq<Byte>>)
    ensures r.Ok? ==> |r.value| == need
    decreases |s|
  {
    if need == 0 then Ok([])
    else if |s| == 0 then Err(ReadPastEnd)
    else if IsRun(s[0]) then
      if |s| < 2 then Err(ReadPastEnd)
      else
        var count := s[0] - 0xc0;
        if count > need then Err(DecodeFailed)
        else Prepend(Repeat(s[1], count), Expand(s[2..], need - count))
    else Prepend([s[0]], Expand(s[1..], need - 1))
  }

  /**
   * `load_pcx_data(data)`: the identifier is checked as soon as it is
   * read, then encoding, bits per pixel and offset, then the padding
   * implied by `bytes_per_line * bit_planes`, then the pixels are
   * expanded from byte 128 on.
   */
  function Load(data: seq<Byte>): (r: Decoded<PcxImage>)
    ensures r.Ok? ==>
      |data| >= HeaderSize && data[0] == 0x0a && data[2] == 1 && data[3] == 8 &&
      U16(data, 4) == 0 && U16(data, 6) == 0 && U16(data, 66) * data[65] == U16(data, 8) + 1
    ensures r.Ok? ==>
      r.value.width == U16(data, 8) + 1 && r.value.height == U16(data, 10) + 1 &&
      |r.value.data| == r.value.width * r.value.height
    ensures |data| >= 1 && data[0] != 0x0a ==> r == Err(InvalidIdentifier)
    ensures |data| >= 12 && data[0] == 0x0a && data[2] != 1 ==> r == Err(InvalidEncoding)
    ensures |data| >= 12 && data[0] == 0x0a && data[2] == 1 && data[3] != 8 ==> r == Err(InvalidBpp)
    ensures |data| >= 12 && data[0] == 0x0a && data[2] == 1 && data[3] == 8 && U16(data, 4) + U16(data, 6) != 0 ==>
      r == Err(InvalidOffset)
  {
    if |data| < 1 then Err(ReadPastEnd)
    else if data[0] != 0x0a then Err(InvalidIdentifier)
    else if |data| < 12 then Err(ReadPastEnd)
    else if data[2] != 1 then Err(InvalidEncoding)
    else if data[3] != 8 then Err(InvalidBpp)
    else if U16(data, 4) != 0 || U16(data, 6) != 0 then Err(InvalidOffset)
    else if |data| < HeaderSize then Err(ReadPastEnd)
    else
      var width, height := U16(data, 8) + 1, U16(data, 10) + 1;
      if U16(data, 66) * data[65] != width then Err(PaddingNotSupported)
      else
        var pixels := Expand(data[HeaderSize..], width * height);
        if pixels.Ok? then Ok(PcxImage(width, height, pixels.value)) else Err(pixels.error)
  }

  /**
   * A header that passes every check leaves the result to the pixels: the
   * image has the header's size and whatever `Expand` gives.
   */
  lemma LoadAccepts(data: seq<Byte>)
    requires |data| >= HeaderSize && data[0] == 0x0a && data[2] == 1 && data[3] == 8
    requires U16(data, 4) == 0 && U16(data, 6) == 0 && U16(data, 66) * data[65] == U16(data, 8) + 1
    ensures var width, height := U16(data, 8) + 1, U16(data, 10) + 1;
      var pixels := Expand(data[HeaderSize..], width * height);
      Load(data) == if pixels.Ok? then Ok(PcxImage(width, height, pixels.value)) else Err(pixels.error)
  {
  }

  lemma PrependAppend(p: seq<Byte>, q: seq<Byte>, r: Decoded<seq<Byte>>)
    ensures Prepend(p, Prepend(q, r)) == Prepend(p + q, r)
  {
    if r.Ok? {
      assert p + (q + r.value) == (p + q) + r.value;
    }
  }

  /**
   * `load_pcx_data` on a buffer: the header is read, `dst` is sized to the
   * image and the pixel loop writes it byte by byte, with an inner loop
   * for each run; the result is exactly `Load(data)`.
   */
  method LoadPcxData(data: seq<Byte>) returns (r: Decoded<PcxImage>)
    ensures r == Load(data)
  {
    if |data| < 1 {
      return Err(ReadPastEnd);
    }
    if data[0] != 0x0a {
      return Err(InvalidIdentifier);
    }
    if |data| < 12 {
      return Err(ReadPastEnd);
    }
    var encoding, bpp := data[2], data[3];
    var offsetX, offsetY := U16(data, 4), U16(data, 6);
    var lastX, lastY := U16(data, 8), U16(data, 10);
    if encoding != 1 {
      return Err(InvalidEncoding);
    }
    if bpp != 8 {
      return Err(InvalidBpp);
    }
    if offsetX != 0 || offsetY != 0 {
      return Err(InvalidOffset);
    }
    if |data| < HeaderSize {
      return Err(ReadPastEnd);
    }
    var bitPlanes, bytesPerLine := data[65], U16(data, 66);
    var width, height := lastX + 1, lastY + 1;
    var dst := new Byte[width * height];
    if bytesPerLine * bitPlanes != width {
      return Err(PaddingNotSupported);
    }
    var failure := ExpandInto(data, dst);
    if failure.Some? {
      return Err(failure.value);
    }
    return Ok(PcxImage(width, height, dst[..]));
  }

  /**
   * The pixel loop of `load_pcx_data`: `dst` is filled from the stream
   * after the header until it is full, or the loop fails as `Expand` does.
   */
  method ExpandInto(data: seq<Byte>, dst: array<Byte>) returns (failure: Option<PcxError>)
    requires |data| >= HeaderSize
    modifies dst
    ensures var spec := Expand(data[HeaderSize..], dst.Length);
      (failure.None? ==> spec == Ok(dst[..])) && (failure.Some? ==> spec == Err(failure.value))
  {
    var n := dst.Length;
    ghost var spec := Expand(data[HeaderSize..], n);
    assert spec == Prepend(dst[..0], spec) by {
      assert spec.Ok? ==> dst[..0] + spec.value == spec.value;
    }
    var pos, d := HeaderSize, 0;
    while d != n
      invariant HeaderSize <= pos <= |data| && 0 <= d <= n == dst.Length
      invariant spec == Prepend(dst[..d], Expand(data[pos..], n - d))
      decreases |data| - pos
    {
      failure, pos, d := DecodeStep(data, pos, dst, d);
      if failure.Some? {
        return;
      }
    }
    assert Expand(data[pos..], 0) == Ok([]);
    assert spec.Ok? && spec.value == dst[..d] + [];
    assert dst[..d] + [] == dst[..d] == dst[..];
    return None;
  }

  /**
   * One turn of the pixel loop of `load_pcx_data`: the next literal or
   * run is read from `pos` and written at `dst[d]`. What is left to expand
   * after the turn, behind what `dst` now holds, is what was left before
   * it; a failure is what expanding the rest gives.
   */
  method DecodeStep(data: seq<Byte>, pos: nat, dst: array<Byte>, d: nat)
    returns (failure: Option<PcxError>, pos': nat, d': nat)
    requires pos <= |data| && d < dst.Length
    modifies dst
    ensures failure.Some? ==> Prepend(old(dst[..d]), Expand(data[pos..], dst.Length - d)) == Err(failure.value)
    ensures failure.None? ==>
      pos < pos' <= |data| && d <= d' <= dst.Length &&
      Prepend(old(dst[..d]), Expand(data[pos..], dst.Length - d)) ==
      Prepend(dst[..d'], Expand(data[pos'..], dst.Length - d'))
  {
    var n := dst.Length;
    ghost var before := dst[..d];
    if pos >= |data| {
      return Some(ReadPastEnd), pos, d;
    }
    var v := data[pos];
    if IsRun(v) {
      if pos + 1 >= |data| {
        return Some(ReadPastEnd), pos, d;
      }
      var c := data[pos + 1];
      var count := v - 0xc0;
      assert data[pos..][2..] == data[pos + 2..];
      var ok;
      ok, d' := WriteRun(dst, d, c, count);
      if !ok {
        return Some(DecodeFailed), pos, d;
      }
      if count == 0 {
        assert dst[..d'] == before + [];
      }
      PrependAppend(before, Repeat(c, count), Expand(data[pos + 2..], n - d - count));
      failure, pos' := None, pos + 2;
    } else {
      assert data[pos..][1..] == data[pos + 1..];
      PrependAppend(before, [v], Expand(data[pos + 1..], n - d - 1));
      dst[d] := v;
      assert dst[..d + 1] == before + [v];
      failure, pos', d' := None, pos + 1, d + 1;
    }
  }

  /**
   * The inner loop of `load_pcx_data`: `count` copies of `c` from `dst[d]`
   * on, failing when the buffer ends first. On success the prefix before
   * `d` is kept and the copies follow it.
   */
  method WriteRun(dst: array<Byte>, d: nat, c: Byte, count: nat) returns (ok: bool, next: nat)
    requires d <= dst.Length
    modifies dst
    ensures ok <==> count <= dst.Length - d
    ensures ok ==> next == d + count && dst[..next] == old(dst[..d]) + Repeat(c, count)
  {
    next := d;
    var left := count;
    while left > 0
      invariant d <= next <= dst.Length && next - d == count - left
      invariant dst[..next] == old(dst[..d]) + Repeat(c, next - d)
    {
      if next == dst.Length {
        return false, next;
      }
      dst[next] := c;
      assert dst[..next + 1] == dst[..next] + [c];
      next := next + 1;
      left := left - 1;
    }
    return true, next;
  }

  /** The length of the run of equal bytes `p` starts with, at most 63, the longest a run byte can say. */
  function RunLength(p: seq<Byte>): (n: nat)
    requires |p| > 0
    ensures 1 <= n <= |p| && n <= 0x3f
    ensures forall k :: 0 <= k < n ==> p[k] == p[0]
  {
    if |p| == 1 || p[1] != p[0] then 1
    else
      var rest := RunLength(p[1..]);
      if rest + 1 > 0x3f then 0x3f else rest + 1
  }

  /**
   * A run-length coding of `p` that `load_pcx_data` accepts: a byte
   * without both top bits set that does not repeat is written as it is,
   * everything else as a run byte followed by the value.
   */
  function Encode(p: seq<Byte>): seq<Byte>
    decreases |p|
  {
    if |p| == 0 then []
    else
      var n := RunLength(p);
      if n == 1 && !IsRun(p[0]) then [p[0]] + Encode(p[1..])
      else [0xc0 + n, p[0]] + Encode(p[n..])
  }

  /** Expanding an encoding gives back the pixels, whatever follows the encoding. */
  lemma {:induction false} ExpandEncode(p: seq<Byte>, rest: seq<Byte>)
    ensures Expand(Encode(p) + rest, |p|) == Ok(p)
    decreases |p|
  {
    if |p| > 0 {
      var n := RunLength(p);
      ExpandEncode(p[n..], rest);
      if n == 1 && !IsRun(p[0]) {
        ExpandLiteral(p, rest);
      } else {
        ExpandRun(p, rest);
      }
    }
  }

  /** The step of `ExpandEncode` for a literal byte. */
  lemma ExpandLiteral(p: seq<Byte>, rest: seq<Byte>)
    requires |p| > 0 && RunLength(p) == 1 && !IsRun(p[0])
    requires Expand(Encode(p[1..]) + rest, |p| - 1) == Ok(p[1..])
    ensures Expand(Encode(p) + rest, |p|) == Ok(p)
  {
    var tail := Encode(p[1..]) + rest;
    assert Encode(p) + rest == [p[0]] + tail;
    assert ([p[0]] + tail)[1..] == tail;
    assert [p[0]] + p[1..] == p;
  }

  /** The step of `ExpandEncode` for a run. */
  lemma ExpandRun(p: seq<Byte>, rest: seq<Byte>)
    requires |p| > 0 && !(RunLength(p) == 1 && !IsRun(p[0]))
    requires Expand(Encode(p[RunLength(p)..]) + rest, |p| - RunLength(p)) == Ok(p[RunLength(p)..])
    ensures Expand(Encode(p) + rest, |p|) == Ok(p)
  {
    EncodeRun(p);
    AppendAssoc(Encode(p), [0xc0 + RunLength(p), p[0]], Encode(p[RunLength(p)..]), rest);
    ExpandRunBytes(Encode(p) + rest, Encode(p[RunLength(p)..]) + rest, p[0], RunLength(p), |p|, p[RunLength(p)..]);
    RunSplit(p, RunLength(p));
  }

  /** A run byte saying `n`, its value `v`, then a stream expanding to `q`, expand to `n` copies of `v` and `q`. */
  lemma ExpandRunBytes(s: seq<Byte>, tail: seq<Byte>, v: Byte, n: nat, need: nat, q: seq<Byte>)
    requires 0 < n <= need && n <= 0x3f && s == [0xc0 + n, v] + tail
    requires Expand(tail, need - n) == Ok(q)
    ensures Expand(s, need) == Ok(Repeat(v, n) + q)
  {
    assert s[1] == v && s[2..] == tail;
    ExpandRunByte(s, need, n);
  }

  /** A run is encoded as its run byte, its value, and the encoding of what follows it. */
  lemma EncodeRun(p: seq<Byte>)
    requires |p| > 0 && !(RunLength(p) == 1 && !IsRun(p[0]))
    ensures Encode(p) == [0xc0 + RunLength(p), p[0]] + Encode(p[RunLength(p)..])
  {
    var n := RunLength(p);
    assert !(n == 1 && !IsRun(p[0]));
  }

  /** Appending to a concatenation appends to its second part. */
  lemma AppendAssoc(e: seq<Byte>, h: seq<Byte>, t: seq<Byte>, rest: seq<Byte>)
    requires e == h + t
    ensures e + rest == h + (t + rest)
  {
  }

  /** A sequence starting with `n` copies of its first byte is those copies followed by the rest. */
  lemma RunSplit(p: seq<Byte>, n: nat)
    requires 0 < n <= |p| && forall k :: 0 <= k < n ==> p[k] == p[0]
    ensures Repeat(p[0], n) + p[n..] == p
  {
    assert Repeat(p[0], n) == p[..n];
    assert p[..n] + p[n..] == p;
  }

  /** A run byte saying `n`, at most what is needed, expands to `n` copies of the byte after it. */
  lemma ExpandRunByte(s: seq<Byte>, need: nat, n: nat)
    requires |s| >= 2 && 0 < n <= need && n <= 0x3f && s[0] == 0xc0 + n
    ensures Expand(s, need) == Prepend(Repeat(s[1], n), Expand(s[2..], need - n))
  {
  }

  /** Byte `i` of the header of a `width` by `height` image: see `Header`. */
  function HeaderByte(width: nat, height: nat, i: int): Byte
    requires 1 <= width < 0x1_0000 && 1 <= height <= 0x1_0000
  {
    if i == 0 then 0x0a
    else if i == 1 then 5
    else if i == 2 then 1
    else if i == 3 then 8
    else if i == 8 then (width - 1) % 0x100
    else if i == 9 then (width - 1) / 0x100
    else if i == 10 then (height - 1) % 0x100
    else if i == 11 then (height - 1) / 0x100
    else if i == 65 then 1
    else if i == 66 then width % 0x100
    else if i == 67 then width / 0x100
    else 0
  }

  /**
   * The header of a `width` by `height` image `load_pcx_data` accepts:
   * identifier 0x0a, version 5, encoding 1, 8 bits per pixel, a zero
   * offset, the last column and row, one plane of `width` bytes per line,
   * zeros elsewhere.
   */
  function Header(width: nat, height: nat): (h: seq<Byte>)
    requires 1 <= width < 0x1_0000 && 1 <= height <= 0x1_0000
    ensures |h| == HeaderSize && forall i :: 0 <= i < HeaderSize ==> h[i] == HeaderByte(width, height, i)
  {
    seq(HeaderSize, i => HeaderByte(width, height, i))
  }

  /**
   * The loader reads back what was encoded: a header and the encoding of
   * exactly `width * height` pixels load as that image, whatever follows.
   */
  lemma LoadEncoded(width: nat, height: nat, pixels: seq<Byte>, rest: seq<Byte>)
    requires 1 <= width < 0x1_0000 && 1 <= height <= 0x1_0000 && |pixels| == width * height
    ensures Load(Header(width, height) + Encode(pixels) + rest) == Ok(PcxImage(width, height, pixels))
  {
    var h := Header(width, height);
    AppendAssoc(h + Encode(pixels), h, Encode(pixels), rest);
    ExpandEncode(pixels, rest);
    LoadHeader(width, height, Encode(pixels) + rest, pixels);
  }

  /** A header followed by a stream that expands to `width * height` pixels loads as that image. */
  lemma LoadHeader(width: nat, height: nat, tail: seq<Byte>, pixels: seq<Byte>)
    requires 1 <= width < 0x1_0000 && 1 <= height <= 0x1_0000
    requires Expand(tail, width * height) == Ok(pixels)
    ensures Load(Header(width, height) + tail) == Ok(PcxImage(width, height, pixels))
  {
    HeaderReads(width, height, tail);
    LoadAccepts(Header(width, height) + tail);
  }

  /** The fields `load_pcx_data` reads from `Header(width, height)`, whatever follows it. */
  lemma HeaderReads(width: nat, height: nat, tail: seq<Byte>)
    requires 1 <= width < 0x1_0000 && 1 <= height <= 0x1_0000
    ensures var data := Header(width, height) + tail;
      |data| >= HeaderSize && data[0] == 0x0a && data[2] == 1 && data[3] == 8 &&
      U16(data, 4) == 0 && U16(data, 6) == 0 && U16(data, 8) == width - 1 && U16(data, 10) == height - 1 &&
      U16(data, 66) * data[65] == U16(data, 8) + 1 && data[HeaderSize..] == tail
  {
    var data := Header(width, height) + tail;
    assert data[0] == 0x0a && data[2] == 1 && data[3] == 8;
    assert U16(data, 4) == 0 && U16(data, 6) == 0;
    assert U16(data, 8) == width - 1 && U16(data, 10) == height - 1;
    assert data[65] == 1 && U16(data, 66) == width;
    assert data[HeaderSize..] == tail;
  }
}
