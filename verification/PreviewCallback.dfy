/** The preview frame delivery of camera/QCamera2/HAL/QCamera2HWICallbacks.cpp: strides are removed by
    a row-by-row copy, unless the frame buffer has none and can be handed out as it is. */
module PreviewCallback {
  type Byte = b: int | 0 <= b < 256

  datatype Format = NV21 | NV12 | YV12 | OtherFormat

  datatype Plane = Plane(stride: nat, scanline: nat)

  // A preview frame: its dimensions and the planes of its buffer (the third is used by YV12 only).
  datatype Layout = Layout(width: nat, height: nat, y: Plane, uv: Plane, third: Plane)

  function PlaneSize(p: Plane): nat { p.stride * p.scanline }

  // previewBufSize for NV12 and NV21.
  function SizeToApp(l: Layout): nat {
    l.width * l.height + l.width * (l.height / 2)
  }

  // previewBufSizeFromCallback for NV12 and NV21.
  function SizeOfFrame(l: Layout): nat {
    PlaneSize(l.y) + PlaneSize(l.uv)
  }

  // Rows are no shorter than the image, and there are enough of them.
  ghost predicate Fits(l: Layout) {
    l.width <= l.y.stride && l.height <= l.y.scanline && l.width <= l.uv.stride && l.height / 2 <= l.uv.scanline
  }

  // The first width bytes of each of n rows that start stride bytes apart.
  function Rows(src: seq<Byte>, base: nat, stride: nat, width: nat, n: nat): (r: seq<Byte>)
    requires width <= stride && base + n * stride <= |src|
    ensures |r| == n * width
  {
    if n == 0 then [] else
    assert (n - 1) * stride + stride == n * stride;
    Rows(src, base, stride, width, n - 1) + src[base + (n - 1) * stride..][..width]
  }

  // The bytes the application is to get: the image rows of Y, then those of UV.
  function Packed(src: seq<Byte>, l: Layout): (r: seq<Byte>)
    requires Fits(l) && SizeOfFrame(l) <= |src|
    ensures |r| == SizeToApp(l)
  {
    RowsFit(l.y, l.height);
    RowsFit(l.uv, l.height / 2);
    Rows(src, 0, l.y.stride, l.width, l.height) +
    Rows(src, PlaneSize(l.y), l.uv.stride, l.width, l.height / 2)
  }

  lemma RowsFit(p: Plane, n: nat)
    requires n <= p.scanline
    ensures n * p.stride <= PlaneSize(p)
  {
    ProductMonotone(n, p.scanline, p.stride);
  }

  lemma ProductMonotone(a: nat, b: nat, c: nat)
    requires a <= b
    ensures a * c <= b * c
  {
    assert b * c == a * c + (b - a) * c;
  }

  lemma RowOffset(i: nat, n: nat, c: nat)
    requires i < n
    ensures 0 <= i * c && (i + 1) * c == i * c + c <= n * c
  {
    ProductMonotone(i + 1, n, c);
  }

  // ---------- What a row is ----------

  lemma {:induction false} RowsAt(src: seq<Byte>, base: nat, stride: nat, width: nat, n: nat, i: nat, x: nat)
    requires width <= stride && base + n * stride <= |src| && i < n && x < width
    ensures 0 <= i * width + x < n * width && 0 <= base + i * stride + x < |src|
    ensures Rows(src, base, stride, width, n)[i * width + x] == src[base + i * stride + x]
  {
    RowOffset(i, n, width);
    RowOffset(i, n, stride);
    RowOffset(n - 1, n, stride);
    var above := Rows(src, base, stride, width, n - 1);
    assert Rows(src, base, stride, width, n) == above + src[base + (n - 1) * stride..][..width];
    if i < n - 1 {
      RowOffset(i, n - 1, width);
      RowsAt(src, base, stride, width, n - 1, i, x);
    } else {
      assert i * width == |above|;
    }
  }

  // ---------- What the application is to get, by position ----------

  // Byte x of row i of the Y plane, and of the UV plane behind all of the Y plane, scanlines included.
  ghost predicate IsY(app: seq<Byte>, src: seq<Byte>, l: Layout, i: nat, x: nat) {
    0 <= i * l.width + x < |app| && 0 <= i * l.y.stride + x < |src| &&
    app[i * l.width + x] == src[i * l.y.stride + x]
  }

  ghost predicate IsUV(app: seq<Byte>, src: seq<Byte>, l: Layout, i: nat, x: nat) {
    0 <= l.width * l.height + i * l.width + x < |app| &&
    0 <= l.y.stride * l.y.scanline + i * l.uv.stride + x < |src| &&
    app[l.width * l.height + i * l.width + x] == src[l.y.stride * l.y.scanline + i * l.uv.stride + x]
  }

  // width * height bytes of Y and half as many rows of UV, without padding, and nothing else.
  ghost predicate IsImage(app: seq<Byte>, src: seq<Byte>, l: Layout) {
    |app| == l.width * l.height + l.width * (l.height / 2) &&
    (forall i: nat, x: nat :: i < l.height && x < l.width ==> IsY(app, src, l, i, x)) &&
    forall i: nat, x: nat :: i < l.height / 2 && x < l.width ==> IsUV(app, src, l, i, x)
  }

  lemma PackedY(src: seq<Byte>, l: Layout, i: nat, x: nat)
    requires Fits(l) && SizeOfFrame(l) <= |src| && i < l.height && x < l.width
    ensures IsY(Packed(src, l), src, l, i, x)
  {
    RowsFit(l.y, l.height);
    RowsFit(l.uv, l.height / 2);
    RowsAt(src, 0, l.y.stride, l.width, l.height, i, x);
  }

  lemma PackedUV(src: seq<Byte>, l: Layout, i: nat, x: nat)
    requires Fits(l) && SizeOfFrame(l) <= |src| && i < l.height / 2 && x < l.width
    ensures IsUV(Packed(src, l), src, l, i, x)
  {
    RowsFit(l.y, l.height);
    RowsFit(l.uv, l.height / 2);
    RowsAt(src, PlaneSize(l.y), l.uv.stride, l.width, l.height / 2, i, x);
  }

  lemma PackedIsImage(src: seq<Byte>, l: Layout)
    requires Fits(l) && SizeOfFrame(l) <= |src|
    ensures IsImage(Packed(src, l), src, l)
  {
    forall i: nat, x: nat | i < l.height && x < l.width ensures IsY(Packed(src, l), src, l, i, x) {
      PackedY(src, l, i, x);
    }
    forall i: nat, x: nat | i < l.height / 2 && x < l.width ensures IsUV(Packed(src, l), src, l, i, x) {
      PackedUV(src, l, i, x);
    }
  }

  // ---------- The zero-copy path ----------

  lemma {:induction false} UnpaddedRows(src: seq<Byte>, base: nat, width: nat, n: nat)
    requires base + n * width <= |src|
    ensures Rows(src, base, width, width, n) == src[base..base + n * width]
  {
    if n > 0 {
      assert (n - 1) * width + width == n * width;
      UnpaddedRows(src, base, width, n - 1);
    }
  }

  // With a positive factor, a larger product of larger factors can only be equal if they are.
  lemma EqualProducts(a: nat, b: nat, a': nat, b': nat)
    requires a <= a' && b <= b' && a > 0 && b > 0 && a * b == a' * b'
    ensures a == a' && b == b'
  {
    ProductMonotone(a, a', b);
    ProductMonotone(b, b', a');
    assert a' * b <= a' * b';
    assert (a' - a) * b == a' * b - a * b;
    assert a' * (b' - b) == a' * b' - a' * b;
    if a < a' { ProductMonotone(1, b, a' - a); }
    if b < b' { ProductMonotone(1, a', b' - b); }
  }

  lemma ProductsMonotone(a: nat, b: nat, a': nat, b': nat)
    requires a <= a' && b <= b'
    ensures a * b <= a' * b'
  {
    ProductMonotone(a, a', b);
    ProductMonotone(b, b', a');
  }

  // When the two computed sizes agree, the frame buffer has no padding (or the image no bytes), and
  // handing it out as it is delivers the same bytes as the copy would.
  lemma EqualSizesMeanSameBytes(src: seq<Byte>, l: Layout)
    requires Fits(l) && SizeOfFrame(l) == SizeToApp(l) <= |src|
    ensures Packed(src, l) == src[..SizeToApp(l)]
  {
    if l.width > 0 {
      UnpaddedIsPacked(src, l);
    }
  }

  // n rows that fill their plane leave no room for padding.
  lemma FullPlane(src: seq<Byte>, base: nat, p: Plane, width: nat, n: nat)
    requires 0 < width <= p.stride && n <= p.scanline && width * n == PlaneSize(p)
    requires base + n * p.stride <= |src| && base + width * n <= |src|
    ensures Rows(src, base, p.stride, width, n) == src[base..base + width * n]
  {
    if n > 0 {
      EqualProducts(width, n, p.stride, p.scanline);
      UnpaddedRows(src, base, width, n);
    }
  }

  lemma UnpaddedIsPacked(src: seq<Byte>, l: Layout)
    requires Fits(l) && l.width > 0 && SizeOfFrame(l) == SizeToApp(l) <= |src|
    ensures Packed(src, l) == src[..SizeToApp(l)]
  {
    var half := l.height / 2;
    ProductsMonotone(l.width, l.height, l.y.stride, l.y.scanline);
    ProductsMonotone(l.width, half, l.uv.stride, l.uv.scanline);
    RowsFit(l.y, l.height);
    RowsFit(l.uv, half);
    FullPlane(src, 0, l.y, l.width, l.height);
    FullPlane(src, PlaneSize(l.y), l.uv, l.width, half);
  }

  // ---------- The copy ----------

  // The lengths and offsets are C ints.
  type CInt = x: int | -0x8000_0000 <= x < 0x8000_0000

  method Memcpy(dst: array<Byte>, dstOffset: nat, src: array<Byte>, srcOffset: nat, n: nat)
    requires dst != src && dstOffset + n <= dst.Length && srcOffset + n <= src.Length
    modifies dst
    ensures dst[..] == old(dst[..dstOffset]) + src[srcOffset..][..n] + old(dst[dstOffset + n..])
  {
    for i := 0 to n
      invariant forall k :: 0 <= k < dst.Length ==>
        dst[k] == if dstOffset <= k < dstOffset + i then src[srcOffset + k - dstOffset] else old(dst[k])
    {
      dst[dstOffset + i] := src[srcOffset + i];
    }
  }

  // One of the two copy loops: n rows from srcBase on go to dstBase on.
  method CopyRows(dst: array<Byte>, dstBase: nat, src: array<Byte>, srcBase: nat, stride: nat, width: nat, n: nat)
    requires dst != src && width <= stride
    requires srcBase + n * stride <= src.Length < 0x8000_0000 && dstBase + n * width <= dst.Length < 0x8000_0000
    modifies dst
    ensures dst[..dstBase] == old(dst[..dstBase])
    ensures dst[dstBase..dstBase + n * width] == Rows(src[..], srcBase, stride, width, n)
  {
    ghost var bytes := src[..];
    for i := 0 to n
      invariant 0 <= i * width <= n * width && 0 <= i * stride <= n * stride
      invariant dst[..dstBase] == old(dst[..dstBase]) && src[..] == bytes
      invariant dst[dstBase..dstBase + i * width] == Rows(bytes, srcBase, stride, width, i)
    {
      RowOffset(i, n, stride);
      RowOffset(i, n, width);
      ghost var before := dst[..];
      CopyRow(dst, i * width + dstBase, src, i * stride + srcBase, width);
      RowAppended(before, dst[..], dstBase, bytes, srcBase, stride, width, i);
    }
  }

  // One more row after i of them.
  lemma RowAppended(before: seq<Byte>, after: seq<Byte>, dstBase: nat,
                    src: seq<Byte>, srcBase: nat, stride: nat, width: nat, i: nat)
    requires width <= stride && 0 <= (i + 1) * stride == i * stride + stride && srcBase + (i + 1) * stride <= |src|
    requires 0 <= i * width <= (i + 1) * width == i * width + width && dstBase + (i + 1) * width <= |after| == |before|
    requires after[..i * width + dstBase] == before[..i * width + dstBase]
    requires after[i * width + dstBase..][..width] == src[i * stride + srcBase..][..width]
    requires before[dstBase..dstBase + i * width] == Rows(src, srcBase, stride, width, i)
    ensures after[..dstBase] == before[..dstBase]
    ensures after[dstBase..dstBase + (i + 1) * width] == Rows(src, srcBase, stride, width, i + 1)
  {
    var from := i * width + dstBase;
    assert after[..dstBase] == after[..from][..dstBase] && after[dstBase..from] == after[..from][dstBase..];
    assert after[dstBase..from + width] == after[dstBase..from] + after[from..][..width];
  }

  // The body of a copy loop, whose offsets are C ints.
  method CopyRow(dst: array<Byte>, dstOffset: CInt, src: array<Byte>, srcOffset: CInt, width: nat)
    requires dst != src && 0 <= dstOffset <= dst.Length - width && 0 <= srcOffset <= src.Length - width
    modifies dst
    ensures dst[..dstOffset] == old(dst[..dstOffset])
    ensures dst[dstOffset..][..width] == src[srcOffset..][..width]
  {
    Memcpy(dst, dstOffset, src, srcOffset, width);
  }

  // What goes into cbArg.data: the first bytes of the frame buffer itself, a copy, or NULL.
  datatype Delivery = FrameItself(size: nat) | Copy(data: array<Byte>) | NoData | OutOfMemory

  // The application gets exactly the image in the frame; an image without bytes in a frame without
  // bytes gives NULL.
  ghost predicate DeliversImage(d: Delivery, l: Layout, frame: array<Byte>)
    reads frame, if d.Copy? then {d.data} else {}
  {
    match d
    case FrameItself(size) => size <= frame.Length && IsImage(frame[..size], frame[..], l)
    case Copy(data) => IsImage(data[..], frame[..], l)
    case NoData =>
      l.width * l.height + l.width * (l.height / 2) == 0 &&
      l.y.stride * l.y.scanline + l.uv.stride * l.uv.scanline == 0
    case OutOfMemory => false
  }

  method SendPreview(fmt: Format, l: Layout, frame: array<Byte>, memoryOk: bool) returns (d: Delivery)
    requires (fmt.NV12? || fmt.NV21?) ==> Fits(l) && SizeOfFrame(l) <= frame.Length < 0x8000_0000
    ensures fmt.OtherFormat? ==> d == NoData
    ensures !fmt.OtherFormat? && !memoryOk ==> d == OutOfMemory
    ensures fmt.YV12? && memoryOk ==>
      var size := l.y.stride * l.y.scanline + l.uv.stride * l.uv.scanline + l.third.stride * l.third.scanline;
      d == if size == 0 then NoData else FrameItself(size)
    ensures (fmt.NV12? || fmt.NV21?) && memoryOk ==> DeliversImage(d, l, frame)
    ensures (fmt.NV12? || fmt.NV21?) && memoryOk ==>
      var toApp := l.width * l.height + l.width * (l.height / 2);
      d.Copy? <==> toApp != l.y.stride * l.y.scanline + l.uv.stride * l.uv.scanline
    ensures d.Copy? ==> fresh(d.data)
  {
    if fmt.OtherFormat? {
      return NoData;
    }
    if !memoryOk {
      return OutOfMemory;
    }
    if fmt.YV12? {
      var size := PlaneSize(l.y) + PlaneSize(l.uv) + PlaneSize(l.third);
      return if size == 0 then NoData else FrameItself(size);
    }
    var previewBufSize, previewBufSizeFromCallback := SizeToApp(l), SizeOfFrame(l);
    PackedIsImage(frame[..], l);
    if previewBufSize != previewBufSizeFromCallback {
      var dataToApp := RemoveStrides(l, frame);
      return Copy(dataToApp);
    }
    if previewBufSize == 0 {
      return NoData;
    }
    EqualSizesMeanSameBytes(frame[..], l);
    return FrameItself(previewBufSize);
  }

  // The copy branch of sendPreviewCallback.
  method RemoveStrides(l: Layout, frame: array<Byte>) returns (dataToApp: array<Byte>)
    requires Fits(l) && SizeOfFrame(l) <= frame.Length < 0x8000_0000
    ensures fresh(dataToApp) && dataToApp[..] == Packed(frame[..], l) && IsImage(dataToApp[..], frame[..], l)
  {
    PackedIsImage(frame[..], l);
    SizesShrink(l);
    dataToApp := new Byte[SizeToApp(l)];
    RowsFit(l.y, l.height);
    RowsFit(l.uv, l.height / 2);
    CopyRows(dataToApp, 0, frame, 0, l.y.stride, l.width, l.height);
    ghost var yRows := dataToApp[..l.height * l.width];
    CopyRows(dataToApp, l.height * l.width, frame, PlaneSize(l.y), l.uv.stride, l.width, l.height / 2);
    assert dataToApp[..] == yRows + dataToApp[l.height * l.width..];
  }

  lemma SizesShrink(l: Layout)
    requires Fits(l)
    ensures SizeToApp(l) <= SizeOfFrame(l)
  {
    ProductsMonotone(l.width, l.height, l.y.stride, l.y.scanline);
    ProductsMonotone(l.width, l.height / 2, l.uv.stride, l.uv.scanline);
  }
}
