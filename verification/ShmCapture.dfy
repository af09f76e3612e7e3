/** Captured images: the rows of a mapped framebuffer are put in upright order, and written
    into a client's strided buffer. `max` is the largest value of the machine's word. */
module ShmCapture {
  import opened Arithmetic

  const LIMIT: nat := 256 * 1024 * 1024

  datatype Format = Argb8888 | Xrgb8888 | OtherFormat

  datatype BufferData = BufferData(offset: int, width: int, height: int, stride: int, format: Format)

  datatype Layout = Layout(row: nat, height: nat, stride: nat, offset: nat, bytes: nat)

  datatype Error =
    | Mismatch | InvalidWidth | InvalidHeight | InvalidStride | InvalidOffset | Overflow | TooLarge | OutOfBounds
    | UnexpectedSize

  datatype Result<T> = Ok(value: T) | Err(error: Error)

  function LayoutOf(d: BufferData, len: nat, width: int, height: int, max: nat): Result<Layout> {
    if d.width != width || d.height != height || d.format.OtherFormat? then Err(Mismatch)
    else if width < 0 || width > max || width * 4 > max then Err(InvalidWidth)
    else if height < 0 || height > max then Err(InvalidHeight)
    else if d.stride < 0 || d.stride > max then Err(InvalidStride)
    else if d.offset < 0 || d.offset > max then Err(InvalidOffset)
    else
      var row, last := width * 4, if height == 0 then 0 else height - 1;
      MulNat(d.stride, last);
      MulNat(row, height);
      var end: nat := d.stride * last + row + d.offset;
      if d.stride * last > max || d.stride * last + row > max || end > max then Err(Overflow)
      else if row * height > max || row * height > LIMIT then Err(TooLarge)
      else if row == 0 || height == 0 || d.stride < row || end > len then Err(OutOfBounds)
      else Ok(Layout(row, height, d.stride, d.offset, row * height))
  }

  /** The numbers of a buffer are 32-bit integers, which a word holds if they are positive. */
  predicate WordSized(d: BufferData, len: nat, max: nat) { len <= max && d.stride <= 0x7fff_ffff <= max }

  /** Exactly the buffers that match the output and hold all its rows are accepted. */
  lemma AcceptedExactly(d: BufferData, len: nat, width: int, height: int, max: nat)
    requires WordSized(d, len, max)
    ensures LayoutOf(d, len, width, height, max).Ok? <==>
              && d.width == width && d.height == height && !d.format.OtherFormat?
              && width > 0 && height > 0 && d.stride >= 4 * width && d.offset >= 0
              && d.offset + d.stride * (height - 1) + 4 * width <= len
              && 4 * width * height <= LIMIT
  {
    if width > 0 && height > 0 && d.stride >= 4 * width && d.offset >= 0 {
      MulMonotone(4 * width, d.stride, height - 1);
      MulNat(d.stride, height - 1);
      MulNat(4 * width, height - 1);
      assert width * 4 * height == 4 * width * (height - 1) + 4 * width;
    }
  }

  predicate Fits(l: Layout, len: nat) {
    && 0 < l.row <= l.stride && l.bytes == l.row * l.height
    && (l.height > 0 ==> l.offset + l.stride * (l.height - 1) + l.row <= len)
  }

  lemma LayoutFits(d: BufferData, len: nat, width: int, height: int, max: nat)
    requires LayoutOf(d, len, width, height, max).Ok?
    ensures Fits(LayoutOf(d, len, width, height, max).value, len)
  {
  }

  // ---- addresses ----

  /** The byte for pixel byte `x` of row `y`. */
  function Address(l: Layout, y: nat, x: nat): int { l.offset + y * l.stride + x }

  /** Whether byte `i` belongs to one of the first rows, and which one. */
  predicate InRows(l: Layout, i: int)
    requires l.stride > 0
  {
    l.offset <= i && (i - l.offset) / l.stride < l.height && (i - l.offset) % l.stride < l.row
  }

  lemma AddressInRows(l: Layout, len: nat, y: nat, x: nat)
    requires Fits(l, len) && y < l.height && x < l.row
    ensures 0 <= Address(l, y, x) < len && InRows(l, Address(l, y, x))
    ensures (Address(l, y, x) - l.offset) / l.stride == y && (Address(l, y, x) - l.offset) % l.stride == x
  {
    DivUnique(y * l.stride + x, l.stride, y, x);
    MulMonotone(y, l.height - 1, l.stride);
    MulNat(y, l.stride);
  }

  /** Different pixel bytes have different addresses: the rows are disjoint. */
  lemma AddressesDistinct(l: Layout, len: nat, y: nat, x: nat, z: nat, w: nat)
    requires Fits(l, len) && y < l.height && x < l.row && z < l.height && w < l.row
    ensures Address(l, y, x) == Address(l, z, w) ==> y == z && x == w
  {
    AddressInRows(l, len, y, x);
    AddressInRows(l, len, z, w);
  }

  lemma PixelIndex(row: nat, height: nat, y: nat, x: nat)
    requires y < height && x < row
    ensures 0 <= y * row + x < row * height
    ensures (y * row + x) / row == y && (y * row + x) % row == x
  {
    DivUnique(y * row + x, row, y, x);
    MulMonotone(y, height - 1, row);
    MulNat(y, row);
  }

  // ---- writing ----

  /** The buffer after the rows of `pixels` were written. */
  function Written(buffer: seq<bv8>, l: Layout, pixels: seq<bv8>): (r: seq<bv8>)
    requires Fits(l, |buffer|) && |pixels| >= l.bytes
    ensures |r| == |buffer|
  {
    seq(|buffer|, i requires 0 <= i < |buffer| =>
      if InRows(l, i) then PixelAt(l, pixels, i) else buffer[i])
  }

  function PixelAt(l: Layout, pixels: seq<bv8>, i: int): bv8
    requires l.stride > 0 && l.row > 0 && InRows(l, i) && |pixels| >= l.row * l.height
  {
    var y, x := (i - l.offset) / l.stride, (i - l.offset) % l.stride;
    PixelIndex(l.row, l.height, y, x);
    pixels[y * l.row + x]
  }

  /** Row `y` of the buffer holds row `y` of the pixels. */
  lemma WrittenRow(buffer: seq<bv8>, l: Layout, pixels: seq<bv8>, y: nat, x: nat)
    requires Fits(l, |buffer|) && |pixels| >= l.bytes && y < l.height && x < l.row
    ensures 0 <= Address(l, y, x) < |buffer| && y * l.row + x < |pixels|
    ensures Written(buffer, l, pixels)[Address(l, y, x)] == pixels[y * l.row + x]
  {
    AddressInRows(l, |buffer|, y, x);
    PixelIndex(l.row, l.height, y, x);
  }

  /** Padding, and everything before and after the image, is unchanged. */
  lemma PaddingUnchanged(buffer: seq<bv8>, l: Layout, pixels: seq<bv8>, i: nat)
    requires Fits(l, |buffer|) && |pixels| >= l.bytes && i < |buffer|
    requires forall y: nat, x: nat :: y < l.height && x < l.row ==> Address(l, y, x) != i
    ensures Written(buffer, l, pixels)[i] == buffer[i]
  {
    if InRows(l, i) { InRowsAddress(l, i); }
  }

  lemma InRowsAddress(l: Layout, i: int)
    requires l.stride > 0 && InRows(l, i)
    ensures Address(l, (i - l.offset) / l.stride, (i - l.offset) % l.stride) == i
  {
  }

  function ReadRows(buffer: seq<bv8>, l: Layout): (r: seq<bv8>)
    requires Fits(l, |buffer|)
    ensures |r| == l.bytes
  {
    seq(l.bytes, k requires 0 <= k < l.bytes =>
      RowOf(l, k); AddressInRows(l, |buffer|, k / l.row, k % l.row); buffer[Address(l, k / l.row, k % l.row)])
  }

  lemma RowOf(l: Layout, k: nat)
    requires l.row > 0 && k < l.row * l.height
    ensures k / l.row < l.height && k == k / l.row * l.row + k % l.row
  {
    if k / l.row >= l.height { MulMonotone(l.height, k / l.row, l.row); }
  }

  /** Reading the rows back gives the pixels that were written. */
  lemma ReadBack(buffer: seq<bv8>, l: Layout, pixels: seq<bv8>)
    requires Fits(l, |buffer|) && |pixels| == l.bytes
    ensures ReadRows(Written(buffer, l, pixels), l) == pixels
  {
    var w := Written(buffer, l, pixels);
    forall k | 0 <= k < l.bytes
      ensures ReadRows(w, l)[k] == pixels[k]
    {
      RowOf(l, k);
      WrittenRow(buffer, l, pixels, k / l.row, k % l.row);
    }
  }

  /** One more row: byte `i` is in it, or was already in the rows above, or is in neither. */
  lemma NextRow(buffer: seq<bv8>, l: Layout, pixels: seq<bv8>, y: nat, i: nat)
    requires Fits(l, |buffer|) && |pixels| == l.bytes && y < l.height && i < |buffer|
    ensures var above, below := l.(height := y, bytes := l.row * y), l.(height := y + 1, bytes := l.row * (y + 1));
            && Fits(above, |buffer|) && Fits(below, |buffer|) && above.bytes <= |pixels| && below.bytes <= |pixels|
            && Address(l, y, 0) >= 0 && Address(l, y, l.row) <= |buffer| && y * l.row + l.row <= |pixels|
            && Written(buffer, below, pixels)[i] ==
                 if Address(l, y, 0) <= i < Address(l, y, l.row) then pixels[y * l.row + (i - Address(l, y, 0))]
                 else Written(buffer, above, pixels)[i]
  {
    RowsBelow(l, |buffer|, y);
    var below := l.(height := y + 1, bytes := l.row * (y + 1));
    if Address(l, y, 0) <= i < Address(l, y, l.row) {
      WrittenRow(buffer, below, pixels, y, i - Address(l, y, 0));
    } else {
      OutsideRow(l, y, i);
    }
  }

  lemma OutsideRow(l: Layout, y: nat, i: nat)
    requires l.stride > 0 && !(Address(l, y, 0) <= i < Address(l, y, l.row))
    ensures InRows(l.(height := y), i) <==> InRows(l.(height := y + 1), i)
  {
    if l.offset <= i && (i - l.offset) / l.stride == y {
      assert i - l.offset == y * l.stride + (i - l.offset) % l.stride;
    }
  }

  lemma RowsBelow(l: Layout, len: nat, y: nat)
    requires Fits(l, len) && y < l.height
    ensures Fits(l.(height := y, bytes := l.row * y), len) && Fits(l.(height := y + 1, bytes := l.row * (y + 1)), len)
    ensures l.row * y + l.row == l.row * (y + 1) <= l.bytes
    ensures Address(l, y, 0) >= 0 && Address(l, y, l.row) <= len
  {
    MulMonotone(y + 1, l.height, l.row);
    MulMonotone(y, l.height - 1, l.stride);
    if y > 0 { MulMonotone(y - 1, l.height - 1, l.stride); }
    MulNat(y, l.stride);
  }

  method CopyRow(pixels: array<bv8>, src: nat, buffer: array<bv8>, dst: nat, row: nat)
    requires src + row <= pixels.Length && dst + row <= buffer.Length && pixels != buffer
    modifies buffer
    ensures forall i :: 0 <= i < buffer.Length ==>
      buffer[i] == if dst <= i < dst + row then pixels[src + (i - dst)] else old(buffer[i])
  {
    forall i | dst <= i < dst + row {
      buffer[i] := pixels[src + (i - dst)];
    }
  }

  method Write(buffer: array<bv8>, d: BufferData, width: int, height: int, pixels: array<bv8>, max: nat)
    returns (r: Result<()>)
    requires pixels != buffer
    modifies buffer
    ensures var l := LayoutOf(d, buffer.Length, width, height, max);
            && (r.Ok? <==> l.Ok? && pixels.Length == l.value.bytes)
            && (l.Err? ==> r == Err(l.error))
            && (l.Ok? && pixels.Length != l.value.bytes ==> r == Err(UnexpectedSize))
            && (r.Err? ==> buffer[..] == old(buffer[..]))
            && (r.Ok? ==> Fits(l.value, buffer.Length) && buffer[..] == Written(old(buffer[..]), l.value, pixels[..]))
  {
    var layout := LayoutOf(d, buffer.Length, width, height, max);
    if layout.Err? { return Err(layout.error); }
    var l := layout.value;
    if pixels.Length != l.bytes { return Err(UnexpectedSize); }
    LayoutFits(d, buffer.Length, width, height, max);
    ghost var was := buffer[..];
    WriteRows(buffer, l, pixels);
    r := Ok(());
  }

  method WriteRows(buffer: array<bv8>, l: Layout, pixels: array<bv8>)
    requires pixels != buffer && Fits(l, buffer.Length) && pixels.Length == l.bytes
    modifies buffer
    ensures buffer[..] == Written(old(buffer[..]), l, pixels[..])
  {
    ghost var was := buffer[..];
    var y := 0;
    while y < l.height
      invariant y <= l.height
      invariant Fits(l.(height := y, bytes := l.row * y), buffer.Length) && l.row * y <= l.bytes
      invariant buffer[..] == Written(was, l.(height := y, bytes := l.row * y), pixels[..])
    {
      RowsBelow(l, buffer.Length, y);
      MulNat(y, l.row);
      CopyRow(pixels, y * l.row, buffer, l.offset + y * l.stride, l.row);
      forall i | 0 <= i < buffer.Length
        ensures buffer[i] == Written(was, l.(height := y + 1, bytes := l.row * (y + 1)), pixels[..])[i]
      {
        NextRow(was, l, pixels[..], y, i);
      }
      y := y + 1;
    }
  }

  // ---- the rows of a framebuffer ----

  function SourceRow(y: nat, height: nat, flipped: bool): nat
    requires y < height
  {
    if flipped then y else height - 1 - y
  }

  lemma RowFits(row: nat, height: nat, y: nat)
    requires y < height
    ensures 0 <= y * row && y * row + row <= row * height
  {
    MulMonotone(y + 1, height, row);
    MulNat(y, row);
  }

  /** The mapped rows in upright order: as they are, or from the last to the first. */
  function Upright(mapped: seq<bv8>, row: nat, height: nat, flipped: bool): (r: seq<bv8>)
    requires |mapped| == row * height
    ensures |r| == |mapped|
  {
    if row == 0 then mapped
    else seq(row * height, k requires 0 <= k < row * height => MappedByte(mapped, row, height, flipped, k))
  }

  function MappedByte(mapped: seq<bv8>, row: nat, height: nat, flipped: bool, k: nat): bv8
    requires 0 < row && |mapped| == row * height && k < row * height
  {
    RowIndex(row, height, k);
    var y := SourceRow(k / row, height, flipped);
    PixelIndex(row, height, y, k % row);
    mapped[y * row + k % row]
  }

  lemma RowIndex(row: nat, height: nat, k: nat)
    requires row > 0 && k < row * height
    ensures k / row < height && k == k / row * row + k % row
  {
    if k / row >= height { MulMonotone(height, k / row, row); }
  }

  lemma UprightByte(mapped: seq<bv8>, row: nat, height: nat, flipped: bool, y: nat, x: nat)
    requires |mapped| == row * height && y < height && x < row
    ensures 0 <= y * row + x < |mapped| && 0 <= SourceRow(y, height, flipped) * row + x < |mapped|
    ensures Upright(mapped, row, height, flipped)[y * row + x] == mapped[SourceRow(y, height, flipped) * row + x]
  {
    PixelIndex(row, height, y, x);
    PixelIndex(row, height, SourceRow(y, height, flipped), x);
  }

  /** Reversing the rows twice gives the mapped image back. */
  lemma UprightTwice(mapped: seq<bv8>, row: nat, height: nat, flipped: bool)
    requires |mapped| == row * height
    ensures Upright(Upright(mapped, row, height, flipped), row, height, flipped) == mapped
  {
    var once := Upright(mapped, row, height, flipped);
    var twice := Upright(once, row, height, flipped);
    forall k | 0 <= k < |mapped|
      ensures twice[k] == mapped[k]
    {
      if row > 0 {
        RowIndex(row, height, k);
        UprightByte(once, row, height, flipped, k / row, k % row);
        UprightByte(mapped, row, height, flipped, SourceRow(k / row, height, flipped), k % row);
      }
    }
  }

  /** Byte `x` of row `y` comes from the same row of a flipped mapping, and otherwise from the
      row as far from the end as `y` is from the beginning. */
  predicate ShowsByte(pixels: seq<bv8>, mapped: seq<bv8>, row: nat, height: nat, flipped: bool, y: nat, x: nat) {
    var at, source := y * row + x, (if flipped then y else height - 1 - y) * row + x;
    0 <= at < |pixels| && 0 <= source < |mapped| && pixels[at] == mapped[source]
  }

  /** A whole capture: row `y` of the client's buffer is row `y` of the mapped image if that
      is flipped, and otherwise the row as far from its end as `y` is from the beginning. */
  lemma CapturedRow(buffer: seq<bv8>, l: Layout, mapped: seq<bv8>, flipped: bool, y: nat, x: nat)
    requires Fits(l, |buffer|) && |mapped| == l.bytes && y < l.height && x < l.row
    ensures var source := if flipped then y * l.row + x else (l.height - 1 - y) * l.row + x;
            && 0 <= l.offset + y * l.stride + x < |buffer| && 0 <= source < |mapped|
            && Written(buffer, l, Upright(mapped, l.row, l.height, flipped))[l.offset + y * l.stride + x] == mapped[source]
  {
    var pixels := Upright(mapped, l.row, l.height, flipped);
    WrittenRow(buffer, l, pixels, y, x);
    UprightByte(mapped, l.row, l.height, flipped, y, x);
  }

  /** The loop of `render`, for an output of `width` by `height` pixels. */
  method ReadRowsUpright(mapped: array<bv8>, width: nat, height: nat, flipped: bool, max: nat)
    returns (r: Result<array<bv8>>)
    ensures r.Ok? <==> width * height * 4 <= max && width * height * 4 <= LIMIT && mapped.Length == width * height * 4
    ensures r.Ok? ==> fresh(r.value) && mapped.Length == 4 * width * height == r.value.Length
                      && r.value[..] == Upright(mapped[..], 4 * width, height, flipped)
    ensures r.Ok? ==> forall y: nat, x: nat :: y < height && x < 4 * width ==>
              ShowsByte(r.value[..], mapped[..], 4 * width, height, flipped, y, x)
    ensures r.Err? && width * height * 4 <= max && width * height * 4 <= LIMIT ==> r == Err(UnexpectedSize)
  {
    MulNat(width, height);
    var bytes := width * height * 4;
    if bytes > max || bytes > LIMIT { return Err(TooLarge); }
    if mapped.Length != bytes { return Err(UnexpectedSize); }
    var pixels := new bv8[bytes](_ => 0);
    CopyRows(mapped, pixels, 4 * width, height, flipped);
    forall y: nat, x: nat | y < height && x < 4 * width
      ensures ShowsByte(pixels[..], mapped[..], 4 * width, height, flipped, y, x)
    {
      UprightByte(mapped[..], 4 * width, height, flipped, y, x);
    }
    r := Ok(pixels);
  }

  method CopyRows(mapped: array<bv8>, pixels: array<bv8>, stride: nat, height: nat, flipped: bool)
    requires mapped != pixels && mapped.Length == pixels.Length == stride * height
    modifies pixels
    ensures pixels[..] == Upright(mapped[..], stride, height, flipped)
  {
    ghost var target := Upright(mapped[..], stride, height, flipped);
    var y := 0;
    while y < height
      invariant y <= height
      invariant forall k :: 0 <= k < y * stride && k < pixels.Length ==> pixels[k] == target[k]
    {
      RowFits(stride, height, y);
      RowFits(stride, height, SourceRow(y, height, flipped));
      ghost var was := pixels[..];
      CopyRow(mapped, SourceRow(y, height, flipped) * stride, pixels, y * stride, stride);
      forall k | y * stride <= k < y * stride + stride
        ensures pixels[k] == target[k]
      {
        UprightByte(mapped[..], stride, height, flipped, y, k - y * stride);
      }
      assert forall k :: 0 <= k < y * stride ==> pixels[k] == was[k];
      assert (y + 1) * stride == y * stride + stride;
      y := y + 1;
    }
    assert pixels[..] == target;
  }
}
