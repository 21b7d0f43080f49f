/** The RGBA staging canvas of the GIF writer.

    A frame of `width` x `height` pixels is held as one flat byte sequence of
    `width * height * 4` bytes, row after row, four bytes (R, G, B, A) per
    pixel. It starts out all 255 (opaque white); each scanline write copies
    the `nchannels` bytes of every source pixel into the first `nchannels`
    bytes of the corresponding canvas pixel and leaves the others alone.
 */
module Canvas {

  type Byte = bv8

  /** Bytes per canvas pixel: the canvas is always RGBA. */
  const PixelBytes: int := 4

  /** The fill value of a fresh canvas. */
  const Opaque: Byte := 255

  /** Byte offset of the first byte of row `y`. */
  function RowStart(width: int, y: int): int {
    y * width * PixelBytes
  }

  /** Index of the source byte for canvas byte `k` of a row, when the source
      pixels are packed `nch` bytes apart. */
  function SrcIndex(k: int, nch: int): int {
    (k / PixelBytes) * nch + k % PixelBytes
  }

  /** A fresh canvas of `n` bytes. */
  function Blank(n: nat): (c: seq<Byte>)
    ensures |c| == n
    ensures AllOpaque(c)
  {
    seq(n, _ => Opaque)
  }

  ghost predicate AllOpaque(c: seq<Byte>) {
    forall i | 0 <= i < |c| :: c[i] == Opaque
  }

  /** Every alpha byte (the fourth byte of a pixel) is 255. */
  ghost predicate AlphaOpaque(c: seq<Byte>) {
    forall i | 0 <= i < |c| && i % PixelBytes == 3 :: c[i] == Opaque
  }

  predicate Channels(nch: int) {
    nch == 3 || nch == 4
  }

  /** `after` is `before` with the first `n` pixels starting at byte `base`
      overwritten, channel by channel, from the packed source `data`:
      channel `c` of pixel `x` takes `data[x * nch + c]` when `c < nch` and
      keeps its old value otherwise; every byte outside those pixels is kept. */
  ghost predicate RowCopied(before: seq<Byte>, after: seq<Byte>, base: int, n: int,
                            data: seq<Byte>, nch: int)
    requires Channels(nch) && 0 <= n && n * nch <= |data|
  {
    && |after| == |before|
    && forall i | 0 <= i < |before| ::
         after[i] == if base <= i < base + PixelBytes * n && (i - base) % PixelBytes < nch
                     then (SrcIndexBound(i - base, n, nch); data[SrcIndex(i - base, nch)])
                     else before[i]
  }

  lemma {:induction false} SrcIndexBound(k: int, n: int, nch: int)
    requires Channels(nch) && 0 <= k < PixelBytes * n && k % PixelBytes < nch
    ensures 0 <= SrcIndex(k, nch) < n * nch
  {
    assert k / PixelBytes <= n - 1;
    if nch == 3 {
      assert n * nch == 3 * n;
    } else {
      assert n * nch == 4 * n;
    }
  }

  /** Overwrites the bytes at `at .. at + |px|` with `px`. */
  function Store(c: seq<Byte>, at: int, px: seq<Byte>): (r: seq<Byte>)
    requires 0 <= at && at + |px| <= |c|
    ensures |r| == |c|
    ensures forall i | 0 <= i < |c| && !(at <= i < at + |px|) :: r[i] == c[i]
    ensures forall j | 0 <= j < |px| :: r[at + j] == px[j]
  {
    c[..at] + px + c[at + |px|..]
  }

  /** Copies the first `n` pixels of a packed `nch`-channel row into the canvas
      at byte `base`, one pixel at a time, as the same-type branch of the
      pixel conversion does. */
  function CopyPixels(canvas: seq<Byte>, base: int, data: seq<Byte>, nch: int, n: nat): (r: seq<Byte>)
    requires Channels(nch)
    requires 0 <= base && base + PixelBytes * n <= |canvas|
    requires n * nch <= |data|
    ensures RowCopied(canvas, r, base, n, data, nch)
    decreases n
  {
    if n == 0 then canvas
    else
      PixelSpan(n, nch);
      var prev := CopyPixels(canvas, base, data, nch, n - 1);
      var r := Store(prev, base + PixelBytes * (n - 1), data[(n - 1) * nch..n * nch]);
      CopiedOneMore(canvas, prev, r, base, n, data, nch);
      r
  }

  lemma {:induction false} PixelSpan(n: int, nch: int)
    requires Channels(nch) && 1 <= n
    ensures 0 <= (n - 1) * nch && (n - 1) * nch + nch == n * nch
  {
  }

  /** Storing pixel `n - 1` after the first `n - 1` extends the copied span
      by one pixel. */
  lemma {:induction false} CopiedOneMore(canvas: seq<Byte>, prev: seq<Byte>, r: seq<Byte>, base: int, n: int,
                      data: seq<Byte>, nch: int)
    requires Channels(nch) && 1 <= n && n * nch <= |data|
    requires 0 <= base && base + PixelBytes * n <= |canvas|
    requires (n - 1) * nch + nch == n * nch && 0 <= (n - 1) * nch
    requires RowCopied(canvas, prev, base, n - 1, data, nch)
    requires r == Store(prev, base + PixelBytes * (n - 1), data[(n - 1) * nch..n * nch])
    ensures RowCopied(canvas, r, base, n, data, nch)
  {
    var at := base + PixelBytes * (n - 1);
    var px := data[(n - 1) * nch..n * nch];
    forall i | 0 <= i < |canvas|
      ensures r[i] == if base <= i < base + PixelBytes * n && (i - base) % PixelBytes < nch
                      then (SrcIndexBound(i - base, n, nch); data[SrcIndex(i - base, nch)])
                      else canvas[i]
    {
      if at <= i < at + PixelBytes {
        PixelByte(canvas, prev, r, base, n, data, nch, i);
      } else {
        assert r[i] == prev[i];
      }
    }
  }

  lemma {:induction false} PixelByte(canvas: seq<Byte>, prev: seq<Byte>, r: seq<Byte>, base: int, n: int,
                  data: seq<Byte>, nch: int, i: int)
    requires Channels(nch) && 1 <= n && n * nch <= |data|
    requires 0 <= base && base + PixelBytes * n <= |canvas| == |prev|
    requires (n - 1) * nch + nch == n * nch && 0 <= (n - 1) * nch
    requires r == Store(prev, base + PixelBytes * (n - 1), data[(n - 1) * nch..n * nch])
    requires base + PixelBytes * (n - 1) <= i < base + PixelBytes * n
    requires i - base - PixelBytes * (n - 1) >= nch ==> prev[i] == canvas[i]
    ensures r[i] == if (i - base) % PixelBytes < nch
                    then (SrcIndexBound(i - base, n, nch); data[SrcIndex(i - base, nch)])
                    else canvas[i]
  {
    var at := base + PixelBytes * (n - 1);
    var px := data[(n - 1) * nch..n * nch];
    var j := i - at;
    assert (i - base) / PixelBytes == n - 1 && (i - base) % PixelBytes == j;
    if j < nch {
      assert r[at + j] == px[j];
      assert SrcIndex(i - base, nch) == (n - 1) * nch + j;
    } else {
      assert r[i] == prev[i];
    }
  }

  /** Row `y` of a `width` x `height` canvas fits inside it. */
  lemma {:induction false} RowFits(width: nat, height: nat, y: int)
    requires 0 <= y < height
    ensures 0 <= RowStart(width, y)
    ensures RowStart(width, y) + PixelBytes * width <= width * height * PixelBytes
  {
    assert RowStart(width, y) + PixelBytes * width == (y + 1) * (width * PixelBytes);
    assert (y + 1) * (width * PixelBytes) <= height * (width * PixelBytes) by {
      MulLeMono(y + 1, height, width * PixelBytes);
    }
  }

  lemma {:induction false} MulLeMono(a: int, b: int, m: nat)
    requires a <= b
    ensures a * m <= b * m
  {
  }

  /** Row `y1` lies entirely before row `y2` when `y1 < y2`. */
  lemma {:induction false} RowsOrdered(width: nat, y1: int, y2: int)
    requires y1 < y2
    ensures RowStart(width, y1) + PixelBytes * width <= RowStart(width, y2)
  {
    assert RowStart(width, y1) + PixelBytes * width == (y1 + 1) * (width * PixelBytes);
    MulLeMono(y1 + 1, y2, width * PixelBytes);
  }

  lemma {:induction false} RowStartAligned(width: nat, y: int)
    ensures RowStart(width, y) % PixelBytes == 0
  {
    assert RowStart(width, y) == (y * width) * PixelBytes;
  }

  /** A canvas of the right size for a `width` x `height` frame. */
  predicate Sized(canvas: seq<Byte>, width: nat, height: nat) {
    |canvas| == width * height * PixelBytes
  }

  /** One scanline write request: row index and packed source pixels. */
  datatype RowWrite = RowWrite(y: int, data: seq<Byte>)

  /** A row write with no bounds check behind it: the row lies inside the
      canvas and the data holds a full row of packed pixels. */
  predicate WriteFits(w: RowWrite, width: nat, height: nat, nch: int) {
    0 <= w.y < height && |w.data| >= width * nch
  }

  /** Copies one packed scanline into row `y` of the canvas. */
  function PutRow(canvas: seq<Byte>, width: nat, height: nat, nch: int, w: RowWrite): (r: seq<Byte>)
    requires Sized(canvas, width, height) && Channels(nch) && WriteFits(w, width, height, nch)
    ensures Sized(r, width, height)
    ensures RowCopied(canvas, r, RowStart(width, w.y), width, w.data, nch)
  {
    RowFits(width, height, w.y);
    CopyPixels(canvas, RowStart(width, w.y), w.data, nch, width)
  }

  predicate AllFit(writes: seq<RowWrite>, width: nat, height: nat, nch: int) {
    forall i | 0 <= i < |writes| :: WriteFits(writes[i], width, height, nch)
  }

  /** Applies a sequence of scanline writes, first to last. */
  function Paint(canvas: seq<Byte>, width: nat, height: nat, nch: int, writes: seq<RowWrite>): (r: seq<Byte>)
    requires Sized(canvas, width, height) && Channels(nch) && AllFit(writes, width, height, nch)
    ensures Sized(r, width, height)
    decreases |writes|
  {
    if writes == [] then canvas
    else Paint(PutRow(canvas, width, height, nch, writes[0]), width, height, nch, writes[1..])
  }
}

/** Properties of scanline writes into the staging canvas. */
module CanvasFacts {
  import opened Canvas

  /** Two copies into the same span: the second one decides every byte the
      copies touch, and the bytes they do not touch are the original ones. */
  lemma {:induction false} CopyOverCopy(c: seq<Byte>, once: seq<Byte>, twice: seq<Byte>, direct: seq<Byte>,
                                        base: int, n: int, d1: seq<Byte>, d2: seq<Byte>, nch: int)
    requires Channels(nch) && 0 <= n && n * nch <= |d1| && n * nch <= |d2|
    requires RowCopied(c, once, base, n, d1, nch)
    requires RowCopied(once, twice, base, n, d2, nch)
    requires RowCopied(c, direct, base, n, d2, nch)
    ensures twice == direct
  {
    forall i | 0 <= i < |c|
      ensures twice[i] == direct[i]
    {
      if !(base <= i < base + PixelBytes * n && (i - base) % PixelBytes < nch) {
        assert twice[i] == once[i] == c[i];
      }
    }
  }

  /** Two copies into spans that do not overlap give the same result in
      either order. */
  lemma {:induction false} DisjointCopies(c: seq<Byte>, a: seq<Byte>, ab: seq<Byte>, b: seq<Byte>, ba: seq<Byte>,
                                          baseA: int, baseB: int, n: int, da: seq<Byte>, db: seq<Byte>, nch: int)
    requires Channels(nch) && 0 <= n && n * nch <= |da| && n * nch <= |db|
    requires baseA + PixelBytes * n <= baseB || baseB + PixelBytes * n <= baseA
    requires RowCopied(c, a, baseA, n, da, nch) && RowCopied(a, ab, baseB, n, db, nch)
    requires RowCopied(c, b, baseB, n, db, nch) && RowCopied(b, ba, baseA, n, da, nch)
    ensures ab == ba
  {
    forall i | 0 <= i < |c|
      ensures ab[i] == ba[i]
    {
    }
  }

  /** Writing the same row twice leaves what the second write put there:
      every byte the first write touched is either rewritten or restored to
      the value it would have had without it. */
  lemma {:induction false} RewriteRowLastWins(c: seq<Byte>, width: nat, height: nat, nch: int,
                                              y: int, d1: seq<Byte>, d2: seq<Byte>)
    requires Sized(c, width, height) && Channels(nch)
    requires WriteFits(RowWrite(y, d1), width, height, nch) && WriteFits(RowWrite(y, d2), width, height, nch)
    ensures PutRow(PutRow(c, width, height, nch, RowWrite(y, d1)), width, height, nch, RowWrite(y, d2))
         == PutRow(c, width, height, nch, RowWrite(y, d2))
  {
    var once := PutRow(c, width, height, nch, RowWrite(y, d1));
    CopyOverCopy(c, once, PutRow(once, width, height, nch, RowWrite(y, d2)),
                 PutRow(c, width, height, nch, RowWrite(y, d2)), RowStart(width, y), width, d1, d2, nch);
  }

  /** Writes to two different rows commute: rows may arrive in any order. */
  lemma {:induction false} DistinctRowsCommute(c: seq<Byte>, width: nat, height: nat, nch: int,
                                               a: RowWrite, b: RowWrite)
    requires Sized(c, width, height) && Channels(nch)
    requires WriteFits(a, width, height, nch) && WriteFits(b, width, height, nch)
    requires a.y != b.y
    ensures PutRow(PutRow(c, width, height, nch, a), width, height, nch, b)
         == PutRow(PutRow(c, width, height, nch, b), width, height, nch, a)
  {
    var ca := PutRow(c, width, height, nch, a);
    var cb := PutRow(c, width, height, nch, b);
    if a.y < b.y {
      RowsOrdered(width, a.y, b.y);
    } else {
      RowsOrdered(width, b.y, a.y);
    }
    DisjointCopies(c, ca, PutRow(ca, width, height, nch, b), cb, PutRow(cb, width, height, nch, a),
                   RowStart(width, a.y), RowStart(width, b.y), width, a.data, b.data, nch);
  }

  /** With three source channels the alpha byte of every pixel is never
      written, so it keeps whatever the canvas held. */
  lemma {:induction false} ThreeChannelRowKeepsAlpha(c: seq<Byte>, width: nat, height: nat, w: RowWrite)
    requires Sized(c, width, height) && WriteFits(w, width, height, 3)
    ensures var r := PutRow(c, width, height, 3, w);
            forall i | 0 <= i < |c| && i % PixelBytes == 3 :: r[i] == c[i]
  {
    var r := PutRow(c, width, height, 3, w);
    var base := RowStart(width, w.y);
    RowStartAligned(width, w.y);
    forall i | 0 <= i < |c| && i % PixelBytes == 3
      ensures r[i] == c[i]
    {
      AlignedShift(i, base);
    }
  }

  /** Shifting by a multiple of the pixel size keeps the channel. */
  lemma {:induction false} AlignedShift(i: int, base: int)
    requires base % PixelBytes == 0
    ensures (i - base) % PixelBytes == i % PixelBytes
  {
    var q := base / PixelBytes;
    assert base == PixelBytes * q;
    assert i - base == PixelBytes * (i / PixelBytes - q) + i % PixelBytes;
  }

  /** Any sequence of three-channel writes into a fresh canvas yields a frame
      whose every alpha byte is 255. */
  lemma {:induction false} ThreeChannelAlphaOpaque(c: seq<Byte>, width: nat, height: nat, writes: seq<RowWrite>)
    requires Sized(c, width, height) && AllFit(writes, width, height, 3)
    requires AlphaOpaque(c)
    ensures AlphaOpaque(Paint(c, width, height, 3, writes))
    decreases |writes|
  {
    if writes != [] {
      ThreeChannelRowKeepsAlpha(c, width, height, writes[0]);
      ThreeChannelAlphaOpaque(PutRow(c, width, height, 3, writes[0]), width, height, writes[1..]);
    }
  }

  /** Concatenation of rows, first row first. */
  function Flatten(rows: seq<seq<Byte>>): seq<Byte>
    decreases |rows|
  {
    if rows == [] then [] else Flatten(rows[..|rows| - 1]) + rows[|rows| - 1]
  }

  /** Every row is `width` packed RGBA pixels. */
  predicate RgbaRows(rows: seq<seq<Byte>>, width: nat) {
    forall y | 0 <= y < |rows| :: |rows[y]| == PixelBytes * width
  }

  /** The writes that deliver `rows[0]`, `rows[1]`, ... to rows 0, 1, ... */
  function InOrder(rows: seq<seq<Byte>>): (ws: seq<RowWrite>)
    ensures |ws| == |rows|
    ensures forall y | 0 <= y < |rows| :: ws[y] == RowWrite(y, rows[y])
  {
    seq(|rows|, y requires 0 <= y < |rows| => RowWrite(y, rows[y]))
  }

  lemma {:induction false} FlattenLength(rows: seq<seq<Byte>>, width: nat)
    requires RgbaRows(rows, width)
    ensures |Flatten(rows)| == RowStart(width, |rows|)
    decreases |rows|
  {
    if rows != [] {
      FlattenLength(rows[..|rows| - 1], width);
      assert RowStart(width, |rows|) == RowStart(width, |rows| - 1) + PixelBytes * width;
    }
  }

  lemma {:induction false} FrameBytes(width: nat, height: nat, k: int)
    requires 0 <= k <= height
    ensures 0 <= (height - k) * width * PixelBytes
    ensures RowStart(width, k) + (height - k) * width * PixelBytes == width * height * PixelBytes
  {
    MulLeMono(0, height - k, width * PixelBytes);
    assert (height - k) * width * PixelBytes == height * width * PixelBytes - k * width * PixelBytes;
  }

  /** The canvas after rows `0 .. k-1` of a frame were written in order
      from four-channel data: those rows, then untouched white. */
  function Partial(rows: seq<seq<Byte>>, width: nat, height: nat, k: int): seq<Byte>
    requires 0 <= k <= height && k <= |rows|
  {
    FrameBytes(width, height, k);
    Flatten(rows[..k]) + Blank((height - k) * width * PixelBytes)
  }

  /** Writing row `k` of four-channel data after rows `0 .. k-1` extends
      the written prefix by exactly that row. */
  lemma {:induction false} RoundTripStep(rows: seq<seq<Byte>>, width: nat, height: nat, k: int)
    requires |rows| == height && RgbaRows(rows, width) && 0 <= k < height
    ensures Sized(Partial(rows, width, height, k), width, height)
    ensures PutRow(Partial(rows, width, height, k), width, height, 4, RowWrite(k, rows[k]))
         == Partial(rows, width, height, k + 1)
  {
    FrameBytes(width, height, k);
    FrameBytes(width, height, k + 1);
    FlattenLength(rows[..k], width);
    var before := Partial(rows, width, height, k);
    var after := PutRow(before, width, height, 4, RowWrite(k, rows[k]));
    assert rows[..k + 1][..k] == rows[..k];
    var want := Partial(rows, width, height, k + 1);
    assert want == Flatten(rows[..k]) + rows[k] + Blank((height - k - 1) * width * PixelBytes);
    var base := RowStart(width, k);
    assert RowStart(width, k + 1) == base + PixelBytes * width;
    forall i | 0 <= i < |before|
      ensures after[i] == want[i]
    {
      if base <= i < base + PixelBytes * width {
        assert SrcIndex(i - base, 4) == i - base;
      }
    }
  }

  /** The writes for rows `k ..` all fit a `width` x `height` frame. */
  lemma {:induction false} InOrderFits(rows: seq<seq<Byte>>, width: nat, height: nat, k: int)
    requires |rows| == height && RgbaRows(rows, width) && 0 <= k <= height
    ensures AllFit(InOrder(rows)[k..], width, height, 4)
  {
    var ws := InOrder(rows)[k..];
    forall i | 0 <= i < |ws| ensures WriteFits(ws[i], width, height, 4) {
      assert ws[i] == RowWrite(k + i, rows[k + i]);
    }
  }

  /** Painting a non-empty list of writes is painting its first one, then
      the rest. */
  lemma {:induction false} PaintCons(c: seq<Byte>, width: nat, height: nat, nch: int, ws: seq<RowWrite>)
    requires Sized(c, width, height) && Channels(nch) && AllFit(ws, width, height, nch) && ws != []
    ensures AllFit(ws[1..], width, height, nch)
    ensures Paint(c, width, height, nch, ws)
         == Paint(PutRow(c, width, height, nch, ws[0]), width, height, nch, ws[1..])
  {
  }

  lemma {:induction false} PaintRowsFrom(rows: seq<seq<Byte>>, width: nat, height: nat, k: int)
    requires |rows| == height && RgbaRows(rows, width) && 0 <= k <= height
    ensures Sized(Partial(rows, width, height, k), width, height)
    ensures AllFit(InOrder(rows)[k..], width, height, 4)
    ensures Paint(Partial(rows, width, height, k), width, height, 4, InOrder(rows)[k..]) == Flatten(rows)
    decreases height - k
  {
    FrameBytes(width, height, k);
    FlattenLength(rows[..k], width);
    InOrderFits(rows, width, height, k);
    var ws := InOrder(rows)[k..];
    if k == height {
      assert rows[..k] == rows;
      assert Blank(0) == [];
      assert ws == [];
    } else {
      RoundTripStep(rows, width, height, k);
      PaintRowsFrom(rows, width, height, k + 1);
      assert ws[0] == RowWrite(k, rows[k]) && ws[1..] == InOrder(rows)[k + 1..];
      PaintCons(Partial(rows, width, height, k), width, height, 4, ws);
    }
  }

  /** Writing every row of a frame, in order, from four-channel data hands the
      encoder exactly the bytes written: the canvas is the rows concatenated. */
  lemma {:induction false} FullFrameRoundTrip(rows: seq<seq<Byte>>, width: nat, height: nat)
    requires |rows| == height && RgbaRows(rows, width)
    ensures AllFit(InOrder(rows), width, height, 4)
    ensures Paint(Blank(width * height * PixelBytes), width, height, 4, InOrder(rows)) == Flatten(rows)
  {
    PaintRowsFrom(rows, width, height, 0);
    assert rows[..0] == [];
    assert InOrder(rows)[0..] == InOrder(rows);
    assert (height - 0) * width * PixelBytes == width * height * PixelBytes;
    assert Partial(rows, width, height, 0) == Blank(width * height * PixelBytes);
  }
}
