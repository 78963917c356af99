/** The scanlines a PNG header promises (`scripts/check-test-evidence.py`, `png_rows`). */
module PngHeader {
  import opened Bytes
  import opened Results

  const MAX_PNG_DECODED_BYTES: nat := 128 * 1024 * 1024

  /** One interlace pass: where it starts and how far apart its pixels are. */
  datatype Pass = Pass(x: nat, y: nat, dx: Step, dy: Step)

  type Step = n: nat | n > 0 witness 1

  /** Scanlines of one nonempty pass: how many, and the bytes of each. */
  datatype Rows = Rows(lines: nat, stride: nat)

  datatype Header = Header(rows: seq<Rows>, color: nat, depth: nat)

  const ADAM7: seq<Pass> := [
    Pass(0, 0, 8, 8), Pass(4, 0, 8, 8), Pass(0, 4, 4, 8), Pass(2, 0, 4, 4),
    Pass(0, 2, 2, 4), Pass(1, 0, 2, 2), Pass(0, 1, 1, 2)]
  const WHOLE: seq<Pass> := [Pass(0, 0, 1, 1)]

  /** `max(0, (size - start + step - 1) // step)`. */
  function Count(size: nat, start: nat, step: Step): nat {
    Max(0, (size - start + step - 1) / step)
  }

  function Depths(color: int): set<int> {
    if color == 0 then {1, 2, 4, 8, 16}
    else if color == 3 then {1, 2, 4, 8}
    else if color in {2, 4, 6} then {8, 16} else {}
  }

  function Channels(color: int): nat {
    if color == 2 then 3 else if color == 4 then 2 else if color == 6 then 4 else 1
  }

  /** A colour type's bits: 1 for a palette, 2 for colour, 4 for an alpha channel. */
  predicate HasBit(color: int, bit: int)
    requires bit > 0
  {
    color / bit % 2 == 1
  }

  /** Samples are one for a palette entry or a grey, three for a colour, one more for
      alpha; several take whole bytes, and a palette entry at most one. */
  lemma SampleFormat(color: int, depth: int)
    ensures depth in Depths(color) <==>
            && 0 <= color < 8 && (HasBit(color, 1) ==> HasBit(color, 2) && !HasBit(color, 4))
            && depth in {1, 2, 4, 8, 16}
            && (HasBit(color, 1) ==> depth <= 8) && (Channels(color) > 1 ==> depth >= 8)
    ensures Depths(color) != {} ==>
              Channels(color) ==
              (if HasBit(color, 2) && !HasBit(color, 1) then 3 else 1) + if HasBit(color, 4) then 1 else 0
  {
    assert 0 <= color < 8 ==> color in {0, 1, 2, 3, 4, 5, 6, 7};
    assert Depths(color) != {} ==> color in {0, 2, 3, 4, 6};
  }

  /** The nonempty passes' scanlines, in order. */
  function RowsOf(passes: seq<Pass>, width: nat, height: nat, bits: nat): seq<Rows> {
    if passes == [] then []
    else
      var p := passes[|passes| - 1];
      var columns, lines := Count(width, p.x, p.dx), Count(height, p.y, p.dy);
      RowsOf(passes[..|passes| - 1], width, height, bits)
      + if columns > 0 && lines > 0 then [Rows(lines, (columns * bits + 7) / 8)] else []
  }

  /** Decoded bytes: each scanline has a filter byte. */
  function DecodedBytes(rows: seq<Rows>): nat {
    if rows == [] then 0
    else DecodedBytes(rows[..|rows| - 1]) + rows[|rows| - 1].lines * (rows[|rows| - 1].stride + 1)
  }

  predicate IsHeader(
    width: nat, height: nat, depth: int, color: int, compression: int, filtering: int, interlace: int)
  {
    && 0 < width < 0x8000_0000 && 0 < height < 0x8000_0000
    && depth in Depths(color) && compression == 0 && filtering == 0 && interlace in {0, 1}
  }

  function Passes(interlace: int): seq<Pass> {
    if interlace != 0 then ADAM7 else WHOLE
  }

  function ParseHeader(header: ByteString): Option<Header>
    requires |header| == 13
  {
    var width, height := ReadBigEndian(header[..4]), ReadBigEndian(header[4..8]);
    var depth, color := header[8], header[9];
    if !IsHeader(width, height, depth, color, header[10], header[11], header[12]) then None
    else
      var rows := RowsOf(Passes(header[12]), width, height, Channels(color) * depth);
      if DecodedBytes(rows) > MAX_PNG_DECODED_BYTES then None else Some(Header(rows, color, depth))
  }

  function FromBytes(a: nat, b: nat, c: nat, d: nat): nat { ((a * 256 + b) * 256 + c) * 256 + d }

  /** What a header is refused for, field by field: the two sizes, the depth for the colour
      type, the two methods, the interlacing, and an image too large once decoded. */
  lemma HeaderExact(header: ByteString)
    requires |header| == 13
    ensures var width := FromBytes(header[0], header[1], header[2], header[3]);
            var height := FromBytes(header[4], header[5], header[6], header[7]);
            var passes := if header[12] == 1 then ADAM7 else WHOLE;
            var rows := RowsOf(passes, width, height, Channels(header[9]) * header[8]);
            ParseHeader(header) ==
            if 1 <= width <= 2147483647 && 1 <= height <= 2147483647 && header[8] in Depths(header[9])
               && header[10] == 0 && header[11] == 0 && header[12] <= 1 && DecodedBytes(rows) <= 134217728
            then Some(Header(rows, header[9], header[8])) else None
  {
    hide RowsOf, DecodedBytes, Depths, Channels;
    FourBytes(header[..4]);
    FourBytes(header[4..8]);
  }

  lemma FourBytes(s: ByteString)
    requires |s| == 4
    ensures ReadBigEndian(s) == FromBytes(s[0], s[1], s[2], s[3])
  {
    assert s[..3][..2] == s[..2] && s[..2][..1] == s[..1] && s[..1][..0] == [];
    assert ReadBigEndian(s[..1]) == s[0];
    assert ReadBigEndian(s[..2]) == ReadBigEndian(s[..1]) * 256 + s[1];
    assert ReadBigEndian(s[..3]) == ReadBigEndian(s[..2]) * 256 + s[2];
  }

  /** `png_rows`. */
  method PngRows(header: ByteString) returns (r: Option<Header>)
    requires |header| == 13
    ensures r == ParseHeader(header)
    ensures r.Some? ==> HoldImage(r.value.rows, header)
  {
    hide ReadBigEndian, Count, IsHeader, Passes, Channels, HoldImage;
    var width, height := ReadBigEndian(header[..4]), ReadBigEndian(header[4..8]);
    var depth, color := header[8], header[9];
    if !IsHeader(width, height, depth, color, header[10], header[11], header[12]) {
      return None;
    }
    var channels := Channels(color);
    var passes := Passes(header[12]);
    var rows: seq<Rows> := [];
    var total := 0;
    for i := 0 to |passes|
      invariant rows == RowsOf(passes[..i], width, height, channels * depth)
      invariant total == DecodedBytes(rows)
    {
      var p := passes[i];
      var columns, lines := Count(width, p.x, p.dx), Count(height, p.y, p.dy);
      assert passes[..i + 1][..i] == passes[..i] && passes[..i + 1][i] == p;
      if columns != 0 && lines != 0 {
        var row := Rows(lines, (columns * (channels * depth) + 7) / 8);
        assert (rows + [row])[..|rows|] == rows;
        rows := rows + [row];
        total := total + row.lines * (row.stride + 1);
      }
    }
    assert passes[..|passes|] == passes;
    if total > MAX_PNG_DECODED_BYTES {
      return None;
    }
    r := Some(Header(rows, color, depth));
    RowsHoldEveryPixel(header);
  }

  // The positions of one pass.

  /** `i` is `start`, or a whole number of steps after it. */
  predicate OnGrid(i: int, start: nat, step: Step) { i >= start && (i - start) % step == 0 }

  predicate OnPass(p: Pass, i: int, j: int) { OnGrid(i, p.x, p.dx) && OnGrid(j, p.y, p.dy) }

  /** The `k`th position of a grid lies before `size` exactly for `k` below the count. */
  lemma CountExact(size: nat, start: nat, step: Step, k: nat)
    ensures k < Count(size, start, step) <==> start + k * step < size
  {
    var total := size - start + step - 1;
    if total < 0 {
      Negative(total, step);
      assert k * step >= 0;
    } else {
      var n := total / step;
      Quotient(total, step);
      if k < n {
        Product(k + 1, n, step);
      } else {
        Product(n, k, step);
      }
    }
  }

  lemma Negative(total: int, step: Step)
    requires total < 0
    ensures total / step <= 0
  {
    var q := total / step;
    assert q * step + total % step == total;
    Product(0, q, step);
  }

  lemma Quotient(total: nat, step: Step)
    ensures total / step * step <= total < total / step * step + step
  {
  }

  lemma Product(a: int, b: int, step: Step)
    ensures a <= b ==> a * step <= b * step
    ensures (a + 1) * step == a * step + step
  {
  }

  /** Every position of the grid is its `k`th for one `k`. */
  lemma GridIndex(i: int, start: nat, step: Step)
    requires OnGrid(i, start, step)
    ensures i == start + (i - start) / step * step && (i - start) / step >= 0
  {
  }

  function Positions(size: nat, start: nat, step: Step): set<int> {
    set i | 0 <= i < size && OnGrid(i, start, step)
  }

  function FirstPositions(start: nat, step: Step, n: nat): set<int> {
    if n == 0 then {} else FirstPositions(start, step, n - 1) + {start + (n - 1) * step}
  }

  lemma {:induction false} FirstPositionsAre(start: nat, step: Step, n: nat)
    ensures |FirstPositions(start, step, n)| == n
    ensures forall i :: i in FirstPositions(start, step, n) <==> OnGrid(i, start, step) && i < start + n * step
  {
    if n > 0 {
      FirstPositionsAre(start, step, n - 1);
      var last := start + (n - 1) * step;
      Product(n - 1, n, step);
      NextOnGrid(start, step, n);
      assert last !in FirstPositions(start, step, n - 1);
    }
  }

  lemma NextOnGrid(start: nat, step: Step, n: nat)
    requires n > 0
    ensures forall i :: OnGrid(i, start, step) && i < start + n * step <==>
                        (OnGrid(i, start, step) && i < start + (n - 1) * step) || i == start + (n - 1) * step
  {
    Multiple(n - 1, step);
    forall i | OnGrid(i, start, step) && start + (n - 1) * step <= i < start + n * step
      ensures i == start + (n - 1) * step
    {
      GridIndex(i, start, step);
      var k := (i - start) / step;
      if k > n - 1 {
        Product(n, k, step);
      } else {
        Product(k, n - 1, step);
      }
    }
  }

  lemma Multiple(k: nat, step: Step)
    ensures k * step % step == 0 && k * step >= 0 && (k + 1) * step == k * step + step
  {
    var q := k * step / step;
    Product(0, k, step);
    Quotient(k * step, step);
    Product(q + 1, k, step);
    Product(k + 1, q, step);
    Product(q, k, step);
    Product(k, q, step);
  }

  /** `Count` is how many positions of the grid there are. */
  lemma CountIsPositions(size: nat, start: nat, step: Step)
    ensures |Positions(size, start, step)| == Count(size, start, step)
  {
    var n := Count(size, start, step);
    FirstPositionsAre(start, step, n);
    forall i ensures i in Positions(size, start, step) <==> i in FirstPositions(start, step, n) {
      if OnGrid(i, start, step) {
        GridIndex(i, start, step);
        var k := (i - start) / step;
        CountExact(size, start, step, k);
        if k < n {
          Product(k + 1, n, step);
        } else {
          Product(n, k, step);
        }
      }
    }
    assert Positions(size, start, step) == FirstPositions(start, step, n);
  }

  // The interlaced passes hold every pixel once.

  function PixelsIn(passes: seq<Pass>, width: nat, height: nat): nat {
    if passes == [] then 0
    else Count(width, passes[0].x, passes[0].dx) * Count(height, passes[0].y, passes[0].dy)
         + PixelsIn(passes[1..], width, height)
  }

  lemma Eighths(n: nat)
    ensures (n + 7) / 8 + (n + 3) / 8 == (n + 3) / 4
  {
    var q, r := n / 8, n % 8;
    assert n == 8 * q + r;
    assert (n + 7) / 8 == q + (r + 7) / 8 && (n + 3) / 8 == q + (r + 3) / 8 && (n + 3) / 4 == 2 * q + (r + 3) / 4;
  }

  lemma Quarters(n: nat)
    ensures (n + 3) / 4 + (n + 1) / 4 == (n + 1) / 2
  {
    var q, r := n / 4, n % 4;
    assert n == 4 * q + r;
    assert (n + 3) / 4 == q + (r + 3) / 4 && (n + 1) / 4 == q + (r + 1) / 4 && (n + 1) / 2 == 2 * q + (r + 1) / 2;
  }

  /** A finer grid is the coarser one and its odd positions. */
  lemma Halves(size: nat)
    ensures Count(size, 0, 8) + Count(size, 4, 8) == Count(size, 0, 4)
    ensures Count(size, 0, 4) + Count(size, 2, 4) == Count(size, 0, 2)
    ensures Count(size, 0, 2) + Count(size, 1, 2) == Count(size, 0, 1) == size
  {
    Eighths(size);
    Quarters(size);
  }

  lemma Distribute(a: nat, b: nat, c: nat)
    ensures a * c + b * c == (a + b) * c && c * a + c * b == c * (a + b)
  {
  }

  /** Pixels are conserved: whatever the interlacing, the passes of an image
      together hold exactly its width times its height. */
  lemma PassesHoldEveryPixel(width: nat, height: nat, interlace: int)
    ensures PixelsIn(Passes(interlace), width, height) == width * height
  {
    Halves(width);
    Halves(height);
    if interlace != 0 {
      var a0, a4, b0, b2 := Count(width, 0, 8), Count(width, 4, 8), Count(width, 0, 4), Count(width, 2, 4);
      var c0, c1 := Count(width, 0, 2), Count(width, 1, 2);
      var h0, h4, i0, i2 := Count(height, 0, 8), Count(height, 4, 8), Count(height, 0, 4), Count(height, 2, 4);
      var j0, j1 := Count(height, 0, 2), Count(height, 1, 2);
      Adam7Sum(width, height);
      Distribute(a0, a4, h0);
      Distribute(h0, h4, b0);
      Distribute(b0, b2, i0);
      Distribute(i0, i2, c0);
      Distribute(c0, c1, j0);
      Distribute(j0, j1, width);
    } else {
      assert WHOLE[1..] == [];
    }
  }

  lemma Adam7Sum(w: nat, h: nat)
    ensures PixelsIn(ADAM7, w, h)
            == Count(w, 0, 8) * Count(h, 0, 8) + Count(w, 4, 8) * Count(h, 0, 8) + Count(w, 0, 4) * Count(h, 4, 8)
               + Count(w, 2, 4) * Count(h, 0, 4) + Count(w, 0, 2) * Count(h, 2, 4) + Count(w, 1, 2) * Count(h, 0, 2)
               + Count(w, 0, 1) * Count(h, 1, 2)
  {
    hide Count;
    assert ADAM7[1..] == [
        Pass(4, 0, 8, 8), Pass(0, 4, 4, 8), Pass(2, 0, 4, 4), Pass(0, 2, 2, 4), Pass(1, 0, 2, 2), Pass(0, 1, 1, 2)];
    PixelsUnfold(ADAM7, w, h);
    PixelsUnfold(ADAM7[1..], w, h);
    PixelsUnfold(ADAM7[1..][1..], w, h);
    PixelsUnfold(ADAM7[1..][1..][1..], w, h);
    PixelsUnfold(ADAM7[1..][1..][1..][1..], w, h);
    PixelsUnfold(ADAM7[1..][1..][1..][1..][1..], w, h);
    PixelsUnfold(ADAM7[1..][1..][1..][1..][1..][1..], w, h);
  }

  lemma PixelsUnfold(passes: seq<Pass>, w: nat, h: nat)
    requires passes != []
    ensures PixelsIn(passes, w, h)
            == Count(w, passes[0].x, passes[0].dx) * Count(h, passes[0].y, passes[0].dy) + PixelsIn(passes[1..], w, h)
  {
  }

  /** The last three bits of a position tell which of the grids it is on. */
  lemma Residue(i: nat)
    ensures OnGrid(i, 0, 8) <==> i % 8 == 0
    ensures OnGrid(i, 4, 8) <==> i % 8 == 4
    ensures OnGrid(i, 0, 4) <==> i % 8 % 4 == 0
    ensures OnGrid(i, 2, 4) <==> i % 8 % 4 == 2
    ensures OnGrid(i, 0, 2) <==> i % 8 % 2 == 0
    ensures OnGrid(i, 1, 2) <==> i % 8 % 2 == 1
    ensures OnGrid(i, 0, 1)
  {
    hide OnGrid;
    var q, x := i / 8, i % 8;
    assert i == 8 * q + x;
    ResidueBy8(q, x);
    ResidueBy4(q, x);
    ResidueBy2(q, x);
  }

  lemma ResidueBy8(q: nat, x: nat)
    requires x < 8
    ensures OnGrid(8 * q + x, 0, 8) <==> x == 0
    ensures OnGrid(8 * q + x, 4, 8) <==> x == 4
  {
    Eight(q, x);
    if x >= 4 {
      Eight(q, x - 4);
    } else {
      assert 8 * q + x - 4 == 8 * (q - 1) + (x + 4);
      Eight(q - 1, x + 4);
    }
  }

  lemma Eight(h: int, b: int)
    requires 0 <= b < 8
    ensures (8 * h + b) % 8 == b
  {
  }

  lemma ResidueBy4(q: nat, x: nat)
    requires x < 8
    ensures OnGrid(8 * q + x, 0, 4) <==> x % 4 == 0
    ensures OnGrid(8 * q + x, 2, 4) <==> x % 4 == 2
  {
    var h, b := 2 * q + x / 4, x % 4;
    assert 8 * q + x == 4 * h + b;
    Four(h, b);
    if b >= 2 {
      assert 8 * q + x - 2 == 4 * h + (b - 2);
      Four(h, b - 2);
    } else {
      assert 8 * q + x - 2 == 4 * (h - 1) + (b + 2);
      Four(h - 1, b + 2);
    }
  }

  lemma Four(h: int, b: int)
    requires 0 <= b < 4
    ensures (4 * h + b) % 4 == b
  {
  }

  lemma ResidueBy2(q: nat, x: nat)
    requires x < 8
    ensures OnGrid(8 * q + x, 0, 2) <==> x % 2 == 0
    ensures OnGrid(8 * q + x, 1, 2) <==> x % 2 == 1
    ensures OnGrid(8 * q + x, 0, 1)
  {
    var h := 4 * q + x / 2;
    if x % 2 == 0 {
      assert 8 * q + x == 2 * h && 8 * q + x - 1 == 2 * (h - 1) + 1;
      Parity(h);
      Parity(h - 1);
    } else {
      assert 8 * q + x == 2 * h + 1 && 8 * q + x - 1 == 2 * h;
      Parity(h);
    }
  }

  lemma Parity(h: int)
    ensures 2 * h % 2 == 0 && (2 * h + 1) % 2 == 1
  {
  }

  /** Which pass a pixel belongs to. */
  function PassOf(interlace: int, i: nat, j: nat): (k: nat)
    ensures k < |Passes(interlace)|
  {
    if interlace == 0 then 0
    else
      var x, y := i % 8, j % 8;
      if y % 2 == 1 then 6
      else if x % 2 == 1 then 5
      else if y % 4 == 2 then 4
      else if x % 4 == 2 then 3
      else if y == 4 then 2
      else if x == 4 then 1 else 0
  }

  /** Every pixel lies on exactly one pass. */
  lemma PixelOnOnePass(interlace: int, i: nat, j: nat, k: nat)
    requires k < |Passes(interlace)|
    ensures OnPass(Passes(interlace)[k], i, j) <==> k == PassOf(interlace, i, j)
  {
    Residue(i);
    Residue(j);
    hide OnGrid;
    if interlace != 0 {
      AdamPass(i, j, k);
    } else {
      assert OnGrid(i, 0, 1) && OnGrid(j, 0, 1);
    }
  }

  lemma AdamPass(i: nat, j: nat, k: nat)
    requires k < 7
    ensures OnPass(ADAM7[k], i, j) <==> k == PassOf(1, i, j)
  {
    Residue(i);
    Residue(j);
    hide OnGrid;
    var x, y := i % 8, j % 8;
    assert OnPass(ADAM7[0], i, j) <==> x == 0 && y == 0;
    assert OnPass(ADAM7[1], i, j) <==> x == 4 && y == 0;
    assert OnPass(ADAM7[2], i, j) <==> x % 4 == 0 && y == 4;
    assert OnPass(ADAM7[3], i, j) <==> x % 4 == 2 && y % 4 == 0;
    assert OnPass(ADAM7[4], i, j) <==> x % 2 == 0 && y % 4 == 2;
    assert OnPass(ADAM7[5], i, j) <==> x % 2 == 1 && y % 2 == 0;
    assert OnPass(ADAM7[6], i, j) <==> y % 2 == 1;
  }

  /** The nonempty passes, in order. */
  function Kept(passes: seq<Pass>, width: nat, height: nat): seq<Pass> {
    if passes == [] then []
    else
      var p := passes[|passes| - 1];
      Kept(passes[..|passes| - 1], width, height)
      + if Count(width, p.x, p.dx) > 0 && Count(height, p.y, p.dy) > 0 then [p] else []
  }

  /** Scanlines as `p` needs them: one for each of its rows of pixels, of the
      fewest bytes that hold its columns. */
  ghost predicate AreRowsOf(rows: Rows, p: Pass, width: nat, height: nat, bits: nat) {
    && rows.lines == |Positions(height, p.y, p.dy)| > 0 && |Positions(width, p.x, p.dx)| > 0
    && IsLeastBytes(rows.stride, |Positions(width, p.x, p.dx)| * bits)
  }

  predicate IsLeastBytes(bytes: nat, bits: nat) { 8 * (bytes - 1) < bits <= 8 * bytes }

  lemma LeastBytes(bits: nat)
    requires bits > 0
    ensures IsLeastBytes((bits + 7) / 8, bits)
  {
  }

  lemma {:induction false} RowsAreKept(passes: seq<Pass>, width: nat, height: nat, bits: nat)
    requires bits > 0
    ensures var rows, kept := RowsOf(passes, width, height, bits), Kept(passes, width, height);
            |rows| == |kept| && forall k :: 0 <= k < |rows| ==> AreRowsOf(rows[k], kept[k], width, height, bits)
  {
    if passes != [] {
      RowsAreKept(passes[..|passes| - 1], width, height, bits);
      var p := passes[|passes| - 1];
      CountIsPositions(width, p.x, p.dx);
      CountIsPositions(height, p.y, p.dy);
      var columns := Count(width, p.x, p.dx);
      hide Count, Positions, IsLeastBytes;
      if columns > 0 {
        assert columns * bits > 0;
        LeastBytes(columns * bits);
      }
    }
  }

  lemma {:induction false} KeptHolds(passes: seq<Pass>, width: nat, height: nat, p: Pass)
    ensures p in Kept(passes, width, height) <==>
            p in passes && Count(width, p.x, p.dx) > 0 && Count(height, p.y, p.dy) > 0
  {
    if passes != [] {
      KeptHolds(passes[..|passes| - 1], width, height, p);
      assert passes == passes[..|passes| - 1] + [passes[|passes| - 1]];
    }
  }

  lemma {:induction false} KeptDistinct(passes: seq<Pass>, width: nat, height: nat)
    requires forall a, b :: 0 <= a < b < |passes| ==> passes[a] != passes[b]
    ensures var kept := Kept(passes, width, height); forall a, b :: 0 <= a < b < |kept| ==> kept[a] != kept[b]
  {
    hide Count;
    if passes != [] {
      var last := |passes| - 1;
      KeptDistinct(passes[..last], width, height);
      KeptHolds(passes[..last], width, height, passes[last]);
      assert passes[last] !in passes[..last];
    }
  }

  /** Each pixel of the image lies on exactly one of the passes that are kept. */
  lemma KeptHoldsEveryPixel(interlace: int, width: nat, height: nat, i: nat, j: nat) returns (k: nat)
    requires i < width && j < height
    ensures var kept := Kept(Passes(interlace), width, height);
            k < |kept| && forall n :: 0 <= n < |kept| ==> (OnPass(kept[n], i, j) <==> n == k)
  {
    hide OnPass, PassOf, Count, Kept;
    var passes := Passes(interlace);
    var kept := Kept(passes, width, height);
    var p := passes[PassOf(interlace, i, j)];
    PixelOnOnePass(interlace, i, j, PassOf(interlace, i, j));
    HoldsSome(p, width, height, i, j);
    KeptHolds(passes, width, height, p);
    assert p in kept;
    k :| 0 <= k < |kept| && kept[k] == p;
    KeptDistinct(passes, width, height);
    forall n | 0 <= n < |kept| && OnPass(kept[n], i, j) ensures n == k {
      KeptHolds(passes, width, height, kept[n]);
      var m :| 0 <= m < |passes| && passes[m] == kept[n];
      PixelOnOnePass(interlace, i, j, m);
    }
  }

  lemma HoldsSome(p: Pass, width: nat, height: nat, i: nat, j: nat)
    requires OnPass(p, i, j) && i < width && j < height
    ensures Count(width, p.x, p.dx) > 0 && Count(height, p.y, p.dy) > 0
  {
    CountExact(width, p.x, p.dx, 0);
    CountExact(height, p.y, p.dy, 0);
  }

  /** The rows are those of the nonempty passes, in order, and each pixel of the
      image lies on exactly one of those. */
  ghost predicate HoldImage(rows: seq<Rows>, header: ByteString)
    requires |header| == 13
  {
    var width, height := ReadBigEndian(header[..4]), ReadBigEndian(header[4..8]);
    var kept := Kept(Passes(header[12]), width, height);
    && |rows| == |kept|
    && (forall k :: 0 <= k < |rows| ==> AreRowsOf(rows[k], kept[k], width, height, Channels(header[9]) * header[8]))
    && forall i: nat, j: nat :: i < width && j < height ==> OnOne(kept, i, j)
  }

  /** The rows of an accepted header hold its image. */
  lemma RowsHoldEveryPixel(header: ByteString)
    requires |header| == 13 && ParseHeader(header).Some?
    ensures HoldImage(ParseHeader(header).value.rows, header)
  {
    hide ReadBigEndian, RowsOf, Kept, AreRowsOf, OnPass;
    var width, height := ReadBigEndian(header[..4]), ReadBigEndian(header[4..8]);
    var bits := Channels(header[9]) * header[8];
    assert bits > 0 by {
      assert header[8] >= 1 && Channels(header[9]) >= 1;
    }
    RowsAreKept(Passes(header[12]), width, height, bits);
    var kept := Kept(Passes(header[12]), width, height);
    forall i: nat, j: nat | i < width && j < height ensures OnOne(kept, i, j) {
      var k := KeptHoldsEveryPixel(header[12], width, height, i, j);
      assert OnPass(kept[k], i, j);
    }
  }

  ghost predicate OnOne(passes: seq<Pass>, i: nat, j: nat) {
    exists k :: 0 <= k < |passes| && OnPass(passes[k], i, j)
                && forall n :: 0 <= n < |passes| && OnPass(passes[n], i, j) ==> n == k
  }
}
