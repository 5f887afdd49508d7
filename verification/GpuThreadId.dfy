/** The global thread number a GPU thread computes for itself, and the addresses built from it. */
module GpuThreadId {
  import opened Words

  /** Blocks per axis and threads per block, per axis. */
  datatype Grid = Grid(blocksX: nat, blocksY: nat, blocksZ: nat, threadsX: nat, threadsY: nat, threadsZ: nat)
  {
    function Width(): nat {
      blocksX * threadsX
    }

    function Height(): nat {
      blocksY * threadsY
    }

    function Depth(): nat {
      blocksZ * threadsZ
    }
  }

  /** A thread's block and its place in the block. */
  datatype Place = Place(blockX: nat, blockY: nat, blockZ: nat, threadX: nat, threadY: nat, threadZ: nat)

  predicate InGrid(g: Grid, p: Place) {
    p.blockX < g.blocksX && p.blockY < g.blocksY && p.blockZ < g.blocksZ &&
    p.threadX < g.threadsX && p.threadY < g.threadsY && p.threadZ < g.threadsZ
  }

  function X(g: Grid, p: Place): nat {
    p.blockX * g.threadsX + p.threadX
  }

  function Y(g: Grid, p: Place): nat {
    p.blockY * g.threadsY + p.threadY
  }

  function Z(g: Grid, p: Place): nat {
    p.blockZ * g.threadsZ + p.threadZ
  }

  /** The machine computation: 32-bit multiply-adds, one widening multiply, 64-bit sums. */
  function GlobalId(g: Grid, p: Place): int {
    Linear(S32(X(g, p)), S32(Y(g, p)), S32(Z(g, p)), S32(g.Width()), S32(g.Height()))
  }

  function Linear(x: int, y: int, z: int, width: int, height: int): int {
    var layer := height * width;
    var above := S64(layer * z);
    var row := S32(y * width);
    S64(S64(row + x) + above)
  }

  /** The row-major number of a thread. */
  function RowMajor(g: Grid, p: Place): nat {
    (Z(g, p) * g.Height() + Y(g, p)) * g.Width() + X(g, p)
  }

  /** A grid with threads, each axis within a signed 32-bit number and the whole within a signed 64-bit one. */
  predicate Sane(g: Grid) {
    g.Width() > 0 && g.Height() > 0 && g.Depth() > 0 &&
    g.Width() < TWO31 && g.Height() < TWO31 && g.Depth() < TWO31 && (g.Depth() * g.Height()) * g.Width() < TWO63
  }

  /** The last row starts within 32 signed bits. */
  predicate RowsFit(g: Grid) {
    (g.Height() - 1) * g.Width() < TWO31
  }

  /** A number formed from a digit below n and a rest below m is below m * n. */
  lemma DigitBound(hi: nat, m: nat, lo: nat, n: nat)
    requires hi < m && lo < n
    ensures hi * n + lo < m * n
  {
    MulMonotone(hi + 1, m, n);
    assert (hi + 1) * n == hi * n + n;
  }

  /** Such a number determines both digits. */
  lemma DigitsUnique(hi: nat, lo: nat, hi': nat, lo': nat, n: nat)
    requires lo < n && lo' < n && hi * n + lo == hi' * n + lo'
    ensures hi == hi' && lo == lo'
  {
    ModUnique(hi * n + lo, n, hi, lo);
    ModUnique(hi' * n + lo', n, hi', lo');
  }

  lemma Bounds(g: Grid, p: Place)
    requires InGrid(g, p)
    ensures X(g, p) < g.Width() && Y(g, p) < g.Height() && Z(g, p) < g.Depth()
    ensures RowMajor(g, p) < (g.Depth() * g.Height()) * g.Width()
  {
    DigitBound(p.blockX, g.blocksX, p.threadX, g.threadsX);
    DigitBound(p.blockY, g.blocksY, p.threadY, g.threadsY);
    DigitBound(p.blockZ, g.blocksZ, p.threadZ, g.threadsZ);
    DigitBound(Z(g, p), g.Depth(), Y(g, p), g.Height());
    DigitBound(Z(g, p) * g.Height() + Y(g, p), g.Depth() * g.Height(), X(g, p), g.Width());
  }

  lemma Expand(z: nat, h: nat, y: nat, w: nat, x: nat)
    ensures (z * h + y) * w + x == y * w + x + (h * w) * z
  {
  }

  /** The computed number exceeds the row-major one by what the 32-bit row product lost. */
  lemma GlobalIdValue(g: Grid, p: Place)
    requires Sane(g) && InGrid(g, p)
    ensures GlobalId(g, p) == RowMajor(g, p) + (S32(Y(g, p) * g.Width()) - Y(g, p) * g.Width())
    ensures S32(Y(g, p) * g.Width()) <= Y(g, p) * g.Width()
  {
    hide X, Y, Z, Grid.Width, Grid.Height, Grid.Depth, InGrid, S32, S64, Linear;
    Bounds(g, p);
    var x, y, z, w, h := X(g, p), Y(g, p), Z(g, p), g.Width(), g.Height();
    LinearValue(x, y, z, w, h);
  }

  lemma LinearValue(x: nat, y: nat, z: nat, w: nat, h: nat)
    requires x < TWO31 && (z * h + y) * w + x < TWO63
    ensures Linear(x, y, z, w, h) == (z * h + y) * w + x + (S32(y * w) - y * w) && S32(y * w) <= y * w
  {
    hide S32, S64;
    Expand(z, h, y, w, x);
    IdArithmetic(y * w, x, (h * w) * z);
  }

  lemma IdArithmetic(row: nat, x: nat, above: nat)
    requires x < TWO31 && row + x + above < TWO63
    ensures S64(S64(S32(row) + x) + S64(above)) == S32(row) + x + above && S32(row) <= row
  {
    LowBits(row);
    hide S32, S64;
    assert S64(S32(row) + x) == S32(row) + x && S64(above) == above;
  }

  lemma LowBits(v: nat)
    ensures S32(v) <= v && (S32(v) == v <==> v < TWO31)
  {
  }

  /** Every thread computes its row-major number exactly when the last row starts within 32 signed bits. */
  lemma GlobalIdIff(g: Grid)
    requires Sane(g)
    ensures (forall p :: InGrid(g, p) ==> GlobalId(g, p) == RowMajor(g, p)) <==>
            RowsFit(g)
  {
    if RowsFit(g) {
      forall p | InGrid(g, p)
        ensures GlobalId(g, p) == RowMajor(g, p)
      {
        RowMajorWhenFits(g, p);
      }
    } else {
      var p := LastRow(g);
      GlobalIdValue(g, p);
      LowBits(Y(g, p) * g.Width());
    }
  }

  lemma RowMajorWhenFits(g: Grid, p: Place)
    requires Sane(g) && RowsFit(g) && InGrid(g, p)
    ensures GlobalId(g, p) == RowMajor(g, p)
  {
    Bounds(g, p);
    GlobalIdValue(g, p);
    MulMonotone(Y(g, p), g.Height() - 1, g.Width());
  }

  /** The first thread of the last row. */
  lemma LastRow(g: Grid) returns (p: Place)
    requires g.Width() > 0 && g.Height() > 0 && g.Depth() > 0
    ensures InGrid(g, p) && Y(g, p) == g.Height() - 1
  {
    assert g.blocksX > 0 && g.threadsX > 0 by { assert g.blocksX * g.threadsX > 0; }
    assert g.blocksY > 0 && g.threadsY > 0 by { assert g.blocksY * g.threadsY > 0; }
    assert g.blocksZ > 0 && g.threadsZ > 0 by { assert g.blocksZ * g.threadsZ > 0; }
    p := Place(0, g.blocksY - 1, 0, 0, g.threadsY - 1, 0);
    assert (g.blocksY - 1) * g.threadsY == g.Height() - g.threadsY;
  }

  // ---------------------------------------------------------------- from one thread to the next

  lemma FirstThread(g: Grid)
    requires Sane(g)
    ensures GlobalId(g, Place(0, 0, 0, 0, 0, 0)) == 0
  {
    hide S32, S64, Linear;
    LinearValue(0, 0, 0, g.Width(), g.Height());
    LowBits(0);
  }

  /** The next thread of a block has the next number, and the same thread of the next block one that is higher by the
      threads of a block; along the axes of rows and layers the same holds in whole rows and layers. Together with
      the first thread's number this gives every thread's. */
  lemma NextThread(g: Grid, p: Place)
    requires Sane(g) && InGrid(g, p)
    ensures var q := p.(threadX := p.threadX + 1); InGrid(g, q) ==> GlobalId(g, q) == GlobalId(g, p) + 1
    ensures var q := p.(blockX := p.blockX + 1); InGrid(g, q) ==> GlobalId(g, q) == GlobalId(g, p) + g.threadsX
  {
    hide GlobalId, Sane, RowsFit;
    NextX(g, p, p.(threadX := p.threadX + 1), 1);
    RowsAdd(p.blockX, 1, g.threadsX);
    NextX(g, p, p.(blockX := p.blockX + 1), g.threadsX);
  }

  lemma NextX(g: Grid, p: Place, q: Place, d: nat)
    requires Sane(g) && InGrid(g, p) && X(g, q) == X(g, p) + d && Y(g, q) == Y(g, p) && Z(g, q) == Z(g, p)
    ensures InGrid(g, q) ==> GlobalId(g, q) == GlobalId(g, p) + d
  {
    hide X, Y, Z, Grid.Width, Grid.Height, Grid.Depth, InGrid, S32, GlobalId, Sane;
    if InGrid(g, q) {
      GlobalIdValue(g, p);
      GlobalIdValue(g, q);
    }
  }

  lemma NextRow(g: Grid, p: Place)
    requires Sane(g) && RowsFit(g) && InGrid(g, p)
    ensures var q := p.(threadY := p.threadY + 1);
            InGrid(g, q) ==> GlobalId(g, q) == GlobalId(g, p) + g.blocksX * g.threadsX
    ensures var q := p.(blockY := p.blockY + 1);
            InGrid(g, q) ==> GlobalId(g, q) == GlobalId(g, p) + g.threadsY * (g.blocksX * g.threadsX)
  {
    hide GlobalId, Sane, RowsFit;
    NextY(g, p, p.(threadY := p.threadY + 1), 1);
    RowsAdd(p.blockY, 1, g.threadsY);
    NextY(g, p, p.(blockY := p.blockY + 1), g.threadsY);
  }

  lemma NextY(g: Grid, p: Place, q: Place, d: nat)
    requires Sane(g) && RowsFit(g) && InGrid(g, p)
    requires X(g, q) == X(g, p) && Y(g, q) == Y(g, p) + d && Z(g, q) == Z(g, p)
    ensures InGrid(g, q) ==> GlobalId(g, q) == GlobalId(g, p) + d * g.Width()
  {
    hide X, Y, Z, Grid.Width, Grid.Height, Grid.Depth, InGrid, S32, GlobalId, Sane, RowsFit;
    if InGrid(g, q) {
      RowMajorWhenFits(g, p);
      RowMajorWhenFits(g, q);
      RowsAdd(Z(g, p) * g.Height() + Y(g, p), d, g.Width());
    }
  }

  lemma RowsAdd(row: nat, d: nat, w: nat)
    ensures (row + d) * w == row * w + d * w
  {
  }

  lemma NextLayer(g: Grid, p: Place)
    requires Sane(g) && InGrid(g, p)
    ensures var q := p.(threadZ := p.threadZ + 1);
            InGrid(g, q) ==> GlobalId(g, q) == GlobalId(g, p) + (g.blocksY * g.threadsY) * (g.blocksX * g.threadsX)
    ensures var q := p.(blockZ := p.blockZ + 1); InGrid(g, q) ==>
            GlobalId(g, q) == GlobalId(g, p) + g.threadsZ * ((g.blocksY * g.threadsY) * (g.blocksX * g.threadsX))
  {
    hide GlobalId, Sane, RowsFit;
    NextZ(g, p, p.(threadZ := p.threadZ + 1), 1);
    RowsAdd(p.blockZ, 1, g.threadsZ);
    NextZ(g, p, p.(blockZ := p.blockZ + 1), g.threadsZ);
  }

  lemma NextZ(g: Grid, p: Place, q: Place, d: nat)
    requires Sane(g) && InGrid(g, p)
    requires X(g, q) == X(g, p) && Y(g, q) == Y(g, p) && Z(g, q) == Z(g, p) + d
    ensures InGrid(g, q) ==> GlobalId(g, q) == GlobalId(g, p) + d * (g.Height() * g.Width())
  {
    hide X, Y, Z, Grid.Width, Grid.Height, Grid.Depth, InGrid, S32, GlobalId, Sane;
    if InGrid(g, q) {
      GlobalIdValue(g, p);
      GlobalIdValue(g, q);
      LayersAdd(Z(g, p), d, g.Height(), Y(g, p), g.Width());
    }
  }

  lemma LayersAdd(z: nat, d: nat, h: nat, y: nat, w: nat)
    ensures ((z + d) * h + y) * w == (z * h + y) * w + d * (h * w)
  {
    RowsAdd(z, d, h);
    RowsAdd(z * h + y, d * h, w);
    assert (d * h) * w == d * (h * w);
  }

  // ---------------------------------------------------------------- uniqueness

  /** Then every number is below the grid's thread count. */
  lemma GlobalIdInRange(g: Grid, p: Place)
    requires Sane(g) && RowsFit(g) && InGrid(g, p)
    ensures 0 <= GlobalId(g, p) < (g.Depth() * g.Height()) * g.Width()
  {
    hide X, Y, Z, Grid.Width, Grid.Height, Grid.Depth, GlobalId, Sane, RowsFit, InGrid;
    Bounds(g, p);
    RowMajorWhenFits(g, p);
  }

  lemma RowMajorInjective(g: Grid, p: Place, q: Place)
    requires InGrid(g, p) && InGrid(g, q) && RowMajor(g, p) == RowMajor(g, q)
    ensures p == q
  {
    hide X, Y, Z, Grid.Width, Grid.Height, Grid.Depth, InGrid;
    Bounds(g, p);
    Bounds(g, q);
    ThreeDigits(Z(g, p), Y(g, p), X(g, p), Z(g, q), Y(g, q), X(g, q), g.Height(), g.Width());
    PlaceUnique(g, p, q);
  }

  lemma ThreeDigits(z: nat, y: nat, x: nat, z': nat, y': nat, x': nat, h: nat, w: nat)
    requires x < w && x' < w && y < h && y' < h && (z * h + y) * w + x == (z' * h + y') * w + x'
    ensures z == z' && y == y' && x == x'
  {
    DigitsUnique(z * h + y, x, z' * h + y', x', w);
    DigitsUnique(z, y, z', y', h);
  }

  lemma PlaceUnique(g: Grid, p: Place, q: Place)
    requires InGrid(g, p) && InGrid(g, q) && X(g, p) == X(g, q) && Y(g, p) == Y(g, q) && Z(g, p) == Z(g, q)
    ensures p == q
  {
    DigitsUnique(p.blockX, p.threadX, q.blockX, q.threadX, g.threadsX);
    DigitsUnique(p.blockY, p.threadY, q.blockY, q.threadY, g.threadsY);
    DigitsUnique(p.blockZ, p.threadZ, q.blockZ, q.threadZ, g.threadsZ);
  }

  // ---------------------------------------------------------------- when numbers are unique

  /** A thread's place within its layer, row by row. */
  function InLayer(g: Grid, p: Place): nat {
    Y(g, p) * g.Width() + X(g, p)
  }

  /** Threads in one layer. */
  function Layer(g: Grid): nat {
    g.Height() * g.Width()
  }

  ghost predicate Unique(g: Grid) {
    forall p, q :: InGrid(g, p) && InGrid(g, q) && GlobalId(g, p) == GlobalId(g, q) ==> p == q
  }

  /** One layer no larger than 2^32 stays unique although its later rows become negative, and layers of exactly 2^32
      threads then fit seamlessly. */
  predicate UniqueSize(g: Grid) {
    RowsFit(g) || Layer(g) == TWO32 || (g.Depth() == 1 && Layer(g) < TWO32)
  }

  /** In a layer of at most 2^32 threads a number is the place in the layer, less 2^32 in rows that start past 31
      bits. */
  lemma WrappedId(g: Grid, p: Place)
    requires Sane(g) && InGrid(g, p) && Y(g, p) * g.Width() < TWO32
    ensures GlobalId(g, p) ==
            InLayer(g, p) + Layer(g) * Z(g, p) - (if Y(g, p) * g.Width() >= TWO31 then TWO32 else 0)
  {
    hide X, Y, Z, Grid.Width, Grid.Height, Grid.Depth, InGrid, S32, GlobalId, Sane;
    GlobalIdValue(g, p);
    var x, y, z, w, h := X(g, p), Y(g, p), Z(g, p), g.Width(), g.Height();
    Expand(z, h, y, w, x);
    HighRow(y * w);
  }

  lemma HighRow(v: nat)
    requires v < TWO32
    ensures S32(v) == if v >= TWO31 then v - TWO32 else v
  {
  }

  lemma LayerBound(g: Grid, p: Place)
    requires InGrid(g, p)
    ensures Y(g, p) * g.Width() <= InLayer(g, p) < Layer(g)
  {
    hide X, Y, Grid.Width, Grid.Height, Z, Grid.Depth, InGrid;
    Bounds(g, p);
    DigitBound(Y(g, p), g.Height(), X(g, p), g.Width());
  }

  /** Equal places in equal layers are the same thread. */
  lemma SamePlace(g: Grid, p: Place, q: Place)
    requires InGrid(g, p) && InGrid(g, q) && InLayer(g, p) == InLayer(g, q) && Z(g, p) == Z(g, q)
    ensures p == q
  {
    hide X, Y, Z, Grid.Width, Grid.Height, Grid.Depth, InGrid;
    Bounds(g, p);
    Bounds(g, q);
    DigitsUnique(Y(g, p), X(g, p), Y(g, q), X(g, q), g.Width());
    PlaceUnique(g, p, q);
  }

  /** Two threads whose rows start on the same side of 31 bits. */
  lemma SameSide(g: Grid, p: Place, q: Place)
    requires InGrid(g, p) && InGrid(g, q)
    requires InLayer(g, p) + Layer(g) * Z(g, p) == InLayer(g, q) + Layer(g) * Z(g, q)
    ensures p == q
  {
    hide X, Y, Z, Grid.Width, Grid.Height, Grid.Depth, InGrid, InLayer, Layer;
    LayerBound(g, p);
    LayerBound(g, q);
    DigitsUnique(Z(g, p), InLayer(g, p), Z(g, q), InLayer(g, q), Layer(g));
    SamePlace(g, p, q);
  }

  /** Two threads whose rows start on different sides: their places differ by 2^32, more than a layer of at most that
      many threads holds. */
  lemma OtherSide(a: nat, b: nat, layer: nat, z: nat, z': nat)
    requires a < layer <= TWO32 && b < layer && (layer == TWO32 || (z == 0 && z' == 0))
    requires a >= TWO31 && b < a
    ensures a + layer * z - TWO32 != b + layer * z'
  {
    if layer == TWO32 {
      var d := z - z';
      assert layer * z - layer * z' == TWO32 * d;
    }
  }

  /** Rows that start on different sides hold different places. */
  lemma SidesApart(g: Grid, p: Place, q: Place)
    requires InGrid(g, p) && InGrid(g, q) && Y(g, q) * g.Width() < TWO31 <= Y(g, p) * g.Width()
    ensures InLayer(g, q) < InLayer(g, p) && TWO31 <= InLayer(g, p)
  {
    hide X, Z, Y, Grid.Width, Grid.Height, Grid.Depth, InGrid;
    Bounds(g, p);
    Bounds(g, q);
    LowerRow(Y(g, p), Y(g, q), X(g, q), g.Width());
  }

  lemma LowerRow(y: nat, y': nat, x: nat, w: nat)
    requires x < w && y' * w < y * w
    ensures y' * w + x < y * w
  {
    MulMonotone(y, if y' >= y then y' else y, w);
    MulMonotone(y' + 1, if y' >= y then y' + 1 else y, w);
    assert (y' + 1) * w == y' * w + w;
  }

  lemma UniqueThere(g: Grid, p: Place, q: Place)
    requires Sane(g) && UniqueSize(g) && InGrid(g, p) && InGrid(g, q) && GlobalId(g, p) == GlobalId(g, q)
    ensures p == q
  {
    hide X, Y, Z, Grid.Width, Grid.Height, GlobalId, InGrid, InLayer, Sane, Layer, RowsFit;
    if RowsFit(g) {
      RowMajorWhenFits(g, p);
      RowMajorWhenFits(g, q);
      RowMajorInjective(g, p, q);
    } else {
      hide Grid.Depth;
      Bounds(g, p);
      Bounds(g, q);
      LayerBound(g, p);
      LayerBound(g, q);
      WrappedId(g, p);
      WrappedId(g, q);
      var row, row' := Y(g, p) * g.Width(), Y(g, q) * g.Width();
      if row >= TWO31 && row' < TWO31 {
        SidesApart(g, p, q);
        OtherSide(InLayer(g, p), InLayer(g, q), Layer(g), Z(g, p), Z(g, q));
      } else if row < TWO31 && row' >= TWO31 {
        SidesApart(g, q, p);
        OtherSide(InLayer(g, q), InLayer(g, p), Layer(g), Z(g, q), Z(g, p));
      } else {
        SameSide(g, p, q);
      }
    }
  }

  /** The thread at a given place of a layer. */
  lemma ThreadAt(g: Grid, a: nat, z: nat) returns (p: Place)
    requires a < Layer(g) && z < g.Depth()
    ensures InGrid(g, p) && InLayer(g, p) == a && Z(g, p) == z
    ensures Y(g, p) == a / g.Width()
  {
    var w := g.Width();
    var y, x := a / w, a % w;
    assert a == w * y + x;
    RowBelow(a, w, g.Height());
    var blockX, threadX := AxisAt(g.blocksX, g.threadsX, x);
    var blockY, threadY := AxisAt(g.blocksY, g.threadsY, y);
    var blockZ, threadZ := AxisAt(g.blocksZ, g.threadsZ, z);
    p := Place(blockX, blockY, blockZ, threadX, threadY, threadZ);
  }

  lemma RowBelow(a: nat, w: nat, h: nat)
    requires a < h * w
    ensures w > 0 && a / w < h
  {
    SomeWidth(h, w);
    RowOf(a, w);
    MulMonotone(h, if a / w < h then h else a / w, w);
  }

  lemma SomeWidth(h: nat, w: nat)
    requires h * w > 0
    ensures w > 0
  {
  }

  lemma AxisAt(blocks: nat, threads: nat, v: nat) returns (b: nat, t: nat)
    requires v < blocks * threads
    ensures b < blocks && t < threads && b * threads + t == v
  {
    RowBelow(v, threads, blocks);
    b, t := v / threads, v % threads;
  }

  /** A layer of more than 2^32 threads: the one at place 2^32 has number 0 again. */
  lemma LargeLayerCollides(g: Grid) returns (p: Place, q: Place)
    requires Sane(g) && Layer(g) > TWO32
    ensures InGrid(g, p) && InGrid(g, q) && p != q && GlobalId(g, p) == GlobalId(g, q)
  {
    hide X, Y, Z, Grid.Height, GlobalId, InGrid, InLayer, Layer, S32;
    q := ThreadAt(g, 0, 0);
    p := ThreadAt(g, TWO32, 0);
    var w := g.Width();
    RowOf(TWO32, w);
    RowOf(0, w);
    hide Grid.Width;
    WrappedId(g, q);
    FullTurn(g, p);
  }

  lemma RowOf(a: nat, w: nat)
    requires w > 0
    ensures a - w < (a / w) * w <= a
  {
    assert a == w * (a / w) + a % w;
  }

  /** A thread whose row starts within a row's length below or at 2^32. */
  lemma FullTurn(g: Grid, p: Place)
    requires Sane(g) && InGrid(g, p) && InLayer(g, p) == TWO32 && Z(g, p) == 0
    requires TWO32 - g.Width() < Y(g, p) * g.Width() <= TWO32
    ensures GlobalId(g, p) == 0
  {
    hide X, Y, Z, Grid.Width, Grid.Height, Grid.Depth, InGrid, S32, GlobalId;
    GlobalIdValue(g, p);
    var x, y, w, h := X(g, p), Y(g, p), g.Width(), g.Height();
    Expand(0, h, y, w, x);
    assert RowMajor(g, p) == y * w + x by { assert 0 * h == 0 && (h * w) * 0 == 0; }
    TurnedRow(y * w);
  }

  lemma TurnedRow(v: nat)
    requires TWO31 < v <= TWO32
    ensures S32(v) == v - TWO32
  {
  }

  /** Several layers of fewer than 2^32 threads, with rows past 31 bits: the first of those in the second layer that
      are not negative fall into the first layer. */
  lemma LayersCollide(g: Grid) returns (p: Place, q: Place)
    requires Sane(g) && !RowsFit(g) && g.Depth() > 1 && Layer(g) < TWO32
    ensures InGrid(g, p) && InGrid(g, q) && p != q && GlobalId(g, p) == GlobalId(g, q)
  {
    hide X, Y, Z, GlobalId, InGrid, InLayer;
    var w, n := g.Width(), Layer(g);
    var first := FirstHighRow(w, g.Height());
    var a := first * w;
    var high := if a + n >= TWO32 then a else TWO32 - n;
    var low := high + n - TWO32;
    p := ThreadAt(g, high, 1);
    q := ThreadAt(g, low, 0);
    RowOf(high, w);
    RowOf(low, w);
    HighStays(a, first, w, high);
    LowStays(a, first, w, low);
    hide Grid.Width, Grid.Height, Layer;
    WrappedId(g, p);
    WrappedId(g, q);
  }

  /** The first row that starts past 31 bits. */
  lemma FirstHighRow(w: nat, h: nat) returns (y: nat)
    requires w > 0 && h > 0 && (h - 1) * w >= TWO31
    ensures 0 < y < h && TWO31 <= y * w && (y - 1) * w < TWO31
    ensures y * w < h * w && TWO31 < h * w
  {
    y := (TWO31 + w - 1) / w;
    RowOf(TWO31 + w - 1, w);
    assert (y - 1) * w == y * w - w;
    if y > h - 1 {
      MulMonotone(h - 1, y - 1, w);
    }
    MulMonotone(y + 1, h, w);
    assert (y + 1) * w == y * w + w;
  }

  lemma HighStays(a: nat, first: nat, w: nat, high: nat)
    requires w > 0 && a == first * w && a >= TWO31 && high >= a
    ensures (high / w) * w >= TWO31
  {
    var row := high / w;
    RowOf(high, w);
    assert (row + 1) * w == row * w + w;
    MulMonotone(if row < first then row + 1 else first, first, w);
    MulMonotone(first, if row < first then first else row, w);
  }

  lemma LowStays(a: nat, first: nat, w: nat, low: nat)
    requires w > 0 && 0 < first && a == first * w && (first - 1) * w < TWO31 && low < a
    ensures (low / w) * w < TWO31
  {
    RowBelow(low, w, first);
    MulMonotone(low / w, first - 1, w);
  }

  /** Different threads have different numbers in exactly the grids whose rows all start within 31 bits, whose layers
      hold 2^32 threads, or which have a single layer of fewer. */
  lemma UniqueIff(g: Grid)
    requires Sane(g)
    ensures Unique(g) <==> UniqueSize(g)
  {
    hide GlobalId, InGrid, Sane, RowsFit, Layer, Grid.Depth, Grid.Width, Grid.Height;
    if UniqueSize(g) {
      forall p, q | InGrid(g, p) && InGrid(g, q) && GlobalId(g, p) == GlobalId(g, q)
        ensures p == q
      {
        UniqueThere(g, p, q);
      }
    } else {
      SomeDepth(g);
      var p, q;
      if Layer(g) > TWO32 {
        p, q := LargeLayerCollides(g);
      } else {
        p, q := LayersCollide(g);
      }
    }
  }

  lemma SomeDepth(g: Grid)
    requires Sane(g)
    ensures g.Depth() > 0
  {
  }

  /** A grid 65536 wide and 40000 high has rows past 31 bits but unique numbers; one 65537 high has not. */
  lemma UniqueExamples()
    ensures Sane(Grid(65536, 40000, 1, 1, 1, 1)) && !RowsFit(Grid(65536, 40000, 1, 1, 1, 1))
    ensures Unique(Grid(65536, 40000, 1, 1, 1, 1))
    ensures Sane(Grid(65536, 65537, 1, 1, 1, 1)) && !Unique(Grid(65536, 65537, 1, 1, 1, 1))
  {
    hide Unique, GlobalId;
    UniqueIff(Grid(65536, 40000, 1, 1, 1, 1));
    UniqueIff(Grid(65536, 65537, 1, 1, 1, 1));
  }

  // ---------------------------------------------------------------- per-thread array slots

  /** A per-thread array map in device memory. */
  datatype ArrayMap = ArrayMap(buffer: nat, valueSize: nat, maxEntries: nat, maxThreads: nat)

  /** The address of a thread's value for a key, as computed with 64-bit wrap-around. */
  function ValueAddress(m: ArrayMap, key: nat, id: int): int {
    S64(S64((S64(id + S64(m.maxThreads * key))) * m.valueSize) + m.buffer)
  }

  /** The whole buffer lies in the address space. */
  predicate Allocated(m: ArrayMap) {
    m.buffer + (m.maxEntries * m.maxThreads) * m.valueSize < TWO63
  }

  lemma ValueAddressIs(m: ArrayMap, key: nat, id: nat)
    requires Allocated(m) && key < m.maxEntries && id < m.maxThreads && m.valueSize > 0
    ensures ValueAddress(m, key, id) == m.buffer + (key * m.maxThreads + id) * m.valueSize
    ensures ValueAddress(m, key, id) + m.valueSize <= m.buffer + (m.maxEntries * m.maxThreads) * m.valueSize
  {
    hide S64;
    var n, v := key * m.maxThreads + id, m.valueSize;
    var all := m.maxEntries * m.maxThreads;
    DigitBound(key, m.maxEntries, id, m.maxThreads);
    RoomFor(n, all, v);
    Swap(m.maxThreads, key);
    AddressArithmetic(m.maxThreads * key, id, v, n * v, m.buffer);
  }

  lemma RoomFor(n: nat, all: nat, v: nat)
    requires n < all && v > 0
    ensures n * v + v <= all * v && all <= all * v
  {
    MulMonotone(n + 1, all, v);
    assert (n + 1) * v == n * v + v;
    MulMonotone(1, v, all);
  }

  lemma Swap(a: int, b: int)
    ensures a * b == b * a
  {
  }

  lemma AddressArithmetic(below: nat, id: nat, v: nat, product: nat, buffer: nat)
    requires (below + id) * v == product && below + id < TWO63 && buffer + product < TWO63
    ensures S64(S64(S64(id + S64(below)) * v) + buffer) == buffer + product
  {
    hide S64;
    assert S64(below) == below && S64(id + below) == id + below;
  }

  /** Different keys or different threads get values that do not overlap, all inside the buffer. */
  lemma ValuesApart(m: ArrayMap, key: nat, id: nat, key': nat, id': nat)
    requires Allocated(m) && m.valueSize > 0
    requires key < m.maxEntries && id < m.maxThreads && key' < m.maxEntries && id' < m.maxThreads
    requires key != key' || id != id'
    ensures var a, b := ValueAddress(m, key, id), ValueAddress(m, key', id');
            a + m.valueSize <= b || b + m.valueSize <= a
  {
    hide ValueAddress, Allocated;
    ValueAddressIs(m, key, id);
    ValueAddressIs(m, key', id');
    var n, n' := key * m.maxThreads + id, key' * m.maxThreads + id';
    assert n != n' by { if n == n' { DigitsUnique(key, id, key', id', m.maxThreads); } }
    Apart(n, n', m.valueSize);
  }

  lemma Apart(n: nat, n': nat, v: nat)
    requires n != n'
    ensures n * v + v <= n' * v || n' * v + v <= n * v
  {
    if n < n' {
      MulMonotone(n + 1, n', v);
      assert (n + 1) * v == n * v + v;
    } else {
      MulMonotone(n' + 1, n, v);
      assert (n' + 1) * v == n' * v + v;
    }
  }
}
