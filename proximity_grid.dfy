/** A uniform 3D grid of cells over a box, each cell a list of point indices.
    `Init` sizes the grid and empties it, `Gather` collects the indices stored
    in a block of cells, and `MortonCount`/`MortonIndex` enumerate the cells
    in Morton order: in one power-of-two cube for grids up to 1024 cells on a
    side, and in 2D Morton-ordered layers along the shortest axis beyond that. */
module ProximityGrids {
  import opened NumericUtil
  import opened Morton

  /** Largest cube side the sweep still covers in three-dimensional Morton
      order; longer grids are swept layer by layer. */
  const LAYERED_THRESHOLD: nat := 1024

  /** The full side lengths of a box along x, y and z. */
  datatype Vec3 = Vec3(x: real, y: real, z: real)

  /** The two side lengths of the quad a degenerate box is treated as. */
  datatype Vec2 = Vec2(x: real, y: real)

  datatype Axis = X | Y | Z

  /** Cell coordinates as the Morton decoders produce them, never negative
      (the gather loops use the signed `Cell3` instead). */
  datatype Cell = Cell(x: nat, y: nat, z: nat)

  function Along(d: Vec3, a: Axis): real
  {
    match a
    case X => d.x
    case Y => d.y
    case Z => d.z
  }

  function Coordinate(c: Cell, a: Axis): nat
  {
    match a
    case X => c.x
    case Y => c.y
    case Z => c.z
  }

  /** The axis a box loses when `init` treats it as a quad, which it does
      whenever the box's volume is within float tolerance of 0: x when it is
      strictly the shortest, else y when it is strictly the shortest, else z.
      That axis is a shortest one in every case but one: when x and y tie
      below z, z is dropped although it is the longest. */
  function DroppedAxis(d: Vec3): (a: Axis)
    ensures a == X <==> d.x < d.y && d.x < d.z
    ensures a == Y <==> d.y < d.x && d.y < d.z
    ensures a == Z <==> !(d.x < d.y && d.x < d.z) && !(d.y < d.x && d.y < d.z)
    ensures (Along(d, a) <= d.x && Along(d, a) <= d.y && Along(d, a) <= d.z)
            <==> !(d.x == d.y && d.x < d.z)
  {
    if d.x < d.y && d.x < d.z then X
    else if d.y < d.x && d.y < d.z then Y
    else Z
  }

  /** The quad of a flat box: the two sides that remain once the dropped axis
      is taken out, in axis order. */
  function SelectQuad(d: Vec3): (q: Vec2)
    ensures multiset{q.x, q.y, Along(d, DroppedAxis(d))} == multiset{d.x, d.y, d.z}
    ensures DroppedAxis(d) != X ==> q.x == d.x
    ensures DroppedAxis(d) != Z ==> q.y == d.z
  {
    match DroppedAxis(d)
    case X => Vec2(d.y, d.z)
    case Y => Vec2(d.x, d.z)
    case Z => Vec2(d.x, d.y)
  }

  /** A thin rod whose x and y sides tie passes for flat, since its volume is
      tiny, and loses its long z side: the quad is the small square across
      it. Only an exactly zero volume makes the tie harmless. */
  lemma ThinRodQuad()
    ensures DroppedAxis(Vec3(0.001, 0.001, 10.0)) == Z
    ensures SelectQuad(Vec3(0.001, 0.001, 10.0)) == Vec2(0.001, 0.001)
  {
  }

  /** `max(1, ftoi_ceil(extent / cellWidth))`: the fewest cells, and at least
      one, of width `cellWidth` that together span `extent`. */
  function CellsAlong(extent: real, cellWidth: real): (n: int)
    requires cellWidth > 0.0
    ensures n >= 1
    ensures n as real * cellWidth >= extent
    ensures n == 1 || (n - 1) as real * cellWidth < extent
  {
    var c := Ceil(extent / cellWidth);
    CeilQuotient(extent, cellWidth);
    if c > 1 then c else 1
  }

  /** Regrouping a concatenation. Dafny knows this fact, but naming the three
      parts at each loop step in `Gather` keeps that proof small. */
  lemma AppendAssoc<T>(a: seq<T>, b: seq<T>, c: seq<T>)
    ensures a + b + c == a + (b + c)
  {
  }

  /** Cell coordinates as the gather loops produce them. They are signed,
      unlike `Cell`: `gather` runs `int` loops over a range its caller
      computes, and an empty range may start or end below 0. */
  type Cell3 = (int, int, int)

  /** The cells the gather loops visit, in order: x fastest, then y, then z. */
  function RowVisits(x0: int, x1: int, y: int, z: int): seq<Cell3>
    decreases x1 - x0 + 1
  {
    if x1 < x0 then [] else RowVisits(x0, x1 - 1, y, z) + [(x1, y, z)]
  }

  function SlabVisits(x0: int, x1: int, y0: int, y1: int, z: int): seq<Cell3>
    decreases y1 - y0 + 1
  {
    if y1 < y0 then [] else SlabVisits(x0, x1, y0, y1 - 1, z) + RowVisits(x0, x1, y1, z)
  }

  function BlockVisits(x0: int, x1: int, y0: int, y1: int, z0: int, z1: int): seq<Cell3>
    decreases z1 - z0 + 1
  {
    if z1 < z0 then [] else BlockVisits(x0, x1, y0, y1, z0, z1 - 1) + SlabVisits(x0, x1, y0, y1, z1)
  }

  /** The layer coordinate and in-layer code of a cell in range give a code
      below the sweep length. */
  lemma LayerSweepBound(layer: nat, rem: nat, area: nat, layers: nat)
    requires layer < layers && rem < area
    ensures layer * area + rem < area * layers
  {
    MulMonotone(layer + 1, layers, area);
  }

  class ProximityGrid {
    /** Number of cells along x, y and z. */
    var sx: int
    var sy: int
    var sz: int
    /** The cell array: point indices per cell, at offset `Index(x, y, z)`. */
    var cells: seq<seq<uint32>>

    ghost predicate Valid()
      reads this
    {
      sx >= 1 && sy >= 1 && sz >= 1 && |cells| == sx * sy * sz
    }

    predicate InGrid(x: int, y: int, z: int)
      reads this
    {
      0 <= x < sx && 0 <= y < sy && 0 <= z < sz
    }

    /** `index`: the linear offset of cell (x, y, z), x varying fastest. */
    function Index(x: int, y: int, z: int): int
      reads this
    {
      x + sx * (y + sy * z)
    }

    /** Every cell of the grid has an offset inside the cell array. */
    lemma IndexInRange(x: int, y: int, z: int)
      requires Valid() && InGrid(x, y, z)
      ensures 0 <= Index(x, y, z) < |cells|
    {
      MixedRadixBound(y, sy, z, sz);
      MixedRadixBound(x, sx, y + sy * z, sy * sz);
      assert sx * (sy * sz) == sx * sy * sz;
    }

    /** Distinct cells have distinct offsets. */
    lemma IndexInjective(x: int, y: int, z: int, x': int, y': int, z': int)
      requires Valid() && InGrid(x, y, z) && InGrid(x', y', z')
      requires Index(x, y, z) == Index(x', y', z')
      ensures x == x' && y == y' && z == z'
    {
      var i := Index(x, y, z);
      DivModUnique(i, sx, y + sy * z, x);
      DivModUnique(i, sx, y' + sy * z', x');
      DivModUnique(i / sx, sy, z, y);
      DivModUnique(i / sx, sy, z', y');
    }

    /** Every offset of the cell array belongs to a cell of the grid. */
    lemma IndexOnto(i: int)
      requires Valid() && 0 <= i < |cells|
      ensures InGrid(i % sx, (i / sx) % sy, i / sx / sy)
      ensures Index(i % sx, (i / sx) % sy, i / sx / sy) == i
    {
      DivDiv(i, sx, sy);
      DivBelow(i, sx * sy, sz);
    }

    /** The indices stored in cell (x, y, z); no cell, and so nothing, outside
        the grid. */
    function CellAt(x: int, y: int, z: int): seq<uint32>
      reads this
    {
      var i := Index(x, y, z);
      if InGrid(x, y, z) && 0 <= i < |cells| then cells[i] else []
    }

    /** Inside the grid, a cell's indices are the cell array's entry at the
        cell's offset. */
    lemma CellAtOffset(x: int, y: int, z: int)
      requires Valid() && InGrid(x, y, z)
      ensures 0 <= Index(x, y, z) < |cells| && CellAt(x, y, z) == cells[Index(x, y, z)]
    {
      IndexInRange(x, y, z);
    }

    /** `init`, from the cell width and the box's side lengths onward: the
        grid gets `CellsAlong` cells per axis and a cell array of that many
        empty cells, whatever it held before. */
    method Init(diagonal: Vec3, cellWidth: real)
      requires cellWidth > 0.0
      modifies this
      ensures Valid()
      ensures sx == CellsAlong(diagonal.x, cellWidth)
      ensures sy == CellsAlong(diagonal.y, cellWidth)
      ensures sz == CellsAlong(diagonal.z, cellWidth)
      ensures forall i | 0 <= i < |cells| :: cells[i] == []
    {
      cells := [];
      sx := CellsAlong(diagonal.x, cellWidth);
      sy := CellsAlong(diagonal.y, cellWidth);
      sz := CellsAlong(diagonal.z, cellWidth);
      ProductPositive(sx, sy);
      ProductPositive(sx * sy, sz);
      cells := seq(sx * sy * sz, _ => []);
    }

    // ---------------------------------------------------------------------
    // Gather

    /** What a gather over a row, a slab (rows y0..y1) and a block (slabs
        z0..z1) of cells puts in front of the caller's indices: the cells'
        lists, each whole and in its own order, the cell visited last (largest
        x, then y, then z) first. */
    function GatheredRow(x0: int, x1: int, y: int, z: int): seq<uint32>
      reads this
      decreases x1 - x0 + 1
    {
      if x1 < x0 then [] else CellAt(x1, y, z) + GatheredRow(x0, x1 - 1, y, z)
    }

    function GatheredSlab(x0: int, x1: int, y0: int, y1: int, z: int): seq<uint32>
      reads this
      decreases y1 - y0 + 1
    {
      if y1 < y0 then [] else GatheredRow(x0, x1, y1, z) + GatheredSlab(x0, x1, y0, y1 - 1, z)
    }

    function GatheredBlock(x0: int, x1: int, y0: int, y1: int, z0: int, z1: int): seq<uint32>
      reads this
      decreases z1 - z0 + 1
    {
      if z1 < z0 then [] else GatheredSlab(x0, x1, y0, y1, z1) + GatheredBlock(x0, x1, y0, y1, z0, z1 - 1)
    }

    /** The block of a gather lies inside the grid or is empty. */
    predicate RangeInGrid(x0: int, x1: int, y0: int, y1: int, z0: int, z1: int)
      reads this
    {
      x0 <= x1 && y0 <= y1 && z0 <= z1 ==>
        0 <= x0 && x1 < sx && 0 <= y0 && y1 < sy && 0 <= z0 && z1 < sz
    }

    /** `gather` over the cell range the query box maps to: it visits the
        block's cells, z outermost, and splices each cell's indices in at the
        front of `indexArray`. The cell array is only read. */
    method Gather(x0: int, x1: int, y0: int, y1: int, z0: int, z1: int, indexArray: seq<uint32>)
      returns (result: seq<uint32>)
      requires Valid() && RangeInGrid(x0, x1, y0, y1, z0, z1)
      ensures result == GatheredBlock(x0, x1, y0, y1, z0, z1) + indexArray
    {
      result := indexArray;
      var z := z0;
      while z <= z1
        invariant z0 <= z && (z <= z1 + 1 || z == z0)
        invariant result == GatheredBlock(x0, x1, y0, y1, z0, z - 1) + indexArray
      {
        ghost var slabTail := result;
        var y := y0;
        while y <= y1
          invariant y0 <= y && (y <= y1 + 1 || y == y0)
          invariant result == GatheredSlab(x0, x1, y0, y - 1, z) + slabTail
        {
          ghost var rowTail := result;
          var x := x0;
          while x <= x1
            invariant x0 <= x && (x <= x1 + 1 || x == x0)
            invariant result == GatheredRow(x0, x - 1, y, z) + rowTail
          {
            var idx := Index(x, y, z);
            CellAtOffset(x, y, z);
            AppendAssoc(cells[idx], GatheredRow(x0, x - 1, y, z), rowTail);
            result := cells[idx] + result;
            x := x + 1;
          }
          assert GatheredRow(x0, x - 1, y, z) == GatheredRow(x0, x1, y, z);
          AppendAssoc(GatheredRow(x0, x1, y, z), GatheredSlab(x0, x1, y0, y - 1, z), slabTail);
          y := y + 1;
        }
        assert GatheredSlab(x0, x1, y0, y - 1, z) == GatheredSlab(x0, x1, y0, y1, z);
        AppendAssoc(GatheredSlab(x0, x1, y0, y1, z), GatheredBlock(x0, x1, y0, y1, z0, z - 1), indexArray);
        z := z + 1;
      }
      assert GatheredBlock(x0, x1, y0, y1, z0, z - 1) == GatheredBlock(x0, x1, y0, y1, z0, z1);
    }

    // ---------------------------------------------------------------------
    // Morton sweep

    /** The number of cells along an axis. */
    function Extent(a: Axis): int
      reads this
    {
      match a
      case X => sx
      case Y => sy
      case Z => sz
    }

    /** Side of the power-of-two square (layered) or cube (compact) the sweep
        runs over: the longest extent rounded up to a power of two. */
    function Side(): (s: nat)
      requires Valid()
      reads this
      ensures IsPowerOfTwo(s) && s >= 1
      ensures sx <= s && sy <= s && sz <= s
      ensures s == 1 || s / 2 < Max3(sx, sy, sz)
    {
      NextPowerOfTwo(Max3(sx, sy, sz))
    }

    /** The test `mortonIndex` makes: a grid longer than the threshold on some
        axis is swept in two-dimensional layers. */
    predicate Layered()
      reads this
    {
      Max3(sx, sy, sz) > LAYERED_THRESHOLD
    }

    /** `mortonCount` makes the same choice on the rounded side. */
    lemma ModeTestsAgree()
      requires Valid()
      ensures Side() > LAYERED_THRESHOLD <==> Layered()
    {
      assert IsPowerOfTwo(LAYERED_THRESHOLD);
      NextPowerOfTwoExceeds(Max3(sx, sy, sz), LAYERED_THRESHOLD);
    }

    /** The layers are stacked along the first axis, in x, y, z order, whose
        extent is the smallest. */
    function LayerAxis(): (a: Axis)
      reads this
      ensures Extent(a) == Min3(sx, sy, sz)
      ensures a == X <==> sx == Min3(sx, sy, sz)
      ensures a == Y <==> sx != Min3(sx, sy, sz) && sy == Min3(sx, sy, sz)
    {
      var layerCount := Min3(sx, sy, sz);
      if sx == layerCount then X else if sy == layerCount then Y else Z
    }

    /** A grid whose longest extent is a power of two is swept with that
        side. */
    lemma SideIs(p: nat)
      requires Valid() && IsPowerOfTwo(p) && Max3(sx, sy, sz) == p
      ensures Side() == p
    {
      NextPowerOfTwoOfPower(p);
    }

    /** `mortonIndex` computes the layer size `s * s` in 32 bits and divides
        by it; for a power-of-two side above 2^15 that product wraps to 0
        (`LayerSizeWraps`), so the side must stay at most 2^15. Compact mode
        has a side of at most 1024 and never divides. */
    ghost predicate DecodeFits()
      reads this
    {
      Valid() && Side() <= 0x8000
    }

    /** Besides, every offset of the cell array fits the `int` that
        `mortonIndex` returns. */
    ghost predicate OffsetsFit()
      reads this
    {
      DecodeFits() && |cells| <= 0x8000_0000
    }

    /** Besides, the sweep length fits the 32 bits `mortonCount` returns, so
        the cast does not truncate it. */
    ghost predicate SweepFits()
      reads this
    {
      OffsetsFit() && Side() * Side() * Min3(sx, sy, sz) < UINT32_LIMIT
    }

    /** Within `DecodeFits` the layer size does not wrap in 32 bits. */
    lemma LayerSizeFits()
      requires DecodeFits()
      ensures Side() * Side() <= 0x4000_0000
    {
      SquareFits(Side());
    }

    /** Beyond it, the layer size truncates to 0 in 32 bits. */
    lemma LayerSizeWraps()
      requires Valid() && Side() > 0x8000
      ensures (Side() * Side()) % UINT32_LIMIT == 0
    {
      SquareWraps(Side());
    }

    /** `mortonCount`: how many codes a sweep runs through. The product is
        taken modulo 2^32, as the source's cast to 32 bits does, which never
        makes it larger; when the grid fits, it is the square of the side
        times the number of layers, or the cube of the side. */
    function MortonCount(): (n: uint32)
      requires Valid()
      reads this
      ensures Layered() ==> n <= Side() * Side() * Min3(sx, sy, sz)
      ensures SweepFits() && Layered() ==> n == Side() * Side() * Min3(sx, sy, sz)
      ensures SweepFits() && !Layered() ==> n == Side() * Side() * Side()
    {
      var s := Side();
      ModeTestsAgree();
      if s > LAYERED_THRESHOLD then
        StackWithin(s, Min3(sx, sy, sz));
        (s * s * Min3(sx, sy, sz)) % UINT32_LIMIT
      else
        SmallCube(s);
        s * s * s
    }

    /** The in-layer Morton code of a cell: its two coordinates across the
        layer axis, in the order `mortonIndex` decodes them. */
    function InLayerCode(c: Cell): nat
      reads this
    {
      match LayerAxis()
      case X => Encode2(c.y, c.z)
      case Y => Encode2(c.z, c.x)
      case Z => Encode2(c.x, c.y)
    }

    /** The code at which the sweep visits a cell: its layer times the layer
        size plus its in-layer code, or its three-dimensional Morton code. */
    function SweepCode(c: Cell): nat
      requires Valid()
      reads this
    {
      if Layered() then
        var area := Side() * Side();
        MulNonneg(Side(), Side());
        MulNonneg(Coordinate(c, LayerAxis()), area);
        Coordinate(c, LayerAxis()) * area + InLayerCode(c)
      else
        Encode3(c.x, c.y, c.z)
    }

    /** The cell coordinates `mortonIndex` decodes from a code: in layered
        mode the quotient by the layer size is the coordinate along the layer
        axis and the remainder is decoded in 2D; otherwise the code is decoded
        in 3D. Nothing is lost: the decoded cell's sweep code is the code. */
    function Decode(code: uint32): (c: Cell)
      requires DecodeFits()
      reads this
      ensures SweepCode(c) == code
      ensures Layered() ==> Coordinate(c, LayerAxis()) == code / (Side() * Side())
    {
      if Layered() then
        var area := Side() * Side();
        ProductPositive(Side(), Side());
        QuotRem(code, area);
        var layer := code / area;
        var rem := code % area;
        Encode2OfDecode(rem);
        match LayerAxis()
        case X => Cell(layer, Decode2X(rem), Decode2Y(rem))
        case Y => Cell(Decode2Y(rem), layer, Decode2X(rem))
        case Z => Cell(Decode2X(rem), Decode2Y(rem), layer)
      else
        Encode3OfDecode(code);
        Cell(Decode3X(code), Decode3Y(code), Decode3Z(code))
    }

    /** `mortonIndex`: the offset of the cell a code decodes to, or -1 when
        that cell lies outside the grid. */
    function MortonIndex(code: uint32): (r: int)
      requires OffsetsFit()
      reads this
      ensures r == -1 <==> !InGrid(Decode(code).x, Decode(code).y, Decode(code).z)
      ensures r != -1 ==> 0 <= r < |cells| && r == Index(Decode(code).x, Decode(code).y, Decode(code).z)
      ensures r < 0x8000_0000
    {
      var c := Decode(code);
      if c.x >= sx || c.y >= sy || c.z >= sz then
        -1
      else
        IndexInRange(c.x, c.y, c.z);
        Index(c.x, c.y, c.z)
    }

    /** In layered mode every code the sweep runs through names a layer that
        exists. */
    lemma LayerBelowExtent(code: uint32)
      requires DecodeFits() && Layered() && code < MortonCount()
      ensures Coordinate(Decode(code), LayerAxis()) < Extent(LayerAxis())
    {
      var s := Side();
      ProductPositive(s, s);
      DivBelow(code, s * s, Min3(sx, sy, sz));
    }

    /** A cell's sweep code stays below the sweep length. */
    lemma SweepCodeBelowCount(c: Cell)
      requires SweepFits() && InGrid(c.x, c.y, c.z)
      ensures SweepCode(c) < MortonCount()
    {
      var s := Side();
      if Layered() {
        match LayerAxis() {
          case X => Encode2Bound(c.y, c.z, s);
          case Y => Encode2Bound(c.z, c.x, s);
          case Z => Encode2Bound(c.x, c.y, s);
        }
        LayerSweepBound(Coordinate(c, LayerAxis()), InLayerCode(c), s * s, Min3(sx, sy, sz));
      } else {
        Encode3Bound(c.x, c.y, c.z, s);
      }
    }

    /** Decoding a cell's sweep code gives the cell back. */
    lemma DecodeSweepCode(c: Cell)
      requires SweepFits() && InGrid(c.x, c.y, c.z) && SweepCode(c) < MortonCount()
      ensures Decode(SweepCode(c)) == c
    {
      var s := Side();
      var code := SweepCode(c);
      if Layered() {
        var area := s * s;
        var layer := Coordinate(c, LayerAxis());
        var rem := InLayerCode(c);
        match LayerAxis() {
          case X =>
            Encode2Bound(c.y, c.z, s);
            Decode2OfEncode(c.y, c.z);
          case Y =>
            Encode2Bound(c.z, c.x, s);
            Decode2OfEncode(c.z, c.x);
          case Z =>
            Encode2Bound(c.x, c.y, s);
            Decode2OfEncode(c.x, c.y);
        }
        DivModUnique(code, area, layer, rem);
      } else {
        Decode3OfEncode(c.x, c.y, c.z);
      }
    }

    /** The sweep reaches every cell: each cell's sweep code is below the
        count and `mortonIndex` maps it to that cell's offset. */
    lemma SweepReaches(c: Cell)
      requires SweepFits() && InGrid(c.x, c.y, c.z)
      ensures SweepCode(c) < MortonCount()
      ensures MortonIndex(SweepCode(c)) == Index(c.x, c.y, c.z)
    {
      SweepCodeBelowCount(c);
      DecodeSweepCode(c);
    }

    /** No cell is reached twice: codes `mortonIndex` maps to the same cell
        are equal. */
    lemma SweepInjective(code1: uint32, code2: uint32)
      requires OffsetsFit()
      requires MortonIndex(code1) != -1 && MortonIndex(code1) == MortonIndex(code2)
      ensures code1 == code2
    {
      var c1, c2 := Decode(code1), Decode(code2);
      IndexInjective(c1.x, c1.y, c1.z, c2.x, c2.y, c2.z);
    }

    /** The sweep is at least as long as the grid has cells. */
    lemma MortonCountCoversGrid()
      requires SweepFits()
      ensures sx * sy * sz <= MortonCount()
    {
      var s := Side();
      if Layered() {
        GridWithinStack(sx, sy, sz, s);
      } else {
        BoxBound(sx, sy, sz, s, s, s);
      }
    }

    /** A 2000 by 2 by 2 grid is swept in two layers of 2048 by 2048 codes
        each; its y and z extents tie for the smallest, and the layers are
        stacked along y, the first of the two. */
    lemma ElongatedGridSweep()
      requires Valid() && sx == 2000 && sy == 2 && sz == 2
      ensures SweepFits() && Layered()
      ensures Side() == 2048 && LayerAxis() == Y
      ensures MortonCount() == 2048 * 2048 * 2
    {
      assert Max3(sx, sy, sz) == 2000;
      assert NextPowerOfTwo(2) == 2;
      assert NextPowerOfTwo(4) == 4;
      assert NextPowerOfTwo(8) == 8;
      assert NextPowerOfTwo(16) == 16;
      assert NextPowerOfTwo(32) == 32;
      assert NextPowerOfTwo(63) == 64;
      assert NextPowerOfTwo(125) == 128;
      assert NextPowerOfTwo(250) == 256;
      assert NextPowerOfTwo(500) == 512;
      assert NextPowerOfTwo(1000) == 1024;
      assert NextPowerOfTwo(2000) == 2048;
    }

    /** A grid 32768 cells long is swept with that side. */
    lemma LongGridSide()
      requires Valid() && sx == 32768 && sy <= 32768 && sz <= 32768
      ensures Side() == 32768 && Layered()
    {
      assert Max3(sx, sy, sz) == 32768;
      PowerOfTwo32768();
      SideIs(32768);
    }

    /** With side 2^15, each layer holds 2^30 codes, and the count is the
        number of layers times 2^30, truncated to 32 bits: every fourth layer
        wraps it back to 0. */
    lemma LongGridCount(m: nat)
      requires Valid() && Side() == 0x8000 && Layered() && Min3(sx, sy, sz) == m
      ensures DecodeFits()
      ensures Side() * Side() * Min3(sx, sy, sz) == 0x4000_0000 * m
      ensures MortonCount() == 0x4000_0000 * (m % 4)
    {
      ProductOf(Side(), Side(), 0x8000, 0x8000);
      ProductOf(Side() * Side(), Min3(sx, sy, sz), 0x4000_0000, m);
      ModeTestsAgree();
      LayersWrap(m);
    }

    /** A 32768 by 3 by 3 grid fits: three layers of 2^30 codes each. */
    lemma WideGridSweep()
      requires Valid() && sx == 32768 && sy == 3 && sz == 3
      ensures SweepFits() && Layered() && LayerAxis() == Y
      ensures MortonCount() == 3 * 0x4000_0000
    {
      LongGridSide();
      assert Min3(sx, sy, sz) == 3;
      LongGridCount(3);
      ProductOf(sx, sy, 32768, 3);
      ProductOf(sx * sy, sz, 32768 * 3, 3);
    }

    /** A 32768 by 4 by 4 grid decodes and indexes within 32 bits, but its
        four layers of 2^30 codes add up to 2^32, which `mortonCount` returns
        truncated to 0. */
    lemma TruncatedCount()
      requires Valid() && sx == 32768 && sy == 4 && sz == 4
      ensures OffsetsFit()
      ensures !SweepFits()
      ensures MortonCount() == 0
    {
      LongGridSide();
      assert Min3(sx, sy, sz) == 4;
      LongGridCount(4);
      ProductOf(sx, sy, 32768, 4);
      ProductOf(sx * sy, sz, 32768 * 4, 4);
    }

    // ---------------------------------------------------------------------
    // Gather, seen as the cells it visits

    /** Splicing the listed cells' indices in front, one cell after the other,
        leaves the last cell's indices first. */
    function FrontSpliced(visits: seq<Cell3>): seq<uint32>
      reads this
    {
      if visits == [] then []
      else
        var v := visits[|visits| - 1];
        CellAt(v.0, v.1, v.2) + FrontSpliced(visits[..|visits| - 1])
    }

    /** Whatever is visited later comes first. */
    lemma {:induction false} FrontSplicedAppend(a: seq<Cell3>, b: seq<Cell3>)
      ensures FrontSpliced(a + b) == FrontSpliced(b) + FrontSpliced(a)
      decreases |b|
    {
      if b != [] {
        var b' := b[..|b| - 1];
        assert (a + b)[..|a + b| - 1] == a + b';
        FrontSplicedAppend(a, b');
      } else {
        assert a + b == a;
      }
    }

    /** A gather puts in front exactly what splicing each visited cell in, in
        the loops' order, does. */
    lemma {:induction false} RowSpliced(x0: int, x1: int, y: int, z: int)
      ensures GatheredRow(x0, x1, y, z) == FrontSpliced(RowVisits(x0, x1, y, z))
      decreases x1 - x0 + 1
    {
      if x0 <= x1 {
        RowSpliced(x0, x1 - 1, y, z);
        FrontSplicedAppend(RowVisits(x0, x1 - 1, y, z), [(x1, y, z)]);
        assert FrontSpliced([(x1, y, z)]) == CellAt(x1, y, z);
      }
    }

    lemma {:induction false} SlabSpliced(x0: int, x1: int, y0: int, y1: int, z: int)
      ensures GatheredSlab(x0, x1, y0, y1, z) == FrontSpliced(SlabVisits(x0, x1, y0, y1, z))
      decreases y1 - y0 + 1
    {
      if y0 <= y1 {
        SlabSpliced(x0, x1, y0, y1 - 1, z);
        RowSpliced(x0, x1, y1, z);
        FrontSplicedAppend(SlabVisits(x0, x1, y0, y1 - 1, z), RowVisits(x0, x1, y1, z));
      }
    }

    lemma {:induction false} BlockSpliced(x0: int, x1: int, y0: int, y1: int, z0: int, z1: int)
      ensures GatheredBlock(x0, x1, y0, y1, z0, z1) == FrontSpliced(BlockVisits(x0, x1, y0, y1, z0, z1))
      decreases z1 - z0 + 1
    {
      if z0 <= z1 {
        BlockSpliced(x0, x1, y0, y1, z0, z1 - 1);
        SlabSpliced(x0, x1, y0, y1, z1);
        FrontSplicedAppend(BlockVisits(x0, x1, y0, y1, z0, z1 - 1), SlabVisits(x0, x1, y0, y1, z1));
      }
    }

    /** A gather over an empty range adds nothing. */
    lemma {:induction false} RowsEmpty(x0: int, x1: int, y0: int, y1: int, z: int)
      requires x1 < x0
      ensures GatheredSlab(x0, x1, y0, y1, z) == []
      decreases y1 - y0 + 1
    {
      if y0 <= y1 {
        RowsEmpty(x0, x1, y0, y1 - 1, z);
      }
    }

    lemma {:induction false} GatherEmptyRange(x0: int, x1: int, y0: int, y1: int, z0: int, z1: int)
      requires x1 < x0 || y1 < y0 || z1 < z0
      ensures GatheredBlock(x0, x1, y0, y1, z0, z1) == []
      decreases z1 - z0 + 1
    {
      if z0 <= z1 {
        GatherEmptyRange(x0, x1, y0, y1, z0, z1 - 1);
        if x1 < x0 {
          RowsEmpty(x0, x1, y0, y1, z1);
        }
      }
    }

    /** An index is gathered exactly when some cell of the range holds it. */
    lemma {:induction false} RowMembers(p: uint32, x0: int, x1: int, y: int, z: int)
      ensures p in GatheredRow(x0, x1, y, z) <==> exists x :: x0 <= x <= x1 && p in CellAt(x, y, z)
      decreases x1 - x0 + 1
    {
      if x0 <= x1 {
        RowMembers(p, x0, x1 - 1, y, z);
        if p in CellAt(x1, y, z) {
          assert x0 <= x1 <= x1;
        } else if p in GatheredRow(x0, x1 - 1, y, z) {
          var x :| x0 <= x <= x1 - 1 && p in CellAt(x, y, z);
          assert x0 <= x <= x1;
        }
        if exists x :: x0 <= x <= x1 && p in CellAt(x, y, z) {
          var x :| x0 <= x <= x1 && p in CellAt(x, y, z);
          if x < x1 {
            assert x0 <= x <= x1 - 1;
          }
        }
      }
    }

    lemma {:induction false} SlabMembers(p: uint32, x0: int, x1: int, y0: int, y1: int, z: int)
      ensures p in GatheredSlab(x0, x1, y0, y1, z) <==>
        exists x, y :: x0 <= x <= x1 && y0 <= y <= y1 && p in CellAt(x, y, z)
      decreases y1 - y0 + 1
    {
      if y0 <= y1 {
        var row := GatheredRow(x0, x1, y1, z);
        var rest := GatheredSlab(x0, x1, y0, y1 - 1, z);
        assert GatheredSlab(x0, x1, y0, y1, z) == row + rest;
        SlabMembers(p, x0, x1, y0, y1 - 1, z);
        RowMembers(p, x0, x1, y1, z);
        if p in row {
          var x :| x0 <= x <= x1 && p in CellAt(x, y1, z);
          assert x0 <= x <= x1 && y0 <= y1 <= y1 && p in CellAt(x, y1, z);
        } else if p in rest {
          var x, y :| x0 <= x <= x1 && y0 <= y <= y1 - 1 && p in CellAt(x, y, z);
          assert x0 <= x <= x1 && y0 <= y <= y1 && p in CellAt(x, y, z);
        }
        if exists x, y :: x0 <= x <= x1 && y0 <= y <= y1 && p in CellAt(x, y, z) {
          var x, y :| x0 <= x <= x1 && y0 <= y <= y1 && p in CellAt(x, y, z);
          if y == y1 {
            assert p in row;
          } else {
            assert y0 <= y <= y1 - 1;
            assert p in rest;
          }
        }
      }
    }

    lemma {:induction false} GatherMembers(p: uint32, x0: int, x1: int, y0: int, y1: int, z0: int, z1: int)
      ensures p in GatheredBlock(x0, x1, y0, y1, z0, z1) <==>
        exists x, y, z :: x0 <= x <= x1 && y0 <= y <= y1 && z0 <= z <= z1 && p in CellAt(x, y, z)
      decreases z1 - z0 + 1
    {
      if z0 <= z1 {
        var slab := GatheredSlab(x0, x1, y0, y1, z1);
        var rest := GatheredBlock(x0, x1, y0, y1, z0, z1 - 1);
        assert GatheredBlock(x0, x1, y0, y1, z0, z1) == slab + rest;
        GatherMembers(p, x0, x1, y0, y1, z0, z1 - 1);
        SlabMembers(p, x0, x1, y0, y1, z1);
        if p in slab {
          var x, y :| x0 <= x <= x1 && y0 <= y <= y1 && p in CellAt(x, y, z1);
          assert x0 <= x <= x1 && y0 <= y <= y1 && z0 <= z1 <= z1 && p in CellAt(x, y, z1);
        } else if p in rest {
          var x, y, z :| x0 <= x <= x1 && y0 <= y <= y1 && z0 <= z <= z1 - 1 && p in CellAt(x, y, z);
          assert x0 <= x <= x1 && y0 <= y <= y1 && z0 <= z <= z1 && p in CellAt(x, y, z);
        }
        if exists x, y, z :: x0 <= x <= x1 && y0 <= y <= y1 && z0 <= z <= z1 && p in CellAt(x, y, z) {
          var x, y, z :| x0 <= x <= x1 && y0 <= y <= y1 && z0 <= z <= z1 && p in CellAt(x, y, z);
          if z == z1 {
            assert p in slab;
          } else {
            assert z0 <= z <= z1 - 1;
            assert p in rest;
          }
        }
      }
    }
  }
}
