/**
 The geometry chosen for a new hard-disk image: the fewest surfaces, then the
 shortest tracks, that keep the number of cylinders below 65536.
 */
module HardfileGeometry {
  import opened Basics

  const BLOCK_SIZE: nat := 512

  /** More cylinders than this were a problem for the file system. */
  const MAX_CYLINDERS: nat := 65535
  const MAX_SURFACES: nat := 255
  const MAX_BLOCKS_PER_TRACK: nat := 255

  /** The first size that no geometry within the limits can hold. */
  const LIMIT: nat := (MAX_CYLINDERS + 1) * MAX_SURFACES * MAX_BLOCKS_PER_TRACK

  datatype Geometry = Geometry(cylinders: nat, surfaces: nat, blocksPerTrack: nat) {
    function Cylinder(): nat { blocksPerTrack * surfaces }
    function Capacity(): nat { cylinders * Cylinder() }
  }

  datatype Result = Chosen(geometry: Geometry) | InvalidSize | TooLarge | TooSmall

  /** Whole cylinders in a number of blocks. */
  function Cylinders(blocks: nat, blocksPerTrack: nat, surfaces: nat): nat
    requires blocksPerTrack > 0 && surfaces > 0
  {
    blocks / (blocksPerTrack * surfaces)
  }

  predicate Overfull(blocks: nat, blocksPerTrack: nat, surfaces: nat)
    requires blocksPerTrack > 0 && surfaces > 0
  {
    Cylinders(blocks, blocksPerTrack, surfaces) > MAX_CYLINDERS
  }

  /** What makes a geometry the right one for a number of blocks. */
  ghost predicate Fits(blocks: nat, g: Geometry) {
    && g.cylinders >= 1 && 1 <= g.surfaces <= MAX_SURFACES && 32 <= g.blocksPerTrack <= MAX_BLOCKS_PER_TRACK
    && (g.cylinders <= MAX_CYLINDERS <==> blocks < LIMIT)
    && (forall s | 1 <= s < g.surfaces :: Overfull(blocks, 32, s))
    && (g.blocksPerTrack > 32 ==> g.surfaces == MAX_SURFACES)
    && (forall b | 32 <= b < g.blocksPerTrack :: Overfull(blocks, b, g.surfaces))
    && (g.cylinders > MAX_CYLINDERS ==> g.surfaces == MAX_SURFACES && g.blocksPerTrack == MAX_BLOCKS_PER_TRACK)
    && g.Capacity() <= blocks < g.Capacity() + g.Cylinder()
    && (g.Cylinder() > 32 ==> 32768 * (blocks - g.Capacity()) < blocks)
  }

  /** Exceeding the cylinder limit, by multiplication. */
  lemma OverfullIff(blocks: nat, b: nat, s: nat)
    requires b > 0 && s > 0
    ensures Overfull(blocks, b, s) <==> blocks >= (MAX_CYLINDERS + 1) * (b * s)
  {
    var c := b * s;
    QuotientAtLeast(blocks, c, MAX_CYLINDERS + 1);
  }

  lemma QuotientAtLeast(x: nat, c: nat, q: nat)
    requires c > 0
    ensures x / c >= q <==> x >= q * c
  {
    DivMod(x, c);
    if x / c >= q {
      MulUp(q, x / c, c);
    } else {
      MulUp(x / c + 1, q, c);
    }
  }

  /** Chooses the geometry for an image of the given size in bytes. */
  method MakeHdf(size: nat) returns (r: Result)
    ensures r.InvalidSize? <==> size == 0
    ensures r.TooLarge? <==> size >= U32 * BLOCK_SIZE
    ensures r.TooSmall? <==> 0 < size < 32 * BLOCK_SIZE
    ensures r.Chosen? ==> Fits(size / BLOCK_SIZE, r.geometry)
  {
    if size == 0 {
      return InvalidSize;
    }
    var blocks := size / BLOCK_SIZE;
    if blocks >= U32 {
      return TooLarge;
    }
    var g := ChooseGeometry(blocks);
    return if g.cylinders == 0 then TooSmall else Chosen(g);
  }

  /** The two searches: over the surfaces, then over the blocks per track. */
  method ChooseGeometry(blocks: nat) returns (g: Geometry)
    ensures g.cylinders == 0 <==> blocks < 32
    ensures g.cylinders > 0 ==> Fits(blocks, g)
  {
    var blocksPerTrack, surfaces := 32, 1;
    var cylinders := Cylinders(blocks, blocksPerTrack, surfaces);
    if cylinders == 0 {
      return Geometry(0, surfaces, blocksPerTrack);
    }
    while cylinders > MAX_CYLINDERS && surfaces < MAX_SURFACES
      invariant 1 <= surfaces <= MAX_SURFACES && cylinders == Cylinders(blocks, 32, surfaces)
      invariant forall s | 1 <= s < surfaces :: Overfull(blocks, 32, s)
      decreases MAX_SURFACES - surfaces
    {
      surfaces := surfaces + 1;
      cylinders := Cylinders(blocks, blocksPerTrack, surfaces);
    }
    while cylinders > MAX_CYLINDERS && blocksPerTrack < MAX_BLOCKS_PER_TRACK
      invariant 32 <= blocksPerTrack <= MAX_BLOCKS_PER_TRACK
      invariant cylinders == Cylinders(blocks, blocksPerTrack, surfaces)
      invariant cylinders > MAX_CYLINDERS || blocksPerTrack > 32 ==> surfaces == MAX_SURFACES
      invariant forall b | 32 <= b < blocksPerTrack :: Overfull(blocks, b, surfaces)
      decreases MAX_BLOCKS_PER_TRACK - blocksPerTrack
    {
      blocksPerTrack := blocksPerTrack + 1;
      cylinders := Cylinders(blocks, blocksPerTrack, surfaces);
    }
    g := Geometry(cylinders, surfaces, blocksPerTrack);
    ChosenFits(blocks, g);
  }

  /** The two searches end in a fitting geometry. */
  lemma ChosenFits(blocks: nat, g: Geometry)
    requires 32 <= blocks && 1 <= g.surfaces <= MAX_SURFACES && 32 <= g.blocksPerTrack <= MAX_BLOCKS_PER_TRACK
    requires g.cylinders == Cylinders(blocks, g.blocksPerTrack, g.surfaces)
    requires forall s | 1 <= s < g.surfaces :: Overfull(blocks, 32, s)
    requires g.blocksPerTrack > 32 ==> g.surfaces == MAX_SURFACES
    requires forall b | 32 <= b < g.blocksPerTrack :: Overfull(blocks, b, g.surfaces)
    requires g.cylinders > MAX_CYLINDERS ==> g.surfaces == MAX_SURFACES && g.blocksPerTrack == MAX_BLOCKS_PER_TRACK
    ensures g.cylinders >= 1 && Fits(blocks, g)
  {
    DivMod(blocks, g.Cylinder());
    CylinderBounds(g.blocksPerTrack, g.surfaces);
    QuotientAtLeast(blocks, g.Cylinder(), MAX_CYLINDERS + 1);
    if g.blocksPerTrack > 32 {
      assert Overfull(blocks, g.blocksPerTrack - 1, g.surfaces);
      NearlyFull(blocks, g.Cylinder(), g.blocksPerTrack - 1, g.surfaces);
    } else if g.surfaces > 1 {
      assert Overfull(blocks, 32, g.surfaces - 1);
      NearlyFull(blocks, g.Cylinder(), 32, g.surfaces - 1);
    }
  }

  /** Cylinders at most twice as large as ones that overfill leave at least 32768. */
  lemma NearlyFull(blocks: nat, c: nat, b: nat, s: nat)
    requires b > 0 && s > 0 && Overfull(blocks, b, s) && 0 < c <= 2 * (b * s)
    ensures blocks >= 32768 * c && blocks / c >= 1
  {
    OverfullIff(blocks, b, s);
    QuotientAtLeast(blocks, c, 1);
  }

  /** Shortening a track by a block, or dropping a surface, saves at most half a cylinder. */
  lemma CylinderBounds(b: nat, s: nat)
    requires 32 <= b <= MAX_BLOCKS_PER_TRACK && 1 <= s <= MAX_SURFACES
    ensures 32 <= b * s <= MAX_BLOCKS_PER_TRACK * MAX_SURFACES
    ensures b * s <= 2 * ((b - 1) * s)
    ensures s > 1 ==> b * s <= 2 * (b * (s - 1))
  {
    MulUp(32, b, s);
    MulUp(b, MAX_BLOCKS_PER_TRACK, s);
    assert (b - 1) * s == b * s - s && b * (s - 1) == b * s - b;
    assert s > 1 ==> b * 2 <= b * s;
  }

  /** The first size over the limit gets one cylinder too many. */
  lemma LimitOverflows(g: Geometry)
    requires Fits(LIMIT, g)
    ensures g == Geometry(MAX_CYLINDERS + 1, MAX_SURFACES, MAX_BLOCKS_PER_TRACK)
  {
    assert g.Cylinder() == 65025;
  }
}
