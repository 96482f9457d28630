/**
 Filled boxes and box outlines on a frame buffer. A mask remembers which pixels
 an outline has drawn since it was cleared, so that overlapping outlines blend
 every pixel once.
 */
module BoxDrawing {
  import opened Basics
  import opened PixelBlend

  datatype Format = Rgb565 | Rgb888

  /** The colour of a pixel after a colour is drawn over it. */
  function Ink(format: Format, alpha: Alpha, color: word, bg: word): word {
    match format
    case Rgb565 => Blend565(alpha, color, bg)
    case Rgb888 => Blend888(alpha, color & 0xFF_FFFF, bg)
  }

  /**
   The colour of a pixel is, channel by channel, the weighted mean of the colour
   drawn and the one it had: for 16-bit colours and pixels, and for any 32-bit
   colour, whose top byte does not count, over a pixel without a top byte.
   */
  ghost predicate Mixed(format: Format, alpha: Alpha, color: word, before: word, after: word) {
    match format
    case Rgb565 =>
      Is565(color) && Is565(before) ==>
        Is565(after) && Split565(after) == Mix(alpha, Split565(color), Split565(before))
    case Rgb888 =>
      Is888(before) ==> Is888(after) && Split888(after) == Mix(alpha, Split888(color), Split888(before))
  }

  lemma InkMixes(format: Format, alpha: Alpha, color: word, bg: word)
    ensures Mixed(format, alpha, color, bg, Ink(format, alpha, color, bg))
  {
    match format
    case Rgb565 =>
      if Is565(color) && Is565(bg) {
        Blend565IsMix(alpha, color, bg);
      }
    case Rgb888 =>
      MaskKeepsChannels(color);
      if Is888(bg) {
        Blend888IsMix(alpha, color & 0xFF_FFFF, bg);
      }
  }

  lemma MaskKeepsChannels(color: word)
    ensures Is888(color & 0xFF_FFFF) && Split888(color & 0xFF_FFFF) == Split888(color)
  {
  }

  // ----- pixels and their places -----

  function Row(i: nat, w: nat): nat requires w > 0 { i / w }

  function Col(i: nat, w: nat): nat requires w > 0 { i % w }

  lemma PlaceUnique(i: nat, w: nat, r: nat, c: nat)
    requires c < w
    ensures i == r * w + c <==> Row(i, w) == r && Col(i, w) == c
  {
    DivMod(i, w);
    if i == r * w + c {
      DivUnique(i, w, r);
    }
  }

  lemma PlaceInBuffer(r: nat, c: nat, rows: nat, w: nat, length: nat)
    requires r < rows && c < w && rows * w <= length
    ensures r * w + c < length
  {
    MulUp(r + 1, rows, w);
  }

  // ----- outlines -----

  /** An outline with its two line widths. */
  datatype Box = Box(x: nat, y: nat, dx: nat, dy: nat, width: nat, height: nat) {
    function Rows(): nat { y + dy + if height > 0 then height else 1 }

    /** Every pixel of the outline is in the buffer. */
    predicate Fits(w: nat, length: nat) {
      x + dx < w && x + dx + width <= w && Rows() * w <= length
    }

    /** The rows of the top and bottom bar, and the columns of the two sides. */
    predicate InBar(r: int) { y <= r < y + height || y + dy <= r < y + dy + height }

    predicate InSide(c: int) { x <= c < x + width || x + dx <= c < x + dx + width }

    predicate Outer(r: nat, c: nat) { y <= r < y + dy + height && x <= c < x + dx + width }

    predicate Inner(r: nat, c: nat) { y + height <= r < y + dy && x + width <= c < x + dx }

    /** The outer rectangle without the inner one. */
    predicate Frame(r: nat, c: nat) { Outer(r, c) && !Inner(r, c) }

    /** What an opaque outline draws: its bars end with the first column and row of the far sides. */
    predicate OpaqueFrame(r: nat, c: nat) {
      (x <= c <= x + dx && InBar(r)) || (y <= r <= y + dy && InSide(c))
    }
  }

  datatype Job = Job(box: Box, alpha: Alpha, color: word) {
    predicate Covers(r: nat, c: nat) {
      match alpha
      case Alpha0 => false
      case Alpha100 => box.OpaqueFrame(r, c)
      case _ => box.Frame(r, c)
    }
  }

  /** An opaque outline leaves out a corner unless one of its lines is a single pixel wide. */
  lemma OpaqueIsFrameIff(b: Box)
    ensures (forall r: nat, c: nat :: b.OpaqueFrame(r, c) == b.Frame(r, c))
       <==> (b.width == 0 && b.height == 0) || (b.width == 1 && b.height >= 1) || (b.height == 1 && b.width >= 1)
  {
    if b.width == 0 && b.height > 0 {
      assert b.OpaqueFrame(b.y, b.x + b.dx) && !b.Frame(b.y, b.x + b.dx);
    } else if b.height == 0 && b.width > 0 {
      assert b.OpaqueFrame(b.y + b.dy, b.x) && !b.Frame(b.y + b.dy, b.x);
    } else if b.width > 1 && b.height > 1 {
      assert !b.OpaqueFrame(b.y + b.dy + 1, b.x + b.dx + 1) && b.Frame(b.y + b.dy + 1, b.x + b.dx + 1);
    }
  }

  /** An outline with lines of two pixels: opaque, it leaves out its last corner pixel. */
  lemma OpaqueMissesCorner()
    ensures var b := Box(0, 0, 10, 10, 2, 2); b.Frame(11, 11) && !b.OpaqueFrame(11, 11)
  {
  }

  /** A frame buffer and its mask, of the same length. */
  datatype Canvas = Canvas(pixels: seq<word>, graphed: seq<bool>) {
    predicate Valid() { |pixels| == |graphed| }
  }

  /** Drawing an outline changes the pixels it covers that are not masked, and masks them. */
  function Drawn(cv: Canvas, format: Format, w: nat, job: Job): (r: Canvas)
    requires cv.Valid() && w > 0
    ensures r.Valid() && |r.pixels| == |cv.pixels|
  {
    Canvas(
      seq(|cv.pixels|, i requires 0 <= i < |cv.pixels| =>
        if job.Covers(Row(i, w), Col(i, w)) && !cv.graphed[i] then Ink(format, job.alpha, job.color, cv.pixels[i])
        else cv.pixels[i]),
      seq(|cv.pixels|, i requires 0 <= i < |cv.pixels| => cv.graphed[i] || job.Covers(Row(i, w), Col(i, w))))
  }

  function DrawnAll(cv: Canvas, format: Format, w: nat, jobs: seq<Job>): (r: Canvas)
    requires cv.Valid() && w > 0
    ensures r.Valid() && |r.pixels| == |cv.pixels|
    decreases |jobs|
  {
    if jobs == [] then cv else DrawnAll(Drawn(cv, format, w, jobs[0]), format, w, jobs[1..])
  }

  /** The first outline that covers a place, or the number of outlines if none does. */
  function FirstCover(jobs: seq<Job>, r: nat, c: nat): (k: nat)
    ensures k <= |jobs| && (k < |jobs| ==> jobs[k].Covers(r, c))
    ensures forall j | 0 <= j < k :: !jobs[j].Covers(r, c)
  {
    if jobs == [] || jobs[0].Covers(r, c) then 0 else 1 + FirstCover(jobs[1..], r, c)
  }

  /**
   With a cleared mask, any sequence of outlines blends every pixel that some
   of them cover exactly once, from its original value and by the first of
   them, and changes no other pixel.
   */
  lemma BlendedOnce(cv: Canvas, format: Format, w: nat, jobs: seq<Job>, i: nat)
    requires cv.Valid() && w > 0 && i < |cv.pixels|
    ensures var k := FirstCover(jobs, Row(i, w), Col(i, w));
            var r := DrawnAll(cv, format, w, jobs);
      && r.graphed[i] == (cv.graphed[i] || k < |jobs|)
      && (if cv.graphed[i] || k == |jobs| then r.pixels[i] == cv.pixels[i]
          else Mixed(format, jobs[k].alpha, jobs[k].color, cv.pixels[i], r.pixels[i]))
  {
    InkedOnce(cv, format, w, jobs, i);
    var k := FirstCover(jobs, Row(i, w), Col(i, w));
    if k < |jobs| {
      InkMixes(format, jobs[k].alpha, jobs[k].color, cv.pixels[i]);
    }
  }

  lemma {:induction false} InkedOnce(cv: Canvas, format: Format, w: nat, jobs: seq<Job>, i: nat)
    requires cv.Valid() && w > 0 && i < |cv.pixels|
    ensures var k := FirstCover(jobs, Row(i, w), Col(i, w));
            var r := DrawnAll(cv, format, w, jobs);
      && r.graphed[i] == (cv.graphed[i] || k < |jobs|)
      && r.pixels[i] == if cv.graphed[i] || k == |jobs| then cv.pixels[i]
                        else Ink(format, jobs[k].alpha, jobs[k].color, cv.pixels[i])
    decreases |jobs|
  {
    if jobs != [] {
      InkedOnce(Drawn(cv, format, w, jobs[0]), format, w, jobs[1..], i);
    }
  }

  // ----- drawing in place -----

  /** The buffers differ from the canvas in just the places drawn so far. */
  ghost predicate Shows(buffer: array<word>, mask: array<bool>, cv: Canvas, format: Format, w: nat, job: Job,
                        done: set<(int, int)>)
    requires cv.Valid() && w > 0
    reads buffer, mask
  {
    && buffer as object != mask as object && buffer.Length == mask.Length == |cv.pixels|
    && forall i: nat | i < |cv.pixels| ::
         && buffer[i] == (if (Row(i, w), Col(i, w)) in done && !cv.graphed[i]
                          then Ink(format, job.alpha, job.color, cv.pixels[i]) else cv.pixels[i])
         && mask[i] == (cv.graphed[i] || (Row(i, w), Col(i, w)) in done)
  }

  /** Draws one pixel of an outline unless it is masked. */
  method Plot(buffer: array<word>, mask: array<bool>, format: Format, w: nat, job: Job, r: nat, c: nat,
              ghost cv: Canvas, ghost done: set<(int, int)>)
    requires cv.Valid() && job.box.Fits(w, buffer.Length) && c < w && r < job.box.Rows()
    requires Shows(buffer, mask, cv, format, w, job, done)
    modifies buffer, mask
    ensures Shows(buffer, mask, cv, format, w, job, done + {(r, c)})
  {
    var idx := r * w + c;
    PlaceInBuffer(r, c, job.box.Rows(), w, buffer.Length);
    PlaceUnique(idx, w, r, c);
    if !mask[idx] {
      buffer[idx] := Ink(format, job.alpha, job.color, buffer[idx]);
      mask[idx] := true;
    }
    forall i: nat | i < |cv.pixels|
      ensures (Row(i, w), Col(i, w)) in done + {(r, c)} <==> i == idx || (Row(i, w), Col(i, w)) in done
    {
      PlaceUnique(i, w, r, c);
    }
    assert forall i: nat | i < |cv.pixels| && i != idx :: buffer[i] == old(buffer[i]) && mask[i] == old(mask[i]);
  }

  /** Draws the same row offset of the top and bottom bar in one column, or the same column offset of both sides. */
  method PlotPair(buffer: array<word>, mask: array<bool>, format: Format, w: nat, job: Job,
                  r: nat, c: nat, r': nat, c': nat, ghost cv: Canvas, ghost before: set<(int, int)>)
    returns (ghost done: set<(int, int)>)
    requires cv.Valid() && job.box.Fits(w, buffer.Length)
    requires c < w && c' < w && r < job.box.Rows() && r' < job.box.Rows()
    requires Shows(buffer, mask, cv, format, w, job, before)
    modifies buffer, mask
    ensures Shows(buffer, mask, cv, format, w, job, done)
    ensures forall p: (int, int) :: p in done <==> p in before || p == (r, c) || p == (r', c')
  {
    Plot(buffer, mask, format, w, job, r, c, cv, before);
    Plot(buffer, mask, format, w, job, r', c', cv, before + {(r, c)});
    done := before + {(r, c)} + {(r', c')};
  }

  /** Both bars in one column. */
  method PlotColumn(buffer: array<word>, mask: array<bool>, format: Format, w: nat, job: Job, i: nat,
                    ghost cv: Canvas, ghost before: set<(int, int)>) returns (ghost done: set<(int, int)>)
    requires cv.Valid() && job.box.Fits(w, buffer.Length) && i < w
    requires Shows(buffer, mask, cv, format, w, job, before)
    modifies buffer, mask
    ensures Shows(buffer, mask, cv, format, w, job, done)
    ensures forall p: (int, int) :: p in done <==> p in before || (p.1 == i && job.box.InBar(p.0))
  {
    var b := job.box;
    done := before;
    for k := 0 to b.height
      invariant Shows(buffer, mask, cv, format, w, job, done)
      invariant forall p: (int, int) :: p in done <==>
        p in before || (p.1 == i && (b.y <= p.0 < b.y + k || b.y + b.dy <= p.0 < b.y + b.dy + k))
    {
      done := PlotPair(buffer, mask, format, w, job, b.y + k, i, b.y + b.dy + k, i, cv, done);
    }
  }

  /** Both bars over some columns. */
  method PlotBars(buffer: array<word>, mask: array<bool>, format: Format, w: nat, job: Job, end: nat,
                  ghost cv: Canvas) returns (ghost done: set<(int, int)>)
    requires cv.Valid() && job.box.Fits(w, buffer.Length) && job.box.x <= end <= w
    requires Shows(buffer, mask, cv, format, w, job, {})
    modifies buffer, mask
    ensures Shows(buffer, mask, cv, format, w, job, done)
    ensures forall p: (int, int) :: p in done <==> job.box.x <= p.1 < end && job.box.InBar(p.0)
  {
    done := {};
    for i := job.box.x to end
      invariant Shows(buffer, mask, cv, format, w, job, done)
      invariant forall p: (int, int) :: p in done <==> job.box.x <= p.1 < i && job.box.InBar(p.0)
    {
      done := PlotColumn(buffer, mask, format, w, job, i, cv, done);
    }
  }

  /** Both sides in one row. */
  method PlotRow(buffer: array<word>, mask: array<bool>, format: Format, w: nat, job: Job, j: nat,
                 ghost cv: Canvas, ghost before: set<(int, int)>) returns (ghost done: set<(int, int)>)
    requires cv.Valid() && job.box.Fits(w, buffer.Length) && j < job.box.Rows()
    requires Shows(buffer, mask, cv, format, w, job, before)
    modifies buffer, mask
    ensures Shows(buffer, mask, cv, format, w, job, done)
    ensures forall p: (int, int) :: p in done <==> p in before || (p.0 == j && job.box.InSide(p.1))
  {
    var b := job.box;
    done := before;
    for k := 0 to b.width
      invariant Shows(buffer, mask, cv, format, w, job, done)
      invariant forall p: (int, int) :: p in done <==>
        p in before || (p.0 == j && (b.x <= p.1 < b.x + k || b.x + b.dx <= p.1 < b.x + b.dx + k))
    {
      done := PlotPair(buffer, mask, format, w, job, j, b.x + k, j, b.x + b.dx + k, cv, done);
    }
  }

  /** Both sides over some rows. */
  method PlotSides(buffer: array<word>, mask: array<bool>, format: Format, w: nat, job: Job, start: nat, end: nat,
                   ghost cv: Canvas, ghost bars: set<(int, int)>) returns (ghost done: set<(int, int)>)
    requires cv.Valid() && job.box.Fits(w, buffer.Length) && end <= job.box.Rows()
    requires Shows(buffer, mask, cv, format, w, job, bars)
    modifies buffer, mask
    ensures Shows(buffer, mask, cv, format, w, job, done)
    ensures forall p: (int, int) :: p in done <==> p in bars || (start <= p.0 < end && job.box.InSide(p.1))
  {
    done := bars;
    var j := start;
    while j < end
      invariant start <= j && (j <= end || j == start)
      invariant Shows(buffer, mask, cv, format, w, job, done)
      invariant forall p: (int, int) :: p in done <==> p in bars || (start <= p.0 < j && job.box.InSide(p.1))
    {
      done := PlotRow(buffer, mask, format, w, job, j, cv, done);
      j := j + 1;
    }
  }

  /** Draws an outline. */
  method DrawBox(buffer: array<word>, mask: array<bool>, format: Format, w: nat, job: Job)
    requires job.box.Fits(w, buffer.Length) && buffer.Length == mask.Length && buffer as object != mask as object
    modifies buffer, mask
    ensures Canvas(buffer[..], mask[..]) == Drawn(old(Canvas(buffer[..], mask[..])), format, w, job)
    ensures forall i: nat | i < buffer.Length ::
      var covered := job.Covers(Row(i, w), Col(i, w));
      && mask[i] == (old(mask[i]) || covered)
      && if covered && !old(mask[i]) then Mixed(format, job.alpha, job.color, old(buffer[i]), buffer[i])
         else buffer[i] == old(buffer[i])
  {
    InkBox(buffer, mask, format, w, job);
    ghost var r := Canvas(buffer[..], mask[..]);
    forall i: nat | i < buffer.Length
      ensures r.pixels[i] == buffer[i] && r.graphed[i] == mask[i]
      ensures Mixed(format, job.alpha, job.color, old(buffer[i]), Ink(format, job.alpha, job.color, old(buffer[i])))
    {
      InkMixes(format, job.alpha, job.color, old(buffer[i]));
    }
  }

  /** The bars over their columns, then the sides over the rows left. */
  method InkBox(buffer: array<word>, mask: array<bool>, format: Format, w: nat, job: Job)
    requires job.box.Fits(w, buffer.Length) && buffer.Length == mask.Length && buffer as object != mask as object
    modifies buffer, mask
    ensures Canvas(buffer[..], mask[..]) == Drawn(old(Canvas(buffer[..], mask[..])), format, w, job)
  {
    ghost var cv := Canvas(buffer[..], mask[..]);
    var b := job.box;
    ghost var done: set<(int, int)> := {};
    match job.alpha {
      case Alpha0 =>
      case Alpha100 =>
        done := PlotBars(buffer, mask, format, w, job, b.x + b.dx + 1, cv);
        done := PlotSides(buffer, mask, format, w, job, b.y, b.y + b.dy + 1, cv, done);
      case _ =>
        done := PlotBars(buffer, mask, format, w, job, b.x + b.dx + b.width, cv);
        done := PlotSides(buffer, mask, format, w, job, b.y + b.height, b.y + b.dy, cv, done);
    }
    ShowsDrawn(buffer, mask, cv, format, w, job, done);
  }

  lemma ShowsDrawn(buffer: array<word>, mask: array<bool>, cv: Canvas, format: Format, w: nat, job: Job,
                   done: set<(int, int)>)
    requires cv.Valid() && w > 0 && Shows(buffer, mask, cv, format, w, job, done)
    requires forall r: nat, c: nat :: (r, c) in done <==> job.Covers(r, c)
    ensures Canvas(buffer[..], mask[..]) == Drawn(cv, format, w, job)
  {
    var d := Drawn(cv, format, w, job);
    assert buffer[..] == d.pixels;
    assert mask[..] == d.graphed;
  }

  /** Fills a box, whatever the mask says. */
  method FillBox(buffer: array<word>, format: Format, w: nat, x: nat, y: nat, dx: nat, dy: nat, alpha: Alpha, color: word)
    requires w > 0 && x + dx <= w && (y + dy) * w <= buffer.Length
    modifies buffer
    ensures forall i: nat | i < buffer.Length ::
      if y <= Row(i, w) < y + dy && x <= Col(i, w) < x + dx
      then Mixed(format, alpha, color, old(buffer[i]), buffer[i]) else buffer[i] == old(buffer[i])
  {
    InkRectangle(buffer, format, w, x, y, dx, dy, alpha, color);
    forall i: nat | i < buffer.Length
      ensures Mixed(format, alpha, color, old(buffer[i]), Ink(format, alpha, color, old(buffer[i])))
    {
      InkMixes(format, alpha, color, old(buffer[i]));
    }
  }

  method InkRectangle(buffer: array<word>, format: Format, w: nat, x: nat, y: nat, dx: nat, dy: nat,
                      alpha: Alpha, color: word)
    requires w > 0 && x + dx <= w && (y + dy) * w <= buffer.Length
    modifies buffer
    ensures forall i: nat | i < buffer.Length ::
      buffer[i] == if y <= Row(i, w) < y + dy && x <= Col(i, w) < x + dx
                   then Ink(format, alpha, color, old(buffer[i])) else old(buffer[i])
  {
    if alpha.Alpha0? {
      return;
    }
    for j := y to y + dy
      invariant forall i: nat | i < buffer.Length ::
        buffer[i] == if y <= Row(i, w) < j && x <= Col(i, w) < x + dx
                     then Ink(format, alpha, color, old(buffer[i])) else old(buffer[i])
    {
      for k := x to x + dx
        invariant forall i: nat | i < buffer.Length ::
          buffer[i] == if (y <= Row(i, w) < j && x <= Col(i, w) < x + dx) || (Row(i, w) == j && x <= Col(i, w) < k)
                       then Ink(format, alpha, color, old(buffer[i])) else old(buffer[i])
      {
        var idx := j * w + k;
        PlaceInBuffer(j, k, y + dy, w, buffer.Length);
        forall i: nat
          ensures i == idx <==> Row(i, w) == j && Col(i, w) == k
        {
          PlaceUnique(i, w, j, k);
        }
        buffer[idx] := Ink(format, alpha, color, buffer[idx]);
      }
    }
  }

  /** Clears the mask for a new picture. */
  method ClearMask(mask: array<bool>)
    modifies mask
    ensures forall i | 0 <= i < mask.Length :: !mask[i]
  {
    forall i | 0 <= i < mask.Length {
      mask[i] := false;
    }
  }
}
