/**
 Sector addressing on a CD image in CHD form. The physical, logical and CHD
 addresses of a track are prefix sums over the tracks before it; the laws say
 when the two translations meet, and where the logical one misses.
 */
module ChdToc {
  import opened Basics

  const CD_MAX_TRACKS: nat := 99
  const CD_TRACK_PADDING: nat := 4

  type uint32 = x: int | 0 <= x < U32

  /** 32-bit wrap-around. */
  function Wrap(x: int): uint32 { if 0 <= x < U32 then x else x % 0x1_0000_0000 }

  /** The per-track metadata. */
  datatype Info = Info(trktype: nat, datasize: nat, subsize: nat,
                       frames: nat, extraframes: nat, pregap: nat, pgdatasize: nat, postgap: nat)
  {
    /** The pregap is in the image. */
    predicate Stored() { pgdatasize != 0 }

    /** A stored pregap is part of the track's frames. */
    predicate Valid() { Stored() ==> pregap <= frames }

    /** Pregap frames that precede the data inside the image. */
    function Lead(): nat { if Stored() then pregap else 0 }

    /** Frames of the track's data in the image. */
    function DataFrames(): nat requires Valid() { frames - Lead() }

    /** Logical frames the track advances the next one by. */
    function Advance(): nat { frames + postgap + if Stored() then 0 else pregap }
  }

  /** Frames added so that a track fills whole groups of four. */
  function Padding(frames: nat): nat {
    (frames + CD_TRACK_PADDING - 1) / CD_TRACK_PADDING * CD_TRACK_PADDING - frames
  }

  type Toc = seq<Info>

  function Phys(toc: Toc, i: nat): nat
    requires i <= |toc|
  {
    if i == 0 then 0 else Phys(toc, i - 1) + toc[i - 1].frames
  }

  function Chd(toc: Toc, i: nat): nat
    requires i <= |toc|
  {
    if i == 0 then 0 else Chd(toc, i - 1) + toc[i - 1].frames + toc[i - 1].extraframes
  }

  function Log(toc: Toc, i: nat): nat
    requires i <= |toc|
  {
    if i == 0 then 0 else Log(toc, i - 1) + toc[i - 1].Advance()
  }

  /** The logical frame of a track's data; for the entry behind the last track, of the disc's end. */
  function LogStart(toc: Toc, i: nat): nat
    requires i <= |toc|
  {
    Log(toc, i) + if i < |toc| then toc[i].pregap else 0
  }

  /** Tracks that fit the table with its closing entry, on a disc whose addresses fit 32 bits. */
  ghost predicate ValidToc(toc: Toc) {
    && 0 < |toc| < CD_MAX_TRACKS
    && (forall i | 0 <= i < |toc| :: toc[i].Valid())
    && Chd(toc, |toc|) < U32 && Log(toc, |toc|) < U32
  }

  lemma PaddingIsLeast(frames: nat)
    ensures 0 <= Padding(frames) < CD_TRACK_PADDING && (frames + Padding(frames)) % CD_TRACK_PADDING == 0
  {
    assert Padding(frames) == (frames + 3) / 4 * 4 - frames;
  }

  /** Every track starts on a group of four CHD frames. */
  lemma {:induction false} ChdAligned(toc: Toc, i: nat)
    requires i <= |toc| && forall k | 0 <= k < |toc| :: toc[k].extraframes == Padding(toc[k].frames)
    ensures Chd(toc, i) % CD_TRACK_PADDING == 0
  {
    if i > 0 {
      ChdAligned(toc, i - 1);
      PaddingIsLeast(toc[i - 1].frames);
    }
  }

  lemma {:induction false} Monotone(toc: Toc, i: nat, j: nat)
    requires i <= j <= |toc| && forall k | 0 <= k < |toc| :: toc[k].Valid()
    ensures Phys(toc, i) <= Phys(toc, j) && Chd(toc, i) <= Chd(toc, j) && Log(toc, i) <= Log(toc, j)
    ensures LogStart(toc, i) <= LogStart(toc, j)
    ensures Phys(toc, j) <= Chd(toc, j)
    ensures Phys(toc, j) - Phys(toc, i) <= Chd(toc, j) - Chd(toc, i)
    decreases j
  {
    if j == 0 {
    } else if i == j {
      Monotone(toc, i - 1, j - 1);
    } else {
      Monotone(toc, i, j - 1);
    }
  }

  /** Where a track lies: its frames before its padding, and its data before the next track. */
  lemma TrackBounds(toc: Toc, t: nat)
    requires ValidToc(toc) && t < |toc|
    ensures Phys(toc, t) + toc[t].frames == Phys(toc, t + 1) <= Chd(toc, t + 1)
    ensures Phys(toc, t) <= Chd(toc, t) && Chd(toc, t) + toc[t].frames <= Chd(toc, t + 1) < U32
    ensures Log(toc, t) + toc[t].Advance() == Log(toc, t + 1) <= LogStart(toc, t + 1) < U32
    ensures LogStart(toc, t) == Log(toc, t) + toc[t].pregap
    ensures LogStart(toc, t) + toc[t].DataFrames() + toc[t].postgap == Log(toc, t + 1)
  {
    Monotone(toc, t, t);
    Monotone(toc, t, t + 1);
    Monotone(toc, t + 1, |toc|);
  }

  // ----- the two translations -----

  /** The first track whose successor starts beyond the address, in the order of a scan. */
  function PhysTrack(toc: Toc, lba: nat, i: nat := 0): (t: nat)
    requires i <= |toc|
    ensures i <= t <= |toc|
    ensures t < |toc| ==> lba < Phys(toc, t + 1)
    ensures i < t ==> Phys(toc, t) <= lba
    decreases |toc| - i
  {
    if i == |toc| || lba < Phys(toc, i + 1) then i else PhysTrack(toc, lba, i + 1)
  }

  function LogTrack(toc: Toc, lba: nat, i: nat := 0): (t: nat)
    requires i <= |toc|
    ensures i <= t <= |toc|
    ensures t < |toc| ==> lba < LogStart(toc, t + 1)
    ensures i < t ==> LogStart(toc, t) <= lba
    decreases |toc| - i
  {
    if i == |toc| || lba < LogStart(toc, i + 1) then i else LogTrack(toc, lba, i + 1)
  }

  /** The CHD frame of an address in a track that starts at the given ones; beyond the disc an address is left alone. */
  function Translate(toc: Toc, t: nat, lba: uint32, start: nat): uint32
    requires t <= |toc|
  {
    if t == |toc| then lba else Wrap(lba - start + Chd(toc, t))
  }

  function PhysToChd(toc: Toc, lba: uint32): uint32 {
    var t := PhysTrack(toc, lba); Translate(toc, t, lba, Phys(toc, t))
  }

  function LogToChd(toc: Toc, lba: uint32): uint32 {
    var t := LogTrack(toc, lba); Translate(toc, t, lba, LogStart(toc, t))
  }

  /** What a read fetches: a frame of the image, or blank data for a pregap that is not in it. */
  datatype Source = Blank | Frame(number: uint32)

  /** A track number that no lookup has set stays zero. */
  function OrZero(toc: Toc, t: nat): nat { if t == |toc| then 0 else t }

  function PhysicalSource(toc: Toc, lba: uint32): Source { Frame(PhysToChd(toc, lba)) }

  /** A logical read once its track and CHD frame are known. */
  function Corrected(toc: Toc, t: nat, lba: uint32, frame: uint32): Source
    requires t < |toc|
  {
    if !toc[t].Stored() && lba < LogStart(toc, t) then Blank else Frame(Wrap(frame + toc[t].Lead()))
  }

  function LogicalSource(toc: Toc, lba: uint32): Source
    requires |toc| > 0
  {
    Corrected(toc, OrZero(toc, LogTrack(toc, lba)), lba, LogToChd(toc, lba))
  }

  // ----- physical addresses -----

  /** The lookup finds the one track that contains the address. */
  lemma PhysTrackUnique(toc: Toc, lba: nat, t: nat)
    requires forall k | 0 <= k < |toc| :: toc[k].Valid()
    requires t < |toc|
    ensures PhysTrack(toc, lba) == t <==> Phys(toc, t) <= lba < Phys(toc, t + 1)
  {
    var r := PhysTrack(toc, lba);
    if Phys(toc, t) <= lba < Phys(toc, t + 1) {
      if r < t { Monotone(toc, r + 1, t); } else if t < r { Monotone(toc, t + 1, r); }
    }
  }

  lemma PhysTrackFound(toc: Toc, lba: nat)
    requires lba < Phys(toc, |toc|)
    ensures PhysTrack(toc, lba) < |toc|
  {
  }

  /** The translated frame is inside its own track's frames, never in the padding behind them. */
  lemma PhysicalInTrack(toc: Toc, lba: uint32)
    requires ValidToc(toc) && lba < Phys(toc, |toc|)
    ensures var t := PhysTrack(toc, lba);
            t < |toc| && Chd(toc, t) <= PhysToChd(toc, lba) < Chd(toc, t) + toc[t].frames
            && PhysToChd(toc, lba) - Chd(toc, t) == lba - Phys(toc, t)
  {
    PhysTrackFound(toc, lba);
    var t := PhysTrack(toc, lba);
    PhysTrackUnique(toc, lba, t);
    TrackBounds(toc, t);
  }

  /** Physical translation is strictly increasing. */
  lemma PhysicalIncreasing(toc: Toc, a: uint32, b: uint32)
    requires ValidToc(toc) && a < b < Phys(toc, |toc|)
    ensures PhysToChd(toc, a) < PhysToChd(toc, b)
  {
    PhysicalInTrack(toc, a);
    PhysicalInTrack(toc, b);
    var s, t := PhysTrack(toc, a), PhysTrack(toc, b);
    PhysTrackUnique(toc, a, s);
    PhysTrackUnique(toc, b, t);
    if s < t {
      Monotone(toc, s + 1, t);
    } else if t < s {
      Monotone(toc, t + 1, s);
    }
  }

  /** Every frame of a track that is not padding is reached. */
  lemma PhysicalCovers(toc: Toc, t: nat, lba: nat)
    requires ValidToc(toc) && t < |toc| && Phys(toc, t) <= lba < Phys(toc, t) + toc[t].frames
    ensures lba < U32 && PhysToChd(toc, lba) == lba - Phys(toc, t) + Chd(toc, t)
  {
    TrackBounds(toc, t);
    PhysTrackUnique(toc, lba, t);
  }

  // ----- logical addresses -----

  lemma LogTrackUnique(toc: Toc, lba: nat, t: nat)
    requires forall k | 0 <= k < |toc| :: toc[k].Valid()
    requires t < |toc|
    ensures LogTrack(toc, lba) == t <==> (t == 0 || LogStart(toc, t) <= lba) && lba < LogStart(toc, t + 1)
  {
    var r := LogTrack(toc, lba);
    if (t == 0 || LogStart(toc, t) <= lba) && lba < LogStart(toc, t + 1) {
      if r < t { Monotone(toc, r + 1, t); } else if t < r { Monotone(toc, t + 1, r); }
    }
  }

  /** Two 32-bit additions wrap as one. */
  lemma WrapTwice(x: int, y: int)
    ensures Wrap(Wrap(x) + y) == Wrap(x + y)
  {
  }

  lemma CorrectedFrom(toc: Toc, t: nat, lba: uint32, frame: int)
    requires t < |toc| && LogStart(toc, t) <= lba
    ensures Corrected(toc, t, lba, Wrap(frame)) == Frame(Wrap(frame + toc[t].Lead()))
  {
    WrapTwice(frame, toc[t].Lead());
  }

  /** A logical read from the start of a track's data on. */
  lemma LogicalFrom(toc: Toc, t: nat, lba: nat)
    requires ValidToc(toc) && t < |toc| && LogStart(toc, t) <= lba < LogStart(toc, t + 1)
    ensures lba < U32
    ensures LogicalSource(toc, lba) == Frame(Wrap(lba - LogStart(toc, t) + Chd(toc, t) + toc[t].Lead()))
  {
    assert lba < U32 by { TrackBounds(toc, t); }
    LogTrackUnique(toc, lba, t);
    CorrectedFrom(toc, t, lba, lba - LogStart(toc, t) + Chd(toc, t));
  }

  /** Beyond the disc an address stands for the frame of its own number. */
  lemma BeyondPhysical(toc: Toc, lba: uint32)
    requires ValidToc(toc) && lba >= Phys(toc, |toc|)
    ensures PhysicalSource(toc, lba) == Frame(lba)
  {
    var t := PhysTrack(toc, lba);
    if t < |toc| {
      Monotone(toc, t + 1, |toc|);
    }
  }

  /** So does a logical one, corrected as if it were the first track's. */
  lemma BeyondLogical(toc: Toc, lba: uint32)
    requires ValidToc(toc) && lba >= Log(toc, |toc|)
    ensures LogicalSource(toc, lba) == Frame(Wrap(lba + toc[0].Lead()))
  {
    var t := LogTrack(toc, lba);
    if t < |toc| {
      Monotone(toc, t + 1, |toc|);
    }
    Monotone(toc, 0, |toc|);
  }

  /** The address is in the data region of the track. */
  predicate InData(toc: Toc, t: nat, lba: nat)
    requires t < |toc| && toc[t].Valid()
  {
    LogStart(toc, t) <= lba < LogStart(toc, t) + toc[t].DataFrames()
  }

  /** The image frame that holds a data sector. */
  function DataFrame(toc: Toc, t: nat, lba: nat): int
    requires t < |toc|
  {
    Chd(toc, t) + toc[t].Lead() + (lba - LogStart(toc, t))
  }

  lemma LogicalData(toc: Toc, t: nat, lba: nat)
    requires ValidToc(toc) && t < |toc| && InData(toc, t, lba)
    ensures lba < U32 && 0 <= DataFrame(toc, t, lba) < U32
    ensures LogicalSource(toc, lba) == Source.Frame(DataFrame(toc, t, lba))
    ensures Chd(toc, t) <= DataFrame(toc, t, lba) < Chd(toc, t) + toc[t].frames
  {
    TrackBounds(toc, t);
    LogicalFrom(toc, t, lba);
  }

  /**
   In a track's data region the logical lookup with its pregap correction reads
   the same frame as the physical lookup at the track's start, plus any stored
   pregap, plus the offset.
   */
  lemma ReadsAgree(toc: Toc, t: nat, lba: nat, physical: nat)
    requires ValidToc(toc) && t < |toc| && InData(toc, t, lba)
    requires physical == Phys(toc, t) + toc[t].Lead() + (lba - LogStart(toc, t))
    ensures lba < U32 && physical < U32 && LogicalSource(toc, lba) == PhysicalSource(toc, physical)
  {
    TrackBounds(toc, t);
    LogicalData(toc, t, lba);
    PhysicalCovers(toc, t, physical);
  }

  /** Data regions are disjoint, and distinct data sectors never share a frame. */
  lemma DataSectorsDistinct(toc: Toc, s: nat, a: nat, t: nat, b: nat)
    requires ValidToc(toc) && s < |toc| && InData(toc, s, a) && t < |toc| && InData(toc, t, b)
    ensures a == b ==> s == t
    ensures a < U32 && b < U32 && (a != b ==> LogicalSource(toc, a) != LogicalSource(toc, b))
  {
    LogicalData(toc, s, a);
    LogicalData(toc, t, b);
    DataApart(toc, s, a, t, b);
    DataApart(toc, t, b, s, a);
  }

  lemma DataApart(toc: Toc, s: nat, a: nat, t: nat, b: nat)
    requires ValidToc(toc) && s < |toc| && InData(toc, s, a) && t < |toc| && InData(toc, t, b)
    ensures s < t ==> a < b && DataFrame(toc, s, a) < DataFrame(toc, t, b)
  {
    if s < t {
      TrackBounds(toc, s);
      Monotone(toc, s + 1, t);
    }
  }

  /**
   Blank data is meant for every pregap that is not in the image. It comes out
   only for the first track's: the lookup gives later pregaps to the track before.
   */
  lemma BlankOnlyInFirstPregap(toc: Toc, lba: uint32)
    requires ValidToc(toc)
    ensures LogicalSource(toc, lba) == Blank <==> !toc[0].Stored() && lba < toc[0].pregap
  {
    var t := LogTrack(toc, lba);
    if t < |toc| {
      LogTrackUnique(toc, lba, t);
      Monotone(toc, 1, t + 1);
      assert LogStart(toc, 0) == toc[0].pregap;
      LogTrackUnique(toc, lba, 0);
      Monotone(toc, 0, 1);
    } else {
      Monotone(toc, 0, |toc|);
    }
  }

  /** A pregap that is not in the image reads as blank exactly if no track comes before it. */
  lemma MissingPregapBlankIff(toc: Toc, t: nat, lba: nat)
    requires ValidToc(toc) && t < |toc| && !toc[t].Stored() && Log(toc, t) <= lba < LogStart(toc, t)
    ensures lba < U32 && (LogicalSource(toc, lba) == Blank <==> t == 0)
  {
    TrackBounds(toc, t);
    BlankOnlyInFirstPregap(toc, lba);
    if t > 0 {
      TrackBounds(toc, 0);
      Monotone(toc, 1, t);
    }
  }

  /** A two-track disc: the second track's missing pregap reads the first track's padding instead of blank data. */
  lemma MissingPregapMisread()
    ensures var toc := [Info(1, 2352, 0, 302, 2, 0, 0, 0), Info(7, 2352, 0, 400, 0, 150, 0, 0)];
            && ValidToc(toc) && Log(toc, 1) == 302 && LogStart(toc, 1) == 452
            && LogicalSource(toc, 302) == Frame(302) && 302 < Chd(toc, 1)
  {
    var toc := [Info(1, 2352, 0, 302, 2, 0, 0, 0), Info(7, 2352, 0, 400, 0, 150, 0, 0)];
    assert Chd(toc, 1) == 304 && Log(toc, 1) == 302;
    assert Chd(toc, 2) == 704 && Log(toc, 2) == 852;
    LogTrackUnique(toc, 302, 0);
  }

  /**
   A pregap that is in the image reads its own frames for the first track, and
   for any other exactly if the postgap before it is as long as the padding.
   */
  lemma StoredPregapRightIff(toc: Toc, t: nat, lba: nat)
    requires ValidToc(toc) && t < |toc| && toc[t].Stored() && Log(toc, t) <= lba < LogStart(toc, t)
    ensures lba < U32 && 0 <= DataFrame(toc, t, lba) < U32
    ensures LogicalSource(toc, lba) == Source.Frame(DataFrame(toc, t, lba))
       <==> t == 0 || toc[t - 1].postgap == toc[t - 1].extraframes
  {
    TrackBounds(toc, t);
    if t == 0 {
      FirstStoredPregap(toc, lba);
    } else {
      var p := toc[t - 1];
      TrackBounds(toc, t - 1);
      LogicalFrom(toc, t - 1, lba);
      var read := lba - LogStart(toc, t - 1) + Chd(toc, t - 1) + p.Lead();
      assert read - DataFrame(toc, t, lba) == p.postgap - p.extraframes;
      DifferentWraps(DataFrame(toc, t, lba), read);
    }
  }

  /** Numbers less than the modulus apart wrap to the same value only if they are equal. */
  lemma DifferentWraps(x: uint32, y: int)
    requires y - U32 < x && x - U32 < y
    ensures Wrap(y) == x <==> y == x
  {
  }

  /** Below the first track's start the subtraction wraps, and the pregap correction wraps back. */
  lemma FirstStoredPregap(toc: Toc, k: nat)
    requires ValidToc(toc) && toc[0].Stored() && k < toc[0].pregap
    ensures k < U32 && LogicalSource(toc, k) == Frame(k)
  {
    TrackBounds(toc, 0);
    LogTrackUnique(toc, k, 0);
    WrapTwice(k - LogStart(toc, 0), toc[0].pregap);
  }

  /** A two-track disc: the second track's stored pregap is read two frames too early. */
  lemma StoredPregapMisread()
    ensures var toc := [Info(1, 2352, 0, 302, 2, 0, 0, 0), Info(7, 2352, 0, 400, 0, 150, 2352, 0)];
            && ValidToc(toc) && LogStart(toc, 1) == 452
            && LogicalSource(toc, 302) == Frame(302) != Frame(Chd(toc, 1))
  {
    var toc := [Info(1, 2352, 0, 302, 2, 0, 0, 0), Info(7, 2352, 0, 400, 0, 150, 2352, 0)];
    assert Chd(toc, 1) == 304 && Log(toc, 1) == 302;
    assert Chd(toc, 2) == 704 && Log(toc, 2) == 702;
    LogTrackUnique(toc, 302, 0);
  }
}
