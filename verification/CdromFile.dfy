/**
 A CD image opened for reading: the track table filled by `CdromOpen`, the two
 lookups that scan it, and byte reads served through a cache of one hunk.
 */
module CdromFile {
  import opened Basics
  import opened ChdToc
  import opened HunkRange
  import opened SectorLayout

  const CD_FRAMES_PER_HUNK: nat := 8
  const CACHE_SIZE: nat := CD_FRAME_SIZE * CD_FRAMES_PER_HUNK * 2

  /** A table entry: the metadata and the three start addresses. */
  datatype Track = Track(info: Info, physframeofs: nat, chdframeofs: nat, logframeofs: nat, logframes: uint32)
  {
    /** Translates a logical address in the track, by way of the physical one. */
    function ToChd(loglba: uint32): uint32 {
      var physlba := Wrap(physframeofs + Wrap(loglba - logframeofs));
      Wrap(physlba - physframeofs + chdframeofs)
    }
  }

  /** A compressed image by its contents: a number of equal hunks, some of which cannot be decoded. */
  datatype Image = Image(hunkbytes: nat, count: nat, data: seq<byte>, damaged: set<nat>)
  {
    predicate Valid() { hunkbytes > 0 && |data| == count * hunkbytes }

    predicate Readable(hunk: nat) { hunk < count && hunk !in damaged }

    /** A hunk fits the cache. */
    predicate Fits() { hunkbytes <= CACHE_SIZE }

    /** How making the cache hold a hunk ends, by the hunk it names. */
    function LoadStatus(hunk: nat, named: nat): Status {
      if hunk == named then Ok else if !Readable(hunk) then Failed else if Fits() then Ok else Overrun
    }

    /** How reading part of a hunk through the cache ends. */
    function PartStatus(hunk: nat, start: nat, length: nat, named: nat): Status {
      if hunk == named && start + length > CACHE_SIZE then Overrun else LoadStatus(hunk, named)
    }

    /** How reading the piece of a range ends: a hunk that is read as a whole goes past the cache. */
    function PieceStatus(offset: nat, bytes: nat, hunk: nat, named: nat): Status
      requires hunkbytes > 0 && bytes > 0
    {
      if hunk != named && Covers(offset, bytes, hunkbytes, hunk) then (if Readable(hunk) then Overrun else Failed)
      else PartStatus(hunk, StartOffset(offset, hunkbytes, hunk),
                      PieceLength(offset, bytes, hunkbytes, hunk), named)
    }

    /** Part of a frame is in one piece, which is not a whole hunk. */
    lemma OneHunk(frame: nat, start: nat, length: nat, named: nat)
      requires hunkbytes > 0 && hunkbytes % CD_FRAME_SIZE == 0 && PerHunk() > 0
      requires 0 < length < CD_FRAME_SIZE && start + length <= CD_FRAME_SIZE
      ensures var hunk, offset := HunkOf(frame), Offset(frame, start);
        && First(offset, hunkbytes) == Last(offset, length, hunkbytes) == hunk
        && PieceStatus(offset, length, hunk, named) == PartStatus(hunk, offset % hunkbytes, length, named)
    {
      DivMod(hunkbytes, CD_FRAME_SIZE);
      SectorInOneHunk(frame, start, length, PerHunk());
      var offset := Offset(frame, start);
      DivMod(offset, hunkbytes);
      DivMod(offset + length - 1, hunkbytes);
    }

    /** Frames in a hunk. */
    function PerHunk(): nat { hunkbytes / CD_FRAME_SIZE }

    /** The hunk that holds a frame. */
    function HunkOf(frame: nat): nat
      requires PerHunk() > 0
    {
      frame / PerHunk()
    }

    /** The bytes of a hunk. */
    function Hunk(hunk: nat): (bytes: seq<byte>)
      requires Valid() && hunk < count
      ensures |bytes| == hunkbytes
    {
      var start := hunk * hunkbytes;
      MulUp(hunk + 1, count, hunkbytes);
      MulUp(hunk, hunk, hunkbytes);
      data[start..start + hunkbytes]
    }

    /** Part of a frame is in the image if its hunk is. */
    lemma PartInside(frame: nat, start: nat, length: nat)
      requires Valid() && hunkbytes % CD_FRAME_SIZE == 0 && PerHunk() > 0
      requires 0 < length && start + length <= CD_FRAME_SIZE && HunkOf(frame) < count
      ensures Offset(frame, start) + length <= |data|
    {
      DivMod(hunkbytes, CD_FRAME_SIZE);
      PartPlace(frame, start, length, PerHunk());
      DivMod(Offset(frame, start), hunkbytes);
      HunkSlice(HunkOf(frame), Offset(frame, start) % hunkbytes, length);
    }

    lemma PartFits(frame: nat, start: nat, length: nat)
      requires hunkbytes > 0 && hunkbytes % CD_FRAME_SIZE == 0 && PerHunk() > 0
      requires 0 < length && start + length <= CD_FRAME_SIZE
      ensures Offset(frame, start) % hunkbytes + length <= hunkbytes
    {
      DivMod(hunkbytes, CD_FRAME_SIZE);
      PartPlace(frame, start, length, PerHunk());
    }

    lemma HunkSlice(hunk: nat, start: nat, length: nat)
      requires Valid() && hunk < count && start + length <= hunkbytes
      ensures var at := hunk * hunkbytes + start;
        at + length <= |data| && Hunk(hunk)[start..start + length] == data[at..at + length]
    {
      var base := hunk * hunkbytes;
      MulUp(hunk + 1, count, hunkbytes);
      MulUp(hunk, hunk, hunkbytes);
      SliceOfSlice(data, base, base + hunkbytes, start, start + length);
    }
  }

  /** Reads through the cache never leave it exactly if a hunk has at most sixteen frames. */
  lemma NeverOverrunsIff(image: Image, h: nat)
    requires image.Readable(h)
    ensures (forall hunk: nat, start: nat, length: nat, named: nat | start + length <= image.hunkbytes ::
               !image.PartStatus(hunk, start, length, named).Overrun?)
       <==> image.hunkbytes <= 16 * 2448
  {
    if !image.Fits() {
      assert image.PartStatus(h, 0, 0, h + 1).Overrun?;
    }
  }

  /** Where a part of a frame starts in an image. */
  function Offset(frame: nat, start: nat): nat { frame * CD_FRAME_SIZE + start }

  /** Where in a sector a request of one type finds its bytes in a track of another: offset and length. */
  function Slice(request: nat, info: Info): Option<(nat, nat)> {
    var t := info.trktype;
    if request == t || request == RAW_DONTCARE then Some((0, info.datasize))
    else if request == MODE1 && t == MODE1_RAW then Some((16, 2048))
    else if request == MODE1 && t in {MODE2_FORM1, MODE2_RAW} then Some((24, 2048))
    else if request == MODE1 && t == MODE2_FORM_MIX then Some((8, 2048))
    else if request == MODE2 && t in {MODE1_RAW, MODE2_RAW} then Some((16, 2336))
    else if request == MODE1_RAW && t == MODE2_RAW then Some((0, 2352))
    else None
  }

  /** Bytes of data that a track of each type stores for a sector. */
  function DataSize(trktype: nat): nat {
    if trktype in {MODE1, MODE2_FORM1} then 2048
    else if trktype in {MODE2, MODE2_FORM_MIX} then 2336
    else if trktype == MODE2_FORM2 then 2324
    else 2352
  }

  lemma DataSizeIsStored(trktype: nat)
    ensures DataSize(trktype) == Stored(trktype).Size()
  {
  }

  /**
   Exactly the requests that a track can answer are supported, and the bytes
   taken are exactly the fields meant, except that a cooked Mode 2 Form 1 track,
   which stores no header, is read from behind the header it does not have.
   */
  lemma SliceIsAnswerIff(request: nat, info: Info)
    requires info.datasize == DataSize(info.trktype)
    ensures Slice(request, info).Some? <==> Asked(request, info.trktype).Some?
    ensures Slice(request, info).Some? ==>
      var ((start, length), (from, to)) := (Slice(request, info).value, Answer(request, info.trktype).value);
      && length == to - from
      && (start == from <==> !(request == MODE1 && info.trktype == MODE2_FORM1))
      && (start + length <= info.datasize <==> !(request == MODE1 && info.trktype == MODE2_FORM1))
  {
  }

  /** Mode 1 data from a cooked Mode 2 Form 1 track ends 24 bytes behind what is stored. */
  lemma FormOneOverreads()
    ensures var info := Info(MODE2_FORM1, 2048, 0, 300, 0, 0, 0, 0);
      info.datasize == DataSize(info.trktype) && Slice(MODE1, info) == Some((24, 2048))
  {
  }

  /** A table entry holds the sums up to its track; the one behind the last track closes the scan. */
  ghost predicate Entry(e: Track, toc: Toc, i: nat)
    requires i <= |toc|
  {
    && e.physframeofs == Phys(toc, i) && e.chdframeofs == Chd(toc, i) && e.logframeofs == LogStart(toc, i)
    && (i < |toc| ==> e.info == toc[i])
    && e.logframes == if i < |toc| then Wrap(toc[i].frames - toc[i].pregap) else 0
  }

  /** Fills the track table from the metadata. */
  method FillTable(toc: Toc, tracks: array<Track>)
    requires ValidToc(toc) && tracks.Length == CD_MAX_TRACKS
    modifies tracks
    ensures forall i | 0 <= i <= |toc| :: Entry(tracks[i], toc, i)
  {
    var physofs, chdofs, logofs := 0, 0, 0;
    for i := 0 to |toc|
      invariant physofs == Phys(toc, i) && chdofs == Chd(toc, i) && logofs == Log(toc, i)
      invariant forall k | 0 <= k < i :: Entry(tracks[k], toc, k)
    {
      var info := toc[i];
      var logframeofs := 0;
      if info.pgdatasize == 0 {
        logofs := logofs + info.pregap;
      } else {
        logframeofs := info.pregap;
      }
      tracks[i] := Track(info, physofs, chdofs, logframeofs + logofs, Wrap(info.frames - info.pregap));
      logofs := logofs + info.postgap;
      physofs := physofs + info.frames;
      chdofs := chdofs + info.frames;
      chdofs := chdofs + info.extraframes;
      logofs := logofs + info.frames;
    }
    tracks[|toc|] := Track(tracks[|toc|].info, physofs, chdofs, logofs, 0);
  }

  /** Scans for the track of a physical address; an address beyond the disc keeps the given track. */
  method PhysicalToChdLba(toc: Toc, tracks: array<Track>, physlba: uint32, tracknum: nat)
    returns (chdlba: uint32, track: nat)
    requires ValidToc(toc) && tracks.Length == CD_MAX_TRACKS
    requires forall i | 0 <= i <= |toc| :: Entry(tracks[i], toc, i)
    ensures chdlba == PhysToChd(toc, physlba)
    ensures track == if PhysTrack(toc, physlba) < |toc| then PhysTrack(toc, physlba) else tracknum
  {
    for t := 0 to |toc|
      invariant t > 0 ==> Phys(toc, t) <= physlba
    {
      if physlba < tracks[t + 1].physframeofs {
        PhysScan(toc, physlba, t);
        return Wrap(physlba - tracks[t].physframeofs + tracks[t].chdframeofs), t;
      }
    }
    PhysScan(toc, physlba, |toc|);
    return physlba, tracknum;
  }

  lemma PhysScan(toc: Toc, lba: uint32, t: nat)
    requires ValidToc(toc) && t <= |toc| && (t > 0 ==> Phys(toc, t) <= lba)
    requires t < |toc| ==> lba < Phys(toc, t + 1)
    ensures PhysTrack(toc, lba) == t
    ensures PhysToChd(toc, lba) == if t < |toc| then Wrap(lba - Phys(toc, t) + Chd(toc, t)) else lba
  {
    if t < |toc| {
      PhysTrackUnique(toc, lba, t);
      Monotone(toc, t + 1, |toc|);
    } else {
      var r := PhysTrack(toc, lba);
      if r < |toc| {
        Monotone(toc, r + 1, |toc|);
      }
    }
  }

  /** Scans for the track of a logical address; the track's start is subtracted with 32-bit wrap-around. */
  method LogicalToChdLba(toc: Toc, tracks: array<Track>, loglba: uint32, tracknum: nat)
    returns (chdlba: uint32, track: nat)
    requires ValidToc(toc) && tracks.Length == CD_MAX_TRACKS
    requires forall i | 0 <= i <= |toc| :: Entry(tracks[i], toc, i)
    ensures chdlba == LogToChd(toc, loglba)
    ensures track == if LogTrack(toc, loglba) < |toc| then LogTrack(toc, loglba) else tracknum
  {
    for t := 0 to |toc|
      invariant t > 0 ==> LogStart(toc, t) <= loglba
    {
      if loglba < tracks[t + 1].logframeofs {
        LogEntry(toc, tracks[t], tracks[t + 1], loglba, t);
        return tracks[t].ToChd(loglba), t;
      }
    }
    LogScan(toc, loglba, |toc|);
    return loglba, tracknum;
  }

  /** The detour through the physical address leaves the translation unchanged, wrapped or not. */
  lemma ThereAndBack(e: Track, loglba: uint32)
    ensures e.ToChd(loglba) == Wrap(loglba - e.logframeofs + e.chdframeofs)
  {
    var d := loglba - e.logframeofs;
    WrapTwice(e.physframeofs + Wrap(d), e.chdframeofs - e.physframeofs);
    WrapTwice(d, e.chdframeofs);
  }

  /** A table entry translates the addresses of its track. */
  lemma LogEntry(toc: Toc, e: Track, next: Track, loglba: uint32, t: nat)
    requires ValidToc(toc) && t < |toc| && Entry(e, toc, t) && Entry(next, toc, t + 1)
    requires (t > 0 ==> LogStart(toc, t) <= loglba) && loglba < next.logframeofs
    ensures LogTrack(toc, loglba) == t && LogToChd(toc, loglba) == e.ToChd(loglba)
  {
    LogScan(toc, loglba, t);
    ThereAndBack(e, loglba);
  }

  lemma LogScan(toc: Toc, lba: uint32, t: nat)
    requires ValidToc(toc) && t <= |toc| && (t > 0 ==> LogStart(toc, t) <= lba)
    requires t < |toc| ==> lba < LogStart(toc, t + 1)
    ensures LogTrack(toc, lba) == t
    ensures LogToChd(toc, lba) == if t < |toc| then Wrap(lba - LogStart(toc, t) + Chd(toc, t)) else lba
  {
    if t < |toc| {
      LogTrackUnique(toc, lba, t);
    } else {
      var r := LogTrack(toc, lba);
      if r < |toc| {
        Monotone(toc, r + 1, |toc|);
      }
    }
  }

  /** The track a read goes to, and what it fetches. */
  ghost function Target(toc: Toc, lbasector: uint32, phys: bool): (t: nat)
    requires ValidToc(toc)
    ensures t < |toc|
  {
    OrZero(toc, if phys then PhysTrack(toc, lbasector) else LogTrack(toc, lbasector))
  }

  ghost function Wanted(toc: Toc, lbasector: uint32, phys: bool): Source
    requires ValidToc(toc)
  {
    if phys then PhysicalSource(toc, lbasector) else LogicalSource(toc, lbasector)
  }

  predicate Zeros(bytes: seq<byte>) { forall i | 0 <= i < |bytes| :: bytes[i] == 0 }

  lemma ZeroSlice(bytes: seq<byte>, from: nat, to: nat)
    requires Zeros(bytes) && from <= to <= |bytes|
    ensures Zeros(bytes[from..to])
  {
  }

  /** How a read ends: an overrun writes or reads outside the cache, or decodes over the reader's own variables. */
  datatype Status = Ok | Failed | Overrun

  /**
   The fresh cache names hunk 0 and holds zeros: a sector of that hunk reads as
   zeros, so a sector whose hunk can be decoded is read right exactly if it is
   in another hunk or is zero anyway.
   */
  ghost predicate ReadFresh(image: Image, r: Status, frame: nat, start: nat, bytes: seq<byte>)
    requires image.hunkbytes > 0 && image.PerHunk() > 0
  {
    var hunk, offset := image.HunkOf(frame), Offset(frame, start);
    && r == (if hunk == 0 then (if offset % image.hunkbytes + |bytes| <= CACHE_SIZE then Ok else Overrun)
             else if !image.Readable(hunk) then Failed
             else if image.hunkbytes <= CACHE_SIZE then Ok else Overrun)
    && (r.Ok? && hunk == 0 ==> Zeros(bytes))
    && (r.Ok? && image.Readable(hunk) ==>
          && offset + |bytes| <= |image.data|
          && (bytes == image.data[offset..offset + |bytes|] <==>
                hunk != 0 || Zeros(image.data[offset..offset + |bytes|])))
  }

  class Cdrom {
    const image: Image
    const toc: Toc
    const tracks: array<Track>

    const cache: array<byte>
    var cachehunk: nat

    ghost predicate Valid()
      reads tracks
    {
      && ValidToc(toc) && (forall i | 0 <= i < |toc| :: 0 < toc[i].datasize <= 2352)
      && tracks.Length == CD_MAX_TRACKS && (forall i | 0 <= i <= |toc| :: Entry(tracks[i], toc, i))
      && Cached()
    }

    /** Hunks hold whole frames. */
    ghost predicate Cached() {
      image.Valid() && image.hunkbytes % CD_FRAME_SIZE == 0 && cache.Length == CACHE_SIZE
    }

    /** The cache holds the hunk it names. */
    ghost predicate Coherent()
      requires Cached()
      reads this`cachehunk, cache
    {
      image.Fits() && image.Readable(cachehunk) && cache[..image.hunkbytes] == image.Hunk(cachehunk)
    }

    /** Opens an image with a zeroed cache that names hunk 0. */
    constructor (image: Image, toc: Toc)
      requires ValidToc(toc) && forall i | 0 <= i < |toc| :: 0 < toc[i].datasize <= 2352
      requires image.Valid() && image.hunkbytes % CD_FRAME_SIZE == 0
      ensures Valid() && this.image == image && this.toc == toc && fresh(tracks) && fresh(cache)
      ensures cachehunk == 0 && forall i | 0 <= i < CACHE_SIZE :: cache[i] == 0
    {
      this.image, this.toc := image, toc;
      tracks := new Track[CD_MAX_TRACKS];
      cache := new byte[CACHE_SIZE](_ => 0);
      cachehunk := 0;
      new;
      FillTable(toc, tracks);
    }

    /** Makes the cache hold a hunk; one that cannot be decoded leaves it as it was, one that does not fit overruns it. */
    method Load(hunk: nat) returns (r: Status)
      requires Cached()
      modifies this`cachehunk, cache
      ensures r == (if hunk == old(cachehunk) then Ok
                    else if !image.Readable(hunk) then Failed
                    else if image.hunkbytes <= CACHE_SIZE then Ok else Overrun)
      ensures r.Ok? && (hunk != old(cachehunk) || old(Coherent())) ==> Coherent() && cachehunk == hunk
      ensures !r.Ok? || hunk == old(cachehunk) ==> cachehunk == old(cachehunk) && cache[..] == old(cache[..])
    {
      if hunk != cachehunk {
        if !image.Readable(hunk) {
          return Failed;
        }
        if image.hunkbytes > cache.Length {
          return Overrun;
        }
        var bytes := image.Hunk(hunk);
        forall i | 0 <= i < image.hunkbytes {
          cache[i] := bytes[i];
        }
        cachehunk := hunk;
        assert cache[..image.hunkbytes] == bytes;
      }
      return Ok;
    }

    /** Copies part of the cache into the destination. */
    method CopyOut(start: nat, length: nat, dest: array<byte>, at: nat)
      requires start + length <= cache.Length && at + length <= dest.Length && dest != cache
      modifies dest
      ensures dest[..at + length] == old(dest[..at]) + cache[start..start + length]
      ensures forall i | at + length <= i < dest.Length :: dest[i] == old(dest[i])
    {
      forall i | 0 <= i < length {
        dest[at + i] := cache[start + i];
      }
    }

    /** The image from an offset on starts with the given bytes. */
    ghost predicate Holds(offset: nat, bytes: seq<byte>) {
      offset + |bytes| <= |image.data| && bytes == image.data[offset..offset + |bytes|]
    }

    /** A part of the cached hunk continues what the image holds. */
    lemma HoldsMore(hunk: nat, start: nat, length: nat, offset: nat, done: seq<byte>)
      requires Cached() && image.Readable(hunk) && start + length <= image.hunkbytes
      requires offset + |done| == hunk * image.hunkbytes + start && (done == [] || Holds(offset, done))
      ensures Holds(offset, done + image.Hunk(hunk)[start..start + length])
    {
      image.HunkSlice(hunk, start, length);
      if done != [] {
        Adjacent(image.data, offset, offset + |done|, offset + |done| + length);
      }
    }

    /** Reads part of a hunk through the cache, to continue the bytes from an offset on. */
    method ReadPart(hunk: nat, start: nat, length: nat, dest: array<byte>, at: nat, ghost offset: nat)
      returns (r: Status)
      requires Cached() && start + length <= image.hunkbytes && at + length <= dest.Length && dest != cache
      requires offset + at == hunk * image.hunkbytes + start
      modifies this`cachehunk, cache, dest
      ensures r == image.PartStatus(hunk, start, length, old(cachehunk))
      ensures old(Coherent()) ==> Coherent()
      ensures hunk == old(cachehunk) ==> cache[..] == old(cache[..])
      ensures r.Ok? ==> cachehunk == hunk && (hunk != old(cachehunk) || old(Coherent()) ==> Coherent())
      ensures r.Ok? ==> start + length <= cache.Length && dest[..at + length] == old(dest[..at]) + cache[start..start + length]
      ensures r.Ok? && Coherent() && (at == 0 || Holds(offset, old(dest[..at]))) ==> Holds(offset, dest[..at + length])
      ensures forall i | at + length <= i < dest.Length :: dest[i] == old(dest[i])
    {
      ghost var done := dest[..at];
      r := Load(hunk);
      if !r.Ok? {
        return;
      }
      if start + length > cache.Length {
        return Overrun;
      }
      CopyOut(start, length, dest, at);
      if Coherent() && (at == 0 || Holds(offset, done)) {
        HoldsMore(hunk, start, length, offset, done);
        ghost var bytes := cache[..image.hunkbytes];
        assert forall i | start <= i < start + length :: bytes[i] == cache[i];
        assert bytes[start..start + length] == cache[start..start + length];
      }
    }

    /** The destination starts with cached bytes, from the place an offset has in its hunk. */
    ghost predicate ServedFromCache(offset: nat, length: nat, dest: array<byte>)
      requires Cached() && length <= dest.Length
      reads cache, dest
    {
      var start := offset % image.hunkbytes;
      start + length <= cache.Length && dest[..length] == cache[start..start + length]
    }

    /** Reads the piece of a range that one hunk holds to its place in the destination. */
    method ReadPiece(offset: nat, bytes: nat, hunk: nat, dest: array<byte>, at: nat) returns (r: Status, length: nat)
      requires Cached() && 0 < bytes <= dest.Length && dest != cache
      requires First(offset, image.hunkbytes) <= hunk <= Last(offset, bytes, image.hunkbytes)
      requires offset + at == From(offset, image.hunkbytes, hunk)
      modifies this`cachehunk, cache, dest
      ensures at + length <= bytes
      ensures if hunk == Last(offset, bytes, image.hunkbytes) then at + length == bytes
              else offset + at + length == From(offset, image.hunkbytes, hunk + 1)
      ensures r == image.PieceStatus(offset, bytes, hunk, old(cachehunk))
      ensures old(Coherent()) ==> Coherent()
      ensures hunk == old(cachehunk) ==> cache[..] == old(cache[..])
      ensures r.Ok? ==> cachehunk == hunk && (hunk != old(cachehunk) || old(Coherent()) ==> Coherent())
      ensures dest[bytes..] == old(dest[bytes..])
      ensures r.Ok? && Coherent() && (at == 0 || Holds(offset, old(dest[..at]))) ==> Holds(offset, dest[..at + length])
      ensures r.Ok? && hunk == First(offset, image.hunkbytes) ==> ServedFromCache(offset, length, dest)
    {
      var hb := image.hunkbytes;
      PieceStart(offset, hb, hunk);
      PiecesTile(offset, bytes, hb, hunk);
      PieceEnd(offset, bytes, hb, hunk);
      WholeIff(offset, bytes, hb, hunk);
      var startoffs := StartOffset(offset, hb, hunk);
      var endoffs := EndOffset(offset, bytes, hb, hunk);
      length := endoffs + 1 - startoffs;
      if startoffs == 0 && endoffs == hb - 1 && hunk != cachehunk {
        return if image.Readable(hunk) then Overrun else Failed, length;
      }
      r := ReadPart(hunk, startoffs, length, dest, at, offset);
    }

    /** The status of a piece in its turn: the cache then names the hunk before it, or for the first what it named. */
    ghost function InTurn(offset: nat, bytes: nat, hunk: nat, named: nat): Status
      requires image.hunkbytes > 0 && bytes > 0 && First(offset, image.hunkbytes) <= hunk
    {
      image.PieceStatus(offset, bytes, hunk, if hunk == First(offset, image.hunkbytes) then named else hunk - 1)
    }

    /**
     A piece in its turn is read: from the cache if it is the first and of the
     hunk named, and otherwise by decoding its hunk, if that fits and is not
     covered whole.
     */
    ghost predicate Served(offset: nat, bytes: nat, hunk: nat, named: nat)
      requires image.hunkbytes > 0 && bytes > 0
    {
      if hunk == First(offset, image.hunkbytes) && hunk == named then
        StartOffset(offset, image.hunkbytes, hunk) + PieceLength(offset, bytes, image.hunkbytes, hunk) <= CACHE_SIZE
      else
        image.Readable(hunk) && image.hunkbytes <= CACHE_SIZE && !Covers(offset, bytes, image.hunkbytes, hunk)
    }

    lemma ServedIff(offset: nat, bytes: nat, hunk: nat, named: nat)
      requires image.hunkbytes > 0 && bytes > 0
      requires First(offset, image.hunkbytes) <= hunk <= Last(offset, bytes, image.hunkbytes)
      ensures InTurn(offset, bytes, hunk, named).Ok? <==> Served(offset, bytes, hunk, named)
      ensures InTurn(offset, bytes, hunk, named).Failed? <==>
        !(hunk == First(offset, image.hunkbytes) && hunk == named) && !image.Readable(hunk)
    {
    }

    /** With a coherent cache: the hunk can be decoded, and if it is covered whole it is the first one and cached. */
    ghost predicate Cleared(offset: nat, bytes: nat, hunk: nat, named: nat)
      requires image.hunkbytes > 0 && bytes > 0
    {
      image.Readable(hunk) && (Covers(offset, bytes, image.hunkbytes, hunk) ==>
                                 hunk == named && hunk == First(offset, image.hunkbytes))
    }

    lemma ClearedIff(offset: nat, bytes: nat, hunk: nat, named: nat)
      requires image.hunkbytes > 0 && bytes > 0 && image.Fits() && image.Readable(named)
      requires First(offset, image.hunkbytes) <= hunk <= Last(offset, bytes, image.hunkbytes)
      ensures Served(offset, bytes, hunk, named) <==> Cleared(offset, bytes, hunk, named)
    {
      PiecesTile(offset, bytes, image.hunkbytes, hunk);
      PieceEnd(offset, bytes, image.hunkbytes, hunk);
    }

    /**
     Reads a range hunk by hunk. It is read if every piece is served in its turn;
     it fails at the first hunk that cannot be decoded, if all before it are
     served, and otherwise overruns. If the cache is coherent, or the range starts
     in another hunk than the one it names, a read that succeeds is that slice of
     the image and leaves the cache coherent.
     */
    method ReadBytes(offset: nat, bytes: nat, dest: array<byte>) returns (r: Status)
      requires Cached() && 0 < bytes <= dest.Length && dest != cache
      modifies this`cachehunk, cache, dest
      ensures var first, last, named := First(offset, image.hunkbytes), Last(offset, bytes, image.hunkbytes), old(cachehunk);
        && (r.Ok? <==> forall h | first <= h <= last :: Served(offset, bytes, h, named))
        && (r.Failed? <==> exists h | first <= h <= last ::
              !(h == first && h == named) && !image.Readable(h)
              && forall g | first <= g < h :: Served(offset, bytes, g, named))
      ensures old(Coherent()) ==>
        var first, last, named := First(offset, image.hunkbytes), Last(offset, bytes, image.hunkbytes), old(cachehunk);
        && (r.Ok? <==> forall h | first <= h <= last :: Cleared(offset, bytes, h, named))
        && (r.Failed? <==> exists h | first <= h <= last ::
              !image.Readable(h) && forall g | first <= g < h :: Cleared(offset, bytes, g, named))
      ensures old(Coherent()) ==> Coherent()
      ensures r.Ok? && (old(Coherent()) || First(offset, image.hunkbytes) != old(cachehunk)) ==>
        && Coherent() && offset + bytes <= |image.data|
        && dest[..bytes] == image.data[offset..offset + bytes]
      ensures r.Ok? && First(offset, image.hunkbytes) == Last(offset, bytes, image.hunkbytes) == old(cachehunk) ==>
        cachehunk == old(cachehunk) && cache[..] == old(cache[..]) && ServedFromCache(offset, bytes, dest)
      ensures dest[bytes..] == old(dest[bytes..])
    {
      ghost var named, coherent := cachehunk, Coherent();
      r := ReadPieces(offset, bytes, dest);
      HowItEnds(offset, bytes, named, r);
      if coherent {
        HowItEndsCoherent(offset, bytes, named, r);
      }
    }

    /** The end of a read, by the pieces. */
    ghost predicate Ends(offset: nat, bytes: nat, named: nat, r: Status)
      requires image.hunkbytes > 0 && bytes > 0
    {
      var first, last := First(offset, image.hunkbytes), Last(offset, bytes, image.hunkbytes);
      && (r.Ok? <==> forall h | first <= h <= last :: InTurn(offset, bytes, h, named).Ok?)
      && (!r.Ok? ==> exists h | first <= h <= last ::
            InTurn(offset, bytes, h, named) == r
            && forall g | first <= g < h :: InTurn(offset, bytes, g, named).Ok?)
    }

    lemma HowItEnds(offset: nat, bytes: nat, named: nat, r: Status)
      requires image.hunkbytes > 0 && bytes > 0 && Ends(offset, bytes, named, r)
      ensures var first, last := First(offset, image.hunkbytes), Last(offset, bytes, image.hunkbytes);
        && (r.Ok? <==> forall h | first <= h <= last :: Served(offset, bytes, h, named))
        && (r.Failed? <==> exists h | first <= h <= last ::
              !(h == first && h == named) && !image.Readable(h)
              && forall g | first <= g < h :: Served(offset, bytes, g, named))
    {
      var first, last := First(offset, image.hunkbytes), Last(offset, bytes, image.hunkbytes);
      forall h | first <= h <= last
        ensures InTurn(offset, bytes, h, named).Ok? <==> Served(offset, bytes, h, named)
        ensures InTurn(offset, bytes, h, named).Failed? <==> !(h == first && h == named) && !image.Readable(h)
      {
        ServedIff(offset, bytes, h, named);
      }
      if !r.Ok? {
        var h :| first <= h <= last && InTurn(offset, bytes, h, named) == r
                 && forall g | first <= g < h :: InTurn(offset, bytes, g, named).Ok?;
        if k :| first <= k <= last && !(k == first && k == named) && !image.Readable(k)
                && forall g | first <= g < k :: Served(offset, bytes, g, named) {
          assert InTurn(offset, bytes, k, named).Failed?;
          assert h == k;
        }
      }
    }

    lemma HowItEndsCoherent(offset: nat, bytes: nat, named: nat, r: Status)
      requires image.hunkbytes > 0 && bytes > 0 && Ends(offset, bytes, named, r)
      requires image.Fits() && image.Readable(named)
      ensures var first, last := First(offset, image.hunkbytes), Last(offset, bytes, image.hunkbytes);
        && (r.Ok? <==> forall h | first <= h <= last :: Cleared(offset, bytes, h, named))
        && (r.Failed? <==> exists h | first <= h <= last ::
              !image.Readable(h) && forall g | first <= g < h :: Cleared(offset, bytes, g, named))
    {
      HowItEnds(offset, bytes, named, r);
      var first, last := First(offset, image.hunkbytes), Last(offset, bytes, image.hunkbytes);
      forall h | first <= h <= last
        ensures Served(offset, bytes, h, named) <==> Cleared(offset, bytes, h, named)
      {
        ClearedIff(offset, bytes, h, named);
      }
    }

    /** The loop over the hunks, which stops at the first piece that fails or overruns. */
    method ReadPieces(offset: nat, bytes: nat, dest: array<byte>) returns (r: Status)
      requires Cached() && 0 < bytes <= dest.Length && dest != cache
      modifies this`cachehunk, cache, dest
      ensures Ends(offset, bytes, old(cachehunk), r)
      ensures old(Coherent()) ==> Coherent()
      ensures r.Ok? && (old(Coherent()) || First(offset, image.hunkbytes) != old(cachehunk)) ==>
        Coherent() && Holds(offset, dest[..bytes])
      ensures r.Ok? && First(offset, image.hunkbytes) == Last(offset, bytes, image.hunkbytes) == old(cachehunk) ==>
        cachehunk == old(cachehunk) && cache[..] == old(cache[..]) && ServedFromCache(offset, bytes, dest)
      ensures dest[bytes..] == old(dest[bytes..])
    {
      var hb := image.hunkbytes;
      var first, last := First(offset, hb), Last(offset, bytes, hb);
      FirstBeforeLast(offset, bytes, hb);
      ghost var trusted := Coherent() || first != cachehunk;
      var at: nat := 0;
      for curhunk := first to last + 1
        invariant at <= bytes
        invariant offset + at == if curhunk <= last then From(offset, hb, curhunk) else offset + bytes
        invariant cachehunk == if curhunk == first then old(cachehunk) else curhunk - 1
        invariant old(Coherent()) || (trusted && curhunk > first) ==> Coherent()
        invariant forall h | first <= h < curhunk :: InTurn(offset, bytes, h, old(cachehunk)).Ok?
        invariant trusted && curhunk > first ==> Holds(offset, dest[..at])
        invariant first == old(cachehunk) && curhunk <= first + 1 ==> cache[..] == old(cache[..])
        invariant curhunk == first + 1 ==> ServedFromCache(offset, at, dest)
        invariant dest[bytes..] == old(dest[bytes..])
      {
        var length;
        r, length := ReadPiece(offset, bytes, curhunk, dest, at);
        assert r == InTurn(offset, bytes, curhunk, old(cachehunk));
        if !r.Ok? {
          return;
        }
        at := at + length;
      }
      r := Ok;
    }

    /** The cache holds the bytes of the image from an offset on, in the place they have in their hunk. */
    ghost predicate CacheHolds(offset: nat, length: nat)
      requires Cached()
      reads cache
    {
      var start := offset % image.hunkbytes;
      start + length <= cache.Length && Holds(offset, cache[start..start + length])
    }

    /**
     What a read of part of a sector leaves behind: zeros for blank data, and
     otherwise the bytes of its frame. If its hunk can be decoded, they are right
     exactly if the cache was coherent, or named another hunk, or happened to
     hold them; a cache that wrongly names the hunk is served as it is.
     */
    twostate predicate Fetched(r: Status, source: Source, start: nat, length: nat, dest: array<byte>)
      requires Cached() && start + length <= CD_FRAME_SIZE && length <= dest.Length && image.PerHunk() > 0
      reads this`cachehunk, cache, dest
    {
      match source
      case Blank =>
        r.Ok? && (forall i | 0 <= i < length :: dest[i] == 0) && cachehunk == old(cachehunk) && cache[..] == old(cache[..])
      case Frame(frame) =>
        var hunk, offset := image.HunkOf(frame), Offset(frame, start);
        && r == (if hunk == old(cachehunk) then (if offset % image.hunkbytes + length <= CACHE_SIZE then Ok else Overrun)
                 else if !image.Readable(hunk) then Failed
                 else if image.hunkbytes <= CACHE_SIZE then Ok else Overrun)
        && (old(Coherent()) ==> r == if image.Readable(hunk) then Ok else Failed)
        && (r.Ok? && (old(Coherent()) || hunk != old(cachehunk)) ==> Coherent() && Holds(offset, dest[..length]))
        && (r.Ok? && image.Readable(hunk) ==>
              (Holds(offset, dest[..length]) <==>
                 old(Coherent()) || hunk != old(cachehunk) || old(CacheHolds(offset, length))))
        && (r.Ok? && hunk == old(cachehunk) ==>
              cachehunk == old(cachehunk) && cache[..] == old(cache[..]) && ServedFromCache(offset, length, dest))
    }

    /** Reads part of a sector once its track and CHD frame are known. */
    method ReadPartialSector(lbasector: uint32, chdsector: uint32, tracknum: nat, startoffs: nat, length: nat,
                             phys: bool, dest: array<byte>) returns (r: Status)
      requires Valid() && tracknum < |toc| && dest != cache
      requires 0 < length < CD_FRAME_SIZE && startoffs + length <= CD_FRAME_SIZE && length <= dest.Length
      modifies this`cachehunk, cache, dest
      ensures old(Coherent()) ==> Coherent()
      ensures image.PerHunk() > 0
      ensures Fetched(r, if phys then Frame(chdsector) else Corrected(toc, tracknum, lbasector, chdsector),
                      startoffs, length, dest)
      ensures dest[length..] == old(dest[length..])
    {
      DivMod(image.hunkbytes, CD_FRAME_SIZE);
      var track := tracks[tracknum];
      if !phys {
        if track.info.pgdatasize == 0 && lbasector < track.logframeofs {
          forall i | 0 <= i < length {
            dest[i] := 0;
          }
          return Ok;
        }
      }
      var sector := chdsector;
      if !phys && track.info.pgdatasize != 0 {
        sector := Wrap(sector + track.info.pregap);
      }
      r := ReadFrame(sector, startoffs, length, dest);
    }

    /** Reads part of a frame: never more than one hunk, and never a whole one. */
    method ReadFrame(frame: uint32, start: nat, length: nat, dest: array<byte>) returns (r: Status)
      requires Cached() && dest != cache && image.PerHunk() > 0
      requires 0 < length < CD_FRAME_SIZE && start + length <= CD_FRAME_SIZE && length <= dest.Length
      modifies this`cachehunk, cache, dest
      ensures old(Coherent()) ==> Coherent()
      ensures Fetched(r, Frame(frame), start, length, dest)
      ensures dest[length..] == old(dest[length..])
    {
      var offset := Offset(frame, start);
      image.OneHunk(frame, start, length, cachehunk);
      image.PartFits(frame, start, length);
      r := ReadBytes(offset, length, dest);
      assert r == InTurn(offset, length, image.HunkOf(frame), old(cachehunk));
      assert r == image.PartStatus(image.HunkOf(frame), offset % image.hunkbytes, length, old(cachehunk));
    }

    /** The fields of a frame that answer a request, as the image holds them. */
    ghost predicate Delivers(frame: nat, request: nat, trktype: nat, dest: array<byte>)
      reads dest
    {
      match Answer(request, trktype)
      case None => false
      case Some((from, to)) =>
        && 0 <= from <= to && to - from <= dest.Length && frame * 2448 + to <= |image.data|
        && dest[..to - from] == image.data[frame * 2448 + from..frame * 2448 + to]
    }

    /**
     Reads a sector as data of the requested type. A request that the track can
     answer is served from the frame that the translation laws name; any other
     fails and touches nothing. From a coherent cache a sector in the image is
     read exactly if its hunk can be decoded, and what is read are the fields that
     the request means; the one exception is Mode 2 Form 1, stored cooked.
     */
    method ReadData(lbasector: uint32, dest: array<byte>, request: nat, phys: bool) returns (r: Status)
      requires Valid() && dest != cache
      requires !(request == MODE1_RAW && toc[Target(toc, lbasector, phys)].trktype == MODE1)
      requires Slice(request, toc[Target(toc, lbasector, phys)]).Some? ==>
        Slice(request, toc[Target(toc, lbasector, phys)]).value.1 <= dest.Length
      modifies this`cachehunk, cache, dest
      ensures old(Coherent()) ==> Coherent()
      ensures image.PerHunk() > 0
      ensures match Slice(request, toc[Target(toc, lbasector, phys)])
        case None => r.Failed? && dest[..] == old(dest[..]) && cachehunk == old(cachehunk) && cache[..] == old(cache[..])
        case Some((start, length)) =>
          && start + length <= CD_FRAME_SIZE
          && Fetched(r, Wanted(toc, lbasector, phys), start, length, dest)
          && dest[length..] == old(dest[length..])
      ensures var info := toc[Target(toc, lbasector, phys)];
        info.datasize == DataSize(info.trktype) ==>
          (Asked(request, info.trktype).None? ==> r.Failed?)
      ensures var info, source := toc[Target(toc, lbasector, phys)], Wanted(toc, lbasector, phys);
        old(Coherent()) && source.Frame? && info.datasize == DataSize(info.trktype) && Asked(request, info.trktype).Some? ==>
          && r == (if image.Readable(source.number / image.PerHunk()) then Ok else Failed)
          && (r.Ok? && !(request == MODE1 && info.trktype == MODE2_FORM1) ==>
                Delivers(source.number, request, info.trktype, dest))
    {
      ghost var info, source, coherent := toc[Target(toc, lbasector, phys)], Wanted(toc, lbasector, phys), Coherent();
      r := ReadSlice(lbasector, dest, request, phys);
      if info.datasize == DataSize(info.trktype) {
        SliceIsAnswerIff(request, info);
        if coherent && source.Frame? && Slice(request, info).Some? && r.Ok?
           && !(request == MODE1 && info.trktype == MODE2_FORM1) {
          TakesFields(source.number, request, info, dest);
        }
      }
    }

    lemma TakesFields(frame: nat, request: nat, info: Info, dest: array<byte>)
      requires info.datasize == DataSize(info.trktype) && Slice(request, info).Some?
      requires Slice(request, info).value.1 <= dest.Length && !(request == MODE1 && info.trktype == MODE2_FORM1)
      requires var (start, length) := Slice(request, info).value; Holds(Offset(frame, start), dest[..length])
      ensures Delivers(frame, request, info.trktype, dest)
    {
      SliceIsAnswerIff(request, info);
    }

    /** Looks up the track and the frame, and reads the slice of the frame that the request takes. */
    method ReadSlice(lbasector: uint32, dest: array<byte>, request: nat, phys: bool) returns (r: Status)
      requires Valid() && dest != cache
      requires !(request == MODE1_RAW && toc[Target(toc, lbasector, phys)].trktype == MODE1)
      requires Slice(request, toc[Target(toc, lbasector, phys)]).Some? ==>
        Slice(request, toc[Target(toc, lbasector, phys)]).value.1 <= dest.Length
      modifies this`cachehunk, cache, dest
      ensures old(Coherent()) ==> Coherent()
      ensures image.PerHunk() > 0
      ensures match Slice(request, toc[Target(toc, lbasector, phys)])
        case None => r.Failed? && dest[..] == old(dest[..]) && cachehunk == old(cachehunk) && cache[..] == old(cache[..])
        case Some((start, length)) =>
          && start + length <= CD_FRAME_SIZE
          && Fetched(r, Wanted(toc, lbasector, phys), start, length, dest)
          && dest[length..] == old(dest[length..])
    {
      DivMod(image.hunkbytes, CD_FRAME_SIZE);
      var chdsector, tracknum;
      if phys {
        chdsector, tracknum := PhysicalToChdLba(toc, tracks, lbasector, 0);
      } else {
        chdsector, tracknum := LogicalToChdLba(toc, tracks, lbasector, 0);
      }
      match Slice(request, tracks[tracknum].info)
      case None =>
        return Failed;
      case Some((start, length)) =>
        r := ReadPartialSector(lbasector, chdsector, tracknum, start, length, phys, dest);
    }

    /** The first read after opening. */
    method FirstRead(lbasector: uint32, dest: array<byte>, request: nat, phys: bool) returns (r: Status)
      requires Valid() && dest != cache && cachehunk == 0 && Zeros(cache[..])
      requires !(request == MODE1_RAW && toc[Target(toc, lbasector, phys)].trktype == MODE1)
      requires Wanted(toc, lbasector, phys).Frame? && Slice(request, toc[Target(toc, lbasector, phys)]).Some?
      requires Slice(request, toc[Target(toc, lbasector, phys)]).value.1 <= dest.Length
      modifies this`cachehunk, cache, dest
      ensures image.PerHunk() > 0
      ensures var part := Slice(request, toc[Target(toc, lbasector, phys)]).value;
        ReadFresh(image, r, Wanted(toc, lbasector, phys).number, part.0, dest[..part.1])
    {
      r := ReadData(lbasector, dest, request, phys);
      ghost var part := Slice(request, toc[Target(toc, lbasector, phys)]).value;
      ghost var frame := Wanted(toc, lbasector, phys).number;
      if r.Ok? && image.HunkOf(frame) == 0 {
        ghost var from := Offset(frame, part.0) % image.hunkbytes;
        assert cache[from..from + part.1] == cache[..][from..from + part.1];
        ZeroSlice(cache[..], from, from + part.1);
      }
      if image.Readable(image.HunkOf(frame)) {
        image.PartInside(frame, part.0, part.1);
      }
    }
  }

  /** Opens an image and reads a sector through the fresh cache. */
  method OpenAndRead(image: Image, toc: Toc, lbasector: uint32, dest: array<byte>, request: nat, phys: bool)
    returns (r: Status)
    requires ValidToc(toc) && forall i | 0 <= i < |toc| :: 0 < toc[i].datasize <= 2352
    requires image.Valid() && image.hunkbytes % CD_FRAME_SIZE == 0
    requires !(request == MODE1_RAW && toc[Target(toc, lbasector, phys)].trktype == MODE1)
    requires Wanted(toc, lbasector, phys).Frame? && Slice(request, toc[Target(toc, lbasector, phys)]).Some?
    requires Slice(request, toc[Target(toc, lbasector, phys)]).value.1 <= dest.Length
    modifies dest
    ensures image.PerHunk() > 0
    ensures var part := Slice(request, toc[Target(toc, lbasector, phys)]).value;
      ReadFresh(image, r, Wanted(toc, lbasector, phys).number, part.0, dest[..part.1])
  {
    var cdrom := new Cdrom(image, toc);
    r := cdrom.FirstRead(lbasector, dest, request, phys);
  }

  /** An image of one hunk of ones: its first sector, read first, is read as zeros. */
  lemma OnesReadAsZeros(r: Status, bytes: seq<byte>)
    requires |bytes| == 2048
    ensures var image := Image(CD_FRAME_SIZE, 1, seq(CD_FRAME_SIZE, _ => 1), {});
      && image.Valid() && image.PerHunk() == 1
      && (ReadFresh(image, r, 0, 0, bytes) ==> r.Ok? && bytes != image.data[..2048])
  {
    var image := Image(CD_FRAME_SIZE, 1, seq(CD_FRAME_SIZE, _ => 1), {});
    assert image.data[0] == 1 && image.HunkOf(0) == 0 && Offset(0, 0) % CD_FRAME_SIZE == 0;
  }

  /** Hunks of seventeen frames: the first sector of the second hunk overruns the cache. */
  lemma SeventeenFramesOverrun(image: Image, r: Status, bytes: seq<byte>)
    requires image.Valid() && image.hunkbytes == 17 * CD_FRAME_SIZE && image.Readable(1)
    ensures image.PerHunk() == 17 && (ReadFresh(image, r, 17, 0, bytes) ==> r.Overrun?)
  {
  }
}
