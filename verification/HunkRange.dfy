/**
 Byte ranges of an image stored in hunks of equal size: how a range falls into
 pieces, one a hunk, and that a sector never leaves one hunk nor fills it.
 */
module HunkRange {
  import opened Basics

  const CD_FRAME_SIZE: nat := 2352 + 96

  /** A range contains the whole of a hunk. */
  predicate Covers(offset: nat, bytes: nat, hunkbytes: nat, hunk: nat) {
    offset <= hunk * hunkbytes && (hunk + 1) * hunkbytes <= offset + bytes
  }

  function First(offset: nat, hunkbytes: nat): nat
    requires hunkbytes > 0
  {
    offset / hunkbytes
  }

  function Last(offset: nat, bytes: nat, hunkbytes: nat): nat
    requires hunkbytes > 0 && bytes > 0
  {
    (offset + bytes - 1) / hunkbytes
  }

  /** First byte of the piece of a range that a hunk holds, within the hunk. */
  function StartOffset(offset: nat, hunkbytes: nat, hunk: nat): nat
    requires hunkbytes > 0
  {
    if hunk == First(offset, hunkbytes) then offset % hunkbytes else 0
  }

  /** Last byte of that piece. */
  function EndOffset(offset: nat, bytes: nat, hunkbytes: nat, hunk: nat): nat
    requires hunkbytes > 0 && bytes > 0
  {
    if hunk == Last(offset, bytes, hunkbytes) then (offset + bytes - 1) % hunkbytes else hunkbytes - 1
  }

  /** How long the piece is. */
  function PieceLength(offset: nat, bytes: nat, hunkbytes: nat, hunk: nat): nat
    requires hunkbytes > 0 && bytes > 0
  {
    var length := EndOffset(offset, bytes, hunkbytes, hunk) + 1 - StartOffset(offset, hunkbytes, hunk);
    if length < 0 then 0 else length
  }

  /** Where in the image that piece starts, and where it ends. */
  function From(offset: nat, hunkbytes: nat, hunk: nat): nat
    requires hunkbytes > 0
  {
    hunk * hunkbytes + StartOffset(offset, hunkbytes, hunk)
  }

  function To(offset: nat, bytes: nat, hunkbytes: nat, hunk: nat): nat
    requires hunkbytes > 0 && bytes > 0
  {
    hunk * hunkbytes + EndOffset(offset, bytes, hunkbytes, hunk) + 1
  }

  /** The first piece starts where the range does, the others where their hunk does. */
  lemma PieceStart(offset: nat, hunkbytes: nat, hunk: nat)
    requires hunkbytes > 0 && First(offset, hunkbytes) <= hunk
    ensures StartOffset(offset, hunkbytes, hunk) < hunkbytes && offset <= From(offset, hunkbytes, hunk)
    ensures hunk == First(offset, hunkbytes) ==> From(offset, hunkbytes, hunk) == offset
  {
    DivMod(offset, hunkbytes);
    if First(offset, hunkbytes) < hunk {
      MulUp(First(offset, hunkbytes) + 1, hunk, hunkbytes);
    }
  }

  /** The last piece ends where the range does, the others where their hunk does. */
  lemma PieceEnd(offset: nat, bytes: nat, hunkbytes: nat, hunk: nat)
    requires hunkbytes > 0 && bytes > 0 && hunk <= Last(offset, bytes, hunkbytes)
    ensures EndOffset(offset, bytes, hunkbytes, hunk) < hunkbytes
    ensures To(offset, bytes, hunkbytes, hunk) <= offset + bytes
    ensures hunk == Last(offset, bytes, hunkbytes) ==> To(offset, bytes, hunkbytes, hunk) == offset + bytes
  {
    DivMod(offset + bytes - 1, hunkbytes);
    if hunk < Last(offset, bytes, hunkbytes) {
      MulUp(hunk + 1, Last(offset, bytes, hunkbytes), hunkbytes);
    }
  }

  /** No piece is empty, and each next one starts where the one before ended. */
  lemma PiecesTile(offset: nat, bytes: nat, hunkbytes: nat, hunk: nat)
    requires hunkbytes > 0 && bytes > 0
    requires First(offset, hunkbytes) <= hunk <= Last(offset, bytes, hunkbytes)
    ensures offset <= From(offset, hunkbytes, hunk) < To(offset, bytes, hunkbytes, hunk) <= offset + bytes
    ensures hunk < Last(offset, bytes, hunkbytes) ==>
      To(offset, bytes, hunkbytes, hunk) == From(offset, hunkbytes, hunk + 1)
  {
    PieceStart(offset, hunkbytes, hunk);
    PieceEnd(offset, bytes, hunkbytes, hunk);
    MulUp(hunk, hunk, hunkbytes);
  }

  lemma FirstBeforeLast(offset: nat, bytes: nat, hb: nat)
    requires hb > 0 && bytes > 0
    ensures First(offset, hb) <= Last(offset, bytes, hb) && From(offset, hb, First(offset, hb)) == offset
  {
    DivMod(offset, hb);
    DivMod(offset + bytes - 1, hb);
    if Last(offset, bytes, hb) < First(offset, hb) {
      MulUp(Last(offset, bytes, hb) + 1, First(offset, hb), hb);
    }
  }

  /** A piece is a whole hunk exactly if the range covers that hunk. */
  lemma WholeIff(offset: nat, bytes: nat, hb: nat, hunk: nat)
    requires hb > 0 && bytes > 0 && First(offset, hb) <= hunk <= Last(offset, bytes, hb)
    ensures StartOffset(offset, hb, hunk) == 0 && EndOffset(offset, bytes, hb, hunk) == hb - 1
       <==> Covers(offset, bytes, hb, hunk)
  {
    PiecesTile(offset, bytes, hb, hunk);
    MulUp(hunk, hunk, hb);
    if Covers(offset, bytes, hb, hunk) {
      CoveredStart(offset, hb, hunk);
      CoveredEnd(offset, bytes, hb, hunk);
    }
  }

  lemma CoveredStart(offset: nat, hb: nat, hunk: nat)
    requires hb > 0 && First(offset, hb) <= hunk && offset <= hunk * hb
    ensures StartOffset(offset, hb, hunk) == 0
  {
    DivMod(offset, hb);
  }

  lemma CoveredEnd(offset: nat, bytes: nat, hb: nat, hunk: nat)
    requires hb > 0 && bytes > 0 && hunk <= Last(offset, bytes, hb) && (hunk + 1) * hb <= offset + bytes
    ensures EndOffset(offset, bytes, hb, hunk) == hb - 1
  {
    DivMod(offset + bytes - 1, hb);
    MulUp(hunk, hunk, hb);
  }

  /** The bytes of a range from one hunk on, put together piece by piece. */
  function Assemble(data: seq<byte>, hb: nat, offset: nat, bytes: nat, hunk: nat): seq<byte>
    requires hb > 0 && bytes > 0 && offset + bytes <= |data|
    requires First(offset, hb) <= hunk <= Last(offset, bytes, hb)
    decreases Last(offset, bytes, hb) - hunk
  {
    PiecesTile(offset, bytes, hb, hunk);
    data[From(offset, hb, hunk)..To(offset, bytes, hb, hunk)]
      + if hunk == Last(offset, bytes, hb) then [] else Assemble(data, hb, offset, bytes, hunk + 1)
  }

  /** Together the pieces are the range, for any offset and positive length. */
  lemma PiecesAreRange(data: seq<byte>, hb: nat, offset: nat, bytes: nat)
    requires hb > 0 && bytes > 0 && offset + bytes <= |data|
    ensures First(offset, hb) <= Last(offset, bytes, hb)
    ensures Assemble(data, hb, offset, bytes, First(offset, hb)) == data[offset..offset + bytes]
  {
    FirstBeforeLast(offset, bytes, hb);
    AssembleIsRest(data, hb, offset, bytes, First(offset, hb));
  }

  lemma {:induction false} AssembleIsRest(data: seq<byte>, hb: nat, offset: nat, bytes: nat, hunk: nat)
    requires hb > 0 && bytes > 0 && offset + bytes <= |data|
    requires First(offset, hb) <= hunk <= Last(offset, bytes, hb)
    ensures From(offset, hb, hunk) <= offset + bytes
    ensures Assemble(data, hb, offset, bytes, hunk) == data[From(offset, hb, hunk)..offset + bytes]
    decreases Last(offset, bytes, hb) - hunk
  {
    PiecesTile(offset, bytes, hb, hunk);
    if hunk < Last(offset, bytes, hb) {
      AssembleIsRest(data, hb, offset, bytes, hunk + 1);
      Adjacent(data, From(offset, hb, hunk), To(offset, bytes, hb, hunk), offset + bytes);
    } else {
      PieceEnd(offset, bytes, hb, hunk);
    }
  }

  /** Where a part of a frame lies: in the hunk of its frame, behind the frames before it. */
  lemma PartPlace(frame: nat, start: nat, length: nat, perhunk: nat)
    requires perhunk > 0 && 0 < length && start + length <= CD_FRAME_SIZE
    ensures var offset, hb := frame * CD_FRAME_SIZE + start, perhunk * CD_FRAME_SIZE;
      offset / hb == frame / perhunk && offset % hb + length <= hb
  {
    var offset, hb := frame * CD_FRAME_SIZE + start, perhunk * CD_FRAME_SIZE;
    var q, r := frame / perhunk, frame % perhunk;
    DivMod(frame, perhunk);
    assert offset == q * hb + r * CD_FRAME_SIZE + start;
    assert (r + 1) * CD_FRAME_SIZE <= hb;
    DivUnique(offset, hb, q);
  }

  /** Part of a frame never spans two hunks and never fills one. */
  lemma SectorInOneHunk(frame: nat, start: nat, length: nat, perhunk: nat)
    requires perhunk > 0 && 0 < length < CD_FRAME_SIZE && start + length <= CD_FRAME_SIZE
    ensures var offset, hb := frame * CD_FRAME_SIZE + start, perhunk * CD_FRAME_SIZE;
            && First(offset, hb) == Last(offset, length, hb) == frame / perhunk
            && forall h: nat :: !Covers(offset, length, hb, h)
  {
    PartPlace(frame, start, length, perhunk);
    PartPlace(frame, start + length - 1, 1, perhunk);
    var offset, hb := frame * CD_FRAME_SIZE + start, perhunk * CD_FRAME_SIZE;
    forall h: nat
      ensures !Covers(offset, length, hb, h)
    {
      MulUp(h, h, hb);
    }
  }
}
