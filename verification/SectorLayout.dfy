/**
 The fields of a CD-ROM sector (section 14 of ECMA-130, and the subheader of
 CD-ROM XA), which of them a track of each type stores, and which of them a
 request means.
 */
module SectorLayout {
  import opened Basics

  // Track types, and the request for whatever a track holds.
  const MODE1: nat := 0
  const MODE1_RAW: nat := 1
  const MODE2: nat := 2
  const MODE2_FORM1: nat := 3
  const MODE2_FORM2: nat := 4
  const MODE2_FORM_MIX: nat := 5
  const MODE2_RAW: nat := 6
  const AUDIO: nat := 7
  const RAW_DONTCARE: nat := 8

  // The fields at the start of a sector, user data, and a whole sector, in bytes.
  const SYNC: nat := 12
  const HEADER: nat := 4
  const SUBHEADER: nat := 8
  const USER: nat := 2048
  const FORM2_USER: nat := 2324
  const SECTOR: nat := 2352

  /** Part of a sector. */
  datatype Part = Part(from: nat, to: nat) {
    function Size(): int { to - from }
  }

  const WHOLE := Part(0, SECTOR)

  /** Everything behind the header. */
  const BODY := Part(SYNC + HEADER, SECTOR)

  /** The user data of Mode 1, which has no subheader, and of the two forms of Mode 2, which have one. */
  const MODE1_USER := Part(SYNC + HEADER, SYNC + HEADER + USER)
  const FORM1_USER := Part(SYNC + HEADER + SUBHEADER, SYNC + HEADER + SUBHEADER + USER)
  const FORM2_DATA := Part(SYNC + HEADER + SUBHEADER, SYNC + HEADER + SUBHEADER + FORM2_USER)

  /** The part that a track stores of each of its sectors. */
  function Stored(trktype: nat): Part {
    if trktype == MODE1 then MODE1_USER
    else if trktype == MODE2_FORM1 then FORM1_USER
    else if trktype == MODE2_FORM2 then FORM2_DATA
    else if trktype in {MODE2, MODE2_FORM_MIX} then BODY
    else WHOLE
  }

  /** The part of a sector that a request means in a track, if the track can answer it. */
  function Asked(request: nat, trktype: nat): Option<Part> {
    if request in {trktype, RAW_DONTCARE} then Some(Stored(trktype))
    else if request == MODE1 && trktype == MODE1_RAW then Some(MODE1_USER)
    else if request == MODE1 && trktype in {MODE2_FORM1, MODE2_FORM_MIX, MODE2_RAW} then Some(FORM1_USER)
    else if request == MODE2 && trktype in {MODE1_RAW, MODE2_RAW} then Some(BODY)
    else if request == MODE1_RAW && trktype == MODE2_RAW then Some(WHOLE)
    else None
  }

  /** Where the answer starts and ends in what the track stores. */
  function Answer(request: nat, trktype: nat): Option<(int, int)> {
    var asked, stored := Asked(request, trktype), Stored(trktype);
    if asked.None? then None else Some((asked.value.from - stored.from, asked.value.to - stored.from))
  }

  /** The places in numbers. */
  lemma Places()
    ensures Answer(MODE1, MODE1) == Some((0, 2048)) && Answer(MODE1, MODE1_RAW) == Some((16, 2064))
    ensures Answer(MODE1, MODE2_RAW) == Some((24, 2072)) && Answer(MODE1, MODE2_FORM_MIX) == Some((8, 2056))
    ensures Answer(MODE1, MODE2_FORM1) == Some((0, 2048))
    ensures Answer(MODE2, MODE1_RAW) == Answer(MODE2, MODE2_RAW) == Some((16, 2352))
    ensures Answer(MODE2, MODE2) == Some((0, 2336)) && Answer(MODE1_RAW, MODE2_RAW) == Some((0, 2352))
    ensures Answer(AUDIO, AUDIO) == Answer(RAW_DONTCARE, MODE1_RAW) == Some((0, 2352))
    ensures Answer(MODE1, AUDIO) == Answer(MODE1_RAW, MODE1) == Answer(MODE2, MODE1) == None
  {
  }
}
