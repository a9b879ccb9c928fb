/**
 The D88 floppy image as values: sectors and tracks, the file format with its two
 directions, and what each drive command does to a mounted disk. A track is the list
 of its sectors; the loader has no track length but the sector count that each sector
 header repeats.
 */
module D88 {
  import opened CInt
  import opened Wrappers

  const TRACKS := 164
  const HEADER_SIZE := 0x2b0
  const SECTOR_SIZE := 16

  // ----- bytes

  function Le16(x: u16): (b: seq<u8>)
    ensures |b| == 2
  {
    [x % 0x100, x / 0x100]
  }

  function De16(b: seq<u8>): u16
    requires |b| == 2
  {
    Word(b[1], b[0])
  }

  function Le32(x: u32): (b: seq<u8>)
    ensures |b| == 4
  {
    Le16(x % 0x1_0000) + Le16(x / 0x1_0000)
  }

  function De32(b: seq<u8>): u32
    requires |b| == 4
  {
    De16(b[..2]) + De16(b[2..]) * 0x1_0000
  }

  lemma Le32RoundTrip(x: u32)
    ensures De32(Le32(x)) == x
  {
    var b := Le32(x);
    assert b[..2] == Le16(x % 0x1_0000) && b[2..] == Le16(x / 0x1_0000);
  }

  /** `128 << n` */
  function SectorLength(n: nat): (len: nat)
    ensures len >= 128
  {
    128 * Pow2(n)
  }

  // ----- sectors

  datatype Id = Id(c: u8, h: u8, r: u8, n: u8)

  type Reserved = r: seq<u8> | |r| == 5 witness [0, 0, 0, 0, 0]

  datatype Header = Header(id: Id, sectors: u16, mfm: u8, del: u8, stat: u8, reserved: Reserved, size: u16)

  datatype Sector = Sector(header: Header, data: seq<u8>)

  function EncodeHeader(h: Header): (b: seq<u8>)
    ensures |b| == SECTOR_SIZE
  {
    [h.id.c, h.id.h, h.id.r, h.id.n] + Le16(h.sectors) + [h.mfm, h.del, h.stat] + h.reserved + Le16(h.size)
  }

  function DecodeHeader(b: seq<u8>): Header
    requires |b| == SECTOR_SIZE
  {
    Header(Id(b[0], b[1], b[2], b[3]), De16(b[4..6]), b[6], b[7], b[8], b[9..14], De16(b[14..]))
  }

  lemma HeaderRoundTrip(h: Header)
    ensures DecodeHeader(EncodeHeader(h)) == h
  {
    var b := EncodeHeader(h);
    assert b[4..6] == Le16(h.sectors) && b[9..14] == h.reserved && b[14..] == Le16(h.size);
  }

  /** The file holds `size` bytes of a sector whatever was allocated for it. */
  predicate Sized(s: Sector) { s.header.size <= |s.data| }

  function SectorBytes(s: Sector): (b: seq<u8>)
    requires Sized(s)
    ensures |b| == SECTOR_SIZE + s.header.size
  {
    EncodeHeader(s.header) + s.data[..s.header.size]
  }

  type Track = seq<Sector>

  predicate AllSized(t: Track) { forall i :: 0 <= i < |t| ==> Sized(t[i]) }

  function TrackBytes(t: Track): seq<u8>
    requires AllSized(t)
  {
    if t == [] then [] else TrackBytes(t[..|t| - 1]) + SectorBytes(t[|t| - 1])
  }

  /** The sector counts stop the loader's loop after the last sector of the track and not before. */
  predicate Counted(t: Track) {
    forall i :: 0 <= i < |t| ==> (i + 1 < t[i].header.sectors <==> i + 1 < |t|)
  }

  /** A track that a file can carry. */
  predicate WellFormed(t: Track) {
    Counted(t) && forall i :: 0 <= i < |t| ==> t[i].header.size == |t[i].data|
  }

  // ----- the whole image

  predicate TracksSized(ts: seq<Track>) { forall k :: 0 <= k < |ts| ==> AllSized(ts[k]) }

  function Body(ts: seq<Track>): seq<u8>
    requires TracksSized(ts)
  {
    if ts == [] then [] else Body(ts[..|ts| - 1]) + TrackBytes(ts[|ts| - 1])
  }

  /** The track pointers of the first k tracks: where the second pass will write them, 0 if empty. */
  function Pointers(ts: seq<Track>, k: nat): (ps: seq<u32>)
    requires TracksSized(ts) && k <= |ts| && HEADER_SIZE + |Body(ts)| < 0x8000_0000
    ensures |ps| == k
  {
    if k == 0 then []
    else
      BodyPrefix(ts, k - 1);
      Pointers(ts, k - 1) + [if ts[k - 1] == [] then 0 else HEADER_SIZE + |Body(ts[..k - 1])|]
  }

  lemma {:induction false} BodyPrefix(ts: seq<Track>, k: nat)
    requires TracksSized(ts) && k <= |ts|
    ensures |Body(ts[..k])| <= |Body(ts)|
    decreases |ts|
  {
    if k < |ts| {
      var rest := ts[..|ts| - 1];
      assert rest[..k] == ts[..k];
      BodyPrefix(rest, k);
    } else {
      assert ts[..k] == ts;
    }
  }

  function EncodeWords(ps: seq<u32>): (b: seq<u8>)
    ensures |b| == 4 * |ps|
  {
    if ps == [] then [] else EncodeWords(ps[..|ps| - 1]) + Le32(ps[|ps| - 1])
  }

  predicate Fits(ts: seq<Track>) {
    |ts| == TRACKS && TracksSized(ts) && HEADER_SIZE + |Body(ts)| < 0x8000_0000
  }

  /** The first 28 bytes of the file: disk name, reserved bytes, write protect and disk type. */
  type Title = l: seq<u8> | |l| == 28 witness seq(28, _ => 0)

  const PROTECT := 26

  function HeaderBytes(title: Title, ts: seq<Track>): (b: seq<u8>)
    requires Fits(ts)
    ensures |b| == HEADER_SIZE
  {
    title + Le32(HEADER_SIZE + |Body(ts)|) + EncodeWords(Pointers(ts, TRACKS))
  }

  /** The bytes an eject writes. */
  function Serialize(title: Title, ts: seq<Track>): seq<u8>
    requires Fits(ts)
  {
    HeaderBytes(title, ts) + Body(ts)
  }

  // ----- the loader

  function Prepend(t: Track, rest: Option<Track>): Option<Track> {
    if rest.None? then None else Some(t + rest.value)
  }

  /** The sector that stands at a position, if the file reaches to its end. */
  function SectorAt(file: seq<u8>, pos: nat): (s: Option<Sector>)
    ensures s.Some? ==> s.value.header.size == |s.value.data| && pos + SECTOR_SIZE + s.value.header.size <= |file|
  {
    if pos + SECTOR_SIZE > |file| then None
    else
      var h := DecodeHeader(file[pos..pos + SECTOR_SIZE]);
      var next := pos + SECTOR_SIZE + h.size;
      if next > |file| then None else Some(Sector(h, file[pos + SECTOR_SIZE..next]))
  }

  /** The sectors from the k-th on, read at `pos`; None when the file ends early. */
  function ParseSectors(file: seq<u8>, pos: nat, k: nat): Option<Track>
    decreases |file| - pos
  {
    match SectorAt(file, pos)
    case None => None
    case Some(s) =>
      if k + 1 < s.header.sectors then Prepend([s], ParseSectors(file, pos + SECTOR_SIZE + s.header.size, k + 1))
      else Some([s])
  }

  function ParseTrack(file: seq<u8>, trk: nat): Option<Track>
    requires |file| >= HEADER_SIZE && trk < TRACKS
  {
    var ptr, end := De32(file[32 + 4 * trk..36 + 4 * trk]), De32(file[28..32]);
    if HEADER_SIZE <= ptr < end then ParseSectors(file, ptr, 0) else Some([])
  }

  /** The first k tracks; None as soon as one of them runs past the end of the file. */
  function ParseTracks(file: seq<u8>, k: nat): (r: Option<seq<Track>>)
    requires |file| >= HEADER_SIZE && k <= TRACKS
    ensures r.Some? ==> |r.value| == k
  {
    if k == 0 then Some([])
    else if ParseTracks(file, k - 1).None? || ParseTrack(file, k - 1).None? then None
    else Some(ParseTracks(file, k - 1).value + [ParseTrack(file, k - 1).value])
  }

  function Load(file: seq<u8>): Option<seq<Track>> {
    if |file| < HEADER_SIZE then None else ParseTracks(file, TRACKS)
  }

  // ----- round trip

  lemma {:induction false} TrackBytesFront(t: Track)
    requires AllSized(t) && t != []
    ensures TrackBytes(t) == SectorBytes(t[0]) + TrackBytes(t[1..])
    decreases |t|
  {
    var front := t[..|t| - 1];
    hide SectorBytes;
    if |t| > 1 {
      TrackBytesFront(front);
      assert t[1..][..|t| - 2] == front[1..];
      assert TrackBytes(t) == (SectorBytes(t[0]) + TrackBytes(front[1..])) + SectorBytes(t[|t| - 1]);
    } else {
      assert front == [] && t[1..] == [];
    }
  }

  /** The counts of the sectors end the loop exactly behind the last one when it starts at k. */
  ghost predicate Ends(t: Track, k: nat) {
    && (forall i :: 0 <= i < |t| ==> t[i].header.size == |t[i].data|)
    && (forall i :: 0 <= i < |t| ==> (k + i + 1 < t[i].header.sectors <==> i + 1 < |t|))
  }

  lemma EndsRest(t: Track, k: nat)
    requires t != [] && Ends(t, k)
    ensures t[0].header.size == |t[0].data| && (k + 1 < t[0].header.sectors <==> |t| > 1)
    ensures Ends(t[1..], k + 1) && [t[0]] + t[1..] == t
  {
    var rest := t[1..];
    forall i | 0 <= i < |rest|
      ensures rest[i].header.size == |rest[i].data| && (k + 1 + i + 1 < rest[i].header.sectors <==> i + 1 < |rest|)
    {
      assert rest[i] == t[i + 1];
    }
  }

  /** The bytes stand in the file from pos on. */
  ghost predicate Holds(file: seq<u8>, pos: nat, bytes: seq<u8>) {
    pos + |bytes| <= |file| && file[pos..pos + |bytes|] == bytes
  }

  /** A track written at `pos` is read back from there, given how its counts end the loop. */
  lemma {:induction false} SectorsRoundTrip(file: seq<u8>, pos: nat, t: Track, k: nat)
    requires AllSized(t) && t != [] && Holds(file, pos, TrackBytes(t)) && Ends(t, k)
    ensures ParseSectors(file, pos, k) == Some(t)
    decreases |t|
  {
    var s, rest := t[0], t[1..];
    hide ParseSectors, TrackBytes, SectorBytes, Ends, Holds;
    EndsRest(t, k);
    TrackBytesFront(t);
    ReadSector(file, pos, k, s, TrackBytes(rest));
    if rest != [] {
      SectorsRoundTrip(file, pos + SECTOR_SIZE + s.header.size, rest, k + 1);
    } else {
      assert [s] == t;
    }
  }

  /** A sector that is there is read, and its count says whether another one follows. */
  lemma ReadSector(file: seq<u8>, pos: nat, k: nat, s: Sector, rest: seq<u8>)
    requires s.header.size == |s.data| && Holds(file, pos, SectorBytes(s) + rest)
    ensures
      var next := pos + SECTOR_SIZE + s.header.size;
      && Holds(file, next, rest)
      && ParseSectors(file, pos, k) ==
         if k + 1 < s.header.sectors then Prepend([s], ParseSectors(file, next, k + 1)) else Some([s])
  {
    var next := pos + SECTOR_SIZE + s.header.size;
    SectorParts(s, rest);
    SubHolds(file, pos, SectorBytes(s) + rest, 0, SECTOR_SIZE);
    SubHolds(file, pos, SectorBytes(s) + rest, SECTOR_SIZE, SECTOR_SIZE + s.header.size);
    SubHolds(file, pos, SectorBytes(s) + rest, SECTOR_SIZE + s.header.size, SECTOR_SIZE + s.header.size + |rest|);
    HeaderRoundTrip(s.header);
    hide SectorBytes, EncodeHeader, DecodeHeader;
    assert file[pos..pos + SECTOR_SIZE] == EncodeHeader(s.header) && file[pos + SECTOR_SIZE..next] == s.data;
    assert SectorAt(file, pos) == Some(s);
  }

  lemma SectorParts(s: Sector, rest: seq<u8>)
    requires s.header.size == |s.data|
    ensures
      var bytes, n := SectorBytes(s) + rest, SECTOR_SIZE + s.header.size;
      && |bytes| == n + |rest|
      && bytes[0..SECTOR_SIZE] == EncodeHeader(s.header) && bytes[SECTOR_SIZE..n] == s.data
      && bytes[n..n + |rest|] == rest
  {
    hide EncodeHeader;
  }

  lemma SubHolds(file: seq<u8>, pos: nat, bytes: seq<u8>, a: nat, b: nat)
    requires Holds(file, pos, bytes) && a <= b <= |bytes|
    ensures Holds(file, pos + a, bytes[a..b])
  {
    SliceOfSlice(file, pos, pos + |bytes|, a, b);
  }

  lemma SliceOfSlice(file: seq<u8>, lo: nat, hi: nat, a: nat, b: nat)
    requires a <= b <= hi - lo && hi <= |file|
    ensures file[lo..hi][a..b] == file[lo + a..lo + b]
  {
    var x, y := file[lo..hi][a..b], file[lo + a..lo + b];
    assert |x| == |y|;
    assert forall i :: 0 <= i < |x| ==> x[i] == file[lo + a + i] == y[i];
  }

  lemma {:induction false} WordAt(ps: seq<u32>, k: nat)
    requires k < |ps|
    ensures EncodeWords(ps)[4 * k..4 * k + 4] == Le32(ps[k])
    decreases |ps|
  {
    if k == |ps| - 1 {
    } else {
      WordAt(ps[..|ps| - 1], k);
      assert EncodeWords(ps)[4 * k..4 * k + 4] == EncodeWords(ps[..|ps| - 1])[4 * k..4 * k + 4];
    }
  }

  lemma {:induction false} PointerAt(ts: seq<Track>, n: nat, k: nat)
    requires TracksSized(ts) && k < n <= |ts| && HEADER_SIZE + |Body(ts)| < 0x8000_0000
    ensures Pointers(ts, n)[k] == if ts[k] == [] then 0 else HEADER_SIZE + |Body(ts[..k])|
  {
    if k == n - 1 {
    } else {
      PointerAt(ts, n - 1, k);
    }
  }

  lemma {:induction false} TrackInBody(ts: seq<Track>, k: nat)
    requires TracksSized(ts) && k < |ts|
    ensures
      var at := |Body(ts[..k])|;
      at + |TrackBytes(ts[k])| <= |Body(ts)| && Body(ts)[at..at + |TrackBytes(ts[k])|] == TrackBytes(ts[k])
    decreases |ts|
  {
    var rest := ts[..|ts| - 1];
    if k == |ts| - 1 {
    } else {
      TrackInBody(rest, k);
      assert rest[..k] == ts[..k];
    }
  }

  /** What the loader sees of a written header: total size and the pointer of every track. */
  lemma HeaderFields(title: Title, ts: seq<Track>, tail: seq<u8>, trk: nat)
    requires Fits(ts) && trk < TRACKS
    ensures
      var file := Serialize(title, ts) + tail;
      && De32(file[28..32]) == HEADER_SIZE + |Body(ts)|
      && De32(file[32 + 4 * trk..36 + 4 * trk]) == if ts[trk] == [] then 0 else HEADER_SIZE + |Body(ts[..trk])|
  {
    var file := Serialize(title, ts) + tail;
    var total: u32, ps := HEADER_SIZE + |Body(ts)|, Pointers(ts, TRACKS);
    assert file == (title + Le32(total) + EncodeWords(ps)) + (Body(ts) + tail);
    PointerAt(ts, TRACKS, trk);
    WordAt(ps, trk);
    Le32RoundTrip(total);
    Le32RoundTrip(ps[trk]);
    hide Body, EncodeWords, Pointers, Le32, De32, Serialize, TrackBytes;
    FieldsAt(title, Le32(total), EncodeWords(ps), Body(ts) + tail, 4 * trk);
  }

  lemma FieldsAt(title: Title, size: seq<u8>, words: seq<u8>, rest: seq<u8>, at: nat)
    requires |title| == 28 && |size| == 4 && at + 4 <= |words|
    ensures
      var file := (title + size + words) + rest;
      file[28..32] == size && file[32 + at..36 + at] == words[at..at + 4]
  {
    var file := (title + size + words) + rest;
    assert file[32..32 + |words|] == words;
    SliceOfSlice(file, 32, 32 + |words|, at, at + 4);
  }

  lemma TrackRoundTrip(title: Title, ts: seq<Track>, tail: seq<u8>, trk: nat)
    requires Fits(ts) && trk < TRACKS && WellFormed(ts[trk])
    ensures ParseTrack(Serialize(title, ts) + tail, trk) == Some(ts[trk])
  {
    var file, t, at := Serialize(title, ts) + tail, ts[trk], |Body(ts[..trk])|;
    HeaderFields(title, ts, tail, trk);
    if t != [] {
      TrackHolds(title, ts, tail, trk);
      hide Serialize, De32, ParseSectors, TrackBytes, Body, Holds;
      SectorsRoundTrip(file, HEADER_SIZE + at, t, 0);
    }
  }

  lemma TrackHolds(title: Title, ts: seq<Track>, tail: seq<u8>, trk: nat)
    requires Fits(ts) && trk < TRACKS && ts[trk] != []
    ensures
      var at := |Body(ts[..trk])|;
      && Holds(Serialize(title, ts) + tail, HEADER_SIZE + at, TrackBytes(ts[trk]))
      && HEADER_SIZE + at < HEADER_SIZE + |Body(ts)|
  {
    hide HeaderBytes, TrackBytes, Body;
    var t, at := ts[trk], |Body(ts[..trk])|;
    TrackInBody(ts, trk);
    TrackHasBytes(t);
    SliceBehind(HeaderBytes(title, ts), Body(ts), tail, at, |TrackBytes(t)|);
  }

  lemma TrackHasBytes(t: Track)
    requires AllSized(t) && t != []
    ensures |TrackBytes(t)| > 0
  {
    hide EncodeHeader;
  }

  lemma SliceBehind(head: seq<u8>, body: seq<u8>, tail: seq<u8>, at: nat, n: nat)
    requires at + n <= |body|
    ensures (head + body + tail)[|head| + at..|head| + at + n] == body[at..at + n]
  {
  }

  lemma {:induction false} TracksRoundTrip(title: Title, ts: seq<Track>, tail: seq<u8>, k: nat)
    requires Fits(ts) && k <= TRACKS && forall i :: 0 <= i < TRACKS ==> WellFormed(ts[i])
    ensures ParseTracks(Serialize(title, ts) + tail, k) == Some(ts[..k])
  {
    hide Serialize, ParseTrack, WellFormed;
    if k == 0 {
    } else {
      TracksRoundTrip(title, ts, tail, k - 1);
      TrackRoundTrip(title, ts, tail, k - 1);
      assert ts[..k] == ts[..k - 1] + [ts[k - 1]];
    }
  }

  /** Whatever the loader reads as a track ends by its own counts. */
  lemma {:induction false} ParsedSectors(file: seq<u8>, pos: nat, k: nat)
    requires ParseSectors(file, pos, k).Some?
    ensures ParseSectors(file, pos, k).value != [] && Ends(ParseSectors(file, pos, k).value, k)
    decreases |file| - pos
  {
    hide SectorAt;
    var s := SectorAt(file, pos).value;
    if k + 1 >= s.header.sectors {
    } else {
      var next := pos + SECTOR_SIZE + s.header.size;
      ParsedSectors(file, next, k + 1);
      EndsFront(s, ParseSectors(file, next, k + 1).value, k);
    }
  }

  lemma EndsFront(s: Sector, rest: Track, k: nat)
    requires rest != [] && Ends(rest, k + 1) && s.header.size == |s.data| && k + 1 < s.header.sectors
    ensures Ends([s] + rest, k)
  {
    var t := [s] + rest;
    forall i | 0 <= i < |t|
      ensures t[i].header.size == |t[i].data| && (k + i + 1 < t[i].header.sectors <==> i + 1 < |t|)
    {
      if i > 0 {
        assert t[i] == rest[i - 1];
      }
    }
  }

  lemma ParsedTrack(file: seq<u8>, trk: nat)
    requires |file| >= HEADER_SIZE && trk < TRACKS && ParseTrack(file, trk).Some?
    ensures WellFormed(ParseTrack(file, trk).value)
  {
    hide De32, ParseSectors;
    var ptr, end := De32(file[32 + 4 * trk..36 + 4 * trk]), De32(file[28..32]);
    if HEADER_SIZE <= ptr < end {
      ParsedSectors(file, ptr, 0);
    }
  }

  /** Whatever the loader accepts can be saved and loaded again. */
  lemma {:induction false} LoadedIsWellFormed(file: seq<u8>, k: nat)
    requires |file| >= HEADER_SIZE && k <= TRACKS && ParseTracks(file, k).Some?
    ensures forall i :: 0 <= i < k ==> WellFormed(ParseTracks(file, k).value[i])
  {
    hide ParseTrack, WellFormed;
    if k == 0 {
    } else {
      LoadedIsWellFormed(file, k - 1);
      ParsedTrack(file, k - 1);
    }
  }

  /**
   The written image loads back to the same tracks, whatever longer file it overwrote,
   if and only if every track is well-formed.
   */
  lemma RoundTrip(title: Title, ts: seq<Track>, tail: seq<u8>)
    requires Fits(ts)
    ensures Load(Serialize(title, ts) + tail) == Some(ts) <==> forall i :: 0 <= i < TRACKS ==> WellFormed(ts[i])
  {
    var file := Serialize(title, ts) + tail;
    if forall i :: 0 <= i < TRACKS ==> WellFormed(ts[i]) {
      TracksRoundTrip(title, ts, tail, TRACKS);
      assert ts[..TRACKS] == ts;
    }
    if Load(file) == Some(ts) {
      LoadedIsWellFormed(file, TRACKS);
    }
  }

  // ----- the file byte by byte

  lemma LittleEndian(a: u8, b: u8, c: u8, d: u8)
    ensures De16([a, b]) == a as int + 0x100 * b as int
    ensures De32([a, b, c, d]) == a as int + 0x100 * b as int + 0x1_0000 * c as int + 0x100_0000 * d as int
  {
    assert [a, b, c, d][..2] == [a, b] && [a, b, c, d][2..] == [c, d];
  }

  /** The sixteen bytes of a sector header, one field after another. */
  lemma HeaderLayout(b: seq<u8>)
    requires |b| == 16
    ensures
      var h := DecodeHeader(b);
      && h.id.c == b[0] && h.id.h == b[1] && h.id.r == b[2] && h.id.n == b[3]
      && h.sectors == b[4] as int + 0x100 * b[5] as int && h.mfm == b[6] && h.del == b[7] && h.stat == b[8]
      && h.reserved == b[9..14] && h.size == b[14] as int + 0x100 * b[15] as int
  {
  }

  /** 128 bytes for n = 0, and twice as many for every n more. */
  lemma SectorLengths(n: nat)
    ensures SectorLength(0) == 128 && SectorLength(1) == 256 && SectorLength(2) == 512 && SectorLength(3) == 1024
    ensures SectorLength(n + 1) == 2 * SectorLength(n)
  {
    assert Pow2(2) == 4 && Pow2(3) == 8;
  }

  /** Where a sector begins in its track: behind the header and the data of each one before it. */
  function Offset(t: Track, i: nat): nat
    requires i <= |t|
  {
    if i == 0 then 0 else Offset(t, i - 1) + 16 + t[i - 1].header.size
  }

  lemma {:induction false} SectorInTrack(t: Track, i: nat)
    requires AllSized(t) && i < |t|
    ensures
      var at, n := Offset(t, i), 16 + t[i].header.size;
      at + n <= |TrackBytes(t)| && TrackBytes(t)[at..at + n] == SectorBytes(t[i])
    decreases |t|
  {
    hide SectorBytes;
    var rest := t[..|t| - 1];
    TrackLength(rest);
    OffsetOfFront(t, rest, i);
    OffsetOfFront(t, rest, |rest|);
    if i == |t| - 1 {
    } else {
      SectorInTrack(rest, i);
      assert TrackBytes(t)[..|TrackBytes(rest)|] == TrackBytes(rest);
    }
  }

  lemma {:induction false} OffsetOfFront(t: Track, rest: Track, i: nat)
    requires i <= |rest| <= |t| && rest == t[..|rest|]
    ensures Offset(t, i) == Offset(rest, i)
  {
    if i == 0 {
    } else {
      OffsetOfFront(t, rest, i - 1);
    }
  }

  lemma {:induction false} TrackLength(t: Track)
    requires AllSized(t)
    ensures |TrackBytes(t)| == Offset(t, |t|)
    decreases |t|
  {
    if t == [] {
    } else {
      TrackLength(t[..|t| - 1]);
      OffsetOfFront(t, t[..|t| - 1], |t| - 1);
    }
  }

  /**
   The image: the title, then at 28 the size of the file and from 32 on the pointers of the
   tracks, four bytes each. At its pointer a track has its sectors one behind the other, each
   as its header and its data.
   */
  lemma ImageLayout(title: Title, ts: seq<Track>, tail: seq<u8>, trk: nat, i: nat)
    requires Fits(ts) && trk < 164 && i < |ts[trk]|
    ensures
      var file, s := Serialize(title, ts) + tail, ts[trk][i];
      && file[..28] == title && De32(file[28..32]) + |tail| == |file|
      && var at := De32(file[32 + 4 * trk..36 + 4 * trk]) + Offset(ts[trk], i);
         && at >= 688 && at + 16 + s.header.size + |tail| <= |file|
         && DecodeHeader(file[at..at + 16]) == s.header
         && file[at + 16..at + 16 + s.header.size] == s.data[..s.header.size]
  {
    hide TrackBytes, Body, De32, DecodeHeader, Serialize, Holds, Offset, WellFormed;
    var start := HEADER_SIZE + |Body(ts[..trk])|;
    HeaderFields(title, ts, tail, trk);
    TrackHolds(title, ts, tail, trk);
    assert AllSized(ts[trk]);
    SectorHeld(Serialize(title, ts) + tail, start, ts[trk], i);
    FileParts(title, ts, tail);
    TrackBeforeTail(title, ts, tail, trk, i);
  }

  lemma FileParts(title: Title, ts: seq<Track>, tail: seq<u8>)
    requires Fits(ts)
    ensures
      var file := Serialize(title, ts) + tail;
      |file| == HEADER_SIZE + |Body(ts)| + |tail| && file[..28] == title
  {
    hide Body, Pointers;
  }

  lemma TrackBeforeTail(title: Title, ts: seq<Track>, tail: seq<u8>, trk: nat, i: nat)
    requires Fits(ts) && trk < TRACKS && i < |ts[trk]|
    ensures Offset(ts[trk], i) + 16 + ts[trk][i].header.size + |Body(ts[..trk])| <= |Body(ts)|
  {
    hide Body, TrackBytes, Offset;
    assert AllSized(ts[trk]);
    TrackInBody(ts, trk);
    SectorInTrack(ts[trk], i);
  }

  lemma SectorHeld(file: seq<u8>, start: nat, t: Track, i: nat)
    requires AllSized(t) && i < |t| && Holds(file, start, TrackBytes(t))
    ensures
      var at, s := start + Offset(t, i), t[i];
      && at + 16 + s.header.size <= |file| && DecodeHeader(file[at..at + 16]) == s.header
      && file[at + 16..at + 16 + s.header.size] == s.data[..s.header.size]
  {
    hide TrackBytes, EncodeHeader, DecodeHeader, Offset;
    var s, at, n := t[i], start + Offset(t, i), 16 + t[i].header.size;
    SectorInTrack(t, i);
    HeaderRoundTrip(s.header);
    SubHolds(file, start, TrackBytes(t), Offset(t, i), Offset(t, i) + n);
    SliceOfSlice(file, at, at + n, 0, 16);
    SliceOfSlice(file, at, at + n, 16, n);
    assert SectorBytes(s)[0..16] == EncodeHeader(s.header) && SectorBytes(s)[16..n] == s.data[..s.header.size];
  }

  /**
   The loader by the bytes it reads: a track is there when its pointer lies between the header
   and the size of the file that the header gives. A file that ends within the header or within
   a sector does not load.
   */
  lemma TrackPresent(file: seq<u8>, trk: nat)
    requires |file| >= 688 && trk < 164
    ensures
      var p := De32(file[32 + 4 * trk..36 + 4 * trk]);
      ParseTrack(file, trk) == if p < 688 || p >= De32(file[28..32]) then Some([]) else ParseSectors(file, p, 0)
  {
  }

  lemma EndsEarly(file: seq<u8>, pos: nat, k: nat)
    ensures |file| < 688 ==> Load(file) == None
    ensures pos + 16 > |file| ==> ParseSectors(file, pos, k) == None
    ensures
      pos + 16 <= |file| && pos + 16 + file[pos + 14] as int + 0x100 * file[pos + 15] as int > |file| ==>
      ParseSectors(file, pos, k) == None
  {
    if pos + 16 <= |file| {
      HeaderLayout(file[pos..pos + 16]);
    }
  }
}
