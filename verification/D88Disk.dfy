/**
 A mounted disk as the controller uses it: the tracks, the track the head is on, and the
 sector that comes round next. Every command is a function from disk to disk; the laws
 are about sequences of commands.
 */
module D88Disk {
  import opened CInt
  import opened D88
  import opened Wrappers

  datatype Disk = Disk(tracks: seq<Track>, top: Option<nat>, cur: nat, readOnly: bool)
  {
    /** The rotating cursor is on a sector of the track under the head. */
    predicate Valid() {
      && |tracks| == TRACKS && TracksSized(tracks)
      && if top.Some? then top.value < TRACKS && cur < |tracks[top.value]| else cur == 0
    }

    function Track(): Track
      requires Valid() && top.Some?
    {
      tracks[top.value]
    }

    /** The disk once sector i has passed the head. */
    function After(i: nat): Disk
      requires Valid() && top.Some?
    {
      this.(cur := if i + 1 < |Track()| then i + 1 else 0)
    }

    function Seek(trk: int): Disk
      requires Valid()
    {
      if 0 <= trk < TRACKS && tracks[trk] != [] && top != Some(trk) then this.(top := Some(trk), cur := 0) else this
    }

    function ReadId(): Disk
      requires Valid()
    {
      if top.Some? then After(cur) else this
    }

    /** The first sector of the track under the head that carries the ID. */
    function Find(id: Id): nat
      requires Valid() && top.Some?
    {
      FirstMatch(Track(), id, 0)
    }

    function Read(id: Id): Disk
      requires Valid()
    {
      if top.None? then this
      else if Find(id) < |Track()| then After(Find(id))
      else this.(cur := 0)
    }

    function Write(id: Id, buf: seq<u8>, del: bool): Disk
      requires Valid() && CanTransfer(id) && |buf| >= SectorLength(id.n)
    {
      if top.None? || readOnly then this
      else if Find(id) < |Track()| then
        var i := Find(id);
        var written := Track()[i := Overwrite(Track()[i], buf, SectorLength(id.n), del)];
        this.(tracks := tracks[top.value := written]).AfterAt(i)
      else this.(cur := 0)
    }

    function AfterAt(i: nat): Disk
      requires top.Some? && top.value < |tracks|
    {
      this.(cur := if i + 1 < |tracks[top.value]| then i + 1 else 0)
    }

    /** The sector that answers to the ID holds as many bytes as the ID asks for. */
    predicate CanTransfer(id: Id)
      requires Valid()
    {
      top.Some? && Find(id) < |Track()| ==> SectorLength(id.n) <= |Track()[Find(id)].data|
    }

    function Format(trk: nat, ids: seq<Id>, fill: u8): Disk
      requires Valid() && trk < TRACKS
    {
      var t := Formatted(ids, fill, |ids|);
      Disk(tracks[trk := t], if ids == [] then None else Some(trk), 0, readOnly)
    }
  }

  const NO_TRACKS: seq<Track> := seq(TRACKS, _ => [])

  predicate Matches(s: Sector, id: Id) { s.header.id == id }

  function FirstMatch(t: Track, id: Id, k: nat): (i: nat)
    requires k <= |t|
    ensures k <= i <= |t|
    ensures i < |t| ==> Matches(t[i], id)
    ensures forall j :: k <= j < i ==> !Matches(t[j], id)
    decreases |t| - k
  {
    if k == |t| || Matches(t[k], id) then k else FirstMatch(t, id, k + 1)
  }

  function Overwrite(s: Sector, buf: seq<u8>, len: nat, del: bool): (r: Sector)
    requires len <= |buf| && len <= |s.data|
    ensures |r.data| == |s.data| && r.header.size == s.header.size && r.header.sectors == s.header.sectors
    ensures r.header.id == s.header.id
  {
    Sector(s.header.(del := if del then 0x10 else 0), buf[..len] + s.data[len..])
  }

  /** The sectors a format of `num` of them lays down, up to the length of `ids`. */
  function Formatted(ids: seq<Id>, fill: u8, num: nat): (t: Track)
    ensures |t| == |ids| && AllSized(t)
  {
    seq(|ids|, i requires 0 <= i < |ids| => FormattedSector(ids[i], fill, num))
  }

  function FormattedSector(id: Id, fill: u8, num: nat): (s: Sector)
    ensures Sized(s)
  {
    Sector(Header(id, U16(num), 0, 0, 0, [0, 0, 0, 0, 0], U16(SectorLength(id.n))), seq(SectorLength(id.n), _ => fill))
  }

  /** The FDC status a sector is read with. */
  function Status(s: Sector): nat {
    1 + (if s.header.del / 0x10 % 2 == 1 then 2 else 0)
    + (if s.header.stat == 0xa0 then 4 else 0)
    + (if s.header.stat == 0xb0 then 8 else 0)
    + (if s.header.stat == 0xf0 then 16 else 0)
  }

  // ----- rotation

  function ReadIds(d: Disk, count: nat): (r: Disk)
    requires d.Valid()
    ensures r.Valid() && r.tracks == d.tracks && r.top == d.top && r.readOnly == d.readOnly
  {
    if count == 0 then d else ReadIds(d, count - 1).ReadId()
  }

  lemma {:induction false} RotationAt(d: Disk, count: nat)
    requires d.Valid() && d.top.Some?
    ensures ReadIds(d, count).cur == (d.cur + count) % |d.Track()|
  {
    hide TracksSized;
    if count == 0 {
      Residue(d.cur, |d.Track()|);
    } else {
      RotationAt(d, count - 1);
      NextModulo(d.cur + count - 1, |d.Track()|);
    }
  }

  /** How many ReadID commands bring sector i under the head. */
  function StepsTo(d: Disk, i: nat): (count: nat)
    requires d.Valid() && d.top.Some? && i < |d.Track()|
    ensures count < |d.Track()|
  {
    if i >= d.cur then i - d.cur else i + |d.Track()| - d.cur
  }

  /** As many ReadID commands as the track has sectors meet each of them once and end where they began. */
  lemma FullRotation(d: Disk)
    requires d.Valid() && d.top.Some?
    ensures ReadIds(d, |d.Track()|) == d
    ensures forall i :: 0 <= i < |d.Track()| ==> ReadIds(d, StepsTo(d, i)).cur == i
    ensures forall a, b :: 0 <= a < b < |d.Track()| ==> ReadIds(d, a).cur != ReadIds(d, b).cur
  {
    var n := |d.Track()|;
    hide ReadIds;
    RotationAt(d, n);
    Residue(d.cur + n, n);
    forall i | 0 <= i < n
      ensures ReadIds(d, StepsTo(d, i)).cur == i
    {
      RotationAt(d, StepsTo(d, i));
      Residue(d.cur + StepsTo(d, i), n);
    }
    forall a, b | 0 <= a < b < n
      ensures ReadIds(d, a).cur != ReadIds(d, b).cur
    {
      RotationAt(d, a);
      RotationAt(d, b);
      Residue(d.cur + a, n);
      Residue(d.cur + b, n);
    }
  }

  lemma Residue(x: nat, n: nat)
    requires n > 0 && x < 2 * n
    ensures x % n == if x < n then x else x - n
  {
    DivModUnique(x, n, if x < n then 0 else 1, if x < n then x else x - n);
  }

  // ----- where the head and the cursor go

  /** The cursor goes to the first sector of another track, and stays when the head stays. */
  lemma SeekMoves(d: Disk, trk: int)
    requires d.Valid()
    ensures d.top.Some? && d.top.value == trk ==> d.Seek(trk) == d
    ensures trk < 0 || trk > 163 ==> d.Seek(trk) == d
    ensures
      0 <= trk < 164 ==>
      d.Seek(trk) ==
      if d.tracks[trk] == [] || d.top == Some(trk) then d else Disk(d.tracks, Some(trk), 0, d.readOnly)
  {
  }

  /** A disk after `count` times the pair of commands with which the controller answers READ ID. */
  function SeekReads(d: Disk, trk: int, count: nat): (r: Disk)
    requires d.Valid()
    ensures r.Valid()
  {
    if count == 0 then d else SeekReads(d, trk, count - 1).Seek(trk).ReadId()
  }

  /**
   Seeking the track that is there does not disturb the rotation: begun at sector 0, or on
   another track, `count` READ IDs bring sector count modulo the track length, so as many as it
   has sectors answer each of them once, in order.
   */
  lemma {:induction false} ReadIdsRotate(d: Disk, trk: nat, count: nat)
    requires d.Valid() && trk < 164 && d.tracks[trk] != [] && (d.top == Some(trk) ==> d.cur == 0)
    ensures
      var r := SeekReads(d, trk, count).Seek(trk);
      && r.top == Some(trk) && r.tracks == d.tracks && r.cur == count % |d.tracks[trk]|
      && (count < |d.tracks[trk]| ==> r.Track()[r.cur] == d.tracks[trk][count])
  {
    hide TracksSized;
    if count == 0 {
      Residue(0, |d.tracks[trk]|);
    } else {
      ReadIdsRotate(d, trk, count - 1);
      NextModulo(count - 1, |d.tracks[trk]|);
      SeekMoves(SeekReads(d, trk, count), trk);
    }
    if count < |d.tracks[trk]| {
      Residue(count, |d.tracks[trk]|);
    }
  }

  /** A read or a write that finds its sector, the first with that very ID, leaves the next one under the head. */
  lemma FoundMoves(d: Disk, id: Id, i: nat, buf: seq<u8>, del: bool)
    requires d.Valid() && d.CanTransfer(id) && |buf| >= SectorLength(id.n) && d.top.Some? && i < |d.Track()|
    requires d.Track()[i].header.id == id && forall j :: 0 <= j < i ==> d.Track()[j].header.id != id
    ensures d.Find(id) == i
    ensures d.Read(id) == d.(cur := (i + 1) % |d.Track()|)
    ensures
      var e := d.Write(id, buf, del);
      if d.readOnly then e == d else e.top == d.top && e.cur == (i + 1) % |d.Track()| && e.readOnly == d.readOnly
  {
    hide TracksSized, Overwrite;
    assert Matches(d.Track()[i], id) && forall j :: 0 <= j < i ==> !Matches(d.Track()[j], id);
    Residue(i + 1, |d.Track()|);
  }

  /** One that does not find it goes back to the first sector, and nothing happens without a track under the head. */
  lemma MissedMoves(d: Disk, id: Id, buf: seq<u8>, del: bool)
    requires d.Valid() && d.CanTransfer(id) && |buf| >= SectorLength(id.n)
    requires d.top.Some? ==> forall j :: 0 <= j < |d.Track()| ==> d.Track()[j].header.id != id
    ensures d.Read(id) == if d.top.Some? then d.(cur := 0) else d
    ensures d.Write(id, buf, del) == if d.top.Some? && !d.readOnly then d.(cur := 0) else d
  {
    hide TracksSized;
    assert d.top.Some? ==> forall j :: 0 <= j < |d.Track()| ==> !Matches(d.Track()[j], id);
  }

  /**
   A format lays down the sectors asked for, each filled with the byte, with a count that ends
   the track and clear flags, and puts the head on the first one; other tracks stay.
   */
  lemma FormatLays(d: Disk, trk: nat, ids: seq<Id>, fill: u8)
    requires d.Valid() && trk < 164
    ensures
      var e := d.Format(trk, ids, fill);
      && |e.tracks[trk]| == |ids| && (forall k :: 0 <= k < 164 && k != trk ==> e.tracks[k] == d.tracks[k])
      && e.cur == 0 && e.top == (if ids == [] then None else Some(trk)) && e.readOnly == d.readOnly
      && forall i :: 0 <= i < |ids| ==>
           var s, len := e.tracks[trk][i], SectorLength(ids[i].n);
           && s.header.id == ids[i] && s.header.sectors == |ids| % 0x1_0000 && s.header.size == len % 0x1_0000
           && s.header.mfm == s.header.del == s.header.stat == 0 && s.header.reserved == [0, 0, 0, 0, 0]
           && |s.data| == len && forall k :: 0 <= k < len ==> s.data[k] == fill
  {
  }

  /** The status bits: found, deleted data, and the three error codes the image can carry. */
  lemma StatusBits(s: Sector)
    ensures
      Status(s) ==
      (if Bit(s.header.del, 4) == 1 then 3 else 1)
      + (match s.header.stat case 0xa0 => 4 case 0xb0 => 8 case 0xf0 => 16 case _ => 0)
  {
  }

  // ----- read after write

  lemma SameIdsSameMatch(t: Track, u: Track, id: Id, k: nat)
    requires |t| == |u| && k <= |t| && forall i :: 0 <= i < |t| ==> t[i].header.id == u[i].header.id
    ensures FirstMatch(t, id, k) == FirstMatch(u, id, k)
  {
    var i, j := FirstMatch(t, id, k), FirstMatch(u, id, k);
    assert i < |t| ==> Matches(u[i], id);
    assert j < |u| ==> Matches(t[j], id);
  }

  /**
   A write that finds its sector is read back by the next read of that ID, with the deleted
   flag it set, and changes nothing else: no other sector, no header field but that flag.
   */
  lemma ReadAfterWrite(d: Disk, id: Id, buf: seq<u8>, del: bool)
    requires d.Valid() && d.CanTransfer(id) && |buf| >= SectorLength(id.n)
    requires d.top.Some? && !d.readOnly && d.Find(id) < |d.Track()|
    ensures
      var e, i, len := d.Write(id, buf, del), d.Find(id), SectorLength(id.n);
      && e.Valid() && e.top == d.top && e.Find(id) == i && e.CanTransfer(id)
      && e.Track()[i].data[..len] == buf[..len] && e.Track()[i].data[len..] == d.Track()[i].data[len..]
      && e.Track()[i].header == d.Track()[i].header.(del := if del then 0x10 else 0)
      && (Status(e.Track()[i]) / 2 % 2 == 1 <==> del)
      && e.Track() == d.Track()[i := e.Track()[i]]
      && (forall k :: 0 <= k < TRACKS && k != d.top.value ==> e.tracks[k] == d.tracks[k])
  {
    var e, i := d.Write(id, buf, del), d.Find(id);
    assert forall k :: 0 <= k < |d.Track()| ==> e.Track()[k].header.id == d.Track()[k].header.id;
    SameIdsSameMatch(d.Track(), e.Track(), id, 0);
    forall k | 0 <= k < TRACKS
      ensures AllSized(e.tracks[k])
    {
      assert AllSized(d.tracks[k]);
    }
  }

  // ----- whole sessions

  datatype Op = SeekOp(trk: int) | ReadIdOp | ReadOp(id: Id) | ReadDiagOp | WriteOp(id: Id, buf: seq<u8>, del: bool)
              | FormatOp(trk: int, ids: seq<Id>, fill: u8)

  /** What a command needs of its caller: buffers that fit. */
  predicate Allowed(d: Disk, op: Op)
    requires d.Valid()
  {
    match op
    case WriteOp(id, buf, del) => d.CanTransfer(id) && |buf| >= SectorLength(id.n)
    case _ => true
  }

  function Step(d: Disk, op: Op): Disk
    requires d.Valid() && Allowed(d, op)
  {
    match op
    case SeekOp(trk) => d.Seek(trk)
    case ReadIdOp => d.ReadId()
    case ReadOp(id) => d.Read(id)
    case ReadDiagOp => d.ReadId()
    case WriteOp(id, buf, del) => d.Write(id, buf, del)
    case FormatOp(trk, ids, fill) => if 0 <= trk < TRACKS then d.Format(trk, ids, fill) else d
  }

  /** A format whose sector size and sector count fit their 16-bit fields. */
  predicate Representable(op: Op) {
    op.FormatOp? ==> |op.ids| < 0x1_0000 && forall i :: 0 <= i < |op.ids| ==> SectorLength(op.ids[i].n) < 0x1_0000
  }

  ghost predicate Run(d: Disk, ops: seq<Op>, e: Disk)
    decreases |ops|
  {
    d.Valid() &&
    if ops == [] then d == e
    else Allowed(d, ops[0]) && Step(d, ops[0]).Valid() && Run(Step(d, ops[0]), ops[1..], e)
  }

  lemma StepKeepsValid(d: Disk, op: Op)
    requires d.Valid() && Allowed(d, op)
    ensures Step(d, op).Valid()
  {
    if op.WriteOp? && d.top.Some? && !d.readOnly && d.Find(op.id) < |d.Track()| {
      ReadAfterWrite(d, op.id, op.buf, op.del);
    }
  }

  predicate AllWellFormed(ts: seq<Track>) { forall k :: 0 <= k < |ts| ==> WellFormed(ts[k]) }

  lemma StepKeepsWellFormed(d: Disk, op: Op)
    requires d.Valid() && Allowed(d, op) && Representable(op) && AllWellFormed(d.tracks)
    ensures AllWellFormed(Step(d, op).tracks)
  {
    var e := Step(d, op);
    forall k | 0 <= k < |e.tracks|
      ensures WellFormed(e.tracks[k])
    {
      assert WellFormed(d.tracks[k]);
      if op.FormatOp? && op.trk == k {
        var n := |op.ids|;
        forall i | 0 <= i < n
          ensures e.tracks[k][i].header.size == |e.tracks[k][i].data| && e.tracks[k][i].header.sectors == n
        {
          assert SectorLength(op.ids[i].n) < 0x1_0000;
        }
      }
    }
  }

  /** Every run leaves the cursor on the track under the head and the tracks fit to be saved. */
  lemma {:induction false} RunInvariant(d: Disk, ops: seq<Op>, e: Disk)
    requires d.Valid() && Run(d, ops, e)
    ensures e.Valid() && e.readOnly == d.readOnly
    ensures
      AllWellFormed(d.tracks) && (forall i :: 0 <= i < |ops| ==> Representable(ops[i])) ==> AllWellFormed(e.tracks)
    decreases |ops|
  {
    if ops == [] {
    } else {
      var d' := Step(d, ops[0]);
      StepKeepsValid(d, ops[0]);
      RunInvariant(d', ops[1..], e);
      if AllWellFormed(d.tracks) && forall i :: 0 <= i < |ops| ==> Representable(ops[i]) {
        StepKeepsWellFormed(d, ops[0]);
        assert forall i :: 0 <= i < |ops| - 1 ==> ops[1..][i] == ops[i + 1];
      }
    }
  }

  /** A disk as the loader leaves it: no track under the head yet. */
  function Mounted(ts: seq<Track>, readOnly: bool): Disk { Disk(ts, None, 0, readOnly) }

  /** Whatever loads can be mounted. */
  lemma LoadedIsValid(file: seq<u8>, readOnly: bool)
    requires Load(file).Some?
    ensures Mounted(Load(file).value, readOnly).Valid()
  {
    LoadedIsWellFormed(file, TRACKS);
    assert forall k :: 0 <= k < TRACKS ==> WellFormed(Load(file).value[k]);
  }

  /** The image file after eject: rewritten over what was there, unless the drive is write-protected. */
  function Ejected(file: seq<u8>, d: Disk, title: Title, tail: seq<u8>): seq<u8>
    requires d.readOnly || Fits(d.tracks)
  {
    if d.readOnly then file else Serialize(title, d.tracks) + tail
  }

  /**
   Mount, any session, eject, mount again: the second mount sees the tracks the session left if
   and only if they are well-formed or, on a write-protected drive, which writes no image, those
   it found. Sessions whose formats fit their fields leave well-formed tracks.
   */
  lemma SessionRoundTrip(file: seq<u8>, readOnly: bool, ops: seq<Op>, e: Disk, title: Title, tail: seq<u8>)
    requires Load(file).Some? && Run(Mounted(Load(file).value, readOnly), ops, e)
    requires e.readOnly || Fits(e.tracks)
    ensures e.readOnly == readOnly
    ensures
      Load(Ejected(file, e, title, tail)) == Some(e.tracks) <==>
      if readOnly then e.tracks == Load(file).value else AllWellFormed(e.tracks)
    ensures (forall i :: 0 <= i < |ops| ==> Representable(ops[i])) ==> AllWellFormed(e.tracks)
  {
    hide Load, Serialize, Run, Disk.Valid, WellFormed, Representable;
    LoadedTracks(file);
    LoadedIsValid(file, readOnly);
    RunInvariant(Mounted(Load(file).value, readOnly), ops, e);
    if !e.readOnly {
      RoundTrip(title, e.tracks, tail);
    }
  }

  /** A write-protected drive keeps its tracks over any session without a format. */
  lemma {:induction false} ProtectedKeepsTracks(d: Disk, ops: seq<Op>, e: Disk)
    requires d.readOnly && Run(d, ops, e) && forall i :: 0 <= i < |ops| ==> !ops[i].FormatOp?
    ensures e.tracks == d.tracks
    decreases |ops|
  {
    if ops == [] {
    } else {
      ProtectedKeepsTracks(Step(d, ops[0]), ops[1..], e);
    }
  }

  /** A format is carried out on a write-protected drive too, and lost at eject, whatever the image. */
  lemma ProtectedFormatIsLost(file: seq<u8>, title: Title, tail: seq<u8>)
    requires Load(file).Some?
    ensures
      var d := Mounted(Load(file).value, true);
      && d.Valid()
      && var op := FormatOp(0, if d.tracks[0] == [] then [Id(0, 0, 1, 0)] else [], 0);
         && Representable(op) && Allowed(d, op) && Run(d, [op], Step(d, op))
         && Load(Ejected(file, Step(d, op), title, tail)) != Some(Step(d, op).tracks)
  {
    hide Load, Formatted;
    LoadedIsValid(file, true);
    var d := Mounted(Load(file).value, true);
    var op := FormatOp(0, if d.tracks[0] == [] then [Id(0, 0, 1, 0)] else [], 0);
    StepKeepsValid(d, op);
    assert [op][1..] == [];
    assert Step(d, op).tracks[0] != d.tracks[0];
  }

  lemma LoadedTracks(file: seq<u8>)
    requires Load(file).Some?
    ensures AllWellFormed(Load(file).value)
  {
    LoadedIsWellFormed(file, TRACKS);
  }

  // ----- a disk that does not come back

  lemma {:induction false} FirstTrackOnly(ts: seq<Track>, k: nat)
    requires TracksSized(ts) && 0 < k <= |ts| && forall i :: 0 < i < |ts| ==> ts[i] == []
    ensures Body(ts[..k]) == TrackBytes(ts[0])
  {
    hide TrackBytes;
    if k == 1 {
      assert ts[..1] == [ts[0]] && ts[..1][..0] == [];
    } else {
      FirstTrackOnly(ts, k - 1);
      assert ts[..k][..k - 1] == ts[..k - 1] && ts[..k][k - 1] == [];
      NoBytes();
    }
  }

  lemma NoBytes()
    ensures TrackBytes([]) == []
  {
  }

  /** A track formatted with one sector of 64 KB, whose size field is 0, fits the file and is not
   * what is loaded from it. */
  lemma BigSectorIsLost(fill: u8, title: Title, tail: seq<u8>)
    ensures
      var ts := NO_TRACKS[0 := Formatted([Id(0, 0, 1, 9)], fill, 1)];
      Fits(ts) && Load(Serialize(title, ts) + tail) != Some(ts)
  {
    hide Load, Serialize;
    var t := Formatted([Id(0, 0, 1, 9)], fill, 1);
    var ts := NO_TRACKS[0 := t];
    assert Pow2(9) == 512 by {
      assert Pow2(3) == 8 && Pow2(6) == 8 * Pow2(3);
    }
    assert t[0].header.size == 0 && |t[0].data| == 0x1_0000;
    assert !WellFormed(ts[0]);
    forall k | 0 <= k < TRACKS
      ensures AllSized(ts[k])
    {
    }
    FirstTrackOnly(ts, TRACKS);
    assert ts[..TRACKS] == ts;
    OneSector(t);
    RoundTrip(title, ts, tail);
  }

  lemma OneSector(t: Track)
    requires AllSized(t) && |t| == 1
    ensures |TrackBytes(t)| == SECTOR_SIZE + t[0].header.size
  {
    assert t[..0] == [];
  }
}
