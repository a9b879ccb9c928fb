/**
 One drive: the linked sector lists of its 164 tracks and the two pointers of the
 rotating cursor. The ghost field `disk` is the value that the lists represent; every
 command is proved to act on it as the function of the same name does. `Valid` is
 stated from a fresh mount to the next eject, which leaves the two pointers behind.
 */
module D88Drive {
  import opened CInt
  import opened D88
  import opened D88Disk
  import opened Wrappers

  class SectInfo {
    var next: SectInfo?
    var sect: Header
    var data: seq<u8>
    ghost var trk: nat
    ghost var pos: nat

    constructor (sect: Header, data: seq<u8>, ghost trk: nat, ghost pos: nat)
      ensures next == null && this.sect == sect && this.data == data && this.trk == trk && this.pos == pos
    {
      next, this.sect, this.data := null, sect, data;
      this.trk, this.pos := trk, pos;
    }
  }

  /** The nodes are exactly the list at `head`, and they hold the sectors of t. */
  ghost predicate Chain(head: SectInfo?, nodes: seq<SectInfo>, t: Track, trk: nat)
    reads nodes
  {
    && |nodes| == |t|
    && head == (if nodes == [] then null else nodes[0])
    && (forall i :: 0 <= i < |nodes| - 1 ==> nodes[i].next == nodes[i + 1])
    && (nodes != [] ==> nodes[|nodes| - 1].next == null)
    && (forall i :: 0 <= i < |nodes| ==> nodes[i].sect == t[i].header && nodes[i].data == t[i].data)
    && (forall i :: 0 <= i < |nodes| ==> nodes[i].trk == trk && nodes[i].pos == i)
  }

  lemma ChainHead(head: SectInfo?, nodes: seq<SectInfo>, t: Track, trk: nat)
    requires Chain(head, nodes, t, trk)
    ensures |nodes| == |t| && head == if nodes == [] then null else nodes[0]
  {
  }

  ghost predicate Within(nodes: seq<SectInfo>, repr: set<SectInfo>) {
    forall i :: 0 <= i < |nodes| ==> nodes[i] in repr
  }

  /** The k-th four bytes of a format buffer. */
  function IdOf(buf: seq<u8>, k: nat): Id
    requires 4 * k + 3 < |buf|
  {
    Id(buf[4 * k], buf[4 * k + 1], buf[4 * k + 2], buf[4 * k + 3])
  }

  function IdsOf(buf: seq<u8>, num: nat): (ids: seq<Id>)
    requires 4 * num <= |buf|
    ensures |ids| == num
  {
    seq(num, k requires 0 <= k < num => IdOf(buf, k))
  }

  lemma NoChain(trk: nat)
    ensures Chain(null, [], [], trk)
  {
  }

  lemma PrependNothing(rest: Option<Track>)
    ensures Prepend([], rest) == rest
  {
    if rest.Some? {
      assert [] + rest.value == rest.value;
    }
  }

  lemma PrependNone(t: Track)
    ensures Prepend(t, None) == None
  {
  }

  lemma PrependTwice(t: Track, s: Sector, rest: Option<Track>)
    ensures Prepend(t, Prepend([s], rest)) == Prepend(t + [s], rest) && Prepend(t, Some([s])) == Some(t + [s])
  {
    if rest.Some? {
      assert t + ([s] + rest.value) == (t + [s]) + rest.value;
    }
  }

  lemma NoPointers(ts: seq<Track>)
    requires Fits(ts)
    ensures Body(ts[..0]) == [] && Pointers(ts, 0) == []
  {
  }

  lemma NextPointer(ts: seq<Track>, k: nat)
    requires Fits(ts) && k < |ts|
    ensures |Body(ts[..k])| <= |Body(ts)| && |Body(ts[..k + 1])| == |Body(ts[..k])| + |TrackBytes(ts[k])| <= |Body(ts)|
    ensures Pointers(ts, k + 1) == Pointers(ts, k) + [if ts[k] == [] then 0 else HEADER_SIZE + |Body(ts[..k])|]
  {
    BodyPrefix(ts, k);
    BodyPrefix(ts, k + 1);
    assert ts[..k + 1][..k] == ts[..k];
  }

  lemma WriteFound(d: Disk, id: Id, buf: seq<u8>, del: bool)
    requires d.Valid() && d.CanTransfer(id) && |buf| >= SectorLength(id.n)
    requires d.top.Some? && !d.readOnly && d.Find(id) < |d.Track()|
    ensures
      var i, s, len := d.Find(id), d.Track()[d.Find(id)], SectorLength(id.n);
      var s' := Sector(s.header.(del := if del then 0x10 else 0), buf[..len] + s.data[len..]);
      && d.Write(id, buf, del).Valid()
      && d.Write(id, buf, del) ==
         d.(tracks := d.tracks[d.top.value := d.Track()[i := s']], cur := if i + 1 < |d.Track()| then i + 1 else 0)
  {
    ReadAfterWrite(d, id, buf, del);
  }

  lemma WriteRefused(d: Disk, id: Id, buf: seq<u8>, del: bool)
    requires d.Valid() && d.CanTransfer(id) && |buf| >= SectorLength(id.n)
    ensures d.top.None? || d.readOnly ==> d.Write(id, buf, del) == d
  {
  }

  lemma WriteMissed(d: Disk, id: Id, buf: seq<u8>, del: bool)
    requires d.Valid() && d.CanTransfer(id) && |buf| >= SectorLength(id.n)
    requires d.top.Some? && !d.readOnly && d.Find(id) >= |d.Track()|
    ensures d.Write(id, buf, del) == d.(cur := 0)
  {
  }

  lemma FormatIs(d: Disk, trk: nat, ids: seq<Id>, fill: u8)
    requires d.Valid() && trk < TRACKS
    ensures
      var t, e := Formatted(ids, fill, |ids|), d.Format(trk, ids, fill);
      && e.Valid() && e.tracks == d.tracks[trk := t] && e.cur == 0 && e.readOnly == d.readOnly
      && e.top == if |t| == 0 then None else Some(trk)
  {
  }

  lemma FirstMatchIs(t: Track, id: Id, i: nat)
    requires i <= |t| && (i < |t| ==> Matches(t[i], id)) && forall j :: 0 <= j < i ==> !Matches(t[j], id)
    ensures FirstMatch(t, id, 0) == i
  {
  }

  /** A node is in the list of its own track only. */
  lemma NotShared(head: SectInfo?, nodes: seq<SectInfo>, t: Track, trk: nat, i: nat,
                  head': SectInfo?, nodes': seq<SectInfo>, t': Track, trk': nat)
    requires Chain(head, nodes, t, trk) && Chain(head', nodes', t', trk') && trk != trk' && i < |nodes|
    ensures nodes[i] !in nodes'
  {
  }

  /** Gives one node of a list a new header and new data. */
  method Replace(ghost head: SectInfo?, ghost nodes: seq<SectInfo>, ghost t: Track, ghost trk: nat, ghost i: nat,
                 si: SectInfo, sect: Header, data: seq<u8>)
    requires Chain(head, nodes, t, trk) && i < |nodes| && si == nodes[i]
    modifies si`sect, si`data
    ensures Chain(head, nodes, t[i := Sector(sect, data)], trk)
  {
    si.sect, si.data := sect, data;
  }

  /** Links one more node behind the last one of a list under construction. */
  method Append(head: SectInfo?, last: SectInfo?, si: SectInfo,
                ghost nodes: seq<SectInfo>, ghost t: Track, ghost trk: nat)
    returns (head': SectInfo?)
    requires Chain(head, nodes, t, trk) && last == (if nodes == [] then null else nodes[|nodes| - 1])
    requires si !in nodes && si.next == null && si.trk == trk && si.pos == |nodes|
    modifies last
    ensures Chain(head', nodes + [si], t + [Sector(si.sect, si.data)], trk)
  {
    head' := head;
    if last != null {
      last.next := si;
    } else {
      head' := si;
    }
  }

  /** One turn of the loader's loop: the next sector hung behind the last one, unless the file ends early. */
  method LoadSector(file: seq<u8>, pos: nat, head: SectInfo?, last: SectInfo?,
                    ghost nodes: seq<SectInfo>, ghost t: Track, ghost trk: nat)
    returns (ok: bool, head': SectInfo?, si: SectInfo?)
    requires Chain(head, nodes, t, trk) && last == (if nodes == [] then null else nodes[|nodes| - 1])
    modifies last
    ensures ok == SectorAt(file, pos).Some? == (si != null)
    ensures ok ==> fresh(si) && Sector(si.sect, si.data) == SectorAt(file, pos).value
    ensures ok ==> Chain(head', nodes + [si], t + [SectorAt(file, pos).value], trk)
  {
    head', si := head, null;
    if pos + SECTOR_SIZE > |file| {
      return false, head', si;
    }
    var d88s := DecodeHeader(file[pos..pos + SECTOR_SIZE]);
    var next := pos + SECTOR_SIZE + d88s.size;
    if next > |file| {
      return false, head', si;
    }
    ok := true;
    si := new SectInfo(d88s, file[pos + SECTOR_SIZE..next], trk, |nodes|);
    head' := Append(head, last, si, nodes, t, trk);
  }

  /** The sector loop of the loader over one track. */
  method LoadTrack(file: seq<u8>, ptr: nat, ghost trk: nat)
    returns (ok: bool, head: SectInfo?, ghost nodes: seq<SectInfo>)
    ensures ok == ParseSectors(file, ptr, 0).Some?
    ensures forall i :: 0 <= i < |nodes| ==> fresh(nodes[i])
    ensures ok ==> Chain(head, nodes, ParseSectors(file, ptr, 0).value, trk)
  {
    hide Chain, SectorAt, Prepend;
    head, nodes := null, [];
    var last: SectInfo? := null;
    var sectors, sct, pos := 65535, 0, ptr;
    ghost var t: Track := [];
    NoChain(trk);
    PrependNothing(ParseSectors(file, ptr, 0));
    while sct < sectors
      invariant 0 <= sct == |t| == |nodes| && 0 <= pos && sectors <= 65535
      invariant forall i :: 0 <= i < |nodes| ==> fresh(nodes[i])
      invariant Chain(head, nodes, t, trk) && last == (if nodes == [] then null else nodes[|nodes| - 1])
      invariant
        ParseSectors(file, ptr, 0) == if sct < sectors then Prepend(t, ParseSectors(file, pos, sct)) else Some(t)
      decreases 65535 - sct
    {
      var loaded, head', si := LoadSector(file, pos, head, last, nodes, t, trk);
      if !loaded {
        PrependNone(t);
        return false, head, nodes;
      }
      ghost var s, next := Sector(si.sect, si.data), pos + SECTOR_SIZE + si.sect.size;
      PrependTwice(t, s, ParseSectors(file, next, sct + 1));
      head, nodes, t := head', nodes + [si], t + [s];
      last, sectors, sct, pos := si, si.sect.sectors, sct + 1, pos + SECTOR_SIZE + si.sect.size;
    }
    ok := true;
  }

  /** The sector loop of a format over one track. */
  method FormatTrack(buf: seq<u8>, num: nat, fill: u8, ghost trk: nat)
    returns (head: SectInfo?, ghost nodes: seq<SectInfo>)
    requires 4 * num <= |buf|
    ensures forall i :: 0 <= i < |nodes| ==> fresh(nodes[i])
    ensures Chain(head, nodes, Formatted(IdsOf(buf, num), fill, num), trk)
    ensures |nodes| == num && head == if nodes == [] then null else nodes[0]
  {
    head, nodes := null, [];
    var last: SectInfo? := null;
    ghost var t := Formatted(IdsOf(buf, num), fill, num);
    var i := 0;
    assert Chain(head, nodes, t[..0], trk);
    hide Chain;
    while i < num
      invariant 0 <= i <= num && |nodes| == i
      invariant forall j :: 0 <= j < |nodes| ==> fresh(nodes[j])
      invariant Chain(head, nodes, t[..i], trk) && last == (if nodes == [] then null else nodes[|nodes| - 1])
    {
      var s := FormattedSector(IdOf(buf, i), fill, num);
      var si := new SectInfo(s.header, s.data, trk, i);
      head := Append(head, last, si, nodes, t[..i], trk);
      assert t[..i + 1] == t[..i] + [Sector(si.sect, si.data)];
      nodes := nodes + [si];
      last, i := si, i + 1;
    }
    assert t[..num] == t;
    ChainHead(head, nodes, t, trk);
  }

  class Drive {
    const trks: array<SectInfo?>
    var cur: SectInfo?
    var top: SectInfo?
    var readOnly: bool
    var title: Title
    ghost var lists: seq<seq<SectInfo>>
    ghost var repr: set<SectInfo>
    ghost var disk: Disk

    ghost predicate ValidTracks()
      reads this, trks, repr
    {
      && trks.Length == |lists| == |disk.tracks| == TRACKS
      && (forall k :: 0 <= k < TRACKS ==> Within(lists[k], repr) && Chain(trks[k], lists[k], disk.tracks[k], k))
    }

    ghost predicate ValidCursor()
      reads this, trks, repr
      requires ValidTracks()
    {
      && disk.Valid() && disk.readOnly == readOnly
      && (disk.top.None? ==> top == null && cur == null)
      && (disk.top.Some? ==> top == lists[disk.top.value][0] && cur == lists[disk.top.value][disk.cur])
    }

    ghost predicate Valid()
      reads this, trks, repr
    {
      ValidTracks() && ValidCursor()
    }

    /** D88_Init: an empty drive. */
    constructor (readOnly: bool)
      ensures Valid() && fresh(trks) && disk == Mounted(NO_TRACKS, readOnly) && repr == {}
    {
      trks := new SectInfo?[TRACKS](_ => null);
      cur, top, this.readOnly := null, null, readOnly;
      title := seq(28, _ => 0);
      lists := seq(TRACKS, _ => []);
      repr := {};
      disk := Mounted(NO_TRACKS, readOnly);
    }

    /** Hangs a new list on a track; the old one is dropped. */
    method Install(trk: nat, head: SectInfo?, ghost nodes: seq<SectInfo>, ghost t: Track, ghost d: Disk)
      requires ValidTracks() && trk < TRACKS && Chain(head, nodes, t, trk) && d.tracks == disk.tracks[trk := t]
      modifies trks, `lists, `repr, `disk
      ensures ValidTracks() && disk == d
      ensures lists == old(lists)[trk := nodes] && repr == old(repr) + set n | n in nodes
    {
      hide Chain;
      assert Within(nodes, repr + set n | n in nodes);
      trks[trk] := head;
      lists, repr, disk := lists[trk := nodes], repr + (set n | n in nodes), d;
    }

    /** D88_SetFD: succeeds exactly when the image loads, and then holds its tracks. */
    method SetFD(file: seq<u8>) returns (ok: bool)
      requires Valid() && disk == Mounted(NO_TRACKS, readOnly)
      modifies this, trks
      ensures ok == Load(file).Some?
      ensures
        ok ==> Valid() && disk == Disk(Load(file).value, None, 0, old(readOnly) || file[26] != 0) && title == file[..28]
      ensures !ok ==> readOnly
      ensures fresh(repr - old(repr))
    {
      if |file| < HEADER_SIZE {
        readOnly := true;
        return false;
      }
      title, readOnly := file[..28], readOnly || file[PROTECT] != 0;
      hide Chain, Within, ParseTracks;
      ok := LoadTracks(file);
      if ok {
        LoadedIsValid(file, readOnly);
        disk := Mounted(disk.tracks, readOnly);
      } else {
        readOnly := true;
      }
    }

    /** The track loop of the loader. */
    method LoadTracks(file: seq<u8>) returns (ok: bool)
      requires ValidTracks() && |file| >= HEADER_SIZE && disk.tracks == NO_TRACKS
      modifies trks, `lists, `repr, `disk
      ensures ok == ParseTracks(file, TRACKS).Some?
      ensures ok ==> ValidTracks() && disk.tracks == ParseTracks(file, TRACKS).value
      ensures fresh(repr - old(repr))
    {
      var trk := 0;
      hide Chain, Within, ParseTrack;
      while trk < TRACKS
        invariant 0 <= trk <= TRACKS && ValidTracks() && fresh(repr - old(repr))
        invariant ParseTracks(file, trk).Some? && ParseTracks(file, trk).value == disk.tracks[..trk]
        invariant forall k :: trk <= k < TRACKS ==> disk.tracks[k] == []
      {
        ghost var before := disk.tracks;
        var loaded := LoadOne(file, trk);
        if !loaded {
          NoTracks(file, trk + 1, TRACKS);
          return false;
        }
        assert disk.tracks[..trk + 1] == before[..trk] + [ParseTrack(file, trk).value];
        trk := trk + 1;
      }
      assert disk.tracks[..TRACKS] == disk.tracks;
      ok := true;
    }

    method LoadOne(file: seq<u8>, trk: nat) returns (loaded: bool)
      requires ValidTracks() && |file| >= HEADER_SIZE && trk < TRACKS && disk.tracks[trk] == []
      modifies trks, `lists, `repr, `disk
      ensures loaded == ParseTrack(file, trk).Some?
      ensures
        loaded ==> ValidTracks() && disk == old(disk).(tracks := old(disk).tracks[trk := ParseTrack(file, trk).value])
      ensures fresh(repr - old(repr))
    {
      hide Chain, ParseSectors;
      var ptr, end := De32(file[32 + 4 * trk..36 + 4 * trk]), De32(file[28..32]);
      if HEADER_SIZE <= ptr < end {
        var ok, head, nodes := LoadTrack(file, ptr, trk);
        if !ok {
          return false;
        }
        ghost var t := ParseSectors(file, ptr, 0).value;
        Install(trk, head, nodes, t, disk.(tracks := disk.tracks[trk := t]));
      }
      loaded := true;
    }

    // ----- the list behind a track

    /** The i-th node of a track: its successor and the sector it holds. */
    lemma NodeAt(trk: nat, i: nat)
      requires ValidTracks() && trk < TRACKS && i < |disk.tracks[trk]|
      ensures |lists[trk]| == |disk.tracks[trk]| && trks[trk] == lists[trk][0]
      ensures lists[trk][i].next == if i + 1 < |disk.tracks[trk]| then lists[trk][i + 1] else null
      ensures Sector(lists[trk][i].sect, lists[trk][i].data) == disk.tracks[trk][i]
      ensures lists[trk][i].trk == trk && lists[trk][i].pos == i
    {
      assert Chain(trks[trk], lists[trk], disk.tracks[trk], trk);
    }

    lemma HeadOf(trk: nat)
      requires ValidTracks() && trk < TRACKS
      ensures trks.Length == |lists| == |disk.tracks| == TRACKS
      ensures |lists[trk]| == |disk.tracks[trk]|
      ensures trks[trk] == if disk.tracks[trk] == [] then null else lists[trk][0]
    {
      assert Chain(trks[trk], lists[trk], disk.tracks[trk], trk);
    }

    /** Without a node under the head there is no track under it. */
    lemma NothingUnderHead()
      requires Valid()
      ensures top == null <==> disk.top.None?
    {
      if disk.top.Some? {
        NodeAt(disk.top.value, 0);
      }
    }

    /** The pointer under the head tells which track it is. */
    lemma TopIsTrack(trk: nat)
      requires Valid() && trk < TRACKS && trks[trk] != null
      ensures top == trks[trk] <==> disk.top == Some(trk)
    {
      HeadOf(trk);
      NodeAt(trk, 0);
      if disk.top.Some? {
        NodeAt(disk.top.value, 0);
      }
    }

    // ----- commands

    /** D88_Seek */
    method Seek(trk: int) returns (ok: bool, id: Id)
      requires Valid()
      modifies `cur, `top, `disk
      ensures Valid() && disk == old(disk).Seek(trk)
      ensures ok == (0 <= trk < TRACKS && disk.tracks[trk] != [])
      ensures ok ==> disk.top == Some(trk) && id == disk.Track()[disk.cur].header.id
    {
      hide Chain, Within;
      ok, id := false, Id(0, 0, 0, 0);
      if trk < 0 || trk > 163 {
        return;
      }
      HeadOf(trk);
      if trks[trk] == null {
        return;
      }
      TopIsTrack(trk);
      if top != trks[trk] {
        cur, top := trks[trk], trks[trk];
      }
      disk := disk.Seek(trk);
      NodeAt(trk, disk.cur);
      ok, id := true, cur.sect.id;
    }

    /** D88_ReadID */
    method ReadID() returns (ret: nat, id: Id)
      requires Valid()
      modifies `cur, `disk
      ensures Valid() && disk == old(disk).ReadId()
      ensures old(disk).top.None? ==> ret == 0
      ensures old(disk).top.Some? ==>
                var s := old(disk).Track()[old(disk).cur];
                ret == Status(s) && id == s.header.id
    {
      ret, id := 0, Id(0, 0, 0, 0);
      if cur == null {
        return;
      }
      var si := cur;
      NodeAt(disk.top.value, disk.cur);
      NodeAt(disk.top.value, 0);
      ret, id := Status(Sector(si.sect, si.data)), si.sect.id;
      cur := if si.next != null then si.next else top;
      disk := disk.ReadId();
    }

    /** D88_ReadDiag: transfers whatever sector comes round, at the length of the ID given. */
    method ReadDiag(id: Id) returns (ret: nat, retid: Id, buf: seq<u8>)
      requires Valid()
      requires disk.top.Some? ==> SectorLength(id.n) <= |disk.Track()[disk.cur].data|
      modifies `cur, `disk
      ensures Valid() && disk == old(disk).ReadId()
      ensures old(disk).top.None? ==> ret == 0
      ensures old(disk).top.Some? ==>
                var s := old(disk).Track()[old(disk).cur];
                ret == Status(s) && retid == s.header.id && buf == s.data[..SectorLength(id.n)]
    {
      buf := [];
      if cur != null {
        NodeAt(disk.top.value, disk.cur);
        buf := cur.data[..SectorLength(id.n)];
      }
      ret, retid := ReadID();
    }

    /** The scan of the track under the head that D88_Read and D88_Write begin with. */
    method Search(id: Id) returns (si: SectInfo?)
      requires Valid() && disk.top.Some?
      ensures
        var i := disk.Find(id);
        if i < |disk.Track()| then si == lists[disk.top.value][i] else si == null
    {
      ghost var t, i := disk.Track(), 0;
      si := top;
      while si != null && si.sect.id != id
        invariant 0 <= i <= |t|
        invariant si == if i < |t| then lists[disk.top.value][i] else null
        invariant forall j :: 0 <= j < i ==> !Matches(t[j], id)
        decreases |t| - i
      {
        NodeAt(disk.top.value, i);
        si, i := si.next, i + 1;
      }
      if si != null {
        NodeAt(disk.top.value, i);
      }
      FirstMatchIs(t, id, i);
    }

    /** D88_Read */
    method Read(id: Id) returns (ret: nat, buf: seq<u8>)
      requires Valid() && disk.CanTransfer(id)
      modifies `cur, `disk
      ensures Valid() && disk == old(disk).Read(id)
      ensures
        if old(disk).top.Some? && old(disk).Find(id) < |old(disk).Track()| then
          var s := old(disk).Track()[old(disk).Find(id)];
          ret == Status(s) && buf == s.data[..SectorLength(id.n)]
        else ret == 0
    {
      hide Chain, Within, Status;
      NothingUnderHead();
      ret, buf := 0, [];
      if top == null {
        return;
      }
      var si := Search(id);
      NodeAt(disk.top.value, 0);
      if si != null {
        NodeAt(disk.top.value, disk.Find(id));
        ret, buf := Status(Sector(si.sect, si.data)), si.data[..SectorLength(id.n)];
        cur := if si.next != null then si.next else top;
      } else {
        cur := top;
      }
      disk := disk.Read(id);
    }

    /** Replaces the header and the data of one sector in place. */
    method Store(si: SectInfo, sect: Header, data: seq<u8>, ghost trk: nat, ghost i: nat, ghost d: Disk)
      requires ValidTracks() && trk < TRACKS && i < |disk.tracks[trk]| && |lists[trk]| == |disk.tracks[trk]|
      requires si == lists[trk][i] && d.tracks == disk.tracks[trk := disk.tracks[trk][i := Sector(sect, data)]]
      modifies repr, `disk
      ensures ValidTracks() && disk == d
    {
      hide Chain;
      assert Within(lists[trk], repr);
      forall k | 0 <= k < TRACKS && k != trk
        ensures si !in lists[k]
      {
        NotShared(trks[trk], lists[trk], disk.tracks[trk], trk, i, trks[k], lists[k], disk.tracks[k], k);
      }
      Replace(trks[trk], lists[trk], disk.tracks[trk], trk, i, si, sect, data);
      disk := d;
    }

    /** D88_Write */
    method Write(id: Id, buf: seq<u8>, del: bool) returns (ok: bool)
      requires Valid() && disk.CanTransfer(id) && |buf| >= SectorLength(id.n)
      modifies repr, `cur, `disk
      ensures Valid() && disk == old(disk).Write(id, buf, del)
      ensures ok == (old(disk).top.Some? && !readOnly && old(disk).Find(id) < |old(disk).Track()|)
    {
      hide Chain, Within, Disk.Write, Disk.Find, TracksSized;
      NothingUnderHead();
      WriteRefused(disk, id, buf, del);
      ok := false;
      if top == null {
        return;
      }
      if readOnly {
        return;
      }
      var si := Search(id);
      ghost var trk, i := disk.top.value, disk.Find(id);
      NodeAt(trk, 0);
      if si != null {
        NodeAt(trk, i);
        WriteFound(disk, id, buf, del);
        var len := SectorLength(id.n);
        ok, cur := true, if si.next != null then si.next else top;
        var header := si.sect.(del := if del then 0x10 else 0);
        Store(si, header, buf[..len] + si.data[len..], trk, i, disk.Write(id, buf, del));
      } else {
        WriteMissed(disk, id, buf, del);
        cur, disk := top, disk.Write(id, buf, del);
      }
    }

    /** D88_WriteID: formats a track; the buffer holds four bytes per sector and the fill byte behind them. */
    method WriteID(trk: int, buf: seq<u8>, num: nat) returns (ok: bool)
      requires Valid() && 4 * num < |buf|
      modifies this, trks
      ensures Valid() && fresh(repr - old(repr)) && readOnly == old(readOnly) && title == old(title)
      ensures ok == (0 <= trk < TRACKS)
      ensures disk == if ok then old(disk).Format(trk, IdsOf(buf, num), buf[4 * num]) else old(disk)
      ensures
        ok ==>
        forall k :: 0 <= k < num ==>
          disk.tracks[trk][k].header.id == Id(buf[4 * k], buf[4 * k + 1], buf[4 * k + 2], buf[4 * k + 3])
    {
      if trk < 0 || trk > 163 {
        return false;
      }
      FormatIs(disk, trk, IdsOf(buf, num), buf[4 * num]);
      HeadOf(trk);
      hide Chain, Within, Formatted, IdsOf, Disk.Format, Drive.ValidTracks;
      var ids, fill := IdsOf(buf, num), buf[4 * num];
      Hang(trk, buf, num, Formatted(ids, fill, num), disk.Format(trk, ids, fill));
      ok := true;
    }

    /** Builds the list of a formatted track, hangs it on the track and puts the cursor on its head. */
    method Hang(trk: nat, buf: seq<u8>, num: nat, ghost t: Track, ghost d: Disk)
      requires ValidTracks() && trk < TRACKS && 4 * num < |buf|
      requires t == Formatted(IdsOf(buf, num), buf[4 * num], num) && d.tracks == disk.tracks[trk := t]
      requires d.Valid() && d.readOnly == readOnly && d.cur == 0 && d.top == if |t| == 0 then None else Some(trk)
      modifies this, trks
      ensures Valid() && fresh(repr - old(repr)) && readOnly == old(readOnly) && title == old(title) && disk == d
    {
      hide Chain, Within, Formatted, IdsOf, Disk.Valid;
      var head, nodes := FormatTrack(buf, num, buf[4 * num], trk);
      Install(trk, head, nodes, t, d);
      cur, top := head, head;
      HeadOf(trk);
    }

    // ----- eject

    /** The first pass over one track. */
    method TrackSize(trk: nat) returns (size: nat)
      requires ValidTracks() && TracksSized(disk.tracks) && trk < TRACKS
      ensures size == |TrackBytes(disk.tracks[trk])|
    {
      ghost var t, i := disk.tracks[trk], 0;
      var si := trks[trk];
      HeadOf(trk);
      size := 0;
      while si != null
        invariant 0 <= i <= |t| && si == (if i < |t| then lists[trk][i] else null)
        invariant size == |TrackBytes(t[..i])|
        decreases |t| - i
      {
        NodeAt(trk, i);
        assert t[..i + 1][..i] == t[..i];
        size := size + SECTOR_SIZE + si.sect.size;
        si, i := si.next, i + 1;
      }
      assert t[..i] == t;
    }

    /** The second pass over one track. */
    method TrackImage(trk: nat) returns (image: seq<u8>)
      requires ValidTracks() && TracksSized(disk.tracks) && trk < TRACKS
      ensures image == TrackBytes(disk.tracks[trk])
    {
      ghost var t, i := disk.tracks[trk], 0;
      var si := trks[trk];
      HeadOf(trk);
      image := [];
      while si != null
        invariant 0 <= i <= |t| && si == (if i < |t| then lists[trk][i] else null)
        invariant image == TrackBytes(t[..i])
        decreases |t| - i
      {
        NodeAt(trk, i);
        assert t[..i + 1][..i] == t[..i];
        image := image + SectorBytes(Sector(si.sect, si.data));
        si, i := si.next, i + 1;
      }
      assert t[..i] == t;
    }

    /** The pointers and the total size are the positions at which the second pass will write. */
    method LayOut() returns (header: seq<u8>)
      requires ValidTracks() && Fits(disk.tracks)
      ensures header == HeaderBytes(title, disk.tracks)
    {
      hide Chain, Within, TrackBytes, AllSized, EncodeWords, Le32, Drive.ValidTracks, Body, Pointers;
      ghost var ts := disk.tracks;
      var pos, trackp: seq<u32> := HEADER_SIZE, [];
      var trk := 0;
      NoPointers(ts);
      while trk < TRACKS
        invariant 0 <= trk <= TRACKS && pos == HEADER_SIZE + |Body(ts[..trk])| && trackp == Pointers(ts, trk)
      {
        NextPointer(ts, trk);
        HeadOf(trk);
        trackp := trackp + [if trks[trk] != null then pos else 0];
        var size := TrackSize(trk);
        pos, trk := pos + size, trk + 1;
      }
      assert ts[..TRACKS] == ts;
      header := title + Le32(pos) + EncodeWords(trackp);
    }

    /** D88_Eject: the image it writes, if it may write, and an empty track table. */
    method Eject() returns (image: Option<seq<u8>>)
      requires Valid() && Fits(disk.tracks)
      modifies trks
      ensures image == if readOnly then None else Some(Serialize(title, disk.tracks))
      ensures forall k :: 0 <= k < TRACKS ==> trks[k] == null
    {
      hide Chain, Within, TrackBytes, HeaderBytes;
      image := None;
      if !readOnly {
        var header := LayOut();
        var body := [];
        var trk := 0;
        while trk < TRACKS
          modifies {}
          invariant 0 <= trk <= TRACKS && body == Body(disk.tracks[..trk])
        {
          var bytes := TrackImage(trk);
          assert disk.tracks[..trk + 1][..trk] == disk.tracks[..trk];
          body, trk := body + bytes, trk + 1;
        }
        assert disk.tracks[..TRACKS] == disk.tracks;
        image := Some(header + body);
      }
      var trk := 0;
      while trk < TRACKS
        invariant 0 <= trk <= TRACKS && forall k :: 0 <= k < trk ==> trks[k] == null
      {
        trks[trk], trk := null, trk + 1;
      }
    }
  }

  lemma {:induction false} NoTracks(file: seq<u8>, trk: nat, k: nat)
    requires |file| >= HEADER_SIZE && trk <= k <= TRACKS && ParseTracks(file, trk).None?
    ensures ParseTracks(file, k).None?
  {
    if trk == k {
    } else {
      NoTracks(file, trk, k - 1);
    }
  }
}
