/**
 Several files on one volume (kernel/fat32.c): any run of reads, writes and truncations acts on each
 file as on a byte sequence of its own, up to the first write that the table of free clusters or a
 stale cell in the FAT cache stops.
 */
module FatFiles {
  import opened Common
  import C = FatCache
  import opened FatWalk
  import opened FatFile

  // ---------------------------------------------------------------- files as byte sequences

  /** A file's bytes and flags, and the clusters and cursor that decide how a write goes. */
  datatype File = File(bytes: seq<Byte>, readOnly: bool, directory: bool, chain: seq<nat>, cnt: nat)

  datatype State = State(fat: seq<nat>, mem: C.Memory, files: seq<File>)

  type Word = n: nat | n < 0x1_0000_0000

  datatype Op =
    | Read(i: nat, off: Word, len: Word)
    | Write(i: nat, off: Word, src: seq<Byte>)
    | Trunc(i: nat)

  /** NoRoom and Astray end a run: alloc_clus found no cluster, or the cursor went to cluster 0. */
  datatype Out = Data(bytes: seq<Byte>) | Count(n: nat) | Refusal | Done | NoRoom | Astray

  predicate WriteRefused(f: File, off: nat, src: seq<Byte>) {
    off > |f.bytes| || off + |src| > 0xFFFF_FFFF || f.readOnly
  }

  function Slice(f: File, off: nat, len: nat): seq<Byte> {
    if off > |f.bytes| || off + len >= 0x1_0000_0000 || f.directory then []
    else if off + len > |f.bytes| then f.bytes[off..] else f.bytes[off..off + len]
  }

  function TripIn(g: Geometry, s: State, i: nat, off: nat, len: nat): Trip
    requires i < |s.files| && Bpc(g) > 0
  {
    var f := s.files[i];
    Trip(s.fat, f.chain, s.mem, TripFrom(g, f.chain, f.cnt, off, len), TripTo(g, f.chain, f.cnt, off, len))
  }

  /** The write has to go past an end of chain that the cache shows as free. */
  ghost predicate GoesAstray(g: Geometry, l: C.Layout, s: State, i: nat, off: nat, src: seq<Byte>)
    requires i < |s.files| && Bpc(g) > 0 && l.clusters + 1 < |s.fat|
  {
    var w := TripIn(g, s, i, off, |src|);
    Stalls(l, s.mem, Way(l, w), |w.chain|, w.from, w.to)
  }

  ghost predicate LacksRoom(g: Geometry, l: C.Layout, s: State, i: nat, off: nat, src: seq<Byte>)
    requires i < |s.files| && Bpc(g) > 0 && l.clusters + 1 < |s.fat|
  {
    var w := TripIn(g, s, i, off, |src|);
    |Way(l, w)| <= w.to
  }

  /** One call: what it answers, what it does to the bytes, and where it leaves table, cache and cursor. */
  ghost predicate Step(g: Geometry, l: C.Layout, s: State, op: Op, out: Out, t: State) {
    && op.i < |s.files| && Bpc(g) > 0 && l.clusters + 1 < |s.fat|
    && var f := s.files[op.i];
    match op
    case Read(i, off, len) => out == Data(Slice(f, off, len)) && ReadStep(g, l, s, i, off, |Slice(f, off, len)|, t)
    case Write(i, off, src) =>
      if WriteRefused(f, off, src) then out == Refusal && t == s
      else out == Count(|src|) && WriteStep(g, l, s, i, off, src, t)
    case Trunc(i) =>
      && out == Done && t.files == s.files[i := f.(bytes := [], chain := [])]
      && Freed(s.fat, t.fat, f.chain) && t.mem == TruncMem(l, s.mem, f.chain)
  }

  ghost predicate ReadStep(g: Geometry, l: C.Layout, s: State, i: nat, off: nat, n: nat, t: State)
    requires i < |s.files| && Bpc(g) > 0
  {
    if n == 0 then t == s
    else
      var f, w := s.files[i], TripIn(g, s, i, off, n);
      && w.to < |f.chain| && t.fat == s.fat && t.files == s.files[i := f.(cnt := w.to)]
      && t.mem == WalkTo(l, s.mem, f.chain, |f.chain|, w.from, w.to)
  }

  ghost predicate WriteStep(g: Geometry, l: C.Layout, s: State, i: nat, off: nat, src: seq<Byte>, t: State)
    requires i < |s.files| && Bpc(g) > 0 && l.clusters + 1 < |s.fat| && off <= |s.files[i].bytes|
  {
    && !GoesAstray(g, l, s, i, off, src) && !LacksRoom(g, l, s, i, off, src)
    && var f, w := s.files[i], TripIn(g, s, i, off, |src|);
    && t.files == s.files[i := f.(bytes := Overlay(f.bytes, off, src), chain := Way(l, w), cnt := w.to)]
    && OnWay(l, w, t.fat, t.mem, Way(l, w), w.to)
  }

  /** The call that ends a run, and why. */
  ghost predicate Stops(g: Geometry, l: C.Layout, s: State, op: Op, out: Out) {
    && op.i < |s.files| && Bpc(g) > 0 && l.clusters + 1 < |s.fat|
    && op.Write? && !WriteRefused(s.files[op.i], op.off, op.src)
    && if out == Astray then GoesAstray(g, l, s, op.i, op.off, op.src)
       else out == NoRoom && LacksRoom(g, l, s, op.i, op.off, op.src) && !GoesAstray(g, l, s, op.i, op.off, op.src)
  }

  ghost predicate Trace(g: Geometry, l: C.Layout, ops: seq<Op>, outs: seq<Out>, states: seq<State>) {
    && |outs| == |ops| && |states| == |ops| + 1
    && forall k :: 0 <= k < |ops| ==> Step(g, l, states[k], ops[k], outs[k], states[k + 1])
  }

  lemma TraceMore(g: Geometry, l: C.Layout, ops: seq<Op>, outs: seq<Out>, states: seq<State>, op: Op, out: Out,
                  t: State)
    requires Trace(g, l, ops, outs, states) && Step(g, l, states[|ops|], op, out, t)
    ensures Trace(g, l, ops + [op], outs + [out], states + [t])
  {
    hide Step;
    var p, o, s := ops + [op], outs + [out], states + [t];
    forall k | 0 <= k < |p| ensures Step(g, l, s[k], p[k], o[k], s[k + 1]) {
      if k < |ops| {
        assert p[k] == ops[k] && o[k] == outs[k] && s[k] == states[k] && s[k + 1] == states[k + 1];
      }
    }
  }

  /** A file nobody writes to or truncates keeps its bytes and its clusters through every run. */
  lemma {:induction false} Undisturbed(g: Geometry, l: C.Layout, ops: seq<Op>, outs: seq<Out>, states: seq<State>,
                                       i: nat)
    requires Trace(g, l, ops, outs, states) && i < |states[0].files|
    requires forall k :: 0 <= k < |ops| && ops[k].i == i ==> ops[k].Read?
    ensures i < |states[|ops|].files|
    ensures states[|ops|].files[i].bytes == states[0].files[i].bytes
    ensures states[|ops|].files[i].chain == states[0].files[i].chain
  {
    hide OnWay, GoesAstray, LacksRoom, Freed, WalkTo, TruncMem, Way, TripIn;
    if ops != [] {
      var n := |ops| - 1;
      assert Step(g, l, states[n], ops[n], outs[n], states[n + 1]);
      assert forall k :: 0 <= k < n ==> ops[..n][k] == ops[k];
      Undisturbed(g, l, ops[..n], outs[..n], states[..n + 1], i);
    }
  }

  // ---------------------------------------------------------------- files on the volume

  ghost predicate Apart(p: seq<nat>, q: seq<nat>) {
    forall c :: c in p ==> c !in q
  }

  /** Sound files, no two of them sharing a cluster. */
  ghost predicate Together(v: Volume, files: seq<Entry>)
    reads v, v.table, files
  {
    && v.Ok()
    && (forall i :: 0 <= i < |files| ==> v.Sound(files[i]))
    && (forall i, j :: 0 <= i < |files| && 0 <= j < |files| && i != j ==>
          files[i] != files[j] && Apart(files[i].chain, files[j].chain))
  }

  ghost function FileOf(v: Volume, e: Entry): File
    requires Bpc(v.g) > 0
    reads v, e
  {
    File(Content(v.g, v.disk, e.chain, e.fileSize), e.readOnly, e.directory, e.chain, e.clusCnt)
  }

  /** The volume shows the files as s says. */
  ghost predicate Shows(v: Volume, files: seq<Entry>, s: State)
    requires Bpc(v.g) > 0
    reads v, files
  {
    && s.fat == v.fat && s.mem == v.mem && |s.files| == |files|
    && forall i :: 0 <= i < |files| ==> s.files[i] == FileOf(v, files[i])
  }

  lemma SizeShown(v: Volume, files: seq<Entry>, s: State, i: nat)
    requires Bpc(v.g) > 0 && Shows(v, files, s) && i < |files|
    ensures |s.files[i].bytes| == files[i].fileSize && s.files[i] == FileOf(v, files[i])
  {
  }

  lemma Roomy(v: Volume)
    requires v.Ok()
    ensures Bpc(v.g) > 0 && v.table.g.clusters + 1 < |v.fat|
  {
    hide Volume.Backed;
    BpcPositive(v.g, v.fat, v.disk);
  }

  method DoRead(v: Volume, files: seq<Entry>, i: nat, off: Word, len: Word, ghost s: State)
    returns (out: Out, ghost t: State)
    requires Together(v, files) && Bpc(v.g) > 0 && Shows(v, files, s) && i < |files|
    modifies v, v.table, files[i]
    ensures Together(v, files) && Shows(v, files, t) && out == Data(Slice(s.files[i], off, len))
    ensures ReadStep(v.g, v.table.g, s, i, off, |Slice(s.files[i], off, len)|, t)
  {
    hide IsChain, Content, Mounted, Apart, WalkTo, TripFrom, TripTo;
    SizeShown(v, files, s, i);
    var e := files[i];
    var d := v.ERead(e, off, len);
    out := Data(d);
    t := State(v.fat, v.mem, s.files[i := FileOf(v, e)]);
    assert s.files[i := s.files[i]] == s.files;
  }

  method DoTrunc(v: Volume, files: seq<Entry>, i: nat, ghost s: State) returns (ghost t: State)
    requires Together(v, files) && Bpc(v.g) > 0 && Shows(v, files, s) && i < |files|
    modifies v, v.table, files[i]
    ensures Together(v, files) && Shows(v, files, t)
    ensures t.files == s.files[i := s.files[i].(bytes := [], chain := [])]
    ensures Freed(s.fat, t.fat, s.files[i].chain) && t.mem == TruncMem(v.table.g, s.mem, s.files[i].chain)
  {
    hide IsChain, Content, Mounted, Freed, TruncMem;
    ghost var fat0, chain0 := v.fat, files[i].chain;
    v.ETrunc(files[i]);
    forall j | 0 <= j < |files| && j != i ensures IsChain(v.g, v.fat, files[j].chain) {
      assert Apart(files[j].chain, chain0);
      OthersKeepChains(v.g, fat0, v.fat, chain0, files[j].chain);
    }
    NoContent(v.g, v.disk);
    t := State(v.fat, v.mem, s.files[i := s.files[i].(bytes := [], chain := [])]);
  }

  lemma NoContent(g: Geometry, disk: Disk)
    requires Bpc(g) > 0
    ensures Content(g, disk, [], 0) == []
  {
  }

  method DoWrite(v: Volume, files: seq<Entry>, i: nat, off: Word, src: seq<Byte>, ghost s: State)
    returns (out: Out, ghost t: State)
    requires Together(v, files) && Bpc(v.g) > 0 && Shows(v, files, s) && i < |files| && |src| < 0x1_0000_0000
    modifies v, v.table, files[i]
    ensures |s.files| == |files| && v.table.g.clusters + 1 < |s.fat|
    ensures out == Refusal <==> WriteRefused(s.files[i], off, src)
    ensures out == Refusal ==> Together(v, files) && Shows(v, files, s)
    ensures out == Astray <==> out != Refusal && GoesAstray(v.g, v.table.g, s, i, off, src)
    ensures out == NoRoom <==> out != Refusal && out != Astray && LacksRoom(v.g, v.table.g, s, i, off, src)
    ensures out == NoRoom ==> ClustersNeeded(v.g, off, |src|) > Supply(v.g, s.fat, s.files[i].chain)
    ensures out == NoRoom || out == Refusal || out == Astray || out == Count(|src|)
    ensures out == Astray ==> files[i].curClus == 0
    ensures out == Count(|src|) ==> Together(v, files) && off <= |s.files[i].bytes|
    ensures out == Count(|src|) ==> Shows(v, files, t) && WriteStep(v.g, v.table.g, s, i, off, src, t)
  {
    hide IsChain, Content, Mounted, OnlyChain, Overlay, Supply, ClustersNeeded, OnWay, Way, Stalls, TripFrom, TripTo,
      Volume.Backed;
    Roomy(v);
    SizeShown(v, files, s, i);
    ghost var fat0, disk0, chain0 := v.fat, v.disk, files[i].chain;
    t := s;
    var r := v.EWrite(files[i], off, src);
    match r
    case Refused => out := Refusal;
    case DiskFull => out := NoRoom;
    case Lost => out := Astray;
    case Bytes(n) =>
      out := Count(n);
      OthersSame(v, files, i, fat0, disk0, chain0);
      t := State(v.fat, v.mem, s.files[i := FileOf(v, files[i])]);
  }

  /** The files beside the one written to are where and what they were. */
  lemma OthersSame(v: Volume, files: seq<Entry>, i: nat, fat0: seq<nat>, disk0: Disk, chain0: seq<nat>)
    requires Bpc(v.g) > 0 && i < |files| && OnlyChain(v.g, fat0, disk0, chain0, v.fat, v.disk, files[i].chain)
    requires forall j :: 0 <= j < |files| && j != i ==>
      IsChain(v.g, fat0, files[j].chain) && Apart(files[j].chain, chain0)
    ensures forall j :: 0 <= j < |files| && j != i ==>
      && IsChain(v.g, v.fat, files[j].chain)
      && Apart(files[j].chain, files[i].chain) && Apart(files[i].chain, files[j].chain)
      && Content(v.g, v.disk, files[j].chain, files[j].fileSize) ==
        Content(v.g, disk0, files[j].chain, files[j].fileSize)
  {
    hide IsChain, Content, OnlyChain;
    forall j | 0 <= j < |files| && j != i
      ensures IsChain(v.g, v.fat, files[j].chain)
      ensures Apart(files[j].chain, files[i].chain) && Apart(files[i].chain, files[j].chain)
      ensures Content(v.g, v.disk, files[j].chain, files[j].fileSize) ==
        Content(v.g, disk0, files[j].chain, files[j].fileSize)
    {
      OthersUntouched(v.g, fat0, disk0, chain0, v.fat, v.disk, files[i].chain, files[j].chain, files[j].fileSize);
    }
  }

  method Perform(v: Volume, files: seq<Entry>, op: Op, ghost s: State) returns (out: Out, ghost t: State)
    requires Together(v, files) && Bpc(v.g) > 0 && Shows(v, files, s)
    requires op.i < |files| && (op.Write? ==> |op.src| < 0x1_0000_0000)
    modifies v, v.table, files[op.i]
    ensures out != NoRoom && out != Astray ==> Together(v, files) && Shows(v, files, t)
    ensures out != NoRoom && out != Astray ==> Step(v.g, v.table.g, s, op, out, t)
    ensures out == NoRoom || out == Astray ==> Stops(v.g, v.table.g, s, op, out)
  {
    hide Together, Content, Mounted, ReadStep, WriteStep, GoesAstray, LacksRoom, TruncMem, Freed, FileOf;
    OkTogether(v, files);
    Roomy(v);
    match op
    case Read(i, off, len) => out, t := DoRead(v, files, i, off, len, s);
    case Write(i, off, src) => out, t := DoWrite(v, files, i, off, src, s);
      if out == Refusal { t := s; }
    case Trunc(i) =>
      t := DoTrunc(v, files, i, s);
      out := Done;
  }

  lemma OkTogether(v: Volume, files: seq<Entry>)
    requires Together(v, files)
    ensures v.Ok()
  {
  }

  /**
   Every run on every set of files that share no cluster: the answers and the contents are those of
   independent byte sequences, up to the first write that goes astray or lacks room.  Which write
   that is follows from the table, the chains and cursors and what the FAT cache remembers.
   */
  method Run(v: Volume, files: seq<Entry>, ops: seq<Op>, ghost s: State)
    returns (outs: seq<Out>, stop: Out, ghost states: seq<State>)
    requires Together(v, files) && Bpc(v.g) > 0 && Shows(v, files, s)
    requires forall k :: 0 <= k < |ops| ==> ops[k].i < |files| && (ops[k].Write? ==> |ops[k].src| < 0x1_0000_0000)
    modifies v, v.table, files
    ensures |outs| <= |ops| && states != [] && states[0] == s && Trace(v.g, v.table.g, ops[..|outs|], outs, states)
    ensures |outs| == |ops| ==> Together(v, files) && Shows(v, files, states[|ops|])
    ensures |outs| < |ops| ==> Stops(v.g, v.table.g, states[|outs|], ops[|outs|], stop)
  {
    hide Together, Shows, Step, Stops, Content, Mounted;
    outs, stop, states := [], Done, [s];
    while |outs| < |ops|
      invariant |outs| <= |ops| && |states| == |outs| + 1 && states[0] == s
      invariant Trace(v.g, v.table.g, ops[..|outs|], outs, states)
      invariant Together(v, files) && Shows(v, files, states[|outs|])
    {
      ghost var next;
      stop, next := Perform(v, files, ops[|outs|], states[|outs|]);
      if stop == NoRoom || stop == Astray {
        return;
      }
      TraceMore(v.g, v.table.g, ops[..|outs|], outs, states, ops[|outs|], stop, next);
      assert ops[..|outs| + 1] == ops[..|outs|] + [ops[|outs|]];
      outs, states := outs + [stop], states + [next];
    }
    assert ops[..|outs|] == ops;
  }

  // ---------------------------------------------------------------- a write that goes astray

  /**
   Exactly which writes go astray, in terms of the state before them: those that have to go past the
   old end of the chain while its claimed cell stays cached, or past a newly claimed cluster whose
   FAT sector is cached at that time and differs from that of the cluster before it.
   */
  lemma AstrayExactly(v: Volume, files: seq<Entry>, s: State, i: nat, off: nat, src: seq<Byte>)
    requires Together(v, files) && Bpc(v.g) > 0 && Shows(v, files, s) && i < |files|
    ensures v.table.g.clusters + 1 < |s.fat|
    ensures var w := TripIn(v.g, s, i, off, |src|); var q := Way(v.table.g, w);
      GoesAstray(v.g, v.table.g, s, i, off, src) <==>
      exists k ::
        w.from <= k < w.to && k < |q| && |w.chain| <= k + 1 && StaleByCache(v.table.g, s.mem, q, |w.chain|, w.from, k)
  {
    hide Stale, StaleByCache, Plan, Content, IsChain;
    Roomy(v);
    v.ClaimsKept();
    var l, w := v.table.g, TripIn(v.g, s, i, off, |src|);
    var q := Way(l, w);
    assert v.Sound(files[i]) && s.files[i] == FileOf(v, files[i]);
    forall k | w.from <= k < w.to && k < |q| && |w.chain| <= k + 1
      ensures Stale(l, s.mem, q, |w.chain|, w.from, k) <==> StaleByCache(l, s.mem, q, |w.chain|, w.from, k)
    {
      StaleExactly(l, s.mem, q, |w.chain|, w.from, k);
    }
  }

  /** rw_clus on cluster 0 begins two clusters before the data area. */
  lemma ClusterZeroOutside(g: Geometry, c: nat, k: nat, j: nat)
    requires DataClus(g, c) && k < g.spc && j < g.spc
    ensures (0 - 2) * g.spc + g.fds + k < g.fds <= FirstSec(g, c) + j
  {
  }

  /** A first write of more than a cluster ends at cluster 0 whenever the FAT sector of its first cluster is cached. */
  method LongFirstWrite(v: Volume, e: Entry, src: seq<Byte>, ghost c: nat) returns (r: Wrote)
    requires v.Sound(e) && e.chain == [] && !e.readOnly && Bpc(v.g) < |src| < 0xFFFF_FFFF
    requires IsLowestFree(v.fat, c) && DataClus(v.g, c) && C.SectorOf(v.table.g.reserved, c) in v.mem.recent
    modifies v, v.table, e
    ensures r.Lost? && e.curClus == 0
  {
    hide Volume.Backed, IsChain, Mounted, Plan, Stalls, ClusNum, Bpc, OnWay, OnlyChain, Content, Supply;
    Roomy(v);
    FirstStalls(v.g, v.table.g, v.TripOf(e, 0, |src|), c);
    SecondCluster(v.g, |src|);
    r := v.EWrite(e, 0, src);
  }

  lemma SecondCluster(g: Geometry, n: nat)
    requires 0 < Bpc(g) < n
    ensures ClusNum(g, n - 1) > 0
  {
    ClusNumMonotone(g, Bpc(g), n - 1);
  }

  lemma FirstStalls(g: Geometry, l: C.Layout, w: Trip, c: nat)
    requires w.chain == [] && w.from == 0 && l.clusters == g.clusters && g.clusters + 1 < |w.fat|
    requires IsLowestFree(w.fat, c) && DataClus(g, c) && C.SectorOf(l.reserved, c) in w.mem.recent
    ensures w.to > 0 ==> Stalls(l, w.mem, Way(l, w), |w.chain|, w.from, w.to)
  {
    hide Plan;
    FirstOnWay(g, l, w, c);
    assert Way(l, w)[..1] == [c];
    assert Stale(l, w.mem, Way(l, w), 0, 0, 0);
  }

  const ONE_SECTOR: C.Layout := C.Layout(1, 1, 100)
  const ROOMS: Geometry := Geometry(1, 10, 100)

  /** A table of one sector with only its two reserved cells taken. */
  function EmptyTable(): C.Cells {
    seq(C.CELLS, k => if k < 2 then CLAIM else 0)
  }

  function BlankDisk(): Disk {
    var sector: Sector := seq(BSIZE, _ => 0);
    seq(110, _ => sector)
  }

  lemma EmptyVolume(t: C.Cells)
    requires t == EmptyTable()
    ensures C.Fits(ONE_SECTOR, [t, t]) && Mirrors(ONE_SECTOR, [t, t], t) && Mounted(ROOMS, t, BlankDisk())
    ensures t[0] != 0 && t[1] != 0 && IsLowestFree(t, 2) && DataClus(ROOMS, 2) && Bpc(ROOMS) == 512
  {
  }

  lemma EmptyFile(v: Volume, e: Entry)
    requires v.Ok() && e.firstClus == 0 && e.fileSize == 0 && e.chain == []
    ensures v.Sound(e)
  {
    hide Volume.Ok;
    EmptyChain(v.g, v.fat);
  }

  /** A volume with one FAT sector that has been read once. */
  method ReadOnce() returns (v: Volume)
    ensures fresh(v) && fresh(v.table) && v.Ok() && v.g == ROOMS && v.fat == EmptyTable()
    ensures C.SectorOf(v.table.g.reserved, 2) in v.mem.recent
  {
    hide C.Fat.Valid, C.Fat.Mem, C.Use, Mounted, Mirrors, IsLowestFree, C.Fits, EmptyTable, BlankDisk, Bpc;
    var t := EmptyTable();
    EmptyVolume(t);
    var table := new C.Fat(ONE_SECTOR, [t, t]);
    var seen := table.ReadFat(2);
    v := new Volume(ROOMS, table, BlankDisk(), t);
  }

  /** An empty file on it is written beyond one cluster. */
  method WriteGoesAstray() returns (r: Wrote, e: Entry)
    ensures r.Lost? && e.curClus == 0
  {
    hide Volume.Ok, IsLowestFree, EmptyTable, Bpc;
    var v := ReadOnce();
    EmptyVolume(EmptyTable());
    e := new Entry();
    EmptyFile(v, e);
    r := LongFirstWrite(v, e, seq(513, _ => 1), 2);
  }
}
