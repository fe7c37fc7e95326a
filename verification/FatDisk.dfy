/**
 Where the bytes of files lie on the raw disk (first_sec_of_clus and its users in kernel/fat32.c):
 sectors one behind the other, clusters one behind the other from the start of the data area.
 */
module FatDisk {
  import opened FatFile

  /** All bytes of a stretch of sectors, one behind the other. */
  ghost function Joined(d: Disk): (r: seq<Byte>)
    ensures |r| == |d| * BSIZE
  {
    if d == [] then [] else Joined(d[..|d| - 1]) + d[|d| - 1]
  }

  lemma {:induction false} JoinedAt(d: Disk, i: nat, o: nat)
    requires i < |d| && o < BSIZE
    ensures i * BSIZE + o < |d| * BSIZE && Joined(d)[i * BSIZE + o] == d[i][o]
  {
    if i < |d| - 1 {
      JoinedAt(d[..|d| - 1], i, o);
    }
  }

  /** Cluster 2 begins with the data area, every other cluster right behind the one before it. */
  lemma ClustersInOrder(g: Geometry, c: nat)
    ensures g.clusters > 0 ==> FirstSec(g, 2) == g.fds
    ensures DataClus(g, c) && DataClus(g, c + 1) ==> FirstSec(g, c + 1) == FirstSec(g, c) + g.spc
  {
    assert (c + 1 - 2) * g.spc == (c - 2) * g.spc + g.spc;
  }

  /** Where byte o of cluster c lies on the disk. */
  ghost function RawIndex(g: Geometry, c: nat, o: nat): int {
    (g.fds + (c - 2) * g.spc) * 512 + o
  }

  /** Byte o of the k-th cluster of a file, read off the raw disk. */
  lemma ByteOnDisk(g: Geometry, fat: seq<nat>, disk: Disk, q: seq<nat>, k: nat, o: nat)
    requires Mounted(g, fat, disk) && IsChain(g, fat, q) && k < |q| && o < g.spc * 512
    ensures Bpc(g) > 0 && 0 <= RawIndex(g, q[k], o) < |disk| * BSIZE
    ensures FileByte(g, disk, q, k * (g.spc * 512) + o) == Joined(disk)[RawIndex(g, q[k], o)]
  {
    CutAt(g, k, o);
    ChainAt(g, fat, q, k);
    hide Mounted, IsChain, ClusNum, ClusOff, ClusByte, Joined, Bpc, RawIndex;
    ClusterOnDisk(g, fat, disk, q[k], o);
  }

  lemma CutAt(g: Geometry, k: nat, o: nat)
    requires o < g.spc * 512
    ensures Bpc(g) == g.spc * 512 && ClusNum(g, k * (g.spc * 512) + o) == k && ClusOff(g, k * (g.spc * 512) + o) == o
  {
    Quotient(k, g.spc * 512, o);
  }

  lemma ClusterOnDisk(g: Geometry, fat: seq<nat>, disk: Disk, c: nat, o: nat)
    requires Mounted(g, fat, disk) && DataClus(g, c) && o < g.spc * 512
    ensures 0 <= RawIndex(g, c, o) < |disk| * BSIZE && ClusByte(g, disk, c, o) == Joined(disk)[RawIndex(g, c, o)]
  {
    var k := o / BSIZE;
    SectorInRange(g, disk, c, k);
    JoinedAt(disk, FirstSec(g, c) + k, o % BSIZE);
  }

  lemma Quotient(k: nat, b: nat, o: nat)
    requires o < b
    ensures (k * b + o) / b == k && (k * b + o) % b == o
  {
    DivMod(k * b + o, b);
    var d := (k * b + o) / b;
    if d < k {
      MulMonotone(d + 1, k, b);
    } else if d > k {
      MulMonotone(k + 1, d, b);
    }
  }

  ghost predicate Consecutive(q: seq<nat>) {
    forall i :: 0 <= i < |q| ==> q[i] == q[0] + i
  }

  /** A file on consecutive clusters is one stretch of the disk. */
  lemma ConsecutiveOnDisk(g: Geometry, fat: seq<nat>, disk: Disk, q: seq<nat>, n: nat)
    requires Mounted(g, fat, disk) && IsChain(g, fat, q) && Consecutive(q) && q != [] && Bpc(g) > 0 && n <= |q| * Bpc(g)
    ensures OneStretch(g, disk, q, n)
  {
    hide FileByte, IsChain, Mounted, RawIndex, Bpc;
    forall i | 0 <= i < n ensures OnStretch(g, disk, q, i) {
      RunByte(g, fat, disk, q, i);
    }
    StretchOf(g, disk, q, n);
  }

  /** The first n bytes of the file are those of the disk from the first sector of its first cluster on. */
  ghost predicate OneStretch(g: Geometry, disk: Disk, q: seq<nat>, n: nat)
    requires Bpc(g) > 0 && q != []
  {
    var at := RawIndex(g, q[0], 0);
    n == 0 || (0 <= at && at + n <= |disk| * BSIZE && Content(g, disk, q, n) == Joined(disk)[at..at + n])
  }

  ghost predicate OnStretch(g: Geometry, disk: Disk, q: seq<nat>, i: nat)
    requires Bpc(g) > 0 && q != []
  {
    0 <= RawIndex(g, q[0], i) < |disk| * BSIZE && FileByte(g, disk, q, i) == Joined(disk)[RawIndex(g, q[0], i)]
  }

  lemma StretchOf(g: Geometry, disk: Disk, q: seq<nat>, n: nat)
    requires Bpc(g) > 0 && q != [] && forall i: nat :: i < n ==> OnStretch(g, disk, q, i)
    ensures OneStretch(g, disk, q, n)
  {
    hide FileByte, Joined, Bpc;
    var at := RawIndex(g, q[0], 0);
    if n > 0 {
      assert OnStretch(g, disk, q, 0) && OnStretch(g, disk, q, n - 1);
      forall i | 0 <= i < n ensures Content(g, disk, q, n)[i] == Joined(disk)[at..at + n][i] {
        assert OnStretch(g, disk, q, i);
      }
    }
  }

  lemma RunByte(g: Geometry, fat: seq<nat>, disk: Disk, q: seq<nat>, i: nat)
    requires Mounted(g, fat, disk) && IsChain(g, fat, q) && Consecutive(q) && q != [] && Bpc(g) > 0 && i < |q| * Bpc(g)
    ensures OnStretch(g, disk, q, i)
  {
    hide FileByte, IsChain, Mounted;
    var b := g.spc * 512;
    var k, o := i / b, i % b;
    WithinChain(g, i, |q|);
    DivMod(i, b);
    ByteOnDisk(g, fat, disk, q, k, o);
    RunIndex(g, q[0], k, o);
  }

  lemma SubSlice(c: seq<Byte>, d: seq<Byte>, at: nat, off: nat, len: nat)
    requires at + |c| <= |d| && c == d[at..at + |c|] && off + len <= |c|
    ensures c[off..off + len] == d[at + off..at + off + len]
  {
    var x, y := c[off..off + len], d[at + off..at + off + len];
    forall i | 0 <= i < len ensures x[i] == y[i] {
      assert x[i] == c[off + i] == d[at + (off + i)];
      assert y[i] == d[at + off + i];
    }
  }

  /** So is what is read from such a file. */
  lemma ReadOnDisk(g: Geometry, fat: seq<nat>, disk: Disk, q: seq<nat>, n: nat, off: nat, len: nat)
    requires Mounted(g, fat, disk) && IsChain(g, fat, q) && Bpc(g) > 0 && n <= |q| * Bpc(g) && off + len <= n && 0 < len
    requires Consecutive(q) && q != []
    ensures RawSlice(g, disk, q, off, Content(g, disk, q, n)[off..off + len])
  {
    hide Mounted, IsChain, FileByte, Joined, RawIndex, Bpc;
    ConsecutiveOnDisk(g, fat, disk, q, n);
    IndexFrom(g, q[0], off);
    SubSlice(Content(g, disk, q, n), Joined(disk), RawIndex(g, q[0], 0), off, len);
  }

  lemma IndexFrom(g: Geometry, c: nat, off: nat)
    ensures RawIndex(g, c, off) == RawIndex(g, c, 0) + off
  {
  }

  /** dst is what the raw disk holds from byte off of the file's first cluster on. */
  ghost predicate RawSlice(g: Geometry, disk: Disk, q: seq<nat>, off: nat, dst: seq<Byte>) {
    q != [] && var at := RawIndex(g, q[0], off);
    0 <= at && at + |dst| <= |disk| * BSIZE && dst == Joined(disk)[at..at + |dst|]
  }

  lemma RunIndex(g: Geometry, c: nat, k: nat, o: nat)
    ensures RawIndex(g, c + k, o) == RawIndex(g, c, k * (g.spc * 512) + o)
  {
    assert (c + k - 2) * g.spc == (c - 2) * g.spc + k * g.spc;
    assert k * g.spc * 512 == k * (g.spc * 512);
  }

  /** Reading a file that lies on consecutive clusters reads one stretch of the disk. */
  method ReadStretch(v: Volume, e: Entry, off: nat, len: nat) returns (dst: seq<Byte>)
    requires v.Sound(e) && off < 0x1_0000_0000 && len < 0x1_0000_0000 && Consecutive(e.chain)
    modifies v, v.table, e`curClus, e`clusCnt, e`chain
    ensures v.disk == old(v.disk) && (dst != [] ==> RawSlice(v.g, v.disk, e.chain, off, dst))
    ensures off <= e.fileSize && off + len < 0x1_0000_0000 && !e.directory ==>
      |dst| == if off + len > e.fileSize then e.fileSize - off else len
  {
    hide RawSlice, Consecutive, Mounted, IsChain, FileByte, Bpc, Volume.Backed;
    dst := v.ERead(e, off, len);
    if dst != [] {
      ghost var c := Content(v.g, v.disk, e.chain, e.fileSize);
      assert dst == c[off..off + |dst|];
      ReadOnDisk(v.g, v.fat, v.disk, e.chain, e.fileSize, off, |dst|);
    }
  }

  lemma OverlayHolds(c: seq<Byte>, off: nat, src: seq<Byte>)
    requires off <= |c|
    ensures off + |src| <= |Overlay(c, off, src)| && Overlay(c, off, src)[off..off + |src|] == src
  {
  }

  /** And writing to one that then lies on consecutive clusters puts the bytes there. */
  method WriteStretch(v: Volume, e: Entry, off: nat, src: seq<Byte>) returns (r: Wrote)
    requires v.Sound(e) && off < 0x1_0000_0000 && |src| < 0x1_0000_0000
    modifies v, v.table, e`firstClus, e`curClus, e`clusCnt, e`fileSize, e`dirty, e`chain
    ensures r.Bytes? && src != [] && Consecutive(e.chain) ==> RawSlice(v.g, v.disk, e.chain, off, src)
  {
    hide RawSlice, Consecutive, Mounted, IsChain, FileByte, Bpc, Volume.Backed, Cut, OnlyChain, OnWay, Supply,
      ClustersNeeded, Overlay;
    BpcPositive(v.g, v.fat, v.disk);
    ghost var was := Content(v.g, v.disk, e.chain, e.fileSize);
    r := v.EWrite(e, off, src);
    if r.Bytes? && src != [] && Consecutive(e.chain) {
      OverlayHolds(was, off, src);
      ReadOnDisk(v.g, v.fat, v.disk, e.chain, e.fileSize, off, |src|);
    }
  }
}
