/**
 Files as cluster chains on a FAT32 volume (kernel/fat32.c): the file cursor, chunked reading and
 writing across sector and cluster boundaries, extension by alloc_clus, and truncation.

 FAT cells go through the sector cache of module FatCache, stale cells included.  Buffers handed to
 the copy routines are taken to be accessible.
 */
module FatFile {
  import opened Common
  import C = FatCache
  import opened FatWalk

  const BSIZE: nat := 512
  const EOC: nat := C.EOC
  const CLAIM: nat := C.CLAIM

  type Byte = bv8
  type Sector = s: seq<Byte> | |s| == BSIZE witness seq(BSIZE, _ => 0)
  type Disk = seq<Sector>

  /** sec_per_clus, first_data_sec and data_clus_cnt of the mounted volume. */
  datatype Geometry = Geometry(spc: nat, fds: nat, clusters: nat)

  function Bpc(g: Geometry): nat { g.spc * BSIZE }

  predicate DataClus(g: Geometry, c: nat) { 2 <= c <= g.clusters + 1 }

  /** first_sec_of_clus */
  function FirstSec(g: Geometry, c: nat): nat
    requires DataClus(g, c)
  {
    (c - 2) * g.spc + g.fds
  }

  /** The disk holds every data cluster and the table has a cell for each. */
  ghost predicate Mounted(g: Geometry, fat: seq<nat>, disk: Disk) {
    && 0 < g.spc && g.clusters + 1 < EOC
    && g.clusters + 1 < |fat|
    && g.fds + g.clusters * g.spc <= |disk|
  }

  lemma SectorInRange(g: Geometry, disk: Disk, c: nat, k: nat)
    requires g.fds + g.clusters * g.spc <= |disk| && DataClus(g, c) && k < g.spc
    ensures FirstSec(g, c) + k < |disk|
  {
    assert (c - 2) * g.spc + g.spc == (c - 1) * g.spc;
    MulMonotone(c - 1, g.clusters, g.spc);
  }

  lemma MulMonotone(a: nat, b: nat, n: nat)
    requires a <= b
    ensures a * n <= b * n
  {
  }

  /** Different clusters, or different sectors of one, are different sectors of the disk. */
  lemma SectorUnique(g: Geometry, c: nat, k: nat, d: nat, l: nat)
    requires DataClus(g, c) && DataClus(g, d) && k < g.spc && l < g.spc
    requires FirstSec(g, c) + k == FirstSec(g, d) + l
    ensures c == d && k == l
  {
    if c < d {
      MulMonotone(c - 1, d - 2, g.spc);
    } else if d < c {
      MulMonotone(d - 1, c - 2, g.spc);
    }
  }

  /** Byte o of cluster c. */
  function ClusByte(g: Geometry, disk: Disk, c: nat, o: nat): Byte {
    if DataClus(g, c) && o < Bpc(g) && FirstSec(g, c) + o / BSIZE < |disk|
    then disk[FirstSec(g, c) + o / BSIZE][o % BSIZE] else 0
  }

  /** Bytes lo up to lo+n of cluster c. */
  ghost function ClusBytes(g: Geometry, disk: Disk, c: nat, lo: nat, n: nat): seq<Byte> {
    seq(n, i requires 0 <= i < n => ClusByte(g, disk, c, lo + i))
  }

  /** The last cell is one that reloc_clus, which compares signed numbers, takes for an end of chain. */
  ghost predicate IsChain(g: Geometry, fat: seq<nat>, q: seq<nat>) {
    && (forall i :: 0 <= i < |q| ==> DataClus(g, q[i]) && q[i] < |fat|)
    && (forall i, j :: 0 <= i < j < |q| ==> q[i] != q[j])
    && (forall i :: 0 <= i < |q| - 1 ==> fat[q[i]] == q[i + 1])
    && (q != [] ==> EOC <= fat[q[|q| - 1]] < 0x8000_0000)
  }

  /** Which cluster of a file byte i is in, and where in it. */
  function ClusNum(g: Geometry, i: nat): nat
    requires Bpc(g) > 0
  {
    i / Bpc(g)
  }

  function ClusOff(g: Geometry, i: nat): (o: nat)
    requires Bpc(g) > 0
  {
    i % Bpc(g)
  }

  /** Byte i of the file stored along chain q. */
  function FileByte(g: Geometry, disk: Disk, q: seq<nat>, i: nat): Byte
    requires Bpc(g) > 0
  {
    if ClusNum(g, i) < |q| then ClusByte(g, disk, q[ClusNum(g, i)], ClusOff(g, i)) else 0
  }

  /** The first n bytes of the file stored along chain q. */
  ghost function Content(g: Geometry, disk: Disk, q: seq<nat>, n: nat): seq<Byte>
    requires Bpc(g) > 0
  {
    seq(n, i requires 0 <= i < n => FileByte(g, disk, q, i))
  }

  // ---------------------------------------------------------------- writes and their frame

  /** Bytes lo up to lo+|src| of cluster c are src, every other byte of the data area is as before. */
  ghost predicate Written(g: Geometry, disk: Disk, disk': Disk, c: nat, lo: nat, src: seq<Byte>) {
    && |disk'| == |disk|
    && forall d: nat, o: nat :: DataClus(g, d) && o < Bpc(g) ==>
         ClusByte(g, disk', d, o) == if d == c && lo <= o < lo + |src| then src[o - lo] else ClusByte(g, disk, d, o)
  }

  function Patched(s: Sector, at: nat, src: seq<Byte>): Sector
    requires at + |src| <= BSIZE
  {
    s[..at] + src + s[at + |src|..]
  }

  /** One sector of the loop in rw_clus. */
  lemma SectorWritten(g: Geometry, fat: seq<nat>, disk: Disk, c: nat, lo: nat, src: seq<Byte>)
    requires Mounted(g, fat, disk) && DataClus(g, c) && lo % BSIZE + |src| <= BSIZE && src != [] && lo + |src| <= Bpc(g)
    ensures var sec := FirstSec(g, c) + lo / BSIZE;
      sec < |disk| && Written(g, disk, disk[sec := Patched(disk[sec], lo % BSIZE, src)], c, lo, src)
  {
    var k := lo / BSIZE;
    assert k < g.spc;
    SectorInRange(g, disk, c, k);
    var sec := FirstSec(g, c) + k;
    var disk' := disk[sec := Patched(disk[sec], lo % BSIZE, src)];
    forall d: nat, o: nat | DataClus(g, d) && o < Bpc(g)
      ensures ClusByte(g, disk', d, o) ==
        if d == c && lo <= o < lo + |src| then src[o - lo] else ClusByte(g, disk, d, o)
    {
      assert o / BSIZE < g.spc;
      SectorInRange(g, disk, d, o / BSIZE);
      if FirstSec(g, d) + o / BSIZE == sec {
        SectorUnique(g, d, o / BSIZE, c, k);
        assert o - lo == o % BSIZE - lo % BSIZE;
      } else {
        assert d == c ==> o / BSIZE != k;
      }
    }
  }

  lemma WrittenMore(g: Geometry, disk: Disk, mid: Disk, disk': Disk, c: nat, lo: nat, a: seq<Byte>, b: seq<Byte>)
    requires Written(g, disk, mid, c, lo, a) && Written(g, mid, disk', c, lo + |a|, b)
    ensures Written(g, disk, disk', c, lo, a + b)
  {
    hide ClusByte;
  }

  // ---------------------------------------------------------------- file positions

  lemma DivMod(i: nat, n: nat)
    requires n > 0
    ensures i == i / n * n + i % n && 0 <= i % n < n
  {
  }

  /** Two positions compare as their clusters do, and within a cluster as their offsets. */
  lemma SameCluster(i: nat, off: nat, len: nat, n: nat)
    requires n > 0 && off % n + len <= n
    ensures off <= i < off + len <==> i / n == off / n && off % n <= i % n < off % n + len
    ensures i / n == off / n ==> i - off == i % n - off % n
  {
    DivMod(i, n);
    DivMod(off, n);
    if i / n < off / n {
      MulMonotone(i / n + 1, off / n, n);
      assert (i / n + 1) * n == i / n * n + n;
    } else if i / n > off / n {
      MulMonotone(off / n + 1, i / n, n);
      assert (off / n + 1) * n == off / n * n + n;
    }
  }

  lemma Position(g: Geometry, i: nat, off: nat, len: nat)
    requires Bpc(g) > 0 && ClusOff(g, off) + len <= Bpc(g)
    ensures off <= i < off + len <==>
      ClusNum(g, i) == ClusNum(g, off) && ClusOff(g, off) <= ClusOff(g, i) < ClusOff(g, off) + len
    ensures ClusNum(g, i) == ClusNum(g, off) ==> i - off == ClusOff(g, i) - ClusOff(g, off)
    ensures ClusOff(g, i) < Bpc(g)
  {
    SameCluster(i, off, len, Bpc(g));
    DivMod(i, Bpc(g));
  }

  /** Writing within one cluster of a file changes exactly those bytes of the file. */
  lemma FileWritten(g: Geometry, disk: Disk, disk': Disk, q: seq<nat>, off: nat, src: seq<Byte>)
    requires Bpc(g) > 0 && ClusNum(g, off) < |q| && ClusOff(g, off) + |src| <= Bpc(g) && Distinct(q)
    requires forall i :: 0 <= i < |q| ==> DataClus(g, q[i])
    requires Written(g, disk, disk', q[ClusNum(g, off)], ClusOff(g, off), src)
    ensures forall i: nat ::
      FileByte(g, disk', q, i) == if off <= i < off + |src| then src[i - off] else FileByte(g, disk, q, i)
  {
    hide ClusByte, Bpc, ClusNum, ClusOff;
    forall i: nat
      ensures FileByte(g, disk', q, i) == if off <= i < off + |src| then src[i - off] else FileByte(g, disk, q, i)
    {
      Position(g, i, off, |src|);
    }
  }

  // ---------------------------------------------------------------- extending a chain

  /**
   chain' is chain plus clusters that were free in fat; every other cell of the table and every
   byte outside the added clusters is as before.
   */
  ghost predicate Extended(g: Geometry, fat: seq<nat>, disk: Disk, chain: seq<nat>, fat': seq<nat>, disk': Disk,
                           chain': seq<nat>)
  {
    && |fat'| == |fat| && |disk'| == |disk| && chain <= chain'
    && (forall i :: 0 <= i < |chain'| ==> chain'[i] < |fat|)
    && (forall i :: |chain| <= i < |chain'| ==> fat[chain'[i]] == 0)
    && (forall c :: 0 <= c < |fat| && c !in chain' ==> fat'[c] == fat[c])
    && (forall d: nat, o: nat :: DataClus(g, d) && o < Bpc(g) && d !in chain'[|chain|..] ==>
          ClusByte(g, disk', d, o) == ClusByte(g, disk, d, o))
  }

  /** A cell of a chain is never zero, so a free cluster lies on no chain. */
  lemma ChainCellsTaken(g: Geometry, fat: seq<nat>, q: seq<nat>, c: nat)
    requires IsChain(g, fat, q) && c in q
    ensures c < |fat| && fat[c] != 0
  {
    var i :| 0 <= i < |q| && q[i] == c;
    if i == |q| - 1 {
      assert fat[q[|q| - 1]] >= EOC;
    } else {
      assert fat[q[i]] == q[i + 1];
    }
  }

  /** alloc_clus and write_fat hang one free cluster on the end of a chain. */
  lemma ChainExtended(g: Geometry, fat: seq<nat>, chain: seq<nat>, c: nat)
    requires IsChain(g, fat, chain) && chain != [] && DataClus(g, c) && c < |fat| && fat[c] == 0 && g.clusters + 1 < EOC
    ensures IsChain(g, fat[c := EOC + 7][chain[|chain| - 1] := c], chain + [c])
    ensures c !in chain
  {
    forall i | 0 <= i < |chain| ensures chain[i] != c {
      ChainCellsTaken(g, fat, chain, chain[i]);
    }
    var q := chain + [c];
    forall i | 0 <= i < |q| ensures q[i] == if i < |chain| then chain[i] else c {}
  }

  lemma ExtendedTwice(g: Geometry, fat: seq<nat>, disk: Disk, a: seq<nat>, fat1: seq<nat>, disk1: Disk, b: seq<nat>,
                      fat2: seq<nat>, disk2: Disk, c: seq<nat>)
    requires Extended(g, fat, disk, a, fat1, disk1, b) && Extended(g, fat1, disk1, b, fat2, disk2, c) && Distinct(c)
    ensures Extended(g, fat, disk, a, fat2, disk2, c)
  {
    hide ClusByte, Bpc;
    forall i | |a| <= i < |c| ensures fat[c[i]] == 0 {
      if i < |b| {
        assert c[i] == b[i];
      } else {
        assert c[i] !in b;
      }
    }
    forall d | d in b[|a|..] || d in c[|b|..] ensures d in c[|a|..] {
      if d in b[|a|..] {
        var i :| 0 <= i < |b| - |a| && b[|a|..][i] == d;
        assert c[|a|..][i] == d;
      } else {
        var i :| 0 <= i < |c| - |b| && c[|b|..][i] == d;
        assert c[|a|..][i + |b| - |a|] == d;
      }
    }
    assert forall d :: d in b ==> d in c;
  }

  /** The bytes a file had keep their place when its chain grows. */
  lemma ExtendedBytes(g: Geometry, fat: seq<nat>, disk: Disk, chain: seq<nat>, fat': seq<nat>, disk': Disk,
                      chain': seq<nat>, i: nat)
    requires Bpc(g) > 0 && Extended(g, fat, disk, chain, fat', disk', chain') && Distinct(chain')
    requires (forall k :: 0 <= k < |chain| ==> DataClus(g, chain[k])) && ClusNum(g, i) < |chain|
    ensures FileByte(g, disk', chain', i) == FileByte(g, disk, chain, i)
  {
    DivMod(i, Bpc(g));
    var k := ClusNum(g, i);
    assert chain'[k] == chain[k];
    assert forall j :: 0 <= j < |chain'| - |chain| ==> chain'[|chain|..][j] == chain'[j + |chain|];
  }

  /**
   The frame of a write: chain' is chain plus clusters that were free, and outside chain' neither
   a cell of the table nor a byte of the data area has changed.
   */
  ghost predicate OnlyChain(g: Geometry, fat: seq<nat>, disk: Disk, chain: seq<nat>, fat': seq<nat>, disk': Disk,
                            chain': seq<nat>)
  {
    && |fat'| == |fat| && |disk'| == |disk| && chain <= chain'
    && (forall i :: 0 <= i < |chain'| ==> chain'[i] < |fat|)
    && (forall i :: |chain| <= i < |chain'| ==> fat[chain'[i]] == 0)
    && (forall c :: 0 <= c < |fat| && c !in chain' ==> fat'[c] == fat[c])
    && (forall d: nat, o: nat :: DataClus(g, d) && o < Bpc(g) && d !in chain' ==>
          ClusByte(g, disk', d, o) == ClusByte(g, disk, d, o))
  }

  lemma OnlyThenExtended(g: Geometry, fat: seq<nat>, disk: Disk, a: seq<nat>, fat1: seq<nat>, disk1: Disk, b: seq<nat>,
                         fat2: seq<nat>, disk2: Disk, c: seq<nat>)
    requires OnlyChain(g, fat, disk, a, fat1, disk1, b) && Extended(g, fat1, disk1, b, fat2, disk2, c) && Distinct(c)
    ensures OnlyChain(g, fat, disk, a, fat2, disk2, c)
  {
    hide ClusByte, Bpc;
    forall i | |a| <= i < |c| ensures fat[c[i]] == 0 {
      if i < |b| {
        assert c[i] == b[i];
      } else {
        assert c[i] !in b;
      }
    }
    assert forall d :: d in b ==> d in c;
    assert forall d :: d in c[|b|..] ==> d in c;
  }

  lemma OnlyThenWritten(g: Geometry, fat: seq<nat>, disk: Disk, a: seq<nat>, fat1: seq<nat>, disk1: Disk, b: seq<nat>,
                        disk2: Disk, c: nat, lo: nat, src: seq<Byte>)
    requires OnlyChain(g, fat, disk, a, fat1, disk1, b) && c in b && Written(g, disk1, disk2, c, lo, src)
    ensures OnlyChain(g, fat, disk, a, fat1, disk2, b)
  {
    hide ClusByte, Bpc;
  }

  /** No other file notices: a chain apart from this one is still a chain, with the same bytes. */
  lemma OthersUntouched(g: Geometry, fat: seq<nat>, disk: Disk, chain: seq<nat>, fat': seq<nat>, disk': Disk,
                        chain': seq<nat>, q: seq<nat>, n: nat)
    requires Bpc(g) > 0 && OnlyChain(g, fat, disk, chain, fat', disk', chain') && IsChain(g, fat, q)
    requires forall c :: c in q ==> c !in chain
    ensures IsChain(g, fat', q) && Content(g, disk', q, n) == Content(g, disk, q, n)
    ensures forall c :: c in q ==> c !in chain'
  {
    hide ClusByte, Bpc;
    forall c | c in q ensures c !in chain' {
      ChainCellsTaken(g, fat, q, c);
      assert forall i :: 0 <= i < |chain| ==> chain'[i] == chain[i];
    }
    forall i: nat | i < n ensures FileByte(g, disk', q, i) == FileByte(g, disk, q, i) {
      OffsetSmall(g, i);
    }
  }

  /** The clusters alloc_clus may still hand out. */
  ghost function FreeCells(g: Geometry, fat: seq<nat>): set<nat> {
    set c: nat | c < |fat| && DataClus(g, c) && fat[c] == 0
  }

  /** A chain can grow by exactly as many clusters as are free. */
  ghost function Supply(g: Geometry, fat: seq<nat>, chain: seq<nat>): nat {
    |FreeCells(g, fat)| + |chain|
  }

  /** Growing a chain moves clusters from the free ones to the chain, one for one. */
  lemma SupplyKept(g: Geometry, fat: seq<nat>, chain: seq<nat>, fat': seq<nat>, chain': seq<nat>)
    requires |fat'| == |fat| && chain <= chain' && IsChain(g, fat', chain')
    requires forall i :: |chain| <= i < |chain'| ==> chain'[i] < |fat| && fat[chain'[i]] == 0
    requires forall c :: 0 <= c < |fat| && c !in chain' ==> fat'[c] == fat[c]
    requires forall c :: 0 <= c < |fat| && c in chain ==> fat[c] != 0
    ensures Supply(g, fat', chain') == Supply(g, fat, chain)
  {
    var added := chain'[|chain|..];
    forall c | c in chain' ensures fat'[c] != 0 {
      ChainCellsTaken(g, fat', chain', c);
    }
    forall c | c in added ensures c in FreeCells(g, fat) {
      var i :| 0 <= i < |added| && added[i] == c;
      assert chain'[i + |chain|] == c;
    }
    assert chain' == chain + added;
    assert FreeCells(g, fat') == FreeCells(g, fat) - Elements(added);
    DistinctSize(added);
  }

  /** Progress of a write of src at off0 into a file of size0 bytes. */
  ghost predicate Spliced(g: Geometry, disk0: Disk, chain0: seq<nat>, size0: nat, disk: Disk, chain: seq<nat>,
                          off0: nat, src: seq<Byte>, tot: nat)
    requires Bpc(g) > 0 && tot <= |src|
  {
    forall i: nat :: i < size0 || off0 <= i < off0 + tot ==>
      FileByte(g, disk, chain, i) == if off0 <= i < off0 + tot then src[i - off0] else FileByte(g, disk0, chain0, i)
  }

  /** Cells of data clusters are as before. */
  ghost predicate SameCells(g: Geometry, fat: seq<nat>, fat': seq<nat>) {
    |fat'| == |fat| && forall c: nat :: DataClus(g, c) && c < |fat| ==> fat'[c] == fat[c]
  }

  /**
   A write that came to a stop at the end of the chain: what the chain has room for is written, the
   rest of the file and every other cluster are as before.
   */
  ghost predicate Cut(g: Geometry, fat0: seq<nat>, disk0: Disk, chain0: seq<nat>, size0: nat, fat: seq<nat>, disk: Disk,
                      chain: seq<nat>, off: nat, src: seq<Byte>)
  {
    && Bpc(g) > 0 && chain0 <= chain && off <= |chain| * Bpc(g) <= off + |src|
    && (src != [] ==> |chain| * Bpc(g) < off + |src|)
    && Spliced(g, disk0, chain0, size0, disk, chain, off, src, |chain| * Bpc(g) - off)
    && Untouched(g, fat0, disk0, fat, disk, chain)
  }

  /** Clusters outside the chain have their cells and bytes as before. */
  ghost predicate Untouched(g: Geometry, fat0: seq<nat>, disk0: Disk, fat: seq<nat>, disk: Disk, chain: seq<nat>) {
    && |fat| == |fat0| && |disk| == |disk0|
    && forall c: nat :: DataClus(g, c) && c < |fat0| && c !in chain ==>
      fat[c] == fat0[c] && forall o: nat :: o < Bpc(g) ==> ClusByte(g, disk, c, o) == ClusByte(g, disk0, c, o)
  }

  /** No room for a first cluster. */
  lemma CutFirst(g: Geometry, fat0: seq<nat>, disk: Disk, fat: seq<nat>, src: seq<Byte>)
    requires SameCells(g, fat0, fat) && Bpc(g) > 0
    ensures Cut(g, fat0, disk, [], 0, fat, disk, [], 0, src)
  {
    hide Bpc, ClusByte;
  }

  lemma CutHere(g: Geometry, fat0: seq<nat>, disk0: Disk, chain0: seq<nat>, size0: nat, f: seq<nat>, fat: seq<nat>,
                disk: Disk, chain: seq<nat>, off: nat, src: seq<Byte>, tot: nat)
    requires OnlyChain(g, fat0, disk0, chain0, f, disk, chain) && SameCells(g, f, fat) && Bpc(g) > 0 && tot < |src|
    requires Spliced(g, disk0, chain0, size0, disk, chain, off, src, tot) && off + tot == |chain| * Bpc(g)
    ensures Cut(g, fat0, disk0, chain0, size0, fat, disk, chain, off, src)
  {
    hide Bpc, ClusByte, Spliced;
  }

  /** A position at most at the end of the chain is in the chain, or in the cluster right behind it. */
  lemma NextCluster(g: Geometry, at: nat, n: nat)
    requires Bpc(g) > 0 && at <= n * Bpc(g)
    ensures ClusNum(g, at) <= n && (ClusNum(g, at) >= n ==> at == n * Bpc(g))
  {
    DivMod(at, Bpc(g));
    if at < n * Bpc(g) {
      WithinChain(g, at, n);
    }
  }

  lemma WithinChain(g: Geometry, i: nat, n: nat)
    requires Bpc(g) > 0 && i < n * Bpc(g)
    ensures ClusNum(g, i) < n
  {
    DivMod(i, Bpc(g));
    if ClusNum(g, i) >= n {
      MulMonotone(n, ClusNum(g, i), Bpc(g));
    }
  }

  lemma SplicedExtended(g: Geometry, disk0: Disk, chain0: seq<nat>, size0: nat, fat: seq<nat>, disk: Disk,
                        chain: seq<nat>, fat': seq<nat>, disk': Disk, chain': seq<nat>,
                        off0: nat, src: seq<Byte>, tot: nat)
    requires Bpc(g) > 0 && tot <= |src| && Spliced(g, disk0, chain0, size0, disk, chain, off0, src, tot)
    requires Extended(g, fat, disk, chain, fat', disk', chain') && Distinct(chain')
    requires forall k :: 0 <= k < |chain| ==> DataClus(g, chain[k])
    requires size0 <= |chain| * Bpc(g) && (tot > 0 ==> off0 + tot <= |chain| * Bpc(g))
    ensures Spliced(g, disk0, chain0, size0, disk', chain', off0, src, tot)
  {
    hide FileByte, Extended;
    forall i: nat | i < size0 || off0 <= i < off0 + tot
      ensures FileByte(g, disk', chain', i) == FileByte(g, disk, chain, i)
    {
      WithinChain(g, i, |chain|);
      ExtendedBytes(g, fat, disk, chain, fat', disk', chain', i);
    }
  }

  lemma SplicedMore(g: Geometry, disk0: Disk, chain0: seq<nat>, size0: nat, disk: Disk, chain: seq<nat>, disk': Disk,
                    off0: nat, src: seq<Byte>, tot: nat, m: nat)
    requires Bpc(g) > 0 && tot + m <= |src| && Spliced(g, disk0, chain0, size0, disk, chain, off0, src, tot)
    requires ClusNum(g, off0 + tot) < |chain| && ClusOff(g, off0 + tot) + m <= Bpc(g) && Distinct(chain)
    requires forall k :: 0 <= k < |chain| ==> DataClus(g, chain[k])
    requires Written(g, disk, disk', chain[ClusNum(g, off0 + tot)], ClusOff(g, off0 + tot), src[tot..tot + m])
    ensures Spliced(g, disk0, chain0, size0, disk', chain, off0, src, tot + m)
  {
    hide FileByte, Written, ClusNum, ClusOff;
    FileWritten(g, disk, disk', chain, off0 + tot, src[tot..tot + m]);
  }

  /** Old content with src laid over it from off. */
  function Overlay(old_: seq<Byte>, off: nat, src: seq<Byte>): seq<Byte>
    requires off <= |old_|
  {
    old_[..off] + src + (if off + |src| <= |old_| then old_[off + |src|..] else [])
  }

  lemma SplicedContent(g: Geometry, disk0: Disk, chain0: seq<nat>, size0: nat, disk: Disk, chain: seq<nat>, off: nat,
                       src: seq<Byte>)
    requires Bpc(g) > 0 && off <= size0 && Spliced(g, disk0, chain0, size0, disk, chain, off, src, |src|)
    ensures var n := if off + |src| > size0 then off + |src| else size0;
      Content(g, disk, chain, n) == Overlay(Content(g, disk0, chain0, size0), off, src)
  {
    hide FileByte;
  }

  lemma OffsetSmall(g: Geometry, i: nat)
    requires Bpc(g) > 0
    ensures ClusOff(g, i) < Bpc(g)
  {
  }

  // ---------------------------------------------------------------- the driver

  /** A struct dirent, as far as its data is concerned; `chain` is its cluster chain. */
  class Entry {
    var firstClus: nat
    var curClus: nat
    var clusCnt: nat
    var fileSize: nat
    var readOnly: bool
    var directory: bool
    var dirty: bool
    ghost var chain: seq<nat>

    constructor ()
      ensures firstClus == 0 && fileSize == 0 && chain == [] && !readOnly && !directory
    {
      firstClus, curClus, clusCnt, fileSize, readOnly, directory, dirty, chain := 0, 0, 0, 0, false, false, false, [];
    }

    /** The cursor is the clusCnt-th cluster of the chain from firstClus. */
    ghost predicate Cursor()
      reads this
    {
      && (chain == [] <==> firstClus == 0)
      && (chain != [] ==> firstClus == chain[0] && clusCnt < |chain| && curClus == chain[clusCnt])
    }
  }

  datatype Alloc = Cluster(c: nat) | Beyond(b: nat) | NoClusters
  datatype Reloc = At(o: nat) | Missing | Full | Derailed
  datatype Wrote = Bytes(n: nat) | Refused | DiskFull | Lost

  /** fat is the first file allocation table on the disk. */
  ghost predicate Mirrors(l: C.Layout, cells: seq<C.Cells>, fat: seq<nat>) {
    && |fat| == l.fatSectors * C.CELLS && l.reserved + l.fatSectors <= |cells|
    && forall c :: 0 <= c < |fat| ==> fat[c] == C.CellAt(l, cells, c)
  }

  lemma MirrorStored(l: C.Layout, cells: seq<C.Cells>, fat: seq<nat>, c: nat, v: nat)
    requires Mirrors(l, cells, fat) && c < |fat|
    ensures C.SectorOf(l.reserved, c) < |cells|
    ensures Mirrors(l, C.Stored(cells, C.SectorOf(l.reserved, c), c % C.CELLS, v), fat[c := v])
  {
    var s := C.SectorOf(l.reserved, c);
    forall d | 0 <= d < |fat| && d != c ensures C.SectorOf(l.reserved, d) != s || d % C.CELLS != c % C.CELLS {
    }
  }

  /** A walk along a chain and past its end: where it starts and what table, chain and cache it starts from. */
  datatype Trip = Trip(fat: seq<nat>, chain: seq<nat>, mem: C.Memory, from: nat, to: nat)

  ghost function Way(l: C.Layout, w: Trip): seq<nat>
    requires l.clusters + 1 < |w.fat|
  {
    Plan(l, w.fat, w.chain, w.to)
  }

  /**
   Which clusters a transfer of len bytes at off visits: from the cursor on, or from the start when
   it lies behind.
   */
  function TripFrom(g: Geometry, chain: seq<nat>, cnt: nat, off: nat, len: nat): nat
    requires Bpc(g) > 0
  {
    if chain == [] || (len > 0 && ClusNum(g, off) < cnt) then 0 else cnt
  }

  function TripTo(g: Geometry, chain: seq<nat>, cnt: nat, off: nat, len: nat): nat
    requires Bpc(g) > 0
  {
    if len > 0 then ClusNum(g, off + len - 1) else if chain == [] then 0 else cnt
  }

  /** The state of a walk that has come to cluster number i of its way with a chain of n clusters. */
  ghost predicate OnWay(l: C.Layout, w: Trip, fat: seq<nat>, mem: C.Memory, chain: seq<nat>, i: nat) {
    && l.clusters + 1 < |w.fat| && TripOk(l, w)
    && var q := Way(l, w);
    && |w.chain| <= |chain| <= |q| && chain == q[..|chain|] && w.from <= i < |chain|
    && (|chain| > |w.chain| ==> i == |chain| - 1)
    && fat == GrownTo(w.fat, q, |w.chain|, |chain| - 1)
    && mem == WalkTo(l, Begun(l, w.mem, q, |w.chain|), q, |w.chain|, w.from, i)
    && !Stalls(l, w.mem, q, |w.chain|, w.from, i)
  }

  /** Every cluster of the way is a data cluster; those of the old chain are taken. */
  ghost predicate TripOk(l: C.Layout, w: Trip)
    requires l.clusters + 1 < |w.fat|
  {
    && (forall k :: 0 <= k < |w.chain| ==> 2 <= w.chain[k] < l.clusters + 2 && w.fat[w.chain[k]] != 0)
    && (forall k :: 0 <= k < |Way(l, w)| ==> Way(l, w)[k] < |w.fat|)
  }

  lemma TripStarts(g: Geometry, l: C.Layout, w: Trip)
    requires IsChain(g, w.fat, w.chain) && l.clusters == g.clusters && g.clusters + 1 < |w.fat|
    ensures TripOk(l, w) && w.chain <= Way(l, w)
    ensures w.from < |w.chain| ==> OnWay(l, w, w.fat, w.mem, w.chain, w.from)
  {
    hide Plan, Stalls;
    forall k | 0 <= k < |w.chain| ensures w.fat[w.chain[k]] != 0 {
      ChainCellsTaken(g, w.fat, w.chain, w.chain[k]);
    }
    PlanOk(l, w.fat, w.chain, w.to);
    NoStallYet(l, w.mem, Way(l, w), |w.chain|, w.from);
  }

  lemma NoStallYet(l: C.Layout, m: C.Memory, q: seq<nat>, n: nat, j: nat)
    ensures !Stalls(l, m, q, n, j, j)
  {
  }

  lemma StallsNext(l: C.Layout, m: C.Memory, q: seq<nat>, n: nat, j: nat, i: nat)
    requires j <= i < |q|
    ensures Stalls(l, m, q, n, j, i + 1) <==> Stalls(l, m, q, n, j, i) || (n <= i + 1 && Stale(l, m, q, n, j, i))
  {
    hide Stale;
  }

  lemma StallsFrom(l: C.Layout, m: C.Memory, q: seq<nat>, n: nat, j: nat, i: nat, to: nat)
    requires Stalls(l, m, q, n, j, i) && i <= to
    ensures Stalls(l, m, q, n, j, to)
  {
    hide Stale;
  }

  /** The whole way is done: no stall up to its end is no stall up to the target. */
  lemma StallsNoMore(l: C.Layout, m: C.Memory, q: seq<nat>, n: nat, j: nat, to: nat)
    requires !Stalls(l, m, q, n, j, |q|)
    ensures !Stalls(l, m, q, n, j, to)
  {
    hide Stale;
  }

  class Volume {
    const g: Geometry
    const table: C.Fat
    var disk: Disk
    ghost var fat: seq<nat>
    ghost var mem: C.Memory

    constructor (geometry: Geometry, table: C.Fat, sectors: Disk, ghost cells: seq<nat>)
      requires Mounted(geometry, cells, sectors) && table.Valid() && table.g.clusters == geometry.clusters
      requires Mirrors(table.g, table.disk, cells) && cells[0] != 0 && cells[1] != 0
      ensures Ok() && g == geometry && fat == cells && disk == sectors && this.table == table && mem == table.Mem()
    {
      g, this.table, fat, disk, mem := geometry, table, cells, sectors, table.Mem();
    }

    /** fat is the table on the disk and mem what its cache remembers. */
    ghost predicate Backed()
      reads `fat, `mem, table
    {
      table.Valid() && Mirrors(table.g, table.disk, fat) && mem == table.Mem()
    }

    ghost predicate Ok()
      reads this, table
    {
      Backed() && table.g.clusters == g.clusters && Mounted(g, fat, disk) && fat[0] != 0 && fat[1] != 0
    }

    lemma ClaimsKept()
      requires Ok()
      ensures Kept(mem)
    {
      hide C.Fat.Valid, C.Fat.Mem;
      table.ClaimsCached();
    }

    /** read_fat of a cell that exists. */
    method ReadCell(c: nat) returns (v: nat)
      requires Ok() && c <= g.clusters + 1
      modifies table, `mem
      ensures Ok() && mem == C.AfterRead(table.g, old(mem), c)
      ensures if C.CellOf(table.g, c) in old(mem).claimed then v == 0 && fat[c] == CLAIM else v == fat[c]
    {
      hide C.Fat.Valid, C.Fat.Cache, C.AfterRead, C.Names, Mounted;
      BpcPositive(g, fat, disk);
      assert fat[c] == C.CellAt(table.g, table.disk, c);
      v := table.ReadFat(c);
      mem := table.Mem();
    }

    /** write_fat of a cell that exists. */
    method WriteCell(c: nat, v: nat)
      requires Ok() && 2 <= c <= g.clusters + 1
      modifies table, `fat, `mem
      ensures Ok() && fat == old(fat)[c := v] && mem == C.AfterWrite(table.g, old(mem), c)
    {
      hide C.Fat.Valid, C.Fat.Mem, C.AfterWrite, C.Stored, Mirrors;
      MirrorBound(table.g, table.disk, fat);
      MirrorStored(table.g, table.disk, fat, c, v);
      var r := table.WriteFat(c, v);
      fat := fat[c := v];
      mem := table.Mem();
    }

    /** zero_clus */
    method ZeroClus(c: nat)
      requires Ok() && DataClus(g, c)
      modifies `disk
      ensures Ok() && Written(g, old(disk), disk, c, 0, seq(Bpc(g), _ => 0))
    {
      hide ClusByte, Backed;
      var zero: Sector := seq(BSIZE, _ => 0);
      ghost var before := disk;
      ghost var z: seq<Byte> := [];
      NothingWritten(g, disk, c);
      var i := 0;
      while i < g.spc
        invariant 0 <= i <= g.spc && Ok() && z == seq(i * BSIZE, _ => 0) && Written(g, before, disk, c, 0, z)
      {
        ghost var mid := disk;
        SectorStart(g, i);
        SectorWritten(g, fat, disk, c, i * BSIZE, zero);
        disk := disk[FirstSec(g, c) + i := zero];
        PatchedWhole(mid[FirstSec(g, c) + i], zero);
        WrittenMore(g, before, mid, disk, c, 0, z, zero);
        assert z + zero == seq((i + 1) * BSIZE, _ => 0);
        z := z + zero;
        i := i + 1;
      }
    }

    /**
     alloc_clus: the lowest zero cell is taken and its cluster zeroed.  The scan is not bounded by
     the number of data clusters, so on a full volume it can take a cell that has no cluster.
     */
    method AllocClus() returns (r: Alloc)
      requires Ok()
      modifies this, table
      ensures Ok()
      ensures r.Cluster? <==> exists c: nat :: DataClus(g, c) && c < |old(fat)| && old(fat)[c] == 0
      ensures r.Cluster? ==> IsLowestFree(old(fat), r.c) && DataClus(g, r.c) && fat == old(fat)[r.c := CLAIM]
      ensures r.Cluster? ==> Written(g, old(disk), disk, r.c, 0, seq(Bpc(g), _ => 0))
      ensures r.Cluster? ==> mem == C.AfterClaim(table.g, old(mem), r.c)
      ensures r.Beyond? ==> IsLowestFree(old(fat), r.b) && r.b > g.clusters + 1
      ensures r.NoClusters? ==> unchanged(this)
      ensures !r.Cluster? ==> disk == old(disk) && SameCells(g, old(fat), fat)
    {
      hide Written, Bpc, Backed, C.AfterClaim;
      var o := Claim();
      if o.None? {
        return NoClusters;
      }
      var c := o.value;
      if c > g.clusters + 1 {
        return Beyond(c);
      }
      ZeroClus(c);
      r := Cluster(c);
    }

    /** The scan of alloc_clus; none stands for its panic. */
    method Claim() returns (r: Option<nat>)
      requires Ok()
      modifies table, `fat, `mem
      ensures Ok() && |fat| == old(|fat|)
      ensures r.Some? ==> IsLowestFree(old(fat), r.value) && fat == old(fat)[r.value := CLAIM]
      ensures r.Some? ==> mem == C.AfterClaim(table.g, old(mem), r.value)
      ensures r.None? ==> unchanged(`fat, `mem) && forall d :: 0 <= d < |fat| ==> fat[d] != 0
    {
      hide C.Fat.Valid, C.Fat.Mem, C.AfterClaim, C.Stored, C.NextFree, Mirrors;
      MirrorBound(table.g, table.disk, fat);
      MirrorLowest(table.g, table.disk, fat);
      r := None;
      var o := table.AllocClus();
      if o.Claimed? {
        MirrorStored(table.g, old(table.disk), fat, o.c, CLAIM);
        fat := fat[o.c := CLAIM];
        r := Some(o.c);
      }
      mem := table.Mem();
    }

    /** rw_clus, writing: src goes to bytes off onwards of cluster c, sector by sector. */
    method WriteClus(c: nat, off: nat, src: seq<Byte>)
      requires Ok() && DataClus(g, c) && off + |src| <= Bpc(g)
      modifies `disk
      ensures Ok() && Written(g, old(disk), disk, c, off, src)
    {
      hide Written, Bpc, FirstSec, Patched, Backed;
      ghost var before := disk;
      var n := |src|;
      var sec := FirstSec(g, c) + off / BSIZE;
      var o := off % BSIZE;
      var tot := 0;
      WrittenNothing(g, disk, c, off);
      while tot < n
        invariant 0 <= tot <= n && Ok() && Written(g, before, disk, c, off, src[..tot])
        invariant tot < n ==> sec == FirstSec(g, c) + (off + tot) / BSIZE && o % BSIZE == (off + tot) % BSIZE
      {
        var m := BSIZE - o % BSIZE;
        if n - tot < m {
          m := n - tot;
        }
        ghost var mid := disk;
        SectorWritten(g, fat, disk, c, off + tot, src[tot..tot + m]);
        disk := disk[sec := Patched(disk[sec], o % BSIZE, src[tot..tot + m])];
        WrittenMore(g, before, mid, disk, c, off, src[..tot], src[tot..tot + m]);
        assert src[..tot] + src[tot..tot + m] == src[..tot + m];
        NextSector(off + tot, m);
        tot, o, sec := tot + m, o + m, sec + 1;
      }
      assert src[..tot] == src;
    }

    /** rw_clus, reading. */
    method ReadClus(c: nat, off: nat, n: nat) returns (dst: seq<Byte>)
      requires Ok() && DataClus(g, c) && off + n <= Bpc(g)
      ensures dst == ClusBytes(g, disk, c, off, n)
    {
      hide Bpc, ClusBytes, FirstSec, Mounted, Backed;
      ClusBytesJoin(g, disk, c, off, 0, 0);
      var sec := FirstSec(g, c) + off / BSIZE;
      var o := off % BSIZE;
      dst := [];
      while |dst| < n
        invariant |dst| <= n && dst == ClusBytes(g, disk, c, off, |dst|)
        invariant |dst| < n ==> sec == FirstSec(g, c) + (off + |dst|) / BSIZE && o % BSIZE == (off + |dst|) % BSIZE
      {
        var m := BSIZE - o % BSIZE;
        if n - |dst| < m {
          m := n - |dst|;
        }
        ReadSector(g, fat, disk, c, off + |dst|, m);
        NextSector(off + |dst|, m);
        ClusBytesJoin(g, disk, c, off, |dst|, m);
        dst := dst + disk[sec][o % BSIZE..o % BSIZE + m];
        o, sec := o + m, sec + 1;
      }
    }

    /** A file in good order: its chain is in the table, its cursor on the chain, its size covered. */
    ghost predicate Sound(e: Entry)
      reads this, table, e
    {
      && Ok() && e.Cursor() && IsChain(g, fat, e.chain)
      && e.fileSize <= |e.chain| * Bpc(g) && e.fileSize < 0x1_0000_0000
    }

    /** The file's cursor is on its way. */
    ghost predicate Going(e: Entry, w: Trip)
      reads this, table, e
    {
      Sound(e) && e.clusCnt < |e.chain| && OnWay(table.g, w, fat, mem, e.chain, e.clusCnt)
    }

    /** alloc_clus and write_fat at the end of a chain. */
    method AppendClus(e: Entry) returns (r: Alloc)
      requires Sound(e) && e.chain != [] && e.clusCnt == |e.chain| - 1
      modifies this, table, e`chain
      ensures r.Cluster? ==> Ok() && IsChain(g, fat, e.chain) && e.chain == old(e.chain) + [r.c]
      ensures r.Cluster? ==> IsLowestFree(old(fat), r.c) && fat == old(fat)[r.c := CLAIM][e.curClus := r.c]
      ensures r.Cluster? ==>
        mem == C.AfterWrite(table.g, C.AfterClaim(table.g, old(mem), r.c), e.curClus)
      ensures r.Cluster? ==> Extended(g, old(fat), old(disk), old(e.chain), fat, disk, e.chain)
      ensures r.Cluster? ==> Supply(g, fat, e.chain) == old(Supply(g, fat, e.chain))
      ensures !r.Cluster? ==> e.chain == old(e.chain) && FreeCells(g, old(fat)) == {}
      ensures !r.Cluster? ==> disk == old(disk) && SameCells(g, old(fat), fat)
    {
      hide Written, Bpc, Extended, Supply, Backed, C.AfterClaim, C.AfterWrite;
      r := AllocClus();
      if r.Cluster? {
        ChainExtended(g, old(fat), e.chain, r.c);
        WriteCell(e.curClus, r.c);
        e.chain := e.chain + [r.c];
        ExtendedByOne(g, old(fat), old(disk), old(e.chain), disk, r.c);
        SupplyExtended(g, old(fat), old(disk), old(e.chain), fat, disk, e.chain);
      } else {
        assert forall c: nat :: DataClus(g, c) && c < |old(fat)| ==> old(fat)[c] != 0;
      }
    }

    /** One turn of the first loop of reloc_clus. */
    method Advance(e: Entry, alloc: bool, ghost w: Trip) returns (r: Reloc)
      requires Going(e, w) && e.clusCnt < w.to
      modifies this, table, e`curClus, e`clusCnt, e`chain
      ensures r.At? ==> Going(e, w) && e.clusCnt == old(e.clusCnt) + 1
      ensures r.At? ==> Extended(g, old(fat), old(disk), old(e.chain), fat, disk, e.chain)
      ensures r.At? ==> Supply(g, fat, e.chain) == old(Supply(g, fat, e.chain))
      ensures r.At? ==> |e.chain| == if e.clusCnt == old(|e.chain|) then old(|e.chain|) + 1 else old(|e.chain|)
      ensures r.At? && !alloc ==> e.clusCnt < old(|e.chain|)
      ensures !alloc ==> unchanged(`fat, `disk) && unchanged(e`chain)
      ensures !r.At? ==> old(e.clusCnt) + 1 == old(|e.chain|)
      ensures !r.At? ==> e.chain == old(e.chain) && disk == old(disk) && SameCells(g, old(fat), fat)
      ensures r.At? && |e.chain| == old(|e.chain|) ==> unchanged(`fat, `disk) && unchanged(e`chain)
      ensures r.Missing? ==> !alloc && Sound(e) && e.clusCnt == 0
      ensures r.Full? ==> alloc && FreeCells(g, old(fat)) == {} && |Way(table.g, w)| == old(|e.chain|)
      ensures r.Full? ==> !Stalls(table.g, w.mem, Way(table.g, w), |w.chain|, w.from, w.to)
      ensures r.Derailed? ==> Ok() && unchanged(`fat, `disk) && e.curClus == 0 && e.clusCnt == old(e.clusCnt) + 1
      ensures r.Derailed? ==> Stalls(table.g, w.mem, Way(table.g, w), |w.chain|, w.from, w.to)
    {
      hide Extended, Bpc, Mounted, Supply, OnWay, IsLowestFree, FreeCells, Stalls, Plan, Backed, C.AfterRead,
        C.AfterWrite, C.AfterClaim;
      BpcPositive(g, fat, disk);
      ExtendedSelf(g, fat, disk, e.chain);
      ChainAt(g, fat, e.chain, e.clusCnt);
      NextOnChain(g, fat, e.chain, e.clusCnt);
      ghost var m := mem;
      var clus := ReadCell(e.curClus);
      ReadOnWay(g, table.g, w, fat, m, e.chain, e.clusCnt);
      if EOC <= clus < 0x8000_0000 {
        if !alloc {
          e.curClus, e.clusCnt := e.firstClus, 0;
          return Missing;
        }
        r := Hang(e, w, m);
      } else {
        e.curClus, e.clusCnt := clus, e.clusCnt + 1;
        r := if clus == 0 then Derailed else At(0);
      }
    }

    /** A new cluster at the end of the chain, and the cursor on it. */
    method Hang(e: Entry, ghost w: Trip, ghost m: C.Memory) returns (r: Reloc)
      requires Sound(e) && e.clusCnt + 1 == |e.chain| && e.clusCnt < w.to && mem == C.AfterRead(table.g, m, e.curClus)
      requires OnWay(table.g, w, fat, m, e.chain, e.clusCnt)
      requires !Stalls(table.g, w.mem, Way(table.g, w), |w.chain|, w.from, |e.chain|)
      modifies this, table, e`curClus, e`clusCnt, e`chain
      ensures r.At? ==> Going(e, w) && e.clusCnt == old(e.clusCnt) + 1 && |e.chain| == old(|e.chain|) + 1
      ensures r.At? ==> Extended(g, old(fat), old(disk), old(e.chain), fat, disk, e.chain)
      ensures r.At? ==> Supply(g, fat, e.chain) == old(Supply(g, fat, e.chain))
      ensures !r.At? ==> r.Full? && FreeCells(g, old(fat)) == {} && |Way(table.g, w)| == old(|e.chain|)
      ensures r.Full? ==> e.chain == old(e.chain) && disk == old(disk) && SameCells(g, old(fat), fat)
      ensures r.Full? ==> !Stalls(table.g, w.mem, Way(table.g, w), |w.chain|, w.from, w.to)
    {
      hide Extended, Bpc, Mounted, Supply, OnWay, IsLowestFree, FreeCells, Stalls, Plan, Backed, C.AfterRead,
        C.AfterWrite, C.AfterClaim;
      var a := AppendClus(e);
      if !a.Cluster? {
        WayEnds(g, table.g, w, old(fat), m, e.chain, e.clusCnt);
        return Full;
      }
      WayGoesOn(g, table.g, w, old(fat), m, old(e.chain), e.clusCnt, a.c);
      SizeStill(g, e.fileSize, old(|e.chain|), |e.chain|);
      e.curClus, e.clusCnt := a.c, e.clusCnt + 1;
      r := At(0);
    }

    /** The first loop of reloc_clus: forward to cluster number num, appending clusters if asked to. */
    method Forward(e: Entry, num: nat, alloc: bool, ghost w: Trip) returns (r: Reloc)
      requires Going(e, w) && num <= w.to
      modifies this, table, e`curClus, e`clusCnt, e`chain
      ensures r.At? ==> Going(e, w) && e.clusCnt == if num > old(e.clusCnt) then num else old(e.clusCnt)
      ensures r.At? ==> Extended(g, old(fat), old(disk), old(e.chain), fat, disk, e.chain)
      ensures r.At? ==> Supply(g, fat, e.chain) == old(Supply(g, fat, e.chain))
      ensures !alloc ==> unchanged(`fat, `disk) && unchanged(e`chain)
      ensures num < old(|e.chain|) ==> r.At? && |e.chain| == old(|e.chain|)
      ensures r.At? && num >= old(|e.chain|) ==> alloc && |e.chain| == num + 1
      ensures !r.At? && num <= old(|e.chain|) ==>
        e.chain == old(e.chain) && disk == old(disk) && SameCells(g, old(fat), fat)
      ensures r.Missing? ==> !alloc && Sound(e) && e.clusCnt == 0
      ensures r.Full? ==> alloc && old(Supply(g, fat, e.chain)) <= num && |Way(table.g, w)| <= w.to
      ensures r.Full? ==> !Stalls(table.g, w.mem, Way(table.g, w), |w.chain|, w.from, w.to)
      ensures r.Derailed? ==> Ok() && e.curClus == 0 && e.clusCnt <= num
      ensures r.Derailed? ==> Stalls(table.g, w.mem, Way(table.g, w), |w.chain|, w.from, w.to)
    {
      hide Extended, Bpc, Mounted, Supply, OnWay, Stalls, Plan, IsChain, FreeCells, Backed;
      ExtendedSelf(g, fat, disk, e.chain);
      while num > e.clusCnt
        invariant Going(e, w) && Extended(g, old(fat), old(disk), old(e.chain), fat, disk, e.chain)
        invariant |e.chain| >= old(|e.chain|)
        invariant |e.chain| > old(|e.chain|) ==> alloc && |e.chain| == e.clusCnt + 1 <= num + 1
        invariant !alloc ==> unchanged(`fat, `disk) && unchanged(e`chain)
        invariant old(e.clusCnt) <= e.clusCnt && (e.clusCnt <= num || e.clusCnt == old(e.clusCnt))
        invariant e.clusCnt < |e.chain|
        invariant |e.chain| == old(|e.chain|) ==> unchanged(`fat, `disk) && unchanged(e`chain)
        invariant Supply(g, fat, e.chain) == old(Supply(g, fat, e.chain))
        decreases num - e.clusCnt
      {
        ghost var f, d, q := fat, disk, e.chain;
        r := Advance(e, alloc, w);
        if !r.At? {
          if r.Full? {
            SupplyGone(g, f, q);
          }
          return;
        }
        ChainDistinct(g, fat, e.chain);
        ExtendedTwice(g, old(fat), old(disk), old(e.chain), f, d, q, fat, disk, e.chain);
      }
      r := At(0);
    }

    /** The second loop of reloc_clus: from the start of the chain to cluster number num. */
    method Rewind(e: Entry, num: nat, ghost w: Trip)
      requires Sound(e) && num < |e.chain| && num <= w.to
      requires w.fat == fat && w.chain == e.chain && w.mem == mem && w.from == 0
      modifies table, `mem, e`curClus, e`clusCnt
      ensures Going(e, w) && e.clusCnt == num
    {
      hide Bpc, Mounted, OnWay, Backed, C.AfterRead, Stalls;
      BpcPositive(g, fat, disk);
      e.curClus, e.clusCnt := e.firstClus, 0;
      TripStarts(g, table.g, w);
      while e.clusCnt < num
        invariant Going(e, w) && e.clusCnt <= num < |e.chain|
        decreases num - e.clusCnt
      {
        ghost var m := mem;
        ChainAt(g, fat, e.chain, e.clusCnt);
        NextOnChain(g, fat, e.chain, e.clusCnt);
        var clus := ReadCell(e.curClus);
        ReadOnWay(g, table.g, w, fat, m, e.chain, e.clusCnt);
        e.curClus, e.clusCnt := clus, e.clusCnt + 1;
      }
    }

    /** The trip w goes on from the cursor, or starts over when cluster number num lies behind the cursor. */
    ghost predicate Ready(e: Entry, w: Trip, num: nat)
      reads this, table, e
    {
      && Sound(e) && e.chain != []
      && if num < e.clusCnt then w.fat == fat && w.chain == e.chain && w.mem == mem && w.from == 0
         else OnWay(table.g, w, fat, mem, e.chain, e.clusCnt)
    }

    /**
     reloc_clus: the cursor goes to the cluster that holds byte off, wherever it was before.
     Without alloc, a position past the chain fails and parks the cursor at the start.  With or
     without it, a walk past a stale end of chain leads to cluster 0.
     */
    method RelocClus(e: Entry, off: nat, alloc: bool, ghost w: Trip) returns (r: Reloc)
      requires Bpc(g) > 0 && Ready(e, w, ClusNum(g, off)) && ClusNum(g, off) <= w.to
      modifies this, table, e`curClus, e`clusCnt, e`chain
      ensures r.At? ==> Going(e, w) && e.clusCnt == ClusNum(g, off) && r.o == ClusOff(g, off)
      ensures r.At? ==> Extended(g, old(fat), old(disk), old(e.chain), fat, disk, e.chain)
      ensures r.At? ==> Supply(g, fat, e.chain) == old(Supply(g, fat, e.chain))
      ensures !alloc ==> unchanged(`fat, `disk) && unchanged(e`chain)
      ensures ClusNum(g, off) < old(|e.chain|) ==> r.At? && |e.chain| == old(|e.chain|)
      ensures r.At? && ClusNum(g, off) >= old(|e.chain|) ==> alloc && |e.chain| == ClusNum(g, off) + 1
      ensures !r.At? && ClusNum(g, off) <= old(|e.chain|) ==>
        e.chain == old(e.chain) && disk == old(disk) && SameCells(g, old(fat), fat)
      ensures r.Missing? ==> !alloc && Sound(e) && e.clusCnt == 0
      ensures r.Full? ==> alloc && old(Supply(g, fat, e.chain)) <= ClusNum(g, off) && |Way(table.g, w)| <= w.to
      ensures r.Full? ==> !Stalls(table.g, w.mem, Way(table.g, w), |w.chain|, w.from, w.to)
      ensures r.Derailed? ==> Ok() && e.curClus == 0 && e.clusCnt <= ClusNum(g, off)
      ensures r.Derailed? ==> Stalls(table.g, w.mem, Way(table.g, w), |w.chain|, w.from, w.to)
    {
      hide Extended, Bpc, ClusNum, ClusOff, Mounted, Supply, OnWay, Stalls, Plan, IsChain, Backed;
      var num := ClusNum(g, off);
      if num < e.clusCnt {
        ExtendedSelf(g, fat, disk, e.chain);
        Rewind(e, num, w);
        return At(ClusOff(g, off));
      }
      r := Forward(e, num, alloc, w);
      if r.At? {
        r := At(ClusOff(g, off));
      }
    }

    /** eread: the requested slice of the file, clipped to its size, whatever cells are stale. */
    method ERead(e: Entry, off: nat, len: nat) returns (dst: seq<Byte>)
      requires Sound(e) && off < 0x1_0000_0000 && len < 0x1_0000_0000
      modifies this, table, e`curClus, e`clusCnt, e`chain
      ensures Sound(e) && unchanged(`fat, `disk) && unchanged(e`chain) && Bpc(g) > 0
      ensures var c := Content(g, disk, e.chain, e.fileSize);
        if off > e.fileSize || off + len >= 0x1_0000_0000 || e.directory then dst == []
        else if off + len > e.fileSize then dst == c[off..] else dst == c[off..off + len]
      ensures dst == [] ==> mem == old(mem) && e.clusCnt == old(e.clusCnt)
      ensures dst != [] ==> e.clusCnt == TripTo(g, e.chain, old(e.clusCnt), off, |dst|) < |e.chain|
      ensures dst != [] ==> mem == WalkTo(table.g, old(mem), e.chain, |e.chain|,
                                                  TripFrom(g, e.chain, old(e.clusCnt), off, |dst|), e.clusCnt)
    {
      hide Bpc, Mounted, IsChain, FileByte, ClusNum, ClusOff, Extended, OnWay, Plan, Stalls, Backed;
      BpcPositive(g, fat, disk);
      dst := [];
      if off > e.fileSize || off + len >= 0x1_0000_0000 || e.directory {
        return;
      }
      var n := len;
      if off + n > e.fileSize {
        n := e.fileSize - off;
      }
      if n == 0 {
        return;
      }
      WithinChain(g, off, |e.chain|);
      WithinChain(g, off + n - 1, |e.chain|);
      ghost var w := TripOf(e, off, n);
      TripStarts(g, table.g, w);
      dst := ReadChunks(e, off, n, w);
      WayWithin(table.g, w, fat, mem, e.chain);
    }

    /** One turn of the loop of eread: the bytes from at on that lie in its cluster, n at most. */
    method ReadChunk(e: Entry, at: nat, n: nat, ghost w: Trip) returns (part: seq<Byte>)
      requires Bpc(g) > 0 && Ready(e, w, ClusNum(g, at)) && 0 < n && at + n <= e.fileSize && ClusNum(g, at) <= w.to
      modifies this, table, e`curClus, e`clusCnt, e`chain
      ensures Going(e, w) && unchanged(`fat, `disk) && unchanged(e`chain) && 0 < |part| <= n
      ensures e.clusCnt == ClusNum(g, at + |part| - 1) && part == Content(g, disk, e.chain, e.fileSize)[at..at + |part|]
    {
      hide Bpc, Mounted, IsChain, FileByte, ClusNum, ClusOff, Extended, OnWay, Plan, Stalls, Backed, Supply, ClusBytes,
        SameCells, Way;
      WithinChain(g, at, |e.chain|);
      var r := RelocClus(e, at, false, w);
      OffsetSmall(g, at);
      ChainAt(g, fat, e.chain, e.clusCnt);
      var m := Bpc(g) - ClusOff(g, at);
      if n < m {
        m := n;
      }
      part := ReadClus(e.curClus, ClusOff(g, at), m);
      ChunkRead(g, fat, disk, e.chain, at, m, e.fileSize);
      assert |part| == m;
      SameClusterEnd(g, at, m);
    }

    /** The loop of eread. */
    method ReadChunks(e: Entry, off: nat, n: nat, ghost w: Trip) returns (dst: seq<Byte>)
      requires Bpc(g) > 0 && Ready(e, w, ClusNum(g, off)) && 0 < n && off + n <= e.fileSize
      requires w.to == ClusNum(g, off + n - 1)
      modifies this, table, e`curClus, e`clusCnt, e`chain
      ensures Going(e, w) && unchanged(`fat, `disk) && unchanged(e`chain) && e.clusCnt == w.to
      ensures dst == Content(g, disk, e.chain, e.fileSize)[off..off + n]
    {
      hide Bpc, Mounted, IsChain, FileByte, ClusNum, OnWay, Backed, Way;
      dst := [];
      ghost var c := Content(g, disk, e.chain, e.fileSize);
      while |dst| < n
        invariant Sound(e) && unchanged(`fat, `disk) && unchanged(e`chain) && |dst| <= n && dst == c[off..off + |dst|]
        invariant |dst| == 0 ==> Ready(e, w, ClusNum(g, off))
        invariant |dst| > 0 ==> Going(e, w) && e.clusCnt == ClusNum(g, off + |dst| - 1)
        decreases n - |dst|
      {
        var at := off + |dst|;
        ClusNumMonotone(g, at, off + n - 1);
        ClusNumMonotone(g, if |dst| > 0 then at - 1 else at, at);
        var part := ReadChunk(e, at, n - |dst|, w);
        dst := dst + part;
      }
    }

    /**
     ewrite: src is laid over the file from off, which may lie anywhere up to its end; the file
     grows as needed, and nothing outside its own chain changes.  Lost is a write that has to go past
     a stale end of the chain: its cursor is then at cluster 0.
     */
    method EWrite(e: Entry, off: nat, src: seq<Byte>) returns (r: Wrote)
      requires Sound(e) && off < 0x1_0000_0000 && |src| < 0x1_0000_0000
      modifies this, table, e`firstClus, e`curClus, e`clusCnt, e`fileSize, e`dirty, e`chain
      ensures Bpc(g) > 0
      ensures r.Refused? <==> off > old(e.fileSize) || off + |src| > 0xFFFF_FFFF || old(e.readOnly)
      ensures r.Refused? ==> unchanged(this) && unchanged(e) && unchanged(table)
      ensures var w := old(TripOf(e, off, |src|)); var q := Way(table.g, w);
        && (r.Lost? <==> !r.Refused? && Stalls(table.g, w.mem, q, |w.chain|, w.from, w.to))
        && (r.DiskFull? <==> !r.Refused? && !r.Lost? && |q| <= w.to)
        && (r.Bytes? ==> OnWay(table.g, w, fat, mem, e.chain, w.to) && e.chain == q && e.clusCnt == w.to)
      ensures r.Lost? ==> Ok() && e.curClus == 0
      ensures r.DiskFull? ==> ClustersNeeded(g, off, |src|) > old(Supply(g, fat, e.chain))
      ensures r.Bytes? ==> ClustersNeeded(g, off, |src|) <= old(Supply(g, fat, e.chain))
      ensures r.DiskFull? || r.Lost? ==>
        && e.fileSize == old(e.fileSize)
        && Cut(g, old(fat), old(disk), old(e.chain), e.fileSize, fat, disk, e.chain, off, src)
      ensures r.Bytes? ==> r.n == |src| && Sound(e)
      ensures r.Bytes? ==> OnlyChain(g, old(fat), old(disk), old(e.chain), fat, disk, e.chain)
      ensures r.Bytes? ==>
        Content(g, disk, e.chain, e.fileSize) == Overlay(old(Content(g, disk, e.chain, e.fileSize)), off, src)
    {
      hide Bpc, Mounted, IsChain, OnlyChain, Spliced, Content, Extended, Supply, ClusNum, OnWay, Plan, Stalls, Backed,
        Cut;
      BpcPositive(g, fat, disk);
      ghost var w := TripOf(e, off, |src|);
      if off > e.fileSize || off + |src| > 0xFFFF_FFFF || e.readOnly {
        return Refused;
      }
      ghost var size0 := e.fileSize;
      var ok := FirstCluster(e, w);
      if !ok {
        CutFirst(g, old(fat), disk, fat, src);
        return DiskFull;
      }
      WriteReady(e, w, off, |src|, old(e.chain), old(e.clusCnt));
      var s := WriteChunks(e, off, src, old(fat), old(disk), old(e.chain), w);
      if s.Full? {
        return DiskFull;
      }
      if s.Derailed? {
        return Lost;
      }
      WayDone(table.g, w, fat, mem, e.chain);
      SplicedContent(g, old(disk), old(e.chain), size0, disk, e.chain, off, src);
      if |src| > 0 {
        if off + |src| > e.fileSize {
          e.fileSize := off + |src|;
        }
        e.dirty := true;
      }
      r := Bytes(|src|);
    }

    /** The walk a transfer of len bytes at off makes. */
    ghost function TripOf(e: Entry, off: nat, len: nat): (w: Trip)
      requires Ok() && Bpc(g) > 0
      reads this, table, e
      ensures table.g.clusters + 1 < |w.fat|
    {
      Trip(fat, e.chain, mem, TripFrom(g, e.chain, e.clusCnt, off, len), TripTo(g, e.chain, e.clusCnt, off, len))
    }

    /** A file without clusters gets its first one. */
    method FirstCluster(e: Entry, ghost w: Trip) returns (ok: bool)
      requires Sound(e) && w.fat == fat && w.chain == e.chain && w.mem == mem && (e.chain == [] ==> w.from == 0)
      modifies this, table, e`firstClus, e`curClus, e`clusCnt, e`fileSize, e`dirty, e`chain
      ensures Bpc(g) > 0
      ensures ok ==> Sound(e) && e.chain != [] && e.fileSize == old(e.fileSize)
      ensures ok ==> OnlyChain(g, old(fat), old(disk), old(e.chain), fat, disk, e.chain)
      ensures ok ==> Spliced(g, old(disk), old(e.chain), e.fileSize, disk, e.chain, 0, [], 0)
      ensures ok ==> Supply(g, fat, e.chain) == old(Supply(g, fat, e.chain)) && Supply(g, fat, e.chain) > 0
      ensures ok && old(e.chain) == [] ==> e.clusCnt == 0 && OnWay(table.g, w, fat, mem, e.chain, 0)
      ensures ok && old(e.chain) != [] ==> unchanged(this) && unchanged(table) && unchanged(e)
      ensures !ok ==> old(Supply(g, fat, e.chain)) == 0 && old(e.chain) == []
      ensures !ok ==> e.chain == [] && e.fileSize == old(e.fileSize) && disk == old(disk) && SameCells(g, old(fat), fat)
      ensures !ok ==> table.g.clusters + 1 < |w.fat| && |Way(table.g, w)| == 0
      ensures !ok ==> !Stalls(table.g, w.mem, Way(table.g, w), |w.chain|, w.from, w.to)
    {
      hide Bpc, Mounted, OnlyChain, Spliced, Supply, OnWay, Plan, Stalls, Backed, C.AfterClaim;
      BpcPositive(g, fat, disk);
      ok := true;
      if e.firstClus == 0 {
        var a := AllocClus();
        if !a.Cluster? {
          assert forall c: nat :: DataClus(g, c) && c < |old(fat)| ==> old(fat)[c] != 0;
          assert FreeCells(g, old(fat)) == {};
          SupplyGone(g, old(fat), []);
          NoFirst(g, table.g, w);
          return false;
        }
        FirstOnWay(g, table.g, w, a.c);
        e.firstClus, e.curClus, e.clusCnt, e.dirty := a.c, a.c, 0, true;
        e.chain := [a.c];
        OnlyFirst(g, old(fat), old(disk), disk, a.c);
        SupplyKept(g, old(fat), [], fat, e.chain);
      } else {
        OnlySelf(g, fat, disk, e.chain, e.fileSize);
      }
      SupplyPositive(g, fat, e.chain);
    }

    lemma WriteReady(e: Entry, w: Trip, off: nat, len: nat, chain: seq<nat>, cnt: nat)
      requires Sound(e) && e.chain != [] && Bpc(g) > 0 && w.chain == chain
      requires w.from == TripFrom(g, chain, cnt, off, len) && w.to == TripTo(g, chain, cnt, off, len)
      requires chain == [] ==> e.clusCnt == 0 && OnWay(table.g, w, fat, mem, e.chain, 0)
      requires chain != [] ==> w.fat == fat && w.mem == mem && e.chain == chain && e.clusCnt == cnt
      ensures len > 0 ==> Ready(e, w, ClusNum(g, off))
      ensures len == 0 ==> e.clusCnt == w.to && OnWay(table.g, w, fat, mem, e.chain, w.to)
    {
      hide Bpc, OnWay, ClusNum, Backed;
      if chain != [] {
        TripStarts(g, table.g, w);
      }
    }

    /** The loop of ewrite. */
    method WriteChunks(e: Entry, off: nat, src: seq<Byte>, ghost fat0: seq<nat>, ghost disk0: Disk,
                       ghost chain0: seq<nat>, ghost w: Trip) returns (s: Reloc)
      requires Sound(e) && e.chain != [] && Bpc(g) > 0 && off <= e.fileSize
      requires |src| > 0 ==> Ready(e, w, ClusNum(g, off)) && w.to == ClusNum(g, off + |src| - 1)
      requires OnlyChain(g, fat0, disk0, chain0, fat, disk, e.chain)
      requires Spliced(g, disk0, chain0, e.fileSize, disk, e.chain, 0, [], 0)
      modifies this, table, e`curClus, e`clusCnt, e`chain
      ensures !s.Missing? && (|src| == 0 ==> s.At? && unchanged(this) && unchanged(table) && unchanged(e))
      ensures s.At? ==> Sound(e) && OnlyChain(g, fat0, disk0, chain0, fat, disk, e.chain)
      ensures s.At? ==> Spliced(g, disk0, chain0, e.fileSize, disk, e.chain, off, src, |src|)
      ensures s.At? && |src| > 0 ==> off + |src| <= |e.chain| * Bpc(g) && Going(e, w) && e.clusCnt == w.to
      ensures s.At? && |src| > 0 ==> w.to < old(Supply(g, fat, e.chain))
      ensures !s.At? ==> Cut(g, fat0, disk0, chain0, e.fileSize, fat, disk, e.chain, off, src)
      ensures s.Full? ==> old(Supply(g, fat, e.chain)) <= w.to && |Way(table.g, w)| <= w.to
      ensures s.Full? ==> !Stalls(table.g, w.mem, Way(table.g, w), |w.chain|, w.from, w.to)
      ensures s.Derailed? ==> Ok() && e.curClus == 0 && Stalls(table.g, w.mem, Way(table.g, w), |w.chain|, w.from, w.to)
    {
      hide Bpc, Mounted, OnlyChain, Spliced, Extended, Written, ClusNum, ClusOff, Supply, OnWay, Plan, Stalls, Backed,
        Cut, SameCells, FileByte, Way;
      var tot := 0;
      SplicedStart(g, disk0, chain0, e.fileSize, disk, e.chain, off, src);
      while tot < |src|
        invariant 0 <= tot <= |src| && Sound(e) && e.chain != []
        invariant OnlyChain(g, fat0, disk0, chain0, fat, disk, e.chain)
        invariant Spliced(g, disk0, chain0, e.fileSize, disk, e.chain, off, src, tot)
        invariant tot > 0 ==> off + tot <= |e.chain| * Bpc(g)
        invariant Supply(g, fat, e.chain) == old(Supply(g, fat, e.chain))
        invariant tot == 0 ==> unchanged(this) && unchanged(table) && unchanged(e)
        invariant tot > 0 ==> Going(e, w) && e.clusCnt == ClusNum(g, off + tot - 1)
      {
        ghost var f, d, q := fat, disk, e.chain;
        var at := off + tot;
        ClusNumMonotone(g, at, off + |src| - 1);
        ClusNumMonotone(g, if tot > 0 then at - 1 else at, at);
        NextCluster(g, at, |e.chain|);
        s := RelocClus(e, at, true, w);
        if !s.At? {
          CutHere(g, fat0, disk0, chain0, e.fileSize, f, fat, disk, e.chain, off, src, tot);
          return;
        }
        ChunkStep(e, off, src, tot, fat0, disk0, chain0, f, d, q);
        var m := Bpc(g) - ClusOff(g, at);
        if |src| - tot < m {
          m := |src| - tot;
        }
        ghost var d1 := disk;
        WriteClus(e.curClus, ClusOff(g, at), src[tot..tot + m]);
        OnlyThenWritten(g, fat0, disk0, chain0, fat, d1, e.chain, disk, e.curClus, ClusOff(g, at), src[tot..tot + m]);
        SplicedMore(g, disk0, chain0, e.fileSize, d1, e.chain, disk, off, src, tot, m);
        ChunkEnd(g, at, m, |e.chain|);
        SameClusterEnd(g, at, m);
        tot := tot + m;
      }
      if |src| > 0 {
        WithinChain(g, off + |src| - 1, |e.chain|);
        SupplyCovers(g, fat, e.chain);
      }
      s := At(0);
    }

    lemma ChunkStep(e: Entry, off: nat, src: seq<Byte>, tot: nat, fat0: seq<nat>, disk0: Disk, chain0: seq<nat>,
                    f: seq<nat>, d: Disk, q: seq<nat>)
      requires Sound(e) && Bpc(g) > 0 && tot < |src| && OnlyChain(g, fat0, disk0, chain0, f, d, q)
      requires Spliced(g, disk0, chain0, e.fileSize, d, q, off, src, tot) && IsChain(g, f, q)
      requires Extended(g, f, d, q, fat, disk, e.chain) && e.fileSize <= |q| * Bpc(g)
      requires tot > 0 ==> off + tot <= |q| * Bpc(g)
      ensures OnlyChain(g, fat0, disk0, chain0, fat, disk, e.chain)
      ensures Spliced(g, disk0, chain0, e.fileSize, disk, e.chain, off, src, tot) && Distinct(e.chain)
      ensures ClusOff(g, off + tot) < Bpc(g)
    {
      hide Bpc, Mounted, OnlyChain, Spliced, Extended, ClusNum, ClusOff, Backed;
      ChainDistinct(g, fat, e.chain);
      OnlyThenExtended(g, fat0, disk0, chain0, f, d, q, fat, disk, e.chain);
      SplicedExtended(g, disk0, chain0, e.fileSize, f, d, q, fat, disk, e.chain, off, src, tot);
      OffsetSmall(g, off + tot);
    }

    /** etrunc: exactly the cells of the file's chain become free, whatever cells are stale. */
    method ETrunc(e: Entry)
      requires Sound(e)
      modifies `fat, `mem, table, e`firstClus, e`fileSize, e`dirty, e`chain
      ensures Sound(e) && e.chain == [] && e.firstClus == 0 && e.fileSize == 0 && e.dirty
      ensures Freed(old(fat), fat, old(e.chain)) && mem == TruncMem(table.g, old(mem), old(e.chain))
    {
      hide Bpc, Mounted, Freed, IsChain, Backed, C.AfterRead, C.AfterWrite;
      BpcPositive(g, fat, disk);
      ghost var q, k := e.chain, 0;
      FreedNone(fat);
      var clus := e.firstClus;
      while clus >= 2 && clus < EOC
        invariant Ok() && 0 <= k <= |q| && Freed(old(fat), fat, q[..k]) && q == old(e.chain)
        invariant mem == TruncMem(table.g, old(mem), q[..k])
        invariant k < |q| ==> clus == q[k]
        invariant k == |q| ==> clus == 0 || clus >= EOC
        decreases |q| - k
      {
        FreedStep(g, old(fat), fat, disk, q, k);
        var next := ReadCell(clus);
        WriteCell(clus, 0);
        assert q[..k + 1][..k] == q[..k];
        clus := next;
        k := k + 1;
      }
      ChainRange(g, old(fat), disk, q, k);
      assert q[..k] == q;
      e.fileSize := 0;
      e.firstClus := 0;
      e.dirty := true;
      e.chain := [];
      EmptyChain(g, fat);
    }
  }

  /** What the cache remembers after etrunc has read and cleared the cells of q. */
  ghost function TruncMem(l: C.Layout, m: C.Memory, q: seq<nat>): C.Memory {
    if q == [] then m
    else var c := q[|q| - 1]; C.AfterWrite(l, C.AfterRead(l, TruncMem(l, m, q[..|q| - 1]), c), c)
  }

  // ---------------------------------------------------------------- steps of a walk

  lemma NextOnChain(g: Geometry, fat: seq<nat>, q: seq<nat>, i: nat)
    requires IsChain(g, fat, q) && i < |q| && g.clusters + 1 < EOC
    ensures if i + 1 < |q| then 2 <= fat[q[i]] == q[i + 1] < EOC else EOC <= fat[q[i]] < 0x8000_0000
  {
    assert DataClus(g, q[i]);
    if i + 1 == |q| {
      assert EOC <= fat[q[|q| - 1]];
    } else {
      assert DataClus(g, q[i + 1]);
    }
  }

  /** Reading the next cell on the way: within the chain the walk goes on, at its end it stalls or does not. */
  lemma ReadOnWay(g: Geometry, l: C.Layout, w: Trip, fat: seq<nat>, m: C.Memory, chain: seq<nat>, i: nat)
    requires OnWay(l, w, fat, m, chain, i) && i < w.to
    ensures i + 1 < |chain| ==> OnWay(l, w, fat, C.AfterRead(l, m, chain[i]), chain, i + 1)
    ensures i + 1 == |chain| ==>
      (C.CellOf(l, chain[i]) in m.claimed <==> Stalls(l, w.mem, Way(l, w), |w.chain|, w.from, i + 1))
    ensures Stalls(l, w.mem, Way(l, w), |w.chain|, w.from, i + 1) ==>
      Stalls(l, w.mem, Way(l, w), |w.chain|, w.from, w.to)
  {
    hide Plan, Stalls, C.AfterRead, GrownTo;
    var q := Way(l, w);
    StallsNext(l, w.mem, q, |w.chain|, w.from, i);
    if Stalls(l, w.mem, q, |w.chain|, w.from, i + 1) {
      StallsFrom(l, w.mem, q, |w.chain|, w.from, i + 1, w.to);
    }
  }

  /** The lowest free cluster is the next one on the way. */
  lemma WayGoesOn(g: Geometry, l: C.Layout, w: Trip, fat: seq<nat>, m: C.Memory, chain: seq<nat>, i: nat, c: nat)
    requires OnWay(l, w, fat, m, chain, i) && i < w.to && i + 1 == |chain| && l.clusters == g.clusters
    requires IsLowestFree(fat, c) && DataClus(g, c) && !Stalls(l, w.mem, Way(l, w), |w.chain|, w.from, i + 1)
    ensures OnWay(l, w, fat[c := CLAIM][chain[i] := c],
                  C.AfterWrite(l, C.AfterClaim(l, C.AfterRead(l, m, chain[i]), c), chain[i]), chain + [c], i + 1)
  {
    hide Plan, Stalls, C.AfterRead, C.AfterWrite, C.AfterClaim;
    var q := Way(l, w);
    NextPlanned(l, w.fat, w.chain, w.to, i, c);
    assert chain + [c] == q[..|chain| + 1];
  }

  lemma WayEnds(g: Geometry, l: C.Layout, w: Trip, fat: seq<nat>, m: C.Memory, chain: seq<nat>, i: nat)
    requires OnWay(l, w, fat, m, chain, i) && i < w.to && i + 1 == |chain| && l.clusters == g.clusters
    requires FreeCells(g, fat) == {} && !Stalls(l, w.mem, Way(l, w), |w.chain|, w.from, i + 1)
    ensures |Way(l, w)| == |chain| && !Stalls(l, w.mem, Way(l, w), |w.chain|, w.from, w.to)
  {
    hide Plan, Stalls, GrownTo;
    forall d | 2 <= d < l.clusters + 2 ensures fat[d] != 0 {
      assert d !in FreeCells(g, fat);
    }
    NextPlanned(l, w.fat, w.chain, w.to, i, l.clusters + 2);
    StallsNoMore(l, w.mem, Way(l, w), |w.chain|, w.from, w.to);
  }

  lemma NoFirst(g: Geometry, l: C.Layout, w: Trip)
    requires w.chain == [] && l.clusters == g.clusters && g.clusters + 1 < |w.fat| && FreeCells(g, w.fat) == {}
    ensures |Way(l, w)| == 0 && !Stalls(l, w.mem, Way(l, w), |w.chain|, w.from, w.to)
  {
    hide Plan;
    forall d | 2 <= d < l.clusters + 2 ensures w.fat[d] != 0 {
      assert d !in FreeCells(g, w.fat);
    }
    PlanOk(l, w.fat, w.chain, w.to);
    NextPlanned(l, w.fat, w.chain, w.to, -1, l.clusters + 2);
  }

  lemma FirstOnWay(g: Geometry, l: C.Layout, w: Trip, c: nat)
    requires w.chain == [] && w.from == 0 && l.clusters == g.clusters && g.clusters + 1 < |w.fat|
    requires IsLowestFree(w.fat, c) && DataClus(g, c)
    ensures OnWay(l, w, w.fat[c := CLAIM], C.AfterClaim(l, w.mem, c), [c], 0)
  {
    hide Plan, Stalls, C.AfterClaim;
    var q := Way(l, w);
    PlanOk(l, w.fat, w.chain, w.to);
    NextPlanned(l, w.fat, w.chain, w.to, -1, c);
    NoStallYet(l, w.mem, q, 0, 0);
    assert [c] == q[..1];
  }

  /** A walk that has arrived has the whole of its way as chain. */
  lemma WayDone(l: C.Layout, w: Trip, fat: seq<nat>, m: C.Memory, chain: seq<nat>)
    requires OnWay(l, w, fat, m, chain, w.to)
    ensures chain == Way(l, w) && |Way(l, w)| > w.to && !Stalls(l, w.mem, Way(l, w), |w.chain|, w.from, w.to)
  {
    hide Plan, Stalls, GrownTo, WalkTo;
    PlanOk(l, w.fat, w.chain, w.to);
  }

  /** Within the chain the way is the chain. */
  lemma WayWithin(l: C.Layout, w: Trip, fat: seq<nat>, m: C.Memory, chain: seq<nat>)
    requires OnWay(l, w, fat, m, chain, w.to) && w.to < |w.chain| && chain == w.chain
    ensures m == WalkTo(l, w.mem, chain, |chain|, w.from, w.to)
  {
    hide Stalls, GrownTo, WalkTo, Plan;
    PlanOk(l, w.fat, w.chain, w.to);
  }

  /** A walk has clusters enough exactly when the chain's supply covers it. */
  lemma WayCovers(g: Geometry, l: C.Layout, w: Trip)
    requires l.clusters == g.clusters && g.clusters + 1 < |w.fat|
    ensures |Way(l, w)| > w.to <==> Supply(g, w.fat, w.chain) > w.to
  {
    hide Frees;
    if |w.chain| <= w.to {
      var r := Frees(w.fat, 2, l.clusters + 2, w.to + 1 - |w.chain|);
      DistinctSize(r);
      forall c | c in r ensures c in FreeCells(g, w.fat) {
      }
      SubsetSize(Elements(r), FreeCells(g, w.fat));
      if |r| < w.to + 1 - |w.chain| {
        SubsetSize(FreeCells(g, w.fat), Elements(r));
      }
    } else {
      SupplyCovers(g, w.fat, w.chain);
    }
  }

  lemma SameClusterEnd(g: Geometry, at: nat, m: nat)
    requires Bpc(g) > 0 && ClusOff(g, at) + m <= Bpc(g) && m > 0
    ensures ClusNum(g, at + m - 1) == ClusNum(g, at)
  {
    Position(g, at + m - 1, at, m);
  }

  lemma MirrorBound(l: C.Layout, cells: seq<C.Cells>, fat: seq<nat>)
    requires Mirrors(l, cells, fat)
    ensures |fat| == l.fatSectors * C.CELLS
  {
  }

  /** alloc_clus scans the table as fat has it. */
  lemma MirrorLowest(l: C.Layout, cells: seq<C.Cells>, fat: seq<nat>)
    requires Mirrors(l, cells, fat)
    ensures var c := C.NextFree(l, cells, 0);
      && (forall d :: 0 <= d < c ==> fat[d] != 0) && c <= |fat| && (c < |fat| ==> fat[c] == 0)
  {
    hide C.NextFree;
    var c := C.NextFree(l, cells, 0);
    forall d | 0 <= d < c ensures fat[d] != 0 {
      assert fat[d] == C.CellAt(l, cells, d);
    }
  }

  /** The cells of q are zero, all others as before. */
  ghost predicate Freed(fat: seq<nat>, fat': seq<nat>, q: seq<nat>) {
    && |fat'| == |fat|
    && forall c :: 0 <= c < |fat| ==> fat'[c] == if c in q then 0 else fat[c]
  }

  lemma EmptyChain(g: Geometry, fat: seq<nat>)
    ensures IsChain(g, fat, [])
  {
  }

  lemma FreedNone(fat: seq<nat>)
    ensures Freed(fat, fat, [])
  {
  }

  /** One step of etrunc: the cell still holds its link, and clearing it keeps the reserved cells. */
  lemma FreedStep(g: Geometry, fat0: seq<nat>, fat: seq<nat>, disk: Disk, q: seq<nat>, k: nat)
    requires Mounted(g, fat, disk) && IsChain(g, fat0, q) && k <= |q| && Freed(fat0, fat, q[..k]) && fat[0] != 0
    requires fat[1] != 0
    ensures k < |q| ==> q[k] < |fat| && Freed(fat0, fat[q[k] := 0], q[..k + 1]) && DataClus(g, q[k])
    ensures k < |q| ==> if k + 1 < |q| then fat[q[k]] == q[k + 1] < EOC else EOC <= fat[q[k]]
  {
    if k < |q| {
      assert q[k] !in q[..k];
      assert q[..k + 1] == q[..k] + [q[k]];
      if k + 1 == |q| { assert fat0[q[|q| - 1]] >= EOC; }
    }
  }

  lemma ChainRange(g: Geometry, fat: seq<nat>, disk: Disk, q: seq<nat>, k: nat)
    requires Mounted(g, fat, disk) && IsChain(g, fat, q)
    ensures k < |q| ==> 2 <= q[k] < EOC
  {
  }

  /** Truncating one file leaves every other chain in place. */
  lemma OthersKeepChains(g: Geometry, fat: seq<nat>, fat': seq<nat>, chain: seq<nat>, q: seq<nat>)
    requires Freed(fat, fat', chain) && IsChain(g, fat, q) && (forall c :: c in q ==> c !in chain)
    ensures IsChain(g, fat', q)
  {
  }

  lemma ChainAt(g: Geometry, fat: seq<nat>, q: seq<nat>, i: nat)
    requires IsChain(g, fat, q) && i < |q|
    ensures DataClus(g, q[i])
  {
  }

  lemma ChunkEnd(g: Geometry, at: nat, m: nat, n: nat)
    requires Bpc(g) > 0 && ClusNum(g, at) < n && ClusOff(g, at) + m <= Bpc(g)
    ensures at + m <= n * Bpc(g)
  {
    DivMod(at, Bpc(g));
    MulMonotone(ClusNum(g, at) + 1, n, Bpc(g));
    assert (ClusNum(g, at) + 1) * Bpc(g) == ClusNum(g, at) * Bpc(g) + Bpc(g);
  }

  lemma OnlyFirst(g: Geometry, fat: seq<nat>, disk: Disk, disk': Disk, c: nat)
    requires DataClus(g, c) && c < |fat| && fat[c] == 0 && Bpc(g) > 0
    requires Written(g, disk, disk', c, 0, seq(Bpc(g), _ => 0))
    ensures IsChain(g, fat[c := EOC + 7], [c]) && OnlyChain(g, fat, disk, [], fat[c := EOC + 7], disk', [c])
    ensures Spliced(g, disk, [], 0, disk', [c], 0, [], 0)
  {
    hide ClusByte, Bpc;
  }

  lemma OnlySelf(g: Geometry, fat: seq<nat>, disk: Disk, chain: seq<nat>, size: nat)
    requires IsChain(g, fat, chain) && Bpc(g) > 0
    ensures OnlyChain(g, fat, disk, chain, fat, disk, chain) && Spliced(g, disk, chain, size, disk, chain, 0, [], 0)
  {
    hide ClusByte, Bpc;
  }

  lemma SplicedStart(g: Geometry, disk0: Disk, chain0: seq<nat>, size0: nat, disk: Disk, chain: seq<nat>, off: nat,
                     src: seq<Byte>)
    requires Bpc(g) > 0 && Spliced(g, disk0, chain0, size0, disk, chain, 0, [], 0)
    ensures Spliced(g, disk0, chain0, size0, disk, chain, off, src, 0)
  {
    hide FileByte;
  }

  lemma ChunkRead(g: Geometry, fat: seq<nat>, disk: Disk, q: seq<nat>, at: nat, m: nat, size: nat)
    requires Mounted(g, fat, disk) && Bpc(g) > 0 && ClusNum(g, at) < |q| && ClusOff(g, at) + m <= Bpc(g)
    requires at + m <= size
    ensures ClusBytes(g, disk, q[ClusNum(g, at)], ClusOff(g, at), m) == Content(g, disk, q, size)[at..at + m]
  {
    hide Bpc, ClusNum, ClusOff, Mounted, ClusByte;
    var part := ClusBytes(g, disk, q[ClusNum(g, at)], ClusOff(g, at), m);
    forall i | 0 <= i < m ensures part[i] == Content(g, disk, q, size)[at..at + m][i] {
      Position(g, at + i, at, m);
    }
  }

  lemma BpcPositive(g: Geometry, fat: seq<nat>, disk: Disk)
    requires Mounted(g, fat, disk)
    ensures Bpc(g) > 0 && g.clusters + 1 < |fat| && g.clusters + 1 < EOC
  {
  }

  lemma SizeStill(g: Geometry, size: nat, a: nat, b: nat)
    requires size <= a * Bpc(g) && a <= b
    ensures size <= b * Bpc(g)
  {
    MulMonotone(a, b, Bpc(g));
  }

  lemma ChainDistinct(g: Geometry, fat: seq<nat>, q: seq<nat>)
    requires IsChain(g, fat, q)
    ensures Distinct(q)
  {
  }

  lemma ExtendedSelf(g: Geometry, fat: seq<nat>, disk: Disk, chain: seq<nat>)
    requires IsChain(g, fat, chain)
    ensures Extended(g, fat, disk, chain, fat, disk, chain)
  {
  }

  lemma SupplyExtended(g: Geometry, fat: seq<nat>, disk: Disk, chain: seq<nat>, fat': seq<nat>, disk': Disk,
                       chain': seq<nat>)
    requires Extended(g, fat, disk, chain, fat', disk', chain') && IsChain(g, fat, chain) && IsChain(g, fat', chain')
    ensures Supply(g, fat', chain') == Supply(g, fat, chain)
  {
    hide ClusByte, Supply;
    forall c | 0 <= c < |fat| && c in chain ensures fat[c] != 0 {
      ChainCellsTaken(g, fat, chain, c);
    }
    SupplyKept(g, fat, chain, fat', chain');
  }

  /** Clusters a write needs the file to have; even an empty write gives a file its first cluster. */
  function ClustersNeeded(g: Geometry, off: nat, len: nat): nat
    requires Bpc(g) > 0
  {
    if len == 0 then 1 else ClusNum(g, off + len - 1) + 1
  }

  lemma SupplyCovers(g: Geometry, fat: seq<nat>, chain: seq<nat>)
    ensures Supply(g, fat, chain) >= |chain|
  {
  }

  lemma SupplyPositive(g: Geometry, fat: seq<nat>, chain: seq<nat>)
    requires chain != []
    ensures Supply(g, fat, chain) > 0
  {
  }

  lemma ClusNumMonotone(g: Geometry, i: nat, j: nat)
    requires Bpc(g) > 0 && i <= j
    ensures ClusNum(g, i) <= ClusNum(g, j)
  {
    DivMod(i, Bpc(g));
    DivMod(j, Bpc(g));
    if ClusNum(g, i) > ClusNum(g, j) {
      MulMonotone(ClusNum(g, j) + 1, ClusNum(g, i), Bpc(g));
    }
  }

  lemma SupplyGone(g: Geometry, fat: seq<nat>, chain: seq<nat>)
    requires FreeCells(g, fat) == {}
    ensures Supply(g, fat, chain) == |chain|
  {
  }

  lemma ExtendedByOne(g: Geometry, fat: seq<nat>, disk: Disk, chain: seq<nat>, disk': Disk, c: nat)
    requires IsChain(g, fat, chain) && chain != [] && DataClus(g, c) && c < |fat| && fat[c] == 0 && c !in chain
    requires Written(g, disk, disk', c, 0, seq(Bpc(g), _ => 0))
    ensures Extended(g, fat, disk, chain, fat[c := EOC + 7][chain[|chain| - 1] := c], disk', chain + [c])
  {
    hide ClusByte, Bpc;
    var q := chain + [c];
    assert q[|chain|..] == [c];
    forall i | 0 <= i < |q| ensures q[i] == if i < |chain| then chain[i] else c {}
    assert c in q && chain[|chain| - 1] in q by {
      assert q[|chain|] == c && q[|chain| - 1] == chain[|chain| - 1];
    }
  }

  ghost predicate IsLowestFree(fat: seq<nat>, c: nat) {
    c < |fat| && fat[c] == 0 && forall d :: 0 <= d < c ==> fat[d] != 0
  }

  lemma WrittenNothing(g: Geometry, disk: Disk, c: nat, off: nat)
    ensures Written(g, disk, disk, c, off, [])
  {
  }

  lemma NextSector(p: nat, m: nat)
    requires 0 < m <= BSIZE - p % BSIZE
    ensures m == BSIZE - p % BSIZE ==> (p + m) / BSIZE == p / BSIZE + 1 && (p + m) % BSIZE == 0
  {
  }

  lemma ReadSector(g: Geometry, fat: seq<nat>, disk: Disk, c: nat, lo: nat, m: nat)
    requires Mounted(g, fat, disk) && DataClus(g, c) && 0 < m && lo % BSIZE + m <= BSIZE && lo + m <= Bpc(g)
    ensures var sec := FirstSec(g, c) + lo / BSIZE;
      sec < |disk| && disk[sec][lo % BSIZE..lo % BSIZE + m] == ClusBytes(g, disk, c, lo, m)
  {
    assert lo / BSIZE < g.spc;
    SectorInRange(g, disk, c, lo / BSIZE);
    var part := disk[FirstSec(g, c) + lo / BSIZE][lo % BSIZE..lo % BSIZE + m];
    forall i | 0 <= i < m ensures part[i] == ClusBytes(g, disk, c, lo, m)[i] {
      WithinSector(lo, i);
    }
  }

  lemma ClusBytesJoin(g: Geometry, disk: Disk, c: nat, lo: nat, m: nat, n: nat)
    ensures ClusBytes(g, disk, c, lo, m + n) == ClusBytes(g, disk, c, lo, m) + ClusBytes(g, disk, c, lo + m, n)
    ensures |ClusBytes(g, disk, c, lo, m)| == m && |ClusBytes(g, disk, c, lo + m, n)| == n
  {
    hide ClusByte;
  }

  lemma WithinSector(lo: nat, i: nat)
    requires lo % BSIZE + i < BSIZE
    ensures (lo + i) / BSIZE == lo / BSIZE && (lo + i) % BSIZE == lo % BSIZE + i
  {
  }

  lemma NothingWritten(g: Geometry, disk: Disk, c: nat)
    ensures Written(g, disk, disk, c, 0, [])
  {
  }

  lemma SectorStart(g: Geometry, i: nat)
    requires i < g.spc
    ensures i * BSIZE / BSIZE == i && i * BSIZE % BSIZE == 0 && i * BSIZE + BSIZE <= Bpc(g)
  {
  }

  lemma PatchedWhole(s: Sector, t: Sector)
    ensures Patched(s, 0, t) == t
  {
  }
}
