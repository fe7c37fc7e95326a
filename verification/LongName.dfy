/**
 Long file names in a directory (emake, read_entry_name, read_entry_info and enext in
 kernel/fat32.c, snstr in kernel/string.c): reversed entries of thirteen 16-bit characters, as under
 "FAT Long Directory Entries" of Microsoft's "FAT: General Overview of On-Disk Format".
 */
module LongName {

  const CHARS: nat := 13
  const LAST: nat := 0x40
  const EMPTY: nat := 0xE5
  const PAD: nat := 0xFFFF
  const MAX_FILENAME: nat := 255
  const MAX_ENTRIES: nat := 20

  type Byte = b: nat | b < 0x100
  type Wide = w: nat | w < 0x1_0000

  /** A name as the kernel holds it, without its NUL. */
  predicate Legal(name: seq<Byte>) {
    0 < |name| <= MAX_FILENAME && 0 !in name
  }

  type Quad = q: nat | q < 0x1_0000_0000

  /** What a short entry says besides the name, in the order of the fields behind filename in a dirent. */
  datatype Info = Info(attr: Byte, tenth: Byte, time: Wide, date: Wide, accessed: Wide, cluster: Quad,
                       writeTime: Wide, writeDate: Wide, size: Quad)

  type Chars = u: seq<Wide> | |u| == CHARS witness seq(CHARS, _ => 0)
  type ShortName = n: seq<Byte> | |n| == 11 witness seq(11, _ => 0)

  datatype Entry =
    | Long(order: Byte, units: Chars)
    | Short(name: ShortName, info: Info)

  /** Byte 0 of an entry: the order, or the first byte of a short name. */
  function First(e: Entry): nat {
    match e
    case Long(order, _) => order
    case Short(name, _) => name[0]
  }

  function Entries(name: seq<Byte>): nat {
    (|name| + CHARS - 1) / CHARS
  }

  /** Character k of the encoded name: the name, a NUL, then padding. */
  function Unit(name: seq<Byte>, k: nat): Wide {
    if k < |name| then name[k] else if k == |name| then 0 else PAD
  }

  function Units(name: seq<Byte>, i: nat): (r: seq<Wide>)
    ensures |r| == CHARS && forall k :: 0 <= k < CHARS ==> r[k] == Unit(name, i * CHARS + k)
  {
    seq<Wide>(CHARS, k requires 0 <= k < CHARS => Unit(name, i * CHARS + k))
  }

  /** The order byte of entry i, counted from 1. */
  function Order(name: seq<Byte>, i: nat): Byte
    requires i <= MAX_ENTRIES
  {
    if i == Entries(name) then i + LAST else i
  }

  /** Entries i, i - 1, ..., 1 of a name, as they lie in the directory. */
  function Encoded(name: seq<Byte>, i: nat): (r: seq<Entry>)
    requires i <= MAX_ENTRIES
    ensures |r| == i
    ensures forall k :: 0 <= k < i ==> r[k] == Long(Order(name, i - k), Units(name, i - k - 1))
  {
    if i == 0 then [] else [Long(Order(name, i), Units(name, i - 1))] + Encoded(name, i - 1)
  }

  /** The one entry of the name "ab", byte by byte. */
  lemma ShortExample()
    ensures Encoded([0x61, 0x62], Entries([0x61, 0x62])) ==
      [Long(0x41, [0x61, 0x62, 0, 0xFFFF, 0xFFFF, 0xFFFF, 0xFFFF, 0xFFFF, 0xFFFF, 0xFFFF, 0xFFFF, 0xFFFF, 0xFFFF])]
  {
    var u := Units([0x61, 0x62], 0);
    assert u == [0x61, 0x62, 0, 0xFFFF, 0xFFFF, 0xFFFF, 0xFFFF, 0xFFFF, 0xFFFF, 0xFFFF, 0xFFFF, 0xFFFF, 0xFFFF];
    assert Encoded([0x61, 0x62], 1) == [Long(0x41, u)];
  }

  lemma EntriesBound(name: seq<Byte>)
    requires Legal(name)
    ensures 1 <= Entries(name) <= MAX_ENTRIES
    ensures (Entries(name) - 1) * CHARS < |name| <= Entries(name) * CHARS
  {
  }

  // ---------------------------------------------------------------- writing

  /** One entry of the loop of emake: the thirteen characters from place p on. */
  method MakeUnits(name: seq<Byte>, i: nat) returns (units: seq<Wide>)
    requires Legal(name) && i * CHARS < |name|
    ensures units == Units(name, i)
  {
    units := [];
    var p := i * CHARS;
    var end := false;
    for j := 0 to CHARS
      invariant |units| == j && forall k :: 0 <= k < j ==> units[k] == Unit(name, i * CHARS + k)
      invariant !end ==> p == i * CHARS + j <= |name|
      invariant end ==> |name| < i * CHARS + j
    {
      if end {
        units := units + [PAD];
      } else {
        var c: Byte := if p < |name| then name[p] else 0;
        p := p + 1;
        end := c == 0;
        units := units + [c];
      }
    }
  }

  /** The long-name loop of emake. */
  method Emake(name: seq<Byte>) returns (out: seq<Entry>)
    requires Legal(name)
    ensures out == Encoded(name, Entries(name))
  {
    hide Units, Encoded, Order;
    EntriesBound(name);
    var count := Entries(name);
    out := [];
    var i := count;
    while i > 0
      invariant 0 <= i <= count && out + Encoded(name, i) == Encoded(name, count)
    {
      var units := MakeUnits(name, i - 1);
      var order: Byte := if i == count then i + LAST else i;
      OneMore(name, i);
      out := out + [Long(order, units)];
      i := i - 1;
    }
    assert Encoded(name, 0) == [];
  }

  lemma OneMore(name: seq<Byte>, i: nat)
    requires 0 < i <= MAX_ENTRIES
    ensures Order(name, i) == if i == Entries(name) then i + LAST else i
    ensures forall out: seq<Entry> ::
      out + Encoded(name, i) == out + [Long(Order(name, i), Units(name, i - 1))] + Encoded(name, i - 1)
  {
  }

  // ---------------------------------------------------------------- reading

  /** The bytes of a dirent that enext sets: filename, then what read_entry_info writes, up to clus_cnt. */
  const NAME_BYTES: nat := MAX_FILENAME + 1
  const REACH: nat := NAME_BYTES + 28

  /** The last place of a long entry whose characters stay within these bytes. */
  const MAX_PLACE: nat := REACH / CHARS

  function WideBytes(w: Wide): (r: seq<Byte>)
    ensures |r| == 2
  {
    [w % 0x100, w / 0x100]
  }

  function QuadBytes(q: Quad): (r: seq<Byte>)
    ensures |r| == 4
  {
    WideBytes(q % 0x1_0000) + WideBytes(q / 0x1_0000)
  }

  /** The fields behind filename once read_entry_info is done, cur_clus and clus_cnt last. */
  function InfoBytes(i: Info): (r: seq<Byte>)
    ensures |r| == 28
  {
    [i.attr, i.tenth] + WideBytes(i.time) + WideBytes(i.date) + WideBytes(i.accessed) + QuadBytes(i.cluster)
    + WideBytes(i.writeTime) + WideBytes(i.writeDate) + QuadBytes(i.size) + QuadBytes(i.cluster) + QuadBytes(0)
  }

  function WideAt(b: seq<Byte>, k: nat): Wide
    requires k + 2 <= |b|
  {
    var low: nat, high: nat := b[k], b[k + 1];
    low + 0x100 * high
  }

  function QuadAt(b: seq<Byte>, k: nat): Quad
    requires k + 4 <= |b|
  {
    WideAt(b, k) + 0x1_0000 * WideAt(b, k + 2)
  }

  /** The fields as the rest of the kernel reads them. */
  function InfoOf(b: seq<Byte>): Info
    requires |b| == 28
  {
    Info(b[0], b[1], WideAt(b, 2), WideAt(b, 4), WideAt(b, 6), QuadAt(b, 8),
         WideAt(b, 12), WideAt(b, 14), QuadAt(b, 16))
  }

  lemma InfoBack(i: Info)
    ensures InfoOf(InfoBytes(i)) == i
  {
    var b := InfoBytes(i);
    assert b[2..4] == WideBytes(i.time) && b[4..6] == WideBytes(i.date) && b[6..8] == WideBytes(i.accessed);
    assert b[8..10] == WideBytes(i.cluster % 0x1_0000) && b[10..12] == WideBytes(i.cluster / 0x1_0000);
    assert b[12..14] == WideBytes(i.writeTime) && b[14..16] == WideBytes(i.writeDate);
    assert b[16..18] == WideBytes(i.size % 0x1_0000) && b[18..20] == WideBytes(i.size / 0x1_0000);
  }

  /** The C string at the start of b. */
  function CString(b: seq<Byte>): seq<Byte> {
    if b == [] || b[0] == 0 then [] else [b[0]] + CString(b[1..])
  }

  lemma {:induction false} CStringIs(b: seq<Byte>, name: seq<Byte>)
    requires |name| < |b| && b[|name|] == 0 && 0 !in name && forall k :: 0 <= k < |name| ==> b[k] == name[k]
    ensures CString(b) == name
  {
    if name != [] {
      CStringIs(b[1..], name[1..]);
      assert name == [name[0]] + name[1..];
    }
  }

  lemma {:induction false} CStringEnds(b: seq<Byte>, i: nat)
    requires i < |b| && b[i] == 0
    ensures CString(b) == CString(b[..i + 1])
  {
    if i > 0 && b[0] != 0 {
      CStringEnds(b[1..], i - 1);
      assert b[..i + 1][1..] == b[1..][..i];
    }
  }

  /** No character before k is a NUL. */
  ghost predicate Unbroken(src: seq<Wide>, k: nat)
    requires k <= |src|
  {
    forall m :: 0 <= m < k ==> src[m] != 0
  }

  lemma Piece(units: seq<Wide>, lo: nat, hi: nat, k: nat)
    requires lo <= k < hi <= |units| && Unbroken(units, k)
    ensures Unbroken(units[lo..hi], k - lo) && units[lo..hi][k - lo] == units[k]
  {
  }

  // ---------------------------------------------------------------- directories

  predicate Flagged(order: Byte) {
    order / LAST % 2 == 1
  }

  /** order & ~LAST_LONG_ENTRY. */
  function Place(order: Byte): nat {
    if Flagged(order) then order - LAST else order
  }

  predicate Live(e: Entry) {
    First(e) != 0 && First(e) != EMPTY
  }

  /**
   A live long entry has a place within the longest name and is followed by the next of its name or
   by the short entry.
   */
  ghost predicate Wellformed(dir: seq<Entry>) {
    forall i :: 0 <= i < |dir| && Live(dir[i]) ==> WellformedAt(dir, i)
  }

  ghost predicate WellformedAt(dir: seq<Entry>, i: nat)
    requires i < |dir|
  {
    match dir[i]
    case Short(name, _) => 0 !in name
    case Long(order, units) =>
      && 1 <= Place(order) <= MAX_PLACE
      && i + 1 < |dir| && Live(dir[i + 1]) && (dir[i + 1].Long? ==> !Flagged(dir[i + 1].order))
  }

  /** The entries of the name lie at off, the short entry with info behind them. */
  ghost predicate StoredAt(dir: seq<Entry>, off: nat, name: seq<Byte>, info: Info) {
    var n := Entries(name);
    && Legal(name) && n <= MAX_ENTRIES && off + n < |dir| && dir[off..off + n] == Encoded(name, n)
    && dir[off + n].Short? && Live(dir[off + n]) && dir[off + n].info == info
  }

  /** Bytes of the dirent once the top d of the n entries are read. */
  ghost predicate Progress(mem: seq<Byte>, name: seq<Byte>, n: nat, d: nat) {
    && |mem| == REACH && d <= n
    && (forall k :: 0 <= k < (n - d) * CHARS && k < NAME_BYTES ==> mem[k] == 0)
    && (forall k :: (n - d) * CHARS <= k < |name| && k < NAME_BYTES ==> mem[k] == name[k])
    && (|name| < NAME_BYTES ==> mem[|name|] == 0)
  }

  lemma UnbrokenUnits(name: seq<Byte>, i: nat, k: nat)
    requires Legal(name) && k < CHARS && i * CHARS + k <= |name|
    ensures Unbroken(Units(name, i), k)
  {
    forall m | 0 <= m < k ensures Units(name, i)[m] != 0 {
      assert Unit(name, i * CHARS + m) == name[i * CHARS + m];
    }
  }

  /** The entry of a stored name at a given distance. */
  lemma StoredEntry(dir: seq<Entry>, off: nat, name: seq<Byte>, info: Info, d: nat)
    requires StoredAt(dir, off, name, info) && d < Entries(name)
    ensures var i := Entries(name) - d; dir[off + d] == Long(Order(name, i), Units(name, i - 1))
    ensures Flagged(Order(name, Entries(name) - d)) == (d == 0)
    ensures Place(Order(name, Entries(name) - d)) == Entries(name) - d
    ensures Live(dir[off + d])
  {
    hide Units, Encoded;
    EntriesBound(name);
    assert dir[off + d] == dir[off..off + Entries(name)][d];
  }

  class Dirent {
    const mem: array<Byte>

    constructor ()
      ensures mem.Length == REACH && fresh(mem)
    {
      mem := new Byte[REACH](_ => 0);
    }

    /** snstr, which, having met a NUL, clears one byte less than is left. */
    method Snstr(at: nat, src: seq<Wide>)
      requires at + |src| <= mem.Length
      modifies mem
      ensures forall k :: 0 <= k < mem.Length && !(at <= k < at + |src|) ==> mem[k] == old(mem[k])
      ensures forall k :: 0 <= k < |src| && Unbroken(src, k) && src[k] != 0 ==> mem[at + k] == src[k] % 0x100
      ensures forall k :: 0 <= k < |src| && Unbroken(src, k) && src[k] == 0 ==>
        mem[at + k] == 0 || mem[at + k] == old(mem[at + k])
    {
      var len, i := |src|, 0;
      while len > 0 && src[i] != 0
        invariant 0 <= len && i + len == |src| && Unbroken(src, i)
        invariant forall k :: 0 <= k < i ==> mem[at + k] == src[k] % 0x100
        invariant forall k :: 0 <= k < mem.Length && !(at <= k < at + i) ==> mem[k] == old(mem[k])
      {
        mem[at + i] := src[i] % 0x100;
        i, len := i + 1, len - 1;
      }
      len := len - 1;
      ghost var z := i;
      while len > 0
        invariant z <= i && (len >= 0 ==> i + len == |src| - 1) && (len < 0 ==> i == z == |src|)
        invariant forall k :: 0 <= k < z ==> mem[at + k] == src[k] % 0x100
        invariant forall x :: at + z <= x < at + i ==> mem[x] == 0
        invariant forall k :: 0 <= k < mem.Length && !(at <= k < at + i) ==> mem[k] == old(mem[k])
      {
        mem[at + i] := 0;
        i, len := i + 1, len - 1;
      }
    }

    /** read_entry_name on a long entry. */
    method ReadEntryName(at: nat, units: seq<Wide>)
      requires |units| == CHARS && at + CHARS <= mem.Length
      modifies mem
      ensures forall k :: 0 <= k < mem.Length && !(at <= k < at + CHARS) ==> mem[k] == old(mem[k])
      ensures forall k :: 0 <= k < CHARS && Unbroken(units, k) && units[k] != 0 ==> mem[at + k] == units[k] % 0x100
      ensures forall k :: 0 <= k < CHARS && Unbroken(units, k) && units[k] == 0 ==>
        mem[at + k] == 0 || mem[at + k] == old(mem[at + k])
    {
      Snstr(at, units[0..5]);
      Snstr(at + 5, units[5..11]);
      Snstr(at + 11, units[11..13]);
      forall k | 0 <= k < CHARS && Unbroken(units, k)
        ensures units[k] != 0 ==> mem[at + k] == units[k] % 0x100
        ensures units[k] == 0 ==> mem[at + k] == 0 || mem[at + k] == old(mem[at + k])
      {
        Piece(units, if k < 5 then 0 else if k < 11 then 5 else 11, if k < 5 then 5 else if k < 11 then 11 else 13, k);
      }
    }

    /** Reading entry n - d of a name moves the progress on by one. */
    method ReadNext(units: seq<Wide>, place: nat, ghost name: seq<Byte>, ghost n: nat, ghost d: nat)
      requires |units| == CHARS && 1 <= place <= MAX_PLACE && mem.Length == REACH
      modifies mem
      ensures ReadsOn(name, units, n, d, place) && Progress(old(mem[..]), name, n, d) ==>
        Progress(mem[..], name, n, d + 1)
    {
      hide Units, Unbroken;
      var at := (place - 1) * CHARS;
      ReadEntryName(at, units);
      if ReadsOn(name, units, n, d, place) && Progress(old(mem[..]), name, n, d) {
        forall k | at <= k < at + CHARS && k <= |name|
          ensures mem[k] == if k < |name| then name[k] else 0
        {
          UnbrokenUnits(name, place - 1, k - at);
          assert units[k - at] == Unit(name, at + (k - at));
          assert mem[at + (k - at)] == mem[k];
        }
      }
    }

    /** Bytes of f up to the first space, behind the i bytes already there. */
    method CopyField(i: nat, f: seq<Byte>) returns (r: nat)
      requires i + |f| < 13 && mem.Length == REACH && forall m :: i <= m < 13 ==> mem[m] == 0
      modifies mem
      ensures r == i + Blank(f, 0) && mem[..r] == old(mem[..i]) + f[..Blank(f, 0)] && forall m :: r <= m < 13 ==>
        mem[m] == 0
    {
      hide Blank;
      var j := 0;
      while j < |f| && f[j] != SPACE
        invariant 0 <= j <= |f| && Blank(f, 0) == Blank(f, j)
        invariant mem[..i + j] == old(mem[..i]) + f[..j] && forall m :: i + j <= m < 13 ==> mem[m] == 0
      {
        mem[i + j] := f[j];
        BlankStep(f, j);
        j := j + 1;
      }
      BlankEnd(f, j);
      r := i + j;
    }

    /** read_entry_name on a short entry: the base and, if there is one, the extension behind a dot. */
    method ReadShortName(name: ShortName)
      requires mem.Length == REACH
      modifies mem
      ensures CString(mem[..NAME_BYTES]) == CString(ShortText(name) + [0])
    {
      hide Blank, ShortText, CString;
      for k := 0 to 13
        invariant forall m :: 0 <= m < k ==> mem[m] == 0
      {
        mem[k] := 0;
      }
      var i := CopyField(0, name[..8]);
      ghost var base := name[..8][..Blank(name[..8], 0)];
      ghost var dot: seq<Byte> := if name[8] != SPACE then [DOT] else [];
      assert mem[..i] == base;
      if name[8] != SPACE {
        mem[i] := DOT;
        i := i + 1;
      }
      assert mem[..i] == base + dot;
      i := CopyField(i, name[8..]);
      assert mem[..NAME_BYTES][..i] == mem[..i];
      ShortParts(name);
      ShortEnds(mem[..NAME_BYTES], name, i);
    }

    /** The memory behind filename holds the fields of info. */
    ghost predicate Described(i: Info)
      reads mem
    {
      mem.Length == REACH && mem[NAME_BYTES..] == InfoBytes(i)
    }

    /** read_entry_info: the bytes of the fields, one behind the other. */
    method ReadEntryInfo(i: Info)
      requires mem.Length == REACH
      modifies mem
      ensures Described(i) && mem[..NAME_BYTES] == old(mem[..NAME_BYTES])
    {
      hide InfoBytes;
      var bytes := InfoBytes(i);
      for k := 0 to |bytes|
        invariant mem[NAME_BYTES..NAME_BYTES + k] == bytes[..k]
        invariant mem[..NAME_BYTES] == old(mem[..NAME_BYTES])
      {
        mem[NAME_BYTES + k] := bytes[k];
      }
    }

    method ClearName()
      requires mem.Length == REACH
      modifies mem
      ensures forall k :: 0 <= k < NAME_BYTES ==> mem[k] == 0
    {
      for k := 0 to NAME_BYTES
        invariant forall m :: 0 <= m < k ==> mem[m] == 0
      {
        mem[k] := 0;
      }
    }

    /**
     enext, on any directory: what a stored name gives back, among all the other things that can be
     found there.  fault: the kernel writes to memory that is not the entry's name or one of the fields
     set from the short entry, or through the null pointer.
     */
    method Enext(dir: seq<Entry>, from: nat, ghost name: seq<Byte>, ghost stored: Info)
      returns (code: int, count: int, fault: bool)
      requires mem.Length == REACH
      modifies mem
      ensures fault <==> Faults(dir, from, false, false)
      ensures StoredAt(dir, from, name, stored) ==> !fault && code == 1 && count == Entries(name) + 1
      ensures StoredAt(dir, from, name, stored) ==> CString(mem[..NAME_BYTES]) == name && Described(stored)
      ensures code == 1 ==>
        var k := from + Longs(dir, from); k < |dir| && dir[k].Short? && Live(dir[k]) && Described(dir[k].info)
      ensures Empties(dir, from) > 0 ==> !fault && code == (if Ends(dir, from + Empties(dir, from)) then -1 else 0)
      ensures Empties(dir, from) > 0 && code == 0 ==> count == Empties(dir, from)
      ensures Wellformed(dir) ==> !fault && (Empties(dir, from) == 0 ==> code == if Ends(dir, from) then -1 else 1)
      ensures from < |dir| && dir[from].Short? && Live(dir[from]) ==> !fault && code == 1 && count == 1
      ensures from < |dir| && dir[from].Short? && Live(dir[from]) ==> Described(dir[from].info)
      ensures from < |dir| && dir[from].Short? && Live(dir[from]) ==>
        CString(mem[..NAME_BYTES]) == CString(ShortText(dir[from].name) + [0])
    {
      hide Encoded, Entries, Progress, CString, Described, Wellformed, Flagged, ShortText, Faults, Longs;
      ClearName();
      ghost var n := Entries(name);
      StartProgress(mem[..], name);
      WellformedSafe(dir, from, false, false);
      ScanEnd(dir);
      var empties, given, off := 0, false, from;
      count, fault := 0, false;
      while off < |dir|
        invariant from <= off && mem.Length == REACH && !fault && (off == from ==> empties == 0 && !given)
        invariant Faults(dir, from, false, false) == Faults(dir, off, given, empties > 0)
        invariant empties == 0 ==> Longs(dir, from) == off - from + Longs(dir, off)
        invariant Empties(dir, from) > 0 ==> Empties(dir, from) == empties + Empties(dir, off) && empties == off - from
        invariant Empties(dir, from) > 0 ==> !given
        invariant Empties(dir, from) == 0 && off > from ==> from < |dir| && Live(dir[from]) && dir[from].Long?
        invariant Wellformed(dir) && Empties(dir, from) == 0 && off > from ==>
          empties == 0 && off < |dir| && Live(dir[off - 1]) && dir[off - 1].Long? && Live(dir[off])
        invariant StoredAt(dir, from, name, stored) ==>
          empties == 0 && off - from <= n && Progress(mem[..], name, n, off - from) && (given <==> off > from)
        invariant StoredAt(dir, from, name, stored) && off > from ==> count == n + 1
      {
        var e := dir[off];
        StoredHere(dir, from, name, stored, off);
        LiveShape(dir, off);
        ScanStep(dir, off, given, empties > 0);
        if First(e) == 0 {
          return -1, count, false;
        }
        if First(e) == EMPTY {
          empties := empties + 1;
        } else if empties > 0 {
          return 0, empties, given;
        } else if e.Long? {
          var place := Place(e.order);
          if (Flagged(e.order) && given) || place == 0 || place > MAX_PLACE {
            return 0, count, true;
          }
          if Flagged(e.order) {
            count, given := place + 1, true;
          }
          ReadNext(e.units, place, name, n, off - from);
        } else {
          if !given {
            count := 1;
            ReadShortName(e.name);
          }
          NameRead(mem[..], name, n);
          assert mem[..][..NAME_BYTES] == mem[..NAME_BYTES];
          ReadEntryInfo(e.info);
          return 1, count, false;
        }
        off := off + 1;
      }
      return -1, count, false;
    }
  }

  /**
   Whether enext, at entry i, goes on to write where it should not: outside the bytes it sets, for a
   place that is not 1 to 21 (before the entry for 0, onto dev and what follows from 22 on), or through
   its count pointer, which it clears at an entry marked last: at a second one of these, or at the end
   of a gap behind one.
   */
  predicate Faults(dir: seq<Entry>, i: nat, given: bool, gap: bool)
    decreases |dir| - i
  {
    if i >= |dir| || First(dir[i]) == 0 then false
    else if First(dir[i]) == EMPTY then Faults(dir, i + 1, given, true)
    else if gap then given
    else match dir[i]
      case Short(_, _) => false
      case Long(order, _) =>
        (Flagged(order) && given) || Place(order) == 0 || Place(order) > MAX_PLACE
        || Faults(dir, i + 1, given || Flagged(order), false)
  }

  lemma {:induction false} WellformedSafe(dir: seq<Entry>, i: nat, given: bool, gap: bool)
    requires given ==> i < |dir| && Live(dir[i]) && !gap && (dir[i].Long? ==> !Flagged(dir[i].order))
    ensures Wellformed(dir) ==> !Faults(dir, i, given, gap)
    decreases |dir| - i
  {
    if Wellformed(dir) && i < |dir| {
      if First(dir[i]) == EMPTY {
        WellformedSafe(dir, i + 1, given, true);
      } else if First(dir[i]) != 0 && !gap && dir[i].Long? {
        assert WellformedAt(dir, i);
        WellformedSafe(dir, i + 1, given || Flagged(dir[i].order), false);
      }
    }
  }

  predicate Ends(dir: seq<Entry>, i: nat) {
    i >= |dir| || First(dir[i]) == 0
  }

  /** How many long entries lie at i and right behind it. */
  function Longs(dir: seq<Entry>, i: nat): nat
    decreases |dir| - i
  {
    if i < |dir| && Live(dir[i]) && dir[i].Long? then 1 + Longs(dir, i + 1) else 0
  }

  lemma ScanStep(dir: seq<Entry>, i: nat, given: bool, gap: bool)
    requires i < |dir|
    ensures First(dir[i]) == 0 ==> !Faults(dir, i, given, gap)
    ensures First(dir[i]) == EMPTY ==> Faults(dir, i, given, gap) == Faults(dir, i + 1, given, true)
    ensures Live(dir[i]) && gap ==> Faults(dir, i, given, gap) == given
    ensures Live(dir[i]) && !gap && dir[i].Short? ==> !Faults(dir, i, given, gap)
    ensures Live(dir[i]) && !gap && dir[i].Long? ==> var order := dir[i].order;
      Faults(dir, i, given, gap) ==
      ((Flagged(order) && given) || Place(order) == 0 || Place(order) > MAX_PLACE
       || Faults(dir, i + 1, given || Flagged(order), false))
    ensures Longs(dir, i) == if Live(dir[i]) && dir[i].Long? then 1 + Longs(dir, i + 1) else 0
  {
    hide Flagged;
  }

  lemma ScanEnd(dir: seq<Entry>)
    ensures forall i: nat, given, gap :: i >= |dir| ==> !Faults(dir, i, given, gap)
  {
  }

  /** How many deleted entries lie at i and right behind it. */
  function Empties(dir: seq<Entry>, i: nat): nat
    decreases |dir| - i
  {
    if i < |dir| && First(dir[i]) == EMPTY then 1 + Empties(dir, i + 1) else 0
  }

  lemma StartProgress(mem: seq<Byte>, name: seq<Byte>)
    requires |mem| == REACH && forall k :: 0 <= k < NAME_BYTES ==> mem[k] == 0
    ensures Legal(name) ==> Progress(mem, name, Entries(name), 0)
  {
  }

  lemma NameRead(mem: seq<Byte>, name: seq<Byte>, n: nat)
    ensures Legal(name) && Progress(mem, name, n, n) ==> CString(mem[..NAME_BYTES]) == name
  {
    if Legal(name) && Progress(mem, name, n, n) {
      CStringIs(mem[..NAME_BYTES], name);
    }
  }

  /** Entries that begin with 0xE5 are passed over. */
  lemma {:induction false} AllDeleted(dir: seq<Entry>, i: nat)
    requires i <= |dir| && forall k :: 0 <= k < |dir| ==> First(dir[k]) == 0xE5
    ensures Empties(dir, i) == |dir| - i
    decreases |dir| - i
  {
    if i < |dir| {
      AllDeleted(dir, i + 1);
    }
  }

  lemma LiveShape(dir: seq<Entry>, i: nat)
    requires i < |dir|
    ensures Wellformed(dir) && Live(dir[i]) ==> WellformedAt(dir, i)
  {
  }

  /** The entry of a stored name under the cursor of enext. */
  lemma StoredHere(dir: seq<Entry>, from: nat, name: seq<Byte>, info: Info, off: nat)
    requires from <= off < |dir|
    ensures StoredAt(dir, from, name, info) ==> Legal(name) && Entries(name) > 0
    ensures var n := Entries(name);
      StoredAt(dir, from, name, info) && off - from < n ==>
        && Live(dir[off]) && dir[off].Long? && ReadsOn(name, dir[off].units, n, off - from, Place(dir[off].order))
        && Flagged(dir[off].order) == (off == from) && Place(dir[off].order) == n - (off - from)
  {
    if StoredAt(dir, from, name, info) && off - from < Entries(name) {
      StoredEntry(dir, from, name, info, off - from);
    }
  }

  lemma ShortEnds(b: seq<Byte>, name: ShortName, i: nat)
    requires i < |b| && b[i] == 0 && b[..i] == ShortText(name)
    ensures CString(b) == CString(ShortText(name) + [0])
  {
    hide ShortText, CString;
    CStringEnds(b, i);
    assert b[..i + 1] == b[..i] + [0];
  }

  lemma ShortParts(name: ShortName)
    ensures ShortText(name) ==
      name[..8][..Blank(name[..8], 0)] + (if name[8] != SPACE then [DOT] else []) + name[8..][..Blank(name[8..], 0)]
  {
    var ext := name[8..];
    assert ext[0] == name[8];
    assert Blank(ext, 0) == 0 <==> ext[0] == SPACE;
  }

  /** A short name without NUL is read whole. */
  lemma ShortWhole(name: ShortName)
    requires 0 !in name
    ensures CString(ShortText(name) + [0]) == ShortText(name)
  {
    CStringIs(ShortText(name) + [0], ShortText(name));
  }

  const SPACE: Byte := 0x20
  const DOT: Byte := 0x2E

  /** The first space of f from i on, |f| when there is none. */
  function Blank(f: seq<Byte>, i: nat): (r: nat)
    requires i <= |f|
    ensures i <= r <= |f|
    decreases |f| - i
  {
    if i == |f| || f[i] == SPACE then i else Blank(f, i + 1)
  }

  lemma BlankStep(f: seq<Byte>, i: nat)
    requires i < |f| && f[i] != SPACE
    ensures Blank(f, i) == Blank(f, i + 1)
  {
  }

  lemma BlankEnd(f: seq<Byte>, i: nat)
    requires i == |f| || (i < |f| && f[i] == SPACE)
    ensures Blank(f, i) == i
  {
  }

  function ShortText(name: ShortName): (r: seq<Byte>)
    ensures 0 !in name ==> 0 !in r
  {
    var base := name[..8][..Blank(name[..8], 0)];
    var ext := name[8..][..Blank(name[8..], 0)];
    if ext == [] then base else base + [DOT] + ext
  }

  /** Padding goes and a dot comes in front of the extension: AB and C give AB.C. */
  lemma ShortNameExample()
    ensures ShortText([0x41, 0x42, 0x20, 0x20, 0x20, 0x20, 0x20, 0x20, 0x43, 0x20, 0x20]) == [0x41, 0x42, 0x2E, 0x43]
  {
    var name: ShortName := [0x41, 0x42, 0x20, 0x20, 0x20, 0x20, 0x20, 0x20, 0x43, 0x20, 0x20];
    var base, ext := name[..8], name[8..];
    assert Blank(base, 2) == 2 && Blank(base, 1) == 2 && Blank(base, 0) == 2;
    assert Blank(ext, 1) == 1 && Blank(ext, 0) == 1;
    assert base[..2] == [0x41, 0x42] && ext[..1] == [0x43];
  }

  /** The entry being read is the next of the name. */
  ghost predicate ReadsOn(name: seq<Byte>, units: seq<Wide>, n: nat, d: nat, place: nat) {
    Legal(name) && n == Entries(name) && d < n && place == n - d && units == Units(name, place - 1)
  }

  // ---------------------------------------------------------------- the round trip

  /** What emake writes is a well-formed directory with the name at its start. */
  lemma WrittenStored(name: seq<Byte>, short: seq<Byte>, info: Info)
    requires Legal(name) && |short| == 11 && 0 !in short && short[0] != EMPTY && Entries(name) <= MAX_ENTRIES
    ensures var dir := Encoded(name, Entries(name)) + [Short(short, info)];
      Wellformed(dir) && StoredAt(dir, 0, name, info)
  {
    hide Units;
    var n := Entries(name);
    var dir := Encoded(name, n) + [Short(short, info)];
    assert dir[0..0 + n] == Encoded(name, n);
    forall i | 0 <= i < |dir| ensures WellformedAt(dir, i) && Live(dir[i]) {
      if i < n {
        StoredEntry(dir, 0, name, info, i);
      }
      if i + 1 < n {
        StoredEntry(dir, 0, name, info, i + 1);
      }
    }
  }

  /** Writing a name and reading it back gives the name, its number of entries, and all the entry's fields. */
  method RoundTrip(name: seq<Byte>, short: seq<Byte>, info: Info)
    returns (text: seq<Byte>, count: int, fields: Info)
    requires Legal(name) && |short| == 11 && 0 !in short && short[0] != EMPTY
    ensures text == name && count == Entries(name) + 1 && fields == info
  {
    hide Encoded, Units, Wellformed, StoredAt, InfoBytes, InfoOf;
    EntriesBound(name);
    var entries := Emake(name);
    WrittenStored(name, short, info);
    var ep := new Dirent();
    var code, fault;
    code, count, fault := ep.Enext(entries + [Short(short, info)], 0, name, info);
    text := CString(ep.mem[..NAME_BYTES]);
    InfoBack(info);
    fields := InfoOf(ep.mem[NAME_BYTES..]);
  }

  /** The names whose last entry reaches past filename, onto the attribute and the creation time. */
  lemma PastFilename(name: seq<Byte>)
    requires Legal(name)
    ensures Entries(name) * CHARS > NAME_BYTES <==> |name| > 247
  {
  }
}
