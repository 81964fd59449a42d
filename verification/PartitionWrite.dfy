/** IoWritePartitionTable, and what reading its tables back returns. */
module PartitionWrite {
  import opened Words
  import opened Arithmetic
  import opened Partitions

  /** The cylinder-head-sector bytes of a sector number: written, never read here. */
  type ChsCode = u32 -> (byte, byte, byte)

  datatype DriveLayout = DriveLayout(signature: u32, entries: seq<Entry>)
  {
    function Groups(): nat { (|entries| + 3) / 4 }
  }

  /** HalpDivBySector: a byte offset as a sector number, cut to 32 bits. */
  function Sectors(bytes: nat, sectorSize: nat): u32
    requires sectorSize > 0
  {
    bytes / sectorSize % WORD
  }

  predicate Used(e: Entry, ss: nat)
    requires ss > 0
  {
    e.kind != 0 && Sectors(e.length, ss) != 0
  }

  predicate IsLink(e: Entry, ss: nat)
    requires ss > 0
  {
    Used(e, ss) && IsExtended(e.kind)
  }

  /** The entry in slot `i` of table `g`, if the layout goes that far. */
  function SlotEntry(l: DriveLayout, g: nat, i: nat): Option<Entry> {
    if g * 4 + i < |l.entries| then Some(l.entries[g * 4 + i]) else None
  }

  /** The last link among the first `n` slots of table `g`; 0 if there is none. */
  function NextLba(l: DriveLayout, ss: nat, g: nat, n: nat): u32
    requires ss > 0
  {
    if n == 0 then 0
    else
      var e := SlotEntry(l, g, n - 1);
      if e.Some? && IsLink(e.value, ss) then Sectors(e.value.start, ss) else NextLba(l, ss, g, n - 1)
  }

  /** The sixteen bytes of a slot. */
  function EntryBytes(e: Entry, rel: u32, ss: nat, chs: ChsCode): (b: seq<byte>)
    requires ss > 0
    ensures |b| == 16
  {
    var len, absolute := Sectors(e.length, ss), Sectors(e.start, ss);
    var (h0, s0, c0) := chs(absolute);
    var (h1, s1, c1) := chs(Sub32(Add32(absolute, len), 1));
    [if e.boot then 0x80 else 0, h0, s0, c0, e.kind, h1, s1, c1] + Bytes32(rel) + Bytes32(len)
  }

  /** The sixteen bytes, one by one. */
  lemma EntryBytesAre(e: Entry, rel: u32, ss: nat, chs: ChsCode)
    requires ss > 0
    ensures var b := EntryBytes(e, rel, ss, chs);
            var first, len: u32 := e.start / ss % 0x1_0000_0000, e.length / ss % 0x1_0000_0000;
            && b[0] == (if e.boot then 0x80 else 0) && b[4] == e.kind && Le32(b, 8) == rel && Le32(b, 12) == len
            && (b[1], b[2], b[3]) == chs(first) && (b[5], b[6], b[7]) == chs((first + len - 1) % 0x1_0000_0000)
  {
    var first, len := Sectors(e.start, ss), Sectors(e.length, ss);
    LastSector(first, len);
    hide Bytes32, Sectors, Sub32, Add32;
    var (h0, s0, c0) := chs(first);
    var (h1, s1, c1) := chs(Sub32(Add32(first, len), 1));
    Sixteen([if e.boot then 0x80 else 0, h0, s0, c0, e.kind, h1, s1, c1], rel, len);
  }

  lemma LastSector(first: u32, len: u32)
    ensures Sub32(Add32(first, len), 1) == (first as int + len as int - 1) % 0x1_0000_0000
  {
  }

  lemma Sixteen(head: seq<byte>, rel: u32, len: u32)
    requires |head| == 8
    ensures var b := head + Bytes32(rel) + Bytes32(len);
            b[..8] == head && (forall i :: 0 <= i < 8 ==> b[i] == head[i]) && Le32(b, 8) == rel && Le32(b, 12) == len
  {
    hide Bytes32;
    var b, x, y := head + Bytes32(rel) + Bytes32(len), Bytes32(rel), Bytes32(len);
    assert b[8] == x[0] && b[9] == x[1] && b[10] == x[2] && b[11] == x[3];
    assert b[12] == y[0] && b[13] == y[1] && b[14] == y[2] && b[15] == y[3];
    assert Le32(x, 0) == rel && Le32(y, 0) == len;
  }

  /** A link counts from the outermost extended partition, an entry from its own table. */
  function Relative(e: Entry, ss: nat, g: nat, lba: u32, ext: u32): u32
    requires ss > 0
  {
    if !IsExtended(e.kind) then Sub32(Sectors(e.start, ss), lba)
    else if g == 0 then Sectors(e.start, ss)
    else Sub32(Sectors(e.start, ss), ext)
  }

  function SlotBytes(l: DriveLayout, ss: nat, g: nat, i: nat, lba: u32, ext: u32, chs: ChsCode): (b: seq<byte>)
    requires ss > 0
    ensures |b| == 16
  {
    var e := SlotEntry(l, g, i);
    if e.Some? && Used(e.value, ss) then EntryBytes(e.value, Relative(e.value, ss, g, lba, ext), ss, chs) else Zeros(16)
  }

  /** A slot is filled for an entry that has a type and at least one sector, and clear otherwise. */
  lemma SlotIsFilledIff(l: DriveLayout, ss: nat, g: nat, i: nat, lba: u32, ext: u32, chs: ChsCode)
    requires ss > 0 && i < 4
    ensures var b := SlotBytes(l, ss, g, i, lba, ext, chs);
            if 4 * g + i < |l.entries| && l.entries[4 * g + i].kind != 0
               && l.entries[4 * g + i].length / ss % 0x1_0000_0000 != 0
            then b[4] == l.entries[4 * g + i].kind else b == Zeros(16)
  {
  }

  /** The first `n` slots of a table, and the rest of its sixty-four bytes still clear. */
  function Slots(l: DriveLayout, ss: nat, g: nat, n: nat, lba: u32, ext: u32, chs: ChsCode): (b: seq<byte>)
    requires ss > 0 && n <= 4
    ensures |b| == 64
  {
    if n == 0 then Zeros(64)
    else Splice(Slots(l, ss, g, n - 1, lba, ext, chs), 16 * (n - 1), SlotBytes(l, ss, g, n - 1, lba, ext, chs))
  }

  function Signed(was: seq<byte>, l: DriveLayout, g: nat): (s: seq<byte>)
    requires |was| >= 512
    ensures |s| == |was|
  {
    if g == 0 then Splice(was, SIGNATURE, Bytes32(l.signature)) else was
  }

  /** Table `g` written over a sector's old contents. */
  function TableBytes(was: seq<byte>, l: DriveLayout, ss: nat, g: nat, lba: u32, ext: u32, chs: ChsCode): (s: seq<byte>)
    requires ss > 0 && |was| >= 512
    ensures |s| == |was|
  {
    Splice(Splice(Signed(was, l, g), TABLE, Slots(l, ss, g, 4, lba, ext, chs)), MAGIC, [0x55, 0xAA])
  }

  datatype Written = Written(disk: Disk, ok: bool)

  /** The tables from group `g` on; `ext` is the chain's origin once group 0 has set it. */
  function WriteFrom(d: Disk, l: DriveLayout, g: nat, lba: u32, ext: u32, ok: bool, chs: ChsCode): (w: Written)
    requires d.Valid() && g <= l.Groups()
    ensures w.disk.Valid() && w.disk.sectorSize == d.sectorSize && |w.disk.sectors| == |d.sectors| && w.disk.bad == d.bad
    decreases l.Groups() - g
  {
    if g == l.Groups() then Written(d, ok)
    else
      var ss := d.sectorSize;
      var was := if d.Read(lba).Some? then d.Read(lba).value else Zeros(ss);
      var next := NextLba(l, ss, g, 4);
      var origin := if g == 0 then next else ext;
      var after := d.Write(lba, TableBytes(was, l, ss, g, lba, origin, chs));
      if next == 0 && g + 1 < l.Groups() then Written(after, ok && d.Works(lba))
      else WriteFrom(after, l, g + 1, next, origin, ok && d.Works(lba), chs)
  }

  // ---- IoWritePartitionTable -------------------------------------------------------------------

  /** Each table in turn: keep the sector's other bytes, lay down the slots, follow the link. */
  method IoWritePartitionTable(dev: Device, sectorSize: nat, layout: DriveLayout, chs: ChsCode) returns (status: Status)
    requires dev.disk.Valid() && (512 <= sectorSize <= 4096 ==> sectorSize == dev.disk.sectorSize)
    modifies dev
    ensures sectorSize < 512 || sectorSize > 4096 ==> status == STATUS_INVALID_PARAMETER && dev.disk == old(dev.disk)
    ensures 512 <= sectorSize <= 4096 ==>
              var w := WriteFrom(old(dev.disk), layout, 0, 0, 0, true, chs);
              dev.disk == w.disk && status == if w.ok then STATUS_SUCCESS else STATUS_IO_ERROR
  {
    hide Signed, NextLba, HasMagic, TableBytes, WriteFrom;
    if sectorSize < 512 || sectorSize > 4096 {
      return STATUS_INVALID_PARAMETER;
    }
    status := STATUS_SUCCESS;
    ghost var whole := WriteFrom(dev.disk, layout, 0, 0, 0, true, chs);
    var groups := layout.Groups();
    var lba: u32, extendedStart: u32, g := 0, 0, 0;
    while g < groups
      invariant g <= groups && dev.disk.Valid() && dev.disk.sectorSize == sectorSize
      invariant status in {STATUS_SUCCESS, STATUS_IO_ERROR}
      invariant whole == WriteFrom(dev.disk, layout, g, lba, extendedStart, status == STATUS_SUCCESS, chs)
      invariant g == 0 ==> lba == 0 && extendedStart == 0
    {
      WriteNext(dev.disk, layout, g, lba, extendedStart, status == STATUS_SUCCESS, chs);
      var got := dev.disk.Read(lba);
      var was := if got.Some? then got.value else Zeros(sectorSize);
      var sector: seq<byte>, nextLba: u32;
      sector, extendedStart, nextLba := FillTable(was, layout, sectorSize, g, lba, extendedStart, chs);
      if !dev.disk.Works(lba) {
        status := STATUS_IO_ERROR;
      }
      dev.disk := dev.disk.Write(lba, sector);
      if nextLba == 0 && g + 1 < groups {
        return;
      }
      lba := nextLba;
      g := g + 1;
    }
    WriteEnd(dev.disk, layout, lba, extendedStart, status == STATUS_SUCCESS, chs);
  }

  lemma WriteEnd(d: Disk, l: DriveLayout, lba: u32, ext: u32, ok: bool, chs: ChsCode)
    ensures d.Valid() ==> WriteFrom(d, l, l.Groups(), lba, ext, ok, chs) == Written(d, ok)
  {
  }

  lemma WriteNext(d: Disk, l: DriveLayout, g: nat, lba: u32, ext: u32, ok: bool, chs: ChsCode)
    requires d.Valid() && g < l.Groups()
    ensures var ss := d.sectorSize;
            var was := if d.Read(lba).Some? then d.Read(lba).value else Zeros(ss);
            var next := NextLba(l, ss, g, 4);
            var origin := if g == 0 then next else ext;
            var after := d.Write(lba, TableBytes(was, l, ss, g, lba, origin, chs));
            WriteFrom(d, l, g, lba, ext, ok, chs) ==
            if next == 0 && g + 1 < l.Groups() then Written(after, ok && d.Works(lba))
            else WriteFrom(after, l, g + 1, next, origin, ok && d.Works(lba), chs)
  {
  }

  /** The buffer work for one table: signature, a clear table, the used slots, the magic. */
  method FillTable(was: seq<byte>, layout: DriveLayout, ss: nat, g: nat, lba: u32, extIn: u32, chs: ChsCode)
    returns (sector: seq<byte>, extendedStart: u32, nextLba: u32)
    requires ss > 0 && |was| >= 512 && (g == 0 ==> extIn == 0)
    ensures nextLba == NextLba(layout, ss, g, 4) && extendedStart == if g == 0 then nextLba else extIn
    ensures sector == TableBytes(was, layout, ss, g, lba, extendedStart, chs)
  {
    hide Slots, NextLba, IsExtended, Signed, Splice, EntryBytes, Relative, Sectors, Sub32, TableBytes, Bytes32, Used;
    extendedStart, nextLba := extIn, 0;
    sector := if g == 0 then Splice(was, SIGNATURE, Bytes32(layout.signature)) else was;
    SignedIs(was, layout, g);
    ghost var signed := sector;
    sector := Splice(sector, TABLE, Zeros(64));
    SlotsNext(layout, ss, g, 0, lba, extIn, chs);
    var i := 0;
    while i < 4 && g * 4 + i < |layout.entries|
      invariant i <= 4
      invariant nextLba == NextLba(layout, ss, g, i) && extendedStart == if g == 0 then nextLba else extIn
      invariant sector == Splice(signed, TABLE, Slots(layout, ss, g, i, lba, extIn, chs))
    {
      var e := layout.entries[g * 4 + i];
      var len, absolute := Sectors(e.length, ss), Sectors(e.start, ss);
      SlotsNext(layout, ss, g, i, lba, extIn, chs);
      RelativeIs(e, ss, g, lba, extIn);
      if e.kind != 0 && len != 0 {
        var rel: u32;
        if IsExtended(e.kind) {
          if g == 0 {
            extendedStart := absolute;
          }
          rel := if g == 0 then absolute else Sub32(absolute, extendedStart);
          nextLba := absolute;
        } else {
          rel := Sub32(absolute, lba);
        }
        sector := Splice(sector, TABLE + 16 * i, EntryBytes(e, rel, ss, chs));
        SpliceWithin(signed, TABLE, Slots(layout, ss, g, i, lba, extIn, chs), 16 * i, EntryBytes(e, rel, ss, chs));
      }
      i := i + 1;
    }
    SlotsPast(layout, ss, g, i, lba, extIn, chs);
    SlotsIgnoreOrigin(layout, ss, g, 4, lba, extIn, extendedStart, chs);
    TableIs(was, layout, ss, g, lba, extendedStart, chs);
    sector := Splice(sector, MAGIC, [0x55, 0xAA]);
  }

  lemma SignedIs(was: seq<byte>, l: DriveLayout, g: nat)
    ensures |was| >= 512 ==> Signed(was, l, g) == if g == 0 then Splice(was, SIGNATURE, Bytes32(l.signature)) else was
  {
  }

  lemma TableIs(was: seq<byte>, l: DriveLayout, ss: nat, g: nat, lba: u32, ext: u32, chs: ChsCode)
    requires ss > 0 && |was| >= 512
    ensures TableBytes(was, l, ss, g, lba, ext, chs) ==
            Splice(Splice(Signed(was, l, g), TABLE, Slots(l, ss, g, 4, lba, ext, chs)), MAGIC, [0x55, 0xAA])
  {
  }

  lemma RelativeIs(e: Entry, ss: nat, g: nat, lba: u32, ext: u32)
    requires ss > 0
    ensures Used(e, ss) == (e.kind != 0 && Sectors(e.length, ss) != 0)
    ensures Relative(e, ss, g, lba, ext) ==
            if !IsExtended(e.kind) then Sub32(Sectors(e.start, ss), lba)
            else if g == 0 then Sectors(e.start, ss)
            else Sub32(Sectors(e.start, ss), ext)
  {
  }

  lemma SlotsNext(l: DriveLayout, ss: nat, g: nat, i: nat, lba: u32, ext: u32, chs: ChsCode)
    requires ss > 0 && i < 4
    ensures Slots(l, ss, g, 0, lba, ext, chs) == Zeros(64) && NextLba(l, ss, g, 0) == 0
    ensures var e := SlotEntry(l, g, i);
            && NextLba(l, ss, g, i + 1) == (if e.Some? && IsLink(e.value, ss) then Sectors(e.value.start, ss) else NextLba(l, ss, g, i))
            && Slots(l, ss, g, i + 1, lba, ext, chs) ==
               (if e.Some? && Used(e.value, ss) then
                  Splice(Slots(l, ss, g, i, lba, ext, chs), 16 * i, EntryBytes(e.value, Relative(e.value, ss, g, lba, ext), ss, chs))
                else Slots(l, ss, g, i, lba, ext, chs))
  {
    SlotsClear(l, ss, g, i, lba, ext, chs);
    var s := Slots(l, ss, g, i, lba, ext, chs);
    assert Splice(s, 16 * i, Zeros(16)) == s;
  }

  lemma {:induction false} SlotsClear(l: DriveLayout, ss: nat, g: nat, n: nat, lba: u32, ext: u32, chs: ChsCode)
    requires ss > 0 && n <= 4
    ensures forall j :: 16 * n <= j < 64 ==> Slots(l, ss, g, n, lba, ext, chs)[j] == 0
  {
    hide SlotBytes;
    if n > 0 {
      SlotsClear(l, ss, g, n - 1, lba, ext, chs);
    }
  }

  /** Slots past the end of the layout add nothing. */
  lemma {:induction false} SlotsPast(l: DriveLayout, ss: nat, g: nat, n: nat, lba: u32, ext: u32, chs: ChsCode)
    requires ss > 0 && n <= 4 && (n == 4 || g * 4 + n >= |l.entries|)
    ensures NextLba(l, ss, g, 4) == NextLba(l, ss, g, n)
    ensures Slots(l, ss, g, 4, lba, ext, chs) == Slots(l, ss, g, n, lba, ext, chs)
    decreases 4 - n
  {
    hide Slots, NextLba;
    if n < 4 {
      SlotsPast(l, ss, g, n + 1, lba, ext, chs);
      SlotsNext(l, ss, g, n, lba, ext, chs);
    }
  }

  /** The master boot record's slots do not depend on the chain's origin. */
  lemma {:induction false} SlotsIgnoreOrigin(l: DriveLayout, ss: nat, g: nat, n: nat, lba: u32, a: u32, b: u32, chs: ChsCode)
    requires ss > 0 && n <= 4 && (g == 0 || a == b)
    ensures Slots(l, ss, g, n, lba, a, chs) == Slots(l, ss, g, n, lba, b, chs)
  {
    hide EntryBytes;
    if n > 0 {
      SlotsIgnoreOrigin(l, ss, g, n - 1, lba, a, b, chs);
    }
  }

  lemma SpliceWithin(s: seq<byte>, at: nat, d: seq<byte>, off: nat, x: seq<byte>)
    ensures at + |d| <= |s| && off + |x| <= |d| ==> Splice(Splice(s, at, d), at + off, x) == Splice(s, at, Splice(d, off, x))
  {
  }

  // ---- layouts that make one chain -------------------------------------------------------------

  /** The sector table `g` goes to. */
  function LbaOf(l: DriveLayout, ss: nat, g: nat): u32
    requires ss > 0
  {
    if g == 0 then 0 else NextLba(l, ss, g - 1, 4)
  }

  /** The chain's origin: the outermost extended partition. */
  function Origin(l: DriveLayout, ss: nat): u32
    requires ss > 0
  {
    NextLba(l, ss, 0, 4)
  }

  predicate HasLink(l: DriveLayout, ss: nat, g: nat, n: nat)
    requires ss > 0
  {
    exists i :: 0 <= i < n && SlotEntry(l, g, i).Some? && IsLink(SlotEntry(l, g, i).value, ss)
  }

  /** Every table has a sector of its own that works, each is named by the link before it, and the
      last has no link. */
  ghost predicate WellFormed(d: Disk, l: DriveLayout)
    requires d.Valid()
  {
    var ss := d.sectorSize;
    && 1 <= |l.entries| <= PARTITION_MAX
    && (forall g :: 0 <= g < l.Groups() ==> d.Works(LbaOf(l, ss, g)))
    && (forall g, h :: 0 <= g < h < l.Groups() ==> LbaOf(l, ss, g) != LbaOf(l, ss, h))
    && !HasLink(l, ss, l.Groups() - 1, 4)
  }

  lemma {:induction false} NoLinkIsZero(l: DriveLayout, ss: nat, g: nat, n: nat)
    requires ss > 0
    ensures !HasLink(l, ss, g, n) ==> NextLba(l, ss, g, n) == 0
  {
    if n > 0 {
      NoLinkIsZero(l, ss, g, n - 1);
      assert HasLink(l, ss, g, n - 1) ==> HasLink(l, ss, g, n);
    }
  }

  /** A chain's table that is not the last names a sector other than the master boot record's. */
  lemma ChainHasLinks(d: Disk, l: DriveLayout, g: nat)
    requires d.Valid() && WellFormed(d, l) && g + 1 < l.Groups()
    ensures NextLba(l, d.sectorSize, g, 4) == LbaOf(l, d.sectorSize, g + 1) != 0
    ensures HasLink(l, d.sectorSize, g, 4)
  {
    assert LbaOf(l, d.sectorSize, 0) != LbaOf(l, d.sectorSize, g + 1);
    NoLinkIsZero(l, d.sectorSize, g, 4);
  }

  // ---- the disk afterwards ---------------------------------------------------------------------

  /** What table `g` is once written over disk `d`. */
  function TableOf(d: Disk, l: DriveLayout, g: nat, chs: ChsCode): (s: seq<byte>)
    requires d.Valid() && d.Works(LbaOf(l, d.sectorSize, g))
    ensures |s| == d.sectorSize
  {
    var ss := d.sectorSize;
    TableBytes(d.sectors[LbaOf(l, ss, g)], l, ss, g, LbaOf(l, ss, g), Origin(l, ss), chs)
  }

  /** Disk `now` has tables below `g` written and is otherwise disk `d`. */
  ghost predicate TablesWritten(d: Disk, now: Disk, l: DriveLayout, g: nat, chs: ChsCode)
    requires d.Valid() && WellFormed(d, l) && g <= l.Groups()
  {
    var ss := d.sectorSize;
    && now.Valid() && now.sectorSize == ss && now.bad == d.bad && |now.sectors| == |d.sectors|
    && (forall h :: 0 <= h < g ==> now.sectors[LbaOf(l, ss, h)] == TableOf(d, l, h, chs))
    && (forall s :: 0 <= s < |d.sectors| && (forall h :: 0 <= h < g ==> LbaOf(l, ss, h) != s) ==> now.sectors[s] == d.sectors[s])
  }

  lemma OneTableMore(d: Disk, now: Disk, l: DriveLayout, g: nat, chs: ChsCode)
    requires d.Valid() && WellFormed(d, l) && g < l.Groups() && TablesWritten(d, now, l, g, chs)
    ensures now.Works(LbaOf(l, d.sectorSize, g)) && now.sectors[LbaOf(l, d.sectorSize, g)] == d.sectors[LbaOf(l, d.sectorSize, g)]
    ensures TablesWritten(d, now.Write(LbaOf(l, d.sectorSize, g), TableOf(d, l, g, chs)), l, g + 1, chs)
  {
    hide LbaOf, TableOf, HasLink;
    assert forall h :: 0 <= h < g ==> LbaOf(l, d.sectorSize, h) != LbaOf(l, d.sectorSize, g);
  }

  /** Writing a well-formed layout succeeds, puts every table in its sector and changes no other. */
  lemma {:induction false} WriteLaysTables(d: Disk, now: Disk, l: DriveLayout, g: nat, chs: ChsCode)
    requires d.Valid() && WellFormed(d, l) && g <= l.Groups() && TablesWritten(d, now, l, g, chs)
    ensures var w := WriteFrom(now, l, g, if g == l.Groups() then 0 else LbaOf(l, d.sectorSize, g),
                               if g == 0 then 0 else Origin(l, d.sectorSize), true, chs);
            w.ok && TablesWritten(d, w.disk, l, l.Groups(), chs)
    decreases l.Groups() - g
  {
    hide TablesWritten, TableBytes, WriteFrom, NextLba;
    var ss := d.sectorSize;
    if g < l.Groups() {
      WrittenKeepsShape(d, now, l, g, chs);
      OneTableMore(d, now, l, g, chs);
      WriteNext(now, l, g, LbaOf(l, ss, g), if g == 0 then 0 else Origin(l, ss), true, chs);
      WriteLaysTables(d, now.Write(LbaOf(l, ss, g), TableOf(d, l, g, chs)), l, g + 1, chs);
      if g + 1 < l.Groups() {
        ChainHasLinks(d, l, g);
      } else {
        NoLinkIsZero(l, ss, g, 4);
      }
    } else {
      WrittenKeepsShape(d, now, l, g, chs);
      WriteEnd(now, l, 0, Origin(l, ss), true, chs);
    }
  }

  lemma WrittenKeepsShape(d: Disk, now: Disk, l: DriveLayout, g: nat, chs: ChsCode)
    requires d.Valid() && WellFormed(d, l) && g <= l.Groups() && TablesWritten(d, now, l, g, chs)
    ensures now.Valid() && now.sectorSize == d.sectorSize && now.bad == d.bad && |now.sectors| == |d.sectors|
    ensures l.Groups() > 0
  {
  }

  // ---- reading it back -------------------------------------------------------------------------

  lemma {:induction false} SlotsAt(l: DriveLayout, ss: nat, g: nat, n: nat, i: nat, lba: u32, ext: u32, chs: ChsCode)
    requires ss > 0 && i < n <= 4
    ensures Slots(l, ss, g, n, lba, ext, chs)[16 * i..16 * i + 16] == SlotBytes(l, ss, g, i, lba, ext, chs)
    decreases n
  {
    hide SlotBytes;
    if i + 1 < n {
      SlotsAt(l, ss, g, n - 1, i, lba, ext, chs);
      SpliceElsewhere(Slots(l, ss, g, n - 1, lba, ext, chs), 16 * (n - 1), SlotBytes(l, ss, g, n - 1, lba, ext, chs), 16 * i, 16);
    }
  }

  lemma SpliceElsewhere(s: seq<byte>, at: nat, d: seq<byte>, off: nat, n: nat)
    requires at + |d| <= |s| && off + n <= |s| && (off + n <= at || at + |d| <= off)
    ensures Splice(s, at, d)[off..off + n] == s[off..off + n]
  {
  }

  lemma SpliceSlice(s: seq<byte>, at: nat, d: seq<byte>, off: nat, n: nat)
    ensures at + |d| <= |s| && off + n <= |d| ==> Splice(s, at, d)[at + off..at + off + n] == d[off..off + n]
  {
  }

  lemma TableAt(was: seq<byte>, l: DriveLayout, ss: nat, g: nat, i: nat, lba: u32, ext: u32, chs: ChsCode)
    requires ss > 0 && i < 4 && |was| >= 512
    ensures TableBytes(was, l, ss, g, lba, ext, chs)[TABLE + 16 * i..TABLE + 16 * i + 16] == SlotBytes(l, ss, g, i, lba, ext, chs)
    ensures HasMagic(TableBytes(was, l, ss, g, lba, ext, chs))
  {
    hide SlotBytes, Slots, Signed;
    SlotsAt(l, ss, g, 4, i, lba, ext, chs);
    var t := TableBytes(was, l, ss, g, lba, ext, chs);
    var slots := Slots(l, ss, g, 4, lba, ext, chs);
    var d := Splice(Signed(was, l, g), TABLE, slots);
    SpliceElsewhere(d, MAGIC, [0x55, 0xAA], TABLE + 16 * i, 16);
    SpliceSlice(Signed(was, l, g), TABLE, slots, 16 * i, 16);
  }

  /** What an entry's sixteen bytes say. */
  lemma SlotSays(s: seq<byte>, i: nat, b: seq<byte>)
    requires |s| >= 512 && i < 4 && |b| == 16 && s[TABLE + 16 * i..TABLE + 16 * i + 16] == b
    ensures KindAt(s, i) == b[4] && BootAt(s, i) == (b[0] >= 0x80)
    ensures RelAt(s, i) == Le32(b, 8) && LengthAt(s, i) == Le32(b, 12)
  {
    assert forall j :: 0 <= j < 16 ==> s[TABLE + 16 * i + j] == b[j];
  }

  lemma EntrySays(e: Entry, rel: u32, ss: nat, chs: ChsCode)
    requires ss > 0
    ensures var b := EntryBytes(e, rel, ss, chs);
            b[4] == e.kind && (b[0] >= 0x80) == e.boot && Le32(b, 8) == rel && Le32(b, 12) == Sectors(e.length, ss)
  {
  }

  /** The four fields of slot `i` of a written table. */
  lemma TableSays(was: seq<byte>, l: DriveLayout, ss: nat, g: nat, i: nat, lba: u32, ext: u32, chs: ChsCode)
    requires ss > 0 && i < 4 && |was| >= 512
    ensures var s, e := TableBytes(was, l, ss, g, lba, ext, chs), SlotEntry(l, g, i);
            var used := e.Some? && Used(e.value, ss);
            && HasMagic(s)
            && KindAt(s, i) == (if used then e.value.kind else 0)
            && BootAt(s, i) == (used && e.value.boot)
            && RelAt(s, i) == (if used then Relative(e.value, ss, g, lba, ext) else 0)
            && LengthAt(s, i) == (if used then Sectors(e.value.length, ss) else 0)
  {
    hide TableBytes, EntryBytes, KindAt, BootAt, RelAt, LengthAt, HasMagic, Relative;
    TableAt(was, l, ss, g, i, lba, ext, chs);
    SlotSays(TableBytes(was, l, ss, g, lba, ext, chs), i, SlotBytes(l, ss, g, i, lba, ext, chs));
    var e := SlotEntry(l, g, i);
    if e.Some? && Used(e.value, ss) {
      EntrySays(e.value, Relative(e.value, ss, g, lba, ext), ss, chs);
    }
  }

  lemma LinkSays(was: seq<byte>, l: DriveLayout, ss: nat, g: nat, i: nat, lba: u32, ext: u32, chs: ChsCode)
    requires ss > 0 && i < 4 && |was| >= 512
    ensures var s, e := TableBytes(was, l, ss, g, lba, ext, chs), SlotEntry(l, g, i);
            && (IsExtended(KindAt(s, i)) <==> e.Some? && IsLink(e.value, ss))
            && (IsExtended(KindAt(s, i)) ==>
                  (if g == 0 then RelAt(s, i) else Add32(ext, RelAt(s, i))) == Sectors(e.value.start, ss))
  {
    hide TableBytes, KindAt, RelAt, IsExtended, Add32, Sub32, Sectors;
    TableSays(was, l, ss, g, i, lba, ext, chs);
    var e := SlotEntry(l, g, i);
    if e.Some? && Used(e.value, ss) {
      AddSub(ext, Sectors(e.value.start, ss));
    } else {
      NotExtended();
    }
  }

  /** A written table's links lead where the layout's do. */
  lemma {:induction false} LinksReadBack(was: seq<byte>, l: DriveLayout, ss: nat, g: nat, n: nat, lba: u32, chs: ChsCode)
    requires ss > 0 && n <= 4 && |was| >= 512
    ensures var s := TableBytes(was, l, ss, g, lba, Origin(l, ss), chs);
            var c := Cursor(lba, if g == 0 then 0 else Origin(l, ss), g == 0);
            && LinkOf(s, c, n).next == (if HasLink(l, ss, g, n) then Some(NextLba(l, ss, g, n)) else None)
            && LinkOf(s, c, n).ext == (if g == 0 then NextLba(l, ss, 0, n) else Origin(l, ss))
  {
    hide TableBytes, KindAt, RelAt, IsExtended, IsLink, Add32, NextLba, LinkOf, HasLink, Slots, Origin;
    var s := TableBytes(was, l, ss, g, lba, Origin(l, ss), chs);
    var c := Cursor(lba, if g == 0 then 0 else Origin(l, ss), g == 0);
    if n > 0 {
      LinksReadBack(was, l, ss, g, n - 1, lba, chs);
      LinkSays(was, l, ss, g, n - 1, lba, Origin(l, ss), chs);
      LinkNext(s, c, n - 1);
      HasLinkNext(l, ss, g, n - 1);
      SlotsNext(l, ss, g, n - 1, lba, 0, chs);
    } else {
      NoLink(s, c);
      NoLinkYet(l, ss, g);
    }
  }

  lemma NoLinkYet(l: DriveLayout, ss: nat, g: nat)
    ensures ss > 0 ==> !HasLink(l, ss, g, 0) && NextLba(l, ss, g, 0) == 0
  {
  }

  lemma NotExtended()
    ensures !IsExtended(0)
  {
  }

  lemma HasLinkNext(l: DriveLayout, ss: nat, g: nat, i: nat)
    requires ss > 0
    ensures HasLink(l, ss, g, i + 1) <==>
            HasLink(l, ss, g, i) || (SlotEntry(l, g, i).Some? && IsLink(SlotEntry(l, g, i).value, ss))
  {
    hide IsLink, SlotEntry;
    if SlotEntry(l, g, i).Some? && IsLink(SlotEntry(l, g, i).value, ss) {
      assert HasLink(l, ss, g, i + 1);
    }
  }

  ghost function TableAtGroup(d: Disk, l: DriveLayout, g: nat, chs: ChsCode): Table
    requires d.Valid() && d.Works(LbaOf(l, d.sectorSize, g))
  {
    Table(Cursor(LbaOf(l, d.sectorSize, g), if g == 0 then 0 else Origin(l, d.sectorSize), g == 0), TableOf(d, l, g, chs))
  }

  /** A reader that starts at table `g` visits exactly the tables from `g` on. */
  lemma {:induction false} ReaderFollowsWriter(d: Disk, now: Disk, l: DriveLayout, g: nat, limit: nat, chs: ChsCode)
    requires d.Valid() && WellFormed(d, l) && g < l.Groups() && TablesWritten(d, now, l, l.Groups(), chs)
    requires limit >= l.Groups() - g
    ensures now.Valid()
    ensures var ts := Tables(now, TableAtGroup(d, l, g, chs).at, limit);
            |ts| == l.Groups() - g && forall h :: 0 <= h < |ts| ==> ts[h] == TableAtGroup(d, l, g + h, chs)
    decreases l.Groups() - g
  {
    hide TableBytes, HasMagic, LinkOf, HasLink, NextLba, IsExtended, Tables, TablesWritten, TableOf, LbaOf, Origin, WellFormed;
    TableIsRead(d, now, l, g, chs);
    var t := TableAtGroup(d, l, g, chs);
    TablesNext(now, t.at, limit);
    AfterIs(now, t.at, t.sector, limit);
    if g + 1 < l.Groups() {
      ReaderFollowsWriter(d, now, l, g + 1, limit - 1, chs);
    }
  }

  /** Table `g` as a reader finds it: readable, signed, and linked to the next one if there is one. */
  lemma TableIsRead(d: Disk, now: Disk, l: DriveLayout, g: nat, chs: ChsCode)
    requires d.Valid() && WellFormed(d, l) && g < l.Groups() && TablesWritten(d, now, l, l.Groups(), chs)
    ensures now.Valid() && d.Works(LbaOf(l, d.sectorSize, g))
    ensures var t := TableAtGroup(d, l, g, chs);
            && now.Read(t.at.base) == Some(t.sector) && |t.sector| >= 512 && HasMagic(t.sector)
            && t.at == Cursor(LbaOf(l, d.sectorSize, g), if g == 0 then 0 else Origin(l, d.sectorSize), g == 0)
            && (if g + 1 < l.Groups() then
                  && LinkOf(t.sector, t.at, 4) == Link(Origin(l, d.sectorSize), Some(LbaOf(l, d.sectorSize, g + 1)))
                  && LbaOf(l, d.sectorSize, g + 1) != t.at.base && d.Works(LbaOf(l, d.sectorSize, g + 1))
                else LinkOf(t.sector, t.at, 4).next.None?)
  {
    hide TableBytes, HasMagic, LinkOf, HasLink, NextLba, IsExtended;
    var ss := d.sectorSize;
    var lba := LbaOf(l, ss, g);
    TableSays(d.sectors[lba], l, ss, g, 0, lba, Origin(l, ss), chs);
    LinksReadBack(d.sectors[lba], l, ss, g, 4, lba, chs);
    if g + 1 < l.Groups() {
      ChainHasLinks(d, l, g);
      assert LbaOf(l, ss, g) != LbaOf(l, ss, g + 1);
    }
  }

  /** How many of the first `k` entries are recognised and used. */
  function Counted(l: DriveLayout, ss: nat, k: nat): nat
    requires ss > 0
  {
    if k == 0 then 0
    else Counted(l, ss, k - 1) +
         if k <= |l.entries| && Used(l.entries[k - 1], ss) && IsRecognized(l.entries[k - 1].kind) then 1 else 0
  }

  /** Entry `k` as it should come back: a used entry as it was given, to the sector, and numbered by
      its place among the recognised ones; an unused slot as nothing at its own table's position. */
  ghost function ComesBack(l: DriveLayout, ss: nat, k: nat): Entry
    requires ss > 0
  {
    var g := k / 4;
    if k < |l.entries| && Used(l.entries[k], ss) then
      var e := l.entries[k];
      Entry(Sectors(e.start, ss) * ss, Sectors(e.length, ss) * ss, Relative(e, ss, g, LbaOf(l, ss, g), Origin(l, ss)),
            if IsRecognized(e.kind) then Counted(l, ss, k + 1) else 0, e.kind, e.boot, IsRecognized(e.kind))
    else Entry(LbaOf(l, ss, g) * ss, 0, 0, 0, 0, false, false)
  }

  lemma AddSub(a: u32, b: u32)
    ensures Add32(a, Sub32(b, a)) == b && Add32(0, b) == b && Add32(a, 0) == a
  {
  }

  lemma SlotComesBack(d: Disk, l: DriveLayout, k: nat, number: nat, chs: ChsCode)
    requires d.Valid() && WellFormed(d, l) && k < 4 * l.Groups()
    ensures var ss := d.sectorSize;
            var t := TableAtGroup(d, l, k / 4, chs);
            && Describe(t, k % 4, ss, if IsRecognized(KindAt(t.sector, k % 4)) then number else 0) ==
               (var e := ComesBack(l, ss, k); e.(number := if e.recognized then number else 0))
            && (IsRecognized(KindAt(t.sector, k % 4)) <==>
                  k < |l.entries| && Used(l.entries[k], ss) && IsRecognized(l.entries[k].kind))
  {
    hide TableBytes, HasLink, NextLba, KindAt, RelAt, LengthAt, BootAt, HasMagic, Add32, Sub32, Sectors;
    var ss, g, i := d.sectorSize, k / 4, k % 4;
    var lba := LbaOf(l, ss, g);
    TableSays(d.sectors[lba], l, ss, g, i, lba, Origin(l, ss), chs);
    if k < |l.entries| {
      AddSub(lba, Sectors(l.entries[k].start, ss));
      AddSub(Origin(l, ss), Sectors(l.entries[k].start, ss));
    }
    AddSub(lba, 0);
  }

  lemma {:induction false} NumbersComeBack(d: Disk, ts: seq<Table>, l: DriveLayout, k: nat, chs: ChsCode)
    requires d.Valid() && WellFormed(d, l) && k <= 4 * l.Groups() && Sized(ts) && |ts| == l.Groups()
    requires forall g :: 0 <= g < |ts| ==> ts[g] == TableAtGroup(d, l, g, chs)
    ensures Numbered(ts, false, k) == Counted(l, d.sectorSize, k)
  {
    hide TableAtGroup, Describe, Used, KindAt, Sized, HasLink, WellFormed, IsRecognized;
    if k > 0 {
      NumbersComeBack(d, ts, l, k - 1, chs);
      SlotComesBack(d, l, k - 1, 0, chs);
      NumberedNext(ts, k - 1);
    }
  }

  lemma NumberedNext(ts: seq<Table>, k: nat)
    requires Sized(ts) && k < 4 * |ts|
    ensures |ts[k / 4].sector| >= 512
    ensures Numbered(ts, false, k + 1) == Numbered(ts, false, k) + if IsRecognized(KindAt(ts[k / 4].sector, k % 4)) then 1 else 0
  {
  }

  /** Writing a well-formed layout and reading the disk again gives every used entry back with its
      start, length, type, boot flag and number, four entries to each table written. */
  lemma WriteThenRead(d: Disk, l: DriveLayout, chs: ChsCode)
    requires d.Valid() && WellFormed(d, l)
    ensures var w := WriteFrom(d, l, 0, 0, 0, true, chs);
            && w.ok
            && |TablesOf(w.disk)| == l.Groups() && |LayoutOf(w.disk)| == 4 * l.Groups()
            && (forall k :: 0 <= k < 4 * l.Groups() ==> LayoutOf(w.disk)[k] == ComesBack(l, d.sectorSize, k))
            && Le32(TablesOf(w.disk)[0].sector, SIGNATURE) == l.signature
  {
    hide TableBytes, HasLink, NextLba, Describe, Layout, Tables, Numbered, Counted, Used, ComesBack, Slots, WellFormed, IsRecognized, KindAt, TableAtGroup, TablesWritten;
    var w := WriteFrom(d, l, 0, 0, 0, true, chs);
    var ts := TablesOf(w.disk);
    TablesReadBack(d, l, chs);
    FullLayoutIsSlots(ts, d.sectorSize, 4 * |ts|);
    forall k | 0 <= k < 4 * l.Groups()
      ensures LayoutOf(w.disk)[k] == ComesBack(l, d.sectorSize, k)
    {
      EntryReadsBack(d, ts, l, k, chs);
    }
    SignatureStays(d, l, chs);
  }

  /** The two routines one after the other. */
  method WriteAndRead(dev: Device, layout: DriveLayout, chs: ChsCode)
    returns (wrote: Status, status: Status, entries: seq<Entry>, signature: u32)
    requires dev.disk.Valid() && WellFormed(dev.disk, layout)
    modifies dev
    ensures wrote == status == STATUS_SUCCESS && signature == layout.signature
    ensures |entries| == 4 * layout.Groups()
    ensures forall k :: 0 <= k < |entries| ==> entries[k] == ComesBack(layout, old(dev.disk).sectorSize, k)
  {
    hide WellFormed, ComesBack, Layout, Tables;
    var ss := dev.disk.sectorSize;
    WriteThenRead(dev.disk, layout, chs);
    TablesReadBack(dev.disk, layout, chs);
    wrote := IoWritePartitionTable(dev, ss, layout, chs);
    status, entries, signature := IoReadPartitionTable(dev, ss, false);
  }

  lemma TablesReadBack(d: Disk, l: DriveLayout, chs: ChsCode)
    requires d.Valid() && WellFormed(d, l)
    ensures var w := WriteFrom(d, l, 0, 0, 0, true, chs);
            var ts := TablesOf(w.disk);
            && d.Works(0) && w.ok && 0 < |ts| == l.Groups() <= 16 && TablesWritten(d, w.disk, l, l.Groups(), chs)
            && (forall g :: 0 <= g < |ts| ==> ts[g] == TableAtGroup(d, l, g, chs))
            && ts[0].sector == TableOf(d, l, 0, chs)
  {
    hide TableBytes, HasLink, NextLba, WriteFrom, Tables;
    assert d.Works(LbaOf(l, d.sectorSize, 0));
    WriteLaysTables(d, d, l, 0, chs);
    ReaderFollowsWriter(d, WriteFrom(d, l, 0, 0, 0, true, chs).disk, l, 0, TABLES_MAX, chs);
  }

  lemma EntryReadsBack(d: Disk, ts: seq<Table>, l: DriveLayout, k: nat, chs: ChsCode)
    requires d.Valid() && WellFormed(d, l) && k < 4 * l.Groups() && Sized(ts) && |ts| == l.Groups()
    requires forall g :: 0 <= g < |ts| ==> ts[g] == TableAtGroup(d, l, g, chs)
    ensures Describe(ts[k / 4], k % 4, d.sectorSize, if IsRecognized(Kind(ts, k)) then Numbered(ts, false, k + 1) else 0) ==
            ComesBack(l, d.sectorSize, k)
  {
    hide TableAtGroup, Describe, Numbered, KindAt, WellFormed, IsRecognized;
    NumbersComeBack(d, ts, l, k + 1, chs);
    SlotComesBack(d, l, k, Counted(l, d.sectorSize, k + 1), chs);
  }

  lemma SignatureStays(d: Disk, l: DriveLayout, chs: ChsCode)
    requires d.Valid() && d.Works(0)
    ensures Le32(TableOf(d, l, 0, chs), SIGNATURE) == l.signature
  {
    hide Slots;
    var b := Bytes32(l.signature);
    var t := TableOf(d, l, 0, chs);
    assert forall j :: 0 <= j < 4 ==> t[SIGNATURE + j] == b[j];
  }

  /** Outside the signature, the table and the magic the sectors of the tables keep their bytes, and
      every other sector keeps all of them. */
  lemma WriteKeepsTheRest(d: Disk, l: DriveLayout, chs: ChsCode, s: nat, at: nat)
    requires d.Valid() && WellFormed(d, l) && s < |d.sectors| && at < d.sectorSize
    ensures var after := WriteFrom(d, l, 0, 0, 0, true, chs).disk;
            && |after.sectors| == |d.sectors| && |after.sectors[s]| == d.sectorSize
            && (after.sectors[s][at] == d.sectors[s][at]
                || ((TABLE <= at < MAGIC + 2 || (s == 0 && SIGNATURE <= at < SIGNATURE + 4))
                    && exists g :: 0 <= g < l.Groups() && LbaOf(l, d.sectorSize, g) == s))
  {
    hide HasLink, NextLba, WriteFrom, Slots, LbaOf;
    WriteLaysTables(d, d, l, 0, chs);
    MasterIsZero(l, d.sectorSize);
    if g :| 0 <= g < l.Groups() && LbaOf(l, d.sectorSize, g) == s {
      assert d.Works(LbaOf(l, d.sectorSize, g));
      assert g != 0 ==> s != 0;
    }
  }

  lemma MasterIsZero(l: DriveLayout, ss: nat)
    ensures ss > 0 ==> LbaOf(l, ss, 0) == 0
  {
  }

  /** An entry whose position and length are whole sectors comes back exactly. */
  lemma WholeSectorsComeBack(l: DriveLayout, ss: nat, k: nat)
    requires ss > 0 && k < |l.entries|
    requires var e := l.entries[k]; e.kind != 0 && e.length > 0 && e.start % ss == 0 && e.length % ss == 0
    requires l.entries[k].start < WORD * ss && l.entries[k].length < WORD * ss
    ensures var e, b := l.entries[k], ComesBack(l, ss, k);
            b.start == e.start && b.length == e.length && b.kind == e.kind && b.boot == e.boot
  {
    var e := l.entries[k];
    WholeSectors(e.start, ss);
    WholeSectors(e.length, ss);
  }

  lemma WholeSectors(n: nat, ss: nat)
    requires ss > 0 && n % ss == 0 && n < WORD * ss
    ensures Sectors(n, ss) * ss == n && (n > 0 ==> Sectors(n, ss) > 0)
  {
    DivMod(n, ss);
    DivBound(n, ss, WORD);
  }
}
