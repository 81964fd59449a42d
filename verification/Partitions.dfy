/** Partition tables: the master boot record and the chain of extended boot records behind it, as
    IoReadPartitionTable, HalpFindPartition, IoSetPartitionInformation and IoWritePartitionTable
    walk and change them. */
module Partitions {
  import opened Words

  const TABLE := 0x1BE
  const SIGNATURE := 0x1B8
  const MAGIC := 0x1FE
  const PARTITION_MAX := 64
  const TABLES_MAX := 65

  datatype Status = STATUS_SUCCESS | STATUS_INVALID_PARAMETER | STATUS_UNSUCCESSFUL | STATUS_IO_ERROR | STATUS_NOT_FOUND

  // ---- the disk and its tables -----------------------------------------------------------------

  /** A disk in sectors of the size its callers ask for, as I/O of that size finds it, whatever the
      drive's own sectors are: past its end or on a bad sector it fails. */
  datatype Disk = Disk(sectorSize: nat, sectors: seq<seq<byte>>, bad: set<u32>)
  {
    ghost predicate Valid() {
      512 <= sectorSize <= 4096 && forall i :: 0 <= i < |sectors| ==> |sectors[i]| == sectorSize
    }

    predicate Works(lba: u32) { lba < |sectors| && lba !in bad }

    function Read(lba: u32): Option<seq<byte>> {
      if Works(lba) then Some(sectors[lba]) else None
    }

    function Write(lba: u32, s: seq<byte>): (d: Disk)
      requires |s| == sectorSize
      ensures Valid() ==> d.Valid()
    {
      if Works(lba) then this.(sectors := sectors[lba := s]) else this
    }
  }

  predicate IsExtended(kind: byte) { kind == 0x05 || kind == 0x0F }

  /** NT's IsRecognizedPartition: a file-system type, fault-tolerance bits aside. */
  predicate IsRecognized(kind: byte) {
    var base := if kind >= 0x80 then kind % 0x40 else kind;
    base in {0x01, 0x04, 0x06, 0x07, 0x0B, 0x0C, 0x0E}
  }

  function KindAt(s: seq<byte>, i: nat): byte
    requires |s| >= 512 && i < 4
  {
    s[TABLE + 16 * i + 4]
  }

  function RelAt(s: seq<byte>, i: nat): u32
    requires |s| >= 512 && i < 4
  {
    Le32(s, TABLE + 16 * i + 8)
  }

  function LengthAt(s: seq<byte>, i: nat): u32
    requires |s| >= 512 && i < 4
  {
    Le32(s, TABLE + 16 * i + 12)
  }

  function BootAt(s: seq<byte>, i: nat): bool
    requires |s| >= 512 && i < 4
  {
    s[TABLE + 16 * i] >= 0x80
  }

  predicate HasMagic(s: seq<byte>)
    requires |s| >= 512
  {
    s[MAGIC] == 0x55 && s[MAGIC + 1] == 0xAA
  }

  /** Where a walk stands: the next table's sector, the start of the outermost extended partition,
      and whether this is the master boot record. */
  datatype Cursor = Cursor(base: u32, ext: u32, first: bool)

  const START := Cursor(0, 0, true)

  datatype Link = Link(ext: u32, next: Option<u32>)

  /** What the first `n` slots of a table say about the rest of the chain: the last link wins. */
  function LinkOf(s: seq<byte>, c: Cursor, n: nat): Link
    requires |s| >= 512 && n <= 4
  {
    if n == 0 then Link(c.ext, None)
    else
      var l := LinkOf(s, c, n - 1);
      if !IsExtended(KindAt(s, n - 1)) then l
      else if c.first then Link(RelAt(s, n - 1), Some(RelAt(s, n - 1)))
      else Link(l.ext, Some(Add32(l.ext, RelAt(s, n - 1))))
  }

  datatype Table = Table(at: Cursor, sector: seq<byte>)

  /** The tables a walk visits, at most `limit`, up to an unreadable sector, a missing signature, a
      table without a link or one that links to itself. */
  function Tables(d: Disk, c: Cursor, limit: nat): (ts: seq<Table>)
    requires d.Valid()
    ensures |ts| <= limit
    ensures forall t :: t in ts ==> |t.sector| == d.sectorSize
    decreases limit
  {
    var s := d.Read(c.base);
    if limit == 0 || s.None? || !HasMagic(s.value) then []
    else
      var l := LinkOf(s.value, c, 4);
      [Table(c, s.value)] +
      if l.next.None? || l.next.value == c.base then []
      else Tables(d, Cursor(l.next.value, l.ext, false), limit - 1)
  }

  // ---- what a layout reports -------------------------------------------------------------------

  datatype Entry = Entry(start: nat, length: nat, hidden: u32, number: nat, kind: byte, boot: bool, recognized: bool)

  ghost predicate Sized(ts: seq<Table>) {
    forall t :: t in ts ==> |t.sector| >= 512
  }

  /** Slot `k` of a walk: table k / 4, slot k % 4. */
  function Kind(ts: seq<Table>, k: nat): byte
    requires Sized(ts) && k < 4 * |ts|
  {
    KindAt(ts[k / 4].sector, k % 4)
  }

  function Length(ts: seq<Table>, k: nat): u32
    requires Sized(ts) && k < 4 * |ts|
  {
    LengthAt(ts[k / 4].sector, k % 4)
  }

  /** An entry counts from its own table, a link from the outermost extended partition. */
  function Absolute(t: Table, i: nat): u32
    requires |t.sector| >= 512 && i < 4
  {
    if IsExtended(KindAt(t.sector, i)) && !t.at.first then Add32(t.at.ext, RelAt(t.sector, i))
    else Add32(t.at.base, RelAt(t.sector, i))
  }

  function Describe(t: Table, i: nat, sectorSize: nat, number: nat): Entry
    requires |t.sector| >= 512 && i < 4
  {
    var kind := KindAt(t.sector, i);
    Entry(Absolute(t, i) * sectorSize, LengthAt(t.sector, i) * sectorSize, RelAt(t.sector, i), number, kind,
          BootAt(t.sector, i), IsRecognized(kind))
  }

  predicate Keeps(ts: seq<Table>, recognizedOnly: bool, k: nat)
    requires Sized(ts) && k < 4 * |ts|
  {
    recognizedOnly ==> !IsExtended(Kind(ts, k)) && Kind(ts, k) != 0 && Length(ts, k) != 0
  }

  /** How many of the first `k` slots are numbered: recognised, and kept. */
  function Numbered(ts: seq<Table>, recognizedOnly: bool, k: nat): nat
    requires Sized(ts) && k <= 4 * |ts|
  {
    if k == 0 then 0
    else Numbered(ts, recognizedOnly, k - 1) +
         if Keeps(ts, recognizedOnly, k - 1) && IsRecognized(Kind(ts, k - 1)) then 1 else 0
  }

  /** The layout after `k` slots, at most PARTITION_MAX entries. */
  function Layout(ts: seq<Table>, sectorSize: nat, recognizedOnly: bool, k: nat): (es: seq<Entry>)
    requires Sized(ts) && k <= 4 * |ts|
    ensures |es| <= PARTITION_MAX
  {
    if k == 0 then []
    else
      var es := Layout(ts, sectorSize, recognizedOnly, k - 1);
      if |es| == PARTITION_MAX || !Keeps(ts, recognizedOnly, k - 1) then es
      else es + [Describe(ts[(k - 1) / 4], (k - 1) % 4, sectorSize,
                          if IsRecognized(Kind(ts, k - 1)) then Numbered(ts, recognizedOnly, k) else 0)]
  }

  /** The entry of slot `k` in a layout that leaves nothing out. */
  function SlotEntry(ts: seq<Table>, sectorSize: nat, k: nat): Entry
    requires Sized(ts) && k < 4 * |ts|
  {
    Describe(ts[k / 4], k % 4, sectorSize, if IsRecognized(Kind(ts, k)) then Numbered(ts, false, k + 1) else 0)
  }

  /** Without filtering, entry `k` is slot `k`: four entries per table, sixteen tables at most. */
  lemma {:induction false} FullLayoutIsSlots(ts: seq<Table>, sectorSize: nat, k: nat)
    requires Sized(ts) && k <= 4 * |ts|
    ensures |Layout(ts, sectorSize, false, k)| == Min(k, PARTITION_MAX)
    ensures forall j :: 0 <= j < Min(k, PARTITION_MAX) ==> Layout(ts, sectorSize, false, k)[j] == SlotEntry(ts, sectorSize, j)
  {
    hide Layout, SlotEntry, Sized;
    LayoutStart(ts, sectorSize);
    if k > 0 {
      FullLayoutIsSlots(ts, sectorSize, k - 1);
      FullLayoutNext(ts, sectorSize, k - 1);
    }
  }

  lemma FullLayoutNext(ts: seq<Table>, sectorSize: nat, k: nat)
    requires Sized(ts) && k < 4 * |ts|
    ensures Layout(ts, sectorSize, false, k + 1) ==
            var es := Layout(ts, sectorSize, false, k);
            if |es| == PARTITION_MAX then es else es + [SlotEntry(ts, sectorSize, k)]
  {
    hide Numbered, Describe, Kind, IsRecognized;
  }

  lemma LayoutStart(ts: seq<Table>, sectorSize: nat)
    ensures Sized(ts) ==> Layout(ts, sectorSize, false, 0) == []
  {
  }

  /** The tables of a disk, and the unfiltered layout read from them. */
  ghost function TablesOf(d: Disk): (ts: seq<Table>)
    requires d.Valid()
    ensures Sized(ts)
  {
    Tables(d, START, TABLES_MAX)
  }

  ghost function LayoutOf(d: Disk): seq<Entry>
    requires d.Valid()
  {
    Layout(TablesOf(d), d.sectorSize, false, 4 * |TablesOf(d)|)
  }

  // ---- the second walker -----------------------------------------------------------------------

  /** The slot HalpFindPartition stops at: the first that makes the count of recognised slots
      `number`; 4 * |ts| if there is none. */
  ghost function Found(ts: seq<Table>, number: nat, from: nat): (k: nat)
    requires Sized(ts) && from <= 4 * |ts|
    ensures from <= k <= 4 * |ts|
    decreases 4 * |ts| - from
  {
    if from == 4 * |ts| then from
    else if IsRecognized(Kind(ts, from)) && Numbered(ts, false, from + 1) == number then from
    else Found(ts, number, from + 1)
  }

  lemma {:induction false} NumberedGrows(ts: seq<Table>, recognizedOnly: bool, j: nat, k: nat)
    requires Sized(ts) && j <= k <= 4 * |ts|
    ensures Numbered(ts, recognizedOnly, j) <= Numbered(ts, recognizedOnly, k)
    decreases k - j
  {
    if j < k {
      NumberedGrows(ts, recognizedOnly, j, k - 1);
    }
  }

  lemma {:induction false} FoundIs(ts: seq<Table>, from: nat, k: nat)
    requires Sized(ts) && from <= k < 4 * |ts| && IsRecognized(Kind(ts, k))
    ensures Found(ts, Numbered(ts, false, k + 1), from) == k
    decreases k - from
  {
    if from < k {
      NumberedGrows(ts, false, from + 1, k);
      FoundIs(ts, from + 1, k);
    }
  }

  /** The two walkers agree on every disk, damaged and looping chains included: the entry the
      unfiltered layout numbers N is the slot the second walker finds for N. */
  lemma WalkersAgree(d: Disk, idx: nat)
    requires d.Valid() && idx < |LayoutOf(d)| && LayoutOf(d)[idx].number > 0
    ensures Found(TablesOf(d), LayoutOf(d)[idx].number, 0) == idx
  {
    var ts := TablesOf(d);
    FullLayoutIsSlots(ts, d.sectorSize, 4 * |ts|);
    FoundIs(ts, 0, idx);
  }

  /** None of the first `k` slots is recognised and of length zero: the filtered layout would leave
      it out. */
  ghost predicate NoEmptyRecognized(ts: seq<Table>, k: nat)
    requires Sized(ts) && k <= 4 * |ts|
  {
    forall j :: 0 <= j < k ==> !(IsRecognized(Kind(ts, j)) && Length(ts, j) == 0)
  }

  lemma {:induction false} NumberedGap(ts: seq<Table>, k: nat)
    requires Sized(ts) && k <= 4 * |ts|
    ensures Numbered(ts, true, k) <= Numbered(ts, false, k)
    ensures Numbered(ts, true, k) == Numbered(ts, false, k) <==> NoEmptyRecognized(ts, k)
  {
    if k > 0 {
      NumberedGap(ts, k - 1);
      assert NoEmptyRecognized(ts, k) <==>
             NoEmptyRecognized(ts, k - 1) && !(IsRecognized(Kind(ts, k - 1)) && Length(ts, k - 1) == 0);
    }
  }

  /** The filtered layout's numbers mean the same slots to the second walker exactly as long as no
      recognised slot of length zero has gone before: the layout skips it, the walker counts it. */
  lemma FilteredNumbersAgreeIff(ts: seq<Table>, k: nat)
    requires Sized(ts) && k < 4 * |ts| && Keeps(ts, true, k) && IsRecognized(Kind(ts, k))
    ensures Found(ts, Numbered(ts, true, k + 1), 0) == k <==> NoEmptyRecognized(ts, k)
  {
    NumberedGap(ts, k);
    if NoEmptyRecognized(ts, k) {
      FoundIs(ts, 0, k);
    } else {
      FoundCounts(ts, Numbered(ts, true, k + 1), 0);
    }
  }

  lemma {:induction false} FoundCounts(ts: seq<Table>, number: nat, from: nat)
    requires Sized(ts) && from <= 4 * |ts|
    ensures var k := Found(ts, number, from); k < 4 * |ts| ==> Numbered(ts, false, k + 1) == number
    decreases 4 * |ts| - from
  {
    if from < 4 * |ts| && !(IsRecognized(Kind(ts, from)) && Numbered(ts, false, from + 1) == number) {
      FoundCounts(ts, number, from + 1);
    }
  }

  /** A master boot record of two recognised partitions, the first of length zero. */
  function TwoSlots(): (s: seq<byte>)
    ensures |s| == 512 && HasMagic(s)
    ensures KindAt(s, 0) == 0x07 && LengthAt(s, 0) == 0 && KindAt(s, 1) == 0x07 && LengthAt(s, 1) == 1
    ensures KindAt(s, 2) == 0 && KindAt(s, 3) == 0
  {
    Zeros(512)[TABLE + 4 := 0x07][TABLE + 20 := 0x07][TABLE + 28 := 1][MAGIC := 0x55][MAGIC + 1 := 0xAA]
  }

  /** Its filtered layout's only entry is the second slot, under number 1; to the second walker number
      1 is the first slot. */
  lemma FilteredNumbersDiffer()
    ensures var d := Disk(512, [TwoSlots()], {});
            && d.Valid() && |TablesOf(d)| == 1
            && Layout(TablesOf(d), 512, true, 4) == [Describe(TablesOf(d)[0], 1, 512, 1)]
            && Found(TablesOf(d), 1, 0) == 0
  {
    hide KindAt, LengthAt;
    var d := Disk(512, [TwoSlots()], {});
    var ts := [Table(START, TwoSlots())];
    assert LinkOf(TwoSlots(), START, 4) == Link(0, None) by {
      assert LinkOf(TwoSlots(), START, 1) == Link(0, None);
      assert LinkOf(TwoSlots(), START, 2) == Link(0, None);
      assert LinkOf(TwoSlots(), START, 3) == Link(0, None);
    }
    assert TablesOf(d) == ts;
    assert Numbered(ts, true, 1) == 0 && Layout(ts, 512, true, 1) == [];
    assert Numbered(ts, true, 2) == 1 && Layout(ts, 512, true, 2) == [Describe(ts[0], 1, 512, 1)];
    assert Layout(ts, 512, true, 3) == Layout(ts, 512, true, 2);
    assert Numbered(ts, false, 1) == 1;
  }

  // ---- IoReadPartitionTable --------------------------------------------------------------------

  /** The device object the four routines do their I/O on. */
  class Device {
    var disk: Disk

    constructor (d: Disk)
      ensures disk == d
    {
      disk := d;
    }
  }

  lemma {:induction false} FullLayoutStays(ts: seq<Table>, sectorSize: nat, recognizedOnly: bool, j: nat, k: nat)
    requires Sized(ts) && j <= k <= 4 * |ts| && |Layout(ts, sectorSize, recognizedOnly, j)| == PARTITION_MAX
    ensures Layout(ts, sectorSize, recognizedOnly, k) == Layout(ts, sectorSize, recognizedOnly, j)
    decreases k - j
  {
    if j < k {
      FullLayoutStays(ts, sectorSize, recognizedOnly, j, k - 1);
    }
  }

  method IoReadPartitionTable(dev: Device, sectorSize: nat, recognizedOnly: bool)
    returns (status: Status, layout: seq<Entry>, signature: u32)
    requires dev.disk.Valid() && (512 <= sectorSize <= 4096 ==> sectorSize == dev.disk.sectorSize)
    ensures var d := dev.disk;
            if sectorSize < 512 || sectorSize > 4096 then status == STATUS_INVALID_PARAMETER && layout == []
            else if d.Read(0).None? then status == STATUS_IO_ERROR && layout == []
            else
              var ts := Tables(d, START, TABLES_MAX);
              && status == STATUS_SUCCESS
              && layout == Layout(ts, sectorSize, recognizedOnly, 4 * |ts|)
              && signature == if ts == [] then 0 else Le32(ts[0].sector, 0x1B8)
  {
    hide LinkOf, Layout, Numbered, Tables, Sized, HasMagic, IsExtended, AfterTable;
    layout, signature := [], 0;
    if sectorSize < 512 || sectorSize > 4096 {
      return STATUS_INVALID_PARAMETER, layout, signature;
    }
    ghost var d := dev.disk;
    ghost var ts := Tables(d, START, TABLES_MAX);
    ghost var done := 0;
    TablesAreSized(d, START, TABLES_MAX);
    NothingYet(ts, sectorSize, recognizedOnly);
    var number: nat, extendedStart: u32, next: u32, first, passes := 0, 0, 0, true, 0;
    while true
      invariant done == passes <= |ts| && first == (done == 0)
      invariant ts[done..] == Tables(d, Cursor(next, extendedStart, first), TABLES_MAX - done)
      invariant first ==> next == 0 && extendedStart == 0
      invariant layout == Layout(ts, sectorSize, recognizedOnly, 4 * done)
      invariant |layout| < PARTITION_MAX
      invariant number == Numbered(ts, recognizedOnly, 4 * done)
      invariant done > 0 ==> d.Read(0).Some?
      invariant signature == if done == 0 then 0 else Le32(ts[0].sector, SIGNATURE)
      invariant done < TABLES_MAX
      decreases TABLES_MAX - done
    {
      var base := next;
      ghost var c := Cursor(base, extendedStart, first);
      var got := dev.disk.Read(base);
      TablesNext(d, c, TABLES_MAX - done);
      if got.None? {
        return if first then STATUS_IO_ERROR else STATUS_SUCCESS, layout, signature;
      }
      var sector := got.value;
      if !HasMagic(sector) {
        break;
      }
      OneMore(ts, done, Table(c, sector), AfterTable(d, c, sector, TABLES_MAX - done));
      AfterIs(d, c, sector, TABLES_MAX - done);
      if first {
        signature := Le32(sector, SIGNATURE);
      }
      var sawNext: bool;
      layout, number, extendedStart, next, sawNext :=
        ReadTable(sector, base, sectorSize, recognizedOnly, first, layout, number, extendedStart, next, ts, done);
      first := false;
      done := done + 1;
      if !sawNext || next == base || |layout| >= PARTITION_MAX {
        break;
      }
      passes := passes + 1;
      if passes > PARTITION_MAX {
        TablesNext(d, Cursor(next, extendedStart, first), TABLES_MAX - done);
        break;
      }
    }
    status := STATUS_SUCCESS;
  }

  lemma NothingYet(ts: seq<Table>, sectorSize: nat, recognizedOnly: bool)
    ensures Sized(ts) ==> Layout(ts, sectorSize, recognizedOnly, 0) == [] && Numbered(ts, recognizedOnly, 0) == 0
  {
  }

  lemma TablesAreSized(d: Disk, c: Cursor, limit: nat)
    ensures d.Valid() ==> Sized(Tables(d, c, limit))
  {
  }

  /** The tables behind one that was read. */
  ghost function AfterTable(d: Disk, c: Cursor, s: seq<byte>, limit: nat): seq<Table>
    requires d.Valid() && |s| >= 512 && limit > 0
  {
    var l := LinkOf(s, c, 4);
    if l.next.None? || l.next.value == c.base then [] else Tables(d, Cursor(l.next.value, l.ext, false), limit - 1)
  }

  lemma TablesNext(d: Disk, c: Cursor, limit: nat)
    requires d.Valid()
    ensures limit == 0 || d.Read(c.base).None? || !HasMagic(d.Read(c.base).value) ==> Tables(d, c, limit) == []
    ensures limit > 0 && d.Read(c.base).Some? && HasMagic(d.Read(c.base).value) ==>
              Tables(d, c, limit) == [Table(c, d.Read(c.base).value)] + AfterTable(d, c, d.Read(c.base).value, limit)
  {
  }

  lemma AfterIs(d: Disk, c: Cursor, s: seq<byte>, limit: nat)
    requires d.Valid() && |s| >= 512 && limit > 0
    ensures var l := LinkOf(s, c, 4);
            AfterTable(d, c, s, limit) ==
            if l.next.None? || l.next.value == c.base then [] else Tables(d, Cursor(l.next.value, l.ext, false), limit - 1)
  {
  }

  lemma OneMore<T>(ts: seq<T>, done: nat, t: T, rest: seq<T>)
    requires done <= |ts| && ts[done..] == [t] + rest
    ensures done < |ts| && ts[done] == t && ts[done + 1..] == rest
  {
    assert ts[done..][0] == t && ts[done + 1..] == ts[done..][1..];
  }

  /** One table's four slots: the inner loop of IoReadPartitionTable. */
  method ReadTable(sector: seq<byte>, base: u32, sectorSize: nat, recognizedOnly: bool, first: bool,
                   layoutIn: seq<Entry>, numberIn: nat, extIn: u32, nextIn: u32, ghost ts: seq<Table>, ghost t: nat)
    returns (layout: seq<Entry>, number: nat, extendedStart: u32, next: u32, sawNext: bool)
    requires Sized(ts) && t < |ts| && ts[t] == Table(Cursor(base, extIn, first), sector) && (first ==> base == 0)
    requires layoutIn == Layout(ts, sectorSize, recognizedOnly, 4 * t) && |layoutIn| < PARTITION_MAX
    requires numberIn == Numbered(ts, recognizedOnly, 4 * t)
    ensures |layout| <= PARTITION_MAX
    ensures |layout| == PARTITION_MAX ==> layout == Layout(ts, sectorSize, recognizedOnly, 4 * |ts|)
    ensures |layout| < PARTITION_MAX ==>
              var l := LinkOf(sector, Cursor(base, extIn, first), 4);
              && layout == Layout(ts, sectorSize, recognizedOnly, 4 * t + 4)
              && number == Numbered(ts, recognizedOnly, 4 * t + 4)
              && sawNext == l.next.Some? && extendedStart == l.ext && (sawNext ==> next == l.next.value)
  {
    hide Layout, Numbered, LinkOf, KindAt, RelAt, LengthAt, BootAt, IsRecognized, Sized;
    layout, number, extendedStart, next, sawNext := layoutIn, numberIn, extIn, nextIn, false;
    ghost var c := Cursor(base, extIn, first);
    LayoutNext(ts, sectorSize, recognizedOnly, t, 0);
    NoLink(sector, c);
    var i := 0;
    while i < 4 && |layout| < PARTITION_MAX
      invariant 0 <= i <= 4
      invariant layout == Layout(ts, sectorSize, recognizedOnly, 4 * t + i)
      invariant |layout| < PARTITION_MAX ==> number == Numbered(ts, recognizedOnly, 4 * t + i)
      invariant LinkOf(sector, c, i).ext == extendedStart && LinkOf(sector, c, i).next.Some? == sawNext
      invariant sawNext ==> next == LinkOf(sector, c, i).next.value
    {
      var kind, rel, len := KindAt(sector, i), RelAt(sector, i), LengthAt(sector, i);
      LinkKeepsOrigin(sector, c, i);
      LinkNext(sector, c, i);
      LayoutNext(ts, sectorSize, recognizedOnly, t, i);
      var absolute := Add32(base, rel);
      var keep := true;
      if IsExtended(kind) {
        if first {
          extendedStart := rel;
        } else {
          absolute := Add32(extendedStart, rel);
        }
        next := absolute;
        sawNext := true;
        keep := !recognizedOnly;
      } else if kind == 0 || len == 0 {
        keep := !recognizedOnly;
      }
      if keep {
        var recognized := IsRecognized(kind);
        if recognized {
          number := number + 1;
        }
        layout := layout + [Entry(absolute * sectorSize, len * sectorSize, rel, if recognized then number else 0, kind,
                                  BootAt(sector, i), recognized)];
      }
      i := i + 1;
    }
    if |layout| == PARTITION_MAX {
      FullLayoutStays(ts, sectorSize, recognizedOnly, 4 * t + i, 4 * |ts|);
    }
  }

  lemma NoLink(s: seq<byte>, c: Cursor)
    ensures |s| >= 512 ==> LinkOf(s, c, 0) == Link(c.ext, None)
  {
  }

  lemma LinkNext(s: seq<byte>, c: Cursor, i: nat)
    requires |s| >= 512 && i < 4
    ensures LinkOf(s, c, i + 1) ==
            var l := LinkOf(s, c, i);
            if !IsExtended(KindAt(s, i)) then l
            else if c.first then Link(RelAt(s, i), Some(RelAt(s, i)))
            else Link(l.ext, Some(Add32(l.ext, RelAt(s, i))))
  {
  }

  /** Slot i of table t, as one step of the layout. */
  lemma LayoutNext(ts: seq<Table>, sectorSize: nat, recognizedOnly: bool, t: nat, i: nat)
    requires Sized(ts) && t < |ts| && i < 4
    ensures ts[t] in ts && |ts[t].sector| >= 512
    ensures var k, s := 4 * t + i, ts[t].sector;
            var keeps := recognizedOnly ==> !IsExtended(KindAt(s, i)) && KindAt(s, i) != 0 && LengthAt(s, i) != 0;
            && Numbered(ts, recognizedOnly, k + 1) ==
               Numbered(ts, recognizedOnly, k) + (if keeps && IsRecognized(KindAt(s, i)) then 1 else 0)
            && Layout(ts, sectorSize, recognizedOnly, k + 1) ==
               var es := Layout(ts, sectorSize, recognizedOnly, k);
               if |es| == PARTITION_MAX || !keeps then es
               else es + [Describe(ts[t], i, sectorSize,
                                   if IsRecognized(KindAt(s, i)) then Numbered(ts, recognizedOnly, k + 1) else 0)]
  {
    assert (4 * t + i) / 4 == t && (4 * t + i) % 4 == i;
  }

  /** Past the master boot record the chain's origin does not move. */
  lemma {:induction false} LinkKeepsOrigin(s: seq<byte>, c: Cursor, n: nat)
    requires |s| >= 512 && n <= 4
    ensures !c.first ==> LinkOf(s, c, n).ext == c.ext
  {
    if n > 0 {
      LinkKeepsOrigin(s, c, n - 1);
    }
  }

  // ---- HalpFindPartition and IoSetPartitionInformation -----------------------------------------

  /** Why a walk comes to its end. */
  function EndOf(d: Disk, c: Cursor, limit: nat): Status
    requires d.Valid()
    decreases limit
  {
    if limit == 0 then STATUS_NOT_FOUND
    else
      var s := d.Read(c.base);
      if s.None? then STATUS_IO_ERROR
      else if !HasMagic(s.value) then STATUS_UNSUCCESSFUL
      else
        var l := LinkOf(s.value, c, 4);
        if l.next.None? || l.next.value == c.base then STATUS_NOT_FOUND
        else EndOf(d, Cursor(l.next.value, l.ext, false), limit - 1)
  }

  lemma EndNext(d: Disk, c: Cursor, limit: nat)
    requires d.Valid()
    ensures EndOf(d, c, 0) == STATUS_NOT_FOUND
    ensures limit > 0 ==>
              var s := d.Read(c.base);
              EndOf(d, c, limit) ==
              if s.None? then STATUS_IO_ERROR
              else if !HasMagic(s.value) then STATUS_UNSUCCESSFUL
              else
                var l := LinkOf(s.value, c, 4);
                if l.next.None? || l.next.value == c.base then STATUS_NOT_FOUND
                else EndOf(d, Cursor(l.next.value, l.ext, false), limit - 1)
  {
    hide LinkOf, HasMagic;
  }

  /** On success: the sector of the table that holds the number-th recognised partition, and its
      slot there. */
  method FindPartition(dev: Device, number: nat) returns (status: Status, sector: seq<byte>, tableLba: u32, slot: nat)
    requires dev.disk.Valid()
    ensures var ts := Tables(dev.disk, START, TABLES_MAX);
            var k := Found(ts, number, 0);
            && (status == STATUS_SUCCESS <==> k < 4 * |ts|)
            && (status == STATUS_SUCCESS ==>
                  tableLba == ts[k / 4].at.base && slot == k % 4 && sector == ts[k / 4].sector)
            && (status != STATUS_SUCCESS ==> status == EndOf(dev.disk, START, TABLES_MAX))
  {
    hide LinkOf, Numbered, Tables, Sized, HasMagic, IsExtended, AfterTable, Found, EndOf;
    ghost var d := dev.disk;
    ghost var ts := Tables(d, START, TABLES_MAX);
    ghost var done := 0;
    TablesAreSized(d, START, TABLES_MAX);
    NothingYet(ts, d.sectorSize, false);
    NothingFound(ts, number);
    var base: u32, extendedStart: u32, count: nat, passes := 0, 0, 0, 0;
    var first := true;
    sector, tableLba, slot := [], 0, 0;
    while true
      invariant done == passes <= |ts| && first == (done == 0)
      invariant ts[done..] == Tables(d, Cursor(base, extendedStart, first), TABLES_MAX - done)
      invariant first ==> base == 0 && extendedStart == 0
      invariant count == Numbered(ts, false, 4 * done)
      invariant Found(ts, number, 0) == Found(ts, number, 4 * done)
      invariant EndOf(d, START, TABLES_MAX) == EndOf(d, Cursor(base, extendedStart, first), TABLES_MAX - done)
      invariant done < TABLES_MAX
      decreases TABLES_MAX - done
    {
      ghost var c := Cursor(base, extendedStart, first);
      var got := dev.disk.Read(base);
      TablesNext(d, c, TABLES_MAX - done);
      EndNext(d, c, TABLES_MAX - done);
      if got.None? {
        return STATUS_IO_ERROR, sector, tableLba, slot;
      }
      sector := got.value;
      if !HasMagic(sector) {
        return STATUS_UNSUCCESSFUL, sector, tableLba, slot;
      }
      OneMore(ts, done, Table(c, sector), AfterTable(d, c, sector, TABLES_MAX - done));
      AfterIs(d, c, sector, TABLES_MAX - done);
      var hit: Option<nat>, next: u32, sawNext: bool;
      hit, count, extendedStart, next, sawNext := FindInTable(sector, base, first, number, count, extendedStart, ts, done);
      if hit.Some? {
        return STATUS_SUCCESS, sector, base, hit.value;
      }
      first := false;
      done := done + 1;
      if !sawNext || next == base {
        break;
      }
      passes := passes + 1;
      if passes > PARTITION_MAX {
        TablesNext(d, Cursor(next, extendedStart, first), TABLES_MAX - done);
        EndNext(d, Cursor(next, extendedStart, first), TABLES_MAX - done);
        break;
      }
      base := next;
    }
    status := STATUS_NOT_FOUND;
  }

  lemma NothingFound(ts: seq<Table>, number: nat)
    ensures Sized(ts) ==> Found(ts, number, 4 * |ts|) == 4 * |ts|
  {
  }

  /** The inner loop of HalpFindPartition. */
  method FindInTable(sector: seq<byte>, base: u32, first: bool, number: nat, countIn: nat, extIn: u32,
                     ghost ts: seq<Table>, ghost t: nat)
    returns (hit: Option<nat>, count: nat, extendedStart: u32, next: u32, sawNext: bool)
    requires Sized(ts) && t < |ts| && ts[t] == Table(Cursor(base, extIn, first), sector)
    requires countIn == Numbered(ts, false, 4 * t)
    ensures hit.Some? ==> hit.value < 4 && Found(ts, number, 4 * t) == 4 * t + hit.value
    ensures hit.None? ==>
              var l := LinkOf(sector, Cursor(base, extIn, first), 4);
              && Found(ts, number, 4 * t) == Found(ts, number, 4 * t + 4)
              && count == Numbered(ts, false, 4 * t + 4)
              && sawNext == l.next.Some? && extendedStart == l.ext && (sawNext ==> next == l.next.value)
  {
    hide Layout, Numbered, LinkOf, KindAt, RelAt, LengthAt, BootAt, Sized, Found;
    hit, count, extendedStart, next, sawNext := None, countIn, extIn, base, false;
    ghost var c := Cursor(base, extIn, first);
    LayoutNext(ts, 0, false, t, 0);
    NoLink(sector, c);
    for i := 0 to 4
      invariant hit.None? && Found(ts, number, 4 * t) == Found(ts, number, 4 * t + i)
      invariant count == Numbered(ts, false, 4 * t + i)
      invariant LinkOf(sector, c, i).ext == extendedStart && LinkOf(sector, c, i).next.Some? == sawNext
      invariant sawNext ==> next == LinkOf(sector, c, i).next.value
    {
      var kind, rel := KindAt(sector, i), RelAt(sector, i);
      LinkKeepsOrigin(sector, c, i);
      LinkNext(sector, c, i);
      LayoutNext(ts, 0, false, t, i);
      FoundNext(ts, number, t, i);
      if IsExtended(kind) {
        if first {
          extendedStart := rel;
        }
        next := if first then rel else Add32(extendedStart, rel);
        sawNext := true;
        continue;
      }
      if kind == 0 || !IsRecognized(kind) {
        continue;
      }
      count := count + 1;
      if count == number {
        hit := Some(i);
        return;
      }
    }
  }

  lemma FoundNext(ts: seq<Table>, number: nat, t: nat, i: nat)
    requires Sized(ts) && t < |ts| && i < 4
    ensures ts[t] in ts && |ts[t].sector| >= 512
    ensures var k := 4 * t + i;
            Found(ts, number, k) ==
            if IsRecognized(KindAt(ts[t].sector, i)) && Numbered(ts, false, k + 1) == number then k
            else Found(ts, number, k + 1)
  {
    assert (4 * t + i) / 4 == t && (4 * t + i) % 4 == i;
  }

  function Retyped(s: seq<byte>, slot: nat, kind: byte): (r: seq<byte>)
    requires |s| >= 512 && slot < 4
    ensures |r| == |s|
  {
    s[TABLE + slot * 16 + 4 := kind]
  }

  method IoSetPartitionInformation(dev: Device, sectorSize: nat, number: nat, kind: u32) returns (status: Status)
    requires dev.disk.Valid() && (512 <= sectorSize <= 4096 ==> sectorSize == dev.disk.sectorSize)
    modifies dev
    ensures var d := old(dev.disk);
            var ts := Tables(d, START, TABLES_MAX);
            var k := Found(ts, number, 0);
            && dev.disk.Valid()
            && (status == STATUS_SUCCESS <==> 512 <= sectorSize <= 4096 && k < 4 * |ts|)
            && (status != STATUS_SUCCESS ==>
                  status == if 512 <= sectorSize <= 4096 then EndOf(d, START, TABLES_MAX) else STATUS_INVALID_PARAMETER)
            && dev.disk == if status != STATUS_SUCCESS then d
                           else d.Write(ts[k / 4].at.base, Retyped(ts[k / 4].sector, k % 4, kind % 0x100))
  {
    hide Tables, Found, Sized, EndOf;
    if sectorSize < 512 || sectorSize > 4096 {
      return STATUS_INVALID_PARAMETER;
    }
    var sector: seq<byte>, lba: u32, slot: nat;
    status, sector, lba, slot := FindPartition(dev, number);
    if status == STATUS_SUCCESS {
      TablesAreSized(dev.disk, START, TABLES_MAX);
      ghost var k := Found(Tables(dev.disk, START, TABLES_MAX), number, 0);
      TableWasRead(dev.disk, START, TABLES_MAX, k / 4);
      sector := sector[TABLE + slot * 16 + 4 := kind % 0x100];
      dev.disk := dev.disk.Write(lba, sector);
    }
  }

  /** Every table of a walk is what the disk holds there. */
  lemma {:induction false} TableWasRead(d: Disk, c: Cursor, limit: nat, j: nat)
    requires d.Valid() && j < |Tables(d, c, limit)|
    ensures var t := Tables(d, c, limit)[j]; d.Read(t.at.base) == Some(t.sector) && |t.sector| == d.sectorSize
    decreases limit
  {
    hide LinkOf, Tables, HasMagic, AfterTable;
    TablesNext(d, c, limit);
    if j > 0 {
      AfterIs(d, c, d.Read(c.base).value, limit);
      var l := LinkOf(d.Read(c.base).value, c, 4);
      TableWasRead(d, Cursor(l.next.value, l.ext, false), limit - 1, j - 1);
    }
  }

  // ---- what a walk and its entries are, in bytes ------------------------------------------------

  /** The kinds NT recognises, plain, in a fault-tolerance set (0x80) and there in need of recovery
      (0xC0); and the two kinds of extended partition. */
  lemma KindsAre(kind: byte)
    ensures IsRecognized(kind) <==>
            kind in {0x01, 0x04, 0x06, 0x07, 0x0B, 0x0C, 0x0E,
                     0x81, 0x84, 0x86, 0x87, 0x8B, 0x8C, 0x8E,
                     0xC1, 0xC4, 0xC6, 0xC7, 0xCB, 0xCC, 0xCE}
    ensures IsExtended(kind) <==> kind in {0x05, 0x0F}
  {
  }

  /** Slot `i` is the table's last link. */
  ghost predicate LastLink(s: seq<byte>, i: nat)
    requires |s| >= 512
  {
    i < 4 && s[0x1C2 + 16 * i] in {0x05, 0x0F} && forall j :: i < j < 4 ==> s[0x1C2 + 16 * j] !in {0x05, 0x0F}
  }

  lemma {:induction false} LinkIsLast(s: seq<byte>, c: Cursor, n: nat, i: nat)
    requires |s| >= 512 && i < n <= 4 && IsExtended(KindAt(s, i)) && forall j :: i < j < n ==> !IsExtended(KindAt(s, j))
    ensures LinkOf(s, c, n) ==
            if c.first then Link(RelAt(s, i), Some(RelAt(s, i))) else Link(c.ext, Some(Add32(c.ext, RelAt(s, i))))
    decreases n
  {
    hide KindAt, RelAt, IsExtended;
    if i < n - 1 {
      LinkIsLast(s, c, n - 1, i);
    } else {
      LinkKeepsOrigin(s, c, i);
    }
  }

  lemma {:induction false} LinkIsNone(s: seq<byte>, c: Cursor, n: nat)
    requires |s| >= 512 && n <= 4 && forall j :: 0 <= j < n ==> !IsExtended(KindAt(s, j))
    ensures LinkOf(s, c, n) == Link(c.ext, None)
  {
    hide KindAt, RelAt, IsExtended;
    if n > 0 {
      LinkIsNone(s, c, n - 1);
    }
  }

  /** Where a table at `c` says the next one is: the last link, from sector 0 in the master boot record
      and from the outermost extended partition behind it. */
  lemma LinkReads(s: seq<byte>, c: Cursor, i: nat)
    requires |s| >= 512
    ensures LastLink(s, i) ==>
              var rel := Le32(s, 0x1C6 + 16 * i);
              LinkOf(s, c, 4) == if c.first then Link(rel, Some(rel)) else Link(c.ext, Some((c.ext + rel) % 0x1_0000_0000))
    ensures (forall j :: 0 <= j < 4 ==> s[0x1C2 + 16 * j] !in {0x05, 0x0F}) ==> LinkOf(s, c, 4).next.None?
  {
    hide LinkOf, Le32;
    assert forall j :: 0 <= j < 4 ==> KindAt(s, j) == s[0x1C2 + 16 * j];
    if LastLink(s, i) {
      LinkIsLast(s, c, 4, i);
      assert RelAt(s, i) == Le32(s, 0x1C6 + 16 * i);
    }
    if forall j :: 0 <= j < 4 ==> s[0x1C2 + 16 * j] !in {0x05, 0x0F} {
      LinkIsNone(s, c, 4);
    }
  }

  /** A sector that holds a table: readable, with 0x55 0xAA at its end. */
  ghost predicate IsTable(d: Disk, lba: u32)
    requires d.Valid()
  {
    lba < |d.sectors| && lba !in d.bad && d.sectors[lba][510] == 0x55 && d.sectors[lba][511] == 0xAA
  }

  /** The walk starts at sector 0 and goes from table to table by their last links, the `limit`-th being
      the last; it stops where there is no link, at a link to the same table, and before a sector that
      holds none. */
  lemma WalkGoes(d: Disk, c: Cursor, limit: nat, i: nat)
    requires d.Valid() && limit > 0
    ensures Tables(d, c, limit) == [] <==> !IsTable(d, c.base)
    ensures IsTable(d, c.base) ==>
              var s := d.sectors[c.base];
              && Tables(d, c, limit)[0] == Table(c, s)
              && (LastLink(s, i) ==>
                    var rel := Le32(s, 0x1C6 + 16 * i);
                    var ext, next := if c.first then rel else c.ext, if c.first then rel else (c.ext + rel) % 0x1_0000_0000;
                    Tables(d, c, limit)[1..] == if next == c.base then [] else Tables(d, Cursor(next, ext, false), limit - 1))
              && ((forall j :: 0 <= j < 4 ==> s[0x1C2 + 16 * j] !in {0x05, 0x0F}) ==> Tables(d, c, limit)[1..] == [])
  {
    hide LinkOf, Le32, Tables, AfterTable;
    TablesNext(d, c, limit);
    if IsTable(d, c.base) {
      var s := d.sectors[c.base];
      LinkReads(s, c, i);
      AfterIs(d, c, s, limit);
      assert ([Table(c, s)] + AfterTable(d, c, s, limit))[1..] == AfterTable(d, c, s, limit);
    }
  }

  /** Why HalpFindPartition fails: the walk came to a sector that cannot be read, to one that is no
      table, or to its end, which is also the 65th table. */
  lemma EndGoes(d: Disk, c: Cursor, limit: nat, i: nat)
    requires d.Valid() && limit > 0
    ensures c.base >= |d.sectors| || c.base in d.bad ==> EndOf(d, c, limit) == STATUS_IO_ERROR
    ensures c.base < |d.sectors| && c.base !in d.bad && !IsTable(d, c.base) ==> EndOf(d, c, limit) == STATUS_UNSUCCESSFUL
    ensures IsTable(d, c.base) ==>
              var s := d.sectors[c.base];
              && (LastLink(s, i) ==>
                    var rel := Le32(s, 0x1C6 + 16 * i);
                    var ext, next := if c.first then rel else c.ext, if c.first then rel else (c.ext + rel) % 0x1_0000_0000;
                    EndOf(d, c, limit) ==
                    if next == c.base || limit == 1 then STATUS_NOT_FOUND else EndOf(d, Cursor(next, ext, false), limit - 1))
              && ((forall j :: 0 <= j < 4 ==> s[0x1C2 + 16 * j] !in {0x05, 0x0F}) ==> EndOf(d, c, limit) == STATUS_NOT_FOUND)
  {
    hide LinkOf, Le32, EndOf;
    EndNext(d, c, limit);
    if IsTable(d, c.base) {
      var s := d.sectors[c.base];
      LinkReads(s, c, i);
      var l := LinkOf(s, c, 4);
      if l.next.Some? {
        EndNext(d, Cursor(l.next.value, l.ext, false), limit - 1);
      }
    }
  }

  /** Extended boot records in the sectors 1 and 2, linked to each other and from the master boot
      record. */
  ghost predicate Loops(d: Disk, i: nat, j: nat, k: nat)
    requires d.Valid()
  {
    && IsTable(d, 0) && IsTable(d, 1) && IsTable(d, 2)
    && LastLink(d.sectors[0], i) && LastLink(d.sectors[1], j) && LastLink(d.sectors[2], k)
    && Le32(d.sectors[0], 0x1C6 + 16 * i) == 1 && Le32(d.sectors[1], 0x1C6 + 16 * j) == 1
    && Le32(d.sectors[2], 0x1C6 + 16 * k) == 0
  }

  /** A chain that loops is cut at the 65th table. */
  lemma LoopIsCut(d: Disk, i: nat, j: nat, k: nat)
    requires d.Valid() && Loops(d, i, j, k)
    ensures |TablesOf(d)| == 65
  {
    hide Tables, Le32, LastLink;
    WalkGoes(d, START, 65, i);
    LoopGoesOn(d, i, j, k, 1, 64);
  }

  lemma {:induction false} LoopGoesOn(d: Disk, i: nat, j: nat, k: nat, at: u32, limit: nat)
    requires d.Valid() && Loops(d, i, j, k) && (at == 1 || at == 2)
    ensures |Tables(d, Cursor(at, 1, false), limit)| == limit
    decreases limit
  {
    hide Tables, Le32, LastLink, IsTable;
    if limit > 0 {
      WalkGoes(d, Cursor(at, 1, false), limit, if at == 1 then j else k);
      LoopGoesOn(d, i, j, k, 3 - at, limit - 1);
    }
  }

  /** The k-th entry of a layout that leaves nothing out, in the bytes of its slot. */
  lemma EntryReads(d: Disk, k: nat)
    requires d.Valid() && k < |LayoutOf(d)|
    ensures k < 64 && k / 4 < |TablesOf(d)|
    ensures var t, e := TablesOf(d)[k / 4], LayoutOf(d)[k];
            var at := 0x1BE + 16 * (k % 4);
            && |t.sector| >= 512
            && e.boot == (t.sector[at] >= 0x80) && e.kind == t.sector[at + 4] && e.recognized == IsRecognized(t.sector[at + 4])
            && e.hidden == Le32(t.sector, at + 8) && e.length == Le32(t.sector, at + 12) * d.sectorSize
            && e.start == (Le32(t.sector, at + 8) + if e.kind in {0x05, 0x0F} && !t.at.first then t.at.ext else t.at.base)
                          % 0x1_0000_0000 * d.sectorSize
            && (e.number > 0 <==> e.recognized)
  {
    hide Le32, IsRecognized, Numbered, Layout, Tables, Describe;
    var ts := TablesOf(d);
    FullLayoutIsSlots(ts, d.sectorSize, 4 * |ts|);
    NumberedPositive(ts, k);
    SlotReads(ts[k / 4], k % 4, d.sectorSize, if IsRecognized(Kind(ts, k)) then Numbered(ts, false, k + 1) else 0);
  }

  lemma SlotReads(t: Table, i: nat, sectorSize: nat, number: nat)
    requires |t.sector| >= 512 && i < 4
    ensures var e, at := Describe(t, i, sectorSize, number), 0x1BE + 16 * i;
            && e.boot == (t.sector[at] >= 0x80) && e.kind == t.sector[at + 4] && e.recognized == IsRecognized(t.sector[at + 4])
            && e.hidden == Le32(t.sector, at + 8) && e.length == Le32(t.sector, at + 12) * sectorSize
            && e.start == (Le32(t.sector, at + 8) + if e.kind in {0x05, 0x0F} && !t.at.first then t.at.ext else t.at.base)
                          % 0x1_0000_0000 * sectorSize
            && e.number == number
  {
    hide Le32, IsRecognized;
  }

  lemma NumberedPositive(ts: seq<Table>, k: nat)
    requires Sized(ts) && k < 4 * |ts|
    ensures IsRecognized(Kind(ts, k)) ==> Numbered(ts, false, k + 1) > 0
  {
  }

  // ---- what a changed type leaves alone --------------------------------------------------------

  lemma {:induction false} LinkIgnoresType(s: seq<byte>, c: Cursor, n: nat, slot: nat, kind: byte)
    requires |s| >= 512 && n <= 4 && slot < 4
    requires IsRecognized(KindAt(s, slot)) && IsRecognized(kind)
    ensures LinkOf(Retyped(s, slot, kind), c, n) == LinkOf(s, c, n)
  {
    if n > 0 {
      LinkIgnoresType(s, c, n - 1, slot, kind);
      SlotIgnoresType(s, slot, kind, n - 1);
    }
  }

  lemma SlotIgnoresType(s: seq<byte>, slot: nat, kind: byte, i: nat)
    requires |s| >= 512 && slot < 4 && i < 4
    ensures var r := Retyped(s, slot, kind);
            && KindAt(r, i) == (if i == slot then kind else KindAt(s, i))
            && RelAt(r, i) == RelAt(s, i) && LengthAt(r, i) == LengthAt(s, i) && BootAt(r, i) == BootAt(s, i)
            && HasMagic(r) == HasMagic(s)
  {
  }

  /** A walk's tables with those at `lba` replaced. */
  ghost function Replaced(ts: seq<Table>, lba: u32, s: seq<byte>): (r: seq<Table>)
    ensures |r| == |ts|
    ensures forall i :: 0 <= i < |ts| ==> r[i] == if ts[i].at.base == lba then Table(ts[i].at, s) else ts[i]
  {
    seq(|ts|, i requires 0 <= i < |ts| => if ts[i].at.base == lba then Table(ts[i].at, s) else ts[i])
  }

  /** After one recognised type is changed to another, the walk visits the same tables. */
  lemma {:induction false} WalkAfterRetype(d: Disk, c: Cursor, limit: nat, lba: u32, slot: nat, kind: byte)
    requires d.Valid() && d.Works(lba) && slot < 4
    requires IsRecognized(KindAt(d.sectors[lba], slot)) && IsRecognized(kind)
    ensures var s := Retyped(d.sectors[lba], slot, kind);
            Tables(d.Write(lba, s), c, limit) == Replaced(Tables(d, c, limit), lba, s)
    decreases limit
  {
    hide LinkOf, Retyped, KindAt, IsRecognized, Tables, HasMagic;
    var s := Retyped(d.sectors[lba], slot, kind);
    var after := d.Write(lba, s);
    TablesNext(d, c, limit);
    TablesNext(after, c, limit);
    SlotIgnoresType(d.sectors[lba], slot, kind, slot);
    LinkIgnoresType(d.sectors[lba], c, 4, slot, kind);
    if limit > 0 && d.Read(c.base).Some? {
      var was := d.Read(c.base).value;
      var l := LinkOf(was, c, 4);
      if HasMagic(was) && l.next.Some? && l.next.value != c.base {
        WalkAfterRetype(d, Cursor(l.next.value, l.ext, false), limit - 1, lba, slot, kind);
      }
    }
  }

  lemma {:induction false} FoundIsRecognized(ts: seq<Table>, number: nat, from: nat)
    requires Sized(ts) && from <= 4 * |ts|
    ensures var k := Found(ts, number, from); k < 4 * |ts| ==> IsRecognized(Kind(ts, k))
    decreases 4 * |ts| - from
  {
    if from < 4 * |ts| && !(IsRecognized(Kind(ts, from)) && Numbered(ts, false, from + 1) == number) {
      FoundIsRecognized(ts, number, from + 1);
    }
  }

  /** Tables `us` differ from `ts` only in that slot `slot` of the tables at `lba` has another
      recognised type. */
  ghost predicate OnlyRetyped(ts: seq<Table>, us: seq<Table>, lba: u32, slot: nat, kind: byte) {
    && slot < 4 && IsRecognized(kind) && Sized(ts) && |us| == |ts|
    && forall i :: 0 <= i < |ts| ==>
         if ts[i].at.base == lba then
           IsRecognized(KindAt(ts[i].sector, slot)) && us[i] == Table(ts[i].at, Retyped(ts[i].sector, slot, kind))
         else us[i] == ts[i]
  }

  lemma SlotsAfterRetype(ts: seq<Table>, us: seq<Table>, lba: u32, slot: nat, kind: byte, sectorSize: nat, k: nat, number: nat)
    requires OnlyRetyped(ts, us, lba, slot, kind) && k < 4 * |ts|
    ensures Sized(us)
    ensures IsRecognized(Kind(us, k)) == IsRecognized(Kind(ts, k))
    ensures Describe(us[k / 4], k % 4, sectorSize, number) ==
            var e := Describe(ts[k / 4], k % 4, sectorSize, number);
            if ts[k / 4].at.base == lba && k % 4 == slot then e.(kind := kind) else e
  {
    assert ts[k / 4] in ts;
    assert forall u :: u in us ==> exists i :: 0 <= i < |us| && us[i] == u;
    if ts[k / 4].at.base == lba {
      SlotIgnoresType(ts[k / 4].sector, slot, kind, k % 4);
    }
  }

  lemma {:induction false} NumbersAfterRetype(ts: seq<Table>, us: seq<Table>, lba: u32, slot: nat, kind: byte, k: nat)
    requires OnlyRetyped(ts, us, lba, slot, kind) && Sized(us) && k <= 4 * |ts|
    ensures Numbered(us, false, k) == Numbered(ts, false, k)
  {
    hide OnlyRetyped, Kind, IsRecognized, Describe;
    if k > 0 {
      NumbersAfterRetype(ts, us, lba, slot, kind, k - 1);
      SlotsAfterRetype(ts, us, lba, slot, kind, 0, k - 1, 0);
    }
  }

  lemma LayoutAfterRetype(ts: seq<Table>, us: seq<Table>, lba: u32, slot: nat, kind: byte, sectorSize: nat, j: nat)
    requires Sized(ts) && Sized(us) && |us| == |ts| && OnlyRetyped(ts, us, lba, slot, kind)
    requires j < Min(4 * |ts|, PARTITION_MAX)
    ensures var was, now := Layout(ts, sectorSize, false, 4 * |ts|), Layout(us, sectorSize, false, 4 * |us|);
            && |now| == |was| == Min(4 * |ts|, PARTITION_MAX)
            && now[j] == if ts[j / 4].at.base == lba && j % 4 == slot then was[j].(kind := kind) else was[j]
  {
    hide Layout, Numbered, Describe, OnlyRetyped;
    FullLayoutIsSlots(ts, sectorSize, 4 * |ts|);
    FullLayoutIsSlots(us, sectorSize, 4 * |us|);
    NumbersAfterRetype(ts, us, lba, slot, kind, j + 1);
    SlotsAfterRetype(ts, us, lba, slot, kind, sectorSize, j,
                     if IsRecognized(Kind(ts, j)) then Numbered(ts, false, j + 1) else 0);
  }

  /** The tables behind IoSetPartitionInformation's change. */
  lemma TablesAfterRetype(d: Disk, number: nat, kind: byte)
    requires d.Valid() && IsRecognized(kind)
    requires var ts := Tables(d, START, TABLES_MAX); Found(ts, number, 0) < 4 * |ts|
    ensures var ts := Tables(d, START, TABLES_MAX);
            var k := Found(ts, number, 0);
            var after := d.Write(ts[k / 4].at.base, Retyped(ts[k / 4].sector, k % 4, kind));
            && after.Valid()
            && OnlyRetyped(ts, Tables(after, START, TABLES_MAX), ts[k / 4].at.base, k % 4, kind)
  {
    hide LinkOf, Retyped, KindAt, Numbered, Tables, Found, IsRecognized;
    var ts := Tables(d, START, TABLES_MAX);
    TablesAreSized(d, START, TABLES_MAX);
    var k := Found(ts, number, 0);
    FoundIsRecognized(ts, number, 0);
    TableWasRead(d, START, TABLES_MAX, k / 4);
    var lba, slot := ts[k / 4].at.base, k % 4;
    WalkAfterRetype(d, START, TABLES_MAX, lba, slot, kind);
    forall i | 0 <= i < |ts| && ts[i].at.base == lba
      ensures ts[i].sector == ts[k / 4].sector
    {
      TableWasRead(d, START, TABLES_MAX, i);
    }
  }

  /** The disk after a successful IoSetPartitionInformation. */
  ghost function AfterSet(d: Disk, number: nat, kind: byte): (after: Disk)
    requires d.Valid()
    ensures after.Valid() && after.sectorSize == d.sectorSize
  {
    var k := Found(TablesOf(d), number, 0);
    if k == 4 * |TablesOf(d)| then d
    else
      TableWasRead(d, START, TABLES_MAX, k / 4);
      d.Write(TablesOf(d)[k / 4].at.base, Retyped(TablesOf(d)[k / 4].sector, k % 4, kind))
  }

  /** IoSetPartitionInformation with a recognised type: the disk reads back as the same layout,
      except for the type of the entries read from the changed slot. */
  lemma SetInformationRereads(d: Disk, number: nat, kind: byte)
    requires d.Valid() && IsRecognized(kind) && Found(TablesOf(d), number, 0) < 4 * |TablesOf(d)|
    ensures var ts, k := TablesOf(d), Found(TablesOf(d), number, 0);
            var was, now := LayoutOf(d), LayoutOf(AfterSet(d, number, kind));
            && |now| == |was| <= 4 * |ts|
            && forall j :: 0 <= j < |was| ==>
                 now[j] == if ts[j / 4].at.base == ts[k / 4].at.base && j % 4 == k % 4 then was[j].(kind := kind) else was[j]
  {
    hide Retyped, Layout, Tables, Found, IsRecognized, Sized;
    var ts := TablesOf(d);
    var k := Found(ts, number, 0);
    TablesAfterRetype(d, number, kind);
    var us := TablesOf(AfterSet(d, number, kind));
    FullLayoutIsSlots(ts, d.sectorSize, 4 * |ts|);
    assert |us| == |ts| by { RetypedLength(ts, us, ts[k / 4].at.base, k % 4, kind); }
    FullLayoutIsSlots(us, d.sectorSize, 4 * |us|);
    forall j | 0 <= j < Min(4 * |ts|, PARTITION_MAX)
      ensures LayoutOf(AfterSet(d, number, kind))[j] ==
              if ts[j / 4].at.base == ts[k / 4].at.base && j % 4 == k % 4 then LayoutOf(d)[j].(kind := kind) else LayoutOf(d)[j]
    {
      LayoutAfterRetype(ts, us, ts[k / 4].at.base, k % 4, kind, d.sectorSize, j);
    }
  }

  lemma RetypedLength(ts: seq<Table>, us: seq<Table>, lba: u32, slot: nat, kind: byte)
    ensures OnlyRetyped(ts, us, lba, slot, kind) ==> |us| == |ts|
  {
  }

  /** Unless the chain comes back to a table, that is exactly the entry that was asked for. */
  lemma SetInformationChangesOne(d: Disk, number: nat, kind: byte, j: nat)
    requires d.Valid() && IsRecognized(kind) && Found(TablesOf(d), number, 0) < 4 * |TablesOf(d)|
    requires var ts := TablesOf(d); forall i, j :: 0 <= i < j < |ts| ==> ts[i].at.base != ts[j].at.base
    requires j < |LayoutOf(d)|
    ensures |LayoutOf(AfterSet(d, number, kind))| == |LayoutOf(d)|
    ensures LayoutOf(AfterSet(d, number, kind))[j] ==
            if j == Found(TablesOf(d), number, 0) then LayoutOf(d)[j].(kind := kind) else LayoutOf(d)[j]
  {
    hide LayoutOf, TablesOf, AfterSet, Found, Sized, IsRecognized;
    SetInformationRereads(d, number, kind);
    var ts, k := TablesOf(d), Found(TablesOf(d), number, 0);
    assert j / 4 == k / 4 || ts[j / 4].at.base != ts[k / 4].at.base;
    assert j / 4 == k / 4 && j % 4 == k % 4 ==> j == k;
  }
}
