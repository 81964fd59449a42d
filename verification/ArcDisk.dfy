/** tools/mkarcdisk.py: a master boot record and empty FAT16 partitions on a disk image, as the firmware
    and the HAL then find them. */
module ArcDisk {
  import opened Words
  import opened Arithmetic
  import R = FatReader
  import O = FatOpen
  import G = Geometry
  import P = Partitions
  import W = PartitionWrite
  import L = Letters
  import FatPut

  const SIGNATURE: u32 := 0x4E54_4844
  const HUGE: byte := 0x06

  // ---- what is written -------------------------------------------------------------------------

  /** A partition to make; `sectors` 0 means up to the end of the disk. */
  datatype Spec = Spec(start: nat, sectors: nat, volumeName: seq<byte>)
  {
    function Length(disk: nat): int { if sectors == 0 then disk - start else sectors }
  }

  /** A slot of the table: bootable, of FAT16's kind, where it is and how long. */
  function SlotBytes(start: u32, sectors: u32, first: bool, chs: W.ChsCode): (s: seq<byte>)
    ensures |s| == 16
  {
    var a, b := chs(start), chs((start + sectors - 1) % WORD);
    [if first then 0x80 else 0x00, a.0, a.1, a.2, HUGE, b.0, b.1, b.2] + Bytes32(start) + Bytes32(sectors)
  }

  /** The table with its first slots filled. */
  function Mbr(slots: seq<seq<byte>>): (s: seq<byte>)
    requires |slots| <= 4 && forall i :: 0 <= i < |slots| ==> |slots[i]| == 16
    ensures |s| == 512
  {
    Zeros(440) + Bytes32(SIGNATURE) + Zeros(2) + Table(slots, 4) + [0x55, 0xAA]
  }

  function Table(slots: seq<seq<byte>>, n: nat): (s: seq<byte>)
    requires forall i :: 0 <= i < |slots| ==> |slots[i]| == 16
    ensures |s| == 16 * n
  {
    if n == 0 then [] else Table(slots, n - 1) + if n <= |slots| then slots[n - 1] else Zeros(16)
  }

  /** An empty FAT: the two reserved entries, and every cluster free. */
  function EmptyFat(spf: nat): (fat: seq<byte>)
    requires spf > 0
    ensures |fat| == spf * 512
  {
    [0xF8, 0xFF, 0xFF, 0xFF] + Zeros(spf * 512 - 4)
  }

  /** To the tool that fills the volume later, every cluster of it is free. */
  lemma EmptyFatIs(spf: nat, c: nat)
    requires spf > 0 && c * 2 + 2 <= spf * 512
    ensures FatPut.Next(EmptyFat(spf), c) == if c == 0 then 0xFFF8 else if c == 1 then 0xFFFF else 0
  {
  }

  /** An empty volume of this geometry at sector `start`. */
  ghost predicate Formatted(img: seq<byte>, start: nat, sectors: int, g: G.FatGeometry, spt: u16, heads: u16, volumeName: seq<byte>) {
    && |volumeName| == 11 && start < WORD && G.SECTORS_MIN <= sectors <= G.SECTORS_MAX && G.Fits(sectors, g) && g.spc < 0x100
    && (start + sectors) * 512 <= |img| && 1 + 2 * g.spf + 32 <= sectors
    && img[start * 512..start * 512 + 512] == G.BootSector(sectors, g.spc, g.spf, start, spt, heads, volumeName)
    && img[(start + 1) * 512..(start + 1 + g.spf) * 512] == EmptyFat(g.spf)
    && img[(start + 1 + g.spf) * 512..(start + 1 + 2 * g.spf) * 512] == EmptyFat(g.spf)
    && img[(start + 1 + 2 * g.spf) * 512..(start + 1 + 2 * g.spf + 32) * 512] == Zeros(32 * 512)
  }

  /** The tool accepts the partition. */
  predicate Accepted(spec: Spec, disk: nat) {
    spec.start + spec.Length(disk) <= disk && G.SECTORS_MIN <= spec.Length(disk) <= G.SECTORS_MAX
  }

  /** No partition overlaps another, or the master boot record. */
  ghost predicate Apart(specs: seq<Spec>, disk: nat) {
    && (forall i :: 0 <= i < |specs| ==> specs[i].start > 0)
    && forall i, j :: 0 <= i < j < |specs| ==>
         specs[i].start + specs[i].Length(disk) <= specs[j].start || specs[j].start + specs[j].Length(disk) <= specs[i].start
  }

  // ---- the tool --------------------------------------------------------------------------------

  /** Format one partition: boot sector, both FATs, an empty root directory. */
  method Format(img: seq<byte>, start: nat, sectors: int, spt: u16, heads: u16, volumeName: seq<byte>)
    returns (r: Option<seq<byte>>, ghost g: G.FatGeometry)
    requires |volumeName| == 11 && start < WORD && (start + sectors) * 512 <= |img|
    ensures r.Some? <==> G.SECTORS_MIN <= sectors <= G.SECTORS_MAX
    ensures r.Some? ==>
              && |r.value| == |img| && Formatted(r.value, start, sectors, g, spt, heads, volumeName)
              && forall p :: 0 <= p < |img| && !(start * 512 <= p < (start + sectors) * 512) ==> r.value[p] == img[p]
  {
    hide G.BootSector, G.Settled, EmptyFat, Splice;
    var geometry := G.Fat16Geometry(sectors);
    if geometry.None? {
      return None, G.FatGeometry(0, 0, 0, 0);
    }
    g := geometry.value;
    G.SmallFat(sectors, geometry.value);
    var spc, spf := geometry.value.spc, geometry.value.spf;
    var bs, fat := G.BootSector(sectors, spc, spf, start, spt, heads, volumeName), EmptyFat(spf);
    var a, b, c, d := start * 512, (start + 1) * 512, (start + 1 + spf) * 512, (start + 1 + 2 * spf) * 512;
    r := Some(Splice(Splice(Splice(Splice(img, a, bs), b, fat), c, fat), d, Zeros(32 * 512)));
    FourPieces(img, a, bs, b, fat, c, d, Zeros(32 * 512));
  }

  lemma FourPieces(img: seq<byte>, a: nat, bs: seq<byte>, b: nat, fat: seq<byte>, c: nat, d: nat, root: seq<byte>)
    requires a + |bs| == b && b + |fat| == c && c + |fat| == d && d + |root| <= |img|
    ensures var r := Splice(Splice(Splice(Splice(img, a, bs), b, fat), c, fat), d, root);
            && r[a..b] == bs && r[b..c] == fat && r[c..d] == fat && r[d..d + |root|] == root
            && forall p :: 0 <= p < |img| && !(a <= p < d + |root|) ==> r[p] == img[p]
  {
  }

  /** What stays formatted: a partition whose sectors are as they were. */
  lemma StaysFormatted(img: seq<byte>, now: seq<byte>, start: nat, sectors: int, g: G.FatGeometry, spt: u16, heads: u16, volumeName: seq<byte>)
    requires Formatted(img, start, sectors, g, spt, heads, volumeName) && |now| == |img|
    requires forall p :: start * 512 <= p < (start + sectors) * 512 ==> now[p] == img[p]
    ensures Formatted(now, start, sectors, g, spt, heads, volumeName)
  {
    hide G.BootSector, G.Fits, EmptyFat;
    Same(img, now, start * 512, start * 512 + 512);
    Same(img, now, (start + 1) * 512, (start + 1 + g.spf) * 512);
    Same(img, now, (start + 1 + g.spf) * 512, (start + 1 + 2 * g.spf) * 512);
    Same(img, now, (start + 1 + 2 * g.spf) * 512, (start + 1 + 2 * g.spf + 32) * 512);
  }

  /** The first `n` partitions are formatted. */
  ghost predicate AllFormatted(img: seq<byte>, disk: nat, specs: seq<Spec>, gs: seq<G.FatGeometry>, spt: u16, heads: u16, n: nat)
    requires n <= |specs| && n <= |gs|
  {
    forall i :: 0 <= i < n ==>
      Formatted(img, specs[i].start, specs[i].Length(disk), gs[i], spt, heads, specs[i].volumeName)
  }

  /** Writing between `a` and `b`, where none of them is, leaves them formatted. */
  lemma KeepsFormatted(img: seq<byte>, now: seq<byte>, disk: nat, specs: seq<Spec>, gs: seq<G.FatGeometry>, spt: u16, heads: u16,
                       n: nat, a: int, b: int)
    requires n <= |specs| && n <= |gs| && |now| == |img|
    requires forall p :: 0 <= p < |img| && !(a <= p < b) ==> now[p] == img[p]
    requires (a == 0 && b == 512 && n == |specs|)
             || (n < |specs| && a == specs[n].start * 512 && b == (specs[n].start + specs[n].Length(disk)) * 512)
    ensures Apart(specs, disk) && AllFormatted(img, disk, specs, gs, spt, heads, n) ==>
              AllFormatted(now, disk, specs, gs, spt, heads, n)
  {
    hide G.BootSector, G.Fits, EmptyFat, Zeros;
    if Apart(specs, disk) && AllFormatted(img, disk, specs, gs, spt, heads, n) {
      forall i | 0 <= i < n
        ensures Formatted(now, specs[i].start, specs[i].Length(disk), gs[i], spt, heads, specs[i].volumeName)
      {
        var from, to := specs[i].start * 512, (specs[i].start + specs[i].Length(disk)) * 512;
        assert to <= a || b <= from;
        StaysFormatted(img, now, specs[i].start, specs[i].Length(disk), gs[i], spt, heads, specs[i].volumeName);
      }
    }
  }

  lemma Same(img: seq<byte>, now: seq<byte>, a: nat, b: nat)
    requires a <= b <= |img| == |now| && forall p :: a <= p < b ==> now[p] == img[p]
    ensures now[a..b] == img[a..b]
  {
  }

  /** The slots of the first `n` partitions. */
  ghost predicate AreSlots(slots: seq<seq<byte>>, specs: seq<Spec>, disk: nat, chs: W.ChsCode, n: nat) {
    && |slots| == n <= |specs|
    && forall i :: 0 <= i < n ==>
         Accepted(specs[i], disk) && specs[i].start < WORD
         && slots[i] == SlotBytes(specs[i].start, specs[i].Length(disk), i == 0, chs)
  }

  /** The main program, on an image of whole sectors; None where it gives up: more than four partitions,
      one that runs off the disk, or one FAT16 cannot fill. */
  method MakeDisk(image: seq<byte>, disk: nat, specs: seq<Spec>, spt: u16, heads: u16, chs: W.ChsCode)
    returns (r: Option<seq<byte>>, ghost slots: seq<seq<byte>>, ghost gs: seq<G.FatGeometry>)
    requires |image| == disk * 512 && 0 < disk < WORD && forall i :: 0 <= i < |specs| ==> |specs[i].volumeName| == 11
    ensures r.Some? <==> |specs| <= 4 && forall i :: 0 <= i < |specs| ==> Accepted(specs[i], disk)
    ensures r.Some? ==>
              && |r.value| == |image| && |gs| == |specs| && AreSlots(slots, specs, disk, chs, |specs|)
              && r.value[..512] == Mbr(slots)
              && (Apart(specs, disk) ==> AllFormatted(r.value, disk, specs, gs, spt, heads, |specs|))
  {
    hide Formatted, Mbr, SlotBytes;
    slots, gs := [], [];
    if |specs| > 4 {
      return None, slots, gs;
    }
    for i := 0 to |specs|
      invariant forall j :: 0 <= j < i ==> specs[j].start + specs[j].Length(disk) <= disk
    {
      if specs[i].start + specs[i].Length(disk) > disk {
        return None, slots, gs;
      }
    }
    var img, table := image, [];
    for i := 0 to |specs|
      invariant |img| == |image| && table == slots && |gs| == i && AreSlots(slots, specs, disk, chs, i)
      invariant Apart(specs, disk) ==> AllFormatted(img, disk, specs, gs, spt, heads, i)
    {
      var start, sectors := specs[i].start, specs[i].Length(disk);
      if start >= WORD {                        // past the disk: no sectors to format
        return None, slots, gs;
      }
      var out;
      ghost var g;
      out, g := Format(img, start, sectors, spt, heads, specs[i].volumeName);
      if out.None? {
        return None, slots, gs;
      }
      KeepsFormatted(img, out.value, disk, specs, gs, spt, heads, i, start * 512, (start + sectors) * 512);
      img := out.value;
      table := table + [SlotBytes(start, sectors, i == 0, chs)];
      slots, gs := table, gs + [g];
    }
    ghost var before := img;
    img := Splice(img, 0, Mbr(table));
    assert img[..512] == Mbr(slots);
    KeepsFormatted(before, img, disk, specs, gs, spt, heads, |specs|, 0, 512);
    r := Some(img);
  }

  // ---- what the master boot record says --------------------------------------------------------

  lemma {:induction false} TableAt(slots: seq<seq<byte>>, n: nat, k: nat)
    requires k < n && forall i :: 0 <= i < |slots| ==> |slots[i]| == 16
    ensures Table(slots, n)[16 * k..16 * k + 16] == if k < |slots| then slots[k] else Zeros(16)
  {
    if k < n - 1 {
      TableAt(slots, n - 1, k);
      assert Table(slots, n)[16 * k..16 * k + 16] == Table(slots, n - 1)[16 * k..16 * k + 16];
    }
  }

  lemma MbrAt(slots: seq<seq<byte>>, k: nat)
    requires |slots| <= 4 && k < 4 && forall i :: 0 <= i < |slots| ==> |slots[i]| == 16
    ensures var m := Mbr(slots);
            && m[0] == 0 && Le32(m, 0x1B8) == 0x4E54_4844 && m[510] == 0x55 && m[511] == 0xAA
            && m[446 + 16 * k..446 + 16 * k + 16] == if k < |slots| then slots[k] else Zeros(16)
  {
    hide Table;
    TableAt(slots, 4, k);
    var m, t := Mbr(slots), Table(slots, 4);
    assert m[446..510] == t;
    var x := Bytes32(SIGNATURE);
    assert m[440..444] == x && x[0..4] == x;
    LongIs(m, 440, x, 0, SIGNATURE);
    assert m[446 + 16 * k..446 + 16 * k + 16] == t[16 * k..16 * k + 16];
  }

  /** The bytes of a slot of the image's table. */
  lemma SlotAt(m: seq<byte>, slots: seq<seq<byte>>, specs: seq<Spec>, disk: nat, chs: W.ChsCode, k: nat)
    requires k < 4 && |specs| <= 4 && AreSlots(slots, specs, disk, chs, |specs|) && disk < WORD
    requires |m| >= 512 && m[..512] == Mbr(slots)
    ensures m[0] == 0 && m[510] == 0x55 && m[511] == 0xAA
    ensures k >= |specs| ==> m[0x1C2 + 16 * k] == 0
    ensures k < |specs| ==>
              && m[0x1BE + 16 * k] == (if k == 0 then 0x80 else 0x00) && m[0x1C2 + 16 * k] == 0x06
              && Le32(m, 0x1C6 + 16 * k) == specs[k].start && Le32(m, 0x1CA + 16 * k) == specs[k].Length(disk)
  {
    hide Mbr, SlotBytes, Le32;
    MbrAt(slots, k);
    var e := m[..512][446 + 16 * k..446 + 16 * k + 16];
    assert forall i :: 0 <= i < 512 ==> m[i] == m[..512][i];
    assert forall i :: 0 <= i < 16 ==> m[446 + 16 * k + i] == e[i];
    if k < |specs| {
      var start, sectors: u32 := specs[k].start, specs[k].Length(disk);
      SlotBytesAt(start, sectors, k == 0, chs);
      assert e == SlotBytes(start, sectors, k == 0, chs);
      SliceOf(m, 446 + 16 * k, e);
      LongIs(m, 446 + 16 * k + 8, e, 8, start);
      LongIs(m, 446 + 16 * k + 12, e, 12, sectors);
    }
  }

  lemma SliceOf(m: seq<byte>, at: nat, e: seq<byte>)
    requires |e| == 16 && at + 16 <= |m| && forall i :: 0 <= i < 16 ==> m[at + i] == e[i]
    ensures m[at + 8..at + 12] == e[8..12] && m[at + 12..at + 16] == e[12..16]
  {
    assert forall i :: 8 <= i < 12 ==> m[at + i] == e[i];
  }

  lemma SlotBytesAt(start: u32, sectors: u32, first: bool, chs: W.ChsCode)
    ensures var e := SlotBytes(start, sectors, first, chs);
            && e[0] == (if first then 0x80 else 0x00) && e[4] == 0x06 && Le32(e, 8) == start && Le32(e, 12) == sectors
  {
    var e, a, b := SlotBytes(start, sectors, first, chs), Bytes32(start), Bytes32(sectors);
    assert e[8..12] == a && e[12..16] == b;
    assert a[0..4] == a && b[0..4] == b;
    LongIs(e, 8, a, 0, start);
    LongIs(e, 12, b, 0, sectors);
  }

  lemma LongIs(s: seq<byte>, at: nat, e: seq<byte>, from: nat, v: u32)
    requires at + 4 <= |s| && from + 4 <= |e| && s[at..at + 4] == e[from..from + 4]
    ensures Le32(e, from) == v ==> Le32(s, at) == v
  {
    var x, y := s[at..at + 4], e[from..from + 4];
    assert x[0] == s[at] && x[1] == s[at + 1] && x[2] == s[at + 2] && x[3] == s[at + 3];
    assert y[0] == e[from] && y[1] == e[from + 1] && y[2] == e[from + 2] && y[3] == e[from + 3];
  }

  // ---- the firmware ----------------------------------------------------------------------------

  /** A disk the tool made. */
  ghost predicate Made(img: seq<byte>, disk: nat, specs: seq<Spec>, slots: seq<seq<byte>>, gs: seq<G.FatGeometry>,
                       spt: u16, heads: u16, chs: W.ChsCode) {
    && |img| == disk * 512 && 0 < disk < WORD && |gs| == |specs| <= 4
    && AreSlots(slots, specs, disk, chs, |specs|) && img[..512] == Mbr(slots)
    && AllFormatted(img, disk, specs, gs, spt, heads, |specs|)
  }

  /** The volume the firmware should see on a partition. */
  function VolumeOn(img: seq<byte>, start: u32, g: G.FatGeometry): R.Volume
    requires 0 < g.spc < 0x100 && 1 + 2 * g.spf + 32 < WORD && 0 <= g.clusters + 2 < WORD
  {
    R.Volume(img, start, 512, g.spc, 1, 1 + 2 * g.spf, 32, 1 + 2 * g.spf + 32, g.clusters + 2, 0, 16)
  }

  /** Partition i + 1 is where the tool put the i-th, and there is none behind the last. */
  lemma PartitionsAre(img: seq<byte>, disk: nat, specs: seq<Spec>, slots: seq<seq<byte>>, chs: W.ChsCode, i: nat)
    requires |img| == disk * 512 && 0 < disk < WORD && |specs| <= 4
    requires AreSlots(slots, specs, disk, chs, |specs|) && img[..512] == Mbr(slots)
    ensures i < |specs| ==> O.FindPartition(img, i + 1) == O.Partition(specs[i].start, specs[i].Length(disk))
    ensures |specs| <= i < WORD - 1 ==> O.FindPartition(img, i + 1) == O.NoPartition(R.ENODEV)
  {
    hide Mbr, SlotBytes, O.FindPartition, Le32, O.UsedSlots;
    SlotAt(img, slots, specs, disk, chs, 0);
    AllUsed(img, slots, specs, disk, chs, 4);
    if i < WORD - 1 {
      O.PartitionIsSlot(img, i + 1);
      if i < |specs| {
        SlotAt(img, slots, specs, disk, chs, i);
        AllUsed(img, slots, specs, disk, chs, i);
        LongReads(img, 0x1C6 + 16 * i);
        LongReads(img, 0x1CA + 16 * i);
      } else {
        forall k | 0 <= k < 4 && img[0x1C2 + 16 * k] !in {0x00, 0x05, 0x0F}
          ensures |O.UsedSlots(img, k)| != i
        {
          SlotAt(img, slots, specs, disk, chs, k);
          AllUsed(img, slots, specs, disk, chs, k);
        }
      }
    }
  }

  lemma LongReads(s: seq<byte>, at: nat)
    requires at + 4 <= |s|
    ensures Le32(s, at) ==
            s[at] as int + 0x100 * (s[at + 1] as int) + 0x1_0000 * (s[at + 2] as int) + 0x100_0000 * (s[at + 3] as int)
  {
  }

  /** The partitions fill the table from its first slot on. */
  lemma {:induction false} AllUsed(img: seq<byte>, slots: seq<seq<byte>>, specs: seq<Spec>, disk: nat, chs: W.ChsCode, k: nat)
    requires k <= 4 && |specs| <= 4 && AreSlots(slots, specs, disk, chs, |specs|) && disk < WORD
    requires |img| >= 512 && img[..512] == Mbr(slots)
    ensures |O.UsedSlots(img, k)| == Min(k, |specs|)
  {
    hide Mbr, SlotBytes, Le32, O.UsedSlots;
    O.UsedSlotsNext(img, if k > 0 then k - 1 else 0);
    if k > 0 {
      AllUsed(img, slots, specs, disk, chs, k - 1);
      SlotAt(img, slots, specs, disk, chs, k - 1);
    }
  }

  /** The firmware mounts every partition as the empty FAT16 volume the tool laid out. */
  lemma PartitionMounts(img: seq<byte>, disk: nat, specs: seq<Spec>, slots: seq<seq<byte>>, gs: seq<G.FatGeometry>,
                        spt: u16, heads: u16, chs: W.ChsCode, i: nat)
    requires Made(img, disk, specs, slots, gs, spt, heads, chs) && i < |specs|
    ensures 0 < gs[i].spc < 0x100 && 1 + 2 * gs[i].spf + 32 < WORD && 0 <= gs[i].clusters + 2 < WORD && specs[i].start < WORD
    ensures O.Mount(img, i + 1) == O.Mounted(VolumeOn(img, specs[i].start, gs[i]))
  {
    hide Mbr, O.FindPartition, O.Geometry, G.BootSector, G.Settled, AreSlots;
    var start, sectors, g := specs[i].start, specs[i].Length(disk), gs[i];
    G.SmallFat(sectors, g);
    PartitionsAre(img, disk, specs, slots, chs, i);
    G.FirmwareAgrees(img, start, sectors, g, spt, heads, specs[i].volumeName);
  }

  /** Nothing is found on it under any name. */
  lemma NothingThere(img: seq<byte>, disk: nat, specs: seq<Spec>, slots: seq<seq<byte>>, gs: seq<G.FatGeometry>,
                     spt: u16, heads: u16, chs: W.ChsCode, i: nat, name: seq<byte>)
    requires Made(img, disk, specs, slots, gs, spt, heads, chs) && i < |specs|
    requires 0 < gs[i].spc < 0x100 && 1 + 2 * gs[i].spf + 32 < WORD && 0 <= gs[i].clusters + 2 < WORD && specs[i].start < WORD
    ensures O.DirLookup(VolumeOn(img, specs[i].start, gs[i]), 0, name) == O.Error(R.ENOENT)
  {
    hide Mbr, G.BootSector, G.Settled, G.Fits, AreSlots, O.EntriesScan, O.DirScan, O.Name83, EmptyFat;
    var v, nm := VolumeOn(img, specs[i].start, gs[i]), O.Name83(name);
    if nm.Some? {
      var at := (specs[i].start + 1 + 2 * gs[i].spf) * 512;
      O.LookupInRoot(v, nm.value, at);
      var root := img[at..at + 32 * 512];
      assert root == Zeros(32 * 512);
      O.ScanReads(16, root, nm.value, 0);
    }
  }

  // ---- the HAL ---------------------------------------------------------------------------------

  /** A disk with the tool's master boot record, as the HAL's sector reads find it. */
  ghost predicate Holds(d: P.Disk, disk: nat, specs: seq<Spec>, slots: seq<seq<byte>>, chs: W.ChsCode) {
    && d.Valid() && d.sectorSize == 512 && |d.sectors| == disk && 0 < disk < WORD && 0 !in d.bad
    && |specs| <= 4 && AreSlots(slots, specs, disk, chs, |specs|) && d.sectors[0] == Mbr(slots)
  }

  lemma OneTable(d: P.Disk, disk: nat, specs: seq<Spec>, slots: seq<seq<byte>>, chs: W.ChsCode)
    requires Holds(d, disk, specs, slots, chs)
    ensures P.TablesOf(d) == [P.Table(P.START, d.sectors[0])] && |P.LayoutOf(d)| == 4
  {
    hide Mbr, SlotBytes, P.Tables, P.Layout;
    var m := d.sectors[0];
    assert m[..512] == m;
    forall k | 0 <= k < 4
      ensures m[0x1C2 + 16 * k] !in {0x05, 0x0F} && m[510] == 0x55 && m[511] == 0xAA
    {
      SlotAt(m, slots, specs, disk, chs, k);
    }
    SlotAt(m, slots, specs, disk, chs, 0);
    P.WalkGoes(d, P.START, P.TABLES_MAX, 0);
    var ts := P.TablesOf(d);
    assert ts == [ts[0]] + ts[1..];
    P.FullLayoutIsSlots(ts, d.sectorSize, 4);
  }

  /** The HAL reads the partitions as they were asked for, all recognised and numbered from 1, the first
      one bootable, and nothing in the other slots. */
  lemma HalReads(d: P.Disk, disk: nat, specs: seq<Spec>, slots: seq<seq<byte>>, chs: W.ChsCode, k: nat)
    requires Holds(d, disk, specs, slots, chs) && k < 4
    ensures |P.LayoutOf(d)| == 4
    ensures k < |specs| ==>
              && 0 <= specs[k].Length(disk)
              && P.LayoutOf(d)[k] ==
                 P.Entry(specs[k].start * 512, specs[k].Length(disk) * 512, specs[k].start, k + 1, 0x06, k == 0, true)
    ensures k >= |specs| ==> P.LayoutOf(d)[k].kind == 0 && P.LayoutOf(d)[k].number == 0
  {
    hide Mbr, SlotBytes, P.Tables, P.Layout, P.Numbered, P.Describe, Le32;
    OneTable(d, disk, specs, slots, chs);
    var m, ts := d.sectors[0], P.TablesOf(d);
    assert m[..512] == m;
    SlotAt(m, slots, specs, disk, chs, k);
    P.EntryReads(d, k);
    P.KindsAre(m[0x1C2 + 16 * k]);
    P.FullLayoutIsSlots(ts, 512, 4);
    AllNumbered(d, disk, specs, slots, chs, if k < |specs| then k + 1 else |specs|);
    assert k / 4 == 0 && k % 4 == k;
    P.SlotReads(ts[0], k, 512, if P.IsRecognized(P.Kind(ts, k)) then P.Numbered(ts, false, k + 1) else 0);
    if k < |specs| {
      assert P.LayoutOf(d)[k].start == specs[k].start % 0x1_0000_0000 * 512;
    }
  }

  lemma {:induction false} AllNumbered(d: P.Disk, disk: nat, specs: seq<Spec>, slots: seq<seq<byte>>, chs: W.ChsCode, k: nat)
    requires Holds(d, disk, specs, slots, chs) && k <= |specs|
    ensures P.TablesOf(d) == [P.Table(P.START, d.sectors[0])] && P.Numbered(P.TablesOf(d), false, k) == k
  {
    hide Mbr, SlotBytes, P.Tables, P.Layout, P.Numbered, Le32;
    OneTable(d, disk, specs, slots, chs);
    var m := d.sectors[0];
    assert m[..512] == m;
    L.NumberedSteps(P.TablesOf(d), if k > 0 then k - 1 else 0);
    if k > 0 {
      AllNumbered(d, disk, specs, slots, chs, k - 1);
      SlotAt(m, slots, specs, disk, chs, k - 1);
      P.KindsAre(m[0x1C2 + 16 * (k - 1)]);
    }
  }

  /** Each gets its drive letter as a primary partition. */
  lemma AllArePrimary(d: P.Disk, disk: nat, specs: seq<Spec>, slots: seq<seq<byte>>, chs: W.ChsCode)
    requires Holds(d, disk, specs, slots, chs)
    ensures L.ScanOf(d) == seq(|specs|, k requires 0 <= k < |specs| => L.Part(k + 1, true))
  {
    hide P.Layout, P.Tables, Mbr, AreSlots;
    OneTable(d, disk, specs, slots, chs);
    ScansTo(d, disk, specs, slots, chs, 4);
  }

  lemma {:induction false} ScansTo(d: P.Disk, disk: nat, specs: seq<Spec>, slots: seq<seq<byte>>, chs: W.ChsCode, n: nat)
    requires Holds(d, disk, specs, slots, chs) && n <= 4 && |P.LayoutOf(d)| == 4
    ensures L.Scanned(P.LayoutOf(d), n) == seq(Min(n, |specs|), k requires 0 <= k < Min(n, |specs|) => L.Part(k + 1, true))
  {
    hide P.LayoutOf, Holds;
    if n > 0 {
      ScansTo(d, disk, specs, slots, chs, n - 1);
      HalReads(d, disk, specs, slots, chs, n - 1);
    }
  }
}
