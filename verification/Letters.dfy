/** Drive letters: scanning a disk's layout and handing letters out in NT's order, as HalpScanDisk
    and IoAssignDriveLetters do. */
module Letters {
  import opened Words
  import P = Partitions

  const MAX_DISKS := 8
  const MAX_PARTS := 24
  const LETTERS := 24
  const SCAN_SECTOR := 512

  /** A recognised partition of a disk: its number, and whether it is in the MBR's own slots. */
  datatype Part = Part(number: nat, primary: bool)

  // ---- HalpScanDisk ----------------------------------------------------------------------------

  /** The first `k` layout entries, as far as they are numbered. */
  function Scanned(layout: seq<P.Entry>, k: nat): (ps: seq<Part>)
    requires k <= |layout|
  {
    if k == 0 then []
    else
      var ps := Scanned(layout, k - 1);
      if layout[k - 1].number == 0 then ps else ps + [Part(layout[k - 1].number, k - 1 < 4)]
  }

  function Capped<T>(s: seq<T>, n: nat): seq<T> { if |s| <= n then s else s[..n] }

  /** A disk as reads of 512 bytes find it: the size HalpScanDisk asks for, whatever the disk's own
      sectors are. */
  ghost predicate Scannable(d: P.Disk) { d.Valid() && d.sectorSize == SCAN_SECTOR }

  /** None: the disk could not be opened.  Such a disk, and one that cannot be read, has no
      partitions. */
  method HalpScanDisk(dev: Option<P.Device>) returns (parts: seq<Part>)
    requires dev.Some? ==> Scannable(dev.value.disk)
    ensures |parts| <= MAX_PARTS
    ensures parts == if dev.None? then [] else ScanOf(dev.value.disk)
  {
    hide P.LayoutOf;
    parts := [];
    if dev.None? {
      return;
    }
    LayoutIsRead(dev.value.disk);
    var status, es, signature := P.IoReadPartitionTable(dev.value, SCAN_SECTOR, false);
    if status != P.STATUS_SUCCESS {
      return;
    }
    var k := 0;
    while k < |es| && |parts| < MAX_PARTS
      invariant k <= |es| && |parts| <= MAX_PARTS && parts == Scanned(es, k)
    {
      if es[k].number != 0 {
        parts := parts + [Part(es[k].number, k < 4)];
      }
      k := k + 1;
    }
    ScanGrows(es, k, |es|);
  }

  /** What IoReadPartitionTable returns is the disk's layout, which is empty if it fails. */
  lemma LayoutIsRead(d: P.Disk)
    requires d.Valid()
    ensures var ts := P.TablesOf(d);
            ts == P.Tables(d, P.START, P.TABLES_MAX) && P.LayoutOf(d) == P.Layout(ts, d.sectorSize, false, 4 * |ts|)
    ensures d.Read(0).None? ==> P.LayoutOf(d) == []
  {
    P.LayoutStart([], d.sectorSize);
  }

  lemma {:induction false} ScanGrows(es: seq<P.Entry>, j: nat, k: nat)
    requires j <= k <= |es|
    ensures |Scanned(es, j)| <= |Scanned(es, k)| && Scanned(es, k)[..|Scanned(es, j)|] == Scanned(es, j)
    decreases k - j
  {
    if j < k {
      ScanGrows(es, j, k - 1);
    }
  }

  /** Entry `k` of an unfiltered layout is in the master boot record exactly when k < 4: tables keep
      their four entries each.  What the scan calls primary is. */
  lemma PrimaryIsMbr(d: P.Disk, k: nat)
    requires d.Valid() && k < |P.LayoutOf(d)|
    ensures k / 4 < |P.TablesOf(d)| && P.LayoutOf(d)[k].kind == P.KindAt(P.TablesOf(d)[k / 4].sector, k % 4)
    ensures P.TablesOf(d)[k / 4].at.first <==> k < 4
  {
    var ts := P.TablesOf(d);
    P.FullLayoutIsSlots(ts, d.sectorSize, 4 * |ts|);
    OnlyFirstIsMbr(d, P.START, P.TABLES_MAX, k / 4);
  }

  lemma {:induction false} OnlyFirstIsMbr(d: P.Disk, c: P.Cursor, limit: nat, j: nat)
    requires d.Valid() && j < |P.Tables(d, c, limit)|
    ensures P.Tables(d, c, limit)[j].at.first == (if j == 0 then c.first else false)
    decreases limit
  {
    hide P.LinkOf, P.Tables, P.HasMagic;
    P.TablesNext(d, c, limit);
    if j > 0 {
      P.AfterIs(d, c, d.Read(c.base).value, limit);
      var l := P.LinkOf(d.Read(c.base).value, c, 4);
      OnlyFirstIsMbr(d, P.Cursor(l.next.value, l.ext, false), limit - 1, j - 1);
    }
  }

  /** A disk's numbers are distinct: the n-th recognised partition is number n. */
  lemma {:induction false} ScanNumbers(ts: seq<P.Table>, es: seq<P.Entry>, sectorSize: nat, k: nat)
    requires P.Sized(ts) && es == P.Layout(ts, sectorSize, false, 4 * |ts|) && k <= |es|
    ensures k <= 4 * |ts| && |Scanned(es, k)| == P.Numbered(ts, false, k)
    ensures forall j :: 0 <= j < |Scanned(es, k)| ==> Scanned(es, k)[j].number == j + 1
  {
    hide P.Layout, P.Numbered, P.Kind, P.IsRecognized;
    P.FullLayoutIsSlots(ts, sectorSize, 4 * |ts|);
    NumberedSteps(ts, if k > 0 then k - 1 else 0);
    if k > 0 {
      ScanNumbers(ts, es, sectorSize, k - 1);
      EntryNumber(ts, sectorSize, k - 1);
    }
  }

  lemma NumberedSteps(ts: seq<P.Table>, k: nat)
    requires P.Sized(ts) && k <= 4 * |ts|
    ensures P.Numbered(ts, false, 0) == 0
    ensures k < 4 * |ts| ==>
              P.Numbered(ts, false, k + 1) == P.Numbered(ts, false, k) + if P.IsRecognized(P.Kind(ts, k)) then 1 else 0
  {
  }

  lemma EntryNumber(ts: seq<P.Table>, sectorSize: nat, k: nat)
    requires P.Sized(ts) && k < |P.Layout(ts, sectorSize, false, 4 * |ts|)|
    ensures k < 4 * |ts|
    ensures P.Layout(ts, sectorSize, false, 4 * |ts|)[k].number ==
            if P.IsRecognized(P.Kind(ts, k)) then P.Numbered(ts, false, k + 1) else 0
  {
    hide P.Layout, P.Numbered, P.KindAt, P.IsRecognized;
    P.FullLayoutIsSlots(ts, sectorSize, 4 * |ts|);
  }

  /** The partitions HalpScanDisk records of a disk. */
  ghost function ScanOf(d: P.Disk): (parts: seq<Part>)
    requires Scannable(d)
    ensures |parts| <= MAX_PARTS
  {
    Capped(Scanned(P.LayoutOf(d), |P.LayoutOf(d)|), MAX_PARTS)
  }

  /** The recognised slots of the first sixteen tables. */
  ghost function RecognizedSlots(ts: seq<P.Table>, k: nat): set<nat>
    requires P.Sized(ts) && k <= 4 * |ts|
  {
    set j: nat | j < k && P.IsRecognized(P.Kind(ts, j))
  }

  lemma {:induction false} NumberedIsCount(ts: seq<P.Table>, k: nat)
    requires P.Sized(ts) && k <= 4 * |ts|
    ensures P.Numbered(ts, false, k) == |RecognizedSlots(ts, k)|
  {
    hide P.Kind, P.IsRecognized, P.Numbered;
    NumberedSteps(ts, if k > 0 then k - 1 else 0);
    if k > 0 {
      NumberedIsCount(ts, k - 1);
      var was, now := RecognizedSlots(ts, k - 1), RecognizedSlots(ts, k);
      if P.IsRecognized(P.Kind(ts, k - 1)) {
        assert now == was + {k - 1};
      } else {
        assert now == was;
      }
    } else {
      assert RecognizedSlots(ts, 0) == {};
    }
  }

  /** As many partitions are found on a disk as the first 64 slots have recognised ones, but 24 at
      most. */
  lemma ScanCounts(d: P.Disk)
    requires Scannable(d)
    ensures var slots := 4 * |P.TablesOf(d)|;
            |ScanOf(d)| == Min(24, |RecognizedSlots(P.TablesOf(d), Min(64, slots))|)
  {
    hide P.Layout, P.Numbered, P.Tables, Scanned, RecognizedSlots;
    var ts, es := P.TablesOf(d), P.LayoutOf(d);
    P.FullLayoutIsSlots(ts, d.sectorSize, 4 * |ts|);
    ScanNumbers(ts, es, d.sectorSize, |es|);
    NumberedIsCount(ts, |es|);
  }

  /** The slot of the disk's tables that the name of its partition `number` stands for. */
  ghost function SlotOf(d: P.Disk, number: nat): nat
    requires d.Valid()
  {
    P.Found(P.TablesOf(d), number, 0)
  }

  /** Every partition scanned is from an entry of the layout. */
  lemma {:induction false} ScannedFrom(es: seq<P.Entry>, k: nat, i: nat) returns (j: nat)
    requires k <= |es| && i < |Scanned(es, k)|
    ensures j < k && es[j].number != 0 && Scanned(es, k)[i] == Part(es[j].number, j < 4)
    decreases k
  {
    if i < |Scanned(es, k - 1)| {
      j := ScannedFrom(es, k - 1, i);
    } else {
      j := k - 1;
    }
  }

  /** The k-th partition scanned is partition k + 1: a recognised slot, found under that number again
      by the other walker, and primary exactly when its table is the master boot record. */
  lemma ScannedIsPartition(d: P.Disk, k: nat)
    requires Scannable(d) && k < |ScanOf(d)|
    ensures var ts, slot := P.TablesOf(d), SlotOf(d, k + 1);
            && ScanOf(d)[k].number == k + 1
            && slot < 4 * |ts| && P.IsRecognized(P.Kind(ts, slot))
            && (ScanOf(d)[k].primary <==> ts[slot / 4].at.first)
  {
    hide P.Layout, P.Tables, P.Found, P.Numbered, P.IsRecognized, P.KindAt, Scanned;
    var ts, es := P.TablesOf(d), P.LayoutOf(d);
    ScanNumbers(ts, es, d.sectorSize, |es|);
    var j := ScannedFrom(es, |es|, k);
    EntryNumber(ts, d.sectorSize, j);
    P.WalkersAgree(d, j);
    PrimaryIsMbr(d, j);
  }

  // ---- NT's order ------------------------------------------------------------------------------

  /** A volume to be lettered: partition `index` of a disk, the disk as a whole when the scan found
      nothing on it, or a CD-ROM. */
  datatype Volume = OnDisk(disk: nat, index: nat) | WholeDisk(disk: nat) | Optical(n: nat)

  /** The first primary of a disk from index `from` on; MAX_PARTS if there is none. */
  function FirstPrimary(parts: seq<Part>, from: nat): (f: nat)
    ensures f < |parts| <= MAX_PARTS ==> f >= from && parts[f].primary
    ensures forall k :: from <= k < |parts| && k < f ==> !parts[k].primary
    ensures f <= MAX_PARTS || f < |parts|
    decreases |parts| - from
  {
    if from >= |parts| then MAX_PARTS
    else if parts[from].primary then from
    else FirstPrimary(parts, from + 1)
  }

  /** The pass that letters a partition: 0 its disk's first primary, 1 the logical drives, 2 the
      other primaries. */
  function PassOf(parts: seq<Part>, k: nat): nat
    requires k < |parts|
  {
    if !parts[k].primary then 1 else if k == FirstPrimary(parts, 0) then 0 else 2
  }

  /** What a pass letters of disk `d` from index `k` on. */
  ghost function RestOfDisk(parts: seq<Part>, pass: nat, d: nat, k: nat): seq<Volume>
    decreases |parts| - k
  {
    if k >= |parts| then []
    else (if PassOf(parts, k) == pass then [OnDisk(d, k)] else []) + RestOfDisk(parts, pass, d, k + 1)
  }

  ghost function OfDisk(parts: seq<Part>, pass: nat, d: nat): seq<Volume> {
    if parts != [] then RestOfDisk(parts, pass, d, 0)
    else if pass == 0 then [WholeDisk(d)]
    else []
  }

  /** What a pass letters from disk `d` on. */
  ghost function RestOfPass(disks: seq<seq<Part>>, pass: nat, d: nat): seq<Volume>
    decreases |disks| - d
  {
    if d >= |disks| then [] else OfDisk(disks[d], pass, d) + RestOfPass(disks, pass, d + 1)
  }

  ghost function Order(disks: seq<seq<Part>>, pass: nat): seq<Volume>
    decreases 3 - pass
  {
    if pass >= 3 then [] else RestOfPass(disks, pass, 0) + Order(disks, pass + 1)
  }

  // ---- what the order is -----------------------------------------------------------------------

  /** `v` is one of the scanned volumes of the disks. */
  predicate Exists(disks: seq<seq<Part>>, v: Volume) {
    match v
    case OnDisk(d, k) => d < |disks| && k < |disks[d]|
    case WholeDisk(d) => d < |disks| && disks[d] == []
    case Optical(_) => false
  }

  /** Pass, then disk, then place on the disk. */
  ghost predicate Precedes(disks: seq<seq<Part>>, a: Volume, b: Volume)
    requires Exists(disks, a) && Exists(disks, b)
  {
    var p, q := Rank(disks, a), Rank(disks, b);
    p < q || (p == q && (a.disk < b.disk || (a.disk == b.disk && a.OnDisk? && b.OnDisk? && a.index < b.index)))
  }

  ghost function Rank(disks: seq<seq<Part>>, v: Volume): nat
    requires Exists(disks, v)
  {
    if v.OnDisk? then PassOf(disks[v.disk], v.index) else 0
  }

  /** Volumes of pass `pass` and later, from disk `d` on in pass `pass`, and in order. */
  ghost predicate InOrder(disks: seq<seq<Part>>, s: seq<Volume>, pass: nat, d: nat) {
    && (forall i :: 0 <= i < |s| ==>
          Exists(disks, s[i]) && (Rank(disks, s[i]) > pass || (Rank(disks, s[i]) == pass && s[i].disk >= d)))
    && (forall i, j :: 0 <= i < j < |s| ==> Precedes(disks, s[i], s[j]))
  }

  lemma {:induction false} DiskInOrder(disks: seq<seq<Part>>, pass: nat, d: nat, k: nat)
    requires d < |disks|
    ensures var s := RestOfDisk(disks[d], pass, d, k);
            && InOrder(disks, s, pass, d)
            && (forall i :: 0 <= i < |s| ==> s[i].OnDisk? && s[i].disk == d && s[i].index >= k && Rank(disks, s[i]) == pass)
    decreases |disks[d]| - k
  {
    hide PassOf, InOrder;
    NothingInOrder(disks, pass, d);
    if k < |disks[d]| {
      DiskInOrder(disks, pass, d, k + 1);
      if PassOf(disks[d], k) == pass {
        FirstInOrder(disks, OnDisk(d, k), RestOfDisk(disks[d], pass, d, k + 1), pass, d);
      } else {
        assert [] + RestOfDisk(disks[d], pass, d, k + 1) == RestOfDisk(disks[d], pass, d, k + 1);
      }
    }
  }

  lemma FirstInOrder(disks: seq<seq<Part>>, v: Volume, s: seq<Volume>, pass: nat, d: nat)
    requires InOrder(disks, s, pass, d) && v.OnDisk? && v.disk == d && Exists(disks, v) && Rank(disks, v) == pass
    requires forall i :: 0 <= i < |s| ==> s[i].OnDisk? && s[i].disk == d && s[i].index > v.index && Rank(disks, s[i]) == pass
    ensures InOrder(disks, [v] + s, pass, d)
  {
    hide Rank;
  }

  lemma JoinInOrder(disks: seq<seq<Part>>, a: seq<Volume>, b: seq<Volume>, pass: nat, d: nat)
    requires InOrder(disks, a, pass, d) && InOrder(disks, b, pass, d + 1)
    requires forall i :: 0 <= i < |a| ==> Rank(disks, a[i]) == pass && a[i].disk == d
    ensures InOrder(disks, a + b, pass, d)
  {
    hide PassOf, Rank;
    var s := a + b;
    assert forall i :: 0 <= i < |s| ==> s[i] == if i < |a| then a[i] else b[i - |a|];
  }

  lemma {:induction false} PassInOrder(disks: seq<seq<Part>>, pass: nat, d: nat)
    ensures var s := RestOfPass(disks, pass, d);
            InOrder(disks, s, pass, d) && forall i :: 0 <= i < |s| ==> Rank(disks, s[i]) == pass
    decreases |disks| - d
  {
    hide PassOf, RestOfDisk, InOrder, OfDisk;
    NothingInOrder(disks, pass, d);
    if d < |disks| {
      PassInOrder(disks, pass, d + 1);
      OfDiskInOrder(disks, pass, d);
      JoinInOrder(disks, OfDisk(disks[d], pass, d), RestOfPass(disks, pass, d + 1), pass, d);
      ItsVolumesExist(disks, OfDisk(disks[d], pass, d), pass, d);
      ItsVolumesExist(disks, RestOfPass(disks, pass, d + 1), pass, d + 1);
    }
  }

  lemma NothingInOrder(disks: seq<seq<Part>>, pass: nat, d: nat)
    ensures InOrder(disks, [], pass, d)
  {
  }

  lemma ItsVolumesExist(disks: seq<seq<Part>>, s: seq<Volume>, pass: nat, d: nat)
    ensures InOrder(disks, s, pass, d) ==> forall i :: 0 <= i < |s| ==> Exists(disks, s[i])
  {
  }

  lemma OfDiskInOrder(disks: seq<seq<Part>>, pass: nat, d: nat)
    requires d < |disks|
    ensures var s := OfDisk(disks[d], pass, d);
            InOrder(disks, s, pass, d) && forall i :: 0 <= i < |s| ==> Rank(disks, s[i]) == pass && s[i].disk == d
  {
    hide PassOf, RestOfDisk;
    DiskInOrder(disks, pass, d, 0);
  }

  lemma {:induction false} OrderIsInOrder(disks: seq<seq<Part>>, pass: nat)
    ensures InOrder(disks, Order(disks, pass), pass, 0)
    decreases 3 - pass
  {
    hide PassOf, RestOfPass;
    if pass < 3 {
      PassInOrder(disks, pass, 0);
      OrderIsInOrder(disks, pass + 1);
    }
  }

  lemma {:induction false} OnItsDisk(parts: seq<Part>, d: nat, from: nat, k: nat)
    requires from <= k < |parts|
    ensures OnDisk(d, k) in RestOfDisk(parts, PassOf(parts, k), d, from)
    decreases k - from
  {
    if from < k {
      OnItsDisk(parts, d, from + 1, k);
    }
  }

  lemma {:induction false} InItsPass(disks: seq<seq<Part>>, pass: nat, from: nat, d: nat, v: Volume)
    requires from <= d < |disks| && v in OfDisk(disks[d], pass, d)
    ensures v in RestOfPass(disks, pass, from)
    decreases d - from
  {
    hide OfDisk;
    if from < d {
      InItsPass(disks, pass, from + 1, d, v);
    }
  }

  /** Every partition and every unread disk comes up exactly once, first primaries before logical
      drives before the other primaries, each by disk and by place: the three passes are a
      bijection onto the volumes, in NT's order. */
  lemma OrderIsNts(disks: seq<seq<Part>>)
    ensures var s := Order(disks, 0);
            && (forall v :: Exists(disks, v) <==> v in s)
            && (forall i, j :: 0 <= i < j < |s| ==> Exists(disks, s[i]) && Exists(disks, s[j]) && Precedes(disks, s[i], s[j]))
            && (forall i, j :: 0 <= i < j < |s| ==> s[i] != s[j])
  {
    hide PassOf, RestOfPass, RestOfDisk, OfDisk;
    var s := Order(disks, 0);
    OrderIsInOrder(disks, 0);
    forall v | Exists(disks, v)
      ensures v in s
    {
      ItComesUp(disks, v);
    }
  }

  /** The first partition of its disk in the master boot record, or a disk nothing was found on. */
  ghost predicate ComesFirst(disks: seq<seq<Part>>, v: Volume)
    requires Exists(disks, v)
  {
    v.OnDisk? ==> disks[v.disk][v.index].primary && forall m :: 0 <= m < v.index ==> !disks[v.disk][m].primary
  }

  ghost predicate IsLogical(disks: seq<seq<Part>>, v: Volume)
    requires Exists(disks, v)
  {
    v.OnDisk? && !disks[v.disk][v.index].primary
  }

  /** Each disk's first primary comes before all logical drives, these before the other primaries, and
      within each of the three kinds it goes by disk and then by place on the disk. */
  lemma LettersByKind(disks: seq<seq<Part>>, i: nat, j: nat)
    requires i < j < |Order(disks, 0)| && forall d :: 0 <= d < |disks| ==> |disks[d]| <= 24
    ensures var a, b := Order(disks, 0)[i], Order(disks, 0)[j];
            && Exists(disks, a) && Exists(disks, b)
            && (ComesFirst(disks, b) ==> ComesFirst(disks, a))
            && (IsLogical(disks, b) ==> ComesFirst(disks, a) || IsLogical(disks, a))
            && ((ComesFirst(disks, a) <==> ComesFirst(disks, b)) && (IsLogical(disks, a) <==> IsLogical(disks, b)) ==>
                  a.disk < b.disk || (a.disk == b.disk && a.OnDisk? && b.OnDisk? && a.index < b.index))
  {
    hide Order, PassOf, ComesFirst, IsLogical;
    OrderIsNts(disks);
    RankIs(disks, Order(disks, 0)[i]);
    RankIs(disks, Order(disks, 0)[j]);
  }

  lemma RankIs(disks: seq<seq<Part>>, v: Volume)
    requires Exists(disks, v) && forall d :: 0 <= d < |disks| ==> |disks[d]| <= 24
    ensures Rank(disks, v) == if ComesFirst(disks, v) then 0 else if IsLogical(disks, v) then 1 else 2
  {
    hide FirstPrimary;
  }

  lemma ItComesUp(disks: seq<seq<Part>>, v: Volume)
    requires Exists(disks, v)
    ensures v in Order(disks, 0)
  {
    hide PassOf, RestOfPass, RestOfDisk;
    var pass, parts := Rank(disks, v), disks[v.disk];
    if v.OnDisk? {
      OnItsDisk(parts, v.disk, 0, v.index);
      ThreePasses(parts, v.index);
    }
    InItsPass(disks, pass, 0, v.disk, v);
    InItsOrder(disks, 0, pass, v);
  }

  lemma ThreePasses(parts: seq<Part>, k: nat)
    ensures k < |parts| ==> PassOf(parts, k) < 3
  {
  }

  lemma {:induction false} InItsOrder(disks: seq<seq<Part>>, from: nat, pass: nat, v: Volume)
    requires from <= pass < 3 && v in RestOfPass(disks, pass, 0)
    ensures v in Order(disks, from)
    decreases pass - from
  {
    hide RestOfPass;
    if from < pass {
      InItsOrder(disks, from + 1, pass, v);
    }
  }

  // ---- IoAssignDriveLetters --------------------------------------------------------------------

  /** A device name, as the numbers in it. */
  datatype Device = Floppy(n: nat) | Harddisk(disk: nat, partition: nat) | CdRom(n: nat)

  datatype Link = Link(letter: char, device: Device)

  function DeviceOf(disks: seq<seq<Part>>, v: Volume): Device
    requires v.Optical? || Exists(disks, v)
  {
    match v
    case OnDisk(d, k) => Harddisk(d, disks[d][k].number)
    case WholeDisk(d) => Harddisk(d, 1)
    case Optical(n) => CdRom(n)
  }

  function CdRoms(from: nat, n: nat): seq<Volume>
    decreases n - from
  {
    if from >= n then [] else [Optical(from)] + CdRoms(from + 1, n)
  }

  /** Everything that wants a letter from C on. */
  ghost function Wanting(disks: seq<seq<Part>>, cdroms: nat): seq<Volume> {
    Order(disks, 0) + CdRoms(0, cdroms)
  }

  /** The letter of the last link to the boot device. */
  function BootLetter(links: seq<Link>, boot: Device): Option<char> {
    if links == [] then None
    else
      var l := links[|links| - 1];
      if l.device == boot then Some(l.letter) else BootLetter(links[..|links| - 1], boot)
  }

  function LetterAt(i: nat): char
    requires i < LETTERS
  {
    ('C' as int + i) as char
  }

  ghost predicate Letterable(disks: seq<seq<Part>>, s: seq<Volume>) {
    |s| <= LETTERS && forall i :: 0 <= i < |s| ==> s[i].Optical? || Exists(disks, s[i])
  }

  /** Links from C on. */
  ghost function Lettered(disks: seq<seq<Part>>, s: seq<Volume>): (links: seq<Link>)
    requires Letterable(disks, s)
    ensures |links| == |s| && forall i :: 0 <= i < |s| ==> links[i] == Link(LetterAt(i), DeviceOf(disks, s[i]))
  {
    seq(|s|, i requires 0 <= i < |s| => Link(LetterAt(i), DeviceOf(disks, s[i])))
  }

  function Floppies(n: nat): (links: seq<Link>)
    requires n <= 2
    ensures |links| == n && forall i :: 0 <= i < n ==> links[i] == Link(('A' as int + i) as char, Floppy(i))
  {
    seq(n, i requires 0 <= i < n => Link(('A' as int + i) as char, Floppy(i)))
  }

  /** Link `i` from C on, and how many there are: up to Z. */
  lemma LetterIs(disks: seq<seq<Part>>, w: seq<Volume>, i: nat)
    requires Letterable(disks, w) && i < |w|
    ensures i < 24 && Lettered(disks, w)[i].letter as int == 'C' as int + i && Lettered(disks, w)[i].letter <= 'Z'
    ensures Lettered(disks, w)[i].device ==
            (match w[i] case OnDisk(d, k) => Harddisk(d, disks[d][k].number) case WholeDisk(d) => Harddisk(d, 1)
                        case Optical(n) => CdRom(n))
    ensures forall all: seq<Volume> :: |Capped(all, LETTERS)| == if |all| < 24 then |all| else 24
  {
  }

  /** What has been lettered with what is still to come, as far as the letters go. */
  ghost predicate Toward(whole: seq<Volume>, given: seq<Volume>, rest: seq<Volume>) {
    |given| <= LETTERS && Capped(given + rest, LETTERS) == whole
  }

  lemma OneMore(whole: seq<Volume>, given: seq<Volume>, v: Volume, rest: seq<Volume>)
    requires Toward(whole, given, [v] + rest) && |given| < LETTERS
    ensures Toward(whole, given + [v], rest)
  {
    assert given + ([v] + rest) == (given + [v]) + rest;
  }

  lemma Regroup(whole: seq<Volume>, given: seq<Volume>, a: seq<Volume>, b: seq<Volume>, c: seq<Volume>)
    ensures Toward(whole, given, (a + b) + c) == Toward(whole, given, a + (b + c))
    ensures Toward(whole, given, [] + c) == Toward(whole, given, c)
  {
    assert (a + b) + c == a + (b + c);
    assert [] + c == c;
  }

  /** When the letters are used up the rest does not matter. */
  lemma UsedUp(whole: seq<Volume>, given: seq<Volume>, a: seq<Volume>, b: seq<Volume>)
    requires Toward(whole, given, a) && |given| == LETTERS
    ensures Toward(whole, given, b) && given == whole
  {
    assert given + a == given + a[..0] + a;
  }

  /** IoAssignDriveLetters with its local variables. */
  class Assignment {
    const disks: seq<seq<Part>>
    const boot: Device
    var links: seq<Link>
    var bootLetter: Option<char>
    var letter: char
    ghost var floppyCount: nat
    ghost var given: seq<Volume>

    constructor (scanned: seq<seq<Part>>, bootDevice: Device)
      requires |scanned| <= MAX_DISKS && forall d :: 0 <= d < |scanned| ==> |scanned[d]| <= MAX_PARTS
      ensures Valid() && links == [] && disks == scanned && boot == bootDevice && letter == 'A'
    {
      disks, boot, links, bootLetter, letter, floppyCount, given := scanned, bootDevice, [], None, 'A', 0, [];
    }

    ghost predicate Valid()
      reads this
    {
      && |disks| <= MAX_DISKS && (forall d :: 0 <= d < |disks| ==> |disks[d]| <= MAX_PARTS)
      && floppyCount <= 2 && Letterable(disks, given)
      && links == Floppies(floppyCount) + Lettered(disks, given)
      && bootLetter == BootLetter(links, boot)
    }

    ghost predicate FromC()
      reads this
    {
      Valid() && letter as int == 'C' as int + |given|
    }

    /** HalpMakeDosDevice, and the look whether it was the boot device. */
    method Make(at: char, device: Device)
      requires bootLetter == BootLetter(links, boot)
      modifies `links, `bootLetter
      ensures links == old(links) + [Link(at, device)] && bootLetter == BootLetter(links, boot)
    {
      links := links + [Link(at, device)];
      if device == boot {
        bootLetter := Some(at);
      }
    }

    method MakeNext(device: Device, ghost v: Volume)
      requires FromC() && letter <= 'Z' && (v.Optical? || Exists(disks, v)) && device == DeviceOf(disks, v)
      modifies `links, `bootLetter, `letter, `given
      ensures FromC() && given == old(given) + [v]
    {
      hide BootLetter;
      Make(letter, device);
      letter := (letter as int + 1) as char;
      ghost var was := given;
      given := given + [v];
      assert Lettered(disks, given) == Lettered(disks, was) + [Link(LetterAt(|was|), device)];
    }

    /** Floppies from A, the disks' partitions from C in NT's order, then the CD-ROMs, as long as
        there are letters. */
    method IoAssignDriveLetters(floppies: nat, cdroms: nat)
      requires Valid() && links == [] && given == [] && floppyCount == 0
      modifies `links, `bootLetter, `letter, `given, `floppyCount
      ensures Letterable(disks, Capped(Wanting(disks, cdroms), LETTERS))
      ensures links == Floppies(Min(floppies, 2)) + Lettered(disks, Capped(Wanting(disks, cdroms), LETTERS))
      ensures bootLetter == BootLetter(links, boot)
    {
      hide Order, BootLetter;
      ghost var whole := Capped(Wanting(disks, cdroms), LETTERS);
      var i := 0;
      while i < floppies && i < 2
        invariant i <= 2 && i <= floppies && Valid() && given == [] && floppyCount == i
      {
        Make(('A' as int + i) as char, Floppy(i));
        floppyCount := floppyCount + 1;
        i := i + 1;
      }
      assert [] + Wanting(disks, cdroms) == Wanting(disks, cdroms);
      letter := 'C';
      var pass := 0;
      while pass < 3 && letter <= 'Z'
        invariant pass <= 3 && FromC() && floppyCount == Min(floppies, 2)
        invariant Toward(whole, given, Order(disks, pass) + CdRoms(0, cdroms))
      {
        OrderStep(disks, pass);
        Regroup(whole, given, RestOfPass(disks, pass, 0), Order(disks, pass + 1), CdRoms(0, cdroms));
        OnePass(pass, whole, Order(disks, pass + 1) + CdRoms(0, cdroms));
        pass := pass + 1;
      }
      if letter <= 'Z' {
        OrderStep(disks, 3);
        Regroup(whole, given, [], [], CdRoms(0, cdroms));
      } else {
        UsedUp(whole, given, Order(disks, pass) + CdRoms(0, cdroms), CdRoms(0, cdroms));
      }
      Opticals(cdroms, whole);
    }

    method OnePass(pass: nat, ghost whole: seq<Volume>, ghost later: seq<Volume>)
      requires FromC() && pass < 3 && Toward(whole, given, RestOfPass(disks, pass, 0) + later)
      modifies `links, `bootLetter, `letter, `given
      ensures FromC() && Toward(whole, given, later)
    {
      hide RestOfPass, FirstPrimary, Lettered, BootLetter, Toward;
      var d := 0;
      while d < |disks| && letter <= 'Z'
        invariant d <= |disks| && FromC() && Toward(whole, given, RestOfPass(disks, pass, d) + later)
      {
        PassStep(disks, pass, d);
        ghost var behind := RestOfPass(disks, pass, d + 1) + later;
        Regroup(whole, given, OfDisk(disks[d], pass, d), RestOfPass(disks, pass, d + 1), later);
        var first := FindFirst(disks[d]);
        if |disks[d]| == 0 {
          if pass == 0 {
            OneMore(whole, given, WholeDisk(d), behind);
            MakeNext(Harddisk(d, 1), WholeDisk(d));
          } else {
            Regroup(whole, given, [], [], behind);
          }
        } else {
          OneDisk(d, pass, first, whole, behind);
        }
        d := d + 1;
      }
      if letter <= 'Z' {
        PassStep(disks, pass, d);
        Regroup(whole, given, [], [], later);
      } else {
        UsedUp(whole, given, RestOfPass(disks, pass, d) + later, later);
      }
    }

    method OneDisk(d: nat, pass: nat, first: nat, ghost whole: seq<Volume>, ghost later: seq<Volume>)
      requires FromC() && d < |disks| && disks[d] != [] && first == FirstPrimary(disks[d], 0) && pass < 3
      requires Toward(whole, given, OfDisk(disks[d], pass, d) + later)
      modifies `links, `bootLetter, `letter, `given
      ensures FromC() && Toward(whole, given, later)
    {
      hide RestOfDisk, FirstPrimary, Lettered, BootLetter, Toward;
      var k, parts := 0, disks[d];
      while k < |parts| && letter <= 'Z'
        invariant k <= |parts| && FromC() && Toward(whole, given, RestOfDisk(parts, pass, d, k) + later)
      {
        DiskStep(parts, pass, d, k, later);
        var primary := parts[k].primary;
        k := k + 1;
        if pass == 0 && k - 1 != first { continue; }
        if pass == 1 && primary { continue; }
        if pass == 2 && (!primary || k - 1 == first) { continue; }
        OneMore(whole, given, OnDisk(d, k - 1), RestOfDisk(parts, pass, d, k) + later);
        MakeNext(Harddisk(d, parts[k - 1].number), OnDisk(d, k - 1));
      }
      if letter <= 'Z' {
        DiskStep(parts, pass, d, k, later);
      } else {
        UsedUp(whole, given, RestOfDisk(parts, pass, d, k) + later, later);
      }
    }

    method Opticals(cdroms: nat, ghost whole: seq<Volume>)
      requires FromC() && Toward(whole, given, CdRoms(0, cdroms))
      modifies `links, `bootLetter, `letter, `given
      ensures FromC() && given == whole
    {
      hide Lettered, BootLetter, Toward;
      var i := 0;
      while i < cdroms && letter <= 'Z'
        invariant i <= cdroms && FromC() && Toward(whole, given, CdRoms(i, cdroms))
      {
        OneMore(whole, given, Optical(i), CdRoms(i + 1, cdroms));
        MakeNext(CdRom(i), Optical(i));
        i := i + 1;
      }
      if letter <= 'Z' {
        AllGiven(whole, given);
      } else {
        UsedUp(whole, given, CdRoms(i, cdroms), []);
      }
    }
  }

  lemma AllGiven(whole: seq<Volume>, given: seq<Volume>)
    requires Toward(whole, given, [])
    ensures given == whole
  {
    assert given + [] == given;
  }

  lemma OrderStep(disks: seq<seq<Part>>, pass: nat)
    ensures Order(disks, pass) == if pass >= 3 then [] else RestOfPass(disks, pass, 0) + Order(disks, pass + 1)
  {
  }

  lemma PassStep(disks: seq<seq<Part>>, pass: nat, d: nat)
    ensures RestOfPass(disks, pass, d) ==
            if d >= |disks| then [] else OfDisk(disks[d], pass, d) + RestOfPass(disks, pass, d + 1)
  {
  }

  lemma DiskStep(parts: seq<Part>, pass: nat, d: nat, k: nat, later: seq<Volume>)
    ensures k >= |parts| ==> RestOfDisk(parts, pass, d, k) + later == later
    ensures k < |parts| ==>
              RestOfDisk(parts, pass, d, k) + later ==
              if PassOf(parts, k) == pass then [OnDisk(d, k)] + (RestOfDisk(parts, pass, d, k + 1) + later)
              else RestOfDisk(parts, pass, d, k + 1) + later
  {
  }

  /** The index of the first primary; MAX_PARTS if there is none. */
  method FindFirst(parts: seq<Part>) returns (first: nat)
    ensures first == FirstPrimary(parts, 0)
  {
    first := MAX_PARTS;
    for k := 0 to |parts|
      invariant first == MAX_PARTS && FirstPrimary(parts, 0) == FirstPrimary(parts, k)
    {
      if parts[k].primary {
        first := k;
        break;
      }
    }
  }

  ghost function ScansOf(ds: seq<P.Disk>): (disks: seq<seq<Part>>)
    requires forall d :: 0 <= d < |ds| ==> Scannable(ds[d])
    ensures |disks| == |ds| && forall d :: 0 <= d < |ds| ==> disks[d] == ScanOf(ds[d])
  {
    seq(|ds|, d requires 0 <= d < |ds| => ScanOf(ds[d]))
  }

  /** From the disks to the letters: the links are to distinct devices under rising letters, and a
      link to a scanned partition names a recognised slot of its disk's tables, no two the same;
      which pass it came in is decided by where that slot is. */
  lemma LettersReachPartitions(ds: seq<P.Disk>, cdroms: nat)
    requires forall d :: 0 <= d < |ds| ==> Scannable(ds[d])
    ensures var disks := ScansOf(ds);
            var w := Capped(Wanting(disks, cdroms), LETTERS);
            && Letterable(disks, w)
            && (forall i, j :: 0 <= i < j < |w| ==>
                  Lettered(disks, w)[i].device != Lettered(disks, w)[j].device
                  && Lettered(disks, w)[i].letter < Lettered(disks, w)[j].letter)
            && (forall i :: 0 <= i < |w| && w[i].OnDisk? ==> Reaches(ds, disks, w[i], Lettered(disks, w)[i].device))
            && (forall i, j :: 0 <= i < j < |w| && w[i].OnDisk? && w[j].OnDisk? && w[i].disk == w[j].disk ==>
                  SlotOf(ds[w[i].disk], w[i].index + 1) != SlotOf(ds[w[j].disk], w[j].index + 1))
  {
    hide Order, ScanOf, PassOf, SlotOf, Reaches;
    var disks: seq<seq<Part>> := ScansOf(ds);
    forall d: nat, j: nat | d < |disks| && j < |disks[d]|
      ensures disks[d][j].number == j + 1
    {
      ScannedIsPartition(ds[d], j);
    }
    LinksAreDistinct(disks, cdroms);
    var w := Capped(Wanting(disks, cdroms), LETTERS);
    forall i | 0 <= i < |w| && w[i].OnDisk?
      ensures Reaches(ds, disks, w[i], Lettered(disks, w)[i].device)
    {
      ItReaches(ds, disks, w[i]);
    }
    forall i, j | 0 <= i < j < |w| && w[i].OnDisk? && w[j].OnDisk? && w[i].disk == w[j].disk
      ensures SlotOf(ds[w[i].disk], w[i].index + 1) != SlotOf(ds[w[j].disk], w[j].index + 1)
    {
      assert Lettered(disks, w)[i].device != Lettered(disks, w)[j].device;
      SlotsDiffer(ds[w[i].disk], w[i].index, w[j].index);
    }
  }

  /** The device is partition N of the volume's disk, N names a recognised slot there, and the volume
      belongs to the pass of the logical drives exactly when that slot is outside the master boot
      record. */
  ghost predicate Reaches(ds: seq<P.Disk>, disks: seq<seq<Part>>, v: Volume, device: Device)
    requires (forall d :: 0 <= d < |ds| ==> Scannable(ds[d])) && disks == ScansOf(ds) && v.OnDisk? && Exists(disks, v)
  {
    var d, number := ds[v.disk], v.index + 1;
    var ts, slot := P.TablesOf(d), SlotOf(d, number);
    && device == Harddisk(v.disk, number)
    && slot < 4 * |ts| && P.IsRecognized(P.Kind(ts, slot))
    && (Rank(disks, v) == 1 <==> !ts[slot / 4].at.first)
  }

  lemma ItReaches(ds: seq<P.Disk>, disks: seq<seq<Part>>, v: Volume)
    requires (forall d :: 0 <= d < |ds| ==> Scannable(ds[d])) && disks == ScansOf(ds) && v.OnDisk? && Exists(disks, v)
    ensures Reaches(ds, disks, v, DeviceOf(disks, v))
  {
    hide ScanOf, SlotOf, P.TablesOf, P.IsRecognized, P.Kind, FirstPrimary;
    ScannedIsPartition(ds[v.disk], v.index);
  }

  lemma SlotsDiffer(d: P.Disk, j: nat, k: nat)
    requires Scannable(d) && j < |ScanOf(d)| && k < |ScanOf(d)| && j != k
    ensures SlotOf(d, j + 1) != SlotOf(d, k + 1)
  {
    hide ScanOf, P.TablesOf, P.IsRecognized, P.Kind, P.Found;
    ScannedIsPartition(d, j);
    ScannedIsPartition(d, k);
    P.FoundCounts(P.TablesOf(d), j + 1, 0);
    P.FoundCounts(P.TablesOf(d), k + 1, 0);
  }

  /** Links are to distinct devices when each disk's partitions have distinct numbers, so the boot
      device's letter, if it has one, is the letter of the only link to it. */
  lemma LinksAreDistinct(disks: seq<seq<Part>>, cdroms: nat)
    requires forall d, j, k :: 0 <= d < |disks| && 0 <= j < k < |disks[d]| ==> disks[d][j].number != disks[d][k].number
    ensures var w := Capped(Wanting(disks, cdroms), LETTERS);
            && Letterable(disks, w)
            && forall i, j :: 0 <= i < j < |w| ==>
                 Lettered(disks, w)[i].device != Lettered(disks, w)[j].device
                 && Lettered(disks, w)[i].letter < Lettered(disks, w)[j].letter
  {
    hide Order, PassOf;
    OrderIsNts(disks);
    CdRomsAre(0, cdroms);
    var s, c, w := Order(disks, 0), CdRoms(0, cdroms), Capped(Wanting(disks, cdroms), LETTERS);
    assert forall i :: 0 <= i < |w| ==> w[i] == if i < |s| then s[i] else c[i - |s|];
    assert Letterable(disks, w);
    forall i, j | 0 <= i < j < |w|
      ensures DeviceOf(disks, w[i]) != DeviceOf(disks, w[j])
    {
      if j < |s| {
        assert s[i] in s && s[j] in s;
        DifferentDevices(disks, s[i], s[j]);
      } else {
        assert w[j] == c[j - |s|] == Optical(j - |s|);
        if i < |s| {
          assert s[i] in s;
        } else {
          assert w[i] == c[i - |s|] == Optical(i - |s|);
        }
      }
    }
  }

  lemma DifferentDevices(disks: seq<seq<Part>>, v: Volume, w: Volume)
    requires forall d, j, k :: 0 <= d < |disks| && 0 <= j < k < |disks[d]| ==> disks[d][j].number != disks[d][k].number
    requires Exists(disks, v) && Exists(disks, w) && v != w
    ensures DeviceOf(disks, v) != DeviceOf(disks, w)
  {
    if v.OnDisk? && w.OnDisk? && v.disk == w.disk {
      var parts := disks[v.disk];
      assert v.index < w.index ==> parts[v.index].number != parts[w.index].number;
      assert w.index < v.index ==> parts[w.index].number != parts[v.index].number;
    }
  }

  lemma {:induction false} CdRomsAre(from: nat, n: nat)
    requires from <= n
    ensures var c := CdRoms(from, n); |c| == n - from && forall i :: 0 <= i < |c| ==> c[i] == Optical(from + i)
    decreases n - from
  {
    if from < n {
      CdRomsAre(from + 1, n);
    }
  }
}
