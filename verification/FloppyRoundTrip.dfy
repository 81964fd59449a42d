/** What the builder writes, the firmware reads back: every file of a finished floppy image opens
    at partition 1 under its path and holds its bytes. */
module FloppyRoundTrip {
  import opened Words
  import opened Arithmetic
  import opened Blocks
  import R = FatReader
  import O = FatOpen
  import opened BootFloppy

  /** The volume fat_open sees on a finished image. */
  function VolumeOn(img: seq<byte>): R.Volume {
    R.Volume(img, 0, BPS, SPC, RESERVED, ROOT_START, ROOT_SECTORS, DATA_START, CLUSTERS + 2, 0, 12)
  }

  // ---- the regions of a finished image ---------------------------------------------------------

  ghost predicate Image(img: seq<byte>, fat: seq<byte>, root: seq<byte>, volumeName: seq<byte>, allocs: seq<Alloc>) {
    && |img| == TOTAL * BPS && |fat| == FAT_BYTES && |root| <= ROOT_SECTORS * BPS && |volumeName| == 11
    && img[..BPS] == BootSector(volumeName)
    && img[FAT_START * BPS..FAT_START * BPS + FAT_BYTES] == fat
    && img[(FAT_START + SPF) * BPS..(FAT_START + SPF) * BPS + FAT_BYTES] == fat
    && img[ROOT_START * BPS..DATA_START * BPS] == root + Zeros(ROOT_SECTORS * BPS - |root|)
    && forall i :: 0 <= i < |allocs| ==> Stored(img, allocs[i]) && Chained(fat, allocs[i])
  }

  lemma FinishedIsImage(img: seq<byte>, fat: seq<byte>, nextFree: nat, allocs: seq<Alloc>, root: seq<byte>, volumeName: seq<byte>)
    requires Consistent(img, fat, nextFree, allocs) && |root| <= ROOT_SECTORS * BPS && |volumeName| == 11
    ensures Image(Finished(img, fat, root, volumeName), fat, root, volumeName, allocs)
  {
    var done := Finished(img, fat, root, volumeName);
    var bs := BootSector(volumeName);
    assert done[..BPS] == bs;
    assert done[FAT_START * BPS..FAT_START * BPS + FAT_BYTES] == fat;
    assert done[(FAT_START + SPF) * BPS..(FAT_START + SPF) * BPS + FAT_BYTES] == fat;
    assert done[ROOT_START * BPS..DATA_START * BPS] == root + Zeros(ROOT_SECTORS * BPS - |root|);
    forall i | 0 <= i < |allocs|
      ensures Stored(done, allocs[i])
    {
      var a := allocs[i];
      assert Stored(img, a);
      assert done[a.At()..a.At() + |a.data|] == img[a.At()..a.At() + |a.data|];
    }
  }

  lemma BootSectorFields(volumeName: seq<byte>)
    requires |volumeName| == 11
    ensures var b := BootSector(volumeName);
            && b[0] == 0xEB && b[510] == 0x55 && b[511] == 0xAA
            && Le16(b, 11) == 512 && b[13] == 1 && Le16(b, 14) == 1 && b[16] == 2
            && Le16(b, 17) == 224 && Le16(b, 19) == 2880 && b[21] == 0xF0 && Le16(b, 22) == 9
            && Le16(b, 24) == 18 && Le16(b, 26) == 2 && b[38] == 0x29 && b[43..54] == volumeName
  {
  }

  /** What is where on a floppy whose root has two entries at least. */
  lemma ImageBytes(img: seq<byte>, fat: seq<byte>, entries: seq<seq<byte>>, volumeName: seq<byte>, allocs: seq<Alloc>)
    requires Image(img, fat, Flatten(entries), volumeName, allocs) && |entries| >= 2 && Uniform(entries, 32)
    ensures |img| == 1474560 && img[..512] == BootSector(volumeName) && img[512..5120] == img[5120..9728] == fat
    ensures img[9728..9760] == entries[0] && img[9760..9792] == entries[1]
  {
    hide BootSector, Flatten;
    var region := img[ROOT_START * BPS..DATA_START * BPS];
    FirstTwo(entries);
    assert |Flatten(entries)| >= 64;
    assert region[..64] == Flatten(entries)[..64];
    SliceOfSlice(img, 9728, 7168, 0, 32);
    SliceOfSlice(img, 9728, 7168, 32, 32);
    assert region[..64][..32] == region[..32] && region[..64][32..] == region[32..64];
  }

  lemma FirstTwo(entries: seq<seq<byte>>)
    requires |entries| >= 2 && Uniform(entries, 32)
    ensures |Flatten(entries)| >= 64 && Flatten(entries)[..64] == entries[0] + entries[1]
  {
    var rest := entries[1..];
    assert Flatten(entries) == entries[0] + (rest[0] + Flatten(rest[1..]));
  }

  lemma OpensAsFat12(img: seq<byte>, fat: seq<byte>, root: seq<byte>, volumeName: seq<byte>, allocs: seq<Alloc>)
    requires Image(img, fat, root, volumeName, allocs)
    ensures R.Read(img, 0, R.SECTOR) == Some(BootSector(volumeName))
    ensures O.FindPartition(img, 1) == O.Partition(0, TOTAL)
    ensures O.Geometry(img, 0, BootSector(volumeName)) == Some(VolumeOn(img))
  {
    hide BootSector;
    assert img[0..BPS] == img[..BPS];
    BootSectorFields(volumeName);
  }

  // ---- chains and contents ---------------------------------------------------------------------

  lemma FatByteOn(img: seq<byte>, fat: seq<byte>, off: nat)
    requires |img| == TOTAL * BPS && |fat| == FAT_BYTES && off < FAT_BYTES
    requires img[FAT_START * BPS..FAT_START * BPS + FAT_BYTES] == fat
    ensures R.FatByte(VolumeOn(img), off) == Some(fat[off])
  {
    hide R.SectorOf;
    var sec, at := RESERVED + off / R.SECTOR, off % R.SECTOR;
    SectorOn(img, sec);
    var s := img[sec * R.SECTOR..sec * R.SECTOR + R.SECTOR];
    assert s[at] == img[FAT_START * BPS + off];
    assert img[FAT_START * BPS..FAT_START * BPS + FAT_BYTES][off] == img[FAT_START * BPS + off];
  }

  lemma SectorOn(img: seq<byte>, sec: nat)
    requires |img| == TOTAL * BPS && sec < TOTAL
    ensures R.SectorOf(VolumeOn(img), sec) == Some(img[sec * R.SECTOR..sec * R.SECTOR + R.SECTOR])
  {
  }

  /** The reader decodes the builder's packed entries. */
  lemma NextOn(img: seq<byte>, fat: seq<byte>, c: nat)
    requires |img| == TOTAL * BPS && |fat| == FAT_BYTES && 2 <= c < CLUSTERS + 2
    requires img[FAT_START * BPS..FAT_START * BPS + FAT_BYTES] == fat
    ensures var e := Fat12Get(fat, c);
            R.Next(VolumeOn(img), c) == Some(if e >= 0xFF8 || e < 2 || e >= CLUSTERS + 2 then 0 else e)
  {
    hide R.FatEntry, Fat12Get;
    EntryOn(img, fat, c);
  }

  lemma EntryOn(img: seq<byte>, fat: seq<byte>, c: nat)
    requires |img| == TOTAL * BPS && |fat| == FAT_BYTES && 2 <= c < CLUSTERS + 2
    requires img[FAT_START * BPS..FAT_START * BPS + FAT_BYTES] == fat
    ensures R.FatEntry(VolumeOn(img), c) == Some(Fat12Get(fat, c))
  {
    hide R.FatWord;
    var off := c + c / 2;
    assert off == c * 3 / 2 && off + 1 < FAT_BYTES;
    WordOn(img, fat, off);
  }

  lemma WordOn(img: seq<byte>, fat: seq<byte>, off: nat)
    requires |img| == TOTAL * BPS && |fat| == FAT_BYTES && off + 1 < FAT_BYTES
    requires img[FAT_START * BPS..FAT_START * BPS + FAT_BYTES] == fat
    ensures R.FatWord(VolumeOn(img), off) == Some(fat[off] as int + 0x100 * (fat[off + 1] as int))
  {
    hide R.FatByte;
    FatByteOn(img, fat, off);
    FatByteOn(img, fat, off + 1);
  }

  ghost function ClustersOf(a: Alloc): (cs: seq<u32>)
    requires a.first + a.Count() < WORD
    ensures |cs| == a.Count() && cs[0] == a.first
  {
    seq(a.Count(), k requires 0 <= k < a.Count() => a.first + k)
  }

  /** A stored, chained file is a file to the reader, with the same bytes. */
  lemma AllocIsFile(img: seq<byte>, fat: seq<byte>, a: Alloc)
    requires |img| == TOTAL * BPS && |fat| == FAT_BYTES && |a.data| < TOTAL * BPS
    requires img[FAT_START * BPS..FAT_START * BPS + FAT_BYTES] == fat
    requires Stored(img, a) && Chained(fat, a)
    ensures R.FileOk(VolumeOn(img), ClustersOf(a), |a.data|)
    ensures |a.data| <= |R.Contents(VolumeOn(img), ClustersOf(a))|
    ensures R.Contents(VolumeOn(img), ClustersOf(a))[..|a.data|] == a.data
  {
    hide VolumeOn, Stored, R.Contents, R.Linked, R.OnDisk, R.InRange, R.Start;
    var v, cs := VolumeOn(img), ClustersOf(a);
    AllocIsLinked(img, fat, a);
    AllocIsPlaced(img, fat, a);
    R.RunReadsFile(v, cs, 0, |cs|, 0, |cs| * v.ClusterBytes(), 0, |a.data|);
    SameData(img, a, R.Start(v, cs[0]));
    assert R.Contents(v, cs)[0..|a.data|] == R.Contents(v, cs)[..|a.data|];
  }

  lemma AllocIsLinked(img: seq<byte>, fat: seq<byte>, a: Alloc)
    requires |img| == TOTAL * BPS && |fat| == FAT_BYTES
    requires img[FAT_START * BPS..FAT_START * BPS + FAT_BYTES] == fat
    requires Chained(fat, a)
    ensures R.Linked(VolumeOn(img), ClustersOf(a))
  {
    hide Fat12Get, VolumeOn, R.Next;
    var v, cs := VolumeOn(img), ClustersOf(a);
    forall i | 0 <= i < |cs| - 1
      ensures R.Next(v, cs[i]) == Some(cs[i + 1])
    {
      NextOn(img, fat, a.first + i);
    }
  }

  lemma AllocIsPlaced(img: seq<byte>, fat: seq<byte>, a: Alloc)
    requires |img| == TOTAL * BPS && |fat| == FAT_BYTES && |a.data| < TOTAL * BPS && Chained(fat, a)
    ensures var v, cs := VolumeOn(img), ClustersOf(a);
            && v.disk == img && R.OnDisk(v) && R.InRange(v, cs) && R.Consecutive(cs[0..|cs|])
            && v.ClusterBytes() == BPS && v.fatSec < 0x1_0000 && R.Start(v, cs[0]) == a.At()
  {
    hide Fat12Get;
  }

  lemma SameData(img: seq<byte>, a: Alloc, at: int)
    ensures Stored(img, a) && at == a.At() ==> 0 <= at && at + |a.data| <= |img| && img[at..at + |a.data|] == a.data
  {
  }

  // ---- directories -----------------------------------------------------------------------------

  /** An entry the reader does not skip. */
  ghost predicate Live(e: seq<byte>) {
    |e| == 32 && e[0] != 0 && e[0] != 0xE5 && (e[11] == DIRECTORY || e[11] == ARCHIVE)
  }

  ghost function EntryOf(e: seq<byte>): O.Lookup
    requires |e| == 32
  {
    O.Entry(Le16(e, 26), Le32(e, 28), e[11] == DIRECTORY)
  }

  /** Entry `k` is what a lookup of its name finds: it is live, as all before it are, and none of
      those has its name. */
  ghost predicate Findable(entries: seq<seq<byte>>, k: nat, short: seq<byte>) {
    && k < |entries| && Uniform(entries, 32)
    && (forall i :: 0 <= i <= k ==> Live(entries[i]))
    && entries[k][..11] == short
    && forall i :: 0 <= i < k ==> entries[i][..11] != short
  }

  /** The first entry of that name is the one found. */
  lemma {:induction false} FindsEntry(entries: seq<seq<byte>>, tail: seq<byte>, k: nat, nm: seq<byte>)
    requires Findable(entries, k, nm)
    ensures O.Answer(O.EntriesScan(12, Flatten(entries) + tail, nm)) == EntryOf(entries[k])
    decreases k
  {
    var all := Flatten(entries) + tail;
    assert all[..32] == entries[0];
    if k > 0 {
      var rest := entries[1..];
      assert rest[k - 1] == entries[k];
      forall i | 0 <= i < |rest|
        ensures |rest[i]| == 32 && (i < k - 1 ==> rest[i][..11] != nm) && (i <= k - 1 ==> Live(rest[i]))
      {
        assert rest[i] == entries[i + 1];
      }
      FindsEntry(rest, tail, k - 1, nm);
      assert all[32..] == Flatten(rest) + tail;
    }
  }

  // ---- names and paths -------------------------------------------------------------------------

  /** A path component both sides take: no separator, at most one '.', not '.' or '..'. */
  ghost predicate PlainName(name: seq<byte>) {
    && name != [] && O.BACKSLASH !in name && 0 !in name
    && name != [O.DOT] && name != [O.DOT, O.DOT]
    && O.DOT !in O.Extension(name)
    && ShortName(name).Some?
  }

  ghost function Short(name: seq<byte>): seq<byte>
    requires PlainName(name)
  {
    ShortName(name).value
  }

  lemma PlainNameFacts(name: seq<byte>)
    requires PlainName(name)
    ensures O.Name83(name) == Some(Short(name)) && |Short(name)| == 11 && |name| <= 12
    ensures Short(name)[0] != 0 && Short(name)[0] != 0xE5 && Short(name)[0] != O.DOT
  {
    NamesAgree(name);
    var k := O.FirstDot(name);
    UpperKeepsDots(name);
    assert |O.Stem(name)| == k;
    if k > 0 {
      assert name[0] in name && name[0] < 0x80;
      assert Short(name)[0] == O.UpperByte(name[0]);
    }
  }

  function PathOf(names: seq<seq<byte>>): seq<byte> {
    if names == [] then [] else [O.BACKSLASH] + names[0] + PathOf(names[1..])
  }

  /** A path of plain names is looked up name by name. */
  lemma {:induction false} PathComponents(names: seq<seq<byte>>)
    requires forall i :: 0 <= i < |names| ==> PlainName(names[i])
    ensures O.Components(PathOf(names)) == names
    decreases |names|
  {
    hide PlainName, O.Components;
    O.ComponentsAre(0, [O.BACKSLASH], []);
    if names != [] {
      PathComponents(names[1..]);
      PlainNameFacts(names[0]);
      PlainNameIsComponent(names[0]);
      O.ComponentsAre(1, names[0], PathOf(names[1..]));
      assert O.Slashes(1) == [O.BACKSLASH];
      assert [names[0]] + names[1..] == names;
    } else {
      assert O.Slashes(0) == [];
    }
  }

  lemma PlainNameIsComponent(name: seq<byte>)
    ensures PlainName(name) ==> name != [] && O.BACKSLASH !in name
  {
  }

  // ---- directories of the image ----------------------------------------------------------------

  lemma RootLookup(img: seq<byte>, fat: seq<byte>, entries: seq<seq<byte>>, volumeName: seq<byte>, allocs: seq<Alloc>,
                   name: seq<byte>, k: nat)
    requires Image(img, fat, Flatten(entries), volumeName, allocs)
    requires PlainName(name) && Findable(entries, k, Short(name))
    ensures O.DirLookup(VolumeOn(img), 0, name) == EntryOf(entries[k])
  {
    hide Image, O.EntriesScan, O.DirScan, O.Name83, Live, Uniform, Findable, Flatten, VolumeOn;
    PlainNameFacts(name);
    var root := Flatten(entries);
    RootIs(img, fat, root, volumeName, allocs);
    FindsEntry(entries, Zeros(ROOT_SECTORS * BPS - |root|), k, Short(name));
    O.LookupInRoot(VolumeOn(img), Short(name), ROOT_START * BPS);
  }

  lemma RootIs(img: seq<byte>, fat: seq<byte>, root: seq<byte>, volumeName: seq<byte>, allocs: seq<Alloc>)
    requires Image(img, fat, root, volumeName, allocs)
    ensures var v, at := VolumeOn(img), ROOT_START * BPS;
            && v.partLba + v.rootSec + v.rootSecs < WORD && at == (v.partLba + v.rootSec) * R.SECTOR
            && at + v.rootSecs * R.SECTOR <= |v.disk| && v.bits == 12 && |root| <= ROOT_SECTORS * BPS
            && v.disk[at..at + v.rootSecs * R.SECTOR] == root + Zeros(ROOT_SECTORS * BPS - |root|)
  {
    hide BootSector, Stored, Chained;
    assert img[ROOT_START * BPS..ROOT_START * BPS + ROOT_SECTORS * BPS] == img[ROOT_START * BPS..DATA_START * BPS];
  }

  lemma SubLookup(img: seq<byte>, fat: seq<byte>, a: Alloc, entries: seq<seq<byte>>, name: seq<byte>, k: nat)
    requires |img| == TOTAL * BPS && |fat| == FAT_BYTES && Stored(img, a) && Chained(fat, a)
    requires img[FAT_START * BPS..FAT_START * BPS + FAT_BYTES] == fat
    requires |entries| <= 14 && a.data == DirectoryOf(a.first, entries)
    requires PlainName(name) && Findable(entries, k, Short(name))
    ensures O.DirLookup(VolumeOn(img), a.first, name) == EntryOf(entries[k])
  {
    hide O.EntriesScan, O.Name83, Live, DotEntries, DirectoryOf, Findable, O.DirScan, VolumeOn, R.Contents, R.OnDisk,
         R.InRange, R.Linked, R.Ends, Stored, Fat12Get;
    var v, cs := VolumeOn(img), ClustersOf(a);
    PlainNameFacts(name);
    DirectoryScan(a.first, entries, k, Short(name));
    DirectoryIs(img, fat, a);
    O.LookupInChain(v, cs, Short(name));
  }

  /** A one-cluster directory to the reader. */
  lemma DirectoryIs(img: seq<byte>, fat: seq<byte>, a: Alloc)
    requires |img| == TOTAL * BPS && |fat| == FAT_BYTES && Stored(img, a) && Chained(fat, a) && |a.data| == BPS
    requires img[FAT_START * BPS..FAT_START * BPS + FAT_BYTES] == fat
    ensures var v, cs := VolumeOn(img), ClustersOf(a);
            && v.bits == 12 && v.nclus == CLUSTERS + 2 && cs[0] == a.first
            && R.OnDisk(v) && R.InRange(v, cs) && R.Linked(v, cs) && R.Ends(v, cs)
            && R.Contents(v, cs) == a.data
  {
    hide R.Contents, R.Linked, R.OnDisk, R.InRange, R.Next, Fat12Get;
    var v, cs := VolumeOn(img), ClustersOf(a);
    AllocIsFile(img, fat, a);
    R.ContentsLength(v, cs);
    NextOn(img, fat, a.first);
  }

  /** Behind '.' and '..', a subdirectory's entries are found as the root's are. */
  lemma DirectoryScan(first: u16, entries: seq<seq<byte>>, k: nat, nm: seq<byte>)
    requires |entries| <= 14 && |nm| == 11 && nm[0] != O.DOT && Findable(entries, k, nm)
    ensures |DirectoryOf(first, entries)| == BPS
    ensures O.Answer(O.EntriesScan(12, DirectoryOf(first, entries), nm)) == EntryOf(entries[k])
  {
    hide O.EntriesScan, Live, DotEntries;
    var dots: seq<seq<byte>> := [DotEntries(first)[..32], DotEntries(first)[32..]];
    var all := dots + entries;
    FlattenConcat(dots, entries);
    FlattenLength(entries, 32);
    assert Flatten(dots) == DotEntries(first) by {
      var second: seq<seq<byte>> := dots[1..];
      assert second == [dots[1]] && second[1..] == [];
    }
    DotsAreLive(first, nm);
    assert Findable(all, k + 2, nm) by {
      forall i | 0 <= i <= k + 2
        ensures Live(all[i]) && (i < k + 2 ==> all[i][..11] != nm)
      {
        assert i >= 2 ==> all[i] == entries[i - 2];
      }
    }
    FindsEntry(all, Zeros(BPS - 64 - |Flatten(entries)|), k + 2, nm);
  }

  lemma DotsAreLive(first: u16, nm: seq<byte>)
    requires |nm| == 11 && nm[0] != O.DOT
    ensures var d := DotEntries(first);
            Live(d[..32]) && Live(d[32..]) && d[..32][..11] != nm && d[32..][..11] != nm
  {
  }

  // ---- the tree on the disk --------------------------------------------------------------------

  /** What a directory lists: files, and directories with what they list in turn. */
  datatype Item = FileItem(name: seq<byte>, at: Alloc) | DirItem(name: seq<byte>, at: Alloc, items: seq<Item>)

  ghost predicate DistinctNames(names: seq<seq<byte>>) {
    && (forall i :: 0 <= i < |names| ==> PlainName(names[i]))
    && forall i, j :: 0 <= i < j < |names| ==> Short(names[i]) != Short(names[j])
  }

  ghost function ItemNames(items: seq<Item>): (names: seq<seq<byte>>)
    ensures |names| == |items| && forall i :: 0 <= i < |items| ==> names[i] == items[i].name
  {
    seq(|items|, i requires 0 <= i < |items| => items[i].name)
  }

  ghost predicate Within(a: Alloc) {
    2 <= a.first <= CLUSTERS + 1 && |a.data| < TOTAL * BPS
  }

  /** An item that has a directory entry and is allocated. */
  ghost predicate Held(allocs: seq<Alloc>, it: Item) {
    ShortName(it.name).Some? && Within(it.at) && it.at in allocs
  }

  ghost predicate AllHeld(allocs: seq<Alloc>, items: seq<Item>) {
    forall i :: 0 <= i < |items| ==> Held(allocs, items[i])
  }

  ghost function EntryFor(allocs: seq<Alloc>, it: Item): (e: seq<byte>)
    requires Held(allocs, it)
    ensures |e| == 32
  {
    DirEnt(ShortName(it.name).value, it.at.first, if it.FileItem? then |it.at.data| else 0,
           if it.FileItem? then ARCHIVE else DIRECTORY)
  }

  ghost function Entries(allocs: seq<Alloc>, items: seq<Item>): (entries: seq<seq<byte>>)
    requires AllHeld(allocs, items)
    ensures |entries| == |items| && Uniform(entries, 32)
    ensures forall i :: 0 <= i < |items| ==> entries[i] == EntryFor(allocs, items[i])
  {
    seq(|items|, i requires 0 <= i < |items| => EntryFor(allocs, items[i]))
  }

  /** Items of distinct names. */
  ghost predicate Listed(allocs: seq<Alloc>, items: seq<Item>) {
    AllHeld(allocs, items) && DistinctNames(ItemNames(items))
  }

  /** The names lead from a directory that lists `items` to the file. */
  ghost predicate Leads(allocs: seq<Alloc>, items: seq<Item>, names: seq<seq<byte>>, file: Alloc)
    decreases |names|, 0
  {
    && Listed(allocs, items) && names != []
    && exists k :: 0 <= k < |items| && items[k].name == names[0]
                   && if |names| == 1 then items[k] == FileItem(names[0], file)
                      else LeadsInto(allocs, items[k], names[1..], file)
  }

  ghost predicate LeadsInto(allocs: seq<Alloc>, it: Item, names: seq<seq<byte>>, file: Alloc)
    decreases |names|, 1
  {
    && it.DirItem? && Within(it.at) && |it.items| <= 14 && Leads(allocs, it.items, names, file)
    && it.at.data == DirectoryOf(it.at.first, Entries(allocs, it.items))
  }

  lemma EntryFacts(allocs: seq<Alloc>, it: Item)
    requires PlainName(it.name) && Held(allocs, it)
    ensures var e := EntryFor(allocs, it);
            && Live(e) && e[..11] == Short(it.name)
            && EntryOf(e) == O.Entry(it.at.first, if it.FileItem? then |it.at.data| else 0, it.DirItem?)
  {
    PlainNameFacts(it.name);
    hide ShortName;
  }

  /** Entries of distinct plain names are all findable. */
  lemma ItemsAreFindable(allocs: seq<Alloc>, items: seq<Item>, k: nat)
    requires Listed(allocs, items) && k < |items|
    ensures PlainName(items[k].name) && Findable(Entries(allocs, items), k, Short(items[k].name))
  {
    hide EntryFor, Live, PlainName, Held, Short;
    var names, entries := ItemNames(items), Entries(allocs, items);
    assert PlainName(names[k]);
    forall i | 0 <= i <= k
      ensures Live(entries[i]) && entries[i][..11] == Short(items[i].name)
    {
      assert PlainName(names[i]);
      EntryFacts(allocs, items[i]);
    }
    assert forall i :: 0 <= i < k ==> Short(names[i]) != Short(names[k]);
  }

  /** Every name of the directory at `clus` leads to what the directory lists under it. */
  ghost predicate Shows(v: R.Volume, clus: u32, allocs: seq<Alloc>, items: seq<Item>)
    requires Listed(allocs, items)
  {
    forall k :: 0 <= k < |items| ==> O.DirLookup(v, clus, items[k].name) == EntryOf(EntryFor(allocs, items[k]))
  }

  lemma RootShows(img: seq<byte>, fat: seq<byte>, items: seq<Item>, volumeName: seq<byte>, allocs: seq<Alloc>)
    requires Listed(allocs, items) && Image(img, fat, Flatten(Entries(allocs, items)), volumeName, allocs)
    ensures Shows(VolumeOn(img), 0, allocs, items)
  {
    hide Image, EntryFor, EntryOf, Held, DistinctNames, Findable, O.DirLookup, VolumeOn, PlainName;
    var entries := Entries(allocs, items);
    forall k | 0 <= k < |items|
      ensures O.DirLookup(VolumeOn(img), 0, items[k].name) == EntryOf(EntryFor(allocs, items[k]))
    {
      ItemsAreFindable(allocs, items, k);
      RootLookup(img, fat, entries, volumeName, allocs, items[k].name, k);
    }
  }

  lemma SubShows(img: seq<byte>, fat: seq<byte>, a: Alloc, items: seq<Item>, allocs: seq<Alloc>)
    requires |img| == TOTAL * BPS && |fat| == FAT_BYTES && Stored(img, a) && Chained(fat, a)
    requires img[FAT_START * BPS..FAT_START * BPS + FAT_BYTES] == fat
    requires Listed(allocs, items) && |items| <= 14 && a.data == DirectoryOf(a.first, Entries(allocs, items))
    ensures Shows(VolumeOn(img), a.first, allocs, items)
  {
    hide EntryFor, EntryOf, Held, DistinctNames, Findable, O.DirLookup, VolumeOn, PlainName, DirectoryOf, Stored;
    var entries := Entries(allocs, items);
    forall k | 0 <= k < |items|
      ensures O.DirLookup(VolumeOn(img), a.first, items[k].name) == EntryOf(EntryFor(allocs, items[k]))
    {
      ItemsAreFindable(allocs, items, k);
      SubLookup(img, fat, a, entries, items[k].name, k);
    }
  }

  /** Resolving names from a directory that shows its items ends at the file. */
  lemma {:induction false} NamesResolve(img: seq<byte>, fat: seq<byte>, allocs: seq<Alloc>, at: O.Lookup, items: seq<Item>,
                                        names: seq<seq<byte>>, file: Alloc)
    requires |img| == TOTAL * BPS && |fat| == FAT_BYTES && AllKept(img, fat, allocs)
    requires img[FAT_START * BPS..FAT_START * BPS + FAT_BYTES] == fat
    requires at.Entry? && at.isDir && Leads(allocs, items, names, file) && Shows(VolumeOn(img), at.clus, allocs, items)
    ensures file in allocs && Within(file) && forall i :: 0 <= i < |names| ==> PlainName(names[i])
    ensures O.Resolve(VolumeOn(img), at, names) == O.Entry(file.first, |file.data|, false)
    decreases |names|
  {
    hide EntryFor, EntryOf, O.DirLookup, O.Resolve, VolumeOn, PlainName, DirectoryOf, Stored, Chained, LeadsInto, Leads;
    var k := StepOf(allocs, items, names, file);
    var v, it, rest := VolumeOn(img), items[k], names[1..];
    EntryFacts(allocs, it);
    assert names == [names[0]] + rest;
    O.ResolveFirst(v, at, names[0], rest);
    if rest == [] {
      NothingResolved(v, O.Enter(v, at, names[0]));
    } else {
      IntoDirectory(allocs, it, rest, file);
      SubShows(img, fat, it.at, it.items, allocs);
      NamesResolve(img, fat, allocs, O.Enter(v, at, names[0]), it.items, rest, file);
    }
  }

  lemma NothingResolved(v: R.Volume, at: O.Lookup)
    ensures O.Resolve(v, at, []) == at
  {
  }

  /** Every allocation is stored and chained. */
  ghost predicate AllKept(img: seq<byte>, fat: seq<byte>, allocs: seq<Alloc>)
    requires |fat| == FAT_BYTES
  {
    forall i :: 0 <= i < |allocs| ==> Stored(img, allocs[i]) && Chained(fat, allocs[i])
  }

  lemma StepOf(allocs: seq<Alloc>, items: seq<Item>, names: seq<seq<byte>>, file: Alloc) returns (k: nat)
    requires Leads(allocs, items, names, file)
    ensures names != [] && k < |items| && items[k].name == names[0] && PlainName(names[0])
    ensures Held(allocs, items[k])
    ensures if |names| == 1 then items[k] == FileItem(names[0], file) else LeadsInto(allocs, items[k], names[1..], file)
  {
    hide LeadsInto, PlainName, Held;
    k :| 0 <= k < |items| && items[k].name == names[0]
         && if |names| == 1 then items[k] == FileItem(names[0], file) else LeadsInto(allocs, items[k], names[1..], file);
    assert PlainName(ItemNames(items)[k]);
  }

  lemma IntoDirectory(allocs: seq<Alloc>, it: Item, names: seq<seq<byte>>, file: Alloc)
    requires LeadsInto(allocs, it, names, file)
    ensures it.DirItem? && |it.items| <= 14 && Listed(allocs, it.items) && Leads(allocs, it.items, names, file)
    ensures it.at.data == DirectoryOf(it.at.first, Entries(allocs, it.items))
  {
  }

  // ---- what the firmware reads -----------------------------------------------------------------

  /** fat_open finds the file under `path` at partition 1, with its size and a chain that covers
      it, and the chain's contents are its bytes: what FatFile.FatRead then returns. */
  ghost predicate ReadsBack(img: seq<byte>, path: seq<byte>, data: seq<byte>) {
    var r := O.Open(img, 1, path);
    && r.File? && r.size == |data| && R.Sound(r.vol, r.size)
    && exists cs :: cs != [] && cs[0] == r.first && R.FileOk(r.vol, cs, r.size)
                    && |data| <= |R.Contents(r.vol, cs)| && R.Contents(r.vol, cs)[..|data|] == data
  }

  /** And it does: opening the path and reading here and there in any order gives each read the file's
      bytes there. */
  method ReadFile(img: seq<byte>, path: seq<byte>, calls: seq<R.Call>, ghost data: seq<byte>)
    returns (status: R.Status, got: seq<seq<byte>>)
    requires ReadsBack(img, path, data)
    ensures status == R.ESUCCESS && |got| == |calls|
    ensures |data| < WORD && forall k :: 0 <= k < |calls| ==> R.IsSlice(got[k], data, calls[k], |data|)
  {
    hide ReadsBack, O.Open, O.Mount, O.PathLoops, R.Sound, R.FileOk, R.IsSlice, R.Contents;
    ghost var cs := ChainOf(img, path, data);
    OpensAreFinite(img, path);
    var ff: R.FatFile;
    status, ff := O.OpenFile(img, 1, path);
    status, got := ff.ReadEach(calls, cs);
    forall k | 0 <= k < |calls|
      ensures R.IsSlice(got[k], data, calls[k], |data|)
    {
      R.SliceOfFront(got[k], R.Contents(ff.vol, cs), data, calls[k]);
    }
  }

  /** The chain of a file that reads back. */
  lemma ChainOf(img: seq<byte>, path: seq<byte>, data: seq<byte>) returns (cs: seq<u32>)
    requires ReadsBack(img, path, data)
    ensures var r := O.Open(img, 1, path);
            && r.File? && r.size == |data| && R.Sound(r.vol, r.size)
            && cs != [] && cs[0] == r.first && cs[0] >= 2 && R.FileOk(r.vol, cs, r.size)
            && data <= R.Contents(r.vol, cs)
  {
    hide O.Open, R.Sound, R.FileOk, R.Contents;
    var r := O.Open(img, 1, path);
    cs :| cs != [] && cs[0] == r.first && R.FileOk(r.vol, cs, r.size)
          && |data| <= |R.Contents(r.vol, cs)| && R.Contents(r.vol, cs)[..|data|] == data;
    FirstInRange(r.vol, cs, r.size);
  }

  lemma OpensAreFinite(img: seq<byte>, path: seq<byte>)
    requires !O.Open(img, 1, path).OpenEndless?
    ensures var m := O.Mount(img, 1); m.Mounted? ==> !O.PathLoops(m.vol, O.Root(m.vol), O.Components(path))
  {
    hide O.Mount, O.Resolve, O.PathLoops;
    var m := O.Mount(img, 1);
    if m.Mounted? {
      O.PathEndlessIff(m.vol, O.Root(m.vol), O.Components(path));
    }
  }

  lemma FirstInRange(v: R.Volume, cs: seq<u32>, size: u32)
    requires R.FileOk(v, cs, size) && cs != []
    ensures cs[0] >= 2
  {
  }

  /** Whatever was allocated in whatever order: every file the directories lead to, from the root
      down, is read back under its path. */
  lemma TreeReadsBack(img: seq<byte>, fat: seq<byte>, items: seq<Item>, volumeName: seq<byte>, allocs: seq<Alloc>,
                      names: seq<seq<byte>>, file: Alloc)
    requires Listed(allocs, items) && Image(img, fat, Flatten(Entries(allocs, items)), volumeName, allocs)
    requires Leads(allocs, items, names, file)
    ensures ReadsBack(img, PathOf(names), file.data)
  {
    hide DistinctNames, Held, Leads, O.Resolve, BootSector, O.DirLookup, R.Contents, R.FileOk, Stored, Chained;
    var v := VolumeOn(img);
    RootShows(img, fat, items, volumeName, allocs);
    NamesResolve(img, fat, allocs, O.Root(v), items, names, file);
    PathComponents(names);
    OpenIsWalk(img, fat, Flatten(Entries(allocs, items)), volumeName, allocs, PathOf(names));
    AllocIsFile(img, fat, file);
    OpensSound(img, |file.data|);
    assert ClustersOf(file)[0] == file.first;
  }

  lemma OpensSound(img: seq<byte>, size: u32)
    ensures |img| == TOTAL * BPS && size < TOTAL * BPS ==> R.Sound(VolumeOn(img), size)
  {
  }

  lemma OpenIsWalk(img: seq<byte>, fat: seq<byte>, root: seq<byte>, volumeName: seq<byte>, allocs: seq<Alloc>, path: seq<byte>)
    requires Image(img, fat, root, volumeName, allocs)
    ensures O.Open(img, 1, path) == O.Walk(VolumeOn(img), path)
  {
    hide O.Walk, O.FindPartition, O.Geometry, BootSector;
    OpensAsFat12(img, fat, root, volumeName, allocs);
  }

  // ---- the builder's main program --------------------------------------------------------------

  /** A file to put on the floppy: into the subdirectory, or into the root. */
  datatype Source = Source(name: seq<byte>, data: seq<byte>, inDir: bool)

  /** The files of one directory, in the order they were given. */
  function Select(files: seq<Source>, inDir: bool): (s: seq<Source>)
    ensures |s| <= |files|
  {
    if files == [] then []
    else
      var last := files[|files| - 1];
      Select(files[..|files| - 1], inDir) + if last.inDir == inDir then [last] else []
  }

  /** Where file `i` comes in its directory. */
  function SelectAt(files: seq<Source>, i: nat): (k: nat)
    requires i < |files|
    ensures k < |Select(files, files[i].inDir)| && Select(files, files[i].inDir)[k] == files[i]
    decreases |files|
  {
    if i < |files| - 1 then SelectAt(files[..|files| - 1], i) else |Select(files[..i], files[i].inDir)|
  }

  ghost function Clusters(files: seq<Source>): nat {
    if files == [] then 0 else Clusters(files[..|files| - 1]) + Alloc(2, files[|files| - 1].data).Count()
  }

  ghost predicate Named(files: seq<Source>) {
    forall i :: 0 <= i < |files| ==> ShortName(files[i].name).Some?
  }

  ghost function Names(files: seq<Source>): (names: seq<seq<byte>>)
    ensures |names| == |files| && forall i :: 0 <= i < |files| ==> names[i] == files[i].name
  {
    seq(|files|, i requires 0 <= i < |files| => files[i].name)
  }

  /** The items are the files, one by one, in clusters that hold them. */
  ghost predicate Entered(allocs: seq<Alloc>, files: seq<Source>, items: seq<Item>) {
    && |items| == |files| && AllHeld(allocs, items)
    && forall k :: 0 <= k < |files| ==> EnteredAt(files[k], items[k])
  }

  ghost predicate EnteredAt(f: Source, it: Item) {
    it == FileItem(f.name, it.at) && it.at.data == f.data
  }

  /** The main program's loop: allocate each file and enter it in its directory.  None: out of space,
      or a name that is no 8.3 name. */
  method AddFiles(fs: Fat12, files: seq<Source>)
    returns (ok: bool, sub: seq<seq<byte>>, root: seq<seq<byte>>, ghost subItems: seq<Item>, ghost rootItems: seq<Item>)
    requires fs.Valid()
    modifies fs
    ensures ok <==> Named(files) && old(fs.nextFree) + Clusters(files) <= CLUSTERS + 2
    ensures ok ==>
              && fs.Valid() && fs.nextFree == old(fs.nextFree) + Clusters(files) && old(fs.allocs) <= fs.allocs
              && Entered(fs.allocs, Select(files, true), subItems) && sub == Entries(fs.allocs, subItems)
              && Entered(fs.allocs, Select(files, false), rootItems) && root == Entries(fs.allocs, rootItems)
  {
    hide DirEnt, ShortName, Consistent, Held, EntryFor, EnteredAt, Entries, AllHeld, Select, Clusters;
    NoneEntered(fs.allocs, files);
    sub, root, subItems, rootItems := [], [], [], [];
    for i := 0 to |files|
      invariant fs.Valid() && fs.nextFree == old(fs.nextFree) + Clusters(files[..i]) && Named(files[..i])
      invariant old(fs.allocs) <= fs.allocs
      invariant Entered(fs.allocs, Select(files[..i], true), subItems) && sub == Entries(fs.allocs, subItems)
      invariant Entered(fs.allocs, Select(files[..i], false), rootItems) && root == Entries(fs.allocs, rootItems)
    {
      ClustersGrow(files, i);
      SelectStep(files, i);
      ghost var before := fs.allocs;
      var e := AddFile(fs, files[i]);
      if e.None? {
        return false, sub, root, subItems, rootItems;
      }
      ghost var it := FileItem(files[i].name, fs.allocs[|fs.allocs| - 1]);
      EnterOne(before, fs.allocs, Select(files[..i], true), subItems, files[i], it);
      EnterOne(before, fs.allocs, Select(files[..i], false), rootItems, files[i], it);
      if files[i].inDir {
        sub, subItems := sub + [e.value], subItems + [it];
      } else {
        root, rootItems := root + [e.value], rootItems + [it];
      }
    }
    assert files[..|files|] == files;
    ConsistentParts(fs.img, fs.fat, fs.nextFree, fs.allocs);
    ok := true;
  }

  method AddFile(fs: Fat12, f: Source) returns (e: Option<seq<byte>>)
    requires fs.Valid()
    modifies fs
    ensures e.Some? <==> ShortName(f.name).Some? && old(fs.nextFree) + Alloc(2, f.data).Count() <= CLUSTERS + 2
    ensures e.Some? ==>
              var a := Alloc(old(fs.nextFree), f.data);
              var it := FileItem(f.name, a);
              && fs.Valid() && fs.nextFree == a.first + a.Count() && fs.allocs == old(fs.allocs) + [a]
              && Held(fs.allocs, it) && EnteredAt(f, it) && e.value == EntryFor(fs.allocs, it)
              && |e.value| == 32 && Some(e.value[..11]) == ShortName(f.name) && e.value[11] == 0x20
  {
    hide DirEnt, ShortName;
    var first := fs.Allocate(f.data);
    if first.None? {
      return None;
    }
    var short := ShortName(f.name);
    if short.None? {
      return None;
    }
    assert fs.allocs[|fs.allocs| - 1] in fs.allocs;
    e := Some(DirEnt(short.value, first.value, |f.data|, ARCHIVE));
  }

  lemma NoneEntered(allocs: seq<Alloc>, files: seq<Source>)
    ensures Entered(allocs, Select(files[..0], true), []) && Entered(allocs, Select(files[..0], false), [])
    ensures Entries(allocs, []) == [] && Clusters(files[..0]) == 0
  {
  }

  lemma SelectStep(files: seq<Source>, i: nat)
    requires i < |files|
    ensures Select(files[..i + 1], files[i].inDir) == Select(files[..i], files[i].inDir) + [files[i]]
    ensures Select(files[..i + 1], !files[i].inDir) == Select(files[..i], !files[i].inDir)
    ensures Clusters(files[..i + 1]) == Clusters(files[..i]) + Alloc(2, files[i].data).Count()
  {
    assert files[..i + 1][..i] == files[..i];
    assert Select(files[..i], !files[i].inDir) + [] == Select(files[..i], !files[i].inDir);
  }

  /** A directory with and without one more item, after one more allocation. */
  lemma EnterOne(before: seq<Alloc>, after: seq<Alloc>, files: seq<Source>, items: seq<Item>, f: Source, it: Item)
    requires Entered(before, files, items) && before <= after && Held(after, it) && EnteredAt(f, it)
    ensures Entered(after, files, items) && Entries(after, items) == Entries(before, items)
    ensures Entered(after, files + [f], items + [it])
    ensures Entries(after, items + [it]) == Entries(before, items) + [EntryFor(after, it)]
  {
    hide Held, EntryFor, EnteredAt;
    StillHeld(before, after, items);
    assert forall i :: 0 <= i < |items| ==> (items + [it])[i] == items[i];
  }

  /** More allocations change no entry. */
  lemma StillHeld(allocs: seq<Alloc>, more: seq<Alloc>, items: seq<Item>)
    requires AllHeld(allocs, items) && allocs <= more
    ensures AllHeld(more, items) && Entries(more, items) == Entries(allocs, items)
  {
    hide Held, EntryFor;
    forall i | 0 <= i < |items|
      ensures Held(more, items[i]) && EntryFor(more, items[i]) == EntryFor(allocs, items[i])
    {
      StaysHeld(allocs, more, items[i]);
    }
  }

  lemma StaysHeld(allocs: seq<Alloc>, more: seq<Alloc>, it: Item)
    ensures Held(allocs, it) && allocs <= more ==> Held(more, it) && EntryFor(more, it) == EntryFor(allocs, it)
  {
    hide DirEnt, ShortName, Within;
  }

  lemma {:induction false} ClustersGrow(files: seq<Source>, i: nat)
    requires i < |files|
    ensures Clusters(files[..i]) + Alloc(2, files[i].data).Count() <= Clusters(files)
    decreases |files|
  {
    if i < |files| - 1 {
      assert files[..|files| - 1][..i] == files[..i];
      ClustersGrow(files[..|files| - 1], i);
    }
  }

  /** A file in a listing, and one in a listing below. */
  lemma LeadsToFile(allocs: seq<Alloc>, items: seq<Item>, k: nat, file: Alloc)
    requires Listed(allocs, items) && k < |items| && items[k] == FileItem(items[k].name, file)
    ensures Leads(allocs, items, [items[k].name], file)
  {
    hide Listed;
  }

  lemma LeadsBelow(allocs: seq<Alloc>, items: seq<Item>, k: nat, names: seq<seq<byte>>, file: Alloc)
    requires Listed(allocs, items) && k < |items| && names != [] && LeadsInto(allocs, items[k], names, file)
    ensures Leads(allocs, items, [items[k].name] + names, file)
  {
    hide Listed, LeadsInto;
    assert ([items[k].name] + names)[1..] == names;
  }

  /** The names that lead to a file. */
  function NamesOf(dirName: seq<byte>, file: Source): seq<seq<byte>> {
    if file.inDir then [dirName, file.name] else [file.name]
  }

  /** The root of the finished floppy: the subdirectory first, the last file second. */
  ghost function RootItems(dirName: seq<byte>, dir: Alloc, subItems: seq<Item>, oem: Item, rootItems: seq<Item>): seq<Item> {
    [DirItem(dirName, dir, subItems), oem] + rootItems
  }

  /** On such a floppy every file of the main program reads back. */
  lemma {:induction false} FloppyReadsBack(img: seq<byte>, fat: seq<byte>, volumeName: seq<byte>, allocs: seq<Alloc>, files: seq<Source>, f: Source,
                        dirName: seq<byte>, dir: Alloc, subItems: seq<Item>, oem: Item, rootItems: seq<Item>)
    requires Entered(allocs, Select(files, true), subItems) && Entered(allocs, Select(files, false), rootItems)
    requires EnteredAt(f, oem) && |subItems| <= 14 && Within(dir) && dir.data == DirectoryOf(dir.first, Entries(allocs, subItems))
    requires var root := RootItems(dirName, dir, subItems, oem, rootItems);
             Listed(allocs, root) && Image(img, fat, Flatten(Entries(allocs, root)), volumeName, allocs)
    ensures ReadsBack(img, PathOf([f.name]), f.data)
    ensures forall i :: 0 <= i < |files| && (files[i].inDir ==> DistinctNames(ItemNames(subItems))) ==>
              ReadsBack(img, PathOf(NamesOf(dirName, files[i])), files[i].data)
  {
    hide Image, Listed, Leads, ReadsBack, PathOf, Select, Flatten, Entered, DistinctNames, DirectoryOf, Within, Entries, RootItems,
         NamesOf, ItemNames;
    var root := RootItems(dirName, dir, subItems, oem, rootItems);
    OemIsLed(allocs, f, dirName, dir, subItems, oem, rootItems);
    TreeReadsBack(img, fat, root, volumeName, allocs, [f.name], oem.at);
    forall i | 0 <= i < |files| && (files[i].inDir ==> DistinctNames(ItemNames(subItems)))
      ensures ReadsBack(img, PathOf(NamesOf(dirName, files[i])), files[i].data)
    {
      var at := FileIsLed(allocs, files, i, dirName, dir, subItems, oem, rootItems);
      TreeReadsBack(img, fat, root, volumeName, allocs, NamesOf(dirName, files[i]), at);
    }
  }

  lemma OemIsLed(allocs: seq<Alloc>, f: Source, dirName: seq<byte>, dir: Alloc, subItems: seq<Item>, oem: Item, rootItems: seq<Item>)
    requires EnteredAt(f, oem) && Listed(allocs, RootItems(dirName, dir, subItems, oem, rootItems))
    ensures Leads(allocs, RootItems(dirName, dir, subItems, oem, rootItems), [f.name], oem.at) && oem.at.data == f.data
  {
    hide Listed, Leads;
    LeadsToFile(allocs, RootItems(dirName, dir, subItems, oem, rootItems), 1, oem.at);
  }

  lemma {:induction false} FileIsLed(allocs: seq<Alloc>, files: seq<Source>, i: nat, dirName: seq<byte>, dir: Alloc, subItems: seq<Item>, oem: Item,
                  rootItems: seq<Item>) returns (at: Alloc)
    requires Entered(allocs, Select(files, true), subItems) && Entered(allocs, Select(files, false), rootItems)
    requires |subItems| <= 14 && Within(dir) && dir.data == DirectoryOf(dir.first, Entries(allocs, subItems))
    requires Listed(allocs, RootItems(dirName, dir, subItems, oem, rootItems))
    requires i < |files| && (files[i].inDir ==> DistinctNames(ItemNames(subItems)))
    ensures Leads(allocs, RootItems(dirName, dir, subItems, oem, rootItems), NamesOf(dirName, files[i]), at)
    ensures at.data == files[i].data
  {
    hide Listed, Leads, LeadsInto, Select, AllHeld, DistinctNames, DirectoryOf, Within, ItemNames;
    var root, k := RootItems(dirName, dir, subItems, oem, rootItems), SelectAt(files, i);
    if files[i].inDir {
      assert EnteredAt(Select(files, true)[k], subItems[k]);
      at := subItems[k].at;
      IntoSub(allocs, dirName, dir, subItems, k);
      LeadsBelow(allocs, root, 0, [files[i].name], at);
      assert [dirName] + [files[i].name] == NamesOf(dirName, files[i]);
    } else {
      assert EnteredAt(Select(files, false)[k], rootItems[k]) && root[k + 2] == rootItems[k];
      at := rootItems[k].at;
      LeadsToFile(allocs, root, k + 2, at);
    }
  }

  lemma IntoSub(allocs: seq<Alloc>, dirName: seq<byte>, dir: Alloc, items: seq<Item>, k: nat)
    requires Within(dir) && AllHeld(allocs, items) && |items| <= 14 && dir.data == DirectoryOf(dir.first, Entries(allocs, items))
    requires DistinctNames(ItemNames(items)) && k < |items| && items[k].FileItem?
    ensures LeadsInto(allocs, DirItem(dirName, dir, items), [items[k].name], items[k].at)
  {
    hide AllHeld, DistinctNames, DirectoryOf, Within, Leads;
    LeadsToFile(allocs, items, k, items[k].at);
  }

  /** The builder's main program: the files in the order given, each into the subdirectory or the
      root; one more file; the subdirectory itself; and the root that lists it first, the last file
      second.  It succeeds exactly when everything fits, and then the firmware's reader finds every
      file under its path with its bytes. */
  method BuildImage(files: seq<Source>, oem: Source, dirName: seq<byte>, volumeName: seq<byte>)
    returns (image: Option<seq<byte>>)
    requires |volumeName| == 11
    ensures image.Some? <==>
            && Named(files + [oem]) && ShortName(dirName).Some?
            && Clusters(files + [oem]) + 1 <= CLUSTERS
            && |Select(files, true)| <= 14 && |Select(files, false)| + 2 <= ROOT_ENTRIES
    ensures image.Some? ==>
              var img := image.value;
              && |img| == 1474560 && img[..512] == BootSector(volumeName) && img[512..5120] == img[5120..9728]
              && Some(img[9728..9739]) == ShortName(dirName) && img[9739] == 0x10
              && Some(img[9760..9771]) == ShortName(oem.name) && img[9771] == 0x20
    ensures image.Some? && DistinctNames([dirName] + Names([oem] + Select(files, false))) ==>
              && ReadsBack(image.value, PathOf([oem.name]), oem.data)
              && forall i :: 0 <= i < |files| && (files[i].inDir ==> DistinctNames(Names(Select(files, true)))) ==>
                   ReadsBack(image.value, PathOf(NamesOf(dirName, files[i])), files[i].data)
  {
    hide DirEnt, ShortName, Image, ReadsBack, Consistent, DistinctNames, DirectoryOf, Held, AllHeld, EnteredAt, Entries, EntryFor,
         Flatten, Finished, Select, Clusters, Named, PathOf, NamesOf;
    LastSource(files, oem);
    var fs := new Fat12();
    var ok, sub, root;
    ghost var subItems: seq<Item>, rootItems: seq<Item>;
    ok, sub, root, subItems, rootItems := AddFiles(fs, files);
    if !ok {
      return None;
    }
    ghost var it, before := FileItem(oem.name, Alloc(fs.nextFree, oem.data)), fs.allocs;
    var oemEntry := AddFile(fs, oem);
    if oemEntry.None? {
      return None;
    }
    ghost var dir := Alloc(fs.nextFree, DirectoryOf(fs.nextFree, sub));
    var dirEntry := fs.Subdir(dirName, sub);
    if dirEntry.None? {
      return None;
    }
    var entries := [dirEntry.value, oemEntry.value] + root;
    ghost var img, fat, nextFree, allocs := fs.img, fs.fat, fs.nextFree, fs.allocs;
    image := fs.Finish(entries, volumeName);
    if image.Some? {
      FinishedIsImage(img, fat, nextFree, allocs, Flatten(entries), volumeName);
      StillHeld(before, allocs, subItems);
      StillHeld(before, allocs, rootItems);
      StaysHeld(before + [it.at], allocs, it);
      DirectoryLength(dir.first, sub);
      RootIsHeld(allocs, dirName, dir, subItems, it, rootItems);
      ghost var all := RootItems(dirName, dir, subItems, it, rootItems);
      assert Entries(allocs, all) == entries;
      ImageBytes(image.value, fat, entries, volumeName, allocs);
      RootNames(image.value, dirEntry.value, oemEntry.value);
      if DistinctNames([dirName] + Names([oem] + Select(files, false))) {
        EnteredNames(allocs, Select(files, true), subItems);
        EnteredNames(allocs, Select(files, false), rootItems);
        assert ItemNames(all) == [dirName] + Names([oem] + Select(files, false));
        FloppyReadsBack(image.value, fat, volumeName, allocs, files, oem, dirName, dir, subItems, it, rootItems);
      }
    }
  }

  /** Name and attribute of the root's first two entries. */
  lemma RootNames(img: seq<byte>, first: seq<byte>, second: seq<byte>)
    requires |img| == 1474560 && |first| == 32 && |second| == 32 && img[9728..9760] == first && img[9760..9792] == second
    ensures img[9728..9739] == first[..11] && img[9739] == first[11]
    ensures img[9760..9771] == second[..11] && img[9771] == second[11]
  {
    assert img[9728..9760][..11] == img[9728..9739] && img[9728..9760][11] == img[9739];
    assert img[9760..9792][..11] == img[9760..9771] && img[9760..9792][11] == img[9771];
  }

  lemma LastSource(files: seq<Source>, f: Source)
    ensures Clusters(files + [f]) == Clusters(files) + Alloc(2, f.data).Count()
    ensures Named(files + [f]) <==> Named(files) && ShortName(f.name).Some?
  {
    hide ShortName;
    assert (files + [f])[..|files|] == files;
    assert forall i :: 0 <= i < |files| ==> (files + [f])[i] == files[i];
    assert (files + [f])[|files|] == f;
  }

  lemma EnteredNames(allocs: seq<Alloc>, files: seq<Source>, items: seq<Item>)
    requires Entered(allocs, files, items)
    ensures ItemNames(items) == Names(files)
  {
    hide AllHeld;
    assert forall k :: 0 <= k < |files| ==> EnteredAt(files[k], items[k]);
  }

  lemma RootIsHeld(allocs: seq<Alloc>, dirName: seq<byte>, dir: Alloc, subItems: seq<Item>, oem: Item, rootItems: seq<Item>)
    requires ShortName(dirName).Some? && Within(dir) && dir in allocs && Held(allocs, oem) && AllHeld(allocs, rootItems)
    ensures AllHeld(allocs, RootItems(dirName, dir, subItems, oem, rootItems))
    ensures Entries(allocs, RootItems(dirName, dir, subItems, oem, rootItems)) ==
            [DirEnt(ShortName(dirName).value, dir.first, 0, DIRECTORY), EntryFor(allocs, oem)] + Entries(allocs, rootItems)
  {
    hide DirEnt, ShortName, Within;
  }

  lemma DirectoryLength(first: u16, entries: seq<seq<byte>>)
    requires |entries| <= 14 && Uniform(entries, 32)
    ensures |DirectoryOf(first, entries)| == BPS
  {
    hide DotEntries;
    FlattenLength(entries, 32);
  }
}
