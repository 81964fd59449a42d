/** The builder of the 1.44 MB FAT12 boot floppy: cluster allocation, directory entries, one
    subdirectory level and the finished image. */
module BootFloppy {
  import opened Words
  import opened Arithmetic
  import opened Blocks
  import FatReader
  import FatOpen

  // ---- the geometry of the disk ----------------------------------------------------------------

  const BPS := 512
  const SPC: byte := 1
  const RESERVED := 1
  const NFATS: byte := 2
  const ROOT_ENTRIES := 224
  const TOTAL := 2880
  const MEDIA: byte := 0xF0
  const SPF := 9
  const SPT := 18
  const HEADS := 2
  const FAT_START := 1
  const ROOT_START := 19
  const ROOT_SECTORS := 14
  const DATA_START := 33
  const CLUSTERS := 2847
  const FAT_BYTES := SPF * BPS
  const EOC := 0xFFF

  // ---- nibble-packed entries -------------------------------------------------------------------

  function Fat12Get(fat: seq<byte>, n: nat): nat
    requires n * 3 / 2 + 1 < |fat|
  {
    var i := n * 3 / 2;
    var v := fat[i] as int + 0x100 * (fat[i + 1] as int);
    if n % 2 == 1 then v / 0x10 else v % 0x1000
  }

  function Fat12Set(fat: seq<byte>, n: nat, val: nat): (r: seq<byte>)
    requires n * 3 / 2 + 1 < |fat| && val < 0x1000
    ensures |r| == |fat|
  {
    var i := n * 3 / 2;
    var v := fat[i] as int + 0x100 * (fat[i + 1] as int);
    var w := if n % 2 == 1 then val * 0x10 + v % 0x10 else v / 0x1000 * 0x1000 + val;
    fat[i := w % 0x100][i + 1 := w / 0x100 % 0x100]
  }

  /** A written entry reads back, and every other entry is what it was: entries share bytes. */
  lemma SetChangesOneEntry(fat: seq<byte>, n: nat, val: nat, m: nat)
    requires n * 3 / 2 + 1 < |fat| && m * 3 / 2 + 1 < |fat| && val < 0x1000
    ensures Fat12Get(Fat12Set(fat, n, val), m) == if m == n then val else Fat12Get(fat, m)
  {
    hide Fat12Get, Fat12Set;
    if m == n {
      SetGet(fat, n, val);
    } else if m == n + 1 && n % 2 == 0 {
      EvenEntry(n);
      SetKeepsHighNibble(fat, n, val);
    } else if n == m + 1 && m % 2 == 0 {
      EvenEntry(m);
      PlaceOf(n);
      SetKeepsLowNibble(fat, n, val);
    } else {
      FarApart(n, m);
      FarEntry(fat, n, val, m);
    }
  }

  /** Entry `n` starts at byte 3 (n / 2), or the byte after it. */
  lemma PlaceOf(n: nat)
    ensures n * 3 / 2 == n / 2 * 3 + n % 2
    ensures n % 2 == 1 ==> (n - 1) / 2 == n / 2 && (n - 1) % 2 == 0
  {
  }

  lemma FarApart(n: nat, m: nat)
    requires m != n && !(m == n + 1 && n % 2 == 0) && !(n == m + 1 && m % 2 == 0)
    ensures n * 3 / 2 + 1 < m * 3 / 2 || m * 3 / 2 + 1 < n * 3 / 2
  {
    PlaceOf(n);
    PlaceOf(m);
  }

  /** Entries that share no byte with the one written. */
  lemma FarEntry(fat: seq<byte>, n: nat, val: nat, m: nat)
    requires n * 3 / 2 + 1 < |fat| && m * 3 / 2 + 1 < |fat| && val < 0x1000
    requires n * 3 / 2 + 1 < m * 3 / 2 || m * 3 / 2 + 1 < n * 3 / 2
    ensures Fat12Get(Fat12Set(fat, n, val), m) == Fat12Get(fat, m)
  {
    var i, j, r := n * 3 / 2, m * 3 / 2, Fat12Set(fat, n, val);
    assert r[j] == fat[j] && r[j + 1] == fat[j + 1];
  }

  lemma SetGet(fat: seq<byte>, n: nat, val: nat)
    requires n * 3 / 2 + 1 < |fat| && val < 0x1000
    ensures Fat12Get(Fat12Set(fat, n, val), n) == val
  {
    var i := n * 3 / 2;
    WordOfBytes(val, fat[i], fat[i + 1]);
  }

  lemma WordOfBytes(val: nat, a: byte, b: byte)
    requires val < 0x1000
    ensures var w := val * 0x10 + (a as int + 0x100 * (b as int)) % 0x10;
            (w % 0x100 + 0x100 * (w / 0x100 % 0x100)) / 0x10 == val
    ensures var w := (a as int + 0x100 * (b as int)) / 0x1000 * 0x1000 + val;
            (w % 0x100 + 0x100 * (w / 0x100 % 0x100)) % 0x1000 == val
  {
    var v: int := a as int + 0x100 * (b as int);
    var h, r := v / 0x1000, v % 0x10;
    assert h < 0x10;
    TwoBytes(val * 0x10 + r);
    DivModUnique(val * 0x10 + r, 0x10, val, r);
    TwoBytes(h * 0x1000 + val);
    DivModUnique(h * 0x1000 + val, 0x1000, h, val);
  }

  lemma TwoBytes(w: nat)
    requires w < 0x1_0000
    ensures w % 0x100 + 0x100 * (w / 0x100 % 0x100) == w
  {
    assert w / 0x100 % 0x100 == w / 0x100;
  }

  /** The bytes of an even entry, and what they become. */
  lemma EvenBytes(fat: seq<byte>, n: nat, val: nat)
    requires n % 2 == 0 && n / 2 * 3 + 1 < |fat| && val < 0x1000
    ensures var i := n / 2 * 3;
            var v := fat[i] as int + 0x100 * (fat[i + 1] as int);
            var w := v / 0x1000 * 0x1000 + val;
            Fat12Get(fat, n) == v % 0x1000
            && Fat12Set(fat, n, val) == fat[i := w % 0x100][i + 1 := w / 0x100 % 0x100]
  {
    EvenEntry(n);
  }

  /** The bytes of an odd entry, and what they become. */
  lemma OddBytes(fat: seq<byte>, n: nat, val: nat)
    requires n % 2 == 1 && n / 2 * 3 + 2 < |fat| && val < 0x1000
    ensures var i := n / 2 * 3 + 1;
            var v := fat[i] as int + 0x100 * (fat[i + 1] as int);
            var w := val * 0x10 + v % 0x10;
            Fat12Get(fat, n) == v / 0x10
            && Fat12Set(fat, n, val) == fat[i := w % 0x100][i + 1 := w / 0x100 % 0x100]
  {
    EvenEntry(n - 1);
  }

  /** An even entry leaves the upper nibble of the byte it shares. */
  lemma SetKeepsHighNibble(fat: seq<byte>, n: nat, val: nat)
    requires n % 2 == 0 && n / 2 * 3 + 2 < |fat| && val < 0x1000
    ensures Fat12Get(Fat12Set(fat, n, val), n + 1) == Fat12Get(fat, n + 1)
  {
    hide Fat12Get, Fat12Set;
    var i, r := n / 2 * 3, Fat12Set(fat, n, val);
    EvenBytes(fat, n, val);
    OddBytes(fat, n + 1, 0);
    OddBytes(r, n + 1, 0);
    HighNibble(fat[i], fat[i + 1], fat[i + 2], val);
  }

  /** An odd entry leaves the lower nibble of the byte it shares. */
  lemma SetKeepsLowNibble(fat: seq<byte>, n: nat, val: nat)
    requires n % 2 == 1 && n / 2 * 3 + 2 < |fat| && val < 0x1000
    ensures Fat12Get(Fat12Set(fat, n, val), n - 1) == Fat12Get(fat, n - 1)
  {
    hide Fat12Get, Fat12Set;
    var i, r := n / 2 * 3 + 1, Fat12Set(fat, n, val);
    OddBytes(fat, n, val);
    EvenBytes(fat, n - 1, 0);
    EvenBytes(r, n - 1, 0);
    LowNibble(fat[i - 1], fat[i], fat[i + 1], val);
  }

  lemma EvenEntry(n: nat)
    ensures n % 2 == 0 ==> n * 3 / 2 == n / 2 * 3 && (n + 1) * 3 / 2 == n / 2 * 3 + 1 && (n + 1) % 2 == 1
  {
  }

  lemma HighNibble(a: int, b: int, c: int, val: nat)
    requires 0 <= a < 0x100 && 0 <= b < 0x100 && 0 <= c < 0x100 && val < 0x1000
    ensures var w := (a + 0x100 * b) / 0x1000 * 0x1000 + val;
            (w / 0x100 % 0x100 + 0x100 * c) / 0x10 == (b + 0x100 * c) / 0x10
  {
    var h, l, q := b / 0x10, b % 0x10, val / 0x100;
    DivModUnique(a + 0x100 * b, 0x1000, h, a + 0x100 * l);
    DivModUnique(h * 0x1000 + val, 0x100, 0x10 * h + q, val % 0x100);
    DivModUnique(0x10 * h + q, 0x100, 0, 0x10 * h + q);
    DivModUnique(0x10 * h + q + 0x100 * c, 0x10, h + 0x10 * c, q);
    DivModUnique(b + 0x100 * c, 0x10, h + 0x10 * c, l);
  }

  lemma LowNibble(a: int, b: int, c: int, val: nat)
    requires 0 <= a < 0x100 && 0 <= b < 0x100 && 0 <= c < 0x100 && val < 0x1000
    ensures var w := val * 0x10 + (b + 0x100 * c) % 0x10;
            (a + 0x100 * (w % 0x100)) % 0x1000 == (a + 0x100 * b) % 0x1000
  {
    var h, l, r := b / 0x10, b % 0x10, val % 0x10;
    DivModUnique(b + 0x100 * c, 0x10, h + 0x10 * c, l);
    DivModUnique(val * 0x10 + l, 0x100, val / 0x10, r * 0x10 + l);
    DivModUnique(a + 0x100 * (r * 0x10 + l), 0x1000, r, a + 0x100 * l);
    DivModUnique(a + 0x100 * b, 0x1000, h, a + 0x100 * l);
  }

  // ---- directory entries -----------------------------------------------------------------------

  /** The 11-byte name field; None where the builder refuses the name. */
  function ShortName(name: seq<byte>): (r: Option<seq<byte>>)
    ensures r.Some? ==> |r.value| == 11
  {
    if name == [FatOpen.DOT] || name == [FatOpen.DOT, FatOpen.DOT] then Some(FatOpen.Padded(name, 11))
    else
      var up := FatOpen.Upper(name);
      var stem, ext := FatOpen.Stem(up), FatOpen.Extension(up);
      if |stem| > 8 || |ext| > 3 || exists c :: c in name && c >= 0x80 then None
      else Some(FatOpen.Padded(stem, 8) + FatOpen.Padded(ext, 3))
  }

  /** The builder takes '.', '..' and every ASCII name with at most eight characters before its first dot
      (at `k`) and three behind it, and no other. */
  lemma ShortNameIff(name: seq<byte>, k: nat)
    requires k <= |name| && (k < |name| ==> name[k] == 0x2E) && forall i :: 0 <= i < k ==> name[i] != 0x2E
    ensures ShortName(name).Some? <==>
            name == [0x2E] || name == [0x2E, 0x2E]
            || (k <= 8 && |name| <= k + 4 && forall i :: 0 <= i < |name| ==> name[i] < 0x80)
  {
    hide FatOpen.Upper, FatOpen.FirstDot, FatOpen.Padded;
    UpperKeepsDots(name);
    FirstDotIs(name, k);
    var up := FatOpen.Upper(name);
    assert |FatOpen.Stem(up)| == k;
    assert |FatOpen.Extension(up)| == if k < |name| then |name| - k - 1 else 0;
    if i :| 0 <= i < |name| && name[i] >= 0x80 {
      assert name[i] in name;
    }
  }

  lemma {:induction false} FirstDotIs(name: seq<byte>, k: nat)
    requires k <= |name| && (k < |name| ==> name[k] == 0x2E) && forall i :: 0 <= i < k ==> name[i] != 0x2E
    ensures FatOpen.FirstDot(name) == k
  {
    if k > 0 {
      FirstDotIs(name[1..], k - 1);
    }
  }

  lemma {:induction false} UpperKeepsDots(name: seq<byte>)
    ensures FatOpen.FirstDot(FatOpen.Upper(name)) == FatOpen.FirstDot(name)
  {
    if name != [] {
      UpperKeepsDots(name[1..]);
      assert FatOpen.Upper(name)[1..] == FatOpen.Upper(name[1..]);
    }
  }

  lemma UpperOfSlice(s: seq<byte>, a: nat, b: nat)
    requires a <= b <= |s|
    ensures FatOpen.Upper(s)[a..b] == FatOpen.Upper(s[a..b])
  {
    hide FatOpen.Upper, FatOpen.UpperByte;
    var l, r := FatOpen.Upper(s)[a..b], FatOpen.Upper(s[a..b]);
    assert forall i :: 0 <= i < |l| ==> l[i] == r[i];
  }

  /** The builder and the reader agree on the name field of every name with at most one dot. */
  lemma NamesAgree(name: seq<byte>)
    requires name != [FatOpen.DOT] && name != [FatOpen.DOT, FatOpen.DOT]
    requires FatOpen.DOT !in FatOpen.Extension(name)
    ensures ShortName(name).Some? ==> ShortName(name) == FatOpen.Name83(name)
  {
    hide FatOpen.Upper, FatOpen.FirstDot, FatOpen.Padded;
    UpperKeepsDots(name);
    var k := FatOpen.FirstDot(name);
    UpperOfSlice(name, 0, k);
    if k < |name| {
      UpperOfSlice(name, k + 1, |name|);
      assert name[k + 1..|name|] == name[k + 1..];
      assert FatOpen.Upper(name)[k + 1..|name|] == FatOpen.Upper(name)[k + 1..];
    }
  }

  const STAMP: seq<byte> := [0, 0, 0x41, 0x21]

  /** One 32-byte directory entry. */
  function DirEnt(short: seq<byte>, cluster: u16, size: u32, attr: byte): (e: seq<byte>)
    requires |short| == 11
    ensures |e| == 32
    ensures e[..11] == short && e[11] == attr && Le16(e, 20) == 0 && Le16(e, 26) == cluster && Le32(e, 28) == size
    ensures Le16(e, 22) == 0 && Le16(e, 24) == (1996 - 1980) * 512 + 10 * 32 + 1
  {
    short + [attr] + Zeros(10) + STAMP + Bytes16(cluster) + Bytes32(size)
  }

  // ---- allocation ------------------------------------------------------------------------------

  /** A contiguous file: its first cluster and its bytes. */
  datatype Alloc = Alloc(first: nat, data: seq<byte>)
  {
    /** The least number of clusters that holds the data, but at least one. */
    function Count(): (n: nat)
      ensures n > 0 && |data| <= n * 512 && (n > 1 ==> (n - 1) * 512 < |data|)
    {
      if |data| == 0 then 1 else (|data| + BPS - 1) / BPS
    }

    function At(): int { (DATA_START + first - 2) * BPS }
  }

  /** The FAT chains the file's clusters in order and ends there. */
  ghost predicate Chained(fat: seq<byte>, a: Alloc)
    requires |fat| == FAT_BYTES
  {
    && 2 <= a.first && a.first + a.Count() <= CLUSTERS + 2
    && forall c :: a.first <= c < a.first + a.Count() ==>
         Fat12Get(fat, c) == if c == a.first + a.Count() - 1 then 0xFFF else c + 1
  }

  ghost predicate Stored(img: seq<byte>, a: Alloc) {
    0 <= a.At() && a.At() + |a.data| <= |img| && img[a.At()..a.At() + |a.data|] == a.data
  }

  /** The files one after another from cluster 2 up to the next free one. */
  ghost predicate Placed(allocs: seq<Alloc>, nextFree: nat) {
    && (forall i :: 0 <= i < |allocs| ==> 2 <= allocs[i].first && allocs[i].first + allocs[i].Count() <= nextFree)
    && (forall i, j :: 0 <= i < j < |allocs| ==> allocs[i].first + allocs[i].Count() <= allocs[j].first)
  }

  const DIRECTORY: byte := 0x10
  const ARCHIVE: byte := 0x20

  function DotEntries(first: u16): (s: seq<byte>)
    ensures |s| == 64
  {
    DirEnt(ShortName([FatOpen.DOT]).value, first, 0, DIRECTORY) +
    DirEnt(ShortName([FatOpen.DOT, FatOpen.DOT]).value, 0, 0, DIRECTORY)
  }

  /** '.' is the directory itself and '..' the root, both directories under their literal names. */
  lemma DotsSay(first: u16)
    ensures var d := DotEntries(first);
            && d[..11] == [0x2E] + seq(10, _ => 0x20) && d[11] == 0x10 && Le16(d, 26) == first
            && d[32..43] == [0x2E, 0x2E] + seq(9, _ => 0x20) && d[43] == 0x10 && Le16(d, 58) == 0
  {
    hide DirEnt, ShortName;
    DotNames();
    var a, b := DirEnt(ShortName([FatOpen.DOT]).value, first, 0, DIRECTORY),
                DirEnt(ShortName([FatOpen.DOT, FatOpen.DOT]).value, 0, 0, DIRECTORY);
    var d := DotEntries(first);
    assert d == a + b;
    assert d[..11] == a[..11] && d[32..43] == b[..11];
    assert Le16(d, 26) == Le16(a, 26) && Le16(d, 58) == Le16(b, 26);
  }

  lemma DotNames()
    ensures ShortName([FatOpen.DOT]) == Some([0x2E] + seq(10, _ => 0x20))
    ensures ShortName([FatOpen.DOT, FatOpen.DOT]) == Some([0x2E, 0x2E] + seq(9, _ => 0x20))
  {
    assert seq(11 - 1, _ => FatOpen.SPACE) == seq(10, _ => 0x20 as byte);
    assert seq(11 - 2, _ => FatOpen.SPACE) == seq(9, _ => 0x20 as byte);
  }

  /** A subdirectory's cluster: '.', '..', the entries, zeros. */
  ghost function DirectoryOf(first: u16, entries: seq<seq<byte>>): seq<byte> {
    var blob := DotEntries(first) + Flatten(entries);
    blob + Zeros(if |blob| <= BPS then BPS - |blob| else 0)
  }

  /** b''.join */
  method Join(parts: seq<seq<byte>>) returns (s: seq<byte>)
    ensures s == Flatten(parts)
  {
    s := [];
    for i := 0 to |parts|
      invariant s == Flatten(parts[..i])
    {
      FlattenConcat(parts[..i], [parts[i]]);
      assert parts[..i + 1] == parts[..i] + [parts[i]];
      assert Flatten([parts[i]]) == parts[i];
      s := s + parts[i];
    }
    assert parts[..|parts|] == parts;
  }

  const OEM_NAME: seq<byte> := [0x4D, 0x53, 0x44, 0x4F, 0x53, 0x35, 0x2E, 0x30]
  const FS_NAME: seq<byte> := [0x46, 0x41, 0x54, 0x31, 0x32, 0x20, 0x20, 0x20]
  const SERIAL: u32 := 0x4E54_4F45

  /** The boot sector; `volumeName` is its 11-byte field. */
  function BootSector(volumeName: seq<byte>): (bs: seq<byte>)
    requires |volumeName| == 11
    ensures |bs| == BPS
  {
    var head: seq<byte> := [0xEB, 0x3C, 0x90] + OEM_NAME + Bytes16(BPS) + [SPC] + Bytes16(RESERVED) + [NFATS]
                           + Bytes16(ROOT_ENTRIES) + Bytes16(TOTAL) + [MEDIA] + Bytes16(SPF) + Bytes16(SPT)
                           + Bytes16(HEADS) + Bytes32(0) + Bytes32(0) + [0, 0, 0x29] + Bytes32(SERIAL) + volumeName + FS_NAME;
    head + Zeros(448) + [0x55, 0xAA]
  }

  ghost function Finished(img: seq<byte>, fat: seq<byte>, root: seq<byte>, volumeName: seq<byte>): seq<byte>
    requires |img| == TOTAL * BPS && |fat| == FAT_BYTES && |root| <= ROOT_SECTORS * BPS && |volumeName| == 11
  {
    Splice(Splice(Splice(Splice(img, 0, BootSector(volumeName)), FAT_START * BPS, fat), (FAT_START + SPF) * BPS, fat),
           ROOT_START * BPS, root)
  }

  ghost predicate Consistent(img: seq<byte>, fat: seq<byte>, nextFree: nat, allocs: seq<Alloc>) {
    && |img| == TOTAL * BPS && |fat| == FAT_BYTES
    && 2 <= nextFree <= CLUSTERS + 2
    && Placed(allocs, nextFree)
    && (forall i :: 0 <= i < |allocs| ==> Chained(fat, allocs[i]))
    && (forall i :: 0 <= i < |allocs| ==> Stored(img, allocs[i]))
    && (forall i :: 0 <= i < DATA_START * BPS ==> img[i] == 0)
  }

  class Fat12 {
    var img: seq<byte>
    var fat: seq<byte>
    var nextFree: nat
    ghost var allocs: seq<Alloc>

    ghost predicate Valid()
      reads this
    {
      Consistent(img, fat, nextFree, allocs)
    }

    constructor ()
      ensures Valid() && allocs == [] && nextFree == 2
      ensures Fat12Get(fat, 0) == 0xF00 + MEDIA && Fat12Get(fat, 1) == 0xFFF
      ensures forall c :: 2 <= c < CLUSTERS + 2 ==> Fat12Get(fat, c) == 0
    {
      img := Zeros(TOTAL * BPS);
      fat := Fat12Set(Fat12Set(Zeros(FAT_BYTES), 0, 0xF00 + MEDIA), 1, 0xFFF);
      nextFree := 2;
      allocs := [];
      EmptyFat();
    }

    /** Write `data` into fresh clusters.  None: out of space, and nothing has changed. */
    method Allocate(data: seq<byte>) returns (first: Option<nat>)
      requires Valid()
      modifies this
      ensures Valid()
      ensures var a := Alloc(old(nextFree), data);
              if old(nextFree) + a.Count() > CLUSTERS + 2 then
                first == None && allocs == old(allocs) && img == old(img) && fat == old(fat) && nextFree == old(nextFree)
              else first == Some(a.first) && allocs == old(allocs) + [a] && nextFree == a.first + a.Count()
    {
      hide Consistent, Placed, Chained;
      ghost var a, before := Alloc(nextFree, data), fat;
      ConsistentParts(img, fat, nextFree, allocs);
      var n := if |data| == 0 then 1 else (|data| + BPS - 1) / BPS;
      if nextFree + n > CLUSTERS + 2 {
        return None;
      }
      var c := nextFree;
      LinkClusters(c, n);
      AllocKeepsConsistent(img, before, fat, nextFree, allocs, a);
      img := Splice(img, (DATA_START + c - 2) * BPS, data);
      nextFree := c + n;
      allocs := allocs + [a];
      first := Some(c);
    }

    /** A one-cluster subdirectory.  None: out of space, a name that is no 8.3 name, or too many
        entries. */
    method Subdir(name: seq<byte>, entries: seq<seq<byte>>) returns (e: Option<seq<byte>>)
      requires Valid() && Uniform(entries, 32)
      modifies this
      ensures e.Some? ==> Valid()
      ensures e.Some? <==> old(nextFree) <= CLUSTERS + 1 && 32 * (2 + |entries|) <= BPS && ShortName(name).Some?
      ensures e.Some? ==>
                && allocs == old(allocs) + [Alloc(old(nextFree), DirectoryOf(old(nextFree), entries))]
                && nextFree == old(nextFree) + 1
                && e == Some(DirEnt(ShortName(name).value, old(nextFree), 0, DIRECTORY))
    {
      hide Consistent, DotEntries, ShortName, Placed, Chained;
      ConsistentParts(img, fat, nextFree, allocs);
      var zeros := Zeros(BPS * SPC);
      var first := Allocate(zeros);
      if first.None? {
        return None;
      }
      ghost var before := old(allocs);
      FlattenLength(entries, 32);
      var tail := Join(entries);
      var blob := DotEntries(first.value) + tail;
      if |blob| > BPS * SPC {
        return None;
      }
      var short := ShortName(name);
      if short.None? {
        return None;
      }
      RewriteKeepsConsistent(img, fat, nextFree, before, Alloc(first.value, zeros), blob);
      img := Splice(img, (DATA_START + first.value - 2) * BPS, blob);
      allocs := before + [Alloc(first.value, DirectoryOf(first.value, entries))];
      e := Some(DirEnt(short.value, first.value, 0, DIRECTORY));
    }

    /** The finished image.  None: the root directory is full. */
    method Finish(rootEntries: seq<seq<byte>>, volumeName: seq<byte>) returns (image: Option<seq<byte>>)
      requires Valid() && Uniform(rootEntries, 32) && |volumeName| == 11
      modifies this`img
      ensures |Flatten(rootEntries)| == 32 * |rootEntries|
      ensures image.Some? <==> 32 * |rootEntries| <= ROOT_SECTORS * BPS
      ensures image.Some? ==> image.value == Finished(old(img), fat, Flatten(rootEntries), volumeName)
    {
      img := Splice(img, 0, BootSector(volumeName));
      for i := 0 to NFATS
        invariant |img| == TOTAL * BPS
        invariant i == 0 ==> img == Splice(old(img), 0, BootSector(volumeName))
        invariant i == 1 ==> img == Splice(Splice(old(img), 0, BootSector(volumeName)), FAT_START * BPS, fat)
        invariant i == 2 ==> img == Splice(Splice(Splice(old(img), 0, BootSector(volumeName)), FAT_START * BPS, fat),
                                           (FAT_START + SPF) * BPS, fat)
      {
        img := Splice(img, (FAT_START + i * SPF) * BPS, fat);
      }
      FlattenLength(rootEntries, 32);
      var root := Join(rootEntries);
      if |root| > ROOT_SECTORS * BPS {
        return None;
      }
      img := Splice(img, ROOT_START * BPS, root);
      image := Some(img);
    }

    /** The loop of alloc: chain `n` fresh clusters from `c`. */
    method LinkClusters(c: nat, n: nat)
      requires |fat| == FAT_BYTES && 2 <= c && c + n <= CLUSTERS + 2
      requires Placed(allocs, c) && forall i :: 0 <= i < |allocs| ==> Chained(fat, allocs[i])
      modifies this`fat
      ensures |fat| == FAT_BYTES
      ensures forall i :: 0 <= i < |allocs| ==> Chained(fat, allocs[i])
      ensures forall a: Alloc :: a.first == c && a.Count() == n ==> Chained(fat, a)
    {
      hide Fat12Get, Fat12Set, Placed;
      for k := 0 to n
        invariant |fat| == FAT_BYTES
        invariant forall i :: 0 <= i < |allocs| ==> Chained(fat, allocs[i])
        invariant forall m :: c <= m < c + k ==> Fat12Get(fat, m) == if m == c + n - 1 then EOC else m + 1
      {
        var val := if k == n - 1 then EOC else c + k + 1;
        SetKeepsChains(fat, c + k, val, allocs, c, c);
        fat := Fat12Set(fat, c + k, val);
      }
    }
  }

  /** The FAT of an empty volume: the two reserved entries, and every cluster free. */
  lemma EmptyFat()
    ensures var fat := Fat12Set(Fat12Set(Zeros(FAT_BYTES), 0, 0xF00 + MEDIA), 1, 0xFFF);
            && Fat12Get(fat, 0) == 0xF00 + MEDIA && Fat12Get(fat, 1) == 0xFFF
            && forall c :: 2 <= c < CLUSTERS + 2 ==> Fat12Get(fat, c) == 0
  {
    hide Fat12Get, Fat12Set;
    var zeros: seq<byte> := Zeros(FAT_BYTES);
    var one := Fat12Set(zeros, 0, 0xF00 + MEDIA);
    forall c | 0 <= c < CLUSTERS + 2
      ensures Fat12Get(Fat12Set(one, 1, 0xFFF), c) == if c == 1 then 0xFFF else if c == 0 then 0xF00 + MEDIA else 0
    {
      SetChangesOneEntry(one, 1, 0xFFF, c);
      SetChangesOneEntry(zeros, 0, 0xF00 + MEDIA, c);
      ZeroEntry(zeros, c);
    }
  }

  lemma ZeroEntry(fat: seq<byte>, c: nat)
    requires c * 3 / 2 + 1 < |fat| && forall i :: 0 <= i < |fat| ==> fat[i] == 0
    ensures Fat12Get(fat, c) == 0
  {
  }

  lemma ConsistentParts(img: seq<byte>, fat: seq<byte>, nextFree: nat, allocs: seq<Alloc>)
    requires Consistent(img, fat, nextFree, allocs)
    ensures |img| == TOTAL * BPS && |fat| == FAT_BYTES && 2 <= nextFree <= CLUSTERS + 2 && Placed(allocs, nextFree)
    ensures forall i :: 0 <= i < |allocs| ==> Chained(fat, allocs[i])
  {
  }

  lemma AllocKeepsConsistent(img: seq<byte>, before: seq<byte>, fat: seq<byte>, nextFree: nat, allocs: seq<Alloc>, a: Alloc)
    requires Consistent(img, before, nextFree, allocs) && a.first == nextFree
    requires |fat| == FAT_BYTES && Chained(fat, a) && forall i :: 0 <= i < |allocs| ==> Chained(fat, allocs[i])
    ensures 0 <= a.At() && a.At() + |a.data| <= |img|
    ensures Consistent(Splice(img, a.At(), a.data), fat, nextFree + a.Count(), allocs + [a])
  {
    StoringKeepsStored(img, a, allocs, nextFree);
    var all := allocs + [a];
    assert forall i :: 0 <= i < |all| ==> Chained(fat, all[i]);
    assert Placed(all, nextFree + a.Count());
  }

  /** Writing into the cluster of the last file. */
  lemma RewriteKeepsConsistent(img: seq<byte>, fat: seq<byte>, nextFree: nat, before: seq<Alloc>, a: Alloc, blob: seq<byte>)
    requires Consistent(img, fat, nextFree, before + [a])
    requires a.data == Zeros(BPS) && |blob| <= BPS
    ensures 0 <= a.At() && a.At() + |blob| <= |img|
    ensures Consistent(Splice(img, a.At(), blob), fat, nextFree, before + [a.(data := blob + Zeros(BPS - |blob|))])
  {
    var b := a.(data := blob + Zeros(BPS - |blob|));
    var all, now := before + [a], before + [b];
    assert all[|before|] == a && Stored(img, a) && Chained(fat, a);
    assert forall i :: 0 <= i < |before| ==> all[i] == before[i] && now[i] == before[i];
    SameCountKeepsPlaced(before, a, b, nextFree);
    RewriteStored(img, a, b, blob);
    var after := Splice(img, a.At(), blob);
    forall i | 0 <= i < |before|
      ensures Stored(after, before[i])
    {
      assert Stored(img, all[i]) && all[i].first + all[i].Count() <= all[|before|].first;
      EarlierStays(img, a.At(), blob, before[i]);
    }
  }

  lemma SameCountKeepsPlaced(before: seq<Alloc>, a: Alloc, b: Alloc, nextFree: nat)
    requires Placed(before + [a], nextFree) && a.first == b.first && a.Count() == b.Count()
    ensures Placed(before + [b], nextFree)
  {
    var all, now := before + [a], before + [b];
    assert forall i :: 0 <= i < |all| ==> all[i].first == now[i].first && all[i].Count() == now[i].Count();
  }

  lemma EarlierStays(img: seq<byte>, at: nat, blob: seq<byte>, f: Alloc)
    requires at + |blob| <= |img| && Stored(img, f) && f.At() + |f.data| <= at
    ensures Stored(Splice(img, at, blob), f)
  {
    assert Splice(img, at, blob)[f.At()..f.At() + |f.data|] == img[f.At()..f.At() + |f.data|];
  }

  lemma RewriteStored(img: seq<byte>, a: Alloc, b: Alloc, blob: seq<byte>)
    requires Stored(img, a) && a.data == Zeros(BPS) && |blob| <= BPS
    requires b == a.(data := blob + Zeros(BPS - |blob|))
    ensures Stored(Splice(img, a.At(), blob), b)
  {
    var after := Splice(img, a.At(), blob);
    forall k | 0 <= k < BPS
      ensures after[a.At() + k] == b.data[k]
    {
      assert img[a.At()..a.At() + BPS][k] == 0;
    }
    assert after[b.At()..b.At() + BPS] == b.data;
  }

  lemma SetKeepsChains(fat: seq<byte>, n: nat, val: nat, allocs: seq<Alloc>, nextFree: nat, from: nat)
    requires |fat| == FAT_BYTES && nextFree <= n < CLUSTERS + 2 && val < 0x1000 && nextFree <= from <= n
    requires Placed(allocs, nextFree) && forall i :: 0 <= i < |allocs| ==> Chained(fat, allocs[i])
    ensures forall i :: 0 <= i < |allocs| ==> Chained(Fat12Set(fat, n, val), allocs[i])
    ensures forall m :: from <= m < n ==> Fat12Get(Fat12Set(fat, n, val), m) == Fat12Get(fat, m)
    ensures Fat12Get(Fat12Set(fat, n, val), n) == val
  {
    forall m | 0 <= m < CLUSTERS + 2
      ensures Fat12Get(Fat12Set(fat, n, val), m) == if m == n then val else Fat12Get(fat, m)
    {
      SetChangesOneEntry(fat, n, val, m);
    }
  }

  lemma StoringKeepsStored(img: seq<byte>, a: Alloc, allocs: seq<Alloc>, nextFree: nat)
    requires |img| == TOTAL * BPS && a.first == nextFree && 2 <= a.first && a.first + a.Count() <= CLUSTERS + 2
    requires Placed(allocs, nextFree) && forall i :: 0 <= i < |allocs| ==> Stored(img, allocs[i])
    ensures 0 <= a.At() && a.At() + |a.data| <= |img|
    ensures var after := Splice(img, a.At(), a.data);
            Stored(after, a) && forall i :: 0 <= i < |allocs| ==> Stored(after, allocs[i])
  {
    var after := Splice(img, a.At(), a.data);
    forall i | 0 <= i < |allocs|
      ensures Stored(after, allocs[i])
    {
      var b := allocs[i];
      assert b.At() + |b.data| <= a.At();
      assert after[b.At()..b.At() + |b.data|] == img[b.At()..b.At() + |b.data|];
    }
  }
}
