/** The firmware's memory descriptors: all installed memory, typed and run-length encoded. */
module MemoryMap {
  import opened Words

  const MAX_DESC := 64
  const PERMANENT_END := 0xA
  const KSEG0_PAGES := 0x800
  const PAGE := 0x1000

  datatype MemoryType = MemoryFree | MemoryLoadedProgram | MemoryFirmwareTemporary | MemoryFirmwarePermanent

  datatype Descriptor = Descriptor(kind: MemoryType, base: nat, count: nat)

  // ---- what a page is for ----------------------------------------------------------------------

  /** The pages the loader's program occupies. */
  datatype Program = Program(base: u32, pages: u32)
  {
    predicate Holds(page: nat) { base <= page < base + pages }
  }

  /** The policy, page by page; `otherwise` is what the firmware said of the page. */
  function PageType(page: nat, otherwise: MemoryType, loaded: Program): MemoryType {
    if page < PERMANENT_END then MemoryFirmwarePermanent
    else if otherwise == MemoryFree && page >= KSEG0_PAGES then MemoryFirmwareTemporary
    else if loaded.Holds(page) then MemoryLoadedProgram
    else otherwise
  }

  datatype PageUse = PageUse(page: nat, kind: MemoryType)

  /** An available range in pages: the first rounded down, the end rounded up. */
  function AvailableFirst(avail: seq<u32>, j: nat): nat
    requires 2 * j + 1 < |avail|
  {
    avail[2 * j] / PAGE
  }

  function AvailableEnd(avail: seq<u32>, j: nat): nat
    requires 2 * j + 1 < |avail|
  {
    (avail[2 * j] + avail[2 * j + 1] + (PAGE - 1)) / PAGE
  }

  ghost predicate IsAvailable(avail: seq<u32>, page: nat) {
    exists j: nat :: 2 * j + 1 < |avail| && AvailableFirst(avail, j) <= page < AvailableEnd(avail, j)
  }

  ghost function UseOf(avail: seq<u32>, loaded: Program, page: nat): PageUse {
    PageUse(page, PageType(page, if IsAvailable(avail, page) then MemoryFree else MemoryFirmwareTemporary, loaded))
  }

  ghost function UsesOf(avail: seq<u32>, loaded: Program, first: nat, end: nat): (uses: seq<PageUse>)
    requires first <= end
    ensures |uses| == end - first
  {
    seq(end - first, i requires 0 <= i => UseOf(avail, loaded, first + i))
  }

  function RegionFirst(reg: seq<u32>, i: nat): nat
    requires 2 * i + 1 < |reg|
  {
    reg[2 * i] / PAGE
  }

  function RegionEnd(reg: seq<u32>, i: nat): (end: nat)
    requires 2 * i + 1 < |reg|
    ensures RegionFirst(reg, i) <= end
  {
    (reg[2 * i] + reg[2 * i + 1]) / PAGE
  }

  /** Every page of the first `n` regions of installed memory, with its type. */
  ghost function Installed(reg: seq<u32>, avail: seq<u32>, loaded: Program, n: nat): seq<PageUse>
    requires 2 * n <= |reg|
  {
    if n == 0 then []
    else Installed(reg, avail, loaded, n - 1) + UsesOf(avail, loaded, RegionFirst(reg, n - 1), RegionEnd(reg, n - 1))
  }

  // ---- descriptors as a run-length encoding ----------------------------------------------------

  ghost function Block(kind: MemoryType, base: nat, count: nat): (b: seq<PageUse>)
    ensures |b| == count
  {
    seq(count, i requires 0 <= i => PageUse(base + i, kind))
  }

  ghost function Expand(ds: seq<Descriptor>): seq<PageUse> {
    if ds == [] then []
    else
      var d := ds[|ds| - 1];
      Expand(ds[..|ds| - 1]) + Block(d.kind, d.base, d.count)
  }

  predicate Mergeable(a: Descriptor, b: Descriptor) { a.kind == b.kind && a.base + a.count == b.base }

  ghost predicate Canonical(ds: seq<Descriptor>) {
    && (forall i :: 0 <= i < |ds| ==> ds[i].count > 0)
    && (forall i :: 0 <= i < |ds| - 1 ==> !Mergeable(ds[i], ds[i + 1]))
  }

  /** `add`: merge with the last descriptor or start a new one. */
  function Extend(ds: seq<Descriptor>, kind: MemoryType, base: nat, count: nat): seq<Descriptor> {
    if count == 0 then ds
    else if ds != [] && Mergeable(ds[|ds| - 1], Descriptor(kind, base, count)) then
      ds[|ds| - 1 := ds[|ds| - 1].(count := ds[|ds| - 1].count + count)]
    else ds + [Descriptor(kind, base, count)]
  }

  /** The encoding of a page list, one page at a time. */
  ghost function Encoded(pages: seq<PageUse>): seq<Descriptor> {
    if pages == [] then []
    else
      var p := pages[|pages| - 1];
      Extend(Encoded(pages[..|pages| - 1]), p.kind, p.page, 1)
  }

  lemma ExpandExtend(ds: seq<Descriptor>, kind: MemoryType, base: nat, count: nat)
    ensures Expand(Extend(ds, kind, base, count)) == Expand(ds) + Block(kind, base, count)
  {
    var after := Extend(ds, kind, base, count);
    if count == 0 {
    } else if |after| == |ds| {
      var d := ds[|ds| - 1];
      assert after[..|ds| - 1] == ds[..|ds| - 1];
      assert Block(kind, d.base, d.count + count) == Block(kind, d.base, d.count) + Block(kind, base, count);
    } else {
      assert after[..|ds|] == ds;
    }
  }

  lemma NothingIsCanonical()
    ensures Canonical([])
  {
  }

  lemma CanonicalExtend(ds: seq<Descriptor>, kind: MemoryType, base: nat)
    ensures Canonical(ds) ==> Canonical(Extend(ds, kind, base, 1))
  {
  }

  /** The encoding loses nothing and leaves no two neighbours that could be one. */
  lemma {:induction false} EncodedIsExact(pages: seq<PageUse>)
    ensures Expand(Encoded(pages)) == pages && Canonical(Encoded(pages))
  {
    hide Extend, Canonical;
    NothingIsCanonical();
    if pages != [] {
      var p := pages[|pages| - 1];
      EncodedIsExact(pages[..|pages| - 1]);
      CanonicalExtend(Encoded(pages[..|pages| - 1]), p.kind, p.page);
      ExpandExtend(Encoded(pages[..|pages| - 1]), p.kind, p.page, 1);
      assert Block(p.kind, p.page, 1) == [p];
    }
  }

  lemma ExtendTwice(ds: seq<Descriptor>, kind: MemoryType, base: nat, count: nat)
    ensures Extend(Extend(ds, kind, base, count), kind, base + count, 1) == Extend(ds, kind, base, count + 1)
  {
  }

  lemma ExtendNothing(ds: seq<Descriptor>, kind: MemoryType, base: nat)
    ensures Extend(ds, kind, base, 0) == ds
  {
  }

  lemma EncodedStep(pages: seq<PageUse>, p: PageUse)
    ensures Encoded(pages + [p]) == Extend(Encoded(pages), p.kind, p.page, 1)
  {
    assert (pages + [p])[..|pages|] == pages;
  }

  /** Adding a block of pages at once is adding them one by one. */
  lemma {:induction false} EncodedBlock(pages: seq<PageUse>, kind: MemoryType, base: nat, count: nat)
    ensures Encoded(pages + Block(kind, base, count)) == Extend(Encoded(pages), kind, base, count)
  {
    hide Extend, Encoded;
    ExtendNothing(Encoded(pages), kind, base);
    if count == 0 {
      assert pages + Block(kind, base, count) == pages;
    } else {
      EncodedBlock(pages, kind, base, count - 1);
      EncodedStep(pages + Block(kind, base, count - 1), PageUse(base + count - 1, kind));
      ExtendTwice(Encoded(pages), kind, base, count - 1);
      assert Block(kind, base, count) == Block(kind, base, count - 1) + [PageUse(base + count - 1, kind)];
      assert pages + Block(kind, base, count) ==
             (pages + Block(kind, base, count - 1)) + [PageUse(base + count - 1, kind)];
    }
  }

  /** A canonical descriptor list is the encoding of the pages it covers: there is no other. */
  lemma {:induction false} CanonicalIsEncoded(ds: seq<Descriptor>)
    requires Canonical(ds)
    ensures ds == Encoded(Expand(ds))
  {
    if ds != [] {
      var d := ds[|ds| - 1];
      CanonicalIsEncoded(ds[..|ds| - 1]);
      EncodedBlock(Expand(ds[..|ds| - 1]), d.kind, d.base, d.count);
    }
  }

  lemma {:induction false} EncodedGrows(pages: seq<PageUse>, more: seq<PageUse>)
    ensures |Encoded(pages)| <= |Encoded(pages + more)|
  {
    if more == [] {
      assert pages + more == pages;
    } else {
      EncodedGrows(pages, more[..|more| - 1]);
      var all := pages + more;
      assert all[..|all| - 1] == pages + more[..|more| - 1];
    }
  }

  /** With the regions in ascending order, every installed page appears exactly once. */
  lemma {:induction false} InstalledOnce(reg: seq<u32>, avail: seq<u32>, loaded: Program, n: nat)
    requires 2 * n <= |reg|
    requires forall i: nat :: i + 1 < n ==> RegionEnd(reg, i) <= RegionFirst(reg, i + 1)
    ensures var pages := Installed(reg, avail, loaded, n);
            && (forall i, j :: 0 <= i < j < |pages| ==> pages[i].page < pages[j].page)
            && (forall i :: 0 <= i < |pages| ==> pages[i] == UseOf(avail, loaded, pages[i].page))
            && (forall i :: 0 <= i < |pages| ==> n > 0 && pages[i].page < RegionEnd(reg, n - 1))
            && (forall i: nat, page: nat :: i < n && RegionFirst(reg, i) <= page < RegionEnd(reg, i) ==>
                  UseOf(avail, loaded, page) in pages)
  {
    hide RegionFirst, RegionEnd, UsesOf, UseOf;
    if n > 0 {
      InstalledOnce(reg, avail, loaded, n - 1);
      var first, end := RegionFirst(reg, n - 1), RegionEnd(reg, n - 1);
      var before, uses := Installed(reg, avail, loaded, n - 1), UsesOf(avail, loaded, first, end);
      UsesAre(avail, loaded, first, end);
      JoinOnce(avail, loaded, before, uses, first, if n > 1 then RegionEnd(reg, n - 2) else 0);
      forall i: nat, page: nat | i < n && RegionFirst(reg, i) <= page < RegionEnd(reg, i)
        ensures UseOf(avail, loaded, page) in before + uses
      {
        assert UseOf(avail, loaded, page) in if i < n - 1 then before else uses;
      }
    }
  }

  /** Pages below `top`, and then those from `first` on. */
  lemma JoinOnce(avail: seq<u32>, loaded: Program, before: seq<PageUse>, uses: seq<PageUse>, first: nat, top: nat)
    requires forall i, j :: 0 <= i < j < |before| ==> before[i].page < before[j].page
    requires forall i :: 0 <= i < |before| ==> before[i] == UseOf(avail, loaded, before[i].page) && before[i].page < top
    requires forall i :: 0 <= i < |uses| ==> uses[i] == UseOf(avail, loaded, first + i) && uses[i].page == first + i
    requires top <= first
    ensures var pages := before + uses;
            && (forall i, j :: 0 <= i < j < |pages| ==> pages[i].page < pages[j].page)
            && (forall i :: 0 <= i < |pages| ==>
                  pages[i] == UseOf(avail, loaded, pages[i].page) && pages[i].page < first + |uses|)
  {
    hide UseOf;
  }

  lemma UsesAre(avail: seq<u32>, loaded: Program, first: nat, end: nat)
    requires first <= end
    ensures var u := UsesOf(avail, loaded, first, end);
            && (forall i :: 0 <= i < |u| ==> u[i] == UseOf(avail, loaded, first + i) && u[i].page == first + i)
            && (forall page :: first <= page < end ==> UseOf(avail, loaded, page) in u)
  {
    hide PageType, IsAvailable;
    var u := UsesOf(avail, loaded, first, end);
    forall page | first <= page < end
      ensures UseOf(avail, loaded, page) in u
    {
      assert u[page - first] == UseOf(avail, loaded, page);
    }
  }

  /** Page `page` starts before the end of the j-th available range and is not before its first page. */
  ghost predicate RangeHolds(avail: seq<u32>, j: nat, page: nat)
    requires 2 * j + 1 < |avail|
  {
    avail[2 * j] / 4096 <= page && page * 4096 < avail[2 * j] as int + avail[2 * j + 1] as int
  }

  /** The policy in full: the first ten pages are the firmware's, then the loaded program's its own;
      other available pages are free below 8 MB; and the rest is temporary. */
  lemma TypesAre(avail: seq<u32>, loaded: Program, page: nat)
    ensures var free := exists j: nat :: 2 * j + 1 < |avail| && RangeHolds(avail, j, page);
            var mine := loaded.base <= page < loaded.base + loaded.pages;
            UseOf(avail, loaded, page) ==
            PageUse(page, if page < 10 then MemoryFirmwarePermanent
                          else if free && page >= 2048 then MemoryFirmwareTemporary
                          else if mine then MemoryLoadedProgram
                          else if free then MemoryFree
                          else MemoryFirmwareTemporary)
  {
    forall j: nat | 2 * j + 1 < |avail|
      ensures RangeHolds(avail, j, page) <==> AvailableFirst(avail, j) <= page < AvailableEnd(avail, j)
    {
    }
  }

  /** Page `page` is whole in the i-th region of installed memory, but for the start of its first. */
  ghost predicate RegionHolds(reg: seq<u32>, i: nat, page: nat)
    requires 2 * i + 1 < |reg|
  {
    reg[2 * i] / 4096 <= page && (page + 1) * 4096 <= reg[2 * i] as int + reg[2 * i + 1] as int
  }

  /** The pages listed are those of the regions, and no others. */
  lemma {:induction false} InstalledIff(reg: seq<u32>, avail: seq<u32>, loaded: Program, n: nat, page: nat)
    requires 2 * n <= |reg|
    ensures UseOf(avail, loaded, page) in Installed(reg, avail, loaded, n) <==>
            exists i: nat :: i < n && RegionHolds(reg, i, page)
    decreases n
  {
    hide UseOf, UsesOf, RegionHolds;
    if n > 0 {
      InstalledIff(reg, avail, loaded, n - 1, page);
      RegionIs(reg, n - 1, page);
      UsesHold(avail, loaded, RegionFirst(reg, n - 1), RegionEnd(reg, n - 1), page);
    }
  }

  lemma RegionIs(reg: seq<u32>, i: nat, page: nat)
    requires 2 * i + 1 < |reg|
    ensures RegionHolds(reg, i, page) <==> RegionFirst(reg, i) <= page < RegionEnd(reg, i)
  {
  }

  lemma UsesHold(avail: seq<u32>, loaded: Program, first: nat, end: nat, page: nat)
    requires first <= end
    ensures UseOf(avail, loaded, page) in UsesOf(avail, loaded, first, end) <==> first <= page < end
  {
    hide PageType, IsAvailable;
    UsesAre(avail, loaded, first, end);
  }

  lemma InstalledNext(reg: seq<u32>, avail: seq<u32>, loaded: Program, n: nat)
    requires 2 * n + 1 < |reg|
    ensures Installed(reg, avail, loaded, 0) == [] && Encoded([]) == []
    ensures Installed(reg, avail, loaded, n + 1) ==
            Installed(reg, avail, loaded, n) + UsesOf(avail, loaded, RegionFirst(reg, n), RegionEnd(reg, n))
  {
  }

  // ---- the loaded program ----------------------------------------------------------------------

  function Claimed(phys: u32, size: u32): Program { Program(phys / PAGE, Add32(size, PAGE - 1) / PAGE) }

  /** The pages noted hold every byte of the program exactly when what is before its first byte on
      that byte's page still fits: always for an aligned program that is not within a page of 4 GB
      long. */
  lemma ClaimHoldsProgramIff(phys: u32, size: u32)
    requires size > 0
    ensures (forall a: nat :: phys <= a < phys + size ==> Claimed(phys, size).Holds(a / PAGE)) <==>
            phys % PAGE + size <= Claimed(phys, size).pages * PAGE
    ensures phys % PAGE == 0 && size <= WORD - PAGE ==> phys % PAGE + size <= Claimed(phys, size).pages * PAGE
  {
    var c, last := Claimed(phys, size), phys + size - 1;
    if phys % PAGE + size <= c.pages * PAGE {
      forall a: nat | phys <= a < phys + size
        ensures c.Holds(a / PAGE)
      {
        assert phys / PAGE <= a / PAGE < c.base + c.pages;
      }
    } else {
      assert last / PAGE >= c.base + c.pages;
      assert phys <= last < phys + size && !c.Holds(last / PAGE);
    }
  }

  /** Two bytes on either side of a page boundary: the page of the second is not noted. */
  lemma ClaimMissesByte()
    ensures Claimed(0xFFF, 2).Holds(0xFFF / PAGE) && !Claimed(0xFFF, 2).Holds((0xFFF + 1) / PAGE)
  {
  }

  // ---- going through the list ------------------------------------------------------------------

  /** memory_next over `n` descriptors, by index. */
  function NextOf(n: nat, prev: Option<nat>): (next: Option<nat>)
    ensures next.Some? ==> next.value < n
  {
    var i := if prev.None? then 0 else prev.value + 1;
    if i < n then Some(i) else None
  }

  /** What a caller sees who asks from `prev` on until there is none. */
  function Listing(n: nat, prev: Option<nat>): seq<nat>
    decreases if prev.None? then n + 1 else if prev.value < n then n - prev.value else 0
  {
    var next := NextOf(n, prev);
    if next.None? then [] else [next.value] + Listing(n, next)
  }

  /** Asking from nothing on lists every descriptor once, in order. */
  lemma ListsEveryDescriptor(n: nat)
    ensures |Listing(n, None)| == n && forall i :: 0 <= i < n ==> Listing(n, None)[i] == i
  {
    if n > 0 {
      ListsTheRest(n, 0);
    }
  }

  lemma {:induction false} ListsTheRest(n: nat, at: nat)
    requires at < n
    ensures var rest := Listing(n, Some(at)); |rest| == n - 1 - at && forall i :: 0 <= i < |rest| ==> rest[i] == at + 1 + i
    decreases n - at
  {
    if at + 1 < n {
      ListsTheRest(n, at + 1);
    }
  }

  // ---- building the list -----------------------------------------------------------------------

  class Map {
    const descs: array<Descriptor>
    var ndesc: nat
    var loaded: Program
    ghost var pages: seq<PageUse>

    /** The table is the encoding of the pages typed so far. */
    ghost predicate Valid()
      reads this, descs
    {
      && descs.Length == MAX_DESC && ndesc <= MAX_DESC
      && descs[..ndesc] == Encoded(pages)
    }

    constructor ()
      ensures Valid() && pages == [] && fresh(descs) && loaded == Program(0, 0)
    {
      descs := new Descriptor[MAX_DESC](_ => Descriptor(MemoryFree, 0, 0));
      ndesc, loaded, pages := 0, Program(0, 0), [];
    }

    /** memory_note_claim for a MemoryLoadedProgram: as many pages as `size` bytes need, counted from
        the page of the first byte. */
    method NoteClaim(phys: u32, size: u32)
      modifies this`loaded
      ensures loaded == Claimed(phys, size)
      ensures size <= WORD - PAGE ==> forall page: nat ::
                loaded.Holds(page) <==> phys / PAGE * PAGE <= page * PAGE < phys / PAGE * PAGE + size
    {
      loaded := Program(phys / PAGE, Add32(size, PAGE - 1) / PAGE);
    }

    /** `fatal` stands for the halt on a 65th descriptor. */
    method Add(kind: MemoryType, base: nat, count: nat) returns (fatal: bool)
      requires Valid()
      modifies this`ndesc, this`pages, descs
      ensures pages == old(pages) + Block(kind, base, count)
      ensures fatal ==> |Encoded(pages)| > MAX_DESC
      ensures !fatal ==> Valid()
    {
      hide Block, Encoded, Expand, Canonical;
      EncodedBlock(pages, kind, base, count);
      pages := pages + Block(kind, base, count);
      if count == 0 {
        return false;
      }
      if ndesc > 0 && descs[ndesc - 1].kind == kind && descs[ndesc - 1].base + descs[ndesc - 1].count == base {
        descs[ndesc - 1] := descs[ndesc - 1].(count := descs[ndesc - 1].count + count);
        return false;
      }
      if ndesc == MAX_DESC {
        return true;
      }
      descs[ndesc] := Descriptor(kind, base, count);
      ndesc := ndesc + 1;
      return false;
    }

    /** The body of type_range's loop up to the call of add: one uniform stretch, never empty. */
    method NextCut(base: nat, end: nat, otherwise: MemoryType) returns (cut: nat, t: MemoryType)
      requires base < end < WORD && loaded.base + loaded.pages < WORD
      ensures base < cut <= end
      ensures forall page: nat :: base <= page < cut ==> PageType(page, otherwise, loaded) == t
    {
      cut, t := end, otherwise;
      if base < PERMANENT_END {
        t := MemoryFirmwarePermanent;
        cut := if PERMANENT_END < end then PERMANENT_END else end;
      } else if base >= KSEG0_PAGES && otherwise == MemoryFree {
        t := MemoryFirmwareTemporary;
      } else if otherwise == MemoryFree && end > KSEG0_PAGES && base < KSEG0_PAGES {
        cut := KSEG0_PAGES;
        if loaded.base > base && loaded.base < cut {
          cut := loaded.base;
        }
        if base >= loaded.base && base < loaded.base + loaded.pages {
          t := MemoryLoadedProgram;
          cut := if loaded.base + loaded.pages < cut then loaded.base + loaded.pages else cut;
        }
      } else if base >= loaded.base && base < loaded.base + loaded.pages {
        t := MemoryLoadedProgram;
        cut := if loaded.base + loaded.pages < end then loaded.base + loaded.pages else end;
      } else {
        if loaded.base > base && loaded.base < cut {
          cut := loaded.base;
        }
      }
    }

    /** type_range: one descriptor, or a merge, for each stretch of one type. */
    method TypeRange(first: nat, n: nat, otherwise: MemoryType, ghost uses: seq<PageUse>) returns (fatal: bool)
      requires Valid() && first + n < WORD && loaded.base + loaded.pages < WORD
      requires |uses| == n
      requires forall i :: 0 <= i < n ==> uses[i] == PageUse(first + i, PageType(first + i, otherwise, loaded))
      modifies this`ndesc, this`pages, descs
      ensures fatal ==> |Encoded(old(pages) + uses)| > MAX_DESC
      ensures !fatal ==> Valid() && pages == old(pages) + uses
    {
      hide PageType, Block, Encoded, Canonical;
      var base, count := first, n;
      ghost var before := pages;
      while count > 0
        invariant first <= base && 0 <= count && base + count == first + n
        invariant Valid() && pages == before + uses[..base - first]
      {
        var cut, t := NextCut(base, base + count, otherwise);
        ghost var now, later := uses[base - first..cut - first], uses[cut - first..];
        SliceIsBlock(uses, first, base, cut, t);
        Stretches(before, uses, base - first, cut - first);
        fatal := Add(t, base, cut - base);
        if fatal {
          EncodedGrows(pages, later);
          return;
        }
        count := count - (cut - base);
        base := cut;
      }
      assert uses[..n] == uses;
      fatal := false;
    }

    /** memory_init.  The cells are /memory's "reg" and "available" properties. */
    method MemoryInit(reg: seq<u32>, avail: seq<u32>) returns (fatal: bool)
      requires descs.Length == MAX_DESC && loaded.base + loaded.pages < WORD
      requires forall i :: 0 <= i < |reg| - 1 && i % 2 == 0 ==> reg[i] + reg[i + 1] < WORD
      requires forall i :: 0 <= i < |avail| - 1 && i % 2 == 0 ==> avail[i] + avail[i + 1] + (PAGE - 1) < WORD
      requires forall i, j :: 0 <= i < j < |avail| && i % 2 == 0 && j % 2 == 0 ==> avail[i] <= avail[j]
      modifies this`ndesc, this`pages, descs
      ensures fatal <==> |reg| < 2 || |Encoded(Installed(reg, avail, loaded, |reg| / 2))| > 64
      ensures !fatal ==> Valid() && pages == Installed(reg, avail, loaded, |reg| / 2)
    {
      hide Installed, Encoded, UsesOf, PageType;
      if |reg| < 2 {
        return true;
      }
      InstalledNext(reg, avail, loaded, 0);
      ndesc, pages := 0, [];
      var i := 0;
      while 2 * i + 1 < |reg|
        invariant 0 <= 2 * i <= |reg|
        invariant Valid() && pages == Installed(reg, avail, loaded, i)
      {
        InstalledNext(reg, avail, loaded, i);
        fatal := InitRegion(reg, avail, i);
        if fatal {
          InstalledGrows(reg, avail, loaded, i + 1, |reg| / 2);
          return;
        }
        i := i + 1;
      }
      fatal := false;
    }

    /** One pass of memory_init's outer loop. */
    method InitRegion(reg: seq<u32>, avail: seq<u32>, i: nat) returns (fatal: bool)
      requires Valid() && loaded.base + loaded.pages < WORD
      requires 2 * i + 1 < |reg| && reg[2 * i] + reg[2 * i + 1] < WORD
      requires forall i :: 0 <= i < |avail| - 1 && i % 2 == 0 ==> avail[i] + avail[i + 1] + (PAGE - 1) < WORD
      requires forall i, j :: 0 <= i < j < |avail| && i % 2 == 0 && j % 2 == 0 ==> avail[i] <= avail[j]
      modifies this`ndesc, this`pages, descs
      ensures fatal ==> |Encoded(old(pages) + UsesOf(avail, loaded, RegionFirst(reg, i), RegionEnd(reg, i)))| > MAX_DESC
      ensures !fatal ==> Valid() && pages == old(pages) + UsesOf(avail, loaded, RegionFirst(reg, i), RegionEnd(reg, i))
    {
      hide PageType, Encoded, Canonical, UseOf;
      var rbase, rend := reg[2 * i] / PAGE, (reg[2 * i] + reg[2 * i + 1]) / PAGE;
      var at := rbase;
      ghost var before := pages;
      ghost var region := UsesOf(avail, loaded, rbase, rend);
      var j := 0;
      while 2 * j + 1 < |avail|
        invariant 0 <= j && rbase <= at <= rend
        invariant forall k :: 0 <= k < j && 2 * k + 1 < |avail| ==>
            AvailableEnd(avail, k) <= at || AvailableFirst(avail, k) >= rend || at == rend
        invariant Valid() && pages == before + UsesOf(avail, loaded, rbase, at)
        decreases |avail| - j
      {
        var abase, aend := avail[2 * j] / PAGE, (avail[2 * j] + avail[2 * j + 1] + (PAGE - 1)) / PAGE;
        if !(aend <= at || abase >= rend) {
          if abase < at {
            abase := at;
          }
          if aend > rend {
            aend := rend;
          }
          if abase > at {
            fatal := TypeStretch(avail, rbase, at, abase, MemoryFirmwareTemporary, before);
            if fatal {
              UsesGrow(before, avail, loaded, rbase, abase, rend);
              return;
            }
          }
          forall page: nat | abase <= page < aend
            ensures IsAvailable(avail, page)
          {
            assert AvailableFirst(avail, j) <= page < AvailableEnd(avail, j);
          }
          fatal := TypeStretch(avail, rbase, abase, aend, MemoryFree, before);
          if fatal {
            UsesGrow(before, avail, loaded, rbase, aend, rend);
            return;
          }
          at := aend;
        }
        j := j + 1;
      }
      if at < rend {
        fatal := TypeStretch(avail, rbase, at, rend, MemoryFirmwareTemporary, before);
        if fatal {
          return;
        }
      }
      fatal := false;
    }

    /** A call of type_range on a stretch that is available throughout or not at all. */
    method TypeStretch(ghost avail: seq<u32>, ghost first: nat, from: nat, to: nat, otherwise: MemoryType, ghost before: seq<PageUse>)
      returns (fatal: bool)
      requires Valid() && loaded.base + loaded.pages < WORD && first <= from <= to < WORD
      requires otherwise == MemoryFree || otherwise == MemoryFirmwareTemporary
      requires forall page: nat :: from <= page < to ==> (IsAvailable(avail, page) <==> otherwise == MemoryFree)
      requires pages == before + UsesOf(avail, loaded, first, from)
      modifies this`ndesc, this`pages, descs
      ensures fatal ==> |Encoded(before + UsesOf(avail, loaded, first, to))| > MAX_DESC
      ensures !fatal ==> Valid() && pages == before + UsesOf(avail, loaded, first, to)
    {
      ghost var uses := UsesOf(avail, loaded, from, to);
      assert UsesOf(avail, loaded, first, to) == UsesOf(avail, loaded, first, from) + uses;
      assert before + UsesOf(avail, loaded, first, to) == pages + uses;
      forall i | 0 <= i < to - from
        ensures uses[i] == PageUse(from + i, PageType(from + i, otherwise, loaded))
      {
        assert uses[i] == UseOf(avail, loaded, from + i);
      }
      fatal := TypeRange(from, to - from, otherwise, uses);
    }

    /** memory_next: the descriptor after `prev`, starting from None. */
    method MemoryNext(prev: Option<nat>) returns (next: Option<nat>)
      requires Valid() && (prev.Some? ==> prev.value < ndesc)
      ensures next == NextOf(ndesc, prev)
    {
      if ndesc == 0 {
        return None;
      }
      if prev.None? {
        return Some(0);
      }
      var i := prev.value;
      if i + 1 >= ndesc {
        return None;
      }
      return Some(i + 1);
    }
  }

  lemma SliceIsBlock(uses: seq<PageUse>, first: nat, from: nat, to: nat, t: MemoryType)
    requires first <= from <= to && to - first <= |uses|
    requires forall i :: from - first <= i < to - first ==> uses[i] == PageUse(first + i, t)
    ensures Block(t, from, to - from) == uses[from - first..to - first]
  {
  }

  lemma Stretches(before: seq<PageUse>, uses: seq<PageUse>, i: nat, j: nat)
    ensures i <= j <= |uses| ==> before + uses[..j] == (before + uses[..i]) + uses[i..j]
    ensures i <= j <= |uses| ==> before + uses == (before + uses[..i]) + uses[i..j] + uses[j..]
  {
  }

  lemma UsesGrow(before: seq<PageUse>, avail: seq<u32>, loaded: Program, first: nat, to: nat, end: nat)
    requires first <= to <= end
    ensures |Encoded(before + UsesOf(avail, loaded, first, to))| <= |Encoded(before + UsesOf(avail, loaded, first, end))|
  {
    var a, b := UsesOf(avail, loaded, first, to), UsesOf(avail, loaded, to, end);
    EncodedGrows(before + a, b);
    assert before + a + b == before + UsesOf(avail, loaded, first, end);
  }

  lemma {:induction false} InstalledGrows(reg: seq<u32>, avail: seq<u32>, loaded: Program, m: nat, n: nat)
    requires m <= n && 2 * n <= |reg|
    ensures |Encoded(Installed(reg, avail, loaded, m))| <= |Encoded(Installed(reg, avail, loaded, n))|
    decreases n - m
  {
    if m < n {
      EncodedGrows(Installed(reg, avail, loaded, m), UsesOf(avail, loaded, RegionFirst(reg, m), RegionEnd(reg, m)));
      InstalledGrows(reg, avail, loaded, m + 1, n);
    }
  }
}
