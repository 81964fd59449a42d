/** Carving page ranges out of the loader's memory descriptor list: the VGA aperture and the OEM
    disk image.  A range is taken out of the one descriptor that covers it. */
module Carve {
  import opened Words
  import opened Counting

  const LOADER_FREE := 2
  const LOADER_FIRMWARE_TEMPORARY := 5
  const LOADER_FIRMWARE_PERMANENT := 6
  const LOADER_SPECIAL_MEMORY := 22
  const VGA_APERTURE_PAGE := 0xA0
  const VGA_APERTURE_PAGES := 0x20

  // ---- descriptors as values -------------------------------------------------------------------

  datatype Desc = Desc(kind: int, base: nat, count: nat)
  {
    function End(): nat { base + count }
    predicate Contains(page: nat) { base <= page < End() }
    predicate Covers(lo: nat, hi: nat) { base <= lo && hi <= End() }
  }

  /** What a carve takes from and leaves: the kinds it may take, and the kind it leaves. */
  datatype Purpose = Purpose(accepts: set<int>, kind: int)

  const VGA := Purpose({LOADER_FREE}, LOADER_SPECIAL_MEMORY)
  const OEM_DISK := Purpose({LOADER_FREE, LOADER_FIRMWARE_TEMPORARY}, LOADER_FIRMWARE_PERMANENT)

  ghost predicate HasType(ds: seq<Desc>, page: nat, kind: int) {
    exists d :: d in ds && d.Contains(page) && d.kind == kind
  }

  ghost predicate Disjoint(ds: seq<Desc>) {
    forall i, j, page: nat :: 0 <= i < j < |ds| ==> !(ds[i].Contains(page) && ds[j].Contains(page))
  }

  ghost function TotalPages(ds: seq<Desc>): nat {
    if ds == [] then 0 else ds[0].count + TotalPages(ds[1..])
  }

  /** The first descriptor that covers [lo, hi) by itself, or |ds|. */
  ghost function FirstCovering(ds: seq<Desc>, lo: nat, hi: nat): (k: nat)
    ensures k <= |ds|
    ensures k < |ds| ==> ds[k].Covers(lo, hi)
    ensures forall i :: 0 <= i < k ==> !ds[i].Covers(lo, hi)
  {
    if ds == [] then 0
    else if ds[0].Covers(lo, hi) then 0
    else 1 + FirstCovering(ds[1..], lo, hi)
  }

  ghost predicate Takes(ds: seq<Desc>, lo: nat, hi: nat, purpose: Purpose) {
    var k := FirstCovering(ds, lo, hi);
    k < |ds| && ds[k].kind in purpose.accepts
  }

  /** A descriptor cut in up to three: below the range, the range, above it. */
  ghost function Pieces(d: Desc, lo: nat, hi: nat, kind: int): seq<Desc>
    requires d.Covers(lo, hi) && lo < hi
  {
    (if d.base < lo then [Desc(d.kind, d.base, lo - d.base)] else [])
    + [Desc(kind, lo, hi - lo)]
    + (if hi < d.End() then [Desc(d.kind, hi, d.End() - hi)] else [])
  }

  ghost function Carved(ds: seq<Desc>, lo: nat, hi: nat, purpose: Purpose): seq<Desc>
    requires lo < hi
  {
    if Takes(ds, lo, hi, purpose) then
      var k := FirstCovering(ds, lo, hi);
      ds[..k] + Pieces(ds[k], lo, hi, purpose.kind) + ds[k + 1..]
    else ds
  }

  lemma PiecesPartition(d: Desc, lo: nat, hi: nat, kind: int)
    requires d.Covers(lo, hi) && lo < hi
    ensures var ps := Pieces(d, lo, hi, kind);
            && Disjoint(ps)
            && (forall p :: p in ps ==> d.base <= p.base && p.End() <= d.End())
            && (forall page: nat, t :: HasType(ps, page, t) <==>
                  d.Contains(page) && t == (if lo <= page < hi then kind else d.kind))
            && TotalPages(ps) == d.count
  {
    var ps := Pieces(d, lo, hi, kind);
    var mid := Desc(kind, lo, hi - lo);
    assert mid in ps;
    var below, above := Desc(d.kind, d.base, lo - d.base), Desc(d.kind, hi, d.End() - hi);
    forall page: nat, t
      ensures HasType(ps, page, t) <==> d.Contains(page) && t == (if lo <= page < hi then kind else d.kind)
    {
      if d.Contains(page) {
        var p := if lo <= page < hi then mid else if page < lo then below else above;
        assert p in ps && p.Contains(page);
      }
    }
    var first := if d.base < lo then [below] else [];
    var last := if hi < d.End() then [above] else [];
    TotalConcat(first + [mid], last);
    TotalConcat(first, [mid]);
    assert [mid][1..] == [] && [below][1..] == [] && [above][1..] == [];
  }

  lemma {:induction false} TotalConcat(a: seq<Desc>, b: seq<Desc>)
    ensures TotalPages(a + b) == TotalPages(a) + TotalPages(b)
    decreases |a|
  {
    if a == [] {
      assert a + b == b;
    } else {
      TotalConcat(a[1..], b);
      assert (a + b)[1..] == a[1..] + b;
    }
  }

  /** A carve retypes exactly its range, and only when one descriptor of an accepted kind covers
      all of it; no page is lost, gained or covered twice. */
  lemma CarveIsExact(ds: seq<Desc>, lo: nat, hi: nat, purpose: Purpose)
    requires lo < hi && Disjoint(ds)
    ensures var after := Carved(ds, lo, hi, purpose);
            && Disjoint(after)
            && TotalPages(after) == TotalPages(ds)
            && (Takes(ds, lo, hi, purpose) <==> exists d :: d in ds && d.Covers(lo, hi) && d.kind in purpose.accepts)
            && (!Takes(ds, lo, hi, purpose) ==> after == ds)
            && (Takes(ds, lo, hi, purpose) ==> forall page: nat, t ::
                  HasType(after, page, t) <==> if lo <= page < hi then t == purpose.kind else HasType(ds, page, t))
  {
    TakesIff(ds, lo, hi, purpose);
    if Takes(ds, lo, hi, purpose) {
      CarvedTypes(ds, lo, hi, purpose);
      CarvedDisjoint(ds, lo, hi, purpose);
      CarvedTotal(ds, lo, hi, purpose);
    }
  }

  lemma TakesIff(ds: seq<Desc>, lo: nat, hi: nat, purpose: Purpose)
    requires lo < hi && Disjoint(ds)
    ensures Takes(ds, lo, hi, purpose) <==> exists d :: d in ds && d.Covers(lo, hi) && d.kind in purpose.accepts
  {
    var k := FirstCovering(ds, lo, hi);
    if d :| d in ds && d.Covers(lo, hi) && d.kind in purpose.accepts {
      var i :| 0 <= i < |ds| && ds[i] == d;
      assert ds[i].Contains(lo) && ds[k].Contains(lo);
    }
  }

  lemma CarvedTotal(ds: seq<Desc>, lo: nat, hi: nat, purpose: Purpose)
    requires lo < hi && Takes(ds, lo, hi, purpose)
    ensures TotalPages(Carved(ds, lo, hi, purpose)) == TotalPages(ds)
  {
    var k := FirstCovering(ds, lo, hi);
    PiecesPartition(ds[k], lo, hi, purpose.kind);
    var ps := Pieces(ds[k], lo, hi, purpose.kind);
    TotalConcat(ds[..k] + ps, ds[k + 1..]);
    TotalConcat(ds[..k], ps);
    TotalConcat(ds[..k], ds[k..]);
    assert ds == ds[..k] + ds[k..];
  }

  lemma CarvedTypes(ds: seq<Desc>, lo: nat, hi: nat, purpose: Purpose)
    requires lo < hi && Disjoint(ds) && Takes(ds, lo, hi, purpose)
    ensures forall page: nat, t :: HasType(Carved(ds, lo, hi, purpose), page, t) <==>
              if lo <= page < hi then t == purpose.kind else HasType(ds, page, t)
  {
    hide Pieces, Carved, TotalPages;
    var k := FirstCovering(ds, lo, hi);
    var ps := Pieces(ds[k], lo, hi, purpose.kind);
    var after := Carved(ds, lo, hi, purpose);
    CarvedIs(ds, lo, hi, purpose);
    PiecesPartition(ds[k], lo, hi, purpose.kind);
    assert forall page :: lo <= page < hi ==> ds[k].Contains(page);
    forall page: nat, t
      ensures HasType(after, page, t) <==> if lo <= page < hi then t == purpose.kind else HasType(ds, page, t)
    {
      if HasType(after, page, t) {
        var d :| d in after && d.Contains(page) && d.kind == t;
        if d in ps {
          assert HasType(ps, page, t);
          assert ds[k].Contains(page);
        } else {
          var i :| 0 <= i < |ds| && i != k && ds[i] == d;
        }
      }
      if lo <= page < hi && t == purpose.kind {
        assert HasType(ps, page, t);
        var d :| d in ps && d.Contains(page) && d.kind == t;
        assert d in after;
      } else if !(lo <= page < hi) && HasType(ds, page, t) {
        var d :| d in ds && d.Contains(page) && d.kind == t;
        var i :| 0 <= i < |ds| && ds[i] == d;
        if i == k {
          assert HasType(ps, page, t);
          var p :| p in ps && p.Contains(page) && p.kind == t;
          assert p in after;
        } else {
          assert d in after;
        }
      }
    }
  }

  lemma CarvedDisjoint(ds: seq<Desc>, lo: nat, hi: nat, purpose: Purpose)
    requires lo < hi && Disjoint(ds) && Takes(ds, lo, hi, purpose)
    ensures Disjoint(Carved(ds, lo, hi, purpose))
  {
    hide Pieces, Carved;
    var k := FirstCovering(ds, lo, hi);
    var ps := Pieces(ds[k], lo, hi, purpose.kind);
    PiecesPartition(ds[k], lo, hi, purpose.kind);
    CarvedIs(ds, lo, hi, purpose);
    ReplacedDisjoint(ds, k, ps, Carved(ds, lo, hi, purpose));
  }

  lemma CarvedIs(ds: seq<Desc>, lo: nat, hi: nat, purpose: Purpose)
    requires lo < hi && Takes(ds, lo, hi, purpose)
    ensures var k := FirstCovering(ds, lo, hi);
            Carved(ds, lo, hi, purpose) == ds[..k] + Pieces(ds[k], lo, hi, purpose.kind) + ds[k + 1..]
  {
  }

  /** The descriptor of the old list that entry `i` of the new one came from. */
  ghost function Origin(k: nat, m: nat, i: int): int { if i < k then i else if i < k + m then k else i - m + 1 }

  lemma ReplacedDisjoint(ds: seq<Desc>, k: nat, ps: seq<Desc>, after: seq<Desc>)
    requires k < |ds| && after == ds[..k] + ps + ds[k + 1..] && Disjoint(ds) && Disjoint(ps)
    requires forall p :: p in ps ==> ds[k].base <= p.base && p.End() <= ds[k].End()
    ensures Disjoint(after)
  {
    forall i, j, page: nat | 0 <= i < j < |after|
      ensures !(after[i].Contains(page) && after[j].Contains(page))
    {
      WithinOrigin(ds, k, ps, after, i);
      WithinOrigin(ds, k, ps, after, j);
      if Origin(k, |ps|, i) == Origin(k, |ps|, j) {
        assert after[i] == ps[i - k] && after[j] == ps[j - k];
      }
    }
  }

  lemma WithinOrigin(ds: seq<Desc>, k: nat, ps: seq<Desc>, after: seq<Desc>, i: nat)
    requires k < |ds| && after == ds[..k] + ps + ds[k + 1..] && i < |after|
    requires forall p :: p in ps ==> ds[k].base <= p.base && p.End() <= ds[k].End()
    ensures var o := Origin(k, |ps|, i);
            0 <= o < |ds| && ds[o].base <= after[i].base && after[i].End() <= ds[o].End()
  {
    if k <= i < k + |ps| {
      assert after[i] == ps[i - k] && ps[i - k] in ps;
    }
  }

  /** Both carves, as phase 0 makes them: the second may well split the tail of the first. */
  lemma BothCarvesCompose(ds: seq<Desc>, lo: nat, hi: nat)
    requires Disjoint(ds) && lo < hi
    ensures var vgaEnd := VGA_APERTURE_PAGE + VGA_APERTURE_PAGES;
            var first := Carved(ds, VGA_APERTURE_PAGE, vgaEnd, VGA);
            var both := Carved(first, lo, hi, OEM_DISK);
            && Disjoint(both) && TotalPages(both) == TotalPages(ds)
            && (Takes(first, lo, hi, OEM_DISK) ==> forall page: nat, t :: HasType(both, page, t) <==>
                  if lo <= page < hi then t == LOADER_FIRMWARE_PERMANENT
                  else if VGA_APERTURE_PAGE <= page < vgaEnd && Takes(ds, VGA_APERTURE_PAGE, vgaEnd, VGA)
                  then t == LOADER_SPECIAL_MEMORY
                  else HasType(ds, page, t))
            && (vgaEnd <= lo ==>
                  (Takes(first, lo, hi, OEM_DISK) <==> Takes(ds, lo, hi, OEM_DISK)))
  {
    var vgaEnd := VGA_APERTURE_PAGE + VGA_APERTURE_PAGES;
    CarveIsExact(ds, VGA_APERTURE_PAGE, vgaEnd, VGA);
    var first := Carved(ds, VGA_APERTURE_PAGE, vgaEnd, VGA);
    CarveIsExact(first, lo, hi, OEM_DISK);
    CarveIsExact(ds, lo, hi, OEM_DISK);
    if vgaEnd <= lo && Takes(ds, VGA_APERTURE_PAGE, vgaEnd, VGA) {
      CoverAboveSurvives(ds, VGA_APERTURE_PAGE, vgaEnd, VGA, lo, hi, OEM_DISK);
    }
  }

  /** What phase 0 leaves, for a disk image above the aperture: its pages are firmware-permanent (6) if
      one free (2) or firmware-temporary (5) descriptor had them all, the pages 0xA0 to 0xBF special (22)
      if one free descriptor had them, and every other page is what it was. */
  lemma PhaseZeroMeans(ds: seq<Desc>, lo: nat, hi: nat)
    requires Disjoint(ds) && 0xC0 <= lo < hi
    ensures var both := Carved(Carved(ds, VGA_APERTURE_PAGE, VGA_APERTURE_PAGE + VGA_APERTURE_PAGES, VGA), lo, hi, OEM_DISK);
            var vga := exists d :: d in ds && d.base <= 0xA0 && 0xC0 <= d.base + d.count && d.kind == 2;
            var oem := exists d :: d in ds && d.base <= lo && hi <= d.base + d.count && (d.kind == 2 || d.kind == 5);
            forall page: nat, t :: HasType(both, page, t) <==>
              if oem && lo <= page < hi then t == 6
              else if vga && 0xA0 <= page < 0xC0 then t == 22
              else HasType(ds, page, t)
  {
    hide Carved, HasType;
    var first := Carved(ds, 0xA0, 0xC0, VGA);
    CarveIsExact(ds, 0xA0, 0xC0, VGA);
    CarveIsExact(first, lo, hi, OEM_DISK);
    BothCarvesCompose(ds, lo, hi);
    TakesIff(ds, 0xA0, 0xC0, VGA);
    TakesIff(ds, lo, hi, OEM_DISK);
  }

  /** A range above a carve can be carved afterwards exactly when it could have been before. */
  lemma CoverAboveSurvives(ds: seq<Desc>, lo: nat, hi: nat, purpose: Purpose, from: nat, to: nat, next: Purpose)
    requires Disjoint(ds) && lo < hi <= from < to
    requires Takes(ds, lo, hi, purpose)
    ensures var after := Carved(ds, lo, hi, purpose);
            (exists d :: d in after && d.Covers(from, to) && d.kind in next.accepts)
            <==> exists d :: d in ds && d.Covers(from, to) && d.kind in next.accepts
  {
    var k := FirstCovering(ds, lo, hi);
    var ps := Pieces(ds[k], lo, hi, purpose.kind);
    var after := Carved(ds, lo, hi, purpose);
    if d :| d in after && d.Covers(from, to) && d.kind in next.accepts {
      if d in ps {
        assert d == Desc(ds[k].kind, hi, ds[k].End() - hi);
        assert ds[k] in ds && ds[k].Covers(from, to);
      } else {
        assert d in ds;
      }
    }
    if d :| d in ds && d.Covers(from, to) && d.kind in next.accepts {
      var i :| 0 <= i < |ds| && ds[i] == d;
      if i == k {
        var above := Desc(d.kind, hi, d.End() - hi);
        assert above in ps;
        assert above in after && above.Covers(from, to);
      } else {
        assert d in after;
      }
    }
  }

  // ---- the doubly linked list ------------------------------------------------------------------

  /** LIST_ENTRY with the descriptor it heads; the list head uses the links alone. */
  class Entry {
    var flink: Entry?
    var blink: Entry?
    var kind: int
    var base: nat
    var count: nat

    constructor ()
      ensures flink == null && blink == null
    {
      flink, blink, kind, base, count := null, null, 0, 0, 0;
    }

    ghost function Value(): Desc
      reads this
    {
      Desc(kind, base, count)
    }
  }

  /** `ring` is the list head and then every entry, in Flink order and back round to the head. */
  ghost predicate Linked(ring: seq<Entry>)
    reads ring
  {
    && ring != [] && Distinct(ring)
    && (forall i :: 0 <= i < |ring| - 1 ==> ring[i].flink == ring[i + 1] && ring[i + 1].blink == ring[i])
    && ring[|ring| - 1].flink == ring[0] && ring[0].blink == ring[|ring| - 1]
  }

  ghost function Values(ring: seq<Entry>): (ds: seq<Desc>)
    requires ring != []
    reads ring
    ensures |ds| == |ring| - 1 && forall i :: 0 <= i < |ds| ==> ds[i] == ring[i + 1].Value()
  {
    seq(|ring| - 1, i requires 0 <= i < |ring| - 1 reads ring => ring[i + 1].Value())
  }

  lemma LinksAreInverse(ring: seq<Entry>, n: Entry)
    requires Linked(ring) && n in ring
    ensures n.flink in ring && n.blink in ring
    ensures n.flink.blink == n && n.blink.flink == n
  {
    var i :| 0 <= i < |ring| && ring[i] == n;
    if i < |ring| - 1 {
      assert n.flink == ring[i + 1];
    } else {
      assert n.flink == ring[0];
    }
    if i > 0 {
      assert ring[i - 1].flink == ring[i - 1 + 1];
      assert n.blink == ring[i - 1];
    } else {
      assert n.blink == ring[|ring| - 1];
    }
  }

  ghost function Inserted(ring: seq<Entry>, k: nat, item: Entry): (after: seq<Entry>)
    requires k < |ring|
    ensures |after| == |ring| + 1
    ensures forall i :: 0 <= i < |after| ==>
              after[i] == if i <= k then ring[i] else if i == k + 1 then item else ring[i - 1]
  {
    ring[..k + 1] + [item] + ring[k + 1..]
  }

  /** HalpInsertAfter and HalpOemDiskInsertAfter. */
  method InsertAfter(at: Entry, item: Entry, ghost ring: seq<Entry>, ghost k: nat)
    requires Linked(ring) && k < |ring| && ring[k] == at && item !in ring && at.flink != null
    modifies item`flink, item`blink, at`flink, at.flink`blink
    ensures Linked(Inserted(ring, k, item)) && item.flink == old(at.flink)
  {
    ghost var after := Inserted(ring, k, item);
    LinksAreInverse(ring, at);
    ghost var next := if k + 1 < |ring| then ring[k + 1] else ring[0];
    assert at.flink == next;
    item.flink := at.flink;
    item.blink := at;
    at.flink.blink := item;
    at.flink := item;
    assert Distinct(after);
    forall i | 0 <= i < |after| - 1
      ensures after[i].flink == after[i + 1] && after[i + 1].blink == after[i]
    {
      if i < k {
        assert after[i] == ring[i] && after[i + 1] == ring[i + 1];
      } else if i > k + 1 {
        assert after[i] == ring[i - 1] && after[i + 1] == ring[i];
      }
    }
  }

  /** HalpOemDiskReserve, and with the aperture's range and kinds HalpReserveVgaAperture.  `was` is
      the kind of the descriptor that gave up the range; -1 where none had all of it. */
  method Reserve(head: Entry, lo: nat, hi: nat, purpose: Purpose, hole: Entry, tail: Entry, ghost ring: seq<Entry>)
    returns (was: int, ghost after: seq<Entry>)
    requires Linked(ring) && ring[0] == head && lo < hi
    requires hole !in ring && tail !in ring && hole != tail
    modifies ring, hole, tail
    ensures Linked(after) && after[0] == head
    ensures Values(after) == Carved(old(Values(ring)), lo, hi, purpose)
    ensures was == (var ds := old(Values(ring)); var k := FirstCovering(ds, lo, hi); if k < |ds| then ds[k].kind else -1)
    ensures forall e :: e in ring ==> e in after
    ensures forall i :: 0 <= i < |after| ==> after[i] in ring || after[i] == hole || after[i] == tail
  {
    hide Pieces, TotalPages;
    ghost var ds := Values(ring);
    after := ring;
    var e := head.flink;
    ghost var i := 0;
    while e != head
      invariant 0 <= i <= |ds|
      invariant if i < |ds| then e == ring[i + 1] else e == head
      invariant forall j :: 0 <= j < i ==> !ds[j].Covers(lo, hi)
      decreases |ds| - i
    {
      var mlo, mhi := e.base, e.base + e.count;
      if mlo > lo || mhi < hi {
        e := e.flink;
        i := i + 1;
        continue;
      }
      assert ds[i].Covers(lo, hi) && FirstCovering(ds, lo, hi) == i;
      was := e.kind;
      if was !in purpose.accepts {
        return;
      }
      after := CarveEntry(e, lo, hi, purpose.kind, hole, tail, ring, i);
      return;
    }
    was := -1;
  }

  /** The carve proper, once the covering entry is found. */
  method CarveEntry(m: Entry, lo: nat, hi: nat, kind: int, hole: Entry, tail: Entry, ghost ring: seq<Entry>, ghost i: nat)
    returns (ghost after: seq<Entry>)
    requires Linked(ring) && i + 1 < |ring| && ring[i + 1] == m && lo < hi && m.Value().Covers(lo, hi)
    requires hole !in ring && tail !in ring && hole != tail
    modifies ring, hole, tail
    ensures Linked(after) && after[0] == ring[0]
    ensures var ds := old(Values(ring)); Values(after) == ds[..i] + Pieces(ds[i], lo, hi, kind) + ds[i + 1..]
    ensures forall e :: e in ring ==> e in after
    ensures forall i :: 0 <= i < |after| ==> after[i] in ring || after[i] == hole || after[i] == tail
  {
    hide Pieces, Added, WithAdded;
    ghost var ds := Values(ring);
    var below, above := m.base < lo, m.base + m.count > hi;
    SetPieces(m, lo, hi, kind, hole, tail);
    ghost var added := Added(below, above, hole, tail);
    after := WithAdded(ring, i + 1, added);
    PieceValues(ring, i, added, Pieces(ds[i], lo, hi, kind), ds, after);
    ghost var result := Values(after);
    after := LinkPieces(m, hole, tail, below, above, ring, i + 1);
    assert Values(after) == result;
    AddedKeeps(ring, i + 1, below, above, hole, tail);
  }

  lemma AddedKeeps(ring: seq<Entry>, k: nat, below: bool, above: bool, hole: Entry, tail: Entry)
    requires k < |ring|
    ensures var after := WithAdded(ring, k, Added(below, above, hole, tail));
            && after[0] == ring[0] && (forall e :: e in ring ==> e in after)
            && forall i :: 0 <= i < |after| ==> after[i] in ring || after[i] == hole || after[i] == tail
  {
    var added := Added(below, above, hole, tail);
    assert forall e :: e in ring ==> e in ring[..k + 1] || e in ring[k + 1..];
  }

  /** The new descriptors: the covering one shortened or retyped, the hole, the tail. */
  method SetPieces(m: Entry, lo: nat, hi: nat, kind: int, hole: Entry, tail: Entry)
    requires lo < hi && m.Value().Covers(lo, hi) && m != hole && m != tail && hole != tail
    modifies m`kind, m`base, m`count, hole`kind, hole`base, hole`count, tail`kind, tail`base, tail`count
    ensures var pieces := Pieces(old(m.Value()), lo, hi, kind);
            var added := Added(old(m.Value()).base < lo, old(m.Value()).End() > hi, hole, tail);
            && |pieces| == |added| + 1 && pieces[0] == m.Value()
            && forall j :: 0 <= j < |added| ==> pieces[j + 1] == added[j].Value()
  {
    var was, mlo, mhi := m.kind, m.base, m.base + m.count;
    hole.kind, hole.base, hole.count := kind, lo, hi - lo;
    if mhi > hi {
      tail.kind, tail.base, tail.count := was, hi, mhi - hi;
    }
    if mlo < lo {
      m.count := lo - mlo;
    } else {
      m.kind := kind;
      m.count := hi - lo;
    }
  }

  /** The entries a carve adds, in list order. */
  ghost function Added(below: bool, above: bool, hole: Entry, tail: Entry): seq<Entry> {
    (if below then [hole] else []) + (if above then [tail] else [])
  }

  ghost function WithAdded(ring: seq<Entry>, k: nat, added: seq<Entry>): seq<Entry>
    requires k < |ring|
  {
    ring[..k + 1] + added + ring[k + 1..]
  }

  lemma PieceValues(ring: seq<Entry>, i: nat, added: seq<Entry>, pieces: seq<Desc>, ds: seq<Desc>, after: seq<Entry>)
    requires |ring| == |ds| + 1 && i < |ds| && after == WithAdded(ring, i + 1, added)
    requires forall j :: 0 <= j < |ds| && j != i ==> ring[j + 1].Value() == ds[j]
    requires |pieces| == |added| + 1 && pieces[0] == ring[i + 1].Value()
    requires forall j :: 0 <= j < |added| ==> pieces[j + 1] == added[j].Value()
    ensures Values(after) == ds[..i] + pieces + ds[i + 1..]
  {
  }

  /** The two insertions. */
  method LinkPieces(m: Entry, hole: Entry, tail: Entry, below: bool, above: bool, ghost ring: seq<Entry>, ghost k: nat)
    returns (ghost after: seq<Entry>)
    requires Linked(ring) && k < |ring| && ring[k] == m
    requires hole !in ring && tail !in ring && hole != tail
    modifies ring`flink, ring`blink, hole`flink, hole`blink, tail`flink, tail`blink
    ensures Linked(after)
    ensures after == WithAdded(ring, k, Added(below, above, hole, tail))
  {
    after := ring;
    InsertedPieces(ring, k, hole, tail);
    LinksAreInverse(ring, m);
    ghost var next := m.flink;
    if below {
      InsertAfter(m, hole, ring, k);
      after := Inserted(ring, k, hole);
    }
    if above {
      assert next in ring && (if below then hole else m).flink == next;
      InsertAfter(if below then hole else m, tail, after, if below then k + 1 else k);
      after := Inserted(after, if below then k + 1 else k, tail);
    }
  }

  lemma InsertedPieces(ring: seq<Entry>, k: nat, hole: Entry, tail: Entry)
    requires k < |ring|
    ensures WithAdded(ring, k, Added(false, false, hole, tail)) == ring
    ensures WithAdded(ring, k, Added(false, true, hole, tail)) == Inserted(ring, k, tail)
    ensures WithAdded(ring, k, Added(true, false, hole, tail)) == Inserted(ring, k, hole)
    ensures WithAdded(ring, k, Added(true, true, hole, tail)) == Inserted(Inserted(ring, k, hole), k + 1, tail)
  {
  }

  /** HalInitSystem's phase 0: the aperture first, then [lo, hi) for the OEM disk. */
  method ReserveBoth(head: Entry, lo: nat, hi: nat, vgaHole: Entry, vgaTail: Entry, oemHole: Entry, oemTail: Entry,
                     ghost ring: seq<Entry>)
    returns (was: int, ghost after: seq<Entry>)
    requires Linked(ring) && ring[0] == head && lo < hi
    requires Distinct([vgaHole, vgaTail, oemHole, oemTail])
    requires vgaHole !in ring && vgaTail !in ring && oemHole !in ring && oemTail !in ring
    modifies ring, vgaHole, vgaTail, oemHole, oemTail
    ensures Linked(after) && after[0] == head
    ensures Values(after) ==
            Carved(Carved(old(Values(ring)), VGA_APERTURE_PAGE, VGA_APERTURE_PAGE + VGA_APERTURE_PAGES, VGA), lo, hi, OEM_DISK)
  {
    ghost var four := [vgaHole, vgaTail, oemHole, oemTail];
    assert four[0] != four[1] && four[0] != four[2] && four[0] != four[3];
    assert four[1] != four[2] && four[1] != four[3] && four[2] != four[3];
    ghost var middle: seq<Entry>;
    was, middle := Reserve(head, VGA_APERTURE_PAGE, VGA_APERTURE_PAGE + VGA_APERTURE_PAGES, VGA, vgaHole, vgaTail, ring);
    was, after := Reserve(head, lo, hi, OEM_DISK, oemHole, oemTail, middle);
  }
}
