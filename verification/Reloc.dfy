/** Base relocations: tools/elf2pe.py classifies the ELF relocations of a linked image and emits the
    .reloc section; the reader and the loader's patching follow section 5.6 of the Microsoft PE and
    COFF Specification, revision 8. */
module Reloc {
  import opened Words
  import opened Arithmetic

  const PAGE := 0x1000

  const R_PPC_NONE := 0
  const R_PPC_ADDR32 := 1
  const R_PPC_ADDR16_LO := 4
  const R_PPC_ADDR16_HI := 5
  const R_PPC_ADDR16_HA := 6
  const R_PPC_REL24 := 10
  const R_PPC_REL14 := 11

  /** IMAGE_REL_BASED_HIGH, LOW, HIGHLOW and HIGHADJ; the last carries the low half of its value. */
  datatype Fixup = High(rva: u32) | Low(rva: u32) | HighLow(rva: u32) | HighAdj(rva: u32, low: u16)

  function Code(f: Fixup): nat {
    match f
    case High(_) => 1
    case Low(_) => 2
    case HighLow(_) => 3
    case HighAdj(_, _) => 4
  }

  // ---- reading .reloc --------------------------------------------------------------------------

  function Also<T>(a: Option<seq<T>>, b: Option<seq<T>>): Option<seq<T>> {
    if a.None? || b.None? then None else Some(a.value + b.value)
  }

  /** The slots of one block; None if they are cut short or of a kind the image does not use. */
  function Slots(page: u32, body: seq<byte>): Option<seq<Fixup>> {
    if body == [] then Some([])
    else if |body| < 2 then None
    else
      var w := Le16(body, 0);
      var rva, rest := Add32(page, w % PAGE), body[2..];
      match w / PAGE
      case 0 => Slots(page, rest)
      case 1 => Also(Some([High(rva)]), Slots(page, rest))
      case 2 => Also(Some([Low(rva)]), Slots(page, rest))
      case 3 => Also(Some([HighLow(rva)]), Slots(page, rest))
      case 4 => if |rest| < 2 then None else Also(Some([HighAdj(rva, Le16(rest, 0))]), Slots(page, rest[2..]))
      case _ => None
  }

  /** The whole section: blocks of a page, a size and slots, each on a 32-bit boundary. */
  function Decode(bytes: seq<byte>): Option<seq<Fixup>> {
    if bytes == [] then Some([])
    else if |bytes| < 8 then None
    else
      var page, size := Le32(bytes, 0), Le32(bytes, 4);
      if size < 8 || size > |bytes| || size % 4 != 0 || page % PAGE != 0 then None
      else Also(Slots(page, bytes[8..size]), Decode(bytes[size..]))
  }

  // ---- writing it ------------------------------------------------------------------------------

  /** The signed 16-bit form of the extra slot. */
  function PackShort(v: int): (s: seq<byte>)
    requires -0x8000 <= v < 0x8000
    ensures |s| == 2 && Le16(s, 0) == v % 0x1_0000
  {
    Bytes16(if v < 0 then v + 0x1_0000 else v)
  }

  function SlotBytes(f: Fixup): (s: seq<byte>)
    ensures |s| == 2 || |s| == 4
  {
    Bytes16(Code(f) * PAGE + f.rva % PAGE) +
    if f.HighAdj? then PackShort(if f.low >= 0x8000 then f.low - 0x1_0000 else f.low) else []
  }

  /** A slot's upper four bits are the kind the loader knows it by. */
  lemma SlotSays(f: Fixup)
    ensures Le16(SlotBytes(f), 0) ==
            (match f case High(_) => 0x1000 case Low(_) => 0x2000 case HighLow(_) => 0x3000 case HighAdj(_, _) => 0x4000)
            + f.rva % 0x1000
    ensures f.HighAdj? ==> |SlotBytes(f)| == 4 && Le16(SlotBytes(f), 2) == f.low
  {
    var w := Bytes16(Code(f) * PAGE + f.rva % PAGE);
    assert SlotBytes(f)[0] == w[0] && SlotBytes(f)[1] == w[1];
    if f.HighAdj? {
      var x := PackShort(if f.low >= 0x8000 then f.low - 0x1_0000 else f.low);
      assert SlotBytes(f)[2] == x[0] && SlotBytes(f)[3] == x[1];
      assert Le16(x, 0) == f.low;
    }
  }

  function PageOf(f: Fixup): (p: u32)
    ensures p % PAGE == 0 && Add32(p, f.rva % PAGE) == f.rva
  {
    f.rva / PAGE * PAGE
  }

  /** Slots filled up to a 32-bit boundary. */
  function Padded(body: seq<byte>): (p: seq<byte>)
    requires |body| % 2 == 0
    ensures |p| % 4 == 0 && |p| <= |body| + 2
  {
    if |body| % 4 != 0 then body + [0, 0] else body
  }

  /** A block as flush() writes it. */
  function Block(page: u32, body: seq<byte>): (b: seq<byte>)
    requires |body| % 2 == 0 && |body| + 10 < WORD
    ensures |b| == 8 + |Padded(body)|
  {
    Bytes32(page) + Bytes32(8 + |Padded(body)|) + Padded(body)
  }

  lemma {:induction false} SlotsAppend(page: u32, a: seq<byte>, b: seq<byte>)
    requires Slots(page, a).Some?
    ensures Slots(page, a + b) == Also(Slots(page, a), Slots(page, b))
    decreases |a|
  {
    hide Slots, Le16, SlotsFirst;
    NothingDecodes(page);
    if a == [] {
      assert a + b == b;
      AlsoIsAssociative(Slots(page, b), None, None);
    } else {
      SlotsStep(page, a);
      SlotsStep(page, a + b);
      FirstStays(page, a, b);
      var n := if Le16(a, 0) / PAGE == 4 then 4 else 2;
      assert (a + b)[n..] == a[n..] + b;
      SlotsAppend(page, a[n..], b);
      AlsoIsAssociative(SlotsFirst(page, a), Slots(page, a[n..]), Slots(page, b));
    }
  }

  lemma FirstStays(page: u32, a: seq<byte>, b: seq<byte>)
    requires |a| >= 2 && (Le16(a, 0) / PAGE == 4 ==> |a| >= 4)
    ensures Le16(a + b, 0) == Le16(a, 0) && SlotsFirst(page, a + b) == SlotsFirst(page, a)
  {
    hide Le16;
    SameWord(a + b, a[..2], 0);
    SameWord(a, a[..2], 0);
    if |a| >= 4 {
      SameWord(a + b, a[2..4], 2);
      SameWord(a, a[2..4], 2);
    }
  }

  /** The fixup, if any, in the first slot. */
  ghost function SlotsFirst(page: u32, a: seq<byte>): Option<seq<Fixup>>
    requires |a| >= 2
  {
    var w := Le16(a, 0);
    var rva := Add32(page, w % PAGE);
    match w / PAGE
    case 0 => Some([])
    case 1 => Some([High(rva)])
    case 2 => Some([Low(rva)])
    case 3 => Some([HighLow(rva)])
    case 4 => if |a| < 4 then None else Some([HighAdj(rva, Le16(a, 2))])
    case _ => None
  }

  lemma AlsoIsAssociative<T>(a: Option<seq<T>>, b: Option<seq<T>>, c: Option<seq<T>>)
    ensures Also(Also(a, b), c) == Also(a, Also(b, c))
    ensures Also(Some([]), a) == a
  {
    assert a.Some? ==> [] + a.value == a.value;
    if a.Some? && b.Some? && c.Some? {
      assert (a.value + b.value) + c.value == a.value + (b.value + c.value);
    }
  }

  lemma SlotReadsBack(f: Fixup)
    ensures Slots(PageOf(f), SlotBytes(f)) == Some([f])
  {
    hide Slots, Le16, PageOf, PackShort;
    var s, w := SlotBytes(f), Code(f) * PAGE + f.rva % PAGE;
    DivModUnique(w, PAGE, Code(f), f.rva % PAGE);
    SameWord(s, Bytes16(w), 0);
    SlotsStep(PageOf(f), s);
    NothingDecodes(PageOf(f));
    if f.HighAdj? {
      SameWord(s, PackShort(if f.low >= 0x8000 then f.low - 0x1_0000 else f.low), 2);
      assert s[4..] == [];
    } else {
      assert s[2..] == [];
    }
    assert SlotsFirst(PageOf(f), s) == Some([f]) && [f] + [] == [f];
  }

  lemma SameWord(s: seq<byte>, b: seq<byte>, at: nat)
    requires at + 2 <= |s| && |b| == 2 && s[at] == b[0] && s[at + 1] == b[1]
    ensures Le16(s, at) == Le16(b, 0)
  {
  }

  lemma SlotsStep(page: u32, a: seq<byte>)
    ensures a != [] && Slots(page, a).Some? ==> |a| >= 2 && (Le16(a, 0) / PAGE == 4 ==> |a| >= 4)
    ensures |a| >= 2 ==>
            var n := if Le16(a, 0) / PAGE == 4 then 4 else 2;
            n <= |a| ==> Slots(page, a) == Also(SlotsFirst(page, a), Slots(page, a[n..]))
  {
    hide Le16;
    if |a| < 2 {
      return;
    }
    if |a| >= 4 {
      SameWord(a[2..], [a[2], a[3]], 0);
      SameWord(a, [a[2], a[3]], 2);
      assert a[2..][2..] == a[4..];
    }
    var x := Slots(page, a[2..]);
    assert x.Some? ==> [] + x.value == x.value;
  }

  lemma {:induction false} DecodeAppend(a: seq<byte>, b: seq<byte>)
    requires Decode(a).Some?
    ensures Decode(a + b) == Also(Decode(a), Decode(b))
    decreases |a|
  {
    hide Slots, Le32, Decode;
    DecodeStep(a);
    DecodeStep(a + b);
    if a == [] {
      assert a + b == b;
      AlsoIsAssociative(Decode(b), None, None);
    } else {
      var page, size := Le32(a, 0), Le32(a, 4);
      SameLong(a + b, a[..4], 0);
      SameLong(a, a[..4], 0);
      SameLong(a + b, a[4..8], 4);
      SameLong(a, a[4..8], 4);
      assert (a + b)[8..size] == a[8..size];
      assert (a + b)[size..] == a[size..] + b;
      DecodeAppend(a[size..], b);
      AlsoIsAssociative(Slots(page, a[8..size]), Decode(a[size..]), Decode(b));
    }
  }

  lemma DecodeStep(a: seq<byte>)
    ensures a == [] ==> Decode(a) == Some([])
    ensures a != [] && Decode(a).Some? ==>
              && |a| >= 8 && 8 <= Le32(a, 4) <= |a| && Le32(a, 4) % 4 == 0 && Le32(a, 0) % PAGE == 0
    ensures |a| >= 8 && 8 <= Le32(a, 4) <= |a| && Le32(a, 4) % 4 == 0 && Le32(a, 0) % PAGE == 0 ==>
              Decode(a) == Also(Slots(Le32(a, 0), a[8..Le32(a, 4)]), Decode(a[Le32(a, 4)..]))
  {
  }

  lemma BlockReadsBack(page: u32, body: seq<byte>)
    requires |body| % 2 == 0 && |body| + 10 < WORD && page % PAGE == 0 && Slots(page, body).Some?
    ensures Decode(Block(page, body)) == Slots(page, body)
  {
    hide Slots, Decode;
    OneBlock(page, Padded(body));
    PaddingIsSkipped(page, body);
  }

  lemma OneBlock(page: u32, body: seq<byte>)
    requires |body| % 4 == 0 && |body| + 8 < WORD && page % PAGE == 0
    ensures Decode(Bytes32(page) + Bytes32(8 + |body|) + body) == Slots(page, body)
  {
    hide Slots, Bytes32, Le32;
    var head, size := Bytes32(page), Bytes32(8 + |body|);
    var b := head + size + body;
    SameLong(b, head, 0);
    SameLong(b, size, 4);
    assert b[8..8 + |body|] == body && b[8 + |body|..] == [];
    var x := Slots(page, body);
    assert x.Some? ==> x.value + [] == x.value;
  }

  lemma SameLong(s: seq<byte>, b: seq<byte>, at: nat)
    requires at + 4 <= |s| && |b| == 4 && forall i :: 0 <= i < 4 ==> s[at + i] == b[i]
    ensures Le32(s, at) == Le32(b, 0)
  {
  }

  lemma PaddingIsSkipped(page: u32, body: seq<byte>)
    requires Slots(page, body).Some?
    ensures Slots(page, body + [0, 0]) == Slots(page, body)
  {
    SlotsAppend(page, body, [0, 0]);
    var pad: seq<byte> := [0, 0];
    assert Le16(pad, 0) == 0 && pad[2..] == [];
    var x := Slots(page, body);
    assert x.value + [] == x.value;
  }

  /** The emitter: whatever the fixups, the section reads back as exactly them. */
  method EmitReloc(fixups: seq<Fixup>) returns (reloc: seq<byte>)
    requires 4 * |fixups| + 10 < WORD
    ensures Decode(reloc) == Some(fixups)
    ensures |reloc| % 4 == 0
  {
    hide Decode, Slots, SlotBytes, PageOf, Block;
    reloc := [];
    var page: Option<u32>, entries: seq<byte> := None, [];
    ghost var closed, current: seq<Fixup> := [], [];
    NothingDecodes(0);
    for i := 0 to |fixups|
      invariant Decode(reloc) == Some(closed) && closed + current == fixups[..i] && |reloc| % 4 == 0
      invariant page.None? ==> current == [] && entries == []
      invariant page.Some? ==> page.value % PAGE == 0 && Slots(page.value, entries) == Some(current)
      invariant |entries| % 2 == 0 && |entries| <= 4 * i
    {
      var f := fixups[i];
      if page != Some(PageOf(f)) {
        reloc := Flush(reloc, page, entries, closed, current);
        closed, current := closed + current, [];
        page, entries := Some(PageOf(f)), [];
        NothingDecodes(PageOf(f));
      }
      SlotReadsBack(f);
      SlotsAppend(page.value, entries, SlotBytes(f));
      SlotIsEven(f);
      entries := entries + SlotBytes(f);
      current := current + [f];
      assert fixups[..i + 1] == fixups[..i] + [f];
      assert closed + current == fixups[..i + 1];
    }
    assert fixups[..|fixups|] == fixups;
    reloc := Flush(reloc, page, entries, closed, current);
  }

  lemma NothingDecodes(page: u32)
    ensures Decode([]) == Some([]) && Slots(page, []) == Some([])
  {
  }

  lemma SlotIsEven(f: Fixup)
    ensures |SlotBytes(f)| % 2 == 0
  {
  }

  /** flush(): close the block under way, if there is one. */
  method Flush(reloc: seq<byte>, page: Option<u32>, entries: seq<byte>, ghost closed: seq<Fixup>, ghost current: seq<Fixup>)
    returns (r: seq<byte>)
    requires Decode(reloc) == Some(closed) && |entries| % 2 == 0 && |entries| + 10 < WORD && |reloc| % 4 == 0
    requires page.None? ==> current == []
    requires page.Some? ==> page.value % PAGE == 0 && Slots(page.value, entries) == Some(current)
    ensures Decode(r) == Some(closed + current) && |r| % 4 == 0
  {
    hide Decode, Slots, Block;
    if page.None? {
      assert closed + current == closed;
      return reloc;
    }
    BlockReadsBack(page.value, entries);
    DecodeAppend(reloc, Block(page.value, entries));
    r := reloc + Block(page.value, entries);
  }

  // ---- what is relocated -----------------------------------------------------------------------

  /** A place the linker filled in: the kind of field, where it is and the value it is made from. */
  datatype Site = Site(kind: nat, rva: u32, value: u32)
  {
    predicate Known() { kind in {R_PPC_ADDR32, R_PPC_ADDR16_LO, R_PPC_ADDR16_HI, R_PPC_ADDR16_HA} }
    function Width(): nat { if kind == R_PPC_ADDR32 then 4 else 2 }
  }

  /** The field a PowerPC linker makes of a value. */
  function Field(kind: nat, v: u32): u32 {
    if kind == R_PPC_ADDR32 then v
    else if kind == R_PPC_ADDR16_LO then v % 0x1_0000
    else if kind == R_PPC_ADDR16_HI then v / 0x1_0000
    else (v + 0x8000) / 0x1_0000 % 0x1_0000
  }

  function FixupOf(s: Site): Fixup
    requires s.Known()
  {
    if s.kind == R_PPC_ADDR32 then HighLow(s.rva)
    else if s.kind == R_PPC_ADDR16_LO then Low(s.rva)
    else if s.kind == R_PPC_ADDR16_HI then High(s.rva)
    else HighAdj(s.rva, s.value % 0x1_0000)
  }

  /** What the fields are for: a high and a low half make the value, and so do a high-adjusted half and
      a low half that is sign-extended. */
  lemma HalvesMakeValue(v: u32)
    ensures Field(1, v) == v
    ensures Field(5, v) * 0x1_0000 + Field(4, v) == v
    ensures var low := Field(4, v);
            (Field(6, v) * 0x1_0000 + (if low >= 0x8000 then low - 0x1_0000 else low)) % 0x1_0000_0000 == v
  {
  }

  datatype ElfReloc = ElfReloc(kind: nat, offset: nat, symbol: u32, addend: int)

  function SiteOf(r: ElfReloc, imageBase: u32): Site
    requires imageBase <= r.offset < WORD
  {
    Site(r.kind, r.offset - imageBase, (r.symbol + r.addend) % WORD)
  }

  predicate Ignored(kind: nat) { kind in {R_PPC_REL24, R_PPC_REL14, R_PPC_NONE} }

  /** The sites of a list of ELF relocations; None if one of them cannot be relocated. */
  function Sites(rs: seq<ElfReloc>, imageBase: u32): (s: Option<seq<Site>>)
    requires forall i :: 0 <= i < |rs| ==> imageBase <= rs[i].offset < WORD
    ensures s.Some? ==> forall i :: 0 <= i < |s.value| ==> s.value[i].Known()
  {
    if rs == [] then Some([])
    else
      var n := |rs| - 1;
      var before, s := Sites(rs[..n], imageBase), SiteOf(rs[n], imageBase);
      if before.None? then None
      else if Ignored(rs[n].kind) then before
      else if s.Known() then Some(before.value + [s])
      else None
  }

  /** One relocation more: types 0, 10 and 11 need no fixup, 1, 4, 5 and 6 (ADDR32, LO, HI, HA) are
      places with the value symbol + addend, and any other stops the tool. */
  lemma SitesAre(rs: seq<ElfReloc>, imageBase: u32)
    requires forall i :: 0 <= i < |rs| ==> imageBase <= rs[i].offset < WORD
    ensures rs == [] ==> Sites(rs, imageBase) == Some([])
    ensures rs != [] ==>
              var r, all, before := rs[|rs| - 1], Sites(rs, imageBase), Sites(rs[..|rs| - 1], imageBase);
              if before.None? || r.kind !in {0, 1, 4, 5, 6, 10, 11} then all.None?
              else if r.kind in {0, 10, 11} then all == before
              else all == Some(before.value + [Site(r.kind, r.offset - imageBase, (r.symbol + r.addend) % 0x1_0000_0000)])
  {
  }

  function FixupsOf(sites: seq<Site>): (fs: seq<Fixup>)
    requires forall i :: 0 <= i < |sites| ==> sites[i].Known()
    ensures |fs| == |sites| && forall i :: 0 <= i < |sites| ==> fs[i] == FixupOf(sites[i])
  {
    seq(|sites|, i requires 0 <= i < |sites| => FixupOf(sites[i]))
  }

  /** The loop over elf.relocs(); None: a relocation the tool refuses. */
  method CollectFixups(rs: seq<ElfReloc>, imageBase: u32) returns (fixups: Option<seq<Fixup>>)
    requires forall i :: 0 <= i < |rs| ==> imageBase <= rs[i].offset < WORD
    ensures fixups.Some? <==> Sites(rs, imageBase).Some?
    ensures fixups.Some? ==> fixups.value == FixupsOf(Sites(rs, imageBase).value)
  {
    var fs: seq<Fixup> := [];
    for i := 0 to |rs|
      invariant Sites(rs[..i], imageBase).Some? && fs == FixupsOf(Sites(rs[..i], imageBase).value)
    {
      var r := rs[i];
      assert rs[..i + 1][..i] == rs[..i];
      if Ignored(r.kind) {
        continue;
      }
      var value, rva := (r.symbol + r.addend) % WORD, r.offset - imageBase;
      if r.kind == R_PPC_ADDR32 {
        fs := fs + [HighLow(rva)];
      } else if r.kind == R_PPC_ADDR16_LO {
        fs := fs + [Low(rva)];
      } else if r.kind == R_PPC_ADDR16_HI {
        fs := fs + [High(rva)];
      } else if r.kind == R_PPC_ADDR16_HA {
        fs := fs + [HighAdj(rva, value % 0x1_0000)];
      } else {
        RefusedStays(rs, imageBase, i);
        return None;
      }
    }
    assert rs[..|rs|] == rs;
    fixups := Some(fs);
  }

  lemma {:induction false} RefusedStays(rs: seq<ElfReloc>, imageBase: u32, i: nat)
    requires forall i :: 0 <= i < |rs| ==> imageBase <= rs[i].offset < WORD
    requires i < |rs| && !Ignored(rs[i].kind) && !SiteOf(rs[i], imageBase).Known()
    ensures Sites(rs, imageBase).None?
    decreases |rs|
  {
    if i < |rs| - 1 {
      RefusedStays(rs[..|rs| - 1], imageBase, i);
    }
  }

  // ---- applying it -----------------------------------------------------------------------------

  /** The new field, from the old one and the distance moved. */
  function Patched(f: Fixup, field: u32, delta: u32): u32 {
    match f
    case HighLow(_) => (field + delta) % WORD
    case Low(_) => (field + delta % 0x1_0000) % 0x1_0000
    case High(_) => (field + delta / 0x1_0000) % 0x1_0000
    case HighAdj(_, low) =>
      var signed := if low >= 0x8000 then low - 0x1_0000 else low;
      (field * 0x1_0000 + signed + delta + 0x8000) % WORD / 0x1_0000
  }

  lemma HalfOfSum(a: u32, b: u32)
    ensures var s, carry := (a + b) % WORD, if a % 0x1_0000 + b % 0x1_0000 >= 0x1_0000 then 1 else 0;
            s / 0x1_0000 == (a / 0x1_0000 + b / 0x1_0000 + carry) % 0x1_0000
            && s % 0x1_0000 == (a % 0x1_0000 + b % 0x1_0000) % 0x1_0000
  {
    var la, lb, ha, hb := a % 0x1_0000, b % 0x1_0000, a / 0x1_0000, b / 0x1_0000;
    var carry := if la + lb >= 0x1_0000 then 1 else 0;
    var low, high := la + lb - carry * 0x1_0000, ha + hb + carry;
    Halves(a + b, high, low);
    DivModUnique(la + lb, 0x1_0000, carry, low);
  }

  lemma Halves(n: nat, high: nat, low: nat)
    requires n == high * 0x1_0000 + low && low < 0x1_0000 && high < 0x2_0000
    ensures n % WORD / 0x1_0000 == high % 0x1_0000 && n % WORD % 0x1_0000 == low
  {
    var h := if high >= 0x1_0000 then high - 0x1_0000 else high;
    assert n % WORD == h * 0x1_0000 + low;
    DivModUnique(n % WORD, 0x1_0000, h, low);
  }

  /** The low halves do not carry into a plain high field. */
  predicate NoCarry(s: Site, delta: u32) {
    s.kind == R_PPC_ADDR16_HI ==> s.value % 0x1_0000 + delta % 0x1_0000 < 0x1_0000
  }

  /** Patching a field for an image loaded `delta` away makes it what linking it there would have
      made it: always for 32-bit, low and adjusted high fields; for a plain high field exactly when
      the low halves do not carry. */
  lemma PatchIsRelinkIff(s: Site, delta: u32)
    requires s.Known()
    ensures Patched(FixupOf(s), Field(s.kind, s.value), delta) == Field(s.kind, Add32(s.value, delta)) <==> NoCarry(s, delta)
  {
    if s.kind == R_PPC_ADDR16_HA {
      AdjustedHalf(s.value, delta);
    } else if s.kind == R_PPC_ADDR16_HI {
      HighHalf(s.value, delta);
    } else if s.kind == R_PPC_ADDR16_LO {
      HalfOfSum(s.value, delta);
    }
  }

  lemma HighHalf(v: u32, delta: u32)
    ensures (v / 0x1_0000 + delta / 0x1_0000) % 0x1_0000 == Add32(v, delta) / 0x1_0000 <==>
            v % 0x1_0000 + delta % 0x1_0000 < 0x1_0000
  {
    HalfOfSum(v, delta);
    var sum := v / 0x1_0000 + delta / 0x1_0000;
    assert sum % 0x1_0000 != (sum + 1) % 0x1_0000;
  }

  /** The halves a high-adjusted field and a sign-extended low half split a value into. */
  lemma AdjustedHalf(v: u32, delta: u32)
    ensures var low, high := v % 0x1_0000, (v + 0x8000) / 0x1_0000 % 0x1_0000;
            var signed := if low >= 0x8000 then low - 0x1_0000 else low;
            (high * 0x1_0000 + signed + delta + 0x8000) % WORD / 0x1_0000 ==
            (Add32(v, delta) + 0x8000) / 0x1_0000 % 0x1_0000
  {
    var low, high := v % 0x1_0000, (v + 0x8000) / 0x1_0000 % 0x1_0000;
    var signed := if low >= 0x8000 then low - 0x1_0000 else low;
    assert high * 0x1_0000 + signed == v || high * 0x1_0000 + signed == v - WORD;
    assert (high * 0x1_0000 + signed + delta + 0x8000) % WORD == (Add32(v, delta) + 0x8000) % WORD;
    HalfOfMod(Add32(v, delta) + 0x8000);
  }

  lemma HalfOfMod(n: nat)
    ensures n % WORD / 0x1_0000 == n / 0x1_0000 % 0x1_0000
  {
  }

  /** So every field of every image survives a move of `delta` exactly when that is a multiple of
      64 KB. */
  lemma AllPatchesAreRelinksIff(delta: u32)
    ensures delta % 0x1_0000 == 0 <==>
            forall s: Site :: s.Known() ==> FieldSurvives(s, delta)
  {
    if delta % 0x1_0000 == 0 {
      forall s: Site | s.Known()
        ensures FieldSurvives(s, delta)
      {
        PatchIsRelinkIff(s, delta);
      }
    } else {
      var s := Site(R_PPC_ADDR16_HI, 0, 0xFFFF);
      PatchIsRelinkIff(s, delta);
      assert !FieldSurvives(s, delta);
    }
  }

  ghost predicate FieldSurvives(s: Site, delta: u32)
    requires s.Known()
  {
    Patched(FixupOf(s), Field(s.kind, s.value), delta) == Field(s.kind, Add32(s.value, delta))
  }

  // ---- whole images ----------------------------------------------------------------------------

  function FieldBytes(kind: nat, v: u32): (b: seq<byte>)
    ensures |b| == if kind == R_PPC_ADDR32 then 4 else 2
  {
    if kind == R_PPC_ADDR32 then Bytes32(Field(kind, v)) else Bytes16(Field(kind, v) % 0x1_0000)
  }

  /** The loader: patch every place the section names. */
  function Apply(img: seq<byte>, fs: seq<Fixup>, delta: u32): (r: seq<byte>)
    ensures |r| == |img|
  {
    if fs == [] then img
    else PatchedImage(Apply(img, fs[..|fs| - 1], delta), fs[|fs| - 1], delta)
  }

  function PatchedImage(r: seq<byte>, f: Fixup, delta: u32): (p: seq<byte>)
    ensures |p| == |r|
  {
    if f.HighLow? then
      if f.rva + 4 <= |r| then Splice(r, f.rva, Bytes32(Patched(f, Le32(r, f.rva), delta))) else r
    else if f.rva + 2 <= |r| then Splice(r, f.rva, Bytes16(Patched(f, Le16(r, f.rva), delta) % 0x1_0000))
    else r
  }

  ghost predicate Inside(s: Site, p: int) { s.rva <= p < s.rva + s.Width() }

  ghost predicate Apart(s: Site, t: Site) { s.rva + s.Width() <= t.rva || t.rva + t.Width() <= s.rva }

  /** The sites lie within the image and do not overlap. */
  ghost predicate Separate(img: seq<byte>, sites: seq<Site>) {
    && (forall s :: s in sites ==> s.Known() && s.rva + s.Width() <= |img|)
    && (forall i, j :: 0 <= i < j < |sites| ==> Apart(sites[i], sites[j]))
  }

  ghost predicate Holds(img: seq<byte>, s: Site, b: seq<byte>) {
    s.rva + |b| <= |img| && img[s.rva..s.rva + |b|] == b
  }

  /** The image is linked for values moved by `delta`. */
  ghost predicate LinkedAt(img: seq<byte>, sites: seq<Site>, delta: u32) {
    forall s :: s in sites ==> Holds(img, s, FieldBytes(s.kind, Add32(s.value, delta)))
  }

  ghost predicate NoCarries(sites: seq<Site>, delta: u32) {
    forall s :: s in sites ==> NoCarry(s, delta)
  }

  ghost predicate OnlySitesChange(img: seq<byte>, r: seq<byte>, sites: seq<Site>) {
    |r| == |img| && forall p :: 0 <= p < |img| ==> r[p] == img[p] || exists s :: s in sites && Inside(s, p)
  }

  /** What patching leaves in a linked field. */
  function PatchedBytes(s: Site, delta: u32): (b: seq<byte>)
    requires s.Known()
    ensures |b| == s.Width()
  {
    var v := Patched(FixupOf(s), Field(s.kind, s.value), delta);
    if s.kind == R_PPC_ADDR32 then Bytes32(v) else Bytes16(v % 0x1_0000)
  }

  lemma PatchedBytesIff(s: Site, delta: u32)
    requires s.Known()
    ensures PatchedBytes(s, delta) == FieldBytes(s.kind, Add32(s.value, delta)) <==> NoCarry(s, delta)
  {
    hide Bytes16, Bytes32, Le16, Le32, Field, Patched, NoCarry;
    PatchIsRelinkIff(s, delta);
    HalvesAreShort(s, delta);
  }

  lemma HalvesAreShort(s: Site, delta: u32)
    requires s.Known()
    ensures s.kind != R_PPC_ADDR32 ==>
              && Field(s.kind, s.value) < 0x1_0000 && Field(s.kind, Add32(s.value, delta)) < 0x1_0000
              && Patched(FixupOf(s), Field(s.kind, s.value), delta) < 0x1_0000
  {
  }

  /** Image `r` is `img` with its first `n` sites patched and nothing else changed. */
  ghost predicate PatchedTo(img: seq<byte>, r: seq<byte>, sites: seq<Site>, delta: u32, n: nat)
    requires Separate(img, sites)
  {
    && OnlySitesChange(img, r, sites)
    && forall i :: 0 <= i < |sites| ==>
         Holds(r, sites[i], if i < n then PatchedBytes(sites[i], delta) else FieldBytes(sites[i].kind, sites[i].value))
  }

  lemma {:induction false} ApplyPatches(img: seq<byte>, sites: seq<Site>, delta: u32, n: nat)
    requires n <= |sites| && Separate(img, sites) && LinkedAt(img, sites, 0)
    ensures PatchedTo(img, Apply(img, FixupsOf(sites)[..n], delta), sites, delta, n)
  {
    hide Holds, FixupOf, OnlySitesChange, PatchedTo, PatchedImage, PatchedBytes;
    var fs := FixupsOf(sites);
    if n > 0 {
      ApplyPatches(img, sites, delta, n - 1);
      assert fs[..n][..n - 1] == fs[..n - 1];
      PatchNext(img, Apply(img, fs[..n - 1], delta), sites, delta, n - 1);
    } else {
      assert fs[..0] == [];
      NothingPatched(img, sites, delta);
    }
  }

  lemma NothingPatched(img: seq<byte>, sites: seq<Site>, delta: u32)
    requires Separate(img, sites) && LinkedAt(img, sites, 0)
    ensures PatchedTo(img, img, sites, delta, 0)
  {
    hide Holds, PatchedBytes;
    assert forall s: Site :: Add32(s.value, 0) == s.value;
  }

  lemma PatchNext(img: seq<byte>, r: seq<byte>, sites: seq<Site>, delta: u32, n: nat)
    requires Separate(img, sites) && n < |sites| && PatchedTo(img, r, sites, delta, n)
    ensures PatchedTo(img, PatchedImage(r, FixupOf(sites[n]), delta), sites, delta, n + 1)
  {
    hide FieldBytes, FixupOf, PatchedImage, PatchedBytes;
    var s := sites[n];
    var b := PatchedBytes(s, delta);
    PatchOne(r, s, delta);
    var now := Splice(r, s.rva, b);
    forall i | 0 <= i < |sites|
      ensures Holds(now, sites[i], if i < n + 1 then PatchedBytes(sites[i], delta) else FieldBytes(sites[i].kind, sites[i].value))
    {
      if i != n {
        assert Apart(sites[i], s);
        Elsewhere(r, s, b, sites[i]);
      }
    }
    forall p | 0 <= p < |img|
      ensures now[p] == img[p] || exists s :: s in sites && Inside(s, p)
    {
      if Inside(s, p) {
      } else {
        assert now[p] == r[p];
      }
    }
  }

  lemma PatchOne(r: seq<byte>, s: Site, delta: u32)
    requires s.Known() && Holds(r, s, FieldBytes(s.kind, s.value))
    ensures PatchedImage(r, FixupOf(s), delta) == Splice(r, s.rva, PatchedBytes(s, delta))
  {
    hide Patched, Field;
    FieldReads(r, s);
  }

  /** Loading a linked image `delta` away and applying its fixups changes its fields only, and gives
      the image linked there exactly when no plain high field's low half carries. */
  lemma ApplyRelinksIff(img: seq<byte>, sites: seq<Site>, delta: u32)
    requires Separate(img, sites) && LinkedAt(img, sites, 0)
    ensures var r := Apply(img, FixupsOf(sites), delta);
            OnlySitesChange(img, r, sites) && (LinkedAt(r, sites, delta) <==> NoCarries(sites, delta))
  {
    hide Apply, FixupOf, OnlySitesChange, PatchedBytes, FieldBytes, NoCarry;
    var fs := FixupsOf(sites);
    assert fs[..|sites|] == fs;
    ApplyPatches(img, sites, delta, |sites|);
    forall i | 0 <= i < |sites|
      ensures Holds(Apply(img, fs, delta), sites[i], FieldBytes(sites[i].kind, Add32(sites[i].value, delta)))
              <==> NoCarry(sites[i], delta)
    {
      PatchedBytesIff(sites[i], delta);
    }
  }

  lemma FieldReads(r: seq<byte>, s: Site)
    requires s.Known() && Holds(r, s, FieldBytes(s.kind, s.value))
    ensures if s.kind == R_PPC_ADDR32 then Le32(r, s.rva) == Field(s.kind, s.value) else Le16(r, s.rva) == Field(s.kind, s.value)
  {
    hide Field, Le16, Le32;
    var b := FieldBytes(s.kind, s.value);
    SliceIs(r, s.rva, b);
    if s.kind == R_PPC_ADDR32 {
      SameLong(r, b, s.rva);
    } else {
      SameWord(r, b, s.rva);
      HalvesAreShort(s, 0);
    }
  }

  lemma SliceIs(r: seq<byte>, at: nat, b: seq<byte>)
    requires at + |b| <= |r| && r[at..at + |b|] == b
    ensures forall i :: 0 <= i < |b| ==> r[at + i] == b[i]
  {
    var part := r[at..at + |b|];
    assert forall i :: 0 <= i < |b| ==> r[at + i] == part[i];
  }

  lemma Elsewhere(r: seq<byte>, s: Site, b: seq<byte>, t: Site)
    requires s.rva + |b| <= |r| && t.rva + t.Width() <= |r|
    requires s.rva + |b| <= t.rva || t.rva + t.Width() <= s.rva
    ensures Splice(r, s.rva, b)[t.rva..t.rva + t.Width()] == r[t.rva..t.rva + t.Width()]
  {
  }

  // ---- from the relocations to the loaded image ------------------------------------------------

  /** Python's sort. */
  type Sort = f: seq<Fixup> -> seq<Fixup> | forall fs: seq<Fixup> :: multiset(f(fs)) == multiset(fs)
    witness (fs: seq<Fixup>) => fs

  /** The section names the sites, each once, in some order. */
  ghost predicate Describes(reloc: seq<byte>, sites: seq<Site>)
    requires forall i :: 0 <= i < |sites| ==> sites[i].Known()
  {
    Decode(reloc).Some? && multiset(Decode(reloc).value) == multiset(FixupsOf(sites))
  }

  /** The tool's relocation pass: collect, sort, emit. */
  method BuildReloc(rs: seq<ElfReloc>, imageBase: u32, sort: Sort) returns (reloc: Option<seq<byte>>)
    requires forall i :: 0 <= i < |rs| ==> imageBase <= rs[i].offset < WORD
    requires 4 * |rs| + 10 < WORD
    ensures reloc.Some? <==> Sites(rs, imageBase).Some?
    ensures reloc.Some? ==> Describes(reloc.value, Sites(rs, imageBase).value)
  {
    hide Decode, Sites;
    var fixups := CollectFixups(rs, imageBase);
    if fixups.None? {
      return None;
    }
    SitesAreFew(rs, imageBase);
    assert multiset(sort(fixups.value)) == multiset(fixups.value);
    SameCount(sort(fixups.value), fixups.value);
    var section := EmitReloc(sort(fixups.value));
    reloc := Some(section);
  }

  lemma {:induction false} SitesAreFew(rs: seq<ElfReloc>, imageBase: u32)
    requires forall i :: 0 <= i < |rs| ==> imageBase <= rs[i].offset < WORD
    ensures Sites(rs, imageBase).Some? ==> |Sites(rs, imageBase).value| <= |rs|
    decreases |rs|
  {
    if rs != [] {
      SitesAreFew(rs[..|rs| - 1], imageBase);
    }
  }

  lemma SameCount<T>(a: seq<T>, b: seq<T>)
    ensures multiset(a) == multiset(b) ==> |a| == |b|
  {
    assert |multiset(a)| == |a| && |multiset(b)| == |b|;
  }

  /** The sites in the order of the fixups made from them. */
  lemma {:induction false} InOrder(img: seq<byte>, sites: seq<Site>, fs: seq<Fixup>) returns (order: seq<Site>)
    requires Separate(img, sites) && multiset(fs) == multiset(FixupsOf(sites))
    ensures Separate(img, order) && FixupsOf(order) == fs && forall s :: s in order <==> s in sites
    decreases |fs|
  {
    var all := FixupsOf(sites);
    hide FixupOf, Separate;
    SameCount(fs, all);
    if fs == [] {
      return [];
    }
    var k := SiteOfFirst(sites, fs);
    WithoutOne(img, sites, k);
    CountWithout(fs, all, k);
    var others := InOrder(img, Without(sites, k), fs[1..]);
    Prepend(img, sites[k], others);
    order := [sites[k]] + others;
  }

  lemma SiteOfFirst(sites: seq<Site>, fs: seq<Fixup>) returns (k: nat)
    requires forall i :: 0 <= i < |sites| ==> sites[i].Known()
    requires multiset(fs) == multiset(FixupsOf(sites)) && fs != []
    ensures k < |sites| && FixupsOf(sites)[k] == fs[0]
  {
    hide FixupOf;
    assert fs[0] in multiset(fs);
    assert fs[0] in FixupsOf(sites);
    k :| 0 <= k < |sites| && FixupsOf(sites)[k] == fs[0];
  }

  lemma Prepend(img: seq<byte>, s: Site, others: seq<Site>)
    requires Separate(img, others) && s.Known() && s.rva + s.Width() <= |img| && forall t :: t in others ==> Apart(t, s)
    ensures Separate(img, [s] + others) && FixupsOf([s] + others) == [FixupOf(s)] + FixupsOf(others)
  {
    hide FixupOf, Apart, Site.Known, Site.Width;
    var order := [s] + others;
    forall i, j | 0 <= i < j < |order|
      ensures Apart(order[i], order[j])
    {
      if i == 0 {
        assert order[j] == others[j - 1];
        ApartEither(s, order[j]);
      } else {
        assert Apart(others[i - 1], others[j - 1]);
      }
    }
  }

  lemma ApartEither(s: Site, t: Site)
    ensures Apart(s, t) <==> Apart(t, s)
  {
  }

  lemma WithoutOne(img: seq<byte>, sites: seq<Site>, k: nat)
    requires Separate(img, sites) && k < |sites|
    ensures var rest := Without(sites, k);
            && Separate(img, rest) && FixupsOf(rest) == Without(FixupsOf(sites), k)
            && sites[k].Known() && sites[k].rva + sites[k].Width() <= |img|
            && (forall s :: s in rest ==> Apart(s, sites[k]))
            && (forall s :: s in sites <==> s == sites[k] || s in rest)
  {
    hide FixupOf, Apart, Site.Known, Site.Width;
    var rest := Without(sites, k);
    forall i, j | 0 <= i < j < |rest|
      ensures Apart(rest[i], rest[j])
    {
      assert Apart(sites[if i < k then i else i + 1], sites[if j < k then j else j + 1]);
    }
    forall i | 0 <= i < |rest|
      ensures Apart(rest[i], sites[k])
    {
      ApartEither(rest[i], sites[k]);
      assert rest[i] == sites[if i < k then i else i + 1];
    }
    assert FixupsOf(rest) == Without(FixupsOf(sites), k);
  }

  lemma CountWithout<T(!new)>(fs: seq<T>, all: seq<T>, k: nat)
    requires multiset(fs) == multiset(all) && k < |all| && fs != [] && fs[0] == all[k]
    ensures multiset(fs[1..]) == multiset(Without(all, k))
  {
    assert fs == [fs[0]] + fs[1..];
    var one, rest := multiset([fs[0]]), multiset(Without(all, k));
    assert multiset(fs) == one + multiset(fs[1..]);
    assert multiset(fs[1..]) == multiset(fs) - one;
    assert rest == multiset(all) - one;
  }

  function Without<T(!new)>(s: seq<T>, k: nat): (r: seq<T>)
    requires k < |s|
    ensures |r| == |s| - 1 && forall i :: 0 <= i < |r| ==> r[i] == s[if i < k then i else i + 1]
    ensures forall x :: x in s <==> x == s[k] || x in r
    ensures multiset(s) == multiset([s[k]]) + multiset(r)
  {
    assert s == s[..k] + [s[k]] + s[k + 1..];
    s[..k] + s[k + 1..]
  }

  /** The section the tool writes for a linked image, decoded by a loader that puts the image `delta`
      away: only the sites change, and the image is the one linked there exactly when no plain high
      field's low half carries. */
  lemma SectionRelinksIff(img: seq<byte>, sites: seq<Site>, reloc: seq<byte>, delta: u32)
    requires Separate(img, sites) && LinkedAt(img, sites, 0) && Describes(reloc, sites)
    ensures var r := Apply(img, Decode(reloc).value, delta);
            OnlySitesChange(img, r, sites) && (LinkedAt(r, sites, delta) <==> NoCarries(sites, delta))
  {
    hide Apply, FixupOf, Decode, Holds, Separate, NoCarry, Inside;
    var order := InOrder(img, sites, Decode(reloc).value);
    ApplyRelinksIff(img, order, delta);
  }
}
