/** The ARC configuration tree: linking nodes, printing a node's path and finding it again, in
    arcfw's config.c with the number printing of console.c and the parsing of string.c. */
module ArcPath {
  import opened Words

  // ---- names and numbers -----------------------------------------------------------------------

  const TYPE_NAMES: seq<string> := [
    "arc", "cpu", "fpu", "pic", "pdc", "sic", "sdc", "sc", "eisa", "tc", "scsi", "dti", "multi", "disk",
    "tape", "cdrom", "worm", "serial", "net", "video", "par", "point", "key", "audio", "other", "rdisk",
    "fdisk", "tape", "modem", "monitor", "print", "pointer", "keyboard", "term", "other", "line",
    "network", "memory"]

  const MAXIMUM_TYPE := 38
  const NAME_MAX: nat := 15

  type Kind = k: nat | k < MAXIMUM_TYPE

  function TypeName(k: Kind): string { TYPE_NAMES[k] }

  function Upper(c: char): char { if 'a' <= c <= 'z' then (c as int - 32) as char else c }

  /** strcasecmp() == 0. */
  predicate SameName(a: string, b: string) {
    |a| == |b| && forall i :: 0 <= i < |a| ==> Upper(a[i]) == Upper(b[i])
  }

  /** Names are compared letter by letter, but for the case of the letters a to z. */
  lemma SameNameIs(a: string, b: string)
    ensures SameName(a, b) <==>
            |a| == |b|
            && forall i :: 0 <= i < |a| ==>
                 a[i] == b[i]
                 || ('a' <= a[i] <= 'z' && a[i] as int - 32 == b[i] as int)
                 || ('a' <= b[i] <= 'z' && b[i] as int - 32 == a[i] as int)
  {
  }

  predicate IsDigit(c: char) { '0' <= c <= '9' }

  function Digit(d: nat): (c: char)
    requires d < 10
    ensures IsDigit(c) && Value(c) == d
  {
    ('0' as int + d) as char
  }

  function Value(c: char): (d: nat)
    requires IsDigit(c)
    ensures d < 10
  {
    c as int - '0' as int
  }

  /** %u. */
  function Decimal(v: nat): (s: string)
    ensures s != [] && forall i :: 0 <= i < |s| ==> IsDigit(s[i])
  {
    if v < 10 then [Digit(v)] else Decimal(v / 10) + [Digit(v % 10)]
  }

  /** atoul: the value of the digits at `at`, cut to 32 bits on the way, and where they end. */
  function Atoul(s: string, at: nat, v: u32): (r: (u32, nat))
    requires at <= |s|
    ensures at <= r.1 <= |s|
    decreases |s| - at
  {
    if at < |s| && IsDigit(s[at]) then Atoul(s, at + 1, (v * 10 + Value(s[at])) % WORD) else (v, at)
  }

  /** The parser reads every printed 32-bit number back and stops behind it. */
  lemma {:induction false} AtoulReadsDecimal(s: string, at: nat, v: u32)
    requires at + |Decimal(v)| <= |s| && s[at..at + |Decimal(v)|] == Decimal(v)
    ensures Atoul(s, at, 0) == Atoul(s, at + |Decimal(v)|, v)
    decreases v
  {
    hide Decimal, Atoul, Value;
    var n := |Decimal(v)|;
    DecimalEnds(v);
    assert s[at + n - 1] == Decimal(v)[n - 1];
    AtoulStep(s, at + n - 1, v / 10);
    if v >= 10 {
      assert s[at..at + n - 1] == Decimal(v)[..n - 1];
      AtoulReadsDecimal(s, at, v / 10);
    }
  }

  lemma AtoulStep(s: string, at: nat, v: u32)
    requires at < |s| && IsDigit(s[at]) && v * 10 + Value(s[at]) < WORD
    ensures Atoul(s, at, v) == Atoul(s, at + 1, v * 10 + Value(s[at]))
  {
  }

  lemma DecimalEnds(v: nat)
    ensures var d := Decimal(v);
            && Value(d[|d| - 1]) == v % 10
            && (v >= 10 ==> d[..|d| - 1] == Decimal(v / 10))
            && (v < 10 ==> |d| == 1)
  {
  }

  /** The number some digits make. */
  function NumberOf(digits: string): nat
    requires forall i :: 0 <= i < |digits| ==> IsDigit(digits[i])
  {
    if digits == "" then 0
    else
      var last := digits[|digits| - 1];
      assert IsDigit(last);
      NumberOf(digits[..|digits| - 1]) * 10 + (last as int - '0' as int)
  }

  /** The parser reads all digits there are, none being 0, and keeps the low 32 bits of their number. */
  lemma AtoulIs(s: string, at: nat, n: nat)
    requires at + n <= |s| && (forall i :: at <= i < at + n ==> '0' <= s[i] <= '9')
    requires at + n == |s| || !('0' <= s[at + n] <= '9')
    ensures Atoul(s, at, 0) == (NumberOf(s[at..at + n]) % 0x1_0000_0000, at + n)
  {
    AtoulReads(s, at, n, 0, "");
    assert "" + s[at..at + n] == s[at..at + n];
  }

  lemma {:induction false} AtoulReads(s: string, at: nat, n: nat, v: u32, before: string)
    requires at + n <= |s| && (forall i :: at <= i < at + n ==> IsDigit(s[i])) && (at + n == |s| || !IsDigit(s[at + n]))
    requires (forall i :: 0 <= i < |before| ==> IsDigit(before[i])) && v == NumberOf(before) % WORD
    ensures Atoul(s, at, v) == (NumberOf(before + s[at..at + n]) % WORD, at + n)
    decreases n
  {
    if n == 0 {
      assert before + s[at..at] == before;
    } else {
      var more := before + [s[at]];
      assert more[..|before|] == before;
      Shifted(NumberOf(before), Value(s[at]));
      AtoulReads(s, at + 1, n - 1, (v * 10 + Value(s[at])) % WORD, more);
      assert more + s[at + 1..at + n] == before + s[at..at + n];
    }
  }

  lemma Shifted(n: nat, d: nat)
    ensures (n % WORD * 10 + d) % WORD == (n * 10 + d) % WORD
  {
    var q := n / WORD;
    assert n == q * WORD + n % WORD;
    assert n * 10 + d == n % WORD * 10 + d + q * 10 * WORD;
    MultipleOfWord(n % WORD * 10 + d, q * 10);
  }

  lemma {:induction false} MultipleOfWord(n: nat, q: nat)
    ensures (n + q * WORD) % WORD == n % WORD
  {
    if q > 0 {
      MultipleOfWord(n, q - 1);
      assert n + q * WORD == n + (q - 1) * WORD + WORD;
    }
  }

  // ---- the tree --------------------------------------------------------------------------------

  /** A node as it was made; nodes are numbered in the order they were made, the root first. */
  datatype Info = Info(parent: Option<nat>, kind: Kind, key: u32)

  ghost predicate Rooted(t: seq<Info>) {
    forall i :: 0 <= i < |t| ==> if i == 0 then t[i].parent.None? else t[i].parent.Some? && t[i].parent.value < i
  }

  /** The first child of `p` from number `from` on. */
  ghost function FirstFrom(t: seq<Info>, p: nat, from: nat): (k: Option<nat>)
    ensures k.Some? ==> from <= k.value < |t| && t[k.value].parent == Some(p)
    decreases |t| - from
  {
    if from >= |t| then None
    else if t[from].parent == Some(p) then Some(from)
    else FirstFrom(t, p, from + 1)
  }

  predicate Matches(i: Info, name: string, key: u32) { SameName(TypeName(i.kind), name) && i.key == key }

  /** The first child of `p` from number `from` on with this name and key. */
  ghost function FindFrom(t: seq<Info>, p: nat, name: string, key: u32, from: nat): (k: Option<nat>)
    ensures k.Some? ==> from <= k.value < |t| && t[k.value].parent == Some(p) && Matches(t[k.value], name, key)
    ensures k.None? ==> forall j :: from <= j < |t| && t[j].parent == Some(p) ==> !Matches(t[j], name, key)
    ensures k.Some? ==> forall j :: from <= j < k.value && t[j].parent == Some(p) ==> !Matches(t[j], name, key)
    decreases |t| - from
  {
    if from >= |t| then None
    else if t[from].parent == Some(p) && Matches(t[from], name, key) then Some(from)
    else FindFrom(t, p, name, key, from + 1)
  }

  /** What the lookup of a child finds: the first child of `p` with exactly this key whose type has
      this name, case aside. */
  lemma ChildIs(t: seq<Info>, p: nat, name: string, key: u32)
    ensures var k := FindFrom(t, p, name, key, 0);
            && (k.Some? ==> k.value < |t| && t[k.value].parent == Some(p) && t[k.value].key == key
                            && SameName(TYPE_NAMES[t[k.value].kind], name))
            && forall j :: 0 <= j < (if k.Some? then k.value else |t|) && t[j].parent == Some(p) && t[j].key == key ==>
                 !SameName(TYPE_NAMES[t[j].kind], name)
  {
  }

  // ---- paths -----------------------------------------------------------------------------------

  function Part(i: Info): string { TypeName(i.kind) + "(" + Decimal(i.key) + ")" }

  /** The whole ARC path of node `n`; the root's is empty. */
  ghost function Path(t: seq<Info>, n: nat): string
    requires Rooted(t) && n < |t|
  {
    if n == 0 then "" else Path(t, t[n].parent.value) + Part(t[n])
  }

  /** What fits a buffer of `len` characters, its terminator included. */
  function Fitted(s: string, len: nat): string
    requires len > 0
  {
    if |s| < len then s else s[..len - 1]
  }

  datatype Component = Component(name: string, key: u32, end: nat)

  function NameEnd(s: string, at: nat, room: nat): (e: nat)
    requires at <= |s|
    ensures at <= e <= |s| && e <= at + room
    decreases room
  {
    if at < |s| && s[at] != '(' && room > 0 then NameEnd(s, at + 1, room - 1) else at
  }

  /** name(key) at `at`; None where the lookup stops: no name(key), or a partition. */
  function Parse(s: string, at: nat): (c: Option<Component>)
    requires at <= |s|
    ensures c.Some? ==> at < c.value.end <= |s|
  {
    var e := NameEnd(s, at, NAME_MAX);
    if e == |s| || s[e] != '(' then None
    else
      var (key, q) := Atoul(s, e + 1, 0);
      if q == |s| || s[q] != ')' || SameName(s[at..e], "partition") then None
      else Some(Component(s[at..e], key, q + 1))
  }

  datatype Hit = Hit(node: Option<nat>, rest: nat)

  /** The lookup from node `cur` with the path read up to `at`. */
  ghost function Walk(t: seq<Info>, cur: nat, best: Option<nat>, s: string, at: nat): (h: Hit)
    requires at <= |s|
    ensures at <= h.rest <= |s|
    ensures h.rest == at ==> h.node == best
    decreases |s| - at
  {
    var c := Parse(s, at);
    if at == |s| || c.None? then Hit(best, at)
    else
      var k := FindFrom(t, cur, c.value.name, c.value.key, 0);
      if k.None? then Hit(best, at) else Walk(t, k.value, k, s, c.value.end)
  }

  ghost function Lookup(t: seq<Info>, s: string): Hit { Walk(t, 0, None, s, 0) }

  // ---- paths find their nodes ------------------------------------------------------------------

  lemma NamesAreShort(k: Kind)
    ensures |TypeName(k)| <= 8 && forall i :: 0 <= i < |TypeName(k)| ==> TypeName(k)[i] != '('
  {
  }

  lemma {:induction false} NameEndIs(s: string, at: nat, n: nat, room: nat)
    requires at + n < |s| && s[at + n] == '(' && n <= room
    requires forall i :: at <= i < at + n ==> s[i] != '('
    ensures NameEnd(s, at, room) == at + n
    decreases n
  {
    if n > 0 {
      NameEndIs(s, at + 1, n - 1, room - 1);
    }
  }

  /** A printed component parses as its name and key. */
  lemma PartParses(s: string, at: nat, i: Info)
    requires at + |Part(i)| <= |s| && s[at..at + |Part(i)|] == Part(i)
    ensures Parse(s, at) == Some(Component(TypeName(i.kind), i.key, at + |Part(i)|))
  {
    hide TypeName, Decimal, Atoul, NameEnd, SameName;
    var name, digits := TypeName(i.kind), Decimal(i.key);
    var n, m := |name|, |digits|;
    PartLayout(s, at, name, digits);
    NamesAreShort(i.kind);
    assert forall j :: at <= j < at + n ==> s[j] == s[at..at + n][j - at];
    NameEndIs(s, at, n, NAME_MAX);
    AtoulReadsDecimal(s, at + n + 1, i.key);
    AtoulEnds(s, at + n + 1 + m, i.key);
    NotPartition(name);
  }

  lemma PartLayout(s: string, at: nat, name: string, digits: string)
    requires at + |name| + |digits| + 2 <= |s|
    requires s[at..at + |name| + |digits| + 2] == name + "(" + digits + ")"
    ensures var e := at + |name|;
            && s[at..e] == name && s[e] == '(' && s[e + 1..e + 1 + |digits|] == digits && s[e + 1 + |digits|] == ')'
  {
    var part, n, m := name + "(" + digits + ")", |name|, |digits|;
    assert forall j :: 0 <= j < |part| ==> s[at + j] == part[j];
    assert forall j :: 0 <= j < n ==> s[at + j] == part[j] == name[j];
    assert forall j :: 0 <= j < m ==> s[at + (n + 1 + j)] == part[n + 1 + j] == digits[j];
    assert s[at + n] == part[n] && s[at + (n + 1 + m)] == part[n + 1 + m];
  }

  lemma AtoulEnds(s: string, at: nat, v: u32)
    ensures at < |s| && s[at] == ')' ==> Atoul(s, at, v) == (v, at)
  {
  }

  lemma NotPartition(name: string)
    ensures |name| <= 8 ==> !SameName(name, "partition")
  {
  }

  /** Sixteen characters without a bracket are no component: no name is that long. */
  lemma LongNameStops(s: string, at: nat)
    requires at + 16 <= |s| && forall i :: at <= i < at + 16 ==> s[i] != '('
    ensures Parse(s, at) == None
  {
    NameEndStops(s, at, NAME_MAX);
  }

  lemma {:induction false} NameEndStops(s: string, at: nat, room: nat)
    requires at + room < |s| && forall i :: at <= i <= at + room ==> s[i] != '('
    ensures NameEnd(s, at, room) == at + room
    decreases room
  {
    if room > 0 {
      NameEndStops(s, at + 1, room - 1);
    }
  }

  /** The path the loader boots from: the fourth disk of the second adapter of the first bridge. */
  lemma LoaderPath(t: seq<Info>)
    requires Rooted(t) && |t| == 5
    requires t[1] == Info(Some(0), 12, 0) && t[2] == Info(Some(1), 10, 1) && t[3] == Info(Some(2), 13, 3) && t[4] == Info(Some(3), 25, 0)
    ensures Path(t, 4) == "multi(0)scsi(1)disk(3)rdisk(0)"
  {
    hide Part;
    LoaderParts(t[1], t[2], t[3], t[4]);
    assert Path(t, 0) == "";
    assert Path(t, 1) == "" + "multi(0)" == "multi(0)";
    assert Path(t, 2) == "multi(0)" + "scsi(1)";
    assert Path(t, 3) == Path(t, 2) + "disk(3)";
    assert Path(t, 4) == Path(t, 3) + "rdisk(0)";
  }

  lemma LoaderParts(a: Info, b: Info, c: Info, d: Info)
    ensures a.kind == 12 && a.key == 0 ==> Part(a) == "multi(0)"
    ensures b.kind == 10 && b.key == 1 ==> Part(b) == "scsi(1)"
    ensures c.kind == 13 && c.key == 3 ==> Part(c) == "disk(3)"
    ensures d.kind == 25 && d.key == 0 ==> Part(d) == "rdisk(0)"
  {
    assert Decimal(0) == "0" && Decimal(1) == "1" && Decimal(3) == "3";
    assert TYPE_NAMES[12] == "multi" && TYPE_NAMES[10] == "scsi" && TYPE_NAMES[13] == "disk" && TYPE_NAMES[25] == "rdisk";
  }

  /** The node the lookup is at once it has read the path of `n`. */
  ghost function Reached(t: seq<Info>, n: nat): (r: Option<nat>)
    requires Rooted(t) && n < |t|
    ensures r.Some? ==> r.value < |t|
  {
    if n == 0 then Some(0)
    else
      var x := Reached(t, t[n].parent.value);
      if x.None? then None else FindFrom(t, x.value, TypeName(t[n].kind), t[n].key, 0)
  }

  /** The lookup of a path with anything behind it reads that path and goes on from there, or has
      stopped within it. */
  lemma {:induction false} PathIsRead(t: seq<Info>, n: nat, s: string)
    requires Rooted(t) && n < |t| && |Path(t, n)| <= |s| && s[..|Path(t, n)|] == Path(t, n)
    ensures var r, p := Reached(t, n), |Path(t, n)|;
            if r.Some? then Lookup(t, s) == Walk(t, r.value, if n == 0 then None else r, s, p)
            else Lookup(t, s).rest < p
    decreases n
  {
    hide Part, Parse, Matches, TypeName;
    if n > 0 {
      var up := t[n].parent.value;
      var q, p := |Path(t, up)|, |Path(t, n)|;
      assert s[..q] == s[..p][..q] == Path(t, up);
      PathIsRead(t, up, s);
      assert s[q..p] == s[..p][q..] == Part(t[n]);
      PartParses(s, q, t[n]);
      assert |Part(t[n])| > 0 by { PartNotEmpty(t[n]); }
    }
  }

  lemma PartNotEmpty(i: Info)
    ensures |Part(i)| > 0
  {
  }

  /** On the way from the root to `n` every node is the first among its siblings of its name and key. */
  ghost predicate FirstOfItsName(t: seq<Info>, n: nat)
    requires Rooted(t) && n < |t|
  {
    n == 0 || (FindFrom(t, t[n].parent.value, TypeName(t[n].kind), t[n].key, 0) == Some(n)
               && FirstOfItsName(t, t[n].parent.value))
  }

  lemma {:induction false} ReachedIff(t: seq<Info>, n: nat)
    requires Rooted(t) && n < |t|
    ensures Reached(t, n) == Some(n) <==> FirstOfItsName(t, n)
    decreases n
  {
    hide Matches;
    if n > 0 {
      ReachedIff(t, t[n].parent.value);
    }
  }

  /** A printed path finds its node, with nothing left over, exactly when each node on the way is
      the first of its name and key among its siblings. */
  lemma PathFindsNodeIff(t: seq<Info>, n: nat)
    requires Rooted(t) && 0 < n < |t|
    ensures Lookup(t, Path(t, n)) == Hit(Some(n), |Path(t, n)|) <==> FirstOfItsName(t, n)
  {
    hide Parse, Matches, Path;
    ReachedIff(t, n);
    PathIsRead(t, n, Path(t, n));
  }

  // ---- paths cut to a buffer -------------------------------------------------------------------

  ghost function Depth(t: seq<Info>, n: nat): nat
    requires Rooted(t) && n < |t|
  {
    if n == 0 then 0 else 1 + Depth(t, t[n].parent.value)
  }

  /** How many brackets are closed. */
  function Closings(s: string): nat {
    if s == "" then 0 else Closings(s[..|s| - 1]) + if s[|s| - 1] == ')' then 1 else 0
  }

  lemma {:induction false} ClosingsAdd(a: string, b: string)
    ensures Closings(a + b) == Closings(a) + Closings(b)
  {
    if b == "" {
      assert a + b == a;
    } else {
      assert (a + b)[..|a + b| - 1] == a + b[..|b| - 1];
      ClosingsAdd(a, b[..|b| - 1]);
    }
  }

  lemma {:induction false} NoClosings(s: string)
    requires forall i :: 0 <= i < |s| ==> s[i] != ')'
    ensures Closings(s) == 0
  {
    if s != "" {
      NoClosings(s[..|s| - 1]);
    }
  }

  lemma NamesCloseNothing(k: Kind)
    ensures forall i :: 0 <= i < |TypeName(k)| ==> TypeName(k)[i] != ')'
  {
  }

  /** A path closes one bracket per level, the last at its end. */
  lemma {:induction false} PathCloses(t: seq<Info>, n: nat)
    requires Rooted(t) && n < |t|
    ensures Closings(Path(t, n)) == Depth(t, n)
    ensures n > 0 ==> Path(t, n) != "" && Closings(Path(t, n)[..|Path(t, n)| - 1]) == Depth(t, n) - 1
    decreases n
  {
    hide TypeName, Decimal, Closings;
    if n == 0 {
      NoClosings("");
    } else {
      var up, i := Path(t, t[n].parent.value), t[n];
      var front := TypeName(i.kind) + "(" + Decimal(i.key);
      PathCloses(t, t[n].parent.value);
      NamesCloseNothing(i.kind);
      NoClosings(front);
      assert Path(t, n) == (up + front) + ")" && Path(t, n)[..|Path(t, n)| - 1] == up + front;
      ClosingsAdd(up, front);
      ClosingsAdd(up + front, ")");
      OneClosing();
    }
  }

  lemma OneClosing()
    ensures Closings(")") == 1
  {
    assert ")"[..0] == "";
  }

  /** A lookup gets one level down per bracket closed, at most. */
  lemma {:induction false} WalkDepth(t: seq<Info>, cur: nat, best: Option<nat>, s: string, at: nat)
    requires Rooted(t) && cur < |t| && at <= |s| && (best.Some? ==> best.value == cur)
    ensures var h := Walk(t, cur, best, s, at).node;
            h.Some? ==> h.value < |t| && Depth(t, h.value) <= Depth(t, cur) + Closings(s[at..])
    decreases |s| - at
  {
    hide Matches, Closings, TypeName, Parse;
    var c := Parse(s, at);
    if at < |s| && c.Some? {
      var k := FindFrom(t, cur, c.value.name, c.value.key, 0);
      if k.Some? {
        ParseCloses(s, at);
        WalkDepth(t, k.value, k, s, c.value.end);
        assert s[at..] == s[at..c.value.end] + s[c.value.end..];
        ClosingsAdd(s[at..c.value.end], s[c.value.end..]);
      }
    }
  }

  lemma ParseCloses(s: string, at: nat)
    requires at <= |s| && Parse(s, at).Some?
    ensures Closings(s[at..Parse(s, at).value.end]) > 0
  {
    hide Atoul, NameEnd;
    var read := s[at..Parse(s, at).value.end];
    assert read[|read| - 1] == ')';
  }

  /** The path of a node, cut to a buffer, finds the node with nothing left over exactly when nothing
      was cut and each node on the way is the first of its name and key. */
  lemma FittedPathFindsNodeIff(t: seq<Info>, n: nat, len: nat)
    requires Rooted(t) && 0 < n < |t| && len > 0
    ensures var s := Fitted(Path(t, n), len);
            Lookup(t, s) == Hit(Some(n), |s|) <==> |Path(t, n)| < len && FirstOfItsName(t, n)
  {
    hide Parse, Matches, Path, Closings, Walk, FirstOfItsName;
    PathFindsNodeIff(t, n);
    if |Path(t, n)| >= len {
      var all, s := Path(t, n), Path(t, n)[..len - 1];
      PathCloses(t, n);
      assert all[..|all| - 1] == s + all[len - 1..|all| - 1];
      ClosingsAdd(s, all[len - 1..|all| - 1]);
      WalkDepth(t, 0, None, s, 0);
      assert s[0..] == s;
    }
  }

  /** No two children of a node share name and key. */
  ghost predicate SiblingsDiffer(t: seq<Info>) {
    forall i, j :: 0 <= i < j < |t| && t[i].parent == t[j].parent ==> !Matches(t[i], TypeName(t[j].kind), t[j].key)
  }

  lemma {:induction false} DifferingAreFirst(t: seq<Info>, n: nat)
    requires Rooted(t) && n < |t| && SiblingsDiffer(t)
    ensures FirstOfItsName(t, n)
    decreases n
  {
    if n > 0 {
      DifferingAreFirst(t, t[n].parent.value);
      assert Matches(t[n], TypeName(t[n].kind), t[n].key);
    }
  }

  /** In a tree whose siblings differ, a node's path with a suffix the lookup does not take for a
      child finds the node and leaves exactly the suffix. */
  lemma PathAndRest(t: seq<Info>, n: nat, suffix: string)
    requires Rooted(t) && 0 < n < |t| && SiblingsDiffer(t)
    requires var p := |Path(t, n)|;
             var c := Parse(Path(t, n) + suffix, p);
             suffix == "" || c.None? || FindFrom(t, n, c.value.name, c.value.key, 0).None?
    ensures Lookup(t, Path(t, n) + suffix) == Hit(Some(n), |Path(t, n)|)
  {
    hide Parse, Matches, Path, FindFrom, FirstOfItsName;
    DifferingAreFirst(t, n);
    ReachedIff(t, n);
    PathIsRead(t, n, Path(t, n) + suffix);
  }

  /** A partition, in letters of either case, and a file name are never taken for a child. */
  lemma PartitionStops(pre: string, word: string, digits: string, file: string)
    requires SameName(word, "partition") && forall i :: 0 <= i < |digits| ==> IsDigit(digits[i])
    ensures Parse(pre + (word + "(" + digits + ")" + file), |pre|).None?
  {
    var s, p := pre + (word + "(" + digits + ")" + file), |pre|;
    NoBracket(word);
    assert forall j :: 0 <= j < 9 ==> s[p + j] == word[j];
    assert s[p + 9] == '(';
    NameEndIs(s, p, 9, NAME_MAX);
    assert s[p..p + 9] == word;
  }

  lemma NoBracket(word: string)
    requires SameName(word, "partition")
    ensures |word| == 9 && forall j :: 0 <= j < 9 ==> word[j] != '('
  {
    var p := "partition";
    forall j | 0 <= j < 9
      ensures word[j] != '('
    {
      assert Upper(word[j]) == Upper(p[j]) && 'a' <= p[j] <= 'z';
    }
  }

  /** Loader paths: a device's path, a partition of it and a file there. */
  lemma PartitionPathFindsDevice(t: seq<Info>, n: nat, word: string, number: u32, file: string)
    requires Rooted(t) && 0 < n < |t| && SiblingsDiffer(t) && SameName(word, "partition")
    ensures Lookup(t, Path(t, n) + (word + "(" + Decimal(number) + ")" + file)) == Hit(Some(n), |Path(t, n)|)
  {
    PartitionStops(Path(t, n), word, Decimal(number), file);
    PathAndRest(t, n, word + "(" + Decimal(number) + ")" + file);
  }

  // ---- the linked tree -------------------------------------------------------------------------

  class Node {
    const parent: Node?
    const kind: Kind
    const key: u32
    var child: Node?
    var peer: Node?

    constructor (above: Node?, what: Kind, number: u32)
      ensures parent == above && kind == what && key == number && child == null && peer == null
    {
      parent, kind, key := above, what, number;
      child, peer := null, null;
    }
  }

  ghost function At(nodes: seq<Node>, k: Option<nat>): Node? {
    if k.Some? && k.value < |nodes| then nodes[k.value] else null
  }

  /** Node `i` of the heap is node `i` of the tree. */
  ghost predicate Linked(nodes: seq<Node>, t: seq<Info>, i: nat)
    requires i < |nodes| == |t| && Rooted(t)
    reads nodes[i]
  {
    && nodes[i].kind == t[i].kind && nodes[i].key == t[i].key
    && nodes[i].parent == At(nodes, t[i].parent)
    && nodes[i].child == At(nodes, FirstFrom(t, i, 0))
    && nodes[i].peer == At(nodes, if i == 0 then None else FirstFrom(t, t[i].parent.value, i + 1))
  }

  lemma {:induction false} FirstFromFinds(t: seq<Info>, p: nat, from: nat, j: nat)
    requires from <= j < |t| && t[j].parent == Some(p)
    ensures FirstFrom(t, p, from).Some? && FirstFrom(t, p, from).value <= j
    decreases j - from
  {
    if from < j && t[from].parent != Some(p) {
      FirstFromFinds(t, p, from + 1, j);
    }
  }

  /** A new node comes last among its siblings and changes no other list. */
  lemma {:induction false} FirstFromGrows(t: seq<Info>, x: Info, p: nat, from: nat)
    requires from <= |t|
    ensures FirstFrom(t + [x], p, from) ==
            var k := FirstFrom(t, p, from);
            if k.Some? then k else if x.parent == Some(p) then Some(|t|) else None
    decreases |t| - from
  {
    if from < |t| {
      FirstFromGrows(t, x, p, from + 1);
    } else {
      assert FirstFrom(t + [x], p, |t| + 1) == None;
    }
  }

  /** `last` is the last child of `p`, if it has any. */
  ghost predicate IsLastChild(t: seq<Info>, p: Option<nat>, last: Option<nat>) {
    p.Some? ==>
      if last.None? then FirstFrom(t, p.value, 0).None?
      else last.value < |t| && t[last.value].parent == p && FirstFrom(t, p.value, last.value + 1).None?
  }

  /** A child with no brother behind it is the last. */
  lemma LastIsLast(t: seq<Info>, p: Option<nat>, last: Option<nat>, i: nat)
    requires Rooted(t) && IsLastChild(t, p, last) && 0 < i < |t| && p.Some? && t[i].parent == p
    ensures FirstFrom(t, p.value, i + 1).None? <==> last == Some(i)
  {
    if last.None? {
      FirstFromFinds(t, p.value, 0, i);
    } else if last.value < i {
      FirstFromFinds(t, p.value, last.value + 1, i);
    } else if i < last.value {
      FirstFromFinds(t, p.value, i + 1, last.value);
    }
  }

  lemma {:induction false} NoChildBelow(t: seq<Info>, p: nat, from: nat)
    requires Rooted(t) && |t| <= p
    ensures FirstFrom(t, p, from) == None
    decreases |t| - from
  {
    if from < |t| {
      NoChildBelow(t, p, from + 1);
    }
  }

  lemma NewIsLast(t: seq<Info>, x: Info)
    requires Rooted(t) && Rooted(t + [x])
    ensures FirstFrom(t + [x], |t|, 0) == None
    ensures x.parent.Some? ==> FirstFrom(t + [x], x.parent.value, |t| + 1) == None
  {
    NoChildBelow(t, |t|, 0);
    FirstFromGrows(t, x, |t|, 0);
  }

  lemma RootIsNoChild(t: seq<Info>)
    ensures Rooted(t) ==> (|t| > 0 ==> t[0].parent.None?)
  {
  }

  lemma RootedGrows(t: seq<Info>, x: Info)
    requires Rooted(t) && (if x.parent.None? then t == [] else x.parent.value < |t|)
    ensures Rooted(t + [x])
  {
  }

  lemma ChildAfter(t: seq<Info>, x: Info, i: nat, last: Option<nat>)
    requires Rooted(t) && IsLastChild(t, x.parent, last) && i < |t|
    ensures FirstFrom(t + [x], i, 0) == if last.None? && x.parent == Some(i) then Some(|t|) else FirstFrom(t, i, 0)
  {
    FirstFromGrows(t, x, i, 0);
    if last.Some? && x.parent == Some(i) {
      FirstFromFinds(t, i, 0, last.value);
    }
  }

  lemma PeerAfter(t: seq<Info>, x: Info, i: nat, last: Option<nat>)
    requires Rooted(t) && IsLastChild(t, x.parent, last) && i < |t| && x.parent.Some?
    ensures i > 0 ==> t[i].parent.Some?
    ensures i > 0 ==>
              var up := t[i].parent.value;
              FirstFrom(t + [x], up, i + 1) == if last == Some(i) then Some(|t|) else FirstFrom(t, up, i + 1)
    ensures last != Some(0)
  {
    if i > 0 {
      FirstFromGrows(t, x, t[i].parent.value, i + 1);
      if t[i].parent == x.parent {
        LastIsLast(t, x.parent, last, i);
      }
    }
  }

  /** Between a child and the next there is no match to miss. */
  lemma {:induction false} FindSkips(t: seq<Info>, p: nat, name: string, key: u32, from: nat)
    ensures var k := FirstFrom(t, p, from);
            FindFrom(t, p, name, key, from) ==
            if k.None? then None
            else if Matches(t[k.value], name, key) then k
            else FindFrom(t, p, name, key, k.value + 1)
    decreases |t| - from
  {
    hide Matches;
    if from < |t| && t[from].parent != Some(p) {
      FindSkips(t, p, name, key, from + 1);
    }
  }

  /** An older node once its links are what Append leaves. */
  lemma StillLinked(nodes: seq<Node>, n: Node, t: seq<Info>, x: Info, i: nat, last: Option<nat>, child: Node?, peer: Node?)
    requires i < |nodes| == |t| && Rooted(t) && Rooted(t + [x]) && IsLastChild(t, x.parent, last) && x.parent.Some?
    requires nodes[i].kind == t[i].kind && nodes[i].key == t[i].key && nodes[i].parent == At(nodes, t[i].parent)
    requires child == At(nodes, FirstFrom(t, i, 0))
    requires peer == At(nodes, if i == 0 then None else FirstFrom(t, t[i].parent.value, i + 1))
    requires nodes[i].child == if last.None? && x.parent == Some(i) then n else child
    requires nodes[i].peer == if last == Some(i) then n else peer
    ensures Linked(nodes + [n], t + [x], i)
  {
    hide FirstFrom, IsLastChild, TypeName;
    ChildAfter(t, x, i, last);
    PeerAfter(t, x, i, last);
  }

  class Config {
    var root: Node?
    ghost var nodes: seq<Node>
    ghost var tree: seq<Info>

    ghost predicate Valid()
      reads this, nodes
    {
      && |nodes| == |tree| && Rooted(tree)
      && (forall i, j :: 0 <= i < j < |nodes| ==> nodes[i] != nodes[j])
      && (forall i :: 0 <= i < |nodes| ==> Linked(nodes, tree, i))
      && root == At(nodes, Some(0))
    }

    constructor ()
      ensures Valid() && tree == []
    {
      root, nodes, tree := null, [], [];
    }

    /** new_node: the node goes to the end of its parent's list; the first of all is the root. */
    method NewNode(parent: Node?, ghost p: Option<nat>, kind: Kind, key: u32) returns (n: Node)
      requires Valid()
      requires if p.None? then parent == null && tree == [] else p.value < |nodes| && parent == nodes[p.value]
      modifies this, nodes
      ensures Valid() && fresh(n)
      ensures nodes == old(nodes) + [n] && tree == old(tree) + [Info(p, kind, key)]
    {
      hide FirstFrom, TypeName, Rooted, IsLastChild;
      n := new Node(parent, kind, key);
      ghost var t, x, was := tree, Info(p, kind, key), nodes;
      RootedGrows(t, x);
      ghost var last: Option<nat> := None;
      if parent != null {
        last := Append(parent, p.value, n);
      } else {
        root := n;
      }
      nodes, tree := nodes + [n], tree + [x];
      NewIsLast(t, x);
      forall i | 0 <= i < |nodes|
        ensures Linked(nodes, tree, i)
      {
        if i < |was| {
          assert old(Linked(nodes, tree, i));
          StillLinked(was, n, t, x, i, last, old(nodes[i].child), old(nodes[i].peer));
        }
      }
    }

    /** Put `n` behind the last child of `parent`; `last` is that child. */
    method Append(parent: Node, ghost p: nat, n: Node) returns (ghost last: Option<nat>)
      requires Valid() && p < |nodes| && parent == nodes[p]
      modifies nodes
      ensures IsLastChild(tree, Some(p), last)
      ensures forall i :: 0 <= i < |nodes| ==> nodes[i].child == if last.None? && i == p then n else old(nodes[i].child)
      ensures forall i :: 0 <= i < |nodes| ==> nodes[i].peer == if last == Some(i) then n else old(nodes[i].peer)
    {
      hide FirstFrom, TypeName, Rooted;
      assert Linked(nodes, tree, p);
      last := FirstFrom(tree, p, 0);
      if parent.child == null {
        parent.child := n;
      } else {
        var c := parent.child;
        RootIsNoChild(tree);
        while c.peer != null
          invariant last.Some? && last.value < |nodes| && c == nodes[last.value] && tree[last.value].parent == Some(p)
          decreases |nodes| - last.value
        {
          assert Linked(nodes, tree, last.value);
          last := FirstFrom(tree, p, last.value + 1);
          c := c.peer;
        }
        assert Linked(nodes, tree, last.value);
        c.peer := n;
      }
    }

    /** config_lookup: the deepest node the path names and where the rest of the path starts. */
    method Find(path: string) returns (best: Node?, rest: nat)
      requires Valid() && root != null
      ensures Lookup(tree, path).node.Some? ==> Lookup(tree, path).node.value < |nodes|
      ensures best == At(nodes, Lookup(tree, path).node) && rest == Lookup(tree, path).rest
    {
      hide Parse, FindFrom, Rooted, Linked, TypeName;
      var cur: Node, p := root, 0;
      ghost var at: nat := 0;
      best, rest := null, 0;
      ghost var found: Option<nat> := None;
      while p < |path|
        invariant p <= |path| && rest == p && at < |nodes| && cur == nodes[at]
        invariant best == At(nodes, found) && (found.Some? ==> found.value < |nodes|)
        invariant Lookup(tree, path) == Walk(tree, at, found, path, p)
        decreases |path| - p
      {
        var c := NextComponent(path, p);
        if c.None? {
          break;
        }
        var n: Node?;
        n, found := FindChild(cur, at, c.value.name, c.value.key, found);
        if n == null {
          break;
        }
        at := found.value;
        cur, best, p := n, n, c.value.end;
        rest := p;
      }
    }

    /** The first child of `cur` with this name and key. */
    method FindChild(cur: Node, ghost at: nat, name: string, key: u32, ghost before: Option<nat>)
      returns (found: Node?, ghost k: Option<nat>)
      requires Valid() && at < |nodes| && cur == nodes[at]
      ensures var hit := FindFrom(tree, at, name, key, 0);
              && (hit.Some? ==> hit.value < |nodes|) && found == At(nodes, hit)
              && k == if hit.Some? then hit else before
    {
      hide FirstFrom, FindFrom, TypeName, SameName, Matches, Rooted;
      found := cur.child;
      assert Linked(nodes, tree, at);
      k := FirstFrom(tree, at, 0);
      FindSkips(tree, at, name, key, 0);
      RootIsNoChild(tree);
      while found != null
        invariant k.Some? == (found != null) && (k.Some? ==> k.value < |nodes| && tree[k.value].parent == Some(at) && found == nodes[k.value])
        invariant FindFrom(tree, at, name, key, 0) ==
                  if k.None? then None
                  else if Matches(tree[k.value], name, key) then k
                  else FindFrom(tree, at, name, key, k.value + 1)
        decreases if k.None? then 0 else |nodes| - k.value
      {
        assert Linked(nodes, tree, k.value);
        MatchesIs(tree[k.value], name, key);
        if SameName(TypeName(found.kind), name) && found.key == key {
          return;
        }
        FindSkips(tree, at, name, key, k.value + 1);
        k := FirstFrom(tree, at, k.value + 1);
        found := found.peer;
      }
      k := before;
    }

    /** config_node_path: the path of `n`, as far as it fits the buffer. */
    method NodePath(n: Node, ghost i: nat, len: nat) returns (buf: string)
      requires Valid() && i < |nodes| && n == nodes[i] && len > 0
      ensures buf == Fitted(Path(tree, i), len)
      ensures buf <= Path(tree, i) && |buf| == Min(|Path(tree, i)|, len - 1)
      decreases i
    {
      hide FirstFrom, TypeName, Decimal;
      assert Linked(nodes, tree, i);
      if n.parent == null {
        return "";
      }
      buf := NodePath(n.parent, tree[i].parent.value, len);
      var digits := EmitNum(n.key);
      buf := buf + Fitted(TypeName(n.kind) + "(" + digits + ")", len - |buf|);
      FittedAppend(Path(tree, tree[i].parent.value), Part(tree[i]), len);
    }
  }

  /** Printing a node's path into a buffer of `len` characters and looking it up: the node comes back,
      all of the path read, exactly when the path fits and each node on the way is the first of its
      name and key. */
  method PrintAndFind(config: Config, n: Node, ghost i: nat, len: nat) returns (best: Node?, rest: nat, size: nat)
    requires config.Valid() && 0 < i < |config.nodes| && n == config.nodes[i] && len > 0
    ensures size == Min(|Path(config.tree, i)|, len - 1)
    ensures best == n && rest == size <==> |Path(config.tree, i)| < len && FirstOfItsName(config.tree, i)
  {
    hide Path, Walk, FirstOfItsName;
    var buf := config.NodePath(n, i, len);
    FittedPathFindsNodeIff(config.tree, i, len);
    best, rest := config.Find(buf);
    size := |buf|;
  }

  lemma MatchesIs(i: Info, name: string, key: u32)
    ensures Matches(i, name, key) == (SameName(TypeName(i.kind), name) && i.key == key)
  {
  }

  /** Printing at the end of what already fitted is printing it all and fitting it once. */
  lemma FittedAppend(s: string, t: string, len: nat)
    ensures len > 0 ==> |Fitted(s, len)| < len
    ensures len > 0 ==> Fitted(s, len) + Fitted(t, len - |Fitted(s, len)|) == Fitted(s + t, len)
  {
  }

  /** emit_num with base 10: digits from the right into a scratch buffer, then out in order. */
  method EmitNum(v: u32) returns (s: string)
    ensures s == Decimal(v)
  {
    hide Decimal;
    var tmp: string, w: nat := "", v;
    ghost var out := "";
    DecimalStep(w, out);
    while w >= 10
      invariant Decimal(w) + out == Decimal(v)
      invariant |tmp| == |out| && forall k :: 0 <= k < |tmp| ==> tmp[k] == out[|out| - 1 - k]
      decreases w
    {
      DecimalStep(w, out);
      tmp, out := tmp + [Digit(w % 10)], [Digit(w % 10)] + out;
      w := w / 10;
    }
    DecimalStep(w, out);
    tmp, out := tmp + [Digit(w % 10)], [Digit(w % 10)] + out;
    s := "";
    var i := |tmp|;
    while i > 0
      invariant 0 <= i <= |tmp| && s == out[..|tmp| - i]
    {
      i := i - 1;
      s := s + [tmp[i]];
    }
  }

  lemma DecimalStep(w: nat, out: string)
    ensures Decimal(w) + "" == Decimal(w)
    ensures Decimal(w) + out == (if w < 10 then "" else Decimal(w / 10)) + ([Digit(w % 10)] + out)
  {
  }

  /** One turn of the lookup's parsing: a name of at most fifteen characters, a bracketed number. */
  method NextComponent(path: string, at: nat) returns (c: Option<Component>)
    requires at <= |path|
    ensures c == Parse(path, at)
  {
    hide NameEnd, Atoul, SameName;
    var name, p: nat := "", at;
    NameEndStep(path, at, NAME_MAX);
    while p < |path| && path[p] != '(' && |name| < NAME_MAX
      invariant at <= p <= |path| && name == path[at..p] && |name| <= NAME_MAX
      invariant NameEnd(path, at, NAME_MAX) == NameEnd(path, p, NAME_MAX - |name|)
      decreases |path| - p
    {
      NameEndStep(path, p, NAME_MAX - |name|);
      name := name + [path[p]];
      p := p + 1;
    }
    NameEndStep(path, p, NAME_MAX - |name|);
    if p == |path| || path[p] != '(' {
      return None;
    }
    var key, q := ParseNumber(path, p + 1);
    if q == |path| || path[q] != ')' || SameName(name, "partition") {
      return None;
    }
    c := Some(Component(name, key, q + 1));
  }

  lemma NameEndStep(s: string, at: nat, room: nat)
    requires at <= |s|
    ensures NameEnd(s, at, room) ==
            if at < |s| && s[at] != '(' && room > 0 then NameEnd(s, at + 1, room - 1) else at
  {
  }

  method ParseNumber(s: string, at: nat) returns (v: u32, end: nat)
    requires at <= |s|
    ensures (v, end) == Atoul(s, at, 0)
  {
    v, end := 0, at;
    while end < |s| && IsDigit(s[end])
      invariant at <= end <= |s| && Atoul(s, at, 0) == Atoul(s, end, v)
      decreases |s| - end
    {
      v := (v * 10 + Value(s[end])) % WORD;
      end := end + 1;
    }
  }
}
