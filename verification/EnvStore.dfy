/** The ARC environment: NAME=value strings packed end to end in 2048 bytes, closed by one empty
    string, as HalGetEnvironmentVariable and HalSetEnvironmentVariable keep it. */
module EnvStore {
  import opened Words

  const ENV_SIZE := 2048
  const NUL := '\0'

  datatype Status = ESUCCESS | EINVAL | ENOENT | ENOMEM | ENOSPC

  /** A C string: its characters up to, and without, the terminator. */
  type CString = s: string | NUL !in s witness ""

  // ---- what the store means --------------------------------------------------------------------

  /** An entry's text up to its first '=' and after it. */
  datatype Entry = Entry(name: CString, value: CString)
  {
    ghost predicate Valid() { '=' !in name }

    function Text(): CString { name + ['='] + value }
  }

  function UpperChar(c: char): char { if 'a' <= c <= 'z' then c - 'a' + 'A' else c }

  function Upper(s: string): (u: string)
    ensures |u| == |s| && forall i :: 0 <= i < |s| ==> u[i] == UpperChar(s[i])
  {
    seq(|s|, i requires 0 <= i < |s| => UpperChar(s[i]))
  }

  ghost predicate SameName(a: string, b: string) { Upper(a) == Upper(b) }

  /** The first entry of that name, or |entries|. */
  ghost function Find(entries: seq<Entry>, name: string): (i: nat)
    ensures i <= |entries|
    ensures i < |entries| ==> SameName(entries[i].name, name)
    ensures forall j :: 0 <= j < i ==> !SameName(entries[j].name, name)
  {
    if entries == [] then 0
    else if SameName(entries[0].name, name) then 0
    else 1 + Find(entries[1..], name)
  }

  ghost function Value(entries: seq<Entry>, name: string): Option<CString> {
    var i := Find(entries, name);
    if i < |entries| then Some(entries[i].value) else None
  }

  ghost function Without(entries: seq<Entry>, name: string): seq<Entry> {
    var i := Find(entries, name);
    if i < |entries| then entries[..i] + entries[i + 1..] else entries
  }

  /** What "name=value" reads back as: the split is at the first '=' of the whole. */
  ghost function Split(name: CString, value: CString): (e: Entry)
    ensures e.Valid() && e.Text() == name + ['='] + value
    ensures '=' !in name <==> e.name == name
    ensures '=' !in name ==> e.value == value
  {
    if '=' !in name then Entry(name, value)
    else if name[0] == '=' then
      assert name == ['='] + name[1..];
      Entry("", name[1..] + ['='] + value)
    else
      var rest := Split(name[1..], value);
      assert name == [name[0]] + name[1..];
      assert [name[0]] + (rest.name + ['='] + rest.value) == ([name[0]] + rest.name) + ['='] + rest.value;
      assert [name[0]] + (name[1..] + ['='] + value) == name + ['='] + value;
      Entry([name[0]] + rest.name, rest.value)
  }

  ghost function Packed(entries: seq<Entry>): string {
    if entries == [] then "" else entries[0].Text() + [NUL] + Packed(entries[1..])
  }

  datatype SetResult = SetResult(entries: seq<Entry>, status: Status)

  ghost function SetSpec(entries: seq<Entry>, name: CString, value: CString): SetResult {
    var rest := Without(entries, name);
    if value == "" then SetResult(rest, ESUCCESS)
    else if |Packed(rest)| + |name| + 1 + |value| + 2 > ENV_SIZE then SetResult(rest, ENOSPC)
    else SetResult(rest + [Split(name, value)], ESUCCESS)
  }

  // ---- a case-insensitive map ------------------------------------------------------------------

  /** At most one entry per name. */
  ghost predicate Unique(entries: seq<Entry>) {
    forall i, j :: 0 <= i < j < |entries| ==> !SameName(entries[i].name, entries[j].name)
  }

  ghost predicate Represents(entries: seq<Entry>, m: map<string, CString>) {
    && Unique(entries)
    && forall name: CString :: Value(entries, name) == if Upper(name) in m then Some(m[Upper(name)]) else None
  }

  /** One call's effect on the map the store stands for. */
  ghost function MapSet(m: map<string, CString>, name: CString, value: CString, status: Status): map<string, CString> {
    if status == ESUCCESS && value != "" then m[Upper(name) := value] else m - {Upper(name)}
  }

  lemma WithoutRemovesOne(entries: seq<Entry>, name: CString)
    requires Unique(entries)
    ensures Unique(Without(entries, name))
    ensures forall other: CString :: Value(Without(entries, name), other) ==
              if SameName(name, other) then None else Value(entries, other)
  {
    hide Find, Value, SameName;
    WithoutIs(entries, name);
    forall other: CString
      ensures Value(Without(entries, name), other) == if SameName(name, other) then None else Value(entries, other)
    {
      WithoutValue(entries, name, other);
    }
  }

  /** Without keeps every entry but those of the name, in order. */
  lemma WithoutIs(entries: seq<Entry>, name: CString)
    requires Unique(entries)
    ensures var rest := Without(entries, name);
            && Unique(rest)
            && (forall j :: 0 <= j < |rest| ==> rest[j] in entries && !SameName(rest[j].name, name))
            && (forall j :: 0 <= j < |entries| && !SameName(entries[j].name, name) ==> entries[j] in rest)
  {
    hide Upper, SameName, Find;
    var i, rest := Find(entries, name), Without(entries, name);
    if i < |entries| {
      FoundIsOnly(entries, name, i);
      forall j | 0 <= j < |rest|
        ensures rest[j] in entries && !SameName(rest[j].name, name)
      {
        assert rest[j] == entries[if j < i then j else j + 1];
      }
      forall j | 0 <= j < |entries| && !SameName(entries[j].name, name)
        ensures entries[j] in rest
      {
        assert entries[j] == rest[if j < i then j else j - 1];
      }
      assert forall j :: 0 <= j < |rest| ==> rest[j] == entries[if j < i then j else j + 1];
    }
  }

  lemma FoundIsOnly(entries: seq<Entry>, name: CString, i: nat)
    requires Unique(entries) && i < |entries| && SameName(entries[i].name, name)
    ensures forall j :: 0 <= j < |entries| && j != i ==> !SameName(entries[j].name, name)
  {
    hide Upper;
  }

  lemma WithoutValue(entries: seq<Entry>, name: CString, other: CString)
    requires Unique(entries)
    ensures Value(Without(entries, name), other) == if SameName(name, other) then None else Value(entries, other)
  {
    hide Find, Value, Without, Upper;
    var rest := Without(entries, name);
    WithoutIs(entries, name);
    ValueIs(entries, other);
    ValueIs(rest, other);
    if j :| 0 <= j < |entries| && SameName(entries[j].name, other) && !SameName(name, other) {
      assert entries[j] in rest;
    }
  }

  /** In a store with unique names, any entry of the name is the one that is found. */
  lemma ValueIs(entries: seq<Entry>, name: CString)
    requires Unique(entries)
    ensures forall j :: 0 <= j < |entries| && SameName(entries[j].name, name) ==> Value(entries, name) == Some(entries[j].value)
    ensures (forall j :: 0 <= j < |entries| ==> !SameName(entries[j].name, name)) ==> Value(entries, name) == None
  {
  }

  lemma AppendAdds(entries: seq<Entry>, e: Entry)
    requires Unique(entries) && Value(entries, e.name) == None
    ensures Unique(entries + [e])
    ensures forall name: CString :: Value(entries + [e], name) ==
              if SameName(e.name, name) then Some(e.value) else Value(entries, name)
  {
    var all := entries + [e];
    forall name: CString
      ensures Value(all, name) == if SameName(e.name, name) then Some(e.value) else Value(entries, name)
    {
      ValueIs(all, name);
      ValueIs(entries, name);
      if SameName(e.name, name) {
        assert all[|entries|] == e;
      } else if j :| 0 <= j < |entries| && SameName(entries[j].name, name) {
        assert all[j] == entries[j];
      }
    }
  }

  /** Entries as the store holds them. */
  ghost predicate Proper(entries: seq<Entry>) {
    forall i :: 0 <= i < |entries| ==> entries[i].Valid()
  }

  /** One set refines the map: a successful nonempty value is stored, an empty one deletes, and a
      refused one (ENOSPC) removes exactly the variable it named.  Only a value stored under a name
      that has an '=' is not in the store's map. */
  lemma SetRefinesMapIff(entries: seq<Entry>, m: map<string, CString>, name: CString, value: CString)
    requires Represents(entries, m) && Proper(entries)
    ensures var r := SetSpec(entries, name, value);
            Represents(r.entries, MapSet(m, name, value, r.status)) <==>
            !('=' in name && value != "" && r.status == ESUCCESS)
  {
    hide Packed, Split, Value, Without, Unique, SameName;
    var r := SetSpec(entries, name, value);
    if '=' !in name || value == "" || r.status != ESUCCESS {
      SetRefinesMap(entries, m, name, value);
    } else {
      WithoutRemovesOne(entries, name);
      NeverFound(r.entries, name) by { StaysProper(entries, name, value); }
    }
  }

  lemma SetRefinesMap(entries: seq<Entry>, m: map<string, CString>, name: CString, value: CString)
    requires Represents(entries, m)
    requires '=' !in name || value == "" || SetSpec(entries, name, value).status != ESUCCESS
    ensures var r := SetSpec(entries, name, value);
            Represents(r.entries, MapSet(m, name, value, r.status))
  {
    hide Packed, Split, Value, Without, Unique;
    WithoutRemovesOne(entries, name);
    var rest := Without(entries, name);
    assert Represents(rest, m - {Upper(name)});
    var r := SetSpec(entries, name, value);
    if r.status == ESUCCESS && value != "" {
      AppendAdds(rest, Split(name, value));
      assert r.entries == rest + [Split(name, value)];
    } else {
      assert r.entries == rest;
    }
  }

  lemma StaysProper(entries: seq<Entry>, name: CString, value: CString)
    requires Proper(entries)
    ensures Proper(SetSpec(entries, name, value).entries)
  {
    hide Packed, Find, SameName, Entry.Valid;
  }

  /** Nothing in the store is ever found under a name that has an '='. */
  lemma NeverFound(entries: seq<Entry>, name: CString)
    requires Proper(entries) && '=' in name
    ensures Value(entries, name) == None && Without(entries, name) == entries
  {
    hide SameName;
    var i := Find(entries, name);
    if i < |entries| {
      assert entries[i].Valid();
      EqualsSignNeverMatches(entries[i].name, name);
      assert false;
    }
  }

  datatype Call = Call(name: CString, value: CString)

  ghost function SetAll(entries: seq<Entry>, calls: seq<Call>): seq<Entry>
    decreases |calls|
  {
    if calls == [] then entries
    else SetAll(SetSpec(entries, calls[0].name, calls[0].value).entries, calls[1..])
  }

  /** The map after a history of calls, each known by what it answered. */
  ghost function MapAll(entries: seq<Entry>, m: map<string, CString>, calls: seq<Call>): map<string, CString>
    decreases |calls|
  {
    if calls == [] then m
    else
      var r := SetSpec(entries, calls[0].name, calls[0].value);
      MapAll(r.entries, MapSet(m, calls[0].name, calls[0].value, r.status), calls[1..])
  }

  /** Any sequence of sets and deletes leaves the store reading as the map those calls describe, as
      long as no value is set under a name that has an '='; HistoryRefinesQueues is for all. */
  lemma {:induction false} HistoryRefinesMap(entries: seq<Entry>, m: map<string, CString>, calls: seq<Call>)
    requires Represents(entries, m)
    requires forall i :: 0 <= i < |calls| ==> '=' !in calls[i].name || calls[i].value == ""
    ensures Represents(SetAll(entries, calls), MapAll(entries, m, calls))
    decreases |calls|
  {
    if calls != [] {
      SetRefinesMap(entries, m, calls[0].name, calls[0].value);
      var r := SetSpec(entries, calls[0].name, calls[0].value);
      HistoryRefinesMap(r.entries, MapSet(m, calls[0].name, calls[0].value, r.status), calls[1..]);
    }
  }

  // ---- names with an '=' -----------------------------------------------------------------------

  /** Setting a name whose first '=' is its k-th character removes nothing, and what it adds is a
      variable of the name before that '='. */
  lemma SetWithEqualsSign(entries: seq<Entry>, name: CString, value: CString, k: nat)
    requires Proper(entries) && k < |name| && name[k] == '=' && '=' !in name[..k]
    ensures SetSpec(entries, name, value) ==
            if value == "" then SetResult(entries, ESUCCESS)
            else if |Packed(entries)| + |name| + 1 + |value| + 2 > ENV_SIZE then SetResult(entries, ENOSPC)
            else SetResult(entries + [Entry(name[..k], name[k + 1..] + ['='] + value)], ESUCCESS)
  {
    hide Packed, Without, Value, Split;
    NeverFound(entries, name);
    SplitAt(name, value, k);
  }

  lemma {:induction false} SplitAt(name: CString, value: CString, k: nat)
    requires k < |name| && name[k] == '=' && '=' !in name[..k]
    ensures Split(name, value) == Entry(name[..k], name[k + 1..] + ['='] + value)
    decreases k
  {
    if k > 0 {
      assert name[0] in name[..k];
      var rest: CString := name[1..];
      assert rest[..k - 1] == name[1..k] && forall c :: c in name[1..k] ==> c in name[..k];
      assert rest[k..] == name[k + 1..];
      SplitAt(rest, value, k - 1);
      assert [name[0]] + rest[..k - 1] == name[..k];
    }
  }

  /** The values of all entries of a name, first to last: only the first is ever read, and the next
      shows when that is removed. */
  ghost function Values(entries: seq<Entry>, name: string): seq<CString> {
    if entries == [] then []
    else (if SameName(entries[0].name, name) then [entries[0].value] else []) + Values(entries[1..], name)
  }

  ghost function Queue(q: map<string, seq<CString>>, name: string): seq<CString> {
    if Upper(name) in q then q[Upper(name)] else []
  }

  ghost predicate ReadsAs(entries: seq<Entry>, q: map<string, seq<CString>>) {
    forall name: CString :: Values(entries, name) == Queue(q, name)
  }

  /** One call on a map of queues: the name's first value goes, and a value set goes behind those of
      the name up to the first '='. */
  ghost function QueueSet(q: map<string, seq<CString>>, name: CString, value: CString, status: Status)
    : map<string, seq<CString>>
  {
    var was := Queue(q, name);
    var left := q[Upper(name) := if was == [] then [] else was[1..]];
    if value == "" || status != ESUCCESS then left
    else
      var e := Split(name, value);
      left[Upper(e.name) := Queue(left, e.name) + [e.value]]
  }

  lemma {:induction false} ValuesAppend(entries: seq<Entry>, e: Entry, name: string)
    ensures Values(entries + [e], name) == Values(entries, name) + if SameName(e.name, name) then [e.value] else []
    decreases |entries|
  {
    hide SameName;
    if entries == [] {
      assert entries + [e] == [e];
    } else {
      assert (entries + [e])[1..] == entries[1..] + [e];
      ValuesAppend(entries[1..], e, name);
      var own: seq<CString> := if SameName(entries[0].name, name) then [entries[0].value] else [];
      Rejoin(own, Values(entries[1..], name), if SameName(e.name, name) then [e.value] else []);
    }
  }

  lemma Rejoin<T>(a: seq<T>, b: seq<T>, c: seq<T>)
    ensures a + (b + c) == (a + b) + c
  {
  }

  /** Removing a variable removes its first value and no other. */
  lemma {:induction false} ValuesWithout(entries: seq<Entry>, name: string, other: string)
    ensures Values(Without(entries, name), other) ==
            if SameName(name, other) && Values(entries, other) != [] then Values(entries, other)[1..] else Values(entries, other)
    decreases |entries|
  {
    hide Upper;
    if entries != [] && !SameName(entries[0].name, name) {
      ValuesWithout(entries[1..], name, other);
      WithoutStep(entries, name);
      assert Without(entries, name)[1..] == Without(entries[1..], name);
    } else if entries != [] {
      assert Without(entries, name) == entries[1..];
    }
  }

  lemma WithoutStep(entries: seq<Entry>, name: string)
    requires entries != [] && !SameName(entries[0].name, name)
    ensures Without(entries, name) == [entries[0]] + Without(entries[1..], name)
  {
    hide SameName, Find, Without;
    FindStep(entries, name);
    WithoutDrops(entries, name);
    WithoutDrops(entries[1..], name);
    DropCons(entries, Find(entries[1..], name));
  }

  function Drop<T>(s: seq<T>, i: nat): seq<T> {
    if i < |s| then s[..i] + s[i + 1..] else s
  }

  lemma WithoutDrops(entries: seq<Entry>, name: string)
    ensures Without(entries, name) == Drop(entries, Find(entries, name))
  {
    hide SameName, Find;
  }

  lemma DropCons<T>(s: seq<T>, i: nat)
    requires s != []
    ensures Drop(s, 1 + i) == [s[0]] + Drop(s[1..], i)
  {
    if i < |s| - 1 {
      assert s[..i + 1] == [s[0]] + s[1..][..i];
      assert s[i + 2..] == s[1..][i + 1..];
    } else {
      assert s == [s[0]] + s[1..];
    }
  }

  lemma FindStep(entries: seq<Entry>, name: string)
    requires entries != [] && !SameName(entries[0].name, name)
    ensures Find(entries, name) == 1 + Find(entries[1..], name)
  {
    hide SameName;
  }

  /** What a lookup finds is the first of them. */
  lemma {:induction false} ValueIsFirst(entries: seq<Entry>, name: string)
    ensures Value(entries, name) == if Values(entries, name) == [] then None else Some(Values(entries, name)[0])
    decreases |entries|
  {
    hide SameName;
    if entries != [] {
      ValueIsFirst(entries[1..], name);
    }
  }

  /** Whatever the name, one set acts on the store as on the map of queues. */
  lemma SetRefinesQueues(entries: seq<Entry>, q: map<string, seq<CString>>, name: CString, value: CString)
    requires ReadsAs(entries, q)
    ensures var r := SetSpec(entries, name, value);
            ReadsAs(r.entries, QueueSet(q, name, value, r.status))
  {
    hide Packed, Split, Values, Without, Upper;
    var rest, e := Without(entries, name), Split(name, value);
    var r := SetSpec(entries, name, value);
    forall other: CString
      ensures Values(r.entries, other) == Queue(QueueSet(q, name, value, r.status), other)
    {
      assert Values(entries, other) == Queue(q, other);
      ValuesWithout(entries, name, other);
      ValuesAppend(rest, e, other);
      assert Values(entries, e.name) == Queue(q, e.name);
    }
  }

  /** And so does any sequence of calls, whatever the names. */
  lemma {:induction false} HistoryRefinesQueues(entries: seq<Entry>, q: map<string, seq<CString>>, calls: seq<Call>)
    requires ReadsAs(entries, q)
    ensures ReadsAs(SetAll(entries, calls), QueuesAll(entries, q, calls))
    decreases |calls|
  {
    hide ReadsAs, SetSpec, QueueSet;
    if calls != [] {
      SetRefinesQueues(entries, q, calls[0].name, calls[0].value);
      var r := SetSpec(entries, calls[0].name, calls[0].value);
      HistoryRefinesQueues(r.entries, QueueSet(q, calls[0].name, calls[0].value, r.status), calls[1..]);
    }
  }

  ghost function QueuesAll(entries: seq<Entry>, q: map<string, seq<CString>>, calls: seq<Call>): map<string, seq<CString>>
    decreases |calls|
  {
    if calls == [] then q
    else
      var r := SetSpec(entries, calls[0].name, calls[0].value);
      QueuesAll(r.entries, QueueSet(q, calls[0].name, calls[0].value, r.status), calls[1..])
  }

  /** A stored value can be read back exactly when the name has no '='. */
  lemma SetThenGetIff(entries: seq<Entry>, name: CString, value: CString)
    requires Unique(entries) && Proper(entries)
    requires value != "" && SetSpec(entries, name, value).status == ESUCCESS
    ensures Value(SetSpec(entries, name, value).entries, name) == Some(value) <==> '=' !in name
  {
    hide Packed, Value, Without, Unique, SameName;
    WithoutRemovesOne(entries, name);
    var after := SetSpec(entries, name, value).entries;
    if '=' !in name {
      hide Split;
      AppendAdds(Without(entries, name), Split(name, value)) by {
        SameNames(name);
      }
      SameNames(name);
    } else {
      StaysProper(entries, name, value);
      NeverFound(after, name);
    }
  }

  lemma SameNames(name: string)
    ensures SameName(name, name)
  {
  }

  lemma EqualsSignNeverMatches(a: string, b: string)
    requires '=' !in a && '=' in b
    ensures !SameName(a, b)
  {
    var k :| 0 <= k < |b| && b[k] == '=';
    assert Upper(b)[k] == '=';
    assert k < |a| ==> UpperChar(a[k]) != '=';
  }

  // ---- what fits, and which names are the same ---------------------------------------------------

  /** Two names are the same when they are, letter by letter, but for the case of the letters a to z. */
  lemma SameNameIs(a: string, b: string)
    ensures SameName(a, b) <==>
            |a| == |b|
            && forall i :: 0 <= i < |a| ==>
                 a[i] == b[i]
                 || ('a' <= a[i] <= 'z' && a[i] as int - 32 == b[i] as int)
                 || ('a' <= b[i] <= 'z' && b[i] as int - 32 == a[i] as int)
  {
    var u, w := Upper(a), Upper(b);
    if SameName(a, b) {
      assert forall i :: 0 <= i < |a| ==> u[i] == UpperChar(a[i]) && w[i] == UpperChar(b[i]);
    } else if |a| == |b| {
      var i :| 0 <= i < |a| && u[i] != w[i];
      assert UpperChar(a[i]) != UpperChar(b[i]);
    }
  }

  /** A value is refused exactly when the variables that are left once the old one is gone, the new one
      and the final terminator do not fit 2048 bytes; nothing else is ever refused. */
  lemma RefusedIff(entries: seq<Entry>, name: CString, value: CString)
    ensures var r := SetSpec(entries, name, value);
            && (r.status == ENOSPC <==> value != "" && |Packed(Without(entries, name) + [Split(name, value)])| + 1 > 2048)
            && (r.status != ENOSPC ==> r.status == ESUCCESS)
  {
    hide Without, Split, Find;
    var e := Split(name, value);
    PackedConcat(Without(entries, name), [e]);
    PackedOne(e);
  }

  lemma PackedOne(e: Entry)
    ensures |Packed([e])| == |e.Text()| + 1
  {
    assert [e][1..] == [];
  }

  /** A variable can always be set to a value no longer than its own. */
  lemma ShorterValueFits(entries: seq<Entry>, name: CString, value: CString)
    requires |Packed(entries)| < 2048 && Proper(entries)
    requires Value(entries, name).Some? && |value| <= |Value(entries, name).value|
    ensures SetSpec(entries, name, value).status == ESUCCESS
  {
    hide Packed, SameName;
    var k := Find(entries, name);
    PackedAt(entries, k);
    PackedConcat(entries[..k], entries[k + 1..]);
    SameNameIs(entries[k].name, name);
  }

  // ---- the packed bytes ------------------------------------------------------------------------

  ghost function Offset(entries: seq<Entry>, k: nat): nat
    requires k <= |entries|
  {
    |Packed(entries[..k])|
  }

  /** The structure of the array: the entries, one terminator, and zeros to the end. */
  ghost predicate Holds(bytes: seq<char>, entries: seq<Entry>) {
    && |bytes| == ENV_SIZE
    && |Packed(entries)| < ENV_SIZE
    && Packed(entries) <= bytes
    && (forall i :: |Packed(entries)| <= i < ENV_SIZE ==> bytes[i] == NUL)
    && Proper(entries)
  }

  lemma {:induction false} PackedConcat(a: seq<Entry>, b: seq<Entry>)
    ensures Packed(a + b) == Packed(a) + Packed(b)
    decreases |a|
  {
    hide Entry.Text;
    if a == [] {
      assert a + b == b;
    } else {
      PackedConcat(a[1..], b);
      assert (a + b)[1..] == a[1..] + b;
      Rejoin(a[0].Text() + [NUL], Packed(a[1..]), Packed(b));
    }
  }

  lemma PackedAt(entries: seq<Entry>, k: nat)
    requires k < |entries|
    ensures Packed(entries) == Packed(entries[..k]) + entries[k].Text() + [NUL] + Packed(entries[k + 1..])
    ensures Offset(entries, k + 1) == Offset(entries, k) + |entries[k].Text()| + 1
  {
    assert entries == entries[..k] + entries[k..];
    PackedConcat(entries[..k], entries[k..]);
    assert entries[..k + 1] == entries[..k] + [entries[k]];
    PackedConcat(entries[..k], [entries[k]]);
  }

  lemma NoOffset(entries: seq<Entry>)
    ensures Offset(entries, 0) == 0
  {
  }

  /** What the bytes show at the start of the k-th entry. */
  lemma EntryAt(bytes: seq<char>, entries: seq<Entry>, k: nat)
    requires Holds(bytes, entries) && k < |entries|
    ensures var at := Offset(entries, k);
            var text := entries[k].Text();
            && at + |text| + 1 == Offset(entries, k + 1) <= |Packed(entries)|
            && bytes[at..at + |text|] == text
            && bytes[at + |text|] == NUL
            && (forall i :: at <= i < at + |text| ==> bytes[i] != NUL)
  {
    hide Packed, Entry.Text;
    PackedAt(entries, k);
    Segment(bytes, Packed(entries[..k]), entries[k].Text(), Packed(entries[k + 1..]));
  }

  lemma Segment(bytes: seq<char>, a: string, text: CString, c: string)
    requires a + text + [NUL] + c <= bytes
    ensures |a| + |text| < |bytes|
    ensures bytes[|a|..|a| + |text|] == text && bytes[|a| + |text|] == NUL
    ensures forall i :: |a| <= i < |a| + |text| ==> bytes[i] != NUL
  {
    var whole := a + text + [NUL] + c;
    assert forall i :: 0 <= i < |whole| ==> bytes[i] == whole[i];
    assert forall i :: |a| <= i < |a| + |text| ==> bytes[i] == text[i - |a|];
  }

  /** Where the k-th entry's '=' and value are. */
  lemma ValueAt(bytes: seq<char>, entries: seq<Entry>, k: nat)
    requires Holds(bytes, entries) && k < |entries|
    ensures var eq, value := Offset(entries, k) + |entries[k].name|, entries[k].value;
            && eq + 1 + |value| < ENV_SIZE
            && (forall i :: Offset(entries, k) <= i < eq ==> bytes[i] != '=' && bytes[i] == entries[k].name[i - Offset(entries, k)])
            && bytes[eq] == '='
            && bytes[eq + 1..eq + 1 + |value|] == value
            && bytes[eq + 1 + |value|] == NUL
  {
    hide Packed, Offset;
    EntryAt(bytes, entries, k);
    NameAndValue(bytes, Offset(entries, k), entries[k].name, entries[k].value);
  }

  lemma NameAndValue(bytes: seq<char>, at: nat, name: CString, value: CString)
    requires at + |name| + 1 + |value| <= |bytes| && bytes[at..at + |name| + 1 + |value|] == name + ['='] + value
    ensures forall i :: at <= i < at + |name| ==> bytes[i] == name[i - at]
    ensures bytes[at + |name|] == '=' && bytes[at + |name| + 1..at + |name| + 1 + |value|] == value
  {
    var text := name + ['='] + value;
    assert forall i :: 0 <= i < |text| ==> bytes[at + i] == bytes[at..at + |text|][i] == text[i];
    assert text[..|name|] == name && text[|name| + 1..] == value;
    assert forall i :: at <= i < at + |name| ==> bytes[i] == text[i - at] == name[i - at];
  }

  /** HalpEnvironment.  `entries` is what it holds. */
  class Store {
    const env: array<char>
    ghost var entries: seq<Entry>

    ghost predicate Valid()
      reads this, env
    {
      env.Length == ENV_SIZE && Holds(env[..], entries)
    }

    constructor ()
      ensures Valid() && entries == [] && fresh(env)
    {
      env := new char[ENV_SIZE](_ => NUL);
      entries := [];
    }

    method EnvNameIs(at: nat, name: CString, ghost k: nat) returns (same: bool)
      requires Valid() && k < |entries| && at == Offset(entries, k)
      ensures same <==> SameName(entries[k].name, name)
    {
      hide Packed, Offset;
      ghost var stored := entries[k].name;
      ValueAt(env[..], entries, k);
      var i := 0;
      while i < |name| && env[at + i] != NUL && env[at + i] != '='
        invariant 0 <= i <= |name| && i <= |stored|
        invariant at + i < ENV_SIZE && env[at + i] == (if i < |stored| then stored[i] else '=')
        invariant forall j :: 0 <= j < i ==> UpperChar(stored[j]) == UpperChar(name[j])
      {
        if UpperChar(env[at + i]) != UpperChar(name[i]) {
          assert Upper(stored)[i] != UpperChar(name[i]);
          return false;
        }
        i := i + 1;
        assert i < |stored| ==> env[..][at + i] == stored[i];
      }
      same := i == |name| && env[at + i] == '=';
    }

    /** Bytes in use, the final terminator included. */
    method EnvUsed() returns (used: int)
      requires Valid()
      ensures used == |Packed(entries)| + 1 <= ENV_SIZE
    {
      hide Packed;
      var i := 0;
      ghost var k := 0;
      assert entries[..|entries|] == entries;
      NoOffset(entries);
      while i < ENV_SIZE
        invariant k <= |entries| && i == Offset(entries, k) <= |Packed(entries)|
        decreases ENV_SIZE - i
      {
        if k < |entries| {
          EntryAt(env[..], entries, k);
        }
        if env[i] == NUL {
          return i + 1;
        }
        ghost var start := i;
        while i < ENV_SIZE && env[i] != NUL
          invariant start <= i <= start + |entries[k].Text()|
          decreases ENV_SIZE - i
        {
          i := i + 1;
        }
        i := i + 1;
        k := k + 1;
      }
      return ENV_SIZE;
    }

    /** The walk to an entry's terminator. */
    method EntryEnd(at: nat, used: nat, ghost k: nat) returns (i: nat)
      requires Valid() && k < |entries| && at == Offset(entries, k) && used == |Packed(entries)| + 1
      ensures i + 1 == Offset(entries, k + 1) <= |Packed(entries)|
    {
      hide Packed, Offset;
      EntryAt(env[..], entries, k);
      i := at;
      while i < used && env[i] != NUL
        invariant at <= i <= at + |entries[k].Text()|
      {
        i := i + 1;
      }
    }

    /** The offset of the first entry of that name. */
    method EnvFind(name: CString) returns (at: Option<nat>)
      requires Valid()
      ensures at.None? <==> Find(entries, name) == |entries|
      ensures at.Some? ==> at.value == Offset(entries, Find(entries, name))
    {
      var used := EnvUsed();
      var i := 0;
      ghost var k := 0;
      assert entries[..|entries|] == entries;
      while i + 1 < used
        invariant k <= |entries| && i == Offset(entries, k) <= |Packed(entries)|
        invariant forall j :: 0 <= j < k ==> !SameName(entries[j].name, name)
        decreases used - i
      {
        EntryAt(env[..], entries, k);
        var same := EnvNameIs(i, name, k);
        if same {
          return Some(i);
        }
        i := EntryEnd(i, used, k);
        i := i + 1;
        k := k + 1;
      }
      if k < |entries| {
        EntryAt(env[..], entries, k);
      }
      at := None;
    }

    /** Removal of the k-th entry: what follows it slides down, and zeros come in behind. */
    method EnvRemove(at: nat, ghost k: nat)
      requires Valid() && k < |entries| && at == Offset(entries, k)
      modifies this, env
      ensures Valid() && entries == old(entries)[..k] + old(entries)[k + 1..]
    {
      hide Packed, Offset, Holds, Entry.Text;
      var used := EnvUsed();
      EntryAt(env[..], entries, k);
      ghost var bytes := env[..];
      var next := EntryEnd(at, used, k);
      next := next + 1;
      if next > used {
        return;
      }
      CloseGap(at, next, used);
      RemoveHolds(bytes, env[..], entries, k);
      entries := entries[..k] + entries[k + 1..];
    }

    /** Move [next, used) down to `at` and clear what that vacates. */
    method CloseGap(at: nat, next: nat, used: nat)
      requires env.Length == ENV_SIZE && at < next <= used <= ENV_SIZE
      modifies env
      ensures env[..] == Shifted(old(env[..]), at, next, used)
    {
      hide Shifted;
      ghost var bytes := env[..];
      MoveDown(at, next, used - next);
      ghost var moved := env[..];
      Clear(used - (next - at), used);
      ShiftedIs(bytes, moved, env[..], at, next, used);
    }

    method MoveDown(at: nat, next: nat, n: nat)
      requires env.Length == ENV_SIZE && at < next && next + n <= ENV_SIZE
      modifies env
      ensures forall j :: 0 <= j < ENV_SIZE && !(at <= j < at + n) ==> env[j] == old(env[..])[j]
      ensures forall j :: at <= j < at + n ==> env[j] == old(env[..])[j + (next - at)]
    {
      ghost var bytes := env[..];
      for i := 0 to n
        invariant forall j :: 0 <= j < ENV_SIZE && !(at <= j < at + i) ==> env[j] == bytes[j]
        invariant forall j :: at <= j < at + i ==> env[j] == bytes[j + (next - at)]
      {
        env[at + i] := env[next + i];
      }
    }

    method Clear(from: nat, to: nat)
      requires env.Length == ENV_SIZE && from <= to <= ENV_SIZE
      modifies env
      ensures forall j :: 0 <= j < ENV_SIZE ==> env[j] == if from <= j < to then NUL else old(env[..])[j]
    {
      ghost var bytes := env[..];
      for i := from to to
        invariant forall j :: 0 <= j < ENV_SIZE ==> env[j] == if from <= j < i then NUL else bytes[j]
      {
        env[i] := NUL;
      }
    }

    /** HalGetEnvironmentVariable; `variable` is None for a null pointer. */
    method GetVariable(variable: Option<CString>, length: u16, buffer: array<char>) returns (status: Status)
      requires Valid() && buffer != env && length <= buffer.Length
      modifies buffer
      ensures var found := if variable.None? then None else Value(entries, variable.value);
              if found.None? then status == ENOENT && buffer[..] == old(buffer[..])
              else
                var shown := Min(|found.value|, if length == 0 then 0 else length - 1);
                && status == (if shown < |found.value| then ENOMEM else ESUCCESS)
                && buffer[..shown] == found.value[..shown]
                && (length > 0 ==> buffer[shown] == NUL)
                && forall i :: shown + (if length > 0 then 1 else 0) <= i < buffer.Length ==> buffer[i] == old(buffer[i])
    {
      var entry: Option<nat> := None;
      if variable.Some? {
        entry := EnvFind(variable.value);
      }
      if entry.None? {
        return ENOENT;
      }
      var value := ValueOf(entry.value, Find(entries, variable.value));
      status := CopyOut(value, entries[Find(entries, variable.value)].value, length, buffer);
    }

    /** The scan past the '='. */
    method ValueOf(at: nat, ghost k: nat) returns (value: nat)
      requires Valid() && k < |entries| && at == Offset(entries, k)
      ensures value + |entries[k].value| < ENV_SIZE
      ensures env[value..value + |entries[k].value|] == entries[k].value
      ensures env[value + |entries[k].value|] == NUL
    {
      ghost var name, text := entries[k].name, entries[k].value;
      ValueAt(env[..], entries, k);
      value := at;
      while env[value] != '='
        invariant at <= value <= at + |name|
        decreases at + |name| - value
      {
        assert env[value] == env[..][value];
        value := value + 1;
      }
      value := value + 1;
    }

    /** The bounded copy; `v` is the string at `value`. */
    method CopyOut(value: nat, ghost v: CString, length: u16, buffer: array<char>) returns (status: Status)
      requires env.Length == ENV_SIZE && value + |v| < ENV_SIZE
      requires env[value..value + |v|] == v && env[value + |v|] == NUL
      requires buffer != env && length <= buffer.Length
      modifies buffer
      ensures var shown := Min(|v|, if length == 0 then 0 else length - 1);
              && status == (if shown < |v| then ENOMEM else ESUCCESS)
              && buffer[..shown] == v[..shown]
              && (length > 0 ==> buffer[shown] == NUL)
              && forall i :: shown + (if length > 0 then 1 else 0) <= i < buffer.Length ==> buffer[i] == old(buffer[i])
    {
      ghost var last := if length == 0 then 0 else length - 1;
      assert forall i :: 0 <= i < |v| ==> env[value + i] == v[i];
      var i := 0;
      while i + 1 < length && env[value + i] != NUL
        invariant 0 <= i <= Min(|v|, last)
        invariant env[value + i] == if i < |v| then v[i] else NUL
        invariant buffer[..i] == v[..i]
        invariant forall j :: i <= j < buffer.Length ==> buffer[j] == old(buffer[j])
      {
        buffer[i] := env[value + i];
        i := i + 1;
        assert i < |v| ==> env[value..value + |v|][i] == v[i];
      }
      assert i == Min(|v|, last);
      if length != 0 {
        buffer[i] := NUL;
      }
      status := if env[value + i] != NUL then ENOMEM else ESUCCESS;
    }

    /** HalSetEnvironmentVariable. */
    method SetVariable(variable: Option<CString>, value: Option<CString>) returns (status: Status)
      requires Valid()
      modifies this, env
      ensures Valid()
      ensures if variable.None? || value.None? then status == EINVAL && entries == old(entries)
              else SetResult(entries, status) == SetSpec(old(entries), variable.value, value.value)
    {
      if variable.None? || value.None? {
        return EINVAL;
      }
      hide Packed, Find, Offset, Split, Holds;
      var name, text := variable.value, value.value;
      var entry := EnvFind(name);
      if entry.Some? {
        EnvRemove(entry.value, Find(entries, name));
      }
      if |text| == 0 {
        return ESUCCESS;
      }
      var used := EnvUsed();
      var at := used - 1;
      var need := |name| + 1 + |text| + 2;
      if at + need > ENV_SIZE {
        return ENOSPC;
      }
      Append(at, name, text);
      status := ESUCCESS;
    }

    /** NAME=value, its terminator and the final one, over the old final one. */
    method Append(at: nat, name: CString, value: CString)
      requires Valid() && at == |Packed(entries)| && at + |name| + |value| + 3 <= ENV_SIZE
      modifies this, env
      ensures Valid() && entries == old(entries) + [Split(name, value)]
    {
      hide Packed, Splice;
      ghost var bytes := env[..];
      var p := at;
      p := CopyIn(p, name);
      env[p] := '=';
      p := p + 1;
      p := CopyIn(p, value);
      env[p] := NUL;
      p := p + 1;
      env[p] := NUL;
      Appended(bytes, env[..], at, name, value);
      AppendHolds(bytes, env[..], entries, name, value);
      entries := entries + [Split(name, value)];
    }

    method CopyIn(at: nat, s: CString) returns (end: nat)
      requires env.Length == ENV_SIZE && at + |s| <= ENV_SIZE
      modifies env
      ensures end == at + |s|
      ensures env[..] == Splice(old(env[..]), at, s)
    {
      ghost var bytes := env[..];
      for i := 0 to |s|
        invariant forall j :: 0 <= j < ENV_SIZE ==> env[j] == if at <= j < at + i then s[j - at] else bytes[j]
      {
        env[at + i] := s[i];
      }
      end := at + |s|;
    }
  }

  ghost function Shifted(bytes: seq<char>, at: nat, next: nat, used: nat): (r: seq<char>)
    requires at < next <= used <= |bytes|
    ensures |r| == |bytes|
  {
    bytes[..at] + bytes[next..used] + seq(next - at, _ => NUL) + bytes[used..]
  }

  lemma ShiftedIs(bytes: seq<char>, moved: seq<char>, r: seq<char>, at: nat, next: nat, used: nat)
    requires at < next <= used <= |bytes| && |moved| == |r| == |bytes|
    requires forall j :: 0 <= j < |r| && !(at <= j < at + (used - next)) ==> moved[j] == bytes[j]
    requires forall j :: at <= j < at + (used - next) ==> moved[j] == bytes[j + (next - at)]
    requires forall j :: 0 <= j < |r| ==> r[j] == if used - (next - at) <= j < used then NUL else moved[j]
    ensures r == Shifted(bytes, at, next, used)
  {
  }

  lemma RemovedPacked(entries: seq<Entry>, k: nat)
    requires k < |entries|
    ensures Offset(entries, k) < Offset(entries, k + 1) <= |Packed(entries)|
    ensures Packed(entries[..k] + entries[k + 1..]) ==
            Packed(entries)[..Offset(entries, k)] + Packed(entries)[Offset(entries, k + 1)..]
  {
    hide Packed, Entry.Text;
    PackedAt(entries, k);
    PackedConcat(entries[..k], entries[k + 1..]);
    CutMiddle(Packed(entries[..k]), entries[k].Text() + [NUL], Packed(entries[k + 1..]));
  }

  lemma CutMiddle(a: string, b: string, c: string)
    ensures (a + b + c)[..|a|] + (a + b + c)[|a| + |b|..] == a + c
  {
  }

  /** Closing a gap inside the packed text closes it in the text. */
  lemma ShiftedHolds(bytes: seq<char>, after: seq<char>, packed: string, at: nat, next: nat)
    requires |bytes| == ENV_SIZE && |packed| < ENV_SIZE && packed <= bytes
    requires forall i :: |packed| <= i < ENV_SIZE ==> bytes[i] == NUL
    requires at < next <= |packed| && after == Shifted(bytes, at, next, |packed| + 1)
    ensures packed[..at] + packed[next..] <= after
    ensures forall i :: |packed| - (next - at) <= i < ENV_SIZE ==> after[i] == NUL
  {
    assert bytes[..at] == packed[..at];
    assert bytes[next..|packed| + 1] == packed[next..] + [NUL];
  }

  lemma RemoveHolds(bytes: seq<char>, after: seq<char>, entries: seq<Entry>, k: nat)
    requires Holds(bytes, entries) && k < |entries|
    requires Offset(entries, k) < Offset(entries, k + 1) <= |Packed(entries)| + 1
    requires after == Shifted(bytes, Offset(entries, k), Offset(entries, k + 1), |Packed(entries)| + 1)
    ensures Holds(after, entries[..k] + entries[k + 1..])
  {
    hide Packed, Shifted, Offset;
    RemovedPacked(entries, k);
    ShiftedHolds(bytes, after, Packed(entries), Offset(entries, k), Offset(entries, k + 1));
  }

  lemma AppendHolds(bytes: seq<char>, after: seq<char>, entries: seq<Entry>, name: CString, value: CString)
    requires Holds(bytes, entries) && |Packed(entries)| + |name| + |value| + 3 <= ENV_SIZE
    requires var text := name + ['='] + value;
             after == Splice(bytes, |Packed(entries)|, text + [NUL])
    ensures Holds(after, entries + [Split(name, value)])
  {
    var e := Split(name, value);
    PackedConcat(entries, [e]);
    assert Packed([e]) == e.Text() + [NUL] + Packed([]);
    SpliceHolds(bytes, after, Packed(entries), e.Text() + [NUL]);
  }

  lemma Appended(bytes: seq<char>, after: seq<char>, at: nat, name: string, value: string)
    requires at + |name| + |value| + 3 <= |bytes| && bytes[at + |name| + |value| + 2] == NUL
    requires var v := at + |name| + 1;
             after == Splice(Splice(bytes, at, name)[v - 1 := '='], v, value)[v + |value| := NUL][v + |value| + 1 := NUL]
    ensures after == Splice(bytes, at, name + ['='] + value + [NUL])
  {
  }

  lemma SpliceHolds(bytes: seq<char>, after: seq<char>, packed: string, text: string)
    requires |packed| + |text| < |bytes| && packed <= bytes
    requires forall i :: |packed| <= i < |bytes| ==> bytes[i] == NUL
    requires after == Splice(bytes, |packed|, text)
    ensures packed + text <= after
    ensures forall i :: |packed| + |text| <= i < |bytes| ==> after[i] == NUL
  {
  }
}
