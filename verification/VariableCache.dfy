/** The key/value cache and its file format.
 */
module VariableCache {
  import opened MachineWords
  import opened LittleEndian

  /** A C string that fits the key buffer, without its terminator. */
  type Name = k: seq<Byte> | |k| < 128 && forall i :: 0 <= i < |k| ==> k[i] != 0

  datatype Entry = Entry(key: Name, value: U64)

  // ---------------------------------------------------------------- the list

  /** Position of the first entry for a name, or the number of entries. */
  function Find(entries: seq<Entry>, name: Name): (i: nat)
    ensures i <= |entries| && (i < |entries| ==> entries[i].key == name)
    ensures forall k :: 0 <= k < i ==> entries[k].key != name
  {
    if entries == [] || entries[0].key == name then 0 else 1 + Find(entries[1..], name)
  }

  function Lookup(entries: seq<Entry>, name: Name): U64 {
    var i := Find(entries, name);
    if i < |entries| then entries[i].value else 0
  }

  function Set(entries: seq<Entry>, name: Name, value: U64): seq<Entry> {
    var i := Find(entries, name);
    if i < |entries| then entries[i := Entry(name, value)] else [Entry(name, value)] + entries
  }

  ghost predicate Distinct(entries: seq<Entry>) {
    forall i, j :: 0 <= i < j < |entries| ==> entries[i].key != entries[j].key
  }

  lemma FindIs(entries: seq<Entry>, name: Name, i: nat)
    requires i <= |entries| && (i < |entries| ==> entries[i].key == name)
    requires forall k :: 0 <= k < i ==> entries[k].key != name
    ensures Find(entries, name) == i
  {
    var j := Find(entries, name);
  }

  lemma SetKeeps(entries: seq<Entry>, name: Name, value: U64)
    requires Distinct(entries)
    ensures Distinct(Set(entries, name, value))
  {
  }

  lemma SetLookup(entries: seq<Entry>, name: Name, value: U64, other: Name)
    ensures Lookup(Set(entries, name, value), other) == if other == name then value else Lookup(entries, other)
  {
    hide Find;
    var i, j, after := Find(entries, name), Find(entries, other), Set(entries, name, value);
    if i < |entries| {
      FindIs(after, other, if other == name then i else j);
    } else {
      FindIs(after, other, if other == name then 0 else j + 1);
    }
  }

  datatype Assignment = Assignment(name: Name, value: U64)

  /** A run of `cache_set`. */
  function Sets(entries: seq<Entry>, run: seq<Assignment>): seq<Entry> {
    if run == [] then entries else Set(Sets(entries, run[..|run| - 1]), run[|run| - 1].name, run[|run| - 1].value)
  }

  function Assigned(run: seq<Assignment>): map<Name, U64> {
    if run == [] then map[] else Assigned(run[..|run| - 1])[run[|run| - 1].name := run[|run| - 1].value]
  }

  /** Any run from an empty cache keeps the keys distinct and gives back the last value set
      for each name, or 0. */
  lemma {:induction false} RunRefinesMap(run: seq<Assignment>, name: Name)
    ensures var entries := Sets([], run);
            && Distinct(entries)
            && Lookup(entries, name) == if name in Assigned(run) then Assigned(run)[name] else 0
    decreases |run|
  {
    if run != [] {
      var before, last := run[..|run| - 1], run[|run| - 1];
      RunRefinesMap(before, name);
      SetKeeps(Sets([], before), last.name, last.value);
      SetLookup(Sets([], before), last.name, last.value, name);
      hide Set, Lookup;
    }
  }

  // ---------------------------------------------------------------- the file

  /** One record: the two lengths, the key with its terminator, the value. */
  function Record(e: Entry): seq<Byte> {
    Le32(|e.key| + 1) + Le32(8) + e.key + [0] + Le64(e.value)
  }

  function File(entries: seq<Entry>): seq<Byte> {
    if entries == [] then [] else Record(entries[0]) + File(entries[1..])
  }

  function Reversed(entries: seq<Entry>): seq<Entry> {
    if entries == [] then [] else Reversed(entries[1..]) + [entries[0]]
  }

  /** `strcpy` from a buffer: the bytes before the first zero. */
  function CString(b: seq<Byte>): (r: seq<Byte>)
    ensures r <= b && (|r| < |b| ==> b[|r|] == 0) && forall i :: 0 <= i < |r| ==> r[i] != 0
  {
    if b == [] || b[0] == 0 then [] else [b[0]] + CString(b[1..])
  }

  lemma {:induction false} CStringOf(key: seq<Byte>, rest: seq<Byte>)
    requires forall i :: 0 <= i < |key| ==> key[i] != 0
    ensures CString(key + [0] + rest) == key
    decreases |key|
  {
    var b := key + [0] + rest;
    if key != [] {
      assert b[1..] == key[1..] + [0] + rest;
      CStringOf(key[1..], rest);
    }
  }

  /** Reading the fields of a record back. */
  lemma RecordFields(e: Entry, rest: seq<Byte>)
    ensures var f, n := Record(e) + rest, |e.key| + 1;
            && |f| >= 16 + n && Read32(f[..4]) == n && Read32(f[4..8]) == 8
            && CString(f[8..8 + n]) == e.key && Read64(f[8 + n..16 + n]) == e.value && f[16 + n..] == rest
  {
    hide Le32, Le64, Read32, Read64, CString;
    var f, n := Record(e) + rest, |e.key| + 1;
    ReadBack(n);
    ReadBack(8);
    ReadBack64(e.value);
    CStringOf(e.key, []);
    assert f[..4] == Le32(n) && f[4..8] == Le32(8);
    assert f[8..8 + n] == e.key + [0] + [];
    assert f[8 + n..16 + n] == Le64(e.value);
  }

  // ---------------------------------------------------------------- reading any file

  /** `read(fd, buffer, n)`: as many of the next `n` bytes as there are. */
  function Next(file: seq<Byte>, p: nat, n: nat): (r: seq<Byte>)
    requires p <= |file|
    ensures |r| <= n && p + |r| <= |file|
  {
    if p + n <= |file| then file[p..p + n] else file[p..]
  }

  /** The eight bytes of a variable that was zero before `b` was read into it. */
  function Padded(b: seq<Byte>): (r: seq<Byte>)
    requires |b| <= 8
    ensures |r| == 8
  {
    b + seq<Byte>(8 - |b|, _ => 0)
  }

  /** The entries of a file in order, or `Overrun` when a length or a key does not fit its buffer. */
  datatype Loaded = Loaded(entries: seq<Entry>) | Overrun

  /** The file from `p` on; a truncated header leaves the rest of the one before it in `block`. */
  function LoadFrom(file: seq<Byte>, p: nat, block: seq<Byte>): Loaded
    requires p <= |file| && |block| == 8
    decreases |file| - p
  {
    var head := Next(file, p, 8);
    if head == [] then Loaded([])
    else
      var block' := head + block[|head|..];
      var keyLength, valueLength := Read32(block'[..4]), Read32(block'[4..]);
      if keyLength > 128 || valueLength > 8 then Overrun
      else
        var keyBytes := Next(file, p + |head|, keyLength);
        var key, q := CString(keyBytes), p + |head| + |keyBytes|;
        if |key| >= 128 then Overrun
        else
          var valueBytes := Next(file, q, valueLength);
          var rest := LoadFrom(file, q + |valueBytes|, block');
          if rest.Overrun? then rest else Loaded([Entry(key, Read64(Padded(valueBytes)))] + rest.entries)
  }

  const ZeroBlock: seq<Byte> := [0, 0, 0, 0, 0, 0, 0, 0]

  function Load(file: seq<Byte>): Loaded { LoadFrom(file, 0, ZeroBlock) }

  lemma NextIs(file: seq<Byte>, p: nat, i: nat, n: nat)
    requires p + i + n <= |file|
    ensures Next(file, p + i, n) == file[p..][i..i + n]
  {
    assert file[p..][i..i + n] == file[p + i..p + i + n];
  }

  lemma HeaderSplit(f: seq<Byte>, block: seq<Byte>)
    requires |f| >= 8 && |block| == 8
    ensures f[0..8] + block[8..] == f[0..8] && f[0..8][..4] == f[..4] && f[0..8][4..] == f[4..8]
  {
  }

  lemma PaddedFull(b: seq<Byte>)
    requires |b| == 8
    ensures Padded(b) == b
  {
  }

  /** Loading what was saved gives back the entries, whatever header came before. */
  lemma {:induction false} LoadSaved(file: seq<Byte>, p: nat, block: seq<Byte>, rest: seq<Entry>)
    requires p <= |file| && |block| == 8 && file[p..] == File(rest)
    ensures LoadFrom(file, p, block) == Loaded(rest)
    decreases |rest|
  {
    hide Record, CString, Read32, Read64, Next, Padded;
    if rest == [] {
      NothingNext(file, p);
    } else {
      var f, n := file[p..], |rest[0].key| + 1;
      RecordFields(rest[0], File(rest[1..]));
      NextIs(file, p, 0, 8);
      NextIs(file, p, 8, n);
      NextIs(file, p, 8 + n, 8);
      HeaderSplit(f, block);
      PaddedFull(f[8 + n..16 + n]);
      assert file[p + 16 + n..] == f[16 + n..];
      LoadSaved(file, p + 16 + n, f[0..8], rest[1..]);
      assert rest == [rest[0]] + rest[1..];
    }
  }

  /** The number that some little-endian bytes stand for. */
  function Value(b: seq<Byte>): int {
    if b == [] then 0 else b[0] as int + 0x100 * Value(b[1..])
  }

  lemma {:induction false} ValuePadded(b: seq<Byte>, n: nat)
    ensures Value(b + seq<Byte>(n, _ => 0)) == Value(b)
    decreases |b|, n
  {
    var z := seq<Byte>(n, _ => 0);
    if b != [] {
      assert (b + z)[1..] == b[1..] + z;
      ValuePadded(b[1..], n);
    } else if n > 0 {
      assert (b + z)[1..] == b + seq<Byte>(n - 1, _ => 0);
      ValuePadded(b, n - 1);
    } else {
      assert b + z == b;
    }
  }

  lemma Read32Value(b: seq<Byte>)
    requires |b| == 4
    ensures Read32(b) == Value(b)
  {
    assert Value(b) == b[0] as int + 0x100 * Value(b[1..]) && Value(b[1..]) == b[1] as int + 0x100 * Value(b[1..][1..]);
    assert b[1..][1..] == b[2..] && b[2..][1..] == b[3..] && b[3..][1..] == [];
    assert Value(b[2..]) == b[2] as int + 0x100 * Value(b[3..]) && Value(b[3..]) == b[3] as int + 0x100 * Value([]);
  }

  lemma Read64Value(b: seq<Byte>)
    requires |b| == 8
    ensures Read64(b) == Value(b)
  {
    hide Read32;
    var hi := b[4..];
    Read32Value(b[..4]);
    Read32Value(hi);
    assert b[..4] + hi == b;
    ValueAppend(b[..4], hi);
  }

  lemma ValueAppend(a: seq<Byte>, b: seq<Byte>)
    requires |a| == 4
    ensures Value(a + b) == Value(a) + TWO32 * Value(b)
  {
    ValueFirst(a, b);
    ValueFirst(a[1..], b);
    ValueFirst(a[2..], b);
    ValueFirst(a[3..], b);
    assert a[1..][1..] == a[2..] && a[2..][1..] == a[3..] && a[3..][1..] == [] && [] + b == b;
    hide Value;
  }

  lemma ValueFirst(a: seq<Byte>, b: seq<Byte>)
    requires a != []
    ensures Value(a + b) == a[0] as int + 0x100 * Value(a[1..] + b) && Value(a) == a[0] as int + 0x100 * Value(a[1..])
    ensures Value([]) == 0
  {
    assert (a + b)[1..] == a[1..] + b;
  }

  /** Any record whose fields fit, also one that `serialized_to_file` would not write: the key ends at
      its first zero byte or with the field, and a short value counts as little-endian. */
  lemma LoadRecord(file: seq<Byte>, p: nat, block: seq<Byte>, keyBytes: seq<Byte>, valueBytes: seq<Byte>, e: Entry)
    requires p <= |file| && |block| == 8 && |keyBytes| <= 128 && |valueBytes| <= 8
    requires e.key == CString(keyBytes) && e.value == Value(valueBytes)
    requires Le32(|keyBytes|) + Le32(|valueBytes|) + keyBytes + valueBytes <= file[p..]
    ensures var q := p + 8 + |keyBytes| + |valueBytes|;
            && q <= |file|
            && var rest := LoadFrom(file, q, Le32(|keyBytes|) + Le32(|valueBytes|));
               LoadFrom(file, p, block) == if rest.Overrun? then Overrun else Loaded([e] + rest.entries)
  {
    hide Le32, CString, Read32, Read64, Next, Padded, Value, LoadFrom;
    var n, m := |keyBytes|, |valueBytes|;
    var head := Le32(n) + Le32(m);
    NextParts(file, p, head, keyBytes, valueBytes);
    HeadLengths(head, n, m, block);
    PaddedValue(valueBytes);
    LoadUnfold(file, p, block, head, n, m);
  }

  lemma HeadLengths(head: seq<Byte>, n: U32, m: U32, block: seq<Byte>)
    requires head == Le32(n) + Le32(m) && |block| == 8
    ensures |head| == 8 && head + block[8..] == head && Read32(head[..4]) == n && Read32(head[4..]) == m
  {
    hide Le32, Read32;
    assert head[..4] == Le32(n) && head[4..] == Le32(m);
    ReadBack(n);
    ReadBack(m);
  }

  /** The three reads of a record. */
  lemma NextParts(file: seq<Byte>, p: nat, head: seq<Byte>, key: seq<Byte>, value: seq<Byte>)
    requires p <= |file| && |head| == 8 && head + key + value <= file[p..]
    ensures p + 8 + |key| + |value| <= |file|
    ensures Next(file, p, 8) == head && Next(file, p + 8, |key|) == key && Next(file, p + 8 + |key|, |value|) == value
  {
    hide Next;
    var f, n, m := file[p..], |key|, |value|;
    assert f == head + key + value + f[8 + n + m..];
    assert f[0..8] == head && f[8..8 + n] == key && f[8 + n..8 + n + m] == value;
    NextIs(file, p, 0, 8);
    NextIs(file, p, 8, n);
    NextIs(file, p, 8 + n, m);
  }

  lemma LoadUnfold(file: seq<Byte>, p: nat, block: seq<Byte>, head: seq<Byte>, n: nat, m: nat)
    requires p <= |file| && |block| == 8 && |head| == 8 && Next(file, p, 8) == head && head + block[8..] == head
    requires Read32(head[..4]) == n <= 128 && Read32(head[4..]) == m <= 8 && p + 8 + n + m <= |file|
    requires |Next(file, p + 8, n)| == n && |Next(file, p + 8 + n, m)| == m && |CString(Next(file, p + 8, n))| < 128
    ensures var rest := LoadFrom(file, p + 8 + n + m, head);
            LoadFrom(file, p, block) ==
              if rest.Overrun? then Overrun
              else Loaded([Entry(CString(Next(file, p + 8, n)), Read64(Padded(Next(file, p + 8 + n, m))))] + rest.entries)
  {
    hide CString, Read32, Read64, Next, Padded;
  }

  lemma PaddedValue(b: seq<Byte>)
    requires |b| <= 8
    ensures Read64(Padded(b)) == Value(b)
  {
    hide Read64;
    Read64Value(Padded(b));
    ValuePadded(b, 8 - |b|);
  }

  lemma NothingNext(file: seq<Byte>, p: nat)
    requires p <= |file| && file[p..] == []
    ensures Next(file, p, 8) == []
  {
  }

  lemma {:induction false} FindAppend(a: seq<Entry>, b: seq<Entry>, name: Name)
    ensures Find(a + b, name) == if Find(a, name) < |a| then Find(a, name) else |a| + Find(b, name)
  {
    hide Find;
    var i, j := Find(a, name), Find(b, name);
    FindIs(a + b, name, if i < |a| then i else |a| + j);
  }

  lemma {:induction false} ReversedIndex(entries: seq<Entry>, i: nat)
    requires i < |entries|
    ensures |Reversed(entries)| == |entries| && Reversed(entries)[i] == entries[|entries| - 1 - i]
    decreases |entries|
  {
    if |entries| > 1 { ReversedIndex(entries[1..], if i < |entries| - 1 then i else 0); }
  }

  /** Position of the last entry for a name, or the number of entries. */
  function FindLast(entries: seq<Entry>, name: Name): (i: nat)
    ensures i <= |entries| && (i < |entries| ==> entries[i].key == name)
    ensures i < |entries| ==> forall k :: i < k < |entries| ==> entries[k].key != name
    ensures i == |entries| <==> forall k :: 0 <= k < |entries| ==> entries[k].key != name
  {
    if entries == [] then 0
    else
      var i := FindLast(entries[1..], name);
      if i < |entries| - 1 then 1 + i else if entries[0].key == name then 0 else |entries|
  }

  /** In the reversed list the last entry for a name comes first. */
  lemma ReversedFind(entries: seq<Entry>, name: Name)
    ensures |Reversed(entries)| == |entries|
    ensures var i, r := FindLast(entries, name), Find(Reversed(entries), name);
            if i < |entries| then r == |entries| - 1 - i && Reversed(entries)[r] == entries[i] else r == |entries|
  {
    if entries != [] {
      hide Find, FindLast;
      var n, i, r := |entries|, FindLast(entries, name), Reversed(entries);
      forall k | 0 <= k < n ensures |r| == n && r[k] == entries[n - 1 - k] { ReversedIndex(entries, k); }
      ReversedIndex(entries, 0);
      hide Reversed;
      FindIs(r, name, if i < n then n - 1 - i else n);
    }
  }

  lemma FirstAndLast(entries: seq<Entry>, name: Name)
    ensures Find(entries, name) < |entries| <==> FindLast(entries, name) < |entries|
    ensures Distinct(entries) ==> Find(entries, name) == FindLast(entries, name)
  {
    hide Find, FindLast;
    var i, j := Find(entries, name), FindLast(entries, name);
  }

  /** Loading a saved list into a cache: for a name in the list the value of its last entry
      wins, every other lookup is as before. */
  lemma LoadedLookup(saved: seq<Entry>, present: seq<Entry>, name: Name)
    ensures Lookup(Reversed(saved) + present, name) ==
            var i := FindLast(saved, name);
            if i < |saved| then saved[i].value else Lookup(present, name)
  {
    hide Find, FindLast, Reversed;
    ReversedFind(saved, name);
    FindAppend(Reversed(saved), present, name);
    var r := Find(Reversed(saved), name);
    if r < |saved| {
      assert (Reversed(saved) + present)[r] == Reversed(saved)[r];
    } else if Find(present, name) < |present| {
      assert (Reversed(saved) + present)[|saved| + Find(present, name)] == present[Find(present, name)];
    }
  }

  /** Saving a cache and loading it into an empty one preserves the lookup of a name if and
      only if the name is not in it or its first and last entry have the same value. */
  lemma ReloadExact(saved: seq<Entry>, name: Name)
    ensures var i, j := Find(saved, name), FindLast(saved, name);
            Lookup(Reversed(saved) + [], name) == Lookup(saved, name) <==>
            i == |saved| || saved[i].value == saved[j].value
  {
    hide Find, FindLast, Reversed;
    LoadedLookup(saved, [], name);
    FirstAndLast(saved, name);
  }

  /** So it preserves every lookup of a cache whose names are distinct, as runs of cache_set leave it. */
  lemma ReloadDistinct(saved: seq<Entry>, name: Name)
    requires Distinct(saved)
    ensures Lookup(Reversed(saved) + [], name) == Lookup(saved, name)
  {
    hide Find, FindLast, Reversed, Lookup;
    ReloadExact(saved, name);
    FirstAndLast(saved, name);
  }

  /** Set x to 2, load a file that holds x = 1, save, and load into an empty cache: x was 1 and is 2. */
  lemma ReloadChanges()
    ensures var x: Name := [0x78];
            var saved := Reversed([Entry(x, 1)]) + Set([], x, 2);
            Lookup(saved, x) == 1 && Lookup(Reversed(saved) + [], x) == 2
  {
    var x: Name := [0x78];
    var saved := Reversed([Entry(x, 1)]) + Set([], x, 2);
    assert Reversed([Entry(x, 1)]) == [Entry(x, 1)] && Set([], x, 2) == [Entry(x, 2)];
    assert saved == [Entry(x, 1), Entry(x, 2)];
    FindIs(saved, x, 0);
    LastIs(saved, x, 1);
    LoadedLookup(saved, [], x);
  }

  lemma LastIs(entries: seq<Entry>, name: Name, i: nat)
    requires i < |entries| && entries[i].key == name && forall k :: i < k < |entries| ==> entries[k].key != name
    ensures FindLast(entries, name) == i
  {
    hide FindLast;
    var j := FindLast(entries, name);
    assert j < |entries|;
  }

  // ---------------------------------------------------------------- the program

  class Cache {
    var entries: seq<Entry>

    constructor ()
      ensures entries == []
    {
      entries := [];
    }

    /** `cache_get_entry_internal`. */
    method GetEntry(name: Name) returns (i: nat)
      ensures i == Find(entries, name)
    {
      i := 0;
      while i < |entries| && entries[i].key != name
        invariant 0 <= i <= |entries|
        invariant forall k :: 0 <= k < i ==> entries[k].key != name
      {
        i := i + 1;
      }
      FindIs(entries, name, i);
    }

    method CacheSet(name: Name, value: U64)
      modifies this
      ensures entries == Set(old(entries), name, value)
    {
      var i := GetEntry(name);
      if i < |entries| { entries := entries[i := Entry(name, value)]; } else { entries := [Entry(name, value)] + entries; }
    }

    method CacheGet(name: Name) returns (value: U64)
      ensures value == Lookup(entries, name)
    {
      var i := GetEntry(name);
      if i < |entries| { return entries[i].value; }
      return 0;
    }

    /** `serialized_to_file`, up to the file it leaves. */
    method SerializedToFile() returns (file: seq<Byte>)
      ensures file == File(entries)
    {
      hide Record;
      file := [];
      for i := 0 to |entries|
        invariant file + File(entries[i..]) == File(entries)
      {
        assert entries[i..][1..] == entries[i + 1..];
        file := file + Record(entries[i]);
      }
    }

    /** `unserialized_from_file` on a file whose fields fit their buffers. */
    method UnserializedFromFile(file: seq<Byte>)
      requires Load(file).Loaded?
      modifies this
      ensures entries == Reversed(Load(file).entries) + old(entries)
    {
      hide CString, Read32, Read64, Padded, Next;
      var p, block := 0, ZeroBlock;
      ghost var goal := Reversed(Load(file).entries) + entries;
      var head := Next(file, p, 8);
      while head != []
        invariant 0 <= p <= |file| && |block| == 8 && head == Next(file, p, 8)
        invariant LoadFrom(file, p, block).Loaded?
        invariant Reversed(LoadFrom(file, p, block).entries) + entries == goal
        decreases |file| - p
      {
        ghost var all := LoadFrom(file, p, block).entries;
        block := head + block[|head|..];
        var keyLength, valueLength := Read32(block[..4]), Read32(block[4..]);
        var keyBytes := Next(file, p + |head|, keyLength);
        p := p + |head| + |keyBytes|;
        var valueBytes := Next(file, p, valueLength);
        p := p + |valueBytes|;
        entries := [Entry(CString(keyBytes), Read64(Padded(valueBytes)))] + entries;
        assert all[1..] == LoadFrom(file, p, block).entries;
        head := Next(file, p, 8);
      }
    }

    /** A cache saved and loaded into this one. */
    method Reload(other: Cache)
      modifies this
      ensures entries == Reversed(old(other.entries)) + old(entries)
    {
      var file := other.SerializedToFile();
      LoadSaved(file, 0, ZeroBlock, other.entries);
      UnserializedFromFile(file);
    }
  }
}
