/** The least-recently-used file cache (files/cache.py). Entries are kept as the ordered dictionary
    keeps them, least recently used first. */
module Cache {
  import opened Blocks
  import opened Wrappers

  type Name = string

  datatype Entry = Entry(name: Name, data: seq<byte>)

  function Size(entries: seq<Entry>): nat {
    if entries == [] then 0 else |entries[0].data| + Size(entries[1..])
  }

  predicate Distinct(entries: seq<Entry>) {
    forall i, j | 0 <= i < j < |entries| :: entries[i].name != entries[j].name
  }

  /** The entries without the one of this name. */
  function Without(entries: seq<Entry>, name: Name): (r: seq<Entry>)
    ensures forall e | e in r :: e in entries && e.name != name
    ensures |r| <= |entries|
  {
    if entries == [] then []
    else if entries[0].name == name then Without(entries[1..], name)
    else [entries[0]] + Without(entries[1..], name)
  }

  function Lookup(entries: seq<Entry>, name: Name): (r: Option<seq<byte>>)
    ensures r.Some? ==> Entry(name, r.value) in entries
    ensures r.None? ==> forall e | e in entries :: e.name != name
  {
    if entries == [] then None
    else if entries[0].name == name then Some(entries[0].data)
    else Lookup(entries[1..], name)
  }

  /** A hit moves its entry to the most-recently-used end. */
  function Touch(entries: seq<Entry>, name: Name): seq<Entry> {
    var d := Lookup(entries, name);
    if d.None? then entries else Without(entries, name) + [Entry(name, d.value)]
  }

  function Evict(entries: seq<Entry>, maxBytes: int): (r: seq<Entry>)
    ensures forall e | e in r :: e in entries
  {
    if Size(entries) > maxBytes && entries != [] then Evict(entries[1..], maxBytes) else entries
  }

  /** What a store makes of the entries: the new one last, then the oldest dropped until it fits. */
  function Stored(entries: seq<Entry>, name: Name, data: seq<byte>, maxBytes: int): seq<Entry> {
    Evict(Without(entries, name) + [Entry(name, data)], maxBytes)
  }

  // ---- Lemmas about the entries ---------------------------------------

  lemma {:induction false} SizeAppend(a: seq<Entry>, b: seq<Entry>)
    ensures Size(a + b) == Size(a) + Size(b)
  {
    if a == [] {
      assert a + b == b;
    } else {
      assert (a + b)[1..] == a[1..] + b;
      SizeAppend(a[1..], b);
    }
  }

  lemma {:induction false} WithoutAbsent(entries: seq<Entry>, name: Name)
    requires forall e | e in entries :: e.name != name
    ensures Without(entries, name) == entries
  {
    if entries != [] {
      assert entries[0] in entries;
      WithoutAbsent(entries[1..], name);
    }
  }

  lemma {:induction false} WithoutDistinct(entries: seq<Entry>, name: Name)
    requires Distinct(entries)
    ensures Distinct(Without(entries, name))
  {
    if entries != [] {
      WithoutDistinct(entries[1..], name);
      var rest := Without(entries[1..], name);
      forall i | 0 <= i < |rest| ensures rest[i].name != entries[0].name {
        assert rest[i] in entries[1..];
      }
    }
  }

  lemma {:induction false} WithoutSize(entries: seq<Entry>, name: Name)
    requires Distinct(entries)
    ensures Distinct(Without(entries, name))
    ensures Lookup(entries, name).None? ==> Without(entries, name) == entries
    ensures var d := Lookup(entries, name);
            Size(Without(entries, name)) == Size(entries) - if d.Some? then |d.value| else 0
  {
    WithoutDistinct(entries, name);
    if entries != [] {
      if entries[0].name == name {
        WithoutAbsent(entries[1..], name);
      } else {
        WithoutSize(entries[1..], name);
      }
    }
  }

  lemma DistinctAppend(entries: seq<Entry>, e: Entry)
    requires Distinct(entries) && forall k | k in entries :: k.name != e.name
    ensures Distinct(entries + [e])
  {
  }

  lemma {:induction false} EvictDistinct(entries: seq<Entry>, maxBytes: int)
    requires Distinct(entries)
    ensures Distinct(Evict(entries, maxBytes))
  {
    if Size(entries) > maxBytes && entries != [] {
      EvictDistinct(entries[1..], maxBytes);
    }
  }

  /** Eviction keeps exactly the longest most-recently-used suffix that fits the budget. */
  lemma {:induction false} EvictKeepsLongestSuffix(entries: seq<Entry>, maxBytes: int) returns (k: nat)
    requires maxBytes >= 0
    ensures k <= |entries| && Evict(entries, maxBytes) == entries[k..]
    ensures Size(entries[k..]) <= maxBytes
    ensures forall j: nat | j < k :: Size(entries[j..]) > maxBytes
  {
    if Size(entries) > maxBytes && entries != [] {
      var k' := EvictKeepsLongestSuffix(entries[1..], maxBytes);
      k := k' + 1;
      assert entries[1..][k'..] == entries[k..];
      forall j: nat | j < k ensures Size(entries[j..]) > maxBytes {
        if j == 0 {
          assert entries[0..] == entries;
        } else {
          assert entries[1..][j - 1..] == entries[j..];
        }
      }
    } else {
      k := 0;
      assert entries[0..] == entries;
    }
  }

  lemma {:induction false} EvictFits(entries: seq<Entry>, maxBytes: int)
    requires maxBytes >= 0
    ensures Size(Evict(entries, maxBytes)) <= maxBytes
  {
    if Size(entries) > maxBytes && entries != [] {
      EvictFits(entries[1..], maxBytes);
    }
  }

  /** After a store the cache fits its budget, holds the new file if that alone fits, and never holds
      a name twice. */
  lemma StoreMeetsBudget(entries: seq<Entry>, name: Name, data: seq<byte>, maxBytes: int)
    requires Distinct(entries) && maxBytes >= 0
    ensures Size(Stored(entries, name, data, maxBytes)) <= maxBytes
    ensures Distinct(Stored(entries, name, data, maxBytes))
    ensures Entry(name, data) in Stored(entries, name, data, maxBytes) <==> |data| <= maxBytes
  {
    var w := Without(entries, name);
    var e := Entry(name, data);
    WithoutSize(entries, name);
    DistinctAppend(w, e);
    EvictFits(w + [e], maxBytes);
    EvictDistinct(w + [e], maxBytes);
    LastSurvives(w, e, maxBytes);
  }

  lemma {:induction false} LastSurvives(w: seq<Entry>, e: Entry, maxBytes: int)
    requires maxBytes >= 0
    ensures |e.data| <= maxBytes ==> e in Evict(w + [e], maxBytes)
    ensures |e.data| > maxBytes ==> Evict(w + [e], maxBytes) == []
  {
    SizeAppend(w, [e]);
    assert Size([e]) == |e.data|;
    if w == [] {
      assert w + [e] == [e] && [e][1..] == [];
    } else {
      assert (w + [e])[1..] == w[1..] + [e];
      LastSurvives(w[1..], e, maxBytes);
    }
  }

  // ---- Positions --------------------------------------------------------

  /** All entries but the i-th, in their order. */
  function Except(entries: seq<Entry>, i: nat): seq<Entry>
    requires i < |entries|
  {
    entries[..i] + entries[i + 1..]
  }

  /** Dropping a name drops its one entry and leaves the order of the others. */
  lemma {:induction false} WithoutIs(entries: seq<Entry>, i: nat)
    requires Distinct(entries) && i < |entries|
    ensures Without(entries, entries[i].name) == Except(entries, i)
    ensures Lookup(entries, entries[i].name) == Some(entries[i].data)
  {
    var name, rest := entries[i].name, entries[1..];
    if i == 0 {
      WithoutAbsent(rest, name);
      assert entries[..0] + rest == rest;
    } else {
      WithoutIs(rest, i - 1);
      assert rest[i - 1] == entries[i];
      assert [entries[0]] + (rest[..i - 1] + rest[i..]) == entries[..i] + entries[i + 1..];
    }
  }

  /** A hit makes its entry the last and leaves the order of the others; a miss changes nothing. */
  lemma TouchIs(entries: seq<Entry>, name: Name)
    requires Distinct(entries)
    ensures forall i | 0 <= i < |entries| && entries[i].name == name ::
              Touch(entries, name) == Except(entries, i) + [entries[i]]
    ensures (forall i | 0 <= i < |entries| :: entries[i].name != name) ==> Touch(entries, name) == entries
  {
    hide Except;
    forall i | 0 <= i < |entries| && entries[i].name == name
      ensures Touch(entries, name) == Except(entries, i) + [entries[i]]
    {
      WithoutIs(entries, i);
    }
  }

  // ---- The cache object ------------------------------------------------

  class FileCache {
    var maxBytes: int
    var maxFileBytes: int
    var enabled: bool
    var entries: seq<Entry>
    var bytes: int

    ghost predicate Valid()
      reads this
    {
      bytes == Size(entries) && Distinct(entries)
    }

    constructor (maxBytes: int, maxFileBytes: int, enabled: bool)
      ensures Valid() && entries == []
      ensures this.maxBytes == maxBytes && this.maxFileBytes == maxFileBytes && this.enabled == enabled
    {
      this.maxBytes, this.maxFileBytes, this.enabled := maxBytes, maxFileBytes, enabled;
      entries, bytes := [], 0;
    }

    /** Changing the limits does not trim; disabling empties the cache. */
    method Update(maxBytes: int, maxFileBytes: int, enabled: bool)
      requires Valid()
      modifies this
      ensures Valid() && entries == if enabled then old(entries) else []
      ensures this.maxBytes == maxBytes && this.maxFileBytes == maxFileBytes && this.enabled == enabled
    {
      this.maxBytes, this.maxFileBytes, this.enabled := maxBytes, maxFileBytes, enabled;
      if !enabled {
        entries, bytes := [], 0;
      }
    }

    method Peek(name: Name) returns (data: Option<seq<byte>>)
      requires Valid()
      modifies this`entries
      ensures Valid() && data == Lookup(old(entries), name) && entries == Touch(old(entries), name)
      ensures forall i | 0 <= i < |old(entries)| && old(entries)[i].name == name ::
                data == Some(old(entries)[i].data) && entries == Except(old(entries), i) + [old(entries)[i]]
      ensures (forall i | 0 <= i < |old(entries)| :: old(entries)[i].name != name) ==>
                data.None? && entries == old(entries)
    {
      TouchIs(entries, name);
      forall i | 0 <= i < |entries| && entries[i].name == name ensures Lookup(entries, name) == Some(entries[i].data) {
        WithoutIs(entries, i);
      }
      data := Lookup(entries, name);
      if data.None? {
        return;
      }
      var rest := Without(entries, name);
      WithoutSize(entries, name);
      SizeAppend(rest, [Entry(name, data.value)]);
      DistinctAppend(rest, Entry(name, data.value));
      entries := rest + [Entry(name, data.value)];
    }

    method Store(name: Name, data: seq<byte>)
      requires Valid()
      modifies this`entries, this`bytes
      ensures Valid() && entries == Stored(old(entries), name, data, maxBytes)
    {
      WithoutSize(entries, name);
      var d := Lookup(entries, name);
      if d.Some? {
        bytes := bytes - |d.value|;
        entries := Without(entries, name);
      }
      SizeAppend(entries, [Entry(name, data)]);
      DistinctAppend(entries, Entry(name, data));
      entries := entries + [Entry(name, data)];
      bytes := bytes + |data|;
      ghost var before := entries;
      while bytes > maxBytes && entries != []
        invariant bytes == Size(entries) && Distinct(entries)
        invariant Evict(entries, maxBytes) == Evict(before, maxBytes)
        decreases |entries|
      {
        bytes := bytes - |entries[0].data|;
        entries := entries[1..];
      }
    }

    method Invalidate(name: Option<Name>)
      requires Valid()
      modifies this`entries, this`bytes
      ensures Valid()
      ensures entries == if name.None? then [] else Without(old(entries), name.value)
    {
      if name.None? {
        entries, bytes := [], 0;
        return;
      }
      WithoutSize(entries, name.value);
      var d := Lookup(entries, name.value);
      if d.Some? {
        bytes := bytes - |d.value|;
        entries := Without(entries, name.value);
      }
    }
  }
}
