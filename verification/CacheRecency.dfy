/** What least recently used means: over every history of looks, stores and invalidations, the cache is ordered by
    when each file was last used, holds what was last stored under its name, and evicts the files used longest ago. */
module CacheRecency {
  import opened Blocks
  import opened Wrappers
  import opened Cache
  import CL = CacheLoads

  datatype Use = Look(name: Name) | Store(name: Name, data: seq<byte>, budget: int) | Drop(name: Name) | DropAll

  function Apply(entries: seq<Entry>, u: Use): seq<Entry> {
    match u
    case Look(name) => Touch(entries, name)
    case Store(name, data, budget) => Stored(entries, name, data, budget)
    case Drop(name) => Without(entries, name)
    case DropAll => []
  }

  /** The entries after the first n uses. */
  function After(uses: seq<Use>, n: nat): seq<Entry>
    requires n <= |uses|
  {
    if n == 0 then [] else Apply(After(uses, n - 1), uses[n - 1])
  }

  predicate Names(u: Use, name: Name) {
    (u.Look? || u.Store?) && u.name == name
  }

  /** One more than the index of the last of the first n uses that looks at or stores this name, or 0. */
  function LastUse(uses: seq<Use>, n: nat, name: Name): (t: nat)
    requires n <= |uses|
    ensures t <= n && (t > 0 ==> Names(uses[t - 1], name))
    ensures forall i | t <= i < n :: !Names(uses[i], name)
  {
    if n == 0 then 0 else if Names(uses[n - 1], name) then n else LastUse(uses, n - 1, name)
  }

  /** The same for stores. */
  function LastStore(uses: seq<Use>, n: nat, name: Name): (t: nat)
    requires n <= |uses|
    ensures t <= n && (t > 0 ==> uses[t - 1].Store? && uses[t - 1].name == name)
    ensures forall i | t <= i < n :: !(uses[i].Store? && uses[i].name == name)
  {
    if n == 0 then 0 else if uses[n - 1].Store? && uses[n - 1].name == name then n else LastStore(uses, n - 1, name)
  }

  /** Every entry was used, earlier ones before later ones. */
  predicate ByUse(uses: seq<Use>, n: nat, entries: seq<Entry>)
    requires n <= |uses|
  {
    && (forall i | 0 <= i < |entries| :: LastUse(uses, n, entries[i].name) > 0)
    && forall i, j | 0 <= i < j < |entries| :: LastUse(uses, n, entries[i].name) < LastUse(uses, n, entries[j].name)
  }

  /** Every entry holds what was last stored under its name. */
  predicate Current(uses: seq<Use>, n: nat, entries: seq<Entry>)
    requires n <= |uses|
  {
    forall e | e in entries :: LastStore(uses, n, e.name) > 0 && uses[LastStore(uses, n, e.name) - 1].data == e.data
  }

  lemma ByUseDistinct(uses: seq<Use>, n: nat, entries: seq<Entry>)
    requires n <= |uses| && ByUse(uses, n, entries)
    ensures Distinct(entries)
  {
    hide LastUse;
  }

  /** Leaving entries out keeps the order. */
  lemma ByUseExcept(uses: seq<Use>, n: nat, entries: seq<Entry>, i: nat)
    requires n <= |uses| && ByUse(uses, n, entries) && i < |entries|
    ensures ByUse(uses, n, Except(entries, i))
  {
    hide LastUse;
    var r := Except(entries, i);
    assert forall k | 0 <= k < |r| :: r[k] == entries[if k < i then k else k + 1];
  }

  lemma ByUseSuffix(uses: seq<Use>, n: nat, entries: seq<Entry>, k: nat)
    requires n <= |uses| && ByUse(uses, n, entries) && k <= |entries|
    ensures ByUse(uses, n, entries[k..])
  {
    hide LastUse;
  }

  /** A name that is neither looked at nor stored keeps its place in time. */
  lemma ByUseLater(uses: seq<Use>, n: nat, entries: seq<Entry>)
    requires n < |uses| && ByUse(uses, n, entries) && forall e | e in entries :: !Names(uses[n], e.name)
    ensures ByUse(uses, n + 1, entries)
  {
    hide Names;
    forall i | 0 <= i < |entries| ensures LastUse(uses, n + 1, entries[i].name) == LastUse(uses, n, entries[i].name) {
      assert entries[i] in entries;
    }
  }

  /** The name just used goes last. */
  lemma ByUseAppend(uses: seq<Use>, n: nat, entries: seq<Entry>, e: Entry)
    requires n < |uses| && ByUse(uses, n, entries) && Names(uses[n], e.name)
    requires forall x | x in entries :: x.name != e.name
    ensures ByUse(uses, n + 1, entries + [e])
  {
    forall x | x in entries ensures !Names(uses[n], x.name) {
    }
    ByUseLater(uses, n, entries);
    assert LastUse(uses, n + 1, e.name) == n + 1;
    forall i | 0 <= i < |entries| ensures LastUse(uses, n + 1, entries[i].name) < n + 1 {
      assert entries[i] in entries;
    }
  }

  lemma ByUseWithout(uses: seq<Use>, n: nat, entries: seq<Entry>, name: Name)
    requires n <= |uses| && ByUse(uses, n, entries)
    ensures ByUse(uses, n, Without(entries, name))
  {
    hide LastUse, Except;
    ByUseDistinct(uses, n, entries);
    if i: nat :| i < |entries| && entries[i].name == name {
      WithoutIs(entries, i);
      ByUseExcept(uses, n, entries, i);
    } else {
      WithoutAbsent(entries, name);
    }
  }

  lemma EvictIsSuffix(entries: seq<Entry>, budget: int) returns (k: nat)
    ensures k <= |entries| && Evict(entries, budget) == entries[k..]
  {
    if Size(entries) > budget && entries != [] {
      var j := EvictIsSuffix(entries[1..], budget);
      k := j + 1;
      assert entries[1..][j..] == entries[k..];
    } else {
      k := 0;
      assert entries[0..] == entries;
    }
  }

  lemma LookOrdered(uses: seq<Use>, n: nat, entries: seq<Entry>, name: Name)
    requires n < |uses| && uses[n] == Look(name) && ByUse(uses, n, entries)
    ensures ByUse(uses, n + 1, Touch(entries, name))
  {
    hide LastUse, ByUse;
    var d := Lookup(entries, name);
    if d.Some? {
      ByUseWithout(uses, n, entries, name);
      ByUseAppend(uses, n, Without(entries, name), Entry(name, d.value));
    } else {
      ByUseLater(uses, n, entries);
    }
  }

  lemma StoreOrdered(uses: seq<Use>, n: nat, entries: seq<Entry>, name: Name, data: seq<byte>, budget: int)
    requires n < |uses| && uses[n] == Store(name, data, budget) && ByUse(uses, n, entries)
    ensures ByUse(uses, n + 1, Without(entries, name) + [Entry(name, data)])
    ensures ByUse(uses, n + 1, Stored(entries, name, data, budget))
  {
    hide LastUse, ByUse, Evict;
    var all := Without(entries, name) + [Entry(name, data)];
    ByUseWithout(uses, n, entries, name);
    ByUseAppend(uses, n, Without(entries, name), Entry(name, data));
    var k := EvictIsSuffix(all, budget);
    ByUseSuffix(uses, n + 1, all, k);
  }

  lemma DropOrdered(uses: seq<Use>, n: nat, entries: seq<Entry>)
    requires n < |uses| && (uses[n].Drop? || uses[n].DropAll?) && ByUse(uses, n, entries)
    ensures ByUse(uses, n + 1, Apply(entries, uses[n]))
  {
    hide LastUse, ByUse;
    if uses[n].Drop? {
      ByUseWithout(uses, n, entries, uses[n].name);
      ByUseLater(uses, n, Without(entries, uses[n].name));
    } else {
      ByUseNothing(uses, n + 1);
    }
  }

  lemma ByUseNothing(uses: seq<Use>, n: nat)
    requires n <= |uses|
    ensures ByUse(uses, n, [])
  {
  }

  /** Over every history the entries stand in the order of their last use, each name once. */
  lemma {:induction false} OrderedByUse(uses: seq<Use>, n: nat)
    requires n <= |uses|
    ensures ByUse(uses, n, After(uses, n)) && Distinct(After(uses, n))
  {
    hide LastUse, ByUse, Touch, Stored, Distinct;
    if n == 0 {
      ByUseNothing(uses, 0);
    } else {
      OrderedByUse(uses, n - 1);
      var entries := After(uses, n - 1);
      match uses[n - 1]
      case Look(name) => LookOrdered(uses, n - 1, entries, name);
      case Store(name, data, budget) => StoreOrdered(uses, n - 1, entries, name, data, budget);
      case _ => DropOrdered(uses, n - 1, entries);
    }
    ByUseDistinct(uses, n, After(uses, n));
  }

  /** What a store evicts was used less recently than everything it keeps. */
  lemma EvictsLeastRecent(uses: seq<Use>, n: nat, out: Entry, kept: Entry)
    requires n < |uses| && uses[n].Store?
    requires out in After(uses, n) && out.name != uses[n].name && out !in After(uses, n + 1)
    requires kept in After(uses, n + 1)
    ensures LastUse(uses, n + 1, out.name) < LastUse(uses, n + 1, kept.name)
  {
    hide LastUse, Evict, ByUse, Without, Distinct, After;
    var u, entries := uses[n], After(uses, n);
    AfterStore(uses, n);
    OrderedByUse(uses, n);
    StoreOrdered(uses, n, entries, u.name, u.data, u.budget);
    var all := Without(entries, u.name) + [Entry(u.name, u.data)];
    StaysWithout(entries, u.name, out);
    var k := EvictIsSuffix(all, u.budget);
    SuffixIsLater(uses, n + 1, all, k, out, kept);
  }

  lemma AfterStore(uses: seq<Use>, n: nat)
    requires n < |uses| && uses[n].Store?
    ensures After(uses, n + 1) ==
            Evict(Without(After(uses, n), uses[n].name) + [Entry(uses[n].name, uses[n].data)], uses[n].budget)
  {
    hide Evict, Without;
  }

  lemma SuffixIsLater(uses: seq<Use>, n: nat, all: seq<Entry>, k: nat, out: Entry, kept: Entry)
    requires n <= |uses| && ByUse(uses, n, all) && k <= |all| && out in all && out !in all[k..] && kept in all[k..]
    ensures LastUse(uses, n, out.name) < LastUse(uses, n, kept.name)
  {
    hide LastUse;
    var i :| 0 <= i < |all| && all[i] == out;
    var j :| 0 <= j < |all[k..]| && all[k..][j] == kept;
    assert forall m | k <= m < |all| :: all[m] == all[k..][m - k];
    assert i < k;
    assert all[k + j] == kept;
  }

  lemma {:induction false} StaysWithout(entries: seq<Entry>, name: Name, e: Entry)
    requires e in entries && e.name != name
    ensures e in Without(entries, name)
  {
    if entries[0] != e {
      assert e in entries[1..];
      StaysWithout(entries[1..], name, e);
    }
  }

  lemma CurrentSubset(uses: seq<Use>, n: nat, entries: seq<Entry>, fewer: seq<Entry>)
    requires n < |uses| && Current(uses, n, entries) && forall e | e in fewer :: e in entries
    requires uses[n].Store? ==> forall e | e in fewer :: e.name != uses[n].name
    ensures Current(uses, n + 1, fewer)
  {
  }

  /** Over every history each entry holds what was last stored under its name. */
  lemma {:induction false} HoldsLastStored(uses: seq<Use>, n: nat)
    requires n <= |uses|
    ensures Current(uses, n, After(uses, n))
  {
    hide Current, Touch, Stored, Without;
    if n == 0 {
      NothingCurrent(uses, 0);
    } else {
      HoldsLastStored(uses, n - 1);
      CurrentStep(uses, n - 1, After(uses, n - 1));
    }
  }

  lemma NothingCurrent(uses: seq<Use>, n: nat)
    requires n <= |uses|
    ensures Current(uses, n, [])
  {
  }

  lemma CurrentStep(uses: seq<Use>, n: nat, entries: seq<Entry>)
    requires n < |uses| && Current(uses, n, entries)
    ensures Current(uses, n + 1, Apply(entries, uses[n]))
  {
    hide Current, Evict, Touch;
    match uses[n]
    case Look(name) =>
      TouchIsSubset(entries, name);
      CurrentSubset(uses, n, entries, Touch(entries, name));
    case Store(name, data, budget) =>
      CurrentSubset(uses, n, entries, Without(entries, name));
      StoredCurrent(uses, n, Without(entries, name));
    case Drop(name) => CurrentSubset(uses, n, entries, Without(entries, name));
    case DropAll => NothingCurrent(uses, n + 1);
  }

  lemma TouchIsSubset(entries: seq<Entry>, name: Name)
    ensures forall e | e in Touch(entries, name) :: e in entries
  {
  }

  lemma StoredCurrent(uses: seq<Use>, n: nat, rest: seq<Entry>)
    requires n < |uses| && uses[n].Store? && Current(uses, n + 1, rest)
    ensures Current(uses, n + 1, Evict(rest + [Entry(uses[n].name, uses[n].data)], uses[n].budget))
  {
    hide Evict;
    assert LastStore(uses, n + 1, uses[n].name) == n + 1;
  }

  // ---- Concurrent loads ----------------------------------------------

  /** What a move of a caller, a loader or the configuration is to the entries, if anything. */
  function UseOf(s: CL.State, m: CL.Move): seq<Use>
    requires CL.Enabled(s, m)
  {
    match m
    case Look(i) => if s.enabled then [Look(s.callers[i].name)] else []
    case StoreDone(f) => [Store(s.loaders[f].name, s.loaders[f].phase.data, s.maxBytes)]
    case Invalidate(name) => [Drop(name)]
    case InvalidateAll => [DropAll]
    case Reconfigure(_, _, enabled) => if enabled then [] else [DropAll]
    case _ => []
  }

  function UsesOf(src: CL.Source, run: CL.Run): seq<Use>
    requires CL.Runnable(src, run)
  {
    match run
    case Start(_, _, _) => []
    case Then(before, m) => UsesOf(src, before) + UseOf(CL.Exec(src, before), m)
  }

  lemma {:induction false} AfterPrefix(a: seq<Use>, b: seq<Use>, n: nat)
    requires n <= |a|
    ensures After(a + b, n) == After(a, n)
  {
    hide Apply;
    if n > 0 {
      AfterPrefix(a, b, n - 1);
    }
  }

  lemma MoveIsUse(src: CL.Source, s: CL.State, m: CL.Move)
    requires CL.Enabled(s, m)
    ensures var us := UseOf(s, m);
            CL.Apply(src, s, m).entries == if us == [] then s.entries else Apply(s.entries, us[0])
    ensures |UseOf(s, m)| <= 1
  {
    hide Lookup, Without, Evict;
    if m.Look? {
      MissTouches(s.entries, s.callers[m.caller].name);
    }
  }

  lemma MissTouches(entries: seq<Entry>, name: Name)
    ensures Lookup(entries, name).None? ==> Touch(entries, name) == entries
  {
  }

  /** In every interleaving of callers, loaders and the configuration the entries are those of that history of uses, and
      so stand in the order of their last use. */
  lemma {:induction false} LoadsAreHistory(src: CL.Source, run: CL.Run)
    requires CL.Runnable(src, run)
    ensures var us := UsesOf(src, run);
            CL.Exec(src, run).entries == After(us, |us|) && ByUse(us, |us|, CL.Exec(src, run).entries)
  {
    hide CL.Apply, CL.Enabled, Apply, ByUse, UseOf;
    if run.Then? {
      LoadsAreHistory(src, run.before);
      var a, s := UsesOf(src, run.before), CL.Exec(src, run.before);
      var b := UseOf(s, run.move);
      MoveIsUse(src, s, run.move);
      AfterPrefix(a, b, |a|);
      assert b != [] ==> (a + b)[|a|] == b[0];
    }
    OrderedByUse(UsesOf(src, run), |UsesOf(src, run)|);
  }

  // ---- When files are cached and loads are shared --------------------

  /** A call is answered from the cache exactly when the cache is on and has the file. */
  lemma LookExact(src: CL.Source, s: CL.State, i: nat)
    requires CL.Enabled(s, CL.Look(i))
    ensures var name := s.callers[i].name;
            var c := CL.Apply(src, s, CL.Look(i)).callers[i];
            && (c.Answered? <==> s.enabled && exists e :: e in s.entries && e.name == name)
            && (c.Answered? ==> c.data.Some? && Entry(name, c.data.value) in s.entries && c.via == None)
            && (!c.Answered? ==> c == CL.Missed(name))
  {
  }

  /** A file that was read is kept exactly when it exists, the cache is on and it is no larger than a cached file
      may be; otherwise callers get it at once. */
  lemma LoadExact(src: CL.Source, s: CL.State, f: nat)
    requires CL.Enabled(s, CL.ReadDone(f))
    ensures var name := s.loaders[f].name;
            var s' := CL.Apply(src, s, CL.ReadDone(f));
            if name in src && s.enabled && |src[name]| <= s.maxFileBytes
            then s'.loaders[f].phase == CL.Storing(src[name]) && s'.futures == s.futures
            else s'.loaders[f].phase == CL.Retiring
                 && s'.futures[f].result == CL.Returned(if name in src then Some(src[name]) else None)
  {
  }

  /** A miss waits for the load in flight if there is one, and otherwise starts one. */
  lemma JoinExact(src: CL.Source, s: CL.State, i: nat)
    requires CL.Enabled(s, CL.Join(i))
    ensures var name := s.callers[i].name;
            var s' := CL.Apply(src, s, CL.Join(i));
            && (name in s.inflight ==>
                  s' == s.(callers := s.callers[i := CL.Awaiting(name, s.inflight[name])]))
            && (name !in s.inflight ==>
                  && |s'.futures| == |s.futures| + 1 && s'.futures[|s.futures|] == CL.Future(name, CL.Pending)
                  && s'.loaders == s.loaders[|s.futures| := CL.Loader(name, CL.Reading)]
                  && s'.inflight == s.inflight[name := |s.futures|]
                  && s'.callers[i] == CL.Awaiting(name, |s.futures|))
  {
  }
}
