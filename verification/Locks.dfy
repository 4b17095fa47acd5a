/** Readers-writer locks on file names (core/file_lock.py). */
module Locks {
  type Name = string

  datatype Entry = Entry(readers: nat, writer: bool)

  type Table = map<Name, Entry>

  /** The entry of a path, as `setdefault` finds or makes it. */
  function EntryOf(t: Table, path: Name): Entry {
    if path in t then t[path] else Entry(0, false)
  }

  /** A refused attempt leaves behind the entry it looked at. */
  function AcquireRead(t: Table, path: Name): (Table, bool) {
    var e := EntryOf(t, path);
    if e.writer then (t[path := e], false) else (t[path := e.(readers := e.readers + 1)], true)
  }

  function AcquireWrite(t: Table, path: Name): (Table, bool) {
    var e := EntryOf(t, path);
    if e.writer || e.readers > 0 then (t[path := e], false) else (t[path := e.(writer := true)], true)
  }

  /** An entry nobody holds is dropped. */
  function Collect(t: Table, path: Name, e: Entry): Table {
    if !e.writer && e.readers == 0 then t - {path} else t[path := e]
  }

  function ReleaseRead(t: Table, path: Name): Table {
    if path !in t then t
    else
      var e := t[path];
      Collect(t, path, e.(readers := if e.readers > 0 then e.readers - 1 else 0))
  }

  function ReleaseWrite(t: Table, path: Name): Table {
    if path !in t then t else Collect(t, path, t[path].(writer := false))
  }

  class FileLockManager {
    var entries: Table

    /** Every entry is held, by readers or by one writer but not by both. */
    ghost predicate Valid()
      reads this
    {
      forall path | path in entries :: entries[path].writer <==> entries[path].readers == 0
    }

    constructor ()
      ensures Valid() && entries == map[]
    {
      entries := map[];
    }

    method TakeRead(path: Name) returns (ok: bool)
      requires Valid()
      modifies this
      ensures Valid()
      ensures (entries, ok) == AcquireRead(old(entries), path)
    {
      var e := if path in entries then entries[path] else Entry(0, false);
      entries := entries[path := e];
      ok := !e.writer;
      if ok {
        entries := entries[path := e.(readers := e.readers + 1)];
        assert entries == old(entries)[path := e.(readers := e.readers + 1)];
      }
    }

    method DropRead(path: Name)
      requires Valid()
      modifies this
      ensures Valid()
      ensures entries == ReleaseRead(old(entries), path)
    {
      if path !in entries {
        return;
      }
      var e := entries[path];
      entries := entries[path := e.(readers := if e.readers > 0 then e.readers - 1 else 0)];
      Gc(path);
    }

    method TakeWrite(path: Name) returns (ok: bool)
      requires Valid()
      modifies this
      ensures Valid()
      ensures (entries, ok) == AcquireWrite(old(entries), path)
    {
      var e := if path in entries then entries[path] else Entry(0, false);
      entries := entries[path := e];
      ok := !e.writer && e.readers == 0;
      if ok {
        entries := entries[path := e.(writer := true)];
        assert entries == old(entries)[path := e.(writer := true)];
      }
    }

    method DropWrite(path: Name)
      requires Valid()
      modifies this
      ensures Valid()
      ensures entries == ReleaseWrite(old(entries), path)
    {
      if path !in entries {
        return;
      }
      entries := entries[path := entries[path].(writer := false)];
      Gc(path);
    }

    method Gc(path: Name)
      requires path in entries
      modifies this
      ensures entries == Collect(old(entries), path, old(entries)[path])
    {
      if !entries[path].writer && entries[path].readers == 0 {
        entries := entries - {path};
      }
    }
  }

  // ---- Sessions entering and leaving ------------------------------------

  datatype Hold = Reading(path: Name) | Writing(path: Name)

  /** The table and the context each session is inside of. */
  datatype State = State(table: Table, holders: map<nat, Hold>)

  datatype Move = Enter(session: nat, hold: Hold) | Leave(session: nat)

  predicate Enabled(s: State, m: Move) {
    match m
    case Enter(id, _) => id !in s.holders
    case Leave(id) => id in s.holders
  }

  /** A session whose attempt is refused is not inside. */
  function Apply(s: State, m: Move): State
    requires Enabled(s, m)
  {
    match m
    case Enter(id, hold) =>
      var (t, ok) := if hold.Reading? then AcquireRead(s.table, hold.path) else AcquireWrite(s.table, hold.path);
      State(t, if ok then s.holders[id := hold] else s.holders)
    case Leave(id) =>
      var hold := s.holders[id];
      var t := if hold.Reading? then ReleaseRead(s.table, hold.path) else ReleaseWrite(s.table, hold.path);
      State(t, s.holders - {id})
  }

  datatype Run = Start | Then(before: Run, move: Move)

  predicate Runnable(run: Run)
    decreases run, 0
  {
    run.Then? ==> Runnable(run.before) && Enabled(Exec(run.before), run.move)
  }

  function Exec(run: Run): State
    requires Runnable(run)
    decreases run, 1
  {
    match run
    case Start => State(map[], map[])
    case Then(before, m) => Apply(Exec(before), m)
  }

  function Inside(holders: map<nat, Hold>, hold: Hold): set<nat> {
    set id | id in holders && holders[id] == hold
  }

  /** The table says exactly who is inside: the number of readers, whether there is a writer, never
      both and never two writers; and it has an entry only for a path somebody holds. */
  predicate Exact(s: State, path: Name) {
    var readers, writers := |Inside(s.holders, Reading(path))|, |Inside(s.holders, Writing(path))|;
    && EntryOf(s.table, path) == Entry(readers, writers == 1)
    && (writers == 0 || (writers == 1 && readers == 0))
    && (path in s.table <==> readers + writers > 0)
  }

  ghost predicate AllExact(s: State) {
    forall path :: Exact(s, path)
  }

  lemma EnterCounts(holders: map<nat, Hold>, id: nat, hold: Hold, other: Hold)
    requires id !in holders
    ensures |Inside(holders[id := hold], other)| == |Inside(holders, other)| + if other == hold then 1 else 0
  {
    var after := Inside(holders[id := hold], other);
    if other == hold {
      assert after == Inside(holders, other) + {id};
    } else {
      assert after == Inside(holders, other);
    }
  }

  lemma LeaveCounts(holders: map<nat, Hold>, id: nat, other: Hold)
    requires id in holders
    ensures |Inside(holders - {id}, other)| == |Inside(holders, other)| - if other == holders[id] then 1 else 0
  {
    var after := Inside(holders - {id}, other);
    if other == holders[id] {
      assert id in Inside(holders, other);
      assert after == Inside(holders, other) - {id};
    } else {
      assert after == Inside(holders, other);
    }
  }

  lemma EnterExact(s: State, id: nat, hold: Hold, path: Name)
    requires Enabled(s, Enter(id, hold)) && Exact(s, path) && Exact(s, hold.path)
    ensures Exact(Apply(s, Enter(id, hold)), path)
  {
    hide Inside;
    EnterCounts(s.holders, id, hold, Reading(path));
    EnterCounts(s.holders, id, hold, Writing(path));
  }

  lemma LeaveExact(s: State, id: nat, path: Name)
    requires Enabled(s, Leave(id)) && Exact(s, path) && Exact(s, s.holders[id].path)
    ensures Exact(Apply(s, Leave(id)), path)
  {
    SomebodyInside(s.holders, id);
    hide Inside;
    LeaveCounts(s.holders, id, Reading(path));
    LeaveCounts(s.holders, id, Writing(path));
  }

  lemma SomebodyInside(holders: map<nat, Hold>, id: nat)
    requires id in holders
    ensures |Inside(holders, holders[id])| > 0
  {
    assert id in Inside(holders, holders[id]);
  }

  /** In every interleaving of sessions entering and leaving, the lock table is exact for every path. */
  lemma {:induction false} TableIsExact(run: Run)
    requires Runnable(run)
    ensures AllExact(Exec(run))
  {
    hide Exact, Apply;
    match run
    case Start =>
      forall path ensures Exact(Exec(run), path) {
        StartExact(path);
      }
    case Then(before, m) =>
      TableIsExact(before);
      var s := Exec(before);
      forall path ensures Exact(Exec(run), path) {
        match m
        case Enter(id, hold) => EnterExact(s, id, hold, path);
        case Leave(id) => LeaveExact(s, id, path);
      }
  }

  lemma StartExact(path: Name)
    ensures Exact(State(map[], map[]), path)
  {
    assert Inside(map[], Reading(path)) == {} && Inside(map[], Writing(path)) == {};
  }

  /** In every interleaving a reader is let in exactly when nobody writes the file, and a writer exactly when nobody is
      inside. */
  lemma AdmittedIff(run: Run, id: nat, hold: Hold)
    requires Runnable(run) && id !in Exec(run).holders
    ensures var s := Exec(run);
            var path := hold.path;
            id in Apply(s, Enter(id, hold)).holders <==>
            forall other | other in s.holders && s.holders[other].path == path ::
              hold.Reading? && s.holders[other].Reading?
  {
    TableIsExact(run);
    var s, path := Exec(run), hold.path;
    assert Exact(s, path);
    if other :| other in s.holders && s.holders[other].path == path && !(hold.Reading? && s.holders[other].Reading?) {
      SomebodyInside(s.holders, other);
    } else {
      NobodyInside(s.holders, Writing(path));
      if hold.Writing? {
        NobodyInside(s.holders, Reading(path));
      }
    }
  }

  lemma NobodyInside(holders: map<nat, Hold>, hold: Hold)
    requires forall other | other in holders :: holders[other] != hold
    ensures |Inside(holders, hold)| == 0
  {
    assert Inside(holders, hold) == {};
  }

  /** So no session ever writes a file another one reads or writes. */
  lemma WriterIsAlone(run: Run, writer: nat, other: nat)
    requires Runnable(run) && writer in Exec(run).holders && other in Exec(run).holders && writer != other
    requires Exec(run).holders[writer].Writing?
    ensures Exec(run).holders[other].path != Exec(run).holders[writer].path
  {
    TableIsExact(run);
    var s := Exec(run);
    var path := s.holders[writer].path;
    assert Exact(s, path);
    SomebodyInside(s.holders, writer);
    SomebodyInside(s.holders, other);
    if s.holders[other] == Writing(path) {
      TwoInside(s.holders, writer, other);
    }
  }

  lemma TwoInside(holders: map<nat, Hold>, a: nat, b: nat)
    requires a in holders && b in holders && a != b && holders[a] == holders[b]
    ensures |Inside(holders, holders[a])| >= 2
  {
    var all := Inside(holders, holders[a]);
    assert a in all && b in all - {a};
    assert |all| == |all - {a}| + 1;
  }
}
