/**
 The invariant of the catalog system and its preservation by every step: what the version
 chains look like, and that each undo record still sits directly below the version it undoes.
 */
module CatalogInvariant {
  import opened Wrappers
  import opened CatalogModel

  // ---------------------------------------------------------------- the invariant

  /** A newer version over an older one: only one writer's versions lie on an uncommitted one. */
  ghost predicate LinkOK(newer: Version, older: Version) {
    && older.ref < newer.ref
    && older.ts <= newer.ts
    && (older.ts >= START_TRANSACTION_ID ==> newer.ts == older.ts)
  }

  /** A stamp is a past commit timestamp or the ID of an active writer. */
  ghost predicate StampKnown(ts: nat, active: map<nat, TxnState>, lastTS: nat) {
    ts <= lastTS || (ts in active && active[ts].writer)
  }

  /** Every link is in order, every stamp is known, and the oldest version is stamped 0. */
  ghost predicate ChainOK(chain: Versions, active: map<nat, TxnState>, lastTS: nat) {
    && chain != []
    && StampKnown(chain[0].ts, active, lastTS)
    && if |chain| == 1 then chain[0].ts == 0
       else LinkOK(chain[0], chain[1]) && ChainOK(chain[1..], active, lastTS)
  }

  /** The entries recorded for one name, oldest record first. */
  ghost function Refs(undo: seq<Record>, name: string): seq<nat> {
    if undo == [] then []
    else
      var r := undo[|undo| - 1];
      Refs(undo[..|undo| - 1], name) + if r.name == name then [r.ref] else []
  }

  /** The versions of one transaction head the chain, and the records of the name point, in
      order, just below each of them. */
  ghost predicate Matches(chain: Versions, refs: seq<nat>, id: nat) {
    && chain != []
    && if chain[0].ts != id then refs == []
       else |chain| > 1 && refs != [] && refs[|refs| - 1] == chain[1].ref
            && Matches(chain[1..], refs[..|refs| - 1], id)
  }

  ghost predicate UndoOK(entries: Entries, id: nat, undo: seq<Record>) {
    && (forall r :: r in undo ==> r.name in entries)
    && (forall n :: n in entries ==> Matches(entries[n], Refs(undo, n), id))
  }

  ghost predicate ClocksOK(s: System) {
    && s.lastTS < START_TRANSACTION_ID <= s.lastID
    && forall id :: id in s.active ==>
         START_TRANSACTION_ID < id <= s.lastID && s.active[id].startTS <= s.lastTS
  }

  ghost predicate ChainsOK(s: System) {
    forall n :: n in s.cat.entries ==>
      ChainOK(s.cat.entries[n], s.active, s.lastTS) && s.cat.entries[n][0].ref < s.cat.nextRef
  }

  ghost predicate UndosOK(s: System) {
    forall id :: id in s.active ==>
      && UndoOK(s.cat.entries, id, s.active[id].undo)
      && (!s.active[id].writer ==> s.active[id].undo == [])
  }

  ghost predicate Inv(s: System) {
    ClocksOK(s) && ChainsOK(s) && UndosOK(s)
  }

  /** Versions stamped 0, newest first: one for a loaded entry, a function over its dummy for a built-in one. */
  ghost predicate Loaded(chain: Versions) {
    && chain != [] && chain[0].ts == 0
    && (|chain| > 1 ==> chain[1].ref < chain[0].ref && Loaded(chain[1..]))
  }

  /** A system that has just loaded a catalog: every version is stamped 0. */
  ghost predicate Fresh(s: System) {
    && s.active == map[]
    && s.lastID == START_TRANSACTION_ID
    && s.lastTS == 1
    && forall n :: n in s.cat.entries ==> Loaded(s.cat.entries[n]) && s.cat.entries[n][0].ref < s.cat.nextRef
  }

  lemma {:induction false} LoadedIsOK(chain: Versions, lastTS: nat)
    requires Loaded(chain)
    ensures ChainOK(chain, map[], lastTS)
  {
    if |chain| > 1 {
      LoadedIsOK(chain[1..], lastTS);
    }
  }

  lemma FreshIsInv(s: System)
    requires Fresh(s)
    ensures Inv(s)
  {
    forall n | n in s.cat.entries ensures ChainOK(s.cat.entries[n], s.active, s.lastTS) {
      LoadedIsOK(s.cat.entries[n], s.lastTS);
    }
  }

  // ---------------------------------------------------------------- helpers

  lemma {:induction false} RefsAppend(a: seq<Record>, b: seq<Record>, name: string)
    ensures Refs(a + b, name) == Refs(a, name) + Refs(b, name)
  {
    if b == [] {
      assert a + b == a;
    } else {
      assert (a + b)[..|a + b| - 1] == a + b[..|b| - 1];
      RefsAppend(a, b[..|b| - 1], name);
    }
  }

  lemma RefsOne(r: Record, name: string)
    ensures Refs([r], name) == if r.name == name then [r.ref] else []
  {
    assert [r][..0] == [];
  }

  lemma {:induction false} RefsOfUnknown(entries: Entries, undo: seq<Record>, name: string)
    requires forall r :: r in undo ==> r.name in entries
    requires name !in entries
    ensures Refs(undo, name) == []
  {
    if undo != [] {
      assert undo[|undo| - 1] in undo;
      RefsOfUnknown(entries, undo[..|undo| - 1], name);
    }
  }

  /** What any transaction sees is never missing: the oldest version is visible to all. */
  lemma {:induction false} VisibleExists(chain: Versions, active: map<nat, TxnState>, lastTS: nat, t: Txn)
    requires ChainOK(chain, active, lastTS)
    ensures Visible(chain, t).Some?
  {
    if |chain| > 1 {
      VisibleExists(chain[1..], active, lastTS, t);
    }
  }

  // ---------------------------------------------------------------- pushing one version

  /** The state after a transaction pushes one version and records what it sits on. */
  ghost function Pushed(s: System, id: nat, name: string, v: Version, ref: nat): System
    requires id in s.active && name in s.cat.entries
  {
    s.(cat := Catalog(Push(s.cat.entries, name, v), s.cat.nextOID, s.cat.nextRef + 1),
       active := s.active[id := s.active[id].(undo := s.active[id].undo + [Record(name, ref)])])
  }

  lemma {:induction false} MoreActive(chain: Versions, active: map<nat, TxnState>, active': map<nat, TxnState>, lastTS: nat)
    requires ChainOK(chain, active, lastTS)
    requires forall i :: i in active && active[i].writer ==> i in active' && active'[i].writer
    ensures ChainOK(chain, active', lastTS)
  {
    if |chain| > 1 {
      MoreActive(chain[1..], active, active', lastTS);
    }
  }

  lemma PushMatches(chain: Versions, v: Version, refs: seq<nat>, id: nat)
    requires v.ts == id
    requires Matches(chain, refs, id)
    ensures Matches([v] + chain, refs + [chain[0].ref], id)
  {
    assert ([v] + chain)[1..] == chain;
    assert (refs + [chain[0].ref])[..|refs|] == refs;
  }

  /** One push, seen from the records any transaction holds for the name. */
  lemma PushAt(chain: Versions, v: Version, refs: seq<nat>, id: nat, t: nat)
    requires Matches(chain, refs, t) && v.ts == id
    requires chain[0].ts < START_TRANSACTION_ID || chain[0].ts == id
    requires START_TRANSACTION_ID < t
    ensures Matches([v] + chain, if t == id then refs + [chain[0].ref] else refs, t)
  {
    if t == id {
      PushMatches(chain, v, refs, id);
    }
  }

  lemma RefsSnoc(undo: seq<Record>, r: Record, name: string)
    ensures Refs(undo + [r], name) == if r.name == name then Refs(undo, name) + [r.ref] else Refs(undo, name)
  {
    assert (undo + [r])[..|undo|] == undo;
  }

  lemma PushUndo(entries: Entries, id: nat, name: string, v: Version, t: nat, undo: seq<Record>)
    requires name in entries && UndoOK(entries, t, undo)
    requires v.ts == id
    requires entries[name][0].ts < START_TRANSACTION_ID || entries[name][0].ts == id
    requires START_TRANSACTION_ID < t
    ensures UndoOK(Push(entries, name, v), t,
                   if t == id then undo + [Record(name, entries[name][0].ref)] else undo)
  {
    var r := Record(name, entries[name][0].ref);
    var undo' := if t == id then undo + [r] else undo;
    forall n | n in Push(entries, name, v)
      ensures Matches(Push(entries, name, v)[n], Refs(undo', n), t)
    {
      RefsSnoc(undo, r, n);
      if n == name {
        PushAt(entries[name], v, Refs(undo, name), id, t);
      }
    }
  }

  lemma PushChains(s: System, id: nat, name: string, v: Version, ref: nat)
    requires ClocksOK(s) && ChainsOK(s)
    requires id in s.active && s.active[id].writer && name in s.cat.entries
    requires v.ts == id && v.ref == s.cat.nextRef
    requires s.cat.entries[name][0].ts < START_TRANSACTION_ID || s.cat.entries[name][0].ts == id
    ensures ChainsOK(Pushed(s, id, name, v, ref))
  {
    var s' := Pushed(s, id, name, v, ref);
    forall n | n in s'.cat.entries
      ensures ChainOK(s'.cat.entries[n], s'.active, s'.lastTS) && s'.cat.entries[n][0].ref < s'.cat.nextRef
    {
      var chain := s.cat.entries[n];
      MoreActive(chain, s.active, s'.active, s.lastTS);
      if n == name {
        assert ([v] + chain)[1..] == chain;
      }
    }
  }

  /** Pushing on a chain whose head is committed or one's own keeps the invariant. */
  lemma PushKeepsInv(s: System, id: nat, name: string, v: Version)
    requires Inv(s)
    requires id in s.active && s.active[id].writer && name in s.cat.entries
    requires v.ts == id && v.ref == s.cat.nextRef
    requires s.cat.entries[name][0].ts < START_TRANSACTION_ID || s.cat.entries[name][0].ts == id
    ensures Inv(Pushed(s, id, name, v, s.cat.entries[name][0].ref))
  {
    var s' := Pushed(s, id, name, v, s.cat.entries[name][0].ref);
    PushChains(s, id, name, v, s.cat.entries[name][0].ref);
    assert UndosOK(s') by {
      forall t | t in s'.active
        ensures UndoOK(s'.cat.entries, t, s'.active[t].undo)
      {
        PushUndo(s.cat.entries, id, name, v, t, s.active[t].undo);
      }
    }
  }

  // ---------------------------------------------------------------- steps

  /** Adding the dummy for a new name keeps the invariant. */
  lemma DummyKeepsInv(s: System, name: string, oid: nat)
    requires Inv(s)
    ensures Inv(s.(cat := WithDummy(s.cat, name, oid)))
  {
    var s' := s.(cat := WithDummy(s.cat, name, oid));
    forall t | t in s'.active
      ensures UndoOK(s'.cat.entries, t, s'.active[t].undo)
    {
      forall n | n in s'.cat.entries
        ensures Matches(s'.cat.entries[n], Refs(s'.active[t].undo, n), t)
      {
        if n !in s.cat.entries {
          RefsOfUnknown(s.cat.entries, s.active[t].undo, n);
        }
      }
    }
  }

  /** Drawing an OID touches nothing the invariant speaks of. */
  lemma NextOIDKeepsInv(s: System, oid: nat)
    requires Inv(s)
    ensures Inv(s.(cat := s.cat.(nextOID := oid)))
  {
    var s' := s.(cat := s.cat.(nextOID := oid));
    assert s'.cat.entries == s.cat.entries;
  }

  lemma CreateNoLockKeepsInv(s: System, id: nat, name: string, kind: Kind, oid: nat, body: string)
    requires Inv(s)
    requires id in s.active && s.active[id].writer
    ensures Inv(WithEffect(s, id, CreateNoLock(s.cat, TxnOf(s, id), name, kind, oid, body)))
  {
    hide ChainsOK, UndosOK, Visible;
    var t := TxnOf(s, id);
    var e := CreateNoLock(s.cat, t, name, kind, oid, body);
    var s' := WithEffect(s, id, e);
    if e.out.Err? {
      assert s'.active == s.active;
      assert s' == s;
    } else {
      var s1 := s.(cat := WithDummy(s.cat, name, oid));
      DummyKeepsInv(s, name, oid);
      var head := s1.cat.entries[name][0];
      if name in s.cat.entries {
        ConflictMeansUnseen(t, head);
      }
      var v := Version(s1.cat.nextRef, kind, id, false, oid, body);
      PushKeepsInv(s1, id, name, v);
      assert s' == Pushed(s1, id, name, v, head.ref);
    }
  }

  lemma CreateIsCreateNoLock(s: System, step: Step)
    requires step.Create? && Enabled(s, step)
    ensures var s1 := s.(cat := s.cat.(nextOID := s.cat.nextOID + 1));
            Apply(s, step) == WithEffect(s1, step.id,
              CreateNoLock(s1.cat, TxnOf(s1, step.id), step.name, step.kind, s.cat.nextOID, step.body))
  {
  }

  lemma CreateKeepsInv(s: System, step: Step)
    requires Inv(s) && step.Create? && Enabled(s, step)
    ensures Inv(Apply(s, step))
  {
    var s1 := s.(cat := s.cat.(nextOID := s.cat.nextOID + 1));
    NextOIDKeepsInv(s, s.cat.nextOID + 1);
    CreateNoLockKeepsInv(s1, step.id, step.name, step.kind, s.cat.nextOID, step.body);
    CreateIsCreateNoLock(s, step);
  }

  lemma DropKeepsInv(s: System, id: nat, name: string, oid: nat)
    requires Inv(s) && id in s.active && s.active[id].writer
    requires LiveEntry(s.cat.entries, TxnOf(s, id), name).Some? ==>
               s.cat.entries[name][0].ts < START_TRANSACTION_ID || s.cat.entries[name][0].ts == id
    ensures Inv(WithEffect(s, id, DropEntry(s.cat, TxnOf(s, id), name, oid)))
  {
    var e := DropEntry(s.cat, TxnOf(s, id), name, oid);
    if e.out.Err? {
      assert WithEffect(s, id, e) == s;
    } else {
      var v := DummyVersion(s.cat.nextRef, id, oid);
      PushKeepsInv(s, id, name, v);
      assert WithEffect(s, id, e) == Pushed(s, id, name, v, s.cat.entries[name][0].ref);
    }
  }

  lemma SeenHeadIsPushable(s: System, id: nat, name: string)
    requires Inv(s) && id in s.active && name in s.cat.entries
    requires Sees(s.cat.entries[name][0], TxnOf(s, id))
    ensures s.cat.entries[name][0].ts < START_TRANSACTION_ID || s.cat.entries[name][0].ts == id
  {
  }

  /** When the head is seen, an alter is a push recording the head. */
  lemma AlterIsPush(s: System, step: Step)
    requires step.Alter? && Enabled(s, step)
    requires LiveEntry(s.cat.entries, TxnOf(s, step.id), step.name).Some?
    requires Sees(s.cat.entries[step.name][0], TxnOf(s, step.id))
    ensures var head := s.cat.entries[step.name][0];
            var s1 := Pushed(s, step.id, step.name, head.(ref := s.cat.nextRef, ts := step.id, body := step.body), head.ref);
            Apply(s, step) == s1.(cat := s1.cat.(nextOID := Apply(s, step).cat.nextOID))
  {
  }

  lemma AlterKeepsInv(s: System, step: Step)
    requires Inv(s) && step.Alter? && Enabled(s, step)
    requires LiveEntry(s.cat.entries, TxnOf(s, step.id), step.name).Some? ==>
               Sees(s.cat.entries[step.name][0], TxnOf(s, step.id))
    ensures Inv(Apply(s, step))
  {
    if LiveEntry(s.cat.entries, TxnOf(s, step.id), step.name).None? {
      assert Apply(s, step) == s;
    } else {
      SeenHeadIsPushable(s, step.id, step.name);
      var head := s.cat.entries[step.name][0];
      var v := head.(ref := s.cat.nextRef, ts := step.id, body := step.body);
      PushKeepsInv(s, step.id, step.name, v);
      NextOIDKeepsInv(Pushed(s, step.id, step.name, v, head.ref), Apply(s, step).cat.nextOID);
      AlterIsPush(s, step);
    }
  }

  /** A rename's create half succeeds exactly when the new name was free before the drop. */
  lemma RenameTarget(c: Catalog, t: Txn, name: string, oid: nat, newName: string)
    requires LiveEntry(c.entries, t, name).Some?
    requires t.startTS < START_TRANSACTION_ID <= t.id
    ensures CreateError(DropEntry(c, t, name, oid).cat.entries, t, newName)
         == if newName == name then None else CreateError(c.entries, t, newName)
  {
    var entries := DropEntry(c, t, name, oid).cat.entries;
    if newName == name {
      assert entries[name][0] == DummyVersion(c.nextRef, t.id, oid);
      assert Sees(entries[name][0], t);
    }
  }

  ghost predicate RenameSafe(entries: Entries, t: Txn, name: string, newName: string) {
    LiveEntry(entries, t, name).Some? ==>
      && Sees(entries[name][0], t)
      && (newName == name || CreateError(entries, t, newName).None?)
  }

  /** A safe rename is a drop followed by a create. */
  lemma RenameIsDropCreate(s: System, step: Step)
    requires step.Rename? && Enabled(s, step)
    requires TxnOf(s, step.id).startTS < START_TRANSACTION_ID <= step.id
    requires LiveEntry(s.cat.entries, TxnOf(s, step.id), step.name).Some?
    requires RenameSafe(s.cat.entries, TxnOf(s, step.id), step.name, step.newName)
    ensures var v := s.cat.entries[step.name][0];
            var s1 := WithEffect(s, step.id, DropEntry(s.cat, TxnOf(s, step.id), step.name, v.oid));
            Apply(s, step) == WithEffect(s1, step.id,
              CreateNoLock(s1.cat, TxnOf(s1, step.id), step.newName, v.kind, v.oid, v.body))
  {
    var id, t := step.id, TxnOf(s, step.id);
    var v := s.cat.entries[step.name][0];
    var dropped := DropEntry(s.cat, t, step.name, v.oid);
    var s1 := WithEffect(s, id, dropped);
    RenameTarget(s.cat, t, step.name, v.oid, step.newName);
    var created := CreateNoLock(s1.cat, t, step.newName, v.kind, v.oid, v.body);
    assert s.active[id].undo + (dropped.out.value + created.out.value)
        == (s.active[id].undo + dropped.out.value) + created.out.value;
    assert Apply(s, step).active == WithEffect(s1, id, created).active;
  }

  lemma RenameKeepsInv(s: System, step: Step)
    requires Inv(s) && step.Rename? && Enabled(s, step)
    requires RenameSafe(s.cat.entries, TxnOf(s, step.id), step.name, step.newName)
    ensures Inv(Apply(s, step))
  {
    var id, t := step.id, TxnOf(s, step.id);
    if LiveEntry(s.cat.entries, t, step.name).None? {
      assert Apply(s, step) == s;
    } else {
      SeenHeadIsPushable(s, id, step.name);
      var v := s.cat.entries[step.name][0];
      DropKeepsInv(s, id, step.name, v.oid);
      var s1 := WithEffect(s, id, DropEntry(s.cat, t, step.name, v.oid));
      CreateNoLockKeepsInv(s1, id, step.newName, v.kind, v.oid, v.body);
      RenameIsDropCreate(s, step);
    }
  }

  lemma BeginKeepsInv(s: System, step: Step)
    requires Inv(s) && step.Begin?
    ensures Inv(Apply(s, step))
  {
    var s' := Apply(s, step);
    var id := s.lastID + 1;
    assert id !in s.active;
    forall n | n in s'.cat.entries
      ensures ChainOK(s'.cat.entries[n], s'.active, s'.lastTS)
      ensures Matches(s'.cat.entries[n], Refs([], n), id)
    {
      MoreActive(s.cat.entries[n], s.active, s'.active, s.lastTS);
    }
  }
}
