/**
 `CatalogSet`, the undo buffer and the transaction manager in their own imperative form, each
 operation proved against the specification functions of CatalogModel.
 */
module CatalogSetImpl {
  import opened Wrappers
  import opened CatalogModel
  import opened CatalogLookup

  const INTERNAL_CATALOG_SET_START_OID: nat := 0x8000_0000_0000_0000

  class CatalogSet {
    var entries: Entries
    var nextOID: nat
    /** The address of the next entry object. */
    var nextRef: nat

    function State(): Catalog
      reads this
    {
      Catalog(entries, nextOID, nextRef)
    }

    /** The oldest version of every name is stamped 0, so traversal never runs off a chain. */
    ghost predicate Valid()
      reads this`entries
    {
      forall n :: n in entries ==> entries[n][|entries[n]| - 1].ts == 0
    }

    constructor (isInternal: bool)
      ensures Valid()
      ensures State() == Catalog(map[], if isInternal then INTERNAL_CATALOG_SET_START_OID else 0, 0)
    {
      entries := map[];
      nextOID := if isInternal then INTERNAL_CATALOG_SET_START_OID else 0;
      nextRef := 0;
    }

    static method TraverseVersionChains(t: Txn, chain: Chain) returns (v: Option<Version>)
      ensures v == Visible(chain, t)
      ensures chain[|chain| - 1].ts == 0 ==> v.Some?
    {
      var current: Versions := chain;
      while current != []
        invariant Visible(current, t) == Visible(chain, t)
        invariant chain[|chain| - 1].ts == 0 ==> current != [] && current[|current| - 1] == chain[|chain| - 1]
        decreases current
      {
        if current[0].ts == t.id {
          return Some(current[0]);
        }
        if current[0].ts <= t.startTS {
          return Some(current[0]);
        }
        current := current[1..];
      }
      return None;
    }

    static method GetCommittedEntry(chain: Chain) returns (v: Option<Version>)
      ensures v == Committed(chain)
      ensures v.Some? ==> v.value in chain && v.value.ts < START_TRANSACTION_ID
    {
      var current: Versions := chain;
      while current != []
        invariant Committed(current) == Committed(chain)
        invariant forall w :: w in current ==> w in chain
        decreases current
      {
        if current[0].ts < START_TRANSACTION_ID {
          return Some(current[0]);
        }
        current := current[1..];
      }
      return None;
    }

    method ContainsEntry(t: Txn, name: string) returns (b: bool)
      requires Valid()
      ensures b == LiveEntry(entries, t, name).Some?
    {
      if name !in entries {
        return false;
      }
      var v := TraverseVersionChains(t, entries[name]);
      return !v.value.deleted;
    }

    method GetEntry(t: Txn, name: string) returns (r: Result<Version, CatalogError>)
      requires Valid()
      ensures r == match LiveEntry(entries, t, name) case Some(v) => Ok(v) case None => Err(DoesNotExist)
    {
      var exists_ := ContainsEntry(t, name);
      if !exists_ {
        return Err(DoesNotExist);
      }
      var v := TraverseVersionChains(t, entries[name]);
      return Ok(v.value);
    }

    /** `emplaceNoLock` on a name that is present: link over the old head. */
    method Emplace(name: string, v: Version)
      requires Valid() && name in entries
      modifies this`entries
      ensures Valid() && entries == Push(old(entries), name, v)
    {
      entries := entries[name := [v] + entries[name]];
    }

    /** The dummy entry that a missing name gets first. */
    method EmplaceDummy(name: string, oid: nat)
      requires Valid() && name !in entries
      modifies this`entries, this`nextRef
      ensures Valid() && State() == WithDummy(old(State()), name, oid)
    {
      entries := entries[name := [DummyVersion(nextRef, 0, oid)]];
      nextRef := nextRef + 1;
    }

    method CreateEntryNoLock(t: Txn, name: string, kind: Kind, oid: nat, body: string)
      returns (r: Result<seq<Record>, CatalogError>)
      requires Valid()
      modifies this`entries, this`nextRef
      ensures Valid()
      ensures Effect(State(), r) == CreateNoLock(old(State()), t, name, kind, oid, body)
    {
      hide Visible, Sees, LiveEntry, WWConflict, Push, CatalogSet.Valid;
      var exists_ := ContainsEntry(t, name);
      if exists_ {
        return Err(AlreadyExists);
      }
      if name in entries {
        var existing := entries[name][0];
        if WWConflict(t, existing) {
          return Err(WriteWriteConflict);
        }
        if !existing.deleted {
          return Err(AlreadyExists);
        }
      } else {
        EmplaceDummy(name, oid);
      }
      r := Ok([Record(name, entries[name][0].ref)]);
      Emplace(name, Version(nextRef, kind, t.id, false, oid, body));
      nextRef := nextRef + 1;
    }

    method CreateEntry(t: Txn, name: string, kind: Kind, body: string)
      returns (r: Result<seq<Record>, CatalogError>, oid: nat)
      requires Valid()
      modifies this
      ensures Valid() && oid == old(nextOID)
      ensures Effect(State(), r) == CatalogModel.CreateEntry(old(State()), t, name, kind, body)
    {
      oid := nextOID;
      nextOID := nextOID + 1;
      r := CreateEntryNoLock(t, name, kind, oid, body);
    }

    method DropEntry(t: Txn, name: string, oid: nat) returns (r: Result<seq<Record>, CatalogError>)
      requires Valid()
      modifies this`entries, this`nextRef
      ensures Valid()
      ensures Effect(State(), r) == CatalogModel.DropEntry(old(State()), t, name, oid)
    {
      var exists_ := ContainsEntry(t, name);
      if !exists_ {
        return Err(DoesNotExist);
      }
      r := Ok([Record(name, entries[name][0].ref)]);
      Emplace(name, DummyVersion(nextRef, t.id, oid));
      nextRef := nextRef + 1;
    }

    method AlterTableEntry(t: Txn, name: string, body: string, drawsOID: bool)
      returns (r: Result<seq<Record>, CatalogError>)
      requires Valid()
      modifies this
      ensures Valid()
      ensures Effect(State(), r) == AlterEntry(old(State()), t, name, body, drawsOID)
    {
      var found := GetEntry(t, name);
      if found.Err? {
        return Err(found.error);
      }
      if drawsOID {
        nextOID := nextOID + 1;
      }
      Emplace(name, found.value.(ref := nextRef, ts := t.id, body := body));
      nextRef := nextRef + 1;
      return Ok([Record(name, found.value.ref)]);
    }

    method RenameTableEntry(t: Txn, name: string, newName: string) returns (r: Result<seq<Record>, CatalogError>)
      requires Valid()
      modifies this`entries, this`nextRef
      ensures Valid()
      ensures Effect(State(), r) == RenameEntry(old(State()), t, name, newName)
    {
      var found := GetEntry(t, name);
      if found.Err? {
        return Err(found.error);
      }
      var v := found.value;
      // Rename is treated as drop and create.
      var dropped := DropEntry(t, name, v.oid);
      var created := CreateEntryNoLock(t, newName, v.kind, v.oid, v.body);
      if created.Err? {
        return created;
      }
      return Ok([Record(name, v.ref)] + created.value);
    }

    method GetEntries(t: Txn) returns (view: map<string, Version>)
      requires Valid()
      ensures view == LiveView(entries, t)
    {
      view := map[];
      var names := entries.Keys;
      while names != {}
        invariant names <= entries.Keys
        invariant forall n :: n in view <==> n in entries && n !in names && LiveEntry(entries, t, n).Some?
        invariant forall n :: n in view ==> view[n] == LiveEntry(entries, t, n).value
        decreases names
      {
        var n :| n in names;
        names := names - {n};
        var v := TraverseVersionChains(t, entries[n]);
        if !v.value.deleted {
          view := view[n := v.value];
        }
      }
    }

    /** The map is iterated in no particular order. */
    method GetEntryOfOID(t: Txn, oid: nat) returns (r: Option<Version>)
      requires Valid()
      ensures Answer(entries, t, oid, r)
    {
      var names := entries.Keys;
      while names != {}
        invariant names <= entries.Keys
        invariant forall n :: n in entries && n !in names && entries[n][0].oid == oid ==> LiveEntry(entries, t, n).None?
        decreases names
      {
        var n :| n in names;
        names := names - {n};
        if entries[n][0].oid == oid {
          var v := TraverseVersionChains(t, entries[n]);
          if !v.value.deleted {
            return v;
          }
        }
      }
      return None;
    }

    method Serialize() returns (oid: nat, file: seq<Stored>)
      requires Valid()
      ensures oid == nextOID
      ensures SerializedAs(entries, file)
    {
      oid := nextOID;
      file := [];
      var names := entries.Keys;
      while names != {}
        invariant names <= entries.Keys
        invariant forall r :: r in file <==>
                    && r.name in entries && r.name !in names
                    && ContentOf(ToStore(entries[r.name])) == Some(Content(r.kind, r.oid, r.body))
        invariant forall i, j :: 0 <= i < j < |file| ==> file[i].name != file[j].name
        decreases names
      {
        var n :| n in names;
        names := names - {n};
        if entries[n][0].kind != Function {
          var committed := GetCommittedEntry(entries[n]);
          if committed.Some? && !committed.value.deleted {
            assert forall i :: 0 <= i < |file| ==> file[i] in file;
            file := file + [Stored(n, committed.value.kind, committed.value.oid, committed.value.body)];
          }
        }
      }
    }

    constructor Deserialize(oid: nat, file: seq<Stored>)
      requires forall i, j :: 0 <= i < j < |file| ==> file[i].name != file[j].name
      ensures Valid()
      ensures State() == Catalog(CatalogLookup.Deserialize(file), oid, |file| + 1)
    {
      var loaded: Entries := map[];
      var i := 0;
      while i < |file|
        invariant 0 <= i <= |file|
        invariant loaded == CatalogLookup.Deserialize(file[..i])
      {
        var r := file[i];
        assert file[..i + 1][..i] == file[..i];
        loaded := loaded[r.name := [Version(i + 1, r.kind, 0, false, r.oid, r.body)] + if r.name in loaded then loaded[r.name] else []];
        i := i + 1;
      }
      assert file[..|file|] == file;
      entries := loaded;
      nextOID := oid;
      nextRef := |file| + 1;
      new;
      forall n | n in entries
        ensures entries[n][|entries[n]| - 1].ts == 0
      {
        DeserializeAt(file, n);
      }
    }

    /** `UndoBuffer::commit` over the records of one transaction. */
    method CommitUndo(undo: seq<Record>, ts: nat)
      modifies this`entries
      ensures entries == AfterCommit(old(entries), undo, ts)
    {
      var i := 0;
      while i < |undo|
        invariant 0 <= i <= |undo|
        invariant CommitAll(entries, undo[i..], ts) == CommitAll(old(entries), undo, ts)
      {
        var r := undo[i];
        assert undo[i..][1..] == undo[i + 1..];
        if r.name in entries {
          entries := entries[r.name := StampNext(entries[r.name], r.ref, ts)];
        }
        i := i + 1;
      }
    }

    /** `UndoBuffer::rollback`, newest record first. */
    method RollbackUndo(undo: seq<Record>)
      modifies this`entries
      ensures entries == AfterRollback(old(entries), undo)
    {
      var i := |undo|;
      assert undo[..i] == undo;
      while i > 0
        invariant 0 <= i <= |undo|
        invariant RollbackAll(entries, undo[..i]) == RollbackAll(old(entries), undo)
      {
        i := i - 1;
        var r := undo[i];
        assert undo[..i + 1][..i] == undo[..i];
        if r.name in entries {
          entries := entries[r.name := DropNext(entries[r.name], r.ref)];
        }
      }
    }
  }

  class TransactionManager {
    const catalog: CatalogSet
    const enableMultiWrites: bool
    var active: map<nat, TxnState>
    var lastID: nat
    var lastTS: nat

    function State(): System
      reads this, catalog
    {
      System(catalog.State(), active, lastID, lastTS)
    }

    constructor (catalog: CatalogSet, enableMultiWrites: bool)
      ensures this.catalog == catalog && this.enableMultiWrites == enableMultiWrites
      ensures State() == System(catalog.State(), map[], START_TRANSACTION_ID, 1)
    {
      this.catalog, this.enableMultiWrites := catalog, enableMultiWrites;
      active, lastID, lastTS := map[], START_TRANSACTION_ID, 1;
    }

    method HasActiveWriter() returns (b: bool)
      ensures b <==> exists id :: id in active && active[id].writer
    {
      var ids := active.Keys;
      while ids != {}
        invariant ids <= active.Keys
        invariant forall id :: id in active && id !in ids ==> !active[id].writer
        decreases ids
      {
        var id :| id in ids;
        if active[id].writer {
          return true;
        }
        ids := ids - {id};
      }
      return false;
    }

    /** Throws only for a second writer with multiple writes off; then nothing changes. */
    method BeginTransaction(writer: bool) returns (r: Option<Txn>)
      modifies this
      ensures r.None? <==> writer && !enableMultiWrites && exists id :: id in old(active) && old(active)[id].writer
      ensures r.None? ==> State() == old(State())
      ensures r.Some? ==> State() == Apply(old(State()), Begin(writer))
      ensures r.Some? ==> r.value.id in active && r.value == TxnOf(State(), r.value.id)
    {
      if writer && !enableMultiWrites {
        var busy := HasActiveWriter();
        if busy {
          return None;
        }
      }
      lastID := lastID + 1;
      active := active[lastID := TxnState(lastTS, writer, [])];
      return Some(Txn(lastID, lastTS));
    }

    /** A catalog operation of a transaction appends its undo records when it succeeds. */
    method Log(id: nat, r: Result<seq<Record>, CatalogError>)
      requires id in active
      modifies this`active
      ensures State() == WithEffect(old(State()), id, Effect(catalog.State(), r))
    {
      if r.Ok? {
        active := active[id := active[id].(undo := active[id].undo + r.value)];
      }
    }

    method CommitTransaction(id: nat)
      requires Enabled(State(), Commit(id))
      modifies this, catalog
      ensures State() == Apply(old(State()), Commit(id))
    {
      if active[id].writer {
        lastTS := lastTS + 1;
        catalog.CommitUndo(active[id].undo, lastTS);
      }
      active := active - {id};
    }

    method RollbackTransaction(id: nat)
      requires Enabled(State(), Rollback(id))
      modifies this, catalog
      ensures State() == Apply(old(State()), Rollback(id))
    {
      catalog.RollbackUndo(active[id].undo);
      active := active - {id};
    }
  }
}
