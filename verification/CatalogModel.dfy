/**
 The multi-version catalog as values: version chains, the operations of `CatalogSet`, the
 undo buffer's commit and rollback of catalog records, and the transaction manager's steps.

 A chain is the linked list of versions of one name, newest first; `prev` is the next
 element and `next` the element before.  `Version.ref` stands for the address of the entry
 object, which is what an undo record holds.  Names are keys of the case-insensitive map,
 that is, names after case folding.
 */
module CatalogModel {
  import opened Wrappers

  /** Stamps from here up are transaction IDs; stamps below are commit timestamps. */
  const START_TRANSACTION_ID: nat := 0x8000_0000_0000_0000

  datatype Kind = Table | Function | OtherKind | Dummy

  datatype Version = Version(ref: nat, kind: Kind, ts: nat, deleted: bool, oid: nat, body: string)

  type Versions = seq<Version>

  /** A name in the map owns at least one version. */
  type Chain = c: Versions | c != [] witness [Version(0, Dummy, 0, true, 0, "")]

  type Entries = map<string, Chain>

  datatype Txn = Txn(id: nat, startTS: nat)

  /** An undo record: the entry whose `next` is the version the transaction pushed. */
  datatype Record = Record(name: string, ref: nat)

  datatype CatalogError = DoesNotExist | AlreadyExists | WriteWriteConflict

  datatype Catalog = Catalog(entries: Entries, nextOID: nat, nextRef: nat)

  // ---------------------------------------------------------------- reading a chain

  predicate Sees(v: Version, t: Txn) {
    v.ts == t.id || v.ts <= t.startTS
  }

  /** The first version from the head that the transaction sees. */
  function Visible(chain: Versions, t: Txn): Option<Version> {
    if chain == [] then None
    else if Sees(chain[0], t) then Some(chain[0])
    else Visible(chain[1..], t)
  }

  /** The first version from the head that carries a commit timestamp. */
  function Committed(chain: Versions): Option<Version> {
    if chain == [] then None
    else if chain[0].ts < START_TRANSACTION_ID then Some(chain[0])
    else Committed(chain[1..])
  }

  function LiveOf(v: Option<Version>): Option<Version> {
    if v.Some? && !v.value.deleted then v else None
  }

  /** The live entry a transaction sees under a name. */
  function LiveEntry(entries: Entries, t: Txn, name: string): Option<Version> {
    if name in entries then LiveOf(Visible(entries[name], t)) else None
  }

  /** The whole view of a transaction. */
  function LiveView(entries: Entries, t: Txn): map<string, Version> {
    map n | n in entries && LiveEntry(entries, t, n).Some? :: LiveEntry(entries, t, n).value
  }

  predicate WWConflict(t: Txn, v: Version) {
    || (v.ts >= START_TRANSACTION_ID && v.ts != t.id)
    || (v.ts < START_TRANSACTION_ID && v.ts > t.startTS)
  }

  // ---------------------------------------------------------------- writing

  function Push(entries: Entries, name: string, v: Version): Entries
    requires name in entries
  {
    entries[name := [v] + entries[name]]
  }

  function DummyVersion(ref: nat, ts: nat, oid: nat): Version {
    Version(ref, Dummy, ts, true, oid, "")
  }

  /** `entries.emplace(name, dummy)`: a no-op when the name is already present. */
  function WithDummy(c: Catalog, name: string, oid: nat): (r: Catalog)
    ensures name in r.entries
  {
    if name in c.entries then c
    else c.(entries := c.entries[name := [DummyVersion(c.nextRef, 0, oid)]], nextRef := c.nextRef + 1)
  }

  /** The checks of `createEntryNoLock`, in the order in which it throws. */
  function CreateError(entries: Entries, t: Txn, name: string): Option<CatalogError> {
    if LiveEntry(entries, t, name).Some? then Some(AlreadyExists)
    else if name in entries && WWConflict(t, entries[name][0]) then Some(WriteWriteConflict)
    else if name in entries && !entries[name][0].deleted then Some(AlreadyExists)
    else None
  }

  /** What an operation leaves behind: the catalog, and the undo records or the exception. */
  datatype Effect = Effect(cat: Catalog, out: Result<seq<Record>, CatalogError>)

  function CreateNoLock(c: Catalog, t: Txn, name: string, kind: Kind, oid: nat, body: string): Effect
  {
    var error := CreateError(c.entries, t, name);
    if error.Some? then Effect(c, Err(error.value)) else
    var c1 := WithDummy(c, name, oid);
    var v := Version(c1.nextRef, kind, t.id, false, oid, body);
    Effect(c1.(entries := Push(c1.entries, name, v), nextRef := c1.nextRef + 1),
           Ok([Record(name, c1.entries[name][0].ref)]))
  }

  /** `createEntry` draws the OID before the checks, so a throwing create still consumes it. */
  function CreateEntry(c: Catalog, t: Txn, name: string, kind: Kind, body: string): Effect {
    CreateNoLock(c.(nextOID := c.nextOID + 1), t, name, kind, c.nextOID, body)
  }

  function DropEntry(c: Catalog, t: Txn, name: string, oid: nat): Effect {
    if LiveEntry(c.entries, t, name).None? then Effect(c, Err(DoesNotExist)) else
    Effect(c.(entries := Push(c.entries, name, DummyVersion(c.nextRef, t.id, oid)), nextRef := c.nextRef + 1),
           Ok([Record(name, c.entries[name][0].ref)]))
  }

  /** Every alter but a rename; adding a FROM-TO connection also draws an OID. */
  function AlterEntry(c: Catalog, t: Txn, name: string, body: string, drawsOID: bool): Effect {
    var visible := LiveEntry(c.entries, t, name);
    if visible.None? then Effect(c, Err(DoesNotExist)) else
    var v := visible.value.(ref := c.nextRef, ts := t.id, body := body);
    Effect(Catalog(Push(c.entries, name, v), if drawsOID then c.nextOID + 1 else c.nextOID, c.nextRef + 1),
           Ok([Record(name, visible.value.ref)]))
  }

  /** Rename is drop and create; the drop stays in place when the create throws. */
  function RenameEntry(c: Catalog, t: Txn, name: string, newName: string): Effect {
    var visible := LiveEntry(c.entries, t, name);
    if visible.None? then Effect(c, Err(DoesNotExist)) else
    var dropped := DropEntry(c, t, name, visible.value.oid);
    var created := CreateNoLock(dropped.cat, t, newName, visible.value.kind, visible.value.oid, visible.value.body);
    if created.out.Err? then created else
    Effect(created.cat, Ok([Record(name, visible.value.ref)] + created.out.value))
  }

  // ---------------------------------------------------------------- undo buffer

  /** Position of an entry object in a chain; the chain's length when it is not there. */
  function IndexOf(chain: Versions, ref: nat): (i: nat)
    ensures i <= |chain|
    ensures i < |chain| ==> chain[i].ref == ref
  {
    if chain == [] then 0
    else if chain[0].ref == ref then 0
    else 1 + IndexOf(chain[1..], ref)
  }

  /** `commitCatalogEntryRecord`: stamp the version above the recorded entry. */
  function StampNext(chain: Versions, ref: nat, ts: nat): (r: Versions)
    ensures |r| == |chain|
  {
    var p := IndexOf(chain, ref);
    if 0 < p < |chain| then chain[p - 1 := chain[p - 1].(ts := ts)] else chain
  }

  /** `rollbackCatalogEntryRecord`: unlink the version above the recorded entry. */
  function DropNext(chain: Versions, ref: nat): (r: Versions)
    ensures chain != [] ==> r != []
  {
    var p := IndexOf(chain, ref);
    if 0 < p < |chain| then chain[..p - 1] + chain[p..] else chain
  }

  function CommitRecord(entries: Entries, r: Record, ts: nat): Entries {
    if r.name in entries then entries[r.name := StampNext(entries[r.name], r.ref, ts)] else entries
  }

  function RollbackRecord(entries: Entries, r: Record): Entries {
    if r.name in entries then entries[r.name := DropNext(entries[r.name], r.ref)] else entries
  }

  /** `UndoBuffer::commit` iterates forwards. */
  function CommitAll(entries: Entries, undo: seq<Record>, ts: nat): Entries {
    if undo == [] then entries
    else CommitAll(CommitRecord(entries, undo[0], ts), undo[1..], ts)
  }

  /** `UndoBuffer::rollback` iterates backwards. */
  function RollbackAll(entries: Entries, undo: seq<Record>): Entries {
    if undo == [] then entries
    else RollbackAll(RollbackRecord(entries, undo[|undo| - 1]), undo[..|undo| - 1])
  }

  /** The entries after `UndoBuffer::commit` and after `UndoBuffer::rollback`. */
  function AfterCommit(entries: Entries, undo: seq<Record>, ts: nat): Entries {
    CommitAll(entries, undo, ts)
  }

  function AfterRollback(entries: Entries, undo: seq<Record>): Entries {
    RollbackAll(entries, undo)
  }

  // ---------------------------------------------------------------- transactions

  datatype TxnState = TxnState(startTS: nat, writer: bool, undo: seq<Record>)

  datatype System = System(cat: Catalog, active: map<nat, TxnState>, lastID: nat, lastTS: nat)

  function TxnOf(s: System, id: nat): Txn
    requires id in s.active
  {
    Txn(id, s.active[id].startTS)
  }

  datatype Step =
    | Begin(writer: bool)
    | Create(id: nat, name: string, kind: Kind, body: string)
    | Drop(id: nat, name: string, oid: nat)
    | Alter(id: nat, name: string, body: string, drawsOID: bool)
    | Rename(id: nat, name: string, newName: string)
    | Commit(id: nat)
    | Rollback(id: nat)

  /** Steps the transaction manager and the callers of the catalog can take. */
  predicate Enabled(s: System, step: Step) {
    match step
    case Begin(_) => true
    case Create(id, _, _, _) => id in s.active && s.active[id].writer
    case Drop(id, _, _) => id in s.active && s.active[id].writer
    case Alter(id, _, _, _) => id in s.active && s.active[id].writer
    case Rename(id, _, _) => id in s.active && s.active[id].writer
    case Commit(id) => id in s.active && s.lastTS + 1 < START_TRANSACTION_ID
    case Rollback(id) => id in s.active
  }

  /** The effect of a catalog operation on the system: undo records are kept on success only. */
  function WithEffect(s: System, id: nat, e: Effect): System
    requires id in s.active
  {
    var undo := if e.out.Ok? then s.active[id].undo + e.out.value else s.active[id].undo;
    s.(cat := e.cat, active := s.active[id := s.active[id].(undo := undo)])
  }

  function Apply(s: System, step: Step): System
    requires Enabled(s, step)
  {
    match step
    case Begin(writer) =>
      s.(active := s.active[s.lastID + 1 := TxnState(s.lastTS, writer, [])], lastID := s.lastID + 1)
    case Create(id, name, kind, body) =>
      WithEffect(s, id, CreateEntry(s.cat, TxnOf(s, id), name, kind, body))
    case Drop(id, name, oid) =>
      WithEffect(s, id, DropEntry(s.cat, TxnOf(s, id), name, oid))
    case Alter(id, name, body, drawsOID) =>
      WithEffect(s, id, AlterEntry(s.cat, TxnOf(s, id), name, body, drawsOID))
    case Rename(id, name, newName) =>
      WithEffect(s, id, RenameEntry(s.cat, TxnOf(s, id), name, newName))
    case Commit(id) =>
      if s.active[id].writer then
        System(s.cat.(entries := AfterCommit(s.cat.entries, s.active[id].undo, s.lastTS + 1)),
               s.active - {id}, s.lastID, s.lastTS + 1)
      else s.(active := s.active - {id})
    case Rollback(id) =>
      System(s.cat.(entries := AfterRollback(s.cat.entries, s.active[id].undo)),
             s.active - {id}, s.lastID, s.lastTS)
  }

  // ---------------------------------------------------------------- properties of one chain

  lemma {:induction false} VisibleInChain(chain: Versions, t: Txn)
    ensures Visible(chain, t).Some? ==> Visible(chain, t).value in chain && Sees(Visible(chain, t).value, t)
    ensures Visible(chain, t).None? ==> forall v :: v in chain ==> !Sees(v, t)
  {
    if chain != [] && !Sees(chain[0], t) {
      VisibleInChain(chain[1..], t);
      assert chain == [chain[0]] + chain[1..];
    }
  }

  /** A head that is seen is the visible version. */
  lemma HeadVisible(chain: Versions, t: Txn)
    requires chain != [] && Sees(chain[0], t)
    ensures Visible(chain, t) == Some(chain[0])
  {
  }

  /** Versions that a transaction does not see can be put on top without changing what it sees. */
  lemma {:induction false} VisibleSkips(top: Versions, rest: Versions, t: Txn)
    requires forall v :: v in top ==> !Sees(v, t)
    ensures Visible(top + rest, t) == Visible(rest, t)
  {
    if top == [] {
      assert top + rest == rest;
    } else {
      assert (top + rest)[1..] == top[1..] + rest;
      assert forall v :: v in top[1..] ==> v in top;
      VisibleSkips(top[1..], rest, t);
    }
  }

  /** A version passes the write-write check exactly when the transaction sees it. */
  lemma ConflictMeansUnseen(t: Txn, v: Version)
    requires t.startTS < START_TRANSACTION_ID <= t.id
    ensures WWConflict(t, v) <==> !Sees(v, t)
  {
  }
}
