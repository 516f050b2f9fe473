/**
 The main results about the catalog: exactly which steps keep the version chains sound, what
 every reachable chain looks like, and that no step of one transaction changes what another
 one sees, over every run with any number of writers.
 */
module CatalogSnapshots {
  import opened Wrappers
  import opened CatalogModel
  import opened CatalogInvariant
  import opened CatalogRuns

  // ---------------------------------------------------------------- which steps are safe

  /**
   What a caller must check before a step.  Only `createEntry` checks for conflicts itself:
   a drop must not cover another writer's uncommitted version, an alter must find its visible
   version at the head, and a rename needs both that and a free new name.
   */
  ghost predicate Safe(s: System, step: Step)
    requires Enabled(s, step)
  {
    match step
    case Drop(id, name, _) =>
      LiveEntry(s.cat.entries, TxnOf(s, id), name).Some? ==>
        s.cat.entries[name][0].ts < START_TRANSACTION_ID || s.cat.entries[name][0].ts == id
    case Alter(id, name, _, _) =>
      LiveEntry(s.cat.entries, TxnOf(s, id), name).Some? ==> Sees(s.cat.entries[name][0], TxnOf(s, id))
    case Rename(id, name, newName) =>
      RenameSafe(s.cat.entries, TxnOf(s, id), name, newName)
    case _ => true
  }

  lemma SafeKeepsInv(s: System, step: Step)
    requires Inv(s) && Enabled(s, step) && Safe(s, step)
    ensures Inv(Apply(s, step))
  {
    match step
    case Begin(_) => BeginKeepsInv(s, step);
    case Create(_, _, _, _) => CreateKeepsInv(s, step);
    case Drop(id, name, oid) => DropKeepsInv(s, id, name, oid);
    case Alter(_, _, _, _) => AlterKeepsInv(s, step);
    case Rename(_, _, _) => RenameKeepsInv(s, step);
    case Commit(_) => CommitKeepsInv(s, step);
    case Rollback(_) => RollbackKeepsInv(s, step);
  }

  /** The visible version, when it is not the head, is an older object. */
  lemma {:induction false} VisibleIsOlder(chain: Versions, active: map<nat, TxnState>, lastTS: nat, t: Txn)
    requires ChainOK(chain, active, lastTS) && Visible(chain, t).Some?
    ensures Visible(chain, t).value.ref <= chain[0].ref
    ensures !Sees(chain[0], t) ==> Visible(chain, t).value.ref < chain[0].ref
  {
    if !Sees(chain[0], t) {
      VisibleIsOlder(chain[1..], active, lastTS, t);
    }
  }

  ghost function OwnLength(chain: Versions, id: nat): nat {
    if chain != [] && chain[0].ts == id then 1 + OwnLength(chain[1..], id) else 0
  }

  lemma {:induction false} MatchesLength(chain: Versions, refs: seq<nat>, id: nat)
    ensures Matches(chain, refs, id) ==> |refs| == OwnLength(chain, id)
  {
    if Matches(chain, refs, id) && chain[0].ts == id {
      MatchesLength(chain[1..], refs[..|refs| - 1], id);
    }
  }

  lemma MismatchBreaks(s: System, id: nat, name: string)
    requires id in s.active && name in s.cat.entries
    requires !Matches(s.cat.entries[name], Refs(s.active[id].undo, name), id)
    ensures !Inv(s)
  {
  }

  /** A push recorded with any entry but the old head matches nothing. */
  lemma WrongRecord(v: Version, before: Versions, undo: seq<Record>, name: string, ref: nat)
    requires before != [] && ref != before[0].ref
    ensures !Matches([v] + before, Refs(undo + [Record(name, ref)], name), v.ts)
  {
    RefsSnoc(undo, Record(name, ref), name);
    assert ([v] + before)[1] == before[0];
  }

  lemma UnsafeDropBreaks(s: System, step: Step)
    requires Inv(s) && Enabled(s, step) && step.Drop? && !Safe(s, step)
    ensures !Inv(Apply(s, step))
  {
    var chain := Apply(s, step).cat.entries[step.name];
    assert chain[1] == s.cat.entries[step.name][0];
    assert !LinkOK(chain[0], chain[1]);
  }

  lemma UnsafeAlterBreaks(s: System, step: Step)
    requires Inv(s) && Enabled(s, step) && step.Alter? && !Safe(s, step)
    ensures !Inv(Apply(s, step))
  {
    var id, name := step.id, step.name;
    var before, s' := s.cat.entries[name], Apply(s, step);
    var v := LiveEntry(s.cat.entries, TxnOf(s, id), name).value;
    VisibleIsOlder(before, s.active, s.lastTS, TxnOf(s, id));
    WrongRecord(v.(ref := s.cat.nextRef, ts := id, body := step.body), before, s.active[id].undo, name, v.ref);
    MismatchBreaks(s', id, name);
  }

  /** A rename whose create throws leaves a tombstone that no undo record covers. */
  lemma LeakedTombstone(s: System, step: Step)
    requires Inv(s) && Enabled(s, step) && step.Rename?
    requires LiveEntry(s.cat.entries, TxnOf(s, step.id), step.name).Some?
    requires step.newName != step.name && CreateError(s.cat.entries, TxnOf(s, step.id), step.newName).Some?
    ensures !Inv(Apply(s, step))
  {
    var id, t, name := step.id, TxnOf(s, step.id), step.name;
    var before, s' := s.cat.entries[name], Apply(s, step);
    RenameTarget(s.cat, t, name, LiveEntry(s.cat.entries, t, name).value.oid, step.newName);
    var chain, refs := s'.cat.entries[name], Refs(s.active[id].undo, name);
    assert chain[1..] == before;
    MatchesLength(before, refs, id);
    MatchesLength(chain, refs, id);
    MismatchBreaks(s', id, name);
  }

  /** The chain and the records a completed rename leaves under the old name. */
  lemma RenameLeaves(s: System, step: Step)
    requires Enabled(s, step) && step.Rename?
    requires TxnOf(s, step.id).startTS < START_TRANSACTION_ID <= step.id
    requires LiveEntry(s.cat.entries, TxnOf(s, step.id), step.name).Some?
    requires step.newName == step.name || CreateError(s.cat.entries, TxnOf(s, step.id), step.newName).None?
    ensures var s' := Apply(s, step);
            var v := LiveEntry(s.cat.entries, TxnOf(s, step.id), step.name).value;
            var tomb := [DummyVersion(s.cat.nextRef, step.id, v.oid)] + s.cat.entries[step.name];
            var undo1 := s.active[step.id].undo + [Record(step.name, v.ref)];
            && step.id in s'.active && step.name in s'.cat.entries
            && (step.newName != step.name ==>
                  s'.cat.entries[step.name] == tomb && Refs(s'.active[step.id].undo, step.name) == Refs(undo1, step.name))
            && (step.newName == step.name ==>
                  && |s'.cat.entries[step.name]| > 1
                  && s'.cat.entries[step.name][0].ts == step.id
                  && s'.cat.entries[step.name][1..] == tomb
                  && Refs(s'.active[step.id].undo, step.name) == Refs(undo1, step.name) + [tomb[0].ref])
  {
    var id, t, name := step.id, TxnOf(s, step.id), step.name;
    var v := LiveEntry(s.cat.entries, t, name).value;
    RenameTarget(s.cat, t, name, v.oid, step.newName);
    var dropped := DropEntry(s.cat, t, name, v.oid).cat;
    var r2 := CreateNoLock(dropped, t, step.newName, v.kind, v.oid, v.body).out.value[0];
    var undo1 := s.active[id].undo + [Record(name, v.ref)];
    assert Apply(s, step).active[id].undo == undo1 + [r2];
    RefsSnoc(undo1, r2, name);
  }

  /** A rename that drops a version below the head records the wrong entry. */
  lemma MisplacedRename(s: System, step: Step)
    requires Inv(s) && Enabled(s, step) && step.Rename?
    requires LiveEntry(s.cat.entries, TxnOf(s, step.id), step.name).Some?
    requires step.newName == step.name || CreateError(s.cat.entries, TxnOf(s, step.id), step.newName).None?
    requires !Sees(s.cat.entries[step.name][0], TxnOf(s, step.id))
    ensures !Inv(Apply(s, step))
  {
    var id, name, undo := step.id, step.name, s.active[step.id].undo;
    var before, s' := s.cat.entries[name], Apply(s, step);
    var v := LiveEntry(s.cat.entries, TxnOf(s, id), name).value;
    VisibleIsOlder(before, s.active, s.lastTS, TxnOf(s, id));
    WrongRecord(DummyVersion(s.cat.nextRef, id, v.oid), before, undo, name, v.ref);
    RenameLeaves(s, step);
    var refs := Refs(undo + [Record(name, v.ref)], name);
    assert forall r: nat :: (refs + [r])[..|refs + [r]| - 1] == refs;
    MismatchBreaks(s', id, name);
  }

  /** From a sound state a step leads to a sound state if and only if it is safe. */
  lemma SafeExactly(s: System, step: Step)
    requires Inv(s) && Enabled(s, step)
    ensures Inv(Apply(s, step)) <==> Safe(s, step)
  {
    if Safe(s, step) {
      SafeKeepsInv(s, step);
    } else {
      match step
      case Drop(_, _, _) => UnsafeDropBreaks(s, step);
      case Alter(_, _, _, _) => UnsafeAlterBreaks(s, step);
      case Rename(id, name, newName) =>
        if newName != name && CreateError(s.cat.entries, TxnOf(s, id), newName).Some? {
          LeakedTombstone(s, step);
        } else {
          MisplacedRename(s, step);
        }
    }
  }


  // ---------------------------------------------------------------- what every reachable chain looks like

  /** One writer's uncommitted versions, then commit timestamps that never grow, down to stamp 0. */
  lemma {:induction false} ChainShape(chain: Versions, active: map<nat, TxnState>, lastTS: nat)
    requires ChainOK(chain, active, lastTS)
    ensures forall i, j :: 0 <= i < j < |chain| ==>
              && chain[j].ts <= chain[i].ts
              && (chain[j].ts >= START_TRANSACTION_ID ==> chain[i].ts == chain[j].ts)
    ensures forall i :: 0 <= i < |chain| ==> StampKnown(chain[i].ts, active, lastTS)
    ensures chain[|chain| - 1].ts == 0
    ensures forall t: Txn :: Visible(chain, t).Some?
  {
    forall t: Txn
      ensures Visible(chain, t).Some?
    {
      VisibleExists(chain, active, lastTS, t);
    }
    if |chain| > 1 {
      var rest := chain[1..];
      ChainShape(rest, active, lastTS);
      forall i, j | 0 <= i < j < |chain|
        ensures chain[j].ts <= chain[i].ts
        ensures chain[j].ts >= START_TRANSACTION_ID ==> chain[i].ts == chain[j].ts
      {
        assert chain[j] == rest[j - 1] && rest[0] == chain[1];
        if i > 0 {
          assert chain[i] == rest[i - 1];
        }
      }
    }
  }

  /** A create that passes the write-write check has the head as its visible version, so the
      later check for a live head never fires. */
  lemma CreateCheckIsRedundant(entries: Entries, t: Txn, name: string)
    requires t.startTS < START_TRANSACTION_ID <= t.id
    requires name in entries && !WWConflict(t, entries[name][0])
    ensures Visible(entries[name], t) == Some(entries[name][0])
    ensures CreateError(entries, t, name).None? <==> entries[name][0].deleted
    ensures LiveEntry(entries, t, name).None? ==> entries[name][0].deleted
  {
    ConflictMeansUnseen(t, entries[name][0]);
  }

  // ---------------------------------------------------------------- one step leaves other views alone

  ghost predicate SameLive(before: Entries, after: Entries, u: Txn) {
    forall n :: LiveEntry(before, u, n) == LiveEntry(after, u, n)
  }

  lemma SameLiveSameView(before: Entries, after: Entries, u: Txn)
    requires SameLive(before, after, u)
    ensures LiveView(before, u) == LiveView(after, u)
  {
    forall n
      ensures n in LiveView(before, u) <==> n in LiveView(after, u)
      ensures n in LiveView(before, u) ==> LiveView(before, u)[n] == LiveView(after, u)[n]
    {
      assert LiveEntry(before, u, n) == LiveEntry(after, u, n);
    }
  }

  lemma PushUnseen(entries: Entries, name: string, v: Version, u: Txn)
    requires name in entries && !Sees(v, u)
    ensures SameLive(entries, Push(entries, name, v), u)
  {
    VisibleSkips([v], entries[name], u);
  }

  lemma CreateUnseen(c: Catalog, t: Txn, name: string, kind: Kind, oid: nat, body: string, u: Txn)
    requires t.id != u.id && u.startTS < t.id
    ensures SameLive(c.entries, CreateNoLock(c, t, name, kind, oid, body).cat.entries, u)
  {
    if CreateError(c.entries, t, name).None? {
      var c1 := WithDummy(c, name, oid);
      assert SameLive(c.entries, c1.entries, u);
      PushUnseen(c1.entries, name, Version(c1.nextRef, kind, t.id, false, oid, body), u);
    }
  }

  lemma DropUnseen(c: Catalog, t: Txn, name: string, oid: nat, u: Txn)
    requires t.id != u.id && u.startTS < t.id
    ensures SameLive(c.entries, DropEntry(c, t, name, oid).cat.entries, u)
  {
    if LiveEntry(c.entries, t, name).Some? {
      PushUnseen(c.entries, name, DummyVersion(c.nextRef, t.id, oid), u);
    }
  }

  lemma AlterUnseen(c: Catalog, t: Txn, name: string, body: string, drawsOID: bool, u: Txn)
    requires t.id != u.id && u.startTS < t.id
    ensures SameLive(c.entries, AlterEntry(c, t, name, body, drawsOID).cat.entries, u)
  {
    var visible := LiveEntry(c.entries, t, name);
    if visible.Some? {
      PushUnseen(c.entries, name, visible.value.(ref := c.nextRef, ts := t.id, body := body), u);
    }
  }

  lemma RenameUnseen(c: Catalog, t: Txn, name: string, newName: string, u: Txn)
    requires t.id != u.id && u.startTS < t.id
    ensures SameLive(c.entries, RenameEntry(c, t, name, newName).cat.entries, u)
  {
    var visible := LiveEntry(c.entries, t, name);
    if visible.Some? {
      var v := visible.value;
      DropUnseen(c, t, name, v.oid, u);
      CreateUnseen(DropEntry(c, t, name, v.oid).cat, t, newName, v.kind, v.oid, v.body, u);
    }
  }

  lemma {:induction false} RestampUnseen(chain: Versions, id: nat, ts: nat, u: Txn)
    requires id != u.id && ts != u.id && u.startTS < ts && u.startTS < id
    ensures Visible(Restamp(chain, id, ts), u) == Visible(chain, u)
  {
    if chain != [] {
      assert Restamp(chain, id, ts)[1..] == Restamp(chain[1..], id, ts);
      RestampUnseen(chain[1..], id, ts, u);
    }
  }

  lemma {:induction false} BelowUnseen(chain: Versions, id: nat, u: Txn)
    requires id != u.id && u.startTS < id
    ensures Visible(Below(chain, id), u) == Visible(chain, u)
  {
    if chain != [] && chain[0].ts == id {
      BelowUnseen(chain[1..], id, u);
    }
  }

  lemma RestampAllUnseen(entries: Entries, after: Entries, id: nat, ts: nat, u: Txn)
    requires after.Keys == entries.Keys
    requires forall n :: n in entries ==> after[n] == Restamp(entries[n], id, ts)
    requires id != u.id && ts != u.id && u.startTS < ts && u.startTS < id
    ensures SameLive(entries, after, u)
  {
    forall n
      ensures LiveEntry(entries, u, n) == LiveEntry(after, u, n)
    {
      if n in entries {
        RestampUnseen(entries[n], id, ts, u);
      }
    }
  }

  lemma CommitUnseen(s: System, id: nat, u: Txn)
    requires Inv(s) && Enabled(s, Commit(id)) && s.active[id].writer
    requires id != u.id && u.id >= START_TRANSACTION_ID && u.startTS <= s.lastTS
    ensures SameLive(s.cat.entries, Apply(s, Commit(id)).cat.entries, u)
  {
    CommitStamps(s, id);
    RestampAllUnseen(s.cat.entries, Apply(s, Commit(id)).cat.entries, id, s.lastTS + 1, u);
  }

  lemma RollbackUnseen(s: System, id: nat, u: Txn)
    requires Inv(s) && Enabled(s, Rollback(id))
    requires id != u.id && u.startTS <= s.lastTS
    ensures SameLive(s.cat.entries, Apply(s, Rollback(id)).cat.entries, u)
  {
    RollbackRemoves(s, id);
    forall n | n in s.cat.entries
      ensures Visible(Below(s.cat.entries[n], id), u) == Visible(s.cat.entries[n], u)
    {
      BelowUnseen(s.cat.entries[n], id, u);
    }
  }

  /** A step taken by, or ending, the given transaction. */
  predicate StepOf(step: Step, id: nat) {
    !step.Begin? && step.id == id
  }

  /** No step of another transaction changes a transaction's view, its ID or its start. */
  lemma StepKeepsView(s: System, step: Step, u: nat)
    requires Inv(s) && Enabled(s, step) && u in s.active && !StepOf(step, u)
    ensures u in Apply(s, step).active && TxnOf(Apply(s, step), u) == TxnOf(s, u)
    ensures LiveView(Apply(s, step).cat.entries, TxnOf(s, u)) == LiveView(s.cat.entries, TxnOf(s, u))
  {
    var t := TxnOf(s, u);
    match step {
      case Begin(_) =>
      case Create(id, name, kind, body) =>
        CreateUnseen(s.cat.(nextOID := s.cat.nextOID + 1), TxnOf(s, id), name, kind, s.cat.nextOID, body, t);
      case Drop(id, name, oid) => DropUnseen(s.cat, TxnOf(s, id), name, oid, t);
      case Alter(id, name, body, drawsOID) => AlterUnseen(s.cat, TxnOf(s, id), name, body, drawsOID, t);
      case Rename(id, name, newName) => RenameUnseen(s.cat, TxnOf(s, id), name, newName, t);
      case Commit(id) =>
        if s.active[id].writer {
          CommitUnseen(s, id, t);
        }
      case Rollback(id) => RollbackUnseen(s, id, t);
    }
    SameLiveSameView(s.cat.entries, Apply(s, step).cat.entries, t);
  }

  // ---------------------------------------------------------------- runs

  /** A run from a freshly loaded catalog, any number of writers, every step safe. */
  ghost predicate IsRun(states: seq<System>, steps: seq<Step>) {
    && |states| == |steps| + 1
    && Fresh(states[0])
    && forall i :: 0 <= i < |steps| ==>
         Enabled(states[i], steps[i]) && Safe(states[i], steps[i]) && states[i + 1] == Apply(states[i], steps[i])
  }

  lemma {:induction false} RunKeepsInv(states: seq<System>, steps: seq<Step>, i: nat)
    requires IsRun(states, steps) && i < |states|
    ensures Inv(states[i])
  {
    if i == 0 {
      FreshIsInv(states[0]);
    } else {
      RunKeepsInv(states, steps, i - 1);
      SafeKeepsInv(states[i - 1], steps[i - 1]);
    }
  }

  /** Snapshot stability: between two points of a run a transaction that itself does nothing
      keeps exactly the same view, whatever the others create, drop, alter, rename, commit or
      roll back. */
  lemma {:induction false} SnapshotStability(states: seq<System>, steps: seq<Step>, i: nat, j: nat, u: nat)
    requires IsRun(states, steps) && i <= j < |states|
    requires u in states[i].active
    requires forall k :: i <= k < j ==> !StepOf(steps[k], u)
    ensures u in states[j].active && TxnOf(states[j], u) == TxnOf(states[i], u)
    ensures LiveView(states[j].cat.entries, TxnOf(states[j], u)) == LiveView(states[i].cat.entries, TxnOf(states[i], u))
    decreases j
  {
    hide Apply, Enabled, LiveView, Inv;
    if i < j {
      SnapshotStability(states, steps, i, j - 1, u);
      RunKeepsInv(states, steps, j - 1);
      StepKeepsView(states[j - 1], steps[j - 1], u);
    }
  }

  /** After a commit a new reader sees the committed transaction's version of every name it
      touched, and of every other name what a new reader saw before. */
  lemma CommitPublishes(s: System, id: nat, n: string, reader: nat)
    requires Inv(s) && Enabled(s, Commit(id)) && s.active[id].writer && n in s.cat.entries
    requires reader > s.lastID
    ensures n in Apply(s, Commit(id)).cat.entries
    ensures Visible(Apply(s, Commit(id)).cat.entries[n], Txn(reader, s.lastTS + 1))
         == if s.cat.entries[n][0].ts == id then Some(s.cat.entries[n][0].(ts := s.lastTS + 1))
            else Visible(s.cat.entries[n], Txn(reader, s.lastTS))
  {
    hide CommitAll, Restamp, Visible, Matches, Refs, ChainOK;
    CommitStamps(s, id);
    RestampPublishes(s.cat.entries[n], s.active, s.lastTS, id, reader);
  }

  lemma RestampPublishes(chain: Versions, active: map<nat, TxnState>, lastTS: nat, id: nat, reader: nat)
    requires ChainOK(chain, active, lastTS) && lastTS + 1 < START_TRANSACTION_ID
    requires forall i :: i in active ==> START_TRANSACTION_ID < i < reader
    requires id in active
    ensures Visible(Restamp(chain, id, lastTS + 1), Txn(reader, lastTS + 1))
         == if chain[0].ts == id then Some(chain[0].(ts := lastTS + 1)) else Visible(chain, Txn(reader, lastTS))
  {
    if chain[0].ts != id {
      NoneBelow(chain, active, lastTS, id, lastTS + 1);
      SeesSame(chain, active, lastTS, reader);
    }
  }

  lemma {:induction false} SeesSame(chain: Versions, active: map<nat, TxnState>, lastTS: nat, reader: nat)
    requires ChainOK(chain, active, lastTS) && lastTS + 1 < START_TRANSACTION_ID
    requires forall i :: i in active ==> START_TRANSACTION_ID < i < reader
    ensures Visible(chain, Txn(reader, lastTS + 1)) == Visible(chain, Txn(reader, lastTS))
  {
    if |chain| > 1 {
      SeesSame(chain[1..], active, lastTS, reader);
    }
  }

  // ---------------------------------------------------------------- the single-writer regime

  /** At most one writer is active, and nothing was committed since it began. */
  ghost predicate OneWriter(s: System) {
    && (forall i, j :: i in s.active && j in s.active && s.active[i].writer && s.active[j].writer ==> i == j)
    && (forall i :: i in s.active && s.active[i].writer ==> s.active[i].startTS == s.lastTS)
  }

  /** What the transaction manager with `enableMultiWrites` off, and the rename operator's
      check of the new name, let through. */
  ghost predicate SingleWriterStep(s: System, step: Step)
    requires Enabled(s, step)
  {
    && (step.Begin? && step.writer ==> forall i :: i in s.active ==> !s.active[i].writer)
    && (step.Rename? ==> step.newName == step.name || LiveEntry(s.cat.entries, TxnOf(s, step.id), step.newName).None?)
  }

  /** With one writer every head is visible to it, so every step is safe. */
  lemma SingleWriterIsSafe(s: System, step: Step)
    requires Inv(s) && OneWriter(s) && Enabled(s, step) && SingleWriterStep(s, step)
    ensures Safe(s, step)
    ensures OneWriter(Apply(s, step))
  {
    if step.Drop? || step.Alter? || step.Rename? {
      forall n | n in s.cat.entries
        ensures Sees(s.cat.entries[n][0], TxnOf(s, step.id))
        ensures !WWConflict(TxnOf(s, step.id), s.cat.entries[n][0])
      {
        assert StampKnown(s.cat.entries[n][0].ts, s.active, s.lastTS);
      }
    }
  }

  ghost predicate IsSingleWriterRun(states: seq<System>, steps: seq<Step>) {
    && |states| == |steps| + 1
    && Fresh(states[0])
    && forall i :: 0 <= i < |steps| ==>
         && Enabled(states[i], steps[i])
         && SingleWriterStep(states[i], steps[i])
         && states[i + 1] == Apply(states[i], steps[i])
  }

  /** Every single-writer run is a safe run, so all results about runs hold of it. */
  lemma {:induction false} SingleWriterRunIsRun(states: seq<System>, steps: seq<Step>)
    requires IsSingleWriterRun(states, steps)
    ensures IsRun(states, steps)
    ensures OneWriter(states[|steps|]) && Inv(states[|steps|])
    decreases steps
  {
    if steps == [] {
      FreshIsInv(states[0]);
    } else {
      var k := |steps| - 1;
      assert IsSingleWriterRun(states[..k + 1], steps[..k]);
      SingleWriterRunIsRun(states[..k + 1], steps[..k]);
      assert states[..k + 1][k] == states[k];
      SingleWriterIsSafe(states[k], steps[k]);
      SafeKeepsInv(states[k], steps[k]);
      forall i | 0 <= i < |steps|
        ensures Safe(states[i], steps[i])
      {
        if i < k {
          assert states[..k + 1][i] == states[i] && steps[..k][i] == steps[i];
        }
      }
    }
  }

  // ---------------------------------------------------------------- what goes wrong without the checks

  const T1: nat := START_TRANSACTION_ID + 1
  const T2: nat := START_TRANSACTION_ID + 2

  /** The three versions of the table: as loaded, and as each writer alters it. */
  const V0 := Version(0, Table, 0, false, 0, "zero")
  const V1 := Version(1, Table, T1, false, 0, "one")
  const V2 := Version(2, Table, T2, false, 0, "two")

  const ALTER1 := Alter(T1, "x", "one", false)
  const ALTER2 := Alter(T2, "x", "two", false)

  /** Two writers on a loaded catalog, with the given versions of the table and undo records. */
  function TwoWriters(chain: Chain, undo1: seq<Record>, undo2: seq<Record>): System {
    System(Catalog(map["x" := chain], 1, |chain|),
           map[T1 := TxnState(1, true, undo1), T2 := TxnState(1, true, undo2)], T2, 1)
  }

  lemma TwoWritersReachable()
    ensures var loaded := System(Catalog(map["x" := [V0]], 1, 1), map[], START_TRANSACTION_ID, 1);
            Fresh(loaded) && Apply(Apply(loaded, Begin(true)), Begin(true)) == TwoWriters([V0], [], [])
  {
  }

  lemma FirstAlter()
    ensures Enabled(TwoWriters([V0], [], []), ALTER1) && Safe(TwoWriters([V0], [], []), ALTER1)
    ensures Apply(TwoWriters([V0], [], []), ALTER1) == TwoWriters([V1, V0], [Record("x", 0)], [])
  {
    var s := TwoWriters([V0], [], []);
    assert LiveEntry(s.cat.entries, TxnOf(s, T1), "x") == Some(V0);
    assert [V1] + [V0] == [V1, V0];
    assert [] + [Record("x", 0)] == [Record("x", 0)];
  }

  lemma SecondAlter()
    ensures var s := TwoWriters([V1, V0], [Record("x", 0)], []);
            Enabled(s, ALTER2) && !Safe(s, ALTER2) &&
            Apply(s, ALTER2) == TwoWriters([V2, V1, V0], [Record("x", 0)], [Record("x", 0)])
  {
    var s := TwoWriters([V1, V0], [Record("x", 0)], []);
    assert [V1, V0][1..] == [V0];
    assert Visible([V0], Txn(T2, 1)) == Some(V0);
    assert LiveEntry(s.cat.entries, TxnOf(s, T2), "x") == Some(V0);
    assert [V2] + [V1, V0] == [V2, V1, V0];
    assert [] + [Record("x", 0)] == [Record("x", 0)];
  }

  lemma SecondCommit()
    ensures var s := TwoWriters([V2, V1, V0], [Record("x", 0)], [Record("x", 0)]);
            Enabled(s, Commit(T2)) &&
            Apply(s, Commit(T2)).cat.entries == map["x" := [V2, V1.(ts := 2), V0]]
  {
    var s := TwoWriters([V2, V1, V0], [Record("x", 0)], [Record("x", 0)]);
    assert [V2, V1, V0][1..] == [V1, V0] && [V1, V0][1..] == [V0];
    assert IndexOf([V1, V0], 0) == 1;
    assert StampNext([V2, V1, V0], 0, 2) == [V2, V1.(ts := 2), V0];
    var r := [Record("x", 0)];
    assert r[1..] == [];
    assert CommitAll(s.cat.entries, r, 2) == CommitRecord(s.cat.entries, r[0], 2);
    ApplyCommit(s, T2);
  }

  /** Two writers alter one table, which the code lets through: the commit of the second one
      stamps the first one's version, and the first writer no longer sees its own change. */
  lemma ConcurrentAlterLosesOwnWrite()
    ensures var s := Apply(Apply(TwoWriters([V0], [], []), ALTER1), ALTER2);
            && Enabled(s, Commit(T2)) && T1 in s.active
            && LiveEntry(s.cat.entries, TxnOf(s, T1), "x") == Some(V1)
            && LiveEntry(Apply(s, Commit(T2)).cat.entries, TxnOf(s, T1), "x") == Some(V0)
  {
    FirstAlter();
    SecondAlter();
    SecondCommit();
    var t := Txn(T1, 1);
    assert Visible([V2, V1, V0], t) == Some(V1) by {
      assert [V2, V1, V0][1..] == [V1, V0];
    }
    assert Visible([V2, V1.(ts := 2), V0], t) == Some(V0) by {
      assert [V2, V1.(ts := 2), V0][1..] == [V1.(ts := 2), V0];
      assert [V1.(ts := 2), V0][1..] == [V0];
      assert Visible([V0], t) == Some(V0);
    }
  }
}
