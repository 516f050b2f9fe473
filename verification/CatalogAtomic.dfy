/**
 Snapshot stability when commit and rollback are atomic on all versions of a transaction, whatever
 its undo records say: then it holds over every run, with any number of writers and no condition
 on any step.
 */
module CatalogAtomic {
  import opened Wrappers
  import opened CatalogModel
  import opened CatalogInvariant
  import opened CatalogRuns
  import opened CatalogSnapshots

  /** The chain without any version of one transaction. */
  ghost function Without(chain: Versions, id: nat): Versions {
    if chain == [] then []
    else if chain[0].ts == id then Without(chain[1..], id)
    else [chain[0]] + Without(chain[1..], id)
  }

  ghost function RestampAll(entries: Entries, id: nat, ts: nat): Entries {
    map n | n in entries :: Restamp(entries[n], id, ts)
  }

  ghost function RemoveAll(entries: Entries, id: nat): Entries {
    map n | n in entries && Without(entries[n], id) != [] :: Without(entries[n], id)
  }

  ghost function ApplyAtomic(s: System, step: Step): System
    requires Enabled(s, step)
  {
    if step.Commit? && s.active[step.id].writer then
      System(s.cat.(entries := RestampAll(s.cat.entries, step.id, s.lastTS + 1)), s.active - {step.id}, s.lastID, s.lastTS + 1)
    else if step.Rollback? then
      System(s.cat.(entries := RemoveAll(s.cat.entries, step.id)), s.active - {step.id}, s.lastID, s.lastTS)
    else Apply(s, step)
  }

  lemma {:induction false} WithoutUnseen(chain: Versions, id: nat, u: Txn)
    requires id != u.id && u.startTS < id
    ensures Visible(Without(chain, id), u) == Visible(chain, u)
  {
    if chain != [] {
      WithoutUnseen(chain[1..], id, u);
      assert chain[0].ts != id ==> Without(chain, id)[1..] == Without(chain[1..], id);
    }
  }

  lemma RemoveAllUnseen(entries: Entries, id: nat, u: Txn)
    requires id != u.id && u.startTS < id
    ensures SameLive(entries, RemoveAll(entries, id), u)
  {
    forall n ensures LiveEntry(entries, u, n) == LiveEntry(RemoveAll(entries, id), u, n) {
      if n in entries {
        WithoutUnseen(entries[n], id, u);
      }
    }
  }

  lemma ClocksAtomic(s: System, step: Step)
    requires ClocksOK(s) && Enabled(s, step)
    ensures ClocksOK(ApplyAtomic(s, step))
  {
    hide CreateEntry, DropEntry, AlterEntry, RenameEntry, AfterCommit, AfterRollback, RestampAll, RemoveAll;
  }

  lemma AtomicKeepsView(s: System, step: Step, u: nat)
    requires ClocksOK(s) && Enabled(s, step) && u in s.active && !StepOf(step, u)
    ensures u in ApplyAtomic(s, step).active && TxnOf(ApplyAtomic(s, step), u) == TxnOf(s, u)
    ensures LiveView(ApplyAtomic(s, step).cat.entries, TxnOf(s, u)) == LiveView(s.cat.entries, TxnOf(s, u))
  {
    hide LiveView, LiveEntry, CreateNoLock, DropEntry, AlterEntry, RenameEntry, Restamp, RemoveAll, AfterCommit, AfterRollback;
    var t := TxnOf(s, u);
    match step {
      case Begin(_) =>
      case Create(id, name, kind, body) =>
        CreateUnseen(s.cat.(nextOID := s.cat.nextOID + 1), TxnOf(s, id), name, kind, s.cat.nextOID, body, t);
      case Drop(id, name, oid) => DropUnseen(s.cat, TxnOf(s, id), name, oid, t);
      case Alter(id, name, body, drawsOID) => AlterUnseen(s.cat, TxnOf(s, id), name, body, drawsOID, t);
      case Rename(id, name, newName) => RenameUnseen(s.cat, TxnOf(s, id), name, newName, t);
      case Commit(id) =>
        if s.active[id].writer {
          RestampAllUnseen(s.cat.entries, RestampAll(s.cat.entries, id, s.lastTS + 1), id, s.lastTS + 1, t);
        }
      case Rollback(id) => RemoveAllUnseen(s.cat.entries, id, t);
    }
    SameLiveSameView(s.cat.entries, ApplyAtomic(s, step).cat.entries, t);
  }

  /** Any run from a freshly loaded catalog. */
  ghost predicate IsAtomicRun(states: seq<System>, steps: seq<Step>) {
    && |states| == |steps| + 1
    && Fresh(states[0])
    && forall i :: 0 <= i < |steps| ==> Enabled(states[i], steps[i]) && states[i + 1] == ApplyAtomic(states[i], steps[i])
  }

  lemma {:induction false} RunKeepsClocks(states: seq<System>, steps: seq<Step>, i: nat)
    requires IsAtomicRun(states, steps) && i < |states|
    ensures ClocksOK(states[i])
  {
    hide ApplyAtomic, Enabled;
    if i > 0 {
      RunKeepsClocks(states, steps, i - 1);
      ClocksAtomic(states[i - 1], steps[i - 1]);
    }
  }

  lemma {:induction false} AtomicStability(states: seq<System>, steps: seq<Step>, i: nat, j: nat, u: nat)
    requires IsAtomicRun(states, steps) && i <= j < |states|
    requires u in states[i].active
    requires forall k :: i <= k < j ==> !StepOf(steps[k], u)
    ensures u in states[j].active && TxnOf(states[j], u) == TxnOf(states[i], u)
    ensures LiveView(states[j].cat.entries, TxnOf(states[j], u)) == LiveView(states[i].cat.entries, TxnOf(states[i], u))
    decreases j
  {
    hide ApplyAtomic, Enabled, LiveView, ClocksOK;
    if i < j {
      AtomicStability(states, steps, i, j - 1, u);
      RunKeepsClocks(states, steps, j - 1);
      AtomicKeepsView(states[j - 1], steps[j - 1], u);
    }
  }
}
