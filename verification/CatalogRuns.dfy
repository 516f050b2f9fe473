/**
 Commit and rollback through the undo buffer: what replaying the records of a transaction does to
 every chain, and that both keep the invariant.
 */
module CatalogRuns {
  import opened Wrappers
  import opened CatalogModel
  import opened CatalogInvariant

  // ---------------------------------------------------------------- the undo buffer, chain by chain

  ghost function StampRefs(chain: Versions, refs: seq<nat>, ts: nat): Versions
    decreases refs
  {
    if refs == [] then chain else StampRefs(StampNext(chain, refs[0], ts), refs[1..], ts)
  }

  ghost function DropRefs(chain: Versions, refs: seq<nat>): Versions
    decreases refs
  {
    if refs == [] then chain else DropRefs(DropNext(chain, refs[|refs| - 1]), refs[..|refs| - 1])
  }

  lemma {:induction false} CommitAllAt(entries: Entries, undo: seq<Record>, ts: nat, n: string)
    ensures CommitAll(entries, undo, ts).Keys == entries.Keys
    ensures n in entries ==> CommitAll(entries, undo, ts)[n] == StampRefs(entries[n], Refs(undo, n), ts)
    decreases undo
  {
    if undo == [] {
      assert Refs(undo, n) == [];
    } else {
      var r, rest := undo[0], undo[1..];
      CommitAllAt(CommitRecord(entries, r, ts), rest, ts, n);
      assert undo == [r] + rest;
      RefsAppend([r], rest, n);
      RefsOne(r, n);
      if r.name == n {
        assert Refs(undo, n)[1..] == Refs(rest, n);
      } else {
        assert Refs(undo, n) == Refs(rest, n);
      }
    }
  }

  lemma {:induction false} RollbackAllAt(entries: Entries, undo: seq<Record>, n: string)
    ensures RollbackAll(entries, undo).Keys == entries.Keys
    ensures n in entries ==> RollbackAll(entries, undo)[n] == DropRefs(entries[n], Refs(undo, n))
    decreases undo
  {
    if undo == [] {
      assert Refs(undo, n) == [];
    } else {
      var r, rest := undo[|undo| - 1], undo[..|undo| - 1];
      RollbackAllAt(RollbackRecord(entries, r), rest, n);
      assert undo == rest + [r];
      RefsSnoc(rest, r, n);
      if r.name == n {
        assert Refs(undo, n)[..|Refs(undo, n)| - 1] == Refs(rest, n);
      }
    }
  }

  /** Every version of one transaction re-stamped. */
  ghost function Restamp(chain: Versions, id: nat, ts: nat): (r: Versions)
    ensures |r| == |chain|
  {
    if chain == [] then []
    else [if chain[0].ts == id then chain[0].(ts := ts) else chain[0]] + Restamp(chain[1..], id, ts)
  }

  /** The chain without the versions of one transaction at its head. */
  ghost function Below(chain: Versions, id: nat): Versions {
    if chain != [] && chain[0].ts == id then Below(chain[1..], id) else chain
  }

  /** Under a head that is not the transaction's there is no version of it. */
  lemma {:induction false} NoneBelow(chain: Versions, active: map<nat, TxnState>, lastTS: nat, id: nat, ts: nat)
    requires ChainOK(chain, active, lastTS) && chain[0].ts != id && id >= START_TRANSACTION_ID
    ensures Restamp(chain, id, ts) == chain
    ensures forall v :: v in chain ==> v.ts != id
  {
    if |chain| > 1 {
      NoneBelow(chain[1..], active, lastTS, id, ts);
    }
    assert chain == [chain[0]] + chain[1..];
  }

  lemma {:induction false} RefsAreOlder(chain: Versions, active: map<nat, TxnState>, lastTS: nat, refs: seq<nat>, id: nat)
    requires ChainOK(chain, active, lastTS) && Matches(chain, refs, id)
    ensures forall r :: r in refs ==> r < chain[0].ref
  {
    if refs != [] {
      var older := refs[..|refs| - 1];
      RefsAreOlder(chain[1..], active, lastTS, older, id);
      assert refs == older + [chain[1].ref];
    }
  }

  lemma {:induction false} StampRefsSnoc(chain: Versions, refs: seq<nat>, r: nat, ts: nat)
    ensures StampRefs(chain, refs + [r], ts) == StampNext(StampRefs(chain, refs, ts), r, ts)
    decreases refs
  {
    if refs == [] {
      assert [r][1..] == [];
    } else {
      assert (refs + [r])[1..] == refs[1..] + [r];
      StampRefsSnoc(StampNext(chain, refs[0], ts), refs[1..], r, ts);
    }
  }

  lemma StampNextCons(v: Version, rest: Versions, r: nat, ts: nat)
    requires rest != [] && r != v.ref && r != rest[0].ref
    ensures StampNext([v] + rest, r, ts) == [v] + StampNext(rest, r, ts)
    ensures StampNext(rest, r, ts)[0].ref == rest[0].ref
  {
    assert ([v] + rest)[1..] == rest;
  }

  /** Records about older entries leave the head of the chain alone. */
  lemma {:induction false} StampRefsCons(v: Version, rest: Versions, refs: seq<nat>, ts: nat)
    requires rest != []
    requires forall r :: r in refs ==> r != v.ref && r != rest[0].ref
    ensures StampRefs([v] + rest, refs, ts) == [v] + StampRefs(rest, refs, ts)
    decreases refs
  {
    if refs != [] {
      assert refs[0] in refs;
      StampNextCons(v, rest, refs[0], ts);
      assert forall r :: r in refs[1..] ==> r in refs;
      StampRefsCons(v, StampNext(rest, refs[0], ts), refs[1..], ts);
    }
  }

  /** Stamping the version above each recorded entry stamps the transaction's versions. */
  lemma {:induction false} StampRefsRestamps(chain: Versions, active: map<nat, TxnState>, lastTS: nat,
                                             refs: seq<nat>, id: nat, ts: nat)
    requires ChainOK(chain, active, lastTS) && Matches(chain, refs, id) && id >= START_TRANSACTION_ID
    ensures StampRefs(chain, refs, ts) == Restamp(chain, id, ts)
  {
    if refs == [] {
      NoneBelow(chain, active, lastTS, id, ts);
    } else {
      var v, rest, older := chain[0], chain[1..], refs[..|refs| - 1];
      assert chain == [v] + rest;
      assert refs == older + [rest[0].ref];
      StampRefsRestamps(rest, active, lastTS, older, id, ts);
      RefsAreOlder(rest, active, lastTS, older, id);
      StampRefsCons(v, rest, older, ts);
      StampRefsSnoc(chain, older, rest[0].ref, ts);
      var c := [v] + Restamp(rest, id, ts);
      assert c[1..] == Restamp(rest, id, ts);
      assert IndexOf(c, rest[0].ref) == 1;
    }
  }

  /** Unlinking the version above each recorded entry, newest first, removes the transaction's versions. */
  lemma {:induction false} DropRefsRemoves(chain: Versions, active: map<nat, TxnState>, lastTS: nat,
                                           refs: seq<nat>, id: nat)
    requires ChainOK(chain, active, lastTS) && Matches(chain, refs, id)
    ensures DropRefs(chain, refs) == Below(chain, id)
  {
    if refs != [] {
      assert IndexOf(chain[1..], chain[1].ref) == 0;
      assert DropNext(chain, chain[1].ref) == chain[1..];
      DropRefsRemoves(chain[1..], active, lastTS, refs[..|refs| - 1], id);
    }
  }

  // ---------------------------------------------------------------- commit and rollback

  lemma CommitRestamps(entries: Entries, after: Entries, active: map<nat, TxnState>, lastTS: nat,
                       id: nat, undo: seq<Record>, ts: nat)
    requires forall n :: n in entries ==> ChainOK(entries[n], active, lastTS)
    requires UndoOK(entries, id, undo) && id >= START_TRANSACTION_ID
    requires after == AfterCommit(entries, undo, ts)
    ensures after.Keys == entries.Keys
    ensures forall n :: n in entries ==> after[n] == Restamp(entries[n], id, ts)
  {
    CommitAllAt(entries, undo, ts, "");
    forall n | n in entries
      ensures after[n] == Restamp(entries[n], id, ts)
    {
      CommitAllAt(entries, undo, ts, n);
      StampRefsRestamps(entries[n], active, lastTS, Refs(undo, n), id, ts);
    }
  }

  lemma RollbackUnlinks(entries: Entries, after: Entries, active: map<nat, TxnState>, lastTS: nat,
                        id: nat, undo: seq<Record>)
    requires forall n :: n in entries ==> ChainOK(entries[n], active, lastTS)
    requires UndoOK(entries, id, undo) && id >= START_TRANSACTION_ID
    requires after == AfterRollback(entries, undo)
    ensures after.Keys == entries.Keys
    ensures forall n :: n in entries ==> after[n] == Below(entries[n], id)
  {
    RollbackAllAt(entries, undo, "");
    forall n | n in entries
      ensures after[n] == Below(entries[n], id)
    {
      RollbackAllAt(entries, undo, n);
      DropRefsRemoves(entries[n], active, lastTS, Refs(undo, n), id);
    }
  }

  lemma ApplyCommit(s: System, id: nat)
    requires Enabled(s, Commit(id)) && s.active[id].writer
    ensures Apply(s, Commit(id)).cat.entries == AfterCommit(s.cat.entries, s.active[id].undo, s.lastTS + 1)
  {
  }

  lemma ApplyRollback(s: System, id: nat)
    requires Enabled(s, Rollback(id))
    ensures Apply(s, Rollback(id)).cat.entries == AfterRollback(s.cat.entries, s.active[id].undo)
  {
  }

  /** Committing through the undo records stamps all versions of the transaction and no other. */
  lemma CommitStamps(s: System, id: nat)
    requires Inv(s) && Enabled(s, Commit(id)) && s.active[id].writer
    ensures Apply(s, Commit(id)).cat.entries.Keys == s.cat.entries.Keys
    ensures forall n :: n in s.cat.entries ==>
              Apply(s, Commit(id)).cat.entries[n] == Restamp(s.cat.entries[n], id, s.lastTS + 1)
  {
    ApplyCommit(s, id);
    CommitRestamps(s.cat.entries, Apply(s, Commit(id)).cat.entries, s.active, s.lastTS, id, s.active[id].undo, s.lastTS + 1);
  }

  /** Rolling back through the undo records removes the versions of the transaction and no other. */
  lemma RollbackRemoves(s: System, id: nat)
    requires Inv(s) && Enabled(s, Rollback(id))
    ensures Apply(s, Rollback(id)).cat.entries.Keys == s.cat.entries.Keys
    ensures forall n :: n in s.cat.entries ==>
              Apply(s, Rollback(id)).cat.entries[n] == Below(s.cat.entries[n], id)
  {
    ApplyRollback(s, id);
    RollbackUnlinks(s.cat.entries, Apply(s, Rollback(id)).cat.entries, s.active, s.lastTS, id, s.active[id].undo);
  }

  lemma {:induction false} RestampChain(chain: Versions, active: map<nat, TxnState>, lastTS: nat, id: nat, ts: nat)
    requires ChainOK(chain, active, lastTS) && id >= START_TRANSACTION_ID > ts > lastTS
    requires forall i :: i in active ==> i >= START_TRANSACTION_ID
    ensures ChainOK(Restamp(chain, id, ts), active - {id}, ts)
    ensures Restamp(chain, id, ts)[0].ref == chain[0].ref
  {
    var c := Restamp(chain, id, ts);
    assert c[1..] == Restamp(chain[1..], id, ts);
    if |chain| > 1 {
      RestampChain(chain[1..], active, lastTS, id, ts);
      assert chain[1..][0] == chain[1];
      assert StampKnown(chain[1].ts, active, lastTS);
      assert LinkOK(c[0], c[1]);
    }
  }

  lemma {:induction false} RestampMatches(chain: Versions, active: map<nat, TxnState>, lastTS: nat,
                                          refs: seq<nat>, id: nat, ts: nat, t: nat)
    requires ChainOK(chain, active, lastTS) && Matches(chain, refs, t)
    requires t != id && ts < START_TRANSACTION_ID < t && START_TRANSACTION_ID < id
    ensures Matches(Restamp(chain, id, ts), refs, t)
  {
    if chain[0].ts == t {
      NoneBelow(chain, active, lastTS, id, ts);
    }
  }

  lemma {:induction false} BelowChain(chain: Versions, active: map<nat, TxnState>, lastTS: nat, id: nat)
    requires ChainOK(chain, active, lastTS) && id >= START_TRANSACTION_ID
    ensures ChainOK(Below(chain, id), active - {id}, lastTS)
    ensures Below(chain, id)[0].ref <= chain[0].ref
    ensures Below(chain, id)[0].ts != id
  {
    if chain[0].ts == id {
      assert |chain| > 1;
      BelowChain(chain[1..], active, lastTS, id);
    } else {
      FewerActive(chain, active, lastTS, id);
    }
  }

  lemma {:induction false} FewerActive(chain: Versions, active: map<nat, TxnState>, lastTS: nat, id: nat)
    requires ChainOK(chain, active, lastTS) && chain[0].ts != id && id >= START_TRANSACTION_ID
    ensures ChainOK(chain, active - {id}, lastTS)
  {
    if |chain| > 1 {
      FewerActive(chain[1..], active, lastTS, id);
    }
  }

  lemma {:induction false} BelowMatches(chain: Versions, active: map<nat, TxnState>, lastTS: nat,
                                        refs: seq<nat>, id: nat, t: nat)
    requires ChainOK(chain, active, lastTS) && Matches(chain, refs, t)
    requires t != id && t > START_TRANSACTION_ID && id > START_TRANSACTION_ID
    ensures Matches(Below(chain, id), refs, t)
  {
    if chain[0].ts == id {
      NoneBelow(chain, active, lastTS, t, 0);
      assert chain[1] in chain;
      BelowMatches(chain[1..], active, lastTS, refs, id, t);
    }
  }

  lemma RestampKeepsInv(s: System, s': System, id: nat, ts: nat)
    requires Inv(s) && id in s.active && ts == s.lastTS + 1 && ts < START_TRANSACTION_ID
    requires s'.cat.entries.Keys == s.cat.entries.Keys && s'.cat.nextRef == s.cat.nextRef
    requires forall n :: n in s.cat.entries ==> s'.cat.entries[n] == Restamp(s.cat.entries[n], id, ts)
    requires s'.active == s.active - {id} && s'.lastID == s.lastID && s'.lastTS == ts
    ensures Inv(s')
  {
    forall n | n in s'.cat.entries
      ensures ChainOK(s'.cat.entries[n], s'.active, s'.lastTS) && s'.cat.entries[n][0].ref < s'.cat.nextRef
    {
      RestampChain(s.cat.entries[n], s.active, s.lastTS, id, ts);
    }
    forall t | t in s'.active
      ensures UndoOK(s'.cat.entries, t, s'.active[t].undo)
    {
      forall n | n in s'.cat.entries
        ensures Matches(s'.cat.entries[n], Refs(s'.active[t].undo, n), t)
      {
        RestampMatches(s.cat.entries[n], s.active, s.lastTS, Refs(s.active[t].undo, n), id, ts, t);
      }
    }
  }

  lemma LeaveKeepsInv(s: System, id: nat)
    requires Inv(s) && id in s.active && !s.active[id].writer
    ensures Inv(s.(active := s.active - {id}))
  {
    hide ChainOK, Matches, Refs;
    var s' := s.(active := s.active - {id});
    forall n | n in s.cat.entries
      ensures ChainOK(s.cat.entries[n], s'.active, s.lastTS)
    {
      MoreActive(s.cat.entries[n], s.active, s'.active, s.lastTS);
    }
  }

  lemma CommitKeepsInv(s: System, step: Step)
    requires Inv(s) && step.Commit? && Enabled(s, step)
    ensures Inv(Apply(s, step))
  {
    var id := step.id;
    if s.active[id].writer {
      CommitStamps(s, id);
      RestampKeepsInv(s, Apply(s, step), id, s.lastTS + 1);
    } else {
      LeaveKeepsInv(s, id);
    }
  }

  lemma RemovalKeepsInv(s: System, s': System, id: nat)
    requires Inv(s) && id in s.active
    requires s'.cat.entries.Keys == s.cat.entries.Keys && s'.cat.nextRef == s.cat.nextRef
    requires forall n :: n in s.cat.entries ==> s'.cat.entries[n] == Below(s.cat.entries[n], id)
    requires s'.active == s.active - {id} && s'.lastID == s.lastID && s'.lastTS == s.lastTS
    ensures Inv(s')
  {
    forall n | n in s'.cat.entries
      ensures ChainOK(s'.cat.entries[n], s'.active, s'.lastTS) && s'.cat.entries[n][0].ref < s'.cat.nextRef
    {
      BelowChain(s.cat.entries[n], s.active, s.lastTS, id);
    }
    forall t | t in s'.active
      ensures UndoOK(s'.cat.entries, t, s'.active[t].undo)
    {
      forall n | n in s'.cat.entries
        ensures Matches(s'.cat.entries[n], Refs(s'.active[t].undo, n), t)
      {
        BelowMatches(s.cat.entries[n], s.active, s.lastTS, Refs(s.active[t].undo, n), id, t);
      }
    }
  }

  lemma RollbackKeepsInv(s: System, step: Step)
    requires Inv(s) && step.Rollback? && Enabled(s, step)
    ensures Inv(Apply(s, step))
  {
    RollbackRemoves(s, step.id);
    RemovalKeepsInv(s, Apply(s, step), step.id);
  }
}
