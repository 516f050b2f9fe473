/**
 Object IDs: no two names are live with one OID, at any timestamp or for any writer, and every
 step keeps it so.
 */
module CatalogOids {
  import opened Wrappers
  import opened CatalogModel
  import opened CatalogInvariant
  import opened CatalogRuns
  import opened CatalogSnapshots

  // ---------------------------------------------------------------- the invariant

  /** The live version of a chain as of a commit timestamp. */
  ghost function LiveAt(chain: Versions, ts: nat): Option<Version> {
    LiveOf(Visible(chain, Txn(ts, ts)))
  }

  /** A live version with the given OID. */
  ghost predicate Is(v: Option<Version>, oid: nat) {
    v.Some? && v.value.oid == oid
  }

  ghost predicate OwnLive(chain: Versions) {
    chain != [] && chain[0].ts >= START_TRANSACTION_ID && !chain[0].deleted
  }

  /** If the first name has an uncommitted live version, a committed live version of the second
      with its OID has been covered by the same writer. */
  ghost predicate Covered(a: Versions, b: Versions, active: map<nat, TxnState>, lastTS: nat)
    requires a != [] && b != []
  {
    OwnLive(a) && a[0].ts in active ==>
      && (Is(LiveAt(b, lastTS), a[0].oid) ==> b[0].ts == a[0].ts)
      && (Is(LiveAt(b, active[a[0].ts].startTS), a[0].oid) ==> b[0].ts == a[0].ts)
  }

  /** Two different names never hold one OID: at no commit timestamp, nor uncommitted. */
  ghost predicate PairOK(a: Versions, b: Versions, active: map<nat, TxnState>, lastTS: nat)
    requires a != [] && b != []
  {
    && (forall ts :: 0 <= ts <= lastTS && LiveAt(a, ts).Some? ==> !Is(LiveAt(b, ts), LiveAt(a, ts).value.oid))
    && Covered(a, b, active, lastTS)
    && (OwnLive(a) && OwnLive(b) ==> a[0].oid != b[0].oid)
  }

  ghost predicate PairsOK(s: System) {
    forall n, m :: n in s.cat.entries && m in s.cat.entries && n != m ==>
      PairOK(s.cat.entries[n], s.cat.entries[m], s.active, s.lastTS)
  }

  /** Every OID in use has been drawn. */
  ghost predicate OidsDrawn(c: Catalog) {
    forall n, v :: n in c.entries && v in c.entries[n] && !v.deleted ==> v.oid < c.nextOID
  }

  ghost predicate OidInv(s: System) {
    PairsOK(s) && OidsDrawn(s.cat)
  }

  // ---------------------------------------------------------------- one pair of chains

  lemma {:induction false} OwnUnseenAt(v: Version, chain: Versions, ts: nat)
    requires v.ts > ts
    ensures LiveAt([v] + chain, ts) == LiveAt(chain, ts)
  {
    VisibleSkips([v], chain, Txn(ts, ts));
  }

  /** The version a writer pushes does not clash with another name's chain. */
  ghost predicate Admits(b: Versions, v: Version, active: map<nat, TxnState>, lastTS: nat)
    requires b != [] && v.ts in active
  {
    v.deleted ||
    (&& (OwnLive(b) ==> b[0].oid != v.oid)
     && (Is(LiveAt(b, lastTS), v.oid) ==> b[0].ts == v.ts)
     && (Is(LiveAt(b, active[v.ts].startTS), v.oid) ==> b[0].ts == v.ts))
  }

  ghost predicate StartsBefore(active: map<nat, TxnState>, lastTS: nat) {
    lastTS < START_TRANSACTION_ID &&
    forall i :: i in active ==> START_TRANSACTION_ID < i && active[i].startTS <= lastTS
  }

  lemma PushPair(a: Versions, b: Versions, v: Version, active: map<nat, TxnState>, lastTS: nat)
    requires a != [] && b != [] && StartsBefore(active, lastTS) && v.ts in active
    requires PairOK(a, b, active, lastTS) && PairOK(b, a, active, lastTS)
    requires a[0].ts < START_TRANSACTION_ID || a[0].ts == v.ts
    requires Admits(b, v, active, lastTS)
    ensures PairOK([v] + a, b, active, lastTS) && PairOK(b, [v] + a, active, lastTS)
  {
    forall ts | 0 <= ts <= lastTS
      ensures LiveAt([v] + a, ts) == LiveAt(a, ts)
    {
      OwnUnseenAt(v, a, ts);
    }
  }

  /** A version with the OID of a live head may be pushed where the head is, or moved elsewhere
      once the head is covered. */
  lemma HeadAdmits(a: Versions, b: Versions, v: Version, t: Txn, active: map<nat, TxnState>, lastTS: nat)
    requires a != [] && b != [] && StartsBefore(active, lastTS)
    requires t.id in active && active[t.id].startTS == t.startTS && v.ts == t.id
    requires PairOK(a, b, active, lastTS) && PairOK(b, a, active, lastTS)
    requires Sees(a[0], t) && !a[0].deleted && v.oid == a[0].oid
    requires b[0].ts >= START_TRANSACTION_ID ==> b[0].ts in active
    ensures Admits(b, v, active, lastTS)
  {
    if a[0].ts != t.id {
      HeadVisible(a, Txn(t.startTS, t.startTS));
      HeadVisible(a, Txn(lastTS, lastTS));
      assert LiveAt(a, lastTS) == Some(a[0]) && LiveAt(a, t.startTS) == Some(a[0]);
    }
  }

  lemma {:induction false} VisibleIn(chain: Versions, t: Txn)
    ensures Visible(chain, t).Some? ==> Visible(chain, t).value in chain
  {
    VisibleInChain(chain, t);
  }

  /** An OID that was never drawn clashes with nothing. */
  lemma FreshAdmits(c: Catalog, n: string, v: Version, active: map<nat, TxnState>, lastTS: nat)
    requires OidsDrawn(c) && n in c.entries && v.oid >= c.nextOID && v.ts in active
    ensures Admits(c.entries[n], v, active, lastTS)
  {
    VisibleIn(c.entries[n], Txn(lastTS, lastTS));
    VisibleIn(c.entries[n], Txn(active[v.ts].startTS, active[v.ts].startTS));
    assert c.entries[n][0] in c.entries[n];
  }

  // ---------------------------------------------------------------- one push

  lemma PushPairs(s: System, name: string, v: Version, entries: Entries)
    requires Inv(s) && PairsOK(s) && name in s.cat.entries && v.ts in s.active
    requires s.cat.entries[name][0].ts < START_TRANSACTION_ID || s.cat.entries[name][0].ts == v.ts
    requires forall m :: m in s.cat.entries && m != name ==> Admits(s.cat.entries[m], v, s.active, s.lastTS)
    requires entries == Push(s.cat.entries, name, v)
    ensures forall n, m :: n in entries && m in entries && n != m ==> PairOK(entries[n], entries[m], s.active, s.lastTS)
  {
    forall n, m | n in entries && m in entries && n != m
      ensures PairOK(entries[n], entries[m], s.active, s.lastTS)
    {
      assert PairOK(s.cat.entries[n], s.cat.entries[m], s.active, s.lastTS);
      assert PairOK(s.cat.entries[m], s.cat.entries[n], s.active, s.lastTS);
      if n == name {
        PushPair(s.cat.entries[n], s.cat.entries[m], v, s.active, s.lastTS);
      } else if m == name {
        PushPair(s.cat.entries[m], s.cat.entries[n], v, s.active, s.lastTS);
      }
    }
  }

  /** The state after a push, whatever undo records and OID counter go with it. */
  ghost predicate AfterPush(s: System, s': System, name: string, v: Version)
    requires name in s.cat.entries
  {
    && s'.cat.entries == Push(s.cat.entries, name, v)
    && s'.cat.nextOID >= s.cat.nextOID
    && s'.lastTS == s.lastTS
    && s'.active.Keys == s.active.Keys
    && forall i :: i in s.active ==> s'.active[i].startTS == s.active[i].startTS
  }

  lemma PushKeepsOids(s: System, s': System, name: string, v: Version)
    requires Inv(s) && OidInv(s) && name in s.cat.entries && v.ts in s.active
    requires s.cat.entries[name][0].ts < START_TRANSACTION_ID || s.cat.entries[name][0].ts == v.ts
    requires forall m :: m in s.cat.entries && m != name ==> Admits(s.cat.entries[m], v, s.active, s.lastTS)
    requires AfterPush(s, s', name, v)
    requires v.deleted || v.oid < s'.cat.nextOID
    ensures OidInv(s')
  {
    PushPairs(s, name, v, s'.cat.entries);
    forall n, m | n in s'.cat.entries && m in s'.cat.entries && n != m
      ensures PairOK(s'.cat.entries[n], s'.cat.entries[m], s'.active, s'.lastTS)
    {
      assert PairOK(s'.cat.entries[n], s'.cat.entries[m], s.active, s.lastTS);
    }
  }

  lemma DummyKeepsOids(s: System, name: string, oid: nat)
    requires Inv(s) && OidInv(s)
    ensures OidInv(s.(cat := WithDummy(s.cat, name, oid)))
  {

    if name !in s.cat.entries {
      DummyPairs(s, name, oid);
    }
  }

  lemma DummyPairs(s: System, name: string, oid: nat)
    requires Inv(s) && PairsOK(s) && name !in s.cat.entries
    ensures PairsOK(s.(cat := WithDummy(s.cat, name, oid)))
  {
    hide Inv;
    var entries := WithDummy(s.cat, name, oid).entries;
    forall n, m | n in entries && m in entries && n != m
      ensures PairOK(entries[n], entries[m], s.active, s.lastTS)
    {
      if n != name && m != name {
        assert PairOK(s.cat.entries[n], s.cat.entries[m], s.active, s.lastTS);
      }
    }
  }

  // ---------------------------------------------------------------- steps

  /** A create that succeeds is a push on the chain of its name, over a dummy if it was missing. */
  lemma CreateIsPush(c: Catalog, t: Txn, name: string, kind: Kind, oid: nat, body: string)
    requires CreateError(c.entries, t, name).None?
    requires t.startTS < START_TRANSACTION_ID <= t.id
    ensures var c1 := WithDummy(c, name, oid);
            var e := CreateNoLock(c, t, name, kind, oid, body);
            && e.cat.entries == Push(c1.entries, name, Version(c1.nextRef, kind, t.id, false, oid, body))
            && e.cat.nextOID == c.nextOID
            && (c1.entries[name][0].ts < START_TRANSACTION_ID || c1.entries[name][0].ts == t.id)
  {
    if name in c.entries {
      ConflictMeansUnseen(t, c.entries[name][0]);
    }
  }

  lemma SameEntriesKeepOids(s: System, s': System)
    requires OidInv(s)
    requires s'.cat.entries == s.cat.entries && s'.cat.nextOID >= s.cat.nextOID && s'.lastTS == s.lastTS
    requires s'.active.Keys == s.active.Keys
    requires forall i :: i in s.active ==> s'.active[i].startTS == s.active[i].startTS
    ensures OidInv(s')
  {
    forall n, m | n in s'.cat.entries && m in s'.cat.entries && n != m
      ensures PairOK(s'.cat.entries[n], s'.cat.entries[m], s'.active, s'.lastTS)
    {
      assert PairOK(s.cat.entries[n], s.cat.entries[m], s.active, s.lastTS);
    }
  }

  lemma CreateAfterPush(s: System, step: Step)
    requires step.Create? && Enabled(s, step)
    requires TxnOf(s, step.id).startTS < START_TRANSACTION_ID <= step.id
    requires CreateError(s.cat.entries, TxnOf(s, step.id), step.name).None?
    ensures var s1 := s.(cat := WithDummy(s.cat, step.name, s.cat.nextOID));
            && AfterPush(s1, Apply(s, step), step.name,
                         Version(s1.cat.nextRef, step.kind, step.id, false, s.cat.nextOID, step.body))
            && Apply(s, step).cat.nextOID == s.cat.nextOID + 1
            && (s1.cat.entries[step.name][0].ts < START_TRANSACTION_ID || s1.cat.entries[step.name][0].ts == step.id)
  {
    CreateIsPush(s.cat.(nextOID := s.cat.nextOID + 1), TxnOf(s, step.id), step.name, step.kind, s.cat.nextOID, step.body);
  }

  lemma CreateKeepsOids(s: System, step: Step)
    requires Inv(s) && OidInv(s) && step.Create? && Enabled(s, step)
    ensures OidInv(Apply(s, step))
  {
    var t, name, oid := TxnOf(s, step.id), step.name, s.cat.nextOID;
    var s' := Apply(s, step);
    if CreateError(s.cat.entries, t, name).Some? {
      SameEntriesKeepOids(s, s');
    } else {
      var s1 := s.(cat := WithDummy(s.cat, name, oid));
      DummyKeepsInv(s, name, oid);
      DummyKeepsOids(s, name, oid);
      var v := Version(s1.cat.nextRef, step.kind, step.id, false, oid, step.body);
      CreateAfterPush(s, step);
      FreshPush(s1, s', name, v);
    }
  }

  lemma FreshPush(s: System, s': System, name: string, v: Version)
    requires Inv(s) && OidInv(s) && name in s.cat.entries && v.ts in s.active
    requires s.cat.entries[name][0].ts < START_TRANSACTION_ID || s.cat.entries[name][0].ts == v.ts
    requires AfterPush(s, s', name, v)
    requires v.oid == s.cat.nextOID < s'.cat.nextOID
    ensures OidInv(s')
  {
    forall m | m in s.cat.entries
      ensures Admits(s.cat.entries[m], v, s.active, s.lastTS)
    {
      FreshAdmits(s.cat, m, v, s.active, s.lastTS);
    }
    PushKeepsOids(s, s', name, v);
  }

  lemma DropKeepsOids(s: System, id: nat, name: string, oid: nat)
    requires Inv(s) && OidInv(s) && id in s.active && s.active[id].writer
    requires LiveEntry(s.cat.entries, TxnOf(s, id), name).Some? ==>
               s.cat.entries[name][0].ts < START_TRANSACTION_ID || s.cat.entries[name][0].ts == id
    ensures OidInv(WithEffect(s, id, DropEntry(s.cat, TxnOf(s, id), name, oid)))
  {
    var e := DropEntry(s.cat, TxnOf(s, id), name, oid);
    if e.out.Err? {
      assert WithEffect(s, id, e) == s;
    } else {
      PushKeepsOids(s, WithEffect(s, id, e), name, DummyVersion(s.cat.nextRef, id, oid));
    }
  }

  /** A live head seen by a writer, moved or altered by it, clashes with no other name. */
  lemma HeadAdmitsEverywhere(s: System, id: nat, name: string, v: Version)
    requires Inv(s) && PairsOK(s) && id in s.active && name in s.cat.entries
    requires Sees(s.cat.entries[name][0], TxnOf(s, id)) && !s.cat.entries[name][0].deleted
    requires v.ts == id && v.oid == s.cat.entries[name][0].oid
    ensures forall m :: m in s.cat.entries && m != name ==> Admits(s.cat.entries[m], v, s.active, s.lastTS)
  {
    forall m | m in s.cat.entries && m != name
      ensures Admits(s.cat.entries[m], v, s.active, s.lastTS)
    {
      assert PairOK(s.cat.entries[name], s.cat.entries[m], s.active, s.lastTS);
      assert PairOK(s.cat.entries[m], s.cat.entries[name], s.active, s.lastTS);
      assert StampKnown(s.cat.entries[m][0].ts, s.active, s.lastTS);
      HeadAdmits(s.cat.entries[name], s.cat.entries[m], v, TxnOf(s, id), s.active, s.lastTS);
    }
  }

  lemma AlterKeepsOids(s: System, step: Step)
    requires Inv(s) && OidInv(s) && step.Alter? && Enabled(s, step) && Safe(s, step)
    ensures OidInv(Apply(s, step))
  {
    var id, name := step.id, step.name;
    if LiveEntry(s.cat.entries, TxnOf(s, id), name).None? {
      assert Apply(s, step) == s;
    } else {
      var head := s.cat.entries[name][0];
      SeenHeadIsPushable(s, id, name);
      var v := head.(ref := s.cat.nextRef, ts := id, body := step.body);
      HeadAdmitsEverywhere(s, id, name, v);
      AlterIsPush(s, step);
      assert head in s.cat.entries[name];
      PushKeepsOids(s, Apply(s, step), name, v);
    }
  }

  /** Names other than the old and the new one are as they were before a rename's drop. */
  ghost predicate Dropped(s: System, s1: System, id: nat, name: string)
    requires name in s.cat.entries
  {
    && s1.cat.entries.Keys == s.cat.entries.Keys
    && s1.cat.entries[name][0].ts == id && s1.cat.entries[name][0].deleted
    && (forall m :: m in s.cat.entries && m != name ==> s1.cat.entries[m] == s.cat.entries[m])
    && s1.lastTS == s.lastTS && s1.active.Keys == s.active.Keys
    && forall i :: i in s.active ==> s1.active[i].startTS == s.active[i].startTS
  }

  /** After the drop half has covered the old name, its OID may appear under another one. */
  lemma MoveAdmits(s: System, s1: System, id: nat, name: string, newName: string, v: Version, oid: nat)
    requires Inv(s) && PairsOK(s) && id in s.active && name in s.cat.entries && Dropped(s, s1, id, name)
    requires Sees(s.cat.entries[name][0], TxnOf(s, id)) && !s.cat.entries[name][0].deleted
    requires v.ts == id && v.oid == s.cat.entries[name][0].oid
    ensures var c := WithDummy(s1.cat, newName, oid);
            forall m :: m in c.entries && m != newName ==> Admits(c.entries[m], v, s1.active, s1.lastTS)
  {
    HeadAdmitsEverywhere(s, id, name, v);
    var c := WithDummy(s1.cat, newName, oid);
    forall m | m in c.entries && m != newName
      ensures Admits(c.entries[m], v, s1.active, s1.lastTS)
    {
      if m != name {
        assert Admits(s.cat.entries[m], v, s.active, s.lastTS);
      }
    }
  }

  lemma MoveKeepsOids(s1: System, id: nat, newName: string, v: Version)
    requires Inv(s1) && OidInv(s1) && id in s1.active && s1.active[id].writer && v.oid < s1.cat.nextOID
    requires CreateError(s1.cat.entries, TxnOf(s1, id), newName).None?
    requires var c := WithDummy(s1.cat, newName, v.oid);
             forall m :: m in c.entries && m != newName ==> Admits(c.entries[m], v.(ts := id, deleted := false), s1.active, s1.lastTS)
    ensures OidInv(WithEffect(s1, id, CreateNoLock(s1.cat, TxnOf(s1, id), newName, v.kind, v.oid, v.body)))
  {
    var s2 := s1.(cat := WithDummy(s1.cat, newName, v.oid));
    DummyKeepsInv(s1, newName, v.oid);
    DummyKeepsOids(s1, newName, v.oid);
    CreateIsPush(s1.cat, TxnOf(s1, id), newName, v.kind, v.oid, v.body);
    var v' := Version(s2.cat.nextRef, v.kind, id, false, v.oid, v.body);
    PushKeepsOids(s2, WithEffect(s1, id, CreateNoLock(s1.cat, TxnOf(s1, id), newName, v.kind, v.oid, v.body)), newName, v');
  }

  lemma DropLeaves(s: System, id: nat, name: string, oid: nat)
    requires id in s.active && LiveEntry(s.cat.entries, TxnOf(s, id), name).Some?
    ensures Dropped(s, WithEffect(s, id, DropEntry(s.cat, TxnOf(s, id), name, oid)), id, name)
  {
  }

  lemma RenameKeepsOids(s: System, step: Step)
    requires Inv(s) && OidInv(s) && step.Rename? && Enabled(s, step) && Safe(s, step)
    ensures OidInv(Apply(s, step))
  {
    var id, t, name := step.id, TxnOf(s, step.id), step.name;
    if LiveEntry(s.cat.entries, t, name).None? {
      assert Apply(s, step) == s;
    } else {
      RenameLiveKeepsOids(s, step);
    }
  }

  lemma RenameLiveKeepsOids(s: System, step: Step)
    requires Inv(s) && OidInv(s) && step.Rename? && Enabled(s, step) && Safe(s, step)
    requires LiveEntry(s.cat.entries, TxnOf(s, step.id), step.name).Some?
    ensures OidInv(Apply(s, step))
  {
    var id, t, name := step.id, TxnOf(s, step.id), step.name;
    var v := s.cat.entries[name][0];
    SeenHeadIsPushable(s, id, name);
    assert v in s.cat.entries[name];
    DropKeepsInv(s, id, name, v.oid);
    DropKeepsOids(s, id, name, v.oid);
    DropLeaves(s, id, name, v.oid);
    RenameTarget(s.cat, t, name, v.oid, step.newName);
    var s1 := WithEffect(s, id, DropEntry(s.cat, t, name, v.oid));
    MoveAdmits(s, s1, id, name, step.newName, v.(ts := id, deleted := false), v.oid);
    MoveKeepsOids(s1, id, step.newName, v);
    RenameIsDropCreate(s, step);
  }

  lemma BeginKeepsOids(s: System, step: Step)
    requires Inv(s) && OidInv(s) && step.Begin?
    ensures OidInv(Apply(s, step))
  {
    var s' := Apply(s, step);
    forall n, m | n in s'.cat.entries && m in s'.cat.entries && n != m
      ensures PairOK(s'.cat.entries[n], s'.cat.entries[m], s'.active, s'.lastTS)
    {
      assert PairOK(s.cat.entries[n], s.cat.entries[m], s.active, s.lastTS);
      assert StampKnown(s.cat.entries[n][0].ts, s.active, s.lastTS);
    }
  }

  // ---------------------------------------------------------------- commit and rollback

  lemma {:induction false} SeesSameAt(chain: Versions, active: map<nat, TxnState>, lastTS: nat)
    requires ChainOK(chain, active, lastTS) && lastTS + 1 < START_TRANSACTION_ID
    requires forall i :: i in active ==> START_TRANSACTION_ID < i
    ensures Visible(chain, Txn(lastTS + 1, lastTS + 1)) == Visible(chain, Txn(lastTS, lastTS))
  {
    if |chain| > 1 {
      SeesSameAt(chain[1..], active, lastTS);
    }
  }

  /** What a re-stamped chain shows at every commit timestamp up to the new one. */
  lemma RestampedView(chain: Versions, active: map<nat, TxnState>, lastTS: nat, id: nat)
    requires ChainOK(chain, active, lastTS) && StartsBefore(active, lastTS) && id in active
    requires lastTS + 1 < START_TRANSACTION_ID
    ensures var c := Restamp(chain, id, lastTS + 1);
            && (forall ts :: 0 <= ts <= lastTS ==> LiveAt(c, ts) == LiveAt(chain, ts))
            && (chain[0].ts == id ==> LiveAt(c, lastTS + 1) == LiveOf(Some(chain[0].(ts := lastTS + 1))) && c[0].ts == lastTS + 1)
            && (chain[0].ts != id ==> c == chain && LiveAt(c, lastTS + 1) == LiveAt(chain, lastTS))
  {
    forall ts | 0 <= ts <= lastTS
      ensures LiveAt(Restamp(chain, id, lastTS + 1), ts) == LiveAt(chain, ts)
    {
      RestampUnseen(chain, id, lastTS + 1, Txn(ts, ts));
    }
    if chain[0].ts != id {
      NoneBelow(chain, active, lastTS, id, lastTS + 1);
      SeesSameAt(chain, active, lastTS);
    }
  }

  lemma CommitPair(a: Versions, b: Versions, active: map<nat, TxnState>, lastTS: nat, id: nat)
    requires ChainOK(a, active, lastTS) && ChainOK(b, active, lastTS)
    requires StartsBefore(active, lastTS) && id in active && lastTS + 1 < START_TRANSACTION_ID
    requires PairOK(a, b, active, lastTS) && PairOK(b, a, active, lastTS)
    ensures PairOK(Restamp(a, id, lastTS + 1), Restamp(b, id, lastTS + 1), active - {id}, lastTS + 1)
  {
    RestampedView(a, active, lastTS, id);
    RestampedView(b, active, lastTS, id);
    var a', b' := Restamp(a, id, lastTS + 1), Restamp(b, id, lastTS + 1);
    forall ts | 0 <= ts <= lastTS + 1 && LiveAt(a', ts).Some?
      ensures !Is(LiveAt(b', ts), LiveAt(a', ts).value.oid)
    {
      assert ts <= lastTS || ts == lastTS + 1;
    }
  }

  /** What an unlinked chain shows at every commit timestamp. */
  lemma {:induction false} UnlinkedView(chain: Versions, active: map<nat, TxnState>, lastTS: nat, id: nat)
    requires ChainOK(chain, active, lastTS) && StartsBefore(active, lastTS) && id in active
    ensures var c := Below(chain, id);
            && c != []
            && (forall ts :: 0 <= ts <= lastTS ==> LiveAt(c, ts) == LiveAt(chain, ts))
            && (chain[0].ts == id ==> c[0].ts < START_TRANSACTION_ID)
            && (chain[0].ts != id ==> c == chain)
  {
    forall ts | 0 <= ts <= lastTS
      ensures LiveAt(Below(chain, id), ts) == LiveAt(chain, ts)
    {
      BelowUnseen(chain, id, Txn(ts, ts));
    }
    if chain[0].ts == id {
      assert |chain| > 1;
      UnlinkedView(chain[1..], active, lastTS, id);
    }
  }

  lemma RollbackPair(a: Versions, b: Versions, active: map<nat, TxnState>, lastTS: nat, id: nat)
    requires ChainOK(a, active, lastTS) && ChainOK(b, active, lastTS)
    requires StartsBefore(active, lastTS) && id in active
    requires PairOK(a, b, active, lastTS) && PairOK(b, a, active, lastTS)
    ensures Below(a, id) != [] && Below(b, id) != []
    ensures PairOK(Below(a, id), Below(b, id), active - {id}, lastTS)
  {
    UnlinkedView(a, active, lastTS, id);
    UnlinkedView(b, active, lastTS, id);
  }

  lemma {:induction false} RestampKeepsOids(chain: Versions, id: nat, ts: nat, v: Version)
    requires v in Restamp(chain, id, ts)
    ensures exists w :: w in chain && w.oid == v.oid && w.deleted == v.deleted
  {
    if v in Restamp(chain[1..], id, ts) {
      RestampKeepsOids(chain[1..], id, ts, v);
      assert forall w :: w in chain[1..] ==> w in chain;
    } else {
      assert chain[0] in chain;
    }
  }

  lemma RestampedPairs(s: System, s': System, id: nat, ts: nat)
    requires Inv(s) && PairsOK(s) && id in s.active && ts == s.lastTS + 1 && ts < START_TRANSACTION_ID
    requires s'.cat.entries.Keys == s.cat.entries.Keys
    requires forall n :: n in s.cat.entries ==> s'.cat.entries[n] == Restamp(s.cat.entries[n], id, ts)
    requires s'.active == s.active - {id} && s'.lastTS == ts
    ensures PairsOK(s')
  {
    hide PairOK, UndosOK, Restamp, ChainOK;
    forall n, m | n in s'.cat.entries && m in s'.cat.entries && n != m
      ensures PairOK(s'.cat.entries[n], s'.cat.entries[m], s'.active, s'.lastTS)
    {
      CommitPair(s.cat.entries[n], s.cat.entries[m], s.active, s.lastTS, id);
    }
  }

  lemma RestampedDrawn(c: Catalog, c': Catalog, id: nat, ts: nat)
    requires OidsDrawn(c) && c'.entries.Keys == c.entries.Keys && c'.nextOID == c.nextOID
    requires forall n :: n in c.entries ==> c'.entries[n] == Restamp(c.entries[n], id, ts)
    ensures OidsDrawn(c')
  {
    forall n, v | n in c'.entries && v in c'.entries[n] && !v.deleted
      ensures v.oid < c'.nextOID
    {
      RestampKeepsOids(c.entries[n], id, ts, v);
    }
  }

  lemma CommitKeepsOids(s: System, id: nat)
    requires Inv(s) && OidInv(s) && Enabled(s, Commit(id)) && s.active[id].writer
    ensures OidInv(Apply(s, Commit(id)))
  {
    hide CommitAll, Restamp, PairOK, ChainOK, Matches, Refs;
    CommitStamps(s, id);
    RestampedPairs(s, Apply(s, Commit(id)), id, s.lastTS + 1);
    RestampedDrawn(s.cat, Apply(s, Commit(id)).cat, id, s.lastTS + 1);
  }

  lemma {:induction false} BelowIsSuffix(chain: Versions, id: nat, v: Version)
    requires v in Below(chain, id)
    ensures v in chain
  {
    if chain != [] && chain[0].ts == id {
      BelowIsSuffix(chain[1..], id, v);
    }
  }

  lemma RollbackKeepsOids(s: System, id: nat)
    requires Inv(s) && OidInv(s) && Enabled(s, Rollback(id))
    ensures OidInv(Apply(s, Rollback(id)))
  {
    var s' := Apply(s, Rollback(id));
    RollbackRemoves(s, id);
    forall n, m | n in s'.cat.entries && m in s'.cat.entries && n != m
      ensures PairOK(s'.cat.entries[n], s'.cat.entries[m], s'.active, s'.lastTS)
    {
      assert PairOK(s.cat.entries[n], s.cat.entries[m], s.active, s.lastTS);
      assert PairOK(s.cat.entries[m], s.cat.entries[n], s.active, s.lastTS);
      RollbackPair(s.cat.entries[n], s.cat.entries[m], s.active, s.lastTS, id);
    }
    forall n, v | n in s'.cat.entries && v in s'.cat.entries[n] && !v.deleted
      ensures v.oid < s'.cat.nextOID
    {
      BelowIsSuffix(s.cat.entries[n], id, v);
    }
  }
}
