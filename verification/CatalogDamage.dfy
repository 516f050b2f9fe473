/**
 What steps that are not safe do to other transactions: a committed alter publishes the version just above
 the one it altered instead of its own, and a drop over another writer's version is left with an undo
 record of a version that is gone when that writer rolls back.
 */
module CatalogDamage {
  import opened Wrappers
  import opened CatalogModel
  import opened CatalogInvariant
  import opened CatalogRuns
  import opened CatalogSnapshots

  // ---------------------------------------------------------------- positions in a chain

  lemma {:induction false} RefsFall(chain: Versions, active: map<nat, TxnState>, lastTS: nat, i: nat, j: nat)
    requires ChainOK(chain, active, lastTS) && i < j < |chain|
    ensures chain[j].ref < chain[i].ref
    decreases chain
  {
    if i > 0 {
      RefsFall(chain[1..], active, lastTS, i - 1, j - 1);
    } else if j > 1 {
      RefsFall(chain[1..], active, lastTS, 0, j - 1);
    }
  }

  lemma {:induction false} IndexIs(chain: Versions, i: nat)
    requires i < |chain| && forall j :: 0 <= j < i ==> chain[j].ref != chain[i].ref
    ensures IndexOf(chain, chain[i].ref) == i
  {
    if i > 0 {
      IndexIs(chain[1..], i - 1);
    }
  }

  lemma {:induction false} IndexMissing(chain: Versions, ref: nat)
    requires forall v :: v in chain ==> v.ref != ref
    ensures IndexOf(chain, ref) == |chain|
  {
    if chain != [] {
      IndexMissing(chain[1..], ref);
    }
  }

  /** Everything above the visible version is unseen. */
  lemma {:induction false} UnseenAbove(chain: Versions, active: map<nat, TxnState>, lastTS: nat, t: Txn, i: nat)
    requires ChainOK(chain, active, lastTS) && i < |chain| && Visible(chain, t) == Some(chain[i])
    ensures forall j :: 0 <= j < i ==> !Sees(chain[j], t)
    decreases chain
  {
    if i > 0 {
      RefsFall(chain, active, lastTS, 0, i);
      UnseenAbove(chain[1..], active, lastTS, t, i - 1);
      forall j | 0 <= j < i ensures !Sees(chain[j], t) {
        if j > 0 {
          assert chain[j] == chain[1..][j - 1];
        }
      }
    }
  }

  // ---------------------------------------------------------------- replaying records on one name

  lemma CommitAt(s: System, id: nat, name: string)
    requires Enabled(s, Commit(id)) && s.active[id].writer && name in s.cat.entries
    ensures var after := Apply(s, Commit(id)).cat.entries;
            name in after && after[name] == StampRefs(s.cat.entries[name], Refs(s.active[id].undo, name), s.lastTS + 1)
  {
    hide StampRefs, Refs, CommitAll;
    ApplyCommit(s, id);
    CommitAllAt(s.cat.entries, s.active[id].undo, s.lastTS + 1, name);
  }

  lemma RollbackAt(s: System, id: nat, name: string)
    requires Enabled(s, Rollback(id)) && name in s.cat.entries
    ensures var after := Apply(s, Rollback(id));
            && name in after.cat.entries
            && after.cat.entries[name] == DropRefs(s.cat.entries[name], Refs(s.active[id].undo, name))
            && after.active == s.active - {id} && after.lastTS == s.lastTS
  {
    hide DropRefs, Refs, RollbackAll;
    ApplyRollback(s, id);
    RollbackAllAt(s.cat.entries, s.active[id].undo, name);
  }

  /** A step that pushed one version of a name and logged one record. */
  ghost predicate OnePushed(s: System, s1: System, id: nat, name: string, v: Version, ref: nat)
    requires id in s.active && name in s.cat.entries
  {
    && name in s1.cat.entries && s1.cat.entries[name] == [v] + s.cat.entries[name]
    && s1.active == s.active[id := s.active[id].(undo := s.active[id].undo + [Record(name, ref)])]
    && s1.lastTS == s.lastTS
  }

  lemma AlterPushes(s: System, step: Step, k: nat)
    requires step.Alter? && Enabled(s, step)
    requires LiveEntry(s.cat.entries, TxnOf(s, step.id), step.name).Some? && k < |s.cat.entries[step.name]|
    requires LiveEntry(s.cat.entries, TxnOf(s, step.id), step.name) == Some(s.cat.entries[step.name][k])
    ensures var v := s.cat.entries[step.name][k];
            OnePushed(s, Apply(s, step), step.id, step.name, v.(ref := s.cat.nextRef, ts := step.id, body := step.body), v.ref)
  {
    hide Visible;
  }

  lemma DropPushes(s: System, step: Step)
    requires step.Drop? && Enabled(s, step) && LiveEntry(s.cat.entries, TxnOf(s, step.id), step.name).Some?
    ensures OnePushed(s, Apply(s, step), step.id, step.name, DummyVersion(s.cat.nextRef, step.id, step.oid),
                      s.cat.entries[step.name][0].ref)
  {
    hide Visible;
  }

  lemma InvAt(s: System, name: string)
    requires Inv(s) && name in s.cat.entries
    ensures ChainOK(s.cat.entries[name], s.active, s.lastTS) && s.cat.entries[name][0].ref < s.cat.nextRef
    ensures ClocksOK(s)
  {
  }

  lemma RecordsMatch(s: System, id: nat, name: string)
    requires Inv(s) && id in s.active && name in s.cat.entries
    ensures Matches(s.cat.entries[name], Refs(s.active[id].undo, name), id)
  {
    hide Matches, Refs;
    assert UndoOK(s.cat.entries, id, s.active[id].undo);
  }

  lemma NoRecords(s: System, id: nat, name: string, ref: nat)
    requires Inv(s) && id in s.active && name in s.cat.entries && s.cat.entries[name][0].ts != id
    ensures Refs(s.active[id].undo + [Record(name, ref)], name) == [ref]
  {
    RefsSnoc(s.active[id].undo, Record(name, ref), name);
    assert Matches(s.cat.entries[name], Refs(s.active[id].undo, name), id);
  }

  // ---------------------------------------------------------------- an alter below the head

  /** The chain that an alter and its commit leave: the version above the altered one carries the new
      timestamp, the altered copy still the ID. */
  ghost function Misstamped(chain: Versions, v: Version, k: nat, ts: nat): Versions
    requires 0 < k < |chain|
  {
    [v] + chain[k - 1 := chain[k - 1].(ts := ts)]
  }

  lemma AlterThenCommit(s: System, step: Step, k: nat)
    requires Inv(s) && step.Alter? && Enabled(s, step) && s.lastTS + 1 < START_TRANSACTION_ID
    requires LiveEntry(s.cat.entries, TxnOf(s, step.id), step.name).Some? && 0 < k < |s.cat.entries[step.name]|
    requires LiveEntry(s.cat.entries, TxnOf(s, step.id), step.name) == Some(s.cat.entries[step.name][k])
    ensures Enabled(Apply(s, step), Commit(step.id))
    ensures var chain := s.cat.entries[step.name];
            var v := chain[k].(ref := s.cat.nextRef, ts := step.id, body := step.body);
            var after := Apply(Apply(s, step), Commit(step.id)).cat.entries;
            step.name in after && after[step.name] == Misstamped(chain, v, k, s.lastTS + 1)
  {
    hide Visible, Apply, StampRefs, Misstamped, Refs, Inv, ChainOK;
    var chain, s1 := s.cat.entries[step.name], Apply(s, step);
    var v := chain[k].(ref := s.cat.nextRef, ts := step.id, body := step.body);
    InvAt(s, step.name);
    UnseenAbove(chain, s.active, s.lastTS, TxnOf(s, step.id), k);
    AlterPushes(s, step, k);
    NoRecords(s, step.id, step.name, chain[k].ref);
    CommitAt(s1, step.id, step.name);
    StampBelow(chain, s.active, s.lastTS, v, k, s.lastTS + 1);
  }

  lemma StampBelow(chain: Versions, active: map<nat, TxnState>, lastTS: nat, v: Version, k: nat, ts: nat)
    requires ChainOK(chain, active, lastTS) && chain[0].ref < v.ref && 0 < k < |chain|
    ensures StampRefs([v] + chain, [chain[k].ref], ts) == Misstamped(chain, v, k, ts)
  {
    forall j | 0 <= j < k ensures chain[k].ref < chain[j].ref {
      RefsFall(chain, active, lastTS, j, k);
    }
    IndexIs([v] + chain, k + 1);
    assert StampRefs([v] + chain, [chain[k].ref], ts) == StampNext([v] + chain, chain[k].ref, ts);
  }

  /** Whoever saw the version just above the altered one sees what lies below it instead; nobody else who began
      before the commit sees a change. */
  lemma AlterHides(s: System, step: Step, k: nat, u: Txn)
    requires Inv(s) && step.Alter? && Enabled(s, step) && s.lastTS + 1 < START_TRANSACTION_ID
    requires LiveEntry(s.cat.entries, TxnOf(s, step.id), step.name).Some? && 0 < k < |s.cat.entries[step.name]|
    requires LiveEntry(s.cat.entries, TxnOf(s, step.id), step.name) == Some(s.cat.entries[step.name][k])
    requires u.id != step.id && START_TRANSACTION_ID <= u.id && u.startTS <= s.lastTS
    ensures Enabled(Apply(s, step), Commit(step.id))
    ensures var chain := s.cat.entries[step.name];
            var after := Apply(Apply(s, step), Commit(step.id)).cat.entries;
            && step.name in after
            && (Visible(after[step.name], u) != Visible(chain, u) <==> Visible(chain, u) == Some(chain[k - 1]))
            && (Visible(chain, u) == Some(chain[k - 1]) ==> Visible(after[step.name], u) == Visible(chain[k..], u))
            && (Visible(chain, u) == Some(chain[k - 1]) && !chain[k - 1].deleted ==>
                  LiveView(after, u) != LiveView(s.cat.entries, u))
  {
    hide Apply, Inv, Visible, LiveView, Misstamped;
    InvAt(s, step.name);
    AlterThenCommit(s, step, k);
    var chain := s.cat.entries[step.name];
    var after := Apply(Apply(s, step), Commit(step.id)).cat.entries;
    var v := chain[k].(ref := s.cat.nextRef, ts := step.id, body := step.body);
    if Visible(chain, u) == Some(chain[k - 1]) {
      MisstampedView(chain, s.active, s.lastTS, v, k, u);
      if !chain[k - 1].deleted {
        DifferentView(s.cat.entries, after, u, step.name);
      }
    } else {
      OtherViews(chain, s.active, s.lastTS, v, k, u);
    }
  }

  lemma OtherViews(chain: Versions, active: map<nat, TxnState>, lastTS: nat, v: Version, k: nat, u: Txn)
    requires ChainOK(chain, active, lastTS) && 0 < k < |chain| && Visible(chain, u) != Some(chain[k - 1])
    requires u.id != v.ts && u.startTS < v.ts && u.startTS <= lastTS && u.id != lastTS + 1
    ensures Visible(Misstamped(chain, v, k, lastTS + 1), u) == Visible(chain, u)
  {
    VisibleExists(chain, active, lastTS, u);
    VisibleInChain(chain, u);
    var i :| 0 <= i < |chain| && Visible(chain, u) == Some(chain[i]);
    UnseenAbove(chain, active, lastTS, u, i);
    var c := chain[k - 1 := chain[k - 1].(ts := lastTS + 1)];
    var top := [v] + c[..i];
    assert Misstamped(chain, v, k, lastTS + 1) == top + c[i..];
    forall w | w in top ensures !Sees(w, u) {
      var j :| 0 <= j < |top| && top[j] == w;
      assert 0 < j ==> w == c[j - 1] && !Sees(chain[j - 1], u);
    }
    VisibleSkips(top, c[i..], u);
    HeadVisible(c[i..], u);
  }

  lemma MisstampedView(chain: Versions, active: map<nat, TxnState>, lastTS: nat, v: Version, k: nat, u: Txn)
    requires ChainOK(chain, active, lastTS) && 0 < k < |chain| && Visible(chain, u) == Some(chain[k - 1])
    requires u.id != v.ts && u.startTS < v.ts && u.startTS <= lastTS && u.id != lastTS + 1
    ensures Visible(Misstamped(chain, v, k, lastTS + 1), u) == Visible(chain[k..], u) != Some(chain[k - 1])
  {
    UnseenAbove(chain, active, lastTS, u, k - 1);
    var top := [v] + chain[..k - 1] + [chain[k - 1].(ts := lastTS + 1)];
    assert Misstamped(chain, v, k, lastTS + 1) == top + chain[k..];
    forall w | w in top ensures !Sees(w, u) {
      var j :| 0 <= j < |top| && top[j] == w;
      assert 0 < j < k ==> w == chain[j - 1];
    }
    VisibleSkips(top, chain[k..], u);
    VisibleInChain(chain[k..], u);
    if Visible(chain[k..], u) == Some(chain[k - 1]) {
      var j :| 0 <= j < |chain[k..]| && chain[k..][j] == chain[k - 1];
      RefsFall(chain, active, lastTS, k - 1, k + j);
    }
  }

  lemma SecondVisible(chain: Versions, t: Txn)
    requires |chain| > 1 && !Sees(chain[0], t) && Sees(chain[1], t)
    ensures Visible(chain, t) == Some(chain[1])
  {
  }

  /** A writer whose only version heads the chain no longer sees it once an alter of the version below commits. */
  lemma WriterLosesWrite(s: System, step: Step, w: nat)
    requires Inv(s) && step.Alter? && Enabled(s, step) && s.lastTS + 1 < START_TRANSACTION_ID
    requires LiveEntry(s.cat.entries, TxnOf(s, step.id), step.name).Some?
    requires w in s.active && w != step.id && s.cat.entries[step.name][0].ts == w
    requires |s.cat.entries[step.name]| > 1 && Sees(s.cat.entries[step.name][1], TxnOf(s, step.id))
    ensures Enabled(Apply(s, step), Commit(step.id))
    ensures var chain := s.cat.entries[step.name];
            var after := Apply(Apply(s, step), Commit(step.id)).cat.entries;
            && Visible(chain, TxnOf(s, w)) == Some(chain[0])
            && step.name in after && Visible(after[step.name], TxnOf(s, w)) == Visible(chain[1..], TxnOf(s, w)) != Some(chain[0])
            && (!chain[0].deleted ==> LiveView(after, TxnOf(s, w)) != LiveView(s.cat.entries, TxnOf(s, w)))
  {
    var chain := s.cat.entries[step.name];
    SecondVisible(chain, TxnOf(s, step.id));
    assert ClocksOK(s);
    hide Apply, Inv;
    AlterHides(s, step, 1, TxnOf(s, w));
  }

  /** And a reader that begins after the commit sees that uncommitted version, while the altered copy is seen by
      no other transaction, then or later. */
  lemma DirtyRead(s: System, step: Step, w: nat, t: Txn)
    requires Inv(s) && step.Alter? && Enabled(s, step) && s.lastTS + 1 < START_TRANSACTION_ID
    requires LiveEntry(s.cat.entries, TxnOf(s, step.id), step.name).Some?
    requires w in s.active && w != step.id && s.cat.entries[step.name][0].ts == w
    requires |s.cat.entries[step.name]| > 1 && Sees(s.cat.entries[step.name][1], TxnOf(s, step.id))
    requires t.id != step.id && t.startTS < START_TRANSACTION_ID
    ensures Enabled(Apply(s, step), Commit(step.id))
    ensures var chain := s.cat.entries[step.name];
            var after := Apply(Apply(s, step), Commit(step.id)).cat.entries;
            && step.name in after
            && Visible(after[step.name], Txn(s.lastID + 1, s.lastTS + 1)) == Some(chain[0].(ts := s.lastTS + 1))
            && Visible(after[step.name], t).Some? && Visible(after[step.name], t).value.ref < s.cat.nextRef
  {
    hide Apply, Inv, ChainOK;
    var chain := s.cat.entries[step.name];
    InvAt(s, step.name);
    SecondVisible(chain, TxnOf(s, step.id));
    AlterThenCommit(s, step, 1);
    var v := chain[1].(ref := s.cat.nextRef, ts := step.id, body := step.body);
    var c := chain[0 := chain[0].(ts := s.lastTS + 1)];
    assert Misstamped(chain, v, 1, s.lastTS + 1) == [v] + c;
    var reader := Txn(s.lastID + 1, s.lastTS + 1);
    VisibleSkips([v], c, reader);
    VisibleSkips([v], c, t);
    RestSeen(chain, s.active, s.lastTS, t, s.lastTS + 1);
  }

  lemma RestSeen(chain: Versions, active: map<nat, TxnState>, lastTS: nat, t: Txn, ts: nat)
    requires ChainOK(chain, active, lastTS) && |chain| > 1
    ensures var c := chain[0 := chain[0].(ts := ts)];
            Visible(c, t).Some? && Visible(c, t).value.ref <= chain[0].ref
  {
    var c := chain[0 := chain[0].(ts := ts)];
    assert c[1..] == chain[1..];
    VisibleExists(chain[1..], active, lastTS, t);
    VisibleIsOlder(chain[1..], active, lastTS, t);
  }

  /** A reader that begins before the commit loses the newest committed version when that lies just above the
      altered one. */
  lemma ReaderLosesCommit(s: System, step: Step, k: nat)
    requires Inv(s) && step.Alter? && Enabled(s, step) && s.lastTS + 1 < START_TRANSACTION_ID
    requires LiveEntry(s.cat.entries, TxnOf(s, step.id), step.name).Some? && 0 < k < |s.cat.entries[step.name]|
    requires LiveEntry(s.cat.entries, TxnOf(s, step.id), step.name) == Some(s.cat.entries[step.name][k])
    requires Visible(s.cat.entries[step.name], Txn(s.lastID + 1, s.lastTS)) == Some(s.cat.entries[step.name][k - 1])
    ensures var begun := Apply(s, Begin(false));
            && Enabled(begun, step) && Enabled(Apply(begun, step), Commit(step.id))
            && var u := TxnOf(begun, s.lastID + 1);
            var after := Apply(Apply(begun, step), Commit(step.id)).cat.entries;
            && step.name in after && Visible(after[step.name], u) == Some(s.cat.entries[step.name][k])
            && LiveView(after, u) != LiveView(begun.cat.entries, u)
  {
    hide Apply, Inv, Visible, LiveView;
    var begun, chain, u := Apply(s, Begin(false)), s.cat.entries[step.name], Txn(s.lastID + 1, s.lastTS);
    Begun(s, step.id);
    OthersUnseen(s, step.id, step.name, k);
    HeadVisible(chain[k..], u);
    AlterHides(begun, step, k, u);
    var after := Apply(Apply(begun, step), Commit(step.id)).cat.entries;
    DifferentView(begun.cat.entries, after, u, step.name);
  }

  lemma Begun(s: System, id: nat)
    requires Inv(s) && id in s.active
    ensures var begun := Apply(s, Begin(false));
            && Inv(begun) && begun.cat == s.cat && begun.lastTS == s.lastTS && ClocksOK(s)
            && id in begun.active && begun.active[id] == s.active[id] && id != s.lastID + 1
            && s.lastID + 1 in begun.active && TxnOf(begun, s.lastID + 1) == Txn(s.lastID + 1, s.lastTS)
  {
    BeginKeepsInv(s, Begin(false));
  }

  lemma DifferentView(before: Entries, after: Entries, u: Txn, name: string)
    requires name in before && name in after && (LiveEntry(before, u, name).Some? || LiveEntry(after, u, name).Some?)
    requires Visible(before[name], u) != Visible(after[name], u)
    ensures LiveView(after, u) != LiveView(before, u)
  {
    hide Visible;
    var x, y := LiveEntry(before, u, name), LiveEntry(after, u, name);
    assert x != y;
    assert x.Some? <==> name in LiveView(before, u);
    assert y.Some? <==> name in LiveView(after, u);
    if x.Some? && y.Some? {
      assert LiveView(before, u)[name] != LiveView(after, u)[name];
    }
  }

  /** What the alterer sees, and did not write, everyone who begins now would see below. */
  lemma OthersUnseen(s: System, id: nat, name: string, k: nat)
    requires Inv(s) && id in s.active && name in s.cat.entries && 0 < k < |s.cat.entries[name]|
    requires Visible(s.cat.entries[name], TxnOf(s, id)) == Some(s.cat.entries[name][k])
    ensures Sees(s.cat.entries[name][k], Txn(s.lastID + 1, s.lastTS))
  {
    var chain := s.cat.entries[name];
    UnseenAbove(chain, s.active, s.lastTS, TxnOf(s, id), k);
    VisibleInChain(chain, TxnOf(s, id));
    NoneBelow(chain, s.active, s.lastTS, id, 0);
  }

  // ---------------------------------------------------------------- a drop over another writer's version

  lemma {:induction false} DropRefsUnder(v: Version, chain: Versions, active: map<nat, TxnState>, lastTS: nat,
                                         refs: seq<nat>, id: nat)
    requires ChainOK(chain, active, lastTS) && Matches(chain, refs, id) && chain[0].ref < v.ref
    ensures DropRefs([v] + chain, refs) == [v] + Below(chain, id)
    decreases chain
  {
    if refs != [] {
      IndexIs([v] + chain, 2);
      assert DropNext([v] + chain, chain[1].ref) == [v] + chain[1..];
      DropRefsUnder(v, chain[1..], active, lastTS, refs[..|refs| - 1], id);
    }
  }

  lemma {:induction false} BelowIsOlder(chain: Versions, active: map<nat, TxnState>, lastTS: nat, id: nat)
    requires ChainOK(chain, active, lastTS) && chain[0].ts == id
    ensures forall v :: v in Below(chain, id) ==> v.ref < chain[0].ref
  {
    if |chain| > 1 {
      if chain[1].ts == id {
        BelowIsOlder(chain[1..], active, lastTS, id);
      } else {
        forall v | v in chain[1..] ensures v.ref < chain[0].ref {
          var j :| 0 <= j < |chain[1..]| && chain[1..][j] == v;
          RefsFall(chain, active, lastTS, 0, j + 1);
        }
      }
    }
  }

  /** After the covered writer has rolled back, the dropper's undo buffer still holds the record of the covered
      head, and that version is no longer in the chain: the record dangles. */
  lemma DropDangles(s: System, step: Step, w: nat)
    requires Inv(s) && step.Drop? && Enabled(s, step)
    requires LiveEntry(s.cat.entries, TxnOf(s, step.id), step.name).Some?
    requires w in s.active && w != step.id && s.cat.entries[step.name][0].ts == w
    ensures Enabled(Apply(s, step), Rollback(w))
    ensures var head, after := s.cat.entries[step.name][0], Apply(Apply(s, step), Rollback(w));
            && step.id in after.active && Record(step.name, head.ref) in after.active[step.id].undo
            && step.name in after.cat.entries
            && IndexOf(after.cat.entries[step.name], head.ref) == |after.cat.entries[step.name]|
  {
    hide Visible, ChainOK, Matches, Below, Apply, Refs, DropRefs, Inv;
    var chain, tomb := s.cat.entries[step.name], DummyVersion(s.cat.nextRef, step.id, step.oid);
    var s1 := Apply(s, step);
    InvAt(s, step.name);
    DropPushes(s, step);
    RecordsMatch(s, w, step.name);
    RollbackAt(s1, w, step.name);
    DropRefsUnder(tomb, chain, s.active, s.lastTS, Refs(s.active[w].undo, step.name), w);
    BelowIsOlder(chain, s.active, s.lastTS, w);
    IndexMissing([tomb] + Below(chain, w), chain[0].ref);
  }

  // ---------------------------------------------------------------- records of sound states

  lemma {:induction false} RefIsLogged(undo: seq<Record>, r: Record)
    requires r in undo
    ensures r.ref in Refs(undo, r.name)
  {
    var rest := undo[..|undo| - 1];
    assert undo == rest + [undo[|undo| - 1]];
    if r in rest {
      RefIsLogged(rest, r);
    }
  }

  lemma {:induction false} MatchedPosition(chain: Versions, refs: seq<nat>, id: nat, ref: nat) returns (i: nat)
    requires Matches(chain, refs, id) && ref in refs
    ensures 0 < i < |chain| && chain[i].ref == ref && chain[i - 1].ts == id
  {
    var older := refs[..|refs| - 1];
    assert refs == older + [chain[1].ref];
    if ref in older {
      i := MatchedPosition(chain[1..], older, id, ref);
      i := i + 1;
    } else {
      i := 1;
    }
  }

  /** Every record names a version of its chain that lies directly below one of the transaction's own. */
  lemma RecordsLive(s: System, id: nat, r: Record)
    requires Inv(s) && id in s.active && r in s.active[id].undo
    ensures r.name in s.cat.entries
    ensures var chain := s.cat.entries[r.name];
            0 < IndexOf(chain, r.ref) < |chain| && chain[IndexOf(chain, r.ref) - 1].ts == id
  {
    assert UndoOK(s.cat.entries, id, s.active[id].undo);
    hide Matches, Refs, ChainOK;
    var chain := s.cat.entries[r.name];
    RefIsLogged(s.active[id].undo, r);
    var i := MatchedPosition(chain, Refs(s.active[id].undo, r.name), id, r.ref);
    forall j | 0 <= j < i ensures chain[j].ref != chain[i].ref {
      RefsFall(chain, s.active, s.lastTS, j, i);
    }
    IndexIs(chain, i);
  }

  /** So no record dangles in any state of a safe run. */
  lemma RunRecordsLive(states: seq<System>, steps: seq<Step>, i: nat, id: nat, r: Record)
    requires IsRun(states, steps) && i < |states| && id in states[i].active && r in states[i].active[id].undo
    ensures r.name in states[i].cat.entries
    ensures var chain := states[i].cat.entries[r.name];
            0 < IndexOf(chain, r.ref) < |chain| && chain[IndexOf(chain, r.ref) - 1].ts == id
  {
    hide Inv, IndexOf;
    RunKeepsInv(states, steps, i);
    RecordsLive(states[i], id, r);
  }
}
