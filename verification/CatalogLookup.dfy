/**
 Lookup by object ID, and the checkpoint round trip of a catalog set.
 */
module CatalogLookup {
  import opened Wrappers
  import opened CatalogModel
  import opened CatalogInvariant
  import opened CatalogRuns
  import opened CatalogSnapshots
  import opened CatalogOids

  // ---------------------------------------------------------------- OIDs over runs

  ghost predicate DistinctOids(c: Catalog) {
    && OidsDrawn(c)
    && forall n, m :: n in c.entries && m in c.entries && n != m && !c.entries[n][0].deleted && !c.entries[m][0].deleted
         ==> c.entries[n][0].oid != c.entries[m][0].oid
  }

  lemma FreshOidInv(s: System)
    requires Fresh(s) && DistinctOids(s.cat)
    ensures OidInv(s)
  {
  }

  lemma StepKeepsOids(s: System, step: Step)
    requires Inv(s) && OidInv(s) && Enabled(s, step) && Safe(s, step)
    ensures OidInv(Apply(s, step))
  {
    match step
    case Begin(_) => BeginKeepsOids(s, step);
    case Create(_, _, _, _) => CreateKeepsOids(s, step);
    case Drop(id, name, oid) => DropKeepsOids(s, id, name, oid);
    case Alter(_, _, _, _) => AlterKeepsOids(s, step);
    case Rename(_, _, _) => RenameKeepsOids(s, step);
    case Commit(id) =>
      if s.active[id].writer {
        CommitKeepsOids(s, id);
      } else {
        ReaderLeaves(s, id);
      }
    case Rollback(id) => RollbackKeepsOids(s, id);
  }

  lemma ReaderLeaves(s: System, id: nat)
    requires Inv(s) && OidInv(s) && id in s.active && !s.active[id].writer
    ensures OidInv(s.(active := s.active - {id}))
  {
    forall n, m | n in s.cat.entries && m in s.cat.entries && n != m
      ensures PairOK(s.cat.entries[n], s.cat.entries[m], s.active - {id}, s.lastTS)
    {
      assert PairOK(s.cat.entries[n], s.cat.entries[m], s.active, s.lastTS);
    }
  }

  lemma {:induction false} RunKeepsOids(states: seq<System>, steps: seq<Step>, i: nat)
    requires IsRun(states, steps) && DistinctOids(states[0].cat) && i < |states|
    ensures OidInv(states[i])
  {
    if i == 0 {
      FreshOidInv(states[0]);
    } else {
      RunKeepsOids(states, steps, i - 1);
      RunKeepsInv(states, steps, i - 1);
      StepKeepsOids(states[i - 1], steps[i - 1]);
    }
  }

  /** A transaction sees its own head, or the committed state as of its start. */
  lemma {:induction false} OwnOrAtStart(chain: Versions, active: map<nat, TxnState>, lastTS: nat, t: Txn)
    requires ChainOK(chain, active, lastTS) && t.id > START_TRANSACTION_ID
    ensures Visible(chain, t) == if chain[0].ts == t.id then Some(chain[0]) else Visible(chain, Txn(t.startTS, t.startTS))
  {
    if chain[0].ts != t.id && |chain| > 1 {
      NoneBelow(chain, active, lastTS, t.id, 0);
      assert chain[1] in chain;
      OwnOrAtStart(chain[1..], active, lastTS, t);
    }
  }

  /** No transaction sees two live names with one OID. */
  lemma UniqueOids(s: System, u: nat, n: string, m: string)
    requires Inv(s) && OidInv(s) && u in s.active && n != m
    requires LiveEntry(s.cat.entries, TxnOf(s, u), n).Some? && LiveEntry(s.cat.entries, TxnOf(s, u), m).Some?
    ensures LiveEntry(s.cat.entries, TxnOf(s, u), n).value.oid != LiveEntry(s.cat.entries, TxnOf(s, u), m).value.oid
  {
    var t := TxnOf(s, u);
    OwnOrAtStart(s.cat.entries[n], s.active, s.lastTS, t);
    OwnOrAtStart(s.cat.entries[m], s.active, s.lastTS, t);
    assert PairOK(s.cat.entries[n], s.cat.entries[m], s.active, s.lastTS);
    assert PairOK(s.cat.entries[m], s.cat.entries[n], s.active, s.lastTS);
    var a, b := LiveAt(s.cat.entries[n], t.startTS), LiveAt(s.cat.entries[m], t.startTS);
    assert a.Some? ==> !Is(b, a.value.oid);
  }

  /** Over every run: at most one live name per OID in every transaction's view. */
  lemma RunUniqueOids(states: seq<System>, steps: seq<Step>, i: nat, u: nat, n: string, m: string)
    requires IsRun(states, steps) && DistinctOids(states[0].cat) && i < |states|
    requires u in states[i].active
    requires var view := LiveView(states[i].cat.entries, TxnOf(states[i], u));
             n in view && m in view && view[n].oid == view[m].oid
    ensures n == m
  {
    RunKeepsInv(states, steps, i);
    RunKeepsOids(states, steps, i);
    if n != m {
      UniqueOids(states[i], u, n, m);
    }
  }

  // ---------------------------------------------------------------- lookup by OID

  /** What `getEntryOfOID` may return, over all iteration orders of the map: it compares the
      OID of the chain head and returns the visible version. */
  ghost predicate Answer(entries: Entries, t: Txn, oid: nat, r: Option<Version>) {
    match r
    case Some(v) => exists n :: n in entries && entries[n][0].oid == oid && LiveEntry(entries, t, n) == Some(v)
    case None => forall n :: n in entries && entries[n][0].oid == oid ==> LiveEntry(entries, t, n).None?
  }

  /** What a scan of the transaction's view for the OID returns. */
  ghost predicate Scan(entries: Entries, t: Txn, oid: nat, r: Option<Version>) {
    match r
    case Some(v) => v.oid == oid && exists n :: n in entries && LiveEntry(entries, t, n) == Some(v)
    case None => forall n :: n in entries && LiveEntry(entries, t, n).Some? ==> LiveEntry(entries, t, n).value.oid != oid
  }

  /** Under every name the head carries the OID exactly when what is seen does. */
  ghost predicate HeadsAgree(entries: Entries, t: Txn, oid: nat) {
    forall n :: n in entries && LiveEntry(entries, t, n).Some? ==>
      (entries[n][0].oid == oid <==> LiveEntry(entries, t, n).value.oid == oid)
  }

  /** When heads disagree, some iteration order returns a wrong answer. */
  lemma WrongAnswer(s: System, u: nat, oid: nat) returns (r: Option<Version>)
    requires Inv(s) && OidInv(s) && u in s.active
    requires !HeadsAgree(s.cat.entries, TxnOf(s, u), oid)
    ensures Answer(s.cat.entries, TxnOf(s, u), oid, r) && !Scan(s.cat.entries, TxnOf(s, u), oid, r)
  {
    var entries, t := s.cat.entries, TxnOf(s, u);
    var n :| n in entries && LiveEntry(entries, t, n).Some? &&
      !(entries[n][0].oid == oid <==> LiveEntry(entries, t, n).value.oid == oid);
    var v := LiveEntry(entries, t, n).value;
    if v.oid != oid {
      r := Some(v);
    } else if m :| m in entries && entries[m][0].oid == oid && LiveEntry(entries, t, m).Some? {
      UniqueOids(s, u, n, m);
      r := LiveEntry(entries, t, m);
    } else {
      r := None;
    }
  }

  /** `getEntryOfOID` agrees with a scan of the view, whatever the iteration order, if and only
      if the heads agree. */
  lemma LookupExactly(s: System, u: nat, oid: nat)
    requires Inv(s) && OidInv(s) && u in s.active
    ensures (forall r :: Answer(s.cat.entries, TxnOf(s, u), oid, r) ==> Scan(s.cat.entries, TxnOf(s, u), oid, r))
       <==> HeadsAgree(s.cat.entries, TxnOf(s, u), oid)
  {
    if !HeadsAgree(s.cat.entries, TxnOf(s, u), oid) {
      var r := WrongAnswer(s, u, oid);
    }
  }

  /** If all versions of a name share one OID the heads agree. */
  lemma SharedOidsAgree(entries: Entries, t: Txn, oid: nat)
    requires forall n, v :: n in entries && v in entries[n] ==> v.oid == entries[n][0].oid
    ensures HeadsAgree(entries, t, oid)
  {
    forall n | n in entries && LiveEntry(entries, t, n).Some?
      ensures LiveEntry(entries, t, n).value.oid == entries[n][0].oid
    {
      VisibleInChain(entries[n], t);
    }
  }

  /** The failing family: one transaction drops a table and creates it again; until its commit
      every other transaction that sees the old table can no longer look it up by its OID. */
  lemma RecreateHidesOld(s: System, id: nat, u: nat, name: string, kind: Kind, body: string)
    requires Inv(s) && OidInv(s) && id in s.active && s.active[id].writer && u in s.active && u != id
    requires LiveEntry(s.cat.entries, TxnOf(s, u), name).Some? && LiveEntry(s.cat.entries, TxnOf(s, id), name).Some?
    requires Sees(s.cat.entries[name][0], TxnOf(s, id))
    ensures var v := LiveEntry(s.cat.entries, TxnOf(s, u), name).value;
            var s1 := Apply(s, Drop(id, name, v.oid));
            var s2 := Apply(s1, Create(id, name, kind, body));
            && Safe(s, Drop(id, name, v.oid))
            && LiveEntry(s2.cat.entries, TxnOf(s, u), name) == Some(v)
            && !HeadsAgree(s2.cat.entries, TxnOf(s, u), v.oid)
  {
    var t, tu := TxnOf(s, id), TxnOf(s, u);
    var v := LiveEntry(s.cat.entries, tu, name).value;
    VisibleInChain(s.cat.entries[name], tu);
    assert v.oid < s.cat.nextOID;
    SeenHeadIsPushable(s, id, name);
    DropUnseen(s.cat, t, name, v.oid, tu);
    var c1 := DropEntry(s.cat, t, name, v.oid).cat;
    CreateUnseen(c1.(nextOID := c1.nextOID + 1), t, name, kind, c1.nextOID, body, tu);
    RecreatedHead(c1, t, name, kind, body);
    assert LiveEntry(c1.entries, tu, name) == Some(v);
  }

  lemma RecreatedHead(c: Catalog, t: Txn, name: string, kind: Kind, body: string)
    requires name in c.entries && c.entries[name][0].ts == t.id && c.entries[name][0].deleted
    requires t.startTS < START_TRANSACTION_ID <= t.id
    ensures var c2 := CreateEntry(c, t, name, kind, body).cat;
            name in c2.entries && c2.entries[name][0].oid == c.nextOID
  {
    assert CreateError(c.entries, t, name).None?;
  }

  // ---------------------------------------------------------------- checkpoint

  /** What `CatalogEntry::serialize` writes of an entry. */
  datatype Stored = Stored(name: string, kind: Kind, oid: nat, body: string)

  /** What the caller of a lookup gets to know of an entry. */
  datatype Content = Content(kind: Kind, oid: nat, body: string)

  function ContentOf(v: Option<Version>): Option<Content> {
    if v.Some? then Some(Content(v.value.kind, v.value.oid, v.value.body)) else None
  }

  /** The committed live version of a name, unless the head is a function entry. */
  function ToStore(chain: Chain): Option<Version> {
    if chain[0].kind == Function then None else LiveOf(Committed(chain))
  }

  /** A file written by `serialize`: one record per stored name, in the map's iteration order. */
  ghost predicate SerializedAs(entries: Entries, file: seq<Stored>) {
    && (forall i, j :: 0 <= i < j < |file| ==> file[i].name != file[j].name)
    && (forall r :: r in file <==>
          r.name in entries && ContentOf(ToStore(entries[r.name])) == Some(Content(r.kind, r.oid, r.body)))
  }

  /** `deserialize`: every record becomes an entry stamped 0, linked over an earlier one of its name. */
  function Deserialize(file: seq<Stored>): Entries {
    if file == [] then map[]
    else
      var r, rest := file[|file| - 1], Deserialize(file[..|file| - 1]);
      var v := Version(|file|, r.kind, 0, false, r.oid, r.body);
      rest[r.name := [v] + if r.name in rest then rest[r.name] else []]
  }

  lemma {:induction false} DeserializeAt(file: seq<Stored>, n: string)
    requires forall i, j :: 0 <= i < j < |file| ==> file[i].name != file[j].name
    ensures n in Deserialize(file) <==> exists r :: r in file && r.name == n
    ensures n in Deserialize(file) ==>
              exists r :: r in file && r.name == n &&
                |Deserialize(file)[n]| == 1 && Deserialize(file)[n][0].ts == 0 && !Deserialize(file)[n][0].deleted &&
                Deserialize(file)[n][0].ref <= |file| &&
                Content(r.kind, r.oid, r.body) == Content(Deserialize(file)[n][0].kind, Deserialize(file)[n][0].oid, Deserialize(file)[n][0].body)
  {
    if file != [] {
      var k := |file| - 1;
      var rest := file[..k];
      DeserializeAt(rest, n);
      assert file == rest + [file[k]];
      assert file[k] in file;
    }
  }

  /** A new reader and `getCommittedEntryNoLock` pick the same version. */
  lemma {:induction false} CommittedIsVisible(chain: Versions, active: map<nat, TxnState>, lastTS: nat, reader: nat)
    requires ChainOK(chain, active, lastTS) && lastTS < START_TRANSACTION_ID
    requires forall i :: i in active ==> START_TRANSACTION_ID < i < reader
    ensures Committed(chain) == Visible(chain, Txn(reader, lastTS))
  {
    if |chain| > 1 {
      CommittedIsVisible(chain[1..], active, lastTS, reader);
    }
  }

  /** Checkpoint round trip: whatever order the entries were written in, every transaction on
      the reloaded set sees under every name what a transaction starting now sees on the
      original, function entries excepted. */
  lemma CheckpointRoundTrip(s: System, file: seq<Stored>, n: string, reader: nat, t: Txn)
    requires Inv(s) && SerializedAs(s.cat.entries, file) && reader > s.lastID
    ensures ContentOf(LiveEntry(Deserialize(file), t, n))
         == if n in s.cat.entries && s.cat.entries[n][0].kind == Function then None
            else ContentOf(LiveEntry(s.cat.entries, Txn(reader, s.lastTS), n))
  {
    DeserializeAt(file, n);
    if n in s.cat.entries {
      var chain := s.cat.entries[n];
      CommittedIsVisible(chain, s.active, s.lastTS, reader);
      var stored := ContentOf(ToStore(chain));
      if stored.Some? {
        assert Stored(n, stored.value.kind, stored.value.oid, stored.value.body) in file;
      }
    }
  }

  /** A reloaded set is a fresh catalog, so every result about runs applies to it. */
  lemma ReloadedIsFresh(file: seq<Stored>, nextOID: nat)
    requires forall i, j :: 0 <= i < j < |file| ==> file[i].name != file[j].name
    ensures Fresh(System(Catalog(Deserialize(file), nextOID, |file| + 1), map[], START_TRANSACTION_ID, 1))
  {
    forall n | n in Deserialize(file)
      ensures |Deserialize(file)[n]| == 1 && Deserialize(file)[n][0].ts == 0 && Deserialize(file)[n][0].ref <= |file|
    {
      DeserializeAt(file, n);
    }
  }
}
