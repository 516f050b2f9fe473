/**
 What each catalog operation means to the transaction that calls it: which exception it throws, what the
 transaction sees afterwards, and that no other name is touched.
 */
module CatalogEffects {
  import opened Wrappers
  import opened CatalogModel
  import opened CatalogInvariant

  /** Transaction IDs lie above all timestamps. */
  ghost predicate Running(t: Txn) {
    t.startTS < START_TRANSACTION_ID <= t.id
  }

  /** Nobody sees a change under any name but the given ones. */
  ghost predicate OthersSame(before: Entries, after: Entries, names: set<string>) {
    forall u: Txn, m: string :: m !in names ==> LiveEntry(after, u, m) == LiveEntry(before, u, m)
  }

  lemma OthersSameThen(a: Entries, b: Entries, c: Entries, names: set<string>, more: set<string>)
    requires OthersSame(a, b, names) && OthersSame(b, c, more)
    ensures OthersSame(a, c, names + more)
  {
    hide LiveEntry;
  }

  // ---------------------------------------------------------------- create

  /** A live entry of the name that is seen wins over a conflict; a conflict is a newest version that is not seen;
      nothing else fails, and a failed create changes nothing. */
  lemma CreateThrows(c: Catalog, t: Txn, name: string, kind: Kind, oid: nat, body: string)
    requires Running(t)
    ensures var e := CreateNoLock(c, t, name, kind, oid, body);
            && (e.out == Err(AlreadyExists) <==> LiveEntry(c.entries, t, name).Some?)
            && (e.out == Err(WriteWriteConflict) <==>
                  LiveEntry(c.entries, t, name).None? && name in c.entries && !Sees(c.entries[name][0], t))
            && (e.out.Err? ==> e.cat == c && e.out.error != DoesNotExist)
  {
    if name in c.entries {
      ConflictMeansUnseen(t, c.entries[name][0]);
      if Sees(c.entries[name][0], t) {
        HeadVisible(c.entries[name], t);
      }
    }
  }

  /** The creator sees the entry as given, and logs the version that it lies on. */
  lemma CreateSeen(c: Catalog, t: Txn, name: string, kind: Kind, oid: nat, body: string)
    requires Running(t) && CreateNoLock(c, t, name, kind, oid, body).out.Ok?
    ensures var e := CreateNoLock(c, t, name, kind, oid, body);
            && LiveEntry(e.cat.entries, t, name).Some?
            && var v := LiveEntry(e.cat.entries, t, name).value;
            && v.kind == kind && v.oid == oid && v.body == body && v.ts == t.id
            && name in e.cat.entries && |e.cat.entries[name]| > 1 && e.cat.entries[name][0] == v
            && e.out == Ok([Record(name, e.cat.entries[name][1].ref)])
            && OthersSame(c.entries, e.cat.entries, {name})
  {
    var e := CreateNoLock(c, t, name, kind, oid, body);
    HeadVisible(e.cat.entries[name], t);
  }

  /** `createEntry` gives the next OID, and draws it even when it fails. */
  lemma CreateDrawsOid(c: Catalog, t: Txn, name: string, kind: Kind, body: string)
    requires Running(t)
    ensures var e := CreateEntry(c, t, name, kind, body);
            && e.cat.nextOID == c.nextOID + 1
            && (e.out.Ok? ==> LiveEntry(e.cat.entries, t, name).Some? && LiveEntry(e.cat.entries, t, name).value.oid == c.nextOID)
            && (e.out.Err? ==> e.cat.entries == c.entries)
  {
    var e := CreateEntry(c, t, name, kind, body);
    if e.out.Ok? {
      CreateSeen(c.(nextOID := c.nextOID + 1), t, name, kind, c.nextOID, body);
    }
  }

  // ---------------------------------------------------------------- drop and alter

  /** A drop fails exactly when the name has no live entry; afterwards the dropper sees none. */
  lemma DropSeen(c: Catalog, t: Txn, name: string, oid: nat)
    ensures var e := DropEntry(c, t, name, oid);
            && (e.out.Err? <==> LiveEntry(c.entries, t, name).None?)
            && (e.out.Err? ==> e == Effect(c, Err(DoesNotExist)))
            && (e.out.Ok? ==> LiveEntry(e.cat.entries, t, name).None? && OthersSame(c.entries, e.cat.entries, {name}))
            && (e.out.Ok? ==> name in c.entries && e.out == Ok([Record(name, c.entries[name][0].ref)]))
  {
    var e := DropEntry(c, t, name, oid);
    if e.out.Ok? {
      HeadVisible(e.cat.entries[name], t);
    }
  }

  /** An alter fails exactly when the name has no live entry; afterwards the writer sees the entry it saw with the
      new contents and everything else kept. */
  lemma AlterSeen(c: Catalog, t: Txn, name: string, body: string, drawsOID: bool)
    ensures var before, e := LiveEntry(c.entries, t, name), AlterEntry(c, t, name, body, drawsOID);
            && (e.out.Err? <==> before.None?)
            && (e.out.Err? ==> e == Effect(c, Err(DoesNotExist)))
            && (e.out.Ok? ==> LiveEntry(e.cat.entries, t, name) == Some(before.value.(ref := c.nextRef, ts := t.id, body := body)))
            && (e.out.Ok? ==> OthersSame(c.entries, e.cat.entries, {name}))
            && (e.out.Ok? ==> e.cat.nextOID == c.nextOID + if drawsOID then 1 else 0)
            && (e.out.Ok? ==> e.out == Ok([Record(name, before.value.ref)]))
  {
    var e := AlterEntry(c, t, name, body, drawsOID);
    if e.out.Ok? {
      VisibleInChain(c.entries[name], t);
      HeadVisible(e.cat.entries[name], t);
    }
  }

  // ---------------------------------------------------------------- rename

  /** A rename fails when the old name has no live entry, or with the exception of creating the new one; otherwise
      the writer sees the entry under the new name, with kind, OID and contents, and no longer under the old. */
  lemma RenameSeen(c: Catalog, t: Txn, name: string, newName: string)
    requires Running(t)
    ensures var before, e := LiveEntry(c.entries, t, name), RenameEntry(c, t, name, newName);
            && (e.out == Err(DoesNotExist) <==> before.None?)
            && (before.Some? ==>
                  (e.out.Err? <==> newName != name && CreateError(c.entries, t, newName).Some?))
            && (e.out.Ok? ==>
                  && LiveEntry(e.cat.entries, t, newName).Some?
                  && var v := LiveEntry(e.cat.entries, t, newName).value;
                  v.kind == before.value.kind && v.oid == before.value.oid && v.body == before.value.body)
            && (e.out.Ok? && newName != name ==> LiveEntry(e.cat.entries, t, name).None?)
            && (e.out.Ok? ==> OthersSame(c.entries, e.cat.entries, {name, newName}))
  {
    hide Visible, OthersSame, WWConflict;
    var before, e := LiveEntry(c.entries, t, name), RenameEntry(c, t, name, newName);
    if before.Some? {
      var v := before.value;
      var d := DropEntry(c, t, name, v.oid);
      DropSeen(c, t, name, v.oid);
      RenameTarget(c, t, name, v.oid, newName);
      CreateThrows(d.cat, t, newName, v.kind, v.oid, v.body);
      if e.out.Ok? {
        CreateSeen(d.cat, t, newName, v.kind, v.oid, v.body);
        OthersSameThen(c.entries, d.cat.entries, e.cat.entries, {name}, {newName});
        assert {name} + {newName} == {name, newName};
        if newName != name {
          StaysGone(d.cat.entries, e.cat.entries, newName, t, name);
        }
      }
    }
  }

  lemma StaysGone(before: Entries, after: Entries, name: string, t: Txn, m: string)
    requires OthersSame(before, after, {name}) && m != name
    ensures LiveEntry(after, t, m) == LiveEntry(before, t, m)
  {
  }
}
