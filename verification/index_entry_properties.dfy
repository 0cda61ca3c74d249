/**
  Properties of the index entry lifecycle: what one release does, that copies
  share one handle, that the index name is removed once and only when the
  last sharing entry goes away, and that committed drops and read-through
  names behave as the catalog expects.
*/
module IndexEntryProperties {
  import opened Outcomes
  import opened IndexEntry

  // ---------------------------------------------------------------------------
  // One release
  // ---------------------------------------------------------------------------

  /** Releasing an entry without a handle changes nothing but the entry map. */
  lemma {:induction false} ReleaseWithoutHandle(c: Catalog, e: EntryId)
    requires Valid(c) && e in c.entries && c.entries[e].info.None?
    ensures Release(c, e) == c.(entries := c.entries - {e})
  {
  }

  /** Releasing one of several sharers only lowers the handle's count. */
  lemma {:induction false} ReleaseSharedHandle(c: Catalog, e: EntryId)
    requires Valid(c) && e in c.entries && c.entries[e].info.Some?
    requires c.handles[c.entries[e].info.value].useCount > 1
    ensures var h := c.entries[e].info.value;
      var c' := Release(c, e);
      && c'.tables == c.tables
      && c'.destroyed == c.destroyed
      && h in c'.handles
      && c'.handles[h] == c.handles[h].(useCount := c.handles[h].useCount - 1)
  {
  }

  /**
    Releasing the last sharer destroys the handle: a handle naming a table
    removes exactly its own index name from that table, once; a handle
    naming no table removes nothing.
  */
  lemma {:induction false} ReleaseLastSharer(c: Catalog, e: EntryId)
    requires Valid(c) && e in c.entries && c.entries[e].info.Some?
    requires c.handles[c.entries[e].info.value].useCount == 1
    ensures var h := c.entries[e].info.value;
      var data := c.handles[h].data;
      var c' := Release(c, e);
      && h !in c'.handles
      && (data.info.None? ==> c'.tables == c.tables && c'.destroyed == c.destroyed)
      && (data.info.Some? ==>
            var t := data.info.value;
            && t in c.tables
            && c'.tables == c.tables[t := c.tables[t].(indexes := c.tables[t].indexes.(names := c.tables[t].indexes.names - {data.indexName}))]
            && c'.destroyed == c.destroyed + [h])
  {
  }

  /** The removal log only grows, by at most one handle that was live and had not been destroyed. */
  lemma {:induction false} ReleaseLogsOnce(c: Catalog, e: EntryId)
    requires Valid(c) && e in c.entries
    ensures var c' := Release(c, e);
      || c'.destroyed == c.destroyed
      || (&& c.entries[e].info.Some?
          && c'.destroyed == c.destroyed + [c.entries[e].info.value]
          && c.entries[e].info.value in c.handles
          && c.entries[e].info.value !in c.destroyed)
  {
    if c.entries[e].info.Some? {
      var h := c.entries[e].info.value;
      assert forall i :: 0 <= i < |c.destroyed| ==> c.destroyed[i] != h;
    }
  }

  // ---------------------------------------------------------------------------
  // Copies
  // ---------------------------------------------------------------------------

  /**
    A copy shares the original's handle rather than making one: the handle
    gains a sharer, and name and initial index size are the original's.
  */
  lemma {:induction false} CopySharesHandle(c: Catalog, e: EntryId)
    requires Valid(c) && e in c.entries
    ensures var r := Copy(c, e);
      && r.catalog.entries[r.entry] == c.entries[e]
      && r.catalog.tables == c.tables
      && r.catalog.handles.Keys == c.handles.Keys
      && (c.entries[e].info.Some? ==>
            var h := c.entries[e].info.value;
            r.catalog.handles[h].useCount == c.handles[h].useCount + 1 && r.catalog.handles[h].data == c.handles[h].data)
  {
  }

  /** A copy reads the same schema and table names as its original. */
  lemma {:induction false} CopyReadsSameNames(c: Catalog, e: EntryId)
    requires Valid(c) && e in c.entries && Bound(c, e)
    ensures var r := Copy(c, e);
      && Bound(r.catalog, r.entry) && Bound(r.catalog, e)
      && GetSchemaName(r.catalog, r.entry) == GetSchemaName(c, e)
      && GetTableName(r.catalog, r.entry) == GetTableName(c, e)
  {
    CopySharesHandle(c, e);
  }

  // ---------------------------------------------------------------------------
  // Releasing many entries
  // ---------------------------------------------------------------------------

  predicate DistinctEntries(es: seq<EntryId>) {
    forall i, j :: 0 <= i < j < |es| ==> es[i] != es[j]
  }

  /** Releases the given distinct entries, first to last. */
  function ReleaseAll(c: Catalog, es: seq<EntryId>): (c': Catalog)
    requires Valid(c) && DistinctEntries(es) && forall i :: 0 <= i < |es| ==> es[i] in c.entries
    ensures Valid(c')
    decreases |es|
  {
    if |es| == 0 then c
    else
      var c1 := Release(c, es[0]);
      assert forall i :: 0 <= i < |es[1..]| ==> es[1..][i] == es[i + 1];
      ReleaseAll(c1, es[1..])
  }

  /** A release takes the released entry, and only it, out of every sharer set. */
  lemma {:induction false} SharersAfterRelease(c: Catalog, e: EntryId, h: HandleId)
    requires Valid(c) && e in c.entries
    ensures Sharers(Release(c, e), h) == Sharers(c, h) - {e}
  {
  }

  /**
    Releasing some but not all of the entries sharing a handle leaves the
    table lists and the removal log alone and the handle alive with the
    remaining count.
  */
  lemma {:induction false} ReleaseSomeKeepsIndex(c: Catalog, h: HandleId, es: seq<EntryId>)
    requires Valid(c) && h in c.handles && DistinctEntries(es)
    requires forall i :: 0 <= i < |es| ==> es[i] in Sharers(c, h)
    requires |es| < c.handles[h].useCount
    ensures forall i :: 0 <= i < |es| ==> es[i] in c.entries
    ensures var c' := ReleaseAll(c, es);
      && c'.tables == c.tables
      && c'.destroyed == c.destroyed
      && h in c'.handles
      && c'.handles[h] == c.handles[h].(useCount := c.handles[h].useCount - |es|)
    decreases |es|
  {
    if |es| > 0 {
      var c1 := Release(c, es[0]);
      ReleaseSharedHandle(c, es[0]);
      var rest := es[1..];
      assert forall i :: 0 <= i < |rest| ==> rest[i] == es[i + 1];
      SharersAfterRelease(c, es[0], h);
      forall i | 0 <= i < |rest|
        ensures rest[i] in Sharers(c1, h)
      {
        assert rest[i] != es[0];
      }
      ReleaseSomeKeepsIndex(c1, h, rest);
      assert ReleaseAll(c, es) == ReleaseAll(c1, rest);
    }
  }

  /**
    Releasing every entry sharing a handle that names a table removes the
    handle's index name from that table exactly once, with the last release.
  */
  lemma {:induction false} ReleaseAllRemovesOnce(c: Catalog, h: HandleId, es: seq<EntryId>)
    requires Valid(c) && h in c.handles && DistinctEntries(es) && |es| > 0
    requires forall i :: 0 <= i < |es| ==> es[i] in Sharers(c, h)
    requires |es| == c.handles[h].useCount
    requires c.handles[h].data.info.Some?
    ensures forall i :: 0 <= i < |es| ==> es[i] in c.entries
    ensures var c' := ReleaseAll(c, es);
      var data := c.handles[h].data;
      var t := data.info.value;
      && h !in c'.handles
      && c'.destroyed == c.destroyed + [h]
      && t in c.tables
      && c'.tables == c.tables[t := c.tables[t].(indexes := c.tables[t].indexes.(names := c.tables[t].indexes.names - {data.indexName}))]
  {
    var n := |es| - 1;
    var front := es[..n];
    var last := es[n];
    assert es == front + [last];
    assert forall i :: 0 <= i < n ==> front[i] == es[i];
    ReleaseAllSplit(c, front, last);
    ReleaseLastOfMany(c, h, front, last);
  }

  /** After all sharers but one are released, the last one is the handle's only sharer. */
  lemma {:induction false} ReleaseLastOfMany(c: Catalog, h: HandleId, front: seq<EntryId>, last: EntryId)
    requires Valid(c) && h in c.handles && DistinctEntries(front) && last in Sharers(c, h)
    requires forall i :: 0 <= i < |front| ==> front[i] in Sharers(c, h) && front[i] != last
    requires |front| + 1 == c.handles[h].useCount
    ensures forall i :: 0 <= i < |front| ==> front[i] in c.entries
    ensures var c1 := ReleaseAll(c, front);
      && last in c1.entries && c1.entries[last].info == Some(h)
      && h in c1.handles && c1.handles[h] == c.handles[h].(useCount := 1)
      && c1.tables == c.tables && c1.destroyed == c.destroyed
  {
    ReleaseSomeKeepsIndex(c, h, front);
    ReleaseAllEntries(c, front);
    var gone := set i | 0 <= i < |front| :: front[i];
    assert last !in gone;
  }

  /** Releasing a list and then one more entry is releasing the longer list. */
  lemma {:induction false} ReleaseAllSplit(c: Catalog, es: seq<EntryId>, last: EntryId)
    requires Valid(c) && DistinctEntries(es + [last])
    requires forall i :: 0 <= i < |es + [last]| ==> (es + [last])[i] in c.entries
    ensures forall i :: 0 <= i < |es| ==> es[i] in c.entries
    ensures DistinctEntries(es)
    ensures last in ReleaseAll(c, es).entries
    ensures ReleaseAll(c, es + [last]) == Release(ReleaseAll(c, es), last)
    decreases |es|
  {
    var all := es + [last];
    assert forall i :: 0 <= i < |es| ==> es[i] == all[i];
    assert last == all[|es|];
    ReleaseAllEntries(c, es);
    if |es| > 0 {
      var c1 := Release(c, es[0]);
      assert all[1..] == es[1..] + [last];
      assert forall i :: 0 <= i < |all[1..]| ==> all[1..][i] == all[i + 1];
      ReleaseAllSplit(c1, es[1..], last);
    }
  }

  /** Releasing entries removes exactly those entries. */
  lemma {:induction false} ReleaseAllEntries(c: Catalog, es: seq<EntryId>)
    requires Valid(c) && DistinctEntries(es) && forall i :: 0 <= i < |es| ==> es[i] in c.entries
    ensures ReleaseAll(c, es).entries == c.entries - set i | 0 <= i < |es| :: es[i]
    decreases |es|
  {
    if |es| > 0 {
      var c1 := Release(c, es[0]);
      var rest := es[1..];
      assert forall i :: 0 <= i < |rest| ==> rest[i] == es[i + 1];
      ReleaseAllEntries(c1, rest);
      assert (set i | 0 <= i < |es| :: es[i]) == {es[0]} + set i | 0 <= i < |rest| :: rest[i];
    }
  }

  // ---------------------------------------------------------------------------
  // Dropping and reading through
  // ---------------------------------------------------------------------------

  /** A committed drop marks the entry's own name in its table and changes nothing else. */
  lemma {:induction false} CommitDropMarksOwnName(c: Catalog, e: EntryId)
    requires Valid(c) && e in c.entries && Bound(c, e)
    ensures var t := TableOf(c, e);
      var c' := CommitDrop(c, e);
      && c'.tables[t].indexes.committedDrops == c.tables[t].indexes.committedDrops + {c.entries[e].name}
      && c'.tables[t].indexes.names == c.tables[t].indexes.names
      && c'.tables[t].schemaName == c.tables[t].schemaName
      && c'.tables[t].tableName == c.tables[t].tableName
      && forall u :: u in c.tables && u != t ==> c'.tables[u] == c.tables[u]
  {
  }

  /**
    Dropping an index while a cached copy of its entry survives: the drop is
    committed and the catalog's own entry released, yet the index name stays
    registered (the copy still shares the handle) and the copy still reads
    the same schema and table names.
  */
  lemma {:induction false} DropWithCachedCopy(c: Catalog, e: EntryId)
    requires Valid(c) && e in c.entries && Bound(c, e)
    requires c.entries[e].name in c.tables[TableOf(c, e)].indexes.names
    ensures var r := Copy(c, e);
      var dropped := CommitDrop(r.catalog, e);
      var after := Release(dropped, e);
      var t := TableOf(c, e);
      && r.entry in after.entries && Bound(after, r.entry)
      && c.entries[e].name in after.tables[t].indexes.committedDrops
      && c.entries[e].name in after.tables[t].indexes.names
      && GetSchemaName(after, r.entry) == GetSchemaName(c, e)
      && GetTableName(after, r.entry) == GetTableName(c, e)
  {
    var r := Copy(c, e);
    CopySharesHandle(c, e);
    var h := c.entries[e].info.value;
    var dropped := CommitDrop(r.catalog, e);
    assert r.catalog.handles[h].useCount > 1;
    ReleaseSharedHandle(dropped, e);
  }

  /**
    A fresh entry does not register its name, yet releasing it removes the
    name from the table it was created for.
  */
  lemma {:induction false} CreateThenRelease(c: Catalog, t: TableId, name: string)
    requires Valid(c) && t in c.tables
    ensures var r := CreateEntry(c, t, name);
      && r.catalog.tables == c.tables
      && Release(r.catalog, r.entry).tables[t].indexes.names == c.tables[t].indexes.names - {name}
  {
    var r := CreateEntry(c, t, name);
    ReleaseLastSharer(r.catalog, r.entry);
  }
}
