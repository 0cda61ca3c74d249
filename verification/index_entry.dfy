/**
  The lifecycle of an index catalog entry and the table metadata it shares.

  Every index catalog entry holds a shared handle (an `IndexDataTableInfo`)
  naming the table's storage metadata and the index. Copies of an entry share
  the handle, and when the last entry holding a handle goes away the handle's
  destructor removes the index name from the table's index list, unless the
  handle names no table.

  The shared pointer is modelled as an explicit use count stored with the
  handle; entries, handles and tables live in maps keyed by identities that
  are never reused.
*/
module IndexEntry {
  import opened Outcomes

  type TableId = nat
  type HandleId = nat
  type EntryId = nat

  /** A table's index list: the registered index names and the names whose drop was committed. */
  datatype IndexList = IndexList(names: set<string>, committedDrops: set<string>)

  /** The storage-side metadata of one table. */
  datatype TableInfo = TableInfo(schemaName: string, tableName: string, indexes: IndexList)

  /** What a shared handle holds: the table's metadata, possibly absent, and the index name. */
  datatype IndexDataTableInfo = IndexDataTableInfo(info: Option<TableId>, indexName: string)

  /** A live handle together with the number of entries sharing it. */
  datatype Handle = Handle(data: IndexDataTableInfo, useCount: nat)

  datatype DuckIndexEntry = DuckIndexEntry(name: string, info: Option<HandleId>, initialIndexSize: nat)

  /**
    The whole state: `destroyed` lists, in order, every handle whose
    destructor ran while naming a table, that is every index-list removal.
  */
  datatype Catalog = Catalog(
    tables: map<TableId, TableInfo>,
    handles: map<HandleId, Handle>,
    entries: map<EntryId, DuckIndexEntry>,
    nextHandle: HandleId,
    nextEntry: EntryId,
    destroyed: seq<HandleId>)

  /** A newly created entry and the state holding it. */
  datatype Created = Created(catalog: Catalog, entry: EntryId)

  // ---------------------------------------------------------------------------
  // The invariant
  // ---------------------------------------------------------------------------

  /** The entries sharing a handle. */
  function Sharers(c: Catalog, h: HandleId): set<EntryId> {
    set e | e in c.entries && c.entries[e].info == Some(h)
  }

  predicate NoDuplicates(s: seq<HandleId>) {
    forall i, j :: 0 <= i < j < |s| ==> s[i] != s[j]
  }

  /**
    Every live handle's use count is the number of entries sharing it and is
    positive; entries point to live handles; handles point to known tables;
    identities are below the next fresh one; a destroyed handle is gone and
    was destroyed once.
  */
  predicate Valid(c: Catalog) {
    CountsMatch(c) && EntriesLinked(c) && DestroyedOnce(c)
  }

  predicate CountsMatch(c: Catalog) {
    forall h :: h in c.handles ==>
      && h < c.nextHandle
      && c.handles[h].useCount > 0
      && c.handles[h].useCount == |Sharers(c, h)|
      && (c.handles[h].data.info.Some? ==> c.handles[h].data.info.value in c.tables)
  }

  predicate EntriesLinked(c: Catalog) {
    forall e :: e in c.entries ==>
      && e < c.nextEntry
      && (c.entries[e].info.Some? ==> c.entries[e].info.value in c.handles)
  }

  predicate DestroyedOnce(c: Catalog) {
    && NoDuplicates(c.destroyed)
    && (forall i :: 0 <= i < |c.destroyed| ==> c.destroyed[i] !in c.handles && c.destroyed[i] < c.nextHandle)
  }

  /** The catalog over some tables before any index entry exists. */
  function Empty(tables: map<TableId, TableInfo>): (c: Catalog)
    ensures Valid(c)
    ensures c.entries == map[] && c.handles == map[]
  {
    Catalog(tables, map[], map[], 0, 0, [])
  }

  /** An entry whose handle names a table: the read-through accessors may be used. */
  predicate Bound(c: Catalog, e: EntryId)
    requires Valid(c) && e in c.entries
  {
    c.entries[e].info.Some? && c.handles[c.entries[e].info.value].data.info.Some?
  }

  function TableOf(c: Catalog, e: EntryId): TableId
    requires Valid(c) && e in c.entries && Bound(c, e)
  {
    c.handles[c.entries[e].info.value].data.info.value
  }

  // ---------------------------------------------------------------------------
  // Operations
  // ---------------------------------------------------------------------------

  /**
    A fresh entry for a table: a new handle naming the table's storage
    metadata and the entry's own name, shared by this entry alone, and an
    initial index size of zero. The table's index list is not touched.
  */
  function CreateEntry(c: Catalog, table: TableId, name: string): (r: Created)
    requires Valid(c) && table in c.tables
    ensures Valid(r.catalog)
    ensures r.entry !in c.entries && r.entry in r.catalog.entries
    ensures r.catalog.entries[r.entry] == DuckIndexEntry(name, Some(c.nextHandle), 0)
    ensures c.nextHandle !in c.handles
    ensures r.catalog.handles[c.nextHandle] == Handle(IndexDataTableInfo(Some(table), name), 1)
    ensures r.catalog.tables == c.tables && r.catalog.destroyed == c.destroyed
  {
    var h := c.nextHandle;
    var e := c.nextEntry;
    var c' := c.(
      handles := c.handles[h := Handle(IndexDataTableInfo(Some(table), name), 1)],
      entries := c.entries[e := DuckIndexEntry(name, Some(h), 0)],
      nextHandle := h + 1,
      nextEntry := e + 1);
    FreshEntryPreservesSharers(c, c', e, h, name, Handle(IndexDataTableInfo(Some(table), name), 1));
    Created(c', e)
  }

  /** Adds an entry sharing the handle it names, if any: that handle gains one sharer. */
  function AddEntry(c: Catalog, entry: DuckIndexEntry): (r: Created)
    requires Valid(c) && (entry.info.Some? ==> entry.info.value in c.handles)
    ensures Valid(r.catalog)
    ensures r.entry !in c.entries && r.catalog.entries == c.entries[r.entry := entry]
    ensures entry.info.Some? ==>
      var h := entry.info.value;
      r.catalog.handles == c.handles[h := c.handles[h].(useCount := c.handles[h].useCount + 1)]
    ensures entry.info.None? ==> r.catalog.handles == c.handles
    ensures r.catalog.tables == c.tables && r.catalog.destroyed == c.destroyed
  {
    var e := c.nextEntry;
    var handles' :=
      match entry.info
      case None => c.handles
      case Some(h) => c.handles[h := c.handles[h].(useCount := c.handles[h].useCount + 1)];
    var c' := c.(handles := handles', entries := c.entries[e := entry], nextEntry := e + 1);
    AddedEntrySharers(c, c', e, entry);
    Created(c', e)
  }

  /**
    An entry built around an existing handle, which may be null: the handle
    gains one sharer and the initial index size is zero.
  */
  function CreateEntryFromHandle(c: Catalog, name: string, handle: Option<HandleId>): (r: Created)
    requires Valid(c) && (handle.Some? ==> handle.value in c.handles)
    ensures Valid(r.catalog)
    ensures r.entry !in c.entries && r.catalog.entries == c.entries[r.entry := DuckIndexEntry(name, handle, 0)]
    ensures handle.Some? ==>
      var h := handle.value;
      r.catalog.handles == c.handles[h := c.handles[h].(useCount := c.handles[h].useCount + 1)]
    ensures handle.None? ==> r.catalog.handles == c.handles
    ensures r.catalog.tables == c.tables && r.catalog.destroyed == c.destroyed
  {
    AddEntry(c, DuckIndexEntry(name, handle, 0))
  }

  /** A copy of an entry: same name, same shared handle, same initial index size. */
  function Copy(c: Catalog, e: EntryId): (r: Created)
    requires Valid(c) && e in c.entries
    ensures Valid(r.catalog)
    ensures r.entry != e && r.entry !in c.entries
    ensures r.catalog.entries == c.entries[r.entry := c.entries[e]]
  {
    AddEntry(c, c.entries[e])
  }

  /** The table list after a handle's destructor ran. */
  function DestroyHandle(tables: map<TableId, TableInfo>, data: IndexDataTableInfo): map<TableId, TableInfo>
  {
    match data.info
    case None => tables
    case Some(t) =>
      if t in tables then
        var info := tables[t];
        tables[t := info.(indexes := info.indexes.(names := info.indexes.names - {data.indexName}))]
      else tables
  }

  /**
    The end of an entry's life. Its handle loses a sharer; when that was the
    last one, the handle is destroyed and, if it names a table, removes its
    index name from that table's index list.
  */
  function Release(c: Catalog, e: EntryId): (c': Catalog)
    requires Valid(c) && e in c.entries
    ensures Valid(c')
    ensures c'.entries == c.entries - {e}
  {
    var entries' := c.entries - {e};
    match c.entries[e].info
    case None =>
      var c' := c.(entries := entries');
      UnboundEntryRemoved(c, c', e);
      c'
    case Some(h) =>
      var handle := c.handles[h];
      if handle.useCount > 1 then
        var c' := c.(handles := c.handles[h := handle.(useCount := handle.useCount - 1)], entries := entries');
        SharerRemoved(c, c', e, h);
        c'
      else
        var destroyed' := if handle.data.info.Some? then c.destroyed + [h] else c.destroyed;
        var c' := c.(tables := DestroyHandle(c.tables, handle.data), handles := c.handles - {h},
                     entries := entries', destroyed := destroyed');
        LastSharerRemoved(c, c', e, h);
        c'
  }

  /** The schema name, read through the handle from the table's metadata. */
  function GetSchemaName(c: Catalog, e: EntryId): string
    requires Valid(c) && e in c.entries && Bound(c, e)
  {
    c.tables[TableOf(c, e)].schemaName
  }

  /** The table name, read through the handle from the table's metadata. */
  function GetTableName(c: Catalog, e: EntryId): string
    requires Valid(c) && e in c.entries && Bound(c, e)
  {
    c.tables[TableOf(c, e)].tableName
  }

  /** Committing the drop of an entry marks the entry's own name dropped in its table's index list. */
  function CommitDrop(c: Catalog, e: EntryId): (c': Catalog)
    requires Valid(c) && e in c.entries && Bound(c, e)
    ensures Valid(c')
    ensures c'.entries == c.entries && c'.handles == c.handles && c'.destroyed == c.destroyed
    ensures c'.tables.Keys == c.tables.Keys
  {
    var t := TableOf(c, e);
    var info := c.tables[t];
    var c' := c.(tables := c.tables[t := info.(indexes := info.indexes.(committedDrops := info.indexes.committedDrops + {c.entries[e].name}))]);
    assert forall h :: Sharers(c', h) == Sharers(c, h);
    c'
  }

  // ---------------------------------------------------------------------------
  // Sharer bookkeeping
  // ---------------------------------------------------------------------------

  lemma FreshEntryPreservesSharers(c: Catalog, c': Catalog, e: EntryId, h: HandleId, name: string, handle: Handle)
    requires Valid(c) && e == c.nextEntry && h == c.nextHandle
    requires c'.entries == c.entries[e := DuckIndexEntry(name, Some(h), 0)]
    requires c'.handles == c.handles[h := handle] && handle.useCount == 1
    requires handle.data.info.Some? ==> handle.data.info.value in c.tables
    requires c'.tables == c.tables && c'.destroyed == c.destroyed
    requires c'.nextHandle == h + 1 && c'.nextEntry == e + 1
    ensures Valid(c')
  {
    assert Sharers(c', h) == {e};
    forall g | g in c.handles
      ensures Sharers(c', g) == Sharers(c, g)
    {
    }
  }

  /** Adding a fresh entry gives exactly the handle it names one more sharer. */
  lemma SharersAfterAdd(c: Catalog, entries': map<EntryId, DuckIndexEntry>, e: EntryId, entry: DuckIndexEntry, g: HandleId)
    requires e !in c.entries && entries' == c.entries[e := entry]
    ensures Sharers(c.(entries := entries'), g) == if entry.info == Some(g) then Sharers(c, g) + {e} else Sharers(c, g)
  {
  }

  lemma AddedEntrySharers(c: Catalog, c': Catalog, e: EntryId, entry: DuckIndexEntry)
    requires Valid(c) && e == c.nextEntry && (entry.info.Some? ==> entry.info.value in c.handles)
    requires c'.entries == c.entries[e := entry]
    requires entry.info.Some? ==>
      var h := entry.info.value;
      c'.handles == c.handles[h := c.handles[h].(useCount := c.handles[h].useCount + 1)]
    requires entry.info.None? ==> c'.handles == c.handles
    requires c'.tables == c.tables && c'.destroyed == c.destroyed
    requires c'.nextHandle == c.nextHandle && c'.nextEntry == e + 1
    ensures Valid(c')
  {
    AddedEntryCounts(c, c', e, entry);
    assert c'.handles.Keys == c.handles.Keys;
  }

  lemma AddedEntryCounts(c: Catalog, c': Catalog, e: EntryId, entry: DuckIndexEntry)
    requires CountsMatch(c) && EntriesLinked(c) && e == c.nextEntry
    requires c'.entries == c.entries[e := entry]
    requires entry.info.Some? ==>
      var h := entry.info.value;
      h in c.handles && c'.handles == c.handles[h := c.handles[h].(useCount := c.handles[h].useCount + 1)]
    requires entry.info.None? ==> c'.handles == c.handles
    requires c'.tables == c.tables && c'.nextHandle == c.nextHandle
    ensures CountsMatch(c')
  {
    forall g | g in c'.handles
      ensures c'.handles[g].useCount == |Sharers(c', g)|
    {
      SharersAfterAdd(c, c'.entries, e, entry, g);
      assert Sharers(c', g) == Sharers(c.(entries := c'.entries), g);
    }
  }

  lemma UnboundEntryRemoved(c: Catalog, c': Catalog, e: EntryId)
    requires Valid(c) && e in c.entries && c.entries[e].info.None?
    requires c' == c.(entries := c.entries - {e})
    ensures Valid(c')
  {
    forall g | g in c.handles
      ensures Sharers(c', g) == Sharers(c, g)
    {
    }
  }

  lemma SharerRemoved(c: Catalog, c': Catalog, e: EntryId, h: HandleId)
    requires Valid(c) && e in c.entries && c.entries[e].info == Some(h) && c.handles[h].useCount > 1
    requires c' == c.(handles := c.handles[h := c.handles[h].(useCount := c.handles[h].useCount - 1)],
                      entries := c.entries - {e})
    ensures Valid(c')
  {
    forall g | g in c'.handles
      ensures c'.handles[g].useCount == |Sharers(c', g)|
    {
      if g == h {
        assert Sharers(c', g) == Sharers(c, g) - {e};
      } else {
        assert Sharers(c', g) == Sharers(c, g);
      }
    }
  }

  lemma LastSharerRemoved(c: Catalog, c': Catalog, e: EntryId, h: HandleId)
    requires Valid(c) && e in c.entries && c.entries[e].info == Some(h) && c.handles[h].useCount <= 1
    requires c' == c.(tables := DestroyHandle(c.tables, c.handles[h].data), handles := c.handles - {h},
                      entries := c.entries - {e},
                      destroyed := if c.handles[h].data.info.Some? then c.destroyed + [h] else c.destroyed)
    ensures Valid(c')
  {
    assert e in Sharers(c, h);
    assert |Sharers(c, h) - {e}| == 0;
    assert Sharers(c, h) == {e};
    forall g | g in c'.handles
      ensures Sharers(c', g) == Sharers(c, g)
    {
    }
    forall x | x in c'.entries && c'.entries[x].info.Some?
      ensures c'.entries[x].info.value in c'.handles
    {
      assert x !in Sharers(c, h);
    }
    assert c'.tables.Keys == c.tables.Keys;
  }
}
