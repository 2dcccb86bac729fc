/**
 * The persistence the gallery writes through: the Photo table (rows by primary
 * key, as `Model.save()` writes them) and the file storage (stored name to bytes).
 */
module Store {
  import opened Forms
  import opened Models

  /** A snapshot of the database table and the media storage. */
  datatype Db = Db(rows: map<nat, Photo>, nextId: nat, files: map<string, seq<byte>>)

  /** Every primary key in use is below the next one to be handed out. */
  predicate Consistent(db: Db) {
    forall id :: id in db.rows ==> id < db.nextId
  }

  /**
   * Every row satisfies the schema. Django checks `blank` and the lengths only in
   * forms, so `save()` can write rows outside it; the core's own writes stay inside.
   */
  predicate RowsWellFormed(db: Db) {
    forall id :: id in db.rows ==> WellFormed(db.rows[id])
  }

  /** An INSERT: the row gets the next primary key, which no row had. */
  function Inserted(db: Db, p: Photo): (r: (nat, Db))
    requires Consistent(db)
    ensures Consistent(r.1)
    ensures r.0 == db.nextId && r.0 !in db.rows
    ensures r.1.rows.Keys == db.rows.Keys + {r.0} && r.1.rows[r.0] == p
    ensures forall other :: other in db.rows ==> r.1.rows[other] == db.rows[other]
    ensures r.1.nextId == r.0 + 1 && r.1.files == db.files
  {
    (db.nextId, Db(db.rows[db.nextId := p], db.nextId + 1, db.files))
  }

  /** An INSERT keeps every other row, whatever the storage holds next to it. */
  lemma InsertedRows(db: Db, p: Photo, files: map<string, seq<byte>>)
    requires Consistent(db)
    ensures var after := Db(db.rows[db.nextId := p], db.nextId + 1, files);
            && Consistent(after) && after.rows.Keys == db.rows.Keys + {db.nextId}
            && forall other :: other in db.rows ==> other in after.rows && after.rows[other] == db.rows[other]
  {
  }

  /** `save()` of an instance that has a primary key: every field of the row is written. */
  function Written(db: Db, id: nat, p: Photo): (r: Db)
    requires Consistent(db) && id in db.rows
    ensures Consistent(r) && r.rows.Keys == db.rows.Keys && r.rows[id] == p
    ensures forall other :: other in db.rows && other != id ==> r.rows[other] == db.rows[other]
    ensures r.nextId == db.nextId && r.files == db.files
  {
    db.(rows := db.rows[id := p])
  }

  /** Storing a file under a name; `FieldFile.save` writes the bytes to storage. */
  function WithFile(db: Db, name: string, content: seq<byte>): (r: Db)
    requires Consistent(db)
    ensures Consistent(r)
  {
    db.(files := db.files[name := content])
  }

  class PhotoStore {
    var rows: map<nat, Photo>
    var nextId: nat
    var files: map<string, seq<byte>>

    function Snapshot(): Db
      reads this
    {
      Db(rows, nextId, files)
    }

    ghost predicate Valid()
      reads this
    {
      Consistent(Snapshot())
    }

    constructor ()
      ensures Valid() && Snapshot() == Db(map[], 0, map[])
    {
      rows := map[];
      nextId := 0;
      files := map[];
    }

    method Insert(p: Photo) returns (id: nat)
      requires Valid()
      modifies this
      ensures Valid()
      ensures (id, Snapshot()) == Inserted(old(Snapshot()), p)
    {
      id := nextId;
      rows := rows[id := p];
      nextId := nextId + 1;
    }

    method Write(id: nat, p: Photo)
      requires Valid() && id in rows
      modifies this
      ensures Valid()
      ensures Snapshot() == Written(old(Snapshot()), id, p)
    {
      rows := rows[id := p];
    }

    method StoreFile(name: string, content: seq<byte>)
      requires Valid()
      modifies this
      ensures Valid()
      ensures Snapshot() == WithFile(old(Snapshot()), name, content)
    {
      files := files[name := content];
    }
  }
}
