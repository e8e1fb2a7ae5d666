/** The catalog's operations as they change the store, step by step. */
module CatalogServer {
  import opened Bytes
  import opened Wrappers
  import opened Catalog

  class Server {
    const naming: Naming
    var schemas: State

    constructor (n: Naming)
      ensures naming == n && schemas == map[]
    {
      naming := n;
      schemas := map[];
    }

    method CreateSettingsTable(db: bytes) returns (r: Result<(), Error>)
      requires db in schemas
      modifies `schemas
      ensures schemas == old(schemas)[db := WithSettings(old(schemas)[db])]
      ensures r.Success? <==> old(schemas)[db].settings.None?
      ensures r.Failure? ==> r.error == AlreadyExist
    {
      var s := schemas[db];
      if s.settings.Some? {
        return Failure(AlreadyExist);
      }
      schemas := schemas[db := s.(settings := Some(map[]))];
      return Success(());
    }

    method CreateDatabaseIfNotExists(db: bytes) returns (r: Result<(), Error>)
      modifies `schemas
      ensures match OpenDatabase(naming, old(schemas), db)
              case Failure(e) => schemas == old(schemas) && r == Failure(e)
              case Success(st) => schemas == st && r.Success?
    {
      if !naming.validDatabase(db) {
        return Failure(InvalidDatabaseName);
      }
      if SYSTEM_PREFIX <= db {
        return Failure(Internal);
      }
      if db !in schemas {
        schemas := schemas[db := Schema(map[], None)];
      }
      var _ := CreateSettingsTable(db);
      return Success(());
    }

    method CollectionExists(db: bytes, name: bytes) returns (r: Result<bool, Error>)
      ensures r == Exists(schemas, db, name)
      ensures r == Success(true) <==> db in schemas && schemas[db].settings.Some? && name in schemas[db].settings.value
      ensures r.Failure? <==> db in schemas && schemas[db].settings.None?
    {
      if db !in schemas {
        return Success(false);
      }
      var settings := schemas[db].settings;
      if settings.None? {
        return Failure(Internal);
      }
      return Success(name in settings.value);
    }

    method CreateCollection(db: bytes, name: bytes) returns (r: Result<(), Error>)
      modifies `schemas
      ensures if !naming.validCollection(name) then schemas == old(schemas) && r == Failure(InvalidTableName)
              else if db !in old(schemas) then schemas == old(schemas) && r == Failure(SchemaNotExist)
              else match AddCollection(naming, old(schemas)[db], name)
                case Failure(e) => schemas == old(schemas) && r == Failure(e)
                case Success(s) => schemas == old(schemas)[db := s] && r.Success?
    {
      if !naming.validCollection(name) {
        return Failure(InvalidTableName);
      }
      if db !in schemas {
        return Failure(SchemaNotExist);
      }
      var table := naming.table(name);
      if table in schemas[db].tables {
        return Failure(AlreadyExist);
      }
      var settings := schemas[db].settings;
      if settings.None? {
        return Failure(Internal);
      }
      if name in settings.value {
        assert schemas == schemas[db := schemas[db]];
        return Success(());
      }
      schemas := schemas[db := schemas[db].(settings := Some(settings.value[name := table]))];
      schemas := schemas[db := schemas[db].(tables := schemas[db].tables[table := []])];
      return Success(());
    }

    method GetTableName(db: bytes, name: bytes) returns (table: bytes)
      modifies `schemas
      ensures if db !in old(schemas) then schemas == old(schemas) && table == naming.table(name)
              else
                var s := Recorded(naming, old(schemas)[db], name);
                schemas == old(schemas)[db := s] && table == s.settings.value[name]
    {
      if db !in schemas {
        return naming.table(name);
      }
      var _ := CreateSettingsTable(db);
      var collections := schemas[db].settings.value;
      if name in collections {
        return collections[name];
      }
      table := naming.table(name);
      schemas := schemas[db := schemas[db].(settings := Some(collections[name := table]))];
    }

    /** The collection to insert into, created on demand. */
    method OpenCollection(db: bytes, name: bytes) returns (r: Result<(), Error>)
      modifies `schemas
      ensures match Opened(naming, old(schemas), db, name)
              case Failure(e) => r == Failure(e)
              case Success(st) => r.Success? && schemas == st
    {
      var found :- CollectionExists(db, name);
      if !found {
        var _ :- CreateDatabaseIfNotExists(db);
        var created := CreateCollection(db, name);
        if created.Failure? && created.error != AlreadyExist {
          return Failure(created.error);
        }
      }
      return Success(());
    }

    /** The statements of an insert, of which the transaction undoes all or none. */
    method InsertDocument(db: bytes, name: bytes, doc: Doc) returns (r: Result<(), Error>)
      modifies `schemas
      ensures var e := RunInsert(naming, old(schemas), db, name, doc);
              match r
              case Success(_) => schemas == e.state && e.reply == Done
              case Failure(error) => e == Effect(old(schemas), Failed(error))
    {
      var _ :- OpenCollection(db, name);
      var table := GetTableName(db, name);
      if db !in schemas || table !in schemas[db].tables {
        return Failure(Internal);
      }
      var s := schemas[db];
      schemas := schemas[db := s.(tables := s.tables[table := s.tables[table] + [doc]])];
      return Success(());
    }

    /** `InTransaction` around an insert. */
    method Insert(db: bytes, name: bytes, doc: Doc) returns (r: Result<(), Error>)
      modifies `schemas
      ensures var e := RunInsert(naming, old(schemas), db, name, doc);
              schemas == e.state && e.reply == (if r.Success? then Done else Failed(r.error))
    {
      var before := schemas;
      r := InsertDocument(db, name, doc);
      if r.Failure? {
        schemas := before;
      }
    }

    method DropCollection(db: bytes, name: bytes) returns (r: Result<(), Error>)
      modifies `schemas
      ensures var e := RunDrop(naming, old(schemas), db, name);
              schemas == e.state && e.reply == (if r.Success? then Done else Failed(r.error))
    {
      if db !in schemas {
        return Failure(SchemaNotExist);
      }
      var table := naming.table(name);
      if table !in schemas[db].tables {
        return Failure(TableNotExist);
      }
      if schemas[db].settings.None? {
        return Failure(Internal);
      }
      var collections := schemas[db].settings.value;
      if name !in collections {
        return Failure(TableNotExist);
      }
      schemas := schemas[db := schemas[db].(settings := Some(collections - {name}))];
      schemas := schemas[db := schemas[db].(tables := schemas[db].tables - {table})];
      return Success(());
    }
  }
}
