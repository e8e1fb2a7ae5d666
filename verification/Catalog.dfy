/**
 The catalog: FerretDB databases are PostgreSQL schemas, and each schema's settings table
 maps the names of its collections to the tables that hold their documents.  Every command
 is a sequence of reads and writes of schemas, tables and settings.
 */
module Catalog {
  import opened Bytes
  import opened TableNames
  import opened Wrappers

  /** A document as stored: its JSON text. */
  type Doc = bytes

  /** A schema: its user tables, and the "collections" document of its settings table if it has one. */
  datatype Schema = Schema(tables: map<bytes, seq<Doc>>, settings: Option<map<bytes, bytes>>)

  type State = map<bytes, Schema>

  datatype Error = InvalidTableName | InvalidDatabaseName | AlreadyExist | SchemaNotExist | TableNotExist | Internal

  /** The commands that reach the catalog.  `Rewrite` stands for an update or a delete of rows. */
  datatype Command =
    | Create(db: bytes, name: bytes)
    | Ensure(db: bytes, name: bytes)
    | Insert(db: bytes, name: bytes, doc: Doc)
    | Find(db: bytes, name: bytes)
    | Rewrite(db: bytes, name: bytes, docs: seq<Doc>)
    | Drop(db: bytes, name: bytes)
    | DropDatabase(db: bytes)

  datatype Reply = Done | Created(bool) | Docs(docs: seq<Doc>) | Failed(error: Error)

  datatype Effect = Effect(state: State, reply: Reply)

  /** The rules for names: the table of a collection, and which names are accepted. */
  datatype Naming = Naming(table: bytes -> bytes, validCollection: bytes -> bool, validDatabase: bytes -> bool)

  const FERRET_NAMING := Naming(TableName, ValidCollectionName, ValidDatabaseName)

  // ----------------------------------------------------- one schema's tables

  const EMPTY_SCHEMA: Schema := Schema(map[], Some(map[]))

  /** `createSettingsTable` where the table is missing. */
  function WithSettings(s: Schema): Schema
  {
    if s.settings.None? then s.(settings := Some(map[])) else s
  }

  /** `CreateCollection` in an existing schema. */
  function AddCollection(n: Naming, s: Schema, name: bytes): Result<Schema, Error>
  {
    var table := n.table(name);
    if !n.validCollection(name) then Failure(InvalidTableName)
    else if table in s.tables then Failure(AlreadyExist)
    else if s.settings.None? then Failure(Internal)
    else if name in s.settings.value then Success(s)
    else Success(Schema(s.tables[table := []], Some(s.settings.value[name := table])))
  }

  /** `getTableName` in an existing schema: unknown collections are recorded. */
  function Recorded(n: Naming, s: Schema, name: bytes): Schema
  {
    var s' := WithSettings(s);
    var m := s'.settings.value;
    if name in m then s' else s'.(settings := Some(m[name := n.table(name)]))
  }

  /** The statement that follows `getTableName`: it fails when the table is missing. */
  function OnTable(n: Naming, s: Schema, name: bytes, change: seq<Doc> -> seq<Doc>): Result<Schema, Error>
  {
    var s' := Recorded(n, s, name);
    var table := s'.settings.value[name];
    if table in s'.tables then Success(s'.(tables := s'.tables[table := change(s'.tables[table])]))
    else Failure(Internal)
  }

  /** `DropCollection` in an existing schema. */
  function RemoveCollection(n: Naming, s: Schema, name: bytes): Result<Schema, Error>
  {
    var table := n.table(name);
    if table !in s.tables then Failure(TableNotExist)
    else if s.settings.None? then Failure(Internal)
    else if name !in s.settings.value then Failure(TableNotExist)
    else Success(Schema(s.tables - {table}, Some(s.settings.value - {name})))
  }

  // ----------------------------------------------------------------- commands

  /** "pg_": PostgreSQL refuses to create such a schema. */
  const SYSTEM_PREFIX: bytes := [112, 103, 95]

  function DatabaseError(n: Naming, db: bytes): Option<Error>
  {
    if !n.validDatabase(db) then Some(InvalidDatabaseName)
    else if SYSTEM_PREFIX <= db then Some(Internal)
    else None
  }

  /** `CreateDatabaseIfNotExists`. */
  function OpenDatabase(n: Naming, st: State, db: bytes): Result<State, Error>
  {
    var e := DatabaseError(n, db);
    if e.Some? then Failure(e.value)
    else Success(st[db := if db in st then WithSettings(st[db]) else EMPTY_SCHEMA])
  }

  /** `CollectionExists`. */
  function Exists(st: State, db: bytes, name: bytes): Result<bool, Error>
  {
    if db !in st then Success(false)
    else if st[db].settings.None? then Failure(Internal)
    else Success(name in st[db].settings.value)
  }

  /** `MsgCreate`: both steps in one transaction. */
  function RunCreate(n: Naming, st: State, db: bytes, name: bytes): Effect
  {
    match OpenDatabase(n, st, db)
    case Failure(e) => Effect(st, Failed(e))
    case Success(st') =>
      match AddCollection(n, st'[db], name)
      case Failure(e) => Effect(st, Failed(e))
      case Success(s) => Effect(st'[db := s], Done)
  }

  /** `CreateCollectionIfNotExist`: every statement commits by itself. */
  function RunEnsure(n: Naming, st: State, db: bytes, name: bytes): Effect
  {
    match Exists(st, db, name)
    case Failure(e) => Effect(st, Failed(e))
    case Success(true) => Effect(st, Created(false))
    case Success(false) =>
      var e := DatabaseError(n, db);
      if e.Some? then Effect(st, Failed(e.value))
      else
        var st' := if db in st then st else st[db := EMPTY_SCHEMA];
        match AddCollection(n, st'[db], name)
        case Failure(AlreadyExist) => Effect(st', Created(false))
        case Failure(e) => Effect(st', Failed(e))
        case Success(s) => Effect(st'[db := s], Created(true))
  }

  /** The collection to insert into, created on demand. */
  function Opened(n: Naming, st: State, db: bytes, name: bytes): Result<State, Error>
  {
    var found :- Exists(st, db, name);
    if found then Success(st)
    else
      var st' :- OpenDatabase(n, st, db);
      match AddCollection(n, st'[db], name)
      case Failure(AlreadyExist) => Success(st')
      case Failure(e) => Failure(e)
      case Success(s) => Success(st'[db := s])
  }

  /** `InsertDocument` in a transaction. */
  function RunInsert(n: Naming, st: State, db: bytes, name: bytes, doc: Doc): Effect
  {
    match Opened(n, st, db, name)
    case Failure(e) => Effect(st, Failed(e))
    case Success(st') =>
      if db !in st' then Effect(st, Failed(Internal))
      else match OnTable(n, st'[db], name, docs => docs + [doc])
        case Failure(e) => Effect(st, Failed(e))
        case Success(s) => Effect(st'[db := s], Done)
  }

  /** `QueryDocuments`: a missing collection has no documents. */
  function RunFind(st: State, db: bytes, name: bytes): Effect
  {
    match Exists(st, db, name)
    case Failure(e) => Effect(st, Failed(e))
    case Success(false) => Effect(st, Docs([]))
    case Success(true) =>
      var table := st[db].settings.value[name];
      if table in st[db].tables then Effect(st, Docs(st[db].tables[table])) else Effect(st, Failed(Internal))
  }

  /** `SetDocumentByID` and `DeleteDocumentsByID`, in a transaction. */
  function RunRewrite(n: Naming, st: State, db: bytes, name: bytes, docs: seq<Doc>): Effect
  {
    if db !in st then Effect(st, Failed(Internal))
    else match OnTable(n, st[db], name, _ => docs)
      case Failure(e) => Effect(st, Failed(e))
      case Success(s) => Effect(st[db := s], Done)
  }

  /** `DropCollection`. */
  function RunDrop(n: Naming, st: State, db: bytes, name: bytes): Effect
  {
    if db !in st then Effect(st, Failed(SchemaNotExist))
    else match RemoveCollection(n, st[db], name)
      case Failure(e) => Effect(st, Failed(e))
      case Success(s) => Effect(st[db := s], Done)
  }

  /** `DropDatabase`. */
  function RunDropDatabase(st: State, db: bytes): Effect
  {
    if db in st then Effect(st - {db}, Done) else Effect(st, Failed(SchemaNotExist))
  }

  function Step(n: Naming, st: State, cmd: Command): Effect
  {
    match cmd
    case Create(db, name) => RunCreate(n, st, db, name)
    case Ensure(db, name) => RunEnsure(n, st, db, name)
    case Insert(db, name, doc) => RunInsert(n, st, db, name, doc)
    case Find(db, name) => RunFind(st, db, name)
    case Rewrite(db, name, docs) => RunRewrite(n, st, db, name, docs)
    case Drop(db, name) => RunDrop(n, st, db, name)
    case DropDatabase(db) => RunDropDatabase(st, db)
  }

  function Run(n: Naming, st: State, cmds: seq<Command>): (State, seq<Reply>)
    decreases |cmds|
  {
    if cmds == [] then (st, [])
    else
      var e := Step(n, st, cmds[0]);
      var (st', replies) := Run(n, e.state, cmds[1..]);
      (st', [e.reply] + replies)
  }
}

/** What clients expect of the catalog: a database maps collection names to documents. */
module Databases {
  import opened Bytes
  import opened Wrappers
  import opened Catalog

  /** A schema that has no settings table is no database yet. */
  type Database = Option<map<bytes, seq<Doc>>>

  type World = map<bytes, Database>

  datatype Outcome = Outcome(world: World, reply: Reply)

  function Open(w: World, db: bytes): World
  {
    if db in w && w[db].Some? then w else w[db := Some(map[])]
  }

  /** The named collection is there, empty if it was not. */
  function Added(w: World, db: bytes, name: bytes): World
    requires db in w && w[db].Some?
  {
    if name in w[db].value then w else w[db := Some(w[db].value[name := []])]
  }

  predicate Known(w: World, db: bytes, name: bytes)
  {
    db in w && w[db].Some? && name in w[db].value
  }

  function Perform(n: Naming, w: World, cmd: Command): Outcome
  {
    match cmd
    case Create(db, name) =>
      var e := DatabaseError(n, db);
      if e.Some? then Outcome(w, Failed(e.value))
      else if !n.validCollection(name) then Outcome(w, Failed(InvalidTableName))
      else if Known(w, db, name) then Outcome(w, Failed(AlreadyExist))
      else Outcome(Added(Open(w, db), db, name), Done)
    case Ensure(db, name) =>
      var e := DatabaseError(n, db);
      if Known(w, db, name) then Outcome(w, Created(false))
      else if db in w && w[db].None? then Outcome(w, Failed(Internal))
      else if e.Some? then Outcome(w, Failed(e.value))
      else if !n.validCollection(name) then Outcome(Open(w, db), Failed(InvalidTableName))
      else Outcome(Added(Open(w, db), db, name), Created(true))
    case Insert(db, name, doc) =>
      var e := DatabaseError(n, db);
      if Known(w, db, name) then Outcome(w[db := Some(w[db].value[name := w[db].value[name] + [doc]])], Done)
      else if db in w && w[db].None? then Outcome(w, Failed(Internal))
      else if e.Some? then Outcome(w, Failed(e.value))
      else if !n.validCollection(name) then Outcome(w, Failed(InvalidTableName))
      else
        var w' := Open(w, db);
        Outcome(w'[db := Some(w'[db].value[name := [doc]])], Done)
    case Find(db, name) =>
      if Known(w, db, name) then Outcome(w, Docs(w[db].value[name]))
      else if db in w && w[db].None? then Outcome(w, Failed(Internal))
      else Outcome(w, Docs([]))
    case Rewrite(db, name, docs) =>
      if Known(w, db, name) then Outcome(w[db := Some(w[db].value[name := docs])], Done)
      else Outcome(w, Failed(Internal))
    case Drop(db, name) =>
      if Known(w, db, name) then Outcome(w[db := Some(w[db].value - {name})], Done)
      else Outcome(w, Failed(if db in w then TableNotExist else SchemaNotExist))
    case DropDatabase(db) =>
      if db in w then Outcome(w - {db}, Done) else Outcome(w, Failed(SchemaNotExist))
  }

  function PerformAll(n: Naming, w: World, cmds: seq<Command>): (World, seq<Reply>)
    decreases |cmds|
  {
    if cmds == [] then (w, [])
    else
      var o := Perform(n, w, cmds[0]);
      var (w', replies) := PerformAll(n, o.world, cmds[1..]);
      (w', [o.reply] + replies)
  }
}
