/**
 As long as no two collection names in use share a table name, the catalog does what clients
 expect, over every run; with two that do, there is a run in which it does not.
 */
module CatalogLaws {
  import opened Bytes
  import opened TableNames
  import opened Wrappers
  import opened Catalog
  import opened Databases
  import Text

  /** Which names of databases are refused, and how. */
  lemma DatabaseErrorExactly(n: Naming, db: bytes)
    ensures DatabaseError(n, db) == Some(InvalidDatabaseName) <==> !n.validDatabase(db)
    ensures DatabaseError(n, db) == Some(Internal) <==> n.validDatabase(db) && Text.Ascii("pg_") <= db
    ensures DatabaseError(n, db) == None <==> n.validDatabase(db) && !(Text.Ascii("pg_") <= db)
  {
    assert SYSTEM_PREFIX == Text.Ascii("pg_");
  }

  ghost predicate Injective(n: Naming, names: set<bytes>)
  {
    forall a, b :: a in names && b in names && n.table(a) == n.table(b) ==> a == b
  }

  /** The collections that are recorded are those whose table exists, and each is in its own table. */
  ghost predicate SchemaInv(n: Naming, s: Schema, names: set<bytes>)
  {
    if s.settings.None? then forall c :: c in names ==> n.table(c) !in s.tables
    else
      var m := s.settings.value;
      && m.Keys <= names
      && (forall c :: c in m ==> m[c] == n.table(c))
      && (forall c :: c in names ==> (c in m <==> n.table(c) in s.tables))
  }

  ghost predicate Inv(n: Naming, st: State, names: set<bytes>)
  {
    forall db :: db in st ==> SchemaInv(n, st[db], names)
  }

  /** The database that a schema represents. */
  ghost function AbsSchema(s: Schema): Database
  {
    if s.settings.None? then None
    else
      var m := s.settings.value;
      Some(map c | c in m && m[c] in s.tables :: s.tables[m[c]])
  }

  ghost function Abs(st: State): World
  {
    map db | db in st :: AbsSchema(st[db])
  }

  lemma AbsUpdate(st: State, db: bytes, s: Schema)
    ensures Abs(st[db := s]) == Abs(st)[db := AbsSchema(s)]
  {
  }

  lemma InvUpdate(n: Naming, st: State, db: bytes, s: Schema, names: set<bytes>)
    requires Inv(n, st, names) && SchemaInv(n, s, names)
    ensures Inv(n, st[db := s], names)
  {
  }

  // -------------------------------------------------------------- one schema

  lemma AddedSchema(n: Naming, s: Schema, name: bytes, names: set<bytes>)
    requires SchemaInv(n, s, names) && s.settings.Some? && name in names && Injective(n, names)
    requires name !in s.settings.value
    ensures var table := n.table(name);
            var s' := Schema(s.tables[table := []], Some(s.settings.value[name := table]));
            SchemaInv(n, s', names) && AbsSchema(s') == Some(AbsSchema(s).value[name := []])
  {
    var table, m := n.table(name), s.settings.value;
    var s' := Schema(s.tables[table := []], Some(m[name := table]));
    assert forall c :: c in m ==> m[c] != table && s'.tables[m[c]] == s.tables[m[c]];
    assert AbsSchema(s').value == AbsSchema(s).value[name := []];
  }

  lemma AddCollectionSim(n: Naming, s: Schema, name: bytes, names: set<bytes>)
    requires SchemaInv(n, s, names) && s.settings.Some? && name in names && Injective(n, names)
    ensures var r := AddCollection(n, s, name);
            var d := AbsSchema(s).value;
            if !n.validCollection(name) then r == Failure(InvalidTableName)
            else if name in d then r == Failure(AlreadyExist)
            else r.Success? && SchemaInv(n, r.value, names) && AbsSchema(r.value) == Some(d[name := []])
  {
    if name !in s.settings.value {
      AddedSchema(n, s, name, names);
    }
  }

  lemma OnTableSim(n: Naming, s: Schema, name: bytes, change: seq<Doc> -> seq<Doc>, names: set<bytes>)
    requires SchemaInv(n, s, names) && name in names && Injective(n, names)
    ensures var r := OnTable(n, s, name, change);
            var d := AbsSchema(s);
            if d.Some? && name in d.value then
              && r.Success?
              && SchemaInv(n, r.value, names)
              && AbsSchema(r.value) == Some(d.value[name := change(d.value[name])])
            else r == Failure(Internal)
  {
    if s.settings.Some? && name in s.settings.value {
      var m := s.settings.value;
      assert Recorded(n, s, name) == s;
      var s' := OnTable(n, s, name, change).value;
      assert forall c :: c in m && c != name ==> m[c] != m[name] && s'.tables[m[c]] == s.tables[m[c]];
      var d := AbsSchema(s).value;
      assert AbsSchema(s').value == d[name := change(d[name])];
    }
  }

  lemma RemoveCollectionSim(n: Naming, s: Schema, name: bytes, names: set<bytes>)
    requires SchemaInv(n, s, names) && name in names && Injective(n, names)
    ensures var r := RemoveCollection(n, s, name);
            var d := AbsSchema(s);
            if d.Some? && name in d.value then
              r.Success? && SchemaInv(n, r.value, names) && AbsSchema(r.value) == Some(d.value - {name})
            else r == Failure(TableNotExist)
  {
    if s.settings.Some? && name in s.settings.value {
      var m := s.settings.value;
      var s' := RemoveCollection(n, s, name).value;
      assert forall c :: c in m && c != name ==> m[c] != m[name] && s'.tables[m[c]] == s.tables[m[c]];
      assert AbsSchema(s').value == AbsSchema(s).value - {name};
    }
  }

  lemma EmptySchemaInv(n: Naming, names: set<bytes>)
    ensures SchemaInv(n, EMPTY_SCHEMA, names) && AbsSchema(EMPTY_SCHEMA) == Some(map[])
  {
  }

  lemma WithSettingsSim(n: Naming, s: Schema, names: set<bytes>)
    requires SchemaInv(n, s, names)
    ensures SchemaInv(n, WithSettings(s), names) && WithSettings(s).settings.Some?
    ensures AbsSchema(WithSettings(s)) == if AbsSchema(s).Some? then AbsSchema(s) else Some(map[])
  {
  }

  // ---------------------------------------------------------------- commands

  ghost predicate Simulates(n: Naming, st: State, cmd: Command, names: set<bytes>)
  {
    var e := Step(n, st, cmd);
    Inv(n, e.state, names) && Outcome(Abs(e.state), e.reply) == Perform(n, Abs(st), cmd)
  }

  lemma OpenDatabaseSim(n: Naming, st: State, db: bytes, names: set<bytes>)
    requires Inv(n, st, names)
    ensures var r := OpenDatabase(n, st, db);
            match DatabaseError(n, db)
            case Some(e) => r == Failure(e)
            case None =>
              && r.Success?
              && Inv(n, r.value, names)
              && db in r.value
              && r.value[db].settings.Some?
              && Abs(r.value) == Open(Abs(st), db)
  {
    EmptySchemaInv(n, names);
    var s := if db in st then WithSettings(st[db]) else EMPTY_SCHEMA;
    if db in st {
      WithSettingsSim(n, st[db], names);
    }
    InvUpdate(n, st, db, s, names);
    AbsUpdate(st, db, s);
  }

  lemma AddStep(n: Naming, st: State, db: bytes, name: bytes, names: set<bytes>)
    requires Inv(n, st, names) && Injective(n, names) && name in names && db in st && st[db].settings.Some?
    ensures var r := AddCollection(n, st[db], name);
            var w := Abs(st);
            if !n.validCollection(name) then r == Failure(InvalidTableName)
            else if Known(w, db, name) then r == Failure(AlreadyExist)
            else r.Success? && Inv(n, st[db := r.value], names) && Abs(st[db := r.value]) == Added(w, db, name)
  {
    AddCollectionSim(n, st[db], name, names);
    var r := AddCollection(n, st[db], name);
    if r.Success? {
      InvUpdate(n, st, db, r.value, names);
      AbsUpdate(st, db, r.value);
    }
  }

  lemma CreateSim(n: Naming, st: State, db: bytes, name: bytes, names: set<bytes>)
    requires Inv(n, st, names) && Injective(n, names) && name in names
    ensures Simulates(n, st, Create(db, name), names)
  {
    OpenDatabaseSim(n, st, db, names);
    var r := OpenDatabase(n, st, db);
    if r.Success? {
      var st' := r.value;
      AddStep(n, st', db, name, names);
    }
  }

  lemma EnsureKnownSim(n: Naming, st: State, db: bytes, name: bytes, names: set<bytes>)
    requires Inv(n, st, names) && Injective(n, names) && name in names && db in st
    ensures Simulates(n, st, Ensure(db, name), names)
  {
    if st[db].settings.Some? && name !in st[db].settings.value {
      AddStep(n, st, db, name, names);
    }
  }

  lemma EnsureNewSim(n: Naming, st: State, db: bytes, name: bytes, names: set<bytes>)
    requires Inv(n, st, names) && Injective(n, names) && name in names && db !in st
    ensures Simulates(n, st, Ensure(db, name), names)
  {
    var st' := st[db := EMPTY_SCHEMA];
    EmptySchemaInv(n, names);
    InvUpdate(n, st, db, EMPTY_SCHEMA, names);
    AbsUpdate(st, db, EMPTY_SCHEMA);
    AddStep(n, st', db, name, names);
  }

  lemma EnsureSim(n: Naming, st: State, db: bytes, name: bytes, names: set<bytes>)
    requires Inv(n, st, names) && Injective(n, names) && name in names
    ensures Simulates(n, st, Ensure(db, name), names)
  {
    if db in st {
      EnsureKnownSim(n, st, db, name, names);
    } else {
      EnsureNewSim(n, st, db, name, names);
    }
  }

  lemma OpenedSim(n: Naming, st: State, db: bytes, name: bytes, names: set<bytes>)
    requires Inv(n, st, names) && Injective(n, names) && name in names
    ensures var r := Opened(n, st, db, name);
            var w := Abs(st);
            if Known(w, db, name) then r == Success(st)
            else if db in w && w[db].None? then r == Failure(Internal)
            else if DatabaseError(n, db).Some? then r == Failure(DatabaseError(n, db).value)
            else if !n.validCollection(name) then r == Failure(InvalidTableName)
            else
              && r.Success?
              && Inv(n, r.value, names)
              && db in r.value
              && Abs(r.value) == Added(Open(w, db), db, name)
  {
    OpenDatabaseSim(n, st, db, names);
    var r := OpenDatabase(n, st, db);
    if r.Success? {
      var st' := r.value;
      AddStep(n, st', db, name, names);
    }
  }

  lemma OnTableStep(n: Naming, st: State, db: bytes, name: bytes, change: seq<Doc> -> seq<Doc>, names: set<bytes>)
    requires Inv(n, st, names) && Injective(n, names) && name in names && db in st
    ensures var r := OnTable(n, st[db], name, change);
            var w := Abs(st);
            if Known(w, db, name) then
              && r.Success?
              && Inv(n, st[db := r.value], names)
              && Abs(st[db := r.value]) == w[db := Some(w[db].value[name := change(w[db].value[name])])]
            else r == Failure(Internal)
  {
    OnTableSim(n, st[db], name, change, names);
    var r := OnTable(n, st[db], name, change);
    if r.Success? {
      InvUpdate(n, st, db, r.value, names);
      AbsUpdate(st, db, r.value);
    }
  }

  lemma AddedThen(w: World, db: bytes, name: bytes, doc: Doc)
    requires db in w && w[db].Some? && name !in w[db].value
    ensures var w' := Added(w, db, name);
            var d, d' := w[db].value, w'[db].value;
            w'[db := Some(d'[name := d'[name] + [doc]])] == w[db := Some(d[name := [doc]])]
  {
    var d := w[db].value;
    assert [] + [doc] == [doc];
    assert d[name := []][name := [doc]] == d[name := [doc]];
    assert w[db := Some(d[name := []])][db := Some(d[name := [doc]])] == w[db := Some(d[name := [doc]])];
  }

  lemma InsertSim(n: Naming, st: State, db: bytes, name: bytes, doc: Doc, names: set<bytes>)
    requires Inv(n, st, names) && Injective(n, names) && name in names
    ensures Simulates(n, st, Insert(db, name, doc), names)
  {
    OpenedSim(n, st, db, name, names);
    var r := Opened(n, st, db, name);
    if r.Success? {
      OnTableStep(n, r.value, db, name, docs => docs + [doc], names);
      if !Known(Abs(st), db, name) {
        AddedThen(Open(Abs(st), db), db, name, doc);
      }
    }
  }

  lemma RewriteSim(n: Naming, st: State, db: bytes, name: bytes, docs: seq<Doc>, names: set<bytes>)
    requires Inv(n, st, names) && Injective(n, names) && name in names
    ensures Simulates(n, st, Rewrite(db, name, docs), names)
  {
    if db in st {
      OnTableStep(n, st, db, name, _ => docs, names);
    }
  }

  lemma DropSim(n: Naming, st: State, db: bytes, name: bytes, names: set<bytes>)
    requires Inv(n, st, names) && Injective(n, names) && name in names
    ensures Simulates(n, st, Drop(db, name), names)
  {
    if db in st {
      RemoveCollectionSim(n, st[db], name, names);
      var r := RemoveCollection(n, st[db], name);
      if r.Success? {
        InvUpdate(n, st, db, r.value, names);
        AbsUpdate(st, db, r.value);
      }
    }
  }

  lemma FindSim(n: Naming, st: State, db: bytes, name: bytes, names: set<bytes>)
    requires Inv(n, st, names) && name in names
    ensures Simulates(n, st, Find(db, name), names)
  {
  }

  /**
   `CollectionExists` is right about the tables: in every state that keeps the invariant it says
   yes exactly for the collections whose table is there, and these are the ones clients know.
   */
  lemma ExistsMeansTable(n: Naming, st: State, db: bytes, name: bytes, names: set<bytes>)
    requires Inv(n, st, names) && name in names
    ensures Exists(st, db, name) == Success(true) <==> db in st && n.table(name) in st[db].tables
    ensures Exists(st, db, name) == Success(true) <==> Known(Abs(st), db, name)
  {
    if db in st && st[db].settings.Some? {
      assert SchemaInv(n, st[db], names);
    }
  }

  lemma DropDatabaseSim(n: Naming, st: State, db: bytes, names: set<bytes>)
    requires Inv(n, st, names)
    ensures Simulates(n, st, DropDatabase(db), names)
  {
    if db in st {
      assert Abs(st - {db}) == Abs(st) - {db};
    }
  }

  ghost predicate Uses(cmd: Command, names: set<bytes>)
  {
    !cmd.DropDatabase? ==> cmd.name in names
  }

  ghost predicate AllUse(cmds: seq<Command>, names: set<bytes>)
  {
    forall i :: 0 <= i < |cmds| ==> Uses(cmds[i], names)
  }

  /** One command keeps the invariant and does what the client expects. */
  lemma StepSim(n: Naming, st: State, cmd: Command, names: set<bytes>)
    requires Inv(n, st, names) && Injective(n, names) && Uses(cmd, names)
    ensures Simulates(n, st, cmd, names)
  {
    match cmd
    case Create(db, name) => CreateSim(n, st, db, name, names);
    case Ensure(db, name) => EnsureSim(n, st, db, name, names);
    case Insert(db, name, doc) => InsertSim(n, st, db, name, doc, names);
    case Find(db, name) => FindSim(n, st, db, name, names);
    case Rewrite(db, name, docs) => RewriteSim(n, st, db, name, docs, names);
    case Drop(db, name) => DropSim(n, st, db, name, names);
    case DropDatabase(db) => DropDatabaseSim(n, st, db, names);
  }

  /** Over every run of commands on such names. */
  lemma {:induction false} RunSim(n: Naming, st: State, cmds: seq<Command>, names: set<bytes>)
    requires Inv(n, st, names) && Injective(n, names) && AllUse(cmds, names)
    ensures Inv(n, Run(n, st, cmds).0, names)
    ensures Run(n, st, cmds).1 == PerformAll(n, Abs(st), cmds).1
    ensures Abs(Run(n, st, cmds).0) == PerformAll(n, Abs(st), cmds).0
    decreases |cmds|
  {
    if cmds == [] {
    } else {
      StepSim(n, st, cmds[0], names);
      RunSim(n, Step(n, st, cmds[0]).state, cmds[1..], names);
    }
  }

  // --------------------------------------------------------- exactly when

  /** From an empty server, every run of commands on these names is answered as clients expect. */
  ghost predicate Faithful(n: Naming, names: set<bytes>)
  {
    forall cmds: seq<Command> :: AllUse(cmds, names) ==> Run(n, map[], cmds).1 == PerformAll(n, map[], cmds).1
  }

  /** Two collections in one table: what is inserted into one is found in the other. */
  lemma CollisionBreaks(n: Naming, db: bytes, a: bytes, b: bytes, doc: Doc)
    requires DatabaseError(n, db).None? && n.validCollection(a) && n.validCollection(b)
    requires a != b && n.table(a) == n.table(b)
    ensures var cmds := [Create(db, a), Insert(db, b, doc), Find(db, a)];
            && Run(n, map[], cmds).1 == [Done, Done, Docs([doc])]
            && PerformAll(n, map[], cmds).1 == [Done, Done, Docs([])]
  {
    CollisionRun(n, db, a, b, doc);
    ExpectedRun(n, db, a, b, doc);
  }

  lemma CollisionInsert(n: Naming, db: bytes, a: bytes, b: bytes, doc: Doc)
    requires DatabaseError(n, db).None? && n.validCollection(b) && a != b && n.table(a) == n.table(b)
    ensures var t := n.table(a);
            var st1: State := map[db := Schema(map[t := []], Some(map[a := t]))];
            var st2: State := map[db := Schema(map[t := [doc]], Some(map[a := t, b := t]))];
            Step(n, st1, Insert(db, b, doc)) == Effect(st2, Done)
  {
    var t := n.table(a);
    var s1 := Schema(map[t := []], Some(map[a := t]));
    var s2 := Schema(map[t := [doc]], Some(map[a := t, b := t]));
    var st1: State := map[db := s1];
    assert st1[db := s1] == st1;
    assert Opened(n, st1, db, b) == Success(st1);
    var change := (docs: seq<Doc>) => docs + [doc];
    assert change([]) == [doc];
    assert map[a := t][b := t] == map[a := t, b := t];
    assert map[t := []][t := [doc]] == map[t := [doc]];
    assert OnTable(n, s1, b, change) == Success(s2);
  }

  lemma CollisionRun(n: Naming, db: bytes, a: bytes, b: bytes, doc: Doc)
    requires DatabaseError(n, db).None? && n.validCollection(a) && n.validCollection(b)
    requires a != b && n.table(a) == n.table(b)
    ensures Run(n, map[], [Create(db, a), Insert(db, b, doc), Find(db, a)]).1 == [Done, Done, Docs([doc])]
  {
    var cmds := [Create(db, a), Insert(db, b, doc), Find(db, a)];
    var t := n.table(a);
    var st1 := map[db := Schema(map[t := []], Some(map[a := t]))];
    var st2 := map[db := Schema(map[t := [doc]], Some(map[a := t, b := t]))];
    assert Step(n, map[], cmds[0]) == Effect(st1, Done);
    CollisionInsert(n, db, a, b, doc);
    assert Step(n, st2, cmds[2]) == Effect(st2, Docs([doc]));
    assert cmds[1..][1..] == [cmds[2]];
    assert Run(n, st2, [cmds[2]]).1 == [Docs([doc])];
    assert Run(n, st1, cmds[1..]).1 == [Done, Docs([doc])];
  }

  lemma ExpectedRun(n: Naming, db: bytes, a: bytes, b: bytes, doc: Doc)
    requires DatabaseError(n, db).None? && n.validCollection(a) && n.validCollection(b) && a != b
    ensures PerformAll(n, map[], [Create(db, a), Insert(db, b, doc), Find(db, a)]).1 == [Done, Done, Docs([])]
  {
    var cmds := [Create(db, a), Insert(db, b, doc), Find(db, a)];
    var w1: World := map[db := Some(map[a := []])];
    var w2: World := map[db := Some(map[a := [], b := [doc]])];
    assert Perform(n, map[], cmds[0]) == Outcome(w1, Done);
    assert Perform(n, w1, cmds[1]) == Outcome(w2, Done);
    assert Perform(n, w2, cmds[2]) == Outcome(w2, Docs([]));
    assert cmds[1..][1..] == [cmds[2]];
    assert PerformAll(n, w2, [cmds[2]]).1 == [Docs([])];
    assert PerformAll(n, w1, cmds[1..]).1 == [Done, Docs([])];
  }

  /** The catalog can be trusted with a set of collection names exactly when no two of them share a table. */
  lemma FaithfulExactly(n: Naming, names: set<bytes>, db: bytes)
    requires DatabaseError(n, db).None? && forall c :: c in names ==> n.validCollection(c)
    ensures Faithful(n, names) <==> Injective(n, names)
  {
    if Injective(n, names) {
      forall cmds: seq<Command> | AllUse(cmds, names)
        ensures Run(n, map[], cmds).1 == PerformAll(n, map[], cmds).1
      {
        assert Abs(map[]) == map[];
        RunSim(n, map[], cmds, names);
      }
    } else {
      var a, b :| a in names && b in names && n.table(a) == n.table(b) && a != b;
      CollisionBreaks(n, db, a, b, []);
      var cmds := [Create(db, a), Insert(db, b, []), Find(db, a)];
      assert AllUse(cmds, names);
      assert Run(n, map[], cmds).1[2] != PerformAll(n, map[], cmds).1[2];
    }
  }

  // -------------------------------------------------------- FerretDB's names

  /** "db" */
  const SOME_DATABASE: bytes := [100, 98]

  /** With names of at most 54 bytes the catalog is always faithful. */
  lemma ShortNamesAreFaithful(names: set<bytes>)
    requires forall c :: c in names ==> ValidCollectionName(c) && |c| <= NAME_SYMBOLS_LEFT
    ensures Faithful(FERRET_NAMING, names)
  {
    forall a, b | a in names && b in names && TableName(a) == TableName(b)
      ensures a == b
    {
      ShortNamesAreDistinct(a, b);
    }
    FaithfulExactly(FERRET_NAMING, names, SOME_DATABASE);
  }

  /** Not with all the names it accepts: longer ones can collide. */
  lemma NotAlwaysFaithful() returns (a: bytes, b: bytes)
    ensures ValidCollectionName(a) && ValidCollectionName(b) && !Faithful(FERRET_NAMING, {a, b})
  {
    a, b := LongNamesCollide();
    FaithfulExactly(FERRET_NAMING, {a, b}, SOME_DATABASE);
  }

  // --------------------------------------------------- from an empty server

  /** Every schema is a database, and every table is the table of some name in use. */
  ghost predicate Owned(n: Naming, st: State, names: set<bytes>)
  {
    forall db :: db in st ==> OwnedSchema(n, st[db], names)
  }

  ghost predicate OwnedSchema(n: Naming, s: Schema, names: set<bytes>)
  {
    s.settings.Some? && forall t :: t in s.tables ==> exists c :: c in names && n.table(c) == t
  }

  lemma SchemaStepsOwned(n: Naming, s: Schema, name: bytes, change: seq<Doc> -> seq<Doc>, names: set<bytes>)
    requires OwnedSchema(n, s, names) && name in names
    ensures AddCollection(n, s, name).Success? ==> OwnedSchema(n, AddCollection(n, s, name).value, names)
    ensures OnTable(n, s, name, change).Success? ==> OwnedSchema(n, OnTable(n, s, name, change).value, names)
    ensures RemoveCollection(n, s, name).Success? ==> OwnedSchema(n, RemoveCollection(n, s, name).value, names)
  {
  }

  lemma OpenedOwned(n: Naming, st: State, db: bytes, name: bytes, names: set<bytes>)
    requires Owned(n, st, names) && name in names
    ensures OpenDatabase(n, st, db).Success? ==> Owned(n, OpenDatabase(n, st, db).value, names)
    ensures Opened(n, st, db, name).Success? ==> Owned(n, Opened(n, st, db, name).value, names)
  {
    var r := OpenDatabase(n, st, db);
    if r.Success? {
      SchemaStepsOwned(n, r.value[db], name, x => x, names);
    }
  }

  lemma StepOwned(n: Naming, st: State, cmd: Command, names: set<bytes>)
    requires Owned(n, st, names) && Uses(cmd, names)
    ensures Owned(n, Step(n, st, cmd).state, names)
  {
    match cmd
    case Create(db, name) =>
      OpenedOwned(n, st, db, name, names);
      var r := OpenDatabase(n, st, db);
      if r.Success? {
        SchemaStepsOwned(n, r.value[db], name, x => x, names);
      }
    case Ensure(db, name) =>
      var st' := if db in st then st else st[db := EMPTY_SCHEMA];
      SchemaStepsOwned(n, st'[db], name, x => x, names);
    case Insert(db, name, doc) =>
      OpenedOwned(n, st, db, name, names);
      var r := Opened(n, st, db, name);
      if r.Success? && db in r.value {
        SchemaStepsOwned(n, r.value[db], name, docs => docs + [doc], names);
      }
    case Find(_, _) =>
    case Rewrite(db, name, docs) =>
      if db in st {
        SchemaStepsOwned(n, st[db], name, _ => docs, names);
      }
    case Drop(db, name) =>
      if db in st {
        SchemaStepsOwned(n, st[db], name, x => x, names);
      }
    case DropDatabase(_) =>
  }

  lemma {:induction false} RunOwned(n: Naming, st: State, cmds: seq<Command>, names: set<bytes>)
    requires Inv(n, st, names) && Owned(n, st, names) && Injective(n, names) && AllUse(cmds, names)
    ensures Inv(n, Run(n, st, cmds).0, names) && Owned(n, Run(n, st, cmds).0, names)
    decreases |cmds|
  {
    if cmds == [] {
    } else {
      StepSim(n, st, cmds[0], names);
      StepOwned(n, st, cmds[0], names);
      RunOwned(n, Step(n, st, cmds[0]).state, cmds[1..], names);
    }
  }

  /**
   In every state reached from an empty server, each schema's settings map its live collections
   to their table names, and its tables are exactly those.
   */
  lemma ReachableCatalog(n: Naming, cmds: seq<Command>, names: set<bytes>, db: bytes)
    requires Injective(n, names) && AllUse(cmds, names) && db in Run(n, map[], cmds).0
    ensures var s := Run(n, map[], cmds).0[db];
            && s.settings.Some?
            && (forall c :: c in s.settings.value ==> s.settings.value[c] == n.table(c))
            && s.tables.Keys == s.settings.value.Values
  {
    RunOwned(n, map[], cmds, names);
    var s := Run(n, map[], cmds).0[db];
    var m := s.settings.value;
    assert SchemaInv(n, s, names) && OwnedSchema(n, s, names);
    forall t | t in s.tables
      ensures t in m.Values
    {
      var c :| c in names && n.table(c) == t;
      assert m[c] == t;
    }
  }
}
