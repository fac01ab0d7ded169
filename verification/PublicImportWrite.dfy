/** The provenance-guarded, insert-only writer of the public import.

Digests are taken to be collision-free, so a provenance record holds the projections themselves.
*/
module PublicImportWrite {
  import opened Basics

  datatype Table = Topics | Posts | Categories | Closures | RoleMembers | Watches | ReadStates

  const IMPORT_TABLES: seq<Table> := [Topics, Posts, Categories, Closures, RoleMembers, Watches, ReadStates]

  datatype Column = Column(name: string)

  datatype Value = Missing | Value(text: string)

  type Row = map<Column, Value>

  /** One planned row, with the legacy row it comes from. */
  datatype Entry = Entry(table: Table, origin: Origin, row: Row)

  datatype Origin = Origin(kind: Id, sourceId: Id)

  /** A primary key in a table. */
  datatype Place = Place(table: Table, key: seq<Value>)

  datatype Provenance = Provenance(source: Row, target: Row)

  /** Primary keys, column defaults, and every other constraint, as a condition on the tables. */
  datatype Schema = Schema(keys: Table -> seq<Column>, defaults: Table -> Row, admits: map<Place, Row> -> bool)

  /** The digests taken of the challenge rows, as one text. */
  type Fingerprint = map<Place, Row> -> Id

  datatype Db = Db(tables: map<Place, Row>, provenance: map<Origin, Provenance>)

  datatype WriteError = DuplicatePlannedKey | ProvenanceConflict | UnownedExisting | SqlFailure | FingerprintChanged

  datatype Report = Report(planned: nat, inserted: nat, pending: nat, existing: nat)

  function ValueAt(row: Row, column: Column): Value {
    if column in row then row[column] else Missing
  }

  function KeyOf(row: Row, columns: seq<Column>): seq<Value> {
    if columns == [] then [] else [ValueAt(row, columns[0])] + KeyOf(row, columns[1..])
  }

  function PlaceOf(schema: Schema, e: Entry): Place {
    Place(e.table, KeyOf(e.row, schema.keys(e.table)))
  }

  /** The stored row seen through the columns a plan supplies. */
  function Project(row: Row, columns: set<Column>): Row {
    map c | c in columns && c in row :: row[c]
  }

  /** Faithful storage: the planned columns as given, the others by default. */
  function Stored(schema: Schema, e: Entry): Row {
    schema.defaults(e.table) + e.row
  }

  lemma StoredProjects(schema: Schema, e: Entry)
    ensures Project(Stored(schema, e), e.row.Keys) == e.row
  {}

  // ----- keys and stored rows, column by column

  /** A key lists the row's values in the key columns, in their order; a column the row lacks counts as missing. */
  lemma {:induction false} KeyIs(row: Row, columns: seq<Column>)
    ensures |KeyOf(row, columns)| == |columns|
    ensures forall i :: 0 <= i < |columns| ==> KeyOf(row, columns)[i] == if columns[i] in row then row[columns[i]] else Missing
  {
    if columns != [] { KeyIs(row, columns[1..]); }
  }

  /** Two entries are for the same table and agree in every key column of it. */
  ghost predicate SameKey(schema: Schema, e: Entry, g: Entry) {
    && e.table == g.table
    && forall c :: c in schema.keys(e.table) ==>
         (if c in e.row then e.row[c] else Missing) == (if c in g.row then g.row[c] else Missing)
  }

  /** Entries claim one place exactly if their table and all their key columns agree. */
  lemma PlaceMeans(schema: Schema, e: Entry, g: Entry)
    ensures PlaceOf(schema, e) == PlaceOf(schema, g) <==> SameKey(schema, e, g)
  {
    hide KeyOf;
    var columns := schema.keys(e.table);
    KeyIs(e.row, columns);
    KeyIs(g.row, schema.keys(g.table));
    if e.table == g.table && SameKey(schema, e, g) {
      forall i | 0 <= i < |columns| ensures KeyOf(e.row, columns)[i] == KeyOf(g.row, columns)[i] {
        assert columns[i] in columns;
      }
    }
    if PlaceOf(schema, e) == PlaceOf(schema, g) {
      forall c | c in columns ensures (if c in e.row then e.row[c] else Missing) == (if c in g.row then g.row[c] else Missing) {
        var i :| 0 <= i < |columns| && columns[i] == c;
        assert KeyOf(e.row, columns)[i] == KeyOf(g.row, columns)[i];
      }
    }
  }

  /** A stored row has the planned columns as planned, and the remaining default ones. */
  lemma StoredMeans(schema: Schema, e: Entry, c: Column)
    ensures c in Stored(schema, e) <==> c in e.row || c in schema.defaults(e.table)
    ensures c in e.row ==> Stored(schema, e)[c] == e.row[c]
    ensures c !in e.row && c in schema.defaults(e.table) ==> Stored(schema, e)[c] == schema.defaults(e.table)[c]
  {}

  /** Every row stands in the place its key columns name. */
  ghost predicate RowsInPlace(schema: Schema, tables: map<Place, Row>) {
    forall p :: p in tables ==> p.key == KeyOf(tables[p], schema.keys(p.table))
  }

  // ----- what a plan may do to a database

  ghost predicate IsNew(db: Db, e: Entry) {
    e.origin !in db.provenance
  }

  /** An imported entry is still exactly as recorded; a new entry finds its place free. */
  predicate Clean(schema: Schema, db: Db, e: Entry) {
    var place := PlaceOf(schema, e);
    if e.origin in db.provenance then
      && place in db.tables
      && db.provenance[e.origin] == Provenance(e.row, Project(db.tables[place], e.row.Keys))
    else place !in db.tables
  }

  /** No two entries claim one place. */
  ghost predicate DistinctPlaces(schema: Schema, entries: seq<Entry>) {
    forall i, j :: 0 <= i < j < |entries| ==> PlaceOf(schema, entries[i]) != PlaceOf(schema, entries[j])
  }

  ghost predicate AllClean(schema: Schema, db: Db, entries: seq<Entry>) {
    forall e :: e in entries ==> Clean(schema, db, e)
  }

  /** The same, said of key columns. */
  ghost predicate NoKeyTwice(schema: Schema, entries: seq<Entry>) {
    forall i, j :: 0 <= i < j < |entries| ==> !SameKey(schema, entries[i], entries[j])
  }

  lemma DistinctPlacesMeans(schema: Schema, entries: seq<Entry>)
    ensures DistinctPlaces(schema, entries) <==> NoKeyTwice(schema, entries)
  {
    hide PlaceOf, SameKey;
    forall i, j | 0 <= i < j < |entries|
      ensures PlaceOf(schema, entries[i]) == PlaceOf(schema, entries[j]) <==> SameKey(schema, entries[i], entries[j])
    {
      PlaceMeans(schema, entries[i], entries[j]);
    }
  }

  /** What the writer asks of one entry, column by column: if its origin is recorded, the recorded source is the planned row,
  a row stands in its place, and in the planned columns that row is what was recorded; otherwise its place is free. */
  lemma CleanMeans(schema: Schema, db: Db, e: Entry)
    ensures var place := PlaceOf(schema, e);
            Clean(schema, db, e) <==>
              if e.origin in db.provenance then
                && db.provenance[e.origin].source == e.row && place in db.tables
                && forall c ::
                     && (c in db.provenance[e.origin].target <==> c in e.row && c in db.tables[place])
                     && (c in db.provenance[e.origin].target ==> db.provenance[e.origin].target[c] == db.tables[place][c])
              else place !in db.tables
  {
    hide PlaceOf;
    var place := PlaceOf(schema, e);
    if e.origin in db.provenance && place in db.tables {
      var target, seen := db.provenance[e.origin].target, Project(db.tables[place], e.row.Keys);
      assert forall c :: c in seen <==> c in e.row && c in db.tables[place];
      if forall c ::
           (c in target <==> c in e.row && c in db.tables[place]) && (c in target ==> target[c] == db.tables[place][c])
      {
        assert target.Keys == seen.Keys;
        assert target == seen;
      }
    }
  }

  /** The provenance key admits the new entries: no two of them come from one legacy row. */
  ghost predicate NewOriginsDistinct(db: Db, entries: seq<Entry>) {
    forall i, j :: 0 <= i < j < |entries| && IsNew(db, entries[i]) && IsNew(db, entries[j]) ==>
      entries[i].origin != entries[j].origin
  }

  ghost predicate Acceptable(schema: Schema, db: Db, entries: seq<Entry>) {
    DistinctPlaces(schema, entries) && AllClean(schema, db, entries) && NewOriginsDistinct(db, entries)
  }

  /** The new entries, in plan order. */
  ghost function NewOf(db: Db, entries: seq<Entry>): seq<Entry> {
    if entries == [] then []
    else
      var last := entries[|entries| - 1];
      NewOf(db, entries[..|entries| - 1]) + (if IsNew(db, last) then [last] else [])
  }

  function Insert(schema: Schema, db: Db, e: Entry): Db {
    Db(db.tables[PlaceOf(schema, e) := Stored(schema, e)],
       db.provenance[e.origin := Provenance(e.row, e.row)])
  }

  ghost function InsertAll(schema: Schema, db: Db, entries: seq<Entry>): Db {
    if entries == [] then db
    else Insert(schema, InsertAll(schema, db, entries[..|entries| - 1]), entries[|entries| - 1])
  }

  /** The database after an accepted plan: the new entries and their provenance, and nothing else. */
  ghost function Applied(schema: Schema, db: Db, entries: seq<Entry>): Db {
    InsertAll(schema, db, NewOf(db, entries))
  }

  lemma {:induction false} NewOfElements(db: Db, entries: seq<Entry>)
    ensures forall e :: e in NewOf(db, entries) <==> e in entries && IsNew(db, e)
  {
    if entries != [] {
      NewOfElements(db, entries[..|entries| - 1]);
      assert entries == entries[..|entries| - 1] + [entries[|entries| - 1]];
    }
  }

  /** Different entries of a plan stand in different places and, when new, come from different rows. */
  ghost predicate Separate(schema: Schema, entries: seq<Entry>) {
    forall e, g :: e in entries && g in entries && e != g ==> PlaceOf(schema, e) != PlaceOf(schema, g) && e.origin != g.origin
  }

  lemma NewAreSeparate(schema: Schema, db: Db, entries: seq<Entry>)
    requires DistinctPlaces(schema, entries) && NewOriginsDistinct(db, entries)
    ensures Separate(schema, NewOf(db, entries))
  {
    hide PlaceOf;
    NewOfElements(db, entries);
    forall e, g | e in NewOf(db, entries) && g in NewOf(db, entries) && e != g
      ensures PlaceOf(schema, e) != PlaceOf(schema, g) && e.origin != g.origin
    {
      var i :| 0 <= i < |entries| && entries[i] == e;
      var j :| 0 <= j < |entries| && entries[j] == g;
      if i < j { assert PlaceOf(schema, entries[i]) != PlaceOf(schema, entries[j]); }
      else { assert PlaceOf(schema, entries[j]) != PlaceOf(schema, entries[i]); }
    }
  }

  /** Reading the result of a batch of separate inserts back. */
  lemma {:induction false} InsertAllTables(schema: Schema, db: Db, entries: seq<Entry>, place: Place)
    requires Separate(schema, entries)
    ensures var after := InsertAll(schema, db, entries);
            && (forall e :: e in entries && PlaceOf(schema, e) == place ==>
                  place in after.tables && after.tables[place] == Stored(schema, e))
            && ((forall e :: e in entries ==> PlaceOf(schema, e) != place) ==>
                  (place in after.tables <==> place in db.tables)
                  && (place in db.tables ==> after.tables[place] == db.tables[place]))
  {
    hide PlaceOf, Stored;
    if entries != [] {
      var init, last := entries[..|entries| - 1], entries[|entries| - 1];
      assert entries == init + [last];
      InsertAllTables(schema, db, init, place);
    }
  }

  lemma {:induction false} InsertAllProvenance(schema: Schema, db: Db, entries: seq<Entry>, origin: Origin)
    requires Separate(schema, entries)
    ensures var after := InsertAll(schema, db, entries);
            && (forall e :: e in entries && e.origin == origin ==>
                  origin in after.provenance && after.provenance[origin] == Provenance(e.row, e.row))
            && ((forall e :: e in entries ==> e.origin != origin) ==>
                  (origin in after.provenance <==> origin in db.provenance)
                  && (origin in db.provenance ==> after.provenance[origin] == db.provenance[origin]))
  {
    hide PlaceOf, Stored;
    if entries != [] {
      var init, last := entries[..|entries| - 1], entries[|entries| - 1];
      assert entries == init + [last];
      InsertAllProvenance(schema, db, init, origin);
    }
  }

  /** Insert-only: no row and no provenance record that was there before is changed or removed. */
  lemma AppliedKeepsRows(schema: Schema, db: Db, entries: seq<Entry>)
    requires Acceptable(schema, db, entries)
    ensures var after := Applied(schema, db, entries);
            && (forall p :: p in db.tables ==> p in after.tables && after.tables[p] == db.tables[p])
            && (forall o :: o in db.provenance ==> o in after.provenance && after.provenance[o] == db.provenance[o])
  {
    hide PlaceOf, Stored, Separate, Project;
    NewAreSeparate(schema, db, entries);
    NewOfElements(db, entries);
    var after := Applied(schema, db, entries);
    forall p | p in db.tables ensures p in after.tables && after.tables[p] == db.tables[p] {
      InsertAllTables(schema, db, NewOf(db, entries), p);
    }
    forall o | o in db.provenance ensures o in after.provenance && after.provenance[o] == db.provenance[o] {
      InsertAllProvenance(schema, db, NewOf(db, entries), o);
    }
  }

  /** After a plan is applied, each of its entries is recorded and in place. */
  lemma AppliedHolds(schema: Schema, db: Db, entries: seq<Entry>, e: Entry)
    requires Acceptable(schema, db, entries) && e in entries
    ensures !IsNew(Applied(schema, db, entries), e) && Clean(schema, Applied(schema, db, entries), e)
  {
    hide PlaceOf, Stored, Separate, Project;
    NewAreSeparate(schema, db, entries);
    NewOfElements(db, entries);
    StoredProjects(schema, e);
    InsertAllTables(schema, db, NewOf(db, entries), PlaceOf(schema, e));
    InsertAllProvenance(schema, db, NewOf(db, entries), e.origin);
    if !IsNew(db, e) {
      AppliedKeepsRows(schema, db, entries);
    }
  }

  /** What an accepted plan writes for a new entry: its row, with defaults in the columns it leaves out, and a record of the row
  as both source and target. */
  lemma AppliedWrites(schema: Schema, db: Db, entries: seq<Entry>, e: Entry)
    requires Acceptable(schema, db, entries) && e in entries && IsNew(db, e)
    ensures var after, place := Applied(schema, db, entries), PlaceOf(schema, e);
            && place !in db.tables && place in after.tables
            && (forall c :: c in e.row ==> c in after.tables[place] && after.tables[place][c] == e.row[c])
            && (forall c :: c in schema.defaults(e.table) && c !in e.row ==>
                  c in after.tables[place] && after.tables[place][c] == schema.defaults(e.table)[c])
            && (forall c :: c in after.tables[place] ==> c in e.row || c in schema.defaults(e.table))
            && e.origin in after.provenance && after.provenance[e.origin] == Provenance(e.row, e.row)
  {
    hide PlaceOf, Stored, Separate, Project, Insert, InsertAll, NewOf;
    NewAreSeparate(schema, db, entries);
    NewOfElements(db, entries);
    InsertAllTables(schema, db, NewOf(db, entries), PlaceOf(schema, e));
    InsertAllProvenance(schema, db, NewOf(db, entries), e.origin);
    forall c ensures c in Stored(schema, e) <==> c in e.row || c in schema.defaults(e.table)
             ensures c in e.row ==> Stored(schema, e)[c] == e.row[c]
             ensures c !in e.row && c in schema.defaults(e.table) ==> Stored(schema, e)[c] == schema.defaults(e.table)[c]
    {
      StoredMeans(schema, e, c);
    }
  }

  /** Where plans supply their key columns, rows stay in the places their keys name. */
  lemma AppliedKeepsPlaces(schema: Schema, db: Db, entries: seq<Entry>)
    requires Acceptable(schema, db, entries) && RowsInPlace(schema, db.tables)
    requires forall e, c :: e in entries && c in schema.keys(e.table) ==> c in e.row
    ensures RowsInPlace(schema, Applied(schema, db, entries).tables)
  {
    hide Stored, Separate, Project, Insert, InsertAll, NewOf, Clean, KeyOf;
    var after := Applied(schema, db, entries);
    NewAreSeparate(schema, db, entries);
    NewOfElements(db, entries);
    forall p | p in after.tables ensures p.key == KeyOf(after.tables[p], schema.keys(p.table)) {
      InsertAllTables(schema, db, NewOf(db, entries), p);
      if e :| e in NewOf(db, entries) && PlaceOf(schema, e) == p {
        StoredKey(schema, e);
      }
    }
  }

  lemma StoredKey(schema: Schema, e: Entry)
    requires forall c :: c in schema.keys(e.table) ==> c in e.row
    ensures KeyOf(Stored(schema, e), schema.keys(e.table)) == KeyOf(e.row, schema.keys(e.table))
  {
    hide KeyOf;
    KeyIs(Stored(schema, e), schema.keys(e.table));
    KeyIs(e.row, schema.keys(e.table));
  }

  /** Applying a plan again is accepted and inserts nothing. */
  lemma SecondApplicationIsNoop(schema: Schema, db: Db, entries: seq<Entry>)
    requires Acceptable(schema, db, entries)
    ensures var after := Applied(schema, db, entries);
            && Acceptable(schema, after, entries) && NewOf(after, entries) == []
            && Applied(schema, after, entries) == after
  {
    hide PlaceOf, Clean, Applied;
    var after := Applied(schema, db, entries);
    forall e | e in entries ensures !IsNew(after, e) && Clean(schema, after, e) {
      AppliedHolds(schema, db, entries, e);
    }
    NewOfElements(after, entries);
    NoneNew(after, entries);
    AppliedNothing(schema, after, entries);
  }

  lemma NoneNew(db: Db, entries: seq<Entry>)
    requires forall e :: e in entries ==> !IsNew(db, e)
    ensures NewOf(db, entries) == [] && NewOriginsDistinct(db, entries)
  {
    if entries != [] {
      NoneNew(db, entries[..|entries| - 1]);
      assert entries[|entries| - 1] in entries;
    }
  }

  lemma AppliedNothing(schema: Schema, db: Db, entries: seq<Entry>)
    requires NewOf(db, entries) == []
    ensures Applied(schema, db, entries) == db
  {}

  /** Each legacy row is planned once. */
  ghost predicate DistinctOrigins(entries: seq<Entry>) {
    forall i, j :: 0 <= i < j < |entries| ==> entries[i].origin != entries[j].origin
  }

  /** An entry of the larger plan that the smaller one does not hold is judged the same before and after the
  smaller plan was applied. */
  lemma OthersUnaffected(schema: Schema, db: Db, smaller: seq<Entry>, larger: seq<Entry>, e: Entry)
    requires Acceptable(schema, db, smaller) && DistinctPlaces(schema, larger) && DistinctOrigins(larger)
    requires forall s :: s in smaller ==> s in larger
    requires e in larger && e !in smaller
    ensures IsNew(Applied(schema, db, smaller), e) <==> IsNew(db, e)
    ensures Clean(schema, Applied(schema, db, smaller), e) <==> Clean(schema, db, e)
  {
    hide PlaceOf, Stored, Separate, Project, AllClean;
    NewAreSeparate(schema, db, smaller);
    NewOfElements(db, smaller);
    forall s | s in NewOf(db, smaller) ensures s.origin != e.origin && PlaceOf(schema, s) != PlaceOf(schema, e) {
      ApartInPlan(schema, larger, s, e);
    }
    InsertAllTables(schema, db, NewOf(db, smaller), PlaceOf(schema, e));
    InsertAllProvenance(schema, db, NewOf(db, smaller), e.origin);
  }

  lemma ApartInPlan(schema: Schema, entries: seq<Entry>, e: Entry, g: Entry)
    requires DistinctPlaces(schema, entries) && DistinctOrigins(entries) && e in entries && g in entries && e != g
    ensures e.origin != g.origin && PlaceOf(schema, e) != PlaceOf(schema, g)
  {
    hide PlaceOf;
    var i :| 0 <= i < |entries| && entries[i] == e;
    var j :| 0 <= j < |entries| && entries[j] == g;
    if i < j { assert PlaceOf(schema, entries[i]) != PlaceOf(schema, entries[j]); }
    else { assert PlaceOf(schema, entries[j]) != PlaceOf(schema, entries[i]); }
  }

  lemma OriginsStayDistinct(db: Db, entries: seq<Entry>)
    requires DistinctOrigins(entries)
    ensures NewOriginsDistinct(db, entries)
  {}

  /** Convergence of acceptance: a larger plan is accepted after a smaller one exactly when it is accepted
  without it. */
  lemma LargerPlanAccepted(schema: Schema, db: Db, smaller: seq<Entry>, larger: seq<Entry>)
    requires Acceptable(schema, db, smaller) && DistinctOrigins(larger)
    requires forall s :: s in smaller ==> s in larger
    ensures Acceptable(schema, Applied(schema, db, smaller), larger) <==> Acceptable(schema, db, larger)
  {
    hide PlaceOf, Clean, Applied, IsNew, DistinctOrigins, DistinctPlaces, NewOriginsDistinct;
    var after := Applied(schema, db, smaller);
    OriginsStayDistinct(db, larger);
    OriginsStayDistinct(after, larger);
    if DistinctPlaces(schema, larger) {
      forall e | e in larger ensures Clean(schema, after, e) <==> Clean(schema, db, e) {
        if e in smaller {
          AppliedHolds(schema, db, smaller, e);
        } else {
          OthersUnaffected(schema, db, smaller, larger, e);
        }
      }
    }
  }

  /** Convergence of results: a plan followed by a larger one leaves the same tables and the same provenance as
  the larger one alone. */
  lemma LargerPlanConverges(schema: Schema, db: Db, smaller: seq<Entry>, larger: seq<Entry>)
    requires Acceptable(schema, db, smaller) && Acceptable(schema, db, larger) && DistinctOrigins(larger)
    requires forall s :: s in smaller ==> s in larger
    ensures Applied(schema, Applied(schema, db, smaller), larger) == Applied(schema, db, larger)
  {
    hide PlaceOf, Clean, Applied, IsNew, DistinctOrigins, DistinctPlaces, NewOriginsDistinct, AllClean;
    var middle := Applied(schema, db, smaller);
    var twice, once := Applied(schema, middle, larger), Applied(schema, db, larger);
    LargerPlanAccepted(schema, db, smaller, larger);
    forall p ensures p in twice.tables <==> p in once.tables
             ensures p in once.tables && p in twice.tables ==> twice.tables[p] == once.tables[p]
    {
      SamePlace(schema, db, smaller, larger, p);
    }
    forall o ensures o in twice.provenance <==> o in once.provenance
             ensures o in once.provenance && o in twice.provenance ==> twice.provenance[o] == once.provenance[o]
    {
      SameOrigin(schema, db, smaller, larger, o);
    }
    assert twice.tables == once.tables && twice.provenance == once.provenance;
  }

  // ----- the whole transaction

  /** The writer accepts a plan: it passes validation, its rows and provenance go in, and no challenge row changes. */
  ghost predicate Accepted(schema: Schema, fingerprint: Fingerprint, db: Db, entries: seq<Entry>) {
    && Acceptable(schema, db, entries)
    && schema.admits(Applied(schema, db, entries).tables)
    && fingerprint(Applied(schema, db, entries).tables) == fingerprint(db.tables)
  }

  /** A plan once written is accepted again, and writes nothing. */
  lemma WritingTwiceIsWritingOnce(schema: Schema, fingerprint: Fingerprint, db: Db, entries: seq<Entry>)
    requires Accepted(schema, fingerprint, db, entries)
    ensures var after := Applied(schema, db, entries);
            Accepted(schema, fingerprint, after, entries) && NewOf(after, entries) == [] && Applied(schema, after, entries) == after
  {
    hide Acceptable, Applied, NewOf;
    SecondApplicationIsNoop(schema, db, entries);
  }

  /** After a smaller plan was written, the writer accepts a larger one exactly if it would have accepted it alone,
  and both ways end in the same database. */
  lemma WritingInStepsConverges(schema: Schema, fingerprint: Fingerprint, db: Db, smaller: seq<Entry>, larger: seq<Entry>)
    requires Accepted(schema, fingerprint, db, smaller) && DistinctOrigins(larger)
    requires forall s :: s in smaller ==> s in larger
    ensures Accepted(schema, fingerprint, Applied(schema, db, smaller), larger) <==> Accepted(schema, fingerprint, db, larger)
    ensures Accepted(schema, fingerprint, db, larger) ==>
              Applied(schema, Applied(schema, db, smaller), larger) == Applied(schema, db, larger)
  {
    hide Acceptable, Applied, DistinctOrigins;
    LargerPlanAccepted(schema, db, smaller, larger);
    if Acceptable(schema, db, larger) {
      LargerPlanConverges(schema, db, smaller, larger);
    }
  }

  /** What an accepted plan leaves in one place. */
  lemma AppliedAt(schema: Schema, db: Db, entries: seq<Entry>, p: Place)
    requires Acceptable(schema, db, entries)
    ensures var after := Applied(schema, db, entries);
            && (forall e :: e in entries && IsNew(db, e) && PlaceOf(schema, e) == p ==>
                  p in after.tables && after.tables[p] == Stored(schema, e))
            && ((forall e :: e in entries && IsNew(db, e) ==> PlaceOf(schema, e) != p) ==>
                  (p in after.tables <==> p in db.tables) && (p in db.tables ==> after.tables[p] == db.tables[p]))
  {
    hide PlaceOf, Stored, Separate, IsNew, Clean;
    NewAreSeparate(schema, db, entries);
    NewOfElements(db, entries);
    InsertAllTables(schema, db, NewOf(db, entries), p);
  }

  lemma AppliedOrigin(schema: Schema, db: Db, entries: seq<Entry>, o: Origin)
    requires Acceptable(schema, db, entries)
    ensures var after := Applied(schema, db, entries);
            && (forall e :: e in entries && IsNew(db, e) && e.origin == o ==>
                  o in after.provenance && after.provenance[o] == Provenance(e.row, e.row))
            && ((forall e :: e in entries && IsNew(db, e) ==> e.origin != o) ==>
                  (o in after.provenance <==> o in db.provenance)
                  && (o in db.provenance ==> after.provenance[o] == db.provenance[o]))
  {
    hide PlaceOf, Stored, Separate, IsNew, Clean;
    NewAreSeparate(schema, db, entries);
    NewOfElements(db, entries);
    InsertAllProvenance(schema, db, NewOf(db, entries), o);
  }

  lemma SamePlace(schema: Schema, db: Db, smaller: seq<Entry>, larger: seq<Entry>, p: Place)
    requires Acceptable(schema, db, smaller) && Acceptable(schema, db, larger) && DistinctOrigins(larger)
    requires forall s :: s in smaller ==> s in larger
    requires Acceptable(schema, Applied(schema, db, smaller), larger)
    ensures var twice, once := Applied(schema, Applied(schema, db, smaller), larger), Applied(schema, db, larger);
            (p in twice.tables <==> p in once.tables) && (p in once.tables && p in twice.tables ==> twice.tables[p] == once.tables[p])
  {
    hide PlaceOf, Stored, Clean, Applied, IsNew, DistinctOrigins, DistinctPlaces, NewOriginsDistinct, AllClean, Acceptable;
    var middle := Applied(schema, db, smaller);
    AppliedAt(schema, db, smaller, p);
    AppliedAt(schema, db, larger, p);
    AppliedAt(schema, middle, larger, p);
    PlacesApart(schema, db, larger);
    forall e | e in larger ensures IsNew(middle, e) <==> e !in smaller && IsNew(db, e) {
      if e in smaller { AppliedHolds(schema, db, smaller, e); } else { OthersUnaffected(schema, db, smaller, larger, e); }
    }
    if e :| e in larger && IsNew(db, e) && PlaceOf(schema, e) == p {
      if e in smaller {
        forall g | g in larger && IsNew(middle, g) ensures PlaceOf(schema, g) != p {
          ApartInPlan(schema, larger, e, g);
        }
      }
    } else {
      assert forall e :: e in smaller && IsNew(db, e) ==> PlaceOf(schema, e) != p;
      assert forall e :: e in larger && IsNew(middle, e) ==> PlaceOf(schema, e) != p;
    }
  }

  lemma SameOrigin(schema: Schema, db: Db, smaller: seq<Entry>, larger: seq<Entry>, o: Origin)
    requires Acceptable(schema, db, smaller) && Acceptable(schema, db, larger) && DistinctOrigins(larger)
    requires forall s :: s in smaller ==> s in larger
    requires Acceptable(schema, Applied(schema, db, smaller), larger)
    ensures var twice, once := Applied(schema, Applied(schema, db, smaller), larger), Applied(schema, db, larger);
            && (o in twice.provenance <==> o in once.provenance)
            && (o in once.provenance && o in twice.provenance ==> twice.provenance[o] == once.provenance[o])
  {
    hide PlaceOf, Stored, Clean, Applied, IsNew, DistinctOrigins, DistinctPlaces, NewOriginsDistinct, AllClean, Acceptable;
    var middle := Applied(schema, db, smaller);
    AppliedOrigin(schema, db, smaller, o);
    AppliedOrigin(schema, db, larger, o);
    AppliedOrigin(schema, middle, larger, o);
    PlacesApart(schema, db, larger);
    forall e | e in larger ensures IsNew(middle, e) <==> e !in smaller && IsNew(db, e) {
      if e in smaller { AppliedHolds(schema, db, smaller, e); } else { OthersUnaffected(schema, db, smaller, larger, e); }
    }
    if e :| e in larger && IsNew(db, e) && e.origin == o {
      if e in smaller {
        forall g | g in larger && IsNew(middle, g) ensures g.origin != o {
          ApartInPlan(schema, larger, e, g);
        }
      }
    } else {
      assert forall e :: e in smaller && IsNew(db, e) ==> e.origin != o;
      assert forall e :: e in larger && IsNew(middle, e) ==> e.origin != o;
    }
  }

  lemma PlacesApart(schema: Schema, db: Db, entries: seq<Entry>)
    requires Acceptable(schema, db, entries)
    ensures DistinctPlaces(schema, entries)
  {}

  // ----- the writer

  /** The entries of the first `n` tables, and of table `n` up to plan position `i`, have been looked at. */
  ghost predicate Looked(e: Entry, position: nat, n: nat, i: nat) {
    exists k :: 0 <= k < |IMPORT_TABLES| && IMPORT_TABLES[k] == e.table && (k < n || (k == n && position < i))
  }

  /** Everything looked at is clean and in a place of its own. */
  ghost predicate CheckedSoFar(schema: Schema, db: Db, entries: seq<Entry>, n: nat, i: nat) {
    && (forall a :: 0 <= a < |entries| && Looked(entries[a], a, n, i) ==> Clean(schema, db, entries[a]))
    && (forall a, b :: 0 <= a < b < |entries| && Looked(entries[a], a, n, i) && Looked(entries[b], b, n, i) ==>
          PlaceOf(schema, entries[a]) != PlaceOf(schema, entries[b]))
  }

  /** The places taken by the entries of table `n` before plan position `i`. */
  ghost predicate SeenPlaces(schema: Schema, entries: seq<Entry>, n: nat, i: nat, seen: set<Place>)
    requires n < |IMPORT_TABLES|
  {
    forall p :: p in seen <==>
      exists a :: 0 <= a < i && a < |entries| && entries[a].table == IMPORT_TABLES[n] && PlaceOf(schema, entries[a]) == p
  }

  ghost predicate CollectedNew(db: Db, entries: seq<Entry>, n: nat, i: nat, found: seq<Entry>) {
    && Distinct(found)
    && forall e :: e in found <==>
         IsNew(db, e) && exists a :: 0 <= a < |entries| && entries[a] == e && Looked(e, a, n, i)
  }

  lemma LookedStep(e: Entry, position: nat, n: nat, i: nat)
    requires n < |IMPORT_TABLES|
    ensures Looked(e, position, n, i + 1) <==> Looked(e, position, n, i) || (e.table == IMPORT_TABLES[n] && position == i)
  {
    TableIndex(e.table);
  }

  lemma LookedNextTable(e: Entry, position: nat, n: nat, count: nat)
    requires n < |IMPORT_TABLES| && position < count
    ensures Looked(e, position, n + 1, 0) <==> Looked(e, position, n, count)
  {
    TableIndex(e.table);
  }

  lemma LookedAll(e: Entry, position: nat)
    ensures Looked(e, position, |IMPORT_TABLES|, 0)
  {
    TableIndex(e.table);
  }

  /** Every table is one of the import tables, once. */
  lemma TableIndex(t: Table)
    ensures exists k :: 0 <= k < |IMPORT_TABLES| && IMPORT_TABLES[k] == t
    ensures forall j, k :: 0 <= j < |IMPORT_TABLES| && 0 <= k < |IMPORT_TABLES| && IMPORT_TABLES[j] == IMPORT_TABLES[k] ==> j == k
  {
    assert IMPORT_TABLES[0] == Topics && IMPORT_TABLES[1] == Posts && IMPORT_TABLES[2] == Categories
           && IMPORT_TABLES[3] == Closures && IMPORT_TABLES[4] == RoleMembers && IMPORT_TABLES[5] == Watches
           && IMPORT_TABLES[6] == ReadStates;
  }

  /** What a refusal tells: two entries share a key; a recorded entry is not as recorded; a new entry's place is taken. */
  ghost predicate Explains(schema: Schema, db: Db, entries: seq<Entry>, error: WriteError) {
    match error
    case DuplicatePlannedKey => !NoKeyTwice(schema, entries)
    case ProvenanceConflict => exists e :: e in entries && !IsNew(db, e) && !Clean(schema, db, e)
    case UnownedExisting => exists e :: e in entries && IsNew(db, e) && PlaceOf(schema, e) in db.tables
    case _ => false
  }

  /** The validation pass, table by table: either every entry is clean and in its own place, or an error. */
  method Validate(schema: Schema, db: Db, entries: seq<Entry>) returns (found: Result<seq<Entry>, WriteError>)
    ensures found.Ok? <==> NoKeyTwice(schema, entries) && AllClean(schema, db, entries)
    ensures found.Ok? ==> Distinct(found.value) && forall e :: e in found.value <==> e in entries && IsNew(db, e)
    ensures found.Err? ==> Explains(schema, db, entries, found.error)
  {
    hide *;
    DistinctPlacesMeans(schema, entries);
    var news: seq<Entry> := [];
    NothingLooked(schema, db, entries);
    for n := 0 to |IMPORT_TABLES|
      invariant CheckedSoFar(schema, db, entries, n, 0) && CollectedNew(db, entries, n, 0, news)
    {
      var seen: set<Place> := {};
      NothingSeen(schema, entries, n);
      for i := 0 to |entries|
        invariant CheckedSoFar(schema, db, entries, n, i) && CollectedNew(db, entries, n, i, news)
        invariant SeenPlaces(schema, entries, n, i, seen)
      {
        var entry := entries[i];
        if entry.table == IMPORT_TABLES[n] {
          var place := PlaceOf(schema, entry);
          if place in seen {
            SeenTwice(schema, db, entries, n, i, seen);
            return Err(DuplicatePlannedKey);
          }
          var clean := Clean(schema, db, entry);
          if entry.origin in db.provenance {
            if !clean {
              NotAllClean(schema, db, entries, i);
              return Err(ProvenanceConflict);
            }
            CheckOld(schema, db, entries, n, i, seen, news);
          } else {
            if !clean {
              NotAllClean(schema, db, entries, i);
              return Err(UnownedExisting);
            }
            CheckNew(schema, db, entries, n, i, seen, news);
            news := news + [entry];
          }
          seen := seen + {place};
        } else {
          CheckSkip(schema, db, entries, n, i, seen, news);
        }
      }
      NextTable(schema, db, entries, n, news);
    }
    AllLooked(schema, db, entries, news);
    return Ok(news);
  }

  lemma NothingLooked(schema: Schema, db: Db, entries: seq<Entry>)
    ensures CheckedSoFar(schema, db, entries, 0, 0) && CollectedNew(db, entries, 0, 0, [])
  {}

  lemma NothingSeen(schema: Schema, entries: seq<Entry>, n: nat)
    requires n < |IMPORT_TABLES|
    ensures SeenPlaces(schema, entries, n, 0, {})
  {}

  lemma SeenTwice(schema: Schema, db: Db, entries: seq<Entry>, n: nat, i: nat, seen: set<Place>)
    requires n < |IMPORT_TABLES| && i < |entries| && SeenPlaces(schema, entries, n, i, seen)
    requires PlaceOf(schema, entries[i]) in seen
    ensures !DistinctPlaces(schema, entries) && Explains(schema, db, entries, DuplicatePlannedKey)
  {
    hide PlaceOf, NoKeyTwice;
    DistinctPlacesMeans(schema, entries);
  }

  lemma NotAllClean(schema: Schema, db: Db, entries: seq<Entry>, i: nat)
    requires i < |entries| && !Clean(schema, db, entries[i])
    ensures !AllClean(schema, db, entries)
    ensures Explains(schema, db, entries, if entries[i].origin in db.provenance then ProvenanceConflict else UnownedExisting)
  {
    hide PlaceOf, Project;
    assert entries[i] in entries;
  }

  lemma CheckSkip(schema: Schema, db: Db, entries: seq<Entry>, n: nat, i: nat, seen: set<Place>, news: seq<Entry>)
    requires n < |IMPORT_TABLES| && i < |entries| && entries[i].table != IMPORT_TABLES[n]
    requires CheckedSoFar(schema, db, entries, n, i) && CollectedNew(db, entries, n, i, news)
    requires SeenPlaces(schema, entries, n, i, seen)
    ensures CheckedSoFar(schema, db, entries, n, i + 1) && CollectedNew(db, entries, n, i + 1, news)
    ensures SeenPlaces(schema, entries, n, i + 1, seen)
  {
    hide PlaceOf, Clean, IsNew, Looked;
    forall a | 0 <= a < |entries| ensures Looked(entries[a], a, n, i + 1) <==> Looked(entries[a], a, n, i) {
      LookedStep(entries[a], a, n, i);
    }
  }

  lemma CheckOne(schema: Schema, db: Db, entries: seq<Entry>, n: nat, i: nat, seen: set<Place>)
    requires n < |IMPORT_TABLES| && i < |entries| && entries[i].table == IMPORT_TABLES[n]
    requires CheckedSoFar(schema, db, entries, n, i) && SeenPlaces(schema, entries, n, i, seen)
    requires Clean(schema, db, entries[i]) && PlaceOf(schema, entries[i]) !in seen
    ensures CheckedSoFar(schema, db, entries, n, i + 1)
    ensures SeenPlaces(schema, entries, n, i + 1, seen + {PlaceOf(schema, entries[i])})
  {
    hide Clean, IsNew, Looked, KeyOf, SeenPlaces;
    forall a | 0 <= a < |entries|
      ensures Looked(entries[a], a, n, i + 1) <==> Looked(entries[a], a, n, i) || a == i
      ensures Looked(entries[a], a, n, i) && a != i ==> PlaceOf(schema, entries[a]) != PlaceOf(schema, entries[i])
    {
      LookedStep(entries[a], a, n, i);
      if a != i { OtherPlace(schema, entries, n, i, seen, a); }
    }
    SeenOneMore(schema, entries, n, i, seen);
  }

  lemma OtherPlace(schema: Schema, entries: seq<Entry>, n: nat, i: nat, seen: set<Place>, a: nat)
    requires n < |IMPORT_TABLES| && i < |entries| && a < |entries| && a != i && entries[i].table == IMPORT_TABLES[n]
    requires SeenPlaces(schema, entries, n, i, seen) && PlaceOf(schema, entries[i]) !in seen
    ensures Looked(entries[a], a, n, i) ==> PlaceOf(schema, entries[a]) != PlaceOf(schema, entries[i])
  {
    hide KeyOf;
    if Looked(entries[a], a, n, i) && entries[a].table == entries[i].table {
      TableIndex(entries[a].table);
      assert a < i;
      assert PlaceOf(schema, entries[a]) in seen;
    }
  }

  lemma SeenOneMore(schema: Schema, entries: seq<Entry>, n: nat, i: nat, seen: set<Place>)
    requires n < |IMPORT_TABLES| && i < |entries| && entries[i].table == IMPORT_TABLES[n]
    requires SeenPlaces(schema, entries, n, i, seen)
    ensures SeenPlaces(schema, entries, n, i + 1, seen + {PlaceOf(schema, entries[i])})
  {
    hide PlaceOf;
  }

  lemma CheckOld(schema: Schema, db: Db, entries: seq<Entry>, n: nat, i: nat, seen: set<Place>, news: seq<Entry>)
    requires n < |IMPORT_TABLES| && i < |entries| && entries[i].table == IMPORT_TABLES[n]
    requires CheckedSoFar(schema, db, entries, n, i) && SeenPlaces(schema, entries, n, i, seen)
    requires CollectedNew(db, entries, n, i, news) && entries[i].origin in db.provenance
    requires Clean(schema, db, entries[i]) && PlaceOf(schema, entries[i]) !in seen
    ensures CheckedSoFar(schema, db, entries, n, i + 1) && CollectedNew(db, entries, n, i + 1, news)
    ensures SeenPlaces(schema, entries, n, i + 1, seen + {PlaceOf(schema, entries[i])})
  {
    hide Clean, Looked, PlaceOf, SeenPlaces, CheckedSoFar;
    CheckOne(schema, db, entries, n, i, seen);
    forall a | 0 <= a < |entries| ensures Looked(entries[a], a, n, i + 1) <==> Looked(entries[a], a, n, i) || (a == i && entries[i].table == IMPORT_TABLES[n]) {
      LookedStep(entries[a], a, n, i);
    }
  }

  lemma CheckNew(schema: Schema, db: Db, entries: seq<Entry>, n: nat, i: nat, seen: set<Place>, news: seq<Entry>)
    requires n < |IMPORT_TABLES| && i < |entries| && entries[i].table == IMPORT_TABLES[n]
    requires CheckedSoFar(schema, db, entries, n, i) && SeenPlaces(schema, entries, n, i, seen)
    requires CollectedNew(db, entries, n, i, news) && entries[i].origin !in db.provenance
    requires Clean(schema, db, entries[i]) && PlaceOf(schema, entries[i]) !in seen
    ensures CheckedSoFar(schema, db, entries, n, i + 1) && CollectedNew(db, entries, n, i + 1, news + [entries[i]])
    ensures SeenPlaces(schema, entries, n, i + 1, seen + {PlaceOf(schema, entries[i])})
  {
    hide Clean, Looked, PlaceOf, SeenPlaces, CheckedSoFar;
    CheckOne(schema, db, entries, n, i, seen);
    forall a | 0 <= a < |entries| ensures Looked(entries[a], a, n, i + 1) <==> Looked(entries[a], a, n, i) || a == i {
      LookedStep(entries[a], a, n, i);
    }
    NotCollectedYet(schema, db, entries, n, i, seen, news);
    CollectStep(db, entries, n, i, news);
  }

  lemma NotCollectedYet(schema: Schema, db: Db, entries: seq<Entry>, n: nat, i: nat, seen: set<Place>, news: seq<Entry>)
    requires n < |IMPORT_TABLES| && i < |entries| && entries[i].table == IMPORT_TABLES[n]
    requires SeenPlaces(schema, entries, n, i, seen) && PlaceOf(schema, entries[i]) !in seen
    requires CollectedNew(db, entries, n, i, news)
    ensures entries[i] !in news
  {
    hide Looked, PlaceOf, SeenPlaces, IsNew;
    forall a | 0 <= a < |entries| && Looked(entries[a], a, n, i) ensures entries[a] != entries[i] {
      NotLookedYet(entries[i], n, i);
      OtherPlace(schema, entries, n, i, seen, a);
    }
  }

  lemma CollectStep(db: Db, entries: seq<Entry>, n: nat, i: nat, news: seq<Entry>)
    requires i < |entries| && CollectedNew(db, entries, n, i, news) && IsNew(db, entries[i]) && entries[i] !in news
    requires forall a :: 0 <= a < |entries| ==> (Looked(entries[a], a, n, i + 1) <==> Looked(entries[a], a, n, i) || a == i)
    ensures CollectedNew(db, entries, n, i + 1, news + [entries[i]])
  {
    hide Looked, IsNew;
    var found := news + [entries[i]];
    forall e ensures e in found <==> IsNew(db, e) && exists a :: 0 <= a < |entries| && entries[a] == e && Looked(e, a, n, i + 1) {
      if e in news {
        var a :| 0 <= a < |entries| && entries[a] == e && Looked(e, a, n, i);
        assert Looked(entries[a], a, n, i + 1);
      } else if e == entries[i] {
        assert Looked(entries[i], i, n, i + 1);
      } else if a :| 0 <= a < |entries| && entries[a] == e && Looked(e, a, n, i + 1) {
        assert Looked(entries[a], a, n, i + 1);
      }
    }
    assert Distinct(found);
  }

  lemma NotLookedYet(e: Entry, n: nat, i: nat)
    requires n < |IMPORT_TABLES| && e.table == IMPORT_TABLES[n]
    ensures !Looked(e, i, n, i)
  {
    TableIndex(e.table);
  }

  lemma NextTable(schema: Schema, db: Db, entries: seq<Entry>, n: nat, news: seq<Entry>)
    requires n < |IMPORT_TABLES| && CheckedSoFar(schema, db, entries, n, |entries|)
    requires CollectedNew(db, entries, n, |entries|, news)
    ensures CheckedSoFar(schema, db, entries, n + 1, 0) && CollectedNew(db, entries, n + 1, 0, news)
  {
    hide PlaceOf, Clean, IsNew, Looked;
    forall a | 0 <= a < |entries| ensures Looked(entries[a], a, n + 1, 0) <==> Looked(entries[a], a, n, |entries|) {
      LookedNextTable(entries[a], a, n, |entries|);
    }
  }

  lemma AllLooked(schema: Schema, db: Db, entries: seq<Entry>, news: seq<Entry>)
    requires CheckedSoFar(schema, db, entries, |IMPORT_TABLES|, 0) && CollectedNew(db, entries, |IMPORT_TABLES|, 0, news)
    ensures DistinctPlaces(schema, entries) && AllClean(schema, db, entries)
    ensures Distinct(news) && forall e :: e in news <==> e in entries && IsNew(db, e)
  {
    hide PlaceOf, Clean, IsNew, Looked;
    forall a | 0 <= a < |entries| ensures Looked(entries[a], a, |IMPORT_TABLES|, 0) {
      LookedAll(entries[a], a);
    }
  }

  /** The order of separate inserts does not matter. */
  lemma InsertOrderFree(schema: Schema, db: Db, left: seq<Entry>, right: seq<Entry>)
    requires Separate(schema, left) && Separate(schema, right) && forall e :: e in left <==> e in right
    ensures InsertAll(schema, db, left) == InsertAll(schema, db, right)
  {
    hide PlaceOf, Stored, InsertAll, Separate;
    var l, r := InsertAll(schema, db, left), InsertAll(schema, db, right);
    forall p ensures p in l.tables <==> p in r.tables
             ensures p in l.tables && p in r.tables ==> l.tables[p] == r.tables[p]
    {
      InsertAllTables(schema, db, left, p);
      InsertAllTables(schema, db, right, p);
      if e :| e in left && PlaceOf(schema, e) == p { assert e in right; }
    }
    forall o ensures o in l.provenance <==> o in r.provenance
             ensures o in l.provenance && o in r.provenance ==> l.provenance[o] == r.provenance[o]
    {
      InsertAllProvenance(schema, db, left, o);
      InsertAllProvenance(schema, db, right, o);
      if e :| e in left && e.origin == o { assert e in right; }
    }
    assert l.tables == r.tables && l.provenance == r.provenance;
  }

  class ImportTarget {
    var db: Db

    /** Validates a plan and, unless it is a dry run, inserts its new rows and their provenance, all or nothing.
    `fingerprint` digests the challenge rows of the tables. */
    method WritePublicImport(schema: Schema, entries: seq<Entry>, apply: bool, fingerprint: Fingerprint)
        returns (report: Result<Report, WriteError>)
      requires schema.admits(db.tables)
      modifies this
      ensures schema.admits(db.tables)
      ensures apply ==> (report.Ok? <==> Accepted(schema, fingerprint, old(db), entries))
      ensures report.Ok? ==> NoKeyTwice(schema, entries) && AllClean(schema, old(db), entries)
      ensures !apply && NoKeyTwice(schema, entries) && AllClean(schema, old(db), entries) ==> report.Ok?
      ensures report.Err? && NoKeyTwice(schema, entries) && AllClean(schema, old(db), entries) ==>
                apply && FailsInside(schema, fingerprint, old(db), entries, report.error)
      ensures report.Err? && !(NoKeyTwice(schema, entries) && AllClean(schema, old(db), entries)) ==>
                Explains(schema, old(db), entries, report.error)
      ensures db == if report.Ok? && apply then Applied(schema, old(db), entries) else old(db)
      ensures report.Ok? ==>
                && report.value.planned == |entries|
                && report.value.pending == |NewOf(old(db), entries)|
                && report.value.inserted == (if apply then report.value.pending else 0)
                && report.value.existing == report.value.planned - report.value.pending
    {
      hide *;
      var found := Validate(schema, db, entries);
      AcceptedMeans(schema, fingerprint, db, entries);
      FailuresAre(schema, fingerprint, db, entries);
      DistinctPlacesMeans(schema, entries);
      if found.Err? {
        return Err(found.error);
      }
      var news := found.value;
      PendingCount(schema, db, entries, news);
      var staged := db;
      if apply {
        var inserted := InsertRows(schema, db, entries, news);
        if inserted.Err? {
          return Err(inserted.error);
        }
        staged := inserted.value;
      }
      if fingerprint(db.tables) != fingerprint(staged.tables) {
        return Err(FingerprintChanged);
      }
      db := staged;
      return Ok(Report(|entries|, if apply then |news| else 0, |news|, |entries| - |news|));
    }
  }

  /** What a failure after validation tells: a constraint or a provenance key refuses the inserts, or a challenge row changes. */
  ghost predicate FailsInside(schema: Schema, fingerprint: Fingerprint, db: Db, entries: seq<Entry>, error: WriteError) {
    match error
    case SqlFailure => !(NewOriginsDistinct(db, entries) && schema.admits(Applied(schema, db, entries).tables))
    case FingerprintChanged => fingerprint(Applied(schema, db, entries).tables) != fingerprint(db.tables)
    case _ => false
  }

  lemma FailuresAre(schema: Schema, fingerprint: Fingerprint, db: Db, entries: seq<Entry>)
    ensures FailsInside(schema, fingerprint, db, entries, SqlFailure) <==>
              !(NewOriginsDistinct(db, entries) && schema.admits(Applied(schema, db, entries).tables))
    ensures FailsInside(schema, fingerprint, db, entries, FingerprintChanged) <==>
              fingerprint(Applied(schema, db, entries).tables) != fingerprint(db.tables)
  {}

  lemma AcceptedMeans(schema: Schema, fingerprint: Fingerprint, db: Db, entries: seq<Entry>)
    ensures Accepted(schema, fingerprint, db, entries) <==>
              && DistinctPlaces(schema, entries) && AllClean(schema, db, entries) && NewOriginsDistinct(db, entries)
              && schema.admits(Applied(schema, db, entries).tables)
              && fingerprint(Applied(schema, db, entries).tables) == fingerprint(db.tables)
  {
    hide DistinctPlaces, AllClean, NewOriginsDistinct, Applied;
  }

  /** The inserts of one transaction: rows first, which must satisfy the constraints of the tables, then provenance,
  whose primary key must not be hit twice. */
  method InsertRows(schema: Schema, db: Db, entries: seq<Entry>, news: seq<Entry>) returns (after: Result<Db, WriteError>)
    requires DistinctPlaces(schema, entries) && Distinct(news)
    requires forall e :: e in news <==> e in entries && IsNew(db, e)
    ensures after.Ok? <==> NewOriginsDistinct(db, entries) && schema.admits(Applied(schema, db, entries).tables)
    ensures after.Err? ==> after.error == SqlFailure
    ensures after.Ok? ==> after.value == Applied(schema, db, entries)
  {
    hide *;
    var tables, provenance := db.tables, db.provenance;
    NothingInserted(schema, db, news);
    for i := 0 to |news|
      invariant tables == InsertAll(schema, db, news[..i]).tables
    {
      InsertStep(schema, db, news, i);
      tables := tables[PlaceOf(schema, news[i]) := Stored(schema, news[i])];
    }
    assert news[..|news|] == news;
    if !schema.admits(tables) {
      RefusedTables(schema, db, entries, news);
      return Err(SqlFailure);
    }
    for i := 0 to |news|
      invariant provenance == InsertAll(schema, db, news[..i]).provenance
      invariant OriginsUnique(news, i)
      invariant provenance.Keys == db.provenance.Keys + OriginsOf(news, i)
    {
      InsertStep(schema, db, news, i);
      if news[i].origin in provenance {
        OriginTaken(schema, db, entries, news, i);
        return Err(SqlFailure);
      }
      OriginFree(db, news, i);
      provenance := provenance[news[i].origin := Provenance(news[i].row, news[i].row)];
    }
    assert news[..|news|] == news;
    InsertedIsApplied(schema, db, entries, news);
    return Ok(Db(tables, provenance));
  }

  /** If the inserted rows violate a constraint, the plan's outcome does. */
  lemma RefusedTables(schema: Schema, db: Db, entries: seq<Entry>, news: seq<Entry>)
    requires DistinctPlaces(schema, entries) && Distinct(news)
    requires forall e :: e in news <==> e in entries && IsNew(db, e)
    requires !schema.admits(InsertAll(schema, db, news).tables)
    ensures !(NewOriginsDistinct(db, entries) && schema.admits(Applied(schema, db, entries).tables))
  {
    hide PlaceOf, InsertAll, Applied;
    if NewOriginsDistinct(db, entries) {
      NewOriginsUnique(schema, db, entries, news);
      InsertedIsApplied(schema, db, entries, news);
    }
  }

  lemma NewOriginsUnique(schema: Schema, db: Db, entries: seq<Entry>, news: seq<Entry>)
    requires NewOriginsDistinct(db, entries) && Distinct(news)
    requires forall e :: e in news <==> e in entries && IsNew(db, e)
    ensures OriginsUnique(news, |news|)
  {
    forall a, b | 0 <= a < b < |news| ensures news[a].origin != news[b].origin {
      assert news[a] in news && news[b] in news;
      var j :| 0 <= j < |entries| && entries[j] == news[a];
      var k :| 0 <= k < |entries| && entries[k] == news[b];
      assert j != k;
    }
  }

  ghost predicate OriginsUnique(news: seq<Entry>, n: nat) {
    forall a, b :: 0 <= a < b < n && b < |news| ==> news[a].origin != news[b].origin
  }

  ghost function OriginsOf(news: seq<Entry>, n: nat): set<Origin> {
    set a | 0 <= a < n && a < |news| :: news[a].origin
  }

  lemma NothingInserted(schema: Schema, db: Db, news: seq<Entry>)
    ensures InsertAll(schema, db, news[..0]) == db
    ensures OriginsUnique(news, 0) && OriginsOf(news, 0) == {}
  {}

  lemma InsertStep(schema: Schema, db: Db, news: seq<Entry>, i: nat)
    requires i < |news|
    ensures InsertAll(schema, db, news[..i + 1]) == Insert(schema, InsertAll(schema, db, news[..i]), news[i])
    ensures var d := InsertAll(schema, db, news[..i]);
            Insert(schema, d, news[i]) == Db(d.tables[PlaceOf(schema, news[i]) := Stored(schema, news[i])],
                                             d.provenance[news[i].origin := Provenance(news[i].row, news[i].row)])
  {
    assert news[..i + 1][..i] == news[..i];
  }

  lemma OriginFree(db: Db, news: seq<Entry>, i: nat)
    requires i < |news| && OriginsUnique(news, i) && news[i].origin !in db.provenance.Keys + OriginsOf(news, i)
    ensures OriginsUnique(news, i + 1)
    ensures OriginsOf(news, i + 1) == OriginsOf(news, i) + {news[i].origin}
  {
    forall a | 0 <= a < i ensures news[a].origin != news[i].origin {
      assert news[a].origin in OriginsOf(news, i);
    }
  }

  lemma OriginTaken(schema: Schema, db: Db, entries: seq<Entry>, news: seq<Entry>, i: nat)
    requires i < |news| && Distinct(news) && forall e :: e in news <==> e in entries && IsNew(db, e)
    requires news[i].origin in db.provenance.Keys + OriginsOf(news, i)
    ensures !NewOriginsDistinct(db, entries)
  {
    assert news[i] in news;
    var a :| 0 <= a < i && news[a].origin == news[i].origin;
    assert news[a] in news;
    var j :| 0 <= j < |entries| && entries[j] == news[i];
    var k :| 0 <= k < |entries| && entries[k] == news[a];
    assert j != k;
  }

  lemma InsertedIsApplied(schema: Schema, db: Db, entries: seq<Entry>, news: seq<Entry>)
    requires DistinctPlaces(schema, entries) && Distinct(news) && OriginsUnique(news, |news|)
    requires forall e :: e in news <==> e in entries && IsNew(db, e)
    ensures NewOriginsDistinct(db, entries)
    ensures InsertAll(schema, db, news) == Applied(schema, db, entries)
  {
    hide PlaceOf, InsertAll;
    forall i, j | 0 <= i < j < |entries| && IsNew(db, entries[i]) && IsNew(db, entries[j])
      ensures entries[i].origin != entries[j].origin
    {
      assert PlaceOf(schema, entries[i]) != PlaceOf(schema, entries[j]);
      assert entries[i] in news && entries[j] in news;
      var a :| 0 <= a < |news| && news[a] == entries[i];
      var b :| 0 <= b < |news| && news[b] == entries[j];
      if a < b { assert news[a].origin != news[b].origin; } else { assert news[b].origin != news[a].origin; }
    }
    NewAreSeparate(schema, db, entries);
    NewOfElements(db, entries);
    InsertOrderFree(schema, db, news, NewOf(db, entries));
  }

  lemma PendingCount(schema: Schema, db: Db, entries: seq<Entry>, news: seq<Entry>)
    requires DistinctPlaces(schema, entries) && Distinct(news)
    requires forall e :: e in news <==> e in entries && IsNew(db, e)
    ensures |news| == |NewOf(db, entries)| <= |entries|
  {
    hide PlaceOf;
    NewOfElements(db, entries);
    NewOfDistinct(schema, db, entries);
    DistinctCounts(news);
    DistinctCounts(NewOf(db, entries));
    assert Elements(news) == Elements(NewOf(db, entries));
  }

  lemma {:induction false} NewOfDistinct(schema: Schema, db: Db, entries: seq<Entry>)
    requires DistinctPlaces(schema, entries)
    ensures Distinct(NewOf(db, entries)) && |NewOf(db, entries)| <= |entries|
  {
    hide PlaceOf;
    if entries != [] {
      var init, last := entries[..|entries| - 1], entries[|entries| - 1];
      NewOfDistinct(schema, db, init);
      NewOfElements(db, init);
    }
  }
}
