/** The database a trace runs against: what each emitted line does to its schema. */
module Database {
  import opened Bytes

  /** Names are structured instead of spelled: `c<i>` and `c<i>x<n>` are the only column names besides the key. */
  datatype ColumnName = Id | Declared(i: nat) | Added(position: nat, serial: nat)

  datatype Type = I32 | I64 | Text | Bytea | I32Range

  datatype Column = Column(name: ColumnName, kind: Type, key: bool)

  datatype Index = Index(column: ColumnName, unique: bool, gist: bool)

  /** A real table: its columns, its indexes by name, and the ids of its rows. */
  datatype Relation = Relation(cols: seq<Column>, indexes: map<nat, Index>, ids: set<int>)

  type Catalog = map<nat, Relation>

  datatype Statement =
    | CreateTable(table: nat, cols: seq<Column>, ifMissing: bool)
    | DropTable(table: nat)
    | AddColumn(table: nat, col: Column, ifMissing: bool)
    | CreateIndex(index: nat, table: nat, def: Index, ifMissing: bool)
    | DropIndex(index: nat)
    | Insert(table: nat, cols: seq<Column>, lo: int, hi: int)
    | Upsert(table: nat, cols: seq<Column>, lo: int, hi: int)
    | Delete(table: nat, gone: set<int>)
    | Invalid

  predicate HasColumn(cols: seq<Column>, name: ColumnName) {
    exists i :: 0 <= i < |cols| && cols[i].name == name
  }

  predicate HasColumns(cols: seq<Column>, wanted: seq<Column>) {
    forall i :: 0 <= i < |wanted| ==> wanted[i] in cols
  }

  predicate HasIndex(db: Catalog, index: nat) {
    exists t <- db :: index in db[t].indexes
  }

  predicate Within(i: int, lo: int, hi: int) {
    lo <= i <= hi
  }

  function Range(lo: int, hi: int): set<int> {
    set i | lo <= i <= hi && Within(i, lo, hi)
  }

  function WithoutIndex(r: Relation, index: nat): Relation {
    r.(indexes := map n | n in r.indexes && n != index :: r.indexes[n])
  }

  /** One statement in a write transaction; a failing statement has no effect. */
  function Exec(db: Catalog, s: Statement): Result<Catalog> {
    match s
    case CreateTable(t, cols, ifMissing) =>
      if t in db then (if ifMissing then Ok(db) else Err(Other)) else Ok(db[t := Relation(cols, map[], {})])
    case DropTable(t) =>
      Ok(db - {t})
    case AddColumn(t, col, ifMissing) =>
      if t !in db then Err(Other)
      else if HasColumn(db[t].cols, col.name) then (if ifMissing then Ok(db) else Err(Other))
      else Ok(db[t := db[t].(cols := db[t].cols + [col])])
    case CreateIndex(n, t, def, ifMissing) =>
      if HasIndex(db, n) then (if ifMissing then Ok(db) else Err(Other))
      else if t !in db || !HasColumn(db[t].cols, def.column) then Err(Other)
      else Ok(db[t := db[t].(indexes := db[t].indexes[n := def])])
    case DropIndex(n) =>
      if HasIndex(db, n) then Ok(map t | t in db :: WithoutIndex(db[t], n)) else Err(Other)
    case Insert(t, cols, lo, hi) =>
      if t !in db || !HasColumns(db[t].cols, cols) || !(db[t].ids !! Range(lo, hi)) then Err(Other)
      else Ok(db[t := db[t].(ids := db[t].ids + Range(lo, hi))])
    case Upsert(t, cols, lo, hi) =>
      if t !in db || !HasColumns(db[t].cols, cols) then Err(Other)
      else Ok(db[t := db[t].(ids := db[t].ids + Range(lo, hi))])
    case Delete(t, gone) =>
      if t !in db then Err(Other) else Ok(db[t := db[t].(ids := db[t].ids - gone)])
    case Invalid =>
      Err(Other)
  }

  /** When a statement fails: what it names is missing, or what it makes is already there. */
  lemma ExecFails(db: Catalog, s: Statement)
    ensures Exec(db, s).Err? <==>
      match s
      case CreateTable(t, _, ifMissing) => t in db && !ifMissing
      case DropTable(_) => false
      case AddColumn(t, col, ifMissing) => t !in db || (!ifMissing && exists c <- db[t].cols :: c.name == col.name)
      case CreateIndex(n, t, def, ifMissing) =>
        if exists u <- db :: n in db[u].indexes then !ifMissing
        else t !in db || !exists c <- db[t].cols :: c.name == def.column
      case DropIndex(n) => !exists u <- db :: n in db[u].indexes
      case Insert(t, cols, lo, hi) =>
        t !in db || (exists c <- cols :: c !in db[t].cols) || exists i <- db[t].ids :: lo <= i <= hi
      case Upsert(t, cols, _, _) => t !in db || exists c <- cols :: c !in db[t].cols
      case Delete(t, _) => t !in db
      case Invalid => true
  {
    match s
    case AddColumn(t, col, _) =>
      if t in db {
        NamedColumn(db[t].cols, col.name);
      }
    case CreateIndex(_, t, def, _) =>
      if t in db {
        NamedColumn(db[t].cols, def.column);
      }
    case Insert(t, cols, lo, hi) =>
      if t in db && exists i <- db[t].ids :: lo <= i <= hi {
        var i :| i in db[t].ids && lo <= i <= hi;
        assert Within(i, lo, hi) && i in Range(lo, hi);
      }
    case _ =>
  }

  lemma NamedColumn(cols: seq<Column>, name: ColumnName)
    ensures HasColumn(cols, name) <==> exists c <- cols :: c.name == name
  {
    if c :| c in cols && c.name == name {
      var i :| 0 <= i < |cols| && cols[i] == c;
    }
  }

  /** A statement on a table leaves every other table alone. */
  lemma ExecLocal(db: Catalog, s: Statement, u: nat)
    requires Exec(db, s).Ok?
    requires !s.DropIndex? && !s.Invalid? && u != s.table
    ensures u in Exec(db, s).value <==> u in db
    ensures u in db ==> Exec(db, s).value[u] == db[u]
  {
  }

  /** A line of the trace. A commit may carry a fault; then nobody knows whether it landed. */
  datatype Line = OpenWrite | On(s: Statement) | Commit(faulted: bool) | Rollback | Reopen | Crash

  /** The committed schema, the open write transaction's, and whether that transaction has failed. */
  datatype Instance = Instance(stable: Catalog, open: Option<Catalog>, failed: bool)

  function Apply(db: Instance, line: Line, landed: bool): Instance {
    match line
    case OpenWrite => Instance(db.stable, Some(db.stable), false)
    case On(s) =>
      if db.open.None? || db.failed then db else
      (match Exec(db.open.value, s)
       case Ok(after) => db.(open := Some(after))
       case Err(_) => db.(failed := true))
    case Commit(faulted) =>
      if db.open.Some? && !db.failed && (faulted ==> landed) then Instance(db.open.value, None, false)
      else Instance(db.stable, None, false)
    case _ => Instance(db.stable, None, false)
  }

  /** Runs a trace from an empty database; `landed(i)` says how the commit on line `i` really went if faulted. */
  ghost function Execute(lines: seq<Line>, landed: nat -> bool): Instance {
    if lines == [] then Instance(map[], None, false) else
    var n := |lines| - 1;
    Apply(Execute(lines[..n], landed), lines[n], landed(n))
  }

  lemma ExecuteOne(lines: seq<Line>, line: Line, landed: nat -> bool)
    ensures Execute(lines + [line], landed) == Apply(Execute(lines, landed), line, landed(|lines|))
  {
    assert (lines + [line])[..|lines|] == lines;
  }
}

/** The generator's picture of the schema, and when it agrees with the real one. */
module SchemaModel {
  import opened Bytes
  import opened Database

  /** A table of the picture; `maybe` marks one that a faulted commit left uncertain. */
  datatype Table = Table(cols: seq<Column>, orig: nat, nextId: nat, indexes: map<nat, Index>, maybe: bool)

  type Picture = map<nat, Table>

  predicate Same(a: Table, b: Table) {
    a.cols == b.cols && a.indexes == b.indexes && a.nextId == b.nextId && a.maybe == b.maybe
  }

  function AppendMissing(base: seq<Column>, cols: seq<Column>): seq<Column>
    decreases cols
  {
    if cols == [] then base else
    AppendMissing(if HasColumn(base, cols[0].name) then base else base + [cols[0]], cols[1..])
  }

  function Max(a: nat, b: nat): nat {
    if a < b then b else a
  }

  /** Both versions of a table that a transaction changed, laid over each other. */
  function Union(c: Table, w: Table): Table {
    Table(AppendMissing(w.cols, c.cols), w.orig, Max(c.nextId, w.nextId), c.indexes + w.indexes, true)
  }

  function MergedTable(c: Picture, w: Picture, t: nat): Table
    requires t in c || t in w
  {
    if t in c && t in w then (if Same(c[t], w[t]) then c[t] else Union(c[t], w[t]))
    else if t in w then w[t].(maybe := true)
    else c[t].(maybe := true)
  }

  /** What the generator believes after a commit that may or may not have landed. */
  function Merged(c: Picture, w: Picture): Picture {
    map t | t in c.Keys + w.Keys :: MergedTable(c, w, t)
  }

  // ---- Agreement ----

  ghost predicate IdsBelow(ids: set<int>, n: nat) {
    forall i <- ids :: i < n
  }

  ghost predicate Exact(m: Table, r: Relation) {
    r.cols == m.cols && r.indexes == m.indexes && IdsBelow(r.ids, m.nextId)
  }

  ghost predicate SubMap(a: map<nat, Index>, b: map<nat, Index>) {
    forall n <- a :: n in b && b[n] == a[n]
  }

  /** The real table has the declared columns, perhaps not all later ones, and no index or id beyond the picture's. */
  ghost predicate Covered(m: Table, r: Relation) {
    m.orig <= |r.cols| && r.cols <= m.cols && SubMap(r.indexes, m.indexes) && IdsBelow(r.ids, m.nextId)
  }

  ghost predicate AgreesAt(m: Picture, r: Catalog, t: nat) {
    (t in r ==> t in m) &&
    (t in m ==> if m[t].maybe then (t in r ==> Covered(m[t], r[t])) else t in r && Exact(m[t], r[t]))
  }

  /** A certain table is real and exactly as pictured; an uncertain one covers the real one, if any. */
  ghost predicate Agrees(m: Picture, r: Catalog) {
    forall t: nat :: AgreesAt(m, r, t)
  }

  /** Who owns each index name ever drawn, and its definition. */
  type Registry = map<nat, (nat, Index)>

  ghost predicate DistinctNames(cols: seq<Column>) {
    forall i, j :: 0 <= i < j < |cols| ==> cols[i].name != cols[j].name
  }

  ghost predicate TableOk(m: Table, t: nat, registry: Registry, serial: nat) {
    && 1 <= m.orig <= |m.cols|
    && DistinctNames(m.cols)
    && (forall i :: 0 <= i < |m.cols| && m.cols[i].name.Added? ==> m.cols[i].name.serial < serial)
    && (forall n <- m.indexes :: n in registry && registry[n] == (t, m.indexes[n]) && HasColumn(m.cols, m.indexes[n].column))
  }

  ghost predicate PictureOk(m: Picture, registry: Registry, tables: nat, serial: nat) {
    forall t <- m :: t < tables && TableOk(m[t], t, registry, serial)
  }

  /** How a transaction's picture relates to the committed one: tables only grow. */
  ghost predicate Grows(c: Table, w: Table) {
    c.cols <= w.cols && c.orig == w.orig && c.nextId <= w.nextId
  }

  ghost predicate Extends(c: Picture, w: Picture) {
    forall t <- c :: t in w ==> Grows(c[t], w[t])
  }

  // ---- The merge is sound whichever way the commit went ----

  lemma {:induction false} NothingMissing(base: seq<Column>, cols: seq<Column>)
    requires HasColumns(base, cols)
    ensures AppendMissing(base, cols) == base
  {
    if cols != [] {
      assert cols[0] in base;
      assert HasColumns(base, cols[1..]);
      NothingMissing(base, cols[1..]);
    }
  }

  lemma UnionOfGrown(c: Table, w: Table)
    requires Grows(c, w)
    ensures Union(c, w).cols == w.cols && Union(c, w).nextId == w.nextId
  {
    assert HasColumns(w.cols, c.cols);
    NothingMissing(w.cols, c.cols);
  }

  lemma UnionCovers(c: Table, w: Table, t: nat, registry: Registry, serial: nat, r: Relation)
    requires Grows(c, w) && TableOk(c, t, registry, serial) && TableOk(w, t, registry, serial)
    ensures (Exact(c, r) || Covered(c, r) || Exact(w, r) || Covered(w, r)) ==> Covered(Union(c, w), r)
    ensures TableOk(Union(c, w), t, registry, serial)
  {
    UnionOfGrown(c, w);
    var u := Union(c, w);
    assert SubMap(c.indexes, u.indexes) && SubMap(w.indexes, u.indexes);
    forall n <- u.indexes
      ensures n in registry && registry[n] == (t, u.indexes[n]) && HasColumn(u.cols, u.indexes[n].column)
    {
      if n in c.indexes {
        var i :| 0 <= i < |c.cols| && c.cols[i].name == c.indexes[n].column;
        assert w.cols[i].name == c.indexes[n].column;
      }
    }
  }

  /** Whether the commit landed or not, the merged picture agrees with what is then real. */
  lemma MergeAgrees(c: Picture, w: Picture, rc: Catalog, rw: Catalog, registry: Registry, tables: nat, serial: nat)
    requires PictureOk(c, registry, tables, serial) && PictureOk(w, registry, tables, serial) && Extends(c, w)
    requires Agrees(c, rc) && Agrees(w, rw)
    ensures Agrees(Merged(c, w), rc) && Agrees(Merged(c, w), rw)
    ensures PictureOk(Merged(c, w), registry, tables, serial)
  {
    var m := Merged(c, w);
    forall t: nat
      ensures AgreesAt(m, rc, t) && AgreesAt(m, rw, t)
      ensures t in m ==> t < tables && TableOk(m[t], t, registry, serial)
    {
      MergeAgreesAt(c, w, rc, rw, registry, tables, serial, t);
    }
  }

  /**
   * Only what the transaction touched becomes uncertain: a table both pictures describe alike stays as it
   * was, and every other one is marked, with the newer picture's columns and every index of either.
   */
  lemma MergeMeans(c: Picture, w: Picture, t: nat)
    requires Extends(c, w)
    ensures t in Merged(c, w) <==> t in c || t in w
    ensures t in c && t in w && Same(c[t], w[t]) ==> Merged(c, w)[t] == c[t]
    ensures t in Merged(c, w) && !(t in c && t in w && Same(c[t], w[t])) ==>
      var m, newer := Merged(c, w)[t], if t in w then w[t] else c[t];
      && m.maybe && m.cols == newer.cols && m.orig == newer.orig && m.nextId == newer.nextId
      && forall n :: n in m.indexes <==> (t in c && n in c[t].indexes) || (t in w && n in w[t].indexes)
  {
    if t in c && t in w {
      UnionOfGrown(c[t], w[t]);
    }
  }

  /** Two descriptions are alike when columns, indexes, next id and certainty are. */
  lemma SameMeans(a: Table, b: Table)
    ensures Same(a, b) <==> a == b.(orig := a.orig)
  {
  }

  lemma MergeAgreesAt(c: Picture, w: Picture, rc: Catalog, rw: Catalog, registry: Registry, tables: nat, serial: nat, t: nat)
    requires PictureOk(c, registry, tables, serial) && PictureOk(w, registry, tables, serial) && Extends(c, w)
    requires Agrees(c, rc) && Agrees(w, rw)
    ensures AgreesAt(Merged(c, w), rc, t) && AgreesAt(Merged(c, w), rw, t)
    ensures t in Merged(c, w) ==> t < tables && TableOk(Merged(c, w)[t], t, registry, serial)
  {
    assert AgreesAt(c, rc, t) && AgreesAt(w, rw, t);
    if t in c && t in w && !Same(c[t], w[t]) {
      assert Union(c[t], w[t]).maybe;
      hide Union;
      assert Grows(c[t], w[t]);
      if t in rc {
        UnionCovers(c[t], w[t], t, registry, serial, rc[t]);
      }
      if t in rw {
        UnionCovers(c[t], w[t], t, registry, serial, rw[t]);
      }
      UnionCovers(c[t], w[t], t, registry, serial, Relation([], map[], {}));
    }
  }

  // ---- Restoring a backup ----

  /** Restoring an old backup only marks every table uncertain. */
  function Doubted(m: Picture): Picture {
    map t | t in m :: m[t].(maybe := true)
  }

  /** Every table and index of the backup's picture is still pictured. */
  ghost predicate NothingDropped(past: Picture, now: Picture) {
    forall t <- past :: t in now && SubMap(past[t].indexes, now[t].indexes)
  }

  lemma RestoredAgrees(past: Picture, now: Picture, backup: Catalog)
    requires Agrees(past, backup) && NothingDropped(past, now)
    requires forall t <- past :: past[t].orig <= |past[t].cols| && (t in now ==> Grows(past[t], now[t]))
    ensures Agrees(Doubted(now), backup)
  {
    forall t: nat
      ensures AgreesAt(Doubted(now), backup, t)
    {
      assert AgreesAt(past, backup, t);
    }
  }

  /**
   * Marking alone is right, for every backup that fits the picture it was taken under, if and only if no
   * table and no index has been dropped since: a dropped one comes back unpictured.
   */
  lemma RestoreExact(past: Picture, now: Picture)
    requires forall t <- past :: past[t].orig <= |past[t].cols| && (t in now ==> Grows(past[t], now[t]))
    ensures (forall backup :: Agrees(past, backup) ==> Agrees(Doubted(now), backup)) <==> NothingDropped(past, now)
  {
    if NothingDropped(past, now) {
      forall backup | Agrees(past, backup)
        ensures Agrees(Doubted(now), backup)
      {
        RestoredAgrees(past, now, backup);
      }
    } else {
      var backup := map t | t in past :: Relation(past[t].cols, past[t].indexes, {});
      assert Agrees(past, backup);
      var t :| t in past && !(t in now && SubMap(past[t].indexes, now[t].indexes));
      assert !AgreesAt(Doubted(now), backup, t);
    }
  }

  /** A restore that brings a dropped index back. */
  lemma DroppedIndexReturns(t: nat, n: nat, def: Index, cols: seq<Column>)
    requires |cols| > 0
    ensures var past, now := map[t := Table(cols, 1, 1, map[n := def], false)], map[t := Table(cols, 1, 1, map[], false)];
      var backup := map[t := Relation(cols, map[n := def], {})];
      Agrees(past, backup) && !Agrees(Doubted(now), backup)
  {
    var now, backup := map[t := Table(cols, 1, 1, map[], false)], map[t := Relation(cols, map[n := def], {})];
    assert n in backup[t].indexes;
    assert !AgreesAt(Doubted(now), backup, t);
  }
}
