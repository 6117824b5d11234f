/**
 * The trace generator's schema bookkeeping. Every method appends lines to the trace and edits the
 * picture; the invariant compares the picture with what the trace does to a real database,
 * whichever way each faulted commit goes.
 */
module Generators {
  import opened Bytes
  import opened Database
  import opened SchemaModel

  // ---- One statement at a time, on values ----

  lemma SameElsewhere(m: Picture, r: Catalog, t: nat, table: Table, rel: Relation)
    requires Agrees(m, r) && Exact(table, rel) && !table.maybe
    ensures Agrees(m[t := table], r[t := rel])
  {
    var m', r' := m[t := table], r[t := rel];
    forall u: nat
      ensures AgreesAt(m', r', u)
    {
      assert AgreesAt(m, r, u);
    }
  }

  lemma DropAgrees(m: Picture, r: Catalog, t: nat)
    requires Agrees(m, r)
    ensures Agrees(m - {t}, r - {t})
  {
    forall u: nat
      ensures AgreesAt(m - {t}, r - {t}, u)
    {
      assert AgreesAt(m, r, u);
    }
  }

  /** An index known to the real database belongs to the table the registry names. */
  lemma IndexOwner(m: Picture, r: Catalog, registry: Registry, tables: nat, serial: nat, n: nat, t: nat)
    requires PictureOk(m, registry, tables, serial) && Agrees(m, r) && t in r && n in r[t].indexes
    ensures n in registry && registry[n].0 == t && t in m && n in m[t].indexes
  {
    assert AgreesAt(m, r, t);
    assert TableOk(m[t], t, registry, serial);
  }

  /** `ADD COLUMN IF NOT EXISTS` for the columns in order extends the real prefix by at most one. */
  lemma AddColumnStep(r: Catalog, t: nat, cols: seq<Column>, i: nat, k: nat)
    requires DistinctNames(cols) && i <= k <= |cols| && i < |cols|
    requires t in r && r[t].cols == cols[..k]
    ensures Exec(r, AddColumn(t, cols[i], true)) == Ok(r[t := r[t].(cols := cols[..if i < k then k else k + 1])])
  {
    if i < k {
      assert r[t].cols[i] == cols[i];
      assert r[t := r[t]] == r;
    } else {
      assert !HasColumn(r[t].cols, cols[i].name);
      assert cols[..k] + [cols[k]] == cols[..k + 1];
    }
  }

  /** Dropping an index touches only the table that has it. */
  lemma DropIndexStep(m: Picture, r: Catalog, registry: Registry, tables: nat, serial: nat, n: nat, t: nat)
    requires PictureOk(m, registry, tables, serial) && Agrees(m, r) && t in r && n in r[t].indexes
    ensures Exec(r, DropIndex(n)) == Ok(r[t := WithoutIndex(r[t], n)])
  {
    assert HasIndex(r, n);
    IndexOwner(m, r, registry, tables, serial, n, t);
    var after := map u | u in r :: WithoutIndex(r[u], n);
    forall u <- r
      ensures after[u] == r[t := WithoutIndex(r[t], n)][u]
    {
      if n in r[u].indexes {
        IndexOwner(m, r, registry, tables, serial, n, u);
      } else {
        assert WithoutIndex(r[u], n).indexes == r[u].indexes;
      }
    }
    assert after == r[t := WithoutIndex(r[t], n)];
  }

  /** `CREATE INDEX IF NOT EXISTS` for a pictured index leaves exactly that index behind. */
  lemma CreateIndexStep(m: Picture, r: Catalog, registry: Registry, tables: nat, serial: nat, n: nat, t: nat, rel: Relation)
    requires PictureOk(m, registry, tables, serial) && Agrees(m, r) && t in m && n in m[t].indexes
    requires rel.cols == m[t].cols && (n in rel.indexes ==> rel.indexes[n] == m[t].indexes[n])
    ensures Exec(r[t := rel], CreateIndex(n, t, m[t].indexes[n], true))
         == Ok(r[t := rel.(indexes := rel.indexes[n := m[t].indexes[n]])])
  {
    assert TableOk(m[t], t, registry, serial);
    var db := r[t := rel];
    if n in rel.indexes {
      assert n in db[t].indexes;
      assert rel.indexes[n := m[t].indexes[n]] == rel.indexes;
      assert db == r[t := rel.(indexes := rel.indexes[n := m[t].indexes[n]])];
    } else {
      NotElsewhere(m, r, registry, tables, serial, n, t, rel);
      assert r[t := rel][t := rel.(indexes := rel.indexes[n := m[t].indexes[n]])]
          == r[t := rel.(indexes := rel.indexes[n := m[t].indexes[n]])];
    }
  }

  lemma NotElsewhere(m: Picture, r: Catalog, registry: Registry, tables: nat, serial: nat, n: nat, t: nat, rel: Relation)
    requires PictureOk(m, registry, tables, serial) && Agrees(m, r) && n !in rel.indexes
    requires n in registry ==> registry[n].0 == t
    ensures !HasIndex(r[t := rel], n)
  {
    var db := r[t := rel];
    forall u <- db
      ensures n !in db[u].indexes
    {
      if u != t && n in db[u].indexes {
        IndexOwner(m, r, registry, tables, serial, n, u);
        assert false;
      }
    }
  }

  /** A picture stays well formed as names are drawn. */
  lemma NamesDrawn(m: Picture, registry: Registry, tables: nat, serial: nat, registry': Registry, tables': nat, serial': nat)
    requires PictureOk(m, registry, tables, serial) && tables <= tables' && serial <= serial'
    requires forall n <- registry :: n in registry' && registry'[n] == registry[n]
    ensures PictureOk(m, registry', tables', serial')
  {
    forall t <- m
      ensures t < tables' && TableOk(m[t], t, registry', serial')
    {
      assert TableOk(m[t], t, registry, serial);
    }
  }

  lemma PictureOkUpdate(m: Picture, registry: Registry, tables: nat, serial: nat, t: nat, table: Table)
    requires PictureOk(m, registry, tables, serial) && t < tables && TableOk(table, t, registry, serial)
    ensures PictureOk(m[t := table], registry, tables, serial)
  {
  }

  lemma ExtendsUpdate(c: Picture, w: Picture, t: nat, table: Table)
    requires Extends(c, w) && (t in c ==> Grows(c[t], table))
    ensures Extends(c, w[t := table])
  {
  }

  /** The columns CREATE TABLE declares: the key and `c1`, `c2`, and so on; an `i64` column is derived from the key. */
  function Declare(types: seq<Type>): seq<Column> {
    [Column(Id, I64, true)] + seq(|types|, i requires 0 <= i < |types| => Column(Declared(i + 1), types[i], types[i] == I64))
  }

  lemma DeclareMeans(types: seq<Type>, i: nat)
    requires i <= |types|
    ensures |Declare(types)| == |types| + 1
    ensures Declare(types)[i] == if i == 0 then Column(Id, I64, true) else Column(Declared(i), types[i - 1], types[i - 1] == I64)
  {
  }

  lemma DeclareOk(types: seq<Type>, t: nat, registry: Registry, serial: nat)
    ensures TableOk(Table(Declare(types), |types| + 1, 1, map[], false), t, registry, serial)
  {
    var cols := Declare(types);
    assert forall i :: 1 <= i < |cols| ==> cols[i].name == Declared(i);
  }

  class Generator {
    var lines: seq<Line>
    var committed: Picture
    var working: Option<Picture>
    var aborted: bool
    var tables: nat
    var indexes: nat
    var serial: nat
    const maxTables: nat
    const maxRows: nat
    ghost const landed: nat -> bool
    ghost var registry: Registry

    /** What the trace so far has made of the real database. */
    ghost function Real(): Instance
      reads this
    {
      Execute(lines, landed)
    }

    /** The committed picture is right, and so is the open transaction's until a statement fails. */
    ghost predicate Valid()
      reads this
    {
      && PictureOk(committed, registry, tables, serial)
      && (forall n <- registry :: n < indexes)
      && Agrees(committed, Real().stable)
      && (working.None? <==> Real().open.None?)
      && (working.Some? ==> WorkingOk(working.value))
    }

    ghost predicate WorkingOk(w: Picture)
      reads this
    {
      && PictureOk(w, registry, tables, serial)
      && Extends(committed, w)
      && Real().failed == aborted
      && (!aborted ==> Real().open.Some? && Agrees(w, Real().open.value))
    }

    /** A statement may be written: a transaction is open and has not failed. */
    ghost predicate Ready()
      reads this
    {
      Valid() && working.Some? && !aborted
    }

    constructor (maxTables: nat, maxRows: nat, ghost landed: nat -> bool)
      ensures Valid() && this.landed == landed && lines == [] && working == None
    {
      lines, committed, working, aborted := [], map[], None, false;
      tables, indexes, serial, registry := 1, 1, 1, map[];
      this.maxTables, this.maxRows, this.landed := maxTables, maxRows, landed;
      new;
      assert Agrees(committed, Real().stable);
    }

    method Emit(line: Line)
      modifies this`lines
      ensures lines == old(lines) + [line]
      ensures Real() == Apply(old(Real()), line, landed(|old(lines)|))
    {
      ExecuteOne(lines, line, landed);
      lines := lines + [line];
    }

    // ---- Sessions ----

    method OpenWrite()
      requires Valid() && working.None?
      modifies this
      ensures Valid() && Ready() && committed == old(committed) && working == Some(committed)
    {
      working := Some(committed);
      aborted := false;
      Emit(Line.OpenWrite);
    }

    /** A commit ends the transaction; after a faulted one the picture is the merge. */
    method Commit(faulted: bool)
      requires Valid() && working.Some?
      modifies this
      ensures Valid() && working.None?
      ensures committed ==
        if old(aborted) then old(committed)
        else if faulted then Merged(old(committed), old(working).value)
        else old(working).value
    {
      ghost var before := Real();
      Emit(Line.Commit(faulted));
      if !aborted {
        if faulted {
          MergeAgrees(committed, working.value, before.stable, before.open.value, registry, tables, serial);
          committed := MergeUncertain(committed, working.value);
        } else {
          committed := working.value;
        }
      }
      working := None;
      hide Agrees;
      hide PictureOk;
      hide Merged;
      hide Extends;
    }

    /** A rollback, a clean reopening or a crash: the transaction is gone, and what was committed stays. */
    method Abandon(line: Line)
      requires Valid() && (line.Rollback? || line.Reopen? || line.Crash?)
      modifies this
      ensures Valid() && working.None? && committed == old(committed)
    {
      Emit(line);
      working := None;
    }
  
    // ---- Statements ----

    /** Adds the columns the real table may lack, in order. */
    method AddColumns(t: nat, cols: seq<Column>, first: nat, ghost r: Catalog, ghost rel: Relation)
      requires DistinctNames(cols) && first <= |rel.cols| && rel.cols <= cols
      requires Real().open == Some(r[t := rel]) && !Real().failed
      modifies this`lines
      ensures Real() == Instance(old(Real().stable), Some(r[t := rel.(cols := cols)]), false)
    {
      hide Exec;
      var i := first;
      ghost var k := |rel.cols|;
      assert rel == rel.(cols := cols[..k]);
      while i < |cols|
        invariant i <= k <= |cols|
        invariant Real() == Instance(old(Real().stable), Some(r[t := rel.(cols := cols[..k])]), false)
      {
        ghost var k' := if i < k then k else k + 1;
        AddColumnStep(r[t := rel.(cols := cols[..k])], t, cols, i, k);
        UpdateTwice(r, t, rel.(cols := cols[..k]), rel.(cols := cols[..k']));
        Emit(On(Statement.AddColumn(t, cols[i], true)));
        k := k';
        i := i + 1;
      }
      assert cols[..k] == cols;
    }

    /** Creates the pictured indexes the real table may lack. */
    method AddIndexes(t: nat, w: Picture, ghost r: Catalog, ghost rel: Relation)
      requires PictureOk(w, registry, tables, serial) && Agrees(w, r) && t in w
      requires rel.cols == w[t].cols && SubMap(rel.indexes, w[t].indexes)
      requires Real().open == Some(r[t := rel]) && !Real().failed
      modifies this`lines
      ensures Real() == Instance(old(Real().stable), Some(r[t := rel.(indexes := w[t].indexes)]), false)
    {
      hide Exec;
      hide PictureOk;
      hide Agrees;
      ghost var have := rel.indexes;
      var defs := w[t].indexes;
      var todo := defs.Keys;
      while todo != {}
        invariant todo <= defs.Keys
        invariant SubMap(have, defs) && forall n <- defs :: n in todo || n in have
        invariant Real() == Instance(old(Real().stable), Some(r[t := rel.(indexes := have)]), false)
      {
        var n :| n in todo;
        CreateIndexStep(w, r, registry, tables, serial, n, t, rel.(indexes := have));
        Emit(On(Statement.CreateIndex(n, t, defs[n], true)));
        have := have[n := defs[n]];
        todo := todo - {n};
      }
      assert have == defs;
    }

    /** Makes an uncertain table real, with every pictured column and index. */
    method EnsureTable(t: nat)
      requires Ready() && t in working.value
      modifies this`lines, this`working
      ensures Ready()
      ensures working == Some(old(working).value[t := old(working).value[t].(maybe := false)])
      ensures t in Real().open.value && Exact(working.value[t], Real().open.value[t])
      ensures Real().stable == old(Real().stable)
    {
      hide Execute;
      hide Exec;
      var w := working.value;
      var m := w[t];
      ghost var r := Real().open.value;
      assert AgreesAt(w, r, t) && TableOk(m, t, registry, serial);
      if !m.maybe {
        assert w == w[t := m.(maybe := false)];
        return;
      }
      ghost var rel := if t in r then r[t] else Relation(m.cols[..m.orig], map[], {});
      CreateMissing(r, t, m.cols[..m.orig]);
      Emit(On(Statement.CreateTable(t, m.cols[..m.orig], true)));
      AddColumns(t, m.cols, m.orig, r, rel);
      AddIndexes(t, w, r, rel.(cols := m.cols));
      SameElsewhere(w, r, t, m.(maybe := false), Relation(m.cols, m.indexes, rel.ids));
      PictureOkUpdate(w, registry, tables, serial, t, m.(maybe := false));
      ExtendsUpdate(committed, w, t, m.(maybe := false));
      hide Agrees;
      hide PictureOk;
      hide Extends;
      working := Some(w[t := m.(maybe := false)]);
    }

    /** One statement on one certain table, in the trace and in the picture. */
    method Change(s: Statement, t: nat, table: Table, ghost rel: Relation)
      requires Ready() && t < tables && !table.maybe
      requires Exec(Real().open.value, s) == Ok(Real().open.value[t := rel]) && Exact(table, rel)
      requires TableOk(table, t, registry, serial) && (t in committed ==> Grows(committed[t], table))
      modifies this`lines, this`working
      ensures Ready() && working == Some(old(working).value[t := table])
      ensures Real() == Instance(old(Real().stable), Some(old(Real().open).value[t := rel]), false)
    {
      hide Execute;
      hide Exec;
      SameElsewhere(working.value, Real().open.value, t, table, rel);
      PictureOkUpdate(working.value, registry, tables, serial, t, table);
      ExtendsUpdate(committed, working.value, t, table);
      hide Agrees;
      hide PictureOk;
      hide Extends;
      Emit(On(s));
      working := Some(working.value[t := table]);
    }

    method CreateTable(types: seq<Type>)
      requires Ready()
      modifies this
      ensures Ready() && committed == old(committed) && registry == old(registry)
      ensures working == if |old(working).value| >= maxTables then old(working) else
        Some(old(working).value[old(tables) := Table(Declare(types), |types| + 1, 1, map[], false)])
    {
      hide Execute;
      if |working.value| >= maxTables {
        return;
      }
      var t := tables;
      tables := tables + 1;
      NamesDrawn(committed, registry, t, serial, registry, tables, serial);
      NamesDrawn(working.value, registry, t, serial, registry, tables, serial);
      DeclareOk(types, t, registry, serial);
      assert AgreesAt(working.value, Real().open.value, t);
      Change(Statement.CreateTable(t, Declare(types), false), t, Table(Declare(types), |types| + 1, 1, map[], false),
             Relation(Declare(types), map[], {}));
    }

    method DropTable(t: nat)
      requires Ready() && t in working.value
      modifies this`lines, this`working
      ensures Ready()
      ensures working == if |old(working).value| <= 1 then old(working) else Some(old(working).value - {t})
    {
      if |working.value| <= 1 {
        return;
      }
      DropAgrees(working.value, Real().open.value, t);
      Emit(On(Statement.DropTable(t)));
      working := Some(working.value - {t});
    }

    /** Indexes the `i`-th column: with GiST if it is a range, and perhaps uniquely if it is derived from the key. */
    method CreateIndex(t: nat, i: nat, unique: bool)
      requires Ready() && t in working.value && 1 <= i < |working.value[t].cols|
      requires working.value[t].cols[i].kind in {I32, I64, I32Range}
      requires unique ==> working.value[t].cols[i].kind == I64 && working.value[t].cols[i].key
      modifies this
      ensures Ready() && committed == old(committed)
      ensures var m := old(working).value[t];
        working == Some(old(working).value[t := m.(maybe := false, indexes := m.indexes[old(indexes) :=
          Index(m.cols[i].name, unique, m.cols[i].kind == I32Range)])])
    {
      hide Execute;
      hide Exec;
      hide Agrees;
      hide PictureOk;
      hide Extends;
      EnsureTable(t);
      var m := working.value[t];
      var n := indexes;
      var def := Index(m.cols[i].name, unique, m.cols[i].kind == I32Range);
      PictureTwice(old(working).value, t, m, m.(indexes := m.indexes[n := def]));
      Register(t, i, def);
      ghost var rel := Real().open.value[t];
      Change(Statement.CreateIndex(n, t, def, false), t, m.(indexes := m.indexes[n := def]), rel.(indexes := rel.indexes[n := def]));
    }

    /** Draws a fresh index name for a column of a certain table. */
    method Register(t: nat, i: nat, ghost def: Index)
      requires Ready() && t in working.value && i < |working.value[t].cols| && working.value[t].cols[i].name == def.column
      requires t in Real().open.value && Exact(working.value[t], Real().open.value[t])
      modifies this`indexes, this`registry
      ensures Ready() && indexes == old(indexes) + 1
      ensures var m, rel, n := working.value[t], Real().open.value[t], old(indexes);
        && t < tables && TableOk(m.(indexes := m.indexes[n := def]), t, registry, serial)
        && Exec(Real().open.value, Statement.CreateIndex(n, t, def, false))
           == Ok(Real().open.value[t := rel.(indexes := rel.indexes[n := def])])
        && (t in committed ==> Grows(committed[t], m))
    {
      hide Execute;
      hide Exec;
      hide Agrees;
      var n := indexes;
      indexes := indexes + 1;
      ghost var was := registry;
      registry := registry[n := (t, def)];
      NamesDrawn(committed, was, tables, serial, registry, tables, serial);
      NamesDrawn(working.value, was, tables, serial, registry, tables, serial);
      assert TableOk(working.value[t], t, was, serial);
      NewIndexStep(working.value, Real().open.value, registry, tables, serial, n, t, def);
      GrownIndex(working.value[t], t, registry, serial, n, def, i);
    }

    method DropIndex(t: nat, n: nat)
      requires Ready() && t in working.value && n in working.value[t].indexes
      modifies this`lines, this`working
      ensures Ready()
      ensures var m := old(working).value[t];
        working == Some(old(working).value[t := m.(maybe := false, indexes := m.indexes - {n})])
    {
      hide Execute;
      hide Exec;
      hide Agrees;
      EnsureTable(t);
      var m := working.value[t];
      ghost var rel := Real().open.value[t];
      DropIndexStep(working.value, Real().open.value, registry, tables, serial, n, t);
      assert WithoutIndex(rel, n).indexes == m.indexes - {n};
      assert TableOk(m, t, registry, serial);
      PictureTwice(old(working).value, t, m, m.(indexes := m.indexes - {n}));
      hide PictureOk;
      Change(Statement.DropIndex(n), t, m.(indexes := m.indexes - {n}), WithoutIndex(rel, n));
    }

    method AddColumn(t: nat, kind: Type)
      requires Ready() && t in working.value
      modifies this
      ensures Ready() && committed == old(committed)
      ensures var m := old(working).value[t].(maybe := false);
        working == Some(old(working).value[t := if |m.cols| >= 7 then m else
          m.(cols := m.cols + [Column(Added(|m.cols|, old(serial)), kind, false)])])
    {
      hide Execute;
      hide Exec;
      hide Agrees;
      EnsureTable(t);
      var m := working.value[t];
      if |m.cols| >= 7 {
        return;
      }
      var col := Column(Added(|m.cols|, serial), kind, false);
      ghost var rel := Real().open.value[t];
      assert TableOk(m, t, registry, serial);
      GrownColumns(m, t, registry, serial, col);
      AddNewStep(Real().open.value, t, col);
      PictureTwice(old(working).value, t, m, m.(cols := m.cols + [col]));
      NamesDrawn(committed, registry, tables, serial, registry, tables, serial + 1);
      NamesDrawn(working.value, registry, tables, serial, registry, tables, serial + 1);
      serial := serial + 1;
      Change(Statement.AddColumn(t, col, false), t, m.(cols := m.cols + [col]), rel.(cols := rel.cols + [col]));
    }

    method Insert(t: nat, batch: nat)
      requires Ready() && t in working.value
      modifies this`lines, this`working
      ensures Ready()
      ensures var m := old(working).value[t].(maybe := false);
        working == Some(old(working).value[t := if m.nextId > maxRows then m else m.(nextId := m.nextId + batch)])
    {
      hide Execute;
      hide Exec;
      hide Agrees;
      EnsureTable(t);
      var m := working.value[t];
      if m.nextId > maxRows {
        return;
      }
      var hi := m.nextId + batch - 1;
      ghost var rel := Real().open.value[t];
      assert rel.ids !! Range(m.nextId, hi);
      InsertStep(Real().open.value, t, m.nextId, hi);
      PictureTwice(old(working).value, t, m, m.(nextId := hi + 1));
      assert TableOk(m, t, registry, serial);
      Change(Statement.Insert(t, m.cols, m.nextId, hi), t, m.(nextId := hi + 1), rel.(ids := rel.ids + Range(m.nextId, hi)));
    }

    method Upsert(t: nat, lo: nat, batch: nat)
      requires Ready() && t in working.value && lo <= working.value[t].nextId
      modifies this`lines, this`working
      ensures Ready()
      ensures var m := old(working).value[t].(maybe := false);
        working == Some(old(working).value[t := if m.nextId > maxRows then m else m.(nextId := Max(m.nextId, lo + batch))])
    {
      hide Execute;
      hide Exec;
      hide Agrees;
      EnsureTable(t);
      var m := working.value[t];
      if m.nextId > maxRows {
        return;
      }
      var hi := lo + batch - 1;
      ghost var rel := Real().open.value[t];
      InsertStep(Real().open.value, t, lo, hi);
      PictureTwice(old(working).value, t, m, m.(nextId := Max(m.nextId, hi + 1)));
      assert TableOk(m, t, registry, serial);
      Change(Statement.Upsert(t, m.cols, lo, hi), t, m.(nextId := Max(m.nextId, hi + 1)), rel.(ids := rel.ids + Range(lo, hi)));
    }

    method Delete(t: nat, gone: set<int>)
      requires Ready() && t in working.value
      modifies this`lines, this`working
      ensures Ready()
      ensures working == Some(old(working).value[t := old(working).value[t].(maybe := false)])
    {
      hide Execute;
      hide Exec;
      hide Agrees;
      EnsureTable(t);
      var m := working.value[t];
      if m.nextId <= 1 {
        return;
      }
      ghost var rel := Real().open.value[t];
      DeleteStep(Real().open.value, t, gone);
      PictureTwice(old(working).value, t, m, m);
      assert TableOk(m, t, registry, serial);
      Change(Statement.Delete(t, gone), t, m, rel.(ids := rel.ids - gone));
    }

    /** A statement that must fail; nothing but the end of the transaction makes sense after it. */
    method Invalid()
      requires Ready()
      modifies this`lines, this`aborted
      ensures Valid() && aborted
    {
      Emit(On(Statement.Invalid));
      aborted := true;
    }
  }

  lemma PictureTwice(w: Picture, t: nat, a: Table, b: Table)
    ensures w[t := a][t := b] == w[t := b]
  {
  }

  lemma AddNewStep(r: Catalog, t: nat, col: Column)
    requires t in r && !HasColumn(r[t].cols, col.name)
    ensures Exec(r, AddColumn(t, col, false)) == Ok(r[t := r[t].(cols := r[t].cols + [col])])
  {
  }

  lemma InsertStep(r: Catalog, t: nat, lo: int, hi: int)
    requires t in r
    ensures r[t].ids !! Range(lo, hi) ==>
      Exec(r, Insert(t, r[t].cols, lo, hi)) == Ok(r[t := r[t].(ids := r[t].ids + Range(lo, hi))])
    ensures Exec(r, Upsert(t, r[t].cols, lo, hi)) == Ok(r[t := r[t].(ids := r[t].ids + Range(lo, hi))])
  {
  }

  lemma DeleteStep(r: Catalog, t: nat, gone: set<int>)
    requires t in r
    ensures Exec(r, Delete(t, gone)) == Ok(r[t := r[t].(ids := r[t].ids - gone)])
  {
  }

  lemma NewIndexStep(m: Picture, r: Catalog, registry: Registry, tables: nat, serial: nat, n: nat, t: nat, def: Index)
    requires PictureOk(m, registry, tables, serial) && Agrees(m, r) && t in r
    requires n in registry && registry[n].0 == t && n !in r[t].indexes && HasColumn(r[t].cols, def.column)
    ensures Exec(r, CreateIndex(n, t, def, false)) == Ok(r[t := r[t].(indexes := r[t].indexes[n := def])])
  {
    assert r[t := r[t]] == r;
    NotElsewhere(m, r, registry, tables, serial, n, t, r[t]);
  }

  lemma GrownIndex(m: Table, t: nat, registry: Registry, serial: nat, n: nat, def: Index, i: nat)
    requires TableOk(m, t, registry, serial) && n in registry && registry[n] == (t, def)
    requires i < |m.cols| && m.cols[i].name == def.column
    ensures TableOk(m.(indexes := m.indexes[n := def]), t, registry, serial)
  {
  }

  lemma GrownColumns(m: Table, t: nat, registry: Registry, serial: nat, col: Column)
    requires TableOk(m, t, registry, serial) && col.name == Added(|m.cols|, serial)
    ensures TableOk(m.(cols := m.cols + [col]), t, registry, serial + 1)
    ensures !HasColumn(m.cols, col.name)
  {
    var cols := m.cols + [col];
    forall n <- m.indexes
      ensures HasColumn(cols, m.indexes[n].column)
    {
      var i :| 0 <= i < |m.cols| && m.cols[i].name == m.indexes[n].column;
      assert cols[i].name == m.indexes[n].column;
    }
  }

  lemma UpdateTwice(r: Catalog, t: nat, a: Relation, b: Relation)
    ensures r[t := a][t := b] == r[t := b]
  {
  }

  lemma CreateMissing(r: Catalog, t: nat, cols: seq<Column>)
    ensures Exec(r, CreateTable(t, cols, true)) == Ok(r[t := if t in r then r[t] else Relation(cols, map[], {})])
  {
    if t in r {
      assert r[t := r[t]] == r;
    }
  }

  /** Merges table by table. */
  method MergeUncertain(c: Picture, w: Picture) returns (merged: Picture)
    ensures merged == Merged(c, w)
  {
    merged := map[];
    var todo := c.Keys + w.Keys;
    while todo != {}
      invariant todo <= c.Keys + w.Keys
      invariant merged == map t | t in (c.Keys + w.Keys) - todo :: MergedTable(c, w, t)
      decreases |todo|
    {
      var t :| t in todo;
      merged := merged[t := MergedTable(c, w, t)];
      todo := todo - {t};
    }
  }
}
