/** `exportAll` / `importAll` of the store and the restore handler
    `Backup.import` in js/todo.js. A backup document lists every store; the
    import clears all five stores and puts the listed records back under
    their own ids, in one transaction. */
module Backup {
  import opened Wrappers
  import opened Enumeration
  import opened KanbanStore
  import opened Dirty

  /** A JSON value, kept only as far as JavaScript truthiness needs it. */
  datatype JsonValue = JNull | JBool(b: bool) | JNumber(n: real) | JString(s: string) | JArray | JObject

  /** `!!value` for a field that may be missing (`None`, read as undefined). */
  predicate Truthy(v: Option<JsonValue>) {
    match v
    case None => false
    case Some(JNull) => false
    case Some(JBool(b)) => b
    case Some(JNumber(n)) => n != 0.0
    case Some(JString(t)) => t != ""
    case Some(_) => true
  }

  /** The parsed backup file. A store the file does not list is `None`, and
      so is a missing `version`. */
  datatype Doc = Doc(
    version: Option<JsonValue>, exportedAt: string,
    tasks: Option<seq<Keyed<Task>>>, comments: Option<seq<Keyed<Comment>>>,
    labels: Option<seq<Keyed<Label>>>, taskLabels: Option<seq<TaskLabel>>,
    columns: Option<seq<Keyed<Column>>>)

  const FormatVersion: real := 2.0

  ghost predicate IdLess(a: Id, b: Id) { a < b }

  /** IndexedDB compares the array key `[task_id, label_id]` element by element. */
  ghost predicate LinkLess(a: TaskLabel, b: TaskLabel) {
    a.taskId < b.taskId || (a.taskId == b.taskId && a.labelId < b.labelId)
  }

  lemma IdOrderIsTotal()
    ensures StrictTotalOrder(IdLess)
  {
  }

  lemma LinkOrderIsTotal()
    ensures StrictTotalOrder(LinkLess)
  {
  }

  /** The least id of a non-empty set. */
  ghost function MinId(s: set<Id>): (k: Id)
    requires s != {}
    ensures k in s && forall x :: x in s ==> k <= x
  {
    IdOrderIsTotal();
    Least(s, IdLess)
  }

  /** The links in the array-key order. */
  ghost function SortedLinks(s: set<TaskLabel>): (ls: seq<TaskLabel>)
    ensures forall tl :: tl in s <==> tl in ls
    ensures forall i, j :: 0 <= i < j < |ls| ==> LinkLess(ls[i], ls[j])
  {
    LinkOrderIsTotal();
    Ascending(s, LinkLess)
  }

  /** `getAll` on a store keyed by id: each record once, ascending by id. */
  ghost function Listing<T>(m: map<Id, T>): (es: seq<Keyed<T>>)
    ensures |es| == |m|
    ensures forall i :: 0 <= i < |es| ==> es[i].id in m && es[i].rec == m[es[i].id]
    ensures forall i, j :: 0 <= i < j < |es| ==> es[i].id < es[j].id
    decreases |m|
  {
    if m == map[] then []
    else
      var k := MinId(m.Keys);
      assert (m - {k}).Keys == m.Keys - {k};
      [Keyed(k, m[k])] + Listing(m - {k})
  }

  /** `exportAll`: version 2, the clock reading, and every store listed. */
  ghost function ExportAll(db: Db, now: string): (d: Doc)
    ensures d.version == Some(JNumber(FormatVersion)) && d.exportedAt == now
    ensures d.tasks.Some? && d.comments.Some? && d.labels.Some? && d.taskLabels.Some? && d.columns.Some?
    ensures forall i, j :: 0 <= i < j < |d.taskLabels.value| ==> LinkLess(d.taskLabels.value[i], d.taskLabels.value[j])
    ensures forall tl :: tl in db.taskLabels <==> tl in d.taskLabels.value
  {
    Doc(Some(JNumber(FormatVersion)), now, Some(Listing(db.tasks)), Some(Listing(db.comments)),
        Some(Listing(db.labels)), Some(SortedLinks(db.taskLabels)), Some(Listing(db.columns)))
  }

  /** The records `put` one after another into `m`. */
  function PutAll<T>(m: map<Id, T>, es: seq<Keyed<T>>): map<Id, T>
    decreases |es|
  {
    if es == [] then m else PutAll(m[es[0].id := es[0].rec], es[1..])
  }

  /** An id no record names keeps what it had. */
  lemma {:induction false} PutAllUntouched<T>(m: map<Id, T>, es: seq<Keyed<T>>, k: Id)
    requires forall i :: 0 <= i < |es| ==> es[i].id != k
    ensures k in PutAll(m, es) <==> k in m
    ensures k in m ==> PutAll(m, es)[k] == m[k]
    decreases |es|
  {
    if es != [] {
      PutAllUntouched(m[es[0].id := es[0].rec], es[1..], k);
    }
  }

  /** An id holds the LAST record listed under it: later duplicates win. */
  lemma {:induction false} PutAllLastWins<T>(m: map<Id, T>, es: seq<Keyed<T>>, i: nat)
    requires i < |es| && forall j :: i < j < |es| ==> es[j].id != es[i].id
    ensures es[i].id in PutAll(m, es) && PutAll(m, es)[es[i].id] == es[i].rec
    decreases i
  {
    if i == 0 {
      PutAllUntouched(m[es[0].id := es[0].rec], es[1..], es[0].id);
    } else {
      PutAllLastWins(m[es[0].id := es[0].rec], es[1..], i - 1);
    }
  }

  /** Moving one entry of `m` into `acc` first does not change the union. */
  lemma MoveKey<T>(acc: map<Id, T>, m: map<Id, T>, k: Id)
    requires k in m
    ensures acc[k := m[k]] + (m - {k}) == acc + m
  {
    var l := acc[k := m[k]] + (m - {k});
    var r := acc + m;
    assert l.Keys == r.Keys;
    forall x | x in l
      ensures l[x] == r[x]
    {
      if x == k {} else if x in m {} else {}
    }
  }

  /** A listing put into a store adds exactly the listed map. */
  lemma {:induction false} PutAllListing<T>(acc: map<Id, T>, m: map<Id, T>)
    ensures PutAll(acc, Listing(m)) == acc + m
    decreases |m|
  {
    if m == map[] {
      assert acc + m == acc;
    } else {
      var k := MinId(m.Keys);
      var es := Listing(m);
      assert (m - {k}).Keys == m.Keys - {k};
      assert es[0] == Keyed(k, m[k]) && es[1..] == Listing(m - {k});
      PutAllListing(acc[k := m[k]], m - {k});
      MoveKey(acc, m, k);
      assert PutAll(acc, es) == PutAll(acc[k := m[k]], es[1..]);
    }
  }

  /** Another column already holds the key of `e`. */
  predicate KeyTaken(m: map<Id, Column>, e: Keyed<Column>) {
    exists j :: j in m && j != e.id && m[j].key == e.rec.key
  }

  /** The columns put one after another; the unique `key` index aborts the
      whole transaction on a key held by another column. */
  function PutColumns(m: map<Id, Column>, es: seq<Keyed<Column>>): Option<map<Id, Column>>
    decreases |es|
  {
    if es == [] then Some(m)
    else if KeyTaken(m, es[0]) then None
    else PutColumns(m[es[0].id := es[0].rec], es[1..])
  }

  /** A listing of columns with unique keys all goes in. */
  lemma {:induction false} PutColumnsListing(acc: map<Id, Column>, m: map<Id, Column>)
    requires acc.Keys !! m.Keys && UniqueColumnKeys(acc + m)
    ensures PutColumns(acc, Listing(m)) == Some(acc + m)
    decreases |m|
  {
    if m == map[] {
      assert acc + m == acc;
    } else {
      var k := MinId(m.Keys);
      var es := Listing(m);
      assert (m - {k}).Keys == m.Keys - {k};
      assert es[0] == Keyed(k, m[k]) && es[1..] == Listing(m - {k});
      assert !KeyTaken(acc, es[0]) by {
        forall j | j in acc && j != k
          ensures acc[j].key != m[k].key
        {
          assert (acc + m)[j] == acc[j] && (acc + m)[k] == m[k];
        }
      }
      MoveKey(acc, m, k);
      PutColumnsListing(acc[k := m[k]], m - {k});
    }
  }

  function ElemsOf(es: seq<TaskLabel>): set<TaskLabel> {
    set i | 0 <= i < |es| :: es[i]
  }

  /** `importAll`: clear every store, then put each listed record under its
      own id; a missing list leaves its store empty. */
  function ImportAll(d: Doc): (r: Result<Db, StoreError>)
    ensures r.Failure? <==> PutColumns(map[], d.columns.GetOr([])).None?
    ensures r.Success? ==> forall tl :: tl in r.value.taskLabels <==> tl in d.taskLabels.GetOr([])
    ensures r.Success? && d.tasks.None? ==> r.value.tasks == map[]
    ensures r.Success? && d.comments.None? ==> r.value.comments == map[]
    ensures r.Success? && d.labels.None? ==> r.value.labels == map[]
    ensures r.Success? && d.columns.None? ==> r.value.columns == map[]
  {
    match PutColumns(map[], d.columns.GetOr([]))
    case None => Failure(ConstraintError)
    case Some(cols) =>
      Success(Db(
        PutAll(map[], d.tasks.GetOr([])), PutAll(map[], d.comments.GetOr([])),
        PutAll(map[], d.labels.GetOr([])), ElemsOf(d.taskLabels.GetOr([])), cols))
  }

  lemma ListingRoundTrip<T>(m: map<Id, T>)
    ensures PutAll(map[], Listing(m)) == m
  {
    PutAllListing(map[], m);
    assert map[] + m == m;
  }

  lemma ColumnsRoundTrip(m: map<Id, Column>)
    requires UniqueColumnKeys(m)
    ensures PutColumns(map[], Listing(m)) == Some(m)
  {
    assert map[] + m == m;
    PutColumnsListing(map[], m);
  }

  /** Importing an export restores the store exactly. */
  lemma ImportExport(db: Db, now: string)
    requires UniqueColumnKeys(db.columns)
    ensures ImportAll(ExportAll(db, now)) == Success(db)
  {
    var d := ExportAll(db, now);
    ListingRoundTrip(db.tasks);
    ListingRoundTrip(db.comments);
    ListingRoundTrip(db.labels);
    ColumnsRoundTrip(db.columns);
    assert ElemsOf(d.taskLabels.value) == db.taskLabels;
  }

  // ---- Backup.import ----

  datatype RestoreError = Unparsable | BadFormat | Cancelled | Rejected(reason: StoreError)

  /** The store and the export bookkeeping the restore handler leaves. */
  datatype Session = Session(db: Db, flags: Flags)

  /** The columns put back when a backup has none. */
  const DefaultColumns: seq<Column> := [
    Column("バックログ", "backlog", 0), Column("進行中", "in_progress", 1),
    Column("レビュー中", "in_review", 2), Column("完了", "done", 3)]

  /** `addColumn` for each column in turn, under the ids the generator
      hands out. */
  function AddColumns(db: Db, cols: seq<Column>, ids: seq<Id>): Result<Db, StoreError>
    requires |ids| == |cols|
    requires forall i :: 0 <= i < |ids| ==> ids[i] !in db.columns
    requires forall i, j :: 0 <= i < j < |ids| ==> ids[i] != ids[j]
    decreases |cols|
  {
    if cols == [] then Success(db)
    else
      match AddColumn(db, cols[0].name, cols[0].key, cols[0].position, ids[0])
      case Failure(e) => Failure(e)
      case Success(db') => AddColumns(db', cols[1..], ids[1..])
  }

  /** On an empty columns store the four default columns always go in. */
  lemma AddDefaultColumns(db: Db, ids: seq<Id>)
    requires db.columns == map[] && |ids| == 4
    requires forall i, j :: 0 <= i < j < |ids| ==> ids[i] != ids[j]
    ensures AddColumns(db, DefaultColumns, ids) == Success(db.(columns := DefaultColumnMap(ids)))
  {
  }

  /** The default columns under the four ids they are added with. */
  function DefaultColumnMap(ids: seq<Id>): map<Id, Column>
    requires |ids| == 4
  {
    map[ids[0] := DefaultColumns[0], ids[1] := DefaultColumns[1],
        ids[2] := DefaultColumns[2], ids[3] := DefaultColumns[3]]
  }

  /** The restore handler: the file must parse, carry a truthy `version`
      and a `tasks` array; the user must confirm; the import replaces the
      store; the default columns come back when the backup had none; the
      restore then counts as an export. `doc` is `None` for an unparsable
      file; `colIds` are the ids the generator would give the defaults. */
  function RestoreBackup(s: Session, doc: Option<Doc>, confirmed: bool, now: string, colIds: seq<Id>): (r: Result<Session, RestoreError>)
    requires |colIds| == 4 && forall i, j :: 0 <= i < j < 4 ==> colIds[i] != colIds[j]
    ensures doc.None? ==> r == Failure(Unparsable)
    ensures doc.Some? ==> (r == Failure(BadFormat) <==> !Truthy(doc.value.version) || doc.value.tasks.None?)
    ensures doc.Some? && Truthy(doc.value.version) && doc.value.tasks.Some? ==>
      && (r == Failure(Cancelled) <==> !confirmed)
      && (r.Failure? && r.error.Rejected? <==> confirmed && ImportAll(doc.value).Failure?)
    ensures r.Success? ==> confirmed && r.value.flags == Exported(s.flags, now)
    ensures r.Success? ==> r.value.db.columns != map[]
    ensures r.Success? ==>
      var imported := ImportAll(doc.value);
      && imported.Success?
      && r.value.db.tasks == imported.value.tasks
      && r.value.db.comments == imported.value.comments
      && r.value.db.labels == imported.value.labels
      && r.value.db.taskLabels == imported.value.taskLabels
      && (imported.value.columns != map[] ==> r.value.db.columns == imported.value.columns)
      && (imported.value.columns == map[] ==> r.value.db.columns == DefaultColumnMap(colIds))
  {
    match doc
    case None => Failure(Unparsable)
    case Some(d) =>
      if !Truthy(d.version) || d.tasks.None? then Failure(BadFormat)
      else if !confirmed then Failure(Cancelled)
      else
        match ImportAll(d)
        case Failure(e) => Failure(Rejected(e))
        case Success(db) =>
          if db.columns == map[] then
            AddDefaultColumns(db, colIds);
            match AddColumns(db, DefaultColumns, colIds)
            case Failure(e) => Failure(Rejected(e))
            case Success(db') => Success(Session(db', Exported(s.flags, now)))
          else Success(Session(db, Exported(s.flags, now)))
  }

  /** Restoring one's own export (confirmed) brings the store back as it
      was and clears the dirty flag, provided the store had a column. */
  lemma RestoreOwnExport(s: Session, at: string, now: string, colIds: seq<Id>)
    requires |colIds| == 4 && forall i, j :: 0 <= i < j < 4 ==> colIds[i] != colIds[j]
    requires UniqueColumnKeys(s.db.columns) && s.db.columns != map[]
    ensures RestoreBackup(s, Some(ExportAll(s.db, at)), true, now, colIds) == Success(Session(s.db, Exported(s.flags, now)))
    ensures !RestoreBackup(s, Some(ExportAll(s.db, at)), true, now, colIds).value.flags.isDirty
  {
    ImportExport(s.db, at);
  }

  /** A backup without columns comes back with the four default columns. */
  lemma RestoreWithoutColumns(s: Session, d: Doc, now: string, colIds: seq<Id>)
    requires |colIds| == 4 && forall i, j :: 0 <= i < j < 4 ==> colIds[i] != colIds[j]
    requires Truthy(d.version) && d.tasks.Some?
    requires d.columns.None? || d.columns == Some([])
    ensures var r := RestoreBackup(s, Some(d), true, now, colIds);
      r.Success? && r.value.db.columns.Values == set c | c in DefaultColumns
  {
    var db := ImportAll(d).value;
    AddDefaultColumns(db, colIds);
    var cols := DefaultColumnMap(colIds);
    assert cols.Values == set c | c in DefaultColumns by {
      assert cols[colIds[0]] == DefaultColumns[0] && cols[colIds[1]] == DefaultColumns[1];
      assert cols[colIds[2]] == DefaultColumns[2] && cols[colIds[3]] == DefaultColumns[3];
    }
  }

  /** Any truthy `version` passes the check, a string "2" included; a zero,
      an empty string, `false` or `null` is refused. */
  lemma VersionTruthiness()
    ensures Truthy(Some(JString("2"))) && Truthy(Some(JNumber(FormatVersion))) && Truthy(Some(JObject))
    ensures !Truthy(None) && !Truthy(Some(JNull)) && !Truthy(Some(JNumber(0.0)))
    ensures !Truthy(Some(JString(""))) && !Truthy(Some(JBool(false)))
  {
  }
}
