/** The `KanbanDB` object store of js/todo.js as one immutable value: four
    stores keyed by an auto-increment id and the `task_labels` store keyed by
    the (task id, label id) pair. Each store method is one atomic transition;
    clock readings and the ids the key generator hands out are parameters. */
module KanbanStore {
  import opened Wrappers

  type Id = int

  datatype Task = Task(
    title: string, description: string, column: string, position: real,
    dueDate: string, createdAt: string, updatedAt: string)

  datatype Comment = Comment(taskId: Id, body: string, createdAt: string)

  datatype Label = Label(name: string, color: string)

  datatype TaskLabel = TaskLabel(taskId: Id, labelId: Id)

  datatype Column = Column(name: string, key: string, position: int)

  datatype Db = Db(
    tasks: map<Id, Task>, comments: map<Id, Comment>, labels: map<Id, Label>,
    taskLabels: set<TaskLabel>, columns: map<Id, Column>)

  const EmptyDb: Db := Db(map[], map[], map[], {}, map[])

  /** The store refuses the write: the unique `key` index of `columns`. */
  datatype StoreError = ConstraintError

  const Untitled: string := "(無題)"
  const DefaultColumn: string := "backlog"

  /** Comments and label links point at records that exist. The store does
      not enforce this; the cascading deletes keep it. */
  predicate Integrity(db: Db) {
    && (forall c :: c in db.comments ==> db.comments[c].taskId in db.tasks)
    && (forall tl :: tl in db.taskLabels ==> tl.taskId in db.tasks && tl.labelId in db.labels)
  }

  /** No two columns share a `key`: the unique index on `columns.key`. */
  predicate UniqueColumnKeys(cols: map<Id, Column>) {
    forall i, j :: i in cols && j in cols && cols[i].key == cols[j].key ==> i == j
  }

  /** `a || b` on strings: the empty string is falsy, as is a missing field. */
  function OrElse(v: Option<string>, dflt: string): (r: string)
    ensures r == dflt || (v.Some? && r == v.value)
    ensures r == dflt <==> v.None? || v.value == "" || v.value == dflt
  {
    if v.Some? && v.value != "" then v.value else dflt
  }

  // ---- Tasks ----

  /** The argument of `addTask`: every field may be missing. */
  datatype TaskInput = TaskInput(
    title: Option<string>, description: Option<string>, column: Option<string>,
    position: Option<real>, dueDate: Option<string>)

  /** The record `addTask` stores: `||` defaults for the strings, `??` for
      the position, both timestamps set to the same clock reading. */
  function NewTask(data: TaskInput, now: string): (t: Task)
    ensures t.title != "" && t.column != ""
    ensures data.title.Some? && data.title.value != "" ==> t.title == data.title.value
    ensures data.title.None? || data.title.value == "" ==> t.title == Untitled
    ensures data.column.Some? && data.column.value != "" ==> t.column == data.column.value
    ensures data.column.None? || data.column.value == "" ==> t.column == DefaultColumn
    ensures t.description == data.description.GetOr("") && t.dueDate == data.dueDate.GetOr("")
    ensures data.position.Some? ==> t.position == data.position.value
    ensures data.position.None? ==> t.position == 0.0
    ensures t.createdAt == now && t.updatedAt == now
  {
    Task(
      OrElse(data.title, Untitled), OrElse(data.description, ""), OrElse(data.column, DefaultColumn),
      data.position.GetOr(0.0), OrElse(data.dueDate, ""), now, now)
  }

  /** `addTask`: stores the new record under the id the generator hands out. */
  function AddTask(db: Db, data: TaskInput, now: string, id: Id): (r: Db)
    requires id !in db.tasks
    ensures r.tasks.Keys == db.tasks.Keys + {id}
    ensures id in r.tasks && r.tasks[id] == NewTask(data, now)
    ensures forall k :: k in db.tasks ==> r.tasks[k] == db.tasks[k]
    ensures r.comments == db.comments && r.labels == db.labels
    ensures r.taskLabels == db.taskLabels && r.columns == db.columns
  {
    db.(tasks := db.tasks[id := NewTask(data, now)])
  }

  /** The fields an `updateTask` call may carry; a missing field is `None`. */
  datatype TaskPatch = TaskPatch(
    title: Option<string>, description: Option<string>, column: Option<string>,
    position: Option<real>, dueDate: Option<string>)

  const NoChange: TaskPatch := TaskPatch(None, None, None, None, None)

  /** `{ ...t, ...data, updated_at: now }`: a field present in the patch
      overrides the stored one, even when it is empty. */
  function Overlay(t: Task, p: TaskPatch, now: string): Task {
    Task(
      p.title.GetOr(t.title), p.description.GetOr(t.description), p.column.GetOr(t.column),
      p.position.GetOr(t.position), p.dueDate.GetOr(t.dueDate), t.createdAt, now)
  }

  /** Two patches applied one after the other, as one: the later field wins. */
  function Then(p: TaskPatch, q: TaskPatch): TaskPatch {
    TaskPatch(
      if q.title.Some? then q.title else p.title,
      if q.description.Some? then q.description else p.description,
      if q.column.Some? then q.column else p.column,
      if q.position.Some? then q.position else p.position,
      if q.dueDate.Some? then q.dueDate else p.dueDate)
  }

  /** `updateTask`: reads the stored record, overlays the patch and puts it
      back under the same id. */
  function UpdateTask(db: Db, id: Id, p: TaskPatch, now: string): (r: Db)
    requires id in db.tasks
    ensures r.tasks.Keys == db.tasks.Keys
    ensures forall k :: k in db.tasks && k != id ==> r.tasks[k] == db.tasks[k]
    ensures r.tasks[id].updatedAt == now && r.tasks[id].createdAt == db.tasks[id].createdAt
    ensures p.title.None? ==> r.tasks[id].title == db.tasks[id].title
    ensures p.title.Some? ==> r.tasks[id].title == p.title.value
    ensures p.column.None? ==> r.tasks[id].column == db.tasks[id].column
    ensures p.column.Some? ==> r.tasks[id].column == p.column.value
    ensures p.position.None? ==> r.tasks[id].position == db.tasks[id].position
    ensures p.position.Some? ==> r.tasks[id].position == p.position.value
    ensures p.description.None? ==> r.tasks[id].description == db.tasks[id].description
    ensures p.description.Some? ==> r.tasks[id].description == p.description.value
    ensures p.dueDate.None? ==> r.tasks[id].dueDate == db.tasks[id].dueDate
    ensures p.dueDate.Some? ==> r.tasks[id].dueDate == p.dueDate.value
    ensures r.comments == db.comments && r.labels == db.labels
    ensures r.taskLabels == db.taskLabels && r.columns == db.columns
  {
    db.(tasks := db.tasks[id := Overlay(db.tasks[id], p, now)])
  }

  /** Updating twice is updating once with the merged patch and the later
      clock reading. */
  lemma UpdateTaskThen(db: Db, id: Id, p: TaskPatch, q: TaskPatch, t1: string, t2: string)
    requires id in db.tasks
    ensures UpdateTask(UpdateTask(db, id, p, t1), id, q, t2) == UpdateTask(db, id, Then(p, q), t2)
  {
  }

  /** An empty patch only touches `updated_at`. */
  lemma UpdateTaskNoChange(db: Db, id: Id, now: string)
    requires id in db.tasks
    ensures UpdateTask(db, id, NoChange, now) == db.(tasks := db.tasks[id := db.tasks[id].(updatedAt := now)])
  {
  }

  /** `deleteTask`: removes the task and, in the same transaction, the
      comments and label links whose task id is `id`. */
  function DeleteTask(db: Db, id: Id): (r: Db)
    ensures r.tasks == db.tasks - {id}
    ensures forall c :: c in r.comments <==> c in db.comments && db.comments[c].taskId != id
    ensures forall c :: c in r.comments ==> r.comments[c] == db.comments[c]
    ensures forall tl :: tl in r.taskLabels <==> tl in db.taskLabels && tl.taskId != id
    ensures r.labels == db.labels && r.columns == db.columns
  {
    db.(tasks := db.tasks - {id},
        comments := map c | c in db.comments && db.comments[c].taskId != id :: db.comments[c],
        taskLabels := set tl | tl in db.taskLabels && tl.taskId != id)
  }

  lemma DeleteTaskKeepsIntegrity(db: Db, id: Id)
    requires Integrity(db)
    ensures Integrity(DeleteTask(db, id))
    ensures var r := DeleteTask(db, id);
      (forall c :: c in r.comments ==> r.comments[c].taskId != id) && (forall tl :: tl in r.taskLabels ==> tl.taskId != id)
  {
  }

  /** Adding a task and deleting it again restores the store: a fresh task
      has no comments or links for the cascade to remove. */
  lemma DeleteAddTask(db: Db, data: TaskInput, now: string, id: Id)
    requires Integrity(db) && id !in db.tasks
    ensures DeleteTask(AddTask(db, data, now, id), id) == db
  {
    var r := DeleteTask(AddTask(db, data, now, id), id);
    assert forall c :: c in db.comments ==> db.comments[c].taskId != id;
    assert r.comments.Keys == db.comments.Keys;
    assert r.comments == db.comments;
    assert r.taskLabels == db.taskLabels;
  }

  // ---- Comments ----

  /** `addComment`; the task id is not checked against the tasks store. */
  function AddComment(db: Db, taskId: Id, body: string, now: string, id: Id): (r: Db)
    requires id !in db.comments
    ensures r.comments.Keys == db.comments.Keys + {id}
    ensures r.comments[id].taskId == taskId && r.comments[id].body == body
    ensures forall c :: c in db.comments ==> r.comments[c] == db.comments[c]
    ensures r.tasks == db.tasks && r.labels == db.labels
    ensures r.taskLabels == db.taskLabels && r.columns == db.columns
  {
    db.(comments := db.comments[id := Comment(taskId, body, now)])
  }

  function DeleteComment(db: Db, id: Id): (r: Db)
    ensures r.comments == db.comments - {id}
    ensures r.tasks == db.tasks && r.labels == db.labels
    ensures r.taskLabels == db.taskLabels && r.columns == db.columns
  {
    db.(comments := db.comments - {id})
  }

  /** A comment on an existing task keeps the store consistent, and deleting
      it undoes the addition. */
  lemma CommentRoundTrip(db: Db, taskId: Id, body: string, now: string, id: Id)
    requires Integrity(db) && id !in db.comments && taskId in db.tasks
    ensures Integrity(AddComment(db, taskId, body, now, id))
    ensures DeleteComment(AddComment(db, taskId, body, now, id), id) == db
  {
  }

  // ---- Labels ----

  function AddLabel(db: Db, name: string, color: string, id: Id): (r: Db)
    requires id !in db.labels
    ensures r.labels.Keys == db.labels.Keys + {id} && r.labels[id] == Label(name, color)
    ensures forall k :: k in db.labels ==> r.labels[k] == db.labels[k]
    ensures r.tasks == db.tasks && r.comments == db.comments
    ensures r.taskLabels == db.taskLabels && r.columns == db.columns
  {
    db.(labels := db.labels[id := Label(name, color)])
  }

  /** `deleteLabel`: removes the label and every link that names it. */
  function DeleteLabel(db: Db, id: Id): (r: Db)
    ensures r.labels == db.labels - {id}
    ensures forall tl :: tl in r.taskLabels <==> tl in db.taskLabels && tl.labelId != id
    ensures r.tasks == db.tasks && r.comments == db.comments && r.columns == db.columns
  {
    db.(labels := db.labels - {id}, taskLabels := set tl | tl in db.taskLabels && tl.labelId != id)
  }

  lemma DeleteLabelKeepsIntegrity(db: Db, id: Id)
    requires Integrity(db)
    ensures Integrity(DeleteLabel(db, id))
  {
  }

  lemma DeleteAddLabel(db: Db, name: string, color: string, id: Id)
    requires Integrity(db) && id !in db.labels
    ensures DeleteLabel(AddLabel(db, name, color, id), id) == db
  {
    assert DeleteLabel(AddLabel(db, name, color, id), id).taskLabels == db.taskLabels;
  }

  // ---- Task labels ----

  /** `addTaskLabel` uses `put` on the pair key, so a repeated link is
      stored once. */
  function AddTaskLabel(db: Db, taskId: Id, labelId: Id): (r: Db)
    ensures r.taskLabels == db.taskLabels + {TaskLabel(taskId, labelId)}
    ensures r.tasks == db.tasks && r.comments == db.comments
    ensures r.labels == db.labels && r.columns == db.columns
  {
    db.(taskLabels := db.taskLabels + {TaskLabel(taskId, labelId)})
  }

  function RemoveTaskLabel(db: Db, taskId: Id, labelId: Id): (r: Db)
    ensures r.taskLabels == db.taskLabels - {TaskLabel(taskId, labelId)}
    ensures r.tasks == db.tasks && r.comments == db.comments
    ensures r.labels == db.labels && r.columns == db.columns
  {
    db.(taskLabels := db.taskLabels - {TaskLabel(taskId, labelId)})
  }

  /** Linking is idempotent, and unlinking undoes a new link. */
  lemma TaskLabelLaws(db: Db, taskId: Id, labelId: Id)
    ensures AddTaskLabel(AddTaskLabel(db, taskId, labelId), taskId, labelId) == AddTaskLabel(db, taskId, labelId)
    ensures TaskLabel(taskId, labelId) !in db.taskLabels ==>
      RemoveTaskLabel(AddTaskLabel(db, taskId, labelId), taskId, labelId) == db
    ensures TaskLabel(taskId, labelId) in db.taskLabels ==> AddTaskLabel(db, taskId, labelId) == db
  {
  }

  // ---- Columns ----

  /** `addColumn`: the unique index on `key` refuses a key already in use. */
  function AddColumn(db: Db, name: string, key: string, position: int, id: Id): (r: Result<Db, StoreError>)
    requires id !in db.columns
    ensures r.Failure? <==> exists k :: k in db.columns && db.columns[k].key == key
    ensures r.Success? ==> r.value == db.(columns := db.columns[id := Column(name, key, position)])
  {
    if exists k :: k in db.columns && db.columns[k].key == key then Failure(ConstraintError)
    else Success(db.(columns := db.columns[id := Column(name, key, position)]))
  }

  function DeleteColumn(db: Db, id: Id): (r: Db)
    ensures r.columns == db.columns - {id}
    ensures r.tasks == db.tasks && r.comments == db.comments
    ensures r.labels == db.labels && r.taskLabels == db.taskLabels
  {
    db.(columns := db.columns - {id})
  }

  /** Both column operations keep column keys unique. */
  lemma ColumnsKeepUniqueKeys(db: Db, name: string, key: string, position: int, id: Id, other: Id)
    requires UniqueColumnKeys(db.columns) && id !in db.columns
    ensures AddColumn(db, name, key, position, id).Success? ==>
      UniqueColumnKeys(AddColumn(db, name, key, position, id).value.columns)
    ensures UniqueColumnKeys(DeleteColumn(db, other).columns)
  {
  }

  // ---- Renumbering ----

  /** A record together with its key, as `getAll` and the backup list it. */
  datatype Keyed<T> = Keyed(id: Id, rec: T)

  predicate DistinctIds<T>(es: seq<Keyed<T>>) {
    forall i, j :: 0 <= i < j < |es| ==> es[i].id != es[j].id
  }

  /** `renumberPositions`: each cached record of the list is put back with
      position (i + 1) * 1000. */
  function RenumberPositions(db: Db, ts: seq<Keyed<Task>>): (r: Db)
    ensures forall k :: k in db.tasks ==> k in r.tasks
    ensures forall i :: 0 <= i < |ts| ==> ts[i].id in r.tasks
    ensures forall k :: k in r.tasks ==> k in db.tasks || exists i :: 0 <= i < |ts| && ts[i].id == k
    ensures r.comments == db.comments && r.labels == db.labels
    ensures r.taskLabels == db.taskLabels && r.columns == db.columns
    decreases |ts|
  {
    if ts == [] then db
    else
      var last := |ts| - 1;
      var r := RenumberPositions(db, ts[..last]);
      r.(tasks := r.tasks[ts[last].id := ts[last].rec.(position := (last + 1) as real * 1000.0)])
  }

  /** With distinct ids, the i-th record of the list ends up at position
      (i + 1) * 1000 and otherwise as it was in the list; no other task
      changes. */
  lemma RenumberPositionsEffect(db: Db, ts: seq<Keyed<Task>>)
    requires DistinctIds(ts)
    ensures forall i :: 0 <= i < |ts| ==>
      RenumberPositions(db, ts).tasks[ts[i].id] == ts[i].rec.(position := (i + 1) as real * 1000.0)
    ensures forall k :: k in db.tasks && (forall i :: 0 <= i < |ts| ==> ts[i].id != k) ==>
      RenumberPositions(db, ts).tasks[k] == db.tasks[k]
  {
    forall i | 0 <= i < |ts|
      ensures RenumberPositions(db, ts).tasks[ts[i].id] == ts[i].rec.(position := (i + 1) as real * 1000.0)
    {
      RenumberStores(db, ts, i);
    }
    forall k | k in db.tasks && (forall i :: 0 <= i < |ts| ==> ts[i].id != k)
      ensures RenumberPositions(db, ts).tasks[k] == db.tasks[k]
    {
      RenumberUntouched(db, ts, k);
    }
  }

  lemma DistinctFront<T>(ts: seq<Keyed<T>>)
    requires |ts| > 0 && DistinctIds(ts)
    ensures DistinctIds(ts[..|ts| - 1])
    ensures forall i :: 0 <= i < |ts| - 1 ==> ts[..|ts| - 1][i] == ts[i] && ts[i].id != ts[|ts| - 1].id
  {
  }

  lemma {:induction false} RenumberStores(db: Db, ts: seq<Keyed<Task>>, i: nat)
    requires DistinctIds(ts) && i < |ts|
    ensures RenumberPositions(db, ts).tasks[ts[i].id] == ts[i].rec.(position := (i + 1) as real * 1000.0)
    decreases |ts|
  {
    if i < |ts| - 1 {
      DistinctFront(ts);
      RenumberStores(db, ts[..|ts| - 1], i);
    }
  }

  lemma {:induction false} RenumberUntouched(db: Db, ts: seq<Keyed<Task>>, k: Id)
    requires k in db.tasks && forall i :: 0 <= i < |ts| ==> ts[i].id != k
    ensures RenumberPositions(db, ts).tasks[k] == db.tasks[k]
    decreases |ts|
  {
    if ts != [] {
      var front := ts[..|ts| - 1];
      assert forall i :: 0 <= i < |front| ==> front[i] == ts[i];
      RenumberUntouched(db, front, k);
    }
  }

  /** When the list is the column as stored, renumbering changes positions
      only, and they rise along the list. */
  lemma RenumberChangesPositionsOnly(db: Db, ts: seq<Keyed<Task>>)
    requires DistinctIds(ts)
    requires forall i :: 0 <= i < |ts| ==> ts[i].id in db.tasks && db.tasks[ts[i].id] == ts[i].rec
    ensures var r := RenumberPositions(db, ts);
      && r.tasks.Keys == db.tasks.Keys
      && (forall k :: k in db.tasks ==> r.tasks[k] == db.tasks[k].(position := r.tasks[k].position))
      && (forall i, j :: 0 <= i < j < |ts| ==> r.tasks[ts[i].id].position < r.tasks[ts[j].id].position)
  {
    RenumberPositionsEffect(db, ts);
  }
}
