/** `Migration.run` in js/todo.js: the one-time move of the old
    local-storage board (an array of groups, each with a `task` array) into
    the store. Group g goes to the g-th default column (the fourth and later
    groups all to "done"), task t of the group to position g * 1000 + t * 10,
    and a task's notes become its description, one line per note. */
module Migration {
  import opened Wrappers
  import opened Text
  import opened KanbanStore

  /** A note of an old task: plain text, or a link with its URL. */
  datatype Note = Note(isLink: bool, val: string, url: string)

  /** An old task; `notes` is `None` when it is missing or not an array. */
  datatype LegacyTask = LegacyTask(name: Option<string>, date: Option<string>, notes: Option<seq<Note>>)

  /** An old group; `tasks` is `None` when `group.task` is not an array. */
  datatype LegacyGroup = LegacyGroup(tasks: Option<seq<LegacyTask>>)

  /** What `JSON.parse` made of the stored text. */
  datatype LegacyDoc = Unparsable | NotArray | Groups(groups: seq<LegacyGroup>)

  const ColumnMap: seq<string> := ["backlog", "in_progress", "in_review", "done"]

  /** `columnMap[Math.min(gIndex, columnMap.length - 1)]`. */
  function ColumnOf(g: nat): (c: string)
    ensures g < 4 ==> c == ColumnMap[g]
    ensures g >= 3 ==> c == "done"
  {
    ColumnMap[if g < |ColumnMap| - 1 then g else |ColumnMap| - 1]
  }

  function PositionOf(g: nat, t: nat): real {
    (g * 1000 + t * 10) as real
  }

  /** A note as one line: a link is its text and URL, trimmed. */
  function NoteText(n: Note): string {
    if n.isLink then Trim(n.val + " " + n.url) else n.val
  }

  function NoteTexts(notes: seq<Note>): (ws: seq<string>)
    ensures |ws| == |notes| && forall i :: 0 <= i < |notes| ==> ws[i] == NoteText(notes[i])
  {
    seq(|notes|, i requires 0 <= i < |notes| => NoteText(notes[i]))
  }

  /** The notes in their stored order, joined by newlines; "" when there
      are none. */
  function Description(notes: Option<seq<Note>>): string {
    if notes.Some? && |notes.value| > 0 then Join(NoteTexts(notes.value), '\n') else ""
  }

  /** One old task at group g, index t. */
  datatype Entry = Entry(g: nat, t: nat, task: LegacyTask)

  /** `Array.isArray(group.task) ? group.task : []`. */
  function TasksOf(group: LegacyGroup): seq<LegacyTask> {
    group.tasks.GetOr([])
  }

  /** The old tasks in the order the loops visit them. */
  function Entries(groups: seq<LegacyGroup>): (es: seq<Entry>)
    ensures forall k :: 0 <= k < |es| ==>
      es[k].g < |groups| && es[k].t < |TasksOf(groups[es[k].g])| && es[k].task == TasksOf(groups[es[k].g])[es[k].t]
    decreases |groups|
  {
    if groups == [] then []
    else
      var g := |groups| - 1;
      var ts := TasksOf(groups[g]);
      var prefix := Entries(groups[..g]);
      assert forall k :: 0 <= k < |prefix| ==> groups[..g][prefix[k].g] == groups[prefix[k].g];
      prefix + seq(|ts|, t requires 0 <= t < |ts| => Entry(g, t, ts[t]))
  }

  /** The `addTask` argument for one old task. */
  function InputOf(e: Entry): TaskInput {
    TaskInput(
      Some(OrElse(e.task.name, Untitled)), Some(Description(e.task.notes)), Some(ColumnOf(e.g)),
      Some(PositionOf(e.g, e.t)), Some(OrElse(e.task.date, "")))
  }

  function Inputs(es: seq<Entry>): (ins: seq<TaskInput>)
    ensures |ins| == |es| && forall k :: 0 <= k < |es| ==> ins[k] == InputOf(es[k])
  {
    seq(|es|, k requires 0 <= k < |es| => InputOf(es[k]))
  }

  /** Ids fit for a batch of new tasks: distinct and unused. */
  predicate FreshIds(db: Db, ids: seq<Id>) {
    && (forall k :: 0 <= k < |ids| ==> ids[k] !in db.tasks)
    && (forall i, j :: 0 <= i < j < |ids| ==> ids[i] != ids[j])
  }

  /** `addTask` for each input in turn. */
  function AddTasks(db: Db, ins: seq<TaskInput>, now: string, ids: seq<Id>): Db
    requires |ids| == |ins| && FreshIds(db, ids)
    decreases |ins|
  {
    if ins == [] then db
    else
      var db' := AddTask(db, ins[0], now, ids[0]);
      assert FreshIds(db', ids[1..]);
      AddTasks(db', ins[1..], now, ids[1..])
  }

  /** The new ids join the old ones; the old records and the other tables
      are left as they were. */
  lemma {:induction false} AddTasksKeeps(db: Db, ins: seq<TaskInput>, now: string, ids: seq<Id>)
    requires |ids| == |ins| && FreshIds(db, ids)
    ensures var r := AddTasks(db, ins, now, ids);
      && (forall x :: x in r.tasks <==> x in db.tasks || x in ids)
      && (forall x :: x in db.tasks ==> r.tasks[x] == db.tasks[x])
      && r.comments == db.comments && r.labels == db.labels
      && r.taskLabels == db.taskLabels && r.columns == db.columns
    decreases |ins|
  {
    if ins != [] {
      var db' := AddTask(db, ins[0], now, ids[0]);
      assert FreshIds(db', ids[1..]);
      AddTasksKeeps(db', ins[1..], now, ids[1..]);
      assert ids == [ids[0]] + ids[1..];
    }
  }

  /** Each input is stored under its own id. */
  lemma {:induction false} AddTasksStores(db: Db, ins: seq<TaskInput>, now: string, ids: seq<Id>, k: nat)
    requires |ids| == |ins| && FreshIds(db, ids) && k < |ids|
    ensures var r := AddTasks(db, ins, now, ids);
      ids[k] in r.tasks && r.tasks[ids[k]] == NewTask(ins[k], now)
    decreases |ins|
  {
    var db' := AddTask(db, ins[0], now, ids[0]);
    assert FreshIds(db', ids[1..]);
    if k == 0 {
      AddTasksKeeps(db', ins[1..], now, ids[1..]);
    } else {
      AddTasksStores(db', ins[1..], now, ids[1..], k - 1);
    }
  }

  /** The result of a run: the store and whether the old key was removed. */
  datatype Outcome = Outcome(db: Db, legacyRemoved: bool)

  /** `Migration.run`: nothing happens when the old key is missing or
      empty, does not parse, or is not an array; otherwise every old task is
      added and the old key removed. */
  function Run(db: Db, legacy: Option<string>, doc: LegacyDoc, now: string, ids: seq<Id>): Outcome
    requires doc.Groups? ==> |ids| == |Entries(doc.groups)| && FreshIds(db, ids)
  {
    if legacy.None? || legacy.value == "" then Outcome(db, false)
    else match doc
      case Unparsable => Outcome(db, false)
      case NotArray => Outcome(db, false)
      case Groups(groups) => Outcome(AddTasks(db, Inputs(Entries(groups)), now, ids), true)
  }

  /** Old task number k becomes a task in the column of its group, at its
      position, titled by its name or "(無題)", with its notes as the
      description and its date or "" as the due date. */
  lemma RunMapsEachTask(db: Db, legacy: string, groups: seq<LegacyGroup>, now: string, ids: seq<Id>, k: nat)
    requires legacy != "" && |ids| == |Entries(groups)| && FreshIds(db, ids) && k < |ids|
    ensures var r := Run(db, Some(legacy), Groups(groups), now, ids);
      var e := Entries(groups)[k];
      && r.legacyRemoved
      && ids[k] in r.db.tasks
      && r.db.tasks[ids[k]].column == ColumnOf(e.g)
      && r.db.tasks[ids[k]].position == PositionOf(e.g, e.t)
      && r.db.tasks[ids[k]].title == (if e.task.name.Some? && e.task.name.value != "" then e.task.name.value else Untitled)
      && r.db.tasks[ids[k]].description == Description(e.task.notes)
      && r.db.tasks[ids[k]].dueDate == e.task.date.GetOr("")
      && r.db.tasks[ids[k]].createdAt == now
  {
    var ins := Inputs(Entries(groups));
    AddTasksStores(db, ins, now, ids, k);
    var e := Entries(groups)[k];
    assert ins[k] == InputOf(e);
  }

  /** The runs that leave everything as it was. */
  lemma RunNoOp(db: Db, legacy: Option<string>, doc: LegacyDoc, now: string, ids: seq<Id>)
    requires doc.Groups? ==> |ids| == |Entries(doc.groups)| && FreshIds(db, ids)
    requires legacy.None? || legacy == Some("") || !doc.Groups?
    ensures Run(db, legacy, doc, now, ids) == Outcome(db, false)
  {
  }

  /** Within a group positions strictly increase with the task index, and
      a group's first hundred tasks come before the next group's tasks. */
  lemma PositionsOrdered(g: nat, t1: nat, t2: nat)
    ensures t1 < t2 ==> PositionOf(g, t1) < PositionOf(g, t2)
    ensures t1 < 100 ==> PositionOf(g, t1) < PositionOf(g + 1, t2)
  {
  }

  /** The hundred-and-first task of a group lands on the position of the
      next group's first task; from the fourth group on both are in "done". */
  lemma PositionsCollide()
    ensures PositionOf(3, 100) == PositionOf(4, 0) && ColumnOf(3) == ColumnOf(4)
  {
  }

  /** The description splits back into the note lines, in their stored
      order, when no note has a newline of its own. */
  lemma DescriptionLines(notes: seq<Note>)
    requires |notes| > 0
    requires forall i :: 0 <= i < |notes| ==> '\n' !in NoteText(notes[i])
    ensures Split(Description(Some(notes)), '\n') == NoteTexts(notes)
  {
    SplitJoin(NoteTexts(notes), '\n');
  }
}
