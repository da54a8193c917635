/** The read-only views of a column in js/todo.js: `sortTasksArray`, which
    orders a copy of the cards by one text field, and the visibility test of
    `applyFilter` (title text and selected labels). */
module BoardView {
  import opened Text
  import opened LexOrder
  import opened KanbanStore
  import opened Sorting

  /** The text fields the sort menu can name; `NoSort` is the empty field. */
  datatype SortField = NoSort | Title | Description | ColumnKey | DueDate | CreatedAt | UpdatedAt

  /** `dir` is "desc" for descending; anything else sorts ascending. */
  datatype SortSpec = SortSpec(field: SortField, dir: string)

  /** `a[sort.field] || ''` for a text field. */
  function FieldOf(t: Task, f: SortField): string {
    match f
    case NoSort => ""
    case Title => t.title
    case Description => t.description
    case ColumnKey => t.column
    case DueDate => t.dueDate
    case CreatedAt => t.createdAt
    case UpdatedAt => t.updatedAt
  }

  /** Exactly one of a < b, a == b, b < a holds. */
  lemma Trichotomy(a: string, b: string)
    ensures a == b || Less(a, b) || Less(b, a)
    ensures !(Less(a, b) && Less(b, a))
    ensures !Less(a, a)
  {
    if a != b { LessTotal(a, b); }
    LessIrreflexive(a);
    if Less(a, b) { LessAsymmetric(a, b); }
  }

  /** `av < bv ? -1 : av > bv ? 1 : 0`. */
  function Compare(a: string, b: string): (c: int)
    ensures c == 0 <==> a == b
    ensures c < 0 <==> Less(a, b)
    ensures c > 0 <==> Less(b, a)
  {
    Trichotomy(a, b);
    if Less(a, b) then -1 else if Less(b, a) then 1 else 0
  }

  /** The comparator of `sortTasksArray`. Cards without a due date go last
      when sorting by due date, whichever the direction: that rule is applied
      before the direction is. */
  function Comparator(s: SortSpec, a: Task, b: Task): int {
    var av := FieldOf(a, s.field);
    var bv := FieldOf(b, s.field);
    if s.field == DueDate && av == "" && bv == "" then 0
    else if s.field == DueDate && av == "" then 1
    else if s.field == DueDate && bv == "" then -1
    else if s.dir == "desc" then -Compare(av, bv)
    else Compare(av, bv)
  }

  /** `a` may stay before `b`. */
  predicate Precedes(s: SortSpec, a: Keyed<Task>, b: Keyed<Task>) {
    Comparator(s, a.rec, b.rec) <= 0
  }

  /** `sortTasksArray`: no field, no change; otherwise a sorted copy. */
  function SortTasks(ts: seq<Keyed<Task>>, s: SortSpec): seq<Keyed<Task>> {
    if s.field == NoSort then ts
    else SortBy(ts, (a, b) => Precedes(s, a, b))
  }

  lemma {:induction false} ComparatorIsTotal(s: SortSpec)
    ensures TotalPreorder((a, b) => Precedes(s, a, b))
  {
    forall a: Keyed<Task>, b: Keyed<Task>
      ensures Precedes(s, a, b) || Precedes(s, b, a)
    {
      var av := FieldOf(a.rec, s.field);
      var bv := FieldOf(b.rec, s.field);
      if av != bv { LessTotal(av, bv); }
    }
    forall a: Keyed<Task>, b: Keyed<Task>, c: Keyed<Task> | Precedes(s, a, b) && Precedes(s, b, c)
      ensures Precedes(s, a, c)
    {
      var av := FieldOf(a.rec, s.field);
      var bv := FieldOf(b.rec, s.field);
      var cv := FieldOf(c.rec, s.field);
      if Less(av, bv) && Less(bv, cv) { LessTransitive(av, bv, cv); }
      if Less(bv, av) && Less(cv, bv) { LessTransitive(cv, bv, av); }
    }
  }

  /** With a field set, the result holds the same cards, ordered by it. */
  lemma SortTasksOrders(ts: seq<Keyed<Task>>, s: SortSpec)
    ensures multiset(SortTasks(ts, s)) == multiset(ts)
    ensures s.field == NoSort ==> SortTasks(ts, s) == ts
    ensures s.field != NoSort ==> SortedBy(SortTasks(ts, s), (a, b) => Precedes(s, a, b))
  {
    if s.field != NoSort {
      ComparatorIsTotal(s);
      SortBySorted(ts, (a, b) => Precedes(s, a, b));
    }
  }

  /** What "ordered" means for two cards i < j of a sorted result: their
      field values ascend (or descend for "desc"); by due date, undated
      cards come after dated ones in both directions. */
  lemma SortedPairMeaning(s: SortSpec, x: Task, y: Task)
    requires s.field != NoSort && Comparator(s, x, y) <= 0
    ensures var xv := FieldOf(x, s.field); var yv := FieldOf(y, s.field);
      && (s.field == DueDate && xv == "" ==> yv == "")
      && ((s.field != DueDate || (xv != "" && yv != "")) && s.dir != "desc" ==> !Less(yv, xv))
      && ((s.field != DueDate || (xv != "" && yv != "")) && s.dir == "desc" ==> !Less(xv, yv))
  {
  }

  /** Sorting by due date puts every undated card after every dated one,
      ascending or descending. */
  lemma UndatedLast(ts: seq<Keyed<Task>>, dir: string)
    ensures var r := SortTasks(ts, SortSpec(DueDate, dir));
      forall i, j :: 0 <= i < j < |r| && r[i].rec.dueDate == "" ==> r[j].rec.dueDate == ""
  {
    var s := SortSpec(DueDate, dir);
    SortTasksOrders(ts, s);
    var r := SortTasks(ts, s);
    forall i, j | 0 <= i < j < |r| && r[i].rec.dueDate == ""
      ensures r[j].rec.dueDate == ""
    {
      assert Precedes(s, r[i], r[j]);
      SortedPairMeaning(s, r[i].rec, r[j].rec);
    }
  }

  /** A list already in order comes back as it is: the sort is stable. */
  lemma SortTasksKeepsOrdered(ts: seq<Keyed<Task>>, s: SortSpec)
    requires SortedBy(ts, (a, b) => Precedes(s, a, b))
    ensures SortTasks(ts, s) == ts
  {
    if s.field != NoSort {
      SortByOrderedInput(ts, (a, b) => Precedes(s, a, b));
    }
  }

  // ---- Filter ----

  /** The filter bar: free text and the selected label ids. */
  datatype Filter = Filter(text: string, labelIds: set<Id>)

  /** The label ids attached to a task. */
  function LabelsOf(db: Db, taskId: Id): set<Id> {
    set tl | tl in db.taskLabels && tl.taskId == taskId :: tl.labelId
  }

  /** A card is shown when its lower-cased title contains the lower-cased
      text (or the text is empty) and it carries a selected label (or none
      is selected). */
  predicate Visible(f: Filter, title: string, labels: set<Id>) {
    var text := Lower(f.text);
    (text == "" || Contains(Lower(title), text))
    && (f.labelIds == {} || exists id :: id in f.labelIds && id in labels)
  }

  /** The filter is active when either part is set. */
  predicate Active(f: Filter) {
    f.text != "" || f.labelIds != {}
  }

  /** Visibility in terms of substring positions and set intersection. */
  lemma VisibleIff(f: Filter, title: string, labels: set<Id>)
    ensures Visible(f, title, labels) <==>
      (f.text == "" || Contains(Lower(title), Lower(f.text)))
      && (f.labelIds == {} || f.labelIds * labels != {})
  {
    var both := f.labelIds * labels;
    if exists id :: id in f.labelIds && id in labels {
      var id :| id in f.labelIds && id in labels;
      assert id in both;
    }
    if both != {} {
      var id :| id in both;
      assert id in f.labelIds && id in labels;
    }
  }

  /** An inactive filter shows every card. */
  lemma InactiveShowsAll(f: Filter, title: string, labels: set<Id>)
    requires !Active(f)
    ensures Visible(f, title, labels)
  {
  }

  /** Typing more text only hides cards, and matching ignores case. */
  lemma NarrowingText(f: Filter, more: string, title: string, labels: set<Id>)
    requires Visible(f.(text := f.text + more), title, labels)
    ensures Visible(f, title, labels)
    ensures Visible(f.(text := Lower(f.text)), title, labels) == Visible(f, title, labels)
  {
    LowerIdempotent(f.text);
    assert Lower(f.text + more) == Lower(f.text) + Lower(more);
    if Lower(f.text) != "" {
      ContainsPrefixOfNeedle(Lower(title), Lower(f.text), Lower(more));
    }
  }

  /** Selecting one more label only shows more cards. */
  lemma WideningLabels(f: Filter, id: Id, title: string, labels: set<Id>)
    requires f.labelIds != {} && Visible(f, title, labels)
    ensures Visible(f.(labelIds := f.labelIds + {id}), title, labels)
  {
  }

  /** The column badge: the number of shown cards while the filter is
      active, the length of the cached list otherwise. */
  function ColumnCount(f: Filter, db: Db, cards: seq<Keyed<Task>>): (n: nat)
    ensures n <= |cards|
    ensures !Active(f) ==> n == |cards|
    decreases |cards|
  {
    if !Active(f) then |cards|
    else if cards == [] then 0
    else
      (if Visible(f, cards[0].rec.title, LabelsOf(db, cards[0].id)) then 1 else 0)
        + ColumnCount(f, db, cards[1..])
  }

  /** The positions in the list of the cards the filter shows. */
  ghost function Shown(f: Filter, db: Db, cards: seq<Keyed<Task>>): set<int> {
    set i | 0 <= i < |cards| && Visible(f, cards[i].rec.title, LabelsOf(db, cards[i].id))
  }

  ghost function Shift(s: set<int>): set<int> {
    set j | j in s :: j + 1
  }

  /** Some element of a non-empty set. */
  lemma Element<T>(s: set<T>) returns (x: T)
    requires s != {}
    ensures x in s
  {
    x :| x in s;
  }

  /** Moving every position one further on keeps their number. */
  lemma {:induction false} ShiftCard(s: set<int>)
    ensures |Shift(s)| == |s|
    decreases |s|
  {
    if s != {} {
      var x := Element(s);
      ShiftCard(s - {x});
      forall j | j in Shift(s)
        ensures j in Shift(s - {x}) + {x + 1}
      {
        var k :| k in s && j == k + 1;
        if k != x { assert k in s - {x}; }
      }
      assert Shift(s) == Shift(s - {x}) + {x + 1};
    }
  }

  /** The positions shown in a list are those shown in its tail, one
      further on, and the head when it is shown. */
  lemma ShownSplit(f: Filter, db: Db, cards: seq<Keyed<Task>>)
    requires cards != []
    ensures Shown(f, db, cards) ==
      (if Visible(f, cards[0].rec.title, LabelsOf(db, cards[0].id)) then {0} else {})
        + Shift(Shown(f, db, cards[1..]))
  {
    var rest := cards[1..];
    var l := if Visible(f, cards[0].rec.title, LabelsOf(db, cards[0].id)) then {0} else {};
    forall i | i in Shown(f, db, cards)
      ensures i in l + Shift(Shown(f, db, rest))
    {
      if i > 0 {
        assert cards[i] == rest[i - 1];
        assert i - 1 in Shown(f, db, rest);
      }
    }
    forall i | i in Shift(Shown(f, db, rest))
      ensures i in Shown(f, db, cards)
    {
      assert i - 1 in Shown(f, db, rest);
      assert cards[i] == rest[i - 1];
    }
  }

  /** While the filter is active the badge counts exactly the cards it
      shows. */
  lemma {:induction false} ColumnCountCounts(f: Filter, db: Db, cards: seq<Keyed<Task>>)
    ensures Active(f) ==> ColumnCount(f, db, cards) == |Shown(f, db, cards)|
    decreases |cards|
  {
    if Active(f) {
      if cards == [] {
        assert Shown(f, db, cards) == {};
      } else {
        var vis := Visible(f, cards[0].rec.title, LabelsOf(db, cards[0].id));
        ColumnCountCounts(f, db, cards[1..]);
        ShownSplit(f, db, cards);
        ShiftCard(Shown(f, db, cards[1..]));
        assert 0 !in Shift(Shown(f, db, cards[1..]));
      }
    }
  }

  /** A concrete case: "ToDo" matches the title "Write todo list" and a card
      with label 2 passes a selection of labels 1 and 2. */
  lemma FilterExample()
    ensures Visible(Filter("ToDo", {1, 2}), "Write todo list", {2, 5})
    ensures !Visible(Filter("ToDo", {1}), "Write todo list", {2, 5})
    ensures !Visible(Filter("done", {}), "Write todo list", {})
  {
    LowerExamples();
    var t := "write todo list";
    assert OccursAt(t, "todo", 6) by { assert t[6..10] == "todo"; }
    forall i | 0 <= i <= |t| - 4
      ensures !OccursAt(t, "done", i)
    {
      assert t[i] != 'd' || t[i + 2] != 'n';
      assert t[i..i + 4][0] == t[i] && t[i..i + 4][2] == t[i + 2];
    }
  }

  /** The lower-cased forms of the literals above. */
  lemma LowerExamples()
    ensures Lower("Write todo list") == "write todo list"
    ensures Lower("ToDo") == "todo" && Lower("done") == "done"
  {
    var w := Lower("Write todo list");
    assert w[0] == 'w';
    forall i | 1 <= i < 15 ensures w[i] == "write todo list"[i] {
      assert "Write todo list"[i] == "write todo list"[i];
    }
    var d := Lower("ToDo");
    assert d[0] == 't' && d[1] == 'o' && d[2] == 'd' && d[3] == 'o';
  }
}
