/** Adding and deleting board columns from the header buttons in
    js/todo.js (`_onAddColumn`, `_onDeleteColumn`): the screen keeps the
    columns in board order next to the store, and a column that still holds
    cards cannot be deleted. */
module Columns {
  import opened Wrappers
  import opened Text
  import opened Decimal
  import opened KanbanStore
  import opened Dirty
  import opened Ordering

  /** The board plus the on-screen column list (`State.columns`). */
  datatype Screen = Screen(board: Board, columns: seq<Keyed<Column>>)

  /** The largest position on screen, or -1 when there are no columns. */
  function MaxPosition(cols: seq<Keyed<Column>>): (m: int)
    ensures m >= -1
    ensures forall i :: 0 <= i < |cols| ==> cols[i].rec.position <= m
    ensures m == -1 || exists i :: 0 <= i < |cols| && cols[i].rec.position == m
    decreases |cols|
  {
    if cols == [] then -1
    else
      var m := MaxPosition(cols[1..]);
      assert forall i :: 1 <= i < |cols| ==> cols[i] == cols[1..][i - 1];
      if cols[0].rec.position > m then cols[0].rec.position else m
  }

  /** `Math.max(...positions, -1) + 1`: one past the last column. */
  function NextPosition(cols: seq<Keyed<Column>>): int {
    MaxPosition(cols) + 1
  }

  /** The key a new column gets from the clock: "col_" and the
      milliseconds. */
  function KeyFor(stamp: nat): string {
    "col_" + NatToString(stamp)
  }

  /** The screen's column list mirrors the store: same records under the
      same ids, each once. */
  predicate Mirrors(cols: seq<Keyed<Column>>, m: map<Id, Column>) {
    && (forall i :: 0 <= i < |cols| ==> cols[i].id in m && m[cols[i].id] == cols[i].rec)
    && (forall id :: id in m ==> exists i :: 0 <= i < |cols| && cols[i].id == id)
    && IdsDistinct(cols)
  }

  predicate Synced(s: Screen) {
    Mirrors(s.columns, s.board.db.columns)
  }

  /** `_onAddColumn`: nothing happens for a cancelled or blank name, or when
      the store refuses the key; otherwise the trimmed name is stored as a
      new column after all others, shown last with an empty card list, and
      the board is marked dirty. */
  function OnAddColumn(s: Screen, input: Option<string>, stamp: nat, now: string, id: Id): (r: Screen)
    requires id !in s.board.db.columns
    ensures input.None? || Trim(input.value) == "" ==> r == s
    ensures r != s ==>
      && r.columns == s.columns + [Keyed(id, Column(Trim(input.value), KeyFor(stamp), NextPosition(s.columns)))]
      && r.board.db == s.board.db.(columns := s.board.db.columns[id := r.columns[|s.columns|].rec])
      && r.board.cache == s.board.cache[KeyFor(stamp) := []]
      && r.board.flags == MarkDirty(s.board.flags, now)
  {
    if input.None? || Trim(input.value) == "" then s
    else
      var name := Trim(input.value);
      var key := KeyFor(stamp);
      var pos := NextPosition(s.columns);
      match AddColumn(s.board.db, name, key, pos, id)
      case Failure(_) => s
      case Success(db) =>
        Screen(
          Board(db, s.board.cache[key := []], MarkDirty(s.board.flags, now)),
          s.columns + [Keyed(id, Column(name, key, pos))])
  }

  /** The new column is placed after every column already on screen, its
      key was free, and the screen still mirrors the store. */
  lemma AddColumnLast(s: Screen, name: string, stamp: nat, now: string, id: Id)
    requires id !in s.board.db.columns && Synced(s) && UniqueColumnKeys(s.board.db.columns)
    requires Trim(name) != ""
    ensures var r := OnAddColumn(s, Some(name), stamp, now, id);
      && Synced(r)
      && UniqueColumnKeys(r.board.db.columns)
      && (r == s <==> exists k :: k in s.board.db.columns && s.board.db.columns[k].key == KeyFor(stamp))
      && (r != s ==> forall i :: 0 <= i < |s.columns| ==> s.columns[i].rec.position < r.columns[|s.columns|].rec.position)
  {
    var key := KeyFor(stamp);
    var r := OnAddColumn(s, Some(name), stamp, now, id);
    ColumnsKeepUniqueKeys(s.board.db, Trim(name), key, NextPosition(s.columns), id, id);
    if exists k :: k in s.board.db.columns && s.board.db.columns[k].key == key {
      assert r == s;
    } else {
      AddStep(s, name, stamp, now, id);
      var c := Column(Trim(name), key, NextPosition(s.columns));
      MirrorAppend(s.columns, s.board.db.columns, Keyed(id, c));
      assert |r.columns| == |s.columns| + 1;
    }
  }

  /** Appending a column with a new id to both sides keeps them in step. */
  lemma MirrorAppend(cols: seq<Keyed<Column>>, m: map<Id, Column>, c: Keyed<Column>)
    requires Mirrors(cols, m) && c.id !in m
    ensures Mirrors(cols + [c], m[c.id := c.rec])
  {
    var r := cols + [c];
    var m' := m[c.id := c.rec];
    forall i | 0 <= i < |r|
      ensures r[i].id in m' && m'[r[i].id] == r[i].rec
    {
      if i < |cols| { assert r[i] == cols[i]; }
    }
    forall k | k in m'
      ensures exists i :: 0 <= i < |r| && r[i].id == k
    {
      if k == c.id {
        assert r[|cols|].id == k;
      } else {
        var i :| 0 <= i < |cols| && cols[i].id == k;
        assert r[i].id == k;
      }
    }
    forall i, j | 0 <= i < j < |r|
      ensures r[i].id != r[j].id
    {
      assert r[i] == cols[i];
      if j < |cols| { assert r[j] == cols[j]; }
    }
  }

  /** The screen list without the column of that id. */
  function RemoveId(cols: seq<Keyed<Column>>, id: Id): (r: seq<Keyed<Column>>)
    ensures |r| <= |cols|
    ensures forall c :: c in r <==> c in cols && c.id != id
    decreases |cols|
  {
    if cols == [] then []
    else if cols[0].id == id then RemoveId(cols[1..], id)
    else [cols[0]] + RemoveId(cols[1..], id)
  }

  /** Why a delete did nothing. */
  datatype DeleteRefusal = HasCards | Cancelled

  /** `_onDeleteColumn`: refused while the column's card list is not empty,
      dropped when the user cancels; otherwise the column leaves the store,
      the screen and the cache, and the board is marked dirty. */
  function OnDeleteColumn(s: Screen, colId: Id, colKey: string, confirmed: bool, now: string): (r: Result<Screen, DeleteRefusal>)
    ensures r == Failure(HasCards) <==> |CacheOf(s.board.cache, colKey)| > 0
    ensures r == Failure(Cancelled) <==> |CacheOf(s.board.cache, colKey)| == 0 && !confirmed
    ensures r.Success? ==>
      && r.value.board.db.columns.Keys == s.board.db.columns.Keys - {colId}
      && r.value.board.db == s.board.db.(columns := s.board.db.columns - {colId})
      && colKey !in r.value.board.cache
      && r.value.board.cache == s.board.cache - {colKey}
      && (forall c :: c in r.value.columns <==> c in s.columns && c.id != colId)
      && r.value.board.db.tasks == s.board.db.tasks
      && r.value.board.flags == MarkDirty(s.board.flags, now)
  {
    if |CacheOf(s.board.cache, colKey)| > 0 then Failure(HasCards)
    else if !confirmed then Failure(Cancelled)
    else
      Success(Screen(
        Board(DeleteColumn(s.board.db, colId), s.board.cache - {colKey}, MarkDirty(s.board.flags, now)),
        RemoveId(s.columns, colId)))
  }

  lemma {:induction false} RemoveAppended(cols: seq<Keyed<Column>>, c: Keyed<Column>)
    requires forall i :: 0 <= i < |cols| ==> cols[i].id != c.id
    ensures RemoveId(cols + [c], c.id) == cols
    decreases |cols|
  {
    if cols == [] {
      assert [c][1..] == [];
    } else {
      assert (cols + [c])[1..] == cols[1..] + [c];
      RemoveAppended(cols[1..], c);
    }
  }

  /** Deleting a freshly added column, before any card is dropped on it,
      gives back the store, the cache and the screen list as they were. */
  lemma AddThenDelete(s: Screen, name: string, stamp: nat, now: string, now2: string, id: Id)
    requires id !in s.board.db.columns && Synced(s)
    requires Trim(name) != "" && KeyFor(stamp) !in s.board.cache
    requires forall k :: k in s.board.db.columns ==> s.board.db.columns[k].key != KeyFor(stamp)
    ensures var r := OnDeleteColumn(OnAddColumn(s, Some(name), stamp, now, id), id, KeyFor(stamp), true, now2);
      && r.Success?
      && r.value.board.db == s.board.db
      && r.value.board.cache == s.board.cache
      && r.value.columns == s.columns
      && r.value.board.flags == MarkDirty(s.board.flags, now2)
  {
    var key := KeyFor(stamp);
    var c := Column(Trim(name), key, NextPosition(s.columns));
    AddStep(s, name, stamp, now, id);
    var a := OnAddColumn(s, Some(name), stamp, now, id);
    DeleteStep(a, id, key, now2);
    MapPutRemove(s.board.db.columns, id, c);
    MapPutRemove(s.board.cache, key, []);
    RemoveAppended(s.columns, Keyed(id, c));
  }

  /** A fresh key and a non-blank name: the column is added. */
  lemma AddStep(s: Screen, name: string, stamp: nat, now: string, id: Id)
    requires id !in s.board.db.columns && Trim(name) != ""
    requires forall k :: k in s.board.db.columns ==> s.board.db.columns[k].key != KeyFor(stamp)
    ensures var c := Column(Trim(name), KeyFor(stamp), NextPosition(s.columns));
      OnAddColumn(s, Some(name), stamp, now, id) == Screen(
        Board(s.board.db.(columns := s.board.db.columns[id := c]), s.board.cache[KeyFor(stamp) := []],
              MarkDirty(s.board.flags, now)),
        s.columns + [Keyed(id, c)])
  {
  }

  /** An empty, confirmed column is deleted. */
  lemma DeleteStep(a: Screen, id: Id, key: string, now: string)
    requires key in a.board.cache && a.board.cache[key] == []
    ensures OnDeleteColumn(a, id, key, true, now) == Success(Screen(
      Board(a.board.db.(columns := a.board.db.columns - {id}), a.board.cache - {key}, MarkDirty(a.board.flags, now)),
      RemoveId(a.columns, id)))
  {
  }

  lemma MapPutRemove<K, V>(m: map<K, V>, k: K, v: V)
    requires k !in m
    ensures m[k := v] - {k} == m
  {
  }

  /** Removing a column from both sides keeps them in step. */
  lemma RemoveKeepsMirror(cols: seq<Keyed<Column>>, m: map<Id, Column>, colId: Id)
    requires Mirrors(cols, m)
    ensures Mirrors(RemoveId(cols, colId), m - {colId})
  {
    var r := RemoveId(cols, colId);
    var m' := m - {colId};
    forall i | 0 <= i < |r|
      ensures r[i].id in m' && m'[r[i].id] == r[i].rec
    {
      assert r[i] in cols;
    }
    forall k | k in m'
      ensures exists i :: 0 <= i < |r| && r[i].id == k
    {
      var i :| 0 <= i < |cols| && cols[i].id == k;
      assert cols[i] in r;
    }
    RemoveIdDistinct(cols, colId);
  }

  /** A successful delete keeps the screen in step with the store. */
  lemma DeleteKeepsSynced(s: Screen, colId: Id, colKey: string, now: string)
    requires Synced(s)
    requires OnDeleteColumn(s, colId, colKey, true, now).Success?
    ensures Synced(OnDeleteColumn(s, colId, colKey, true, now).value)
  {
    RemoveKeepsMirror(s.columns, s.board.db.columns, colId);
  }

  predicate IdsDistinct(cols: seq<Keyed<Column>>) {
    forall i, j :: 0 <= i < j < |cols| ==> cols[i].id != cols[j].id
  }

  lemma ConsDistinct(c: Keyed<Column>, rest: seq<Keyed<Column>>)
    requires IdsDistinct(rest) && forall x :: x in rest ==> x.id != c.id
    ensures IdsDistinct([c] + rest)
  {
    var r := [c] + rest;
    forall i, j | 0 <= i < j < |r| ensures r[i].id != r[j].id {
      assert r[j] == rest[j - 1];
      if i > 0 { assert r[i] == rest[i - 1]; }
    }
  }

  lemma {:induction false} RemoveIdDistinct(cols: seq<Keyed<Column>>, id: Id)
    requires IdsDistinct(cols)
    ensures IdsDistinct(RemoveId(cols, id))
    decreases |cols|
  {
    if cols != [] {
      var t := cols[1..];
      assert IdsDistinct(t) by {
        forall i, j | 0 <= i < j < |t| ensures t[i].id != t[j].id {
          assert t[i] == cols[i + 1] && t[j] == cols[j + 1];
        }
      }
      RemoveIdDistinct(t, id);
      if cols[0].id != id {
        var rt := RemoveId(t, id);
        forall x | x in rt ensures x.id != cols[0].id {
          var k :| 0 <= k < |t| && t[k] == x;
          assert cols[k + 1] == x;
        }
        ConsDistinct(cols[0], rt);
      }
    }
  }
}
