/** The ordering engine of the board in js/todo.js: fractional positions
    for cards dropped between neighbours, the renumber trigger, positions
    for cards appended at the end of a column, and the drop handler
    `DragDrop._onEnd` over the store and the per-column card cache. */
module Ordering {
  import opened Wrappers
  import opened KanbanStore
  import opened Sorting
  import opened Dirty

  const Step: real := 1000.0

  /** Gaps below this trigger renumbering. */
  const MinGapLimit: real := 0.001

  /** The position of a dropped card from its neighbours' positions:
      halfway between both, one step after the previous card, half of the
      next card's, or one step into an empty column. */
  function DropPosition(prev: Option<real>, next: Option<real>): (p: real)
    ensures prev.Some? && next.Some? ==> p - prev.value == next.value - p
    ensures prev.Some? && next.Some? && prev.value < next.value ==> prev.value < p < next.value
    ensures prev.Some? && next.None? ==> p == prev.value + Step
    ensures prev.None? && next.Some? ==> p + p == next.value
    ensures prev.None? && next.Some? && 0.0 < next.value ==> 0.0 < p < next.value
    ensures prev.None? && next.None? ==> p == Step
  {
    match (prev, next)
    case (Some(a), Some(b)) => (a + b) / 2.0
    case (Some(a), None) => a + Step
    case (None, Some(b)) => b / 2.0
    case (None, None) => Step
  }

  /** `Math.min` over the gaps between neighbouring positions; `None`
      stands for the `Infinity` it returns when there is no gap. */
  function MinGap(ps: seq<real>): (g: Option<real>)
    ensures g.None? <==> |ps| < 2
    ensures g.Some? ==> forall i :: 0 <= i < |ps| - 1 ==> g.value <= ps[i + 1] - ps[i]
    ensures g.Some? ==> exists i :: 0 <= i < |ps| - 1 && g.value == ps[i + 1] - ps[i]
    decreases |ps|
  {
    if |ps| < 2 then None
    else
      var d := ps[1] - ps[0];
      match MinGap(ps[1..])
      case None => Some(d)
      case Some(h) =>
        assert forall i :: 1 <= i < |ps| - 1 ==> h <= ps[i + 1] - ps[i] by {
          forall i | 1 <= i < |ps| - 1
            ensures h <= ps[i + 1] - ps[i]
          {
            assert ps[1..][i - 1] == ps[i] && ps[1..][i] == ps[i + 1];
          }
        }
        var j :| 0 <= j < |ps[1..]| - 1 && h == ps[1..][j + 1] - ps[1..][j];
        assert h == ps[j + 2] - ps[j + 1];
        Some(if d <= h then d else h)
  }

  /** The renumber trigger. */
  predicate NeedsRenumber(ps: seq<real>) {
    MinGap(ps).Some? && MinGap(ps).value < MinGapLimit
  }

  /** Renumbering is triggered exactly when two neighbours are closer than
      the limit; a column with fewer than two cards never triggers it. */
  lemma NeedsRenumberIff(ps: seq<real>)
    ensures NeedsRenumber(ps) <==> exists i :: 0 <= i < |ps| - 1 && ps[i + 1] - ps[i] < MinGapLimit
    ensures |ps| < 2 ==> !NeedsRenumber(ps)
  {
  }

  function Positions(ts: seq<Keyed<Task>>): (ps: seq<real>)
    ensures |ps| == |ts| && forall i :: 0 <= i < |ts| ==> ps[i] == ts[i].rec.position
  {
    seq(|ts|, i requires 0 <= i < |ts| => ts[i].rec.position)
  }

  /** The renumbered list: the i-th card at (i + 1) * 1000, as
      `renumberPositions` also writes into the cached records. */
  function Renumbered(ts: seq<Keyed<Task>>): (r: seq<Keyed<Task>>)
    ensures |r| == |ts|
    ensures forall i :: 0 <= i < |ts| ==> r[i] == Keyed(ts[i].id, ts[i].rec.(position := (i + 1) as real * Step))
  {
    seq(|ts|, i requires 0 <= i < |ts| => Keyed(ts[i].id, ts[i].rec.(position := (i + 1) as real * Step)))
  }

  /** After renumbering, neighbours are exactly one step apart, so the
      trigger is off again. */
  lemma RenumberedGaps(ts: seq<Keyed<Task>>)
    ensures forall i :: 0 <= i < |ts| - 1 ==>
      Positions(Renumbered(ts))[i + 1] - Positions(Renumbered(ts))[i] == Step
    ensures !NeedsRenumber(Positions(Renumbered(ts)))
  {
    var ps := Positions(Renumbered(ts));
    assert forall i :: 0 <= i < |ts| - 1 ==> ps[i + 1] - ps[i] == Step by {
      forall i | 0 <= i < |ts| - 1
        ensures ps[i + 1] - ps[i] == Step
      {
        assert ps[i + 1] == (i + 2) as real * Step && ps[i] == (i + 1) as real * Step;
      }
    }
    NeedsRenumberIff(ps);
  }

  /** In a column ordered by position no card is past the last one. */
  lemma LastIsHighest(col: seq<Keyed<Task>>)
    requires |col| > 0
    ensures SortedBy(col, PositionLe) ==>
      forall i :: 0 <= i < |col| ==> col[i].rec.position <= col[|col| - 1].rec.position
  {
    if SortedBy(col, PositionLe) {
      forall i | 0 <= i < |col| - 1
        ensures col[i].rec.position <= col[|col| - 1].rec.position
      {
        assert PositionLe(col[i], col[|col| - 1]);
      }
    }
  }

  /** Where `_onAddTask` and `_onColumnChange` put a card: one step after
      the last card of the column, or at one step in an empty column; in a
      column ordered by position that is after every card. */
  function AppendPosition(col: seq<Keyed<Task>>): (p: real)
    ensures |col| > 0 ==> p == col[|col| - 1].rec.position + Step
    ensures |col| == 0 ==> p == Step
    ensures SortedBy(col, PositionLe) ==> forall i :: 0 <= i < |col| ==> col[i].rec.position < p
  {
    if |col| > 0 then LastIsHighest(col); col[|col| - 1].rec.position + Step else Step
  }

  /** Pushing the new card onto an ordered column's list, as `_onAddTask`
      does, keeps the list ordered, with the new card last and the others
      as they were. */
  lemma AppendKeepsOrder(col: seq<Keyed<Task>>, card: Keyed<Task>)
    requires SortedBy(col, PositionLe) && card.rec.position == AppendPosition(col)
    ensures SortedBy(col + [card], PositionLe)
    ensures (col + [card])[..|col|] == col && (col + [card])[|col|] == card
  {
    var s := col + [card];
    forall i, j | 0 <= i < j < |s|
      ensures PositionLe(s[i], s[j])
    {
      if j < |col| { assert PositionLe(col[i], col[j]); }
    }
  }

  // ---- The drop handler ----

  /** The comparator `(a, b) => a.position - b.position`. */
  predicate PositionLe(a: Keyed<Task>, b: Keyed<Task>) {
    a.rec.position <= b.rec.position
  }

  lemma PositionOrderIsTotal()
    ensures TotalPreorder(PositionLe)
  {
  }

  /** The store, the per-column card lists the page keeps (`State.tasks`)
      and the export indicator. */
  datatype Board = Board(db: Db, cache: map<string, seq<Keyed<Task>>>, flags: Flags)

  /** What SortableJS reports: the source and target column keys ("" when
      missing), the dragged card's id as `parseInt` read it (`None` for NaN),
      and the ids of the cards now before and after it. */
  datatype Drop = Drop(fromCol: string, toCol: string, item: Option<Id>, prevId: Option<Id>, nextId: Option<Id>)

  /** `State.tasks[col] || []`. */
  function CacheOf(cache: map<string, seq<Keyed<Task>>>, col: string): seq<Keyed<Task>> {
    if col in cache then cache[col] else []
  }

  /** `find` by id: the first cached card with that id. */
  function Find(ts: seq<Keyed<Task>>, id: Id): (r: Option<Task>)
    ensures r.Some? ==> exists i :: 0 <= i < |ts| && ts[i] == Keyed(id, r.value)
    ensures r.None? ==> forall i :: 0 <= i < |ts| ==> ts[i].id != id
    decreases |ts|
  {
    if ts == [] then None
    else if ts[0].id == id then Some(ts[0].rec)
    else
      var r := Find(ts[1..], id);
      assert r.Some? ==> exists i :: 0 <= i < |ts[1..]| && ts[1..][i] == Keyed(id, r.value);
      r
  }

  /** The neighbour's position, when its card is in the cache. */
  function NeighbourPosition(ts: seq<Keyed<Task>>, id: Option<Id>): Option<real> {
    if id.None? then None
    else match Find(ts, id.value)
      case None => None
      case Some(t) => Some(t.position)
  }

  function Without(ts: seq<Keyed<Task>>, id: Id): (r: seq<Keyed<Task>>)
    ensures forall i :: 0 <= i < |r| ==> r[i].id != id
    ensures forall x :: x in r <==> x in ts && x.id != id
    decreases |ts|
  {
    if ts == [] then []
    else if ts[0].id == id then Without(ts[1..], id)
    else [ts[0]] + Without(ts[1..], id)
  }

  /** `findIndex` then assignment: the first card with that id replaced. */
  function ReplaceFirst(ts: seq<Keyed<Task>>, x: Keyed<Task>): (r: seq<Keyed<Task>>)
    ensures |r| == |ts|
    decreases |ts|
  {
    if ts == [] then []
    else if ts[0].id == x.id then [x] + ts[1..]
    else [ts[0]] + ReplaceFirst(ts[1..], x)
  }

  /** A drop the handler acts on: both columns known and a non-zero id. */
  predicate Actionable(d: Drop) {
    d.fromCol != "" && d.toCol != "" && d.item.Some? && d.item.value != 0
  }

  /** The store update and cache bookkeeping of a drop without a sort:
      the card gets the drop position between its neighbours and the target
      column, and moves from the source list to the end of the target list,
      or is replaced in place within the same column. */
  function PlaceCard(b: Board, d: Drop, now: string): (r: Board)
    requires Actionable(d) && d.item.value in b.db.tasks && d.toCol in b.cache
    ensures d.toCol in r.cache && r.flags == MarkDirty(b.flags, now)
  {
    var id := d.item.value;
    var target := b.cache[d.toCol];
    var pos := DropPosition(NeighbourPosition(target, d.prevId), NeighbourPosition(target, d.nextId));
    var db1 := UpdateTask(b.db, id, NoChange.(column := Some(d.toCol), position := Some(pos)), now);
    var updated := Keyed(id, db1.tasks[id]);
    var cache1 :=
      if d.fromCol != d.toCol then
        var c := b.cache[d.fromCol := Without(CacheOf(b.cache, d.fromCol), id)];
        c[d.toCol := CacheOf(c, d.toCol) + [updated]]
      else b.cache[d.toCol := ReplaceFirst(target, updated)];
    Board(db1, cache1, MarkDirty(b.flags, now))
  }

  /** The stored card sits strictly between its neighbours (when both are
      cached and in order) and in the target column; no other task changes. */
  lemma PlaceCardBetween(b: Board, d: Drop, now: string)
    requires Actionable(d) && d.item.value in b.db.tasks && d.toCol in b.cache
    ensures var r := PlaceCard(b, d, now); var id := d.item.value;
      var prev := NeighbourPosition(b.cache[d.toCol], d.prevId);
      var next := NeighbourPosition(b.cache[d.toCol], d.nextId);
      && r.db.tasks.Keys == b.db.tasks.Keys
      && (forall k :: k in b.db.tasks && k != id ==> r.db.tasks[k] == b.db.tasks[k])
      && r.db.tasks[id].column == d.toCol
      && (prev.Some? && next.Some? && prev.value < next.value ==> prev.value < r.db.tasks[id].position < next.value)
      && (prev.Some? && next.None? ==> r.db.tasks[id].position == prev.value + Step)
      && (prev.None? && next.Some? ==> r.db.tasks[id].position == next.value / 2.0)
      && (prev.None? && next.None? ==> r.db.tasks[id].position == Step)
  {
  }

  /** The ids of a list of cards, in list order. */
  function IdsOf<T>(ts: seq<Keyed<T>>): (ids: seq<Id>)
    ensures |ids| == |ts| && forall i :: 0 <= i < |ts| ==> ids[i] == ts[i].id
  {
    seq(|ts|, i requires 0 <= i < |ts| => ts[i].id)
  }

  /** Taking out the element at `k` takes one copy of it out of the multiset. */
  lemma Unpick<E>(ys: seq<E>, k: nat)
    requires k < |ys|
    ensures multiset(ys) == multiset(ys[..k] + ys[k + 1..]) + multiset{ys[k]}
  {
    assert ys == ys[..k] + [ys[k]] + ys[k + 1..];
  }

  /** The ids of a list with one card taken out are its ids with that
      card's id taken out. */
  lemma IdsOfUnpick<T>(ys: seq<Keyed<T>>, k: nat)
    requires k < |ys|
    ensures IdsOf(ys[..k] + ys[k + 1..]) == IdsOf(ys)[..k] + IdsOf(ys)[k + 1..]
    ensures IdsOf(ys)[k] == ys[k].id
  {
  }

  /** A position holding an element known to be in the list. */
  lemma Pick<E>(ys: seq<E>, x: E) returns (k: nat)
    requires x in multiset(ys)
    ensures k < |ys| && ys[k] == x
  {
    assert x in ys;
    k :| 0 <= k < |ys| && ys[k] == x;
  }

  lemma CancelOne<E>(a: multiset<E>, b: multiset<E>, x: E)
    requires a + multiset{x} == b + multiset{x}
    ensures a == b
  {
    forall e ensures a[e] == b[e] {
      assert (a + multiset{x})[e] == (b + multiset{x})[e];
    }
  }

  /** Taking card `k` out of a list takes its id out of the list's ids. */
  lemma IdsStep<T>(ys: seq<Keyed<T>>, k: nat)
    requires k < |ys|
    ensures multiset(IdsOf(ys)) == multiset(IdsOf(ys[..k] + ys[k + 1..])) + multiset{ys[k].id}
  {
    IdsOfUnpick(ys, k);
    Unpick(IdsOf(ys), k);
  }

  lemma HeadStep<T>(xs: seq<Keyed<T>>)
    requires |xs| > 0
    ensures multiset(xs) == multiset(xs[1..]) + multiset{xs[0]}
    ensures multiset(IdsOf(xs)) == multiset(IdsOf(xs[1..])) + multiset{xs[0].id}
  {
    assert xs == [xs[0]] + xs[1..];
    assert IdsOf(xs) == [xs[0].id] + IdsOf(xs[1..]);
  }

  /** Lists holding the same cards hold the same ids, as often. */
  lemma {:induction false} SameCardsSameIds<T>(xs: seq<Keyed<T>>, ys: seq<Keyed<T>>)
    requires multiset(xs) == multiset(ys)
    ensures multiset(IdsOf(xs)) == multiset(IdsOf(ys))
    decreases |xs|
  {
    if |xs| == 0 {
      assert |multiset(ys)| == 0;
    } else {
      var x := xs[0];
      var k := Pick(ys, x);
      var rest := ys[..k] + ys[k + 1..];
      Unpick(ys, k);
      HeadStep(xs);
      CancelOne(multiset(xs[1..]), multiset(rest), x);
      SameCardsSameIds(xs[1..], rest);
      IdsStep(ys, k);
    }
  }

  /** Re-sorting the column's list by position, then renumbering the
      column when two neighbours are too close. */
  function Settle(b: Board, col: string): (r: Board)
    requires col in b.cache
    ensures col in r.cache && r.flags == b.flags
  {
    var list := SortBy(b.cache[col], PositionLe);
    if NeedsRenumber(Positions(list)) then
      b.(db := RenumberPositions(b.db, list), cache := b.cache[col := Renumbered(list)])
    else
      b.(cache := b.cache[col := list])
  }

  /** The list ends up ordered by position and holding the same cards; the
      store changes only when renumbering is needed, and afterwards no two
      neighbours are too close. */
  lemma SettleOrders(b: Board, col: string)
    requires col in b.cache
    ensures var r := Settle(b, col);
      && SortedBy(r.cache[col], PositionLe)
      && |r.cache[col]| == |b.cache[col]|
      && (!NeedsRenumber(Positions(SortBy(b.cache[col], PositionLe))) ==>
            r.db == b.db && multiset(r.cache[col]) == multiset(b.cache[col]))
      && (NeedsRenumber(Positions(SortBy(b.cache[col], PositionLe))) ==>
            !NeedsRenumber(Positions(r.cache[col]))
            && multiset(IdsOf(r.cache[col])) == multiset(IdsOf(b.cache[col])))
  {
    PositionOrderIsTotal();
    var list := SortBy(b.cache[col], PositionLe);
    SortBySorted(b.cache[col], PositionLe);
    assert |list| == |b.cache[col]| by {
      assert |multiset(list)| == |multiset(b.cache[col])|;
    }
    if NeedsRenumber(Positions(list)) {
      var rl := Renumbered(list);
      assert SortedBy(rl, PositionLe) by {
        forall i, j | 0 <= i < j < |rl|
          ensures PositionLe(rl[i], rl[j])
        {
          assert rl[i].rec.position == (i + 1) as real * Step;
          assert rl[j].rec.position == (j + 1) as real * Step;
        }
      }
      RenumberedGaps(list);
      assert IdsOf(rl) == IdsOf(list);
      SameCardsSameIds(list, b.cache[col]);
    }
  }

  /** `DragDrop._onEnd`. With a sort active only a move to another column
      is stored, and only its column changes; otherwise the card is placed
      and the target column settled. The target column has a cache entry, as
      every rendered column does. */
  function OnEnd(b: Board, d: Drop, sortActive: bool, now: string): (r: Board)
    requires Actionable(d) ==> d.item.value in b.db.tasks && d.toCol in b.cache
  {
    if !Actionable(d) then b
    else if sortActive then
      var id := d.item.value;
      if d.fromCol != d.toCol then
        var db1 := UpdateTask(b.db, id, NoChange.(column := Some(d.toCol)), now);
        var cache1 := b.cache[d.fromCol := Without(CacheOf(b.cache, d.fromCol), id)];
        Board(db1, cache1[d.toCol := CacheOf(cache1, d.toCol) + [Keyed(id, db1.tasks[id])]], MarkDirty(b.flags, now))
      else b.(flags := MarkDirty(b.flags, now))
    else Settle(PlaceCard(b, d, now), d.toCol)
  }

  /** A drop without both columns or with no usable id changes nothing. */
  lemma OnEndIgnores(b: Board, d: Drop, sortActive: bool, now: string)
    requires !Actionable(d)
    ensures OnEnd(b, d, sortActive, now) == b
  {
  }

  /** With a sort active, a move to another column stores the new column
      and leaves the position and every other field as they were; a drop
      within the column stores nothing. Either way the board is dirty. */
  lemma OnEndSortActive(b: Board, d: Drop, now: string)
    requires Actionable(d) && d.item.value in b.db.tasks && d.toCol in b.cache
    ensures var r := OnEnd(b, d, true, now); var id := d.item.value;
      && r.flags.isDirty
      && r.db.tasks.Keys == b.db.tasks.Keys
      && (forall k :: k in b.db.tasks && k != id ==> r.db.tasks[k] == b.db.tasks[k])
      && (d.fromCol != d.toCol ==>
            r.db.tasks[id] == b.db.tasks[id].(column := d.toCol, updatedAt := now))
      && (d.fromCol == d.toCol ==> r.db == b.db)
  {
  }
}
