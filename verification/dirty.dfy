/** The "changed since the last export" indicator of js/todo.js: the
    in-memory flag and the two timestamps kept in local storage,
    `kanban_dirty_at` and `kanban_last_export_at`, which a reload compares
    as strings. */
module Dirty {
  import opened Wrappers
  import opened LexOrder

  datatype Flags = Flags(isDirty: bool, dirtyAt: Option<string>, exportAt: Option<string>)

  const Initial: Flags := Flags(false, None, None)

  /** `markDirty`: any change to the board. */
  function MarkDirty(f: Flags, now: string): (r: Flags)
    ensures r.isDirty && r.dirtyAt == Some(now) && r.exportAt == f.exportAt
  {
    Flags(true, Some(now), f.exportAt)
  }

  /** An export, or a restore, which counts as one. */
  function Exported(f: Flags, now: string): (r: Flags)
    ensures !r.isDirty && r.exportAt == Some(now) && r.dirtyAt == f.dirtyAt
  {
    Flags(false, f.dirtyAt, Some(now))
  }

  /** On start-up: `dirtyAt > exportAt`, a missing timestamp read as "". */
  function Reloaded(f: Flags): (r: Flags)
    ensures r.dirtyAt == f.dirtyAt && r.exportAt == f.exportAt
    ensures f.dirtyAt.None? ==> !r.isDirty
    ensures f.exportAt.None? ==> (r.isDirty <==> f.dirtyAt.Some? && f.dirtyAt.value != "")
  {
    EmptyIsLeast(f.dirtyAt.GetOr(""));
    Flags(Less(f.exportAt.GetOr(""), f.dirtyAt.GetOr("")), f.dirtyAt, f.exportAt)
  }

  /** The in-memory flag agrees with what a reload would compute. */
  predicate Consistent(f: Flags) {
    f.isDirty == Less(f.exportAt.GetOr(""), f.dirtyAt.GetOr(""))
  }

  /** A clock reading no earlier than both stored timestamps. */
  predicate Later(f: Flags, now: string) {
    && (f.dirtyAt.Some? ==> f.dirtyAt.value == now || Less(f.dirtyAt.value, now))
    && (f.exportAt.Some? ==> Less(f.exportAt.value, now))
  }

  /** While the clock moves forward, a reload shows the indicator exactly as
      it was before the page closed. */
  lemma ReloadAgrees(f: Flags, now: string)
    requires Later(f, now) && now != ""
    ensures Consistent(Initial)
    ensures Consistent(MarkDirty(f, now))
    ensures Consistent(Exported(f, now))
    ensures Reloaded(MarkDirty(f, now)) == MarkDirty(f, now)
    ensures Reloaded(Exported(f, now)) == Exported(f, now)
  {
    LessIrreflexive("");
    if f.exportAt.None? {
      assert Less("", now);
    }
    if f.dirtyAt.Some? && f.dirtyAt.value != now {
      LessAsymmetric(f.dirtyAt.value, now);
    }
    LessIrreflexive(now);
    if f.dirtyAt.None? {
      EmptyIsLeast(now);
    }
  }
}
