/** The text generators of js/sql.js: the SQL*Plus command line of
    `buildConnCommand` and the bind-variable script of `buildParamText`,
    which writes one `VAR` and one `EXEC` line per used row according to
    the row's type in `TYPE_DEFS`. Form controls become row records and
    today's date is a parameter. */
module SqlCommand {
  import opened Wrappers
  import opened Text
  import opened SqlEnv

  // ------------------------------------------------------------------
  // Connection command
  // ------------------------------------------------------------------

  datatype SqlPlusOption = SqlPlusOption(id: string, flag: string)

  /** `SQLPLUS_OPTIONS`, in the order their checkboxes appear. */
  const SqlPlusOptions: seq<SqlPlusOption> := [
    SqlPlusOption("opt-silent", "-S"),
    SqlPlusOption("opt-login-once", "-L")
  ]

  /** The flags of the checked options, in option order. */
  function CheckedFlags(options: seq<SqlPlusOption>, checked: set<string>): (r: seq<string>)
    ensures |r| <= |options|
    ensures forall f :: f in r ==> exists o :: o in options && o.id in checked && o.flag == f
  {
    if |options| == 0 then []
    else
      (if options[0].id in checked then [options[0].flag] else [])
      + CheckedFlags(options[1..], checked)
  }

  /** `String(env.password)`: a missing password prints as `undefined`. */
  function PasswordText(p: Option<string>): string {
    match p
    case Some(s) => s
    case None => "undefined"
  }

  /** `${username}/${password}@${connect_identifier}`. */
  function ConnString(env: Env): string {
    env.username + "/" + PasswordText(env.password) + "@" + env.connect
  }

  /** The words of the command before they are joined by spaces. */
  function CommandWords(env: Env, checked: set<string>, extraRaw: string): seq<string> {
    var extra := Trim(extraRaw);
    ["sqlplus"] + CheckedFlags(SqlPlusOptions, checked) + [ConnString(env)]
      + (if extra != "" then [extra] else [])
  }

  /** `buildConnCommand()` for the selected environment. */
  function BuildConnCommand(st: EnvState, checked: set<string>, extraRaw: string): string {
    Join(CommandWords(GetSelectedEnv(st), checked, extraRaw), ' ')
  }

  /** The command starts with `sqlplus`, then the checked flags in option
      order, then the connection string and the trimmed extra text when
      there is some; when no word holds a space, splitting on spaces gives
      exactly those words back. */
  lemma ConnCommandWords(st: EnvState, checked: set<string>, extraRaw: string)
    ensures var ws := CommandWords(GetSelectedEnv(st), checked, extraRaw);
      var flags := CheckedFlags(SqlPlusOptions, checked);
      && ws[0] == "sqlplus"
      && ws[1..1 + |flags|] == flags
      && ws[1 + |flags|] == ConnString(GetSelectedEnv(st))
      && (Trim(extraRaw) == "" <==> |ws| == |flags| + 2)
      && (Trim(extraRaw) != "" ==> ws[|ws| - 1] == Trim(extraRaw))
    ensures var ws := CommandWords(GetSelectedEnv(st), checked, extraRaw);
      (forall k :: 0 <= k < |ws| ==> ' ' !in ws[k]) ==> Split(BuildConnCommand(st, checked, extraRaw), ' ') == ws
  {
    var ws := CommandWords(GetSelectedEnv(st), checked, extraRaw);
    if forall k :: 0 <= k < |ws| ==> ' ' !in ws[k] {
      SplitJoin(ws, ' ');
    }
  }

  /** Which flags appear: exactly those of the checked options. */
  lemma CheckedFlagsExact(checked: set<string>)
    ensures CheckedFlags(SqlPlusOptions, checked)
      == (if "opt-silent" in checked then ["-S"] else []) + (if "opt-login-once" in checked then ["-L"] else [])
  {
    assert SqlPlusOptions[1..][1..] == [];
  }

  // ------------------------------------------------------------------
  // Bind variables
  // ------------------------------------------------------------------

  datatype LenMode = Required | Optional | NoLength

  /** An entry of `TYPE_DEFS`. */
  datatype TypeDef = TypeDef(name: string, lenMode: LenMode, isStrings: bool, nPrefix: bool, isDate: bool, defaultLen: string)

  /** `TYPE_DEFS[typeKey]`. */
  function TypeDefOf(typeKey: string): Option<TypeDef> {
    if typeKey == "VARCHAR2" then Some(TypeDef("VARCHAR2", Required, true, false, false, "20"))
    else if typeKey == "NVARCHAR2" then Some(TypeDef("NVARCHAR2", Required, true, true, false, "20"))
    else if typeKey == "CHAR" then Some(TypeDef("CHAR", Required, true, false, false, "6"))
    else if typeKey == "NUMBER" then Some(TypeDef("NUMBER", Optional, false, false, false, ""))
    else if typeKey == "DATE" then Some(TypeDef("DATE", NoLength, false, false, true, ""))
    else None
  }

  /** One `.param-row`: its id, the `use` checkbox and the raw values of its
      controls; a control that is missing is `None`. */
  datatype ParamRow = ParamRow(no: string, used: bool, typeKey: Option<string>,
                               varname: Option<string>, length: Option<string>, value: Option<string>)

  /** `x?.value?.trim() ?? ""`. */
  function TrimmedOr(v: Option<string>): string {
    match v
    case Some(s) => Trim(s)
    case None => ""
  }

  /** The variable name, `B{no}` when none is typed. */
  function VarName(r: ParamRow): string {
    var typed := TrimmedOr(r.varname);
    if typed != "" then typed else "B" + r.no
  }

  /** The row's type, when the row is used and the type is known. */
  function RowType(r: ParamRow): Option<TypeDef> {
    if r.used && r.typeKey.Some? then TypeDefOf(r.typeKey.value) else None
  }

  /** `VAR name TYPE(len)`: the length only for a non-date type with one. */
  function VarDecl(def: TypeDef, name: string, len: string): string {
    var lenPart := if !def.isDate && len != "" then "(" + len + ")" else "";
    "VAR " + name + " " + def.name + lenPart
  }

  /** The right-hand side of the `EXEC` assignment. */
  function ExecValue(def: TypeDef, value: string, todayIso: string): string {
    if def.isDate then
      var dateVal := if value != "" then value else todayIso;
      "TO_DATE('" + dateVal + "','YYYY-MM-DD')"
    else if def.nPrefix then "N'" + value + "'"
    else if def.isStrings then "'" + value + "'"
    else if value != "" then value
    else "0"
  }

  /** The two lines one used row contributes. */
  function RowLines(r: ParamRow, todayIso: string): seq<string>
    requires RowType(r).Some?
  {
    var def := RowType(r).value;
    var name := VarName(r);
    [VarDecl(def, name, TrimmedOr(r.length)),
     "EXEC :" + name + " := " + ExecValue(def, TrimmedOr(r.value), todayIso) + ";"]
  }

  /** `buildParamText()`: rows in document order, each used row with a known
      type writing its declaration and its assignment, each line ended by a
      newline. */
  function BuildParamText(rows: seq<ParamRow>, todayIso: string): string
    decreases |rows|
  {
    if |rows| == 0 then ""
    else RowText(rows[0], todayIso) + BuildParamText(rows[1..], todayIso)
  }

  /** What one row writes: its two lines, or nothing. */
  function RowText(r: ParamRow, todayIso: string): string {
    if RowType(r).Some? then
      var ls := RowLines(r, todayIso);
      ls[0] + "\n" + ls[1] + "\n"
    else ""
  }

  /** The rows that write something, in order. */
  function Emitting(rows: seq<ParamRow>): (r: seq<ParamRow>)
    ensures |r| <= |rows|
    ensures forall x :: x in r ==> x in rows && RowType(x).Some?
    decreases |rows|
  {
    if |rows| == 0 then []
    else (if RowType(rows[0]).Some? then [rows[0]] else []) + Emitting(rows[1..])
  }

  /** All lines of a list of emitting rows, two per row. */
  function AllLines(rows: seq<ParamRow>, todayIso: string): (ls: seq<string>)
    requires forall x :: x in rows ==> RowType(x).Some?
    ensures |ls| == 2 * |rows|
    decreases |rows|
  {
    if |rows| == 0 then [] else RowLines(rows[0], todayIso) + AllLines(rows[1..], todayIso)
  }

  /** Each line followed by a newline. */
  function Terminated(ls: seq<string>): string
    decreases |ls|
  {
    if |ls| == 0 then "" else ls[0] + "\n" + Terminated(ls[1..])
  }

  lemma {:induction false} TerminatedAppend(a: seq<string>, b: seq<string>)
    ensures Terminated(a + b) == Terminated(a) + Terminated(b)
    decreases |a|
  {
    if |a| > 0 {
      TerminatedAppend(a[1..], b);
      assert (a + b)[0] == a[0] && (a + b)[1..] == a[1..] + b;
      calc {
        Terminated(a + b);
        a[0] + "\n" + Terminated(a[1..] + b);
        a[0] + "\n" + (Terminated(a[1..]) + Terminated(b));
        (a[0] + "\n" + Terminated(a[1..])) + Terminated(b);
      }
    } else {
      assert a + b == b;
    }
  }

  /** The script is the lines of the emitting rows, two per row in row
      order, each ended by a newline; unused rows and rows of unknown type
      write nothing. */
  lemma {:induction false} ParamTextLines(rows: seq<ParamRow>, todayIso: string)
    ensures BuildParamText(rows, todayIso) == Terminated(AllLines(Emitting(rows), todayIso))
    decreases |rows|
  {
    if |rows| > 0 {
      var tail := Emitting(rows[1..]);
      ParamTextLines(rows[1..], todayIso);
      if RowType(rows[0]).Some? {
        assert Emitting(rows) == [rows[0]] + tail;
        AllLinesCons(rows[0], tail, todayIso);
        TerminatedAppend(RowLines(rows[0], todayIso), AllLines(tail, todayIso));
        RowTextLines(rows[0], todayIso);
      } else {
        assert Emitting(rows) == tail;
      }
    }
  }

  lemma AllLinesCons(x: ParamRow, rows: seq<ParamRow>, todayIso: string)
    requires RowType(x).Some? && forall y :: y in rows ==> RowType(y).Some?
    ensures AllLines([x] + rows, todayIso) == RowLines(x, todayIso) + AllLines(rows, todayIso)
  {
    assert ([x] + rows)[1..] == rows;
  }

  /** A row's text is its two lines, each ended by a newline. */
  lemma RowTextLines(r: ParamRow, todayIso: string)
    requires RowType(r).Some?
    ensures RowText(r, todayIso) == Terminated(RowLines(r, todayIso))
  {
    TerminatedPair(RowLines(r, todayIso));
  }

  lemma TerminatedPair(ls: seq<string>)
    requires |ls| == 2
    ensures Terminated(ls) == ls[0] + "\n" + ls[1] + "\n"
  {
    calc {
      Terminated(ls);
      ls[0] + "\n" + Terminated(ls[1..]);
      { assert ls[1..][0] == ls[1] && ls[1..][1..] == []; }
      ls[0] + "\n" + (ls[1] + "\n" + "");
      ls[0] + "\n" + ls[1] + "\n";
    }
  }

  /** The script of a row list starts with the first row's text. */
  lemma BuildCons(x: ParamRow, rest: seq<ParamRow>, todayIso: string)
    ensures BuildParamText([x] + rest, todayIso) == RowText(x, todayIso) + BuildParamText(rest, todayIso)
  {
    assert ([x] + rest)[0] == x && ([x] + rest)[1..] == rest;
  }

  lemma ConsSplit<T>(a: seq<T>, b: seq<T>)
    requires |a| > 0
    ensures a == [a[0]] + a[1..] && a + b == [a[0]] + (a[1..] + b)
  {
  }

  lemma Assoc3(x: string, y: string, z: string)
    ensures x + (y + z) == (x + y) + z
  {
  }

  /** The script of two row lists is the concatenation of their scripts. */
  lemma {:induction false} ParamTextAppend(a: seq<ParamRow>, b: seq<ParamRow>, todayIso: string)
    ensures BuildParamText(a + b, todayIso) == BuildParamText(a, todayIso) + BuildParamText(b, todayIso)
    decreases |a|
  {
    if |a| > 0 {
      var x, rest := a[0], a[1..];
      ConsSplit(a, b);
      BuildCons(x, rest + b, todayIso);
      BuildCons(x, rest, todayIso);
      ParamTextAppend(rest, b, todayIso);
      Assoc3(RowText(x, todayIso), BuildParamText(rest, todayIso), BuildParamText(b, todayIso));
    } else {
      assert a + b == b;
    }
  }

  /** Declarations come first and assignments second for every row; the
      name is the typed one or `B{no}`; the length appears only for
      non-date types and only when given. */
  lemma RowLinesShape(r: ParamRow, todayIso: string)
    requires RowType(r).Some?
    ensures var def := RowType(r).value;
      var ls := RowLines(r, todayIso);
      var name := VarName(r);
      var len := TrimmedOr(r.length);
      && (def.isDate || len == "" ==> ls[0] == "VAR " + name + " " + def.name)
      && (!def.isDate && len != "" ==> ls[0] == "VAR " + name + " " + def.name + "(" + len + ")")
      && ls[1][..6] == "EXEC :"
      && (TrimmedOr(r.varname) == "" ==> name == "B" + r.no)
  {
    var def := RowType(r).value;
    var name := VarName(r);
    var rhs := ExecValue(def, TrimmedOr(r.value), todayIso);
    var exec := "EXEC :" + name + " := " + rhs + ";";
    assert exec == "EXEC :" + (name + " := " + rhs + ";");
    assert exec[..6] == "EXEC :";
  }

  /** The assignment per type: a `TO_DATE` for DATE (today when empty),
      `N'…'` for NVARCHAR2 (its N prefix wins over its being a string type),
      `'…'` for VARCHAR2 and CHAR, and the bare value or `0` for NUMBER. */
  lemma ExecValueByType(value: string, todayIso: string)
    ensures ExecValue(TypeDefOf("DATE").value, value, todayIso)
      == "TO_DATE('" + (if value == "" then todayIso else value) + "','YYYY-MM-DD')"
    ensures ExecValue(TypeDefOf("NVARCHAR2").value, value, todayIso) == "N'" + value + "'"
    ensures ExecValue(TypeDefOf("VARCHAR2").value, value, todayIso) == "'" + value + "'"
    ensures ExecValue(TypeDefOf("CHAR").value, value, todayIso) == "'" + value + "'"
    ensures ExecValue(TypeDefOf("NUMBER").value, value, todayIso) == (if value == "" then "0" else value)
  {
  }

  /** Only the five types of the table are known. */
  lemma TypeDefKeys(typeKey: string)
    ensures TypeDefOf(typeKey).Some? <==> typeKey in {"VARCHAR2", "NVARCHAR2", "CHAR", "NUMBER", "DATE"}
    ensures TypeDefOf(typeKey).Some? ==> TypeDefOf(typeKey).value.name == typeKey
    ensures TypeDefOf(typeKey).Some? ==>
      (TypeDefOf(typeKey).value.isDate <==> TypeDefOf(typeKey).value.lenMode == NoLength)
  {
  }
}
