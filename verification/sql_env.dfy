/** The connection-environment list of js/sql.js: loading with the
    selection fallback, `getSelectedEnv`, `addEnv`, `deleteEnv` and the
    validation `importEnvJson` applies. Storage, JSON text and dialogs are
    replaced by the values they yield. */
module SqlEnv {
  import opened Wrappers

  /** `{ key, username, password, connect_identifier }`; a password that a
      stored or imported entry lacks is `None` (`undefined`). */
  datatype Env = Env(key: string, username: string, password: Option<string>, connect: string)

  /** `envList` and `selectedEnvKey`. */
  datatype EnvState = EnvState(envs: seq<Env>, selected: string)

  datatype EnvError = MissingField | DuplicateKey | LastEnvironment | NotConfirmed | InvalidJson | Unreadable

  const DefaultEnvs: seq<Env> := [
    Env("UT", "xxxx", Some("xxxx"), "127.0.0.1:1521/xxxx"),
    Env("XXX", "xxxx", Some("xxxx"), "127.0.0.1:1521/xxxx")
  ]

  predicate HasKey(envs: seq<Env>, key: string) {
    exists i :: 0 <= i < |envs| && envs[i].key == key
  }

  function Keys(envs: seq<Env>): seq<string> {
    seq(|envs|, i requires 0 <= i < |envs| => envs[i].key)
  }

  /** No two environments share a key. */
  predicate UniqueKeys(envs: seq<Env>) {
    forall i, j :: 0 <= i < j < |envs| ==> envs[i].key != envs[j].key
  }

  /** The selection names an environment, or is `""` for an empty list. */
  predicate SelectionValid(st: EnvState) {
    (|st.envs| > 0 ==> HasKey(st.envs, st.selected)) && (|st.envs| == 0 ==> st.selected == "")
  }

  /** `envList[0]?.key ?? ""`. */
  function FirstKey(envs: seq<Env>): string {
    if |envs| > 0 then envs[0].key else ""
  }

  /** What `localStorage.getItem(ENV_STORAGE_KEY)` led to: nothing (or an
      empty string), text `JSON.parse` rejects, or a parsed list. */
  datatype StoredEnvs = Missing | Corrupt | Parsed(envs: seq<Env>)

  /** `loadEnvs()`: the stored list or the defaults, and the stored selection
      when some environment has that key, else the first key. */
  function LoadEnvs(stored: StoredEnvs, selStored: Option<string>): (st: EnvState)
    ensures SelectionValid(st)
    ensures stored.Parsed? ==> st.envs == stored.envs
    ensures !stored.Parsed? ==> st.envs == DefaultEnvs
  {
    var envs := if stored.Parsed? then stored.envs else DefaultEnvs;
    var sel := if selStored.Some? && selStored.value != "" && HasKey(envs, selStored.value)
      then selStored.value else FirstKey(envs);
    EnvState(envs, sel)
  }

  /** The stored selection survives loading exactly when it is non-empty and
      names an environment of the loaded list. */
  lemma LoadEnvsSelection(stored: StoredEnvs, selStored: Option<string>)
    ensures var st := LoadEnvs(stored, selStored);
      (st.selected == selStored.GetOr("") && selStored.GetOr("") != "")
        <==> (selStored.Some? && selStored.value != "" && HasKey(st.envs, selStored.value))
    ensures var st := LoadEnvs(stored, selStored);
      (!(selStored.Some? && selStored.value != "" && HasKey(st.envs, selStored.value)))
        ==> st.selected == FirstKey(st.envs)
  {
  }

  /** `envList.find(e => e.key === selectedEnvKey) ?? envList[0] ?? DEFAULT_ENVS[0]`. */
  function GetSelectedEnv(st: EnvState): (e: Env)
    ensures |st.envs| == 0 ==> e == DefaultEnvs[0]
    ensures |st.envs| > 0 ==> e in st.envs
  {
    FindKey(st.envs, st.selected).GetOr(if |st.envs| > 0 then st.envs[0] else DefaultEnvs[0])
  }

  /** The first environment with the key. */
  function FindKey(envs: seq<Env>, key: string): (r: Option<Env>)
    ensures r.Some? ==> r.value in envs && r.value.key == key
    ensures r.None? <==> !HasKey(envs, key)
  {
    if |envs| == 0 then None
    else if envs[0].key == key then Some(envs[0])
    else
      var r := FindKey(envs[1..], key);
      assert HasKey(envs[1..], key) ==> HasKey(envs, key) by {
        if HasKey(envs[1..], key) {
          var i :| 0 <= i < |envs[1..]| && envs[1..][i].key == key;
          assert envs[i + 1].key == key;
        }
      }
      assert HasKey(envs, key) ==> HasKey(envs[1..], key) by {
        if HasKey(envs, key) {
          var i :| 0 <= i < |envs| && envs[i].key == key;
          assert i > 0 && envs[1..][i - 1].key == key;
        }
      }
      r
  }

  /** With a valid selection the selected environment is the one the
      selection names; an empty list falls back to the first default. */
  lemma GetSelectedEnvMatches(st: EnvState)
    requires SelectionValid(st)
    ensures |st.envs| > 0 ==> GetSelectedEnv(st).key == st.selected
    ensures |st.envs| == 0 ==> GetSelectedEnv(st) == DefaultEnvs[0]
  {
  }

  /** `addEnv(env)`: rejected when a required field is empty or the key is
      taken, otherwise appended with the selection unchanged. */
  function AddEnv(st: EnvState, e: Env): (r: Result<EnvState, EnvError>)
    ensures r.Failure? <==> e.key == "" || e.username == "" || e.connect == "" || HasKey(st.envs, e.key)
    ensures r.Success? ==> r.value == EnvState(st.envs + [e], st.selected)
    ensures r.Failure? ==> (r.error == MissingField <==> e.key == "" || e.username == "" || e.connect == "")
  {
    if e.key == "" || e.username == "" || e.connect == "" then Failure(MissingField)
    else if HasKey(st.envs, e.key) then Failure(DuplicateKey)
    else Success(EnvState(st.envs + [e], st.selected))
  }

  /** An accepted environment keeps keys unique and the selection valid. */
  lemma AddEnvKeepsInvariants(st: EnvState, e: Env)
    requires UniqueKeys(st.envs) && SelectionValid(st)
    requires AddEnv(st, e).Success?
    ensures UniqueKeys(AddEnv(st, e).value.envs)
    ensures |st.envs| > 0 ==> SelectionValid(AddEnv(st, e).value)
  {
    var envs' := st.envs + [e];
    if |st.envs| > 0 {
      var i :| 0 <= i < |st.envs| && st.envs[i].key == st.selected;
      assert envs'[i].key == st.selected;
    }
  }

  /** `envList.filter(e => e.key !== key)`. */
  function RemoveKey(envs: seq<Env>, key: string): (r: seq<Env>)
    ensures |r| <= |envs|
    ensures forall e :: e in r <==> e in envs && e.key != key
  {
    if |envs| == 0 then []
    else if envs[0].key == key then RemoveKey(envs[1..], key)
    else [envs[0]] + RemoveKey(envs[1..], key)
  }

  /** `deleteEnv(key)` with the answer to the confirmation dialog. */
  function DeleteEnv(st: EnvState, key: string, confirmed: bool): (r: Result<EnvState, EnvError>)
    ensures |st.envs| <= 1 ==> r == Failure(LastEnvironment)
    ensures |st.envs| > 1 && !confirmed ==> r == Failure(NotConfirmed)
    ensures r.Success? ==> r.value.envs == RemoveKey(st.envs, key)
    ensures r.Success? ==> r.value.selected == if st.selected == key then FirstKey(r.value.envs) else st.selected
  {
    if |st.envs| <= 1 then Failure(LastEnvironment)
    else if !confirmed then Failure(NotConfirmed)
    else
      var envs := RemoveKey(st.envs, key);
      Success(EnvState(envs, if st.selected == key then FirstKey(envs) else st.selected))
  }

  /** Deleting removes exactly the entries with that key, keeps the
      selection valid, and with unique keys removes exactly one entry. */
  lemma DeleteEnvKeepsInvariants(st: EnvState, key: string)
    requires SelectionValid(st) && |st.envs| > 1
    ensures var r := DeleteEnv(st, key, true);
      r.Success? && SelectionValid(r.value) && !HasKey(r.value.envs, key)
    ensures UniqueKeys(st.envs) ==> UniqueKeys(DeleteEnv(st, key, true).value.envs)
    ensures UniqueKeys(st.envs) && HasKey(st.envs, key) ==> |DeleteEnv(st, key, true).value.envs| == |st.envs| - 1
  {
    var envs := RemoveKey(st.envs, key);
    RemoveKeyFacts(st.envs, key);
    if st.selected != key {
      var i :| 0 <= i < |st.envs| && st.envs[i].key == st.selected;
      assert st.envs[i] in envs;
      var j :| 0 <= j < |envs| && envs[j] == st.envs[i];
    } else if |envs| > 0 {
      assert envs[0].key == FirstKey(envs);
    }
  }

  lemma RemoveKeyFacts(envs: seq<Env>, key: string)
    ensures !HasKey(RemoveKey(envs, key), key)
    ensures UniqueKeys(envs) ==> UniqueKeys(RemoveKey(envs, key))
    ensures UniqueKeys(envs) && HasKey(envs, key) ==> |RemoveKey(envs, key)| == |envs| - 1
    ensures !HasKey(envs, key) ==> RemoveKey(envs, key) == envs
  {
    if UniqueKeys(envs) {
      RemoveKeyUnique(envs, key);
      if HasKey(envs, key) { RemoveKeyCount(envs, key); }
    }
    if !HasKey(envs, key) { RemoveKeyAbsent(envs, key); }
  }

  /** `HasKey` on a non-empty list splits into head and tail. */
  lemma HasKeyCons(envs: seq<Env>, key: string)
    requires |envs| > 0
    ensures HasKey(envs, key) <==> envs[0].key == key || HasKey(envs[1..], key)
  {
    if HasKey(envs, key) && envs[0].key != key {
      var i :| 0 <= i < |envs| && envs[i].key == key;
      assert envs[1..][i - 1].key == key;
    }
    if HasKey(envs[1..], key) {
      var i :| 0 <= i < |envs[1..]| && envs[1..][i].key == key;
      assert envs[i + 1].key == key;
    }
  }

  lemma {:induction false} RemoveKeyAbsent(envs: seq<Env>, key: string)
    requires !HasKey(envs, key)
    ensures RemoveKey(envs, key) == envs
    decreases |envs|
  {
    if |envs| > 0 {
      HasKeyCons(envs, key);
      RemoveKeyAbsent(envs[1..], key);
      assert [envs[0]] + envs[1..] == envs;
    }
  }

  lemma {:induction false} RemoveKeyUnique(envs: seq<Env>, key: string)
    requires UniqueKeys(envs)
    ensures UniqueKeys(RemoveKey(envs, key))
    decreases |envs|
  {
    if |envs| > 0 {
      var t := envs[1..];
      assert UniqueKeys(t);
      RemoveKeyUnique(t, key);
      if envs[0].key != key {
        var r := RemoveKey(envs, key);
        forall i | 0 < i < |r| ensures r[0].key != r[i].key {
          assert r[i] in RemoveKey(t, key);
          var j :| 0 <= j < |t| && t[j] == r[i];
          assert envs[j + 1] == r[i];
        }
      }
    }
  }

  lemma {:induction false} RemoveKeyCount(envs: seq<Env>, key: string)
    requires UniqueKeys(envs) && HasKey(envs, key)
    ensures |RemoveKey(envs, key)| == |envs| - 1
    decreases |envs|
  {
    var t := envs[1..];
    HasKeyCons(envs, key);
    assert UniqueKeys(t);
    if envs[0].key == key {
      assert !HasKey(t, key);
      RemoveKeyAbsent(t, key);
    } else {
      RemoveKeyCount(t, key);
    }
  }

  /** The guard counts entries, not keys: with an imported list that repeats
      one key, deleting that key empties the list. */
  lemma DeleteEnvCanEmptyList()
    ensures var e := Env("A", "u", None, "h:1521/s");
      DeleteEnv(EnvState([e, e], "A"), "A", true) == Success(EnvState([], ""))
  {
    var e := Env("A", "u", None, "h:1521/s");
    assert RemoveKey([e, e], "A") == RemoveKey([e], "A");
  }

  /** An entry of an imported JSON array, with string-valued fields; a
      missing field is `None`. Fields holding other JSON values are outside
      the model. */
  datatype RawEnv = RawEnv(key: Option<string>, username: Option<string>, password: Option<string>, connect: Option<string>)

  /** What `JSON.parse` made of the file. */
  datatype JsonDoc = NotJson | NotArray | Array(entries: seq<RawEnv>)

  /** `!e.key || !e.username || !e.connect_identifier`. */
  predicate Complete(r: RawEnv) {
    r.key.Some? && r.key.value != "" && r.username.Some? && r.username.value != ""
    && r.connect.Some? && r.connect.value != ""
  }

  function ToEnv(r: RawEnv): Env
    requires Complete(r)
  {
    Env(r.key.value, r.username.value, r.password, r.connect.value)
  }

  /** `importEnvJson`: replaces the list with a non-empty array of complete
      entries and selects the first; anything else leaves the state. */
  function ImportEnvJson(st: EnvState, doc: JsonDoc): (r: Result<EnvState, EnvError>)
    ensures r.Success? <==> doc.Array? && |doc.entries| > 0 && forall i :: 0 <= i < |doc.entries| ==> Complete(doc.entries[i])
    ensures r.Success? ==> (
      && |r.value.envs| == |doc.entries|
      && (forall i :: 0 <= i < |doc.entries| ==> (
            && r.value.envs[i].key == doc.entries[i].key.value
            && r.value.envs[i].username == doc.entries[i].username.value
            && r.value.envs[i].password == doc.entries[i].password
            && r.value.envs[i].connect == doc.entries[i].connect.value))
      && r.value.selected == doc.entries[0].key.value)
    ensures doc.NotJson? ==> r == Failure(Unreadable)
  {
    match doc
    case NotJson => Failure(Unreadable)
    case NotArray => Failure(InvalidJson)
    case Array(es) =>
      if |es| == 0 || exists i :: 0 <= i < |es| && !Complete(es[i]) then Failure(InvalidJson)
      else
        var envs := seq(|es|, i requires 0 <= i < |es| => ToEnv(es[i]));
        Success(EnvState(envs, envs[0].key))
  }

  /** An accepted import leaves a valid selection and every environment with
      the fields a connection needs. */
  lemma ImportEnvJsonValid(st: EnvState, doc: JsonDoc)
    requires ImportEnvJson(st, doc).Success?
    ensures var s := ImportEnvJson(st, doc).value;
      SelectionValid(s) && forall e :: e in s.envs ==> e.key != "" && e.username != "" && e.connect != ""
  {
    var s := ImportEnvJson(st, doc).value;
    assert s.envs[0].key == s.selected;
  }
}
