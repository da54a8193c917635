/** The environment form's submit handler in js/sql.js: trimming, the
    checks in the order the handler makes them (each regular expression
    written as a character-class predicate), the default port and the
    `host:port/service` connect identifier it builds for `addEnv`. */
module SqlForm {
  import opened Wrappers
  import opened Text
  import opened Decimal
  import opened SqlEnv

  /** The raw field values of the form. */
  datatype FormInput = FormInput(key: string, user: string, pass: string, host: string, port: string, service: string)

  /** The first check that fails, in the handler's order. */
  datatype FormError =
    | EmptyKey | EmptyUser | BadUser | EmptyHost | BadHost | BadPort | EmptyService | BadService
    | Rejected(reason: EnvError)

  /** `^[A-Za-z][A-Za-z0-9_$#]*$`: Oracle's rule for user names. */
  predicate IsUserName(s: string) {
    |s| > 0 && IsLetter(s[0]) && forall i :: 1 <= i < |s| ==> IsAlnum(s[i]) || s[i] in "_$#"
  }

  /** `^[A-Za-z0-9][A-Za-z0-9._-]*$`: host names and IPv4 addresses. */
  predicate IsHostName(s: string) {
    |s| > 0 && IsAlnum(s[0]) && forall i :: 1 <= i < |s| ==> IsAlnum(s[i]) || s[i] in "._-"
  }

  /** `^[A-Za-z0-9][A-Za-z0-9._]*$`: Oracle service names. */
  predicate IsServiceName(s: string) {
    |s| > 0 && IsAlnum(s[0]) && forall i :: 1 <= i < |s| ==> IsAlnum(s[i]) || s[i] in "._"
  }

  /** `/^\d+$/.test(p)` and `1 <= +p <= 65535`. */
  predicate IsPort(s: string) {
    |s| > 0 && AllDigits(s) && 1 <= DigitsValue(s) <= 65535
  }

  const DefaultPort: string := "1521"

  /** `${host}:${port}/${service}`. */
  function ConnectIdentifier(host: string, port: string, service: string): string {
    host + ":" + port + "/" + service
  }

  /** The fields as the handler reads them: all but the password trimmed. */
  function Trimmed(f: FormInput): FormInput {
    FormInput(Trim(f.key), Trim(f.user), f.pass, Trim(f.host), Trim(f.port), Trim(f.service))
  }

  /** The checks of the submit handler on trimmed fields; on success the
      environment it hands to `addEnv`. */
  function Check(t: FormInput): (r: Result<Env, FormError>)
    ensures r.Success? ==> (r.value.key == t.key && r.value.username == t.user && r.value.password == Some(t.pass))
  {
    if t.key == "" then Failure(EmptyKey)
    else if t.user == "" then Failure(EmptyUser)
    else if !IsUserName(t.user) then Failure(BadUser)
    else if t.host == "" then Failure(EmptyHost)
    else if !IsHostName(t.host) then Failure(BadHost)
    else if t.port != "" && !IsPort(t.port) then Failure(BadPort)
    else if t.service == "" then Failure(EmptyService)
    else if !IsServiceName(t.service) then Failure(BadService)
    else Success(Env(t.key, t.user, Some(t.pass), ConnectIdentifier(t.host, if t.port == "" then DefaultPort else t.port, t.service)))
  }

  function ValidateForm(f: FormInput): Result<Env, FormError> {
    Check(Trimmed(f))
  }

  /** The form is accepted exactly when every field passes its check; the
      connect identifier uses port 1521 when none is given. */
  lemma CheckAccepts(t: FormInput)
    ensures Check(t).Success? <==>
      t.key != "" && IsUserName(t.user) && IsHostName(t.host) && (t.port == "" || IsPort(t.port)) && IsServiceName(t.service)
    ensures Check(t).Success? ==>
      Check(t).value.connect == ConnectIdentifier(t.host, if t.port == "" then DefaultPort else t.port, t.service)
  {
  }

  /** The error reported is the first failing check, in the handler's order. */
  lemma CheckFirstError(t: FormInput)
    ensures Check(t) == Failure(EmptyKey) <==> t.key == ""
    ensures Check(t) == Failure(EmptyUser) <==> t.key != "" && t.user == ""
    ensures Check(t) == Failure(BadUser) <==> t.key != "" && t.user != "" && !IsUserName(t.user)
    ensures Check(t) == Failure(EmptyHost) <==> t.key != "" && IsUserName(t.user) && t.host == ""
    ensures Check(t) == Failure(BadHost) <==>
      t.key != "" && IsUserName(t.user) && t.host != "" && !IsHostName(t.host)
    ensures Check(t) == Failure(BadPort) <==>
      t.key != "" && IsUserName(t.user) && IsHostName(t.host) && t.port != "" && !IsPort(t.port)
    ensures Check(t) == Failure(EmptyService) <==>
      t.key != "" && IsUserName(t.user) && IsHostName(t.host) && (t.port == "" || IsPort(t.port))
      && t.service == ""
    ensures Check(t) == Failure(BadService) <==>
      t.key != "" && IsUserName(t.user) && IsHostName(t.host) && (t.port == "" || IsPort(t.port))
      && t.service != "" && !IsServiceName(t.service)
  {
  }

  /** A checked user name, host and service are free of the separators of
      the connection string. */
  lemma NamesHaveNoSeparators(user: string, host: string, port: string, service: string)
    requires IsUserName(user) && IsHostName(host) && IsServiceName(service)
    requires port == DefaultPort || IsPort(port)
    ensures '/' !in user && '@' !in user
    ensures ':' !in host && '/' !in host
    ensures ':' !in port && '/' !in port
    ensures ':' !in service && '/' !in service
  {
    assert forall i :: 0 <= i < |port| ==> IsDigit(port[i]);
  }

  /** The connect identifier of an accepted form splits back into the host,
      the port and the service. */
  lemma ConnectIdentifierSplits(host: string, port: string, service: string)
    requires IsHostName(host) && IsServiceName(service) && (port == DefaultPort || IsPort(port))
    ensures Split(ConnectIdentifier(host, port, service), ':') == [host, port + "/" + service]
    ensures Split(port + "/" + service, '/') == [port, service]
  {
    NamesHaveNoSeparators("a", host, port, service);
    assert ConnectIdentifier(host, port, service) == Join([host, port + "/" + service], ':');
    assert ':' !in port + "/" + service;
    SplitJoin([host, port + "/" + service], ':');
    assert port + "/" + service == Join([port, service], '/');
    SplitJoin([port, service], '/');
  }

  /** Submitting the form: validation, then `addEnv`. */
  function SubmitForm(st: EnvState, f: FormInput): (r: Result<EnvState, FormError>)
    ensures r.Success? ==> |r.value.envs| == |st.envs| + 1 && r.value.selected == st.selected
    ensures ValidateForm(f).Failure? ==> r == Failure(ValidateForm(f).error)
  {
    match ValidateForm(f)
    case Failure(e) => Failure(e)
    case Success(env) =>
      match AddEnv(st, env)
      case Failure(e) => Failure(Rejected(e))
      case Success(st') => Success(st')
  }

  /** A valid form is added unless its key is taken. */
  lemma SubmitFormAdds(st: EnvState, f: FormInput)
    requires ValidateForm(f).Success?
    ensures var env := ValidateForm(f).value;
      SubmitForm(st, f) == if HasKey(st.envs, env.key) then Failure(Rejected(DuplicateKey))
        else Success(EnvState(st.envs + [env], st.selected))
  {
    CheckAccepts(Trimmed(f));
  }
}
