/**
 * The HTTP handlers around the registry tools: what each one asks of the
 * Skopeo client or the Helm CLI, and how it turns the outcome (a value, an
 * exception, an exit code) into a response.
 */
module Api {
  import opened Strings
  import opened Wrappers
  import opened Process
  import opened Helm

  /**
   * What a handler produces: a response body, an `HTTPException` with its
   * status and detail, or an exception the handler does not catch (the web
   * framework then answers with a generic server error).
   */
  datatype Response<+T> =
    | Ok(body: T)
    | HttpError(status: int, detail: string)
    | Unhandled(error: Exception)

  /** Python truthiness of an optional form or body field: present and non-empty. */
  predicate Truthy(s: Option<string>) {
    s.Some? && s.value != []
  }

  // ---------------------------------------------------------------------------
  // POST /artefact-exists

  const UncategorizedPrefix: string := "Uncategorized error: "

  /** The response body; its one field is called `exists` in the API. */
  datatype ExistsBody = ExistsBody(present: bool)

  /**
   * `artefact_exists`, given what `SkopeoClient.artefact_exists` did with the
   * request's fields: every `Exception` is caught; a permission error is the
   * only 401, everything else that fails is a 500 carrying `str(e)`, with a
   * prefix for exceptions that are neither runtime nor permission errors.
   */
  function ArtefactExists(check: Outcome<bool>): (r: Response<ExistsBody>)
    ensures !r.Unhandled?
    ensures r.Ok? <==> check.Returned?
    ensures r.Ok? ==> r.body.present == check.value
    ensures r.HttpError? ==> r.status == (if check.error.PermissionError? then 401 else 500)
    ensures r.HttpError? ==> EndsWith(r.detail, check.error.message)
    ensures r.HttpError? && check.error.OtherException? ==> r.detail == UncategorizedPrefix + check.error.message
    ensures r.HttpError? && !check.error.OtherException? ==> r.detail == check.error.message
  {
    match check
    case Returned(present) => Ok(ExistsBody(present))
    case Threw(RuntimeError(m)) => HttpError(500, m)
    case Threw(PermissionError(m)) => HttpError(401, m)
    case Threw(OtherException(m)) =>
      assert (UncategorizedPrefix + m)[|UncategorizedPrefix|..] == m;
      HttpError(500, UncategorizedPrefix + m)
  }

  // ---------------------------------------------------------------------------
  // POST /copy-artefact

  datatype CopyRequest = CopyRequest(
    srcRegistryUrl: string,
    srcUsername: Option<string>,
    srcPassword: Option<string>,
    srcArtefactName: string,
    srcArtefactTag: string,
    dstRegistryUrl: string,
    dstUsername: Option<string>,
    dstPassword: Option<string>,
    dstArtefactName: Option<string>,
    dstArtefactTag: Option<string>)

  /** The keyword arguments `copy_artefact` passes to `SkopeoClient.copy_artefact`. */
  datatype CopyCall = CopyCall(
    srcRegistryUrl: string,
    srcArtefactName: string,
    srcArtefactTag: string,
    dstRegistryUrl: string,
    dstArtefactName: string,
    dstArtefactTag: string,
    srcUsername: Option<string>,
    srcPassword: Option<string>,
    dstUsername: Option<string>,
    dstPassword: Option<string>)

  datatype CopyBody = CopyBody(success: bool)

  /** Python's `value or fallback` on an optional string: the value unless it is missing or empty. */
  function OrElse(value: Option<string>, fallback: string): (r: string)
    ensures Truthy(value) ==> r == value.value
    ensures !Truthy(value) ==> r == fallback
    ensures r != [] || fallback == []
  {
    if Truthy(value) then value.value else fallback
  }

  /**
   * The call `copy_artefact` makes: the destination name and tag fall back
   * to the source's when missing or empty; every other field is passed on
   * as received.
   */
  function CopyCallFor(req: CopyRequest): (call: CopyCall)
    ensures call.dstArtefactName
         == (if Truthy(req.dstArtefactName) then req.dstArtefactName.value else req.srcArtefactName)
    ensures call.dstArtefactTag
         == (if Truthy(req.dstArtefactTag) then req.dstArtefactTag.value else req.srcArtefactTag)
    ensures call.srcRegistryUrl == req.srcRegistryUrl && call.dstRegistryUrl == req.dstRegistryUrl
    ensures call.srcArtefactName == req.srcArtefactName && call.srcArtefactTag == req.srcArtefactTag
    ensures call.srcUsername == req.srcUsername && call.srcPassword == req.srcPassword
    ensures call.dstUsername == req.dstUsername && call.dstPassword == req.dstPassword
  {
    CopyCall(
      req.srcRegistryUrl, req.srcArtefactName, req.srcArtefactTag,
      req.dstRegistryUrl,
      OrElse(req.dstArtefactName, req.srcArtefactName),
      OrElse(req.dstArtefactTag, req.srcArtefactTag),
      req.srcUsername, req.srcPassword, req.dstUsername, req.dstPassword)
  }

  /**
   * `copy_artefact`, given how the Skopeo client behaves on each call: only
   * a runtime error is turned into a 500 with `str(e)`; any other exception
   * escapes the handler.
   */
  function CopyArtefact(req: CopyRequest, client: CopyCall -> Outcome<bool>): (r: Response<CopyBody>)
    ensures var outcome := client(CopyCallFor(req));
            && (r.Ok? <==> outcome.Returned?)
            && (r.Ok? ==> r.body.success == outcome.value)
            && (r.HttpError? <==> outcome.Threw? && outcome.error.RuntimeError?)
            && (r.HttpError? ==> r.status == 500 && r.detail == outcome.error.message)
            && (r.Unhandled? ==> r.error == outcome.error)
  {
    match client(CopyCallFor(req))
    case Returned(success) => Ok(CopyBody(success))
    case Threw(RuntimeError(m)) => HttpError(500, m)
    case Threw(e) => Unhandled(e)
  }

  /** An empty value falls back just as a missing one does. */
  lemma OrElseEmptyIsMissing(fallback: string)
    ensures OrElse(Some([]), fallback) == OrElse(None, fallback) == fallback
  {
  }

  /**
   * Giving the destination name empty is the same as leaving it out, and
   * so, independently, for the tag.
   */
  lemma CopyEmptyDestinationIsMissing(req: CopyRequest, client: CopyCall -> Outcome<bool>)
    ensures req.dstArtefactName == Some([]) ==>
      CopyArtefact(req, client) == CopyArtefact(req.(dstArtefactName := None), client)
    ensures req.dstArtefactTag == Some([]) ==>
      CopyArtefact(req, client) == CopyArtefact(req.(dstArtefactTag := None), client)
  {
    OrElseEmptyIsMissing(req.srcArtefactName);
    OrElseEmptyIsMissing(req.srcArtefactTag);
    assert req.dstArtefactName == Some([]) ==>
      CopyCallFor(req) == CopyCallFor(req.(dstArtefactName := None));
    assert req.dstArtefactTag == Some([]) ==>
      CopyCallFor(req) == CopyCallFor(req.(dstArtefactTag := None));
  }

  // ---------------------------------------------------------------------------
  // POST /upload-helm-chart

  const InvalidFileTypeDetail: string := "Invalid file type. Please upload a packaged Helm chart (.tgz)."
  const PushFailedPrefix: string := "Helm push failed: "
  const UploadedDetail: string := "Helm chart uploaded successfully."
  const UnexpectedErrorPrefix: string := "An unexpected error occurred: "

  /** The multipart form: the uploaded file's name, the target URL and optional credentials. */
  datatype UploadForm = UploadForm(
    filename: Option<string>,
    registryUrl: string,
    username: Option<string>,
    password: Option<string>)

  /**
   * How copying the upload into a named temporary file went: its path, or
   * the exception raised while creating, reading or writing it.
   */
  datatype TempFile = Written(path: string) | WriteFailed(error: Exception)

  datatype UploadBody = UploadBody(success: bool, detail: string)

  /** What the handler asks for and answers, given the environment. */
  datatype UploadTrace = UploadTrace(commands: seq<Argv>, response: Response<UploadBody>)

  /** The upload pre-check: a file name that is present, non-empty and ends in `.tgz`. */
  predicate IsChartArchive(filename: Option<string>): (ok: bool)
    ensures ok <==> filename.Some? && EndsWith(filename.value, ".tgz")
  {
    Truthy(filename) && EndsWith(filename.value, ".tgz")
  }

  /** Login is attempted only when both credentials are present and non-empty. */
  predicate LoginRequested(form: UploadForm): (asked: bool)
    ensures asked ==> form.username.Some? && form.password.Some?
    ensures asked <==> !(form.username in {None, Some([])}) && !(form.password in {None, Some([])})
  {
    Truthy(form.username) && Truthy(form.password)
  }

  /** The argument vector of `helm push`, with the registry URL exactly as received. */
  function PushArgv(path: string, registryUrl: string): Argv {
    ["helm", "push", path, registryUrl]
  }

  /** Whether an argument vector is a `helm registry login`. */
  predicate IsLogin(argv: Argv) {
    |argv| >= 3 && argv[0] == "helm" && argv[1] == "registry" && argv[2] == "login"
  }

  /** Whether an argument vector is a `helm push`. */
  predicate IsPush(argv: Argv) {
    |argv| >= 2 && argv[0] == "helm" && argv[1] == "push"
  }

  /**
   * The `except` clauses of `upload_helm_chart`: always a 500; a runtime
   * error's message is the detail, any other exception's message follows a
   * fixed prefix.
   */
  function UploadError(e: Exception): (r: Response<UploadBody>)
    ensures r.HttpError? && r.status == 500
    ensures EndsWith(r.detail, e.message)
    ensures e.RuntimeError? ==> r.detail == e.message
    ensures !e.RuntimeError? ==> r.detail == UnexpectedErrorPrefix + e.message
  {
    var d := if e.RuntimeError? then e.message else UnexpectedErrorPrefix + e.message;
    assert (UnexpectedErrorPrefix + e.message)[|UnexpectedErrorPrefix|..] == e.message;
    HttpError(500, d)
  }

  /**
   * The response once `helm push` has completed: success exactly on exit
   * code 0; a non-zero exit is the push failure message with the stripped
   * standard error, and an exception from the call goes through the
   * `except` clauses.
   */
  function PushResponse(c: Completion): (r: Response<UploadBody>)
    ensures r.Ok? <==> c.Exited? && c.returnCode == 0
    ensures r.Ok? ==> r.body == UploadBody(true, UploadedDetail)
    ensures c.Exited? && c.returnCode != 0 ==> r == HttpError(500, PushFailedPrefix + Strip(c.stderr))
    ensures c.Raised? ==> r == UploadError(c.error)
  {
    match c
    case Exited(code, stderr) =>
      if code != 0 then UploadError(RuntimeError(PushFailedPrefix + Strip(stderr)))
      else Ok(UploadBody(true, UploadedDetail))
    case Raised(e) => UploadError(e)
  }

  /**
   * `upload_helm_chart` as a function of its inputs and of `respond`, the
   * environment's answer to the n-th external command, when `start`
   * commands have been run before: the commands it runs, in order, and
   * its response.
   */
  function Upload(form: UploadForm, temp: TempFile, respond: (nat, Argv) -> Completion, start: nat)
    : (t: UploadTrace)
    ensures !t.response.Unhandled?
    ensures |t.commands| <= 2
    ensures forall k :: 0 <= k < |t.commands| ==> IsLogin(t.commands[k]) || IsPush(t.commands[k])
    ensures t.commands == [] <==> !IsChartArchive(form.filename) || temp.WriteFailed?
  {
    if !IsChartArchive(form.filename) then UploadTrace([], HttpError(400, InvalidFileTypeDetail))
    else
      match temp
      case WriteFailed(e) => UploadTrace([], UploadError(e))
      case Written(path) =>
        var push := PushArgv(path, form.registryUrl);
        assert IsPush(push);
        if LoginRequested(form) then
          var login := LoginArgv(ExtractRegistryHost(form.registryUrl), form.username.value, form.password.value);
          assert IsLogin(login);
          match LoginError(respond(start, login))
          case Some(e) => UploadTrace([login], UploadError(e))
          case None => UploadTrace([login, push], PushResponse(respond(start + 1, push)))
        else
          UploadTrace([push], PushResponse(respond(start, push)))
  }

  /**
   * `upload_helm_chart`: checks the file name, writes the temporary file,
   * logs in when asked to, pushes, and answers.
   */
  method UploadHelmChart(form: UploadForm, temp: TempFile, runner: Runner)
    returns (resp: Response<UploadBody>)
    modifies runner
    ensures var t := Upload(form, temp, runner.respond, |old(runner.issued)|);
            runner.issued == old(runner.issued) + t.commands && resp == t.response
  {
    if !IsChartArchive(form.filename) {
      return HttpError(400, InvalidFileTypeDetail);
    }
    match temp
    case WriteFailed(e) =>
      resp := UploadError(e);
    case Written(path) =>
      if LoginRequested(form) {
        var err := RegistryLogin(runner, ExtractRegistryHost(form.registryUrl),
                                 form.username.value, form.password.value);
        if err.Some? {
          return UploadError(err.value);
        }
      }
      var c := runner.Run(PushArgv(path, form.registryUrl));
      resp := PushResponse(c);
  }

  /**
   * The file-name check comes first: a missing, empty or non-`.tgz` name is
   * answered with 400 before any command runs, and only such a name is.
   */
  lemma UploadRejectsNonArchive(form: UploadForm, temp: TempFile, respond: (nat, Argv) -> Completion, start: nat)
    ensures var t := Upload(form, temp, respond, start);
            && (!IsChartArchive(form.filename) ==>
                  t.commands == [] && t.response == HttpError(400, InvalidFileTypeDetail))
            && (t.response.HttpError? && t.response.status == 400 <==> !IsChartArchive(form.filename))
  {
  }

  /**
   * A login is run exactly when the file is accepted, the temporary file
   * was written and both credentials are non-empty; it is the first command
   * and names the host `extract_registry_host` gives for the URL.
   */
  lemma UploadLogsInIffCredentials(form: UploadForm, temp: TempFile, respond: (nat, Argv) -> Completion, start: nat)
    ensures var t := Upload(form, temp, respond, start);
            && ((exists k :: 0 <= k < |t.commands| && IsLogin(t.commands[k]))
                  <==> IsChartArchive(form.filename) && temp.Written? && LoginRequested(form))
            && (forall k :: 0 <= k < |t.commands| && IsLogin(t.commands[k]) ==>
                  k == 0 && t.commands[k]
                    == ["helm", "registry", "login", ExtractRegistryHost(form.registryUrl),
                        "-u", form.username.value, "-p", form.password.value])
  {
    var t := Upload(form, temp, respond, start);
    UploadCommandCases(form, temp, respond, start);
    if IsChartArchive(form.filename) && temp.Written? {
      PushIsNotLogin(PushArgv(temp.path, form.registryUrl));
      if LoginRequested(form) {
        assert IsLogin(t.commands[0]);
      }
    }
  }

  /** The commands an upload runs, case by case. */
  lemma UploadCommandCases(form: UploadForm, temp: TempFile, respond: (nat, Argv) -> Completion, start: nat)
    ensures var t := Upload(form, temp, respond, start);
            && (!IsChartArchive(form.filename) || temp.WriteFailed? ==> t.commands == [])
            && (IsChartArchive(form.filename) && temp.Written? && !LoginRequested(form) ==>
                  t.commands == [PushArgv(temp.path, form.registryUrl)])
            && (IsChartArchive(form.filename) && temp.Written? && LoginRequested(form) ==>
                  var login := LoginArgv(ExtractRegistryHost(form.registryUrl),
                                         form.username.value, form.password.value);
                  var c := respond(start, login);
                  && IsLogin(login)
                  && (c.Exited? && c.returnCode == 0 ==> t.commands == [login, PushArgv(temp.path, form.registryUrl)])
                  && (!(c.Exited? && c.returnCode == 0) ==> t.commands == [login]))
  {
  }

  /** A single credential is ignored: the upload behaves as if neither had been given. */
  lemma UploadPartialCredentials(form: UploadForm, temp: TempFile, respond: (nat, Argv) -> Completion, start: nat)
    requires !LoginRequested(form)
    ensures Upload(form, temp, respond, start)
         == Upload(form.(username := None, password := None), temp, respond, start)
  {
  }

  /**
   * A failed login stops the upload: nothing is pushed, and a non-zero exit
   * is answered with 500 and the login failure message.
   */
  lemma UploadStopsAfterFailedLogin(form: UploadForm, path: string, respond: (nat, Argv) -> Completion, start: nat)
    requires IsChartArchive(form.filename) && LoginRequested(form)
    requires var c := respond(start, LoginArgv(ExtractRegistryHost(form.registryUrl),
                                               form.username.value, form.password.value));
             !(c.Exited? && c.returnCode == 0)
    ensures var t := Upload(form, Written(path), respond, start);
            var c := respond(start, LoginArgv(ExtractRegistryHost(form.registryUrl),
                                              form.username.value, form.password.value));
            && |t.commands| == 1 && !IsPush(t.commands[0])
            && t.response.HttpError? && t.response.status == 500
            && (c.Exited? ==> t.response.detail == LoginFailedPrefix + Strip(c.stderr))
  {
  }

  /**
   * A push, when one is run, is the last command, runs on the temporary
   * file, and is given the registry URL unchanged, `oci://` and all.
   */
  lemma UploadPushesUnmodifiedUrl(form: UploadForm, path: string, respond: (nat, Argv) -> Completion, start: nat)
    ensures var t := Upload(form, Written(path), respond, start);
            forall k :: 0 <= k < |t.commands| && IsPush(t.commands[k]) ==>
              k == |t.commands| - 1 && t.commands[k] == ["helm", "push", path, form.registryUrl]
  {
    if IsChartArchive(form.filename) && LoginRequested(form) {
      var login := LoginArgv(ExtractRegistryHost(form.registryUrl), form.username.value, form.password.value);
      LoginIsNotPush(login);
      var t := Upload(form, Written(path), respond, start);
      assert t.commands == [login] || t.commands == [login, PushArgv(path, form.registryUrl)];
    }
  }

  /**
   * A push is run exactly when the file is accepted and written and the
   * login was either not asked for or exited with 0.
   */
  lemma UploadPushesIffLoginOk(form: UploadForm, temp: TempFile, respond: (nat, Argv) -> Completion, start: nat)
    ensures var t := Upload(form, temp, respond, start);
            var loginOk := !LoginRequested(form) ||
              var c := respond(start, LoginArgv(ExtractRegistryHost(form.registryUrl),
                                                form.username.value, form.password.value));
              c.Exited? && c.returnCode == 0;
            (exists k :: 0 <= k < |t.commands| && IsPush(t.commands[k]))
              <==> IsChartArchive(form.filename) && temp.Written? && loginOk
  {
    var t := Upload(form, temp, respond, start);
    UploadCommandCases(form, temp, respond, start);
    if IsChartArchive(form.filename) && temp.Written? {
      assert IsPush(PushArgv(temp.path, form.registryUrl));
      if LoginRequested(form) {
        LoginIsNotPush(t.commands[0]);
        if |t.commands| == 2 {
          assert IsPush(t.commands[1]);
        }
      } else {
        assert IsPush(t.commands[0]);
      }
    }
  }

  /**
   * Exceptions go through the `except` clauses: a failure to write the
   * temporary file, and an exception raised by the login or the push call,
   * are answered by UploadError, with no command after the one that raised.
   */
  lemma UploadExceptionResponse(form: UploadForm, temp: TempFile, respond: (nat, Argv) -> Completion, start: nat)
    requires IsChartArchive(form.filename)
    ensures temp.WriteFailed? ==>
      Upload(form, temp, respond, start) == UploadTrace([], UploadError(temp.error))
    ensures temp.Written? && LoginRequested(form) ==>
      var login := LoginArgv(ExtractRegistryHost(form.registryUrl), form.username.value, form.password.value);
      respond(start, login).Raised? ==>
        Upload(form, temp, respond, start) == UploadTrace([login], UploadError(respond(start, login).error))
    ensures temp.Written? && !LoginRequested(form) ==>
      var push := PushArgv(temp.path, form.registryUrl);
      respond(start, push).Raised? ==>
        Upload(form, temp, respond, start) == UploadTrace([push], UploadError(respond(start, push).error))
    ensures temp.Written? && LoginRequested(form) ==>
      var login := LoginArgv(ExtractRegistryHost(form.registryUrl), form.username.value, form.password.value);
      var push := PushArgv(temp.path, form.registryUrl);
      respond(start, login).Exited? && respond(start, login).returnCode == 0 && respond(start + 1, push).Raised? ==>
        Upload(form, temp, respond, start) == UploadTrace([login, push], UploadError(respond(start + 1, push).error))
  {
  }

  /** A push command is never mistaken for a login. */
  lemma PushIsNotLogin(argv: Argv)
    requires IsPush(argv)
    ensures !IsLogin(argv)
  {
    assert |argv[1]| != |"registry"|;
  }

  /** A login command is never mistaken for a push. */
  lemma LoginIsNotPush(argv: Argv)
    requires IsLogin(argv)
    ensures !IsPush(argv)
  {
    assert |argv[1]| != |"push"|;
  }

  /**
   * The upload succeeds exactly when the file is accepted and written, the
   * login was skipped or exited with 0, and the push exited with 0; a push
   * that exits non-zero is answered with 500 and the push failure message.
   */
  lemma UploadOutcome(form: UploadForm, path: string, respond: (nat, Argv) -> Completion, start: nat)
    ensures var t := Upload(form, Written(path), respond, start);
            var loginOk := !LoginRequested(form) ||
              var c := respond(start, LoginArgv(ExtractRegistryHost(form.registryUrl),
                                                form.username.value, form.password.value));
              c.Exited? && c.returnCode == 0;
            var pushAt := if LoginRequested(form) then start + 1 else start;
            var p := respond(pushAt, PushArgv(path, form.registryUrl));
            && (t.response.Ok? <==> IsChartArchive(form.filename) && loginOk && p.Exited? && p.returnCode == 0)
            && (t.response.Ok? ==> t.response.body == UploadBody(true, UploadedDetail))
            && (IsChartArchive(form.filename) && loginOk && p.Exited? && p.returnCode != 0 ==>
                  t.response == HttpError(500, PushFailedPrefix + Strip(p.stderr)))
  {
  }
}
