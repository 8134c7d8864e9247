# Artefact manager: registry references and upload handler

A model of the logic in the artefact manager service that does not depend on the web framework or on the registry tools.

The service answers HTTP requests by running external registry tools (Skopeo and the Helm CLI). Its own logic is small:

- **Registry-reference normalisation** (`src/helm/helm.py`).
  - `extract_registry_host` removes every `oci://` from a registry URL and keeps the text before the first `/`.
  - `build_chart_reference` builds the `host/path:version` string handed to Helm.
  - `helm_registry_login` runs `helm registry login` and turns a non-zero exit into an error.
- **Handler decisions** (`src/api/api.py`).
  - `artefact_exists` maps exceptions to HTTP statuses.
  - `copy_artefact` falls back to the source's artefact name and tag when the destination's are not given.
  - `upload_helm_chart` checks the file name, logs in when both credentials are given, pushes the chart and answers.

Modules:

- `Strings` (`strings.dfy`): the Python `str` operations these functions use, with Python's semantics.
  - `RemoveAll` is `replace(pat, "")`: one left-to-right pass that removes non-overlapping occurrences.
  - `BeforeFirst` is `split(sep)[0]`.
  - `RStrip`, `LStrip` and `Strip` are `rstrip(chars)`, `lstrip(chars)` and `strip()`. `Strip` uses the whitespace set of `str.isspace`.
  - `BeforeFirst`, `RStrip` and `LStrip` are recursive functions whose contracts characterise their results.
  - `Strip` composes `RStrip` and `LStrip`. Its contract says that only surrounding whitespace is removed, and `StripUnique` shows that this determines the result.
  - `RemoveAll`'s contract only bounds the result's length. Its behaviour is given by lemmas: no occurrence means no change (`RemoveAllWithoutOccurrence`), and a prefix in which no occurrence starts is copied through (`RemoveAllKeepsFront`, `RemoveAllKeepsPrefix`). `Helm.StripOciLeading` covers the case where the text starts with an occurrence.
- `Wrappers` and `Process` (`process.dfy`): `Option`, the exceptions the handlers tell apart, and the external-command runner.
  - `subprocess.run` becomes the class `Process.Runner`. It records every argument vector in `issued`.
  - It answers with `respond(n, argv)`: what the environment makes the n-th command do. That is an exit code and standard error, or an exception raised by the call itself.
  - This lets the model state which commands run, in what order, and when none run at all.
- `Helm` (`helm.dfy`): host extraction, chart references and registry login.
- `Api` (`api.py` handlers, `api.dfy`):
  - The Skopeo client is not part of this model (`src/skopeo/skopeo.py`). The exists handler gets what the client did as an `Outcome`. The copy handler gets the client as a function of the call's arguments.
  - Upload is the pure function `Upload`: the commands run and the response, for a given environment. The lemmas state the handler's promises about it.
  - `UploadHelmChart` is the same sequence as a method over a `Runner`. It is proved to issue exactly the commands `Upload` lists and to return its response.

The model follows what the code does, which in places is less than its documented intent suggests:

- Only the literal `oci://` is removed, at every occurrence. `https://` and other schemes stay, so an `https://` URL has the host `https:`.
- Empty URLs, chart names and versions are never rejected.
- No failure is classified as "not found" or "unauthorized". The only such distinction is `artefact_exists` mapping `PermissionError` to 401.
- The upload route is `/upload-helm-chart`, and `api.py` inlines its own copy of the login (`src/api/api.py:114-124`). The copy builds the same argument vector and raises the same message as `helm_registry_login`, so the model uses `Helm.RegistryLogin` for both.

## Model

| member | source | states |
|---|---|---|
| `Strings.RemoveAll` | src/helm/helm.py:44 | `replace("oci://", "")` only deletes: the result is never longer than the URL |
| `Strings.RemoveAllWithoutOccurrence` | src/helm/helm.py:44 | a string in which the pattern never occurs is returned unchanged |
| `Strings.RemoveAllKeepsFront` | src/helm/helm.py:44 | when no occurrence starts among the first `k` characters, they are copied through and the scan resumes at `k` |
| `Strings.RemoveAllKeepsPrefix` | src/helm/helm.py:44 | a prefix in which no occurrence starts is copied through, and the rest is processed as if it stood alone |
| `Strings.BeforeFirst` | src/helm/helm.py:44 | `split("/")[0]` holds no `/`, is a prefix of its input, and is followed in the input by `/` or by nothing |
| `Strings.BeforeFirstUnique` | src/helm/helm.py:44 | those three properties determine `split("/")[0]` completely |
| `Strings.BeforeFirstOfField` | src/helm/helm.py:44 | a `/`-free text followed by `/` is the first field, whatever comes after |
| `Strings.RStrip` | src/helm/helm.py:61 | `rstrip("/")` keeps a prefix that does not end in `/`, and removes only `/` characters |
| `Strings.RStripAppend` | src/helm/helm.py:61 | `rstrip` ignores one more trailing `/`: `rstrip(s + "/") == rstrip(s)` |
| `Strings.BeforeFirstOfRStrip` | src/helm/helm.py:61-64 | removing trailing slashes never changes the first `/`-separated segment |
| `Strings.LStrip` | src/helm/helm.py:31 | `lstrip` keeps a suffix that does not start with a stripped character, and removes only such characters |
| `Strings.Strip` | src/helm/helm.py:31 | `stderr.strip()` is a piece of `stderr` with only whitespace before and after it, and the piece neither starts nor ends with whitespace |
| `Strings.StrippedPiece` | src/helm/helm.py:31 | `rstrip` followed by `lstrip` leaves `s` with only stripped characters cut off, before and after |
| `Strings.StrippedEnds` | src/helm/helm.py:31 | for any set of characters, `rstrip` then `lstrip` leaves a piece trimmed at both ends that neither starts nor ends with a stripped character |
| `Strings.StrippedLastKept` | src/helm/helm.py:31 | `lstrip` keeps the last character of its input unless it removes everything |
| `Strings.StripUnique` | src/helm/helm.py:31 | any piece of `s` that meets `Strip`'s contract is `strip()` of `s`, so the contract determines the result |
| `Strings.StripUnpadded` | src/helm/helm.py:31 | text without surrounding whitespace is left as it is by `strip()` |
| `Strings.StripIdempotent` | src/helm/helm.py:31 | stripping twice equals stripping once |
| `Helm.ExtractRegistryHost` | src/helm/helm.py:34-44 | the host has no `/`; it is the prefix, up to the first `/`, of the URL after every `oci://` has been removed |
| `Helm.SlashFreeHasNoOci` | src/helm/helm.py:44 | text without `/` cannot contain `oci://` |
| `Helm.SlashFreeHostIsFixed` | src/helm/helm.py:44 | a `/`-free text is its own registry host |
| `Helm.ExtractRegistryHostIdempotent` | src/helm/helm.py:44 | extracting the host of a host changes nothing |
| `Helm.StripOciLeading` | src/helm/helm.py:44 | a leading `oci://` is dropped and the rest is processed on its own |
| `Helm.StripOciHostPath` | src/helm/helm.py:44 | in `oci://host/path`, a `/`-free host survives the removal intact and the path is processed separately. The exception: a host ending in `oci:` followed by a path starting with `/` |
| `Helm.HostKeepsPort` | src/helm/helm.py:44 | `oci://host/path` yields `host`, including any `:port`, with the same exception |
| `Helm.OtherSchemeIsHost` | src/helm/helm.py:44 | any other `scheme://` is not removed, and `scheme:` becomes the host (unless the scheme ends in `oci`) |
| `Helm.HttpsUrlHost` | src/helm/helm.py:44 | every `https://` URL has the host `https:` |
| `Helm.PlainHostExample` | tests/test_helm_helpers.py:40-45 | `oci://registry.example.com/project` has the host `registry.example.com` |
| `Helm.PortHostExample` | tests/test_helm_helpers.py:46-49 | `oci://harbor.company.com:5000/library` has the host `harbor.company.com:5000` |
| `Helm.BuildChartReference` | src/helm/helm.py:47-68 | total on all inputs; the reference always ends with `/chart_name:chart_version` |
| `Helm.NestedChartReference` | src/helm/helm.py:61-64 | a chart name containing `/` gives `extract_registry_host(url) + "/" + name + ":" + version` |
| `Helm.FlatChartReference` | src/helm/helm.py:61-67 | for a chart name without `/`, the text before `/name:version` is the `oci://`-stripped URL without its trailing slashes. It never ends in `/` |
| `Helm.ProjectUrlReferences` | tests/test_helm_helpers.py:51-63 | for any `oci://host/project`, a nested name goes under `host` and a bare name under `host/project` |
| `Helm.NestedReferenceExample` | tests/test_helm_helpers.py:51-56 | `oci://registry.example.com/project` with `subproject/chart-name` and `1.0.0` gives `registry.example.com/subproject/chart-name:1.0.0` |
| `Helm.FlatReferenceExample` | tests/test_helm_helpers.py:58-63 | the same URL with `chart-name` gives `registry.example.com/project/chart-name:1.0.0` |
| `Helm.RegistryLogin` | src/helm/helm.py:7-31 | runs exactly `helm registry login host -u username -p password`. It fails exactly when that exits non-zero, with `"Helm registry login failed: " + strip(stderr)`. An exception from the call propagates |
| `Helm.LoginError` | src/helm/helm.py:30-31 | no error exactly on exit code 0. A non-zero exit raises `Helm registry login failed: ` + stripped stderr; an exception from the call is passed on unchanged |
| `Helm.LoginFailureExample` | tests/test_helm_helpers.py:32-38 | exit code 1 with `login failed` gives `Helm registry login failed: login failed` |
| `Process.Runner.Run` | src/helm/helm.py:29 | running a command appends its argument vector to the record and returns the environment's answer for it |
| `Api.ArtefactExists` | src/api/api.py:29-52 | every `Exception` is caught. `PermissionError` is the only 401; other failures are 500. The detail is `str(e)` for runtime and permission errors, and `Uncategorized error: ` + `str(e)` for any other exception |
| `Api.OrElse` | src/api/api.py:64-65 | Python `value or fallback`: the value unless it is missing or empty |
| `Api.OrElseEmptyIsMissing` | src/api/api.py:64-65 | `or` falls back on an empty value exactly as on a missing one |
| `Api.CopyCallFor` | src/api/api.py:63-78 | destination name and tag default to the source's when missing or empty; every other field passes through unchanged |
| `Api.CopyArtefact` | src/api/api.py:55-81 | success iff the client returns. Only a `RuntimeError` becomes a 500 with its message; every other exception escapes the handler |
| `Api.CopyEmptyDestinationIsMissing` | src/api/api.py:64-65 | an empty destination name behaves exactly like a missing one, and so, independently, does an empty destination tag |
| `Api.UploadError` | src/api/api.py:142-147 | upload failures are always 500. The detail is the message itself for a `RuntimeError` and `An unexpected error occurred: ` + message for every other exception |
| `Api.IsChartArchive` | src/api/api.py:100 | the file-name check accepts exactly the names that are present and end in `.tgz`; the separate emptiness test is subsumed |
| `Api.LoginRequested` | src/api/api.py:113 | a login is asked for exactly when neither credential is missing or empty |
| `Api.PushResponse` | src/api/api.py:130-141 | after the push, success exactly on exit code 0. A non-zero exit gives 500 `Helm push failed: ` + stripped stderr; an exception from the call goes through the `except` clauses |
| `Api.Upload` | src/api/api.py:84-149 | the handler's commands and response for an environment: every `Exception` is caught, at most two commands run, each a login or a push, and none runs exactly when the file is rejected or could not be written |
| `Api.UploadHelmChart` | src/api/api.py:84-149 | the method issues exactly the commands `Upload` lists, in order, after those already run, and returns its response |
| `Api.UploadRejectsNonArchive` | src/api/api.py:100-104 | a missing, empty or non-`.tgz` file name gets 400 with no command run, and only such a name gets 400 |
| `Api.UploadCommandCases` | src/api/api.py:100-134 | the commands run, by case: none if the file is rejected or not written; the push alone without credentials; login then push after a login exiting 0; the login alone otherwise |
| `Api.UploadLogsInIffCredentials` | src/api/api.py:112-119 | a login runs iff the file was accepted and written and both credentials are non-empty. It is the first command, and its host is `extract_registry_host(registry_url)` |
| `Api.UploadPartialCredentials` | src/api/api.py:113 | supplying only one credential behaves exactly like supplying neither |
| `Api.UploadStopsAfterFailedLogin` | src/api/api.py:120-124 | a failed login means no push and a 500. For a non-zero exit the detail is `Helm registry login failed: ` + stripped stderr |
| `Api.UploadPushesIffLoginOk` | src/api/api.py:112-134 | a push runs exactly when the file is accepted and written and the login was skipped or exited with 0 |
| `Api.UploadPushesUnmodifiedUrl` | src/api/api.py:126-134 | a push, if run, is the last command and is `helm push <temp file> <registry_url>` with the URL unmodified |
| `Api.UploadOutcome` | src/api/api.py:130-141 | success iff the file was accepted, the login was skipped or exited 0, and the push exited 0. A non-zero push gives 500 `Helm push failed: ` + stripped stderr |
| `Api.UploadExceptionResponse` | src/api/api.py:106-147 | a failed write of the temporary file, or an exception raised by the login or the push call, is answered by `UploadError`: 500, bare message for a `RuntimeError`, `An unexpected error occurred: ` + message otherwise. No command runs after the one that raised |

## Left out

- The Skopeo client (`SkopeoClient.artefact_exists`, `SkopeoClient.copy_artefact`): `src/skopeo/skopeo.py` is not part of this model. The handlers receive its outcome, or receive it as a function.
- Process execution, the temporary file and the multipart upload: `subprocess.run`, `tempfile.NamedTemporaryFile`, `await chart_file.read()` and `chart_file.close()` are I/O.
  - The runner's `respond` function replaces the processes.
  - The `TempFile` value replaces writing the upload: its path, or the exception raised while writing it.
  - An exception raised by `chart_file.close()` in the `finally` clause is not modelled.
- FastAPI routing, request validation (a missing `registry_url` gives 422), `redirect_to_docs` and the `FastAPI` application object are framework plumbing.
  - An exception that escapes a handler is `Unhandled`. The model does not pin the framework's generic 500 page.
- Standard output of the external commands is captured by the source but never used, so it is not modelled.
- `src/api/schemas.py` declares request and response shapes only. Its fields appear in the request and body datatypes; the `exists` field of the exists response is named `present`, because `exists` is a Dafny keyword.
- Exceptions that derive only from `BaseException` are not represented: `KeyboardInterrupt`, `SystemExit`, and `asyncio.CancelledError` (which can arise at `await chart_file.read()`). `except Exception` (src/api/api.py:51, src/api/api.py:144) does not catch them, so they escape both handlers, passing through upload's `finally`. `Process.Exception` covers only `Exception` subclasses, so the "caught" promises of `Api.ArtefactExists` and `Api.Upload` are about those.
- Concurrency between requests, and the registry tools' shared login state, are outside this model.
