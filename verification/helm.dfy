/**
 * Helm helpers for OCI registries: the registry host used to log in, the
 * `host/path:version` chart reference handed to the Helm CLI, and
 * `helm registry login` itself.
 */
module Helm {
  import opened Strings
  import opened Wrappers
  import opened Process

  /** The only scheme the helpers remove, wherever it occurs in the URL. */
  const OciScheme: string := "oci://"

  const LoginFailedPrefix: string := "Helm registry login failed: "

  /** `registry_url.replace("oci://", "")`. */
  function StripOci(url: string): string {
    RemoveAll(url, OciScheme)
  }

  /**
   * `extract_registry_host`: the URL with every `oci://` removed, up to its
   * first `/`. The host never contains `/` and is followed in the stripped
   * URL by `/` or by nothing.
   */
  function ExtractRegistryHost(url: string): (host: string)
    ensures '/' !in host
    ensures StartsWith(StripOci(url), host)
    ensures host == StripOci(url) || StripOci(url)[|host|] == '/'
  {
    BeforeFirst(StripOci(url), '/')
  }

  /**
   * `build_chart_reference`: the reference always ends with
   * `/chart_name:chart_version`; what comes before depends on whether the
   * chart name carries its own project path.
   */
  function BuildChartReference(url: string, chartName: string, chartVersion: string): (ref: string)
    ensures EndsWith(ref, "/" + chartName + ":" + chartVersion)
  {
    var base := RStrip(StripOci(url), {'/'});
    var prefix := if '/' in chartName then BeforeFirst(base, '/') else base;
    var suffix := "/" + chartName + ":" + chartVersion;
    assert (prefix + suffix)[|prefix|..] == suffix;
    prefix + suffix
  }

  /** A character that differs from `oci://` at offset `k` rules out an occurrence at `i`. */
  lemma NotOciAt(s: string, i: int, k: int)
    requires 0 <= i && 0 <= k < |OciScheme| && i + k < |s|
    requires s[i + k] != OciScheme[k]
    ensures !OccursAt(s, OciScheme, i)
  {
    if i + |OciScheme| <= |s| {
      assert s[i..i + |OciScheme|][k] == s[i + k];
    }
  }

  /** No `oci://` starts inside a host without `/` that is followed by `/path`. */
  lemma NoOciInHost(h: string, path: string, i: int)
    requires '/' !in h
    requires !(EndsWith(h, "oci:") && StartsWith(path, "/"))
    requires 0 <= i < |h|
    ensures !OccursAt(h + ("/" + path), OciScheme, i)
  {
    var s := h + ("/" + path);
    if i + 6 <= |s| {
      if i + 4 < |h| {
        assert s[i + 4] == h[i + 4] && h[i + 4] in h;
        NotOciAt(s, i, 4);
      } else if i + 4 == |h| {
        if s[i + 5] != '/' {
          NotOciAt(s, i, 5);
        } else {
          assert path[..1] == "/";
          assert h[|h| - 4..] != "oci:";
          var k :| 0 <= k < 4 && h[|h| - 4..][k] != "oci:"[k];
          assert s[i + k] == h[|h| - 4..][k];
          NotOciAt(s, i, k);
        }
      } else {
        assert s[|h|] == '/';
        NotOciAt(s, i, |h| - i);
      }
    }
  }

  /** No `oci://` starts inside `scheme:` of `scheme://rest` unless the scheme ends in `oci`. */
  lemma NoOciInScheme(scheme: string, rest: string, i: int)
    requires '/' !in scheme
    requires !EndsWith(scheme, "oci")
    requires 0 <= i <= |scheme|
    ensures !OccursAt(scheme + ":" + ("//" + rest), OciScheme, i)
  {
    var s := scheme + ":" + ("//" + rest);
    if i + 6 <= |s| {
      var d := |scheme| - i;
      if d >= 5 {
        assert s[i + 4] == scheme[i + 4] && scheme[i + 4] in scheme;
        NotOciAt(s, i, 4);
      } else if d == 4 {
        assert s[i + 4] == ':';
        NotOciAt(s, i, 4);
      } else if d == 3 {
        assert s[i..i + 3] == scheme[|scheme| - 3..] != "oci";
        var k :| 0 <= k < 3 && s[i..i + 3][k] != "oci"[k];
        assert s[i + k] == s[i..i + 3][k];
        NotOciAt(s, i, k);
      } else if d == 2 {
        assert s[i + 3] == '/';
        NotOciAt(s, i, 3);
      } else if d == 1 {
        assert s[i + 1] == ':';
        NotOciAt(s, i, 1);
      } else {
        assert s[i] == ':';
        NotOciAt(s, i, 0);
      }
    }
  }

  /** `oci://` contains `/`, so it cannot occur in text without one. */
  lemma SlashFreeHasNoOci(s: string)
    requires '/' !in s
    ensures !Contains(s, OciScheme)
  {
    forall i | 0 <= i <= |s| ensures !OccursAt(s, OciScheme, i) {
      if i + 4 < |s| {
        assert s[i + 4] in s && OciScheme[4] == '/';
        NotOciAt(s, i, 4);
      }
    }
  }

  /** Text without `/` is already a registry host. */
  lemma {:induction false} SlashFreeHostIsFixed(h: string)
    requires '/' !in h
    ensures ExtractRegistryHost(h) == h
  {
    SlashFreeHasNoOci(h);
    RemoveAllWithoutOccurrence(h, OciScheme);
  }

  /** Extracting the host of a host changes nothing. */
  lemma ExtractRegistryHostIdempotent(url: string)
    ensures ExtractRegistryHost(ExtractRegistryHost(url)) == ExtractRegistryHost(url)
  {
    SlashFreeHostIsFixed(ExtractRegistryHost(url));
  }

  /**
   * Behind a leading `oci://`, a host without `/` survives the removal
   * intact and the path is stripped on its own. The one exception is a host
   * ending in `oci:` whose path starts with `/`: the `oci://` formed across
   * the boundary is removed too.
   */
  lemma StripOciHostPath(h: string, path: string)
    requires '/' !in h
    requires !(EndsWith(h, "oci:") && StartsWith(path, "/"))
    ensures StripOci(OciScheme + h + "/" + path) == h + "/" + StripOci(path)
  {
    var tail := h + ("/" + path);
    assert OciScheme + h + "/" + path == OciScheme + tail;
    StripOciLeading(tail);
    forall i | 0 <= i < |h| ensures !OccursAt(tail, OciScheme, i) {
      NoOciInHost(h, path, i);
    }
    RemoveAllKeepsPrefix(h, "/" + path, OciScheme);
    StripOciAfterSlash(path);
    assert h + ("/" + StripOci(path)) == h + "/" + StripOci(path);
  }

  /** A leading `oci://` is removed and the scan goes on with the rest. */
  lemma StripOciLeading(rest: string)
    ensures StripOci(OciScheme + rest) == StripOci(rest)
  {
    var url := OciScheme + rest;
    assert url[..|OciScheme|] == OciScheme && url[|OciScheme|..] == rest;
  }

  /** A leading `/` is copied through by the removal of `oci://`. */
  lemma StripOciAfterSlash(path: string)
    ensures StripOci("/" + path) == "/" + StripOci(path)
  {
    assert !OccursAt("/" + path, OciScheme, 0) by {
      if 6 <= |"/" + path| {
        assert ("/" + path)[0..6][0] == '/';
      }
    }
    RemoveAllKeepsPrefix("/", path, OciScheme);
  }

  /**
   * `oci://host/path` gives back `host` whatever `host` holds besides `/`,
   * a `:port` included (with the exception of StripOciHostPath).
   */
  lemma HostKeepsPort(h: string, path: string)
    requires '/' !in h
    requires !(EndsWith(h, "oci:") && StartsWith(path, "/"))
    ensures ExtractRegistryHost(OciScheme + h + "/" + path) == h
  {
    StripOciHostPath(h, path);
    BeforeFirstOfField(h, '/', StripOci(path));
  }

  /**
   * Every scheme other than `oci://` stays in the URL, so its name and
   * colon are taken for the host: `https://registry/project` yields `https:`.
   */
  lemma OtherSchemeIsHost(scheme: string, rest: string)
    requires '/' !in scheme
    requires !EndsWith(scheme, "oci")
    ensures ExtractRegistryHost(scheme + "://" + rest) == scheme + ":"
  {
    var a := scheme + ":";
    var b := "//" + rest;
    var s := a + b;
    assert s == scheme + "://" + rest;
    forall i | 0 <= i < |a| ensures !OccursAt(s, OciScheme, i) {
      NoOciInScheme(scheme, rest, i);
    }
    RemoveAllKeepsPrefix(a, b, OciScheme);
    var tail := RemoveAll(b, OciScheme);
    assert tail != [] && tail[0] == '/' by {
      if |b| >= |OciScheme| {
        assert b[..|OciScheme|] != OciScheme by { assert b[..|OciScheme|][0] == '/'; }
      }
    }
    assert StripOci(s) == scheme + ":" + [tail[0]] + tail[1..];
    BeforeFirstOfField(scheme + ":", '/', tail[1..]);
  }

  /**
   * A chart name carrying its own project path is placed under the bare
   * registry host: the URL's own path is dropped.
   */
  lemma NestedChartReference(url: string, chartName: string, chartVersion: string)
    requires '/' in chartName
    ensures BuildChartReference(url, chartName, chartVersion)
         == ExtractRegistryHost(url) + "/" + chartName + ":" + chartVersion
  {
    BeforeFirstOfRStrip(StripOci(url), '/');
  }

  /**
   * A bare chart name is placed under the URL's whole path: the text before
   * `/chart_name:chart_version` is the `oci://`-stripped URL without its
   * trailing slashes, so it never ends in `/`.
   */
  lemma FlatChartReference(url: string, chartName: string, chartVersion: string)
    requires '/' !in chartName
    ensures var ref := BuildChartReference(url, chartName, chartVersion);
            var base := ref[..|ref| - |chartName| - |chartVersion| - 2];
            && StartsWith(StripOci(url), base)
            && (base == [] || base[|base| - 1] != '/')
            && forall i :: |base| <= i < |StripOci(url)| ==> StripOci(url)[i] == '/'
  {
    var base := RStrip(StripOci(url), {'/'});
    var ref := BuildChartReference(url, chartName, chartVersion);
    assert ref == base + ("/" + chartName + ":" + chartVersion);
    assert ref[..|ref| - |chartName| - |chartVersion| - 2] == base;
  }

  /** The argument vector of `helm registry login`. */
  function LoginArgv(host: string, username: string, password: string): Argv {
    ["helm", "registry", "login", host, "-u", username, "-p", password]
  }

  /**
   * The error `helm_registry_login` raises, if any, for how the login
   * command completed: none exactly on exit code 0, a runtime error with
   * the stripped standard error on any other exit code, and the call's own
   * exception unchanged.
   */
  function LoginError(c: Completion): (err: Option<Exception>)
    ensures err.None? <==> c.Exited? && c.returnCode == 0
    ensures c.Exited? && c.returnCode != 0 ==> err == Some(RuntimeError(LoginFailedPrefix + Strip(c.stderr)))
    ensures c.Raised? ==> err == Some(c.error)
  {
    match c
    case Exited(code, stderr) =>
      if code != 0 then Some(RuntimeError(LoginFailedPrefix + Strip(stderr))) else None
    case Raised(e) => Some(e)
  }

  /**
   * `helm_registry_login`: runs exactly one command, the login argument
   * vector, and fails exactly when it exits non-zero, with the stripped
   * standard error after a fixed prefix; an exception from the call itself
   * propagates unchanged.
   */
  method RegistryLogin(runner: Runner, host: string, username: string, password: string)
    returns (err: Option<Exception>)
    modifies runner
    ensures runner.issued
         == old(runner.issued) + [["helm", "registry", "login", host, "-u", username, "-p", password]]
    ensures var c := runner.respond(|old(runner.issued)|, LoginArgv(host, username, password));
            && (err.None? <==> c.Exited? && c.returnCode == 0)
            && (c.Exited? && c.returnCode != 0 ==>
                  err == Some(RuntimeError(LoginFailedPrefix + Strip(c.stderr))))
            && (c.Raised? ==> err == Some(c.error))
  {
    var c := runner.Run(LoginArgv(host, username, password));
    err := LoginError(c);
  }

  /** A plain host behind `oci://`. */
  lemma PlainHostExample()
    ensures ExtractRegistryHost("oci://" + "registry.example.com" + "/" + "project") == "registry.example.com"
  {
    HostKeepsPort("registry.example.com", "project");
  }

  /** A host with a port behind `oci://`: the port stays in the host. */
  lemma PortHostExample()
    ensures ExtractRegistryHost("oci://" + "harbor.company.com:5000" + "/" + "library")
         == "harbor.company.com:5000"
  {
    HostKeepsPort("harbor.company.com:5000", "library");
  }

  /** Every `https://` URL has the host `https:`: that scheme is not removed. */
  lemma HttpsUrlHost(rest: string)
    ensures ExtractRegistryHost("https://" + rest) == "https:"
  {
    assert "https" + "://" + rest == "https://" + rest;
    OtherSchemeIsHost("https", rest);
  }

  /**
   * The two reference shapes for a URL `oci://host/project`: a chart name
   * with its own project path goes under `host` alone, a bare chart name
   * under `host/project`.
   */
  lemma ProjectUrlReferences(h: string, project: string, chartName: string, chartVersion: string)
    requires '/' !in h && '/' !in project && project != []
    ensures '/' in chartName ==>
      BuildChartReference(OciScheme + h + "/" + project, chartName, chartVersion)
        == h + "/" + chartName + ":" + chartVersion
    ensures '/' !in chartName ==>
      BuildChartReference(OciScheme + h + "/" + project, chartName, chartVersion)
        == h + "/" + project + "/" + chartName + ":" + chartVersion
  {
    var url := OciScheme + h + "/" + project;
    assert !StartsWith(project, "/") by { assert project[0] in project; }
    StripOciHostPath(h, project);
    SlashFreeHostIsFixed(project);
    var stripped := h + "/" + project;
    assert StripOci(url) == stripped;
    assert RStrip(stripped, {'/'}) == stripped by {
      assert stripped[|stripped| - 1] == project[|project| - 1];
      assert project[|project| - 1] in project;
    }
    if '/' in chartName {
      HostKeepsPort(h, project);
      NestedChartReference(url, chartName, chartVersion);
    }
  }

  /** A chart name with its own project path goes directly under the host. */
  lemma NestedReferenceExample()
    ensures BuildChartReference("oci://" + "registry.example.com" + "/" + "project", "subproject/chart-name", "1.0.0")
         == "registry.example.com" + "/" + "subproject/chart-name" + ":" + "1.0.0"
  {
    var h, project, chartName := "registry.example.com", "project", "subproject/chart-name";
    assert '/' !in h && '/' !in project && chartName[10] == '/';
    ProjectUrlReferences(h, project, chartName, "1.0.0");
  }

  /** A bare chart name goes under the URL's project. */
  lemma FlatReferenceExample()
    ensures BuildChartReference("oci://" + "registry.example.com" + "/" + "project", "chart-name", "1.0.0")
         == "registry.example.com" + "/" + "project" + "/" + "chart-name" + ":" + "1.0.0"
  {
    var h, project, chartName := "registry.example.com", "project", "chart-name";
    assert '/' !in h && '/' !in project && '/' !in chartName;
    ProjectUrlReferences(h, project, chartName, "1.0.0");
  }

  /** A login that exits with 1 and `login failed` on standard error fails with that text. */
  lemma LoginFailureExample()
    ensures LoginError(Exited(1, "login failed")) == Some(RuntimeError(LoginFailedPrefix + "login failed"))
  {
    StripUnpadded("login failed");
  }
}
