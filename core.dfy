/**
 * `retrieve_from_doi` (pooch_doi/core.py): parse the DOI, dispatch on its
 * netloc, drop the path's leading '/', ask the selected repository for the
 * file's download URL and hand that URL and the caller's arguments to
 * `pooch.retrieve`.
 *
 * Dispatch, `download_url` and `pooch.retrieve` are collaborators passed in as
 * functions. A run returns its result together with the list of collaborator
 * calls it made, so that what is called, with what and in which order can be
 * stated.
 */
module Core {
  import opened Wrappers
  import opened PyStr
  import opened DoiUtils
  import opened Repository

  /** A caller-supplied callable (`processor`, `downloader`), known only by identity. */
  datatype Hook = NoHook | Hook(id: nat)

  /** The arguments of one `pooch.retrieve` call, in its parameter order. */
  datatype FetchRequest = FetchRequest(
    url: string,
    knownHash: Option<string>,
    fname: Option<string>,
    path: Option<string>,
    processor: Hook,
    downloader: Hook,
    progressbar: bool)

  /** One call to a collaborator. */
  datatype ExternalCall =
    | DispatchCall(doi: string)                           // doi_to_repository(doi)
    | DownloadUrlCall(instance: Instance, fileName: string) // instance.download_url(file_name)
    | RetrieveCall(request: FetchRequest)                 // pooch.retrieve(...)

  /** What `retrieve_from_doi` lets escape, by origin. */
  datatype RetrieveError =
    | ParseFailed(parseError: DoiError)
    | DispatchFailed(dispatchError: RepositoryError)
    | DownloadUrlFailed(message: string)
    | FetchFailed(message: string)

  /** The collaborators, as the functions they compute. */
  datatype Collaborators = Collaborators(
    dispatch: string -> Result<Instance, RepositoryError>,
    downloadUrl: (Instance, string) -> Result<string, string>,
    retrieve: FetchRequest -> Result<string, string>)

  /** The result of a call and the collaborator calls it made, in order. */
  datatype Run = Run(result: Result<string, RetrieveError>, calls: seq<ExternalCall>)

  /** `if doi_path[0] == "/": doi_path = doi_path[1:]` */
  function DropLeadingSlash(path: string): (p: string)
    requires |path| > 0
    ensures path[0] == '/' ==> "/" + p == path
    ensures path[0] != '/' ==> p == path
  {
    if path[0] == '/' then path[1..] else path
  }

  /**
   * `retrieve_from_doi`. A DOI that does not parse reaches no collaborator.
   * Otherwise dispatch is called first, once, with the netloc; nothing else
   * is called unless it succeeds. `download_url` receives the parsed path
   * minus its one leading '/', and is called whenever dispatch succeeds.
   * When it yields a URL, `pooch.retrieve` is called exactly once, last, with
   * that URL and the caller's arguments unchanged, and its result is the result.
   */
  function RetrieveFromDoi(
    doi: string,
    knownHash: Option<string>,
    fname: Option<string>,
    path: Option<string>,
    processor: Hook,
    downloader: Hook,
    progressbar: bool,
    env: Collaborators): (run: Run)
    ensures ParseDoi(doi).Failure? ==> run == Run(Failure(ParseFailed(ParseDoi(doi).error)), [])
    ensures ParseDoi(doi).Success? ==>
      && 1 <= |run.calls| <= 3
      && run.calls[0] == DispatchCall(ParseDoi(doi).value.netloc)
      && (env.dispatch(ParseDoi(doi).value.netloc).Failure? ==>
            run == Run(Failure(DispatchFailed(env.dispatch(ParseDoi(doi).value.netloc).error)), run.calls[..1]))
      && (env.dispatch(ParseDoi(doi).value.netloc).Success? ==> |run.calls| >= 2)
    ensures |run.calls| >= 2 ==>
      && ParseDoi(doi).Success?
      && run.calls[1].DownloadUrlCall?
      && env.dispatch(ParseDoi(doi).value.netloc) == Success(run.calls[1].instance)
      && "/" + run.calls[1].fileName == ParseDoi(doi).value.path
    ensures |run.calls| >= 2 ==>
      var url := env.downloadUrl(run.calls[1].instance, run.calls[1].fileName);
      && (url.Failure? ==> |run.calls| == 2 && run.result == Failure(DownloadUrlFailed(url.error)))
      && (url.Success? ==> |run.calls| == 3)
    ensures |run.calls| == 3 ==>
      && run.calls[2].RetrieveCall?
      && var request := run.calls[2].request;
      && env.downloadUrl(run.calls[1].instance, run.calls[1].fileName) == Success(request.url)
      && request == FetchRequest(request.url, knownHash, fname, path, processor, downloader, progressbar)
      && (env.retrieve(request).Success? ==> run.result == Success(env.retrieve(request).value))
      && (env.retrieve(request).Failure? ==> run.result == Failure(FetchFailed(env.retrieve(request).error)))
  {
    match ParseDoi(doi)
    case Failure(e) => Run(Failure(ParseFailed(e)), [])
    case Success(parts) =>
      var dispatched := env.dispatch(parts.netloc);
      if dispatched.Failure? then
        Run(Failure(DispatchFailed(dispatched.error)), [DispatchCall(parts.netloc)])
      else
        var repository := dispatched.value;
        var fileName := DropLeadingSlash(parts.path);
        var calls := [DispatchCall(parts.netloc), DownloadUrlCall(repository, fileName)];
        var downloadUrl := env.downloadUrl(repository, fileName);
        if downloadUrl.Failure? then
          Run(Failure(DownloadUrlFailed(downloadUrl.error)), calls)
        else
          var request := FetchRequest(downloadUrl.value, knownHash, fname, path, processor, downloader, progressbar);
          var fetched := env.retrieve(request);
          Run(if fetched.Success? then Success(fetched.value) else Failure(FetchFailed(fetched.error)),
              calls + [RetrieveCall(request)])
  }

  /**
   * The file name handed to `download_url`: outside the Zenodo layout it is
   * the DOI's last segment, holds no '/', and follows the netloc after one
   * '/'. In the Zenodo layout it is every segment after the second, joined by
   * '/', again after the netloc and one '/'; for a two-segment Zenodo DOI it
   * is empty.
   */
  lemma DownloadFileName(
    doi: string, knownHash: Option<string>, fname: Option<string>, path: Option<string>,
    processor: Hook, downloader: Hook, progressbar: bool, env: Collaborators)
    requires |RetrieveFromDoi(doi, knownHash, fname, path, processor, downloader, progressbar, env).calls| >= 2
    ensures ParseDoi(doi).Success?
    ensures var call := RetrieveFromDoi(doi, knownHash, fname, path, processor, downloader, progressbar, env).calls[1];
      call.DownloadUrlCall? && FileNameLayout(StripScheme(doi), ParseDoi(doi).value.netloc, call.fileName)
  {
    var call := RetrieveFromDoi(doi, knownHash, fname, path, processor, downloader, progressbar, env).calls[1];
    var r := ParseDoi(doi).value;
    assert call.fileName == r.path[1..];
    ParsedFileName(StripScheme(doi));
  }

  /** How the file name sits in the scheme-less DOI `d` whose netloc is `netloc`. */
  ghost predicate FileNameLayout(d: string, netloc: string, fileName: string)
  {
    var parts := Split(d, '/');
    && |parts| >= 2
    && (!MentionsZenodo(parts[1]) ==>
          '/' !in fileName && fileName == parts[|parts| - 1] && netloc + "/" + fileName == d)
    && (MentionsZenodo(parts[1]) && |parts| == 2 ==> fileName == "")
    && (MentionsZenodo(parts[1]) && |parts| >= 3 ==>
          fileName == Join(parts[2..], '/') && netloc + "/" + fileName == d)
  }

  lemma ParsedFileName(d: string)
    requires '/' in d
    ensures var r := SplitDoi(d).value;
      FileNameLayout(d, r.netloc, r.path[1..])
  {
    var parts := Split(d, '/');
    var r := SplitDoi(d).value;
    if !MentionsZenodo(parts[1]) {
      ParseDoiCutsAtLastSlash(d);
      assert r.path == "/" + r.path[1..];
    } else {
      ParseDoiZenodoLayout(d);
      SplitDoiZenodoValue(d, parts);
      if |parts| >= 3 {
        assert r.path == "/" + Join(parts[2..], '/');
        assert r.path == "/" + r.path[1..];
      }
    }
  }

  /** Dispatch as the repository module computes it, for a given registry, resolver and adapters. */
  function RegistryDispatch(entries: seq<Adapter>, resolve: string -> Response, initialize: Initializer)
    : string -> Result<Instance, RepositoryError>
  {
    (doi: string) => DispatchSpec(doi, entries, resolve(ResolverUrl(doi)), initialize).result
  }

  /**
   * With no adapter registered and a DOI that resolves, the call fails with
   * the invalid-repository error naming the resolved URL's host, and neither
   * `download_url` nor `pooch.retrieve` is called.
   */
  lemma RetrieveWithoutAdapters(
    doi: string, knownHash: Option<string>, fname: Option<string>, path: Option<string>,
    processor: Hook, downloader: Hook, progressbar: bool,
    resolve: string -> Response, initialize: Initializer,
    downloadUrl: (Instance, string) -> Result<string, string>, retrieve: FetchRequest -> Result<string, string>)
    requires ParseDoi(doi).Success?
    requires !(400 <= resolve(ResolverUrl(ParseDoi(doi).value.netloc)).statusCode < 600)
    ensures var env := Collaborators(RegistryDispatch([], resolve, initialize), downloadUrl, retrieve);
      var run := RetrieveFromDoi(doi, knownHash, fname, path, processor, downloader, progressbar, env);
      var netloc := ParseDoi(doi).value.netloc;
      && run.result == Failure(DispatchFailed(InvalidRepository(UrlNetloc(resolve(ResolverUrl(netloc)).url))))
      && run.calls == [DispatchCall(netloc)]
  {
    var netloc := ParseDoi(doi).value.netloc;
    DispatchWithoutAdapters(netloc, resolve(ResolverUrl(netloc)), initialize);
  }

  /**
   * The unit test's scenario: the Zenodo DOI `10.5281/zenodo.17544720`
   * resolves to a zenodo.org page, no adapter is registered, and the call
   * fails before `pooch.retrieve` is reached.
   */
  lemma RetrieveWithoutAdaptersExample(
    resolve: string -> Response, initialize: Initializer,
    downloadUrl: (Instance, string) -> Result<string, string>, retrieve: FetchRequest -> Result<string, string>)
    requires resolve(ResolverUrl("10.5281/zenodo.17544720"))
      == Response("https" + "://" + "zenodo.org" + "/doi/10.5281/zenodo.17544720", 200)
    ensures var env := Collaborators(RegistryDispatch([], resolve, initialize), downloadUrl, retrieve);
      var run := RetrieveFromDoi("10.5281/zenodo.17544720", Some("hash"), None, None, NoHook, NoHook, false, env);
      && run.result == Failure(DispatchFailed(InvalidRepository("zenodo.org")))
      && |run.calls| == 1
  {
    var doi := "10.5281/zenodo.17544720";
    ParseDoiExample();
    RetrieveWithoutAdapters(doi, Some("hash"), None, None, NoHook, NoHook, false, resolve, initialize, downloadUrl, retrieve);
    UrlNetlocExample();
  }

  /** The host of the unit test's archive URL, written as scheme, authority and path. */
  lemma UrlNetlocExample()
    ensures UrlNetloc("https" + "://" + "zenodo.org" + "/doi/10.5281/zenodo.17544720") == "zenodo.org"
  {
    var host := "zenodo.org";
    assert forall j :: 0 <= j < |host| ==> !IsNetlocDelimiter(host[j]);
    UrlNetlocOfAuthority("https", host, "/doi/10.5281/zenodo.17544720");
  }

  /** A two-segment Zenodo DOI is all netloc; its path is the bare '/'. */
  lemma ParseDoiExample()
    ensures ParseDoi("10.5281/zenodo.17544720") == Success(DoiParts("10.5281/zenodo.17544720", "/"))
  {
    var d := "10.5281/zenodo.17544720";
    assert d[..|LinkScheme|] != LinkScheme by { assert d[0] != LinkScheme[0]; }
    assert d[..|Scheme|] != Scheme by { assert d[0] != Scheme[0]; }
    assert ParseDoi(d) == SplitDoi(d);
    SplitExample();
    ZenodoExample();
    ParseDoiZenodoLayout(d);
  }

  lemma SplitExample()
    ensures Split("10.5281/zenodo.17544720", '/') == ["10.5281", "zenodo.17544720"]
  {
    var parts := ["10.5281", "zenodo.17544720"];
    assert Join(parts, '/') == "10.5281/zenodo.17544720";
    SplitJoin(parts, '/');
  }

  lemma ZenodoExample()
    ensures MentionsZenodo("zenodo.17544720")
  {
    var s := Lower("zenodo.17544720");
    assert s[0..6] == ZenodoKeyword;
    assert OccursAt(s, ZenodoKeyword, 0);
    ContainsAt(s, ZenodoKeyword);
  }
}
