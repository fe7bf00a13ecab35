/**
 * DOI resolution and repository dispatch (pooch_doi/repository.py).
 *
 * A DOI is resolved once through doi.org; the registered data-repository
 * adapters are ordered so that those that need no network request in their
 * `initialize` come first; then each adapter's `initialize` is asked in turn
 * whether it recognises the resolved URL. The first one that returns an
 * instance wins. An adapter that raises is reported as a warning and
 * skipped. When nobody claims the URL, the error names the URL's host.
 *
 * The HTTP request, the entry-point registry and the logger are outside the
 * model: the response is a parameter, the loaded adapters are a sequence, an
 * adapter's `initialize` is a function parameter, and the warnings logged are
 * returned as a sequence of records.
 */
module Repository {
  import opened Wrappers
  import opened PyStr

  /** Seconds the resolver request may take; the request itself is not modelled. */
  const DefaultTimeout: nat := 30

  const ResolverPrefix: string := "https://doi.org/"

  /** The URL `doi_to_url` asks for. */
  function ResolverUrl(doi: string): string {
    ResolverPrefix + doi
  }

  /** What the redirect-following GET observes: the final URL and its status code. */
  datatype Response = Response(url: string, statusCode: int)

  /** The errors the dispatch raises (both are `ValueError` in the source). */
  datatype RepositoryError =
    | ArchiveNotFound(doi: string, url: string)  // the resolver answered 4xx or 5xx
    | InvalidRepository(host: string)            // no adapter claimed the resolved URL

  /**
   * `doi_to_url`, once the request is made: the final URL is accepted exactly
   * when the status lies outside 400..599; otherwise the error carries the
   * DOI and that URL.
   */
  function DoiToUrl(doi: string, response: Response): (r: Result<string, RepositoryError>)
    ensures r.Success? <==> !(400 <= response.statusCode < 600)
    ensures r.Success? ==> r.value == response.url
    ensures r.Failure? ==> r.error == ArchiveNotFound(doi, response.url)
  {
    if 400 <= response.statusCode < 600 then Failure(ArchiveNotFound(doi, response.url))
    else Success(response.url)
  }

  /** Informational, success and redirect answers are accepted; client and server errors are not. */
  lemma DoiToUrlByStatusClass(doi: string, url: string, status: int)
    ensures 100 <= status < 400 ==> DoiToUrl(doi, Response(url, status)) == Success(url)
    ensures 400 <= status < 600 ==> DoiToUrl(doi, Response(url, status)) == Failure(ArchiveNotFound(doi, url))
  {
  }

  // ---------------------------------------------------------------------------
  // Host of a URL: the `netloc` of `urllib.parse.urlsplit`
  // ---------------------------------------------------------------------------

  predicate IsAsciiLetter(c: char) {
    'a' <= c <= 'z' || 'A' <= c <= 'Z'
  }

  /** Characters `urlsplit` accepts in a scheme. */
  predicate IsSchemeChar(c: char) {
    IsAsciiLetter(c) || '0' <= c <= '9' || c == '+' || c == '-' || c == '.'
  }

  /** Characters that end the authority part of a URL. */
  predicate IsNetlocDelimiter(c: char) {
    c == '/' || c == '?' || c == '#'
  }

  /** `s.find(c)`, with `|s|` standing for "not found". */
  function IndexOf(s: string, c: char): (i: nat)
    ensures i <= |s|
    ensures i < |s| ==> s[i] == c
    ensures forall j :: 0 <= j < i ==> s[j] != c
  {
    if |s| == 0 then 0
    else if s[0] == c then 0
    else 1 + IndexOf(s[1..], c)
  }

  /** The URL after its scheme and ':', when it starts with a well-formed scheme. */
  function AfterScheme(url: string): string {
    var i := IndexOf(url, ':');
    if 0 < i < |url| && IsAsciiLetter(url[0]) && forall j :: 0 <= j < i ==> IsSchemeChar(url[j])
    then url[i + 1..]
    else url
  }

  /** The longest prefix of `s` that holds no authority delimiter. */
  function TakeNetloc(s: string): (host: string)
    ensures StartsWith(s, host)
    ensures forall j :: 0 <= j < |host| ==> !IsNetlocDelimiter(host[j])
    ensures |host| < |s| ==> IsNetlocDelimiter(s[|host|])
  {
    if |s| == 0 || IsNetlocDelimiter(s[0]) then ""
    else [s[0]] + TakeNetloc(s[1..])
  }

  /** `urlsplit(url).netloc`: the authority after "//", or "" when there is none. */
  function UrlNetloc(url: string): (host: string)
    ensures forall j :: 0 <= j < |host| ==> !IsNetlocDelimiter(host[j])
    ensures host != [] ==> StartsWith(AfterScheme(url), "//") && StartsWith(AfterScheme(url)[2..], host)
  {
    var rest := AfterScheme(url);
    if StartsWith(rest, "//") then TakeNetloc(rest[2..]) else ""
  }

  lemma AfterWellFormedScheme(scheme: string, rest: string)
    requires |scheme| > 0 && IsAsciiLetter(scheme[0])
    requires forall j :: 0 <= j < |scheme| ==> IsSchemeChar(scheme[j])
    ensures AfterScheme(scheme + ":" + rest) == rest
  {
    var url := scheme + ":" + rest;
    assert url[|scheme|] == ':';
    assert IndexOf(url, ':') == |scheme|;
    assert url[|scheme| + 1..] == rest;
  }

  lemma TakeNetlocStopsAtDelimiter(host: string, tail: string)
    requires forall j :: 0 <= j < |host| ==> !IsNetlocDelimiter(host[j])
    requires tail == [] || IsNetlocDelimiter(tail[0])
    ensures TakeNetloc(host + tail) == host
  {
    var h := TakeNetloc(host + tail);
    assert h == (host + tail)[..|host|] == host;
  }

  lemma SchemeSeparator(scheme: string, host: string, tail: string)
    ensures scheme + "://" + host + tail == scheme + ":" + ("//" + host + tail)
    ensures ("//" + host + tail) == "//" + (host + tail)
  {
  }

  lemma NetlocAfterSlashes(url: string, authorityAndTail: string)
    requires AfterScheme(url) == "//" + authorityAndTail
    ensures UrlNetloc(url) == TakeNetloc(authorityAndTail)
  {
    assert ("//" + authorityAndTail)[2..] == authorityAndTail;
  }

  /** For a URL of the form scheme://host followed by a path, query, fragment or nothing, the netloc is the host. */
  lemma UrlNetlocOfAuthority(scheme: string, host: string, tail: string)
    requires |scheme| > 0 && IsAsciiLetter(scheme[0])
    requires forall j :: 0 <= j < |scheme| ==> IsSchemeChar(scheme[j])
    requires forall j :: 0 <= j < |host| ==> !IsNetlocDelimiter(host[j])
    requires tail == [] || IsNetlocDelimiter(tail[0])
    ensures UrlNetloc(scheme + "://" + host + tail) == host
  {
    var rest := "//" + host + tail;
    SchemeSeparator(scheme, host, tail);
    AfterWellFormedScheme(scheme, rest);
    NetlocAfterSlashes(scheme + ":" + rest, host + tail);
    TakeNetlocStopsAtDelimiter(host, tail);
  }

  // ---------------------------------------------------------------------------
  // Adapters
  // ---------------------------------------------------------------------------

  /** The class-level attributes of a `DataRepository` subclass. */
  datatype Adapter = Adapter(
    name: string,
    issueTracker: Option<string>,
    allowsSelfHosting: bool,
    fullSupport: bool,
    userWarning: Option<string>,
    initRequiresRequests: bool)

  /** An adapter that keeps every default of the `DataRepository` base class. */
  function DefaultAdapter(name: string): (a: Adapter)
    ensures a.name == name && a.issueTracker == None && a.userWarning == None
    ensures !a.allowsSelfHosting && a.fullSupport && a.initRequiresRequests
  {
    Adapter(name, None, false, true, None, true)
  }

  /** A `DataRepository` instance, as far as dispatch reads it. */
  datatype Instance = Instance(name: string, userWarning: Option<string>)

  /**
   * What a call to `initialize(doi=..., archive_url=...)` does: returns an
   * instance, returns `None`, or raises an `Exception` with a message.
   */
  datatype InitOutcome = Claimed(instance: Instance) | NotMine | Fault(error: string)

  /** The `initialize` class methods: adapter, DOI and archive URL to outcome. */
  type Initializer = (Adapter, string, string) -> InitOutcome

  /** The base class's `initialize`: never claims a URL. */
  function BaseInitialize(doi: string, archiveUrl: string): (o: InitOutcome)
    ensures !o.Claimed? && !o.Fault?
  {
    NotMine
  }

  // ---------------------------------------------------------------------------
  // _get_all_available_data_repositories: a stable sort on int(init_requires_requests)
  // ---------------------------------------------------------------------------

  /** The sort key `int(repo.init_requires_requests)`. */
  function RequestKey(repo: Adapter): (k: int)
    ensures k == 0 || k == 1
  {
    if repo.initRequiresRequests then 1 else 0
  }

  /** The adapters with sort key `key`, in their original order. */
  function WithKey(s: seq<Adapter>, key: int): (r: seq<Adapter>)
    ensures |r| <= |s|
    ensures forall i :: 0 <= i < |r| ==> RequestKey(r[i]) == key
  {
    if s == [] then []
    else (if RequestKey(s[0]) == key then [s[0]] else []) + WithKey(s[1..], key)
  }

  ghost predicate SortedByKey(s: seq<Adapter>) {
    forall i, j :: 0 <= i < j < |s| ==> RequestKey(s[i]) <= RequestKey(s[j])
  }

  /**
   * `output` is what a stable sort by `RequestKey` makes of `input`: sorted by
   * the key, and for every key the adapters with that key in their input order.
   */
  ghost predicate IsStableSortByKey(input: seq<Adapter>, output: seq<Adapter>) {
    SortedByKey(output) && forall key :: WithKey(output, key) == WithKey(input, key)
  }

  lemma {:induction false} WithKeyAppend(a: seq<Adapter>, b: seq<Adapter>, key: int)
    ensures WithKey(a + b, key) == WithKey(a, key) + WithKey(b, key)
    decreases |a|
  {
    if a != [] {
      var head := if RequestKey(a[0]) == key then [a[0]] else [];
      assert (a + b)[0] == a[0];
      assert (a + b)[1..] == a[1..] + b;
      assert WithKey(a + b, key) == head + WithKey(a[1..] + b, key);
      WithKeyAppend(a[1..], b, key);
    } else {
      assert a + b == b;
    }
  }

  lemma {:induction false} WithKeyAbsent(s: seq<Adapter>, key: int)
    requires forall i :: 0 <= i < |s| ==> RequestKey(s[i]) != key
    ensures WithKey(s, key) == []
    decreases |s|
  {
    if s != [] {
      WithKeyAbsent(s[1..], key);
    }
  }

  lemma {:induction false} WithKeyAll(s: seq<Adapter>, key: int)
    requires forall i :: 0 <= i < |s| ==> RequestKey(s[i]) == key
    ensures WithKey(s, key) == s
    decreases |s|
  {
    if s != [] {
      WithKeyAll(s[1..], key);
      assert s == [s[0]] + s[1..];
    }
  }

  lemma {:induction false} WithKeyMultiset(s: seq<Adapter>)
    ensures multiset(WithKey(s, 0)) + multiset(WithKey(s, 1)) == multiset(s)
    decreases |s|
  {
    if s != [] {
      WithKeyMultiset(s[1..]);
      assert s == [s[0]] + s[1..];
    }
  }

  /** A sequence sorted by the key is its key-0 adapters followed by its key-1 adapters. */
  lemma {:induction false} SortedIsPartition(s: seq<Adapter>)
    requires SortedByKey(s)
    ensures s == WithKey(s, 0) + WithKey(s, 1)
    decreases |s|
  {
    if s != [] {
      var t := s[1..];
      SortedIsPartition(t);
      assert s == [s[0]] + t;
      if RequestKey(s[0]) == 1 {
        WithKeyAbsent(t, 0);
      }
    }
  }

  /**
   * `_get_all_available_data_repositories`: the loaded adapters, stably sorted
   * so that those whose `initialize` needs no request come first. The result
   * is a permutation of the input.
   */
  function AvailableRepositories(entries: seq<Adapter>): (repos: seq<Adapter>)
    ensures IsStableSortByKey(entries, repos)
    ensures multiset(repos) == multiset(entries)
  {
    var repos := WithKey(entries, 0) + WithKey(entries, 1);
    WithKeyMultiset(entries);
    forall key ensures WithKey(repos, key) == WithKey(entries, key) {
      WithKeyAppend(WithKey(entries, 0), WithKey(entries, 1), key);
      if key == 0 {
        WithKeyAll(WithKey(entries, 0), 0);
        WithKeyAbsent(WithKey(entries, 1), 0);
      } else if key == 1 {
        WithKeyAbsent(WithKey(entries, 0), 1);
        WithKeyAll(WithKey(entries, 1), 1);
      } else {
        WithKeyAbsent(WithKey(entries, 0), key);
        WithKeyAbsent(WithKey(entries, 1), key);
        WithKeyAbsent(entries, key);
      }
    }
    repos
  }

  /** A stable sort by the key has one possible result, so the model is the sort. */
  lemma StableSortIsUnique(entries: seq<Adapter>, output: seq<Adapter>)
    requires IsStableSortByKey(entries, output)
    ensures output == AvailableRepositories(entries)
  {
    SortedIsPartition(output);
  }

  /**
   * The unit test's two adapters: whichever order they are registered in, the
   * one that needs no request is tried first; no adapters give an empty list.
   */
  lemma AvailableRepositoriesTestCases(d1: Adapter, d2: Adapter)
    requires d1.initRequiresRequests && !d2.initRequiresRequests
    ensures AvailableRepositories([d1, d2]) == [d2, d1]
    ensures AvailableRepositories([d2, d1]) == [d2, d1]
    ensures AvailableRepositories([]) == []
  {
    AvailablePair(d1, d2);
    AvailablePair(d2, d1);
  }

  /** The sorted order of two adapters, by their keys. */
  lemma AvailablePair(a: Adapter, b: Adapter)
    ensures AvailableRepositories([a, b])
      == if RequestKey(a) <= RequestKey(b) then [a, b] else [b, a]
  {
    var sorted := if RequestKey(a) <= RequestKey(b) then [a, b] else [b, a];
    forall key ensures WithKey(sorted, key) == WithKey([a, b], key) {
      WithKeyPair(a, b, key);
      WithKeyPair(b, a, key);
    }
    StableSortIsUnique([a, b], sorted);
  }

  lemma WithKeyPair(a: Adapter, b: Adapter, key: int)
    ensures WithKey([a, b], key)
      == (if RequestKey(a) == key then [a] else []) + (if RequestKey(b) == key then [b] else [])
  {
    assert [a, b][1..] == [b];
    assert [b][1..] == [];
  }

  /**
   * Two adapters that both keep the default `init_requires_requests` stay in
   * registration order: a class that sets a differently spelled attribute
   * does not change the key.
   */
  lemma AvailableRepositoriesKeepDefaultOrder(d1: Adapter, d2: Adapter)
    requires d1.initRequiresRequests == DefaultAdapter(d1.name).initRequiresRequests
    requires d2.initRequiresRequests == DefaultAdapter(d2.name).initRequiresRequests
    ensures AvailableRepositories([d1, d2]) == [d1, d2]
    ensures d1 != d2 ==> AvailableRepositories([d1, d2]) != [d2, d1]
  {
    AvailablePair(d1, d2);
  }

  /**
   * Whatever the registration order, an adapter whose `initialize` needs no
   * request is placed before every adapter whose `initialize` does.
   */
  lemma NetworkFreeFirst(entries: seq<Adapter>, free: Adapter, costly: Adapter)
    requires free in entries && costly in entries
    requires !free.initRequiresRequests && costly.initRequiresRequests
    ensures var repos := AvailableRepositories(entries);
      && free in repos && costly in repos
      && forall i, j :: 0 <= i < |repos| && 0 <= j < |repos| && repos[i] == free && repos[j] == costly ==> i < j
  {
    var repos := AvailableRepositories(entries);
    assert free in multiset(entries) && costly in multiset(entries);
    assert free in multiset(repos) && costly in multiset(repos);
  }

  // ---------------------------------------------------------------------------
  // doi_to_repository: chain of responsibility
  // ---------------------------------------------------------------------------

  /** The warnings logged during dispatch, as records of what the message names. */
  datatype Warning =
    | RepositoryFailed(repoName: string, error: string, issueTracker: Option<string>)
    | SelectedRepositoryWarning(repoName: string, userWarning: string)

  /** The collaborator calls dispatch makes: the resolver GET and each `initialize`. */
  datatype Call =
    | ResolveCall(url: string)
    | InitializeCall(repo: Adapter, doi: string, archiveUrl: string)

  /**
   * The position of the first adapter whose `initialize` claims the URL, or
   * the length of the list when none does.
   */
  function FirstClaim(repos: seq<Adapter>, initialize: Initializer, doi: string, archiveUrl: string): (k: nat)
    ensures k <= |repos|
    ensures forall j :: 0 <= j < k ==> !initialize(repos[j], doi, archiveUrl).Claimed?
    ensures k < |repos| ==> initialize(repos[k], doi, archiveUrl).Claimed?
  {
    if repos == [] then 0
    else if initialize(repos[0], doi, archiveUrl).Claimed? then 0
    else 1 + FirstClaim(repos[1..], initialize, doi, archiveUrl)
  }

  /** The number of adapters dispatch asks: up to and including the first claimant. */
  function Tried(repos: seq<Adapter>, initialize: Initializer, doi: string, archiveUrl: string): (n: nat)
    ensures n <= |repos|
  {
    var k := FirstClaim(repos, initialize, doi, archiveUrl);
    if k < |repos| then k + 1 else k
  }

  /** The warning logged for one adapter's outcome: one record when it raised, none otherwise. */
  function FailureWarning(repo: Adapter, outcome: InitOutcome): seq<Warning> {
    if outcome.Fault? then [RepositoryFailed(repo.name, outcome.error, repo.issueTracker)] else []
  }

  /** The warnings logged for the adapters `tried`, in order. */
  function FailureWarnings(tried: seq<Adapter>, initialize: Initializer, doi: string, archiveUrl: string): (ws: seq<Warning>)
    ensures |ws| <= |tried|
    ensures forall w :: w in ws ==> w.RepositoryFailed?
    decreases |tried|
  {
    if tried == [] then []
    else
      var last := tried[|tried| - 1];
      FailureWarnings(tried[..|tried| - 1], initialize, doi, archiveUrl)
        + FailureWarning(last, initialize(last, doi, archiveUrl))
  }

  /** The calls to `initialize` for the adapters `tried`, in order. */
  ghost function InitializeCalls(tried: seq<Adapter>, doi: string, archiveUrl: string): seq<Call>
    decreases |tried|
  {
    if tried == [] then []
    else InitializeCalls(tried[..|tried| - 1], doi, archiveUrl) + [InitializeCall(tried[|tried| - 1], doi, archiveUrl)]
  }

  lemma FailureWarningsStep(repos: seq<Adapter>, i: nat, initialize: Initializer, doi: string, archiveUrl: string)
    requires i < |repos|
    ensures FailureWarnings(repos[..i + 1], initialize, doi, archiveUrl)
      == FailureWarnings(repos[..i], initialize, doi, archiveUrl) + FailureWarning(repos[i], initialize(repos[i], doi, archiveUrl))
  {
    assert repos[..i + 1][..i] == repos[..i];
  }

  lemma InitializeCallsStep(repos: seq<Adapter>, i: nat, doi: string, archiveUrl: string)
    requires i < |repos|
    ensures InitializeCalls(repos[..i + 1], doi, archiveUrl)
      == InitializeCalls(repos[..i], doi, archiveUrl) + [InitializeCall(repos[i], doi, archiveUrl)]
  {
    assert repos[..i + 1][..i] == repos[..i];
  }

  /** The warning logged after selection, when the instance declares one. */
  function SelectionWarnings(instance: Instance): (ws: seq<Warning>)
    ensures |ws| <= 1
    ensures ws != [] <==> instance.userWarning.Some?
    ensures ws != [] ==> ws[0] == SelectedRepositoryWarning(instance.name, instance.userWarning.value)
  {
    if instance.userWarning.Some? then [SelectedRepositoryWarning(instance.name, instance.userWarning.value)] else []
  }

  /** The result of a dispatch and the warnings it logged. */
  datatype Dispatched = Dispatched(result: Result<Instance, RepositoryError>, warnings: seq<Warning>)

  /**
   * What `doi_to_repository` returns or raises, and logs, once the archive URL
   * is known: the first claimant's instance and its user warning, or the
   * invalid-repository error naming the URL's host; the failures of the
   * adapters asked come first in the log.
   */
  function SelectionSpec(repos: seq<Adapter>, doi: string, archiveUrl: string, initialize: Initializer): (d: Dispatched)
    ensures var k := FirstClaim(repos, initialize, doi, archiveUrl);
      && (d.result.Success? <==> k < |repos|)
      && (d.result.Success? ==> d.result.value == initialize(repos[k], doi, archiveUrl).instance)
    ensures d.result.Failure? ==> d.result.error == InvalidRepository(UrlNetloc(archiveUrl))
    ensures |d.warnings| <= |repos| + 1
  {
    var k := FirstClaim(repos, initialize, doi, archiveUrl);
    if k == |repos| then
      Dispatched(Failure(InvalidRepository(UrlNetloc(archiveUrl))),
                 FailureWarnings(repos, initialize, doi, archiveUrl))
    else
      var instance := initialize(repos[k], doi, archiveUrl).instance;
      Dispatched(Success(instance),
                 FailureWarnings(repos[..k], initialize, doi, archiveUrl) + SelectionWarnings(instance))
  }

  /**
   * What `doi_to_repository` returns or raises, and logs, given the resolver's
   * response: the archive-not-found error, with nothing logged, exactly when
   * the resolver answers 4xx or 5xx; the selection over the sorted adapters
   * otherwise.
   */
  function DispatchSpec(doi: string, entries: seq<Adapter>, response: Response, initialize: Initializer): (d: Dispatched)
    ensures (d.result.Failure? && d.result.error.ArchiveNotFound?) <==> 400 <= response.statusCode < 600
    ensures d.result.Failure? && d.result.error.ArchiveNotFound? ==>
      d.result.error == ArchiveNotFound(doi, response.url) && d.warnings == []
  {
    match DoiToUrl(doi, response)
    case Failure(e) => Dispatched(Failure(e), [])
    case Success(archiveUrl) => SelectionSpec(AvailableRepositories(entries), doi, archiveUrl, initialize)
  }

  /**
   * The `for` loop of `doi_to_repository`: asks each adapter in order, stops
   * at the first that returns an instance, and logs (then skips) each one that
   * raises. The result is the first claimant's instance, or `None` when there
   * is none; the warnings are those of the adapters asked before it.
   */
  method TryRepositories(repositories: seq<Adapter>, doi: string, archiveUrl: string, initialize: Initializer)
    returns (dataRepository: Option<Instance>, warnings: seq<Warning>, ghost calls: seq<Call>)
    ensures var k := FirstClaim(repositories, initialize, doi, archiveUrl);
      && dataRepository == (if k < |repositories| then Some(initialize(repositories[k], doi, archiveUrl).instance) else None)
      && warnings == FailureWarnings(repositories[..k], initialize, doi, archiveUrl)
    ensures calls == InitializeCalls(repositories[..Tried(repositories, initialize, doi, archiveUrl)], doi, archiveUrl)
  {
    dataRepository := None;
    warnings := [];
    calls := [];
    var i := 0;
    while i < |repositories|
      invariant 0 <= i <= |repositories|
      invariant forall j :: 0 <= j < i ==> !initialize(repositories[j], doi, archiveUrl).Claimed?
      invariant warnings == FailureWarnings(repositories[..i], initialize, doi, archiveUrl)
      invariant calls == InitializeCalls(repositories[..i], doi, archiveUrl)
      invariant dataRepository == None
    {
      var repo := repositories[i];
      calls := calls + [InitializeCall(repo, doi, archiveUrl)];
      var outcome := initialize(repo, doi, archiveUrl);
      FailureWarningsStep(repositories, i, initialize, doi, archiveUrl);
      InitializeCallsStep(repositories, i, doi, archiveUrl);
      if outcome.Fault? {
        // the exception is caught: log it and go on with the next adapter
        warnings := warnings + [RepositoryFailed(repo.name, outcome.error, repo.issueTracker)];
      } else {
        dataRepository := if outcome.Claimed? then Some(outcome.instance) else None;
        if dataRepository.Some? {
          assert FirstClaim(repositories, initialize, doi, archiveUrl) == i;
          return;
        }
      }
      i := i + 1;
    }
    assert repositories[..i] == repositories;
  }

  /**
   * The part of `doi_to_repository` after resolution: the loop over the
   * sorted adapters, the invalid-repository error when nobody claims, and
   * the selected instance's user warning.
   */
  method SelectRepository(repositories: seq<Adapter>, doi: string, archiveUrl: string, initialize: Initializer)
    returns (r: Result<Instance, RepositoryError>, warnings: seq<Warning>, ghost calls: seq<Call>)
    ensures Dispatched(r, warnings) == SelectionSpec(repositories, doi, archiveUrl, initialize)
    ensures calls == InitializeCalls(repositories[..Tried(repositories, initialize, doi, archiveUrl)], doi, archiveUrl)
  {
    var dataRepository;
    dataRepository, warnings, calls := TryRepositories(repositories, doi, archiveUrl, initialize);
    if dataRepository == None {
      SelectionUnclaimed(repositories, doi, archiveUrl, initialize);
      return Failure(InvalidRepository(UrlNetloc(archiveUrl))), warnings, calls;
    }
    var selected := dataRepository.value;
    if selected.userWarning.Some? {
      warnings := warnings + [SelectedRepositoryWarning(selected.name, selected.userWarning.value)];
    }
    r := Success(selected);
  }

  /** `SelectionSpec` when no adapter claims the URL. */
  lemma SelectionUnclaimed(repos: seq<Adapter>, doi: string, archiveUrl: string, initialize: Initializer)
    requires FirstClaim(repos, initialize, doi, archiveUrl) == |repos|
    ensures SelectionSpec(repos, doi, archiveUrl, initialize)
      == Dispatched(Failure(InvalidRepository(UrlNetloc(archiveUrl))), FailureWarnings(repos[..|repos|], initialize, doi, archiveUrl))
    ensures Tried(repos, initialize, doi, archiveUrl) == |repos|
  {
    assert repos[..|repos|] == repos;
  }

  /**
   * `doi_to_repository`. The adapters are listed and sorted, the DOI is
   * resolved once, and each `initialize` is called in sorted order with the
   * same DOI and archive URL until one returns an instance. `calls` records
   * the collaborator calls.
   */
  method DoiToRepository(doi: string, entries: seq<Adapter>, resolve: string -> Response, initialize: Initializer)
    returns (r: Result<Instance, RepositoryError>, warnings: seq<Warning>, ghost calls: seq<Call>)
    ensures Dispatched(r, warnings) == DispatchSpec(doi, entries, resolve(ResolverUrl(doi)), initialize)
    ensures var response := resolve(ResolverUrl(doi));
      var repos := AvailableRepositories(entries);
      calls == [ResolveCall(ResolverUrl(doi))] +
        if DoiToUrl(doi, response).Failure? then []
        else InitializeCalls(repos[..Tried(repos, initialize, doi, response.url)], doi, response.url)
  {
    var repositories := AvailableRepositories(entries);
    var response := resolve(ResolverUrl(doi));
    calls := [ResolveCall(ResolverUrl(doi))];
    var resolved := DoiToUrl(doi, response);
    if resolved.Failure? {
      return Failure(resolved.error), [], calls;
    }
    ghost var tried;
    r, warnings, tried := SelectRepository(repositories, doi, resolved.value, initialize);
    calls := calls + tried;
  }

  // ---------------------------------------------------------------------------
  // Properties of dispatch
  // ---------------------------------------------------------------------------

  /** Each `initialize` call carries the adapter at its position and the same DOI and archive URL. */
  lemma {:induction false} InitializeCallsAt(tried: seq<Adapter>, doi: string, archiveUrl: string)
    ensures |InitializeCalls(tried, doi, archiveUrl)| == |tried|
    ensures forall i :: 0 <= i < |tried| ==> InitializeCalls(tried, doi, archiveUrl)[i] == InitializeCall(tried[i], doi, archiveUrl)
    decreases |tried|
  {
    if tried != [] {
      var n := |tried| - 1;
      InitializeCallsAt(tried[..n], doi, archiveUrl);
    }
  }

  /** Every logged failure is the warning of an adapter that was asked and raised. */
  lemma {:induction false} FailureWarningsSound(tried: seq<Adapter>, initialize: Initializer, doi: string, archiveUrl: string)
    ensures forall w :: w in FailureWarnings(tried, initialize, doi, archiveUrl) ==>
      exists j :: 0 <= j < |tried| && w in FailureWarning(tried[j], initialize(tried[j], doi, archiveUrl))
    decreases |tried|
  {
    if tried != [] {
      var n := |tried| - 1;
      FailureWarningsSound(tried[..n], initialize, doi, archiveUrl);
      forall w | w in FailureWarnings(tried, initialize, doi, archiveUrl)
        ensures exists j :: 0 <= j < |tried| && w in FailureWarning(tried[j], initialize(tried[j], doi, archiveUrl))
      {
        if w in FailureWarnings(tried[..n], initialize, doi, archiveUrl) {
          var j :| 0 <= j < n && w in FailureWarning(tried[..n][j], initialize(tried[..n][j], doi, archiveUrl));
          assert tried[..n][j] == tried[j];
        } else {
          assert w in FailureWarning(tried[n], initialize(tried[n], doi, archiveUrl));
        }
      }
    }
  }

  /** Every adapter that was asked and raised has its warning logged, naming it and its issue tracker. */
  lemma {:induction false} FailureWarningLogged(tried: seq<Adapter>, initialize: Initializer, doi: string, archiveUrl: string, i: nat)
    requires i < |tried|
    requires initialize(tried[i], doi, archiveUrl).Fault?
    ensures RepositoryFailed(tried[i].name, initialize(tried[i], doi, archiveUrl).error, tried[i].issueTracker)
      in FailureWarnings(tried, initialize, doi, archiveUrl)
    decreases |tried|
  {
    var n := |tried| - 1;
    if i < n {
      FailureWarningLogged(tried[..n], initialize, doi, archiveUrl, i);
    }
  }

  /** No adapter raised, no failure logged. */
  lemma {:induction false} FailureWarningsQuiet(tried: seq<Adapter>, initialize: Initializer, doi: string, archiveUrl: string)
    requires forall j :: 0 <= j < |tried| ==> !initialize(tried[j], doi, archiveUrl).Fault?
    ensures FailureWarnings(tried, initialize, doi, archiveUrl) == []
    decreases |tried|
  {
    if tried != [] {
      FailureWarningsQuiet(tried[..|tried| - 1], initialize, doi, archiveUrl);
    }
  }

  /** A resolver answer in 400..599 stops dispatch with the DOI and URL, before any adapter is asked. */
  lemma DispatchResolutionFailure(doi: string, entries: seq<Adapter>, response: Response, initialize: Initializer)
    requires 400 <= response.statusCode < 600
    ensures DispatchSpec(doi, entries, response, initialize) == Dispatched(Failure(ArchiveNotFound(doi, response.url)), [])
  {
  }

  /**
   * The first adapter, in sorted order, whose `initialize` returns an instance
   * is selected, whatever the adapters after it would have done.
   */
  lemma DispatchSelectsFirstClaim(doi: string, entries: seq<Adapter>, response: Response, initialize: Initializer, i: nat)
    requires !(400 <= response.statusCode < 600)
    requires i < |AvailableRepositories(entries)|
    requires initialize(AvailableRepositories(entries)[i], doi, response.url).Claimed?
    requires forall j :: 0 <= j < i ==> !initialize(AvailableRepositories(entries)[j], doi, response.url).Claimed?
    ensures DispatchSpec(doi, entries, response, initialize).result
      == Success(initialize(AvailableRepositories(entries)[i], doi, response.url).instance)
  {
    assert FirstClaim(AvailableRepositories(entries), initialize, doi, response.url) == i;
  }

  /**
   * An adapter that raises does not stop dispatch: a later adapter that claims
   * the URL is still selected, and the failure is logged with the failing
   * adapter's name and issue tracker.
   */
  lemma DispatchFaultIsolation(doi: string, entries: seq<Adapter>, response: Response, initialize: Initializer, f: nat, c: nat)
    requires !(400 <= response.statusCode < 600)
    requires f < c < |AvailableRepositories(entries)|
    requires initialize(AvailableRepositories(entries)[f], doi, response.url).Fault?
    requires initialize(AvailableRepositories(entries)[c], doi, response.url).Claimed?
    requires forall j :: 0 <= j < c ==> !initialize(AvailableRepositories(entries)[j], doi, response.url).Claimed?
    ensures var repos := AvailableRepositories(entries);
      var d := DispatchSpec(doi, entries, response, initialize);
      && d.result == Success(initialize(repos[c], doi, response.url).instance)
      && RepositoryFailed(repos[f].name, initialize(repos[f], doi, response.url).error, repos[f].issueTracker) in d.warnings
  {
    var repos := AvailableRepositories(entries);
    assert FirstClaim(repos, initialize, doi, response.url) == c;
    assert repos[..c][f] == repos[f];
    FailureWarningLogged(repos[..c], initialize, doi, response.url, f);
  }

  /**
   * When no adapter claims the resolved URL, dispatch fails naming the URL's
   * host, and every adapter has been asked.
   */
  lemma DispatchExhaustion(doi: string, entries: seq<Adapter>, response: Response, initialize: Initializer)
    requires !(400 <= response.statusCode < 600)
    requires forall j :: 0 <= j < |AvailableRepositories(entries)| ==>
      !initialize(AvailableRepositories(entries)[j], doi, response.url).Claimed?
    ensures DispatchSpec(doi, entries, response, initialize).result == Failure(InvalidRepository(UrlNetloc(response.url)))
    ensures Tried(AvailableRepositories(entries), initialize, doi, response.url) == |entries|
  {
    var repos := AvailableRepositories(entries);
    assert |repos| == |multiset(repos)| == |multiset(entries)| == |entries|;
  }

  /** With no adapter registered, dispatch fails naming the host and logs nothing. */
  lemma DispatchWithoutAdapters(doi: string, response: Response, initialize: Initializer)
    requires !(400 <= response.statusCode < 600)
    ensures DispatchSpec(doi, [], response, initialize) == Dispatched(Failure(InvalidRepository(UrlNetloc(response.url))), [])
  {
    assert AvailableRepositories([]) == [];
  }

  /** Adapters that keep the base class's `initialize` never claim a URL, so dispatch over them fails quietly. */
  lemma DispatchOverBaseAdapters(doi: string, entries: seq<Adapter>, response: Response)
    requires !(400 <= response.statusCode < 600)
    ensures DispatchSpec(doi, entries, response, (a: Adapter, d: string, u: string) => BaseInitialize(d, u))
      == Dispatched(Failure(InvalidRepository(UrlNetloc(response.url))), [])
  {
    var initialize: Initializer := (a: Adapter, d: string, u: string) => BaseInitialize(d, u);
    FailureWarningsQuiet(AvailableRepositories(entries), initialize, doi, response.url);
  }

  /**
   * After a selection, the selected instance's `user_warning` is logged, once
   * and as the last warning, exactly when it is set; a failed dispatch never
   * logs one.
   */
  lemma DispatchUserWarning(doi: string, entries: seq<Adapter>, response: Response, initialize: Initializer)
    ensures var d := DispatchSpec(doi, entries, response, initialize);
      && (d.result.Failure? ==> forall w :: w in d.warnings ==> w.RepositoryFailed?)
      && (d.result.Success? ==>
            ((exists w :: w in d.warnings && w.SelectedRepositoryWarning?) <==> d.result.value.userWarning.Some?))
      && (d.result.Success? && d.result.value.userWarning.Some? ==>
            && d.warnings[|d.warnings| - 1] == SelectedRepositoryWarning(d.result.value.name, d.result.value.userWarning.value)
            && forall i :: 0 <= i < |d.warnings| - 1 ==> d.warnings[i].RepositoryFailed?)
  {
    var d := DispatchSpec(doi, entries, response, initialize);
    if DoiToUrl(doi, response).Success? {
      var repos := AvailableRepositories(entries);
      var k := FirstClaim(repos, initialize, doi, response.url);
      var logged := FailureWarnings(repos[..k], initialize, doi, response.url);
      assert d == SelectionSpec(repos, doi, response.url, initialize);
      if k == |repos| {
        SelectionUnclaimed(repos, doi, response.url, initialize);
        assert d.warnings == logged;
      } else {
        var instance := initialize(repos[k], doi, response.url).instance;
        if instance.userWarning.Some? {
          var selected := SelectedRepositoryWarning(instance.name, instance.userWarning.value);
          assert d.warnings == logged + [selected];
          assert selected in d.warnings;
          assert d.warnings[..|d.warnings| - 1] == logged;
        } else {
          assert d.warnings == logged;
        }
      }
    }
  }
}
