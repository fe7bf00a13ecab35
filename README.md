# pooch-doi in Dafny

A model of the DOI handling at the core of `pooch-doi`, the plugin that lets
`pooch` fetch files named by a DOI from data repositories such as Zenodo and
figshare. Three parts are modelled, each with its properties proved:

- **DOI parsing** (`pooch_doi/utils.py`, module `DoiUtils`).
  - `parse_doi` refuses `doi://` links and strips one `doi:` prefix.
  - It then splits the rest at '/' into a netloc and a path.
  - Zenodo DOIs keep their first two segments as the netloc.
  - Every other DOI is cut at its last '/'.
  - `is_valid_doi` and `assert_valid_doi` are modelled too.
  - The Python string operations involved (`startswith`, `in`, `lower`,
    `split`, `join`) are in module `PyStr`. The proof that `split` and
    `join` are inverses lives there too.
- **Repository dispatch** (`pooch_doi/repository.py`, module `Repository`).
  - The resolver status check of `doi_to_url`.
  - The host extraction `urlsplit(url).netloc` used in the error.
  - The stable sort of the installed adapters by `init_requires_requests`.
  - The defaults of the `DataRepository` base class and its `initialize`.
  - The chain-of-responsibility loop of `doi_to_repository`. Each adapter's
    `initialize` may claim the DOI, decline it, or raise. A raise is logged
    as a warning and the loop moves on. The first claim wins. If nobody
    claims, the call fails naming the archive's host. A claimed repository's
    user warning is logged.
  - The loop is an imperative method. It is proved against a functional
    specification, `DispatchSpec`, and the dispatch properties are lemmas
    about that specification.
- **Retrieval** (`retrieve_from_doi` in `pooch_doi/core.py`, module `Core`).
  - Parse, then dispatch on the netloc.
  - Drop the path's leading '/', then ask the repository for the download
    URL.
  - Hand that URL and the caller's arguments to `pooch.retrieve`.

The collaborators are parameters. These are the HTTP resolver, the adapters'
`initialize` methods, `download_url` and `pooch.retrieve`. Log messages are
records: the warning list that dispatch returns. Exceptions are the `Failure`
side of a `Result`. The calls dispatch and retrieval make to their
collaborators are recorded in order. In `DoiToRepository` that record is
ghost. In `RetrieveFromDoi` it is part of the returned `Run`.

Behaviour of the code that the model follows:

- `retrieve_from_doi` performs no registry lookup. It dispatches, asks for
  the download URL and calls `pooch.retrieve`, nothing more.
- `retrieve_from_doi` dispatches on the DOI's netloc, not on the whole DOI.
- `download_url` receives the parsed path with one leading '/' dropped. For a
  two-segment Zenodo DOI that is the empty string.
- `parse_doi` on a DOI without '/' fails at `parts[1]` with Python's
  `IndexError`. The model keeps that as its own error, `SegmentIndexError`.
- `is_valid_doi` accepts every string.

## Model

| member | source | states |
|---|---|---|
| DoiUtils.IsValidDoi | pooch_doi/utils.py:25-27 | Every string is accepted as a DOI. |
| DoiUtils.AssertValidDoi | pooch_doi/utils.py:30-32 | Fails exactly when the DOI is not valid, and the error names the DOI. |
| DoiUtils.AssertValidDoiAcceptsAll | pooch_doi/utils.py:25-32 | No DOI is refused by the assertion. |
| DoiUtils.MentionsZenodo | pooch_doi/utils.py:43 | A segment selects the Zenodo layout exactly when "zenodo" occurs at some index of its lower-cased form. |
| DoiUtils.StripScheme | pooch_doi/utils.py:40-41 | Exactly one leading `doi:` is removed when present; otherwise the DOI is unchanged. |
| DoiUtils.SplitDoi | pooch_doi/utils.py:42-49 | Succeeds exactly when the DOI holds a '/'. Otherwise the error is the index error on `parts[1]`. The path always begins with '/'. |
| DoiUtils.ParseDoi | pooch_doi/utils.py:35-49 | A `doi://` link is refused with an error naming it. Parsing succeeds exactly when the DOI is not such a link and a '/' remains after the scheme. The path begins with '/'. |
| DoiUtils.ParseDoiCutsAtLastSlash | pooch_doi/utils.py:46-48 | Outside the Zenodo layout, netloc and path together give the DOI back. The path is '/' followed by the last segment, which holds no '/'. |
| DoiUtils.ParseDoiZenodoLayout | pooch_doi/utils.py:43-45 | In the Zenodo layout the netloc is the first two segments joined by '/'. With more segments netloc plus path is the DOI. With exactly two the netloc is the whole DOI and the path is "/". |
| DoiUtils.ParseDoiStripsOneScheme | pooch_doi/utils.py:36-42 | A `doi:` prefix is removed before splitting, unless it begins a `doi://` link. |
| DoiUtils.ParseDoiSchemeOptional | pooch_doi/utils.py:36-42 | For a DOI that starts neither with "//" nor with another `doi:`, writing `doi:` before it does not change how it parses. (`doi:` before a DOI starting with "//" makes a refused `doi://` link, and only one `doi:` is stripped.) |
| PyStr.StartsWith | pooch_doi/utils.py:36-40 | `startswith` holds exactly when the prefix fits and agrees with the string character by character. |
| PyStr.Contains | pooch_doi/utils.py:43 | `in` holds whenever the needle is a prefix, and only when the needle is no longer than the haystack. |
| PyStr.JoinSeparatorCount | pooch_doi/utils.py:44-48 | `Join`: joining separator-free pieces puts exactly one separator between each two, so the join holds one separator fewer than there are pieces. |
| PyStr.ContainsAt | pooch_doi/utils.py:43 | `needle in hay` holds exactly when the needle occurs at some index of the haystack. |
| PyStr.Lower | pooch_doi/utils.py:43 | `lower` keeps the length and lowers each character. |
| PyStr.Split | pooch_doi/utils.py:42 | `split('/')` yields at least one piece and no piece holds '/'. Joining the pieces gives the string back. There is one piece exactly when '/' is absent. |
| PyStr.JoinAppend | pooch_doi/utils.py:44-47 | Joining a concatenation of two non-empty lists puts one separator between the joins of the halves. |
| PyStr.JoinSnoc | pooch_doi/utils.py:47-48 | Joining all pieces is the join of all but the last, a separator, and the last piece. |
| PyStr.JoinFirstTwo | pooch_doi/utils.py:44-45 | The join of the first two pieces, a separator and the join of the rest give the join of all pieces. |
| PyStr.JoinHead | pooch_doi/utils.py:44-48 | The first piece is a prefix of the join, followed by a separator when more pieces follow. |
| PyStr.JoinInjective | pooch_doi/utils.py:42-48 | Two separator-free piece lists with the same join are equal. |
| PyStr.SplitJoin | pooch_doi/utils.py:42-48 | Splitting the join of separator-free pieces gives the pieces back. |
| Repository.DoiToUrl | pooch_doi/repository.py:28-33 | Succeeds with the response URL exactly when the status is outside 400..599. Otherwise the error names the DOI and that URL. |
| Repository.DoiToUrlByStatusClass | pooch_doi/repository.py:29 | Statuses 100 to 399 resolve to the response URL; every status from 400 to 599 fails. |
| Repository.IndexOf | pooch_doi/repository.py:89 | Returns the first position holding the character, or the length when it is absent. |
| Repository.TakeNetloc | pooch_doi/repository.py:89 | The netloc is the longest prefix free of '/', '?' and '#'. |
| Repository.UrlNetloc | pooch_doi/repository.py:87-89 | `urlsplit(url).netloc` holds no '/', '?' or '#'. When it is non-empty, the URL after its scheme starts with "//" followed by it. |
| Repository.UrlNetlocOfAuthority | pooch_doi/repository.py:87-89 | For `scheme://host` followed by a path, query, fragment or nothing, `urlsplit(...).netloc` is the host. |
| Repository.DefaultAdapter | pooch_doi/repository.py:109-125 | The base class has no issue tracker and no user warning. It does not allow self-hosting, is fully supported, and its `initialize` makes requests. |
| Repository.BaseInitialize | pooch_doi/repository.py:143-162 | The base `initialize` neither claims a URL nor raises. |
| Repository.RequestKey | pooch_doi/repository.py:41 | The sort key `int(init_requires_requests)` is 0 or 1. |
| Repository.AvailableRepositories | pooch_doi/repository.py:36-42 | The adapters are sorted stably by `int(init_requires_requests)`, as a permutation of those loaded. |
| Repository.AvailablePair | pooch_doi/repository.py:41 | Two adapters come out in registration order unless the second has the smaller key. |
| Repository.StableSortIsUnique | pooch_doi/repository.py:41 | Any stable sort by that key gives exactly this order. |
| Repository.AvailableRepositoriesTestCases | tests/unit/test_repository.py:51-61 | With one request-free and one requesting adapter, the request-free one comes first in either registration order. No adapters give an empty list. |
| Repository.AvailableRepositoriesKeepDefaultOrder | tests/unit/test_repository.py:43-58 | Two adapters that keep the default flag stay in registration order. |
| Repository.NetworkFreeFirst | pooch_doi/repository.py:40-41 | Every request-free adapter precedes every adapter whose `initialize` makes requests. |
| Repository.FirstClaim | pooch_doi/repository.py:69-77 | Gives the position of the first adapter that claims the URL, or the count when none does. No adapter before it claims. |
| Repository.FailureWarnings | pooch_doi/repository.py:80-84 | The failure log has at most one entry per adapter asked, and every entry is an adapter failure. |
| Repository.SelectionWarnings | pooch_doi/repository.py:97-101 | At most one selection warning is logged: exactly when the instance has a user warning, and then with its name and that warning. |
| Repository.FailureWarningsStep | pooch_doi/repository.py:80-84 | Asking one more adapter adds its failure warning, if it raised, at the end of the log. |
| Repository.InitializeCallsStep | pooch_doi/repository.py:72-75 | Asking one more adapter adds its `initialize` call at the end of the trace. |
| Repository.TryRepositories | pooch_doi/repository.py:69-84 | The loop returns the first claimant's instance, or nothing when no adapter claims. It logs exactly one warning per adapter asked that raised, in order. Adapters are asked in order, up to and including the claimant, each with the same DOI and archive URL. |
| Repository.DoiToRepository | pooch_doi/repository.py:45-103 | The URL is resolved once, first. Result and log equal `DispatchSpec`. The adapters asked are the sorted prefix up to the first claimant, or none when resolution fails. |
| Repository.SelectRepository | pooch_doi/repository.py:69-103 | After resolution, result and log equal `SelectionSpec`. The adapters asked are the prefix up to and including the first claimant. |
| Repository.SelectionSpec | pooch_doi/repository.py:69-103 | Once the archive URL is known, dispatch succeeds exactly when some adapter claims it, with the first claimant's instance. Otherwise the error names the URL's host. At most one log entry per adapter plus one. |
| Repository.DispatchSpec | pooch_doi/repository.py:45-103 | Dispatch fails with the archive-not-found error naming the DOI and URL, logging nothing, exactly when the resolver answers 400..599. |
| Repository.InitializeCallsAt | pooch_doi/repository.py:72-75 | The i-th `initialize` call is made on the i-th adapter, with the DOI and the archive URL. |
| Repository.FailureWarningsSound | pooch_doi/repository.py:80-84 | Every logged failure belongs to an adapter that was asked and raised. |
| Repository.FailureWarningLogged | pooch_doi/repository.py:80-84 | Every adapter that was asked and raised has its failure logged, with its name, the message and its issue tracker. |
| Repository.FailureWarningsQuiet | pooch_doi/repository.py:80-84 | When no adapter raises, nothing is logged. |
| Repository.DispatchResolutionFailure | pooch_doi/repository.py:29-33 | A resolver status in 400..599 fails dispatch with the DOI and URL. No adapter is asked and nothing is logged. |
| Repository.DispatchSelectsFirstClaim | pooch_doi/repository.py:69-77 | The first claiming adapter in sorted order is the result. |
| Repository.DispatchFaultIsolation | pooch_doi/repository.py:80-84 | An adapter that raises before the claimant does not stop dispatch. Its failure is logged and the claimant is still selected. |
| Repository.DispatchExhaustion | pooch_doi/repository.py:86-95 | When no adapter claims, every adapter has been asked. Dispatch fails naming the archive URL's host. |
| Repository.DispatchWithoutAdapters | pooch_doi/repository.py:86-95 | With no adapters, dispatch fails naming the host and logs nothing. |
| Repository.DispatchOverBaseAdapters | pooch_doi/repository.py:143-162 | Adapters keeping the base `initialize` never claim, so dispatch over them fails and logs nothing. |
| Repository.DispatchUserWarning | pooch_doi/repository.py:97-101 | A failed dispatch logs only adapter failures. On success a selection warning is logged exactly when the repository has a user warning. It is then logged once, as the last entry, under the repository's name; every earlier entry is an adapter failure. |
| Core.DropLeadingSlash | pooch_doi/core.py:56-57 | A leading '/' is removed once; any other path is unchanged. |
| Core.RetrieveFromDoi | pooch_doi/core.py:41-63 | A DOI that does not parse reaches no collaborator. Dispatch is called first, with the netloc. Nothing else is called unless dispatch succeeds. `download_url` gets the path without its leading '/'. When dispatch succeeds `download_url` is called. When it yields a URL, `pooch.retrieve` is called exactly once, last, with that URL and the caller's arguments unchanged, and its result is the result. A failing `download_url` ends the call with its error. |
| Core.DownloadFileName | pooch_doi/core.py:51-58 | Outside the Zenodo layout the file name is the DOI's last segment, free of '/', and netloc + "/" + name is the DOI. In the Zenodo layout with three or more segments it is the segments after the second joined by '/', and netloc + "/" + name is the DOI. For a two-segment Zenodo DOI it is empty. |
| Core.ParsedFileName | pooch_doi/utils.py:42-49 | The parsed path without its '/' sits in the DOI as `DownloadFileName` describes. |
| Core.RetrieveWithoutAdapters | pooch_doi/core.py:51-52 | With no adapter registered and a resolving DOI, retrieval fails with the invalid-repository error naming the host. Only dispatch is called. |
| Core.RetrieveWithoutAdaptersExample | tests/unit/test_core.py:5-17 | The unit test's Zenodo DOI fails with `InvalidRepository("zenodo.org")` and `pooch.retrieve` is never called. |
| Core.ParseDoiExample | tests/unit/test_core.py:9 | `10.5281/zenodo.17544720` parses to that whole DOI as netloc and "/" as path. |
| Core.UrlNetlocExample | tests/unit/test_core.py:10 | The netloc of the unit test's Zenodo URL is `zenodo.org`. |

## Left out

- The HTTP request to `doi.org` is a parameter. So are entry-point loading, `requests` and the logger. The model sees the resolver's response, the loaded adapters and the log as values.
- `DefaultTimeout` (30 s) is recorded as a constant only, because time is not modelled.
- PyStr.Lower: ASCII letters only. Python's `str.lower` also lowers non-ASCII letters, which can matter only for a Zenodo keyword written with such letters.
- Repository.UrlNetloc: models scheme detection, `//` and the authority up to '/', '?' or '#'. It omits the stripping of unsafe characters, the bracket checks for IPv6 hosts and the scheme cache of `urlsplit`.
- Repository.DoiToRepository: the empty `except ()` clause catches nothing and re-raises nothing, so it is not modelled. Exceptions that are not `Exception` (such as `KeyboardInterrupt`) propagate in Python and are not modelled.
- Message texts are kept as records of their fields: the DOI, URL, host, repository name, error and issue tracker.
- `DOIPooch` (`__init__`, `fetch`, `load_registry_from_doi`, `is_available`) and `get_logger` are not part of this model.
- The abstract members `name`, `homepage`, `download_url` and `create_registry` raise `NotImplementedError` in the base class. A concrete adapter's `download_url` is a collaborator of `Core.RetrieveFromDoi`.
- `pooch.retrieve`'s own behaviour (download, hashing, caching, processors) is a collaborator; `processor` and `downloader` are known only by identity.
- DoiUtils.IsValidDoi: the function accepts every string. The repository's tests expect `11.5281/zenodo.17544720` and `10.60/m9.figshare.30511304` to be refused, but no validation rule exists in the code to model.
- Keyword binding is not modelled. The retrieval unit test passes `filename=`, which `retrieve_from_doi` does not accept. The model follows the function's parameter list (`fname`).

## Findings

| source | as written | input that shows it | evidently intended | confidence | as-written member | corrected member |
|---|---|---|---|---|---|---|
| tests/unit/test_repository.py:43-48 | The test adapters set `init_requires_request` (no final s), so both keep the default `init_requires_requests = True`. | Registering `RequestInInitDataRepository()` then `NoRequestInInitDataRepository()` sorts them as `[d1, d2]`, while the test expects `[d2, d1]`. | The second class sets `init_requires_requests = False`, so it sorts first. | not executed | Repository.AvailableRepositoriesKeepDefaultOrder | Repository.AvailableRepositoriesTestCases |
