/**
 * DOI validation and parsing (pooch_doi/utils.py).
 *
 * `ParseDoi` takes a DOI written the way pooch writes DOI URLs: an optional
 * `doi:` scheme, the DOI itself, then `/` and a file name. It cuts the string
 * into a "netloc" (the part that names the archive) and a path that starts
 * with `/`. Zenodo DOIs keep exactly two segments in the netloc, so that a
 * file name may itself contain `/`.
 */
module DoiUtils {
  import opened Wrappers
  import opened PyStr

  /** The errors `parse_doi` and `assert_valid_doi` raise. */
  datatype DoiError =
    | DoubleSlashLink(doi: string)  // ValueError: "doi://..." is refused
    | SegmentIndexError             // IndexError from `parts[1]`: no '/' after the scheme
    | InvalidDoi(doi: string)       // ValueError raised by `assert_valid_doi`

  /** The two strings `parse_doi` returns. */
  datatype DoiParts = DoiParts(netloc: string, path: string)

  const Scheme: string := "doi:"
  const LinkScheme: string := "doi://"
  const ZenodoKeyword: string := "zenodo"

  /** `is_valid_doi`: the source leaves this check unimplemented and accepts every string. */
  predicate IsValidDoi(doi: string) {
    true
  }

  /** `assert_valid_doi`: fails, naming the DOI, exactly when `IsValidDoi` rejects it. */
  function AssertValidDoi(doi: string): (r: Outcome<DoiError>)
    ensures r.Fail? <==> !IsValidDoi(doi)
    ensures r.Fail? ==> r.error == InvalidDoi(doi)
  {
    if !IsValidDoi(doi) then Fail(InvalidDoi(doi)) else Pass
  }

  /** With the validity check as written, `assert_valid_doi` never raises. */
  lemma AssertValidDoiAcceptsAll(doi: string)
    ensures AssertValidDoi(doi) == Pass
  {
  }

  /** A segment selects the Zenodo layout when it holds "zenodo" in any letter case. */
  predicate MentionsZenodo(segment: string)
    ensures MentionsZenodo(segment) <==> exists i :: OccursAt(Lower(segment), ZenodoKeyword, i)
  {
    ContainsAt(Lower(segment), ZenodoKeyword);
    Contains(Lower(segment), ZenodoKeyword)
  }

  /** Removes one leading `doi:`, if there is one. */
  function StripScheme(doi: string): (d: string)
    ensures StartsWith(doi, Scheme) ==> doi == Scheme + d
    ensures !StartsWith(doi, Scheme) ==> d == doi
  {
    if StartsWith(doi, Scheme) then doi[|Scheme|..] else doi
  }

  /**
   * The splitting half of `parse_doi`, applied to the DOI once its scheme is
   * gone. It fails exactly when there is no '/', and the path always begins
   * with '/'.
   */
  function SplitDoi(d: string): (r: Result<DoiParts, DoiError>)
    ensures r.Success? <==> '/' in d
    ensures r.Failure? ==> r.error == SegmentIndexError
    ensures r.Success? ==> |r.value.path| >= 1 && r.value.path[0] == '/'
  {
    var parts := Split(d, '/');
    if |parts| < 2 then Failure(SegmentIndexError)
    else if MentionsZenodo(parts[1]) then
      Success(DoiParts(Join(parts[..2], '/'), "/" + Join(parts[2..], '/')))
    else
      Success(DoiParts(Join(parts[..|parts| - 1], '/'), "/" + parts[|parts| - 1]))
  }

  /**
   * `parse_doi`: refuses a `doi://` link before anything else, strips one
   * `doi:`, then splits. It succeeds exactly when the input is not a
   * `doi://` link and a '/' remains after the scheme.
   */
  function ParseDoi(doi: string): (r: Result<DoiParts, DoiError>)
    ensures StartsWith(doi, LinkScheme) ==> r == Failure(DoubleSlashLink(doi))
    ensures r.Success? <==> !StartsWith(doi, LinkScheme) && '/' in StripScheme(doi)
    ensures r.Success? ==> |r.value.path| >= 1 && r.value.path[0] == '/'
  {
    if StartsWith(doi, LinkScheme) then Failure(DoubleSlashLink(doi))
    else SplitDoi(StripScheme(doi))
  }

  /** What `SplitDoi` returns outside the Zenodo layout, in terms of the pieces. */
  lemma SplitDoiNonZenodoValue(d: string, parts: seq<string>)
    requires parts == Split(d, '/') && |parts| >= 2
    requires !MentionsZenodo(parts[1])
    ensures SplitDoi(d).value == DoiParts(Join(parts[..|parts| - 1], '/'), "/" + parts[|parts| - 1])
  {
  }

  /** What `SplitDoi` returns in the Zenodo layout, in terms of the pieces. */
  lemma SplitDoiZenodoValue(d: string, parts: seq<string>)
    requires parts == Split(d, '/') && |parts| >= 2
    requires MentionsZenodo(parts[1])
    ensures SplitDoi(d).value == DoiParts(Join(parts[..2], '/'), "/" + Join(parts[2..], '/'))
  {
  }

  /**
   * Outside the Zenodo layout the cut is at the LAST '/': netloc and path
   * put back together give the DOI, and the path holds no further '/'. Those
   * three facts fix the cut, so the path is the last segment.
   */
  lemma ParseDoiCutsAtLastSlash(d: string)
    requires '/' in d
    requires !MentionsZenodo(Split(d, '/')[1])
    ensures var r := SplitDoi(d).value;
      && r.netloc + r.path == d
      && '/' !in r.path[1..]
      && r.path[1..] == Split(d, '/')[|Split(d, '/')| - 1]
  {
    var parts := Split(d, '/');
    var n := |parts|;
    var last := parts[n - 1];
    SplitDoiNonZenodoValue(d, parts);
    var r := SplitDoi(d).value;
    assert r.path == ['/'] + last;
    assert r.path[1..] == last;
    assert '/' !in last;
    JoinSnoc(parts, '/');
  }

  /**
   * In the Zenodo layout the netloc is the first two segments joined by '/'.
   * With three or more segments netloc and path give the DOI back; with
   * exactly two, the netloc is the whole DOI and the path is "/".
   */
  lemma ParseDoiZenodoLayout(d: string)
    requires '/' in d
    requires MentionsZenodo(Split(d, '/')[1])
    ensures var parts := Split(d, '/');
      var r := SplitDoi(d).value;
      && r.netloc == parts[0] + "/" + parts[1]
      && (|parts| >= 3 ==> r.netloc + r.path == d)
      && (|parts| == 2 ==> r.netloc == d && r.path == "/")
  {
    var parts := Split(d, '/');
    SplitDoiZenodoValue(d, parts);
    JoinFirstTwo(parts, '/');
  }

  /**
   * A single leading `doi:` is dropped: on anything that does not itself
   * start with "//", `ParseDoi("doi:" + d)` splits `d` as it stands.
   */
  lemma ParseDoiStripsOneScheme(d: string)
    requires !StartsWith(d, "//")
    ensures ParseDoi(Scheme + d) == SplitDoi(d)
  {
    var doi := Scheme + d;
    assert StartsWith(doi, Scheme);
    assert doi[|Scheme|..] == d;
    if |d| >= 2 {
      assert doi[..|LinkScheme|] == Scheme + d[..2];
      assert (Scheme + d[..2])[|Scheme|..] == d[..2];
      assert LinkScheme[|Scheme|..] == "//";
    }
  }

  /**
   * Hence the scheme is optional: with or without `doi:`, a DOI that starts
   * neither with "//" nor with another `doi:` parses the same.
   */
  lemma ParseDoiSchemeOptional(d: string)
    requires !StartsWith(d, "//") && !StartsWith(d, Scheme)
    ensures ParseDoi(Scheme + d) == ParseDoi(d)
  {
    ParseDoiStripsOneScheme(d);
    LinkHasScheme(d);
    assert StripScheme(d) == d;
  }

  /** A `doi://` link starts with `doi:`. */
  lemma LinkHasScheme(doi: string)
    ensures StartsWith(doi, LinkScheme) ==> StartsWith(doi, Scheme)
  {
    if StartsWith(doi, LinkScheme) {
      assert doi[..|Scheme|] == doi[..|LinkScheme|][..|Scheme|];
    }
  }
}
