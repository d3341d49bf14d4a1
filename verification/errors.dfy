/** The JSON error responses of the API routes
    (src/lib/api/error-handler.ts): a status code, an `error` text and an
    optional `details` text. Logging to the console is not modelled. */
module ErrorHandler {
  import opened Wrappers

  /** The body `{ error, details? }` with its HTTP status. A `details` key
      whose value is `undefined` is dropped from the JSON, so it is `None`. */
  datatype ErrorResponse = ErrorResponse(status: int, error: string, details: Option<string>)

  /** What the GitHub client throws, seen through `error.status` and
      `error.message`, either of which may be missing. */
  datatype GitHubFailure = GitHubFailure(status: Option<int>, message: Option<string>)

  /** A caught value: an `Error` instance with its message, or anything else. */
  datatype Thrown = ErrorInstance(message: string) | OtherValue

  const NotFoundText := "Repository not found or access denied"
  const ForbiddenText := "GitHub API access denied. Please check your permissions."
  const EmptyRepoText := "Repository is empty or has no commits"
  const GitHubErrorText := "GitHub API error"
  const InternalErrorText := "Internal server error"
  const UnknownErrorText := "Unknown error"

  /** The statuses passed through unchanged. */
  predicate IsKnownGitHubStatus(s: Option<int>) {
    s == Some(404) || s == Some(403) || s == Some(409)
  }

  /** `handleGitHubError`: 404, 403 and 409 keep their status with a fixed
      text and no details; anything else, a missing status included,
      becomes 500 with the thrown message as details. */
  function HandleGitHubError(e: GitHubFailure): (r: ErrorResponse)
    ensures IsKnownGitHubStatus(e.status) ==> Some(r.status) == e.status && r.details == None
    ensures !IsKnownGitHubStatus(e.status) ==> r == ErrorResponse(500, GitHubErrorText, e.message)
    ensures r.status == 404 <==> r.error == NotFoundText
    ensures r.status == 403 <==> r.error == ForbiddenText
    ensures r.status == 409 <==> r.error == EmptyRepoText
    ensures r.status in {403, 404, 409, 500}
  {
    if e.status == Some(404) then ErrorResponse(404, NotFoundText, None)
    else if e.status == Some(403) then ErrorResponse(403, ForbiddenText, None)
    else if e.status == Some(409) then ErrorResponse(409, EmptyRepoText, None)
    else ErrorResponse(500, GitHubErrorText, e.message)
  }

  /** The error text alone tells which status the GitHub mapping chose. */
  lemma GitHubTextDeterminesStatus(a: GitHubFailure, b: GitHubFailure)
    ensures HandleGitHubError(a).error == HandleGitHubError(b).error ==> HandleGitHubError(a).status == HandleGitHubError(b).status
  {
    var ra, rb := HandleGitHubError(a), HandleGitHubError(b);
    if ra.error == rb.error && ra.status == 500 {
      assert |GitHubErrorText| == 16;
      assert rb.error == GitHubErrorText;
    }
  }

  /** `handleAPIError`: always 500 "Internal server error", with the
      `Error`'s message as details, or "Unknown error" for anything else. */
  function HandleAPIError(t: Thrown): (r: ErrorResponse)
    ensures r.status == 500 && r.error == InternalErrorText && r.details.Some?
    ensures t.ErrorInstance? ==> r.details == Some(t.message)
    ensures t.OtherValue? ==> r.details == Some(UnknownErrorText)
  {
    ErrorResponse(500, InternalErrorText, Some(if t.ErrorInstance? then t.message else UnknownErrorText))
  }

  /** The catch-all response could equally be built by `createErrorResponse`
      with status 500, unless an `Error` with an empty message was thrown. */
  lemma APIErrorIsCreatable(t: Thrown)
    requires t != ErrorInstance("")
    ensures CreateErrorResponse(InternalErrorText, Some(500), HandleAPIError(t).details) == HandleAPIError(t)
  {
    assert UnknownErrorText != "";
  }

  /** `createErrorResponse`: the status defaults to 400, and `details` is
      spread in only when it is a non-empty string (the empty string is
      falsy). */
  function CreateErrorResponse(message: string, status: Option<int>, details: Option<string>): (r: ErrorResponse)
    ensures r.error == message
    ensures status.None? ==> r.status == 400
    ensures status.Some? ==> r.status == status.value
    ensures r.details.Some? <==> details.Some? && details.value != ""
    ensures r.details.Some? ==> r.details == details
  {
    ErrorResponse(status.GetOr(400), message, if details.Some? && details.value != "" then details else None)
  }

  /** Every response whose details, if present, are non-empty is what
      `createErrorResponse` builds from its own parts. */
  lemma CreateErrorResponseRebuilds(r: ErrorResponse)
    requires r.details != Some("")
    ensures CreateErrorResponse(r.error, Some(r.status), r.details) == r
  {
  }

  /** So the GitHub mapping's responses could equally be built by
      `createErrorResponse`, unless GitHub threw an empty message. */
  lemma GitHubErrorIsCreatable(e: GitHubFailure)
    requires e.message != Some("")
    ensures CreateErrorResponse(HandleGitHubError(e).error, Some(HandleGitHubError(e).status), HandleGitHubError(e).details)
         == HandleGitHubError(e)
  {
    CreateErrorResponseRebuilds(HandleGitHubError(e));
  }
}
