/** The pure parts of the dashboard page: checking the create form and
    building the request, turning a failed create into a message, shortening
    long URLs for display, and the filter box. */
module Dashboard {
  import opened Wrappers
  import opened Text
  import opened Schema
  import opened Codes
  import Links

  const UrlRequiredMessage := "URL is required"
  const InvalidUrlMessage := "Invalid URL format"
  const InvalidCodeMessage := "Code must be 6-8 characters long and contain only letters and numbers"
  const CodeExistsMessage := "Code already exists"
  const InvalidInputMessage := "Invalid input"
  const CreateFailedMessage := "Failed to create link"

  /** The two form fields, as typed. */
  datatype Form = Form(url: string, code: string)

  /** The POST body: `code` is present only when the user typed one. */
  datatype Payload = Payload(url: string, code: Option<string>)

  /** What submitting the form does: show an error and send nothing, or send
      a create request. */
  datatype Submission = ShowError(message: string) | Send(payload: Payload)

  /** `handleSubmit` up to the request. The url must be non-blank and parse;
      a non-blank code must match `^[A-Za-z0-9]{6,8}$` as typed. The payload
      carries the url untrimmed and the code trimmed, and only when non-blank;
      a code that passed the regex has no whitespace, so trimming keeps it
      as typed and valid. */
  function Submit(form: Form, urlParses: string -> bool): (s: Submission)
    ensures Trim(form.url) == [] ==> s == ShowError(UrlRequiredMessage)
    ensures Trim(form.url) != [] && !urlParses(form.url) ==> s == ShowError(InvalidUrlMessage)
    ensures Trim(form.url) != [] && urlParses(form.url) && Trim(form.code) != [] && !IsValidCode(form.code) ==>
      s == ShowError(InvalidCodeMessage)
    ensures s.Send? <==>
      Trim(form.url) != [] && urlParses(form.url) && (Trim(form.code) == [] || IsValidCode(form.code))
    ensures s.Send? ==> s.payload.url == form.url
    ensures s.Send? ==> (s.payload.code.Some? <==> Trim(form.code) != [])
    ensures s.Send? && s.payload.code.Some? ==> s.payload.code.value == form.code && IsValidCode(s.payload.code.value)
  {
    if Trim(form.url) == [] then ShowError(UrlRequiredMessage)
    else if !urlParses(form.url) then ShowError(InvalidUrlMessage)
    else if Trim(form.code) != [] && !IsValidCode(form.code) then ShowError(InvalidCodeMessage)
    else if Trim(form.code) != [] then
      CodeHasNoWhitespace(form.code);
      Send(Payload(form.url, Some(Trim(form.code))))
    else Send(Payload(form.url, None))
  }

  lemma CodeHasNoWhitespace(code: string)
    requires IsValidCode(code)
    ensures Trim(code) == code
  {
    forall i | 0 <= i < |code| ensures !IsJsWhitespace(code[i]) {
      AlnumIsNotWhitespace(code[i]);
    }
    TrimNoWhitespace(code);
  }

  /** A request the dashboard sends never fails the server's input checks
      (both sides parse the url with the same URL parser): the create either
      succeeds, or hits an existing code, or fails with 500, because the
      generated codes ran out or the insert refused a url holding U+0000. */
  lemma SentFormPassesServerChecks(form: Form, urlParses: string -> bool, store: Store,
                                   candidates: seq<seq<AlphabetIndex>>, now: Time)
    requires Links.EnoughCandidates(candidates)
    requires Submit(form, urlParses).Send?
    ensures var p := Submit(form, urlParses).payload;
            Links.CreateLink(store, Some(p.url), p.code, candidates, now, urlParses).status in {201, 409, 500}
  {
    var p := Submit(form, urlParses).payload;
    assert |Trim(form.url)| <= |p.url|;
    assert Links.UrlAccepted(Some(p.url), urlParses);
    assert Links.Truthy(p.code) ==> IsValidCode(p.code.value);
  }

  /** How a create request can fail on the client side: no response at all,
      or an HTTP error with the `error` field of its JSON body. */
  datatype CreateFailure = NoResponse | HttpError(status: nat, error: Option<string>)

  /** The `catch` of `handleSubmit`: 409 and 400 get their own texts (400
      shows the server's message when it sent a non-empty one), everything
      else a generic one. The user never sees an empty message. */
  function CreateErrorText(failure: CreateFailure): (message: string)
    ensures message != []
    ensures failure.HttpError? && failure.status == 409 ==> message == CodeExistsMessage
    ensures failure.HttpError? && failure.status == 400 ==>
      message == (if Links.Truthy(failure.error) then failure.error.value else InvalidInputMessage)
    ensures !(failure.HttpError? && failure.status in {400, 409}) ==> message == CreateFailedMessage
  {
    match failure
    case HttpError(409, _) => CodeExistsMessage
    case HttpError(400, error) => if Links.Truthy(error) then error.value else InvalidInputMessage
    case _ => CreateFailedMessage
  }

  /** The message the dashboard shows for each way the server refuses a
      create: the server's own text for bad input, the conflict text for a
      taken code, and the generic text for either 500 (code generation
      exhausted, or the insert failed). */
  lemma FailedCreateMessages(store: Store, url: Option<string>, code: Option<string>,
                             candidates: seq<seq<AlphabetIndex>>, now: Time, urlParses: string -> bool)
    requires Links.EnoughCandidates(candidates)
    requires Links.CreateLink(store, url, code, candidates, now, urlParses).status != 201
    ensures var r := Links.CreateLink(store, url, code, candidates, now, urlParses);
            var shown := CreateErrorText(HttpError(r.status, Some(r.body.message)));
            && (r.status == 400 ==> shown == r.body.message)
            && (r.status == 400 ==> shown in {Links.InvalidUrlMessage, Links.InvalidCodeMessage})
            && (r.status == 409 ==> shown == CodeExistsMessage)
            && (r.status == 500 ==> shown == CreateFailedMessage)
  {
  }

  /** `truncateUrl(url, maxLength)`: a url that fits is shown whole; a longer
      one is cut to its first `maxLength` characters and marked with `...`.
      Either way the text starts like the url and is at most three characters
      longer than `maxLength`. */
  function TruncateUrl(url: string, maxLength: nat): (shown: string)
    ensures |url| <= maxLength ==> shown == url
    ensures |url| > maxLength ==> |shown| == maxLength + 3 && shown[maxLength..] == "..."
    ensures |shown| <= maxLength + 3
    ensures var n := if |url| <= maxLength then |url| else maxLength;
            shown[..n] == url[..n]
  {
    if |url| > maxLength then url[..maxLength] + "..." else url
  }

  /** Exactly which urls `truncateUrl` shows unchanged: those that fit, and
      those exactly three characters too long that already end in `...`.
      Urls one or two characters too long are shown longer than they are. */
  lemma TruncateUrlUnchangedIff(url: string, maxLength: nat)
    ensures TruncateUrl(url, maxLength) == url <==>
      |url| <= maxLength || (|url| == maxLength + 3 && url[maxLength..] == "...")
    ensures maxLength < |url| < maxLength + 3 ==> |TruncateUrl(url, maxLength)| > |url|
  {
    var shown := TruncateUrl(url, maxLength);
    if |url| == maxLength + 3 && url[maxLength..] == "..." {
      assert url == url[..maxLength] + url[maxLength..];
    }
  }

  /** The filter predicate: the lower-cased filter text occurs in the
      lower-cased code or the lower-cased url. */
  predicate MatchesFilter(link: Link, filterText: string) {
    Contains(Lower(link.code), Lower(filterText)) || Contains(Lower(link.url), Lower(filterText))
  }

  /** `a` is `b` with some elements removed, order kept. */
  predicate IsSubsequence(a: seq<Link>, b: seq<Link>)
    decreases |b|
  {
    if a == [] then true
    else if b == [] then false
    else if a[0] == b[0] then IsSubsequence(a[1..], b[1..])
    else IsSubsequence(a, b[1..])
  }

  /** `links.filter(...)`: the matching links, in their original order. */
  function FilterLinks(links: seq<Link>, filterText: string): (kept: seq<Link>)
    ensures IsSubsequence(kept, links)
    ensures forall i :: 0 <= i < |kept| ==> MatchesFilter(kept[i], filterText)
    ensures forall x :: x in kept <==> x in links && MatchesFilter(x, filterText)
    ensures forall x :: multiset(kept)[x] == if MatchesFilter(x, filterText) then multiset(links)[x] else 0
    decreases |links|
  {
    if links == [] then []
    else
      var rest := FilterLinks(links[1..], filterText);
      assert links == [links[0]] + links[1..];
      assert multiset(links) == multiset{links[0]} + multiset(links[1..]);
      if MatchesFilter(links[0], filterText) then [links[0]] + rest else rest
  }

  /** An empty filter keeps every link. */
  lemma {:induction false} EmptyFilterKeepsAll(links: seq<Link>)
    ensures FilterLinks(links, "") == links
    decreases |links|
  {
    if links != [] {
      ContainsEmpty(Lower(links[0].code));
      assert Lower("") == "";
      assert MatchesFilter(links[0], "");
      EmptyFilterKeepsAll(links[1..]);
    }
  }

  /** Filtering ignores letter case in the filter text. */
  lemma {:induction false} FilterIgnoresCase(links: seq<Link>, filterText: string)
    ensures FilterLinks(links, Lower(filterText)) == FilterLinks(links, filterText)
    decreases |links|
  {
    if links != [] {
      LowerIdempotent(filterText);
      assert MatchesFilter(links[0], Lower(filterText)) == MatchesFilter(links[0], filterText);
      FilterIgnoresCase(links[1..], filterText);
    }
  }

  /** Typing a link's own code, in any letter case, keeps that link. */
  lemma FilterByCodeKeepsLink(links: seq<Link>, link: Link, filterText: string)
    requires link in links && Lower(filterText) == Lower(link.code)
    ensures link in FilterLinks(links, filterText)
  {
    var lc := Lower(link.code);
    assert lc <= lc;
  }
}
